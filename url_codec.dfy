/** The codec of the URL store: the URL-safe base64 text of a byte array, and
    the application state packed (MessagePack), compressed (zlib) and written
    as that text, with the way back. MessagePack and zlib are libraries the
    store calls; they are parameters here (`Codec`). */
module UrlCodec {
  import opened Wrappers
  import opened JsStrings
  import opened Coordinates
  import opened Base64

  // ---------------------------------------------------------------------
  // toBase64URL / fromBase64URL

  /** A character of the URL-safe alphabet of section 5 of RFC 4648. */
  predicate IsUrlChar(c: char) {
    'A' <= c <= 'Z' || 'a' <= c <= 'z' || '0' <= c <= '9' || c == '-' || c == '_'
  }

  /** The URL-safe character that stands where `btoa` wrote `c`. */
  function ToUrlAlphabet(c: char): char {
    if c == '+' then '-' else if c == '/' then '_' else c
  }

  /** `toBase64URL(u8)`: `btoa`, then `+` to `-`, `/` to `_`, and every `=` removed.
      The token is the unpadded base64 text of the bytes in the URL-safe alphabet. */
  function ToBase64Url(bytes: seq<uint8>): (token: string)
    ensures |token| == UnpaddedLength(|bytes|)
    ensures forall i :: 0 <= i < |token| ==> IsUrlChar(token[i])
    ensures forall i :: 0 <= i < |token| ==> token[i] == ToUrlAlphabet(EncodeGroups(bytes)[i])
  {
    UrlAlphabetOfBtoa(bytes);
    RemoveAll(ReplaceAll(ReplaceAll(Btoa(bytes), '+', '-'), '/', '_'), '=')
  }

  /** The unpadded `btoa` text in the URL-safe alphabet. */
  ghost function UrlGroups(bytes: seq<uint8>): (u: string)
    ensures |u| == |EncodeGroups(bytes)|
    ensures forall i :: 0 <= i < |u| ==> u[i] == ToUrlAlphabet(EncodeGroups(bytes)[i]) && IsUrlChar(u[i])
  {
    var e := EncodeGroups(bytes);
    seq(|e|, i requires 0 <= i < |e| => ToUrlAlphabet(e[i]))
  }

  lemma UrlAlphabetOfBtoa(bytes: seq<uint8>)
    ensures RemoveAll(ReplaceAll(ReplaceAll(Btoa(bytes), '+', '-'), '/', '_'), '=') == UrlGroups(bytes)
  {
    var url := ReplaceAll(ReplaceAll(Btoa(bytes), '+', '-'), '/', '_');
    var ue := UrlGroups(bytes);
    var p := Padding(|bytes|);
    assert url == ue + p;
    RemoveAllAppend(ue, p, '=');
    RemoveAllAbsent(ue, '=');
    RemoveAllOnly(p, '=');
  }

  /** The padding `fromBase64URL` puts back: `=` up to the next multiple of four. */
  function RestorePadding(s: string): (padded: string)
    ensures |s| <= |padded| < |s| + 4 && |padded| % 4 == 0
    ensures padded[..|s|] == s
    ensures forall i :: |s| <= i < |padded| ==> padded[i] == '='
  {
    var pad := |s| % 4;
    if pad != 0 then s + Repeat('=', 4 - pad) else s
  }

  /** The byte each character of a binary string is stored as in a `Uint8Array`. */
  function CharCodes(binary: string): (bytes: seq<uint8>)
    ensures |bytes| == |binary|
    ensures forall i :: 0 <= i < |binary| ==> bytes[i] == (binary[i] as int) % 256
  {
    seq(|binary|, i requires 0 <= i < |binary| => (binary[i] as int) % 256)
  }

  /** What `fromBase64URL(token)` returns, with `None` where `atob` throws. */
  function DecodeBase64Url(token: string): (r: Option<seq<uint8>>)
  {
    var base64 := ReplaceAll(ReplaceAll(token, '-', '+'), '_', '/');
    match Atob(RestorePadding(base64))
    case None => None
    case Some(binary) => Some(CharCodes(binary))
  }

  /** The loop of `fromBase64URL`: the character codes of the binary string
      copied one by one into a new `Uint8Array`. */
  method CopyCharCodes(binary: string) returns (bytes: array<uint8>)
    ensures fresh(bytes)
    ensures bytes[..] == CharCodes(binary)
  {
    bytes := new uint8[|binary|];
    var i := 0;
    while i < |binary|
      invariant 0 <= i <= |binary|
      invariant forall j :: 0 <= j < i ==> bytes[j] == (binary[j] as int) % 256
    {
      bytes[i] := (binary[i] as int) % 256;
      i := i + 1;
    }
  }

  /** `fromBase64URL(token)`: the alphabet and padding put back, `atob`, and
      the binary string copied into a byte array. */
  method FromBase64Url(token: string) returns (r: Option<seq<uint8>>)
    ensures r == DecodeBase64Url(token)
  {
    var base64 := ReplaceAll(ReplaceAll(token, '-', '+'), '_', '/');
    var binary := Atob(RestorePadding(base64));
    if binary.None? {
      return None;
    }
    var bytes := CopyCharCodes(binary.value);
    return Some(bytes[..]);
  }

  lemma RestorePaddingOfEncodeGroups(b: seq<uint8>)
    ensures RestorePadding(EncodeGroups(b)) == Btoa(b)
  {
    var e := EncodeGroups(b);
    UnpaddedLengthMod(|b|);
    if |b| % 3 == 1 {
      assert Repeat('=', 2) == "==";
    } else if |b| % 3 == 2 {
      assert Repeat('=', 1) == "=";
    }
  }

  /** Putting the standard alphabet back into a token gives the unpadded `btoa` text. */
  lemma StdAlphabetOfToken(b: seq<uint8>)
    ensures ReplaceAll(ReplaceAll(ToBase64Url(b), '-', '+'), '_', '/') == EncodeGroups(b)
  {
    var token := ToBase64Url(b);
    var e := EncodeGroups(b);
    var base64 := ReplaceAll(ReplaceAll(token, '-', '+'), '_', '/');
    forall i | 0 <= i < |e|
      ensures base64[i] == e[i]
    {
      assert IsStdChar(e[i]);
    }
  }

  lemma CharCodesLatin1(b: seq<uint8>)
    ensures CharCodes(Latin1(b)) == b
  {
  }

  /** `fromBase64URL` undoes `toBase64URL`. */
  lemma Base64UrlRoundTrip(b: seq<uint8>)
    ensures DecodeBase64Url(ToBase64Url(b)) == Some(b)
  {
    StdAlphabetOfToken(b);
    RestorePaddingOfEncodeGroups(b);
    AtobBtoa(b);
    CharCodesLatin1(b);
  }

  /** A token whose length leaves remainder one by four does not decode:
      padding it appends three `=`, and `atob` takes off at most two. */
  lemma RemainderOneRejected(token: string)
    requires |token| % 4 == 1
    ensures DecodeBase64Url(token) == None
  {
    var base64 := ReplaceAll(ReplaceAll(token, '-', '+'), '_', '/');
    var padded := RestorePadding(base64);
    assert |padded| == |base64| + 3;
    AtobRejectsThreePads(padded);
  }

  /** A character that is neither in either base64 alphabet, nor `=`, nor ASCII
      white space makes the whole token fail, wherever it stands. */
  lemma ForeignCharRejected(token: string, k: nat)
    requires k < |token|
    requires !IsStdChar(token[k]) && !IsUrlChar(token[k]) && token[k] != '='
    requires !IsAsciiWhitespace(token[k])
    ensures DecodeBase64Url(token) == None
  {
    var base64 := ReplaceAll(ReplaceAll(token, '-', '+'), '_', '/');
    var padded := RestorePadding(base64);
    assert padded[k] == base64[k] == token[k];
    AtobRejectsForeign(padded, k);
  }

  /** The standard alphabet and `=` padding are accepted as well. */
  lemma StandardTokenAccepted(b: seq<uint8>)
    ensures DecodeBase64Url(Btoa(b)) == Some(b)
  {
    var s := Btoa(b);
    var base64 := ReplaceAll(ReplaceAll(s, '-', '+'), '_', '/');
    forall i | 0 <= i < |s|
      ensures base64[i] == s[i]
    {
      assert IsStdChar(s[i]) || s[i] == '=';
    }
    assert base64 == s;
    assert RestorePadding(s) == s;
    AtobBtoa(b);
    CharCodesLatin1(b);
  }

  // ---------------------------------------------------------------------
  // serialize / deserialize

  /** The live application state (`AppState`). */
  datatype AppState = AppState(code: string, positions: PositionMap, themeId: int, directionId: int)

  /** A `[version, code, positions, [themeId, directionId]]` tuple as unpacked
      from a token: any slot may be missing (`undefined` or `null`). */
  datatype SerializedState = SerializedState(
    version: Option<int>,
    code: Option<string>,
    positions: Option<PositionMap>,
    settings: Option<seq<Option<int>>>)

  /** What `deserialize` hands back: each field may be absent. */
  datatype Restored = Restored(
    code: Option<string>,
    positions: Option<PositionMap>,
    themeId: Option<int>,
    directionId: Option<int>)

  /** The two libraries the codec calls: MessagePack (`pack`, and `unpack`, which
      throws on bad input) and zlib (`deflate`, and `inflate`, which throws on a
      corrupt stream). */
  datatype Codec = Codec(
    pack: SerializedState -> seq<uint8>,
    unpack: seq<uint8> -> Option<SerializedState>,
    deflate: seq<uint8> -> seq<uint8>,
    inflate: seq<uint8> -> Option<seq<uint8>>)

  /** The libraries invert each other, and a zlib stream is never empty (it
      starts with a two-byte header, section 2.2 of RFC 1950). */
  ghost predicate Lossless(c: Codec) {
    (forall t :: c.unpack(c.pack(t)) == Some(t)) &&
    (forall bs :: c.inflate(c.deflate(bs)) == Some(bs)) &&
    (forall bs :: |c.deflate(bs)| >= 2)
  }

  /** The tuple `serialize` packs: version 1, the code, the positions and the two ids. */
  function Tuple(s: AppState): (t: SerializedState)
    ensures t.version == Some(1)
    ensures t.settings == Some([Some(s.themeId), Some(s.directionId)])
  {
    SerializedState(Some(1), Some(s.code), Some(s.positions), Some([Some(s.themeId), Some(s.directionId)]))
  }

  /** `serialize(state)`: pack, deflate, URL-safe base64. */
  function Serialize(s: AppState, c: Codec): (token: string)
    ensures forall i :: 0 <= i < |token| ==> IsUrlChar(token[i])
    ensures |token| == UnpaddedLength(|c.deflate(c.pack(Tuple(s)))|)
  {
    ToBase64Url(c.deflate(c.pack(Tuple(s))))
  }

  /** `hash.replace(/^#/, '')`: one leading `#` is dropped. */
  function StripHash(hash: string): (token: string)
    ensures hash != [] && hash[0] == '#' ==> token == hash[1..]
    ensures hash == [] || hash[0] != '#' ==> token == hash
  {
    if hash != [] && hash[0] == '#' then hash[1..] else hash
  }

  /** `arr[i]` on a JavaScript array: `undefined` past the end. */
  function Slot(settings: seq<Option<int>>, i: nat): (v: Option<int>)
    ensures i < |settings| ==> v == settings[i]
    ensures i >= |settings| ==> v == None
  {
    if i < |settings| then settings[i] else None
  }

  /** Reading the fields out of an unpacked tuple. The version is never looked
      at; a missing settings pair makes `tuple[3][0]` throw. */
  function Interpret(t: SerializedState): (r: Option<Restored>)
    ensures r.None? <==> t.settings.None?
    ensures r.Some? ==> r.value.code == t.code && r.value.positions == t.positions
  {
    match t.settings
    case None => None
    case Some(pair) => Some(Restored(t.code, t.positions, Slot(pair, 0), Slot(pair, 1)))
  }

  /** `deserialize(hash)`, with `None` for `null` (an empty hash, or any step
      throwing). */
  function Deserialize(hash: string, c: Codec): (r: Option<Restored>)
    ensures hash == "" ==> r.None?
  {
    if hash == "" then None
    else
      match DecodeBase64Url(StripHash(hash))
      case None => None
      case Some(compressed) =>
        match c.inflate(compressed)
        case None => None
        case Some(packed) =>
          match c.unpack(packed)
          case None => None
          case Some(t) => Interpret(t)
  }

  /** A token is never empty and never starts with `#`. */
  lemma SerializeShape(s: AppState, c: Codec)
    requires |c.deflate(c.pack(Tuple(s)))| >= 2
    ensures Serialize(s, c) != "" && Serialize(s, c)[0] != '#'
  {
    var token := Serialize(s, c);
    assert |token| >= 2;
    assert IsUrlChar(token[0]);
  }

  /** A token made from a packed and deflated tuple unpacks to that tuple,
      with or without a leading `#`. */
  lemma DeserializeToken(t: SerializedState, c: Codec, token: string)
    requires Lossless(c)
    requires token == ToBase64Url(c.deflate(c.pack(t)))
    ensures Deserialize(token, c) == Interpret(t)
    ensures Deserialize("#" + token, c) == Deserialize(token, c)
  {
    var packed := c.pack(t);
    var compressed := c.deflate(packed);
    assert |compressed| >= 2;
    assert |token| >= 2 && IsUrlChar(token[0]);
    assert StripHash(token) == token;
    assert StripHash("#" + token) == token;
    Base64UrlRoundTrip(compressed);
    assert c.inflate(compressed) == Some(packed);
    assert c.unpack(packed) == Some(t);
  }

  /** Every field of a state comes back from its token, with or without the `#`
      the location puts in front of it. */
  lemma DeserializeSerialize(s: AppState, c: Codec)
    requires Lossless(c)
    ensures Deserialize(Serialize(s, c), c)
         == Some(Restored(Some(s.code), Some(s.positions), Some(s.themeId), Some(s.directionId)))
    ensures Deserialize("#" + Serialize(s, c), c) == Deserialize(Serialize(s, c), c)
  {
    DeserializeToken(Tuple(s), c, Serialize(s, c));
  }

  /** The version in slot 0 is not checked: a tuple of any version, or none,
      restores the same fields. */
  lemma {:induction false} AnyVersionAccepted(hash: string, c: Codec, packed: seq<uint8>, t: SerializedState, v: Option<int>)
    requires hash != ""
    requires DecodeBase64Url(StripHash(hash)).Some?
    requires c.inflate(DecodeBase64Url(StripHash(hash)).value) == Some(packed)
    requires c.unpack(packed) == Some(t)
    ensures Deserialize(hash, c) == Interpret(t.(version := v))
    ensures t.settings.Some? ==> Deserialize(hash, c).Some?
  {
    assert Interpret(t.(version := v)) == Interpret(t);
  }

  /** A tuple without the settings pair does not restore anything, not even
      the code and positions it carries. */
  lemma MissingSettingsRejected(hash: string, c: Codec, packed: seq<uint8>, t: SerializedState)
    requires hash != ""
    requires DecodeBase64Url(StripHash(hash)).Some?
    requires c.inflate(DecodeBase64Url(StripHash(hash)).value) == Some(packed)
    requires c.unpack(packed) == Some(t)
    requires t.settings.None?
    ensures Deserialize(hash, c) == None
  {
  }

  /** Only one `#` is dropped: a token written after two of them does not decode. */
  lemma DoubleHashRejected(token: string, c: Codec)
    ensures Deserialize("##" + token, c) == None
  {
    var hash := "##" + token;
    assert StripHash(hash) == "#" + token;
    ForeignCharRejected("#" + token, 0);
  }
}
