/** The two browser primitives the codec stands on: `btoa` applied to the
    bytes of a `Uint8Array` (the base64 encoding of section 4 of RFC 4648,
    with `=` padding), and `atob` (the forgiving-base64 decode of the HTML
    standard, which throws on malformed input). */
module Base64 {
  import opened Wrappers
  import opened JsStrings

  /** An element of a `Uint8Array`. */
  type uint8 = x: int | 0 <= x < 256

  /** A character of the base64 alphabet (RFC 4648, section 4, table 1). */
  predicate IsStdChar(c: char) {
    'A' <= c <= 'Z' || 'a' <= c <= 'z' || '0' <= c <= '9' || c == '+' || c == '/'
  }

  /** The character that encodes the 6-bit value `v`. */
  function StdChar(v: int): (c: char)
    requires 0 <= v < 64
    ensures IsStdChar(c)
  {
    if v < 26 then (65 + v) as char
    else if v < 52 then (97 + v - 26) as char
    else if v < 62 then (48 + v - 52) as char
    else if v == 62 then '+'
    else '/'
  }

  /** The 6-bit value a base64 character stands for; inverse of StdChar. */
  function StdValue(c: char): (v: int)
    requires IsStdChar(c)
    ensures 0 <= v < 64 && StdChar(v) == c
  {
    if 'A' <= c <= 'Z' then c as int - 65
    else if 'a' <= c <= 'z' then c as int - 97 + 26
    else if '0' <= c <= '9' then c as int - 48 + 52
    else if c == '+' then 62
    else 63
  }

  lemma StdValueOfStdChar(v: int)
    requires 0 <= v < 64
    ensures StdValue(StdChar(v)) == v
  {
  }

  /** The number of characters that encode `n` bytes once the padding is
      left off: ceil(4n / 3), which is four per whole group of three bytes
      plus two or three for a final group of one or two. */
  function UnpaddedLength(n: nat): (k: nat)
    ensures k == 4 * (n / 3) + (if n % 3 == 0 then 0 else n % 3 + 1)
  {
    GroupArithmetic(n);
    (4 * n + 2) / 3
  }

  lemma GroupArithmetic(n: nat)
    ensures (4 * n + 2) / 3 == 4 * (n / 3) + (if n % 3 == 0 then 0 else n % 3 + 1)
  {
    var q, r := n / 3, n % 3;
    assert n == 3 * q + r;
    if r == 0 {
      assert 4 * n + 2 == 3 * (4 * q) + 2;
    } else if r == 1 {
      assert 4 * n + 2 == 3 * (4 * q + 2);
    } else {
      assert 4 * n + 2 == 3 * (4 * q + 3) + 1;
    }
  }

  /** The base64 characters for `b`, three bytes to four characters, a
      final group of one or two bytes giving two or three characters. */
  function Sextet0(b0: uint8): (v: int)
    ensures 0 <= v < 64
  {
    b0 / 4
  }

  function Sextet1(b0: uint8, b1: uint8): (v: int)
    ensures 0 <= v < 64
  {
    (b0 % 4) * 16 + b1 / 16
  }

  function Sextet2(b1: uint8, b2: uint8): (v: int)
    ensures 0 <= v < 64
  {
    (b1 % 16) * 4 + b2 / 64
  }

  function Sextet3(b2: uint8): (v: int)
    ensures 0 <= v < 64
  {
    b2 % 64
  }

  function EncodeGroups(b: seq<uint8>): (s: string)
    ensures |s| == UnpaddedLength(|b|)
    ensures forall i :: 0 <= i < |s| ==> IsStdChar(s[i])
    decreases |b|
  {
    if |b| == 0 then ""
    else if |b| == 1 then
      [StdChar(Sextet0(b[0])), StdChar(Sextet1(b[0], 0))]
    else if |b| == 2 then
      [StdChar(Sextet0(b[0])), StdChar(Sextet1(b[0], b[1])), StdChar(Sextet2(b[1], 0))]
    else
      UnpaddedLengthStep(|b| - 3);
      Quad(b[0], b[1], b[2]) + EncodeGroups(b[3..])
  }

  /** The four characters of a full group of three bytes. */
  function Quad(b0: uint8, b1: uint8, b2: uint8): (s: string)
    ensures |s| == 4 && forall i :: 0 <= i < 4 ==> IsStdChar(s[i])
  {
    [StdChar(Sextet0(b0)), StdChar(Sextet1(b0, b1)), StdChar(Sextet2(b1, b2)), StdChar(Sextet3(b2))]
  }

  /** The `=` characters that complete the last group of `n` bytes. */
  function Padding(n: nat): (p: string)
    ensures (UnpaddedLength(n) + |p|) % 4 == 0 && |p| < 3
    ensures forall i :: 0 <= i < |p| ==> p[i] == '='
  {
    if n % 3 == 1 then "==" else if n % 3 == 2 then "=" else ""
  }

  /** `btoa(String.fromCharCode(...b))` */
  function Btoa(b: seq<uint8>): (s: string)
    ensures |s| % 4 == 0
    ensures forall i :: 0 <= i < |s| ==> IsStdChar(s[i]) || s[i] == '='
  {
    EncodeGroups(b) + Padding(|b|)
  }

  /** The characters the forgiving-base64 decode removes before it starts. */
  predicate IsAsciiWhitespace(c: char) {
    c == '\t' || c == '\n' || c == '\U{C}' || c == '\r' || c == ' '
  }

  /** Step 1 of the forgiving-base64 decode: ASCII white space is removed and
      the other characters are kept in order (with RemoveAsciiWhitespaceAppend,
      the contract fixes the result: a white-space character goes, any other
      stays, and a text is handled piece by piece). */
  function RemoveAsciiWhitespace(s: string): (r: string)
    ensures |r| <= |s|
    ensures forall i :: 0 <= i < |r| ==> !IsAsciiWhitespace(r[i])
    ensures (forall i :: 0 <= i < |s| ==> IsAsciiWhitespace(s[i])) ==> r == []
    ensures forall c :: c in s && !IsAsciiWhitespace(c) ==> c in r
    ensures (forall i :: 0 <= i < |s| ==> !IsAsciiWhitespace(s[i])) ==> r == s
    decreases |s|
  {
    if s == [] then []
    else if IsAsciiWhitespace(s[0]) then RemoveAsciiWhitespace(s[1..])
    else [s[0]] + RemoveAsciiWhitespace(s[1..])
  }

  /** The first character goes if it is white space and stays otherwise. */
  lemma RemoveAsciiWhitespaceCons(c: char, s: string)
    ensures RemoveAsciiWhitespace([c] + s)
         == (if IsAsciiWhitespace(c) then [] else [c]) + RemoveAsciiWhitespace(s)
  {
    assert ([c] + s)[0] == c && ([c] + s)[1..] == s;
  }

  /** Removing white space from two texts one after the other is removing it
      from each and putting the results together. */
  lemma {:induction false} RemoveAsciiWhitespaceAppend(a: string, b: string)
    ensures RemoveAsciiWhitespace(a + b) == RemoveAsciiWhitespace(a) + RemoveAsciiWhitespace(b)
    decreases |a|
  {
    if a == [] {
      assert a + b == b;
    } else {
      var h := if IsAsciiWhitespace(a[0]) then [] else [a[0]];
      SplitHead(a, b);
      RemoveAsciiWhitespaceCons(a[0], a[1..] + b);
      RemoveAsciiWhitespaceCons(a[0], a[1..]);
      RemoveAsciiWhitespaceAppend(a[1..], b);
      AppendAssoc(h, RemoveAsciiWhitespace(a[1..]), RemoveAsciiWhitespace(b));
    }
  }

  lemma SplitHead(a: string, b: string)
    requires a != []
    ensures a == [a[0]] + a[1..] && a + b == [a[0]] + (a[1..] + b)
  {
  }

  lemma AppendAssoc(h: string, x: string, y: string)
    ensures h + (x + y) == (h + x) + y
  {
  }

  /** Step 2 of the forgiving-base64 decode: one or two trailing `=` are dropped. */
  function DropPadding(d: string): (r: string)
    ensures |r| <= |d| && r == d[..|r|]
    ensures |d| - |r| <= 2
    ensures forall i :: |r| <= i < |d| ==> d[i] == '='
    ensures |d| >= 1 && d[|d| - 1] == '=' ==> |r| < |d|
    ensures |d| >= 2 && d[|d| - 2] == '=' && d[|d| - 1] == '=' ==> |r| == |d| - 2
  {
    if |d| >= 2 && d[|d| - 2] == '=' && d[|d| - 1] == '=' then d[..|d| - 2]
    else if |d| >= 1 && d[|d| - 1] == '=' then d[..|d| - 1]
    else d
  }

  /** The three bytes that four 6-bit values carry. */
  function Byte0(w: int, x: int): (b: uint8)
    requires 0 <= w < 64 && 0 <= x < 64
  {
    w * 4 + x / 16
  }

  function Byte1(x: int, y: int): (b: uint8)
    requires 0 <= x < 64 && 0 <= y < 64
  {
    (x % 16) * 16 + y / 4
  }

  function Byte2(y: int, z: int): (b: uint8)
    requires 0 <= y < 64 && 0 <= z < 64
  {
    (y % 4) * 64 + z
  }

  /** The bytes of a run of base64 characters: four characters give three
      bytes; a final two or three characters give one or two bytes, the bits
      left over being discarded. */
  function DecodeChars(d: string): (b: seq<uint8>)
    requires forall i :: 0 <= i < |d| ==> IsStdChar(d[i])
    requires |d| % 4 != 1
    decreases |d|
  {
    if |d| == 0 then []
    else
      var w, x := StdValue(d[0]), StdValue(d[1]);
      if |d| == 2 then [Byte0(w, x)]
      else
        var y := StdValue(d[2]);
        if |d| == 3 then [Byte0(w, x), Byte1(x, y)]
        else [Byte0(w, x), Byte1(x, y), Byte2(y, StdValue(d[3]))] + DecodeChars(d[4..])
  }

  /** A "binary string": one character per byte. */
  function Latin1(b: seq<uint8>): (s: string)
    ensures |s| == |b| && forall i :: 0 <= i < |s| ==> s[i] as int == b[i]
  {
    seq(|b|, i requires 0 <= i < |b| => b[i] as char)
  }

  /** `atob(data)`, with `None` where `atob` throws. */
  function Atob(data: string): (r: Option<string>)
    ensures r.Some? ==> forall i :: 0 <= i < |r.value| ==> r.value[i] as int < 256
  {
    var d := Prepared(data);
    if |d| % 4 == 1 || !AllStdChars(d) then None
    else Some(Latin1(DecodeChars(d)))
  }

  /** Steps 1 and 2 of the forgiving-base64 decode: white space removed, then
      the padding dropped when the length is a multiple of four. */
  function Prepared(data: string): (d: string)
    ensures forall c :: c in data && c != '=' && !IsAsciiWhitespace(c) ==> c in d
  {
    var stripped := RemoveAsciiWhitespace(data);
    if |stripped| % 4 == 0 then DropPadding(stripped) else stripped
  }

  predicate AllStdChars(d: string) {
    forall i :: 0 <= i < |d| ==> IsStdChar(d[i])
  }

  /** The bytes read back from the 6-bit values of a group are the bytes
      that made them. */
  lemma GroupBits(b0: uint8, b1: uint8, b2: uint8)
    ensures Byte0(Sextet0(b0), Sextet1(b0, b1)) == b0
    ensures Byte1(Sextet1(b0, b1), Sextet2(b1, b2)) == b1
    ensures Byte2(Sextet2(b1, b2), Sextet3(b2)) == b2
  {
  }

  /** One more whole group adds four characters. */
  lemma UnpaddedLengthStep(n: nat)
    ensures UnpaddedLength(n + 3) == UnpaddedLength(n) + 4
  {
    assert (n + 3) / 3 == n / 3 + 1;
    assert (n + 3) % 3 == n % 3;
  }

  lemma UnpaddedLengthMod(n: nat)
    ensures UnpaddedLength(n) % 4 == (if n % 3 == 0 then 0 else n % 3 + 1)
  {
    var q := n / 3;
    var r := if n % 3 == 0 then 0 else n % 3 + 1;
    assert UnpaddedLength(n) == 4 * q + r;
  }

  /** One step of DecodeChars on four characters and what follows them. */
  lemma DecodeFourChars(w: int, x: int, y: int, z: int, tail: string)
    requires 0 <= w < 64 && 0 <= x < 64 && 0 <= y < 64 && 0 <= z < 64
    requires forall i :: 0 <= i < |tail| ==> IsStdChar(tail[i])
    requires |tail| % 4 != 1
    ensures DecodeChars([StdChar(w), StdChar(x), StdChar(y), StdChar(z)] + tail)
         == [Byte0(w, x), Byte1(x, y), Byte2(y, z)] + DecodeChars(tail)
  {
    var d := [StdChar(w), StdChar(x), StdChar(y), StdChar(z)] + tail;
    assert d[0] == StdChar(w) && d[1] == StdChar(x) && d[2] == StdChar(y) && d[3] == StdChar(z);
    StdValueOfStdChar(w);
    StdValueOfStdChar(x);
    StdValueOfStdChar(y);
    StdValueOfStdChar(z);
    assert d[4..] == tail;
  }

  lemma DecodeTwoChars(x: int, y: int)
    requires 0 <= x < 64 && 0 <= y < 64
    ensures DecodeChars([StdChar(x), StdChar(y)]) == [Byte0(x, y)]
  {
    var d := [StdChar(x), StdChar(y)];
    assert d[0] == StdChar(x) && d[1] == StdChar(y);
    StdValueOfStdChar(x);
    StdValueOfStdChar(y);
  }

  lemma EncodeOneByte(b0: uint8)
    ensures EncodeGroups([b0]) == [StdChar(Sextet0(b0)), StdChar(Sextet1(b0, 0))]
  {
  }

  lemma DecodeEncodeOneByte(b0: uint8)
    ensures DecodeChars(EncodeGroups([b0])) == [b0]
  {
    EncodeOneByte(b0);
    DecodeTwoChars(Sextet0(b0), Sextet1(b0, 0));
    GroupBits(b0, 0, 0);
  }

  lemma DecodeThreeChars(x: int, y: int, z: int)
    requires 0 <= x < 64 && 0 <= y < 64 && 0 <= z < 64
    ensures DecodeChars([StdChar(x), StdChar(y), StdChar(z)]) == [Byte0(x, y), Byte1(y, z)]
  {
    var d := [StdChar(x), StdChar(y), StdChar(z)];
    assert d[0] == StdChar(x) && d[1] == StdChar(y) && d[2] == StdChar(z);
    StdValueOfStdChar(x);
    StdValueOfStdChar(y);
    StdValueOfStdChar(z);
  }

  lemma DecodeEncodeTwoBytes(b0: uint8, b1: uint8)
    ensures DecodeChars(EncodeGroups([b0, b1])) == [b0, b1]
  {
    var x, y, z := Sextet0(b0), Sextet1(b0, b1), Sextet2(b1, 0);
    GroupBits(b0, b1, 0);
    assert EncodeGroups([b0, b1]) == [StdChar(x), StdChar(y), StdChar(z)];
    DecodeThreeChars(x, y, z);
  }

  /** A full group decodes back to its three bytes, and decoding carries on
      with what follows. */
  lemma DecodeQuad(b0: uint8, b1: uint8, b2: uint8, tail: string, d: string)
    requires forall i :: 0 <= i < |tail| ==> IsStdChar(tail[i])
    requires |tail| % 4 != 1 && |d| % 4 != 1
    requires d == Quad(b0, b1, b2) + tail
    ensures forall i :: 0 <= i < |d| ==> IsStdChar(d[i])
    ensures DecodeChars(d) == [b0, b1, b2] + DecodeChars(tail)
  {
    DecodeFourChars(Sextet0(b0), Sextet1(b0, b1), Sextet2(b1, b2), Sextet3(b2), tail);
    GroupBits(b0, b1, b2);
  }

  /** A whole group of three bytes decodes back to those bytes, and decoding
      then carries on with the rest. */
  lemma DecodeEncodeFirstGroup(b: seq<uint8>)
    requires |b| >= 3
    ensures DecodeChars(EncodeGroups(b)) == [b[0], b[1], b[2]] + DecodeChars(EncodeGroups(b[3..]))
  {
    EncodeGroupsLengthValid(b[3..]);
    EncodeGroupsLengthValid(b);
    DecodeQuad(b[0], b[1], b[2], EncodeGroups(b[3..]), EncodeGroups(b));
  }

  /** No encoding leaves a lone character in its last group. */
  lemma EncodeGroupsLengthValid(b: seq<uint8>)
    ensures |EncodeGroups(b)| % 4 != 1
  {
    UnpaddedLengthMod(|b|);
  }

  lemma FirstThree(b: seq<uint8>)
    requires |b| >= 3
    ensures b == [b[0], b[1], b[2]] + b[3..]
  {
  }

  /** Decoding the characters EncodeGroups makes gives back the bytes. */
  lemma {:induction false} DecodeEncodeGroups(b: seq<uint8>)
    ensures DecodeChars(EncodeGroups(b)) == b
    decreases |b|
  {
    if |b| == 0 {
    } else if |b| == 1 {
      assert b == [b[0]];
      DecodeEncodeOneByte(b[0]);
    } else if |b| == 2 {
      assert b == [b[0], b[1]];
      DecodeEncodeTwoBytes(b[0], b[1]);
    } else {
      FirstThree(b);
      DecodeEncodeFirstGroup(b);
      DecodeEncodeGroups(b[3..]);
    }
  }

  /** Dropping the padding from standard characters followed by at most two
      `=` leaves the standard characters. */
  lemma DropPaddingOfPadded(e: string, p: string)
    requires forall i :: 0 <= i < |e| ==> IsStdChar(e[i])
    requires |p| <= 2 && forall i :: 0 <= i < |p| ==> p[i] == '='
    ensures DropPadding(e + p) == e
  {
  }

  /** Step 2 of the decode takes off exactly the padding `btoa` put on. */
  lemma DropPaddingOfBtoa(b: seq<uint8>)
    ensures DropPadding(Btoa(b)) == EncodeGroups(b)
  {
    DropPaddingOfPadded(EncodeGroups(b), Padding(|b|));
  }

  /** `atob` undoes `btoa`. */
  lemma AtobBtoa(b: seq<uint8>)
    ensures Atob(Btoa(b)) == Some(Latin1(b))
  {
    var s := Btoa(b);
    var d := EncodeGroups(b);
    assert RemoveAsciiWhitespace(s) == s;
    DropPaddingOfBtoa(b);
    UnpaddedLengthMod(|b|);
    assert |d| % 4 != 1;
    assert Prepared(s) == d;
    assert AllStdChars(d);
    DecodeEncodeGroups(b);
    assert Latin1(DecodeChars(d)) == Latin1(b);
  }

  /** A character outside the alphabet that is neither `=` nor white space
      makes `atob` throw, wherever it stands. */
  lemma AtobRejectsForeign(data: string, k: nat)
    requires k < |data|
    requires !IsStdChar(data[k]) && data[k] != '=' && !IsAsciiWhitespace(data[k])
    ensures Atob(data) == None
  {
    var c := data[k];
    var d := Prepared(data);
    assert c in data;
    assert c in d;
    assert !AllStdChars(d);
  }

  /** `atob` throws exactly when the prepared text has a lone character in
      its last group or a character outside the alphabet. */
  lemma AtobRejectsUnprepared(data: string)
    ensures Atob(data) == None <==>
      |Prepared(data)| % 4 == 1 || !AllStdChars(Prepared(data))
  {
  }

  /** Without white space, preparing only drops the padding. */
  lemma PreparedUnspaced(data: string)
    requires forall i :: 0 <= i < |data| ==> !IsAsciiWhitespace(data[i])
    ensures Prepared(data) == if |data| % 4 == 0 then DropPadding(data) else data
  {
  }

  /** The text ends in three `=`. */
  predicate EndsWithThreePads(t: string) {
    |t| >= 3 && t[|t| - 3] == '=' && t[|t| - 2] == '=' && t[|t| - 1] == '='
  }

  /** White space removal keeps three trailing `=`. */
  lemma StripKeepsThreePads(data: string)
    requires EndsWithThreePads(data)
    ensures EndsWithThreePads(RemoveAsciiWhitespace(data))
  {
    var a, pads := data[..|data| - 3], data[|data| - 3..];
    assert data == a + pads;
    assert EndsWithThreePads(pads) && |pads| == 3;
    PadsUnchanged(pads);
    RemoveAsciiWhitespaceAppend(a, pads);
    var x := RemoveAsciiWhitespace(a);
    assert RemoveAsciiWhitespace(data) == x + pads;
    EndsWithThreePadsAppend(x, pads);
  }

  lemma PadsUnchanged(pads: string)
    requires EndsWithThreePads(pads) && |pads| == 3
    ensures RemoveAsciiWhitespace(pads) == pads
  {
    assert forall i :: 0 <= i < |pads| ==> pads[i] == '=';
  }

  lemma EndsWithThreePadsAppend(x: string, pads: string)
    requires EndsWithThreePads(pads) && |pads| == 3
    ensures EndsWithThreePads(x + pads)
  {
  }

  /** `atob` drops at most two `=` at the end: a third one makes it throw,
      whatever comes before it. */
  lemma AtobRejectsThreePads(data: string)
    requires EndsWithThreePads(data)
    ensures Atob(data) == None
  {
    StripKeepsThreePads(data);
    var stripped := RemoveAsciiWhitespace(data);
    var d := Prepared(data);
    assert d == if |stripped| % 4 == 0 then DropPadding(stripped) else stripped;
    assert !AllStdChars(d) by {
      assert d[|d| - 1] == '=';
    }
    AtobRejectsUnprepared(data);
  }
}
