/** The JavaScript string built-ins the core calls, on `string` (`seq<char>`):
    `startsWith`, `indexOf`, `includes`, `split` with a non-empty separator,
    `trim`, and `replace` with a global one-character pattern. */
module JsStrings {
  import opened Wrappers

  /** `s.startsWith(prefix)` */
  predicate StartsWith(s: string, prefix: string) {
    |prefix| <= |s| && s[..|prefix|] == prefix
  }

  /** `sep` occurs in `s` starting at index `i`. */
  predicate OccursAt(s: string, sep: string, i: nat) {
    i + |sep| <= |s| && s[i..i + |sep|] == sep
  }

  /** The first index at or after `from` where `sep` occurs, if any. */
  function IndexFrom(s: string, sep: string, from: nat): (r: Option<nat>)
    requires from <= |s|
    ensures r.Some? ==> from <= r.value && OccursAt(s, sep, r.value)
    ensures forall j: nat :: from <= j && (r.None? || j < r.value) ==> !OccursAt(s, sep, j)
    decreases |s| - from
  {
    if OccursAt(s, sep, from) then Some(from)
    else if from == |s| then None
    else IndexFrom(s, sep, from + 1)
  }

  /** `s.indexOf(sep)`, with `None` for -1. */
  function IndexOf(s: string, sep: string): (r: Option<nat>)
    ensures r.Some? ==> OccursAt(s, sep, r.value)
    ensures forall j: nat :: (r.None? || j < r.value) ==> !OccursAt(s, sep, j)
  {
    IndexFrom(s, sep, 0)
  }

  /** `s.includes(sep)` */
  predicate Includes(s: string, sep: string) {
    IndexOf(s, sep).Some?
  }

  /** `s.split(sep)` for a non-empty separator: the pieces between successive
      left-to-right occurrences of `sep`. */
  function Split(s: string, sep: string): (parts: seq<string>)
    requires sep != ""
    ensures |parts| >= 1
    decreases |s|
  {
    match IndexOf(s, sep)
    case None => [s]
    case Some(i) => [s[..i]] + Split(s[i + |sep|..], sep)
  }

  /** `parts.join(sep)` */
  function Join(parts: seq<string>, sep: string): string
    requires |parts| >= 1
  {
    if |parts| == 1 then parts[0] else parts[0] + sep + Join(parts[1..], sep)
  }

  lemma JoinCons(head: string, parts: seq<string>, sep: string)
    requires |parts| >= 1
    ensures Join([head] + parts, sep) == head + sep + Join(parts, sep)
  {
    assert ([head] + parts)[1..] == parts;
  }

  /** A split at the first occurrence `i`: the text before it, then the
      pieces of the text after it. */
  lemma SplitCons(s: string, sep: string, i: nat)
    requires sep != "" && IndexOf(s, sep) == Some(i)
    ensures Split(s, sep) == [s[..i]] + Split(s[i + |sep|..], sep)
  {
  }

  /** Joining the text before an occurrence with pieces that join to the text
      after it gives the whole string. */
  lemma JoinAroundOccurrence(s: string, sep: string, i: nat, parts: seq<string>)
    requires OccursAt(s, sep, i)
    requires |parts| >= 1 && Join(parts, sep) == s[i + |sep|..]
    ensures Join([s[..i]] + parts, sep) == s
  {
    AroundOccurrence(s, sep, i);
    JoinCons(s[..i], parts, sep);
  }

  lemma AroundOccurrence(s: string, sep: string, i: nat)
    requires OccursAt(s, sep, i)
    ensures s == s[..i] + sep + s[i + |sep|..]
  {
  }

  /** Splitting loses nothing: joining the pieces with the separator gives the string back. */
  lemma {:induction false} JoinSplit(s: string, sep: string)
    requires sep != ""
    ensures Join(Split(s, sep), sep) == s
    decreases |s|
  {
    match IndexOf(s, sep)
    case None =>
    case Some(i) =>
      var rest := s[i + |sep|..];
      SplitCons(s, sep, i);
      JoinSplit(rest, sep);
      JoinAroundOccurrence(s, sep, i, Split(rest, sep));
  }

  /** The text before the first occurrence of `sep` does not contain it. */
  lemma PrefixBeforeFirstAvoids(s: string, sep: string, i: nat)
    requires sep != "" && IndexOf(s, sep) == Some(i)
    ensures !Includes(s[..i], sep)
  {
    assert OccursAt(s, sep, i);
    forall j: nat | j + |sep| <= i
      ensures OccursAt(s[..i], sep, j) <==> OccursAt(s, sep, j)
    {
      OccursInPrefix(s, sep, i, j);
    }
  }

  /** An occurrence that ends by `i` is one of `s[..i]` as well. */
  lemma OccursInPrefix(s: string, sep: string, i: nat, j: nat)
    requires i <= |s| && j + |sep| <= i
    ensures OccursAt(s[..i], sep, j) <==> OccursAt(s, sep, j)
  {
    assert s[..i][j..j + |sep|] == s[j..j + |sep|];
  }

  /** No piece of a split contains the separator. */
  lemma {:induction false} SplitPiecesAvoidSeparator(s: string, sep: string, k: nat)
    requires sep != "" && k < |Split(s, sep)|
    ensures !Includes(Split(s, sep)[k], sep)
    decreases |s|
  {
    match IndexOf(s, sep)
    case None =>
    case Some(i) =>
      var rest := s[i + |sep|..];
      SplitCons(s, sep, i);
      if k == 0 {
        PrefixBeforeFirstAvoids(s, sep, i);
      } else {
        SplitPiecesAvoidSeparator(rest, sep, k - 1);
        assert Split(s, sep)[k] == Split(rest, sep)[k - 1];
      }
  }

  /** Split gives exactly two pieces when `sep` occurs once: the text before
      and the text after that occurrence. */
  lemma SplitInTwo(s: string, sep: string)
    requires sep != ""
    ensures |Split(s, sep)| == 2 <==>
      IndexOf(s, sep).Some? && !Includes(s[IndexOf(s, sep).value + |sep|..], sep)
    ensures |Split(s, sep)| == 2 ==>
      Split(s, sep) == [s[..IndexOf(s, sep).value], s[IndexOf(s, sep).value + |sep|..]]
  {
    match IndexOf(s, sep)
    case None =>
    case Some(i) =>
      var rest := s[i + |sep|..];
      assert |Split(rest, sep)| == 1 <==> IndexOf(rest, sep).None?;
  }

  /** The characters `String.prototype.trim` removes: white space and line terminators. */
  predicate IsJsWhitespace(c: char) {
    c == '\t' || c == '\n' || c == '\U{B}' || c == '\U{C}' || c == '\r' || c == ' ' ||
    c == '\U{A0}' || c == '\U{1680}' || ('\U{2000}' <= c <= '\U{200A}') ||
    c == '\U{2028}' || c == '\U{2029}' || c == '\U{202F}' || c == '\U{205F}' ||
    c == '\U{3000}' || c == '\U{FEFF}'
  }

  /** `s` with its leading white space removed. */
  function TrimStart(s: string): (r: string)
    ensures |r| <= |s| && r == s[|s| - |r|..]
    ensures forall i :: 0 <= i < |s| - |r| ==> IsJsWhitespace(s[i])
    ensures r == [] || !IsJsWhitespace(r[0])
  {
    if s != [] && IsJsWhitespace(s[0]) then TrimStart(s[1..]) else s
  }

  /** `s` with its trailing white space removed. */
  function TrimEnd(s: string): (r: string)
    ensures |r| <= |s| && r == s[..|r|]
    ensures forall i :: |r| <= i < |s| ==> IsJsWhitespace(s[i])
    ensures r == [] || !IsJsWhitespace(r[|r| - 1])
  {
    if s != [] && IsJsWhitespace(s[|s| - 1]) then TrimEnd(s[..|s| - 1]) else s
  }

  /** `s.trim()` */
  function Trim(s: string): (r: string)
    ensures r == [] || (!IsJsWhitespace(r[0]) && !IsJsWhitespace(r[|r| - 1]))
    ensures exists a :: StandsAt(s, r, a)
  {
    var t := TrimStart(s);
    var r := TrimEnd(t);
    assert StandsAt(s, r, |s| - |t|);
    r
  }

  /** `r` stands at index `a` of `s`, with only white space around it. */
  predicate StandsAt(s: string, r: string, a: nat) {
    a + |r| <= |s| && r == s[a..a + |r|] &&
    (forall i :: 0 <= i < a ==> IsJsWhitespace(s[i])) &&
    (forall i :: a + |r| <= i < |s| ==> IsJsWhitespace(s[i]))
  }

  /** `s.replace(/from/g, to)` for a one-character pattern. */
  function ReplaceAll(s: string, from: char, to: char): (r: string)
    ensures |r| == |s|
    ensures forall i :: 0 <= i < |s| ==> r[i] == if s[i] == from then to else s[i]
  {
    seq(|s|, i requires 0 <= i < |s| => if s[i] == from then to else s[i])
  }

  /** Replacing one character by another that did not occur, and back again,
      gives the text back. */
  lemma ReplaceAllUndone(s: string, from: char, to: char)
    requires forall i :: 0 <= i < |s| ==> s[i] != to
    ensures ReplaceAll(ReplaceAll(s, from, to), to, from) == s
  {
  }

  /** `s.replace(/c/g, '')` */
  function RemoveAll(s: string, c: char): (r: string)
    ensures c !in r
    ensures forall d :: d in r ==> d in s
  {
    if s == [] then [] else (if s[0] == c then [] else [s[0]]) + RemoveAll(s[1..], c)
  }

  lemma {:induction false} RemoveAllAppend(a: string, b: string, c: char)
    ensures RemoveAll(a + b, c) == RemoveAll(a, c) + RemoveAll(b, c)
  {
    if a == [] {
      assert a + b == b;
    } else {
      assert (a + b)[1..] == a[1..] + b;
      RemoveAllAppend(a[1..], b, c);
    }
  }

  lemma {:induction false} RemoveAllAbsent(s: string, c: char)
    requires c !in s
    ensures RemoveAll(s, c) == s
  {
    if s != [] {
      RemoveAllAbsent(s[1..], c);
    }
  }

  lemma {:induction false} RemoveAllOnly(s: string, c: char)
    requires forall i :: 0 <= i < |s| ==> s[i] == c
    ensures RemoveAll(s, c) == []
  {
    if s != [] {
      RemoveAllOnly(s[1..], c);
    }
  }

  /** `c.repeat(n)` */
  function Repeat(c: char, n: nat): (r: string)
    ensures |r| == n && forall i :: 0 <= i < n ==> r[i] == c
  {
    seq(n, _ => c)
  }
}
