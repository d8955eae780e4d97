/** The line-based reader of the Mermaid flowchart subset: `A --> B` edges and
    `A[Label]` declarations, one per line; header and blank lines are skipped. */
module SimpleParser {
  import opened Wrappers
  import opened JsStrings

  /** A node and its label (`label` is a keyword here, hence `caption`). */
  datatype Node = Node(id: string, caption: string)

  datatype Edge = Edge(id: string, source: string, target: string)

  // ---------------------------------------------------------------------
  // parseNode

  /** The characters `.` does not match in a JavaScript regular expression. */
  predicate IsLineTerminator(c: char) {
    c == '\n' || c == '\r' || c == '\U{2028}' || c == '\U{2029}'
  }

  /** The index of the first `c` in `s`. */
  function FirstIndexOf(s: string, c: char): (r: Option<nat>)
    ensures r.None? <==> c !in s
    ensures r.Some? ==> r.value < |s| && s[r.value] == c && c !in s[..r.value]
  {
    if s == [] then None
    else if s[0] == c then Some(0)
    else
      match FirstIndexOf(s[1..], c)
      case None => None
      case Some(i) =>
        assert s[..i + 1] == [s[0]] + s[1..][..i];
        Some(i + 1)
  }

  /** The pattern `^([^\[]+)(?:\[(.*)\])?$` matches `raw` with group 1 `g1`
      and group 2 `g2` (`None` when the bracket part is not there). */
  predicate MatchesPattern(raw: string, g1: string, g2: Option<string>) {
    g1 != "" && '[' !in g1 &&
    match g2
    case None => raw == g1
    case Some(l) => raw == g1 + "[" + l + "]" && forall i :: 0 <= i < |l| ==> !IsLineTerminator(l[i])
  }

  /** `parseNode(raw)`: `ID[Label]` or `ID`; an empty label is replaced by the
      id, and text the pattern does not match is both id and label. */
  function ParseNode(raw: string): (n: Node)
  {
    match FirstIndexOf(raw, '[')
    case None => Node(raw, raw)
    case Some(p) =>
      if 1 <= p && p + 2 <= |raw| && raw[|raw| - 1] == ']' &&
         forall i :: p < i < |raw| - 1 ==> !IsLineTerminator(raw[i])
      then
        var caption := raw[p + 1..|raw| - 1];
        Node(raw[..p], if caption == "" then raw[..p] else caption)
      else Node(raw, raw)
  }

  /** Where the pattern matches, the node is its groups, the label falling
      back to the id when group 2 is missing or empty. */
  lemma ParseNodeMatched(raw: string, g1: string, g2: Option<string>)
    requires MatchesPattern(raw, g1, g2)
    ensures ParseNode(raw) == Node(g1, if g2.None? || g2.value == "" then g1 else g2.value)
  {
    match g2
    case None =>
    case Some(l) =>
      var p := |g1|;
      assert raw[p] == '[' && raw[..p] == g1;
      assert raw[p + 1..|raw| - 1] == l;
      forall i | p < i < |raw| - 1
        ensures !IsLineTerminator(raw[i])
      {
        assert raw[i] == l[i - p - 1];
      }
  }

  /** Where the pattern does not match, the text is both id and label. */
  lemma ParseNodeUnmatched(raw: string)
    requires forall g1, g2 :: !MatchesPattern(raw, g1, g2)
    ensures ParseNode(raw) == Node(raw, raw)
  {
    match FirstIndexOf(raw, '[')
    case None =>
    case Some(p) =>
      if 1 <= p && p + 2 <= |raw| && raw[|raw| - 1] == ']' &&
         forall i :: p < i < |raw| - 1 ==> !IsLineTerminator(raw[i])
      {
        var l := raw[p + 1..|raw| - 1];
        assert raw == raw[..p] + "[" + l + "]";
        assert MatchesPattern(raw, raw[..p], Some(l));
      }
  }

  // ---------------------------------------------------------------------
  // parseMermaid

  /** What one line contributes. */
  datatype Line = Skip | Declare(node: Node) | Connect(source: Node, target: Node)

  /** A trimmed line the reader ignores: blank, or a `graph`/`flowchart` header. */
  predicate IsHeader(t: string) {
    t == "" || StartsWith(t, "graph") || StartsWith(t, "flowchart")
  }

  /** How one line is read: an arrow line with exactly two sides is an edge,
      any other arrow line is ignored, and a line without an arrow declares a
      node. */
  function Classify(line: string): Line {
    var t := Trim(line);
    if IsHeader(t) then Skip
    else if Includes(t, "-->") then
      var parts := Split(t, "-->");
      if |parts| == 2 then Connect(ParseNode(Trim(parts[0])), ParseNode(Trim(parts[1]))) else Skip
    else
      var n := ParseNode(t);
      if n.id != "" then Declare(n) else Skip
  }

  /** The reader's state: the node ids in the order the `Map` first saw them,
      the `Map` itself, and the edge list. */
  datatype Graph = Graph(order: seq<string>, table: map<string, Node>, edges: seq<Edge>)

  const Empty: Graph := Graph([], map[], [])

  /** `nodes.set(n.id, n)`: a new key goes to the end; an old key keeps its place. */
  function SetNode(g: Graph, n: Node): Graph {
    Graph(if n.id in g.table then g.order else g.order + [n.id], g.table[n.id := n], g.edges)
  }

  /** The edge pushed for an arrow line. */
  function EdgeOf(source: Node, target: Node): Edge {
    Edge("e-" + source.id + "-" + target.id, source.id, target.id)
  }

  function Apply(g: Graph, l: Line): Graph {
    match l
    case Skip => g
    case Declare(n) => SetNode(g, n)
    case Connect(s, t) =>
      var g' := SetNode(SetNode(g, s), t);
      g'.(edges := g'.edges + [EdgeOf(s, t)])
  }

  /** The reader's state after the lines `ls`, read in order from `g`. */
  function ApplyAll(g: Graph, ls: seq<Line>): Graph
    decreases |ls|
  {
    if ls == [] then g else Apply(ApplyAll(g, ls[..|ls| - 1]), ls[|ls| - 1])
  }

  lemma ApplyAllPrefix(g: Graph, ls: seq<Line>, i: nat)
    requires i < |ls|
    ensures ApplyAll(g, ls[..i + 1]) == Apply(ApplyAll(g, ls[..i]), ls[i])
  {
    assert ls[..i + 1][..i] == ls[..i];
  }

  /** Each line of the text, read. */
  function Classified(lines: seq<string>): (ls: seq<Line>)
    ensures |ls| == |lines| && forall i :: 0 <= i < |lines| ==> ls[i] == Classify(lines[i])
  {
    seq(|lines|, i requires 0 <= i < |lines| => Classify(lines[i]))
  }

  /** The reader's state after the lines of `code`. */
  function Parsed(code: string): Graph {
    ApplyAll(Empty, Classified(Split(code, "\n")))
  }

  /** The ids are listed once each, exactly the keys of the map, each key maps
      to a node with that id, and every edge joins two listed nodes. */
  ghost predicate WellFormed(g: Graph) {
    (forall i, j :: 0 <= i < j < |g.order| ==> g.order[i] != g.order[j]) &&
    (forall k :: k in g.table <==> k in g.order) &&
    (forall k :: k in g.table ==> g.table[k].id == k) &&
    (forall e :: e in g.edges ==> e.source in g.table && e.target in g.table)
  }

  lemma SetNodeWellFormed(g: Graph, n: Node)
    requires WellFormed(g)
    ensures WellFormed(SetNode(g, n))
    ensures n.id in SetNode(g, n).table
  {
  }

  lemma {:induction false} ApplyAllWellFormed(g: Graph, ls: seq<Line>)
    requires WellFormed(g)
    ensures WellFormed(ApplyAll(g, ls))
    decreases |ls|
  {
    if ls != [] {
      var g0 := ApplyAll(g, ls[..|ls| - 1]);
      ApplyAllWellFormed(g, ls[..|ls| - 1]);
      match ls[|ls| - 1]
      case Skip =>
      case Declare(n) =>
        SetNodeWellFormed(g0, n);
      case Connect(s, t) =>
        SetNodeWellFormed(g0, s);
        SetNodeWellFormed(SetNode(g0, s), t);
    }
  }

  /** `Array.from(nodes.values())`: the nodes in the order their ids were first set. */
  function Nodes(g: Graph): (ns: seq<Node>)
    requires WellFormed(g)
    ensures |ns| == |g.order|
    ensures forall i :: 0 <= i < |ns| ==> ns[i].id == g.order[i]
    ensures forall i :: 0 <= i < |ns| ==> ns[i] == g.table[g.order[i]]
  {
    seq(|g.order|, i requires 0 <= i < |g.order| => g.table[g.order[i]])
  }

  /** The `forEach` callback of `parseMermaid`: one line read into the map
      and the edge list. */
  method ReadLine(order: seq<string>, table: map<string, Node>, edges: seq<Edge>, line: string)
    returns (order': seq<string>, table': map<string, Node>, edges': seq<Edge>)
    ensures Graph(order', table', edges') == Apply(Graph(order, table, edges), Classify(line))
  {
    order', table', edges' := order, table, edges;
    var trimmed := Trim(line);
    if IsHeader(trimmed) {
      return;
    }
    if Includes(trimmed, "-->") {
      var parts := Split(trimmed, "-->");
      if |parts| == 2 {
        var source := ParseNode(Trim(parts[0]));
        var target := ParseNode(Trim(parts[1]));
        if source.id !in table' {
          order' := order' + [source.id];
        }
        table' := table'[source.id := source];
        if target.id !in table' {
          order' := order' + [target.id];
        }
        table' := table'[target.id := target];
        edges' := edges' + [Edge("e-" + source.id + "-" + target.id, source.id, target.id)];
      }
    } else {
      var node := ParseNode(trimmed);
      if node.id != "" {
        if node.id !in table' {
          order' := order' + [node.id];
        }
        table' := table'[node.id := node];
      }
    }
  }

  /** `parseMermaid(code)`. The nodes have distinct ids and every edge joins
      two of them. */
  method ParseMermaid(code: string) returns (nodes: seq<Node>, edges: seq<Edge>)
    ensures WellFormed(Parsed(code))
    ensures nodes == Nodes(Parsed(code)) && edges == Parsed(code).edges
    ensures forall i, j :: 0 <= i < j < |nodes| ==> nodes[i].id != nodes[j].id
    ensures forall e :: e in edges ==>
      (exists i :: 0 <= i < |nodes| && nodes[i].id == e.source) &&
      (exists j :: 0 <= j < |nodes| && nodes[j].id == e.target)
  {
    var lines := Split(code, "\n");
    ghost var ls := Classified(lines);
    var order: seq<string> := [];
    var table: map<string, Node> := map[];
    edges := [];
    for i := 0 to |lines|
      invariant Graph(order, table, edges) == ApplyAll(Empty, ls[..i])
    {
      ApplyAllPrefix(Empty, ls, i);
      order, table, edges := ReadLine(order, table, edges, lines[i]);
    }
    assert ls[..|lines|] == ls;
    ApplyAllWellFormed(Empty, ls);
    nodes := Nodes(Graph(order, table, edges));
    forall e | e in edges
      ensures exists i :: 0 <= i < |nodes| && nodes[i].id == e.source
      ensures exists j :: 0 <= j < |nodes| && nodes[j].id == e.target
    {
      var i :| 0 <= i < |order| && order[i] == e.source;
      var j :| 0 <= j < |order| && order[j] == e.target;
      assert nodes[i].id == e.source && nodes[j].id == e.target;
    }
  }

  // ---------------------------------------------------------------------
  // Properties of the reading

  lemma {:induction false} ApplyAllAppend(g: Graph, a: seq<Line>, b: seq<Line>)
    ensures ApplyAll(g, a + b) == ApplyAll(ApplyAll(g, a), b)
    decreases |b|
  {
    if b == [] {
      assert a + b == a;
    } else {
      var b' := b[..|b| - 1];
      assert (a + b)[..|a + b| - 1] == a + b';
      ApplyAllAppend(g, a, b');
    }
  }

  lemma SkipIgnored(a: seq<Line>, b: seq<Line>)
    ensures ApplyAll(Empty, a + [Skip] + b) == ApplyAll(Empty, a + b)
  {
    ApplyAllAppend(Empty, a + [Skip], b);
    ApplyAllAppend(Empty, a, [Skip]);
    ApplyAllAppend(Empty, a, b);
    assert [Skip][..0] == [];
  }

  lemma ClassifiedAppend(a: seq<string>, b: seq<string>)
    ensures Classified(a + b) == Classified(a) + Classified(b)
  {
    var s, c := a + b, Classified(a + b);
    var ca, cb := Classified(a), Classified(b);
    forall i | 0 <= i < |s|
      ensures c[i] == (ca + cb)[i]
    {
      if i < |a| {
        assert s[i] == a[i] && c[i] == Classify(a[i]) && (ca + cb)[i] == ca[i];
      } else {
        assert s[i] == b[i - |a|] && c[i] == Classify(b[i - |a|]) && (ca + cb)[i] == cb[i - |a|];
      }
    }
  }

  /** A line read as `Skip` (blank, a header, an arrow line without exactly
      two sides) can be taken out without changing anything. */
  lemma SkippedLineIgnored(a: seq<string>, line: string, b: seq<string>)
    requires Classify(line) == Skip
    ensures ApplyAll(Empty, Classified(a + [line] + b)) == ApplyAll(Empty, Classified(a + b))
  {
    ClassifiedAppend(a + [line], b);
    ClassifiedAppend(a, [line]);
    ClassifiedAppend(a, b);
    assert Classified([line]) == [Skip];
    SkipIgnored(Classified(a), Classified(b));
  }

  /** The edges one line contributes. */
  function LineEdges(l: Line): seq<Edge> {
    if l.Connect? then [EdgeOf(l.source, l.target)] else []
  }

  /** The edges of the arrow lines, in line order. */
  function ArrowEdges(ls: seq<Line>): seq<Edge>
    decreases |ls|
  {
    if ls == [] then [] else ArrowEdges(ls[..|ls| - 1]) + LineEdges(ls[|ls| - 1])
  }

  /** The edge list is one edge per two-sided arrow line, in line order,
      whatever the node declarations do. */
  lemma {:induction false} EdgesAreArrowEdges(g: Graph, ls: seq<Line>)
    ensures ApplyAll(g, ls).edges == g.edges + ArrowEdges(ls)
    decreases |ls|
  {
    if ls != [] {
      EdgesAreArrowEdges(g, ls[..|ls| - 1]);
    } else {
      assert g.edges + [] == g.edges;
    }
  }

  /** The nodes one line mentions, in the order the line sets them. */
  function Mentions(l: Line): seq<Node> {
    match l
    case Skip => []
    case Declare(n) => [n]
    case Connect(s, t) => [s, t]
  }

  /** Every node mention of the lines, in reading order. */
  function Mentioned(ls: seq<Line>): seq<Node>
    decreases |ls|
  {
    if ls == [] then [] else Mentioned(ls[..|ls| - 1]) + Mentions(ls[|ls| - 1])
  }

  /** The index of the last mention of id `k`. */
  function LastMention(ms: seq<Node>, k: string): (r: nat)
    requires HasId(ms, k)
    ensures r < |ms| && ms[r].id == k
    ensures forall j :: r < j < |ms| ==> ms[j].id != k
    decreases |ms|
  {
    if ms[|ms| - 1].id == k then |ms| - 1
    else
      var i :| 0 <= i < |ms| && ms[i].id == k;
      assert ms[..|ms| - 1][i] == ms[i];
      LastMention(ms[..|ms| - 1], k)
  }

  /** Some node in `ms` has the id `k`. */
  ghost predicate HasId(ms: seq<Node>, k: string) {
    exists i :: 0 <= i < |ms| && ms[i].id == k
  }

  lemma HasIdSnoc(ms: seq<Node>, n: Node, k: string)
    ensures HasId(ms + [n], k) <==> HasId(ms, k) || n.id == k
  {
    var ms' := ms + [n];
    if HasId(ms, k) {
      var i :| 0 <= i < |ms| && ms[i].id == k;
      assert ms'[i].id == k;
    }
    if n.id == k {
      assert ms'[|ms|].id == k;
    }
    if HasId(ms', k) && n.id != k {
      var i :| 0 <= i < |ms'| && ms'[i].id == k;
      assert ms[i].id == k;
    }
  }

  /** The map holds exactly the mentioned ids, each with its last mention. */
  ghost predicate Tracks(table: map<string, Node>, ms: seq<Node>) {
    (forall k :: k in table <==> HasId(ms, k)) &&
    (forall k :: k in table ==> table[k] == ms[LastMention(ms, k)])
  }

  lemma SetNodeTracks(g: Graph, ms: seq<Node>, n: Node)
    requires Tracks(g.table, ms)
    ensures Tracks(SetNode(g, n).table, ms + [n])
  {
    var ms' := ms + [n];
    var t := SetNode(g, n).table;
    assert ms'[..|ms'| - 1] == ms;
    forall k
      ensures k in t <==> HasId(ms', k)
    {
      HasIdSnoc(ms, n, k);
    }
    forall k | k in t
      ensures t[k] == ms'[LastMention(ms', k)]
    {
      HasIdSnoc(ms, n, k);
    }
  }

  /** Each node carries the label of the last line that mentions its id, and
      the nodes are exactly the mentioned ids. */
  lemma {:induction false} LastMentionWins(ls: seq<Line>)
    ensures Tracks(ApplyAll(Empty, ls).table, Mentioned(ls))
    decreases |ls|
  {
    if ls != [] {
      var init := ls[..|ls| - 1];
      LastMentionWins(init);
      var g0 := ApplyAll(Empty, init);
      var ms := Mentioned(init);
      match ls[|ls| - 1]
      case Skip =>
        assert ms + [] == ms;
      case Declare(n) =>
        SetNodeTracks(g0, ms, n);
      case Connect(s, t) =>
        SetNodeTracks(g0, ms, s);
        SetNodeTracks(SetNode(g0, s), ms + [s], t);
        assert ms + [s] + [t] == ms + [s, t];
    }
  }

  /** The distinct ids of `ms`, in the order of their first mention. */
  function FirstSeen(ms: seq<Node>): seq<string>
    decreases |ms|
  {
    if ms == [] then []
    else
      var o := FirstSeen(ms[..|ms| - 1]);
      if ms[|ms| - 1].id in o then o else o + [ms[|ms| - 1].id]
  }

  lemma SetNodeOrder(g: Graph, ms: seq<Node>, n: Node)
    requires WellFormed(g) && g.order == FirstSeen(ms)
    ensures SetNode(g, n).order == FirstSeen(ms + [n])
  {
    assert (ms + [n])[..|ms|] == ms;
  }

  /** `Array.from(nodes.values())` lists the ids in the order of their first
      mention: a later `set` of an id replaces its node but keeps its place. */
  lemma {:induction false} FirstMentionOrder(ls: seq<Line>)
    ensures ApplyAll(Empty, ls).order == FirstSeen(Mentioned(ls))
    decreases |ls|
  {
    if ls != [] {
      var init := ls[..|ls| - 1];
      FirstMentionOrder(init);
      ApplyAllWellFormed(Empty, init);
      var g0 := ApplyAll(Empty, init);
      var ms := Mentioned(init);
      match ls[|ls| - 1]
      case Skip =>
        assert ms + [] == ms;
      case Declare(n) =>
        SetNodeOrder(g0, ms, n);
      case Connect(s, t) =>
        SetNodeOrder(g0, ms, s);
        SetNodeWellFormed(g0, s);
        SetNodeOrder(SetNode(g0, s), ms + [s], t);
        assert ms + [s] + [t] == ms + [s, t];
    }
  }
}
