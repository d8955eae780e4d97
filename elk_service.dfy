/** The layout service: the diagram's nodes and edges are handed to the ELK
    layered layout, and the positions it computes are reconciled with the
    positions the user has already placed. The ELK engine is a parameter
    (`elk`); `None` from it is a rejected layout. */
module ElkService {
  import opened Wrappers
  import opened Coordinates

  // ---------------------------------------------------------------------
  // Plain-object lookups

  /** The properties every plain JavaScript object inherits from
      `Object.prototype`, and `__proto__`, which reads the prototype itself.
      Reading any of them from a record that has no own key of that name
      gives a function or an object, never a position. */
  const PrototypeNames: set<string> := {
    "constructor", "hasOwnProperty", "isPrototypeOf", "propertyIsEnumerable",
    "toString", "valueOf", "toLocaleString", "__defineGetter__", "__defineSetter__",
    "__lookupGetter__", "__lookupSetter__", "__proto__"
  }

  /** How `existingPositions[id]` is read: on the plain object, as the program
      does, or by own keys only. */
  datatype LookupMode = PlainObject | OwnKeys

  /** The outcome of reading `existingPositions[id]`: a stored position, an
      inherited member (truthy, and not a pair: destructuring it throws), or
      nothing. */
  datatype Found = Own(p: Point) | Inherited | Absent

  function Find(existing: PositionMap, id: string, mode: LookupMode): (f: Found)
    ensures f.Own? <==> id in existing
    ensures f.Own? ==> f.p == existing[id]
    ensures f.Inherited? <==> mode == PlainObject && id !in existing && id in PrototypeNames
  {
    if id in existing then Own(existing[id])
    else if mode == PlainObject && id in PrototypeNames then Inherited
    else Absent
  }

  // ---------------------------------------------------------------------
  // The request

  /** `directionMap`: diagram directions to ELK directions. */
  const DirectionMap: map<string, string> :=
    map["TB" := "DOWN", "TD" := "DOWN", "BT" := "UP", "LR" := "RIGHT", "RL" := "LEFT"]

  /** `directionMap[options.direction || 'TD'] || 'DOWN'`. The declared type
      admits only the five codes; any string that is not the name of an
      inherited member is handled the same way. */
  function ElkDirection(direction: Option<string>): (d: string)
    requires direction.None? || direction.value !in PrototypeNames
    ensures d in {"DOWN", "UP", "RIGHT", "LEFT"}
    ensures d == "UP" <==> direction == Some("BT")
    ensures d == "RIGHT" <==> direction == Some("LR")
    ensures d == "LEFT" <==> direction == Some("RL")
  {
    var key := if direction.None? || direction.value == "" then "TD" else direction.value;
    if key in DirectionMap then DirectionMap[key] else "DOWN"
  }

  /** The size given to a node that has not been measured yet. */
  const DefaultWidth: real := 150.0
  const DefaultHeight: real := 50.0

  /** A diagram node as the canvas knows it; the size is absent until measured. */
  datatype FlowNode = FlowNode(id: string, width: Option<real>, height: Option<real>)

  datatype FlowEdge = FlowEdge(id: string, source: string, target: string)

  datatype ElkNode = ElkNode(id: string, width: real, height: real)

  datatype ElkEdge = ElkEdge(id: string, sources: seq<string>, targets: seq<string>)

  /** The graph handed to ELK, with its layout options. */
  datatype ElkGraph = ElkGraph(
    id: string, algorithm: string, direction: string,
    nodeSpacing: string, layerSpacing: string,
    children: seq<ElkNode>, edges: seq<ElkEdge>)

  /** A node of ELK's answer: an id (empty when missing) and the computed
      coordinates, either of which may be missing. */
  datatype LaidOutNode = LaidOutNode(id: string, x: Option<Coord>, y: Option<Coord>)

  datatype LaidOutGraph = LaidOutGraph(children: Option<seq<LaidOutNode>>)

  /** The request: every node, measured or at the default size, and every
      edge with its single source and target, under the layered algorithm. */
  function BuildGraph(nodes: seq<FlowNode>, edges: seq<FlowEdge>, direction: Option<string>): (g: ElkGraph)
    requires direction.None? || direction.value !in PrototypeNames
    ensures g.id == "root" && g.algorithm == "layered" && g.direction == ElkDirection(direction)
    ensures g.nodeSpacing == "50" && g.layerSpacing == "50"
    ensures |g.children| == |nodes| && |g.edges| == |edges|
    ensures forall i :: 0 <= i < |nodes| ==> g.children[i].id == nodes[i].id
    ensures forall i :: 0 <= i < |nodes| ==>
      g.children[i].width == nodes[i].width.GetOr(DefaultWidth) &&
      g.children[i].height == nodes[i].height.GetOr(DefaultHeight)
    ensures forall i :: 0 <= i < |edges| ==>
      g.edges[i] == ElkEdge(edges[i].id, [edges[i].source], [edges[i].target])
  {
    ElkGraph("root", "layered", ElkDirection(direction), "50", "50",
      seq(|nodes|, i requires 0 <= i < |nodes| =>
        ElkNode(nodes[i].id, nodes[i].width.GetOr(DefaultWidth), nodes[i].height.GetOr(DefaultHeight))),
      seq(|edges|, i requires 0 <= i < |edges| =>
        ElkEdge(edges[i].id, [edges[i].source], [edges[i].target])))
  }

  // ---------------------------------------------------------------------
  // Reconciling the answer

  /** The position ELK computed for a node, a missing coordinate counting as 0. */
  function ElkPoint(n: LaidOutNode): Point {
    Point(n.x.GetOr(Zero), n.y.GetOr(Zero))
  }

  /** The index of the last node of `cs` with id `k`. */
  function LastWithId(cs: seq<LaidOutNode>, k: string): (r: nat)
    requires exists i :: 0 <= i < |cs| && cs[i].id == k
    ensures r < |cs| && cs[r].id == k
    ensures forall j :: r < j < |cs| ==> cs[j].id != k
    decreases |cs|
  {
    if cs[|cs| - 1].id == k then |cs| - 1
    else
      var i :| 0 <= i < |cs| && cs[i].id == k;
      assert cs[..|cs| - 1][i] == cs[i];
      LastWithId(cs[..|cs| - 1], k)
  }

  /** The positions after the answer's nodes are visited: one per non-empty
      id; a stored position wins, otherwise the coordinates of the last node
      with that id. */
  ghost predicate IsReconciled(p: PositionMap, cs: seq<LaidOutNode>, existing: PositionMap) {
    KeysAreIds(p, cs) &&
    (forall k :: k in p ==> p[k] == if k in existing then existing[k] else ElkPoint(cs[LastWithId(cs, k)]))
  }

  /** The keys of `p` are the non-empty ids of `cs`. */
  ghost predicate KeysAreIds(p: PositionMap, cs: seq<LaidOutNode>) {
    forall k :: k in p <==> k != "" && exists i :: 0 <= i < |cs| && cs[i].id == k
  }

  /** The positions of the fallback: one per node id; a stored position wins,
      otherwise the origin. */
  ghost predicate IsFallback(p: PositionMap, nodes: seq<FlowNode>, existing: PositionMap) {
    KeysAreNodeIds(p, nodes) &&
    (forall k :: k in p ==> p[k] == if k in existing then existing[k] else Origin)
  }

  /** The keys of `p` are the ids of `nodes`. */
  ghost predicate KeysAreNodeIds(p: PositionMap, nodes: seq<FlowNode>) {
    forall k :: k in p <==> exists i :: 0 <= i < |nodes| && nodes[i].id == k
  }

  /** The `forEach` over ELK's nodes, `None` where it throws. Nodes without an
      id are skipped. */
  function LayoutPass(cs: seq<LaidOutNode>, existing: PositionMap, mode: LookupMode): Option<PositionMap>
    decreases |cs|
  {
    if cs == [] then Some(map[])
    else
      match LayoutPass(cs[..|cs| - 1], existing, mode)
      case None => None
      case Some(acc) =>
        var n := cs[|cs| - 1];
        if n.id == "" then Some(acc)
        else
          match Find(existing, n.id, mode)
          case Own(p) => Some(acc[n.id := p])
          case Inherited => None
          case Absent => Some(acc[n.id := ElkPoint(n)])
  }

  /** The `forEach` over the request's nodes in the `catch` block, `None`
      where it throws. */
  function FallbackPass(nodes: seq<FlowNode>, existing: PositionMap, mode: LookupMode): Option<PositionMap>
    decreases |nodes|
  {
    if nodes == [] then Some(map[])
    else
      match FallbackPass(nodes[..|nodes| - 1], existing, mode)
      case None => None
      case Some(acc) =>
        var id := nodes[|nodes| - 1].id;
        match Find(existing, id, mode)
        case Own(p) => Some(acc[id := p])
        case Inherited => None
        case Absent => Some(acc[id := Origin])
  }

  /** `calculateLayout`, `None` where the returned promise rejects: a failed
      layout, or a throw in the first pass, falls to the fallback pass; a throw
      in the fallback pass escapes. */
  function Layout(nodes: seq<FlowNode>, edges: seq<FlowEdge>, existing: PositionMap,
                  direction: Option<string>, elk: ElkGraph -> Option<LaidOutGraph>,
                  mode: LookupMode): Option<PositionMap>
    requires direction.None? || direction.value !in PrototypeNames
  {
    match elk(BuildGraph(nodes, edges, direction))
    case None => FallbackPass(nodes, existing, mode)
    case Some(g) =>
      match g.children
      case None => Some(map[])
      case Some(cs) =>
        match LayoutPass(cs, existing, mode)
        case Some(p) => Some(p)
        case None => FallbackPass(nodes, existing, mode)
  }

  /** One node of the first pass, read by own keys. */
  function Place(acc: PositionMap, n: LaidOutNode, existing: PositionMap): PositionMap {
    if n.id == "" then acc
    else acc[n.id := if n.id in existing then existing[n.id] else ElkPoint(n)]
  }

  /** One node of the fallback pass, read by own keys. */
  function PlaceAtOrigin(acc: PositionMap, id: string, existing: PositionMap): PositionMap {
    acc[id := if id in existing then existing[id] else Origin]
  }

  lemma LayoutPassOwnStep(cs: seq<LaidOutNode>, existing: PositionMap)
    requires cs != [] && LayoutPass(cs[..|cs| - 1], existing, OwnKeys).Some?
    ensures LayoutPass(cs, existing, OwnKeys)
         == Some(Place(LayoutPass(cs[..|cs| - 1], existing, OwnKeys).value, cs[|cs| - 1], existing))
  {
  }

  lemma FallbackPassOwnStep(nodes: seq<FlowNode>, existing: PositionMap)
    requires nodes != [] && FallbackPass(nodes[..|nodes| - 1], existing, OwnKeys).Some?
    ensures FallbackPass(nodes, existing, OwnKeys)
         == Some(PlaceAtOrigin(FallbackPass(nodes[..|nodes| - 1], existing, OwnKeys).value, nodes[|nodes| - 1].id, existing))
  {
  }

  /** Placing the last node keeps the keys right: the non-empty ids seen so far. */
  lemma PlaceKeys(cs: seq<LaidOutNode>, acc: PositionMap, existing: PositionMap)
    requires cs != [] && KeysAreIds(acc, cs[..|cs| - 1])
    ensures KeysAreIds(Place(acc, cs[|cs| - 1], existing), cs)
  {
    var init := cs[..|cs| - 1];
    var p := Place(acc, cs[|cs| - 1], existing);
    forall k
      ensures k in p <==> k != "" && exists i :: 0 <= i < |cs| && cs[i].id == k
    {
      if k in acc {
        var i :| 0 <= i < |init| && init[i].id == k;
        assert cs[i].id == k;
      }
      if k != "" && k != cs[|cs| - 1].id && (exists i :: 0 <= i < |cs| && cs[i].id == k) {
        var i :| 0 <= i < |cs| && cs[i].id == k;
        assert i < |init| && init[i].id == k;
      }
    }
  }

  /** Placing the last node keeps the values right: a stored position, or
      the last node with the id. */
  lemma PlaceValues(cs: seq<LaidOutNode>, acc: PositionMap, existing: PositionMap)
    requires cs != []
    requires IsReconciled(acc, cs[..|cs| - 1], existing)
    ensures forall k :: k in Place(acc, cs[|cs| - 1], existing) ==>
      Place(acc, cs[|cs| - 1], existing)[k]
        == if k in existing then existing[k] else ElkPoint(cs[LastWithId(cs, k)])
  {
    var init := cs[..|cs| - 1];
    var p := Place(acc, cs[|cs| - 1], existing);
    forall k | k in p && k !in existing && k != cs[|cs| - 1].id
      ensures p[k] == ElkPoint(cs[LastWithId(cs, k)])
    {
      assert k in acc;
      var i :| 0 <= i < |init| && init[i].id == k;
      LastWithIdInit(cs, k, i);
    }
  }

  /** An id the last node does not carry was last seen before it. */
  lemma LastWithIdInit(cs: seq<LaidOutNode>, k: string, i: nat)
    requires i < |cs| - 1 && cs[..|cs| - 1][i].id == k && cs[|cs| - 1].id != k
    ensures LastWithId(cs, k) == LastWithId(cs[..|cs| - 1], k)
  {
  }

  /** By own keys the first pass never throws, and its result is the
      reconciled positions. */
  lemma {:induction false} LayoutPassReconciles(cs: seq<LaidOutNode>, existing: PositionMap)
    ensures LayoutPass(cs, existing, OwnKeys).Some?
    ensures IsReconciled(LayoutPass(cs, existing, OwnKeys).value, cs, existing)
    decreases |cs|
  {
    if cs != [] {
      var init := cs[..|cs| - 1];
      LayoutPassReconciles(init, existing);
      var acc := LayoutPass(init, existing, OwnKeys).value;
      LayoutPassOwnStep(cs, existing);
      PlaceKeys(cs, acc, existing);
      PlaceValues(cs, acc, existing);
    }
  }

  lemma PlaceAtOriginKeys(nodes: seq<FlowNode>, acc: PositionMap, existing: PositionMap)
    requires nodes != [] && KeysAreNodeIds(acc, nodes[..|nodes| - 1])
    ensures KeysAreNodeIds(PlaceAtOrigin(acc, nodes[|nodes| - 1].id, existing), nodes)
  {
    var init := nodes[..|nodes| - 1];
    var p := PlaceAtOrigin(acc, nodes[|nodes| - 1].id, existing);
    forall k
      ensures k in p <==> exists i :: 0 <= i < |nodes| && nodes[i].id == k
    {
      if k in acc {
        var i :| 0 <= i < |init| && init[i].id == k;
        assert nodes[i].id == k;
      }
      if k != nodes[|nodes| - 1].id && (exists i :: 0 <= i < |nodes| && nodes[i].id == k) {
        var i :| 0 <= i < |nodes| && nodes[i].id == k;
        assert i < |init| && init[i].id == k;
      }
    }
  }

  /** By own keys the fallback pass never throws, and its result is the
      fallback positions. */
  lemma {:induction false} FallbackPassPlaces(nodes: seq<FlowNode>, existing: PositionMap)
    ensures FallbackPass(nodes, existing, OwnKeys).Some?
    ensures IsFallback(FallbackPass(nodes, existing, OwnKeys).value, nodes, existing)
    decreases |nodes|
  {
    if nodes != [] {
      var init := nodes[..|nodes| - 1];
      FallbackPassPlaces(init, existing);
      FallbackPassOwnStep(nodes, existing);
      PlaceAtOriginKeys(nodes, FallbackPass(init, existing, OwnKeys).value, existing);
    }
  }

  /** An id for which the program reads an inherited member. */
  predicate Inherits(existing: PositionMap, id: string) {
    id !in existing && id in PrototypeNames
  }

  /** Some node of `cs` has a non-empty id for which the program reads an inherited member. */
  predicate SomeChildInherits(cs: seq<LaidOutNode>, existing: PositionMap) {
    exists i :: 0 <= i < |cs| && cs[i].id != "" && Inherits(existing, cs[i].id)
  }

  lemma SomeChildInheritsSnoc(cs: seq<LaidOutNode>, existing: PositionMap)
    requires cs != []
    ensures SomeChildInherits(cs, existing) <==>
      SomeChildInherits(cs[..|cs| - 1], existing) ||
      (cs[|cs| - 1].id != "" && Inherits(existing, cs[|cs| - 1].id))
  {
    var init := cs[..|cs| - 1];
    if SomeChildInherits(init, existing) {
      var i :| 0 <= i < |init| && init[i].id != "" && Inherits(existing, init[i].id);
      assert cs[i] == init[i];
    }
    if SomeChildInherits(cs, existing) {
      var i :| 0 <= i < |cs| && cs[i].id != "" && Inherits(existing, cs[i].id);
      if i < |init| {
        assert init[i] == cs[i];
      }
    }
  }

  /** The program's first pass throws exactly when a node with an id that
      is not stored names an inherited member; otherwise it agrees with the
      own-key reading. */
  lemma {:induction false} LayoutPassPlainObject(cs: seq<LaidOutNode>, existing: PositionMap)
    ensures LayoutPass(cs, existing, PlainObject)
         == if SomeChildInherits(cs, existing) then None else LayoutPass(cs, existing, OwnKeys)
    decreases |cs|
  {
    if cs != [] {
      var init := cs[..|cs| - 1];
      LayoutPassPlainObject(init, existing);
      LayoutPassReconciles(init, existing);
      SomeChildInheritsSnoc(cs, existing);
    }
  }

  /** Some node of `nodes` has an id for which the program reads an inherited member. */
  predicate SomeNodeInherits(nodes: seq<FlowNode>, existing: PositionMap) {
    exists i :: 0 <= i < |nodes| && Inherits(existing, nodes[i].id)
  }

  lemma SomeNodeInheritsSnoc(nodes: seq<FlowNode>, existing: PositionMap)
    requires nodes != []
    ensures SomeNodeInherits(nodes, existing) <==>
      SomeNodeInherits(nodes[..|nodes| - 1], existing) || Inherits(existing, nodes[|nodes| - 1].id)
  {
    var init := nodes[..|nodes| - 1];
    if SomeNodeInherits(init, existing) {
      var i :| 0 <= i < |init| && Inherits(existing, init[i].id);
      assert nodes[i] == init[i];
    }
    if SomeNodeInherits(nodes, existing) {
      var i :| 0 <= i < |nodes| && Inherits(existing, nodes[i].id);
      if i < |init| {
        assert init[i] == nodes[i];
      }
    }
  }

  /** The program's fallback pass throws exactly when a node id that is not
      stored names an inherited member; otherwise it agrees with the own-key
      reading. */
  lemma {:induction false} FallbackPassPlainObject(nodes: seq<FlowNode>, existing: PositionMap)
    ensures FallbackPass(nodes, existing, PlainObject)
         == if SomeNodeInherits(nodes, existing) then None else FallbackPass(nodes, existing, OwnKeys)
    decreases |nodes|
  {
    if nodes != [] {
      var init := nodes[..|nodes| - 1];
      FallbackPassPlainObject(init, existing);
      FallbackPassPlaces(init, existing);
      SomeNodeInheritsSnoc(nodes, existing);
    }
  }

  /** No node of the answer has an id for which the program reads an inherited member. */
  predicate NoInheritedIds(answer: Option<LaidOutGraph>, existing: PositionMap) {
    answer.Some? && answer.value.children.Some? ==>
      forall i :: 0 <= i < |answer.value.children.value| ==>
        !Inherits(existing, answer.value.children.value[i].id)
  }

  /** When no node id names an inherited member (or every such id is stored),
      the program computes what the own-key reading computes. */
  lemma LayoutAsWrittenAgrees(nodes: seq<FlowNode>, edges: seq<FlowEdge>, existing: PositionMap,
                              direction: Option<string>, elk: ElkGraph -> Option<LaidOutGraph>)
    requires direction.None? || direction.value !in PrototypeNames
    requires !SomeNodeInherits(nodes, existing)
    requires NoInheritedIds(elk(BuildGraph(nodes, edges, direction)), existing)
    ensures Layout(nodes, edges, existing, direction, elk, PlainObject)
         == Layout(nodes, edges, existing, direction, elk, OwnKeys)
  {
    FallbackPassPlainObject(nodes, existing);
    match elk(BuildGraph(nodes, edges, direction))
    case None =>
    case Some(g) =>
      match g.children
      case None =>
      case Some(cs) =>
        LayoutPassPlainObject(cs, existing);
        LayoutPassReconciles(cs, existing);
  }

  /** A layout that puts every node of the request at the origin. */
  function AllAtOrigin(g: ElkGraph): Option<LaidOutGraph> {
    Some(LaidOutGraph(Some(seq(|g.children|, i requires 0 <= i < |g.children| =>
      LaidOutNode(g.children[i].id, Some(Zero), Some(Zero))))))
  }

  /** A diagram with one node called `toString` and no stored positions: the
      program's promise rejects (the first pass throws, and so does the
      fallback), while the own-key reading places the node. */
  lemma ToStringNodeRejected()
    ensures Layout([FlowNode("toString", None, None)], [], map[], None, AllAtOrigin, PlainObject) == None
    ensures Layout([FlowNode("toString", None, None)], [], map[], None, AllAtOrigin, OwnKeys)
         == Some(map["toString" := Origin])
  {
    var nodes := [FlowNode("toString", None, None)];
    var g := BuildGraph(nodes, [], None);
    assert g.children[0].id == "toString";
    var cs := AllAtOrigin(g).value.children.value;
    assert cs == [LaidOutNode("toString", Some(Zero), Some(Zero))];
    assert cs[..0] == [] && nodes[..0] == [];
    assert "toString" in PrototypeNames;
    assert LayoutPass(cs, map[], PlainObject) == None;
    assert FallbackPass(nodes, map[], PlainObject) == None;
    assert ElkPoint(cs[0]) == Origin;
    assert LayoutPass(cs, map[], OwnKeys) == Some(map["toString" := Origin]);
  }

  // ---------------------------------------------------------------------
  // The service, with own-key lookups

  /** The first pass of `calculateLayout`. */
  method ReconcileChildren(cs: seq<LaidOutNode>, existing: PositionMap) returns (positions: PositionMap)
    ensures Some(positions) == LayoutPass(cs, existing, OwnKeys)
    ensures IsReconciled(positions, cs, existing)
  {
    positions := map[];
    var i := 0;
    while i < |cs|
      invariant 0 <= i <= |cs|
      invariant Some(positions) == LayoutPass(cs[..i], existing, OwnKeys)
    {
      assert cs[..i + 1][..i] == cs[..i];
      var n := cs[i];
      if n.id != "" {
        if n.id in existing {
          positions := positions[n.id := existing[n.id]];
        } else {
          positions := positions[n.id := ElkPoint(n)];
        }
      }
      i := i + 1;
    }
    assert cs[..i] == cs;
    LayoutPassReconciles(cs, existing);
  }

  /** The fallback of `calculateLayout`. */
  method FallbackPositions(nodes: seq<FlowNode>, existing: PositionMap) returns (positions: PositionMap)
    ensures Some(positions) == FallbackPass(nodes, existing, OwnKeys)
    ensures IsFallback(positions, nodes, existing)
  {
    positions := map[];
    var i := 0;
    while i < |nodes|
      invariant 0 <= i <= |nodes|
      invariant Some(positions) == FallbackPass(nodes[..i], existing, OwnKeys)
    {
      assert nodes[..i + 1][..i] == nodes[..i];
      var id := nodes[i].id;
      if id in existing {
        positions := positions[id := existing[id]];
      } else {
        positions := positions[id := Origin];
      }
      i := i + 1;
    }
    assert nodes[..i] == nodes;
    FallbackPassPlaces(nodes, existing);
  }

  /** `calculateLayout` with own-key lookups: it always resolves, with the
      reconciled positions of ELK's answer, or the fallback positions when
      the layout fails. */
  method CalculateLayout(nodes: seq<FlowNode>, edges: seq<FlowEdge>, existing: PositionMap,
                         direction: Option<string>, elk: ElkGraph -> Option<LaidOutGraph>)
    returns (positions: PositionMap)
    requires direction.None? || direction.value !in PrototypeNames
    ensures Some(positions) == Layout(nodes, edges, existing, direction, elk, OwnKeys)
    ensures var answer := elk(BuildGraph(nodes, edges, direction));
      (answer.None? ==> IsFallback(positions, nodes, existing)) &&
      (answer.Some? && answer.value.children.None? ==> positions == map[]) &&
      (answer.Some? && answer.value.children.Some? ==>
        IsReconciled(positions, answer.value.children.value, existing))
  {
    var graph := BuildGraph(nodes, edges, direction);
    var answer := elk(graph);
    if answer.None? {
      positions := FallbackPositions(nodes, existing);
    } else if answer.value.children.None? {
      positions := map[];
    } else {
      positions := ReconcileChildren(answer.value.children.value, existing);
    }
  }
}
