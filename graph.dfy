/**
  The relationship-graph engine of the SPDX toolkit (src/graph.rs): a directed graph
  built from the relationship records of an SPDX document, a minimum-hop path search
  between two elements, and the annotation of a node path with the relationship type
  used at each hop.
 */
module Graph {

  /** An SPDX element identifier, such as "SPDXRef-DOCUMENT". */
  type Id = string

  /** A relationship type: an opaque label compared for equality; `name` is its string form. */
  datatype RelationshipType = RelationshipType(name: string)

  /** One relationship record of the document. */
  datatype Relationship = Relationship(
    spdxElementId: Id,
    relatedSpdxElement: Id,
    relationshipType: RelationshipType)

  /** The only error the graph engine raises. */
  datatype Error = Graph(message: string)

  datatype Option<T> = None | Some(value: T)

  datatype Result<T> = Ok(value: T) | Err(error: Error)

  /** The edges of a directed graph map: at most one label per ordered pair of nodes. */
  type Edges = map<(Id, Id), RelationshipType>

  /** The ordered pair a record connects. */
  function Pair(r: Relationship): (Id, Id) {
    (r.spdxElementId, r.relatedSpdxElement)
  }

  /**
    The directed graph map the engine builds on: a node set and one label per
    ordered pair. Only the operations the engine calls are modelled.
   */
  class DiGraphMap {
    var nodes: set<Id>
    var edges: Edges

    /**
      Both ends of every edge are nodes: the graph map's own structural invariant,
      which every operation keeps. The engine's results are stated over `edges` alone.
     */
    ghost predicate Valid()
      reads this
    {
      forall e | e in edges :: e.0 in nodes && e.1 in nodes
    }

    constructor ()
      ensures Valid()
      ensures nodes == {} && edges == map[]
    {
      nodes := {};
      edges := map[];
    }

    /** Adds a node (a no-op for a node already present) and returns it. */
    method AddNode(n: Id) returns (r: Id)
      requires Valid()
      modifies this
      ensures Valid()
      ensures r == n
      ensures nodes == old(nodes) + {n} && edges == old(edges)
    {
      nodes := nodes + {n};
      r := n;
    }

    /**
      Adds the edge a -> b with the given weight, inserting a and b as nodes if
      needed; an existing edge for the pair has its weight overwritten, and the
      weight it had is returned.
     */
    method AddEdge(a: Id, b: Id, weight: RelationshipType) returns (previous: Option<RelationshipType>)
      requires Valid()
      modifies this
      ensures Valid()
      ensures nodes == old(nodes) + {a, b}
      ensures edges == old(edges)[(a, b) := weight]
      ensures previous == if (a, b) in old(edges) then Some(old(edges)[(a, b)]) else None
    {
      previous := if (a, b) in edges then Some(edges[(a, b)]) else None;
      nodes := nodes + {a, b};
      edges := edges[(a, b) := weight];
    }
  }

  // ---------------------------------------------------------------------------
  // Graph construction
  // ---------------------------------------------------------------------------

  /** The identifiers the records name as source or target. */
  function NodesOf(rs: seq<Relationship>): set<Id> {
    if rs == [] then {}
    else
      var r := rs[|rs| - 1];
      NodesOf(rs[..|rs| - 1]) + {r.spdxElementId, r.relatedSpdxElement}
  }

  /** The edges left after inserting the records' edges in list order, later ones overwriting. */
  function EdgesOf(rs: seq<Relationship>): Edges {
    if rs == [] then map[]
    else
      var r := rs[|rs| - 1];
      EdgesOf(rs[..|rs| - 1])[Pair(r) := r.relationshipType]
  }

  /** Builds the graph of the records: one node per identifier, one edge per ordered pair. */
  method CreateGraph(relationships: seq<Relationship>) returns (g: DiGraphMap)
    ensures fresh(g) && g.Valid()
    ensures g.nodes == NodesOf(relationships)
    ensures g.edges == EdgesOf(relationships)
  {
    g := new DiGraphMap();
    var nodes: map<Id, Id> := map[];
    for i := 0 to |relationships|
      invariant fresh(g) && g.Valid()
      invariant Interned(g, nodes)
      invariant g.nodes == NodesOf(relationships[..i])
      invariant g.edges == EdgesOf(relationships[..i])
    {
      var relationship := relationships[i];
      InsertRecord(relationships, i);
      ghost var before := g.nodes;
      var a, b;
      a, nodes := NodeFor(g, nodes, relationship.spdxElementId);
      b, nodes := NodeFor(g, nodes, relationship.relatedSpdxElement);
      var _ := g.AddEdge(a, b, relationship.relationshipType);
      assert g.nodes == before + {a, b};
    }
    assert relationships[..|relationships|] == relationships;
  }

  /** `nodes` maps nodes of `g`, each to itself. */
  ghost predicate Interned(g: DiGraphMap, nodes: map<Id, Id>)
    reads g
  {
    forall k | k in nodes :: k in g.nodes && nodes[k] == k
  }

  /**
    The node for `n`: the one recorded in `nodes`, or else a new node of `g`,
    which is then recorded (the entry API's `or_insert_with`).
   */
  method NodeFor(g: DiGraphMap, nodes: map<Id, Id>, n: Id) returns (r: Id, nodes': map<Id, Id>)
    requires g.Valid() && Interned(g, nodes)
    modifies g
    ensures g.Valid() && Interned(g, nodes')
    ensures r == n && nodes' == nodes[n := n]
    ensures g.nodes == old(g.nodes) + {n} && g.edges == old(g.edges)
  {
    if n in nodes {
      r, nodes' := nodes[n], nodes;
    } else {
      r := g.AddNode(n);
      nodes' := nodes[n := r];
    }
  }

  /** Inserting one more record adds its two identifiers and sets the label of its pair. */
  lemma InsertRecord(rs: seq<Relationship>, i: nat)
    requires i < |rs|
    ensures NodesOf(rs[..i + 1]) == NodesOf(rs[..i]) + {rs[i].spdxElementId, rs[i].relatedSpdxElement}
    ensures EdgesOf(rs[..i + 1]) == EdgesOf(rs[..i])[Pair(rs[i]) := rs[i].relationshipType]
  {
    assert rs[..i + 1][..i] == rs[..i];
  }

  /** A node of the built graph is exactly an identifier some record names. */
  lemma {:induction false} NodesOfExactly(rs: seq<Relationship>, n: Id)
    ensures n in NodesOf(rs)
        <==> exists i | 0 <= i < |rs| :: rs[i].spdxElementId == n || rs[i].relatedSpdxElement == n
  {
    if rs != [] {
      var init := rs[..|rs| - 1];
      NodesOfExactly(init, n);
      assert forall i | 0 <= i < |init| :: init[i] == rs[i];
      var last := rs[|rs| - 1];
      if n in NodesOf(rs) && n !in NodesOf(init) {
        assert last.spdxElementId == n || last.relatedSpdxElement == n;
      }
    }
  }

  /** Every record's pair is an edge, and every edge is the pair of some record. */
  lemma {:induction false} EdgesOfExactly(rs: seq<Relationship>, e: (Id, Id))
    ensures e in EdgesOf(rs) <==> exists i | 0 <= i < |rs| :: Pair(rs[i]) == e
  {
    if rs != [] {
      var init := rs[..|rs| - 1];
      EdgesOfExactly(init, e);
      assert forall i | 0 <= i < |init| :: init[i] == rs[i];
      if e in EdgesOf(rs) && e !in EdgesOf(init) {
        assert Pair(rs[|rs| - 1]) == e;
      }
    }
  }

  /** The label of a record's edge is that of the last record with the same pair. */
  lemma {:induction false} LastRecordWins(rs: seq<Relationship>, i: nat)
    requires i < |rs|
    requires forall j | i < j < |rs| :: Pair(rs[j]) != Pair(rs[i])
    ensures Pair(rs[i]) in EdgesOf(rs)
    ensures EdgesOf(rs)[Pair(rs[i])] == rs[i].relationshipType
  {
    if i < |rs| - 1 {
      var init := rs[..|rs| - 1];
      assert forall j | 0 <= j < |init| :: init[j] == rs[j];
      LastRecordWins(init, i);
    }
  }

  /** An empty relationship list gives a graph with no nodes and no edges. */
  lemma EmptyRelationshipsEmptyGraph(rs: seq<Relationship>)
    requires |rs| == 0
    ensures NodesOf(rs) == {} && EdgesOf(rs) == map[]
  {
  }

  // ---------------------------------------------------------------------------
  // Walks
  // ---------------------------------------------------------------------------

  /** Every consecutive pair of `p` is an edge. */
  predicate HopsAreEdges(edges: Edges, p: seq<Id>) {
    forall i | 0 <= i < |p| - 1 :: (p[i], p[i + 1]) in edges
  }

  /** `p` is a directed walk starting at `s`. */
  predicate WalkFrom(edges: Edges, p: seq<Id>, s: Id) {
    |p| >= 1 && p[0] == s && HopsAreEdges(edges, p)
  }

  /** `p` is a directed walk from `s` to `t`. */
  predicate IsWalk(edges: Edges, p: seq<Id>, s: Id, t: Id) {
    WalkFrom(edges, p, s) && p[|p| - 1] == t
  }

  ghost predicate Reachable(edges: Edges, s: Id, t: Id) {
    exists p :: IsWalk(edges, p, s, t)
  }

  /** `p` is a walk from `s` to `t` with no more nodes than any other such walk. */
  ghost predicate IsShortestWalk(edges: Edges, p: seq<Id>, s: Id, t: Id) {
    IsWalk(edges, p, s, t) && forall q | IsWalk(edges, q, s, t) :: |p| <= |q|
  }

  lemma WalkExtend(edges: Edges, p: seq<Id>, s: Id, u: Id, w: Id)
    requires IsWalk(edges, p, s, u) && (u, w) in edges
    ensures IsWalk(edges, p + [w], s, w)
  {
    var q := p + [w];
    forall i | 0 <= i < |q| - 1
      ensures (q[i], q[i + 1]) in edges
    {
      if i < |p| - 1 {
        assert q[i] == p[i] && q[i + 1] == p[i + 1];
      }
    }
  }

  lemma WalkInit(edges: Edges, q: seq<Id>, s: Id)
    requires WalkFrom(edges, q, s) && |q| >= 2
    ensures IsWalk(edges, q[..|q| - 1], s, q[|q| - 2])
    ensures (q[|q| - 2], q[|q| - 1]) in edges
  {
    var p := q[..|q| - 1];
    forall i | 0 <= i < |p| - 1
      ensures (p[i], p[i + 1]) in edges
    {
      assert p[i] == q[i] && p[i + 1] == q[i + 1];
    }
  }

  /** A node set closed under the edges holds the end of every walk starting in it. */
  lemma {:induction false} ClosedSetHoldsWalks(edges: Edges, closed: set<Id>, q: seq<Id>, s: Id)
    requires s in closed
    requires forall e | e in edges && e.0 in closed :: e.1 in closed
    requires WalkFrom(edges, q, s)
    ensures q[|q| - 1] in closed
  {
    if |q| >= 2 {
      WalkInit(edges, q, s);
      ClosedSetHoldsWalks(edges, closed, q[..|q| - 1], s);
      var e := (q[|q| - 2], q[|q| - 1]);
      assert e in edges && e.0 in closed;
    }
  }

  /** A node no edge leaves reaches no other node: only the one-node walk starts there. */
  lemma DeadEndReachesNothing(edges: Edges, s: Id, t: Id)
    requires forall e | e in edges :: e.0 != s
    requires s != t
    ensures !Reachable(edges, s, t)
  {
    forall q | WalkFrom(edges, q, s)
      ensures q[|q| - 1] == s
    {
      ClosedSetHoldsWalks(edges, {s}, q, s);
    }
  }

  /** Cutting out the stretch between two visits of the same node leaves a shorter walk. */
  lemma CutCycle(edges: Edges, p: seq<Id>, s: Id, t: Id, i: nat, j: nat)
    requires IsWalk(edges, p, s, t) && i < j < |p| && p[i] == p[j]
    ensures IsWalk(edges, p[..i] + p[j..], s, t) && |p[..i] + p[j..]| < |p|
  {
    var q := p[..i] + p[j..];
    assert |q| == |p| - (j - i);
    forall k | 0 <= k < |q| - 1
      ensures (q[k], q[k + 1]) in edges
    {
      if k < i - 1 {
        assert q[k] == p[k] && q[k + 1] == p[k + 1];
      } else if k == i - 1 {
        assert q[k] == p[i - 1] && q[k + 1] == p[j] == p[i];
      } else {
        assert q[k] == p[k + j - i] && q[k + 1] == p[k + 1 + j - i];
      }
    }
    assert q[0] == s by {
      if i == 0 { assert q[0] == p[j] == p[0]; } else { assert q[0] == p[0]; }
    }
    assert q[|q| - 1] == p[|p| - 1];
  }

  /**
    In a well-formed graph map an identifier that is not a node reaches, and is
    reached from, no other identifier.
   */
  lemma AbsentIdReachesNothing(g: DiGraphMap, s: Id, t: Id)
    requires g.Valid() && s != t && (s !in g.nodes || t !in g.nodes)
    ensures !Reachable(g.edges, s, t)
  {
    if s !in g.nodes {
      DeadEndReachesNothing(g.edges, s, t);
    } else {
      forall q | WalkFrom(g.edges, q, s)
        ensures q[|q| - 1] in g.nodes
      {
        ClosedSetHoldsWalks(g.edges, g.nodes, q, s);
      }
    }
  }

  /** A shortest walk never visits a node twice. */
  lemma ShortestWalkIsSimple(edges: Edges, p: seq<Id>, s: Id, t: Id)
    requires IsShortestWalk(edges, p, s, t)
    ensures forall i, j | 0 <= i < j < |p| :: p[i] != p[j]
  {
    forall i, j | 0 <= i < j < |p|
      ensures p[i] != p[j]
    {
      if p[i] == p[j] {
        CutCycle(edges, p, s, t, i, j);
      }
    }
  }

  /** The shortest walk from a node to itself is the node alone. */
  lemma ShortestWalkToSelf(edges: Edges, p: seq<Id>, s: Id)
    requires IsShortestWalk(edges, p, s, s)
    ensures p == [s]
  {
    assert IsWalk(edges, [s], s, s);
  }

  // ---------------------------------------------------------------------------
  // Path search
  // ---------------------------------------------------------------------------

  /** The nodes a walk from `s` can reach: `s` and the targets of the edges. */
  function Universe(edges: Edges, s: Id): set<Id> {
    {s} + set e | e in edges :: e.1
  }

  /**
    A minimum-hop path from `start` to `end`, with its cost (one per edge). The
    search is breadth first, layer by layer: `paths` holds, for every node found
    so far, a shortest walk to it, and `frontier` the nodes found in the last layer.
   */
  method FindPath(g: DiGraphMap, start: Id, end: Id) returns (r: Option<(int, seq<Id>)>)
    ensures r.None? <==> !Reachable(g.edges, start, end)
    ensures r.Some? ==> IsShortestWalk(g.edges, r.value.1, start, end)
    ensures r.Some? ==> r.value.0 == |r.value.1| - 1
    ensures start == end ==> r == Some((0, [start]))
  {
    var edges := g.edges;
    var paths: map<Id, seq<Id>> := map[start := [start]];
    var frontier: set<Id> := {start};
    ghost var d: nat := 0;
    while end !in paths && frontier != {}
      invariant SearchInvariant(edges, start, d, paths, frontier)
      decreases |Universe(edges, start) - paths.Keys|, |frontier|
    {
      var next, parent, found := ExtendPaths(edges, paths, frontier);
      NextLayer(edges, start, d, paths, frontier, next, parent, found);
      paths, frontier, d := found, next, d + 1;
    }
    if end in paths {
      var p := paths[end];
      forall q | IsWalk(edges, q, start, end)
        ensures |p| <= |q|
      {
      }
      r := Some((|p| - 1, p));
    } else {
      forall q | WalkFrom(edges, q, start)
        ensures q[|q| - 1] in paths
      {
        ClosedSetHoldsWalks(edges, paths.Keys, q, start);
      }
      r := None;
    }
  }

  /** The targets of edges leaving `frontier` that are not in `seen`. */
  function Successors(edges: Edges, frontier: set<Id>, seen: set<Id>): set<Id> {
    set e | e in edges && e.0 in frontier && e.1 !in seen :: e.1
  }

  /** Some node of `frontier` with an edge to the successor `w`. */
  method Predecessor(edges: Edges, frontier: set<Id>, seen: set<Id>, w: Id) returns (u: Id)
    requires w in Successors(edges, frontier, seen)
    ensures u in frontier && (u, w) in edges && w !in seen
  {
    var e :| e in edges && e.0 in frontier && e.1 !in seen && e.1 == w;
    u := e.0;
  }

  /**
    Finds the nodes one hop beyond the frontier that were not found before, each
    with the frontier node it is reached from and the walk through that node.
   */
  method ExtendPaths(edges: Edges, paths: map<Id, seq<Id>>, frontier: set<Id>)
    returns (next: set<Id>, parent: map<Id, Id>, found: map<Id, seq<Id>>)
    requires forall v | v in frontier :: v in paths
    ensures next == Successors(edges, frontier, paths.Keys)
    ensures forall v :: v in found <==> v in paths || v in next
    ensures forall v | v in paths :: found[v] == paths[v]
    ensures forall w | w in next ::
        w in parent && parent[w] in frontier && (parent[w], w) in edges && found[w] == paths[parent[w]] + [w]
  {
    next := Successors(edges, frontier, paths.Keys);
    found, parent := paths, map[];
    var todo := next;
    while todo != {}
      invariant forall v | v in todo :: v in next
      invariant forall v :: v in found <==> v in paths || (v in next && v !in todo)
      invariant forall v | v in paths :: found[v] == paths[v]
      invariant forall w | w in next && w !in todo ::
          w in parent && parent[w] in frontier && (parent[w], w) in edges && found[w] == paths[parent[w]] + [w]
      decreases |todo|
    {
      var w :| w in todo;
      var u := Predecessor(edges, frontier, paths.Keys, w);
      found, parent := found[w := paths[u] + [w]], parent[w := u];
      todo := todo - {w};
    }
  }

  /**
    What the search knows after `d` layers: `paths` holds a walk to every node found,
    those walks are shortest among walks of at most `d + 1` nodes, the frontier holds
    the nodes found in layer `d`, and every edge leaving a node found earlier than the
    frontier leads to a node already found.
   */
  ghost predicate SearchInvariant(edges: Edges, start: Id, d: nat, paths: map<Id, seq<Id>>, frontier: set<Id>) {
    && start in paths && paths[start] == [start]
    && (forall v | v in frontier :: v in paths)
    && (forall v | v in paths :: v in Universe(edges, start))
    && (forall v | v in paths :: IsWalk(edges, paths[v], start, v) && |paths[v]| <= d + 1)
    && (forall v | v in frontier :: |paths[v]| == d + 1)
    && (forall q | WalkFrom(edges, q, start) && |q| <= d + 1 ::
          q[|q| - 1] in paths && |paths[q[|q| - 1]]| <= |q|)
    && (forall e | e in edges && e.0 in paths && e.0 !in frontier :: e.1 in paths)
  }

  /**
    What `ExtendPaths` promises: `next` holds the new nodes one hop beyond the
    frontier, and `found` extends `paths` with a walk through a frontier node to each.
   */
  ghost predicate LayerStep(edges: Edges, paths: map<Id, seq<Id>>, frontier: set<Id>,
                            next: set<Id>, parent: map<Id, Id>, found: map<Id, seq<Id>>) {
    && (forall v | v in frontier :: v in paths)
    && next == Successors(edges, frontier, paths.Keys)
    && (forall v :: v in found <==> v in paths || v in next)
    && (forall v | v in paths :: found[v] == paths[v])
    && (forall w | w in next ::
          w in parent && parent[w] in frontier && (parent[w], w) in edges && found[w] == paths[parent[w]] + [w])
  }

  /** The invariant of the search holds again once the next layer has been found. */
  lemma NextLayer(edges: Edges, start: Id, d: nat, paths: map<Id, seq<Id>>, frontier: set<Id>,
                  next: set<Id>, parent: map<Id, Id>, found: map<Id, seq<Id>>)
    requires SearchInvariant(edges, start, d, paths, frontier) && frontier != {}
    requires LayerStep(edges, paths, frontier, next, parent, found)
    ensures SearchInvariant(edges, start, d + 1, found, next)
    ensures next != {} ==> |Universe(edges, start) - found.Keys| < |Universe(edges, start) - paths.Keys|
    ensures next == {} ==> found.Keys == paths.Keys
  {
    NextLayerWalks(edges, start, d, paths, frontier, next, parent, found);
    NextLayerComplete(edges, start, d, paths, frontier, next, parent, found);
    NextLayerClosed(edges, start, d, paths, frontier, next, parent, found);
    if next != {} {
      var w :| w in next;
      assert w in found && w !in paths;
      ShrinkingRest(Universe(edges, start), paths.Keys, found.Keys);
    }
  }

  /** The walks of the next layer are walks of `d + 2` nodes through the frontier. */
  lemma NextLayerWalks(edges: Edges, start: Id, d: nat, paths: map<Id, seq<Id>>, frontier: set<Id>,
                       next: set<Id>, parent: map<Id, Id>, found: map<Id, seq<Id>>)
    requires SearchInvariant(edges, start, d, paths, frontier)
    requires LayerStep(edges, paths, frontier, next, parent, found)
    ensures forall w | w in next :: IsWalk(edges, found[w], start, w) && |found[w]| == d + 2
    ensures forall w | w in next :: w in Universe(edges, start)
  {
    forall w | w in next
      ensures IsWalk(edges, found[w], start, w) && |found[w]| == d + 2
    {
      WalkExtend(edges, paths[parent[w]], start, parent[w], w);
    }
    forall w | w in next
      ensures w in Universe(edges, start)
    {
      var e :| e in edges && e.0 in frontier && e.1 !in paths.Keys && e.1 == w;
    }
  }

  /** Every walk of at most `d + 2` nodes ends at a found node with a walk no longer. */
  lemma NextLayerComplete(edges: Edges, start: Id, d: nat, paths: map<Id, seq<Id>>, frontier: set<Id>,
                          next: set<Id>, parent: map<Id, Id>, found: map<Id, seq<Id>>)
    requires SearchInvariant(edges, start, d, paths, frontier)
    requires LayerStep(edges, paths, frontier, next, parent, found)
    ensures forall q | WalkFrom(edges, q, start) && |q| <= d + 2 ::
        q[|q| - 1] in found && |found[q[|q| - 1]]| <= |q|
  {
    forall q | WalkFrom(edges, q, start) && |q| <= d + 2
      ensures q[|q| - 1] in found && |found[q[|q| - 1]]| <= |q|
    {
      if |q| == d + 2 {
        WalkInit(edges, q, start);
        var init := q[..|q| - 1];
        assert init[|init| - 1] == q[|q| - 2];
        var e := (q[|q| - 2], q[|q| - 1]);
        assert e.0 in paths;
        if e.1 !in paths {
          assert e.0 in frontier;
          assert e.1 in next;
        }
      }
    }
  }

  /** Every edge leaving a node found before the new frontier leads to a found node. */
  lemma NextLayerClosed(edges: Edges, start: Id, d: nat, paths: map<Id, seq<Id>>, frontier: set<Id>,
                        next: set<Id>, parent: map<Id, Id>, found: map<Id, seq<Id>>)
    requires SearchInvariant(edges, start, d, paths, frontier)
    requires LayerStep(edges, paths, frontier, next, parent, found)
    ensures forall e | e in edges && e.0 in found && e.0 !in next :: e.1 in found
  {
    forall e | e in edges && e.0 in found && e.0 !in next
      ensures e.1 in found
    {
      if e.0 in frontier && e.1 !in paths {
        assert e.1 in next;
      }
    }
  }

  /** Adding found nodes leaves fewer of the reachable nodes to find. */
  lemma ShrinkingRest<T>(u: set<T>, a: set<T>, b: set<T>)
    requires b <= u && a <= b && a != b
    ensures |u - b| < |u - a|
  {
    var x :| x in b && x !in a;
    assert x in u - a && x !in u - b;
    ProperSubsetCard(u - b, u - a);
  }

  lemma ProperSubsetCard<T>(a: set<T>, b: set<T>)
    requires a <= b && a != b
    ensures |a| < |b|
  {
    var x :| x in b && x !in a;
    assert a <= b - {x};
    SubsetCard(a, b - {x});
  }

  lemma {:induction false} SubsetCard<T>(a: set<T>, b: set<T>)
    requires a <= b
    ensures |a| <= |b|
  {
    if a != {} {
      var x :| x in a;
      SubsetCard(a - {x}, b - {x});
    }
  }

  // ---------------------------------------------------------------------------
  // Path annotation
  // ---------------------------------------------------------------------------

  /**
    The path with the string form of the edge label inserted between every two
    consecutive nodes; fails when a hop is not an edge.
   */
  method PathWithRelationships(g: DiGraphMap, path: seq<Id>) returns (r: Result<seq<string>>)
    ensures r.Err? <==> !HopsAreEdges(g.edges, path)
    ensures r.Err? ==> r.error == Graph("no edge found")
    ensures r.Ok? ==> |r.value| == if path == [] then 0 else 2 * |path| - 1
    ensures r.Ok? ==> forall i | 0 <= i < |path| :: r.value[2 * i] == path[i]
    ensures r.Ok? ==> forall i | 0 <= i < |path| - 1 ::
        r.value[2 * i + 1] == g.edges[(path[i], path[i + 1])].name
  {
    var annotated: seq<string> := [];
    for k := 0 to |path|
      invariant |annotated| == if k == 0 then 0 else 2 * k - 1
      invariant forall i | 0 <= i < k :: annotated[2 * i] == path[i]
      invariant forall i | 0 <= i < k - 1 ::
          (path[i], path[i + 1]) in g.edges && annotated[2 * i + 1] == g.edges[(path[i], path[i + 1])].name
    {
      var spdxId := path[k];
      if annotated != [] {
        var previous := annotated[|annotated| - 1];
        assert previous == path[k - 1];
        if (previous, spdxId) !in g.edges {
          r := Err(Graph("no edge found"));
          return;
        }
        annotated := annotated + [g.edges[(previous, spdxId)].name];
      }
      annotated := annotated + [spdxId];
    }
    r := Ok(annotated);
  }

  /**
    The search followed by the annotation of the path it finds, as the tests of
    the engine do: the annotation of a path the search returns never fails.
   */
  method FindPathWithRelationships(g: DiGraphMap, start: Id, end: Id) returns (r: Option<Result<seq<string>>>)
    ensures r.None? <==> !Reachable(g.edges, start, end)
    ensures r.Some? ==> r.value.Ok?
    ensures r.Some? ==> |r.value.value| % 2 == 1
    ensures r.Some? ==> r.value.value[0] == start && r.value.value[|r.value.value| - 1] == end
  {
    var found := FindPath(g, start, end);
    if found.None? {
      return None;
    }
    var path := found.value.1;
    var annotated := PathWithRelationships(g, path);
    assert annotated.Ok?;
    assert annotated.value[2 * (|path| - 1)] == path[|path| - 1];
    r := Some(annotated);
  }

  /**
    A small document: A DESCRIBES B, B CONTAINS C, A CONTAINS C. The direct edge
    beats the two-hop route, and nothing leads back from C to A.
   */
  method Scenario() {
    var describes, contains := RelationshipType("DESCRIBES"), RelationshipType("CONTAINS");
    var rs := [Relationship("A", "B", describes), Relationship("B", "C", contains),
               Relationship("A", "C", contains)];
    var g := CreateGraph(rs);
    assert rs[..2][..1] == rs[..1] && rs[..1][..0] == [] && rs[..3] == rs;
    assert EdgesOf(rs[..1]) == map[("A", "B") := describes];
    assert EdgesOf(rs[..2]) == map[("A", "B") := describes, ("B", "C") := contains];
    assert g.edges == map[("A", "B") := describes, ("B", "C") := contains, ("A", "C") := contains];
    assert IsWalk(g.edges, ["A", "C"], "A", "C");
    var forward := FindPath(g, "A", "C");
    var p := forward.value.1;
    assert |p| == 2 && p == [p[0], p[1]];
    assert forward == Some((1, ["A", "C"]));
    var annotated := PathWithRelationships(g, ["A", "C"]);
    assert annotated.Ok? && annotated.value == [annotated.value[0], annotated.value[1], annotated.value[2]];
    assert annotated == Ok(["A", "CONTAINS", "C"]);
    DeadEndReachesNothing(g.edges, "C", "A");
    var backward := FindPath(g, "C", "A");
    assert backward == None;
    var empty := CreateGraph([]);
    var nothing := FindPath(empty, "A", "C");
    DeadEndReachesNothing(empty.edges, "A", "C");
    assert nothing == None;
  }
}
