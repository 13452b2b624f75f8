/**
 The part of `networkx.Graph` that the tea graph relies on: an undirected
 graph whose nodes iterate in insertion order, whose node attribute dictionaries
 are merged by `add_node`, and whose neighbour lists are in edge-insertion order.
 */
module Graphs {

  type Attrs = map<string, string>

  /**
   A graph value: `nodes` is the node order (`G.nodes`), `attrs` the attribute
   dictionary of every node (`G.nodes[n]`), `adj` the neighbour list of every
   node (`G.neighbors(n)`).
   */
  datatype Graph = Graph(nodes: seq<string>, attrs: map<string, Attrs>, adj: map<string, seq<string>>)

  /** `nx.Graph()` */
  function EmptyGraph(): Graph
  {
    Graph([], map[], map[])
  }

  predicate NoDup<T(==)>(s: seq<T>)
  {
    forall i, j :: 0 <= i < j < |s| ==> s[i] != s[j]
  }

  /**
   The representation invariant of an undirected graph: distinct node keys,
   an attribute dictionary and a neighbour list for exactly the nodes, neighbour
   lists without repetition, and every edge present in both directions. A node
   may be its own neighbour: `add_edge(u, u)` adds a self-loop.
   */
  ghost predicate WellFormed(g: Graph)
  {
    && NoDup(g.nodes)
    && (forall n :: n in g.attrs <==> n in g.nodes)
    && (forall n :: n in g.adj <==> n in g.nodes)
    && (forall u :: u in g.adj ==> NoDup(g.adj[u]))
    && (forall u, v :: u in g.adj && v in g.adj[u] ==> v in g.adj && u in g.adj[v])
  }

  /** Every node carries a `type` attribute. */
  ghost predicate Typed(g: Graph)
  {
    forall n :: n in g.attrs ==> "type" in g.attrs[n]
  }

  /** `n in G` */
  predicate IsNode(g: Graph, n: string)
  {
    n in g.attrs
  }

  /** `G.nodes[n].get("type") == t` */
  predicate HasType(g: Graph, n: string, t: string)
  {
    n in g.attrs && "type" in g.attrs[n] && g.attrs[n]["type"] == t
  }

  /** `G.neighbors(u)`, in edge-insertion order. */
  function Adj(g: Graph, u: string): seq<string>
  {
    if u in g.adj then g.adj[u] else []
  }

  predicate Edge(g: Graph, u: string, v: string)
  {
    u in g.adj && v in g.adj[u]
  }

  function AppendNew(s: seq<string>, x: string): (r: seq<string>)
    ensures x in r
    ensures forall y :: y in r <==> y in s || y == x
    ensures NoDup(s) ==> NoDup(r)
  {
    if x in s then s else s + [x]
  }

  /**
   `G.add_node(n, **a)`: a new node is appended to the node order with the
   attributes `a` and no neighbours; an existing node keeps its position and its
   neighbours and has `a` merged into its attributes, later keys winning.
   */
  function AddNodeG(g: Graph, n: string, a: Attrs): (r: Graph)
    ensures n in r.attrs
    ensures r.nodes == if n in g.attrs then g.nodes else g.nodes + [n]
    ensures r.attrs[n] == if n in g.attrs then g.attrs[n] + a else a
  {
    if n in g.attrs then g.(attrs := g.attrs[n := g.attrs[n] + a])
    else Graph(g.nodes + [n], g.attrs[n := a], g.adj[n := []])
  }

  /** `add_node` keeps the graph well formed and changes no neighbour list. */
  lemma AddNodeKeepsEdges(g: Graph, n: string, a: Attrs)
    requires WellFormed(g)
    ensures WellFormed(AddNodeG(g, n, a))
    ensures forall u :: Adj(AddNodeG(g, n, a), u) == Adj(g, u)
    ensures n in g.attrs ==> AddNodeG(g, n, a).adj == g.adj
  {
    var r := AddNodeG(g, n, a);
    if n !in g.attrs {
      NewNodeWellFormed(g, n, r);
    } else {
      assert r.nodes == g.nodes && r.adj == g.adj;
      assert r.attrs.Keys == g.attrs.Keys;
      SameShape(g, r);
    }
  }

  /** Changing only attribute values keeps the graph well formed. */
  lemma SameShape(g: Graph, r: Graph)
    requires WellFormed(g)
    requires r.nodes == g.nodes && r.adj == g.adj && r.attrs.Keys == g.attrs.Keys
    ensures WellFormed(r)
  {
    assert NoDup(r.nodes);
    forall m ensures m in r.attrs <==> m in r.nodes {
      assert m in r.attrs <==> m in g.attrs;
    }
    forall m ensures m in r.adj <==> m in r.nodes {
      assert m in r.adj <==> m in g.adj;
    }
    forall u | u in r.adj ensures NoDup(r.adj[u]) {
      assert r.adj[u] == g.adj[u];
    }
    forall u, v | u in r.adj && v in r.adj[u] ensures v in r.adj && u in r.adj[v] {
      assert v in g.adj[u];
    }
  }

  lemma NoDupSnoc(s: seq<string>, x: string)
    requires NoDup(s) && x !in s
    ensures NoDup(s + [x])
  {
    forall i, j | 0 <= i < j < |s| + 1 ensures (s + [x])[i] != (s + [x])[j] {
      if j == |s| {
        assert (s + [x])[i] == s[i];
      }
    }
  }

  /** Appending a fresh node with no neighbours keeps the graph well formed. */
  lemma NewNodeWellFormed(g: Graph, n: string, r: Graph)
    requires WellFormed(g) && n !in g.attrs
    requires r.nodes == g.nodes + [n] && r.adj == g.adj[n := []]
    requires forall m :: m in r.attrs <==> m in g.attrs || m == n
    ensures WellFormed(r)
    ensures forall u :: Adj(r, u) == Adj(g, u)
  {
    assert n !in g.nodes;
    NoDupSnoc(g.nodes, n);
    forall m ensures m in r.nodes <==> m in g.nodes || m == n {
      assert m in r.nodes <==> m in g.nodes || m == n;
    }
    NewNodeEdges(g, n, r);
  }

  /** The neighbour lists after a fresh node with no neighbours is added. */
  lemma NewNodeEdges(g: Graph, n: string, r: Graph)
    requires WellFormed(g) && n !in g.attrs && r.adj == g.adj[n := []]
    ensures forall u :: Adj(r, u) == Adj(g, u)
    ensures forall u :: u in r.adj ==> NoDup(r.adj[u])
    ensures forall u, v :: u in r.adj && v in r.adj[u] ==> v in r.adj && u in r.adj[v]
  {
    assert n !in g.adj;
    forall u ensures Adj(r, u) == Adj(g, u) {
      if u == n {
        assert Adj(g, u) == [];
      }
    }
    forall u, v | u in r.adj && v in r.adj[u] ensures v in r.adj && u in r.adj[v] {
      assert u != n && r.adj[u] == g.adj[u];
      assert v in g.adj && u in g.adj[v];
      assert v != n && r.adj[v] == g.adj[v];
    }
  }

  /** The node insertion `G.add_edge` performs for an endpoint that is not yet a node. */
  function EnsureNode(g: Graph, n: string): (r: Graph)
    ensures n in r.attrs
    ensures r.nodes == if n in g.attrs then g.nodes else g.nodes + [n]
    ensures n !in g.attrs ==> r.attrs[n] == map[]
  {
    if n in g.attrs then g else Graph(g.nodes + [n], g.attrs[n := map[]], g.adj[n := []])
  }

  lemma EnsureNodeKeepsEdges(g: Graph, n: string)
    requires WellFormed(g)
    ensures WellFormed(EnsureNode(g, n))
    ensures forall u :: Adj(EnsureNode(g, n), u) == Adj(g, u)
    ensures forall x, y :: Edge(EnsureNode(g, n), x, y) <==> Edge(g, x, y)
  {
    if n !in g.attrs {
      NewNodeWellFormed(g, n, EnsureNode(g, n));
    }
    forall x, y ensures Edge(EnsureNode(g, n), x, y) <==> Edge(g, x, y) {
      assert Adj(EnsureNode(g, n), x) == Adj(g, x);
    }
  }

  /** `v` appended to the neighbour list of `u` unless already there. */
  function Link(g: Graph, u: string, v: string): Graph
  {
    g.(adj := g.adj[u := AppendNew(Adj(g, u), v)])
  }

  /**
   `G.add_edge(u, v)`: missing endpoints become nodes with no attributes, `v` is
   appended to the neighbours of `u` and `u` to those of `v` unless already there.
   */
  function AddEdgeG(g: Graph, u: string, v: string): (r: Graph)
    ensures r.nodes == EnsureNode(EnsureNode(g, u), v).nodes
  {
    Link(Link(EnsureNode(EnsureNode(g, u), v), u, v), v, u)
  }

  lemma LinkEdges(g: Graph, u: string, v: string)
    ensures forall x, y :: Edge(Link(g, u, v), x, y) <==> Edge(g, x, y) || (x == u && y == v)
  {
  }

  /** `WellFormed` without the symmetry of edges: what holds between the two halves of `add_edge`. */
  ghost predicate HalfFormed(g: Graph)
  {
    && NoDup(g.nodes)
    && (forall n :: n in g.attrs <==> n in g.nodes)
    && (forall n :: n in g.adj <==> n in g.nodes)
    && (forall u :: u in g.adj ==> NoDup(g.adj[u]))
    && (forall u, v :: u in g.adj && v in g.adj[u] ==> v in g.adj)
  }

  lemma LinkHalfFormed(g: Graph, u: string, v: string)
    requires HalfFormed(g) && u in g.adj && v in g.adj
    ensures HalfFormed(Link(g, u, v))
    ensures Link(g, u, v).nodes == g.nodes && Link(g, u, v).attrs == g.attrs
  {
    var r := Link(g, u, v);
    assert r.adj.Keys == g.adj.Keys;
    forall x | x in r.adj ensures NoDup(r.adj[x]) {
      if x == u {
        assert r.adj[x] == AppendNew(g.adj[u], v);
      } else {
        assert r.adj[x] == g.adj[x];
      }
    }
  }

  /** The edges after `add_edge(u, v)` are the old ones and the edge between `u` and `v`. */
  lemma AddEdgeEdges(g: Graph, u: string, v: string)
    requires WellFormed(g)
    ensures forall x, y :: Edge(AddEdgeG(g, u, v), x, y) <==> Edge(g, x, y) || (x == u && y == v) || (x == v && y == u)
  {
    var h1 := EnsureNode(g, u);
    EnsureNodeKeepsEdges(g, u);
    var h := EnsureNode(h1, v);
    EnsureNodeKeepsEdges(h1, v);
    var l := Link(h, u, v);
    LinkEdges(h, u, v);
    LinkEdges(l, v, u);
  }

  /**
   `add_edge` keeps the graph well formed, adds exactly the edge between `u` and `v`
   in both directions, appends `v` to the end of the neighbours of `u` when it was
   not yet there, and changes nothing when the edge exists.
   */
  lemma AddEdgeWellFormed(g: Graph, u: string, v: string)
    requires WellFormed(g)
    ensures WellFormed(AddEdgeG(g, u, v))
    ensures forall x, y :: Edge(AddEdgeG(g, u, v), x, y) <==> Edge(g, x, y) || (x == u && y == v) || (x == v && y == u)
    ensures Adj(AddEdgeG(g, u, v), u) == AppendNew(Adj(g, u), v)
    ensures Edge(g, u, v) ==> AddEdgeG(g, u, v) == g
  {
    AddEdgeEdges(g, u, v);
    AddEdgeHalfFormed(g, u, v);
    SymmetricWellFormed(g, AddEdgeG(g, u, v), u, v);
    AddEdgeNeighbours(g, u, v);
  }

  lemma SymmetricWellFormed(g: Graph, r: Graph, u: string, v: string)
    requires WellFormed(g) && HalfFormed(r)
    requires forall x, y :: Edge(r, x, y) <==> Edge(g, x, y) || (x == u && y == v) || (x == v && y == u)
    ensures WellFormed(r)
  {
    forall x, y | x in r.adj && y in r.adj[x] ensures x in r.adj[y] {
      assert Edge(r, x, y);
      assert Edge(r, y, x);
    }
  }

  lemma AddEdgeHalfFormed(g: Graph, u: string, v: string)
    requires WellFormed(g)
    ensures HalfFormed(AddEdgeG(g, u, v))
  {
    var h1 := EnsureNode(g, u);
    EnsureNodeKeepsEdges(g, u);
    var h := EnsureNode(h1, v);
    EnsureNodeKeepsEdges(h1, v);
    assert u in h.adj && v in h.adj;
    WellFormedIsHalf(h);
    LinkHalfFormed(h, u, v);
    var l := Link(h, u, v);
    assert u in l.adj && v in l.adj;
    LinkHalfFormed(l, v, u);
  }

  lemma WellFormedIsHalf(g: Graph)
    requires WellFormed(g)
    ensures HalfFormed(g)
  {
  }

  lemma LinkNeighbours(g: Graph, u: string, v: string)
    ensures Adj(Link(g, u, v), u) == AppendNew(Adj(g, u), v)
    ensures forall w :: w != u ==> Adj(Link(g, u, v), w) == Adj(g, w)
  {
  }

  /** Linking to a neighbour already listed changes nothing. */
  lemma LinkPresent(g: Graph, u: string, v: string)
    requires u in g.adj && v in g.adj[u]
    ensures Link(g, u, v) == g
  {
    assert g.adj[u := g.adj[u]] == g.adj;
  }

  lemma AddEdgeNeighbours(g: Graph, u: string, v: string)
    requires WellFormed(g)
    ensures Adj(AddEdgeG(g, u, v), u) == AppendNew(Adj(g, u), v)
    ensures Edge(g, u, v) ==> AddEdgeG(g, u, v) == g
  {
    var h1 := EnsureNode(g, u);
    EnsureNodeKeepsEdges(g, u);
    var h := EnsureNode(h1, v);
    EnsureNodeKeepsEdges(h1, v);
    var l := Link(h, u, v);
    LinkNeighbours(h, u, v);
    LinkNeighbours(l, v, u);
    if u == v {
      assert AppendNew(AppendNew(Adj(g, u), u), u) == AppendNew(Adj(g, u), u);
    }
    if Edge(g, u, v) {
      assert Edge(g, v, u);
      assert h == g;
      LinkPresent(g, u, v);
      LinkPresent(g, v, u);
    }
  }

  /** One call of `add_node` or `add_edge`. */
  datatype Op = NodeOp(key: string, a: Attrs) | EdgeOp(u: string, v: string)

  function ApplyOp(g: Graph, op: Op): Graph
  {
    match op
    case NodeOp(n, a) => AddNodeG(g, n, a)
    case EdgeOp(u, v) => AddEdgeG(g, u, v)
  }

  /** The graph after the calls `ops`, made in order. */
  function Apply(g: Graph, ops: seq<Op>): Graph
  {
    if ops == [] then g else ApplyOp(Apply(g, ops[..|ops| - 1]), ops[|ops| - 1])
  }

  /** `op` names node `n`. */
  predicate Mentions(op: Op, n: string)
  {
    match op
    case NodeOp(m, _) => m == n
    case EdgeOp(u, v) => u == n || v == n
  }

  ghost predicate Mentioned(ops: seq<Op>, n: string)
  {
    exists i :: 0 <= i < |ops| && Mentions(ops[i], n)
  }

  /** The attributes `op` gives node `n`. */
  function OpAttrs(op: Op, n: string): Attrs
  {
    if op.NodeOp? && op.key == n then op.a else map[]
  }

  /** All attributes `ops` give node `n`, merged in order. */
  function Merged(ops: seq<Op>, n: string): Attrs
  {
    if ops == [] then map[] else Merged(ops[..|ops| - 1], n) + OpAttrs(ops[|ops| - 1], n)
  }

  function BaseAttrs(g: Graph, n: string): Attrs
  {
    if n in g.attrs then g.attrs[n] else map[]
  }

  lemma ApplySnoc(g: Graph, ops: seq<Op>, op: Op)
    ensures Apply(g, ops + [op]) == ApplyOp(Apply(g, ops), op)
  {
    assert (ops + [op])[..|ops|] == ops;
  }

  lemma {:induction false} ApplyAppend(g: Graph, a: seq<Op>, b: seq<Op>)
    ensures Apply(g, a + b) == Apply(Apply(g, a), b)
    decreases |b|
  {
    if b == [] {
      assert a + b == a;
    } else {
      var b', last := b[..|b| - 1], b[|b| - 1];
      assert a + b == (a + b') + [last];
      assert b' + [last] == b;
      ApplyAppend(g, a, b');
      ApplySnoc(g, a + b', last);
      ApplySnoc(Apply(g, a), b', last);
    }
  }

  /** One call keeps the graph well formed. */
  lemma ApplyOpWellFormed(g: Graph, op: Op)
    requires WellFormed(g)
    ensures WellFormed(ApplyOp(g, op))
    ensures forall x, y :: Edge(ApplyOp(g, op), x, y) <==>
      Edge(g, x, y) || op == EdgeOp(x, y) || op == EdgeOp(y, x)
  {
    match op
    case NodeOp(n, a) =>
      AddNodeKeepsEdges(g, n, a);
      forall x, y ensures Edge(ApplyOp(g, op), x, y) <==> Edge(g, x, y) {
        assert Adj(ApplyOp(g, op), x) == Adj(g, x);
      }
    case EdgeOp(u, v) => AddEdgeWellFormed(g, u, v);
  }

  lemma {:induction false} ApplyWellFormed(g: Graph, ops: seq<Op>)
    requires WellFormed(g)
    ensures WellFormed(Apply(g, ops))
    decreases |ops|
  {
    if ops != [] {
      ApplyWellFormed(g, ops[..|ops| - 1]);
      ApplyOpWellFormed(Apply(g, ops[..|ops| - 1]), ops[|ops| - 1]);
    }
  }

  lemma SnocPrefix(s: seq<string>, x: string)
    ensures s <= s + [x]
  {
    assert (s + [x])[..|s|] == s;
  }

  lemma ApplyOpKeepsNodeOrder(p: Graph, op: Op)
    ensures p.nodes <= ApplyOp(p, op).nodes
  {
    match op
    case NodeOp(n, a) =>
      SnocPrefix(p.nodes, n);
    case EdgeOp(u, v) =>
      var h := EnsureNode(p, u);
      SnocPrefix(p.nodes, u);
      SnocPrefix(h.nodes, v);
      assert h.nodes <= EnsureNode(h, v).nodes;
  }

  /** The nodes already in the graph keep their positions; new ones come after them. */
  lemma {:induction false} ApplyKeepsNodeOrder(g: Graph, ops: seq<Op>)
    ensures g.nodes <= Apply(g, ops).nodes
    decreases |ops|
  {
    if ops != [] {
      ApplyKeepsNodeOrder(g, ops[..|ops| - 1]);
      ApplyOpKeepsNodeOrder(Apply(g, ops[..|ops| - 1]), ops[|ops| - 1]);
    }
  }

  lemma MentionedAppend(a: seq<Op>, b: seq<Op>, n: string)
    ensures Mentioned(a + b, n) <==> Mentioned(a, n) || Mentioned(b, n)
  {
    if Mentioned(a + b, n) {
      var i :| 0 <= i < |a + b| && Mentions((a + b)[i], n);
      if i >= |a| {
        assert Mentions(b[i - |a|], n);
      }
    }
    if Mentioned(b, n) {
      var i :| 0 <= i < |b| && Mentions(b[i], n);
      assert Mentions((a + b)[i + |a|], n);
    }
    if Mentioned(a, n) {
      var i :| 0 <= i < |a| && Mentions(a[i], n);
      assert Mentions((a + b)[i], n);
    }
  }

  /** One call adds exactly the nodes it names. */
  lemma ApplyOpNodeSet(p: Graph, op: Op, n: string)
    ensures n in ApplyOp(p, op).attrs <==> n in p.attrs || Mentions(op, n)
  {
    match op
    case NodeOp(k, a) =>
    case EdgeOp(u, v) =>
      assert ApplyOp(p, op).attrs == EnsureNode(EnsureNode(p, u), v).attrs;
  }

  /** After the calls, the nodes are the old ones and every node a call names. */
  lemma {:induction false} ApplyNodeSet(g: Graph, ops: seq<Op>)
    ensures forall n :: n in Apply(g, ops).attrs <==> n in g.attrs || Mentioned(ops, n)
    decreases |ops|
  {
    if ops != [] {
      var init, last := ops[..|ops| - 1], ops[|ops| - 1];
      assert ops == init + [last];
      ApplyNodeSet(g, init);
      forall n ensures n in Apply(g, ops).attrs <==> n in g.attrs || Mentioned(ops, n) {
        MentionedAppend(init, [last], n);
        assert Mentioned([last], n) <==> Mentions(last, n) by {
          if Mentions(last, n) {
            assert Mentions([last][0], n);
          }
        }
        ApplyOpNodeSet(Apply(g, init), last, n);
      }
    }
  }

  /**
   The edges after the calls are the old ones and those the calls add, in both
   directions, and nothing else.
   */
  lemma {:induction false} ApplyEdges(g: Graph, ops: seq<Op>)
    requires WellFormed(g)
    ensures forall x, y :: Edge(Apply(g, ops), x, y) <==> Edge(g, x, y) || EdgeOp(x, y) in ops || EdgeOp(y, x) in ops
    decreases |ops|
  {
    if ops != [] {
      var init, last := ops[..|ops| - 1], ops[|ops| - 1];
      assert ops == init + [last];
      var p := Apply(g, init);
      ApplyEdges(g, init);
      ApplyWellFormed(g, init);
      ApplyOpWellFormed(p, last);
      forall x, y
        ensures Edge(Apply(g, ops), x, y) <==> Edge(g, x, y) || EdgeOp(x, y) in ops || EdgeOp(y, x) in ops
      {
        assert Edge(Apply(g, ops), x, y) <==> Edge(p, x, y) || last == EdgeOp(x, y) || last == EdgeOp(y, x);
        assert Edge(p, x, y) <==> Edge(g, x, y) || EdgeOp(x, y) in init || EdgeOp(y, x) in init;
      }
    }
  }

  lemma {:induction false} MergedUnmentioned(ops: seq<Op>, n: string)
    requires !Mentioned(ops, n)
    ensures Merged(ops, n) == map[]
    decreases |ops|
  {
    if ops != [] {
      var init := ops[..|ops| - 1];
      forall i | 0 <= i < |init| ensures !Mentions(init[i], n) {
        assert init[i] == ops[i];
      }
      MergedUnmentioned(init, n);
      assert !Mentions(ops[|ops| - 1], n);
      assert OpAttrs(ops[|ops| - 1], n) == map[];
      assert Merged(ops, n) == map[] + map[];
    }
  }

  /**
   When every call of `ops` that adds node `n` gives it the same attributes `a`,
   the merged attributes are `a` if there is such a call and empty otherwise.
   */
  lemma {:induction false} MergedUniform(ops: seq<Op>, n: string, a: Attrs)
    requires forall b :: NodeOp(n, b) in ops ==> b == a
    ensures NodeOp(n, a) in ops ==> Merged(ops, n) == a
    ensures NodeOp(n, a) !in ops ==> Merged(ops, n) == map[]
    decreases |ops|
  {
    if ops != [] {
      var init, last := ops[..|ops| - 1], ops[|ops| - 1];
      assert ops == init + [last];
      forall b | NodeOp(n, b) in init ensures b == a {
        assert NodeOp(n, b) in ops;
      }
      MergedUniform(init, n, a);
      if last.NodeOp? && last.key == n {
        assert last == NodeOp(n, last.a);
        assert Merged(init, n) + a == a;
      } else {
        assert Merged(ops, n) == Merged(init, n) + map[];
        assert NodeOp(n, a) in ops <==> NodeOp(n, a) in init;
      }
    }
  }

  /** A new node that every call adding it gives attributes `a` ends with exactly `a`. */
  lemma FreshUniform(g: Graph, ops: seq<Op>, n: string, a: Attrs)
    requires WellFormed(g) && n !in g.attrs
    requires NodeOp(n, a) in ops
    requires forall b :: NodeOp(n, b) in ops ==> b == a
    ensures n in Apply(g, ops).attrs && Apply(g, ops).attrs[n] == a
  {
    MergedUniform(ops, n, a);
    var k :| 0 <= k < |ops| && ops[k] == NodeOp(n, a);
    assert Mentions(ops[k], n);
    assert Mentioned(ops, n);
    ApplyNodeSet(g, ops);
    var r := Apply(g, ops);
    assert n in r.attrs;
    ApplyAttrs(g, ops);
    assert r.attrs[n] == BaseAttrs(g, n) + Merged(ops, n);
    UnionEmpty(a);
  }

  lemma UnionAssoc(x: Attrs, y: Attrs, z: Attrs)
    ensures (x + y) + z == x + (y + z)
  {
  }

  lemma UnionEmpty(x: Attrs)
    ensures x + map[] == x && map[] + x == x
  {
  }

  /** One call merges the attributes it gives `n` over those `n` had. */
  lemma ApplyOpAttrs(p: Graph, op: Op, n: string, base: Attrs, m: Attrs)
    requires n in p.attrs ==> p.attrs[n] == base + m
    requires n !in p.attrs ==> base == map[] && m == map[]
    requires n in ApplyOp(p, op).attrs
    ensures ApplyOp(p, op).attrs[n] == base + (m + OpAttrs(op, n))
  {
    UnionAssoc(base, m, OpAttrs(op, n));
    UnionEmpty(base + m);
    UnionEmpty(OpAttrs(op, n));
    match op
    case NodeOp(k, a) =>
    case EdgeOp(u, v) =>
  }

  /**
   The attributes of every node after the calls are its old attributes with all the
   attributes the calls give it merged over them, in call order.
   */
  lemma {:induction false} ApplyAttrs(g: Graph, ops: seq<Op>)
    requires WellFormed(g)
    ensures forall n :: n in Apply(g, ops).attrs ==> Apply(g, ops).attrs[n] == BaseAttrs(g, n) + Merged(ops, n)
    decreases |ops|
  {
    if ops == [] {
      forall n | n in g.attrs ensures g.attrs[n] == BaseAttrs(g, n) + Merged(ops, n) {
        UnionEmpty(g.attrs[n]);
      }
    } else {
      var init := ops[..|ops| - 1];
      var last := ops[|ops| - 1];
      var p := Apply(g, init);
      ApplyAttrs(g, init);
      ApplyNodeSet(g, init);
      forall n | n in Apply(g, ops).attrs
        ensures Apply(g, ops).attrs[n] == BaseAttrs(g, n) + Merged(ops, n)
      {
        if n !in p.attrs {
          MergedUnmentioned(init, n);
        }
        ApplyOpAttrs(p, last, n, BaseAttrs(g, n), Merged(init, n));
      }
    }
  }

  /** The edge and node calls `ops` would make are already all present in `g`. */
  ghost predicate Covers(g: Graph, ops: seq<Op>)
  {
    && (forall i :: 0 <= i < |ops| && ops[i].NodeOp? ==> ops[i].key in g.attrs)
    && (forall i :: 0 <= i < |ops| && ops[i].EdgeOp? ==> Edge(g, ops[i].u, ops[i].v))
  }

  /** Calls whose nodes and edges are all present change only attributes. */
  lemma {:induction false} ApplyCovered(g: Graph, ops: seq<Op>)
    requires WellFormed(g) && Covers(g, ops)
    ensures Apply(g, ops).nodes == g.nodes && Apply(g, ops).adj == g.adj
    ensures forall n :: n in Apply(g, ops).attrs <==> n in g.attrs
    decreases |ops|
  {
    if ops != [] {
      var init := ops[..|ops| - 1];
      assert Covers(g, init) by {
        forall i | 0 <= i < |init| ensures init[i] == ops[i] { }
      }
      ApplyCovered(g, init);
      var p := Apply(g, init);
      assert WellFormed(p) by { ApplyWellFormed(g, init); }
      match ops[|ops| - 1]
      case NodeOp(n, a) =>
        assert n in p.attrs;
        AddNodeKeepsEdges(p, n, a);
      case EdgeOp(u, v) =>
        assert Edge(p, u, v);
        AddEdgeWellFormed(p, u, v);
    }
  }

  /** After the calls, all the nodes and edges they make are present. */
  lemma ApplyCoversItself(g: Graph, ops: seq<Op>)
    requires WellFormed(g)
    ensures Covers(Apply(g, ops), ops)
  {
    ApplyNodeSet(g, ops);
    ApplyEdges(g, ops);
    forall i | 0 <= i < |ops| && ops[i].NodeOp? ensures ops[i].key in Apply(g, ops).attrs {
      assert Mentions(ops[i], ops[i].key);
    }
    forall i | 0 <= i < |ops| && ops[i].EdgeOp? ensures Edge(Apply(g, ops), ops[i].u, ops[i].v) {
      assert EdgeOp(ops[i].u, ops[i].v) in ops;
    }
  }

  /** Merging the same attributes twice is merging them once. */
  lemma UnionTwice(b: Attrs, m: Attrs)
    ensures (b + m) + m == b + m
  {
    UnionAssoc(b, m, m);
    assert m + m == m;
  }

  /** A second round of the calls merges into every node only what the first round gave it. */
  lemma AttrsTwice(g: Graph, ops: seq<Op>, x: Graph, y: Graph)
    requires WellFormed(g) && x == Apply(g, ops) && y == Apply(x, ops)
    ensures forall n :: n in y.attrs && n in x.attrs ==> y.attrs[n] == x.attrs[n]
  {
    ApplyWellFormed(g, ops);
    ApplyAttrs(g, ops);
    ApplyAttrs(x, ops);
    forall n | n in y.attrs && n in x.attrs ensures y.attrs[n] == x.attrs[n] {
      UnionTwice(BaseAttrs(g, n), Merged(ops, n));
    }
  }

  /** Making the same calls a second time leaves nodes, node order, edges and attributes as they were. */
  lemma ApplyIdempotent(g: Graph, ops: seq<Op>)
    requires WellFormed(g)
    ensures Apply(Apply(g, ops), ops) == Apply(g, ops)
  {
    var x := Apply(g, ops);
    var y := Apply(x, ops);
    ApplyWellFormed(g, ops);
    ApplyCoversItself(g, ops);
    ApplyCovered(x, ops);
    AttrsTwice(g, ops, x, y);
    assert y.attrs == x.attrs;
  }

  /** `type` is among the attributes `ops` give `n` as soon as one call gives it. */
  lemma {:induction false} MergedHasType(ops: seq<Op>, n: string, i: int)
    requires 0 <= i < |ops| && ops[i].NodeOp? && ops[i].key == n && "type" in ops[i].a
    ensures "type" in Merged(ops, n)
    decreases |ops|
  {
    if i < |ops| - 1 {
      MergedHasType(ops[..|ops| - 1], n, i);
    }
  }

  /** Every node a call names is also given a `type` by some `add_node` call. */
  ghost predicate TypesEveryNode(ops: seq<Op>)
  {
    forall n :: Mentioned(ops, n) ==>
      exists i :: 0 <= i < |ops| && ops[i].NodeOp? && ops[i].key == n && "type" in ops[i].a
  }

  lemma ApplyTyped(g: Graph, ops: seq<Op>)
    requires WellFormed(g) && Typed(g) && TypesEveryNode(ops)
    ensures Typed(Apply(g, ops))
  {
    ApplyNodeSet(g, ops);
    ApplyAttrs(g, ops);
    forall n | n in Apply(g, ops).attrs ensures "type" in Apply(g, ops).attrs[n] {
      if Mentioned(ops, n) {
        var i :| 0 <= i < |ops| && ops[i].NodeOp? && ops[i].key == n && "type" in ops[i].a;
        MergedHasType(ops, n, i);
      }
    }
  }
}
