/**
 `nx.shortest_path(G, source, target)` on an unweighted graph, as a layered
 breadth-first search: it finds a path with the fewest edges, or reports that
 the target cannot be reached.
 */
module Paths {
  import opened Wrappers
  import opened Graphs

  /** `p` is a walk from `s` to `t`: it starts at `s`, ends at `t`, and consecutive nodes are adjacent. */
  ghost predicate IsWalk(g: Graph, p: seq<string>, s: string, t: string)
  {
    && |p| >= 1 && p[0] == s && p[|p| - 1] == t
    && forall i :: 0 <= i < |p| - 1 ==> Edge(g, p[i], p[i + 1])
  }

  ghost predicate Reachable(g: Graph, s: string, t: string)
  {
    exists p :: IsWalk(g, p, s, t)
  }

  lemma WalkReachable(g: Graph, p: seq<string>, s: string, t: string)
    requires IsWalk(g, p, s, t)
    ensures Reachable(g, s, t)
  {
  }

  lemma WalkSnoc(g: Graph, p: seq<string>, s: string, u: string, w: string)
    requires IsWalk(g, p, s, u) && Edge(g, u, w)
    ensures IsWalk(g, p + [w], s, w)
  {
    var q := p + [w];
    forall i | 0 <= i < |q| - 1 ensures Edge(g, q[i], q[i + 1]) {
      if i < |p| - 1 {
        assert q[i] == p[i] && q[i + 1] == p[i + 1];
      }
    }
  }

  lemma WalkPrefix(g: Graph, p: seq<string>, s: string, t: string, j: int)
    requires IsWalk(g, p, s, t) && 1 <= j <= |p|
    ensures IsWalk(g, p[..j], s, p[j - 1])
  {
    var q := p[..j];
    forall i | 0 <= i < |q| - 1 ensures Edge(g, q[i], q[i + 1]) {
      assert q[i] == p[i] && q[i + 1] == p[i + 1];
    }
  }

  /** The end of a walk of two or more nodes is a neighbour of the node before it. */
  lemma WalkLastStep(g: Graph, p: seq<string>, s: string, t: string)
    requires IsWalk(g, p, s, t) && |p| >= 2
    ensures Edge(g, p[|p| - 2], t)
  {
    assert Edge(g, p[|p| - 2], p[|p| - 2 + 1]);
  }

  /** Paths to the nodes found so far (`visited`), each node's path stored with it. */
  type Found = map<string, seq<string>>

  /**
   Visit the neighbours `nbrs` of a node whose path is `pu`: each that is not yet
   found gets the path `pu + [v]` and joins the next layer `next`.
   */
  function Discover(nbrs: seq<string>, pu: seq<string>, found: Found, next: seq<string>): (Found, seq<string>)
  {
    if nbrs == [] then (found, next)
    else if nbrs[0] in found then Discover(nbrs[1..], pu, found, next)
    else Discover(nbrs[1..], pu, found[nbrs[0] := pu + [nbrs[0]]], next + [nbrs[0]])
  }

  /** Visit the neighbours of every node of the current layer `layer`, in order. */
  function ExpandLayer(g: Graph, layer: seq<string>, found: Found, next: seq<string>): (Found, seq<string>)
    requires forall i :: 0 <= i < |layer| ==> layer[i] in found
  {
    if layer == [] then (found, next)
    else
      var r := Discover(Adj(g, layer[0]), found[layer[0]], found, next);
      DiscoverKeeps(Adj(g, layer[0]), found[layer[0]], found, next);
      ExpandLayer(g, layer[1..], r.0, r.1)
  }

  lemma {:induction false} DiscoverKeeps(nbrs: seq<string>, pu: seq<string>, found: Found, next: seq<string>)
    ensures forall v :: v in found ==> v in Discover(nbrs, pu, found, next).0 && Discover(nbrs, pu, found, next).0[v] == found[v]
    ensures forall v :: v in Discover(nbrs, pu, found, next).0 ==> v in found || v in nbrs
    decreases |nbrs|
  {
    if nbrs != [] {
      if nbrs[0] in found {
        DiscoverKeeps(nbrs[1..], pu, found, next);
      } else {
        DiscoverKeeps(nbrs[1..], pu, found[nbrs[0] := pu + [nbrs[0]]], next + [nbrs[0]]);
      }
    }
  }

  /**
   What `Discover` does: old paths are kept, every neighbour is found, each new node
   gets the path through the node and joins the next layer, and the next layer
   holds only nodes of `next` or new ones.
   */
  lemma {:induction false} DiscoverFacts(g: Graph, s: string, k: nat, u: string, nbrs: seq<string>, found: Found, next: seq<string>)
    requires u in found && IsWalk(g, found[u], s, u) && |found[u]| == k + 1
    requires forall w :: w in nbrs ==> Edge(g, u, w)
    requires forall i :: 0 <= i < |next| ==> next[i] in found
    ensures var r := Discover(nbrs, found[u], found, next);
      && (forall v :: v in found ==> v in r.0 && r.0[v] == found[v])
      && (forall w :: w in nbrs ==> w in r.0)
      && (forall v :: v in r.0 && v !in found ==> IsWalk(g, r.0[v], s, v) && |r.0[v]| == k + 2 && v in r.1)
      && (forall i :: 0 <= i < |next| ==> next[i] in r.1)
      && (forall i :: 0 <= i < |r.1| ==> r.1[i] in r.0 && (r.1[i] in next || r.1[i] !in found))
    decreases |nbrs|
  {
    if nbrs != [] {
      var v := nbrs[0];
      assert forall w :: w in nbrs[1..] ==> w in nbrs;
      if v in found {
        DiscoverFacts(g, s, k, u, nbrs[1..], found, next);
      } else {
        var found' := found[v := found[u] + [v]];
        WalkSnoc(g, found[u], s, u, v);
        assert found'[u] == found[u];
        DiscoverFacts(g, s, k, u, nbrs[1..], found', next + [v]);
        var r := Discover(nbrs, found[u], found, next);
        assert r == Discover(nbrs[1..], found[u], found', next + [v]);
        assert forall i :: 0 <= i < |next| ==> next[i] == (next + [v])[i];
        assert (next + [v])[|next|] == v;
      }
    }
  }

  /** The same facts for a whole layer whose nodes all have paths of `k + 1` nodes. */
  lemma {:induction false} ExpandLayerFacts(g: Graph, s: string, k: nat, layer: seq<string>, found: Found, next: seq<string>)
    requires WellFormed(g)
    requires forall i :: 0 <= i < |layer| ==> layer[i] in found && IsWalk(g, found[layer[i]], s, layer[i]) && |found[layer[i]]| == k + 1
    requires forall i :: 0 <= i < |next| ==> next[i] in found
    ensures var r := ExpandLayer(g, layer, found, next);
      && (forall v :: v in found ==> v in r.0 && r.0[v] == found[v])
      && (forall i, w :: 0 <= i < |layer| && Edge(g, layer[i], w) ==> w in r.0)
      && (forall v :: v in r.0 && v !in found ==> IsWalk(g, r.0[v], s, v) && |r.0[v]| == k + 2 && v in r.1)
      && (forall i :: 0 <= i < |next| ==> next[i] in r.1)
      && (forall i :: 0 <= i < |r.1| ==> r.1[i] in r.0 && (r.1[i] in next || r.1[i] !in found))
    decreases |layer|
  {
    if layer != [] {
      var u := layer[0];
      assert forall w :: w in Adj(g, u) ==> Edge(g, u, w);
      DiscoverFacts(g, s, k, u, Adj(g, u), found, next);
      var d := Discover(Adj(g, u), found[u], found, next);
      assert forall i :: 0 <= i < |layer[1..]| ==> layer[1..][i] == layer[i + 1];
      ExpandLayerFacts(g, s, k, layer[1..], d.0, d.1);
      var r := ExpandLayer(g, layer, found, next);
      assert r == ExpandLayer(g, layer[1..], d.0, d.1);
      forall i, w | 0 <= i < |layer| && Edge(g, layer[i], w) ensures w in r.0 {
        if i == 0 {
          assert w in Adj(g, u);
        } else {
          assert layer[1..][i - 1] == layer[i];
        }
      }
    }
  }

  /**
   The search state after `k` layers: every found node has a walk from `s` of at
   most `k + 1` nodes and none shorter exists; `layer` is exactly the nodes at
   `k + 1` nodes; every node reachable by at most `k + 1` nodes is found.
   */
  ghost predicate Layered(g: Graph, s: string, k: nat, found: Found, layer: seq<string>)
  {
    && WellFormed(g)
    && found.Keys <= g.attrs.Keys
    && (forall v :: v in found ==> IsWalk(g, found[v], s, v) && |found[v]| <= k + 1)
    && (forall i :: 0 <= i < |layer| ==> layer[i] in found && |found[layer[i]]| == k + 1)
    && (forall v :: v in found && |found[v]| == k + 1 ==> v in layer)
    && (forall q, t :: IsWalk(g, q, s, t) && |q| <= k + 1 ==> t in found)
    && (forall v, q :: v in found && IsWalk(g, q, s, v) ==> |found[v]| <= |q|)
  }

  lemma LayeredStart(g: Graph, s: string)
    requires WellFormed(g) && s in g.attrs
    ensures Layered(g, s, 0, map[s := [s]], [s])
  {
    var found := map[s := [s]];
    assert IsWalk(g, [s], s, s);
    forall q, t | IsWalk(g, q, s, t) && |q| <= 1 ensures t in found {
      assert q[0] == s;
    }
  }

  /** What one expanded layer `f`, `nxt` satisfies (the facts `ExpandLayerFacts` gives). */
  ghost predicate Expanded(g: Graph, s: string, k: nat, layer: seq<string>, found: Found, f: Found, nxt: seq<string>)
  {
    && (forall v :: v in found ==> v in f && f[v] == found[v])
    && (forall i, w :: 0 <= i < |layer| && Edge(g, layer[i], w) ==> w in f)
    && (forall v :: v in f && v !in found ==> IsWalk(g, f[v], s, v) && |f[v]| == k + 2 && v in nxt)
    && (forall i :: 0 <= i < |nxt| ==> nxt[i] in f && nxt[i] !in found)
  }

  /** One more layer keeps the search state, one step further out. */
  lemma LayeredStep(g: Graph, s: string, k: nat, found: Found, layer: seq<string>)
    requires Layered(g, s, k, found, layer)
    ensures var r := ExpandLayer(g, layer, found, []); Layered(g, s, k + 1, r.0, r.1)
  {
    ExpandLayerFacts(g, s, k, layer, found, []);
    var r := ExpandLayer(g, layer, found, []);
    assert Expanded(g, s, k, layer, found, r.0, r.1);
    StepKeys(g, s, k, layer, found, r.0, r.1);
    StepNear(g, s, k, layer, found, r.0, r.1);
    StepShortest(g, s, k, layer, found, r.0, r.1);
  }

  lemma StepKeys(g: Graph, s: string, k: nat, layer: seq<string>, found: Found, f: Found, nxt: seq<string>)
    requires Layered(g, s, k, found, layer) && Expanded(g, s, k, layer, found, f, nxt)
    ensures f.Keys <= g.attrs.Keys
    ensures forall v :: v in f ==> IsWalk(g, f[v], s, v) && |f[v]| <= k + 2
    ensures forall i :: 0 <= i < |nxt| ==> nxt[i] in f && |f[nxt[i]]| == k + 2
    ensures forall v :: v in f && |f[v]| == k + 2 ==> v in nxt
  {
    forall v | v in f ensures v in g.attrs {
      if v !in found {
        WalkLastStep(g, f[v], s, v);
      }
    }
  }

  lemma StepNear(g: Graph, s: string, k: nat, layer: seq<string>, found: Found, f: Found, nxt: seq<string>)
    requires Layered(g, s, k, found, layer) && Expanded(g, s, k, layer, found, f, nxt)
    ensures forall q, t :: IsWalk(g, q, s, t) && |q| <= k + 2 ==> t in f
  {
    forall q, t | IsWalk(g, q, s, t) && |q| <= k + 2 ensures t in f {
      if |q| == k + 2 {
        var u := q[k];
        WalkPrefix(g, q, s, t, k + 1);
        assert u in found;
        WalkLastStep(g, q, s, t);
        if |found[u]| == k + 1 {
          var i :| 0 <= i < |layer| && layer[i] == u;
          assert Edge(g, layer[i], t);
        } else {
          WalkSnoc(g, found[u], s, u, t);
        }
      }
    }
  }

  lemma StepShortest(g: Graph, s: string, k: nat, layer: seq<string>, found: Found, f: Found, nxt: seq<string>)
    requires Layered(g, s, k, found, layer) && Expanded(g, s, k, layer, found, f, nxt)
    ensures forall v, q :: v in f && IsWalk(g, q, s, v) ==> |f[v]| <= |q|
  {
    forall v, q | v in f && IsWalk(g, q, s, v) ensures |f[v]| <= |q| {
      if v !in found {
        assert |q| > k + 1;
      }
    }
  }

  /** When no layer is left, the found nodes are closed under neighbours, so they are all the reachable ones. */
  lemma LayeredDone(g: Graph, s: string, k: nat, found: Found)
    requires Layered(g, s, k, found, [])
    ensures forall q, t :: IsWalk(g, q, s, t) ==> t in found
  {
    forall q, t | IsWalk(g, q, s, t) ensures t in found {
      WalkEndsFound(g, s, k, found, q, t);
    }
  }

  lemma {:induction false} WalkEndsFound(g: Graph, s: string, k: nat, found: Found, q: seq<string>, t: string)
    requires Layered(g, s, k, found, [])
    requires IsWalk(g, q, s, t)
    ensures t in found
    decreases |q|
  {
    if |q| > 1 {
      var u := q[|q| - 2];
      WalkPrefix(g, q, s, t, |q| - 1);
      WalkEndsFound(g, s, k, found, q[..|q| - 1], u);
      WalkLastStep(g, q, s, t);
      assert |found[u]| != k + 1;
      WalkSnoc(g, found[u], s, u, t);
    }
  }

  lemma SubsetSmaller(a: set<string>, b: set<string>, c: set<string>, x: string)
    requires b <= c <= a && x in c && x !in b
    ensures |a - c| < |a - b|
  {
    var d, e := a - b, a - c;
    assert x in d - e;
    assert d == e + (d - e);
    assert e !! (d - e);
    assert |d| == |e| + |d - e|;
  }

  /** Run layers until one is empty, collecting a path to every node found. */
  function Explore(g: Graph, s: string, ghost k: nat, found: Found, layer: seq<string>): Found
    requires Layered(g, s, k, found, layer)
    decreases |g.attrs.Keys - found.Keys|, 1
  {
    if layer == [] then found else Round(g, s, k, found, layer)
  }

  /** Expand one layer, then go on from the next layer unless it is empty. */
  function Round(g: Graph, s: string, ghost k: nat, found: Found, layer: seq<string>): Found
    requires Layered(g, s, k, found, layer) && layer != []
    decreases |g.attrs.Keys - found.Keys|, 0
  {
    var n := ExpandLayer(g, layer, found, []);
    LayeredStep(g, s, k, found, layer);
    if n.1 == [] then n.0
    else
      ExpandLayerFacts(g, s, k, layer, found, []);
      SubsetSmaller(g.attrs.Keys, found.Keys, n.0.Keys, n.1[0]);
      Explore(g, s, k + 1, n.0, n.1)
  }

  /** The search maps exactly the nodes reachable from `s`, each to a shortest walk to it. */
  lemma {:induction false} ExploreFacts(g: Graph, s: string, k: nat, found: Found, layer: seq<string>)
    requires Layered(g, s, k, found, layer)
    ensures var r := Explore(g, s, k, found, layer);
      && (forall v :: v in r ==> IsWalk(g, r[v], s, v))
      && (forall v, q :: v in r && IsWalk(g, q, s, v) ==> |r[v]| <= |q|)
      && (forall q, t :: IsWalk(g, q, s, t) ==> t in r)
    decreases |g.attrs.Keys - found.Keys|, 1
  {
    if layer == [] {
      LayeredDone(g, s, k, found);
    } else {
      RoundFacts(g, s, k, found, layer);
    }
  }

  lemma {:induction false} RoundFacts(g: Graph, s: string, k: nat, found: Found, layer: seq<string>)
    requires Layered(g, s, k, found, layer) && layer != []
    ensures var r := Round(g, s, k, found, layer);
      && (forall v :: v in r ==> IsWalk(g, r[v], s, v))
      && (forall v, q :: v in r && IsWalk(g, q, s, v) ==> |r[v]| <= |q|)
      && (forall q, t :: IsWalk(g, q, s, t) ==> t in r)
    decreases |g.attrs.Keys - found.Keys|, 0
  {
    var n := ExpandLayer(g, layer, found, []);
    LayeredStep(g, s, k, found, layer);
    if n.1 == [] {
      LayeredDone(g, s, k + 1, n.0);
    } else {
      ExpandLayerFacts(g, s, k, layer, found, []);
      SubsetSmaller(g.attrs.Keys, found.Keys, n.0.Keys, n.1[0]);
      ExploreFacts(g, s, k + 1, n.0, n.1);
    }
  }

  /**
   `nx.shortest_path(G, source=s, target=t)`: a path with the fewest edges from
   `s` to `t`, or `None` (networkx raises `NetworkXNoPath`) when there is none.
   */
  function ShortestPath(g: Graph, s: string, t: string): Option<seq<string>>
    requires WellFormed(g) && s in g.attrs
  {
    var found := Explore(g, s, 0, map[s := [s]], [s]);
    if t in found then Some(found[t]) else None
  }

  /** The path found is a walk from `s` to `t` with no shorter walk, and there is one exactly when `t` is reachable. */
  lemma ShortestPathFacts(g: Graph, s: string, t: string)
    requires WellFormed(g) && s in g.attrs
    ensures var r := ShortestPath(g, s, t);
      && (r.Some? ==> IsWalk(g, r.value, s, t))
      && (r.Some? ==> forall q :: IsWalk(g, q, s, t) ==> |r.value| <= |q|)
      && (r.Some? ==> Reachable(g, s, t))
      && (Reachable(g, s, t) ==> r.Some?)
  {
    SearchFacts(g, s, t);
  }

  /** The search from `s` alone finds `t` exactly when `t` is reachable, and then by a shortest walk. */
  lemma SearchFacts(g: Graph, s: string, t: string)
    requires WellFormed(g) && s in g.attrs
    ensures var f := Explore(g, s, 0, map[s := [s]], [s]);
      && (t in f ==> IsWalk(g, f[t], s, t) && forall q :: IsWalk(g, q, s, t) ==> |f[t]| <= |q|)
      && (t in f ==> Reachable(g, s, t))
      && (Reachable(g, s, t) ==> t in f)
  {
    var f0, l0 := map[s := [s]], [s];
    LayeredStart(g, s);
    ExploreFacts(g, s, 0, f0, l0);
    var f := Explore(g, s, 0, f0, l0);
    if t in f {
      WalkReachable(g, f[t], s, t);
    }
  }
}
