/**
 `recommend_tea_for_health`: the health concern resolved with `find_closest_node`,
 every tea reachable from it collected with its shortest path in node order,
 the list sorted (stably) by path length and cut to `max_results` with a
 Python slice.
 */
module Recommend {
  import opened Wrappers
  import opened Strings
  import opened Graphs
  import opened Paths
  import opened Resolve

  /** One `(tea, path)` pair of `recommended_teas`. */
  datatype Candidate = Candidate(tea: string, path: seq<string>)

  /** The distance (in edges) from `h` to a reachable `t`. */
  ghost function Dist(g: Graph, h: string, t: string): nat
    requires WellFormed(g) && h in g.attrs && Reachable(g, h, t)
  {
    ShortestPathFacts(g, h, t);
    |ShortestPath(g, h, t).value| - 1
  }

  /** The index of the first occurrence of `x` in `ns`. */
  function Pos(ns: seq<string>, x: string): (r: nat)
    requires x in ns
    ensures r < |ns| && ns[r] == x
    ensures forall j :: 0 <= j < r ==> ns[j] != x
  {
    if ns[0] == x then 0 else 1 + Pos(ns[1..], x)
  }

  /** Appending a node leaves the positions of the nodes before it unchanged. */
  lemma PosSnoc(ns: seq<string>, l: string, x: string)
    requires x in ns
    ensures Pos(ns + [l], x) == Pos(ns, x)
  {
    var p, q := Pos(ns + [l], x), Pos(ns, x);
    assert (ns + [l])[q] == x;
    assert p <= q;
    assert ns[p] == (ns + [l])[p];
  }

  /** An appended node that was not there before is at the end. */
  lemma PosLast(ns: seq<string>, l: string)
    requires l !in ns
    ensures Pos(ns + [l], l) == |ns|
  {
    assert forall j :: 0 <= j < |ns| ==> (ns + [l])[j] == ns[j];
  }

  // ----- The first loop: every reachable tea with its path -----

  /** What one iteration appends for node `n`: the pair, if `n` is a tea with a path from `h`. */
  function Visit(g: Graph, h: string, n: string): (r: seq<Candidate>)
    requires WellFormed(g) && h in g.attrs
    ensures |r| <= 1 && forall c :: c in r ==> c.tea == n
  {
    var p := ShortestPath(g, h, n);
    if HasType(g, n, "tea") && p.Some? then [Candidate(n, p.value)] else []
  }

  /** What the loop has collected after visiting the nodes `ns`. */
  function Cands(g: Graph, h: string, ns: seq<string>): seq<Candidate>
    requires WellFormed(g) && h in g.attrs
  {
    if ns == [] then [] else Cands(g, h, ns[..|ns| - 1]) + Visit(g, h, ns[|ns| - 1])
  }

  /** Visiting one more node appends what that node contributes. */
  lemma CandsSnoc(g: Graph, h: string, ns: seq<string>, i: int)
    requires WellFormed(g) && h in g.attrs && 0 <= i < |ns|
    ensures Cands(g, h, ns[..i + 1]) == Cands(g, h, ns[..i]) + Visit(g, h, ns[i])
  {
    assert ns[..i + 1][..i] == ns[..i];
  }

  /** `a` comes strictly before `b` in the node order `ns`. */
  predicate Earlier(ns: seq<string>, a: Candidate, b: Candidate)
  {
    a.tea in ns && b.tea in ns && Pos(ns, a.tea) < Pos(ns, b.tea)
  }

  /** The candidates are in strictly increasing node order. */
  predicate InOrder(ns: seq<string>, s: seq<Candidate>)
  {
    forall i, j :: 0 <= i < j < |s| ==> Earlier(ns, s[i], s[j])
  }

  /** Every collected candidate is one that its own node appends. */
  lemma {:induction false} CandsSound(g: Graph, h: string, ns: seq<string>, c: Candidate)
    requires WellFormed(g) && h in g.attrs
    requires c in Cands(g, h, ns)
    ensures c.tea in ns && c in Visit(g, h, c.tea)
  {
    var init, l := ns[..|ns| - 1], ns[|ns| - 1];
    var ci, v := Cands(g, h, init), Visit(g, h, l);
    assert ns == init + [l];
    assert Cands(g, h, ns) == ci + v;
    if c in ci {
      CandsSound(g, h, init, c);
      assert c.tea in init;
    } else {
      assert c in v;
    }
  }

  /** A candidate appended for node `n` is `n` itself, a tea, with its shortest path. */
  lemma VisitSound(g: Graph, h: string, n: string, c: Candidate)
    requires WellFormed(g) && h in g.attrs && c in Visit(g, h, n)
    ensures c.tea == n && HasType(g, n, "tea") && ShortestPath(g, h, n) == Some(c.path)
  {
  }

  /** Every tea of `ns` reachable from `h` is collected, with its shortest path. */
  lemma {:induction false} CandsComplete(g: Graph, h: string, ns: seq<string>, t: string)
    requires WellFormed(g) && h in g.attrs
    requires t in ns && HasType(g, t, "tea") && Reachable(g, h, t)
    ensures ShortestPath(g, h, t).Some? && Candidate(t, ShortestPath(g, h, t).value) in Cands(g, h, ns)
  {
    ShortestPathFacts(g, h, t);
    var init := ns[..|ns| - 1];
    assert ns == init + [ns[|ns| - 1]];
    if t != ns[|ns| - 1] {
      CandsComplete(g, h, init, t);
    }
  }

  /** Over nodes without repeats, the candidates keep the node order. */
  lemma {:induction false} CandsInOrder(g: Graph, h: string, ns: seq<string>)
    requires WellFormed(g) && h in g.attrs && NoDup(ns)
    ensures InOrder(ns, Cands(g, h, ns))
  {
    if ns != [] {
      var init, l := ns[..|ns| - 1], ns[|ns| - 1];
      assert ns == init + [l];
      assert NoDup(init) by {
        forall i, j | 0 <= i < j < |init| ensures init[i] != init[j] {
          assert init[i] == ns[i] && init[j] == ns[j];
        }
      }
      assert l !in init by {
        forall i | 0 <= i < |init| ensures init[i] != l {
          assert init[i] == ns[i];
        }
      }
      CandsInOrder(g, h, init);
      CandsInOrderSnoc(g, h, init, l);
    }
  }

  lemma CandsInOrderSnoc(g: Graph, h: string, init: seq<string>, l: string)
    requires WellFormed(g) && h in g.attrs && l !in init
    requires InOrder(init, Cands(g, h, init))
    ensures InOrder(init + [l], Cands(g, h, init + [l]))
  {
    var ns := init + [l];
    assert ns[..|ns| - 1] == init;
    var ci, c := Cands(g, h, init), Cands(g, h, ns);
    var v := Visit(g, h, l);
    assert c == ci + v;
    forall x | x in ci ensures x.tea in init && Pos(ns, x.tea) < |init| {
      CandsSound(g, h, init, x);
      PosSnoc(init, l, x.tea);
    }
    PosLast(init, l);
    forall i, j | 0 <= i < j < |c| ensures Earlier(ns, c[i], c[j]) {
      assert c[i] == ci[i] && c[i] in ci;
      PosSnoc(init, l, c[i].tea);
      if j < |ci| {
        assert c[j] == ci[j] && c[j] in ci;
        PosSnoc(init, l, c[j].tea);
        assert Earlier(init, ci[i], ci[j]);
      } else {
        assert c[j] == v[j - |ci|] && c[j] in v;
      }
    }
  }

  // ----- list.sort(key=lambda x: len(x[1])), which is stable -----

  /** Insert `c` after every element whose path is not longer. */
  function Insert(s: seq<Candidate>, c: Candidate): (r: seq<Candidate>)
    ensures multiset(r) == multiset(s) + multiset{c}
  {
    if s == [] then [c]
    else if |c.path| < |s[0].path| then [c] + s
    else
      assert s == [s[0]] + s[1..];
      [s[0]] + Insert(s[1..], c)
  }

  /** A stable sort by path length (insertion sort). */
  function SortByLength(s: seq<Candidate>): (r: seq<Candidate>)
    ensures multiset(r) == multiset(s)
  {
    if s == [] then []
    else
      assert s == s[..|s| - 1] + [s[|s| - 1]];
      Insert(SortByLength(s[..|s| - 1]), s[|s| - 1])
  }

  /** `a` goes before `b`: a shorter path, or an equal one and an earlier node. */
  predicate Precedes(ns: seq<string>, a: Candidate, b: Candidate)
  {
    a.tea in ns && b.tea in ns &&
    (|a.path| < |b.path| || (|a.path| == |b.path| && Pos(ns, a.tea) < Pos(ns, b.tea)))
  }

  predicate LexSorted(ns: seq<string>, s: seq<Candidate>)
  {
    forall i, j :: 0 <= i < j < |s| ==> Precedes(ns, s[i], s[j])
  }

  lemma ConsSorted(ns: seq<string>, x: Candidate, s: seq<Candidate>)
    requires LexSorted(ns, s) && forall y :: y in s ==> Precedes(ns, x, y)
    ensures LexSorted(ns, [x] + s)
  {
    forall i, j | 0 <= i < j < |[x] + s| ensures Precedes(ns, ([x] + s)[i], ([x] + s)[j]) {
      assert ([x] + s)[j] == s[j - 1];
      if i > 0 {
        assert ([x] + s)[i] == s[i - 1];
      } else {
        assert s[j - 1] in s;
      }
    }
  }

  lemma {:induction false} InsertSorted(ns: seq<string>, s: seq<Candidate>, c: Candidate)
    requires LexSorted(ns, s)
    requires forall x :: x in s ==> Earlier(ns, x, c)
    ensures LexSorted(ns, Insert(s, c))
  {
    if s == [] {
    } else if |c.path| < |s[0].path| {
      forall y | y in s ensures Precedes(ns, c, y) {
        var k :| 0 <= k < |s| && s[k] == y;
        if k > 0 {
          assert Precedes(ns, s[0], s[k]);
        }
        assert s[0] in s;
      }
      ConsSorted(ns, c, s);
    } else {
      var t := s[1..];
      assert LexSorted(ns, t) by {
        forall i, j | 0 <= i < j < |t| ensures Precedes(ns, t[i], t[j]) {
          assert t[i] == s[i + 1] && t[j] == s[j + 1];
        }
      }
      forall x | x in t ensures Earlier(ns, x, c) {
        assert x in s;
      }
      InsertSorted(ns, t, c);
      forall y | y in Insert(t, c) ensures Precedes(ns, s[0], y) {
        assert y in multiset(Insert(t, c));
        if y == c {
          assert s[0] in s;
        } else {
          var k :| 0 <= k < |t| && t[k] == y;
          assert s[k + 1] == y;
        }
      }
      ConsSorted(ns, s[0], Insert(t, c));
    }
  }

  /**
   Sorting candidates that are in node order orders them by path length and,
   among equal lengths, keeps the node order: the sort is stable.
   */
  lemma {:induction false} SortSorted(ns: seq<string>, s: seq<Candidate>)
    requires InOrder(ns, s)
    ensures LexSorted(ns, SortByLength(s))
  {
    if s != [] {
      var init, l := s[..|s| - 1], s[|s| - 1];
      assert InOrder(ns, init) by {
        forall i, j | 0 <= i < j < |init| ensures Earlier(ns, init[i], init[j]) {
          assert init[i] == s[i] && init[j] == s[j];
        }
      }
      SortSorted(ns, init);
      forall x | x in SortByLength(init) ensures Earlier(ns, x, l) {
        assert x in multiset(SortByLength(init));
        var k :| 0 <= k < |init| && init[k] == x;
        assert s[k] == x;
      }
      InsertSorted(ns, SortByLength(init), l);
    }
  }

  // ----- The result: recommended_teas[:max_results], tea names only -----

  /** Python's slice `s[:m]`, where a negative `m` counts from the end. */
  function Take<T>(s: seq<T>, m: int): (r: seq<T>)
    ensures r <= s
    ensures 0 <= m ==> |r| == if m < |s| then m else |s|
    ensures m < 0 ==> |r| == if |s| + m > 0 then |s| + m else 0
  {
    if m >= 0 then (if m < |s| then s[..m] else s)
    else if |s| + m > 0 then s[..|s| + m] else []
  }

  /** `[tea for tea, _ in cs]` */
  function TeaNames(cs: seq<Candidate>): (r: seq<string>)
    ensures |r| == |cs|
    ensures forall i :: 0 <= i < |r| ==> r[i] == cs[i].tea
  {
    if cs == [] then [] else [cs[0].tea] + TeaNames(cs[1..])
  }

  /** The sorted candidate list of a resolved health concern. */
  function Ranking(g: Graph, h: string): seq<Candidate>
    requires WellFormed(g) && h in g.attrs
  {
    SortByLength(Cands(g, h, g.nodes))
  }

  /** What `recommend_tea_for_health(health_concern, max_results)` returns. */
  function RecommendSpec(g: Graph, concern: string, maxResults: int): (r: seq<string>)
    requires WellFormed(g)
    ensures 0 <= maxResults ==> |r| <= maxResults
  {
    var h := ClosestNode(g, concern);
    if !HealthNode(g, h) then [] else TeaNames(Take(Ranking(g, h.value), maxResults))
  }

  /**
   `recommend_tea_for_health(health_concern, max_results)`; `max_results` is 5
   when the caller gives none.
   */
  method RecommendTeaForHealth(g: Graph, concern: string, maxResults: int) returns (r: seq<string>)
    requires WellFormed(g)
    ensures r == RecommendSpec(g, concern, maxResults)
  {
    var h := FindClosestNode(g, concern);
    if !Truthy(h) || !HasType(g, h.value, "health") {
      return [];
    }
    var recommended := CollectCandidates(g, h.value);
    recommended := SortByLength(recommended);
    r := TeaNames(Take(recommended, maxResults));
  }

  /** The first loop of `recommend_tea_for_health`: every tea with a path from `h`, in node order. */
  method CollectCandidates(g: Graph, h: string) returns (recommended: seq<Candidate>)
    requires WellFormed(g) && h in g.attrs
    ensures recommended == Cands(g, h, g.nodes)
  {
    recommended := [];
    for i := 0 to |g.nodes|
      invariant recommended == Cands(g, h, g.nodes[..i])
    {
      var node := g.nodes[i];
      CandsSnoc(g, h, g.nodes, i);
      if HasType(g, node, "tea") {
        var path := ShortestPath(g, h, node);
        if path.Some? {
          recommended := recommended + [Candidate(node, path.value)];
        }
      }
    }
    assert g.nodes[..|g.nodes|] == g.nodes;
  }

  // ----- What the recommendation promises -----

  /** Tea `a` is ranked before tea `b`: closer to `h`, or as close and inserted earlier. */
  ghost predicate RankedBefore(g: Graph, h: string, a: string, b: string)
    requires WellFormed(g) && h in g.attrs
  {
    && a in g.nodes && b in g.nodes && Reachable(g, h, a) && Reachable(g, h, b)
    && (Dist(g, h, a) < Dist(g, h, b) || (Dist(g, h, a) == Dist(g, h, b) && Pos(g.nodes, a) < Pos(g.nodes, b)))
  }

  /** Every ranked candidate is a tea of the graph with its shortest path from `h`. */
  lemma RankingMember(g: Graph, h: string, c: Candidate)
    requires WellFormed(g) && h in g.attrs && c in Ranking(g, h)
    ensures c.tea in g.nodes && HasType(g, c.tea, "tea") && ShortestPath(g, h, c.tea) == Some(c.path)
    ensures Reachable(g, h, c.tea) && Dist(g, h, c.tea) == |c.path| - 1
  {
    assert c in multiset(Ranking(g, h));
    CandsSound(g, h, g.nodes, c);
    VisitSound(g, h, c.tea, c);
    ShortestPathFacts(g, h, c.tea);
  }

  /** Every tea reachable from `h` is ranked, with its shortest path. */
  lemma RankingComplete(g: Graph, h: string, t: string)
    requires WellFormed(g) && h in g.attrs
    requires t in g.nodes && HasType(g, t, "tea") && Reachable(g, h, t)
    ensures ShortestPath(g, h, t).Some? && Candidate(t, ShortestPath(g, h, t).value) in Ranking(g, h)
  {
    CandsComplete(g, h, g.nodes, t);
    assert Candidate(t, ShortestPath(g, h, t).value) in multiset(Cands(g, h, g.nodes));
  }

  /** The ranking is ordered by path length, ties in node order. */
  lemma RankingSorted(g: Graph, h: string)
    requires WellFormed(g) && h in g.attrs
    ensures LexSorted(g.nodes, Ranking(g, h))
  {
    CandsInOrder(g, h, g.nodes);
    SortSorted(g.nodes, Cands(g, h, g.nodes));
  }

  /** The recommended names are the teas of a prefix of the ranking. */
  lemma NamesOfPrefix(s: seq<Candidate>, m: int)
    ensures forall i :: 0 <= i < |TeaNames(Take(s, m))| ==> TeaNames(Take(s, m))[i] == s[i].tea
  {
  }

  /**
   Every recommended name is a tea reachable from the resolved health concern; the
   list is ordered by distance from it, ties in node insertion order, so no tea is
   recommended twice; nothing is recommended unless the concern resolves to a
   health node.
   */
  lemma RecommendOrdered(g: Graph, concern: string, m: int)
    requires WellFormed(g)
    ensures var r, h := RecommendSpec(g, concern, m), ClosestNode(g, concern);
      && (r != [] ==> HealthNode(g, h))
      && (HealthNode(g, h) ==>
            && (forall i :: 0 <= i < |r| ==> r[i] in g.nodes && HasType(g, r[i], "tea") && Reachable(g, h.value, r[i]))
            && (forall i, j :: 0 <= i < j < |r| ==> RankedBefore(g, h.value, r[i], r[j])))
  {
    var h := ClosestNode(g, concern);
    if HealthNode(g, h) {
      var s := Ranking(g, h.value);
      var r := RecommendSpec(g, concern, m);
      NamesOfPrefix(s, m);
      RankingSorted(g, h.value);
      forall i | 0 <= i < |r| ensures r[i] in g.nodes && HasType(g, r[i], "tea") && Reachable(g, h.value, r[i]) {
        RankingMember(g, h.value, s[i]);
      }
      forall i, j | 0 <= i < j < |r| ensures RankedBefore(g, h.value, r[i], r[j]) {
        RankingMember(g, h.value, s[i]);
        RankingMember(g, h.value, s[j]);
        assert Precedes(g.nodes, s[i], s[j]);
      }
    }
  }

  /** An element of a sorted list that is not in a prefix comes after all of it. */
  lemma OutsidePrefix(ns: seq<string>, s: seq<Candidate>, m: int, k: int)
    requires LexSorted(ns, s) && 0 <= k < |s|
    requires forall i :: 0 <= i < |Take(s, m)| ==> s[i].tea != s[k].tea
    ensures |Take(s, m)| <= k
    ensures forall i :: 0 <= i < |Take(s, m)| ==> |s[i].path| <= |s[k].path|
  {
    var l := |Take(s, m)|;
    var tk := s[k].tea;
    assert k < l ==> tk != tk;
    assert l <= k;
    forall i | 0 <= i < l ensures |s[i].path| <= |s[k].path| {
      assert i < k;
      assert Precedes(ns, s[i], s[k]);
    }
  }

  /**
   Top-k: a reachable tea that is left out of the recommendation is no closer than
   any tea recommended, and with a non-negative `max_results` it is left out only
   when the list is full.
   */
  lemma RecommendComplete(g: Graph, concern: string, m: int, t: string)
    requires WellFormed(g)
    requires HealthNode(g, ClosestNode(g, concern))
    requires t in g.nodes && HasType(g, t, "tea") && Reachable(g, ClosestNode(g, concern).value, t)
    requires t !in RecommendSpec(g, concern, m)
    ensures var r, h := RecommendSpec(g, concern, m), ClosestNode(g, concern).value;
      && (0 <= m ==> |r| == m)
      && (forall i :: 0 <= i < |r| ==> Reachable(g, h, r[i]) && Dist(g, h, r[i]) <= Dist(g, h, t))
  {
    var h := ClosestNode(g, concern).value;
    var s := Ranking(g, h);
    var r := RecommendSpec(g, concern, m);
    NamesOfPrefix(s, m);
    RankingSorted(g, h);
    RankingComplete(g, h, t);
    var c := Candidate(t, ShortestPath(g, h, t).value);
    var k :| 0 <= k < |s| && s[k] == c;
    RankingMember(g, h, c);
    forall i | 0 <= i < |r| ensures s[i].tea != t {
      assert r[i] in r;
    }
    OutsidePrefix(g.nodes, s, m, k);
    forall i | 0 <= i < |r| ensures Reachable(g, h, r[i]) && Dist(g, h, r[i]) <= Dist(g, h, t) {
      RankingMember(g, h, s[i]);
    }
  }
}
