/**
 The read-only queries of `MyGraph` that look at one node and its neighbours:
 `get_attribute`, `compare_teas`, `get_teas_from_category` and
 `explore_tea_by_characteristic`. Each takes the graph `self.G` as the value `g`.
 */
module Lookup {
  import opened Wrappers
  import opened Strings
  import opened Graphs
  import opened Build
  import opened Resolve

  // ----- get_attribute -----

  /**
   `get_attribute(tea_node, attribute)`: the attribute's value, or one of the
   two messages `"Node not found"` and `"Attribute not found"`.
   */
  function GetAttribute(g: Graph, node: string, attribute: string): (r: string)
    ensures !IsNode(g, node) <==> r == "Node not found" && !(node in g.attrs && attribute in g.attrs[node])
    ensures IsNode(g, node) && attribute in g.attrs[node] ==> r == g.attrs[node][attribute]
    ensures IsNode(g, node) && attribute !in g.attrs[node] ==> r == "Attribute not found"
  {
    if node !in g.attrs then "Node not found"
    else if attribute in g.attrs[node] then g.attrs[node][attribute]
    else "Attribute not found"
  }

  /**
   After `build_graph`, a node that only the association rows created (a tea named
   in a row but absent from the catalog, or a row's health concern) has no
   attribute but `type`: asking for its `caffeine`, say, gives "Attribute not found".
   */
  lemma RowOnlyNodeAttribute(g: Graph, cs: Catalog, rows: seq<Row>, n: string, k: string)
    requires WellFormed(g) && k != "type"
    requires n !in Apply(g, CatalogOps(cs)).attrs && n in Apply(g, BuildOps(cs, rows)).attrs
    ensures GetAttribute(Apply(g, BuildOps(cs, rows)), n, k) == "Attribute not found"
  {
    RowOnlyNode(g, cs, rows, n);
    assert k !in Apply(g, BuildOps(cs, rows)).attrs[n].Keys;
  }

  /**
   After `build_graph`, a node the catalog pass created answers every attribute
   other than `type` as it did before the association rows were read: a catalog
   tea keeps its `caffeine`, `origin` and `taste`.
   */
  lemma CatalogNodeAttribute(g: Graph, cs: Catalog, rows: seq<Row>, n: string, k: string)
    requires WellFormed(g) && k != "type"
    requires n in Apply(g, CatalogOps(cs)).attrs
    ensures GetAttribute(Apply(g, BuildOps(cs, rows)), n, k) == GetAttribute(Apply(g, CatalogOps(cs)), n, k)
  {
    ApplyAppend(g, CatalogOps(cs), RowsOps(rows));
    ApplyWellFormed(g, CatalogOps(cs));
    RowsKeepAttributes(Apply(g, CatalogOps(cs)), rows, n, k);
  }

  // ----- compare_teas -----

  /**
   `compare_teas(tea1, tea2, attribute)`: both names resolved with
   `find_closest_tea_node`, then the pair of their attribute values, or `None`
   when a name does not resolve or either value is `"N/A"`.
   */
  function CompareTeas(g: Graph, tea1: string, tea2: string, attribute: string): (r: Option<(string, string)>)
  {
    var n1, n2 := ClosestTeaNode(g, tea1), ClosestTeaNode(g, tea2);
    if !Truthy(n1) || !Truthy(n2) then None
    else
      var v1, v2 := GetAttribute(g, n1.value, attribute), GetAttribute(g, n2.value, attribute);
      if v1 == "N/A" || v2 == "N/A" then None else Some((v1, v2))
  }

  /**
   When `compare_teas` returns a pair, both names resolved to tea or category
   nodes of the graph, the pair holds their values, and neither is "N/A";
   it returns `None` exactly when a name does not resolve or a value is "N/A".
   */
  lemma CompareTeasSpec(g: Graph, tea1: string, tea2: string, attribute: string)
    ensures var r, n1, n2 := CompareTeas(g, tea1, tea2, attribute), ClosestTeaNode(g, tea1), ClosestTeaNode(g, tea2);
      && (r.Some? ==>
            && Truthy(n1) && Truthy(n2) && TeaOrCategory(g, n1.value) && TeaOrCategory(g, n2.value)
            && r.value == (GetAttribute(g, n1.value, attribute), GetAttribute(g, n2.value, attribute))
            && IsNode(g, n1.value) && IsNode(g, n2.value)
            && r.value.0 != "N/A" && r.value.1 != "N/A")
      && (r.None? <==>
            || !Truthy(n1) || !Truthy(n2)
            || GetAttribute(g, n1.value, attribute) == "N/A" || GetAttribute(g, n2.value, attribute) == "N/A")
  {
    var n1, n2 := ClosestTeaNode(g, tea1), ClosestTeaNode(g, tea2);
    if Truthy(n1) && Truthy(n2) {
      ClosestTeaNodeIsTeaOrCategory(g, tea1);
      ClosestTeaNodeIsTeaOrCategory(g, tea2);
    }
  }

  /** Swapping the two teas swaps the two values. */
  lemma CompareTeasSwap(g: Graph, tea1: string, tea2: string, attribute: string)
    ensures CompareTeas(g, tea2, tea1, attribute) ==
      if CompareTeas(g, tea1, tea2, attribute).None? then None
      else Some((CompareTeas(g, tea1, tea2, attribute).value.1, CompareTeas(g, tea1, tea2, attribute).value.0))
  {
  }

  // ----- get_teas_from_category -----

  lemma NoDupTail(s: seq<string>)
    requires s != [] && NoDup(s)
    ensures NoDup(s[1..]) && s[0] !in s[1..]
  {
    forall j | 0 <= j < |s| - 1 ensures s[1..][j] != s[0] {
      assert s[1..][j] == s[j + 1];
    }
  }

  lemma NoDupCons(x: string, r: seq<string>)
    requires NoDup(r) && x !in r
    ensures NoDup([x] + r)
  {
    forall i, j | 0 <= i < j < |[x] + r| ensures ([x] + r)[i] != ([x] + r)[j] {
      assert ([x] + r)[j] == r[j - 1];
      if i > 0 {
        assert ([x] + r)[i] == r[i - 1];
      }
    }
  }

  /** `[n for n in s if G.nodes[n].get("type") == "tea"]` */
  function TeasIn(g: Graph, s: seq<string>): (r: seq<string>)
    ensures |r| <= |s|
    ensures forall x :: x in r <==> x in s && HasType(g, x, "tea")
    ensures NoDup(s) ==> NoDup(r)
  {
    if s == [] then []
    else
      var rest := TeasIn(g, s[1..]);
      assert forall x :: x in s[1..] ==> x in s;
      assert NoDup(s) ==> NoDup(s[1..]) && s[0] !in s[1..] by {
        if NoDup(s) {
          NoDupTail(s);
        }
      }
      if HasType(g, s[0], "tea") then
        assert NoDup(s) ==> NoDup([s[0]] + rest) by {
          if NoDup(s) {
            NoDupCons(s[0], rest);
          }
        }
        [s[0]] + rest
      else rest
  }

  /** `G.nodes[n]["type"]` can be read: `n` is `None`, falsy, or a node with a `type`. */
  predicate TypeReadable(g: Graph, n: Option<string>)
  {
    !Truthy(n) || (n.value in g.attrs && "type" in g.attrs[n.value])
  }

  /**
   `get_teas_from_category(category_name)`: the name resolved with
   `find_closest_node`; when that is a category, its tea neighbours in neighbour
   order, and otherwise the empty list. The source reads the resolved node's
   `type` with `[...]`, which raises on a node without one; the precondition
   excludes that case.
   */
  function GetTeasFromCategory(g: Graph, categoryName: string): (r: seq<string>)
    requires TypeReadable(g, ClosestNode(g, categoryName))
    ensures var c := ClosestNode(g, categoryName);
      forall x :: x in r <==> Truthy(c) && HasType(g, c.value, "category") && Edge(g, c.value, x) && HasType(g, x, "tea")
    ensures WellFormed(g) ==> NoDup(r)
  {
    var c := ClosestNode(g, categoryName);
    if Truthy(c) && g.attrs[c.value]["type"] == "category" then TeasIn(g, Adj(g, c.value)) else []
  }

  // ----- explore_tea_by_characteristic -----

  /**
   Node `n` is a characteristic for the lower-cased keyword `k`: its lower-cased
   key contains `k` and its type is taste, origin, caffeine or health.
   */
  predicate Characteristic(g: Graph, n: string, k: string)
  {
    && Contains(Lower(n), k)
    && (HasType(g, n, "taste") || HasType(g, n, "origin") || HasType(g, n, "caffeine") || HasType(g, n, "health"))
  }

  /** The `(node, teas)` pairs the first loop collects while visiting the nodes `ns` in order. */
  function Matches(g: Graph, k: string, ns: seq<string>): (r: seq<(string, seq<string>)>)
    ensures forall i :: 0 <= i < |r| ==> r[i].1 != [] && r[i].1 == TeasIn(g, Adj(g, r[i].0))
  {
    if ns == [] then []
    else
      var n := ns[|ns| - 1];
      var teas := TeasIn(g, Adj(g, n));
      Matches(g, k, ns[..|ns| - 1]) + (if Characteristic(g, n, k) && teas != [] then [(n, teas)] else [])
  }

  /** All the tea lists of `ms`, concatenated in order. */
  function Flatten(ms: seq<(string, seq<string>)>): seq<string>
  {
    if ms == [] then [] else Flatten(ms[..|ms| - 1]) + ms[|ms| - 1].1
  }

  /** What `explore_tea_by_characteristic(keyword)` returns. */
  function ExploreSpec(g: Graph, keyword: string): Option<seq<string>>
  {
    var ms := Matches(g, Lower(keyword), g.nodes);
    if ms == [] then None else Some(Flatten(ms))
  }

  /**
   `explore_tea_by_characteristic(keyword)`: one pass over the nodes collecting
   each matching characteristic with its tea neighbours, then a pass over the
   collected lists concatenating them.
   */
  method ExploreTeaByCharacteristic(g: Graph, keyword: string) returns (r: Option<seq<string>>)
    ensures r == ExploreSpec(g, keyword)
  {
    var k := Lower(keyword);
    var matches: seq<(string, seq<string>)> := [];
    for i := 0 to |g.nodes|
      invariant matches == Matches(g, k, g.nodes[..i])
    {
      var node := g.nodes[i];
      assert g.nodes[..i + 1][..i] == g.nodes[..i];
      if Characteristic(g, node, k) {
        var teas := TeasIn(g, Adj(g, node));
        if teas != [] {
          matches := matches + [(node, teas)];
        }
      }
    }
    assert g.nodes[..|g.nodes|] == g.nodes;
    if matches == [] {
      return None;
    }
    var recommended := FlattenMatches(matches);
    return Some(recommended);
  }

  /** The second loop of `explore_tea_by_characteristic`: every collected tea, in order. */
  method FlattenMatches(matches: seq<(string, seq<string>)>) returns (r: seq<string>)
    ensures r == Flatten(matches)
  {
    r := [];
    for i := 0 to |matches|
      invariant r == Flatten(matches[..i])
    {
      var teas := matches[i].1;
      assert matches[..i + 1][..i] == matches[..i];
      for j := 0 to |teas|
        invariant r == Flatten(matches[..i]) + teas[..j]
      {
        assert teas[..j + 1] == teas[..j] + [teas[j]];
        r := r + [teas[j]];
      }
      assert teas[..|teas|] == teas;
    }
    assert matches[..|matches|] == matches;
  }

  /** Membership in the concatenation: a tea of one of the collected lists. */
  lemma {:induction false} FlattenMembers(ms: seq<(string, seq<string>)>, x: string)
    ensures x in Flatten(ms) <==> exists i :: 0 <= i < |ms| && x in ms[i].1
  {
    if ms != [] {
      var init := ms[..|ms| - 1];
      FlattenMembers(init, x);
      if x in Flatten(init) {
        var i :| 0 <= i < |init| && x in init[i].1;
        assert ms[i] == init[i];
      }
      if i :| 0 <= i < |ms| && x in ms[i].1 {
        if i < |ms| - 1 {
          assert ms[i] == init[i];
        }
      }
    }
  }

  /** Node `n` heads one of the entries of `ms`. */
  predicate Collected(ms: seq<(string, seq<string>)>, n: string)
  {
    exists i :: 0 <= i < |ms| && ms[i].0 == n
  }

  lemma CollectedAppend(a: seq<(string, seq<string>)>, b: seq<(string, seq<string>)>, n: string)
    ensures Collected(a + b, n) <==> Collected(a, n) || Collected(b, n)
  {
    if Collected(a + b, n) {
      var i :| 0 <= i < |a + b| && (a + b)[i].0 == n;
      if i >= |a| {
        assert b[i - |a|].0 == n;
      }
    }
    if Collected(a, n) {
      var i :| 0 <= i < |a| && a[i].0 == n;
      assert (a + b)[i].0 == n;
    }
    if Collected(b, n) {
      var i :| 0 <= i < |b| && b[i].0 == n;
      assert (a + b)[|a| + i].0 == n;
    }
  }

  /** The collected nodes are exactly the characteristics with a tea neighbour. */
  lemma {:induction false} MatchesMembers(g: Graph, k: string, ns: seq<string>, n: string)
    ensures Collected(Matches(g, k, ns), n) <==> n in ns && Characteristic(g, n, k) && TeasIn(g, Adj(g, n)) != []
  {
    if ns != [] {
      var init, last := ns[..|ns| - 1], ns[|ns| - 1];
      var ms, mi := Matches(g, k, ns), Matches(g, k, init);
      assert ns == init + [last];
      assert n in ns <==> n in init || n == last;
      MatchesMembers(g, k, init, n);
      var keep := Characteristic(g, last, k) && TeasIn(g, Adj(g, last)) != [];
      var extra := if keep then [(last, TeasIn(g, Adj(g, last)))] else [];
      assert ms == mi + extra;
      CollectedAppend(mi, extra, n);
      assert Collected(extra, n) <==> n == last && keep by {
        if n == last && keep {
          assert extra[0].0 == n;
        }
      }
    }
  }

  /**
   `explore_tea_by_characteristic` returns `None` exactly when no characteristic
   matching the keyword has a tea neighbour.
   */
  lemma ExploreNone(g: Graph, keyword: string)
    ensures ExploreSpec(g, keyword).None? <==>
      forall n :: n in g.nodes && Characteristic(g, n, Lower(keyword)) ==> TeasIn(g, Adj(g, n)) == []
  {
    var k := Lower(keyword);
    var ms := Matches(g, k, g.nodes);
    if ms == [] {
      forall n | n in g.nodes && Characteristic(g, n, k) ensures TeasIn(g, Adj(g, n)) == [] {
        MatchesMembers(g, k, g.nodes, n);
      }
    } else {
      var n := ms[0].0;
      MatchesMembers(g, k, g.nodes, n);
      assert exists i :: 0 <= i < |Matches(g, k, g.nodes)| && Matches(g, k, g.nodes)[i].0 == n by {
        assert 0 < |ms| && ms[0].0 == n;
      }
      assert n in g.nodes && Characteristic(g, n, k) && TeasIn(g, Adj(g, n)) != [];
    }
  }

  /**
   Otherwise the teas it lists are exactly the teas adjacent to some matching
   characteristic.
   */
  lemma ExploreMember(g: Graph, keyword: string, x: string)
    requires ExploreSpec(g, keyword).Some?
    ensures x in ExploreSpec(g, keyword).value <==>
      exists n :: n in g.nodes && Characteristic(g, n, Lower(keyword)) && Edge(g, n, x) && HasType(g, x, "tea")
  {
    var k := Lower(keyword);
    var ms := Matches(g, k, g.nodes);
    FlattenMembers(ms, x);
    if x in Flatten(ms) {
      var i :| 0 <= i < |ms| && x in ms[i].1;
      ListedTeaIsAdjacent(g, k, ms, i, x);
    }
    if n :| n in g.nodes && Characteristic(g, n, k) && Edge(g, n, x) && HasType(g, x, "tea") {
      AdjacentTeaIsListed(g, k, n, x);
    }
  }

  lemma ListedTeaIsAdjacent(g: Graph, k: string, ms: seq<(string, seq<string>)>, i: int, x: string)
    requires ms == Matches(g, k, g.nodes) && 0 <= i < |ms| && x in ms[i].1
    ensures exists n :: n in g.nodes && Characteristic(g, n, k) && Edge(g, n, x) && HasType(g, x, "tea")
  {
    MatchesMembers(g, k, g.nodes, ms[i].0);
    assert Edge(g, ms[i].0, x);
  }

  lemma AdjacentTeaIsListed(g: Graph, k: string, n: string, x: string)
    requires n in g.nodes && Characteristic(g, n, k) && Edge(g, n, x) && HasType(g, x, "tea")
    ensures exists i :: 0 <= i < |Matches(g, k, g.nodes)| && x in Matches(g, k, g.nodes)[i].1
  {
    var ms := Matches(g, k, g.nodes);
    assert x in TeasIn(g, Adj(g, n));
    MatchesMembers(g, k, g.nodes, n);
    var i :| 0 <= i < |ms| && ms[i].0 == n;
    assert x in ms[i].1;
  }

  /** A list without repeats holds each value at most once. */
  lemma {:induction false} NoDupCount(s: seq<string>, x: string)
    requires NoDup(s)
    ensures multiset(s)[x] == if x in s then 1 else 0
  {
    if s != [] {
      NoDupTail(s);
      NoDupCount(s[1..], x);
      assert s == [s[0]] + s[1..];
    }
  }

  /** The matching characteristics among `ns` that are adjacent to tea `x`. */
  ghost function AdjacentCharacteristics(g: Graph, k: string, ns: seq<string>, x: string): set<string>
  {
    set n | n in ns && Hit(g, k, n, x)
  }

  lemma FlattenSnoc(ms: seq<(string, seq<string>)>, e: (string, seq<string>))
    ensures Flatten(ms + [e]) == Flatten(ms) + e.1
  {
    assert (ms + [e])[..|ms|] == ms;
  }

  /** Node `n` is a matching characteristic adjacent to tea `x`. */
  predicate Hit(g: Graph, k: string, n: string, x: string)
  {
    Characteristic(g, n, k) && Edge(g, n, x) && HasType(g, x, "tea")
  }

  /** Visiting one more node adds one copy of `x` exactly when that node is a hit. */
  lemma MatchesStep(g: Graph, k: string, ns: seq<string>, x: string)
    requires WellFormed(g) && ns != []
    ensures multiset(Flatten(Matches(g, k, ns)))[x] ==
      multiset(Flatten(Matches(g, k, ns[..|ns| - 1])))[x] + if Hit(g, k, ns[|ns| - 1], x) then 1 else 0
  {
    var init, last := ns[..|ns| - 1], ns[|ns| - 1];
    var teas := TeasIn(g, Adj(g, last));
    var mi := Matches(g, k, init);
    assert NoDup(Adj(g, last)) by {
      if last in g.adj {
        assert Adj(g, last) == g.adj[last];
      }
    }
    NoDupCount(teas, x);
    assert x in teas <==> Edge(g, last, x) && HasType(g, x, "tea");
    if Characteristic(g, last, k) && teas != [] {
      assert Matches(g, k, ns) == mi + [(last, teas)];
      FlattenSnoc(mi, (last, teas));
      assert multiset(Flatten(mi) + teas) == multiset(Flatten(mi)) + multiset(teas);
    } else {
      assert Matches(g, k, ns) == mi;
    }
  }

  lemma AdjacentStep(g: Graph, k: string, ns: seq<string>, x: string)
    requires ns != [] && ns[|ns| - 1] !in ns[..|ns| - 1]
    ensures |AdjacentCharacteristics(g, k, ns, x)| ==
      |AdjacentCharacteristics(g, k, ns[..|ns| - 1], x)| + if Hit(g, k, ns[|ns| - 1], x) then 1 else 0
  {
    var init, last := ns[..|ns| - 1], ns[|ns| - 1];
    assert ns == init + [last];
    var si, sn := AdjacentCharacteristics(g, k, init, x), AdjacentCharacteristics(g, k, ns, x);
    if Hit(g, k, last, x) {
      assert sn == si + {last};
    } else {
      assert sn == si;
    }
  }

  /** Each tea appears in the collected lists once per matching characteristic next to it. */
  lemma {:induction false} MatchesCount(g: Graph, k: string, ns: seq<string>, x: string)
    requires WellFormed(g) && NoDup(ns)
    ensures multiset(Flatten(Matches(g, k, ns)))[x] == |AdjacentCharacteristics(g, k, ns, x)|
  {
    if ns == [] {
      assert AdjacentCharacteristics(g, k, ns, x) == {};
    } else {
      var init, last := ns[..|ns| - 1], ns[|ns| - 1];
      assert NoDup(init) by {
        forall i, j | 0 <= i < j < |init| ensures init[i] != init[j] {
          assert init[i] == ns[i] && init[j] == ns[j];
        }
      }
      assert last !in init by {
        forall i | 0 <= i < |init| ensures init[i] != last {
          assert init[i] == ns[i];
        }
      }
      MatchesCount(g, k, init, x);
      MatchesStep(g, k, ns, x);
      AdjacentStep(g, k, ns, x);
    }
  }

  /**
   A tea the call lists is listed once for every matching characteristic it is
   adjacent to, so a tea next to two of them appears twice.
   */
  lemma ExploreCount(g: Graph, keyword: string, x: string)
    requires WellFormed(g) && ExploreSpec(g, keyword).Some?
    ensures multiset(ExploreSpec(g, keyword).value)[x] == |AdjacentCharacteristics(g, Lower(keyword), g.nodes, x)|
  {
    MatchesCount(g, Lower(keyword), g.nodes, x);
  }

  /** The tea filter keeps order: it filters a concatenation piece by piece. */
  lemma {:induction false} TeasInAppend(g: Graph, a: seq<string>, b: seq<string>)
    ensures TeasIn(g, a + b) == TeasIn(g, a) + TeasIn(g, b)
  {
    if a == [] {
      assert a + b == b;
    } else {
      assert (a + b)[0] == a[0];
      assert (a + b)[1..] == a[1..] + b;
      TeasInAppend(g, a[1..], b);
      if HasType(g, a[0], "tea") {
        assert TeasIn(g, a + b) == [a[0]] + (TeasIn(g, a[1..]) + TeasIn(g, b));
      }
    }
  }
}
