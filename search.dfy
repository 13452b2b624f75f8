/**
 `find_teas`: the teas adjacent to every resolved health concern, narrowed to
 those whose taste contains a preference when any does.
 */
module Search {
  import opened Wrappers
  import opened Strings
  import opened Graphs
  import opened Resolve

  /** `{tea for tea in G.neighbors(n) if G.nodes[tea].get("type") == "tea"}` */
  function TeaSet(g: Graph, n: string): (r: set<string>)
    ensures forall x :: x in r <==> Edge(g, n, x) && HasType(g, x, "tea")
  {
    set x | x in Adj(g, n) && HasType(g, x, "tea")
  }

  /** The node concern `c` resolves to, when that is a health node. */
  predicate Resolves(g: Graph, c: string)
  {
    HealthNode(g, ClosestNode(g, c))
  }

  /** What one iteration of the first loop appends for concern `c`. */
  function ConcernSets(g: Graph, c: string): (r: seq<set<string>>)
    ensures |r| <= 1
    ensures r != [] <==> Resolves(g, c)
    ensures Resolves(g, c) ==> r == [TeaSet(g, ClosestNode(g, c).value)]
  {
    var h := ClosestNode(g, c);
    if HealthNode(g, h) then [TeaSet(g, h.value)] else []
  }

  /** `tea_sets` after the first loop has visited the concerns `cs`. */
  function TeaSets(g: Graph, cs: seq<string>): seq<set<string>>
  {
    if cs == [] then [] else TeaSets(g, cs[..|cs| - 1]) + ConcernSets(g, cs[|cs| - 1])
  }

  /** `set.intersection(*ss)` for a non-empty list of sets. */
  function Intersect(ss: seq<set<string>>): (r: set<string>)
    requires ss != []
    ensures forall x :: x in r <==> forall i :: 0 <= i < |ss| ==> x in ss[i]
  {
    if |ss| == 1 then ss[0]
    else
      var init := ss[..|ss| - 1];
      assert forall i :: 0 <= i < |init| ==> init[i] == ss[i];
      Intersect(init) * ss[|ss| - 1]
  }

  /** `G.nodes[tea].get("taste", "")` */
  function Taste(g: Graph, t: string): string
  {
    if t in g.attrs && "taste" in g.attrs[t] then g.attrs[t]["taste"] else ""
  }

  /** `taste_preference.lower() in taste.lower()` */
  predicate TasteMatches(g: Graph, t: string, pref: string)
  {
    Contains(Lower(Taste(g, t)), Lower(pref))
  }

  /** The teas of `common` whose taste matches the preference. */
  function Matching(g: Graph, common: set<string>, pref: string): (r: set<string>)
    ensures forall x :: x in r <==> x in common && TasteMatches(g, x, pref)
  {
    set x | x in common && TasteMatches(g, x, pref)
  }

  /** The teas (as a set) that `find_teas(health_concerns, taste_preference)` returns. */
  function FindTeasSpec(g: Graph, concerns: seq<string>, pref: Option<string>): set<string>
  {
    var ts := TeaSets(g, concerns);
    if ts == [] then {}
    else
      var common := Intersect(ts);
      if common == {} then {}
      else if Truthy(pref) && Matching(g, common, pref.value) != {} then Matching(g, common, pref.value)
      else common
  }

  /** `list(s)`: the elements of a set, each once, in some order. */
  method ListOf(s: set<string>) returns (r: seq<string>)
    ensures NoDup(r) && forall x :: x in r <==> x in s
  {
    r := [];
    var rest := s;
    while rest != {}
      invariant NoDup(r) && rest <= s
      invariant forall x :: x in r <==> x in s && x !in rest
      decreases |rest|
    {
      var x :| x in rest;
      NoDupSnoc(r, x);
      r := r + [x];
      rest := rest - {x};
    }
  }

  /** The taste pass of `find_teas`: the common teas whose taste contains `pref`. */
  method FilterByTaste(g: Graph, common: set<string>, pref: string) returns (matching: seq<string>)
    ensures NoDup(matching) && forall x :: x in matching <==> x in Matching(g, common, pref)
  {
    matching := [];
    var rest := common;
    while rest != {}
      invariant rest <= common && NoDup(matching)
      invariant forall x :: x in matching <==> x in common && x !in rest && TasteMatches(g, x, pref)
      decreases |rest|
    {
      var tea :| tea in rest;
      var taste := Lower(Taste(g, tea));
      if Contains(taste, Lower(pref)) {
        NoDupSnoc(matching, tea);
        matching := matching + [tea];
      }
      rest := rest - {tea};
    }
  }

  /**
   `find_teas(health_concerns, taste_preference)`: one pass resolving the
   concerns, the intersection of their tea sets, then, for a truthy preference, a
   pass over the common teas keeping those whose taste contains it (falling back
   to all of them when none does). The list order is that of set iteration,
   which the model leaves open.
   */
  method FindTeas(g: Graph, concerns: seq<string>, pref: Option<string>) returns (r: seq<string>)
    ensures NoDup(r) && forall x :: x in r <==> x in FindTeasSpec(g, concerns, pref)
  {
    var teaSets: seq<set<string>> := [];
    for i := 0 to |concerns|
      invariant teaSets == TeaSets(g, concerns[..i])
    {
      assert concerns[..i + 1][..i] == concerns[..i];
      var node := FindClosestNode(g, concerns[i]);
      if Truthy(node) && HasType(g, node.value, "health") {
        teaSets := teaSets + [TeaSet(g, node.value)];
      }
    }
    assert concerns[..|concerns|] == concerns;
    if teaSets == [] {
      return [];
    }
    var common := Intersect(teaSets);
    if common == {} {
      return [];
    }
    if Truthy(pref) {
      var matching := FilterByTaste(g, common, pref.value);
      if matching != [] {
        assert matching[0] in Matching(g, common, pref.value);
        return matching;
      }
      assert Matching(g, common, pref.value) == {};
    }
    r := ListOf(common);
  }

  // ----- What the result means -----

  /** The index of a concern that resolves to a health node. */
  ghost predicate ResolvedAt(g: Graph, cs: seq<string>, i: int)
  {
    0 <= i < |cs| && Resolves(g, cs[i])
  }

  /** `x` is a tea adjacent to the health node of every concern that resolves to one. */
  ghost predicate AdjacentToAll(g: Graph, cs: seq<string>, x: string)
  {
    forall i :: ResolvedAt(g, cs, i) ==> Edge(g, ClosestNode(g, cs[i]).value, x) && HasType(g, x, "tea")
  }

  /** There is no collected set exactly when no concern resolves. */
  lemma {:induction false} TeaSetsEmpty(g: Graph, cs: seq<string>)
    ensures TeaSets(g, cs) == [] <==> forall i :: 0 <= i < |cs| ==> !ResolvedAt(g, cs, i)
  {
    if cs != [] {
      var init, c := cs[..|cs| - 1], cs[|cs| - 1];
      TeaSetsEmpty(g, init);
      assert TeaSets(g, cs) == TeaSets(g, init) + ConcernSets(g, c);
      assert cs == init + [c];
      NoneResolvedSnoc(g, init, c);
    }
  }

  /** Adding a concern adds its condition to "no concern resolves". */
  lemma NoneResolvedSnoc(g: Graph, init: seq<string>, c: string)
    ensures (forall i :: 0 <= i < |init + [c]| ==> !ResolvedAt(g, init + [c], i)) <==>
      (forall i :: 0 <= i < |init| ==> !ResolvedAt(g, init, i)) && !Resolves(g, c)
  {
    var cs := init + [c];
    assert forall i :: 0 <= i < |init| ==> cs[i] == init[i];
    assert cs[|init|] == c;
    assert forall i :: 0 <= i < |init| ==> (ResolvedAt(g, cs, i) <==> ResolvedAt(g, init, i));
    assert ResolvedAt(g, cs, |init|) <==> Resolves(g, c);
  }

  /** `x` is in the set a concern contributes, if it contributes one. */
  lemma ConcernAll(g: Graph, c: string, x: string)
    ensures (forall j :: 0 <= j < |ConcernSets(g, c)| ==> x in ConcernSets(g, c)[j]) <==>
      (Resolves(g, c) ==> Edge(g, ClosestNode(g, c).value, x) && HasType(g, x, "tea"))
  {
    if Resolves(g, c) {
      assert ConcernSets(g, c)[0] == TeaSet(g, ClosestNode(g, c).value);
    }
  }

  /** `x` is in every set of `a + b` exactly when it is in every set of `a` and of `b`. */
  lemma InAllAppend(a: seq<set<string>>, b: seq<set<string>>, x: string)
    ensures (forall j :: 0 <= j < |a + b| ==> x in (a + b)[j]) <==>
      (forall j :: 0 <= j < |a| ==> x in a[j]) && (forall j :: 0 <= j < |b| ==> x in b[j])
  {
    assert forall j :: 0 <= j < |a| ==> (a + b)[j] == a[j];
    assert forall j :: 0 <= j < |b| ==> (a + b)[|a| + j] == b[j];
  }

  /** Adding a concern adds its condition to `AdjacentToAll`. */
  lemma AdjacentSnoc(g: Graph, init: seq<string>, c: string, x: string)
    ensures AdjacentToAll(g, init + [c], x) <==>
      AdjacentToAll(g, init, x) && (Resolves(g, c) ==> Edge(g, ClosestNode(g, c).value, x) && HasType(g, x, "tea"))
  {
    var cs := init + [c];
    assert forall i :: 0 <= i < |init| ==> cs[i] == init[i];
    assert cs[|init|] == c;
    if AdjacentToAll(g, init, x) && (Resolves(g, c) ==> Edge(g, ClosestNode(g, c).value, x) && HasType(g, x, "tea")) {
      forall i | ResolvedAt(g, cs, i) ensures Edge(g, ClosestNode(g, cs[i]).value, x) && HasType(g, x, "tea") {
        if i < |init| {
          assert ResolvedAt(g, init, i);
        }
      }
    }
    if AdjacentToAll(g, cs, x) {
      forall i | ResolvedAt(g, init, i) ensures Edge(g, ClosestNode(g, init[i]).value, x) && HasType(g, x, "tea") {
        assert ResolvedAt(g, cs, i);
      }
      if Resolves(g, c) {
        assert ResolvedAt(g, cs, |init|);
      }
    }
  }

  /** A tea lies in every collected set exactly when it is adjacent to every resolved concern. */
  lemma {:induction false} TeaSetsAll(g: Graph, cs: seq<string>, x: string)
    ensures (forall j :: 0 <= j < |TeaSets(g, cs)| ==> x in TeaSets(g, cs)[j]) <==> AdjacentToAll(g, cs, x)
  {
    if cs != [] {
      var init, c := cs[..|cs| - 1], cs[|cs| - 1];
      TeaSetsAll(g, init, x);
      InAllAppend(TeaSets(g, init), ConcernSets(g, c), x);
      ConcernAll(g, c, x);
      assert TeaSets(g, cs) == TeaSets(g, init) + ConcernSets(g, c);
      assert cs == init + [c];
      AdjacentSnoc(g, init, c, x);
    }
  }

  /**
   What `find_teas` returns, stated without the loops: nothing when no concern
   resolves to a health node; otherwise the teas adjacent to every resolved
   concern, narrowed, for a truthy preference, to those whose taste contains it
   whenever at least one does.
   */
  lemma FindTeasMeaning(g: Graph, concerns: seq<string>, pref: Option<string>, x: string)
    ensures (forall i :: 0 <= i < |concerns| ==> !ResolvedAt(g, concerns, i)) ==> FindTeasSpec(g, concerns, pref) == {}
    ensures x in FindTeasSpec(g, concerns, pref) ==> HasType(g, x, "tea") && AdjacentToAll(g, concerns, x)
    ensures ((exists i :: ResolvedAt(g, concerns, i)) && AdjacentToAll(g, concerns, x) &&
             (!Truthy(pref) || TasteMatches(g, x, pref.value))) ==> x in FindTeasSpec(g, concerns, pref)
    ensures Truthy(pref) && x in FindTeasSpec(g, concerns, pref) && !TasteMatches(g, x, pref.value) ==>
      forall y :: y in FindTeasSpec(g, concerns, pref) ==> !TasteMatches(g, y, pref.value)
    ensures ((exists i :: ResolvedAt(g, concerns, i)) && AdjacentToAll(g, concerns, x) && Truthy(pref) &&
             (forall y :: AdjacentToAll(g, concerns, y) ==> !TasteMatches(g, y, pref.value))) ==>
      x in FindTeasSpec(g, concerns, pref)
  {
    var ts := TeaSets(g, concerns);
    TeaSetsEmpty(g, concerns);
    TeaSetsAll(g, concerns, x);
    if ts != [] {
      var common := Intersect(ts);
      if x in FindTeasSpec(g, concerns, pref) {
        assert x in common;
        var i :| 0 <= i < |ts|;
        assert x in ts[i];
        assert HasType(g, x, "tea") by {
          TeaSetsMember(g, concerns, i);
        }
      }
      if Truthy(pref) && (forall y :: AdjacentToAll(g, concerns, y) ==> !TasteMatches(g, y, pref.value)) {
        forall y | y in Matching(g, common, pref.value) ensures false {
          TeaSetsAll(g, concerns, y);
        }
      }
    }
  }

  /** Every collected set is the tea set of some node. */
  lemma {:induction false} TeaSetsMember(g: Graph, cs: seq<string>, j: int)
    requires 0 <= j < |TeaSets(g, cs)|
    ensures exists n :: TeaSets(g, cs)[j] == TeaSet(g, n)
  {
    var init := cs[..|cs| - 1];
    var ts, ti := TeaSets(g, cs), TeaSets(g, init);
    if j < |ti| {
      TeaSetsMember(g, init, j);
      assert ts[j] == ti[j];
    } else {
      assert ts[j] == ConcernSets(g, cs[|cs| - 1])[j - |ti|];
    }
  }
}
