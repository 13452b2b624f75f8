/**
 Keyword resolution: `find_closest_node`, which prefers a node whose lower-cased
 key equals the lower-cased keyword and otherwise takes the first node whose
 lower-cased key contains it, and `find_closest_tea_node`, the first tea or
 category node whose key contains the lower-cased name. "First" is always in
 node insertion order.
 */
module Resolve {
  import opened Wrappers
  import opened Strings
  import opened Graphs

  /** Python truthiness of a `str or None`: `None` and `""` are false. */
  predicate Truthy(o: Option<string>)
  {
    o.Some? && o.value != ""
  }

  /** A resolved name that is a health node: `node and G.nodes[node].get("type") == "health"`. */
  predicate HealthNode(g: Graph, h: Option<string>)
  {
    Truthy(h) && HasType(g, h.value, "health")
  }

  // ----- find_closest_node -----

  /** Node `ns[i]`, lower-cased, is the keyword `k`. */
  predicate ExactAt(ns: seq<string>, k: string, i: int)
    requires 0 <= i < |ns|
  {
    Lower(ns[i]) == k
  }

  /** Node `ns[i]`, lower-cased, contains the keyword `k`. */
  predicate SubAt(ns: seq<string>, k: string, i: int)
    requires 0 <= i < |ns|
  {
    Contains(Lower(ns[i]), k)
  }

  /** The index of the first exact match at or after `i`, or `|ns|` when there is none. */
  function ExactFrom(ns: seq<string>, k: string, i: nat): (r: nat)
    requires i <= |ns|
    ensures i <= r <= |ns|
    ensures forall j :: i <= j < r ==> !ExactAt(ns, k, j)
    ensures r < |ns| ==> ExactAt(ns, k, r)
    decreases |ns| - i
  {
    if i == |ns| then i else if ExactAt(ns, k, i) then i else ExactFrom(ns, k, i + 1)
  }

  /** The index of the first substring match at or after `i`, or `|ns|` when there is none. */
  function SubFrom(ns: seq<string>, k: string, i: nat): (r: nat)
    requires i <= |ns|
    ensures i <= r <= |ns|
    ensures forall j :: i <= j < r ==> !SubAt(ns, k, j)
    ensures r < |ns| ==> SubAt(ns, k, r)
    decreases |ns| - i
  {
    if i == |ns| then i else if SubAt(ns, k, i) then i else SubFrom(ns, k, i + 1)
  }

  /** An index that matches with no match before it is the one `ExactFrom` finds. */
  lemma ExactFirst(ns: seq<string>, k: string, i: nat)
    requires i <= |ns|
    requires forall j :: 0 <= j < i ==> !ExactAt(ns, k, j)
    requires i < |ns| ==> ExactAt(ns, k, i)
    ensures ExactFrom(ns, k, 0) == i
  {
  }

  /** An index that matches with no match before it is the one `SubFrom` finds. */
  lemma SubFirst(ns: seq<string>, k: string, i: nat)
    requires i <= |ns|
    requires forall j :: 0 <= j < i ==> !SubAt(ns, k, j)
    requires i < |ns| ==> SubAt(ns, k, i)
    ensures SubFrom(ns, k, 0) == i
  {
  }

  /** What `find_closest_node(keyword)` returns. */
  function ClosestNode(g: Graph, keyword: string): Option<string>
  {
    var ns, k := g.nodes, Lower(keyword);
    var e := ExactFrom(ns, k, 0);
    if e < |ns| then Some(ns[e])
    else
      var s := SubFrom(ns, k, 0);
      if s < |ns| then Some(ns[s]) else None
  }

  /** The first node whose lower-cased key is the keyword is returned, even if earlier nodes contain it. */
  lemma ClosestNodeExact(g: Graph, keyword: string, i: int)
    requires 0 <= i < |g.nodes| && ExactAt(g.nodes, Lower(keyword), i)
    requires forall j :: 0 <= j < i ==> !ExactAt(g.nodes, Lower(keyword), j)
    ensures ClosestNode(g, keyword) == Some(g.nodes[i])
  {
    ExactFirst(g.nodes, Lower(keyword), i);
  }

  /** With no exact match, the first node whose lower-cased key contains the keyword is returned. */
  lemma ClosestNodeSub(g: Graph, keyword: string, i: int)
    requires forall j :: 0 <= j < |g.nodes| ==> !ExactAt(g.nodes, Lower(keyword), j)
    requires 0 <= i < |g.nodes| && SubAt(g.nodes, Lower(keyword), i)
    requires forall j :: 0 <= j < i ==> !SubAt(g.nodes, Lower(keyword), j)
    ensures ClosestNode(g, keyword) == Some(g.nodes[i])
  {
    ExactFirst(g.nodes, Lower(keyword), |g.nodes|);
    SubFirst(g.nodes, Lower(keyword), i);
  }

  /** `None` exactly when no lower-cased key contains the keyword (an exact match contains it too). */
  lemma ClosestNodeNone(g: Graph, keyword: string)
    ensures ClosestNode(g, keyword).None? ==> forall i :: 0 <= i < |g.nodes| ==> !SubAt(g.nodes, Lower(keyword), i)
    ensures (forall i :: 0 <= i < |g.nodes| ==> !SubAt(g.nodes, Lower(keyword), i)) ==> ClosestNode(g, keyword).None?
  {
    var ns, k := g.nodes, Lower(keyword);
    var e := ExactFrom(ns, k, 0);
    if e < |ns| {
      ContainsSelf(Lower(ns[e]));
      assert SubAt(ns, k, e);
    } else {
      var s := SubFrom(ns, k, 0);
      if s < |ns| {
        assert SubAt(ns, k, s);
      }
    }
  }

  /** A resolved keyword names a node of the graph. */
  lemma ClosestNodeIsNode(g: Graph, keyword: string)
    requires ClosestNode(g, keyword).Some?
    ensures ClosestNode(g, keyword).value in g.nodes
  {
  }

  /**
   `find_closest_node(keyword)`: a scan for an exact match, then a scan for a
   substring match, each returning at the first hit.
   */
  method FindClosestNode(g: Graph, keyword: string) returns (r: Option<string>)
    ensures r == ClosestNode(g, keyword)
  {
    var k := Lower(keyword);
    for i := 0 to |g.nodes|
      invariant forall j :: 0 <= j < i ==> !ExactAt(g.nodes, k, j)
    {
      if k == Lower(g.nodes[i]) {
        ExactFirst(g.nodes, k, i);
        return Some(g.nodes[i]);
      }
    }
    ExactFirst(g.nodes, k, |g.nodes|);
    for i := 0 to |g.nodes|
      invariant forall j :: 0 <= j < i ==> !SubAt(g.nodes, k, j)
    {
      if Contains(Lower(g.nodes[i]), k) {
        SubFirst(g.nodes, k, i);
        return Some(g.nodes[i]);
      }
    }
    SubFirst(g.nodes, k, |g.nodes|);
    return None;
  }

  // ----- find_closest_tea_node -----

  /** `G.nodes[n].get("type") in ["tea", "category"]` */
  predicate TeaOrCategory(g: Graph, n: string)
  {
    HasType(g, n, "tea") || HasType(g, n, "category")
  }

  /** Node `ns[i]` is a tea or category whose key (not lower-cased) contains `k`. */
  predicate TeaAt(g: Graph, k: string, i: int)
    requires 0 <= i < |g.nodes|
  {
    Contains(g.nodes[i], k) && TeaOrCategory(g, g.nodes[i])
  }

  function TeaFrom(g: Graph, k: string, i: nat): (r: nat)
    requires i <= |g.nodes|
    ensures i <= r <= |g.nodes|
    ensures forall j :: i <= j < r ==> !TeaAt(g, k, j)
    ensures r < |g.nodes| ==> TeaAt(g, k, r)
    decreases |g.nodes| - i
  {
    if i == |g.nodes| then i else if TeaAt(g, k, i) then i else TeaFrom(g, k, i + 1)
  }

  /**
   `find_closest_tea_node(tea_name)`: the first node in insertion order that is a
   tea or a category and whose key contains the lower-cased name, or `None`.
   */
  function ClosestTeaNode(g: Graph, teaName: string): (r: Option<string>)
    ensures r.Some? ==> exists i :: 0 <= i < |g.nodes| && TeaAt(g, Lower(teaName), i) && r.value == g.nodes[i] &&
                                   forall j :: 0 <= j < i ==> !TeaAt(g, Lower(teaName), j)
    ensures r.None? ==> forall i :: 0 <= i < |g.nodes| ==> !TeaAt(g, Lower(teaName), i)
    ensures (forall i :: 0 <= i < |g.nodes| ==> !TeaAt(g, Lower(teaName), i)) ==> r.None?
  {
    var k := Lower(teaName);
    var t := TeaFrom(g, k, 0);
    if t < |g.nodes| then
      assert TeaAt(g, Lower(teaName), t);
      Some(g.nodes[t])
    else None
  }

  /** A resolved tea node is a node of the graph, of type tea or category. */
  lemma ClosestTeaNodeIsTeaOrCategory(g: Graph, teaName: string)
    requires ClosestTeaNode(g, teaName).Some?
    ensures var n := ClosestTeaNode(g, teaName).value;
      n in g.attrs && TeaOrCategory(g, n) && Contains(n, Lower(teaName))
  {
  }
}
