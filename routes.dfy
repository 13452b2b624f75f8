/**
 `find_shortest_paths`: for each tea option, the shortest paths from the resolved
 health concern to the option's tea (or to every tea of the option's category).
 The source prints what it finds and returns nothing; the model returns the
 printed findings, one `Outcome` per option, or `None` for the early return when
 the concern does not resolve.
 */
module Routes {
  import opened Wrappers
  import opened Strings
  import opened Graphs
  import opened Paths
  import opened Resolve
  import opened Lookup

  /**
   What is printed for one option: "No teas found in category" (`EmptyCategory`),
   or one line per path found, where an empty `paths` is "No path between".
   */
  datatype Outcome = EmptyCategory(category: string) | Reached(paths: seq<(string, seq<string>)>)

  /**
   The option's category, if it resolves to one, can be expanded: the source's
   `get_teas_from_category` reads a `type` with `[...]`.
   */
  predicate OptionReadable(g: Graph, tea: string)
  {
    var n := ClosestTeaNode(g, tea);
    Truthy(n) && HasType(g, n.value, "category") ==> TypeReadable(g, ClosestNode(g, n.value))
  }

  /** In a graph where every node has a type, every option can be expanded. */
  lemma TypedReadable(g: Graph, tea: string)
    requires WellFormed(g) && Typed(g)
    ensures OptionReadable(g, tea)
  {
    var n := ClosestTeaNode(g, tea);
    if Truthy(n) && HasType(g, n.value, "category") && ClosestNode(g, n.value).Some? {
      ClosestNodeIsNode(g, n.value);
    }
  }

  /** What the inner loop prints for target `t`: its path, if `t` is a node reachable from `h`. */
  function PathStep(g: Graph, h: string, t: string): (r: seq<(string, seq<string>)>)
    requires WellFormed(g) && h in g.attrs
    ensures |r| <= 1 && forall e :: e in r ==> e.0 == t
  {
    if t in g.attrs && ShortestPath(g, h, t).Some? then [(t, ShortestPath(g, h, t).value)] else []
  }

  /** The paths the inner loop prints for the targets `ts`, in order. */
  function PathsTo(g: Graph, h: string, ts: seq<string>): seq<(string, seq<string>)>
    requires WellFormed(g) && h in g.attrs
  {
    if ts == [] then [] else PathsTo(g, h, ts[..|ts| - 1]) + PathStep(g, h, ts[|ts| - 1])
  }

  /** What is printed for option `tea`. */
  function OptionOutcome(g: Graph, h: string, tea: string): Outcome
    requires WellFormed(g) && h in g.attrs && OptionReadable(g, tea)
  {
    var n := ClosestTeaNode(g, tea);
    if Truthy(n) && HasType(g, n.value, "category") then
      var ts := GetTeasFromCategory(g, n.value);
      if ts == [] then EmptyCategory(n.value) else Reached(PathsTo(g, h, ts))
    else Reached(PathsTo(g, h, if n.Some? then [n.value] else []))
  }

  /** The outcomes of the options `opts`, in order. */
  function Outcomes(g: Graph, h: string, opts: seq<string>): (r: seq<Outcome>)
    requires WellFormed(g) && h in g.attrs
    requires forall i :: 0 <= i < |opts| ==> OptionReadable(g, opts[i])
    ensures |r| == |opts|
  {
    if opts == [] then [] else Outcomes(g, h, opts[..|opts| - 1]) + [OptionOutcome(g, h, opts[|opts| - 1])]
  }

  /** What `find_shortest_paths(health_concern, tea_options)` reports. */
  function FindShortestPathsSpec(g: Graph, concern: string, opts: seq<string>): Option<seq<Outcome>>
    requires WellFormed(g)
    requires forall i :: 0 <= i < |opts| ==> OptionReadable(g, opts[i])
  {
    var h := ClosestNode(g, concern);
    if !Truthy(h) then None
    else
      ClosestNodeIsNode(g, concern);
      Some(Outcomes(g, h.value, opts))
  }

  /**
   `find_shortest_paths(health_concern, tea_options)`: resolve the concern, then
   for each option resolve it with `find_closest_tea_node`, expand a category into
   its teas, and try a shortest path to each target that is a node.
   */
  method FindShortestPaths(g: Graph, concern: string, opts: seq<string>) returns (r: Option<seq<Outcome>>)
    requires WellFormed(g)
    requires forall i :: 0 <= i < |opts| ==> OptionReadable(g, opts[i])
    ensures r == FindShortestPathsSpec(g, concern, opts)
  {
    var h := FindClosestNode(g, concern);
    if !Truthy(h) {
      return None;
    }
    ClosestNodeIsNode(g, concern);
    var outcomes: seq<Outcome> := [];
    for i := 0 to |opts|
      invariant outcomes == Outcomes(g, h.value, opts[..i])
    {
      assert opts[..i + 1][..i] == opts[..i];
      var o := OptionPaths(g, h.value, opts[i]);
      outcomes := outcomes + [o];
    }
    assert opts[..|opts|] == opts;
    return Some(outcomes);
  }

  /** The body of the loop over `tea_options`, for one option. */
  method OptionPaths(g: Graph, h: string, tea: string) returns (o: Outcome)
    requires WellFormed(g) && h in g.attrs && OptionReadable(g, tea)
    ensures o == OptionOutcome(g, h, tea)
  {
    var teaNode := ClosestTeaNode(g, tea);
    var teaNodes: seq<string>;
    if Truthy(teaNode) && HasType(g, teaNode.value, "category") {
      teaNodes := GetTeasFromCategory(g, teaNode.value);
      if teaNodes == [] {
        return EmptyCategory(teaNode.value);
      }
    } else {
      teaNodes := if teaNode.Some? then [teaNode.value] else [];
    }
    var paths := TryTargets(g, h, teaNodes);
    return Reached(paths);
  }

  /** The loop over the targets of one option, trying a shortest path to each. */
  method TryTargets(g: Graph, h: string, teaNodes: seq<string>) returns (paths: seq<(string, seq<string>)>)
    requires WellFormed(g) && h in g.attrs
    ensures paths == PathsTo(g, h, teaNodes)
  {
    paths := [];
    var foundPath := false;
    for j := 0 to |teaNodes|
      invariant paths == PathsTo(g, h, teaNodes[..j])
      invariant foundPath <==> paths != []
    {
      assert teaNodes[..j + 1][..j] == teaNodes[..j];
      var actualTea := teaNodes[j];
      if actualTea in g.attrs {
        var path := ShortestPath(g, h, actualTea);
        if path.Some? {
          paths := paths + [(actualTea, path.value)];
          foundPath := true;
        }
      }
      assert paths == PathsTo(g, h, teaNodes[..j]) + PathStep(g, h, actualTea);
    }
    assert teaNodes[..|teaNodes|] == teaNodes;
  }

  // ----- What the report means -----

  /** Every printed path is a shortest path to one of the targets. */
  lemma {:induction false} PathsToSound(g: Graph, h: string, ts: seq<string>, k: int)
    requires WellFormed(g) && h in g.attrs && 0 <= k < |PathsTo(g, h, ts)|
    ensures var e := PathsTo(g, h, ts)[k];
      e.0 in ts && ShortestPath(g, h, e.0) == Some(e.1)
  {
    var init := ts[..|ts| - 1];
    var ps, pi := PathsTo(g, h, ts), PathsTo(g, h, init);
    assert ts == init + [ts[|ts| - 1]];
    if k < |pi| {
      PathsToSound(g, h, init, k);
      assert ps[k] == pi[k];
    }
  }

  /** Every target that is a node reachable from the concern gets its path printed. */
  lemma {:induction false} PathsToComplete(g: Graph, h: string, ts: seq<string>, t: string)
    requires WellFormed(g) && h in g.attrs
    requires t in ts && t in g.attrs && Reachable(g, h, t)
    ensures ShortestPath(g, h, t).Some? && (t, ShortestPath(g, h, t).value) in PathsTo(g, h, ts)
  {
    ShortestPathFacts(g, h, t);
    var init := ts[..|ts| - 1];
    assert ts == init + [ts[|ts| - 1]];
    if t != ts[|ts| - 1] {
      PathsToComplete(g, h, init, t);
    }
  }

  /** "No path between" is printed exactly when no target is reachable from the concern. */
  lemma NoPathIff(g: Graph, h: string, ts: seq<string>)
    requires WellFormed(g) && h in g.attrs
    ensures PathsTo(g, h, ts) == [] <==> forall t :: t in ts && t in g.attrs ==> !Reachable(g, h, t)
  {
    if PathsTo(g, h, ts) != [] {
      PathsToSound(g, h, ts, 0);
      ShortestPathFacts(g, h, PathsTo(g, h, ts)[0].0);
    }
    forall t | t in ts && t in g.attrs && Reachable(g, h, t) ensures PathsTo(g, h, ts) != [] {
      PathsToComplete(g, h, ts, t);
    }
  }

  /**
   The outcome of one option: when it resolves to a category, "No teas found in
   category" exactly when the re-resolved category has no tea neighbour, and
   otherwise paths to those teas, an empty list exactly when none of them is
   reachable; any other option is tried as a single target,
   and nothing is tried when it does not resolve.
   */
  lemma OptionOutcomeMeaning(g: Graph, h: string, tea: string)
    requires WellFormed(g) && h in g.attrs && OptionReadable(g, tea)
    ensures var n, o := ClosestTeaNode(g, tea), OptionOutcome(g, h, tea);
      && (o.EmptyCategory? <==>
            Truthy(n) && HasType(g, n.value, "category") &&
            forall x :: !(Truthy(ClosestNode(g, n.value)) && HasType(g, ClosestNode(g, n.value).value, "category") &&
                          Edge(g, ClosestNode(g, n.value).value, x) && HasType(g, x, "tea")))
      && (o.EmptyCategory? ==> o.category == n.value)
      && (n.None? ==> o == Reached([]))
      && (n.Some? && !(Truthy(n) && HasType(g, n.value, "category")) ==>
            (o == Reached([]) <==> !Reachable(g, h, n.value)))
      && (Truthy(n) && HasType(g, n.value, "category") && GetTeasFromCategory(g, n.value) != [] ==>
            && o == Reached(PathsTo(g, h, GetTeasFromCategory(g, n.value)))
            && (o == Reached([]) <==> forall t :: t in GetTeasFromCategory(g, n.value) ==> !Reachable(g, h, t)))
  {
    var n := ClosestTeaNode(g, tea);
    if Truthy(n) && HasType(g, n.value, "category") {
      var ts := GetTeasFromCategory(g, n.value);
      if ts != [] {
        assert ts[0] in ts;
        NoPathIff(g, h, ts);
        forall t | t in ts ensures t in g.attrs {
          assert HasType(g, t, "tea");
        }
      }
    } else if n.Some? {
      ClosestTeaNodeIsTeaOrCategory(g, tea);
      NoPathIff(g, h, [n.value]);
    }
  }
}
