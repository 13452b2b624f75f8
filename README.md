# A verified model of the tea graph

`optimalteatype.py` defines `MyGraph`, an undirected `networkx` graph of teas,
tea categories, tastes and health benefits. `build_graph` fills the graph from a
tea catalog and from rows pairing teas with health benefits. The queries then
read it:

- `find_closest_node` and `find_closest_tea_node` resolve keywords to nodes;
- `recommend_tea_for_health` ranks the teas reachable from a health concern by
  shortest-path length;
- `find_teas` intersects the tea neighbours of several concerns, with an
  optional taste filter;
- `find_shortest_paths` reports shortest paths from a concern to teas or to
  the teas of a category;
- `get_teas_from_category`, `explore_tea_by_characteristic`, `compare_teas`
  and `get_attribute` read one node and its neighbours.

The model has ten modules:

| file | module | what it holds |
|---|---|---|
| `strings.dfy` | `Wrappers`, `Strings` | `Option`; `str.lower`, `str.strip`, `in` on strings, `split(",")` and its inverse `join` |
| `graphs.dfy` | `Graphs` | the part of `networkx.Graph` the program uses: node order, attribute dictionaries merged by `add_node`, neighbour lists in edge order, and the effect of a list of `add_node`/`add_edge` calls (`Apply`) |
| `paths.dfy` | `Paths` | `nx.shortest_path` as a layered breadth-first search, proved to return a shortest walk, or nothing exactly when the target is unreachable |
| `build.dfy` | `Build` | the exact list of calls `build_graph` makes (`BuildOps`) and what the built graph is: its edges, its types, that it stays well formed (no repeated node or neighbour, symmetric edges), that building twice changes nothing |
| `teagraph.dfy` | `TeaGraph` | class `MyGraph` with its field `G`; `BuildGraph` and its loops update `G` in place and are proved to leave it equal to `Apply(old(G), BuildOps(...))` |
| `resolve.dfy` | `Resolve` | `find_closest_node`, `find_closest_tea_node` |
| `lookup.dfy` | `Lookup` | `get_attribute`, `compare_teas`, `get_teas_from_category`, `explore_tea_by_characteristic` |
| `recommend.dfy` | `Recommend` | `recommend_tea_for_health`, with its stable insertion sort and Python's slice |
| `search.dfy` | `Search` | `find_teas` |
| `routes.dfy` | `Routes` | `find_shortest_paths` |

The graph has only one mutable entity, `self.G`. It is the field `G` of class
`TeaGraph.MyGraph`, which the build methods update. The queries never change
the graph, so each one takes the graph value `g` as a parameter. A loop of the source that walks a list is a
`method` with a `for` loop, proved equal to a specification function; lemmas
then state what that function means without the loop. The two loops of
`find_teas` that walk Python sets (`Search.ListOf`, `Search.FilterByTaste`) are
`while` loops over Dafny sets, proved up to membership and the absence of
repeats, because a set's iteration order is not fixed. List comprehensions
(lines 58, 88, 98-99, 202-206, 227-236 and 327-331) are functions.
Printing is left out. `find_shortest_paths` returns nothing in Python and only
prints, so the model returns a list of `Outcome` values, one for each report
it prints.

## Model

| member | source | states |
|---|---|---|
| Strings.LowerIdempotent | optimalteatype.py:117 | lower-casing a lower-cased string changes nothing |
| Strings.ContainsIffOccurs | optimalteatype.py:122 | `sub in s` holds exactly when `sub` occurs in `s` at some index |
| Strings.ContainsSelf | optimalteatype.py:119-122 | every string contains itself, so an exact match is also a substring match |
| Strings.StripSpec | optimalteatype.py:73 | `strip()` returns a slice of the string with only whitespace around it, and the result neither starts nor ends with whitespace |
| Strings.StripIdempotent | optimalteatype.py:73 | stripping twice is stripping once |
| Strings.Split | optimalteatype.py:88 | `split(",")` gives at least one piece, and no piece holds a comma |
| Strings.JoinSplit | optimalteatype.py:88 | joining the pieces of `split(",")` with commas gives back the string |
| Strings.SplitJoin | optimalteatype.py:88 | splitting a comma join of comma-free pieces gives back the pieces |
| Strings.Tokens | optimalteatype.py:88 | one stripped piece for each piece of `split(",")`, at the same position |
| Strings.NormTokens | optimalteatype.py:98-99 | one stripped, lower-cased piece for each piece of `split(",")`, at the same position |
| Graphs.AddNodeG | optimalteatype.py:74-83 | `add_node`: a new key goes at the end of the node order with the given attributes; an existing key keeps its place and gets the new attributes merged over its old ones |
| Graphs.AddNodeKeepsEdges | optimalteatype.py:74-83 | `add_node` keeps the graph well formed and changes no neighbour list |
| Graphs.EnsureNode | optimalteatype.py:84 | an endpoint of `add_edge` that is not a node yet is appended with no attributes |
| Graphs.AddEdgeWellFormed | optimalteatype.py:84 | `add_edge(u, v)`: afterwards the edges are the old ones plus u–v in both directions; `v` is appended to `u`'s neighbour list unless already there; an existing edge leaves the graph unchanged; the graph stays well formed |
| Graphs.ApplyWellFormed | optimalteatype.py:71-105 | any sequence of `add_node`/`add_edge` calls keeps the graph well formed: distinct nodes, one entry per node in the attribute and neighbour maps, no repeated neighbour, symmetric edges (a self-loop is allowed) |
| Graphs.ApplyEdges | optimalteatype.py:71-105 | after a sequence of calls, `x`–`y` is an edge exactly when it was one before or some `add_edge` call named it, in either direction |
| Graphs.ApplyNodeSet | optimalteatype.py:71-105 | after a sequence of calls, the nodes are the old ones and every node some call names |
| Graphs.ApplyKeepsNodeOrder | optimalteatype.py:71-105 | the nodes already present keep their positions, and new nodes come after them |
| Graphs.ApplyAttrs | optimalteatype.py:71-105 | every node's attributes are its old ones with the attributes each call gives it merged over them in call order |
| Graphs.ApplyIdempotent | optimalteatype.py:71-105 | making the same calls a second time leaves the graph as it was |
| Graphs.ApplyTyped | optimalteatype.py:71-105 | when every node the calls name gets a `type` from some call, a typed graph stays typed |
| Build.BuildEdges | optimalteatype.py:71-105 | `build_graph` edges: an edge exists afterwards exactly when it existed before, or a catalog tea joins it to its category, a taste token or a benefit, or an association row lists its tea and its benefit (either direction) |
| Build.BuildWellFormed | optimalteatype.py:60-105 | the built graph is well formed |
| Build.BuildTwice | optimalteatype.py:60-105 | building again from the same inputs changes no node, no order, no edge and no attribute |
| Build.BuildTyped | optimalteatype.py:60-105 | every node of the built graph has a `type` when every node before did |
| Build.RowOnlyNode | optimalteatype.py:101-105 | a node that only the association rows create has the `type` attribute and nothing else |
| Build.RowOnlyTea | optimalteatype.py:97-105 | a node that only the association rows create, that some row lists as a tea and no row lists as a benefit, is a node whose attributes are exactly `type="tea"` |
| Build.RowsKeepAttributes | optimalteatype.py:97-105 | the association pass changes no attribute other than `type` of a node that already exists, and keeps the node order |
| Build.TeaOpsEdge | optimalteatype.py:76-95 | the edges one catalog tea adds: category–tea, tea–taste token, tea–benefit |
| Build.RowTeasOpsEdge | optimalteatype.py:101-105 | one row joins every tea token to every benefit token and nothing else |
| Build.CatalogOpsTyped | optimalteatype.py:71-95 | every node the catalog pass names is given a `type` by that pass |
| Build.RowsOpsTyped | optimalteatype.py:97-105 | every node the association pass names is given a `type` by that pass |
| TeaGraph.MyGraph.constructor | optimalteatype.py:17-21 | a new `MyGraph` holds the empty graph |
| TeaGraph.MyGraph.AddFlavors | optimalteatype.py:88-90 | the taste loop makes exactly one `taste` node and one tea–taste edge for each token, in order |
| TeaGraph.MyGraph.AddBenefits | optimalteatype.py:92-95 | the benefit loop makes exactly one normalised `health` node and one tea–benefit edge for each benefit, in order |
| TeaGraph.MyGraph.AddTea | optimalteatype.py:76-95 | one catalog tea: its node with default attributes, its category edge, then its tastes and benefits |
| TeaGraph.MyGraph.AddCategory | optimalteatype.py:72-95 | an entry without `types` changes nothing; otherwise its category node, then each of its teas |
| TeaGraph.MyGraph.AddCatalog | optimalteatype.py:71-95 | the catalog pass makes the calls of every entry, in the catalog's order |
| TeaGraph.MyGraph.AddRowPairs | optimalteatype.py:103-105 | one `health` node and one edge from the tea to each benefit of the row |
| TeaGraph.MyGraph.AddRowTeas | optimalteatype.py:101-105 | each row tea is re-added with `type="tea"` and then joined to every benefit |
| TeaGraph.MyGraph.AddRow | optimalteatype.py:98-105 | one row: both cells split on commas and normalised, then the cross product |
| TeaGraph.MyGraph.AddRows | optimalteatype.py:97-105 | the association pass makes the calls of every row, in order |
| TeaGraph.MyGraph.BuildGraph | optimalteatype.py:60-105 | `build_graph` leaves `G` equal to the old graph after the calls of the catalog pass and then the association pass, and keeps `G` well formed |
| Resolve.ExactFrom | optimalteatype.py:118-120 | the index of the first node at or after `i` whose lower-cased key is the keyword, or the end when there is none |
| Resolve.SubFrom | optimalteatype.py:121-123 | the index of the first node at or after `i` whose lower-cased key contains the keyword, or the end when there is none |
| Resolve.FindClosestNode | optimalteatype.py:107-124 | the two scans return `ClosestNode`: the first exact match, else the first substring match, else `None` |
| Resolve.ClosestNodeExact | optimalteatype.py:117-120 | the first node whose lower-cased key equals the lower-cased keyword is returned, even when an earlier node contains the keyword |
| Resolve.ClosestNodeSub | optimalteatype.py:121-123 | with no exact match, the first node whose lower-cased key contains the keyword is returned |
| Resolve.ClosestNodeNone | optimalteatype.py:117-124 | `None` exactly when no lower-cased key contains the lower-cased keyword |
| Resolve.ClosestNodeIsNode | optimalteatype.py:117-124 | a resolved keyword is a node of the graph |
| Resolve.TeaFrom | optimalteatype.py:137-142 | the index of the first tea or category node at or after `i` whose key contains the name, or the end |
| Resolve.ClosestTeaNode | optimalteatype.py:126-143 | the first node, in node order, that is a tea or a category and whose key (not lower-cased) contains the lower-cased name; `None` exactly when there is none |
| Resolve.ClosestTeaNodeIsTeaOrCategory | optimalteatype.py:137-143 | a resolved tea name is a node of type tea or category whose key contains the lower-cased name |
| Lookup.GetAttribute | optimalteatype.py:294-309 | "Node not found" for a key that is not a node; otherwise the attribute's value, or "Attribute not found" when the node lacks it |
| Lookup.RowOnlyNodeAttribute | optimalteatype.py:101-105 | in a built graph, a node that only association rows create answers "Attribute not found" for every attribute except `type` |
| Lookup.CatalogNodeAttribute | optimalteatype.py:97-105 | in a built graph, a node the catalog created answers every attribute except `type` as it did after the catalog pass |
| Lookup.CompareTeasSpec | optimalteatype.py:262-292 | `compare_teas` returns the pair of the two resolved teas' attribute values, both nodes of type tea or category and neither value "N/A"; it returns `None` exactly when a name does not resolve to a non-empty key or a value is "N/A" |
| Lookup.CompareTeasSwap | optimalteatype.py:274-292 | swapping the two teas swaps the two values |
| Lookup.TeasIn | optimalteatype.py:202-206 | the tea-typed members of a list: a member is kept exactly when it is a tea; no repeats come in from a repeat-free list |
| Lookup.TeasInAppend | optimalteatype.py:202-206 | the filter keeps order: filtering a concatenation is concatenating the filtered pieces |
| Lookup.GetTeasFromCategory | optimalteatype.py:189-207 | a node is listed exactly when the name resolves to a category and the node is a tea neighbour of it; no tea is listed twice |
| Lookup.Matches | optimalteatype.py:222-236 | every collected pair holds a non-empty list: exactly the tea neighbours of its node |
| Lookup.MatchesMembers | optimalteatype.py:222-236 | a node is collected exactly when it is a characteristic for the keyword with at least one tea neighbour |
| Lookup.FlattenMatches | optimalteatype.py:242-245 | the second loop concatenates the collected tea lists, in order |
| Lookup.FlattenMembers | optimalteatype.py:242-245 | a tea is in the concatenation exactly when it is in one of the collected lists |
| Lookup.ExploreTeaByCharacteristic | optimalteatype.py:209-247 | the method returns `ExploreSpec`: `None` when nothing was collected, otherwise the concatenated tea lists |
| Lookup.ExploreNone | optimalteatype.py:238-240 | `None` exactly when no characteristic node matching the keyword has a tea neighbour |
| Lookup.ExploreMember | optimalteatype.py:242-247 | otherwise a tea is listed exactly when it is adjacent to some matching characteristic node |
| Lookup.ExploreCount | optimalteatype.py:227-247 | in a well-formed graph each tea is listed as many times as there are matching characteristic nodes adjacent to it |
| Paths.ExpandLayerFacts | optimalteatype.py:44 | expanding one layer of the search keeps every path found, reaches every neighbour of the layer, and gives each new node a walk one edge longer |
| Paths.LayeredStep | optimalteatype.py:44 | one layer of the search keeps its invariant one step further out: every found path is a shortest walk, and every node within that distance is found |
| Paths.ExploreFacts | optimalteatype.py:44 | the finished search finds exactly the reachable nodes, each with a walk from the source that no other walk is shorter than |
| Paths.ShortestPathFacts | optimalteatype.py:44 | `shortest_path` returns a walk from the source to the target with no shorter walk, and returns one exactly when the target is reachable |
| Recommend.Visit | optimalteatype.py:42-47 | one loop step appends at most one pair, for the node it visits |
| Recommend.CollectCandidates | optimalteatype.py:40-47 | the first loop collects `Cands`: each tea with a shortest path from the concern, in node order |
| Recommend.CandsSound | optimalteatype.py:40-47 | every collected pair is the one its own node's step appends |
| Recommend.VisitSound | optimalteatype.py:42-47 | a pair appended for a node is that node, a tea, with its shortest path |
| Recommend.CandsComplete | optimalteatype.py:40-47 | every reachable tea of the visited nodes is collected with its shortest path |
| Recommend.CandsInOrder | optimalteatype.py:40-47 | the collected pairs are in strictly increasing node order |
| Recommend.Insert | optimalteatype.py:49 | insertion adds exactly one element: the result is a permutation of the list plus the element |
| Recommend.SortByLength | optimalteatype.py:49 | the sort returns a permutation of its input |
| Recommend.InsertSorted | optimalteatype.py:49 | inserting an element later in node order than every element keeps the list sorted by length, ties in node order |
| Recommend.SortSorted | optimalteatype.py:49 | the sort is stable: a list in node order comes out sorted by path length, ties in node order |
| Recommend.Take | optimalteatype.py:55-58 | Python's slice `s[:m]`: a prefix of `s` of length `m` clamped to the list, and for negative `m` the list without its last `-m` elements |
| Recommend.TeaNames | optimalteatype.py:58 | the tea names of the pairs, position by position |
| Recommend.RecommendSpec | optimalteatype.py:23-58 | no more than `max_results` names when it is non-negative |
| Recommend.RecommendTeaForHealth | optimalteatype.py:23-58 | the method returns `RecommendSpec`: nothing unless the concern resolves to a health node, else the tea names of the first `max_results` ranked pairs |
| Recommend.RankingMember | optimalteatype.py:40-49 | every ranked pair is a tea of the graph, reachable from the concern, with its shortest path, at distance one less than the path's node count |
| Recommend.RankingComplete | optimalteatype.py:40-49 | every tea reachable from the concern is ranked, with its shortest path |
| Recommend.RankingSorted | optimalteatype.py:40-49 | the ranking is sorted by path length, ties in node insertion order |
| Recommend.RecommendOrdered | optimalteatype.py:23-58 | the result is empty unless the concern resolves to a health node; every name is a tea reachable from it; each name is closer than the next, or as close and inserted earlier (so no name repeats) |
| Recommend.OutsidePrefix | optimalteatype.py:55-58 | an element of a sorted list that is outside a prefix comes after it, and no element of the prefix has a longer path |
| Recommend.RecommendComplete | optimalteatype.py:49-58 | top-k: a reachable tea that is left out is no closer than any recommended tea, and with a non-negative `max_results` it is left out only when the list is full |
| Search.TeaSet | optimalteatype.py:327-331 | the set of tea neighbours of a node |
| Search.ConcernSets | optimalteatype.py:325-332 | one concern adds a set exactly when it resolves to a health node, and that set is the health node's tea neighbours |
| Search.Intersect | optimalteatype.py:338 | `set.intersection`: the elements in every set of the list |
| Search.Matching | optimalteatype.py:343-348 | the common teas whose lower-cased taste contains the lower-cased preference |
| Search.ListOf | optimalteatype.py:359-366 | `list(s)`: each element of the set exactly once |
| Search.FilterByTaste | optimalteatype.py:344-348 | the taste loop lists each matching common tea exactly once |
| Search.FindTeas | optimalteatype.py:311-366 | the method returns, without repeats, exactly the members of `FindTeasSpec` |
| Search.TeaSetsEmpty | optimalteatype.py:323-336 | no set is collected exactly when no concern resolves to a health node |
| Search.TeaSetsAll | optimalteatype.py:323-338 | a tea is in every collected set exactly when it is adjacent to the health node of every concern that resolves |
| Search.TeaSetsMember | optimalteatype.py:323-332 | every collected set is the tea-neighbour set of some node |
| Search.FindTeasMeaning | optimalteatype.py:334-366 | nothing when no concern resolves; every result is a tea adjacent to every resolved concern; every such tea is a result when some concern resolves and the taste does not exclude it; a result whose taste does not match means no result matches; and when a taste is given but no tea adjacent to every resolved concern matches it, every such tea is a result (the fallback) |
| Routes.TypedReadable | optimalteatype.py:199-200 | in a graph where every node has a type, every option's category can be expanded without a `KeyError` |
| Routes.PathStep | optimalteatype.py:176-184 | one target gives at most one report, for that target |
| Routes.Outcomes | optimalteatype.py:163-187 | one outcome for each option |
| Routes.FindShortestPaths | optimalteatype.py:145-187 | the method returns `FindShortestPathsSpec`: `None` when the concern does not resolve to a non-empty key, else each option's outcome in order |
| Routes.OptionPaths | optimalteatype.py:164-187 | the body of the option loop produces that option's outcome |
| Routes.TryTargets | optimalteatype.py:175-185 | the target loop reports, in order, each target that is a node with a path from the concern |
| Routes.PathsToSound | optimalteatype.py:176-184 | every reported path is the shortest path to one of the targets |
| Routes.PathsToComplete | optimalteatype.py:176-184 | every target that is a node reachable from the concern has its shortest path reported |
| Routes.NoPathIff | optimalteatype.py:186-187 | "No path between" is printed exactly when no target is a node reachable from the concern |
| Routes.OptionOutcomeMeaning | optimalteatype.py:163-187 | a category option reports "No teas found in category" exactly when its re-resolved category has no tea neighbour; an option that does not resolve tries nothing; a category with tea neighbours reports the shortest paths to those teas, and no path exactly when none of them is reachable; any other option reports no path exactly when its node is unreachable |

## Left out

- `visualize_graph`, `visualize_shortest_path` and `visualize_shortest_path_between_teas` are not modelled. They only draw, with a floating-point layout.
- `list_all_teas` and the interactive `main()` menu are not modelled. They only print and read console input.
- The `TeaBenefits` and `TeaTypes` readers are not modelled. They read CSV and JSON files. `build_graph` takes the parsed values: a `Catalog` in dictionary order and a list of `Row`s.
- Recommend.SortByLength: `recommended_teas.sort(...)` sorts the Python list in place. The model sorts a sequence value and assigns the result back, so aliasing of that list is not captured. No other code holds the list.
- JSON values other than strings are not modelled, including `null` fields. An optional `TeaData` field stands for a key that is present with a string value, or absent.
- Printing is not modelled. `recommend_tea_for_health`, `find_teas` and `compare_teas` return what the source returns. `find_shortest_paths` returns the reports it would print, as `Outcome` values.
- Paths.ShortestPathFacts: when several shortest paths exist, `networkx` may return a different one from the one this breadth-first search finds. Both have the same length, so the ranking and the names `recommend_tea_for_health` returns are unaffected. Only the path printed by `find_shortest_paths` may differ.
- Search.FindTeas: the order of `list(common_teas)` and of iteration over a Python set depends on hashing. The model states the result's members and that none repeats, not its order.
- Recommend.RecommendTeaForHealth: Dafny has no default arguments, so `max_results` is an explicit parameter. The source's only caller (line 636) relies on the default, which corresponds to passing 5.
- Strings.Lower: `str.lower()` is modelled for ASCII letters only. Other characters are left unchanged. `str.title()` appears only in printed text and is not modelled.
- Lookup.GetTeasFromCategory: `G.nodes[n]["type"]` (line 200) raises `KeyError` on a node without a `type`. The model makes that a precondition (`TypeReadable`) and proves that every graph `build_graph` makes from a typed graph meets it (`Build.BuildTyped`, `Routes.TypedReadable`).
- Build: an empty or whitespace-only piece of a `tasteDescription` still gets a `taste` node, keyed `""` (lines 88-90), and the model does the same.
- Build: a row without a "Tea Type" or "Health Benefit" cell raises `KeyError` (lines 98-99). The model's `Row` type always holds both cells, so that case does not arise.
- Routes.FindShortestPaths: the concern only has to resolve to a non-empty key (line 159). Its type is not checked, so a concern that resolves to a tea or a taste node is searched from as well, and the model does the same.
- `networkx` raises `NodeNotFound` for a source or target that is not a node. The source never calls `shortest_path` that way: every call has a resolved node as source, and the targets are nodes or are filtered by `in self.G`. The model's `ShortestPath` accordingly requires its source to be a node.
