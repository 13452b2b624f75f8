/**
 The calls `build_graph` makes, as a list of `add_node`/`add_edge` operations,
 and what the graph looks like after them: which edges it gains, that every
 node it names gets a `type`, and that a second build changes nothing.
 */
module Build {
  import opened Wrappers
  import opened Strings
  import opened Graphs

  /** One record of a category's `types` dictionary; `None` for a key the record lacks. */
  datatype TeaData = TeaData(
    name: Option<string>,
    caffeine: Option<string>,
    origin: Option<string>,
    tasteDescription: Option<string>,
    healthBenefits: Option<seq<string>>)

  /** A value of the catalog: a dictionary holding a `types` dictionary, or anything else. */
  datatype CategoryInfo = Types(types: seq<(string, TeaData)>) | Other

  /** The catalog dictionary, in its key order. */
  type Catalog = seq<(string, CategoryInfo)>

  /** One association row: its "Tea Type" and "Health Benefit" cells. */
  datatype Row = Row(teaType: string, healthBenefit: string)

  /** The attributes `type=t`. */
  function Kind(t: string): Attrs
  {
    map["type" := t]
  }

  /** `d.get(key, default)` for an optional string. */
  function OrElse(o: Option<string>, default: string): string
  {
    if o.Some? then o.value else default
  }

  /** The node key of a catalog tea: its `name`, or else its key, stripped and lower-cased. */
  function TeaName(key: string, d: TeaData): string
  {
    Norm(OrElse(d.name, key))
  }

  /** The attributes a catalog tea is added with. */
  function TeaAttrs(d: TeaData): Attrs
  {
    map["type" := "tea",
        "caffeine" := OrElse(d.caffeine, "N/A"),
        "origin" := OrElse(d.origin, "Unknown"),
        "taste" := OrElse(d.tasteDescription, "N/A")]
  }

  /** The taste nodes of a tea: the stripped comma pieces of a non-empty `tasteDescription`. */
  function Flavors(d: TeaData): seq<string>
  {
    if d.tasteDescription.Some? && d.tasteDescription.value != "" then Tokens(d.tasteDescription.value) else []
  }

  /** `tea_data.get("healthBenefits", [])` */
  function RawBenefits(d: TeaData): seq<string>
  {
    if d.healthBenefits.Some? then d.healthBenefits.value else []
  }

  /** The health nodes of a catalog tea. */
  function Benefits(d: TeaData): seq<string>
  {
    MapNorm(RawBenefits(d))
  }

  // ----- The operations, in the order `build_graph` calls them -----

  /** One taste node and its edge to tea `t` per flavour. */
  function FlavorOps(t: string, fs: seq<string>): seq<Op>
  {
    if fs == [] then []
    else FlavorOps(t, fs[..|fs| - 1]) + [NodeOp(fs[|fs| - 1], Kind("taste")), EdgeOp(t, fs[|fs| - 1])]
  }

  /** A catalog tea of category `c`: its node, its category edge, its flavours and its benefits. */
  function TeaOps(c: string, key: string, d: TeaData): seq<Op>
  {
    var t := TeaName(key, d);
    [NodeOp(t, TeaAttrs(d)), EdgeOp(c, t)] + FlavorOps(t, Flavors(d)) + PairOps(t, Benefits(d))
  }

  /** The operations `f` gives each element of `xs`, one element after another. */
  function ConcatMap<T>(f: T --> seq<Op>, xs: seq<T>): seq<Op>
    requires forall i :: 0 <= i < |xs| ==> f.requires(xs[i])
  {
    if xs == [] then [] else ConcatMap(f, xs[..|xs| - 1]) + f(xs[|xs| - 1])
  }

  function TeasOps(c: string, ts: seq<(string, TeaData)>): seq<Op>
  {
    ConcatMap((e: (string, TeaData)) => TeaOps(c, e.0, e.1), ts)
  }

  /** A catalog entry: nothing unless it has `types`; else the category node and its teas. */
  function EntryOps(cat: string, info: CategoryInfo): seq<Op>
  {
    if info.Types? then [NodeOp(Norm(cat), Kind("category"))] + TeasOps(Norm(cat), info.types) else []
  }

  function CatalogOps(cs: Catalog): seq<Op>
  {
    ConcatMap((e: (string, CategoryInfo)) => EntryOps(e.0, e.1), cs)
  }

  /** The health nodes `bs` of a row, each joined to tea `t`. */
  function PairOps(t: string, bs: seq<string>): seq<Op>
  {
    if bs == [] then []
    else PairOps(t, bs[..|bs| - 1]) + [NodeOp(bs[|bs| - 1], Kind("health")), EdgeOp(t, bs[|bs| - 1])]
  }

  /** Each tea of a row re-added with `type="tea"`, then joined to every benefit of the row. */
  function RowTeasOps(ts: seq<string>, bs: seq<string>): seq<Op>
  {
    if ts == [] then []
    else RowTeasOps(ts[..|ts| - 1], bs) + [NodeOp(ts[|ts| - 1], Kind("tea"))] + PairOps(ts[|ts| - 1], bs)
  }

  function RowOps(row: Row): seq<Op>
  {
    RowTeasOps(NormTokens(row.teaType), NormTokens(row.healthBenefit))
  }

  function RowsOps(rows: seq<Row>): seq<Op>
  {
    ConcatMap((r: Row) => RowOps(r), rows)
  }

  /** Every call of `build_graph(data, benefit_data)`, in order. */
  function BuildOps(cs: Catalog, rows: seq<Row>): seq<Op>
  {
    CatalogOps(cs) + RowsOps(rows)
  }

  // ----- The edges the build adds, stated without the operation lists -----

  /** The edges one catalog tea of category `c` contributes, from the left endpoint. */
  ghost predicate TeaEdge(c: string, key: string, d: TeaData, x: string, y: string)
  {
    var t := TeaName(key, d);
    (x == c && y == t) || (x == t && y in Flavors(d)) || (x == t && y in Benefits(d))
  }

  /** Some tea of some category of the catalog contributes the edge from `x` to `y`. */
  ghost predicate CatalogEdge(cs: Catalog, x: string, y: string)
  {
    exists i :: 0 <= i < |cs| && EntryEdge(cs[i], x, y)
  }

  /** Tea `x` and benefit `y` are listed in the same association row. */
  ghost predicate RowEdge(rows: seq<Row>, x: string, y: string)
  {
    exists i :: 0 <= i < |rows| && InRow(rows[i], x, y)
  }

  lemma {:induction false} FlavorOpsEdge(t: string, fs: seq<string>, x: string, y: string)
    ensures EdgeOp(x, y) in FlavorOps(t, fs) <==> x == t && y in fs
  {
    if fs != [] {
      FlavorOpsEdge(t, fs[..|fs| - 1], x, y);
      assert fs == fs[..|fs| - 1] + [fs[|fs| - 1]];
    }
  }

  lemma TeaOpsEdge(c: string, key: string, d: TeaData, x: string, y: string)
    ensures EdgeOp(x, y) in TeaOps(c, key, d) <==> TeaEdge(c, key, d, x, y)
  {
    FlavorOpsEdge(TeaName(key, d), Flavors(d), x, y);
    PairOpsEdge(TeaName(key, d), Benefits(d), x, y);
  }

  /** Some tea of `ts`, in category `c`, contributes the edge from `x` to `y`. */
  ghost predicate TeasEdge(c: string, ts: seq<(string, TeaData)>, x: string, y: string)
  {
    exists j :: 0 <= j < |ts| && TeaEdge(c, ts[j].0, ts[j].1, x, y)
  }

  lemma {:induction false} ConcatMapMember<T>(f: T --> seq<Op>, xs: seq<T>, op: Op)
    requires forall i :: 0 <= i < |xs| ==> f.requires(xs[i])
    ensures op in ConcatMap(f, xs) <==> exists j :: 0 <= j < |xs| && op in f(xs[j])
  {
    if xs != [] {
      var init := xs[..|xs| - 1];
      ConcatMapMember(f, init, op);
      if j :| 0 <= j < |xs| && op in f(xs[j]) {
        if j < |init| {
          assert init[j] == xs[j];
        }
      }
      if j :| 0 <= j < |init| && op in f(init[j]) {
        assert init[j] == xs[j];
      }
    }
  }

  lemma TeasOpsEdge(c: string, ts: seq<(string, TeaData)>, x: string, y: string)
    ensures EdgeOp(x, y) in TeasOps(c, ts) <==> TeasEdge(c, ts, x, y)
  {
    var f := (e: (string, TeaData)) => TeaOps(c, e.0, e.1);
    ConcatMapMember(f, ts, EdgeOp(x, y));
    if j :| 0 <= j < |ts| && EdgeOp(x, y) in f(ts[j]) {
      TeaOpsEdge(c, ts[j].0, ts[j].1, x, y);
    }
    if TeasEdge(c, ts, x, y) {
      var j :| 0 <= j < |ts| && TeaEdge(c, ts[j].0, ts[j].1, x, y);
      TeaOpsEdge(c, ts[j].0, ts[j].1, x, y);
      assert EdgeOp(x, y) in f(ts[j]);
    }
  }

  /** Entry `e` of the catalog contributes the edge from `x` to `y`. */
  ghost predicate EntryEdge(e: (string, CategoryInfo), x: string, y: string)
  {
    e.1.Types? && TeasEdge(Norm(e.0), e.1.types, x, y)
  }

  lemma EntryOpsEdge(e: (string, CategoryInfo), x: string, y: string)
    ensures EdgeOp(x, y) in EntryOps(e.0, e.1) <==> EntryEdge(e, x, y)
  {
    if e.1.Types? {
      TeasOpsEdge(Norm(e.0), e.1.types, x, y);
    }
  }

  lemma CatalogOpsEdge(cs: Catalog, x: string, y: string)
    ensures EdgeOp(x, y) in CatalogOps(cs) <==> CatalogEdge(cs, x, y)
  {
    var f := (e: (string, CategoryInfo)) => EntryOps(e.0, e.1);
    ConcatMapMember(f, cs, EdgeOp(x, y));
    if j :| 0 <= j < |cs| && EdgeOp(x, y) in f(cs[j]) {
      EntryOpsEdge(cs[j], x, y);
    }
    if CatalogEdge(cs, x, y) {
      var j :| 0 <= j < |cs| && EntryEdge(cs[j], x, y);
      EntryOpsEdge(cs[j], x, y);
      assert EdgeOp(x, y) in f(cs[j]);
    }
  }

  lemma {:induction false} PairOpsEdge(t: string, bs: seq<string>, x: string, y: string)
    ensures EdgeOp(x, y) in PairOps(t, bs) <==> x == t && y in bs
  {
    if bs != [] {
      PairOpsEdge(t, bs[..|bs| - 1], x, y);
      assert bs == bs[..|bs| - 1] + [bs[|bs| - 1]];
    }
  }

  lemma {:induction false} RowTeasOpsEdge(ts: seq<string>, bs: seq<string>, x: string, y: string)
    ensures EdgeOp(x, y) in RowTeasOps(ts, bs) <==> x in ts && y in bs
  {
    if ts != [] {
      RowTeasOpsEdge(ts[..|ts| - 1], bs, x, y);
      PairOpsEdge(ts[|ts| - 1], bs, x, y);
      assert ts == ts[..|ts| - 1] + [ts[|ts| - 1]];
    }
  }

  /** The teas and benefits row `row` lists. */
  ghost predicate InRow(row: Row, x: string, y: string)
  {
    x in NormTokens(row.teaType) && y in NormTokens(row.healthBenefit)
  }

  lemma RowsOpsEdge(rows: seq<Row>, x: string, y: string)
    ensures EdgeOp(x, y) in RowsOps(rows) <==> RowEdge(rows, x, y)
  {
    var f := (r: Row) => RowOps(r);
    ConcatMapMember(f, rows, EdgeOp(x, y));
    if j :| 0 <= j < |rows| && EdgeOp(x, y) in f(rows[j]) {
      RowTeasOpsEdge(NormTokens(rows[j].teaType), NormTokens(rows[j].healthBenefit), x, y);
    }
    if RowEdge(rows, x, y) {
      var j :| 0 <= j < |rows| && InRow(rows[j], x, y);
      RowTeasOpsEdge(NormTokens(rows[j].teaType), NormTokens(rows[j].healthBenefit), x, y);
      assert EdgeOp(x, y) in f(rows[j]);
    }
  }

  /**
   After `build_graph` the graph has exactly its old edges plus, in both directions,
   the category-tea, tea-flavour and tea-benefit edges of the catalog and every
   tea-benefit pair of every row.
   */
  lemma BuildEdges(g: Graph, cs: Catalog, rows: seq<Row>)
    requires WellFormed(g)
    ensures forall x, y :: Edge(Apply(g, BuildOps(cs, rows)), x, y) <==>
      || Edge(g, x, y)
      || CatalogEdge(cs, x, y) || CatalogEdge(cs, y, x)
      || RowEdge(rows, x, y) || RowEdge(rows, y, x)
  {
    ApplyEdges(g, BuildOps(cs, rows));
    forall x, y ensures EdgeOp(x, y) in BuildOps(cs, rows) <==> CatalogEdge(cs, x, y) || RowEdge(rows, x, y) {
      CatalogOpsEdge(cs, x, y);
      RowsOpsEdge(rows, x, y);
    }
  }

  /** `build_graph` keeps the graph well formed. */
  lemma BuildWellFormed(g: Graph, cs: Catalog, rows: seq<Row>)
    requires WellFormed(g)
    ensures WellFormed(Apply(g, BuildOps(cs, rows)))
  {
    ApplyWellFormed(g, BuildOps(cs, rows));
  }

  /** Building a second time from the same inputs changes no node, edge or attribute. */
  lemma BuildTwice(g: Graph, cs: Catalog, rows: seq<Row>)
    requires WellFormed(g)
    ensures Apply(Apply(g, BuildOps(cs, rows)), BuildOps(cs, rows)) == Apply(g, BuildOps(cs, rows))
  {
    ApplyIdempotent(g, BuildOps(cs, rows));
  }

  // ----- Every node the build names gets a `type` -----

  /** Some `add_node` call of `ops` gives `n` a type. */
  ghost predicate Typer(ops: seq<Op>, n: string)
  {
    exists i :: 0 <= i < |ops| && ops[i].NodeOp? && ops[i].key == n && "type" in ops[i].a
  }

  /** Every node `ops` names, except perhaps `c`, is given a type by `ops`. */
  ghost predicate TypedBut(ops: seq<Op>, c: Option<string>)
  {
    forall n :: Mentioned(ops, n) && c != Some(n) ==> Typer(ops, n)
  }

  lemma TyperAppend(a: seq<Op>, b: seq<Op>, n: string)
    ensures Typer(a, n) || Typer(b, n) ==> Typer(a + b, n)
  {
    if Typer(b, n) {
      var i :| 0 <= i < |b| && b[i].NodeOp? && b[i].key == n && "type" in b[i].a;
      assert (a + b)[i + |a|] == b[i];
    }
    if Typer(a, n) {
      var i :| 0 <= i < |a| && a[i].NodeOp? && a[i].key == n && "type" in a[i].a;
      assert (a + b)[i] == a[i];
    }
  }

  lemma TypedButAppend(a: seq<Op>, b: seq<Op>, c: Option<string>)
    requires TypedBut(a, c) && TypedBut(b, c)
    ensures TypedBut(a + b, c)
  {
    forall n | Mentioned(a + b, n) && c != Some(n) ensures Typer(a + b, n) {
      MentionedAppend(a, b, n);
      TyperAppend(a, b, n);
    }
  }

  /** Two calls: a typed node for `y`, and the edge from `x` to it. */
  lemma NodeEdgeTyped(x: string, y: string, a: Attrs)
    requires "type" in a
    ensures TypedBut([NodeOp(y, a), EdgeOp(x, y)], Some(x))
  {
    var ops := [NodeOp(y, a), EdgeOp(x, y)];
    forall n | Mentioned(ops, n) && Some(x) != Some(n) ensures Typer(ops, n) {
      assert ops[0].key == n;
    }
  }

  lemma {:induction false} FlavorOpsTyped(t: string, fs: seq<string>)
    ensures TypedBut(FlavorOps(t, fs), Some(t))
  {
    if fs != [] {
      FlavorOpsTyped(t, fs[..|fs| - 1]);
      NodeEdgeTyped(t, fs[|fs| - 1], Kind("taste"));
      TypedButAppend(FlavorOps(t, fs[..|fs| - 1]), [NodeOp(fs[|fs| - 1], Kind("taste")), EdgeOp(t, fs[|fs| - 1])], Some(t));
    }
  }

  lemma TeaOpsTyped(c: string, key: string, d: TeaData)
    ensures TypedBut(TeaOps(c, key, d), Some(c))
  {
    var t := TeaName(key, d);
    var head := [NodeOp(t, TeaAttrs(d)), EdgeOp(c, t)];
    var fs, bs := FlavorOps(t, Flavors(d)), PairOps(t, Benefits(d));
    NodeEdgeTyped(c, t, TeaAttrs(d));
    FlavorOpsTyped(t, Flavors(d));
    PairOpsTyped(t, Benefits(d));
    assert Typer(head, t) by {
      assert head[0].key == t;
    }
    TypedButJoin(head, fs, c, t);
    TyperAppend(head, fs, t);
    TypedButJoin(head + fs, bs, c, t);
  }

  /** `a` types everything but `c`, including `t`, and `b` everything but `t`: together they type all but `c`. */
  lemma TypedButJoin(a: seq<Op>, b: seq<Op>, c: string, t: string)
    requires TypedBut(a, Some(c)) && TypedBut(b, Some(t)) && Typer(a, t)
    ensures TypedBut(a + b, Some(c))
  {
    forall n | Mentioned(a + b, n) && Some(c) != Some(n) ensures Typer(a + b, n) {
      MentionedAppend(a, b, n);
      TyperAppend(a, b, n);
    }
  }

  lemma {:induction false} ConcatMapTyped<T>(f: T --> seq<Op>, xs: seq<T>, c: Option<string>)
    requires forall i :: 0 <= i < |xs| ==> f.requires(xs[i]) && TypedBut(f(xs[i]), c)
    ensures TypedBut(ConcatMap(f, xs), c)
  {
    if xs != [] {
      var init := xs[..|xs| - 1];
      forall i | 0 <= i < |init| ensures f.requires(init[i]) && TypedBut(f(init[i]), c) {
        assert init[i] == xs[i];
      }
      ConcatMapTyped(f, init, c);
      TypedButAppend(ConcatMap(f, init), f(xs[|xs| - 1]), c);
    }
  }

  lemma TeasOpsTyped(c: string, ts: seq<(string, TeaData)>)
    ensures TypedBut(TeasOps(c, ts), Some(c))
  {
    var f := (e: (string, TeaData)) => TeaOps(c, e.0, e.1);
    forall i | 0 <= i < |ts| ensures TypedBut(f(ts[i]), Some(c)) {
      TeaOpsTyped(c, ts[i].0, ts[i].1);
    }
    ConcatMapTyped(f, ts, Some(c));
  }

  lemma EntryOpsTyped(cat: string, info: CategoryInfo)
    ensures TypedBut(EntryOps(cat, info), None)
  {
    if info.Types? {
      var c := Norm(cat);
      var head := [NodeOp(c, Kind("category"))];
      var rest := TeasOps(c, info.types);
      TeasOpsTyped(c, info.types);
      forall n | Mentioned(head + rest, n) ensures Typer(head + rest, n) {
        MentionedAppend(head, rest, n);
        TyperAppend(head, rest, n);
        assert head[0].key == c;
        assert Typer(head, c);
      }
    }
  }

  lemma CatalogOpsTyped(cs: Catalog)
    ensures TypedBut(CatalogOps(cs), None)
  {
    var f := (e: (string, CategoryInfo)) => EntryOps(e.0, e.1);
    forall i | 0 <= i < |cs| ensures TypedBut(f(cs[i]), None) {
      EntryOpsTyped(cs[i].0, cs[i].1);
    }
    ConcatMapTyped(f, cs, None);
  }

  lemma {:induction false} PairOpsTyped(t: string, bs: seq<string>)
    ensures TypedBut(PairOps(t, bs), Some(t))
  {
    if bs != [] {
      var b := bs[|bs| - 1];
      PairOpsTyped(t, bs[..|bs| - 1]);
      NodeEdgeTyped(t, b, Kind("health"));
      TypedButAppend(PairOps(t, bs[..|bs| - 1]), [NodeOp(b, Kind("health")), EdgeOp(t, b)], Some(t));
    }
  }

  lemma {:induction false} RowTeasOpsTyped(ts: seq<string>, bs: seq<string>)
    ensures TypedBut(RowTeasOps(ts, bs), None)
  {
    if ts != [] {
      var t := ts[|ts| - 1];
      var head := [NodeOp(t, Kind("tea"))];
      var rest := PairOps(t, bs);
      RowTeasOpsTyped(ts[..|ts| - 1], bs);
      PairOpsTyped(t, bs);
      forall n | Mentioned(head + rest, n) ensures Typer(head + rest, n) {
        MentionedAppend(head, rest, n);
        TyperAppend(head, rest, n);
        assert head[0].key == t;
        assert Typer(head, t);
      }
      TypedButAppend(RowTeasOps(ts[..|ts| - 1], bs), head + rest, None);
      assert RowTeasOps(ts, bs) == RowTeasOps(ts[..|ts| - 1], bs) + (head + rest);
    }
  }

  lemma RowsOpsTyped(rows: seq<Row>)
    ensures TypedBut(RowsOps(rows), None)
  {
    var f := (r: Row) => RowOps(r);
    forall i | 0 <= i < |rows| ensures TypedBut(f(rows[i]), None) {
      RowTeasOpsTyped(NormTokens(rows[i].teaType), NormTokens(rows[i].healthBenefit));
    }
    ConcatMapTyped(f, rows, None);
  }

  /** Every node of a graph built from a typed graph has a `type` attribute. */
  lemma BuildTyped(g: Graph, cs: Catalog, rows: seq<Row>)
    requires WellFormed(g) && Typed(g)
    ensures Typed(Apply(g, BuildOps(cs, rows)))
  {
    CatalogOpsTyped(cs);
    RowsOpsTyped(rows);
    TypedButAppend(CatalogOps(cs), RowsOps(rows), None);
    ApplyTyped(g, BuildOps(cs, rows));
  }

  // ----- The association pass only ever sets `type` -----

  /** Every `add_node` call of `ops` sets at most the `type` attribute. */
  ghost predicate OnlyTypes(ops: seq<Op>)
  {
    forall i :: 0 <= i < |ops| && ops[i].NodeOp? ==> ops[i].a.Keys <= {"type"}
  }

  lemma OnlyTypesAppend(a: seq<Op>, b: seq<Op>)
    requires OnlyTypes(a) && OnlyTypes(b)
    ensures OnlyTypes(a + b)
  {
    forall i | 0 <= i < |a + b| && (a + b)[i].NodeOp? ensures (a + b)[i].a.Keys <= {"type"} {
      if i >= |a| {
        assert (a + b)[i] == b[i - |a|];
      } else {
        assert (a + b)[i] == a[i];
      }
    }
  }

  lemma {:induction false} PairOpsOnlyTypes(t: string, bs: seq<string>)
    ensures OnlyTypes(PairOps(t, bs))
  {
    if bs != [] {
      PairOpsOnlyTypes(t, bs[..|bs| - 1]);
      OnlyTypesAppend(PairOps(t, bs[..|bs| - 1]), [NodeOp(bs[|bs| - 1], Kind("health")), EdgeOp(t, bs[|bs| - 1])]);
    }
  }

  lemma {:induction false} RowTeasOpsOnlyTypes(ts: seq<string>, bs: seq<string>)
    ensures OnlyTypes(RowTeasOps(ts, bs))
  {
    if ts != [] {
      var t := ts[|ts| - 1];
      RowTeasOpsOnlyTypes(ts[..|ts| - 1], bs);
      PairOpsOnlyTypes(t, bs);
      OnlyTypesAppend([NodeOp(t, Kind("tea"))], PairOps(t, bs));
      OnlyTypesAppend(RowTeasOps(ts[..|ts| - 1], bs), [NodeOp(t, Kind("tea"))] + PairOps(t, bs));
      assert RowTeasOps(ts, bs) == RowTeasOps(ts[..|ts| - 1], bs) + ([NodeOp(t, Kind("tea"))] + PairOps(t, bs));
    }
  }

  lemma {:induction false} ConcatMapOnlyTypes<T>(f: T --> seq<Op>, xs: seq<T>)
    requires forall i :: 0 <= i < |xs| ==> f.requires(xs[i]) && OnlyTypes(f(xs[i]))
    ensures OnlyTypes(ConcatMap(f, xs))
  {
    if xs != [] {
      var init := xs[..|xs| - 1];
      forall i | 0 <= i < |init| ensures f.requires(init[i]) && OnlyTypes(f(init[i])) {
        assert init[i] == xs[i];
      }
      ConcatMapOnlyTypes(f, init);
      OnlyTypesAppend(ConcatMap(f, init), f(xs[|xs| - 1]));
    }
  }

  lemma RowsOpsOnlyTypes(rows: seq<Row>)
    ensures OnlyTypes(RowsOps(rows))
  {
    var f := (r: Row) => RowOps(r);
    forall i | 0 <= i < |rows| ensures OnlyTypes(f(rows[i])) {
      RowTeasOpsOnlyTypes(NormTokens(rows[i].teaType), NormTokens(rows[i].healthBenefit));
    }
    ConcatMapOnlyTypes(f, rows);
  }

  lemma {:induction false} MergedOnlyTypes(ops: seq<Op>, n: string)
    requires OnlyTypes(ops)
    ensures Merged(ops, n).Keys <= {"type"}
  {
    if ops != [] {
      var init := ops[..|ops| - 1];
      forall i | 0 <= i < |init| && init[i].NodeOp? ensures init[i].a.Keys <= {"type"} {
        assert init[i] == ops[i];
      }
      MergedOnlyTypes(init, n);
    }
  }

  /** Calls that set only `type` keep every node's other attributes. */
  lemma OnlyTypesKeep(g: Graph, ops: seq<Op>, n: string, k: string)
    requires WellFormed(g) && OnlyTypes(ops)
    requires n in g.attrs && k != "type"
    ensures n in Apply(g, ops).attrs
    ensures k in Apply(g, ops).attrs[n] <==> k in g.attrs[n]
    ensures k in g.attrs[n] ==> Apply(g, ops).attrs[n][k] == g.attrs[n][k]
  {
    ApplyNodeSet(g, ops);
    ApplyAttrs(g, ops);
    MergedOnlyTypes(ops, n);
    assert k !in Merged(ops, n);
  }

  /** A node that calls setting only `type` create has the `type` attribute alone. */
  lemma OnlyTypesFresh(g: Graph, ops: seq<Op>, n: string)
    requires WellFormed(g) && OnlyTypes(ops) && TypedBut(ops, None)
    requires n !in g.attrs && n in Apply(g, ops).attrs
    ensures Apply(g, ops).attrs[n].Keys == {"type"}
  {
    ApplyNodeSet(g, ops);
    assert Mentioned(ops, n);
    assert Typer(ops, n);
    var i :| 0 <= i < |ops| && ops[i].NodeOp? && ops[i].key == n && "type" in ops[i].a;
    var m := Merged(ops, n);
    MergedOnlyTypes(ops, n);
    MergedHasType(ops, n, i);
    assert m.Keys == {"type"};
    ApplyAttrs(g, ops);
    UnionEmpty(m);
    assert Apply(g, ops).attrs[n] == map[] + m;
  }

  /**
   The association pass keeps every existing node in its place, and keeps all
   of its attributes except `type`: a catalog tea named again in a row keeps its
   `caffeine`, `origin` and `taste`.
   */
  lemma RowsKeepAttributes(g: Graph, rows: seq<Row>, n: string, k: string)
    requires WellFormed(g)
    requires n in g.attrs && k != "type"
    ensures g.nodes <= Apply(g, RowsOps(rows)).nodes
    ensures n in Apply(g, RowsOps(rows)).attrs
    ensures k in Apply(g, RowsOps(rows)).attrs[n] <==> k in g.attrs[n]
    ensures k in g.attrs[n] ==> Apply(g, RowsOps(rows)).attrs[n][k] == g.attrs[n][k]
  {
    var ops := RowsOps(rows);
    ApplyKeepsNodeOrder(g, ops);
    RowsOpsOnlyTypes(rows);
    OnlyTypesKeep(g, ops, n, k);
  }

  /**
   A node that only the association pass adds carries the single attribute
   `type`; in particular it has no `caffeine`, `origin` or `taste`.
   */
  lemma RowOnlyNode(g: Graph, cs: Catalog, rows: seq<Row>, n: string)
    requires WellFormed(g)
    requires n !in Apply(g, CatalogOps(cs)).attrs && n in Apply(g, BuildOps(cs, rows)).attrs
    ensures Apply(g, BuildOps(cs, rows)).attrs[n].Keys == {"type"}
  {
    ApplyAppend(g, CatalogOps(cs), RowsOps(rows));
    ApplyWellFormed(g, CatalogOps(cs));
    RowsOpsOnlyTypes(rows);
    RowsOpsTyped(rows);
    OnlyTypesFresh(Apply(g, CatalogOps(cs)), RowsOps(rows), n);
  }

  lemma {:induction false} PairOpsNode(t: string, bs: seq<string>, x: string, a: Attrs)
    ensures NodeOp(x, a) in PairOps(t, bs) ==> x in bs && a == Kind("health")
  {
    if bs != [] {
      PairOpsNode(t, bs[..|bs| - 1], x, a);
      assert bs == bs[..|bs| - 1] + [bs[|bs| - 1]];
    }
  }

  /** A row's calls add its teas with type `tea` and its benefits with type `health`, and nothing else. */
  lemma {:induction false} RowTeasOpsNode(ts: seq<string>, bs: seq<string>, x: string, a: Attrs)
    ensures NodeOp(x, a) in RowTeasOps(ts, bs) ==> (x in ts && a == Kind("tea")) || (x in bs && a == Kind("health"))
    ensures x in ts ==> NodeOp(x, Kind("tea")) in RowTeasOps(ts, bs)
  {
    if ts != [] {
      var init, t := ts[..|ts| - 1], ts[|ts| - 1];
      RowTeasOpsNode(init, bs, x, a);
      PairOpsNode(t, bs, x, a);
      assert ts == init + [t];
      assert RowTeasOps(ts, bs) == RowTeasOps(init, bs) + [NodeOp(t, Kind("tea"))] + PairOps(t, bs);
    }
  }

  /** A node some row lists as a tea and no row lists as a benefit is added only with type `tea`. */
  lemma RowsOpsTea(rows: seq<Row>, n: string)
    requires exists r :: r in rows && n in NormTokens(r.teaType)
    requires forall r :: r in rows ==> n !in NormTokens(r.healthBenefit)
    ensures NodeOp(n, Kind("tea")) in RowsOps(rows)
    ensures forall b :: NodeOp(n, b) in RowsOps(rows) ==> b == Kind("tea")
  {
    var f := (r: Row) => RowOps(r);
    forall b | NodeOp(n, b) in RowsOps(rows) ensures b == Kind("tea") {
      ConcatMapMember(f, rows, NodeOp(n, b));
      var j :| 0 <= j < |rows| && NodeOp(n, b) in f(rows[j]);
      assert rows[j] in rows;
      RowTeasOpsNode(NormTokens(rows[j].teaType), NormTokens(rows[j].healthBenefit), n, b);
    }
    var r :| r in rows && n in NormTokens(r.teaType);
    var j :| 0 <= j < |rows| && rows[j] == r;
    RowTeasOpsNode(NormTokens(r.teaType), NormTokens(r.healthBenefit), n, Kind("tea"));
    assert NodeOp(n, Kind("tea")) in f(rows[j]);
    ConcatMapMember(f, rows, NodeOp(n, Kind("tea")));
  }

  /**
   A node that only the association pass adds, that some row lists as a tea and
   no row lists as a benefit, ends with `type` equal to `tea`.
   */
  lemma RowOnlyTea(g: Graph, cs: Catalog, rows: seq<Row>, n: string)
    requires WellFormed(g)
    requires n !in Apply(g, CatalogOps(cs)).attrs
    requires exists r :: r in rows && n in NormTokens(r.teaType)
    requires forall r :: r in rows ==> n !in NormTokens(r.healthBenefit)
    ensures n in Apply(g, BuildOps(cs, rows)).attrs
    ensures Apply(g, BuildOps(cs, rows)).attrs[n] == Kind("tea")
  {
    ApplyAppend(g, CatalogOps(cs), RowsOps(rows));
    ApplyWellFormed(g, CatalogOps(cs));
    RowsOpsTea(rows, n);
    FreshUniform(Apply(g, CatalogOps(cs)), RowsOps(rows), n, Kind("tea"));
  }
}
