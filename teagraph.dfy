/**
 The `MyGraph` object: its graph `G`, which `build_graph` fills in place with
 `add_node`/`add_edge` calls. Every method is proved to leave `G` equal to the
 graph that the operation lists of module `Build` describe.
 */
module TeaGraph {
  import opened Wrappers
  import opened Strings
  import opened Graphs
  import opened Build

  // ----- One loop step: the calls just made extend the operation list by one element -----

  /** `Apply` over two more calls takes two more steps. */
  lemma ApplyTwo(g: Graph, ops: seq<Op>, a: Op, b: Op)
    ensures Apply(g, ops + [a, b]) == ApplyOp(ApplyOp(Apply(g, ops), a), b)
  {
    ApplySnoc(g, ops, a);
    ApplySnoc(g, ops + [a], b);
    assert ops + [a, b] == ops + [a] + [b];
  }

  lemma FlavorOpsSnoc(t: string, fs: seq<string>, k: int)
    requires 0 <= k < |fs|
    ensures FlavorOps(t, fs[..k + 1]) == FlavorOps(t, fs[..k]) + [NodeOp(fs[k], Kind("taste")), EdgeOp(t, fs[k])]
  {
    assert fs[..k + 1][..k] == fs[..k];
  }

  lemma FlavorStep(g0: Graph, t: string, fs: seq<string>, k: int, before: Graph, v: Graph)
    requires 0 <= k < |fs|
    requires before == Apply(g0, FlavorOps(t, fs[..k]))
    requires v == AddEdgeG(AddNodeG(before, fs[k], Kind("taste")), t, fs[k])
    ensures v == Apply(g0, FlavorOps(t, fs[..k + 1]))
  {
    FlavorOpsSnoc(t, fs, k);
    ApplyTwo(g0, FlavorOps(t, fs[..k]), NodeOp(fs[k], Kind("taste")), EdgeOp(t, fs[k]));
  }

  lemma PairStep(g0: Graph, t: string, bs: seq<string>, k: int, before: Graph, v: Graph)
    requires 0 <= k < |bs|
    requires before == Apply(g0, PairOps(t, bs[..k]))
    requires v == AddEdgeG(AddNodeG(before, bs[k], Kind("health")), t, bs[k])
    ensures v == Apply(g0, PairOps(t, bs[..k + 1]))
  {
    PairOpsPrefix(t, bs, k);
    ApplyTwo(g0, PairOps(t, bs[..k]), NodeOp(bs[k], Kind("health")), EdgeOp(t, bs[k]));
  }

  lemma MapNormSnoc(raw: seq<string>, k: int)
    requires 0 <= k < |raw|
    ensures MapNorm(raw[..k + 1]) == MapNorm(raw[..k]) + [Norm(raw[k])]
  {
    assert raw[..k + 1][..k] == raw[..k];
  }

  lemma PairOpsPrefix(t: string, bs: seq<string>, k: int)
    requires 0 <= k < |bs|
    ensures PairOps(t, bs[..k + 1]) == PairOps(t, bs[..k]) + [NodeOp(bs[k], Kind("health")), EdgeOp(t, bs[k])]
  {
    assert bs[..k + 1][..k] == bs[..k];
  }

  lemma PairOpsSnoc(t: string, bs: seq<string>, b: string)
    ensures PairOps(t, bs + [b]) == PairOps(t, bs) + [NodeOp(b, Kind("health")), EdgeOp(t, b)]
  {
    assert (bs + [b])[..|bs|] == bs;
  }

  lemma BenefitStep(g0: Graph, t: string, raw: seq<string>, k: int, before: Graph, v: Graph)
    requires 0 <= k < |raw|
    requires before == Apply(g0, PairOps(t, MapNorm(raw[..k])))
    requires v == AddEdgeG(AddNodeG(before, Norm(raw[k]), Kind("health")), t, Norm(raw[k]))
    ensures v == Apply(g0, PairOps(t, MapNorm(raw[..k + 1])))
  {
    var b := Norm(raw[k]);
    MapNormSnoc(raw, k);
    PairOpsSnoc(t, MapNorm(raw[..k]), b);
    ApplyTwo(g0, PairOps(t, MapNorm(raw[..k])), NodeOp(b, Kind("health")), EdgeOp(t, b));
  }

  lemma TeaSteps(g0: Graph, c: string, key: string, d: TeaData, g1: Graph, g2: Graph, v: Graph)
    requires g1 == AddEdgeG(AddNodeG(g0, TeaName(key, d), TeaAttrs(d)), c, TeaName(key, d))
    requires g2 == Apply(g1, FlavorOps(TeaName(key, d), Flavors(d)))
    requires v == Apply(g2, PairOps(TeaName(key, d), Benefits(d)))
    ensures v == Apply(g0, TeaOps(c, key, d))
  {
    var t := TeaName(key, d);
    var head := [NodeOp(t, TeaAttrs(d)), EdgeOp(c, t)];
    ApplyTwo(g0, [], head[0], head[1]);
    assert [] + [head[0], head[1]] == head;
    ApplyAppend(g0, head, FlavorOps(t, Flavors(d)));
    ApplyAppend(g0, head + FlavorOps(t, Flavors(d)), PairOps(t, Benefits(d)));
  }

  /** The operations of one more element of a `ConcatMap` come after those of the elements before it. */
  lemma ConcatMapSnoc<T>(f: T --> seq<Op>, xs: seq<T>, i: int)
    requires 0 <= i < |xs| && forall k :: 0 <= k < |xs| ==> f.requires(xs[k])
    ensures ConcatMap(f, xs[..i + 1]) == ConcatMap(f, xs[..i]) + f(xs[i])
  {
    assert xs[..i + 1][..i] == xs[..i];
  }

  lemma TeasStep(g1: Graph, c: string, ts: seq<(string, TeaData)>, j: int, before: Graph, v: Graph)
    requires 0 <= j < |ts|
    requires before == Apply(g1, TeasOps(c, ts[..j]))
    requires v == Apply(before, TeaOps(c, ts[j].0, ts[j].1))
    ensures v == Apply(g1, TeasOps(c, ts[..j + 1]))
  {
    ConcatMapSnoc((e: (string, TeaData)) => TeaOps(c, e.0, e.1), ts, j);
    ApplyAppend(g1, TeasOps(c, ts[..j]), TeaOps(c, ts[j].0, ts[j].1));
  }

  lemma EntrySteps(g0: Graph, cat: string, ts: seq<(string, TeaData)>, g1: Graph, v: Graph)
    requires g1 == AddNodeG(g0, Norm(cat), Kind("category"))
    requires v == Apply(g1, TeasOps(Norm(cat), ts))
    ensures v == Apply(g0, EntryOps(cat, Types(ts)))
  {
    var head := [NodeOp(Norm(cat), Kind("category"))];
    ApplySnoc(g0, [], head[0]);
    assert [] + [head[0]] == head;
    ApplyAppend(g0, head, TeasOps(Norm(cat), ts));
  }

  lemma CatalogStep(g0: Graph, cs: Catalog, i: int, before: Graph, v: Graph)
    requires 0 <= i < |cs|
    requires before == Apply(g0, CatalogOps(cs[..i]))
    requires v == Apply(before, EntryOps(cs[i].0, cs[i].1))
    ensures v == Apply(g0, CatalogOps(cs[..i + 1]))
  {
    ConcatMapSnoc((e: (string, CategoryInfo)) => EntryOps(e.0, e.1), cs, i);
    ApplyAppend(g0, CatalogOps(cs[..i]), EntryOps(cs[i].0, cs[i].1));
  }

  lemma RowTeasOpsSnoc(ts: seq<string>, bs: seq<string>, i: int)
    requires 0 <= i < |ts|
    ensures RowTeasOps(ts[..i + 1], bs) == RowTeasOps(ts[..i], bs) + [NodeOp(ts[i], Kind("tea"))] + PairOps(ts[i], bs)
  {
    assert ts[..i + 1][..i] == ts[..i];
  }

  lemma RowTeaStep(g0: Graph, ts: seq<string>, bs: seq<string>, i: int, before: Graph, v: Graph)
    requires 0 <= i < |ts|
    requires before == Apply(g0, RowTeasOps(ts[..i], bs))
    requires v == Apply(AddNodeG(before, ts[i], Kind("tea")), PairOps(ts[i], bs))
    ensures v == Apply(g0, RowTeasOps(ts[..i + 1], bs))
  {
    var done := RowTeasOps(ts[..i], bs);
    RowTeasOpsSnoc(ts, bs, i);
    ApplySnoc(g0, done, NodeOp(ts[i], Kind("tea")));
    ApplyAppend(g0, done + [NodeOp(ts[i], Kind("tea"))], PairOps(ts[i], bs));
  }

  lemma RowsStep(g1: Graph, rows: seq<Row>, i: int, before: Graph, v: Graph)
    requires 0 <= i < |rows|
    requires before == Apply(g1, RowsOps(rows[..i]))
    requires v == Apply(before, RowOps(rows[i]))
    ensures v == Apply(g1, RowsOps(rows[..i + 1]))
  {
    ConcatMapSnoc((r: Row) => RowOps(r), rows, i);
    ApplyAppend(g1, RowsOps(rows[..i]), RowOps(rows[i]));
  }

  class MyGraph {
    /** `self.G`, the undirected graph. */
    var G: Graph

    ghost predicate Valid()
      reads this
    {
      WellFormed(G)
    }

    /** `MyGraph()`: an empty graph. */
    constructor ()
      ensures G == EmptyGraph() && Valid()
    {
      G := EmptyGraph();
    }

    /** The loop over the taste tokens of one tea (optimalteatype.py, lines 88-90). */
    method AddFlavors(t: string, fs: seq<string>)
      modifies this
      ensures G == Apply(old(G), FlavorOps(t, fs))
    {
      ghost var g0 := G;
      assert fs[..|fs|] == fs;
      for k := 0 to |fs|
        invariant G == Apply(g0, FlavorOps(t, fs[..k]))
      {
        ghost var before := G;
        G := AddNodeG(G, fs[k], Kind("taste"));
        G := AddEdgeG(G, t, fs[k]);
        FlavorStep(g0, t, fs, k, before, G);
      }
    }

    /** The loop over the health benefits of one catalog tea (lines 92-95). */
    method AddBenefits(t: string, raw: seq<string>)
      modifies this
      ensures G == Apply(old(G), PairOps(t, MapNorm(raw)))
    {
      ghost var g0 := G;
      assert raw[..|raw|] == raw;
      for k := 0 to |raw|
        invariant G == Apply(g0, PairOps(t, MapNorm(raw[..k])))
      {
        ghost var before := G;
        var benefit := Norm(raw[k]);
        G := AddNodeG(G, benefit, Kind("health"));
        G := AddEdgeG(G, t, benefit);
        BenefitStep(g0, t, raw, k, before, G);
      }
    }

    /** One catalog tea of category `c` (lines 76-95). */
    method AddTea(c: string, key: string, d: TeaData)
      modifies this
      ensures G == Apply(old(G), TeaOps(c, key, d))
    {
      ghost var g0 := G;
      var t := Norm(OrElse(d.name, key));
      G := AddNodeG(G, t, TeaAttrs(d));
      G := AddEdgeG(G, c, t);
      ghost var g1 := G;
      var taste := d.tasteDescription;
      if taste.Some? && taste.value != "" {
        AddFlavors(t, Tokens(taste.value));
      }
      ghost var g2 := G;
      AddBenefits(t, RawBenefits(d));
      TeaSteps(g0, c, key, d, g1, g2, G);
    }

    /** One entry of the catalog (lines 72-95). */
    method AddCategory(cat: string, info: CategoryInfo)
      modifies this
      ensures G == Apply(old(G), EntryOps(cat, info))
    {
      if info.Types? {
        ghost var g0 := G;
        var c := Norm(cat);
        G := AddNodeG(G, c, Kind("category"));
        ghost var g1 := G;
        var ts := info.types;
        assert ts[..|ts|] == ts;
        for j := 0 to |ts|
          invariant G == Apply(g1, TeasOps(c, ts[..j]))
        {
          ghost var before := G;
          AddTea(c, ts[j].0, ts[j].1);
          TeasStep(g1, c, ts, j, before, G);
        }
        EntrySteps(g0, cat, ts, g1, G);
      }
    }

    /** The pairs of one row tea with the row's benefits (lines 103-105). */
    method AddRowPairs(t: string, bs: seq<string>)
      modifies this
      ensures G == Apply(old(G), PairOps(t, bs))
    {
      ghost var g0 := G;
      assert bs[..|bs|] == bs;
      for k := 0 to |bs|
        invariant G == Apply(g0, PairOps(t, bs[..k]))
      {
        ghost var before := G;
        G := AddNodeG(G, bs[k], Kind("health"));
        G := AddEdgeG(G, t, bs[k]);
        PairStep(g0, t, bs, k, before, G);
      }
    }

    /** One association row (lines 98-105). */
    method AddRow(row: Row)
      modifies this
      ensures G == Apply(old(G), RowOps(row))
    {
      var teas := NormTokens(row.teaType);
      var benefits := NormTokens(row.healthBenefit);
      AddRowTeas(teas, benefits);
    }

    /** The loop over the teas of one row (lines 101-105). */
    method AddRowTeas(teas: seq<string>, benefits: seq<string>)
      modifies this
      ensures G == Apply(old(G), RowTeasOps(teas, benefits))
    {
      ghost var g0 := G;
      assert teas[..|teas|] == teas;
      for i := 0 to |teas|
        invariant G == Apply(g0, RowTeasOps(teas[..i], benefits))
      {
        ghost var before := G;
        G := AddNodeG(G, teas[i], Kind("tea"));
        AddRowPairs(teas[i], benefits);
        RowTeaStep(g0, teas, benefits, i, before, G);
      }
    }

    /** The catalog pass of `build_graph` (lines 72-95). */
    method AddCatalog(cs: Catalog)
      modifies this
      ensures G == Apply(old(G), CatalogOps(cs))
    {
      ghost var g0 := G;
      assert cs[..|cs|] == cs;
      for i := 0 to |cs|
        invariant G == Apply(g0, CatalogOps(cs[..i]))
      {
        ghost var before := G;
        AddCategory(cs[i].0, cs[i].1);
        CatalogStep(g0, cs, i, before, G);
      }
    }

    /** The association pass of `build_graph` (lines 97-105). */
    method AddRows(rows: seq<Row>)
      modifies this
      ensures G == Apply(old(G), RowsOps(rows))
    {
      ghost var g0 := G;
      assert rows[..|rows|] == rows;
      for i := 0 to |rows|
        invariant G == Apply(g0, RowsOps(rows[..i]))
      {
        ghost var before := G;
        AddRow(rows[i]);
        RowsStep(g0, rows, i, before, G);
      }
    }

    /** `build_graph(data, benefit_data)` */
    method BuildGraph(cs: Catalog, rows: seq<Row>)
      modifies this
      ensures G == Apply(old(G), BuildOps(cs, rows))
      ensures old(Valid()) ==> Valid()
    {
      ghost var g0 := G;
      AddCatalog(cs);
      AddRows(rows);
      ApplyAppend(g0, CatalogOps(cs), RowsOps(rows));
      if WellFormed(g0) {
        BuildWellFormed(g0, cs, rows);
      }
    }
  }
}
