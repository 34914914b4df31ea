/**
 * The catalog prioritiser: every Japanese catalog page gets its metrics
 * (page views, CTA clicks, form submissions) and its conversion rate; the
 * pages are grouped by page type, industry and standard; groups with enough
 * page views are ranked by conversion rate; and up to seven
 * recommendations are drawn from the top groups, with one fallback message
 * when none qualifies. The catalog and the metrics file arrive as values.
 */
module Prioritize {
  import opened Wrappers
  import opened Strings
  import Seqs

  const MinPageviewsForCvr: nat := 10

  /** `normalizePath`: a trailing slash, added only when missing. */
  function NormalizePath(p: string): (r: string)
    ensures EndsWith(r, "/")
    ensures r == p || r == p + "/"
    ensures EndsWith(p, "/") <==> r == p
  {
    if EndsWith(p, "/") then p else p + "/"
  }

  lemma NormalizePathIdempotent(p: string)
    ensures NormalizePath(NormalizePath(p)) == NormalizePath(p)
  {
  }

  datatype Metrics = Metrics(pageviews: nat, ctaClicks: nat, formSubmits: nat)

  const NoMetrics: Metrics := Metrics(0, 0, 0)

  datatype Period = Period(startDate: string, endDate: string, days: nat)

  datatype PseoMetrics = PseoMetrics(period: Period, byPath: map<string, Metrics>)

  /** A catalog page, as far as the prioritiser reads it; the artifact context fields may be absent. */
  datatype CatalogPage = CatalogPage(id: string, slug: string, lang: string, pageType: Option<string>,
                                     industry: Option<string>, standard: Option<string>)

  datatype PageRow = PageRow(page: CatalogPage, metrics: Metrics, conversions: nat, cvr: real)

  /** `conversions / pageviews`, and 0 without page views. */
  function Cvr(conversions: nat, pageviews: nat): real {
    if pageviews > 0 then conversions as real / pageviews as real else 0.0
  }

  lemma CvrSpec(conversions: nat, pageviews: nat)
    ensures Cvr(conversions, pageviews) >= 0.0
    ensures pageviews > 0 ==> Cvr(conversions, pageviews) * pageviews as real == conversions as real
    ensures Cvr(conversions, pageviews) > 0.0 <==> pageviews > 0 && conversions > 0
  {
  }

  /** The metrics of a page: those of its normalised slug, zeros when the path is absent. */
  function MetricsFor(byPath: map<string, Metrics>, p: CatalogPage): Metrics {
    var path := NormalizePath(p.slug);
    if path in byPath then byPath[path] else NoMetrics
  }

  function RowFor(byPath: map<string, Metrics>, p: CatalogPage): PageRow {
    var m := MetricsFor(byPath, p);
    PageRow(p, m, m.ctaClicks + m.formSubmits, Cvr(m.ctaClicks + m.formSubmits, m.pageviews))
  }

  predicate IsJa(p: CatalogPage) {
    p.lang == "ja"
  }

  function JaPages(catalog: seq<CatalogPage>): seq<CatalogPage> {
    Seqs.Filter(IsJa, catalog)
  }

  function RowMaker(byPath: map<string, Metrics>): CatalogPage -> PageRow {
    p => RowFor(byPath, p)
  }

  function ByPage(byPath: map<string, Metrics>, pages: seq<CatalogPage>): (r: seq<PageRow>)
    ensures |r| == |pages|
  {
    Seqs.MapSnoc(RowMaker(byPath), pages)
  }

  /** Row `i` is page `i` with its metrics, its conversions and its rate. */
  lemma ByPageAt(byPath: map<string, Metrics>, pages: seq<CatalogPage>, i: nat)
    requires i < |pages|
    ensures var r := ByPage(byPath, pages)[i];
      r.page == pages[i] && r.metrics == MetricsFor(byPath, pages[i])
      && r.conversions == r.metrics.ctaClicks + r.metrics.formSubmits
      && r.cvr == Cvr(r.conversions, r.metrics.pageviews)
  {
    Seqs.MapSnocAt(RowMaker(byPath), pages, i);
    var m := MetricsFor(byPath, pages[i]);
    assert ByPage(byPath, pages)[i] == PageRow(pages[i], m, m.ctaClicks + m.formSubmits, Cvr(m.ctaClicks + m.formSubmits, m.pageviews));
  }

  /** Only Japanese pages take part, and all of them, in catalog order. */
  lemma ByPageJa(byPath: map<string, Metrics>, catalog: seq<CatalogPage>, p: CatalogPage)
    ensures p in JaPages(catalog) <==> p in catalog && p.lang == "ja"
  {
    Seqs.FilterMember(IsJa, catalog, p);
  }

  /** One row of the `byPage` loop. */
  method PageWithMetrics(byPath: map<string, Metrics>, page: CatalogPage) returns (row: PageRow)
    ensures row == RowFor(byPath, page)
  {
    var path := NormalizePath(page.slug);
    var m := if path in byPath then byPath[path] else Metrics(0, 0, 0);
    var conversions := m.ctaClicks + m.formSubmits;
    var cvr := if m.pageviews > 0 then conversions as real / m.pageviews as real else 0.0;
    row := PageRow(page, m, conversions, cvr);
  }

  method BuildByPage(byPath: map<string, Metrics>, pages: seq<CatalogPage>) returns (rows: seq<PageRow>)
    ensures rows == ByPage(byPath, pages)
  {
    rows := [];
    for i := 0 to |pages|
      invariant rows == ByPage(byPath, pages[..i])
    {
      var row := PageWithMetrics(byPath, pages[i]);
      Seqs.MapSnocStep(RowMaker(byPath), pages, i);
      rows := rows + [row];
    }
    assert pages[..|pages|] == pages;
  }

  // ------------------------------------------------------------ aggregateBy

  datatype Dimension = PageType | Industry | Standard

  function KeyOf(dim: Dimension, p: CatalogPage): Option<string> {
    match dim
    case PageType => p.pageType
    case Industry => p.industry
    case Standard => p.standard
  }

  /** The row counts towards group `k`: its key is `k`, and an empty key counts nowhere. */
  predicate InGroup(dim: Dimension, r: PageRow, k: string) {
    KeyOf(dim, r.page) == Some(k) && k != ""
  }

  datatype Group = Group(pageviews: nat, conversions: nat, pageIds: seq<string>)

  const EmptyGroup: Group := Group(0, 0, [])

  /** The groups map with its insertion order. */
  datatype Agg = Agg(order: seq<string>, groups: map<string, Group>) {
    function Get(k: string): Group {
      if k in groups then groups[k] else EmptyGroup
    }
  }

  function AggStep(a: Agg, dim: Dimension, r: PageRow): Agg {
    match KeyOf(dim, r.page)
    case None => a
    case Some(k) =>
      if k == "" then a
      else
        var cur := a.Get(k);
        Agg(if k in a.groups then a.order else a.order + [k],
            a.groups[k := Group(cur.pageviews + r.metrics.pageviews, cur.conversions + r.conversions, cur.pageIds + [r.page.id])])
  }

  function Aggregate(rows: seq<PageRow>, dim: Dimension): Agg {
    if rows == [] then Agg([], map[]) else AggStep(Aggregate(rows[..|rows| - 1], dim), dim, rows[|rows| - 1])
  }

  /** The reference sums: page views, conversions and ids of the rows of group `k`, in row order. */
  function PvSum(rows: seq<PageRow>, dim: Dimension, k: string): nat {
    if rows == [] then 0
    else PvSum(rows[..|rows| - 1], dim, k) + (if InGroup(dim, rows[|rows| - 1], k) then rows[|rows| - 1].metrics.pageviews else 0)
  }

  function ConvSum(rows: seq<PageRow>, dim: Dimension, k: string): nat {
    if rows == [] then 0
    else ConvSum(rows[..|rows| - 1], dim, k) + (if InGroup(dim, rows[|rows| - 1], k) then rows[|rows| - 1].conversions else 0)
  }

  function IdsOf(rows: seq<PageRow>, dim: Dimension, k: string): seq<string> {
    if rows == [] then []
    else IdsOf(rows[..|rows| - 1], dim, k) + (if InGroup(dim, rows[|rows| - 1], k) then [rows[|rows| - 1].page.id] else [])
  }

  ghost predicate OrderOk(a: Agg) {
    (forall k :: k in a.groups <==> k in a.order)
    && forall i, j :: 0 <= i < j < |a.order| ==> a.order[i] != a.order[j]
  }

  /**
   * Each group holds the sums of exactly its rows and their ids in order;
   * a key has a group exactly when some row has it; the order lists each
   * group once.
   */
  lemma {:induction false} AggregateSpec(rows: seq<PageRow>, dim: Dimension, k: string)
    ensures Aggregate(rows, dim).Get(k) == Group(PvSum(rows, dim, k), ConvSum(rows, dim, k), IdsOf(rows, dim, k))
    ensures k in Aggregate(rows, dim).groups <==> IdsOf(rows, dim, k) != []
    ensures OrderOk(Aggregate(rows, dim))
  {
    if rows != [] {
      var n := |rows| - 1;
      AggregateSpec(rows[..n], dim, k);
      AggStepSpec(Aggregate(rows[..n], dim), dim, rows[n], k);
    }
  }

  /** One row adds its sums to its own group, creating it at the end of the order if new. */
  lemma AggStepSpec(a: Agg, dim: Dimension, r: PageRow, k: string)
    requires OrderOk(a)
    ensures AggStep(a, dim, r).Get(k) ==
      if InGroup(dim, r, k)
      then Group(a.Get(k).pageviews + r.metrics.pageviews, a.Get(k).conversions + r.conversions, a.Get(k).pageIds + [r.page.id])
      else a.Get(k)
    ensures k in AggStep(a, dim, r).groups <==> k in a.groups || InGroup(dim, r, k)
    ensures OrderOk(AggStep(a, dim, r))
  {
  }

  /** A group's key is the key of one of its rows. */
  lemma {:induction false} IdsOfFrom(rows: seq<PageRow>, dim: Dimension, k: string)
    ensures IdsOf(rows, dim, k) != [] <==> exists i :: 0 <= i < |rows| && InGroup(dim, rows[i], k)
  {
    if rows != [] {
      var n := |rows| - 1;
      IdsOfFrom(rows[..n], dim, k);
      if exists i :: 0 <= i < n && InGroup(dim, rows[..n][i], k) {
        var i :| 0 <= i < n && InGroup(dim, rows[..n][i], k);
        assert rows[i] == rows[..n][i];
      }
      if exists i :: 0 <= i < |rows| && InGroup(dim, rows[i], k) {
        var i :| 0 <= i < |rows| && InGroup(dim, rows[i], k);
        if i < n {
          assert rows[..n][i] == rows[i];
        }
      }
    }
  }

  /** Without page views, every group has none. */
  lemma {:induction false} PvSumZero(rows: seq<PageRow>, dim: Dimension, k: string)
    requires forall i :: 0 <= i < |rows| ==> rows[i].metrics.pageviews == 0
    ensures PvSum(rows, dim, k) == 0
  {
    if rows != [] {
      PvSumZero(rows[..|rows| - 1], dim, k);
    }
  }

  datatype DimensionCvr = DimensionCvr(dimension: Dimension, value: string, pageviews: nat, conversions: nat,
                                       cvr: real, pageIds: seq<string>)

  function Entry(dim: Dimension, a: Agg, k: string): DimensionCvr {
    var g := a.Get(k);
    DimensionCvr(dim, k, g.pageviews, g.conversions, Cvr(g.conversions, g.pageviews), g.pageIds)
  }

  /** The groups' entries in insertion order. */
  function Entries(dim: Dimension, a: Agg): (r: seq<DimensionCvr>)
    ensures |r| == |a.order|
  {
    seq(|a.order|, i requires 0 <= i < |a.order| => Entry(dim, a, a.order[i]))
  }

  predicate Enough(r: DimensionCvr) {
    r.pageviews >= MinPageviewsForCvr
  }

  function CvrKey(r: DimensionCvr): real {
    r.cvr
  }

  /** `aggregateBy`: the entries with at least ten page views, by rate descending (a stable sort). */
  function AggregateBy(rows: seq<PageRow>, dim: Dimension): seq<DimensionCvr> {
    Seqs.SortDescBy(Seqs.Filter(Enough, Entries(dim, Aggregate(rows, dim))), CvrKey)
  }

  /** The group loop of `aggregateBy`. */
  method CollectGroups(rows: seq<PageRow>, dim: Dimension) returns (a: Agg)
    ensures a == Aggregate(rows, dim)
  {
    a := Agg([], map[]);
    for i := 0 to |rows|
      invariant a == Aggregate(rows[..i], dim)
    {
      assert rows[..i + 1][..i] == rows[..i];
      var p := rows[i];
      var key := KeyOf(dim, p.page);
      if key.None? || key.value == "" {
        continue;
      }
      var k := key.value;
      var cur := if k in a.groups then a.groups[k] else Group(0, 0, []);
      var order := if k in a.groups then a.order else a.order + [k];
      a := Agg(order, a.groups[k := Group(cur.pageviews + p.metrics.pageviews, cur.conversions + p.conversions,
                                          cur.pageIds + [p.page.id])]);
    }
    assert rows[..|rows|] == rows;
  }

  /** A ranked entry is an entry of the groups with at least ten page views, and every such entry is ranked. */
  lemma RankingMember(rows: seq<PageRow>, dim: Dimension, e: DimensionCvr)
    ensures e in AggregateBy(rows, dim) <==> e in Entries(dim, Aggregate(rows, dim)) && Enough(e)
  {
    var es := Entries(dim, Aggregate(rows, dim));
    Seqs.SortDescByMembers(Seqs.Filter(Enough, es), CvrKey, 0);
    Seqs.FilterMember(Enough, es, e);
  }

  /** The entries are the groups, one each, in insertion order. */
  lemma EntriesMember(dim: Dimension, a: Agg, k: string)
    requires OrderOk(a)
    ensures (exists e :: e in Entries(dim, a) && e.value == k) <==> k in a.groups
    ensures forall e :: e in Entries(dim, a) ==> e == Entry(dim, a, e.value)
  {
    var es := Entries(dim, a);
    if k in a.groups {
      var j :| 0 <= j < |a.order| && a.order[j] == k;
      assert es[j].value == k;
    }
  }

  /** The ranking is sorted by rate, descending. */
  lemma AggregateBySorted(rows: seq<PageRow>, dim: Dimension)
    ensures Seqs.SortedDesc(AggregateBy(rows, dim), CvrKey)
  {
    Seqs.SortDescBySorted(Seqs.Filter(Enough, Entries(dim, Aggregate(rows, dim))), CvrKey);
  }

  /**
   * A group is ranked exactly when some page has its key and its page
   * views reach ten; a ranked entry carries its group's sums.
   */
  lemma AggregateByMembers(rows: seq<PageRow>, dim: Dimension, k: string)
    ensures (exists e :: e in AggregateBy(rows, dim) && e.value == k) <==>
            (exists i :: 0 <= i < |rows| && InGroup(dim, rows[i], k)) && PvSum(rows, dim, k) >= MinPageviewsForCvr
    ensures forall e :: e in AggregateBy(rows, dim) && e.value == k ==>
      e == DimensionCvr(dim, k, PvSum(rows, dim, k), ConvSum(rows, dim, k),
                        Cvr(ConvSum(rows, dim, k), PvSum(rows, dim, k)), IdsOf(rows, dim, k))
  {
    var a := Aggregate(rows, dim);
    AggregateSpec(rows, dim, k);
    IdsOfFrom(rows, dim, k);
    EntriesMember(dim, a, k);
    forall e | e in AggregateBy(rows, dim) && e.value == k
      ensures e == Entry(dim, a, k)
    {
      RankingMember(rows, dim, e);
    }
    if k in a.groups && PvSum(rows, dim, k) >= MinPageviewsForCvr {
      var e :| e in Entries(dim, a) && e.value == k;
      RankingMember(rows, dim, e);
    }
    if exists e :: e in AggregateBy(rows, dim) && e.value == k {
      var e :| e in AggregateBy(rows, dim) && e.value == k;
      RankingMember(rows, dim, e);
    }
  }

  // ------------------------------------------------------ recommendations

  datatype Recommendation = Recommend(dimension: Dimension, value: string, cvr: real) | NotEnoughData

  function Take(rows: seq<DimensionCvr>, n: nat): seq<DimensionCvr> {
    if |rows| <= n then rows else rows[..n]
  }

  function RecFor(r: DimensionCvr): seq<Recommendation> {
    if r.cvr > 0.0 then [Recommend(r.dimension, r.value, r.cvr)] else []
  }

  function Recs(rows: seq<DimensionCvr>): seq<Recommendation> {
    Seqs.FlatMap(RecFor, rows)
  }

  /** The top three page types, top two industries and top two standards with a positive rate; else the fallback. */
  function Recommendations(byPageType: seq<DimensionCvr>, byIndustry: seq<DimensionCvr>, byStandard: seq<DimensionCvr>): seq<Recommendation> {
    var r := Recs(Take(byPageType, 3)) + Recs(Take(byIndustry, 2)) + Recs(Take(byStandard, 2));
    if r == [] then [NotEnoughData] else r
  }

  lemma {:induction false} RecsBound(rows: seq<DimensionCvr>)
    ensures |Recs(rows)| <= |rows|
    ensures NotEnoughData !in Recs(rows)
    ensures Recs(rows) == [] <==> forall i :: 0 <= i < |rows| ==> rows[i].cvr <= 0.0
  {
    Seqs.FlatMapEmpty(RecFor, rows);
    Seqs.FlatMapMember(RecFor, rows, NotEnoughData);
    if rows != [] {
      RecsBound(rows[..|rows| - 1]);
    }
  }

  /**
   * There are one to seven recommendations; the fallback is among them
   * exactly when it is the only one, which is when no top row has a
   * positive rate.
   */
  lemma RecommendationsBounds(byPageType: seq<DimensionCvr>, byIndustry: seq<DimensionCvr>, byStandard: seq<DimensionCvr>)
    ensures var r := Recommendations(byPageType, byIndustry, byStandard);
      1 <= |r| <= 7
      && (NotEnoughData in r <==> r == [NotEnoughData])
      && (r == [NotEnoughData] <==>
            (forall i :: 0 <= i < |Take(byPageType, 3)| ==> Take(byPageType, 3)[i].cvr <= 0.0)
            && (forall i :: 0 <= i < |Take(byIndustry, 2)| ==> Take(byIndustry, 2)[i].cvr <= 0.0)
            && (forall i :: 0 <= i < |Take(byStandard, 2)| ==> Take(byStandard, 2)[i].cvr <= 0.0))
  {
    RecsBound(Take(byPageType, 3));
    RecsBound(Take(byIndustry, 2));
    RecsBound(Take(byStandard, 2));
  }

  method AddRecommendations(rows: seq<DimensionCvr>, n: nat, recs: seq<Recommendation>) returns (r: seq<Recommendation>)
    ensures r == recs + Recs(Take(rows, n))
  {
    var top := Take(rows, n);
    r := recs;
    for i := 0 to |top|
      invariant r == recs + Recs(top[..i])
    {
      Seqs.FlatMapSnoc(RecFor, top, i);
      if top[i].cvr > 0.0 {
        r := r + [Recommend(top[i].dimension, top[i].value, top[i].cvr)];
      }
    }
    assert top[..|top|] == top;
  }

  // --------------------------------------------------------- runPrioritize

  datatype Report = Report(period: Period, byPage: seq<PageRow>, byPageType: seq<DimensionCvr>,
                           byIndustry: seq<DimensionCvr>, byStandard: seq<DimensionCvr>,
                           recommendations: seq<Recommendation>)

  function ReportFor(metrics: PseoMetrics, catalog: seq<CatalogPage>): Report {
    var rows := ByPage(metrics.byPath, JaPages(catalog));
    var pt := AggregateBy(rows, PageType);
    var ind := AggregateBy(rows, Industry);
    var std := AggregateBy(rows, Standard);
    Report(metrics.period, rows, pt, ind, std, Recommendations(pt, ind, std))
  }

  method AggregateByMethod(rows: seq<PageRow>, dim: Dimension) returns (r: seq<DimensionCvr>)
    ensures r == AggregateBy(rows, dim)
  {
    var a := CollectGroups(rows, dim);
    r := Seqs.SortDescBy(Seqs.Filter(Enough, Entries(dim, a)), CvrKey);
  }

  /** The three recommendation loops and the fallback. */
  method RecommendAll(pt: seq<DimensionCvr>, ind: seq<DimensionCvr>, std: seq<DimensionCvr>) returns (recs: seq<Recommendation>)
    ensures recs == Recommendations(pt, ind, std)
  {
    recs := AddRecommendations(pt, 3, []);
    recs := AddRecommendations(ind, 2, recs);
    recs := AddRecommendations(std, 2, recs);
    if |recs| == 0 {
      recs := recs + [NotEnoughData];
    }
  }

  /** `runPrioritize`. */
  method RunPrioritize(metrics: PseoMetrics, catalog: seq<CatalogPage>) returns (report: Report)
    ensures report == ReportFor(metrics, catalog)
  {
    var pages := JaPages(catalog);
    var rows := BuildByPage(metrics.byPath, pages);
    var pt := AggregateByMethod(rows, PageType);
    var ind := AggregateByMethod(rows, Industry);
    var std := AggregateByMethod(rows, Standard);
    var recs := RecommendAll(pt, ind, std);
    report := Report(metrics.period, rows, pt, ind, std, recs);
  }

  // ------------------------------------------------------------------ main

  /** The stub's paths: every Japanese page's normalised slug, with zero metrics. */
  function StubPaths(pages: seq<CatalogPage>): map<string, Metrics> {
    if pages == [] then map[]
    else StubPaths(pages[..|pages| - 1])[NormalizePath(pages[|pages| - 1].slug) := NoMetrics]
  }

  lemma {:induction false} StubPathsZero(pages: seq<CatalogPage>)
    ensures forall p :: p in StubPaths(pages) ==> StubPaths(pages)[p] == NoMetrics
  {
    if pages != [] {
      StubPathsZero(pages[..|pages| - 1]);
    }
  }

  const StubPeriod: Period := Period("", "", 0)

  /** `main`: with the metrics file missing, a stub of zero metrics for every Japanese page. */
  method Run(metrics: Option<PseoMetrics>, catalog: seq<CatalogPage>) returns (report: Report)
    ensures metrics.Some? ==> report == ReportFor(metrics.value, catalog)
    ensures metrics.None? ==> report == ReportFor(PseoMetrics(StubPeriod, StubPaths(JaPages(catalog))), catalog)
  {
    if metrics.Some? {
      report := RunPrioritize(metrics.value, catalog);
      return;
    }
    var pages := JaPages(catalog);
    var byPath: map<string, Metrics> := map[];
    for i := 0 to |pages|
      invariant byPath == StubPaths(pages[..i])
    {
      assert pages[..i + 1][..i] == pages[..i];
      byPath := byPath[NormalizePath(pages[i].slug) := Metrics(0, 0, 0)];
    }
    assert pages[..|pages|] == pages;
    report := RunPrioritize(PseoMetrics(StubPeriod, byPath), catalog);
  }

  /** With zero page views everywhere no group reaches ten, so every ranking is empty. */
  lemma {:induction false} ZeroViewsNoRanking(rows: seq<PageRow>, dim: Dimension)
    requires forall i :: 0 <= i < |rows| ==> rows[i].metrics.pageviews == 0
    ensures AggregateBy(rows, dim) == []
  {
    var a := Aggregate(rows, dim);
    var es := Entries(dim, a);
    forall e | e in es
      ensures !Enough(e)
    {
      var j :| 0 <= j < |es| && es[j] == e;
      AggregateSpec(rows, dim, a.order[j]);
      PvSumZero(rows, dim, a.order[j]);
    }
    Seqs.FlatMapEmpty(Seqs.Keep(Enough), es);
    assert forall j :: 0 <= j < |es| ==> Seqs.Keep(Enough)(es[j]) == [] by {
      forall j | 0 <= j < |es|
        ensures Seqs.Keep(Enough)(es[j]) == []
      {
        assert es[j] in es;
      }
    }
  }

  /** With the metrics file missing, the report carries only the fallback message. */
  lemma StubOnlyFallback(catalog: seq<CatalogPage>)
    ensures ReportFor(PseoMetrics(StubPeriod, StubPaths(JaPages(catalog))), catalog).recommendations == [NotEnoughData]
  {
    var pages := JaPages(catalog);
    var byPath := StubPaths(pages);
    var rows := ByPage(byPath, pages);
    StubPathsZero(pages);
    forall i | 0 <= i < |rows|
      ensures rows[i].metrics.pageviews == 0
    {
      ByPageAt(byPath, pages, i);
    }
    ZeroViewsNoRanking(rows, PageType);
    ZeroViewsNoRanking(rows, Industry);
    ZeroViewsNoRanking(rows, Standard);
  }
}
