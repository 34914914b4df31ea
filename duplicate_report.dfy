/**
 * The phase-0 duplicate diagnosis (scripts/pseo/phase0_duplicate_report.ts):
 * every built PSEO page is compared with every other one by the Jaccard
 * similarity of the 15-character shingles of its boilerplate-free text;
 * pages and ordered pairs are put in three tiers (near duplicate at 0.85,
 * approximate at 0.70, independent below), and the pairs above 0.70 are
 * grouped by the cluster guessed for their first page.
 */
module DuplicateReport {
  import opened Wrappers
  import opened Strings
  import opened Seqs
  import Similarity

  const NearDuplicateThreshold: real := 0.85
  const ApproximateThreshold: real := 0.7
  const ShingleSize: nat := 15

  datatype Tier = NearDuplicate | Approximate | Independent

  /** The tier of a similarity: the two thresholds are inclusive lower bounds. */
  function TierOf(sim: real): (t: Tier)
    ensures t == NearDuplicate <==> sim >= NearDuplicateThreshold
    ensures t == Approximate <==> ApproximateThreshold <= sim < NearDuplicateThreshold
    ensures t == Independent <==> sim < ApproximateThreshold
  {
    if sim >= NearDuplicateThreshold then NearDuplicate
    else if sim >= ApproximateThreshold then Approximate
    else Independent
  }

  // ------------------------------------------------------------ input pages

  /** An entry of the PSEO root; `indexHtml` is its index.html when there is one. */
  datatype DirEntry = DirEntry(name: string, isDirectory: bool, indexHtml: Option<string>)

  predicate Built(e: DirEntry) {
    e.isDirectory && e.indexHtml.Some?
  }

  /** The directories kept by the listing filter, in listing order. */
  function BuiltDirs(entries: seq<DirEntry>): (r: seq<string>)
    ensures forall d :: d in r <==> exists i :: 0 <= i < |entries| && Built(entries[i]) && entries[i].name == d
  {
    if entries == [] then []
    else
      var init := entries[..|entries| - 1];
      var e := entries[|entries| - 1];
      assert forall i :: 0 <= i < |init| ==> init[i] == entries[i];
      BuiltDirs(init) + (if Built(e) then [e.name] else [])
  }

  /** The `contentTexts` map: each built directory's boilerplate-free text. */
  function ContentTexts(entries: seq<DirEntry>, strip: string -> string): (t: map<string, string>)
    ensures forall d :: d in t <==> d in BuiltDirs(entries)
  {
    if entries == [] then map[]
    else
      var e := entries[|entries| - 1];
      var t := ContentTexts(entries[..|entries| - 1], strip);
      if Built(e) then t[e.name := strip(e.indexHtml.value)] else t
  }

  /** `[...contentTexts.keys()].sort()`. */
  function Slugs(entries: seq<DirEntry>): seq<string> {
    SortStrings(Dedup(BuiltDirs(entries)))
  }

  /** The slugs are sorted, distinct and exactly the keys of the text map. */
  lemma SlugsSpec(entries: seq<DirEntry>, strip: string -> string)
    ensures SortedStrings(Slugs(entries)) && Distinct(Slugs(entries))
    ensures forall s :: s in Slugs(entries) <==> s in ContentTexts(entries, strip)
  {
    var d := Dedup(BuiltDirs(entries));
    var r := SortStrings(d);
    DistinctPerm(r, d);
    forall s
      ensures s in r <==> s in d
    {
      assert s in r <==> s in multiset(r);
      assert s in d <==> s in multiset(d);
    }
  }

  // ----------------------------------------------------------- similarities

  /** The similarity of two slugs' texts; 0 for a slug without text. */
  function Sim(t: map<string, string>, a: string, b: string): real {
    if a in t && b in t
    then Similarity.Jaccard(Similarity.Shingles(t[a], ShingleSize), Similarity.Shingles(t[b], ShingleSize))
    else 0.0
  }

  lemma SimSymmetric(t: map<string, string>, a: string, b: string)
    ensures Sim(t, a, b) == Sim(t, b, a)
  {
    if a in t && b in t {
      Similarity.JaccardSymmetric(Similarity.Shingles(t[a], ShingleSize), Similarity.Shingles(t[b], ShingleSize));
    }
  }

  /** One step of the inner loop: slug `b` and its similarity with the page. */
  datatype Cand = Cand(slug: string, sim: real)

  function Cands(t: map<string, string>, a: string, bs: seq<string>): (cs: seq<Cand>)
    ensures |cs| == |bs|
  {
    if bs == [] then []
    else Cands(t, a, bs[..|bs| - 1]) + [Cand(bs[|bs| - 1], Sim(t, a, bs[|bs| - 1]))]
  }

  lemma {:induction false} CandAt(t: map<string, string>, a: string, bs: seq<string>, i: nat)
    requires i < |bs|
    ensures Cands(t, a, bs)[i] == Cand(bs[i], Sim(t, a, bs[i]))
  {
    if i < |bs| - 1 {
      CandAt(t, a, bs[..|bs| - 1], i);
    }
  }

  /** `contentMax`/`contentWith`: from (0, ""), moved only by a strictly greater similarity. */
  function Best(self: string, cs: seq<Cand>): (string, real) {
    if cs == [] then ("", 0.0)
    else
      var prev := Best(self, cs[..|cs| - 1]);
      var c := cs[|cs| - 1];
      if c.slug != self && c.sim > prev.1 then (c.slug, c.sim) else prev
  }

  /** The maximum bounds every other page, and is 0 exactly when no partner was taken. */
  lemma {:induction false} BestBound(self: string, cs: seq<Cand>)
    ensures Best(self, cs).1 >= 0.0
    ensures forall i :: 0 <= i < |cs| && cs[i].slug != self ==> cs[i].sim <= Best(self, cs).1
    ensures Best(self, cs).1 == 0.0 ==> Best(self, cs).0 == ""
  {
    if cs != [] {
      var init := cs[..|cs| - 1];
      BestBound(self, init);
      assert forall i :: 0 <= i < |init| ==> cs[i] == init[i];
    }
  }

  /**
   * A positive maximum is attained by its partner, which is another page,
   * and that partner is the first page in slug order to attain it: every
   * other page before it has a strictly smaller similarity.
   */
  lemma {:induction false} BestAttained(self: string, cs: seq<Cand>)
    ensures Best(self, cs).1 > 0.0 ==>
      exists j :: 0 <= j < |cs| && cs[j].slug == Best(self, cs).0 && cs[j].slug != self
        && cs[j].sim == Best(self, cs).1
        && forall k :: 0 <= k < j && cs[k].slug != self ==> cs[k].sim < Best(self, cs).1
  {
    if cs != [] {
      var n := |cs| - 1;
      var init := cs[..n];
      var prev := Best(self, init);
      var c := cs[n];
      BestAttained(self, init);
      if c.slug != self && c.sim > prev.1 {
        BestBound(self, init);
        assert forall k :: 0 <= k < n ==> cs[k] == init[k];
      } else if prev.1 > 0.0 {
        var j :| 0 <= j < |init| && init[j].slug == prev.0 && init[j].slug != self && init[j].sim == prev.1
          && forall k :: 0 <= k < j && init[k].slug != self ==> init[k].sim < prev.1;
        assert cs[j] == init[j];
        assert forall k :: 0 <= k < j ==> cs[k] == init[k];
      }
    }
  }

  /** A row of `pairs`: an ordered pair of different pages at 0.70 or more. */
  datatype PairRow = PairRow(slugA: string, slugB: string, contentSimilarity: real, tier: Tier)

  function RowsOf(a: string, cs: seq<Cand>): seq<PairRow> {
    if cs == [] then []
    else
      var c := cs[|cs| - 1];
      RowsOf(a, cs[..|cs| - 1])
      + (if c.slug != a && c.sim >= ApproximateThreshold then [PairRow(a, c.slug, c.sim, TierOf(c.sim))] else [])
  }

  /** The `bySlug` entry of a page. */
  datatype PageDup = PageDup(contentMax: real, contentWith: string, tier: Tier)

  function EntryOf(a: string, cs: seq<Cand>): PageDup {
    PageDup(Best(a, cs).1, Best(a, cs).0, TierOf(Best(a, cs).1))
  }

  datatype Scan = Scan(bySlug: map<string, PageDup>, pairs: seq<PairRow>)

  function Compared(s: Scan, a: string, cs: seq<Cand>): Scan {
    Scan(s.bySlug[a := EntryOf(a, cs)], s.pairs + RowsOf(a, cs))
  }

  /** The outer loop over `pages`, each compared with every slug. */
  function ScanAll(t: map<string, string>, slugs: seq<string>, pages: seq<string>): Scan {
    if pages == [] then Scan(map[], [])
    else
      var a := pages[|pages| - 1];
      Compared(ScanAll(t, slugs, pages[..|pages| - 1]), a, Cands(t, a, slugs))
  }

  // ---------------------------------------------------------- what it means

  /** The condition under which a compared page's ordered pair is a row. */
  ghost predicate IsRow(t: map<string, string>, slugs: seq<string>, p: PairRow) {
    p.slugB in slugs && p.slugA != p.slugB
    && p.contentSimilarity == Sim(t, p.slugA, p.slugB)
    && p.contentSimilarity >= ApproximateThreshold && p.tier == TierOf(p.contentSimilarity)
  }

  lemma {:induction false} RowsOfMembers(t: map<string, string>, a: string, bs: seq<string>)
    ensures forall p :: p in RowsOf(a, Cands(t, a, bs)) <==>
      p.slugA == a && p.slugB in bs && p.slugB != a && p.contentSimilarity == Sim(t, a, p.slugB)
      && p.contentSimilarity >= ApproximateThreshold && p.tier == TierOf(p.contentSimilarity)
  {
    if bs != [] {
      var init := bs[..|bs| - 1];
      RowsOfMembers(t, a, init);
      assert Cands(t, a, bs)[..|bs| - 1] == Cands(t, a, init);
      assert forall b :: b in bs <==> b in init || b == bs[|bs| - 1];
    }
  }

  lemma {:induction false} RowsOfDistinct(t: map<string, string>, a: string, bs: seq<string>)
    requires Distinct(bs)
    ensures Distinct(RowsOf(a, Cands(t, a, bs)))
  {
    if bs != [] {
      var init := bs[..|bs| - 1];
      RowsOfDistinct(t, a, init);
      RowsOfMembers(t, a, init);
      assert Cands(t, a, bs)[..|bs| - 1] == Cands(t, a, init);
      assert bs[|bs| - 1] !in init;
    }
  }

  /** The rows are exactly the ordered pairs of different pages at 0.70 or more. */
  lemma {:induction false} ScanAllPairs(t: map<string, string>, slugs: seq<string>, pages: seq<string>)
    ensures forall p :: p in ScanAll(t, slugs, pages).pairs <==> p.slugA in pages && IsRow(t, slugs, p)
  {
    if pages != [] {
      var init := pages[..|pages| - 1];
      var a := pages[|pages| - 1];
      ScanAllPairs(t, slugs, init);
      RowsOfMembers(t, a, slugs);
      assert forall x :: x in pages <==> x in init || x == a;
    }
  }

  /** No ordered pair is listed twice. */
  lemma {:induction false} ScanAllPairsDistinct(t: map<string, string>, slugs: seq<string>, pages: seq<string>)
    requires Distinct(slugs) && Distinct(pages)
    ensures Distinct(ScanAll(t, slugs, pages).pairs)
  {
    if pages != [] {
      var init := pages[..|pages| - 1];
      var a := pages[|pages| - 1];
      ScanAllPairsDistinct(t, slugs, init);
      ScanAllPairs(t, slugs, init);
      RowsOfMembers(t, a, slugs);
      RowsOfDistinct(t, a, slugs);
      assert a !in init;
      DistinctConcat(ScanAll(t, slugs, init).pairs, RowsOf(a, Cands(t, a, slugs)));
    }
  }

  /** The `bySlug` entries: one per compared page, its maximum over every other slug. */
  lemma {:induction false} ScanAllBySlug(t: map<string, string>, slugs: seq<string>, pages: seq<string>)
    ensures forall a :: a in ScanAll(t, slugs, pages).bySlug <==> a in pages
    ensures forall a :: a in pages ==> ScanAll(t, slugs, pages).bySlug[a] == EntryOf(a, Cands(t, a, slugs))
  {
    if pages != [] {
      ScanAllBySlug(t, slugs, pages[..|pages| - 1]);
      assert forall x :: x in pages <==> x in pages[..|pages| - 1] || x == pages[|pages| - 1];
    }
  }

  /** A page's maximum is at least its similarity with every other slug. */
  lemma EntryBound(t: map<string, string>, slugs: seq<string>, a: string, b: string)
    requires b in slugs && b != a
    ensures Sim(t, a, b) <= EntryOf(a, Cands(t, a, slugs)).contentMax
  {
    var i :| 0 <= i < |slugs| && slugs[i] == b;
    CandAt(t, a, slugs, i);
    BestBound(a, Cands(t, a, slugs));
  }

  /** A near-duplicate (or approximate) page has its partner's row among the pairs. */
  lemma EntryHasRow(t: map<string, string>, slugs: seq<string>, a: string)
    requires a in slugs
    requires EntryOf(a, Cands(t, a, slugs)).tier != Independent
    ensures IsRow(t, slugs, PairRow(a, EntryOf(a, Cands(t, a, slugs)).contentWith,
                                   EntryOf(a, Cands(t, a, slugs)).contentMax,
                                   EntryOf(a, Cands(t, a, slugs)).tier))
  {
    var cs := Cands(t, a, slugs);
    BestAttained(a, cs);
    var j :| 0 <= j < |cs| && cs[j].slug == Best(a, cs).0 && cs[j].slug != a && cs[j].sim == Best(a, cs).1;
    CandAt(t, a, slugs, j);
  }

  // -------------------------------------------------------- tiers and counts

  function WithTier(rows: seq<PairRow>, tier: Tier): (r: seq<PairRow>)
    ensures forall p :: p in r <==> p in rows && p.tier == tier
  {
    if rows == [] then []
    else
      var p := rows[|rows| - 1];
      WithTier(rows[..|rows| - 1], tier) + (if p.tier == tier then [p] else [])
  }

  lemma {:induction false} WithTierDistinct(rows: seq<PairRow>, tier: Tier)
    requires Distinct(rows)
    ensures Distinct(WithTier(rows, tier))
  {
    if rows != [] {
      var init := rows[..|rows| - 1];
      WithTierDistinct(init, tier);
      assert rows[|rows| - 1] !in init;
    }
  }

  /** No row is independent, so the two tier lists split the rows. */
  lemma {:induction false} TierSplit(rows: seq<PairRow>)
    requires forall p :: p in rows ==> p.tier != Independent
    ensures |WithTier(rows, NearDuplicate)| + |WithTier(rows, Approximate)| == |rows|
  {
    if rows != [] {
      TierSplit(rows[..|rows| - 1]);
    }
  }

  function Swap(p: PairRow): PairRow {
    PairRow(p.slugB, p.slugA, p.contentSimilarity, p.tier)
  }

  /** A set closed under a swap with no fixed point has an even size. */
  lemma {:induction false} EvenUnderSwap(s: set<PairRow>)
    requires forall p :: p in s ==> Swap(p) in s && p.slugA != p.slugB
    ensures |s| % 2 == 0
    decreases |s|
  {
    if s != {} {
      var p :| p in s;
      var rest := s - {p, Swap(p)};
      assert forall q :: q in rest ==> Swap(q) in rest;
      EvenUnderSwap(rest);
      assert |s| == |rest| + 2;
    }
  }

  /** Both pair lists hold each unordered pair twice, so their lengths are even. */
  lemma PairCountsEven(t: map<string, string>, slugs: seq<string>, tier: Tier)
    requires Distinct(slugs)
    ensures |WithTier(ScanAll(t, slugs, slugs).pairs, tier)| % 2 == 0
  {
    var w := WithTier(ScanAll(t, slugs, slugs).pairs, tier);
    ScanAllPairsDistinct(t, slugs, slugs);
    WithTierDistinct(ScanAll(t, slugs, slugs).pairs, tier);
    DistinctCard(w);
    SetOfMembers(w);
    WithTierSwapClosed(t, slugs, tier);
    EvenUnderSwap(SetOf(w));
  }

  /** A reported pair of one tier comes with its swap, and no page is paired with itself. */
  lemma WithTierSwapClosed(t: map<string, string>, slugs: seq<string>, tier: Tier)
    ensures forall p :: p in WithTier(ScanAll(t, slugs, slugs).pairs, tier) ==>
      Swap(p) in WithTier(ScanAll(t, slugs, slugs).pairs, tier) && p.slugA != p.slugB
  {
    ScanAllPairs(t, slugs, slugs);
    forall p | p in WithTier(ScanAll(t, slugs, slugs).pairs, tier)
      ensures Swap(p) in WithTier(ScanAll(t, slugs, slugs).pairs, tier)
    {
      SimSymmetric(t, p.slugA, p.slugB);
    }
  }

  /** `Object.values(bySlug).filter((v) => v.tier === tier).length`. */
  function CountTier(slugs: seq<string>, bySlug: map<string, PageDup>, tier: Tier): nat {
    if slugs == [] then 0
    else
      var s := slugs[|slugs| - 1];
      CountTier(slugs[..|slugs| - 1], bySlug, tier) + (if s in bySlug && bySlug[s].tier == tier then 1 else 0)
  }

  /** Every page falls in exactly one tier. */
  lemma {:induction false} PageCountsSum(slugs: seq<string>, bySlug: map<string, PageDup>)
    requires forall s :: s in slugs ==> s in bySlug
    ensures CountTier(slugs, bySlug, Independent) + CountTier(slugs, bySlug, Approximate)
          + CountTier(slugs, bySlug, NearDuplicate) == |slugs|
  {
    if slugs != [] {
      PageCountsSum(slugs[..|slugs| - 1], bySlug);
    }
  }

  // ------------------------------------------------------------ cluster map

  /** The cluster guesses read from the URL SSOT rows (later rows win). */
  function GuessMap(rows: seq<(string, string)>): map<string, string> {
    if rows == [] then map[]
    else GuessMap(rows[..|rows| - 1])[rows[|rows| - 1].0 := rows[|rows| - 1].1]
  }

  /** A slug without a (non-empty) guess gets evidence-pack or other. */
  function FillGuesses(m: map<string, string>, slugs: seq<string>): map<string, string> {
    if slugs == [] then m
    else
      var f := FillGuesses(m, slugs[..|slugs| - 1]);
      var s := slugs[|slugs| - 1];
      if s in f && f[s] != "" then f
      else f[s := if Contains(s, "evidence-pack") then "evidence-pack" else "other"]
  }

  /** `clusterGuessMap[slug_a] || "other"`. */
  function ClusterOf(m: map<string, string>, slug: string): string {
    if slug in m && m[slug] != "" then m[slug] else "other"
  }

  /** Each slug's cluster is its SSOT guess when non-empty, else the name-based default. */
  lemma {:induction false} FillGuessesSpec(m: map<string, string>, slugs: seq<string>, s: string)
    requires s in slugs
    ensures s in FillGuesses(m, slugs) && FillGuesses(m, slugs)[s] != ""
    ensures ClusterOf(FillGuesses(m, slugs), s)
         == if s in m && m[s] != "" then m[s]
            else if Contains(s, "evidence-pack") then "evidence-pack" else "other"
  {
    var init := slugs[..|slugs| - 1];
    if s in init {
      FillGuessesSpec(m, init, s);
    } else {
      FillUntouched(m, init, s);
    }
  }

  lemma {:induction false} FillUntouched(m: map<string, string>, slugs: seq<string>, s: string)
    requires s !in slugs
    ensures (s in FillGuesses(m, slugs)) == (s in m)
    ensures s in m ==> FillGuesses(m, slugs)[s] == m[s]
  {
    if slugs != [] {
      FillUntouched(m, slugs[..|slugs| - 1], s);
    }
  }

  datatype ClusterDup = ClusterDup(slugA: string, slugB: string, similarity: real)

  function ClusterItems(m: map<string, string>, rows: seq<PairRow>): seq<(string, ClusterDup)> {
    if rows == [] then []
    else
      var p := rows[|rows| - 1];
      ClusterItems(m, rows[..|rows| - 1]) + [(ClusterOf(m, p.slugA), ClusterDup(p.slugA, p.slugB, p.contentSimilarity))]
  }

  // ------------------------------------------------------------- the report

  datatype Summary = Summary(totalPages: nat, nearDuplicatePairs: nat, approximatePairs: nat,
                             independentPages: nat, approximatePages: nat, nearDuplicatePages: nat)

  datatype Report = Report(summary: Summary, bySlug: map<string, PageDup>,
                           pairsNearDuplicate: seq<PairRow>, pairsApproximate: seq<PairRow>,
                           clusterDuplicateMap: Grouping<string, ClusterDup>)

  /**
   * The report written by `run`; a missing PSEO root is a failure. `ssotRows`
   * is None when the URL SSOT is missing or unreadable.
   */
  function DuplicateReport(rootExists: bool, entries: seq<DirEntry>, strip: string -> string,
                           ssotRows: Option<seq<(string, string)>>): Result<Report, string> {
    if !rootExists then Failure("PSEO root not found")
    else
      var t := ContentTexts(entries, strip);
      var slugs := Slugs(entries);
      var s := ScanAll(t, slugs, slugs);
      var near := WithTier(s.pairs, NearDuplicate);
      var approx := WithTier(s.pairs, Approximate);
      var guesses := FillGuesses(GuessMap(if ssotRows.Some? then ssotRows.value else []), slugs);
      Success(Report(
        Summary(|slugs|, |near|, |approx|, CountTier(slugs, s.bySlug, Independent),
                CountTier(slugs, s.bySlug, Approximate), CountTier(slugs, s.bySlug, NearDuplicate)),
        s.bySlug, near, approx, GroupBy(ClusterItems(guesses, near + approx))))
  }

  /**
   * The summary's counts: page tiers add up to the page total, pair tiers to
   * the number of rows, and each pair count is even.
   */
  lemma SummaryConsistent(entries: seq<DirEntry>, strip: string -> string, ssotRows: Option<seq<(string, string)>>)
    ensures var r := DuplicateReport(true, entries, strip, ssotRows).value.summary;
      r.independentPages + r.approximatePages + r.nearDuplicatePages == r.totalPages
      && r.nearDuplicatePairs % 2 == 0 && r.approximatePairs % 2 == 0
      && r.nearDuplicatePairs + r.approximatePairs
         == |ScanAll(ContentTexts(entries, strip), Slugs(entries), Slugs(entries)).pairs|
  {
    var t := ContentTexts(entries, strip);
    var slugs := Slugs(entries);
    SlugsSpec(entries, strip);
    ScanAllBySlug(t, slugs, slugs);
    PageCountsSum(slugs, ScanAll(t, slugs, slugs).bySlug);
    PairCountsEven(t, slugs, NearDuplicate);
    PairCountsEven(t, slugs, Approximate);
    ScanAllPairs(t, slugs, slugs);
    TierSplit(ScanAll(t, slugs, slugs).pairs);
  }

  /** A near-duplicate pair is listed in both orders, with the same similarity. */
  lemma NearPairsSymmetric(entries: seq<DirEntry>, strip: string -> string,
                           ssotRows: Option<seq<(string, string)>>, p: PairRow)
    ensures var r := DuplicateReport(true, entries, strip, ssotRows).value;
      p in r.pairsNearDuplicate <==> Swap(p) in r.pairsNearDuplicate
  {
    var t := ContentTexts(entries, strip);
    var slugs := Slugs(entries);
    SlugsSpec(entries, strip);
    ScanAllPairs(t, slugs, slugs);
    SimSymmetric(t, p.slugA, p.slugB);
  }

  /**
   * The cluster map lists, under each cluster, the near-duplicate then the
   * approximate pairs whose first page has that cluster, and nothing else.
   */
  lemma ClusterMapSpec(m: map<string, string>, rows: seq<PairRow>)
    ensures var g := GroupBy(ClusterItems(m, rows));
      forall c :: c in g.groups ==> g.groups[c] == ValuesFor(ClusterItems(m, rows), c) != []
    ensures var g := GroupBy(ClusterItems(m, rows));
      forall c, p :: p in rows && ClusterOf(m, p.slugA) == c ==>
        c in g.groups && ClusterDup(p.slugA, p.slugB, p.contentSimilarity) in g.groups[c]
  {
    var items := ClusterItems(m, rows);
    GroupByCorrect(items);
    forall c, p | p in rows && ClusterOf(m, p.slugA) == c
      ensures c in GroupBy(items).groups && ClusterDup(p.slugA, p.slugB, p.contentSimilarity) in GroupBy(items).groups[c]
    {
      ClusterItemsHas(m, rows, p);
      ValuesForHas(items, c, ClusterDup(p.slugA, p.slugB, p.contentSimilarity));
    }
  }

  lemma {:induction false} ClusterItemsHas(m: map<string, string>, rows: seq<PairRow>, p: PairRow)
    requires p in rows
    ensures (ClusterOf(m, p.slugA), ClusterDup(p.slugA, p.slugB, p.contentSimilarity)) in ClusterItems(m, rows)
  {
    if rows[|rows| - 1] != p {
      assert p in rows[..|rows| - 1];
      ClusterItemsHas(m, rows[..|rows| - 1], p);
    }
  }

  lemma {:induction false} ValuesForHas<K, V>(items: seq<(K, V)>, k: K, v: V)
    requires (k, v) in items
    ensures v in ValuesFor(items, k)
  {
    if items[|items| - 1] != (k, v) {
      assert (k, v) in items[..|items| - 1];
      ValuesForHas(items[..|items| - 1], k, v);
    }
  }

  // ------------------------------------------------------------- the script

  /** The loading loop: strip each built page and cache its shingles. */
  method LoadPages(entries: seq<DirEntry>, strip: string -> string)
    returns (t: map<string, string>, cache: map<string, set<string>>)
    ensures t == ContentTexts(entries, strip)
    ensures forall d :: d in cache <==> d in t
    ensures forall d :: d in cache ==> cache[d] == Similarity.Shingles(t[d], ShingleSize)
  {
    t, cache := map[], map[];
    var i := 0;
    while i < |entries|
      invariant i <= |entries|
      invariant t == ContentTexts(entries[..i], strip)
      invariant forall d :: d in cache <==> d in t
      invariant forall d :: d in cache ==> cache[d] == Similarity.Shingles(t[d], ShingleSize)
    {
      assert entries[..i + 1][..i] == entries[..i];
      var e := entries[i];
      if e.isDirectory && e.indexHtml.Some? {
        var content := strip(e.indexHtml.value);
        var sh := Similarity.Shingle(content, ShingleSize);
        t := t[e.name := content];
        cache := cache[e.name := sh];
      }
      i := i + 1;
    }
    assert entries[..i] == entries;
  }

  /** The inner loop's variables once page `a` has met the candidates `cs`. */
  datatype Acc = Acc(contentWith: string, contentMax: real, pairs: seq<PairRow>)

  function AccOf(a: string, cs: seq<Cand>, pairs0: seq<PairRow>): Acc {
    Acc(Best(a, cs).0, Best(a, cs).1, pairs0 + RowsOf(a, cs))
  }

  /** The body of the inner loop for a slug `b` other than `a`. */
  method Visit(a: string, b: string, sim: real, acc: Acc, ghost cs: seq<Cand>, ghost pairs0: seq<PairRow>)
    returns (acc': Acc)
    requires a != b
    requires acc == AccOf(a, cs, pairs0)
    ensures acc' == AccOf(a, cs + [Cand(b, sim)], pairs0)
  {
    assert (cs + [Cand(b, sim)])[..|cs|] == cs;
    acc' := acc;
    if sim > acc.contentMax {
      acc' := acc'.(contentWith := b, contentMax := sim);
    }
    var tier := if sim >= NearDuplicateThreshold then NearDuplicate
                else if sim >= ApproximateThreshold then Approximate else Independent;
    if sim >= ApproximateThreshold {
      acc' := acc'.(pairs := acc.pairs + [PairRow(a, b, sim, tier)]);
    }
  }

  /** One pass of the inner loop: page `a` against every slug. */
  method CompareOne(t: map<string, string>, cache: map<string, set<string>>, slugs: seq<string>,
                    a: string, s: Scan) returns (s': Scan)
    requires forall d :: d in slugs ==> d in t && d in cache
    requires forall d :: d in cache && d in t ==> cache[d] == Similarity.Shingles(t[d], ShingleSize)
    requires a in slugs
    ensures s' == Compared(s, a, Cands(t, a, slugs))
  {
    var setA := cache[a];
    var acc := Acc("", 0.0, s.pairs);
    ghost var cs: seq<Cand> := [];
    var j := 0;
    while j < |slugs|
      invariant j <= |slugs|
      invariant cs == Cands(t, a, slugs[..j])
      invariant acc == AccOf(a, cs, s.pairs)
    {
      acc, cs := CompareStep(t, cache, slugs, a, setA, j, acc, cs, s.pairs);
      j := j + 1;
    }
    assert slugs[..j] == slugs;
    var tier := if acc.contentMax >= NearDuplicateThreshold then NearDuplicate
                else if acc.contentMax >= ApproximateThreshold then Approximate else Independent;
    s' := Scan(s.bySlug[a := PageDup(acc.contentMax, acc.contentWith, tier)], acc.pairs);
  }

  /** One iteration of that loop: page `a` against `slugs[j]`. */
  method CompareStep(t: map<string, string>, cache: map<string, set<string>>, slugs: seq<string>,
                     a: string, setA: set<string>, j: nat, acc: Acc, ghost cs: seq<Cand>,
                     ghost pairs0: seq<PairRow>)
    returns (acc': Acc, ghost cs': seq<Cand>)
    requires forall d :: d in slugs ==> d in t && d in cache
    requires forall d :: d in cache && d in t ==> cache[d] == Similarity.Shingles(t[d], ShingleSize)
    requires a in slugs && j < |slugs| && setA == cache[a]
    requires cs == Cands(t, a, slugs[..j]) && acc == AccOf(a, cs, pairs0)
    ensures cs' == Cands(t, a, slugs[..j + 1]) && acc' == AccOf(a, cs', pairs0)
  {
    var b := slugs[j];
    assert slugs[..j + 1][..j] == slugs[..j];
    if a != b {
      var sim := Similarity.JaccardCount(setA, cache[b]);
      acc' := Visit(a, b, sim, acc, cs, pairs0);
    } else {
      assert (cs + [Cand(b, Sim(t, a, b))])[..|cs|] == cs;
      acc' := acc;
    }
    cs' := cs + [Cand(b, Sim(t, a, b))];
  }

  /** The comparison loops of `run`: every ordered pair of distinct slugs. */
  method CompareAll(t: map<string, string>, cache: map<string, set<string>>, slugs: seq<string>)
    returns (s: Scan)
    requires forall d :: d in slugs ==> d in t && d in cache
    requires forall d :: d in cache && d in t ==> cache[d] == Similarity.Shingles(t[d], ShingleSize)
    ensures s == ScanAll(t, slugs, slugs)
  {
    s := Scan(map[], []);
    var i := 0;
    while i < |slugs|
      invariant i <= |slugs|
      invariant s == ScanAll(t, slugs, slugs[..i])
    {
      assert slugs[..i + 1][..i] == slugs[..i];
      s := CompareOne(t, cache, slugs, slugs[i], s);
      i := i + 1;
    }
    assert slugs[..i] == slugs;
  }

  /** The cluster-map loop: group the near-duplicate then approximate rows by cluster. */
  method GroupClusters(m: map<string, string>, rows: seq<PairRow>) returns (g: Grouping<string, ClusterDup>)
    ensures g == GroupBy(ClusterItems(m, rows))
  {
    g := Grouping([], map[]);
    var i := 0;
    while i < |rows|
      invariant i <= |rows|
      invariant g == GroupBy(ClusterItems(m, rows[..i]))
    {
      assert rows[..i + 1][..i] == rows[..i];
      var p := rows[i];
      var c := if p.slugA in m && m[p.slugA] != "" then m[p.slugA] else "other";
      var item := ClusterDup(p.slugA, p.slugB, p.contentSimilarity);
      assert ClusterItems(m, rows[..i + 1]) == ClusterItems(m, rows[..i]) + [(c, item)];
      if c in g.groups {
        g := Grouping(g.keys, g.groups[c := g.groups[c] + [item]]);
      } else {
        g := Grouping(g.keys + [c], g.groups[c := [item]]);
      }
      i := i + 1;
    }
    assert rows[..i] == rows;
  }

  /** The whole script, from the PSEO root listing to the report it writes. */
  method Run(rootExists: bool, entries: seq<DirEntry>, strip: string -> string,
             ssotRows: Option<seq<(string, string)>>) returns (r: Result<Report, string>)
    ensures r == DuplicateReport(rootExists, entries, strip, ssotRows)
  {
    if !rootExists {
      return Failure("PSEO root not found");
    }
    var t, cache := LoadPages(entries, strip);
    var slugs := Slugs(entries);
    SlugsSpec(entries, strip);
    var s := CompareAll(t, cache, slugs);
    var near := WithTier(s.pairs, NearDuplicate);
    var approx := WithTier(s.pairs, Approximate);
    var guesses := FillGuesses(GuessMap(if ssotRows.Some? then ssotRows.value else []), slugs);
    var clusters := GroupClusters(guesses, near + approx);
    r := Success(Report(
      Summary(|slugs|, |near|, |approx|, CountTier(slugs, s.bySlug, Independent),
              CountTier(slugs, s.bySlug, Approximate), CountTier(slugs, s.bySlug, NearDuplicate)),
      s.bySlug, near, approx, clusters));
  }
}
