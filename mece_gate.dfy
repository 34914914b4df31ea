/**
 * The MECE gate of the PSEO pipeline: among the pages that are indexed, no
 * two may serve the same search intent. With the page SSOT present the gate
 * reads its `robots` and `intent_id` fields; without it, it falls back to the
 * index allowlist joined with the search-intent taxonomy, and when that
 * taxonomy is missing too it only warns.
 */
module MeceGate {
  import opened Wrappers
  import opened Seqs

  const IndexFollow: string := "index,follow"

  // ------------------------------------------------------------ SSOT path

  /** A page of the SSOT, as far as the gate reads it. */
  datatype SsotPage = SsotPage(intentId: string, robots: string, url: Option<string>)

  /** What a violation lists for a page: its url, or its intent id when it has none. */
  function UrlOf(p: SsotPage): string {
    p.url.GetOr(p.intentId)
  }

  /** The pages whose robots directive is exactly "index,follow", in order. */
  function Indexable(pages: seq<SsotPage>): seq<SsotPage> {
    if pages == [] then []
    else
      var p := pages[|pages| - 1];
      Indexable(pages[..|pages| - 1]) + (if p.robots == IndexFollow then [p] else [])
  }

  lemma {:induction false} IndexableMembers(pages: seq<SsotPage>)
    ensures forall p :: p in Indexable(pages) <==> p in pages && p.robots == IndexFollow
  {
    if pages != [] {
      var n := |pages| - 1;
      IndexableMembers(pages[..n]);
      assert pages == pages[..n] + [pages[n]];
    }
  }

  /** The (intent id, url) pairs the SSOT loop pushes, one per indexable page. */
  function UrlItems(ps: seq<SsotPage>): seq<(string, string)> {
    if ps == [] then []
    else UrlItems(ps[..|ps| - 1]) + [(ps[|ps| - 1].intentId, UrlOf(ps[|ps| - 1]))]
  }

  lemma {:induction false} UrlItemsAt(ps: seq<SsotPage>)
    ensures |UrlItems(ps)| == |ps|
    ensures forall i :: 0 <= i < |ps| ==> UrlItems(ps)[i] == (ps[i].intentId, UrlOf(ps[i]))
  {
    if ps != [] {
      UrlItemsAt(ps[..|ps| - 1]);
    }
  }

  // ----------------------------------------------------------- violations

  /** One line of the failure report: an intent id, how many pages, and which. */
  datatype Violation = Violation(intentId: string, count: nat, pages: seq<string>)

  /** The violations loop: one per key, in key order, whose list has more than one entry. */
  function ViolationsOf(keys: seq<string>, groups: map<string, seq<string>>): seq<Violation> {
    if keys == [] then []
    else
      var k := keys[|keys| - 1];
      ViolationsOf(keys[..|keys| - 1], groups)
      + (if k in groups && |groups[k]| > 1 then [Violation(k, |groups[k]|, groups[k])] else [])
  }

  lemma {:induction false} ViolationsOfMembers(keys: seq<string>, groups: map<string, seq<string>>)
    ensures forall v :: v in ViolationsOf(keys, groups) <==>
      v.intentId in keys && v.intentId in groups && |groups[v.intentId]| > 1
      && v == Violation(v.intentId, |groups[v.intentId]|, groups[v.intentId])
  {
    if keys != [] {
      var n := |keys| - 1;
      ViolationsOfMembers(keys[..n], groups);
      assert keys == keys[..n] + [keys[n]];
    }
  }

  /** Over distinct keys, no intent id is reported twice. */
  lemma {:induction false} ViolationsOfDistinct(keys: seq<string>, groups: map<string, seq<string>>)
    requires Distinct(keys)
    ensures forall i, j :: 0 <= i < j < |ViolationsOf(keys, groups)| ==>
      ViolationsOf(keys, groups)[i].intentId != ViolationsOf(keys, groups)[j].intentId
  {
    if keys != [] {
      var n := |keys| - 1;
      var k := keys[n];
      DistinctInit(keys);
      ViolationsOfDistinct(keys[..n], groups);
      ViolationsOfMembers(keys[..n], groups);
      var vs0 := ViolationsOf(keys[..n], groups);
      if k in groups && |groups[k]| > 1 {
        var vs := vs0 + [Violation(k, |groups[k]|, groups[k])];
        assert ViolationsOf(keys, groups) == vs;
        forall i, j | 0 <= i < j < |vs|
          ensures vs[i].intentId != vs[j].intentId
        {
          assert vs[i] == vs0[i];
          assert vs0[i] in vs0;
          assert vs0[i].intentId in keys[..n];
          if j < |vs0| {
            assert vs[j] == vs0[j];
          } else {
            assert vs[j].intentId == k;
          }
        }
      } else {
        assert ViolationsOf(keys, groups) == vs0;
      }
    }
  }

  /** Some two items share a key. */
  predicate SharedKey(items: seq<(string, string)>) {
    exists i, j :: 0 <= i < j < |items| && items[i].0 == items[j].0
  }

  /**
   * The report of a grouping built from `items`: a violation for exactly the
   * keys with more than one value, listing all of them in input order, each
   * key at most once.
   */
  lemma ReportOf(items: seq<(string, string)>)
    ensures var vs := ViolationsOf(GroupBy(items).keys, GroupBy(items).groups);
      (forall v :: v in vs <==>
        |ValuesFor(items, v.intentId)| > 1
        && v == Violation(v.intentId, |ValuesFor(items, v.intentId)|, ValuesFor(items, v.intentId)))
      && forall i, j :: 0 <= i < j < |vs| ==> vs[i].intentId != vs[j].intentId
  {
    var g := GroupBy(items);
    GroupByCorrect(items);
    ViolationsOfMembers(g.keys, g.groups);
    ViolationsOfDistinct(g.keys, g.groups);
    forall v
      ensures v in ViolationsOf(g.keys, g.groups) <==>
        |ValuesFor(items, v.intentId)| > 1
        && v == Violation(v.intentId, |ValuesFor(items, v.intentId)|, ValuesFor(items, v.intentId))
    {
      if v.intentId !in g.groups {
        assert ValuesFor(items, v.intentId) == [];
      }
    }
  }

  /** No violation at all exactly when no two items share a key. */
  lemma ReportEmptyIff(items: seq<(string, string)>)
    ensures ViolationsOf(GroupBy(items).keys, GroupBy(items).groups) == [] <==> !SharedKey(items)
  {
    var g := GroupBy(items);
    ReportOf(items);
    if !SharedKey(items) {
      var vs := ViolationsOf(g.keys, g.groups);
      if vs != [] {
        assert vs[0] in vs;
        ValuesForAtMostOne(items, vs[0].intentId);
      }
    } else {
      var i, j :| 0 <= i < j < |items| && items[i].0 == items[j].0;
      var k := items[i].0;
      ValuesForTwo(items, i, j);
      var v := Violation(k, |ValuesFor(items, k)|, ValuesFor(items, k));
      assert v in ViolationsOf(g.keys, g.groups);
    }
  }

  // ------------------------------------------------------- fallback path

  /** An entry of the search-intent taxonomy, as far as the gate reads it. */
  datatype TaxonomyPage = TaxonomyPage(slug: string, intentId: string)

  /** `m.set(p.slug, p.intent_id)` for every page in order: the last entry for a slug wins. */
  function TaxonomyMap(pages: seq<TaxonomyPage>): map<string, string> {
    if pages == [] then map[]
    else
      var p := pages[|pages| - 1];
      TaxonomyMap(pages[..|pages| - 1])[p.slug := p.intentId]
  }

  /** A slug is mapped exactly when some entry names it, to the intent of its last entry. */
  lemma {:induction false} TaxonomyMapSpec(pages: seq<TaxonomyPage>, slug: string)
    ensures slug in TaxonomyMap(pages) <==> exists i :: 0 <= i < |pages| && pages[i].slug == slug
    ensures slug in TaxonomyMap(pages) ==>
      exists i :: 0 <= i < |pages| && pages[i].slug == slug && TaxonomyMap(pages)[slug] == pages[i].intentId
        && forall j :: i < j < |pages| ==> pages[j].slug != slug
  {
    if pages != [] {
      var n := |pages| - 1;
      TaxonomyMapSpec(pages[..n], slug);
      if pages[n].slug != slug {
        if slug in TaxonomyMap(pages) {
          var i :| 0 <= i < n && pages[..n][i].slug == slug && TaxonomyMap(pages[..n])[slug] == pages[..n][i].intentId
            && forall j :: i < j < n ==> pages[..n][j].slug != slug;
          assert pages[i] == pages[..n][i];
          assert forall j :: i < j < |pages| ==> pages[j].slug != slug by {
            forall j | i < j < |pages|
              ensures pages[j].slug != slug
            {
              if j < n {
                assert pages[..n][j] == pages[j];
              }
            }
          }
        }
        assert (exists i :: 0 <= i < |pages| && pages[i].slug == slug)
          ==> exists i :: 0 <= i < n && pages[..n][i].slug == slug by {
          if exists i :: 0 <= i < |pages| && pages[i].slug == slug {
            var i :| 0 <= i < |pages| && pages[i].slug == slug;
            assert pages[..n][i] == pages[i];
          }
        }
      }
    }
  }

  /** The taxonomy is empty exactly when there is no file, no page list, or an empty one. */
  lemma TaxonomyEmpty(pages: seq<TaxonomyPage>)
    ensures TaxonomyMap(pages) == map[] <==> pages == []
  {
    if pages != [] {
      var p := pages[|pages| - 1];
      assert p.slug in TaxonomyMap(pages);
    }
  }

  /**
   * The (intent, slug) pairs of the fallback loop: allowlisted slugs with a
   * non-empty taxonomy intent; the rest are skipped.
   */
  function AllowedItems(slugs: seq<string>, tax: map<string, string>): seq<(string, string)> {
    if slugs == [] then []
    else
      var s := slugs[|slugs| - 1];
      AllowedItems(slugs[..|slugs| - 1], tax) + (if s in tax && tax[s] != "" then [(tax[s], s)] else [])
  }

  lemma {:induction false} AllowedItemsMembers(slugs: seq<string>, tax: map<string, string>)
    ensures forall k, s :: (k, s) in AllowedItems(slugs, tax) <==> s in slugs && s in tax && tax[s] == k && k != ""
  {
    if slugs != [] {
      var n := |slugs| - 1;
      AllowedItemsMembers(slugs[..n], tax);
      assert slugs == slugs[..n] + [slugs[n]];
    }
  }

  lemma {:induction false} AllowedItemsDistinct(slugs: seq<string>, tax: map<string, string>)
    requires Distinct(slugs)
    ensures Distinct(AllowedItems(slugs, tax))
  {
    if slugs != [] {
      var n := |slugs| - 1;
      var s := slugs[n];
      DistinctInit(slugs);
      AllowedItemsDistinct(slugs[..n], tax);
      if s in tax && tax[s] != "" {
        AllowedItemsMembers(slugs[..n], tax);
        DistinctConcat(AllowedItems(slugs[..n], tax), [(tax[s], s)]);
      }
    }
  }

  // ---------------------------------------------------------------- inputs

  datatype SsotFile = SsotFile(pages: Option<seq<SsotPage>>)
  datatype AllowlistFile = AllowlistFile(allow: Option<seq<string>>)
  datatype TaxonomyFile = TaxonomyFile(pages: Option<seq<TaxonomyPage>>)

  /** `new Set(allow || [])`, in first-seen order; a missing file is empty. */
  function Allowlist(f: Option<AllowlistFile>): seq<string> {
    match f
    case None => []
    case Some(a) => Dedup(a.allow.GetOr([]))
  }

  function Taxonomy(f: Option<TaxonomyFile>): map<string, string> {
    match f
    case None => map[]
    case Some(t) => TaxonomyMap(t.pages.GetOr([]))
  }

  // --------------------------------------------------------------- verdict

  /** Passed, failed with violations (exit code 1), or skipped with a warning. */
  datatype Outcome = Pass(viaSsot: bool) | Fail(viaSsot: bool, violations: seq<Violation>) | Skipped

  function SsotGate(pages: seq<SsotPage>): Outcome {
    var g := GroupBy(UrlItems(Indexable(pages)));
    var vs := ViolationsOf(g.keys, g.groups);
    if vs != [] then Fail(true, vs) else Pass(true)
  }

  function FallbackGate(allow: seq<string>, tax: map<string, string>): Outcome {
    if tax == map[] then Skipped
    else
      var g := GroupBy(AllowedItems(allow, tax));
      var vs := ViolationsOf(g.keys, g.groups);
      if vs != [] then Fail(false, vs) else Pass(false)
  }

  function Gate(ssot: Option<SsotFile>, allowFile: Option<AllowlistFile>, taxFile: Option<TaxonomyFile>): Outcome {
    match ssot
    case Some(f) => SsotGate(f.pages.GetOr([]))
    case None => FallbackGate(Allowlist(allowFile), Taxonomy(taxFile))
  }

  function ExitCode(o: Outcome): (code: nat)
    ensures code == 1 <==> o.Fail?
  {
    if o.Fail? then 1 else 0
  }

  // ------------------------------------------------------------ properties

  /** Some two indexable pages share an intent id. */
  predicate SharedIntent(ix: seq<SsotPage>) {
    exists i, j :: 0 <= i < j < |ix| && ix[i].intentId == ix[j].intentId
  }

  /** With the SSOT, the gate fails exactly when two indexable pages share an intent id. */
  lemma SsotGateFailsIff(pages: seq<SsotPage>)
    ensures SsotGate(pages).Fail? <==> SharedIntent(Indexable(pages))
  {
    var ix := Indexable(pages);
    var items := UrlItems(ix);
    UrlItemsAt(ix);
    ReportEmptyIff(items);
    if SharedIntent(ix) {
      var i, j :| 0 <= i < j < |ix| && ix[i].intentId == ix[j].intentId;
      assert items[i].0 == items[j].0;
    }
    if SharedKey(items) {
      var i, j :| 0 <= i < j < |items| && items[i].0 == items[j].0;
      assert ix[i].intentId == ix[j].intentId;
    }
  }

  /**
   * With the SSOT, each violation is an intent id with more than one
   * indexable page, listing all their urls in page order, and no intent id is
   * reported twice; every url listed is that of an indexable page with that
   * intent id.
   */
  lemma SsotViolations(pages: seq<SsotPage>)
    ensures SsotGate(pages).Fail? ==>
      var vs := SsotGate(pages).violations;
      var items := UrlItems(Indexable(pages));
      (forall v :: v in vs <==>
        |ValuesFor(items, v.intentId)| > 1
        && v == Violation(v.intentId, |ValuesFor(items, v.intentId)|, ValuesFor(items, v.intentId)))
      && (forall i, j :: 0 <= i < j < |vs| ==> vs[i].intentId != vs[j].intentId)
      && (forall v, u :: v in vs && u in v.pages ==>
            exists p :: p in pages && p.robots == IndexFollow && p.intentId == v.intentId && UrlOf(p) == u)
  {
    var ix := Indexable(pages);
    var items := UrlItems(ix);
    ReportOf(items);
    if SsotGate(pages).Fail? {
      var vs := SsotGate(pages).violations;
      forall v, u | v in vs && u in v.pages
        ensures exists p :: p in pages && p.robots == IndexFollow && p.intentId == v.intentId && UrlOf(p) == u
      {
        IndexableMembers(pages);
        UrlItemsAt(ix);
        ValuesForFrom(items, v.intentId, u);
        var i :| 0 <= i < |items| && items[i] == (v.intentId, u);
        assert ix[i] in ix;
      }
    }
  }

  /** Without the SSOT and with an empty or missing taxonomy, the gate never fails. */
  lemma FailOpen(allowFile: Option<AllowlistFile>, taxFile: Option<TaxonomyFile>)
    requires taxFile.None? || taxFile.value.pages.None? || taxFile.value.pages.value == []
    ensures Gate(None, allowFile, taxFile) == Skipped
    ensures ExitCode(Gate(None, allowFile, taxFile)) == 0
  {
    if taxFile.Some? {
      TaxonomyEmpty(taxFile.value.pages.GetOr([]));
    }
  }

  /** Two different allowlisted slugs map to the same non-empty intent. */
  predicate SharedSlugIntent(allow: seq<string>, tax: map<string, string>) {
    exists s1, s2 :: s1 in allow && s2 in allow && s1 != s2 && s1 in tax && s2 in tax && tax[s1] == tax[s2] != ""
  }

  /**
   * Without the SSOT, the gate fails exactly when two different allowlisted
   * slugs map to the same non-empty intent; slugs with no intent are ignored.
   */
  lemma FallbackFailsIff(allowFile: Option<AllowlistFile>, taxFile: Option<TaxonomyFile>)
    requires Taxonomy(taxFile) != map[]
    ensures Gate(None, allowFile, taxFile).Fail? <==> SharedSlugIntent(Allowlist(allowFile), Taxonomy(taxFile))
  {
    var allow := Allowlist(allowFile);
    var tax := Taxonomy(taxFile);
    ReportEmptyIff(AllowedItems(allow, tax));
    SharedSlugIntentIff(allow, tax);
  }

  lemma SharedSlugIntentIff(allow: seq<string>, tax: map<string, string>)
    requires Distinct(allow)
    ensures SharedKey(AllowedItems(allow, tax)) <==> SharedSlugIntent(allow, tax)
  {
    var items := AllowedItems(allow, tax);
    AllowedItemsMembers(allow, tax);
    if SharedKey(items) {
      var i, j :| 0 <= i < j < |items| && items[i].0 == items[j].0;
      AllowedItemsDistinct(allow, tax);
      assert items[i] in items && items[j] in items;
    }
    if SharedSlugIntent(allow, tax) {
      var s1, s2 :| s1 in allow && s2 in allow && s1 != s2 && s1 in tax && s2 in tax && tax[s1] == tax[s2] != "";
      assert (tax[s1], s1) in items && (tax[s2], s2) in items;
      var i :| 0 <= i < |items| && items[i] == (tax[s1], s1);
      var j :| 0 <= j < |items| && items[j] == (tax[s2], s2);
      if j < i {
        assert items[j].0 == items[i].0;
      } else {
        assert items[i].0 == items[j].0;
      }
    }
  }

  /** Without the SSOT, every slug in a violation is allowlisted and mapped to that intent. */
  lemma FallbackViolations(allowFile: Option<AllowlistFile>, taxFile: Option<TaxonomyFile>)
    ensures var allow := Allowlist(allowFile);
      var tax := Taxonomy(taxFile);
      Gate(None, allowFile, taxFile).Fail? ==>
      forall v, s :: v in Gate(None, allowFile, taxFile).violations && s in v.pages ==>
        s in allow && s in tax && tax[s] == v.intentId
  {
    var allow := Allowlist(allowFile);
    var tax := Taxonomy(taxFile);
    var items := AllowedItems(allow, tax);
    if Gate(None, allowFile, taxFile).Fail? {
      ReportOf(items);
      AllowedItemsMembers(allow, tax);
      forall v, s | v in Gate(None, allowFile, taxFile).violations && s in v.pages
        ensures s in allow && s in tax && tax[s] == v.intentId
      {
        ValuesForFrom(items, v.intentId, s);
      }
    }
  }

  // --------------------------------------------------------------- methods

  /** The SSOT loop filling `intentToUrls`. */
  method GroupUrls(indexable: seq<SsotPage>) returns (g: Grouping<string, string>)
    ensures g == GroupBy(UrlItems(indexable))
  {
    g := Grouping([], map[]);
    for i := 0 to |indexable|
      invariant g == GroupBy(UrlItems(indexable[..i]))
    {
      var p := indexable[i];
      assert indexable[..i + 1][..i] == indexable[..i];
      g := GroupStep(g, p.intentId, p.url.GetOr(p.intentId));
    }
    assert indexable[..|indexable|] == indexable;
  }

  /** The loop over the grouping collecting violations. */
  method CollectViolations(g: Grouping<string, string>) returns (vs: seq<Violation>)
    ensures vs == ViolationsOf(g.keys, g.groups)
  {
    vs := [];
    for i := 0 to |g.keys|
      invariant vs == ViolationsOf(g.keys[..i], g.groups)
    {
      var k := g.keys[i];
      assert g.keys[..i + 1][..i] == g.keys[..i];
      if k in g.groups && |g.groups[k]| > 1 {
        vs := vs + [Violation(k, |g.groups[k]|, g.groups[k])];
      }
    }
    assert g.keys[..|g.keys|] == g.keys;
  }

  /** `loadTaxonomy`'s loop. */
  method LoadTaxonomy(pages: seq<TaxonomyPage>) returns (m: map<string, string>)
    ensures m == TaxonomyMap(pages)
  {
    m := map[];
    for i := 0 to |pages|
      invariant m == TaxonomyMap(pages[..i])
    {
      assert pages[..i + 1][..i] == pages[..i];
      m := m[pages[i].slug := pages[i].intentId];
    }
    assert pages[..|pages|] == pages;
  }

  /** The fallback loop filling `indexableByIntent`. */
  method GroupAllowed(allow: seq<string>, tax: map<string, string>) returns (g: Grouping<string, string>)
    ensures g == GroupBy(AllowedItems(allow, tax))
  {
    g := Grouping([], map[]);
    for i := 0 to |allow|
      invariant g == GroupBy(AllowedItems(allow[..i], tax))
    {
      var slug := allow[i];
      assert allow[..i + 1][..i] == allow[..i];
      assert AllowedItems(allow[..i + 1], tax)
        == AllowedItems(allow[..i], tax) + (if slug in tax && tax[slug] != "" then [(tax[slug], slug)] else []);
      if slug in tax && tax[slug] != "" {
        g := GroupStep(g, tax[slug], slug);
      } else {
        assert AllowedItems(allow[..i + 1], tax) == AllowedItems(allow[..i], tax);
      }
    }
    assert allow[..|allow|] == allow;
  }

  /** `main` with `runWithSsot`: the outcome the process reports. */
  method Run(ssot: Option<SsotFile>, allowFile: Option<AllowlistFile>, taxFile: Option<TaxonomyFile>)
    returns (o: Outcome)
    ensures o == Gate(ssot, allowFile, taxFile)
  {
    if ssot.Some? {
      var indexable := Indexable(ssot.value.pages.GetOr([]));
      var g := GroupUrls(indexable);
      var vs := CollectViolations(g);
      o := if vs != [] then Fail(true, vs) else Pass(true);
      return;
    }
    var allow := Allowlist(allowFile);
    var tax := map[];
    if taxFile.Some? {
      tax := LoadTaxonomy(taxFile.value.pages.GetOr([]));
    }
    if tax == map[] {
      o := Skipped;
      return;
    }
    var g := GroupAllowed(allow, tax);
    var vs := CollectViolations(g);
    o := if vs != [] then Fail(false, vs) else Pass(false);
  }
}
