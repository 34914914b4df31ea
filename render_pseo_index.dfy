/**
 * The directory page of the published articles: only pages on the index
 * allowlist are listed; each is put in one section by its topics; sections
 * appear in a fixed order, empty ones dropped; up to three "read first"
 * pillar links come from the hub configuration; every list item carries a
 * running page index for the client-side pagination script. The pages
 * list, the allowlist and the hub configuration arrive as values; the
 * Japanese collation of titles is an abstract rank.
 */
module RenderPseoIndex {
  import opened Wrappers
  import opened Strings
  import Seqs

  /** A published page as the directory reads it. */
  datatype PseoPage = PseoPage(id: string, title: string, topic: seq<string>, finalSlug: string, finalUrl: string)

  /** The sections of the directory. */
  datatype Section = EvidencePack | AuditControls | Workflow | Inventory | Responsibility | ShadowAi | CoverageMap | Other
  {
    function Name(): string {
      match this
      case EvidencePack => EvidencePackName
      case AuditControls => AuditControlsName
      case Workflow => WorkflowName
      case Inventory => InventoryName
      case Responsibility => ResponsibilityName
      case ShadowAi => ShadowAiName
      case CoverageMap => CoverageMapName
      case Other => OtherName
    }
  }

  const EvidencePackName := "証拠パック・Evidence Pack"
  const AuditControlsName := "監査・統制・最小要件"
  const WorkflowName := "申請・審査・例外・ワークフロー"
  const InventoryName := "棚卸・継続監査"
  const ResponsibilityName := "責任分界・SLA・契約"
  const ShadowAiName := "シャドーAI・最小証拠"
  const CoverageMapName := "Coverage Map"
  const OtherName := "その他"

  /** `SECTION_ORDER`: the order sections are shown in. */
  const SectionOrder: seq<Section> := [EvidencePack, AuditControls, Workflow, Inventory, Responsibility, ShadowAi, CoverageMap, Other]

  /** Every section has its place in the order, and only one. */
  lemma SectionOrderSpec(s: Section)
    ensures s in SectionOrder
    ensures forall i, j :: 0 <= i < j < |SectionOrder| ==> SectionOrder[i] != SectionOrder[j]
  {
  }

  // ---------------------------------------------------------------------
  // sectionForPage: first matching topic rule, else "other"
  // ---------------------------------------------------------------------

  const WorkflowWords: seq<string> := ["intake", "review", "approval", "workflow", "exception"]

  /** Some topic contains `w`. */
  predicate AnyContains(t: seq<string>, w: string) {
    exists i :: 0 <= i < |t| && Contains(t[i], w)
  }

  /** Some topic contains one of `ws`. */
  predicate AnyContainsAny(t: seq<string>, ws: seq<string>) {
    exists i :: 0 <= i < |t| && ContainsAny(t[i], ws)
  }

  /** The seven rules in the order they are tried, each with its section. */
  const RuleSections: seq<Section> := [EvidencePack, CoverageMap, Responsibility, ShadowAi, Workflow, Inventory, AuditControls]

  /** Which of the seven rules the page matches, in rule order. */
  function RuleHits(p: PseoPage): (r: seq<bool>)
    ensures |r| == |RuleSections|
  {
    var t := p.topic;
    ["evidence-pack" in t,
     "coverage-map" in t || Contains(p.finalSlug, "coverage-map"),
     "responsibility-boundary" in t || AnyContains(t, "responsibility"),
     "shadow-ai" in t,
     AnyContainsAny(t, WorkflowWords),
     "inventory" in t || "monitoring" in t,
     "proof-assurance" in t || "controls" in t || "ai-audit" in t]
  }

  /** The section of the first rule that hits, else `Other`. */
  function FirstSection(hits: seq<bool>, sections: seq<Section>): Section
    requires |hits| == |sections|
  {
    if hits == [] then Other
    else if hits[0] then sections[0]
    else FirstSection(hits[1..], sections[1..])
  }

  function SectionFor(p: PseoPage): Section {
    FirstSection(RuleHits(p), RuleSections)
  }

  /** The first hit decides; no hit gives `Other`. */
  lemma {:induction false} FirstSectionSpec(hits: seq<bool>, sections: seq<Section>, k: nat)
    requires |hits| == |sections|
    ensures k < |hits| && hits[k] && (forall j :: 0 <= j < k ==> !hits[j]) ==> FirstSection(hits, sections) == sections[k]
    ensures (forall j :: 0 <= j < |hits| ==> !hits[j]) ==> FirstSection(hits, sections) == Other
  {
    if hits != [] && !hits[0] {
      if k > 0 {
        FirstSectionSpec(hits[1..], sections[1..], k - 1);
      } else {
        FirstSectionSpec(hits[1..], sections[1..], 0);
      }
    }
  }

  /**
   * `sectionForPage` is first-match: the section of the first rule the page
   * matches, and `Other` exactly when it matches none.
   */
  lemma SectionForSpec(p: PseoPage, k: nat)
    ensures k < |RuleSections| && RuleHits(p)[k] && (forall j :: 0 <= j < k ==> !RuleHits(p)[j]) ==>
      SectionFor(p) == RuleSections[k]
    ensures (forall j :: 0 <= j < |RuleSections| ==> !RuleHits(p)[j]) ==> SectionFor(p) == Other
    ensures SectionFor(p) == Other ==> forall j :: 0 <= j < |RuleSections| ==> !RuleHits(p)[j]
  {
    FirstSectionSpec(RuleHits(p), RuleSections, k);
    if SectionFor(p) == Other {
      forall j | 0 <= j < |RuleSections| ensures !RuleHits(p)[j] {
        if RuleHits(p)[j] {
          var k0 := FirstHit(RuleHits(p), j);
          FirstSectionSpec(RuleHits(p), RuleSections, k0);
        }
      }
    }
  }

  /** The first hit at or before a known one. */
  lemma {:induction false} FirstHit(hits: seq<bool>, j: nat) returns (k: nat)
    requires j < |hits| && hits[j]
    ensures k <= j && hits[k] && forall i :: 0 <= i < k ==> !hits[i]
  {
    if exists i :: 0 <= i < j && hits[i] {
      var i :| 0 <= i < j && hits[i];
      k := FirstHit(hits, i);
    } else {
      k := j;
    }
  }

  // ---------------------------------------------------------------------
  // Listing and grouping
  // ---------------------------------------------------------------------

  function Allowed(allow: set<string>): PseoPage -> bool {
    (p: PseoPage) => p.finalSlug in allow
  }

  /** Only pages whose final slug is allowlisted are listed, in list order. */
  function Listed(pages: seq<PseoPage>, allow: set<string>): seq<PseoPage> {
    Seqs.Filter(Allowed(allow), pages)
  }

  /** A page is listed exactly when its final slug is allowlisted; the listing keeps list order. */
  lemma ListedSpec(pages: seq<PseoPage>, allow: set<string>, p: PseoPage)
    ensures p in Listed(pages, allow) <==> p in pages && p.finalSlug in allow
    ensures |Listed(pages, allow)| <= |pages|
  {
    Seqs.FilterMember(Allowed(allow), pages, p);
    Seqs.FilterLength(Allowed(allow), pages);
  }

  function HasKey<T, K(==)>(key: T -> K, k: K): T -> bool {
    x => key(x) == k
  }

  /** The elements of `xs` with key `k`, in order. */
  function Grouped<T, K(==)>(key: T -> K, xs: seq<T>, k: K): seq<T> {
    Seqs.Filter(HasKey(key, k), xs)
  }

  /** `m` holds, for each key that occurs, its elements in order, and no other key. */
  ghost predicate GroupedBy<T, K(!new)>(m: map<K, seq<T>>, key: T -> K, xs: seq<T>) {
    (forall k :: k in m <==> Grouped(key, xs, k) != [])
    && (forall k :: k in m ==> m[k] == Grouped(key, xs, k))
  }

  /** Pushing the next element onto its key's list keeps the grouping. */
  lemma GroupedByPush<T, K(!new)>(m: map<K, seq<T>>, key: T -> K, xs: seq<T>, i: nat)
    requires i < |xs| && GroupedBy(m, key, xs[..i])
    ensures GroupedBy(m[key(xs[i]) := (if key(xs[i]) in m then m[key(xs[i])] else []) + [xs[i]]], key, xs[..i + 1])
  {
    forall k ensures Grouped(key, xs[..i + 1], k) == Grouped(key, xs[..i], k) + (if key(xs[i]) == k then [xs[i]] else []) {
      Seqs.FilterSnoc(HasKey(key, k), xs, i);
    }
  }

  /** The listed pages of section `s`, in list order. */
  function Bucket(pages: seq<PseoPage>, s: Section): seq<PseoPage> {
    Grouped(SectionFor, pages, s)
  }

  /** `bySection` before sorting: a key per section that got a page. */
  method GroupBySection(pages: seq<PseoPage>) returns (bySection: map<Section, seq<PseoPage>>)
    ensures forall s :: s in bySection <==> Bucket(pages, s) != []
    ensures forall s :: s in bySection ==> bySection[s] == Bucket(pages, s)
  {
    bySection := map[];
    for i := 0 to |pages|
      invariant GroupedBy(bySection, SectionFor, pages[..i])
    {
      var p := pages[i];
      var section := SectionFor(p);
      GroupedByPush(bySection, SectionFor, pages, i);
      if section !in bySection {
        bySection := bySection[section := []];
      }
      bySection := bySection[section := bySection[section] + [p]];
    }
    assert pages[..|pages|] == pages;
  }

  /** Each listed page sits in its own section's bucket and in no other. */
  lemma BucketSpec(pages: seq<PseoPage>, s: Section, p: PseoPage)
    ensures p in Bucket(pages, s) <==> p in pages && SectionFor(p) == s
    ensures p in pages ==> p in Bucket(pages, SectionFor(p))
  {
    Seqs.FilterMember(HasKey(SectionFor, s), pages, p);
    Seqs.FilterMember(HasKey(SectionFor, SectionFor(p)), pages, p);
  }

  // ---------------------------------------------------------------------
  // Sorting each section, the rendered sections and their anchors
  // ---------------------------------------------------------------------

  /** The sort key: a lower title rank sorts first. */
  function TitleKey(rank: string -> int): PseoPage -> real {
    (p: PseoPage) => -(rank(p.title) as real)
  }

  /** `arr.sort((a, b) => a.title.localeCompare(b.title, "ja"))`, with the collation as a rank. */
  function SortByTitle(items: seq<PseoPage>, rank: string -> int): seq<PseoPage> {
    Seqs.SortDescBy(items, TitleKey(rank))
  }

  /** Sorting keeps each section's pages and ranks them by title. */
  lemma SortByTitleSpec(items: seq<PseoPage>, rank: string -> int)
    ensures multiset(SortByTitle(items, rank)) == multiset(items)
    ensures forall i, j :: 0 <= i < j < |SortByTitle(items, rank)| ==>
      rank(SortByTitle(items, rank)[i].title) <= rank(SortByTitle(items, rank)[j].title)
  {
    Seqs.SortDescBySorted(items, TitleKey(rank));
  }

  /** The sort is stable: the pages whose titles share rank `v` keep their list order. */
  lemma SortByTitleStable(items: seq<PseoPage>, rank: string -> int, v: int)
    ensures Seqs.KeyFilter(SortByTitle(items, rank), TitleKey(rank), -(v as real))
         == Seqs.KeyFilter(items, TitleKey(rank), -(v as real))
  {
    Seqs.SortDescByStable(items, TitleKey(rank), -(v as real));
  }

  /** The sections shown: `SECTION_ORDER` filtered to those that got a page. */
  function RenderedSections(bySection: map<Section, seq<PseoPage>>): seq<Section> {
    Seqs.Filter((s: Section) => s in bySection, SectionOrder)
  }

  /** The shown sections are the non-empty ones, each once, in `SECTION_ORDER` order. */
  lemma RenderedSectionsSpec(bySection: map<Section, seq<PseoPage>>, s: Section)
    ensures s in RenderedSections(bySection) <==> s in bySection
    ensures Seqs.Distinct(RenderedSections(bySection))
    ensures |RenderedSections(bySection)| <= |SectionOrder|
  {
    var keep := (s: Section) => s in bySection;
    SectionOrderSpec(s);
    Seqs.FilterMember(keep, SectionOrder, s);
    Seqs.FilterDistinct(keep, SectionOrder);
    Seqs.FilterLength(keep, SectionOrder);
  }

  /** The anchor of the `idx`-th shown section, used both by its heading and by the nav link. */
  function SectionId(idx: nat): string {
    "sec-" + NatToString(idx)
  }

  /** Anchors `sec-0`, `sec-1`, … are distinct. */
  lemma SectionIdDistinct(i: nat, j: nat)
    ensures SectionId(i) == SectionId(j) <==> i == j
  {
    if SectionId(i) == SectionId(j) {
      assert SectionId(i)[4..] == NatToString(i) && SectionId(j)[4..] == NatToString(j);
      NatToStringInjective(i, j);
    }
  }

  // ---------------------------------------------------------------------
  // Pillars and the pagination size
  // ---------------------------------------------------------------------

  /** `slugToPage`: each listed page under its final slug, the last one winning. */
  function SlugToPage(pages: seq<PseoPage>): map<string, PseoPage> {
    if pages == [] then map[]
    else SlugToPage(pages[..|pages| - 1])[pages[|pages| - 1].finalSlug := pages[|pages| - 1]]
  }

  /** A slug is a key exactly when some listed page has it, and maps to such a page. */
  lemma {:induction false} SlugToPageSpec(pages: seq<PseoPage>, slug: string)
    ensures slug in SlugToPage(pages) <==> exists i :: 0 <= i < |pages| && pages[i].finalSlug == slug
    ensures slug in SlugToPage(pages) ==> SlugToPage(pages)[slug] in pages && SlugToPage(pages)[slug].finalSlug == slug
  {
    if pages != [] {
      var n := |pages| - 1;
      SlugToPageSpec(pages[..n], slug);
      if exists i :: 0 <= i < n && pages[..n][i].finalSlug == slug {
        var i :| 0 <= i < n && pages[..n][i].finalSlug == slug;
        assert pages[i] == pages[..n][i];
      }
      if exists i :: 0 <= i < |pages| && pages[i].finalSlug == slug {
        var i :| 0 <= i < |pages| && pages[i].finalSlug == slug;
        if i < n {
          assert pages[..n][i].finalSlug == slug;
        }
      }
      if slug in SlugToPage(pages[..n]) && slug != pages[n].finalSlug {
        assert SlugToPage(pages[..n])[slug] in pages[..n];
      }
    }
  }

  const MaxPillars: nat := 3

  function Known(slugToPage: map<string, PseoPage>): string -> bool {
    (slug: string) => slug in slugToPage
  }

  /** The pillar slugs shown: the configured ones that are listed, first three. */
  function PillarSlugs(pillarSlugs: seq<string>, slugToPage: map<string, PseoPage>): (r: seq<string>)
    ensures |r| <= MaxPillars
  {
    var known := Seqs.Filter(Known(slugToPage), pillarSlugs);
    if |known| <= MaxPillars then known else known[..MaxPillars]
  }

  /**
   * At most three pillars, each configured and listed, in configuration
   * order; fewer than three only when every listed configured slug is shown.
   */
  lemma PillarSlugsSpec(pillarSlugs: seq<string>, slugToPage: map<string, PseoPage>)
    ensures var r := PillarSlugs(pillarSlugs, slugToPage);
      r == Seqs.Filter(Known(slugToPage), pillarSlugs)[..|r|]
      && (forall x :: x in r ==> x in pillarSlugs && x in slugToPage)
      && (|r| < MaxPillars ==> forall x :: x in pillarSlugs && x in slugToPage ==> x in r)
  {
    var known := Seqs.Filter(Known(slugToPage), pillarSlugs);
    forall x ensures x in known <==> x in pillarSlugs && x in slugToPage {
      Seqs.FilterMember(Known(slugToPage), pillarSlugs, x);
    }
  }

  const DefaultItemsPerPage: int := 20

  /** `items_per_page ?? 20`: only an absent value falls back. */
  function ItemsPerPage(configured: Option<int>): (r: int)
    ensures configured.None? ==> r == DefaultItemsPerPage
    ensures configured.Some? ==> r == configured.value
  {
    match configured
    case Some(n) => n
    case None => DefaultItemsPerPage
  }

  // ---------------------------------------------------------------------
  // data-page-index
  // ---------------------------------------------------------------------

  /** The pages of a section, none for a section that got no page (`?.length ?? 0`). */
  function Items(bySection: map<Section, seq<PseoPage>>): Section -> seq<PseoPage> {
    (s: Section) => if s in bySection then bySection[s] else []
  }

  /**
   * The index as written: the sizes of the first `idx` entries of
   * `SECTION_ORDER`, plus the item's place in its section.
   */
  function PageIndexAsWritten(bySection: map<Section, seq<PseoPage>>, idx: nat, itemIdx: nat): nat
    requires idx <= |SectionOrder|
  {
    |Seqs.FlatMap(Items(bySection), SectionOrder[..idx])| + itemIdx
  }

  /** The index intended: the sizes of the shown sections before this one, plus the item's place. */
  function PageIndex(bySection: map<Section, seq<PseoPage>>, idx: nat, itemIdx: nat): nat
    requires idx <= |RenderedSections(bySection)|
  {
    |Seqs.FlatMap(Items(bySection), RenderedSections(bySection)[..idx])| + itemIdx
  }

  /** All shown items, section after section, in the order they are rendered. */
  function AllItems(bySection: map<Section, seq<PseoPage>>): seq<PseoPage> {
    Seqs.FlatMap(Items(bySection), RenderedSections(bySection))
  }

  /**
   * With two shown sections where the first entry of `SECTION_ORDER` is
   * empty, the first item of each shown section gets index 0 as written.
   */
  lemma PageIndexAsWrittenRepeats(p: PseoPage, q: PseoPage)
    ensures var bySection := map[AuditControls := [p], Workflow := [q]];
      [AuditControls, Workflow] <= RenderedSections(bySection)
      && PageIndexAsWritten(bySection, 0, 0) == 0
      && PageIndexAsWritten(bySection, 1, 0) == 0
      && PageIndex(bySection, 1, 0) == 1
  {
    var bySection := map[AuditControls := [p], Workflow := [q]];
    var keep := (s: Section) => s in bySection;
    assert SectionOrder[..1] == [EvidencePack];
    assert Seqs.FlatMap(Items(bySection), [EvidencePack]) == Seqs.FlatMap(Items(bySection), []) + [];
    FilterOrder(bySection);
    assert RenderedSections(bySection)[..1] == [AuditControls];
    assert Seqs.FlatMap(Items(bySection), [AuditControls]) == Seqs.FlatMap(Items(bySection), []) + [p];
  }

  /** The shown sections of the two-section example start with those two. */
  lemma FilterOrder(bySection: map<Section, seq<PseoPage>>)
    requires bySection.Keys == {AuditControls, Workflow}
    ensures [AuditControls, Workflow] <= Seqs.Filter((s: Section) => s in bySection, SectionOrder)
  {
    var keep := (s: Section) => s in bySection;
    var o := SectionOrder;
    assert o[..0] == [];
    Seqs.FilterSnoc(keep, o, 0);
    Seqs.FilterSnoc(keep, o, 1);
    Seqs.FilterSnoc(keep, o, 2);
    assert Seqs.Filter(keep, o[..3]) == [AuditControls, Workflow];
    Seqs.FilterPrefix(keep, o, 3);
  }

  /** Item `k` of shown section `idx` sits at position PageIndex in the rendered order. */
  lemma PageIndexAt(bySection: map<Section, seq<PseoPage>>, idx: nat, k: nat)
    requires idx < |RenderedSections(bySection)| && k < |Items(bySection)(RenderedSections(bySection)[idx])|
    ensures PageIndex(bySection, idx, k) < |AllItems(bySection)|
    ensures AllItems(bySection)[PageIndex(bySection, idx, k)] == Items(bySection)(RenderedSections(bySection)[idx])[k]
  {
    Seqs.FlatMapAt(Items(bySection), RenderedSections(bySection), idx, k);
  }

  /** Later sections, and later items of one section, get strictly larger indexes. */
  lemma PageIndexIncreasing(bySection: map<Section, seq<PseoPage>>, i: nat, k: nat, j: nat, l: nat)
    requires i <= j < |RenderedSections(bySection)|
    requires k < |Items(bySection)(RenderedSections(bySection)[i])|
    requires i == j ==> k < l
    ensures PageIndex(bySection, i, k) < PageIndex(bySection, j, l)
  {
    var secs := RenderedSections(bySection);
    var f := Items(bySection);
    if i < j {
      assert secs[..j] == secs[..i] + [secs[i]] + secs[i + 1..j];
      Seqs.FlatMapAppend(f, secs[..i] + [secs[i]], secs[i + 1..j]);
      Seqs.FlatMapAppend(f, secs[..i], [secs[i]]);
      assert Seqs.FlatMap(f, [secs[i]]) == Seqs.FlatMap(f, []) + f(secs[i]);
    }
  }
}
