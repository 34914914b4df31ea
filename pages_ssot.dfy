/**
 * Phase 0 of the slug pipeline: every page of the inventory gets a record
 * with its slug base, final slug and the URLs under the pSEO base path.
 * Reading the inventory, the timestamp and writing the pages file are the
 * caller's; the inventory is `None` when its file is missing.
 */
module PagesSsot {
  import opened Wrappers
  import opened Strings
  import Slugger

  datatype PageEntry = PageEntry(id: string, path: string, title: string, h1: string)

  datatype PseoPageRecord = PseoPageRecord(
    id: string,
    title: string,
    topic: seq<string>,
    slugBase: string,
    finalSlug: string,
    finalUrl: string,
    legacyUrl: string)

  const BasePath: string := "/ja/resources/pseo"
  const MissingInventory: string := "Run inventory first: npm run inventory"
  /** The id the slugger is retried with when a page's own id is refused. */
  const FallbackId: string := "ai-governance-1"

  /** JavaScript's `a || b` on strings. */
  function Or(a: string, b: string): (r: string)
    ensures r == a || r == b
    ensures r == "" <==> a == "" && b == ""
  {
    if a != "" then a else b
  }

  function TitleOrH1(p: PageEntry): string {
    Or(Or(p.h1, p.title), p.id)
  }

  function PageUrl(slug: string): string {
    BasePath + "/" + slug + "/"
  }

  /**
   * The slug result for one page: the page's own id, or else the retry
   * with the fallback id, relabelled with the page's id and a final slug
   * of the slug base, "-" and the id. A refused retry is not caught.
   */
  function SlugFor(p: PageEntry, d: Slugger.Dictionary): Result<Slugger.SlugResult, string> {
    var t := TitleOrH1(p);
    var first := Slugger.BuildFinalSlug(p.id, t, d);
    if first.Success? then first
    else
      var retry := Slugger.BuildFinalSlug(FallbackId, t, d);
      if retry.Failure? then retry
      else Success(retry.value.(id := p.id, finalSlug := retry.value.slugBase + "-" + p.id))
  }

  function RecordFor(p: PageEntry, d: Slugger.Dictionary): Result<PseoPageRecord, string> {
    var s := SlugFor(p, d);
    if s.Failure? then Failure(s.error)
    else
      var r := s.value;
      Success(PseoPageRecord(p.id, Or(p.title, p.h1), r.topicKeys, r.slugBase, r.finalSlug,
                             PageUrl(r.finalSlug), PageUrl(p.id)))
  }

  /** A page fails only when its own id and the fallback id are both refused. */
  lemma RecordForFailIff(p: PageEntry, d: Slugger.Dictionary)
    ensures RecordFor(p, d).Failure? <==> !d.policy.idMatches(p.id) && !d.policy.idMatches(FallbackId)
  {
    Slugger.FinalSlugSpec(p.id, TitleOrH1(p), d);
    Slugger.FinalSlugSpec(FallbackId, TitleOrH1(p), d);
  }

  /** A record keeps the page's id and title, the slug base of its title, h1 or id, and both URLs. */
  lemma RecordForSpec(p: PageEntry, d: Slugger.Dictionary)
    requires RecordFor(p, d).Success?
    ensures var r := RecordFor(p, d).value;
      r.id == p.id
      && r.title == Or(p.title, p.h1)
      && r.slugBase == Slugger.BuildSlugBaseFromText(TitleOrH1(p), d).slugBase
      && r.finalUrl == PageUrl(r.finalSlug)
      && r.legacyUrl == PageUrl(p.id)
  {
    Slugger.FinalSlugSpec(p.id, TitleOrH1(p), d);
    Slugger.FinalSlugSpec(FallbackId, TitleOrH1(p), d);
  }

  /** The records of the pages in order, or the first uncaught error. */
  function Records(pages: seq<PageEntry>, d: Slugger.Dictionary): Result<seq<PseoPageRecord>, string> {
    MapAll(p => RecordFor(p, d), pages)
  }

  /** `run`: the records, or an error when the inventory is missing or a retry is refused. */
  method Run(inventory: Option<seq<PageEntry>>, d: Slugger.Dictionary) returns (out: Result<seq<PseoPageRecord>, string>)
    ensures inventory.None? ==> out == Failure(MissingInventory)
    ensures inventory.Some? ==> out == Records(inventory.value, d)
  {
    if inventory.None? {
      return Failure(MissingInventory);
    }
    var pages := inventory.value;
    var records: seq<PseoPageRecord> := [];
    for i := 0 to |pages|
      invariant Records(pages[..i], d) == Success(records)
    {
      MapAllSnoc(p => RecordFor(p, d), pages, i);
      var rec := RecordFor(pages[i], d);
      if rec.Failure? {
        MapAllStop(p => RecordFor(p, d), pages, i);
        return Failure(rec.error);
      }
      records := records + [rec.value];
    }
    assert pages[..|pages|] == pages;
    out := Success(records);
  }

  /** The run fails exactly when some page's id and the fallback id are both refused. */
  lemma RecordsFailIff(pages: seq<PageEntry>, d: Slugger.Dictionary)
    ensures Records(pages, d).Failure? <==>
      exists i :: 0 <= i < |pages| && !d.policy.idMatches(pages[i].id) && !d.policy.idMatches(FallbackId)
  {
    MapAllFailIff(p => RecordFor(p, d), pages);
    forall i | 0 <= i < |pages|
      ensures RecordFor(pages[i], d).Failure? <==> !d.policy.idMatches(pages[i].id) && !d.policy.idMatches(FallbackId)
    {
      RecordForFailIff(pages[i], d);
    }
  }

  /**
   * One record per page, in order: it keeps the page's id, its title or
   * else its h1, the slug base of its title, h1 or id, and the two URLs
   * under the base path.
   */
  lemma RecordsSpec(pages: seq<PageEntry>, d: Slugger.Dictionary)
    requires Records(pages, d).Success?
    ensures var rs := Records(pages, d).value;
      |rs| == |pages|
      && forall i :: 0 <= i < |pages| ==>
        rs[i].id == pages[i].id
        && rs[i].title == Or(pages[i].title, pages[i].h1)
        && rs[i].slugBase == Slugger.BuildSlugBaseFromText(TitleOrH1(pages[i]), d).slugBase
        && rs[i].finalUrl == PageUrl(rs[i].finalSlug)
        && rs[i].legacyUrl == PageUrl(pages[i].id)
  {
    MapAllSuccess(p => RecordFor(p, d), pages);
    forall i | 0 <= i < |pages|
      ensures RecordFor(pages[i], d).Success?
    {
    }
    forall i | 0 <= i < |pages|
      ensures var r := RecordFor(pages[i], d).value;
        r.id == pages[i].id
        && r.title == Or(pages[i].title, pages[i].h1)
        && r.slugBase == Slugger.BuildSlugBaseFromText(TitleOrH1(pages[i]), d).slugBase
        && r.finalUrl == PageUrl(r.finalSlug)
        && r.legacyUrl == PageUrl(pages[i].id)
    {
      RecordForSpec(pages[i], d);
    }
  }

  /**
   * With "-" as the separator and an id free of doubled or leading
   * hyphens, the final slug ends in "-" and the page's id on both paths,
   * and the final URL is the final slug under the base path.
   */
  lemma RecordEndsWithId(p: PageEntry, d: Slugger.Dictionary)
    requires RecordFor(p, d).Success? && d.policy.separator == '-'
    requires Slugger.NoDoubleSep(p.id, '-') && (p.id == [] || p.id[0] != '-')
    ensures EndsWith(RecordFor(p, d).value.finalSlug, "-" + p.id)
    ensures RecordFor(p, d).value.finalUrl == BasePath + "/" + RecordFor(p, d).value.finalSlug + "/"
  {
    var t := TitleOrH1(p);
    Slugger.FinalSlugSpec(p.id, t, d);
    Slugger.FinalSlugSpec(FallbackId, t, d);
    if !d.policy.idMatches(p.id) {
      var b := Slugger.BuildSlugBaseFromText(t, d).slugBase;
      var f := b + "-" + p.id;
      assert f[|f| - |"-" + p.id|..] == "-" + p.id;
    }
  }
}
