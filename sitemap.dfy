/**
 * The sitemap update: the allowlisted Japanese articles that exist on disk
 * become `<url>` entries after one entry for the directory page; existing
 * entries are kept unless they point into the article tree; robots.txt
 * gains a `Sitemap:` line once. The catalog, the published records, the
 * allowlist, the set of article directories that exist, the `<url>` blocks
 * of the current sitemap (with their `<loc>` already extracted) and the
 * date arrive as values.
 */
module Sitemap {
  import opened Wrappers
  import opened Strings
  import Seqs
  import Generate

  /** A catalog page as the sitemap reads it. */
  datatype CatalogPage = CatalogPage(id: string, slug: string, lang: string, pageType: Option<string>)

  const ChangeFreq := "weekly"

  /** The priorities the sitemap writes. */
  datatype Priority = Coverage | Article | Default | Directory
  {
    function Text(): string {
      match this
      case Coverage => "0.6"
      case Article => "0.7"
      case Default => "0.5"
      case Directory => "0.75"
    }
  }

  /** `priorityForPage`: type E (coverage) 0.6, types A to D 0.7, anything else 0.5. */
  function PriorityFor(p: CatalogPage): (r: Priority)
    ensures r != Directory
  {
    match p.pageType
    case Some(t) =>
      if t == "E" then Coverage
      else if t == "A" || t == "B" || t == "C" || t == "D" then Article
      else Default
    case None => Default
  }

  /** Type E gives 0.6, types A to D give 0.7, and every other type or none gives 0.5. */
  lemma PriorityForSpec(p: CatalogPage)
    ensures PriorityFor(p).Text() == "0.6" <==> p.pageType == Some("E")
    ensures PriorityFor(p).Text() == "0.7" <==> p.pageType.Some? && p.pageType.value in {"A", "B", "C", "D"}
    ensures PriorityFor(p).Text() == "0.5" <==> !(p.pageType.Some? && p.pageType.value in {"A", "B", "C", "D", "E"})
  {
  }

  /** `pseoLoc`: the published URL when the slug segment has a record, else the catalog slug. */
  function PseoLoc(baseUrl: string, p: CatalogPage, records: map<string, Generate.PseoRecord>): string {
    LocFor(baseUrl, p.slug, Generate.SlugSegment(p.slug), records)
  }

  /** The location of a page with slug `slug` whose slug segment is `seg`. */
  function LocFor(baseUrl: string, slug: string, seg: string, records: map<string, Generate.PseoRecord>): string {
    if seg in records then baseUrl + Generate.WithSlash(records[seg].finalUrl)
    else baseUrl + DropTrailingSlash(slug) + "/"
  }

  /** Every location ends in a slash, and is built from the record's final URL when there is one. */
  lemma LocForSpec(baseUrl: string, slug: string, seg: string, records: map<string, Generate.PseoRecord>)
    ensures EndsWith(LocFor(baseUrl, slug, seg, records), "/")
    ensures seg in records ==> LocFor(baseUrl, slug, seg, records) == baseUrl + Generate.WithSlash(records[seg].finalUrl)
    ensures seg !in records ==>
      StartsWith(LocFor(baseUrl, slug, seg, records), baseUrl) && |LocFor(baseUrl, slug, seg, records)| <= |baseUrl| + |slug| + 1
  {
    var loc := LocFor(baseUrl, slug, seg, records);
    if seg in records {
      var w := Generate.WithSlash(records[seg].finalUrl);
      assert loc == baseUrl + w;
      EndsInSlash(baseUrl, w);
    } else {
      var d := DropTrailingSlash(slug);
      assert loc == baseUrl + (d + "/") && |d| <= |slug|;
      EndsInSlash(baseUrl, d + "/");
    }
  }

  /** Every location ends in a slash, and is built from the record's final URL when there is one. */
  lemma PseoLocSpec(baseUrl: string, p: CatalogPage, records: map<string, Generate.PseoRecord>)
    ensures EndsWith(PseoLoc(baseUrl, p, records), "/")
    ensures Generate.SlugSegment(p.slug) in records ==>
      PseoLoc(baseUrl, p, records) == baseUrl + Generate.WithSlash(records[Generate.SlugSegment(p.slug)].finalUrl)
    ensures Generate.SlugSegment(p.slug) !in records ==>
      StartsWith(PseoLoc(baseUrl, p, records), baseUrl) && |PseoLoc(baseUrl, p, records)| <= |baseUrl| + |p.slug| + 1
  {
    LocForSpec(baseUrl, p.slug, Generate.SlugSegment(p.slug), records);
  }

  /** A text ending in a slash still does after a prefix is put in front. */
  lemma EndsInSlash(a: string, b: string)
    requires |b| > 0 && b[|b| - 1] == '/'
    ensures EndsWith(a + b, "/") && StartsWith(a + b, a)
  {
    var r := a + b;
    assert r[|r| - 1..] == "/";
    assert r[..|a|] == a;
  }

  /**
   * A page goes into the sitemap when it is Japanese, its slug segment has
   * a record, the allowlist is not empty and holds the record's final slug,
   * and the article directory of that slug exists.
   */
  function Included(records: map<string, Generate.PseoRecord>, allow: set<string>, existing: set<string>): CatalogPage -> bool {
    (p: CatalogPage) =>
      var seg := Generate.SlugSegment(p.slug);
      p.lang == "ja" && seg in records
      && !(|allow| == 0 || records[seg].finalSlug !in allow)
      && records[seg].finalSlug in existing
  }

  function PagesInSitemap(pages: seq<CatalogPage>, records: map<string, Generate.PseoRecord>,
                          allow: set<string>, existing: set<string>): seq<CatalogPage> {
    Seqs.Filter(Included(records, allow, existing), pages)
  }

  /** The inclusion rule, and an empty allowlist lists no article. */
  lemma PagesInSitemapSpec(pages: seq<CatalogPage>, records: map<string, Generate.PseoRecord>,
                           allow: set<string>, existing: set<string>, p: CatalogPage)
    ensures p in PagesInSitemap(pages, records, allow, existing) <==>
      p in pages && p.lang == "ja" && Generate.SlugSegment(p.slug) in records
      && records[Generate.SlugSegment(p.slug)].finalSlug in allow
      && records[Generate.SlugSegment(p.slug)].finalSlug in existing
    ensures allow == {} ==> PagesInSitemap(pages, records, allow, existing) == []
  {
    Seqs.FilterMember(Included(records, allow, existing), pages, p);
    if allow == {} {
      forall q | q in pages ensures !Included(records, allow, existing)(q) {
      }
      Seqs.FlatMapEmpty(Seqs.Keep(Included(records, allow, existing)), pages);
    }
  }

  // ---------------------------------------------------------------------
  // Existing <url> blocks
  // ---------------------------------------------------------------------

  /** An existing `<url>` block and the trimmed text of its `<loc>` ("" without one). */
  datatype UrlBlock = UrlBlock(text: string, rawLoc: string)

  /** All trailing slashes of the location dropped and one added, or "" for no location. */
  function NormalizeLoc(raw: string): (r: string)
    ensures raw == "" <==> r == ""
    ensures r != "" ==> EndsWith(r, "/") && (|r| == 1 || r[|r| - 2] != '/')
  {
    if raw == "" then ""
    else
      var d := DropTrailingSlashes(raw);
      var r := d + "/";
      assert r[|r| - 1..] == "/";
      r
  }

  const PseoPath := "/ja/resources/pseo/"

  /** A block is dropped when its location is one of the new article locations or lies in the article tree. */
  function KeepBlock(pseoLocs: seq<string>): UrlBlock -> bool {
    (b: UrlBlock) =>
      var loc := NormalizeLoc(b.rawLoc);
      !(loc != "" && (loc in pseoLocs || Contains(loc, PseoPath)))
  }

  function NonPseoBlocks(blocks: seq<UrlBlock>, pseoLocs: seq<string>): seq<UrlBlock> {
    Seqs.Filter(KeepBlock(pseoLocs), blocks)
  }

  /** The loop over the `<url>` blocks of the current sitemap. */
  method CollectNonPseoBlocks(blocks: seq<UrlBlock>, pseoLocs: seq<string>) returns (kept: seq<UrlBlock>)
    ensures kept == NonPseoBlocks(blocks, pseoLocs)
  {
    kept := [];
    var i := 0;
    while i < |blocks|
      invariant 0 <= i <= |blocks|
      invariant kept == Seqs.Filter(KeepBlock(pseoLocs), blocks[..i])
    {
      var block := blocks[i];
      var raw := block.rawLoc;
      var loc := if raw != "" then NormalizeLoc(raw) else "";
      Seqs.FilterSnoc(KeepBlock(pseoLocs), blocks, i);
      i := i + 1;
      if loc != "" && (loc in pseoLocs || Contains(loc, PseoPath)) {
        continue;
      }
      kept := kept + [block];
    }
    assert blocks[..|blocks|] == blocks;
  }

  /**
   * Existing blocks are kept in their order; a kept block has no location,
   * or one that is neither a new article location nor in the article tree;
   * every such block is kept.
   */
  lemma NonPseoBlocksSpec(blocks: seq<UrlBlock>, pseoLocs: seq<string>, b: UrlBlock)
    ensures b in NonPseoBlocks(blocks, pseoLocs) <==>
      b in blocks && (b.rawLoc == ""
        || (NormalizeLoc(b.rawLoc) !in pseoLocs && !Contains(NormalizeLoc(b.rawLoc), PseoPath)))
    ensures |NonPseoBlocks(blocks, pseoLocs)| <= |blocks|
  {
    Seqs.FilterMember(KeepBlock(pseoLocs), blocks, b);
    Seqs.FilterLength(KeepBlock(pseoLocs), blocks);
  }

  // ---------------------------------------------------------------------
  // The new entries
  // ---------------------------------------------------------------------

  /** A new entry; every entry is written with changefreq `weekly`. */
  datatype Entry = Entry(loc: string, priority: Priority)

  /** `pseoLoc` as a function of the page. */
  function LocOf(baseUrl: string, records: map<string, Generate.PseoRecord>): CatalogPage -> string {
    (p: CatalogPage) => PseoLoc(baseUrl, p, records)
  }

  /** The priority of each included article, in order. */
  function Priorities(ps: seq<CatalogPage>): (r: seq<Priority>)
    ensures |r| == |ps|
  {
    Seqs.MapSnoc(PriorityFor, ps)
  }

  /** The `[loc, { loc, priority }]` pairs the `pseoEntries` map is built from, in page order. */
  function LocPairs(locs: seq<string>, pris: seq<Priority>): (r: seq<Option<(string, Priority)>>)
    requires |locs| == |pris|
    ensures |r| == |locs| && forall i :: 0 <= i < |locs| ==> r[i] == Some((locs[i], pris[i]))
  {
    seq(|locs|, i requires 0 <= i < |locs| => Some((locs[i], pris[i])))
  }

  /** `pseoEntries.get(loc)!.priority`; the key is always present (`ArticleEntryAt`), so the fallback is never used. */
  function ArticleEntry(m: map<string, Priority>, loc: string): Entry {
    Entry(loc, if loc in m then m[loc] else Default)
  }

  /**
   * The article entries: `pseoEntries` is a `Map` from location to
   * priority in which a later page with the same location overwrites an
   * earlier one, and every article is written with its location's value.
   */
  function ArticleEntries(locs: seq<string>, pris: seq<Priority>): (r: seq<Entry>)
    requires |locs| == |pris|
    ensures |r| == |locs|
  {
    var m := Generate.Assign(LocPairs(locs, pris));
    seq(|locs|, i requires 0 <= i < |locs| => ArticleEntry(m, locs[i]))
  }

  /** Position `j` is the last one holding `loc`. */
  predicate LastAt(locs: seq<string>, j: int, loc: string) {
    0 <= j < |locs| && locs[j] == loc && forall k :: j < k < |locs| ==> locs[k] != loc
  }

  /** Article entry `i` has location `i`. */
  lemma ArticleEntryLoc(locs: seq<string>, pris: seq<Priority>, i: nat)
    requires |locs| == |pris| && i < |locs|
    ensures ArticleEntries(locs, pris)[i].loc == locs[i]
  {
  }

  /** Article entry `i` has the priority of the last article with its location. */
  lemma ArticleEntryAt(locs: seq<string>, pris: seq<Priority>, i: nat)
    requires |locs| == |pris| && i < |locs|
    ensures exists j :: i <= j && LastAt(locs, j, locs[i]) && ArticleEntries(locs, pris)[i].priority == pris[j]
  {
    var es := LocPairs(locs, pris);
    var loc := locs[i];
    var m := Generate.Assign(es);
    assert Generate.SetsKey(es, i, loc);
    Generate.AssignHas(es, loc);
    Generate.AssignLast(es, loc);
    var j :| Generate.LastSets(es, j, loc, m[loc]);
    assert ArticleEntries(locs, pris)[i] == ArticleEntry(m, loc);
    forall k | j < k < |locs|
      ensures locs[k] != loc
    {
      assert !Generate.SetsKey(es, k, loc);
    }
    assert LastAt(locs, j, loc);
  }

  /** Articles with the same location get the same entry. */
  lemma ArticleEntrySame(locs: seq<string>, pris: seq<Priority>, a: nat, b: nat)
    requires |locs| == |pris| && a < |locs| && b < |locs| && locs[a] == locs[b]
    ensures ArticleEntries(locs, pris)[a] == ArticleEntries(locs, pris)[b]
  {
    var m := Generate.Assign(LocPairs(locs, pris));
    assert ArticleEntries(locs, pris)[a] == ArticleEntry(m, locs[a]);
    assert ArticleEntries(locs, pris)[b] == ArticleEntry(m, locs[b]);
  }

  /** The directory entry `d` first, then the article entries of `ps` under the location function `loc`. */
  function EntriesWith(d: Entry, loc: CatalogPage -> string, ps: seq<CatalogPage>): (r: seq<Entry>)
    ensures |r| == |ps| + 1 && r[0] == d
  {
    [d] + ArticleEntries(Seqs.MapSnoc(loc, ps), Priorities(ps))
  }

  /** Behind one leading element, position `i` holds element `i - 1`. */
  lemma ConsAt<X>(x: X, s: seq<X>, i: nat)
    requires 1 <= i <= |s|
    ensures ([x] + s)[i] == s[i - 1]
  {
  }

  /** Entry `i` is article entry `i - 1`, and article `i - 1` has location and priority at position `i - 1`. */
  lemma EntriesWithTail(d: Entry, loc: CatalogPage -> string, ps: seq<CatalogPage>, i: nat)
    requires 1 <= i <= |ps|
    ensures EntriesWith(d, loc, ps)[i] == ArticleEntries(Seqs.MapSnoc(loc, ps), Priorities(ps))[i - 1]
    ensures Seqs.MapSnoc(loc, ps)[i - 1] == loc(ps[i - 1])
  {
    ConsAt(d, ArticleEntries(Seqs.MapSnoc(loc, ps), Priorities(ps)), i);
    Seqs.MapSnocAt(loc, ps, i - 1);
  }

  /** Position `j` is the last page whose location is `l`. */
  predicate LastWith(loc: CatalogPage -> string, ps: seq<CatalogPage>, j: int, l: string) {
    0 <= j < |ps| && loc(ps[j]) == l && forall k :: j < k < |ps| ==> loc(ps[k]) != l
  }

  /** Entry `i` carries the priority of page `j`, the last one sharing page `i - 1`'s location. */
  lemma EntriesWithLast(d: Entry, loc: CatalogPage -> string, ps: seq<CatalogPage>, i: nat) returns (j: nat)
    requires 1 <= i <= |ps|
    ensures i - 1 <= j && LastWith(loc, ps, j, loc(ps[i - 1]))
    ensures EntriesWith(d, loc, ps)[i].priority == PriorityFor(ps[j])
  {
    var locs := Seqs.MapSnoc(loc, ps);
    var pris := Priorities(ps);
    ArticleEntryAt(locs, pris, i - 1);
    j :| i - 1 <= j && LastAt(locs, j, locs[i - 1]) && ArticleEntries(locs, pris)[i - 1].priority == pris[j];
    EntriesWithTail(d, loc, ps, i);
    Seqs.MapSnocAt(loc, ps, j);
    Seqs.MapSnocAt(PriorityFor, ps, j);
    forall k | j < k < |ps|
      ensures loc(ps[k]) != loc(ps[i - 1])
    {
      Seqs.MapSnocAt(loc, ps, k);
    }
  }

  /** Entry `i` is page `i - 1`'s location, with the priority of the last page sharing it. */
  lemma EntriesWithAt(d: Entry, loc: CatalogPage -> string, ps: seq<CatalogPage>, i: nat)
    requires 1 <= i <= |ps|
    ensures EntriesWith(d, loc, ps)[i].loc == loc(ps[i - 1])
    ensures exists j :: i - 1 <= j && LastWith(loc, ps, j, loc(ps[i - 1]))
                     && EntriesWith(d, loc, ps)[i].priority == PriorityFor(ps[j])
  {
    EntriesWithTail(d, loc, ps, i);
    ArticleEntryLoc(Seqs.MapSnoc(loc, ps), Priorities(ps), i - 1);
    var j := EntriesWithLast(d, loc, ps, i);
  }

  /** A page that is the last with its location is written with its own priority. */
  lemma EntriesWithOwn(d: Entry, loc: CatalogPage -> string, ps: seq<CatalogPage>, i: nat)
    requires 1 <= i <= |ps| && LastWith(loc, ps, i - 1, loc(ps[i - 1]))
    ensures EntriesWith(d, loc, ps)[i].priority == PriorityFor(ps[i - 1])
  {
    var j := EntriesWithLast(d, loc, ps, i);
    assert !(i - 1 < j);
  }

  /** Pages with the same location get the same entry. */
  lemma EntriesWithSame(d: Entry, loc: CatalogPage -> string, ps: seq<CatalogPage>, a: nat, b: nat)
    requires a < |ps| && b < |ps| && loc(ps[a]) == loc(ps[b])
    ensures EntriesWith(d, loc, ps)[a + 1] == EntriesWith(d, loc, ps)[b + 1]
  {
    EntriesWithTail(d, loc, ps, a + 1);
    EntriesWithTail(d, loc, ps, b + 1);
    ArticleEntrySame(Seqs.MapSnoc(loc, ps), Priorities(ps), a, b);
  }

  /** The directory page first, then one entry per included article, in catalog order. */
  function PseoEntries(baseUrl: string, ps: seq<CatalogPage>, records: map<string, Generate.PseoRecord>): seq<Entry> {
    EntriesWith(Entry(baseUrl + PseoPath, Directory), LocOf(baseUrl, records), ps)
  }

  /**
   * Entry `i` is article `i - 1`'s location, written with the priority of
   * the last included page that has the same location (the `Map` keeps
   * the last value set for a key).
   */
  lemma PseoEntryAt(baseUrl: string, ps: seq<CatalogPage>, records: map<string, Generate.PseoRecord>, i: nat)
    requires 1 <= i <= |ps|
    ensures PseoEntries(baseUrl, ps, records)[i].loc == LocOf(baseUrl, records)(ps[i - 1])
    ensures exists j :: i - 1 <= j && LastWith(LocOf(baseUrl, records), ps, j, LocOf(baseUrl, records)(ps[i - 1]))
                     && PseoEntries(baseUrl, ps, records)[i].priority == PriorityFor(ps[j])
  {
    EntriesWithAt(Entry(baseUrl + PseoPath, Directory), LocOf(baseUrl, records), ps, i);
  }

  /**
   * Exactly one entry has priority 0.75, the first, for the directory page;
   * the others follow the articles in order, and an article whose location
   * no later article shares carries its own page's priority.
   */
  lemma PseoEntriesSpec(baseUrl: string, ps: seq<CatalogPage>, records: map<string, Generate.PseoRecord>, i: nat)
    ensures |PseoEntries(baseUrl, ps, records)| == |ps| + 1
    ensures PseoEntries(baseUrl, ps, records)[0] == Entry(baseUrl + PseoPath, Directory)
    ensures 1 <= i <= |ps| ==>
      PseoEntries(baseUrl, ps, records)[i].priority != Directory
      && PseoEntries(baseUrl, ps, records)[i].loc == LocOf(baseUrl, records)(ps[i - 1])
    ensures 1 <= i <= |ps| && LastWith(LocOf(baseUrl, records), ps, i - 1, LocOf(baseUrl, records)(ps[i - 1])) ==>
      PseoEntries(baseUrl, ps, records)[i].priority == PriorityFor(ps[i - 1])
  {
    var d, loc := Entry(baseUrl + PseoPath, Directory), LocOf(baseUrl, records);
    if 1 <= i <= |ps| {
      EntriesWithAt(d, loc, ps, i);
      if LastWith(loc, ps, i - 1, loc(ps[i - 1])) {
        EntriesWithOwn(d, loc, ps, i);
      }
    }
  }

  /** Two articles with the same location are written with the same entry, whatever their own types. */
  lemma SharedLocSameEntry(baseUrl: string, ps: seq<CatalogPage>, records: map<string, Generate.PseoRecord>, a: nat, b: nat)
    requires a < |ps| && b < |ps| && LocOf(baseUrl, records)(ps[a]) == LocOf(baseUrl, records)(ps[b])
    ensures PseoEntries(baseUrl, ps, records)[a + 1] == PseoEntries(baseUrl, ps, records)[b + 1]
  {
    EntriesWithSame(Entry(baseUrl + PseoPath, Directory), LocOf(baseUrl, records), ps, a, b);
  }

  /** `<url>` block of one entry, dated `today`. */
  function EntryBlock(e: Entry, today: string): string {
    "    <url>\n        <loc>" + e.loc + "</loc>\n        <lastmod>" + today + "</lastmod>\n        <changefreq>"
      + ChangeFreq + "</changefreq>\n        <priority>" + e.priority.Text() + "</priority>\n    </url>"
  }

  function EntryBlocks(es: seq<Entry>, today: string): (r: seq<string>)
    ensures |r| == |es| && forall i :: 0 <= i < |es| ==> r[i] == EntryBlock(es[i], today)
  {
    seq(|es|, i requires 0 <= i < |es| => EntryBlock(es[i], today))
  }

  function Texts(blocks: seq<UrlBlock>): (r: seq<string>)
    ensures |r| == |blocks| && forall i :: 0 <= i < |blocks| ==> r[i] == blocks[i].text
  {
    seq(|blocks|, i requires 0 <= i < |blocks| => blocks[i].text)
  }

  /** The new `<urlset>` body: the kept blocks, then the new entries, one per line. */
  function NewBody(kept: seq<UrlBlock>, es: seq<Entry>, today: string): string {
    Join(Texts(kept), "\n") + (if kept != [] then "\n" else "") + Join(EntryBlocks(es, today), "\n")
  }

  /** The body is the kept blocks joined, a newline when there were any, then the entries joined. */
  lemma NewBodySpec(kept: seq<UrlBlock>, es: seq<Entry>, today: string)
    ensures kept == [] ==> NewBody(kept, es, today) == Join(EntryBlocks(es, today), "\n")
    ensures kept != [] ==> StartsWith(NewBody(kept, es, today), Join(Texts(kept), "\n") + "\n")
  {
    if kept == [] {
      assert Texts(kept) == [];
    } else {
      var b := NewBody(kept, es, today);
      var pre := Join(Texts(kept), "\n") + "\n";
      assert b == pre + Join(EntryBlocks(es, today), "\n");
      assert b[..|pre|] == pre;
    }
  }

  // ---------------------------------------------------------------------
  // robots.txt
  // ---------------------------------------------------------------------

  const SitemapKey := "sitemap:"

  /** The text names a sitemap ("Sitemap:" in any letter case). */
  predicate HasSitemapLine(robots: string) {
    Contains(Lower(robots), SitemapKey)
  }

  function SitemapLine(baseUrl: string): string {
    "Sitemap: " + baseUrl + "/sitemap.xml"
  }

  /**
   * The new robots.txt, or `None` when nothing is written: no sitemap.xml
   * (the run stops first), no robots.txt, or a sitemap line already there.
   */
  function RobotsUpdate(sitemapExists: bool, robots: Option<string>, baseUrl: string): Option<string> {
    if !sitemapExists || robots.None? || HasSitemapLine(robots.value) then None
    else Some(TrimEnd(robots.value) + "\n" + SitemapLine(baseUrl) + "\n")
  }

  /** Appending keeps the trimmed text, adds the line, and a second run writes nothing. */
  lemma RobotsUpdateSpec(sitemapExists: bool, robots: Option<string>, baseUrl: string)
    ensures !sitemapExists || robots.None? ==> RobotsUpdate(sitemapExists, robots, baseUrl).None?
    ensures RobotsUpdate(sitemapExists, robots, baseUrl).Some? <==> sitemapExists && robots.Some? && !HasSitemapLine(robots.value)
    ensures RobotsUpdate(sitemapExists, robots, baseUrl).Some? ==>
      var r := RobotsUpdate(sitemapExists, robots, baseUrl).value;
      StartsWith(r, TrimEnd(robots.value)) && HasSitemapLine(r)
      && RobotsUpdate(true, Some(r), baseUrl).None?
  {
    if RobotsUpdate(sitemapExists, robots, baseUrl).Some? {
      var t := TrimEnd(robots.value);
      var line := SitemapLine(baseUrl);
      var r := t + "\n" + line + "\n";
      assert r[..|t|] == t;
      var at := |t| + 1;
      assert r[at..at + 9] == "Sitemap: ";
      LowerPrefix(r, at);
    }
  }

  /** A text with "Sitemap:" at `at` names a sitemap. */
  lemma LowerPrefix(r: string, at: nat)
    requires at + 8 <= |r| && r[at..at + 8] == "Sitemap:"
    ensures HasSitemapLine(r)
  {
    var l := Lower(r);
    assert l[at..at + 8] == SitemapKey by {
      forall k | 0 <= k < 8 ensures l[at + k] == SitemapKey[k] {
        assert r[at + k] == "Sitemap:"[k];
      }
    }
    assert MatchAt(l, SitemapKey, at);
  }
}
