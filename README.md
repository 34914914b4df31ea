# PSEO content pipeline — a Dafny model

This project models the core of the programmatic-SEO (PSEO) content pipeline of the AIMOaaS
site: the scripts under `scripts/pseo/` that turn an inventory of pages into published Japanese
articles and then check them. One Dafny module per source script:

- **Slugs and the page SSOT** (the single source of truth for pages): the dictionary-first slugger (`Slugger`), the page records of phase 0 (`PagesSsot`), phase A of the page SSOT (`BuildSsotPhaseA`) and its consistency check (`SsotCheck`).
- **Exports and taxonomy:** the URL export of the published articles (`ExportSsot`), with its CSV quoting per section 2 of RFC 4180, and the search-intent taxonomy (`IntentTaxonomy`).
- **Building pages:** the catalog builder (`BuildCatalog`) and page generation (`Generate`).
- **Quality gates:**
  - content similarity (`Similarity`) and the phase-0 duplicate report (`DuplicateReport`);
  - the MECE gate (`MeceGate`: no two indexed pages serve the same search intent) and the CI gate (`CiPseoGate`);
  - the page validator (`Validate`) and the internal-link checker (`CheckPseoLinks`).
- **HTML post-processors:** removal of repeated `<h2>` sections (`DedupHeadings`), table wrapping (`TableWrap`) and topic-asset injection (`InjectAssets`).
- **Publishing:**
  - the 301 redirects of the URL migration (`Redirects`, section 15.4.2 of RFC 9110);
  - the sitemap and robots.txt update (`Sitemap`);
  - the directory page of the articles (`RenderPseoIndex`);
  - the index-release candidates (`ReleaseCandidates`);
  - the catalog prioritiser (`Prioritize`) and the metrics pull (`AnalyticsPull`).

`util.dfy` holds the shared vocabulary:

- `Wrappers`: optional values and results;
- `Strings`: the JavaScript string operations the scripts use (`\s`, trim, split, indexOf, toLowerCase);
- `Seqs`: `[...new Set(xs)]`, insertion-ordered grouping, a stable sort by a numeric key, and the default string sort;
- `Pairs`: the pairwise loops.

How the source is modelled:

- A script that only computes becomes datatypes, functions and lemmas.
- A loop becomes a `method` whose `ensures` ties its result to a specification function, and lemmas prove the properties of that function.
- A module-level counter becomes a class with a field (`BuildCatalog.CatalogBuilder`).
- Files, the clock, the network and process exits become values passed in or verdicts returned.

## Model

| member | source | states |
|---|---|---|
| PagesSsot.Or | scripts/pseo/pages_ssot.ts:48 | `a \|\| b` on strings: the result is one of the two, and it is empty exactly when both are |
| PagesSsot.RecordForFailIff | scripts/pseo/pages_ssot.ts:49-56 | a page's record fails exactly when the slugger refuses both the page's own id and the fallback id `ai-governance-1` (the retry is not caught) |
| PagesSsot.RecordForSpec | scripts/pseo/pages_ssot.ts:48-65 | a record keeps the page's id, its title (else its h1), the slug base of its h1 (else title, else id), a final URL that is the final slug under `/ja/resources/pseo/` and a legacy URL from the id |
| PagesSsot.RecordEndsWithId | scripts/pseo/pages_ssot.ts:51-55 | with `-` as separator and an id free of leading or doubled hyphens, the final slug ends in `-` and the page id on both the first try and the retry |
| PagesSsot.Run | scripts/pseo/pages_ssot.ts:36-66 | a missing inventory fails; otherwise the result is the records of all pages in order, or the first uncaught slugger error |
| PagesSsot.RecordsFailIff | scripts/pseo/pages_ssot.ts:47-66 | the run fails exactly when some page has both its own id and the fallback id refused |
| PagesSsot.RecordsSpec | scripts/pseo/pages_ssot.ts:46-66 | one record per page, in order, each with the fields `RecordForSpec` states |
| SsotCheck.KeyErrorNone | scripts/pseo/quality/ssot_check.ts:60-69 | a required key passes exactly when its value is present and non-null, not a blank string, and (for `topic`) not an empty array |
| SsotCheck.KeyErrorsEmpty | scripts/pseo/quality/ssot_check.ts:60-69 | a page has no key errors exactly when every required key passes |
| SsotCheck.CheckKeys | scripts/pseo/quality/ssot_check.ts:60-69 | the key loop yields the errors of the seven required keys, in key order |
| SsotCheck.CheckPage | scripts/pseo/quality/ssot_check.ts:57-84 | one page's errors: its key errors, then a slug mismatch unless `final_slug` is `slug_base-id`, then a url mismatch unless the url is the expected one up to a trailing slash |
| SsotCheck.Run | scripts/pseo/quality/ssot_check.ts:39-90 | a missing file reports not-found; a page count other than 100 reports the count; otherwise every page's errors are reported, none stops the scan; exit code 1 exactly when there are errors |
| SsotCheck.AllErrorsMember | scripts/pseo/quality/ssot_check.ts:55-85 | an error is reported exactly when some page has it |
| SsotCheck.AllErrorsEmpty | scripts/pseo/quality/ssot_check.ts:87-92 | the SSOT check passes exactly when every page is clean |
| SsotCheck.PageClean | scripts/pseo/quality/ssot_check.ts:60-84 | a page is clean exactly when every required key passes, its final slug is `slug_base-id` and its url passes |
| SsotCheck.UrlOkIff | scripts/pseo/quality/ssot_check.ts:78-84 | for a final slug not ending in `/`, the url passes exactly when it is `/ja/resources/pseo/<final_slug>/` with or without the trailing slash |
| Redirects.LinesLength | scripts/pseo/redirects.ts:33-39 | the preview has two lines per page |
| Redirects.LinesAt | scripts/pseo/redirects.ts:34-39 | line 2i is page i's legacy URL without its trailing slash, line 2i+1 the same with a slash; both point at the final URL with exactly one trailing slash and code 301 |
| Redirects.FindBlock | scripts/pseo/redirects.ts:49 | the regular-expression search finds a block starting at the `\n# PSEO legacy URL` marker and ending inside the text |
| Redirects.FindBlockNone | scripts/pseo/redirects.ts:49 | a text without the marker holds no block, so the replace leaves it unchanged |
| Redirects.WithoutBlock | scripts/pseo/redirects.ts:49 | cutting the block never lengthens the file |
| Redirects.Run | scripts/pseo/redirects.ts:23-51 | a missing pages file fails; otherwise the preview is the generated lines joined by line feeds, and the new `_redirects` is the old file without its block, trimmed at the end, plus the new block, trimmed at the start |
| Redirects.KeepsOtherContent | scripts/pseo/redirects.ts:46-50 | a file without a PSEO block keeps all its text (trimmed) in front of the new block |
| Redirects.TextShape | scripts/pseo/redirects.ts:48-50 | the written file is the kept part and the heading line, then the preview and a final line feed |
| Redirects.WrittenLines | scripts/pseo/redirects.ts:41-50 | split at line feeds, the written file is the kept part's lines, then exactly the generated lines, then one empty line |
| Redirects.SplitJoin | scripts/pseo/redirects.ts:41 | splitting the joined preview at line feeds gives back its lines |
| Redirects.EntryOfLineWith | scripts/pseo/redirects.ts:38 | the validator's parse of the slash-suffixed line gives the legacy URL without its slash and the final URL with one |
| Redirects.RedirectsRoundTrip | scripts/pseo/redirects.ts:33-50 | round trip with the validator: parsing the written `_redirects`, the validator finds every page's legacy URL redirected to its final URL, whatever else the file held |
| Redirects.SecondRunAppends | scripts/pseo/redirects.ts:48-50 | as written: from an empty `_redirects`, the first run's `trimStart` removes the newline the marker pattern needs, so a second run keeps the first block and appends another |
| Redirects.RerunReplaces | scripts/pseo/redirects.ts:46-50 | corrected write (the newline before the marker kept, no `trimStart`): from an empty `_redirects`, running twice gives the same file as running once, so the block is replaced and not appended |
| TableWrap.TableAt | scripts/pseo/postprocess_table_wrap.ts:26 | a match of the table pattern lies inside the text: the end of its opening tag comes before its first closing tag |
| TableWrap.ScanIdentity | scripts/pseo/postprocess_table_wrap.ts:25-28 | where the pattern has no match from a position on, the replace copies the rest unchanged |
| TableWrap.WrapFromIdentity | scripts/pseo/postprocess_table_wrap.ts:25-28 | a body with no table from a position on is copied unchanged from there |
| TableWrap.OpensMarked | scripts/pseo/postprocess_table_wrap.ts:27 | a text that opens with the wrapper holds the `table-wrap` class name |
| TableWrap.WrappedOpens | scripts/pseo/postprocess_table_wrap.ts:27 | every replacement opens with the wrapper `<div class="table-wrap">` |
| TableWrap.ScanHit | scripts/pseo/postprocess_table_wrap.ts:25-28 | at a match, the output is the wrapped table followed by the scan after the closing tag |
| TableWrap.ScanMarks | scripts/pseo/postprocess_table_wrap.ts:25-28 | once any match is replaced, the output holds the class name |
| TableWrap.WrapFromMarks | scripts/pseo/postprocess_table_wrap.ts:25-28 | a body with a table from a position on gains the wrapper |
| TableWrap.WrapNoTable | scripts/pseo/postprocess_table_wrap.ts:23-29 | a body that already holds `table-wrap`, or has no table, is returned unchanged |
| TableWrap.WrapChanges | scripts/pseo/postprocess_table_wrap.ts:23-29 | a body with a table and no wrapper changes and gains the wrapper |
| TableWrap.WrapIdempotent | scripts/pseo/postprocess_table_wrap.ts:22-29 | wrapping twice is wrapping once (no double wrap) |
| TableWrap.ProcessPage | scripts/pseo/postprocess_table_wrap.ts:36-51 | one pass of the loop: a missing file, a page without the prose section or an unchanged body writes nothing; else one write of the spliced page |
| TableWrap.WritesStep | scripts/pseo/postprocess_table_wrap.ts:35-52 | the writes of a prefix of pages grow by exactly the next page's write |
| TableWrap.Run | scripts/pseo/postprocess_table_wrap.ts:31-55 | the files written are the per-page writes in page order, and `updated` counts them and is at most the number of pages |
| TableWrap.SplicedKeepsOutside | scripts/pseo/postprocess_table_wrap.ts:49 | a rewritten page keeps everything before and after its prose body, including the opening and closing tags |
| TableWrap.SecondPassWritesNothing | scripts/pseo/postprocess_table_wrap.ts:24-47 | running the pass again on a page it rewrote writes nothing |
| TableWrap.WritesBound | scripts/pseo/postprocess_table_wrap.ts:35-52 | at most one write per page, and every write comes from some page |
| DedupHeadings.ReplaceIdeographicSpace | scripts/pseo/quality/dedup_headings.ts:14 | mapping U+3000 to a space keeps the length |
| DedupHeadings.CollapseTidy | scripts/pseo/quality/dedup_headings.ts:13 | after collapsing, every whitespace run is a single space |
| DedupHeadings.TidyIdeographic | scripts/pseo/quality/dedup_headings.ts:13-14 | once whitespace is collapsed, the U+3000 replace changes nothing (U+3000 is whitespace to `\s`) |
| DedupHeadings.TrimEnds | scripts/pseo/quality/dedup_headings.ts:15 | `trim` gives a slice of the text with no whitespace at either end |
| DedupHeadings.KeyShape | scripts/pseo/quality/dedup_headings.ts:11-17 | a heading key has single spaces only and no surrounding whitespace, so headings that differ only in spacing share a key |
| DedupHeadings.KeyIgnoresCase | scripts/pseo/quality/dedup_headings.ts:11-17 | headings that differ only in (ASCII) case share a key |
| DedupHeadings.KeyIgnoresLeadingSpace | scripts/pseo/quality/dedup_headings.ts:11-17 | leading whitespace does not change the key |
| DedupHeadings.ReferencesIff | scripts/pseo/quality/dedup_headings.ts:19-22 | a heading is a References heading iff its key is "references" or "参考文献"; the third spelling, with a trailing space, can never be a key |
| DedupHeadings.FindH2 | scripts/pseo/quality/dedup_headings.ts:8-43 | a match of `/<h2[^>]*>/i` lies inside the text and is at least four characters long |
| DedupHeadings.FindH2Spec | scripts/pseo/quality/dedup_headings.ts:8-43 | the match is the first `<h2` in any case, closed by the first `>` after it; with no `>` after the first `<h2` there is no match at all |
| DedupHeadings.StripTags | scripts/pseo/quality/dedup_headings.ts:52 | removing tags never lengthens the text |
| DedupHeadings.StripTagsPlain | scripts/pseo/quality/dedup_headings.ts:52 | text without `<` is left as it is |
| DedupHeadings.SectionEnd | scripts/pseo/quality/dedup_headings.ts:49-55 | a section ends after its opening tag and inside the text |
| DedupHeadings.NextSection | scripts/pseo/quality/dedup_headings.ts:43-55 | the next section, when an opening tag remains, ends inside the text at least four characters after its start |
| DedupHeadings.ClosedSectionEnd | scripts/pseo/quality/dedup_headings.ts:51-55 | with a closing `</h2>`, a section ends exactly where the next `<h2` starts, or at the end of the text |
| DedupHeadings.UnclosedSectionEnd | scripts/pseo/quality/dedup_headings.ts:51-55 | without a closing `</h2>`, the end is computed from `close = -1` and lands four characters inside the next opening tag |
| DedupHeadings.Cuts | scripts/pseo/quality/dedup_headings.ts:42-87 | the sections the loop meets, in order, each well formed |
| DedupHeadings.CutsCons | scripts/pseo/quality/dedup_headings.ts:64-86 | each turn of the loop consumes one section and continues on the text after its end |
| DedupHeadings.FlushReferences | scripts/pseo/quality/dedup_headings.ts:32-40 | flushing emits only the last buffered References section, noting "kept last of n" when more than one was buffered, and empties the buffer |
| DedupHeadings.DeduplicateH2Sections | scripts/pseo/quality/dedup_headings.ts:24-92 | the loop computes exactly the section-by-section description `Dedup` |
| DedupHeadings.StepAgrees | scripts/pseo/quality/dedup_headings.ts:58-86 | one loop pass takes the per-index description after k sections to the one after k + 1 |
| DedupHeadings.FoldAgrees | scripts/pseo/quality/dedup_headings.ts:42-87 | the whole loop reaches the per-index description after all sections |
| DedupHeadings.DedupByIndex | scripts/pseo/quality/dedup_headings.ts:24-92 | the result is the parts each section adds, then the trailing text, then the last References run, joined by blank lines; the fixups are the dropped headings in order, then the References note |
| DedupHeadings.RunBufShape | scripts/pseo/quality/dedup_headings.ts:63-69 | the References buffer after k sections holds one entry per References section directly before k, the last being the latest |
| DedupHeadings.FlushAt | scripts/pseo/quality/dedup_headings.ts:32-89 | flushing the buffer held after k sections emits exactly its last section and the note for the run |
| DedupHeadings.KeysBeforeMembers | scripts/pseo/quality/dedup_headings.ts:71-78 | a key is in `seen` after k sections iff some earlier non-References section has it |
| DedupHeadings.KeptIffFirst | scripts/pseo/quality/dedup_headings.ts:71-84 | a non-References section is kept iff no earlier non-References section has its key |
| DedupHeadings.KeptDistinct | scripts/pseo/quality/dedup_headings.ts:71-84 | kept sections have pairwise distinct keys |
| DedupHeadings.RunLenSpan | scripts/pseo/quality/dedup_headings.ts:58-69 | the References run counted at k is exactly the maximal run of References sections just before k |
| DedupHeadings.NoHeading | scripts/pseo/quality/dedup_headings.ts:43-91 | text with no opening `<h2` comes back trimmed, with no fixups |
| DedupHeadings.PartsPrefix | scripts/pseo/quality/dedup_headings.ts:61-84 | parts are only ever appended |
| DedupHeadings.PreambleTwice | scripts/pseo/quality/dedup_headings.ts:56-84 | as written: when the first section is kept, the text before it is emitted once on its own and again at the head of the section, because the section is sliced from the start of the text |
| DedupHeadings.SliceOpensWithTag | scripts/pseo/quality/dedup_headings.ts:56 | trimming a slice that starts with `<` and holds a `>` keeps the whole tag at its head |
| DedupHeadings.NextSectionOpens | scripts/pseo/quality/dedup_headings.ts:43-56 | the next section, sliced from its heading, keeps the whole opening tag the search matched |
| DedupHeadings.HeadingOpensSection | scripts/pseo/quality/dedup_headings.ts:56 | intended: sliced from its heading, the first section's part opens with its own `<h2…>` tag and holds none of the text before it |
| CheckPseoLinks.StripJa | scripts/pseo/check_pseo_links.ts:19 | removing a leading `/ja` or `/ja/` never lengthens the path |
| CheckPseoLinks.FragmentStart | scripts/pseo/check_pseo_links.ts:19 | the cut for `#.*$`, when inside the text, is a `#` with no line terminator after it |
| CheckPseoLinks.DropFragment | scripts/pseo/check_pseo_links.ts:19 | dropping the fragment never lengthens the path |
| CheckPseoLinks.DropFragmentNoHash | scripts/pseo/check_pseo_links.ts:19 | a path without `#` has no fragment to drop |
| CheckPseoLinks.Rest | scripts/pseo/check_pseo_links.ts:19 | the normalised path is never empty ("index" when nothing is left) |
| CheckPseoLinks.RestJa | scripts/pseo/check_pseo_links.ts:19 | after `/ja/`, the normalised path is the rest without one trailing slash, or "index" |
| CheckPseoLinks.PathToDirShape | scripts/pseo/check_pseo_links.ts:18-34 | `pathToDir` returns "" or a path ending in `/index.html` |
| CheckPseoLinks.SplitFirst | scripts/pseo/check_pseo_links.ts:25 | the first part of a split at `/` is a prefix of the text |
| CheckPseoLinks.SplitFirstEmpty | scripts/pseo/check_pseo_links.ts:25 | the first part is empty exactly when the text is empty or starts with `/` |
| CheckPseoLinks.ResourcesDirEmpty | scripts/pseo/check_pseo_links.ts:22-31 | the `resources/` branch returns "" only under `pseo` |
| CheckPseoLinks.PathToDirEmpty | scripts/pseo/check_pseo_links.ts:18-34 | "" comes only from a `resources/pseo` path with no slug |
| CheckPseoLinks.PathOfResources | scripts/pseo/check_pseo_links.ts:22-31 | a `resources/` path is decided by what follows `resources/` alone |
| CheckPseoLinks.ResourcesDirPseo | scripts/pseo/check_pseo_links.ts:26-29 | under `pseo/`, the result is "" exactly when the slug part is empty |
| CheckPseoLinks.RestPseo | scripts/pseo/check_pseo_links.ts:19 | a PSEO link with something after the prefix normalises to `resources/pseo/` and that part without one trailing slash |
| CheckPseoLinks.PseoListing | scripts/pseo/check_pseo_links.ts:18-29 | `/ja/resources/pseo/<x>` maps to "" exactly when no slug follows |
| CheckPseoLinks.ResourcesFirstPart | scripts/pseo/check_pseo_links.ts:25-30 | `/ja/resources/<a>/<b>…` maps to the index of `<a>`: only the first part counts |
| CheckPseoLinks.SlashInsensitive | scripts/pseo/check_pseo_links.ts:19 | `/ja/x` and `/ja/x/` map to the same file |
| CheckPseoLinks.ExistsPathIff | scripts/pseo/check_pseo_links.ts:36-41 | a path exists exactly when it maps to a non-empty file name that is in the set of existing files |
| CheckPseoLinks.Names | scripts/pseo/check_pseo_links.ts:49-51 | the slugs are the directory names, in order |
| CheckPseoLinks.ScanAllFacts | scripts/pseo/check_pseo_links.ts:55-80 | after any prefix of the links: `seen` is exactly the urls met, each broken entry is a met, non-skipped, not-ok link, reported urls are distinct, and every met not-ok link is reported |
| CheckPseoLinks.BrokenIff | scripts/pseo/check_pseo_links.ts:61-79 | each url is reported at most once, and a path is reported iff some page links to it and it is neither skipped nor ok |
| CheckPseoLinks.CleanIff | scripts/pseo/check_pseo_links.ts:61-84 | nothing is reported iff every link is skipped or ok |
| CheckPseoLinks.VisitLink | scripts/pseo/check_pseo_links.ts:62-78 | one link: skip a url already seen, else mark it seen; skip `/ja`, `/ja/` and `/ja/#…`; a PSEO link is ok iff its slug is a PSEO directory, any other iff its path exists |
| CheckPseoLinks.ScanStep | scripts/pseo/check_pseo_links.ts:61-79 | one more link of a directory is one more visit |
| CheckPseoLinks.VisitDir | scripts/pseo/check_pseo_links.ts:55-80 | the inner loop over one directory's links extends the scan by exactly that directory's links; a directory without a page adds none |
| CheckPseoLinks.Run | scripts/pseo/check_pseo_links.ts:43-90 | a missing PSEO root exits 1; otherwise the report is the scan's broken list, and the exit code is 0 iff it is empty |
| Sitemap.PriorityFor | scripts/pseo/sitemap.ts:23-28 | an article's priority is never the directory page's 0.75 |
| Sitemap.PriorityForSpec | scripts/pseo/sitemap.ts:23-28 | type E gives 0.6, types A to D give 0.7, and every other type or none gives 0.5 (each as an if-and-only-if) |
| Sitemap.LocForSpec | scripts/pseo/sitemap.ts:53-58 | every location ends in a slash; with a record for the slug's last segment it is the base URL and the record's final URL with one slash added, otherwise the base URL and the slug without its trailing slash, plus a slash |
| Sitemap.PseoLocSpec | scripts/pseo/sitemap.ts:53-58 | the same for a catalog page, keyed by the last segment of its slug |
| Sitemap.PagesInSitemapSpec | scripts/pseo/sitemap.ts:71-79 | a page is listed iff it is a `ja` page of the catalog with a record whose final slug is allowlisted and has an `index.html`; an empty allowlist lists no article |
| Sitemap.NormalizeLoc | scripts/pseo/sitemap.ts:100-101 | no location gives ""; otherwise the location ends in exactly one slash |
| Sitemap.CollectNonPseoBlocks | scripts/pseo/sitemap.ts:94-104 | the loop keeps exactly the blocks `NonPseoBlocks` describes |
| Sitemap.NonPseoBlocksSpec | scripts/pseo/sitemap.ts:92-104 | existing blocks keep their order; a block is kept iff it has no location, or one that is neither a new article location nor under `/ja/resources/pseo/` |
| Sitemap.ArticleEntryLoc | scripts/pseo/sitemap.ts:113-123 | article entry i carries location i |
| Sitemap.ArticleEntryAt | scripts/pseo/sitemap.ts:83-88 | article entry i carries the priority of the last position at or after i holding the same location (the `Map` keeps the last value set for a key) |
| Sitemap.ArticleEntrySame | scripts/pseo/sitemap.ts:83-88 | positions holding the same location get identical article entries |
| Sitemap.EntriesWith | scripts/pseo/sitemap.ts:106-123 | the entry list has one entry more than there are pages, and the directory entry first |
| Sitemap.EntriesWithTail | scripts/pseo/sitemap.ts:113-123 | entry i is article entry i - 1, built from page i - 1's location |
| Sitemap.EntriesWithLast | scripts/pseo/sitemap.ts:83-88 | entry i carries the priority of page j, the last page at or after i - 1 whose location equals page i - 1's |
| Sitemap.EntriesWithAt | scripts/pseo/sitemap.ts:83-123 | entry i is page i - 1's location with the priority of the last page sharing that location |
| Sitemap.EntriesWithOwn | scripts/pseo/sitemap.ts:83-115 | a page that no later page shares its location with is written with its own priority |
| Sitemap.EntriesWithSame | scripts/pseo/sitemap.ts:83-115 | pages with the same location are written with identical entries |
| Sitemap.PseoEntriesSpec | scripts/pseo/sitemap.ts:106-123 | one entry more than there are articles; the first is the directory page at 0.75; entry i is article i - 1's `pseoLoc`, never at 0.75, and with the article's own priority when no later article shares its location |
| Sitemap.PseoEntryAt | scripts/pseo/sitemap.ts:83-115 | entry i is article i - 1's `pseoLoc`, written with the priority of the last included article that has the same location |
| Sitemap.SharedLocSameEntry | scripts/pseo/sitemap.ts:83-115 | two articles with the same `pseoLoc` are written with identical entries, whatever their own types |
| Sitemap.EntryBlocks | scripts/pseo/sitemap.ts:107-122 | one `<url>` block per entry, in order |
| Sitemap.Texts | scripts/pseo/sitemap.ts:103-126 | the kept blocks' texts, in order |
| Sitemap.NewBodySpec | scripts/pseo/sitemap.ts:126 | without kept blocks the body is the entry blocks joined by newlines; otherwise it starts with the kept blocks joined and a newline |
| Sitemap.RobotsUpdateSpec | scripts/pseo/sitemap.ts:135-143 | robots.txt is written iff the sitemap exists, robots.txt exists and names no sitemap; the new text keeps the old one, trimmed at its end, names a sitemap, so a second run writes nothing |
| Sitemap.LowerPrefix | scripts/pseo/sitemap.ts:138 | a text holding "Sitemap:" passes the case-insensitive test |
| ReleaseCandidates.CandidateIff | scripts/pseo/release_candidates.ts:56-75 | a page is a candidate iff it is in the report, passed every rule and failed none, has similarity (0 when absent) under 0.92, a CTA, and topics that are a list (absent counts as a list) |
| ReleaseCandidates.CollectCandidates | scripts/pseo/release_candidates.ts:67-75 | the candidate loop keeps exactly the passed pages meeting the rules, in order |
| ReleaseCandidates.SelectFirst | scripts/pseo/release_candidates.ts:77-84 | the selection loop takes the first twenty candidates (or all), and the topics seen are theirs, with `["misc"]` for a page without topics |
| ReleaseCandidates.FindNext | scripts/pseo/release_candidates.ts:86 | `find` returns the first page not yet selected that brings a topic not seen yet, or none when no page does |
| ReleaseCandidates.Diversify | scripts/pseo/release_candidates.ts:85-90 | the diversity loop only appends distinct candidates to the selection and only adds topics; with its guard false on entry it changes nothing |
| ReleaseCandidates.DiversityUnreachable | scripts/pseo/release_candidates.ts:79-85 | as written: after the selection loop, the diversity loop's guard is false (twenty are selected, or every candidate is), so the loop never runs |
| ReleaseCandidates.TopicsAtHas | scripts/pseo/release_candidates.ts:89 | every chosen page's topics are among the topics covered |
| ReleaseCandidates.TopicsAtPrefix | scripts/pseo/release_candidates.ts:89 | choosing more pages never loses a topic |
| ReleaseCandidates.AddBringsOne | scripts/pseo/release_candidates.ts:86-89 | adding a page that brings a new topic covers at least one more topic |
| ReleaseCandidates.PickDiverse | scripts/pseo/release_candidates.ts:85-90 | intended, first half: picks at most four distinct pages, and stops with four topics covered or with every candidate's topics covered |
| ReleaseCandidates.FillInOrder | scripts/pseo/release_candidates.ts:79-84 | intended, second half: extends the pick with the remaining candidates in order, keeping it distinct, up to twenty; below twenty every candidate is chosen |
| ReleaseCandidates.SelectDiverse | scripts/pseo/release_candidates.ts:77-90 | intended: at most twenty distinct candidates that cover four topics, or every topic any candidate has |
| ReleaseCandidates.CoveredWhenNoneBrings | scripts/pseo/release_candidates.ts:86-87 | when no page brings a new topic, the topics covered include every candidate's |
| ReleaseCandidates.LastNonEmptyIn | scripts/pseo/release_candidates.ts:61 | `filter(Boolean).pop()` is "" or one of the parts |
| ReleaseCandidates.FinalSlugNoSlash | scripts/pseo/release_candidates.ts:58-65 | a final slug is one path segment: it holds no slash |
| ReleaseCandidates.FinalSlugOfPage | scripts/pseo/release_candidates.ts:58-65 | the slug of `<dir>/<slug>` and of `<dir>/<slug>/` is `<slug>` |
| ReleaseCandidates.AllowSlugsSpec | scripts/pseo/release_candidates.ts:91 | the suggested allowlist holds exactly the non-empty slugs of the selected pages, each one path segment |
| ReleaseCandidates.Run | scripts/pseo/release_candidates.ts:44-100 | a missing quality report gives the placeholder; otherwise the counts, the first twenty candidates, their non-empty slugs, and the first eight of those for FAQ schema |
| ReleaseCandidates.SelectionBounds | scripts/pseo/release_candidates.ts:56-91 | at most twenty are selected (exactly twenty when there are that many candidates), all candidates from the report, with at most one slug each |
| MeceGate.IndexableMembers | scripts/pseo/quality/mece_gate.ts:20 | a page is considered iff its robots is exactly "index,follow" |
| MeceGate.UrlItemsAt | scripts/pseo/quality/mece_gate.ts:22-26 | each indexable page contributes its intent id and its url, or its intent id when it has no url, in page order |
| MeceGate.ViolationsOfMembers | scripts/pseo/quality/mece_gate.ts:27-32 | a violation is reported for exactly the groups with more than one entry, listing all of them |
| MeceGate.ViolationsOfDistinct | scripts/pseo/quality/mece_gate.ts:28-32 | over distinct keys, no intent id is reported twice |
| MeceGate.ReportOf | scripts/pseo/quality/mece_gate.ts:21-32 | for a grouping built from items: one violation per key with more than one value, listing all its values in input order, each key once |
| MeceGate.ReportEmptyIff | scripts/pseo/quality/mece_gate.ts:27-33 | no violation iff no two items share a key |
| MeceGate.TaxonomyMapSpec | scripts/pseo/quality/mece_gate.ts:49-56 | a slug is mapped iff some taxonomy entry names it, and it maps to the intent of the last such entry |
| MeceGate.TaxonomyEmpty | scripts/pseo/quality/mece_gate.ts:49-56 | the taxonomy map is empty iff there is no file, no page list, or an empty one |
| MeceGate.AllowedItemsMembers | scripts/pseo/quality/mece_gate.ts:69-74 | the fallback groups exactly the allowlisted slugs with a non-empty intent, under that intent |
| MeceGate.AllowedItemsDistinct | scripts/pseo/quality/mece_gate.ts:69-74 | over a duplicate-free allowlist, no (intent, slug) item repeats |
| MeceGate.ExitCode | scripts/pseo/quality/mece_gate.ts:36-86 | the process exits 1 iff the gate fails |
| MeceGate.SsotGateFailsIff | scripts/pseo/quality/mece_gate.ts:16-40 | with the SSOT, the gate fails iff two indexable pages share an intent id |
| MeceGate.SsotViolations | scripts/pseo/quality/mece_gate.ts:20-32 | with the SSOT, each violation is an intent id with more than one indexable page, listing all their urls in page order, no intent twice; a non-indexable page appears in no violation |
| MeceGate.FailOpen | scripts/pseo/quality/mece_gate.ts:61-66 | without the SSOT and with an empty or missing taxonomy, the gate only warns and exits 0 |
| MeceGate.FallbackFailsIff | scripts/pseo/quality/mece_gate.ts:68-87 | without the SSOT, the gate fails iff two different allowlisted slugs map to the same non-empty intent; unmapped slugs are ignored |
| MeceGate.SharedSlugIntentIff | scripts/pseo/quality/mece_gate.ts:69-81 | two grouped items share an intent iff two different allowlisted slugs do |
| MeceGate.FallbackViolations | scripts/pseo/quality/mece_gate.ts:68-81 | without the SSOT, every slug listed in a violation is allowlisted and mapped to that intent |
| MeceGate.GroupUrls | scripts/pseo/quality/mece_gate.ts:21-26 | the SSOT loop builds the insertion-ordered grouping of the indexable pages' urls by intent |
| MeceGate.CollectViolations | scripts/pseo/quality/mece_gate.ts:27-32 | the loop over the grouping collects exactly the violations described |
| MeceGate.LoadTaxonomy | scripts/pseo/quality/mece_gate.ts:49-56 | `loadTaxonomy`'s loop builds exactly the slug-to-intent map |
| MeceGate.GroupAllowed | scripts/pseo/quality/mece_gate.ts:68-74 | the fallback loop builds the grouping of the allowlisted slugs by intent |
| MeceGate.Run | scripts/pseo/quality/mece_gate.ts:58-89 | the run's outcome is the gate's: the SSOT check when the SSOT exists, otherwise the skip or the fallback check |
| CiPseoGate.UrlToSlugNoSlash | scripts/pseo/quality/ci_pseo_gate.ts:76 | the slug taken from a url never holds a slash |
| CiPseoGate.NonEmptyPartsFrom | scripts/pseo/quality/ci_pseo_gate.ts:76 | `filter(Boolean)` keeps only parts of the split |
| CiPseoGate.UrlToSlugOfPageUrl | scripts/pseo/quality/ci_pseo_gate.ts:76 | the slug of `http(s)://host/pseo/<slug>/` is `<slug>`: scheme, host and the trailing slash are stripped and the last non-empty segment is kept |
| CiPseoGate.StripOriginOfPageUrl | scripts/pseo/quality/ci_pseo_gate.ts:76 | removing `^https?://[^/]+` leaves the path |
| CiPseoGate.SplitPseoPath | scripts/pseo/quality/ci_pseo_gate.ts:76 | `/pseo/<slug>` splits into "", "pseo" and the slug |
| CiPseoGate.TakeRunPrefix | scripts/pseo/quality/ci_pseo_gate.ts:76 | `[^/]+` matches exactly the host, up to the first slash of the path |
| CiPseoGate.IndexableMembers | scripts/pseo/quality/ci_pseo_gate.ts:43 | a page is indexable iff its robots is exactly "index,follow" |
| CiPseoGate.PillarsMembers | scripts/pseo/quality/ci_pseo_gate.ts:44 | the pillars are exactly the indexable pages marked as pillars |
| CiPseoGate.IntentItemsAt | scripts/pseo/quality/ci_pseo_gate.ts:51-55 | each indexable page contributes its intent id and url, in order |
| CiPseoGate.MeceFailuresIff | scripts/pseo/quality/ci_pseo_gate.ts:50-60 | there is a MECE failure iff two indexable pages share an intent id; each failure is one such intent with all its urls, reported once |
| CiPseoGate.MeceFailures | scripts/pseo/quality/ci_pseo_gate.ts:56-60 | one failure message per violation, in order |
| CiPseoGate.ReferenceFailuresSpec | scripts/pseo/quality/ci_pseo_gate.ts:63-68 | a reference failure names exactly a pillar whose references_min is below 3 |
| CiPseoGate.UniqueFailuresSpec | scripts/pseo/quality/ci_pseo_gate.ts:77-83 | a unique-value failure names exactly an indexable page whose score exists and is below 50; a page with no score never fails |
| CiPseoGate.ScorePrecedence | scripts/pseo/quality/ci_pseo_gate.ts:71-79 | the page's own unique_value_score wins; otherwise the scores file, keyed by the url's slug |
| CiPseoGate.PairWarningSpec | scripts/pseo/quality/ci_pseo_gate.ts:95-105 | a warning carries a ratio in [0.85, 1], and whether a pair warns does not depend on its order |
| CiPseoGate.SameTitleWarns | scripts/pseo/quality/ci_pseo_gate.ts:95-105 | two pages with equal titles holding at least one token always warn |
| CiPseoGate.WarningsMember | scripts/pseo/quality/ci_pseo_gate.ts:91-107 | the warnings are exactly those of the unordered pairs i < j of indexable pages |
| CiPseoGate.ExitCode | scripts/pseo/quality/ci_pseo_gate.ts:109-121 | exit status 1 iff the SSOT is missing or some check failed; warnings never fail |
| CiPseoGate.ReferencesFailIff | scripts/pseo/quality/ci_pseo_gate.ts:44-68 | some reference failure iff an indexable pillar asks for fewer than 3 references |
| CiPseoGate.UniqueFailIff | scripts/pseo/quality/ci_pseo_gate.ts:71-83 | some unique-value failure iff an indexable page scores below 50 |
| CiPseoGate.GateFailsIff | scripts/pseo/quality/ci_pseo_gate.ts:35-121 | with the SSOT, the gate fails iff two indexable pages share an intent, an indexable pillar asks for fewer than 3 references, or an indexable page scores below 50 |
| CiPseoGate.GroupByIntent | scripts/pseo/quality/ci_pseo_gate.ts:50-55 | the MECE loop builds the insertion-ordered grouping of urls by intent |
| CiPseoGate.CheckReferences | scripts/pseo/quality/ci_pseo_gate.ts:63-68 | the pillar loop computes exactly the reference failures |
| CiPseoGate.CheckUniqueValue | scripts/pseo/quality/ci_pseo_gate.ts:77-83 | the unique-value loop computes exactly the unique-value failures |
| CiPseoGate.CheckPair | scripts/pseo/quality/ci_pseo_gate.ts:93-105 | one pair of the title loops gives exactly the pair's warning |
| CiPseoGate.WarnRow | scripts/pseo/quality/ci_pseo_gate.ts:92-106 | the inner loop for page i gives the warnings of the pairs (i, j), j > i, in order |
| CiPseoGate.WarnAll | scripts/pseo/quality/ci_pseo_gate.ts:91-107 | the two loops give exactly the warnings |
| CiPseoGate.Run | scripts/pseo/quality/ci_pseo_gate.ts:35-122 | `main`'s outcome is the gate's |
| Similarity.Windows | scripts/pseo/quality/similarity.ts:80 | there is one window per start position `0 <= i <= n.length - k`, none when the text is shorter than `k` |
| Similarity.WindowsAt | scripts/pseo/quality/similarity.ts:80 | window `i` is `n.slice(i, i + k)` |
| Similarity.WindowAt | scripts/pseo/quality/similarity.ts:80 | the window at one start position `i` is `n.slice(i, i + k)` |
| Similarity.WindowsMembers | scripts/pseo/quality/similarity.ts:80 | a string is a window exactly when it has length `k` and occurs in the text |
| Similarity.ShinglesMembers | scripts/pseo/quality/similarity.ts:77-82 | a shingle is exactly a `k`-character piece of the whitespace-collapsed, trimmed text; the set is empty exactly when that text is shorter than `k` |
| Similarity.Shingle | scripts/pseo/quality/similarity.ts:77-82 | the shingling loop builds the shingle set characterised by `ShinglesMembers` |
| Similarity.JaccardBounds | scripts/pseo/quality/similarity.ts:84-89 | the ratio lies in [0, 1], equals intersection over union when either set is non-empty, and is 1 exactly for two equal non-empty sets (0 when both are empty) |
| Similarity.JaccardSymmetric | scripts/pseo/quality/similarity.ts:84-89 | the ratio does not depend on the order of its arguments |
| Similarity.JaccardCount | scripts/pseo/quality/similarity.ts:84-89 | the counting loop over `a` yields the Jaccard ratio bounded by `JaccardBounds` |
| Similarity.CollectTexts | scripts/pseo/quality/similarity.ts:122-134 | the ids are distinct and are exactly the keys of both text maps |
| Similarity.AddText | scripts/pseo/quality/similarity.ts:129-131 | storing one loaded page keeps the ids distinct and exactly the keys of both text maps |
| Similarity.CollectTextsIds | scripts/pseo/quality/similarity.ts:125-134 | the ids are the last path segments of the pages whose HTML file exists, duplicates dropped, in first-seen order |
| Similarity.LoadTexts | scripts/pseo/quality/similarity.ts:125-134 | the loading loop skips missing files and lets a later page with the same segment replace the texts, giving `CollectTexts` |
| Similarity.Cands | scripts/pseo/quality/similarity.ts:149-154 | page `a` is compared with every id, one candidate each |
| Similarity.CandAt | scripts/pseo/quality/similarity.ts:149-154 | candidate `i` carries id `i` and the raw and content Jaccard ratios of 15-character shingles of the two pages |
| Similarity.BestOfBound | scripts/pseo/quality/similarity.ts:140-162 | the running maximum is non-negative, bounds the value of every candidate other than the page itself, and is 0 only with no partner recorded |
| Similarity.BestOfAttained | scripts/pseo/quality/similarity.ts:155-162 | a positive maximum is attained by the recorded partner, another page, and by no earlier candidate (strict `>` keeps the first) |
| Similarity.PairKeySymmetric | scripts/pseo/quality/similarity.ts:172 | the sorted-and-joined key of a pair is the same in either order, so a pair found from both ends is one entry |
| Similarity.SameOfOk | scripts/pseo/quality/similarity.ts:171-174 | a pass keeps every `sameClusters` entry a pair of two different pages under its own sorted key with content similarity at least 0.99, keys distinct |
| Similarity.SameOfAllOk | scripts/pseo/quality/similarity.ts:139-183 | after all passes every `sameClusters` entry is such a pair |
| Similarity.SameOfKeeps | scripts/pseo/quality/similarity.ts:173 | an entry once set is never removed by later candidates |
| Similarity.SameOfHas | scripts/pseo/quality/similarity.ts:171-174 | after a pass, every other candidate at content similarity 0.99 or more has its sorted pair key in `sameClusters` |
| Similarity.ScanAllKeeps | scripts/pseo/quality/similarity.ts:139-183 | later pages never remove a `sameClusters` entry |
| Similarity.SameComplete | scripts/pseo/quality/similarity.ts:139-174 | for every compared page and every other id with content similarity at least 0.99, their sorted pair key is a key of `sameClusters` (SameOfAllOk gives the converse: every key is the sorted key of two different pages at 0.99 or more) |
| Similarity.ScanAllByPage | scripts/pseo/quality/similarity.ts:177-182 | `by_page` has an entry for exactly the compared pages, each from its own pass |
| Similarity.EntryBounds | scripts/pseo/quality/similarity.ts:140-162 | a page's `raw_max` and `content_max` are non-negative and at least its similarity with every other page |
| Similarity.EntryRawPartner | scripts/pseo/quality/similarity.ts:155-158 | a positive `raw_max` is the raw similarity with `raw_with`, another page |
| Similarity.EntryContentPartner | scripts/pseo/quality/similarity.ts:159-162 | a positive `content_max` is the content similarity with `content_with`, another page |
| Similarity.ScanAllPairs | scripts/pseo/quality/similarity.ts:163-170 | an ordered pair of different pages is reported exactly when its raw or content similarity reaches 0.85, with both values |
| Similarity.SelectClustersDisjoint | scripts/pseo/quality/similarity.ts:185-193 | each kept cluster is one `sameClusters` entry, its ids are marked used, and no id is in two clusters |
| Similarity.MergeDisjoint | scripts/pseo/quality/similarity.ts:185 | merging an entry with every cluster it touches keeps the clusters pairwise disjoint |
| Similarity.MergeKeeps | scripts/pseo/quality/similarity.ts:185 | a cluster, once formed, stays inside some cluster after a merge |
| Similarity.MergedClustersSpec | scripts/pseo/quality/similarity.ts:185-193 | the connected clusters the comment asks for are pairwise disjoint and contain both pages of every `sameClusters` entry |
| Similarity.ChainDropsPage | scripts/pseo/quality/similarity.ts:185-193 | for the entries {a, b} and {b, c} the as-written clusters are just [a, b] and leave "c" in none, while the merged clusters are the single group {a, b, c} |
| Similarity.MissingPageAbsent | scripts/pseo/quality/similarity.ts:125-127 | a page whose HTML file is missing has no `by_page` entry and is in no reported pair |
| Similarity.PairSims | scripts/pseo/quality/similarity.ts:151-154 | the two similarities of an ordered pair, computed from `a`'s shingles taken once per outer pass |
| Similarity.AccOfSelf | scripts/pseo/quality/similarity.ts:150 | meeting the page itself changes neither maxima, pairs nor clusters |
| Similarity.Visit | scripts/pseo/quality/similarity.ts:155-174 | one inner-loop body extends maxima, pairs and `sameClusters` exactly as one more candidate does |
| Similarity.CompareStep | scripts/pseo/quality/similarity.ts:149-175 | one inner iteration advances the accumulated state by candidate `j` |
| Similarity.CompareRow | scripts/pseo/quality/similarity.ts:140-175 | the inner loop accumulates page `a` against every id |
| Similarity.CompareOne | scripts/pseo/quality/similarity.ts:139-183 | one outer pass adds page `a`'s `by_page` entry, its pairs and its `sameClusters` entries |
| Similarity.CompareAll | scripts/pseo/quality/similarity.ts:139-183 | the two loops compare every ordered pair of distinct pages, giving the scan whose properties the lemmas above state |
| Similarity.PickClusters | scripts/pseo/quality/similarity.ts:186-193 | the cluster loop skips an entry that shares an id with an earlier cluster, giving `SelectClusters` |
| Similarity.Run | scripts/pseo/quality/similarity.ts:117-200 | the script's report: `by_page`, the first 200 reported pairs and the greedy clusters |
| DuplicateReport.TierOf | scripts/pseo/phase0_duplicate_report.ts:108-109 | near duplicate exactly at 0.85 or more, approximate exactly in [0.70, 0.85), independent exactly below 0.70 |
| DuplicateReport.BuiltDirs | scripts/pseo/phase0_duplicate_report.ts:71-74 | a name is kept exactly when some listed entry of that name is a directory holding an `index.html` |
| DuplicateReport.ContentTexts | scripts/pseo/phase0_duplicate_report.ts:76-86 | the text map has an entry for exactly the kept directories |
| DuplicateReport.SlugsSpec | scripts/pseo/phase0_duplicate_report.ts:88 | the slugs are sorted, distinct and exactly the keys of the text map |
| DuplicateReport.SimSymmetric | scripts/pseo/phase0_duplicate_report.ts:51-56 | the similarity of two pages does not depend on their order |
| DuplicateReport.Cands | scripts/pseo/phase0_duplicate_report.ts:100-103 | page `a` is compared with every slug, one candidate each |
| DuplicateReport.CandAt | scripts/pseo/phase0_duplicate_report.ts:100-103 | candidate `i` is slug `i` with its Jaccard similarity to `a` |
| DuplicateReport.BestBound | scripts/pseo/phase0_duplicate_report.ts:96-107 | the running maximum is non-negative, bounds every other page's similarity, and is 0 only with no partner taken |
| DuplicateReport.BestAttained | scripts/pseo/phase0_duplicate_report.ts:104-107 | a positive maximum is the similarity with the recorded partner, another page, and the first in slug order to reach it |
| DuplicateReport.RowsOfMembers | scripts/pseo/phase0_duplicate_report.ts:108-112 | page `a`'s rows are exactly its pairs with other slugs at 0.70 or more, each with its similarity and tier |
| DuplicateReport.RowsOfDistinct | scripts/pseo/phase0_duplicate_report.ts:100-112 | over distinct slugs, page `a` pushes no row twice |
| DuplicateReport.ScanAllPairs | scripts/pseo/phase0_duplicate_report.ts:95-118 | the rows are exactly the ordered pairs of different pages at 0.70 or more |
| DuplicateReport.ScanAllPairsDistinct | scripts/pseo/phase0_duplicate_report.ts:95-118 | no ordered pair is listed twice |
| DuplicateReport.ScanAllBySlug | scripts/pseo/phase0_duplicate_report.ts:115-117 | `by_page` has one entry per compared page, from its own pass |
| DuplicateReport.EntryBound | scripts/pseo/phase0_duplicate_report.ts:96-107 | a page's `content_max` is at least its similarity with every other slug |
| DuplicateReport.EntryHasRow | scripts/pseo/phase0_duplicate_report.ts:104-117 | a page not independent has the row with its `content_with` partner, at its `content_max` and tier, among the pairs |
| DuplicateReport.WithTier | scripts/pseo/phase0_duplicate_report.ts:133-134 | the filter keeps exactly the rows of the given tier |
| DuplicateReport.WithTierDistinct | scripts/pseo/phase0_duplicate_report.ts:133-134 | filtering keeps rows distinct |
| DuplicateReport.TierSplit | scripts/pseo/phase0_duplicate_report.ts:108-134 | as no row is independent, the near-duplicate and approximate lists together have as many rows as `pairs` |
| DuplicateReport.EvenUnderSwap | scripts/pseo/phase0_duplicate_report.ts:95-113 | a set of pairs closed under swapping, with no page paired with itself, has even size |
| DuplicateReport.PairCountsEven | scripts/pseo/phase0_duplicate_report.ts:144-145 | each pair count is even, since every unordered pair is listed in both orders |
| DuplicateReport.WithTierSwapClosed | scripts/pseo/phase0_duplicate_report.ts:95-134 | a row of one tier comes with its swap in the same tier, and no page is paired with itself |
| DuplicateReport.PageCountsSum | scripts/pseo/phase0_duplicate_report.ts:146-148 | every page falls in exactly one of the three tiers |
| DuplicateReport.FillGuessesSpec | scripts/pseo/phase0_duplicate_report.ts:120-131 | each slug's cluster is its non-empty SSOT guess, else `evidence-pack` when the slug contains it, else `other` |
| DuplicateReport.FillUntouched | scripts/pseo/phase0_duplicate_report.ts:129-131 | the default fill leaves keys that are not slugs as the SSOT rows set them |
| DuplicateReport.SummaryConsistent | scripts/pseo/phase0_duplicate_report.ts:142-149 | page tiers add up to `total_pages`, the two pair counts add up to the number of rows, and each pair count is even |
| DuplicateReport.NearPairsSymmetric | scripts/pseo/phase0_duplicate_report.ts:95-133 | a near-duplicate pair is listed in both orders with the same similarity |
| DuplicateReport.ClusterMapSpec | scripts/pseo/phase0_duplicate_report.ts:135-140 | each cluster lists the near-duplicate then approximate rows whose first page has that cluster, is non-empty, and every row appears under its cluster |
| DuplicateReport.ClusterItemsHas | scripts/pseo/phase0_duplicate_report.ts:136-139 | every row yields an item under the cluster of its first page |
| DuplicateReport.LoadPages | scripts/pseo/phase0_duplicate_report.ts:80-86 | the loading loop gives the text map and caches exactly the shingle set of each text |
| DuplicateReport.Visit | scripts/pseo/phase0_duplicate_report.ts:101-112 | one inner-loop body extends maximum, partner and rows exactly as one more candidate does |
| DuplicateReport.CompareOne | scripts/pseo/phase0_duplicate_report.ts:95-118 | one outer pass adds page `a`'s `by_page` entry and rows |
| DuplicateReport.CompareStep | scripts/pseo/phase0_duplicate_report.ts:100-110 | one inner iteration advances the running maximum and the rows by the candidate `slugs[j]` |
| DuplicateReport.CompareAll | scripts/pseo/phase0_duplicate_report.ts:95-118 | the two loops compare every ordered pair of distinct slugs, giving the scan the lemmas above describe |
| DuplicateReport.GroupClusters | scripts/pseo/phase0_duplicate_report.ts:135-140 | the cluster-map loop gives the grouping `ClusterMapSpec` characterises |
| DuplicateReport.Run | scripts/pseo/phase0_duplicate_report.ts:65-159 | the script's report, or a failure when the PSEO root is missing |
| IntentTaxonomy.AssignIntentCaseInsensitive | scripts/pseo/phase0_search_intent_taxonomy.ts:46-57 | the intent depends on slug, title and cluster guess only up to (ASCII) case, as the rules run on the lowercased text |
| IntentTaxonomy.DeliverableFirst | scripts/pseo/phase0_search_intent_taxonomy.ts:47-48 | a text holding any deliverable keyword is intent A, whatever later rules say |
| IntentTaxonomy.ConceptExclusionVacuous | scripts/pseo/phase0_search_intent_taxonomy.ts:49-52 | the `sla`/`matrix`/`raci` exclusion of the concept rule never changes its outcome, because a text reaching it has already failed the criteria rule |
| IntentTaxonomy.FallbackIsE | scripts/pseo/phase0_search_intent_taxonomy.ts:46-57 | a page is E exactly when it fails rules A–D and either matches the concept rule or matches no later rule |
| IntentTaxonomy.Push | scripts/pseo/phase0_search_intent_taxonomy.ts:62-65 | a conditional push adds the tag exactly when its condition holds, and keeps what was there |
| IntentTaxonomy.AudiencePushesMembers | scripts/pseo/phase0_search_intent_taxonomy.ts:59-65 | the four audience rules push exactly the tags whose rule matches |
| IntentTaxonomy.AudienceMembers | scripts/pseo/phase0_search_intent_taxonomy.ts:59-68 | the audience list is non-empty and distinct; each tag is present exactly when its rule matches, the audit and CISO tags also when none matches; the business/product tag never appears |
| IntentTaxonomy.ScopePushesMembers | scripts/pseo/phase0_search_intent_taxonomy.ts:70-78 | the six scope rules push exactly the tags whose rules match, three of them the same "Evidence readiness" |
| IntentTaxonomy.ScopeMembers | scripts/pseo/phase0_search_intent_taxonomy.ts:70-81 | the scope list is non-empty and distinct; each tag is present exactly when one of its rules matches, "Evidence readiness" also by default; agent governance, AI-BOM and data protection are never assigned |
| IntentTaxonomy.Taxonomy | scripts/pseo/phase0_search_intent_taxonomy.ts:105-117 | one page per SSOT row |
| IntentTaxonomy.TaxonomySnoc | scripts/pseo/phase0_search_intent_taxonomy.ts:105-117 | each loop iteration appends exactly the classification of its row |
| IntentTaxonomy.TaxonomyAt | scripts/pseo/phase0_search_intent_taxonomy.ts:105-117 | page `i` is row `i`, classified |
| IntentTaxonomy.IntentItems | scripts/pseo/phase0_search_intent_taxonomy.ts:120-123 | the grouping loop sees each page's intent and slug, in page order |
| IntentTaxonomy.ByIntentPartition | scripts/pseo/phase0_search_intent_taxonomy.ts:119-123 | `by_intent` has distinct keys, each listing in row order the slugs of exactly the rows with that intent, and every row's slug is under its own intent |
| IntentTaxonomy.ValuesForIndex | scripts/pseo/phase0_search_intent_taxonomy.ts:121-122 | every item's value is listed under its key |
| IntentTaxonomy.PagesWellFormed | scripts/pseo/phase0_search_intent_taxonomy.ts:106-116 | page `i` keeps row `i`'s slug and cluster, carries its own intent's label, and has non-empty distinct audience and scope tags |
| IntentTaxonomy.ClassifyWellFormed | scripts/pseo/phase0_search_intent_taxonomy.ts:106-116 | a classified row has the same properties |
| IntentTaxonomy.ClassifyRow | scripts/pseo/phase0_search_intent_taxonomy.ts:106-116 | the loop body builds the classified page described by `ClassifyWellFormed` |
| IntentTaxonomy.ClassifyAll | scripts/pseo/phase0_search_intent_taxonomy.ts:105-117 | the first loop classifies every row in order |
| IntentTaxonomy.ClassifyNext | scripts/pseo/phase0_search_intent_taxonomy.ts:105-117 | one step of that loop appends row `i` |
| IntentTaxonomy.GroupByIntent | scripts/pseo/phase0_search_intent_taxonomy.ts:119-123 | the second loop gives the grouping `ByIntentPartition` characterises |
| IntentTaxonomy.Run | scripts/pseo/phase0_search_intent_taxonomy.ts:83-132 | a missing export is a failure; otherwise the pages and `by_intent` (absent `rows` read as none) |
| BuildSsotPhaseA.CanonicalTargetSpec | scripts/pseo/build_ssot_phase_a.ts:68-83 | the canonical target is empty exactly for the six pillars and the shadow-AI page; every other page points at a pillar other than itself |
| BuildSsotPhaseA.NamedIntents | scripts/pseo/build_ssot_phase_a.ts:120-126 | the seven named slugs are compared in source order, each paired with its own intent |
| BuildSsotPhaseA.Last20 | scripts/pseo/build_ssot_phase_a.ts:127 | `slug.slice(-20)` is a suffix of at most 20 characters, exactly 20 for a slug that long |
| BuildSsotPhaseA.Underscored | scripts/pseo/build_ssot_phase_a.ts:127 | `replace(/-/g, "_")` keeps the length, turns every hyphen into an underscore and leaves no hyphen |
| BuildSsotPhaseA.NamedIntentSlug | scripts/pseo/build_ssot_phase_a.ts:119-127 | a named intent is given only to its own slug |
| BuildSsotPhaseA.IntentIndex | scripts/pseo/build_ssot_phase_a.ts:120-126 | every named intent has a place in the test order |
| BuildSsotPhaseA.PillarIntent | scripts/pseo/build_ssot_phase_a.ts:120-125 | each pillar has the named intent whose slug is the pillar's |
| BuildSsotPhaseA.NamedIntentDomain | scripts/pseo/build_ssot_phase_a.ts:119-127 | exactly the six pillars and the shadow-AI page get a named intent; every other slug falls through to the `<cluster>_NOINDEX_…` id |
| BuildSsotPhaseA.NameLength | scripts/pseo/build_ssot_phase_a.ts:120-126 | the lengths of the seven intent ids, used to tell them apart |
| BuildSsotPhaseA.NameInjective | scripts/pseo/build_ssot_phase_a.ts:120-126 | the seven intent ids are distinct strings |
| BuildSsotPhaseA.WithTrailingSlash | scripts/pseo/build_ssot_phase_a.ts:163 | `replace(/\/?$/, "/")` ends in a slash, adds one only when missing, and otherwise leaves the URL alone |
| BuildSsotPhaseA.SummarySpec | scripts/pseo/build_ssot_phase_a.ts:171 | the summary is the title when it has at most 80 characters, else its first 80 followed by an ellipsis |
| BuildSsotPhaseA.AudienceTagsSpec | scripts/pseo/build_ssot_phase_a.ts:172-174 | the tags start with the auditors, include legal exactly for Responsibility, sla or raci slugs, the CISO exactly for shadow or evidence-readiness slugs, none twice |
| BuildSsotPhaseA.RowRobots | scripts/pseo/build_ssot_phase_a.ts:165-167 | a row is `index,follow` exactly when its canonical target is empty, that is for the pillars and the shadow-AI page, else `noindex,follow` |
| BuildSsotPhaseA.ShadowNotPillar | scripts/pseo/build_ssot_phase_a.ts:56-66 | the shadow-AI slug is not a pillar |
| BuildSsotPhaseA.RowPriority | scripts/pseo/build_ssot_phase_a.ts:164-176 | priority 1 exactly for pillars, 9 exactly for noindex pages, 2 exactly for the shadow-AI page; pillars alone need three references, and every pillar is indexable |
| BuildSsotPhaseA.RowUrl | scripts/pseo/build_ssot_phase_a.ts:163 | the row URL ends in a slash and is the base URL plus the final URL when that already ends in one |
| BuildSsotPhaseA.RowsMece | scripts/pseo/build_ssot_phase_a.ts:161-192 | with distinct final slugs, no two indexable rows share an intent id |
| BuildCatalog.Pick | scripts/pseo/build-catalog-100.ts:52-54 | `arr.slice(0, n)`: the first `min(n, arr.length)` elements, in order |
| BuildCatalog.ModulesOf | scripts/pseo/build-catalog-100.ts:57-63 | each page type has six modules |
| BuildCatalog.PickModules | scripts/pseo/build-catalog-100.ts:56-65 | the first `max(count, 5)` modules of the type, so five or six, all six when `count >= 6` |
| BuildCatalog.RefsAimoDistinct | scripts/pseo/build-catalog-100.ts:67-71 | without repeats among the chosen base references and the extras, the de-duplication drops nothing |
| BuildCatalog.RefsForCount | scripts/pseo/build-catalog-100.ts:144 | E pages get six references and all others three, always starting with the AIMO Standard, AIMO and shadow-AI pages |
| BuildCatalog.IntentPool | scripts/pseo/build-catalog-100.ts:112-118 | every type's keyword pool is non-empty, so `i % length` is defined |
| BuildCatalog.GenIdInjective | scripts/pseo/build-catalog-100.ts:130 | generated ids with different counter values differ, whatever their types |
| BuildCatalog.GenSeed | scripts/pseo/build-catalog-100.ts:127-135 | a generated seed has the id of its type and counter value, and its type |
| BuildCatalog.GenSeedShape | scripts/pseo/build-catalog-100.ts:127-135 | a generated seed has at most five keywords, the CTA of its iteration modulo three, and the slug `/ja/resources/pseo/<type>-<n>/` |
| BuildCatalog.PerType | scripts/pseo/build-catalog-100.ts:123 | `Math.ceil((target - seeds) / 5)`: five rounds of it cover the missing seeds |
| BuildCatalog.Gens | scripts/pseo/build-catalog-100.ts:126-136 | `c` iterations generate `c` seeds |
| BuildCatalog.GensAt | scripts/pseo/build-catalog-100.ts:126-136 | the `k`-th is the seed of iteration `i + k`, numbered `id + 1 + k` |
| BuildCatalog.GenLoopSpec | scripts/pseo/build-catalog-100.ts:126-136 | the inner loop appends consecutively numbered seeds while below the target and per-type count, leaving earlier seeds alone, and the counter advances by their number |
| BuildCatalog.GenTypesCount | scripts/pseo/build-catalog-100.ts:125-137 | over the types, the seeds grow to `min(target, start + types × perType)` (unchanged when already at the target), the prefix is kept, and the counter advances by the number appended |
| BuildCatalog.CountArith | scripts/pseo/build-catalog-100.ts:125-137 | the length after one inner loop and the remaining types is that of the whole outer loop |
| BuildCatalog.GenTypesSpec | scripts/pseo/build-catalog-100.ts:125-137 | the counter numbers all generated seeds consecutively, across types |
| BuildCatalog.MoreSeedsFrom | scripts/pseo/build-catalog-100.ts:121-139 | `moreSeeds` returns exactly `target` seeds and advances the counter by the number it generated |
| BuildCatalog.MoreSeedsShape | scripts/pseo/build-catalog-100.ts:121-139 | the result starts with the hand-written seeds and every seed after them is generated, numbered on from the counter |
| BuildCatalog.MadeGen | scripts/pseo/build-catalog-100.ts:127-135 | a seed the per-type makers make is a generated seed of its own type |
| BuildCatalog.MoreSeedsGenerated | scripts/pseo/build-catalog-100.ts:121-139 | two generated seeds of one call have distinct ids; each has at most five keywords and the CTA of its loop iteration modulo three |
| BuildCatalog.GeneratedAt | scripts/pseo/build-catalog-100.ts:121-139 | seed `k` past the hand-written ones is a generated seed numbered `id + 1 + (k - |hw|)` |
| BuildCatalog.CatalogBuilder.constructor | scripts/pseo/build-catalog-100.ts:83-120 | a fresh builder holds the 25 hand-written seeds and the counter at 100 |
| BuildCatalog.CatalogBuilder.MoreSeeds | scripts/pseo/build-catalog-100.ts:120-139 | the method returns the seeds of `MoreSeedsFrom` and leaves the module-level counter where that leaves it, so the next call goes on from there |
| BuildCatalog.SecondCallContinues | scripts/pseo/build-catalog-100.ts:120-139 | a second call numbers its seeds after the first call's, so no generated id repeats across calls |
| BuildCatalog.IdsOf | scripts/pseo/build-catalog-100.ts:142 | `allIds` is the seeds' ids in order |
| BuildCatalog.BuildPages | scripts/pseo/build-catalog-100.ts:141-160 | one page per seed, each Japanese with six module references |
| BuildCatalog.FilterOutCount | scripts/pseo/build-catalog-100.ts:145 | removing every copy of one id removes exactly its occurrences |
| BuildCatalog.RelatedSpec | scripts/pseo/build-catalog-100.ts:145-147 | the related pages are min(8, number of other ids) ids of other pages, never the page itself |
| BuildCatalog.Rotate | scripts/pseo/build-catalog-100.ts:147 | a rotation keeps the length |
| BuildCatalog.RotateAt | scripts/pseo/build-catalog-100.ts:147 | position `k` of the rotation holds the element `k` places after the start, wrapping round |
| BuildCatalog.RelatedRotation | scripts/pseo/build-catalog-100.ts:145-147 | related page `k` is the other id `k` places after position `idx mod |others|`, wrapping round |
| BuildCatalog.SignaturesDistinct | scripts/pseo/build-catalog-100.ts:84-108 | the hand-written ids' (length, last character) pairs are pairwise different and none ends in a digit |
| BuildCatalog.HandWrittenSignaturesAt | scripts/pseo/build-catalog-100.ts:84-108 | each hand-written id has the listed length and last character |
| BuildCatalog.HandWrittenDistinct | scripts/pseo/build-catalog-100.ts:84-108 | the 25 hand-written ids are pairwise distinct and none ends in a digit, so none equals a `pseo-gen-<type>-<n>` id |
| BuildCatalog.GenIdEndsInDigit | scripts/pseo/build-catalog-100.ts:130 | a generated id ends in a digit of its counter value |
| BuildCatalog.MoreSeedsDistinct | scripts/pseo/build-catalog-100.ts:120-139 | over distinct hand-written ids none of which ends in a digit, all seeds `moreSeeds` returns have pairwise distinct ids |
| BuildCatalog.RelatedCount | scripts/pseo/build-catalog-100.ts:141-160 | with distinct ids every page has min(8, n - 1) related pages, never itself |
| BuildCatalog.Main100 | scripts/pseo/build-catalog-100.ts:162-165 | `main` builds one hundred Japanese pages with pairwise distinct ids, each with six module references and exactly eight related pages, none of them itself |
| Prioritize.NormalizePath | scripts/pseo/prioritize.ts:59-61 | the path ends in a slash, which is added exactly when it was missing |
| Prioritize.NormalizePathIdempotent | scripts/pseo/prioritize.ts:59-61 | normalising twice is normalising once |
| Prioritize.CvrSpec | scripts/pseo/prioritize.ts:77 | the rate is non-negative, is conversions over page views when there are page views, and is positive exactly when both are |
| Prioritize.ByPage | scripts/pseo/prioritize.ts:72-84 | one row per Japanese page |
| Prioritize.ByPageAt | scripts/pseo/prioritize.ts:73-84 | row `i` is page `i` with its path's metrics (zeros when absent), conversions = CTA clicks + form submits, and its rate |
| Prioritize.ByPageJa | scripts/pseo/prioritize.ts:65 | exactly the Japanese catalog pages take part |
| Prioritize.PageWithMetrics | scripts/pseo/prioritize.ts:74-83 | the loop body builds the row `ByPageAt` describes |
| Prioritize.BuildByPage | scripts/pseo/prioritize.ts:72-84 | the loop builds one row per page, in order |
| Prioritize.AggregateSpec | scripts/pseo/prioritize.ts:86-99 | each group holds the page-view and conversion sums and the ids of exactly its rows, in order; a key has a group exactly when some row has that (non-empty) key; the insertion order lists each group once |
| Prioritize.AggStepSpec | scripts/pseo/prioritize.ts:92-98 | one row adds its numbers and id to its own group, creating it at the end of the order when new, and leaves other groups alone |
| Prioritize.IdsOfFrom | scripts/pseo/prioritize.ts:91-98 | a group exists exactly when some row carries its key |
| Prioritize.PvSumZero | scripts/pseo/prioritize.ts:95 | without page views, no group has any |
| Prioritize.Entries | scripts/pseo/prioritize.ts:100-108 | one entry per group, in insertion order |
| Prioritize.CollectGroups | scripts/pseo/prioritize.ts:91-99 | the group loop gives the groups `AggregateSpec` characterises |
| Prioritize.RankingMember | scripts/pseo/prioritize.ts:100-110 | an entry is ranked exactly when it is a group's entry with at least ten page views |
| Prioritize.EntriesMember | scripts/pseo/prioritize.ts:100-108 | the entries are exactly the groups, each with its own sums and rate |
| Prioritize.AggregateBySorted | scripts/pseo/prioritize.ts:110 | the ranking is sorted by rate, highest first |
| Prioritize.AggregateByMembers | scripts/pseo/prioritize.ts:86-111 | a key is ranked exactly when some page has it and its page views reach ten, and its entry carries its group's sums, rate and ids |
| Prioritize.RecsBound | scripts/pseo/prioritize.ts:118-126 | a recommendation loop adds at most one line per row, never the fallback, and none exactly when no row has a positive rate |
| Prioritize.RecommendationsBounds | scripts/pseo/prioritize.ts:117-127 | there are one to seven recommendations; the fallback appears exactly when it is the only one, which is exactly when none of the top 3 / 2 / 2 rows has a positive rate |
| Prioritize.AddRecommendations | scripts/pseo/prioritize.ts:118-126 | each loop appends the lines of the first `n` rows with a positive rate |
| Prioritize.AggregateByMethod | scripts/pseo/prioritize.ts:86-111 | `aggregateBy` gives the sorted, filtered ranking |
| Prioritize.RecommendAll | scripts/pseo/prioritize.ts:117-127 | the three loops and the fallback give the recommendations `RecommendationsBounds` describes |
| Prioritize.RunPrioritize | scripts/pseo/prioritize.ts:63-138 | `runPrioritize` gives the rows, the three rankings and the recommendations |
| Prioritize.StubPathsZero | scripts/pseo/prioritize.ts:177-184 | the stub gives every Japanese page's path zero metrics |
| Prioritize.Run | scripts/pseo/prioritize.ts:172-191 | with metrics the report of those metrics; with the file missing, the report of the zero stub |
| Prioritize.ZeroViewsNoRanking | scripts/pseo/prioritize.ts:109 | with zero page views everywhere no group reaches ten, so every ranking is empty |
| Prioritize.StubOnlyFallback | scripts/pseo/prioritize.ts:175-185 | with the metrics file missing, the only recommendation is the fallback message |
| AnalyticsPull.AddAllStep | scripts/pseo/analytics_pull.ts:93-98 | a summing loop's step at element `i` adds that element alone |
| AnalyticsPull.AddAllSpec | scripts/pseo/analytics_pull.ts:92-98 | a key is present exactly when some element carries it, and holds the sum of that key's weights |
| AnalyticsPull.SumVisits | scripts/pseo/analytics_pull.ts:92-99 | the summing loop of `fetchCloudflarePageviews` gives the per-path visit map `VisitsSpec` describes |
| AnalyticsPull.AddGroup | scripts/pseo/analytics_pull.ts:94-97 | one turn adds a group's visits under its normalised path, and skips a group without a path |
| AnalyticsPull.VisitsSpec | scripts/pseo/analytics_pull.ts:91-99 | every key ends in a slash and is the normalised path of some group with a non-empty path; it holds the sum of those groups' visits, a missing sum counting 0 |
| AnalyticsPull.ByPathEntries | scripts/pseo/analytics_pull.ts:117-120 | one assignment per `by_path` entry, in order |
| AnalyticsPull.LoadByPath | scripts/pseo/analytics_pull.ts:115-121 | the loop over the `by_path` form gives `FromByPath` |
| AnalyticsPull.FromByPathSpec | scripts/pseo/analytics_pull.ts:115-121 | a key is present exactly when some entry's path normalises to it, and holds the counts of the last such entry, a missing count read as 0 |
| AnalyticsPull.FromByPathHas | scripts/pseo/analytics_pull.ts:117-120 | the keys are exactly the normalised entry paths |
| AnalyticsPull.FromByPathLast | scripts/pseo/analytics_pull.ts:117-120 | a key's counts come from the last entry with that normalised path |
| AnalyticsPull.TallyStep | scripts/pseo/analytics_pull.ts:125-130 | one more event adds its two weights under its key, creating the entry if needed |
| AnalyticsPull.TallySpec | scripts/pseo/analytics_pull.ts:124-131 | tallying gives the two per-key sums, over exactly the keys seen |
| AnalyticsPull.LoadEvents | scripts/pseo/analytics_pull.ts:123-132 | the loop over the `events` form gives `FromEvents` |
| AnalyticsPull.CountEvent | scripts/pseo/analytics_pull.ts:126-129 | one event creates its path's entry when missing and adds its count to the counter of its type |
| AnalyticsPull.WeightOf | scripts/pseo/analytics_pull.ts:128-129 | an event of the given type weighs its count, or 1 when the count is missing; any other event weighs 0 |
| AnalyticsPull.FromEventsKeys | scripts/pseo/analytics_pull.ts:125-127 | every event's normalised path gets an entry, and only those; each ends in a slash |
| AnalyticsPull.FromEventsCta | scripts/pseo/analytics_pull.ts:128 | a path's CTA clicks are the sum over its `cta_click` events of their counts (1 when missing) |
| AnalyticsPull.FromEventsForm | scripts/pseo/analytics_pull.ts:129 | a path's form submissions are the sum over its `form_submit` events of their counts (1 when missing) |
| AnalyticsPull.EventsByPathKeys | scripts/pseo/analytics_pull.ts:110-134 | every key of the export's result ends in a slash; a missing file or an unknown shape gives no entries |
| AnalyticsPull.Days | scripts/pseo/analytics_pull.ts:137 | the option wins; else a parsed non-zero environment value; else 28 |
| AnalyticsPull.MergeByPath | scripts/pseo/analytics_pull.ts:156-165 | the merge loop over every path of either source gives `Merged` |
| AnalyticsPull.RowsForAll | scripts/pseo/analytics_pull.ts:156-165 | once every path is done, the records are the merged map |
| AnalyticsPull.RowsForAdd | scripts/pseo/analytics_pull.ts:158-164 | merging one more path adds its record |
| AnalyticsPull.MergeOne | scripts/pseo/analytics_pull.ts:159-164 | a path that is already normalised stays itself, and its record reads both maps |
| AnalyticsPull.PullMetricsSpec | scripts/pseo/analytics_pull.ts:136-172 | the paths are exactly those with page views or events, each ending in a slash; without a provider answer (no credentials, or a failure) every page-view count is 0; a path without events has 0 clicks and submissions |
| InjectAssets.Units | scripts/pseo/inject_assets.ts:46 | a character is one or two UTF-16 code units, each below 0x10000 |
| InjectAssets.Utf16 | scripts/pseo/inject_assets.ts:46 | a string has between one and two code units per character |
| InjectAssets.HashOf | scripts/pseo/inject_assets.ts:44-48 | the hash is a 32-bit unsigned value |
| InjectAssets.ModMultiple | scripts/pseo/inject_assets.ts:46 | adding multiples of 2^32 does not change the value of `>>> 0` |
| InjectAssets.ModStep | scripts/pseo/inject_assets.ts:46 | reducing before the `* 31 + unit` step gives the same result as reducing after it |
| InjectAssets.HashIsPoly | scripts/pseo/inject_assets.ts:44-48 | reducing after every step is reducing once: the hash is the base-31 polynomial of the code units modulo 2^32 |
| InjectAssets.SimpleHash | scripts/pseo/inject_assets.ts:44-48 | the loop over the code units gives that hash, below 2^32 |
| InjectAssets.TopicTableAvoidsException | scripts/pseo/inject_assets.ts:56-63 | no first-topic entry leads to the approval-exception asset |
| InjectAssets.FirstTopicNotException | scripts/pseo/inject_assets.ts:56-64 | the first topic never gives the approval-exception asset |
| InjectAssets.TopicToAssetKey | scripts/pseo/inject_assets.ts:50-65 | coverage-map (slug with no topics) wins, then shadow-ai, then approval-exception exactly when its rule fires after the first two fail, then the first topic's asset |
| InjectAssets.MiscIff | scripts/pseo/inject_assets.ts:50-65 | the key is misc exactly when no rule fires and there is no first topic or it is not listed; any other first-topic key is its table entry |
| InjectAssets.Add | scripts/pseo/inject_assets.ts:139-143 | `add` appends the block of the item at `index mod length` when the list is non-empty and the item truthy, else nothing |
| InjectAssets.BuildInjectedBlocks | scripts/pseo/inject_assets.ts:136-150 | the five `add` calls, the `n`-th with `(seed + n) >>> 0`, give `Blocks` |
| InjectAssets.BlocksFromOrdered | scripts/pseo/inject_assets.ts:144-148 | over increasing categories at most one block each, each of one of them, in category order |
| InjectAssets.BlocksOrdered | scripts/pseo/inject_assets.ts:136-150 | at most five blocks, in the fixed order case study, checklist, findings, artifact, audit question |
| InjectAssets.BlocksInclude | scripts/pseo/inject_assets.ts:139-143 | a category gives a block exactly when its list is non-empty and the picked item is truthy |
| InjectAssets.BlockPicks | scripts/pseo/inject_assets.ts:138-142 | a block is the item at `((seed + n) mod 2^32) mod length` of its category's list |
| InjectAssets.SpaceRun | scripts/pseo/inject_assets.ts:154-155 | `\s*` never runs past the text |
| InjectAssets.FirstGt | scripts/pseo/inject_assets.ts:154-155 | `[^>]*>` ends at the first `>` at or after the start |
| InjectAssets.HeadingMatch | scripts/pseo/inject_assets.ts:154-155 | a heading match is non-empty and inside the text |
| InjectAssets.MatchEnd | scripts/pseo/inject_assets.ts:154-155 | a match at `i` ends after `i`, inside the text |
| InjectAssets.NextMatch | scripts/pseo/inject_assets.ts:161 | the global search finds the first match start at or after `pos`, or reports that none exists |
| InjectAssets.LastMatch | scripts/pseo/inject_assets.ts:158-161 | the loop's `lastIndex` is either its initial value or a match start |
| InjectAssets.LastMatchSpec | scripts/pseo/inject_assets.ts:158-161 | the loop finds a start exactly when a match exists; that start matches and no match starts after its end |
| InjectAssets.InsertAt | scripts/pseo/inject_assets.ts:163-165 | the insertion lengthens the page by the blocks plus two newlines |
| InjectAssets.CloseAt | scripts/pseo/inject_assets.ts:172 | a `</div>\s*</section>` match ends after its start, inside the text |
| InjectAssets.FirstClose | scripts/pseo/inject_assets.ts:172 | the first such match, or none anywhere |
| InjectAssets.AnchorOf | scripts/pseo/inject_assets.ts:152-173 | the place chosen lies inside the page |
| InjectAssets.HeadingFirst | scripts/pseo/inject_assets.ts:153-166 | a References heading (English case-insensitive first, then Japanese) decides: the blocks go before the start of the last heading the search finds |
| InjectAssets.NoAnchorUnchanged | scripts/pseo/inject_assets.ts:152-173 | without heading, mid-cta marker or closing pair the page comes back unchanged |
| InjectAssets.InsertKeeps | scripts/pseo/inject_assets.ts:163-165 | an insertion keeps the page around it: before it, the blocks and two newlines, then the rest |
| InjectAssets.MatchEndShift | scripts/pseo/inject_assets.ts:154-155 | the matcher depends only on the text from its start on |
| InjectAssets.MatchPersists | scripts/pseo/inject_assets.ts:158-161 | a heading match survives in a text that keeps everything from it on |
| InjectAssets.MarkerPersists | scripts/pseo/inject_assets.ts:168 | the mid-cta marker survives the same way |
| InjectAssets.AnchorCases | scripts/pseo/inject_assets.ts:157-171 | an anchor the blocks go before is the last English heading, the last Japanese heading, or the marker |
| InjectAssets.AnchorFromCases | scripts/pseo/inject_assets.ts:157-171 | the chosen anchor is one of the three found positions |
| InjectAssets.AnchorKinds | scripts/pseo/inject_assets.ts:157-166 | a References heading puts the blocks before an anchor |
| InjectAssets.AnchorSurvives | scripts/pseo/inject_assets.ts:152-173 | after an insertion before an anchor, the page still has one |
| InjectAssets.InjectAgain | scripts/pseo/inject_assets.ts:183-196 | nothing marks a page as done: a page with a heading or marker gains the blocks again on every run, growing by their length plus two each time |
| InjectAssets.BlockHtmls | scripts/pseo/inject_assets.ts:193 | one html per block |
| InjectAssets.InjectPage | scripts/pseo/inject_assets.ts:184-196 | the loop body does what `Step` says: skip without asset, with fewer than two blocks or without a file, else inject with `InjectBeforeReferences` (the reference definition of scripts/pseo/inject_assets.ts:152-173, whose anchor choice `HeadingFirst`, `NoAnchorUnchanged`, `AnchorCases` and `InsertKeeps` state) and count |
| InjectAssets.Run | scripts/pseo/inject_assets.ts:175-198 | a missing page list is the exit-1 outcome; otherwise the files and count after every page in order |
| InjectAssets.StepSkips | scripts/pseo/inject_assets.ts:184-186 | a page without an asset changes nothing |
| InjectAssets.StepTouchesOwnFile | scripts/pseo/inject_assets.ts:183-197 | a page touches only its own existing file, and the count grows by at most one |
| InjectAssets.StepAllBound | scripts/pseo/inject_assets.ts:183-197 | at most one update per page, and no file is created or removed |
| RenderPseoIndex.SectionOrderSpec | scripts/pseo/render_pseo_index.ts:80-89 | every section appears in `SECTION_ORDER`, and each appears there once |
| RenderPseoIndex.RuleHits | scripts/pseo/render_pseo_index.ts:70-76 | one hit flag per section rule, seven in all |
| RenderPseoIndex.FirstSectionSpec | scripts/pseo/render_pseo_index.ts:68-78 | the first rule that hits decides the section; when no rule hits the page goes to "その他" (`Other`) |
| RenderPseoIndex.SectionForSpec | scripts/pseo/render_pseo_index.ts:68-78 | `sectionForPage` matches first: it gives the section of the first rule the page matches, and gives `Other` exactly when the page matches none |
| RenderPseoIndex.FirstHit | scripts/pseo/render_pseo_index.ts:68-78 | when some rule hits, there is a first hit at or before it |
| RenderPseoIndex.ListedSpec | scripts/pseo/render_pseo_index.ts:105 | a page is listed exactly when its final slug is in the index allowlist; the listing is never longer than the page list |
| RenderPseoIndex.GroupedByPush | scripts/pseo/render_pseo_index.ts:113-117 | pushing the next page onto its section's array keeps the grouping of the pages seen so far |
| RenderPseoIndex.GroupBySection | scripts/pseo/render_pseo_index.ts:112-117 | `bySection` has a key exactly for the sections that got a page; each key maps to that section's pages in list order |
| RenderPseoIndex.BucketSpec | scripts/pseo/render_pseo_index.ts:112-117 | each listed page sits in its own section's bucket and in no other |
| RenderPseoIndex.SortByTitleSpec | scripts/pseo/render_pseo_index.ts:119-121 | sorting a section keeps the same pages (as a multiset) and orders them by title rank |
| RenderPseoIndex.SortByTitleStable | scripts/pseo/render_pseo_index.ts:119-121 | the sort is stable: for every rank, the pages whose titles have that rank appear in the sorted section in their list order |
| RenderPseoIndex.RenderedSectionsSpec | scripts/pseo/render_pseo_index.ts:134 | the shown sections are exactly the non-empty ones, each shown once, in `SECTION_ORDER` order |
| RenderPseoIndex.SectionIdDistinct | scripts/pseo/render_pseo_index.ts:136 | the anchors `sec-<idx>` of two sections are equal only when their indexes are equal |
| RenderPseoIndex.SlugToPageSpec | scripts/pseo/render_pseo_index.ts:123-124 | a slug is a key of `slugToPage` exactly when some listed page has it, and it maps to a listed page with that slug |
| RenderPseoIndex.PillarSlugs | scripts/pseo/render_pseo_index.ts:126-128 | at most three pillar links are shown |
| RenderPseoIndex.PillarSlugsSpec | scripts/pseo/render_pseo_index.ts:126-132 | the pillars shown are configured and listed, in configuration order; fewer than three are shown only when every configured, listed slug is shown |
| RenderPseoIndex.ItemsPerPage | scripts/pseo/render_pseo_index.ts:110 | `items_per_page ?? 20`: only a missing value falls back to 20, and a configured value is kept as it is |
| RenderPseoIndex.PageIndexAsWrittenRepeats | scripts/pseo/render_pseo_index.ts:147 | as written, two shown sections both give index 0 to their first item when the first entry of `SECTION_ORDER` is empty, whereas the corrected index gives 1 to the second |
| RenderPseoIndex.FilterOrder | scripts/pseo/render_pseo_index.ts:134 | when only the audit and workflow sections are non-empty, the shown sections start with those two, in that order |
| RenderPseoIndex.PageIndexAt | scripts/pseo/render_pseo_index.ts:147 | with the corrected count, item `k` of shown section `idx` sits at position `PageIndex` of the whole rendered item list |
| RenderPseoIndex.PageIndexIncreasing | scripts/pseo/render_pseo_index.ts:147 | with the corrected count, later sections and later items of one section get strictly larger indexes, so no index repeats |
| Slugger.Hits | scripts/pseo/slugger.ts:70-77 | the hit count never exceeds the number of needles |
| Slugger.HitsZero | scripts/pseo/slugger.ts:70-77 | there are no hits exactly when no non-empty needle occurs in the text (empty needles are skipped) |
| Slugger.ContainsAny | scripts/pseo/slugger.ts:70-77 | the counting loop returns the number of non-empty needles found in the text |
| Slugger.EnHitsIgnoreCase | scripts/pseo/slugger.ts:81 | English keyword matching ignores the case of both the text and the keywords |
| Slugger.ScoreTopicSpec | scripts/pseo/slugger.ts:79-85 | a topic with no Japanese or English hit scores 0; one Japanese hit and a priority of at least 0 give at least 10; the priority adds at most 100 |
| Slugger.Take | scripts/pseo/slugger.ts:104 | `slice(0, n)` is a prefix of length at most n, and the whole list when the list is that short |
| Slugger.CleanPieces | scripts/pseo/slugger.ts:95-101 | the inner loop keeps exactly the cleaned pieces of one part, in order |
| Slugger.TokenizeSlugParts | scripts/pseo/slugger.ts:87-106 | the loop over the parts returns the tokenisation specified by `Tokenize` |
| Slugger.TokenizeSpec | scripts/pseo/slugger.ts:87-106 | every token is non-empty, lower-cased, trimmed, free of the separator, and neither a stopword nor a banned term; there are at most `max_tokens` tokens, and they are the first ones in order |
| Slugger.CleanTokenFixed | scripts/pseo/slugger.ts:94-100 | a token already in emitted form tokenises to itself |
| Slugger.AllTokensFixed | scripts/pseo/slugger.ts:92-102 | a list of emitted tokens tokenises to itself before the cut at `max_tokens` |
| Slugger.RetokenizePad | scripts/pseo/slugger.ts:158-160 | re-tokenising the tokens with the safe generic tokens appended keeps the first tokens in front and appends the generic ones |
| Slugger.TokenizeIdempotent | scripts/pseo/slugger.ts:87-106 | tokenising twice gives the same tokens as tokenising once |
| Slugger.KeptTokens | scripts/pseo/slugger.ts:110-113 | the tokens left after popping are a prefix of the given tokens |
| Slugger.DropTrailing | scripts/pseo/slugger.ts:116 | removing trailing separators gives a prefix that does not end in the separator |
| Slugger.JoinAndClamp | scripts/pseo/slugger.ts:108-119 | the method returns the clamped slug and leaves the caller's array holding the kept tokens, as the popping loop does |
| Slugger.KeptTokensSpec | scripts/pseo/slugger.ts:110-113 | popping stops at `min_tokens` tokens, or pops nothing; when the join is still too long, no more than `min_tokens` tokens remain |
| Slugger.ClampSpec | scripts/pseo/slugger.ts:108-119 | the slug is at most `max_length` long and a prefix of the joined tokens; a join that already fits comes back unchanged; at least `min_tokens` tokens survive, or all of them do |
| Slugger.Positive | scripts/pseo/slugger.ts:148-150 | only topics with a positive score are kept |
| Slugger.PickedSpec | scripts/pseo/slugger.ts:148-154 | at most three topics are picked; at least one when any topic scored; all have positive scores, best first |
| Slugger.ScoredStable | scripts/pseo/slugger.ts:148-151 | the sort is stable: topics with equal scores keep their dictionary order |
| Slugger.GenericFallbackSpec | scripts/pseo/slugger.ts:172-181 | either fallback has no matched topic and keeps the notes; safe_generic is used only with a non-empty base; the base fits `max_length` |
| Slugger.DictionaryBaseFits | scripts/pseo/slugger.ts:155-162 | the dictionary base, padded with generic tokens when there are too few, fits `max_length` |
| Slugger.SlugBaseSpec | scripts/pseo/slugger.ts:133-182 | the dictionary result has one to three matched topics, best first, each with a positive score, and a non-empty base; either fallback has no matched topic; safe_generic has a non-empty base; every base fits `max_length` |
| Slugger.CollapseSepNoDouble | scripts/pseo/slugger.ts:197 | after collapsing, no two separators are adjacent |
| Slugger.CollapseSepClean | scripts/pseo/slugger.ts:197 | text with no doubled separators is left unchanged |
| Slugger.CollapseSepSuffix | scripts/pseo/slugger.ts:197 | a tail with no doubled separators survives at the end of the collapsed text |
| Slugger.CollapseJoinSpec | scripts/pseo/slugger.ts:196-197 | joining a base and an id with the separator leaves no doubled separator, and an id with no doubled or leading separator stays at the end |
| Slugger.FinalSlugSpec | scripts/pseo/slugger.ts:184-211 | the call fails only for an id that does not match `id_format`; otherwise it keeps the id and title, the topic keys are the matched keys in order, the final slug has no doubled separator, and it ends with the separator and the id when the id allows |
| Slugger.SlugBaseIgnoresId | scripts/pseo/slugger.ts:194 | the slug base does not depend on the id |
| Generate.ReplaceCharConcat | scripts/pseo/generate.ts:178-185 | a global one-character replacement distributes over concatenation |
| Generate.EscapeHtmlEach | scripts/pseo/generate.ts:178-185 | since `&` is replaced first, the replacement chain escapes each character exactly once, as a per-character map would |
| Generate.ReplaceNone | scripts/pseo/generate.ts:178-185 | replacing a character the text does not contain changes nothing |
| Generate.EscapedHasNoMarkup | scripts/pseo/generate.ts:178-185 | an escaped text contains no raw `<`, `>`, `"` or `'` |
| Generate.EscapeRoundTrip | scripts/pseo/generate.ts:178-185 | escaping loses nothing: decoding the five entities gives back the original text |
| Generate.UnescapeStep | scripts/pseo/generate.ts:178-185 | decoding reads one escaped character back and then the rest |
| Generate.StripMd | scripts/pseo/generate.ts:69 | `replace(/\.md$/i, "")` either leaves the ref unchanged or removes a final three characters that read `.md` in any case |
| Generate.GetModuleIdSpec | scripts/pseo/generate.ts:68-70 | a `module_id` entry wins; without one the id is the ref with a final `.md` (in any case) removed, and a ref without one is its own id |
| Generate.FindClose | scripts/pseo/generate.ts:55 | a closing `\r?\n---\r?\n` line that is found lies at or after the search start |
| Generate.FindCloseFirst | scripts/pseo/generate.ts:55 | the lazy match stops at the earliest closing line: none starts between the search start and the one found |
| Generate.SplitFrontmatter | scripts/pseo/generate.ts:55 | a match needs the text to start with `---`, and the frontmatter and body together are shorter than the text |
| Generate.StripQuotes | scripts/pseo/generate.ts:80 | stripping one leading and one trailing quote never lengthens the value |
| Generate.LineEntry | scripts/pseo/generate.ts:79-80 | a frontmatter line gives an entry exactly when its first colon is after index 0 |
| Generate.Entries | scripts/pseo/generate.ts:78-81 | there is one entry per frontmatter line, in line order |
| Generate.AssignHas | scripts/pseo/generate.ts:78-81 | a key is present exactly when some entry sets it |
| Generate.AssignLast | scripts/pseo/generate.ts:78-81 | a present key holds the value of the last entry that sets it, so later duplicates overwrite earlier ones |
| Generate.FrontmatterLast | scripts/pseo/generate.ts:78-81 | a key is in the frontmatter exactly when some line has it as trimmed key before a colon that is not the first character, and its value comes from the last such line |
| Generate.ParseModule | scripts/pseo/generate.ts:72-83 | `parseModule` returns the parsed frontmatter and the stripped body specified by `ParsedOf` |
| Generate.NoFrontmatter | scripts/pseo/generate.ts:75 | a file that does not start with `---` has empty frontmatter, and its whole text is the body |
| Generate.RawBodySuffix | scripts/pseo/generate.ts:74-77 | with frontmatter, the body is a proper suffix of the text that starts right after a closing `---` line |
| Generate.Take | scripts/pseo/generate.ts:110 | `slice(0, n)` is the prefix of length min(n, length) |
| Generate.Cut | scripts/pseo/generate.ts:99 | `slice(0, 200)` is a prefix of at most 200 characters, and non-empty for a non-empty text |
| Generate.LinesOf | scripts/pseo/generate.ts:94 | splitting at `\r?\n` gives one line per newline-separated piece |
| Generate.DigitRun | scripts/pseo/generate.ts:100 | the run is the maximal run of ASCII digits starting at the given index |
| Generate.Bullet | scripts/pseo/generate.ts:97-100 | one line yields at most one point |
| Generate.BulletCases | scripts/pseo/generate.ts:97-100 | blank lines, headings and table rows are skipped; `- ` and `* ` items give their rest, cut to 200; numbered items give the text after the number, cut to 200 |
| Generate.FirstPassStops | scripts/pseo/generate.ts:96-102 | leaving the loop once `maxPoints` points are held, or at the end with fewer, leaves the first `maxPoints` points of the whole body |
| Generate.FirstPass | scripts/pseo/generate.ts:95-102 | the first pass returns the first 15 bullet or numbered points of the body |
| Generate.FallbackPass | scripts/pseo/generate.ts:103-109 | the fallback pass collects every prose line of more than 20 and fewer than 300 characters, because the `return` inside `forEach` does not stop the loop |
| Generate.ExtractKeyPoints | scripts/pseo/generate.ts:93-111 | `extractKeyPoints` returns the points specified by `KeyPoints` |
| Generate.TrimLast | scripts/pseo/generate.ts:97 | a non-empty trimmed text does not end in whitespace |
| Generate.DropNumberAt | scripts/pseo/generate.ts:100 | a numbered line that ends in a non-space loses exactly its marker and keeps a non-empty rest |
| Generate.BulletOfSpec | scripts/pseo/generate.ts:97-100 | a first-pass point is a non-empty piece of the trimmed line of at most 200 characters, taken after its `- `, `* ` or `N.` marker |
| Generate.KeyPointsSpec | scripts/pseo/generate.ts:93-111 | there are at most 15 points of at most 200 characters each; a body with a bullet or numbered line gets only first-pass points; prose lines are used only when there is no such line |
| Generate.ReferenceLine | scripts/pseo/generate.ts:140 | each reference becomes a `- ` list item that contains the reference |
| Generate.ReferenceLines | scripts/pseo/generate.ts:139-141 | there is one list item per reference, in order |
| Generate.ReferencesLinksSpec | scripts/pseo/generate.ts:138-142 | the default AIMO Standard link is used exactly when the page lists no references; otherwise each reference gets its own line |
| Generate.ModuleLoader | scripts/pseo/generate.ts:133-135 | the outline entry built for a reference records that reference as its file |
| Generate.Rendered | scripts/pseo/generate.ts:143 | each body part is rendered in its place |
| Generate.LoadModuleOutlines | scripts/pseo/generate.ts:114-144 | the loop returns the outline of the fold `Load` and joins the rendered body parts with newlines |
| Generate.LoadTracked | scripts/pseo/generate.ts:119-131 | the seen set holds exactly the ids of the outline, and includes the id of every existing file that was visited |
| Generate.LoadDistinct | scripts/pseo/generate.ts:129-130 | no module id appears twice in the outline |
| Generate.LoadFirstAt | scripts/pseo/generate.ts:129-135 | outline entry `k` comes from a reference `j` that is an existing file with no earlier existing file sharing its module id |
| Generate.LoadFirstWins | scripts/pseo/generate.ts:129-135 | each outline entry comes from the first reference that has its module id |
| Generate.LoadParts | scripts/pseo/generate.ts:121-137 | the parts are one comment per missing file plus one body per outline entry, in reference order, and none of them is a References section |
| Generate.LoadModuleOutlinesSpec | scripts/pseo/generate.ts:114-144 | module ids are unique and the first file with an id wins; a missing file leaves a comment; the References section is appended exactly once and last, with the default link only when the page lists no references |
| Generate.BuildBodyOutline | scripts/pseo/generate.ts:146-156 | the loop returns the headings and key points specified by `OutlineHeadings` and `OutlinePoints` |
| Generate.BodyOutlineSpec | scripts/pseo/generate.ts:146-156 | the headings are distinct and non-empty, and are exactly the non-empty titles and headings; the key points are distinct, at most 30, each a purpose or key point, and all of them when there are no more than 30 distinct ones |
| Generate.Hrefs | scripts/pseo/generate.ts:357 | the href of each link, in order |
| Generate.Anchors | scripts/pseo/generate.ts:365-370 | one anchor per link, in order |
| Generate.PickOtherLinks | scripts/pseo/generate.ts:351-362 | the loop picks the links specified by `PickOthers` from the other topics' first links |
| Generate.BuildInternalLinksHtml | scripts/pseo/generate.ts:340-371 | the method returns the html specified by `InternalLinksHtml`, the reference definition of the block: `common` links, then the topic's, then up to two from other topics, each as an escaped anchor |
| Generate.InternalLinksHtmlFails | scripts/pseo/generate.ts:348-369 | the block fails exactly when `common` holds a value other than a list, the empty string or `null` (spreading it throws, or a non-empty string's characters have no `href`); an empty-string, `null` or missing `common` adds no links; a list adds its items first |
| Generate.OtherFirstsMember | scripts/pseo/generate.ts:349-356 | the candidates are exactly the first links of topics other than `common`, `description` and the page's own topic, whose lists are non-empty |
| Generate.PickOthersSpec | scripts/pseo/generate.ts:353-362 | picking keeps what was already picked and adds only candidates; it never takes two links with the same href or more than two links, and stops short of two only when every candidate's href was taken |
| Generate.OthersSpec | scripts/pseo/generate.ts:349-362 | other topics lend at most two links, with distinct hrefs, each the first link of another topic with a non-empty list; fewer than two only when every such first href is already among them |
| Generate.TopicLinksSpec | scripts/pseo/generate.ts:346-347 | the page topic's list is used when its entry is not null, otherwise the `misc` list under the same rule, otherwise nothing; an entry that is not a list counts as empty |
| Generate.AssignSnoc | scripts/pseo/generate.ts:331-335 | one more assignment overrides the key it sets |
| Generate.LoadSlugToTopic | scripts/pseo/generate.ts:324-337 | the loop builds the map specified by `SlugToTopic` |
| Generate.SlugToTopicSpec | scripts/pseo/generate.ts:324-337 | a key is present exactly when it is some page's final slug or the tail of one, and it maps to the topic of such a page |
| Generate.PagesToGenerateSpec | scripts/pseo/generate.ts:386-389 | the generated pages are the catalog's `ja` pages, only the named one when an id is given, in catalog order |
| Generate.WithSlash | scripts/pseo/generate.ts:393 | `replace(/\/?$/, "/")` ends in exactly one added slash: the result is the URL or the URL plus a slash |
| Generate.FaqSchema | scripts/pseo/generate.ts:205-207 | the FAQPage schema is written exactly when the page may emit it and the editor produced one |
| Generate.PageFlagsSpec | scripts/pseo/generate.ts:391-396 | a page is indexed exactly when its final slug is on the index allowlist, and has the FAQ schema exactly when that slug is on the FAQ allowlist and a FAQ exists; the canonical URL exists only with a published record and ends in a slash |
| Validate.RedirectEntry | scripts/pseo/validate.ts:92-99 | a `_redirects` line with at least two whitespace-separated tokens gives a pair whose target ends in a slash |
| Validate.Entries | scripts/pseo/validate.ts:90-92 | each line is parsed in its place |
| Validate.PairsOfMember | scripts/pseo/validate.ts:91-100 | a pair is in the set exactly when some line parses to `(from, to)` and the pair is `from -> to` or `from/ -> to` |
| Validate.LoadRedirects | scripts/pseo/validate.ts:88-102 | the set built line by line is the one specified by `Redirects` |
| Validate.CollectPairs | scripts/pseo/validate.ts:91-100 | the loop over the lines adds each line's pairs, and its set is the union `PairsOf` of all the lines' entries |
| Validate.CollapseSlashes | scripts/pseo/validate.ts:349 | after `replace(/\/+/g, "/")` no two slashes are adjacent, and the first character is kept |
| Validate.ExtractUrlShape | scripts/pseo/validate.ts:148-156 | an extracted canonical or og:url is empty or ends in exactly one slash |
| Validate.NextTag | scripts/pseo/validate.ts:226-229 | a tag that is found lies at or after the scan position, inside the text |
| Validate.NextTagSpec | scripts/pseo/validate.ts:226-229 | the tag found is the first `<div` or `</div>` from the scan position, and there is none exactly when no `</div>` is left |
| Validate.Walk | scripts/pseo/validate.ts:224-236 | the depth-counting walk ends, if it ends, at a position inside the text at or after its start |
| Validate.WalkStep | scripts/pseo/validate.ts:230-235 | a finished walk takes its first step over the next tag: deeper after `<div`, and ending there on the `</div>` at depth 1 |
| Validate.Scan | scripts/pseo/validate.ts:224-236 | the scan's end lies inside the text, at or after its start |
| Validate.ScanAt | scripts/pseo/validate.ts:224-236 | one scan step: it stops with no `</div>` left, goes one level deeper after `<div`, and ends at the `</div>` that closes depth 1 |
| Validate.BodyHtml | scripts/pseo/validate.ts:219-239 | without the opening match the body is the whole html; otherwise it is a prefix of the text after the opening |
| Validate.GetBodyHtml | scripts/pseo/validate.ts:219-239 | the depth-counting loop returns the body specified by `BodyHtml` |
| Validate.ScanBalance | scripts/pseo/validate.ts:224-236 | the scan keeps depth - 1 equal to the `<div` count minus the `</div>` count since the start, so at depth 0 the counts agree |
| Validate.BodyBalanced | scripts/pseo/validate.ts:219-239 | when the matching `</div>` is found, the body has as many `<div` as `</div>` |
| Validate.PseoMapSpec | scripts/pseo/validate.ts:44-57 | a key is in the map exactly when some page has it as id or final slug, and it maps to the record of the last such page |
| Validate.LoadPseoMap | scripts/pseo/validate.ts:44-57 | the loop builds the map specified by `PseoMap`; a missing file gives an empty map |
| Validate.LoadSimilarity | scripts/pseo/validate.ts:104-115 | there is a report exactly when the file exists and has `by_page`, and it has exactly the ids of `by_page` |
| Validate.OpenEnd | scripts/pseo/validate.ts:220-222 | the opening match ends inside the text, and an end past the text counts as no match |
| Validate.SegmentShape | scripts/pseo/validate.ts:276 | the last slug segment contains no slash, and a slug path without a slash is its own segment |
| Validate.FileFor | scripts/pseo/validate.ts:59-68 | the file is under `ja/resources/pseo/<final_slug>/` exactly when the page has a record, and uses that record's final slug |
| Validate.ReportUrl | scripts/pseo/validate.ts:70-79 | with a record, the report URL is the expected final URL; every report URL starts with the base URL |
| Validate.StripOrigin | scripts/pseo/validate.ts:263 | `replace(/^https?:\/\/[^/]+/i, "")` leaves the href unchanged, or removes a scheme-and-host prefix and leaves an empty text or one that starts with a slash |
| Validate.LineStart | scripts/pseo/validate.ts:263 | no line terminator follows the returned position |
| Validate.DropFragmentSpec | scripts/pseo/validate.ts:263 | `replace(/#.*$/, "")` gives a prefix that is cut at a `#` followed by no line terminator, and no earlier `#` on that line qualifies; text without `#` is unchanged |
| Validate.CtaHrefIff | scripts/pseo/validate.ts:36 | an href is a CTA link exactly when it contains `#contact`, in any case: the other alternatives contain that one |
| Validate.AimoStandardIff | scripts/pseo/validate.ts:35 | a URL is an AIMO Standard link exactly when it contains `aimo-standard`, in any case |
| Validate.PresentMember | scripts/pseo/validate.ts:356 | the present values are exactly the `Some` entries |
| Validate.InternalHrefsMembers | scripts/pseo/validate.ts:292-293 | the internal hrefs are distinct and are exactly the normalised paths of the internal links |
| Validate.FirstMatch | scripts/pseo/validate.ts:295-301 | a match that is found lies in the searched range |
| Validate.FirstMatchSpec | scripts/pseo/validate.ts:295-301 | nothing is found exactly when no index in the range matches; otherwise the least matching index is returned |
| Validate.PageTypeOfFirst | scripts/pseo/validate.ts:295-301 | a path has no page type exactly when no catalog page matches it; otherwise it has the type of the first matching page |
| Validate.LinkedTypesMember | scripts/pseo/validate.ts:294-303 | a type is linked exactly when it is the first match of some internal href |
| Validate.FindPageType | scripts/pseo/validate.ts:295-301 | the inner loop, left by `break` at the first match, returns the type specified by `PageTypeOf` |
| Validate.CollectPageTypes | scripts/pseo/validate.ts:294-303 | the outer loop collects the set specified by `LinkedTypes` |
| Validate.CountContained | scripts/pseo/validate.ts:306-309 | the count never exceeds the number of patterns |
| Validate.CountContainedBounds | scripts/pseo/validate.ts:306-309 | every keyword counts exactly when each occurs, and none counts exactly when none occurs |
| Validate.KeywordKeys | scripts/pseo/validate.ts:308 | one lowered, space-collapsed key per keyword |
| Validate.CountKeywords | scripts/pseo/validate.ts:306-309 | the keyword loop returns the number of keys contained in the combined text |
| Validate.MaxRows | scripts/pseo/validate.ts:285 | the row count is the largest row count of any table, and 0 without tables |
| Validate.H2RuleIff | scripts/pseo/validate.ts:321-323 | the H2 rule passes exactly when no H2 text is repeated |
| Validate.DropTrailingSlashesIdem | scripts/pseo/validate.ts:327 | removing trailing slashes twice is the same as removing them once |
| Validate.HeadUrlRuleIff | scripts/pseo/validate.ts:324-336 | the canonical and og:url checks pass exactly when the page has no record or the extracted URL names the final URL |
| Validate.RobotsRuleIff | scripts/pseo/validate.ts:337-342 | the robots check passes exactly when the page has no record, or robots says `index,follow` for an allowlisted final slug and `noindex,follow` otherwise |
| Validate.CtaRuleIff | scripts/pseo/validate.ts:343-344 | the CTA check passes exactly when some link contains `#contact`, in any case |
| Validate.ClaimsRule | scripts/pseo/validate.ts:345-346 | a failed lint adds its violations, one reason each, in order; a passing lint adds none |
| Validate.UniqueRuleIff | scripts/pseo/validate.ts:354-359 | the unique-elements check passes exactly when two different non-empty `data-unique` values occur |
| Validate.SimilarityTiers | scripts/pseo/validate.ts:353-371 | similarity fails at 0.99 or more and only warns from 0.9 up to 0.99, never both |
| Validate.CountWarnsEmptyIff | scripts/pseo/validate.ts:362-370 | no count warning is raised exactly when every threshold is met (tables, 10 rows, 8 FAQs, 8 internal links, 3 page types, 3 checklist items, 15 cells, 2 keywords, 2 artifacts, the AIMO Standard link) |
| Validate.ValidatePage | scripts/pseo/validate.ts:267-405 | the result keeps the page id, and the page passes exactly when there is no fail reason |
| Validate.PagePassIff | scripts/pseo/validate.ts:318-360 | a page passes exactly when it has one H1 and no repeated H2 text; when migrated, canonical and og:url name its final URL and robots matches the allowlist; a CTA link exists; the claims lint passes; a legacy URL has its 301; similarity is below 0.99; and two distinct `data-unique` values occur |
| Validate.CheckPage | scripts/pseo/validate.ts:267-405 | running the body scan and the loops as methods gives the result specified by `ValidatePage` |
| Validate.DupFail | scripts/pseo/validate.ts:117-124 | the duplicate gate fails exactly when the file exists with a near-duplicate count above 0, and then it reports that count |
| Validate.MeceFailIff | scripts/pseo/validate.ts:127-146 | the MECE gate fails exactly when the taxonomy has pages and two allowlisted slugs share a non-empty intent |
| Validate.MeceFailReported | scripts/pseo/validate.ts:140-145 | the reported intent has more than one slug, its count is the number of slugs, and each slug is allowlisted and mapped to that intent |
| Validate.ViolationsOfPrefix | scripts/pseo/validate.ts:140-143 | the violations of a prefix of the intents come first |
| Validate.ViolationsStep | scripts/pseo/validate.ts:140-143 | scanning the intents in order finds the first violation |
| Validate.LoadMeceFail | scripts/pseo/validate.ts:127-146 | the loops return the failure specified by `MeceFail` |
| Validate.JaPages | scripts/pseo/validate.ts:422 | the validated pages are exactly the catalog's `ja` pages |
| Validate.Outcome | scripts/pseo/validate.ts:426-448 | the result keeps the page id; a page whose file is missing fails with the single "HTML not found" reason |
| Validate.Results | scripts/pseo/validate.ts:426-448 | there is one result per validated page |
| Validate.Failed | scripts/pseo/validate.ts:450-451 | the failed count never exceeds the number of results |
| Validate.SummaryCounts | scripts/pseo/validate.ts:450-451 | passed plus failed is the total, and nothing failed exactly when every result passed |
| Validate.ExitCodeIff | scripts/pseo/validate.ts:503-515 | the run exits with 1 exactly when the duplicate report counts near duplicates, two allowlisted slugs share an intent, or some `ja` page fails |
| Validate.GlobalsIff | scripts/pseo/validate.ts:415-419 | a global failure is exactly a positive near-duplicate count or two allowlisted slugs sharing an intent |
| Validate.LoadContext | scripts/pseo/validate.ts:413-424 | the loaders give the context specified by `ContextOf` |
| Validate.LoadGlobals | scripts/pseo/validate.ts:415-419 | the duplicate gate, then the MECE gate, give the global reasons specified by `Globals` |
| Validate.CheckOne | scripts/pseo/validate.ts:427-448 | one iteration of the page loop gives the result specified by `Outcome` |
| Validate.CheckAll | scripts/pseo/validate.ts:426-449 | the page loop gives the results specified by `Results` |
| Validate.Run | scripts/pseo/validate.ts:407-516 | `main` gives the specified results, global reasons and exit code |
| ExportSsot.DoubleQuotes | scripts/pseo/phase0_export_ssot.ts:262 | doubling the quotes never shortens a field |
| ExportSsot.EscapeCsv | scripts/pseo/phase0_export_ssot.ts:260-264 | a field is quoted, with its quotes doubled, exactly when it contains a comma, quote, line feed or carriage return; any other field is written unchanged and does not start with a quote |
| ExportSsot.EscapeAll | scripts/pseo/phase0_export_ssot.ts:293 | one escaped field per value |
| ExportSsot.RowTexts | scripts/pseo/phase0_export_ssot.ts:265-295 | one CSV line per record |
| ExportSsot.PlainRoundTrip | scripts/pseo/phase0_export_ssot.ts:263 | a field written unquoted is read back in full, up to the separator that follows it |
| ExportSsot.QuotedRoundTrip | scripts/pseo/phase0_export_ssot.ts:262 | a field written with doubled quotes is read back in full, up to its closing quote |
| ExportSsot.FieldRoundTrip | scripts/pseo/phase0_export_ssot.ts:260-264 | every escaped field is read back as itself, whatever separator follows it |
| ExportSsot.RecordRoundTrip | scripts/pseo/phase0_export_ssot.ts:293 | a written line is read back as its fields |
| ExportSsot.CsvRoundTrip | scripts/pseo/phase0_export_ssot.ts:258-296 | a file of escaped lines joined by line feeds reads back (section 2 of RFC 4180) as exactly the records written, whatever commas, quotes and line breaks the fields contain |
| ExportSsot.JoinRows | scripts/pseo/phase0_export_ssot.ts:296 | the file is the first line, a line feed, then the other lines joined |
| ExportSsot.ParseCsvCons | scripts/pseo/phase0_export_ssot.ts:296 | a written line followed by a line feed reads back as one record, then the rest of the file |
| ExportSsot.WordCountJapanese | scripts/pseo/phase0_export_ssot.ts:84-93 | the loop returns the count specified by `WordCount` |
| ExportSsot.WordCountBound | scripts/pseo/phase0_export_ssot.ts:84-93 | the count is 0 for empty text and never exceeds the number of code points |
| ExportSsot.WordCountSnoc | scripts/pseo/phase0_export_ssot.ts:86-91 | one more code point adds one exactly when it is in a counted range and is not whitespace; the ideographic space U+3000 is in the range but is removed first |
| ExportSsot.CountInternalPseoLinks | scripts/pseo/phase0_export_ssot.ts:95-104 | the count is the number of distinct pseo link targets, trailing slash removed, over the absolute and relative matches |
| ExportSsot.AddTargets | scripts/pseo/phase0_export_ssot.ts:101-102 | one pass adds exactly the targets of that pattern's matches to the set |
| ExportSsot.TargetsSplit | scripts/pseo/phase0_export_ssot.ts:98-102 | the two passes together give every target |
| ExportSsot.TargetsBound | scripts/pseo/phase0_export_ssot.ts:95-104 | there are never more targets than `href` values |
| ExportSsot.TargetsSnoc | scripts/pseo/phase0_export_ssot.ts:95-104 | one more `href` value adds at most its own target |
| ExportSsot.TargetsSlash | scripts/pseo/phase0_export_ssot.ts:101-102 | a link with and without its trailing slash counts as one target |
| ExportSsot.AbsoluteNotRelative | scripts/pseo/phase0_export_ssot.ts:96-97 | an absolute link and a relative link are never the same target |
| ExportSsot.RuleHits | scripts/pseo/phase0_export_ssot.ts:150-155 | one hit flag per slug rule, six in all |
| ExportSsot.FirstHitSpec | scripts/pseo/phase0_export_ssot.ts:150-155 | the first rule that hits decides, and there is a value exactly when some rule hits |
| ExportSsot.ClusterGuessSpec | scripts/pseo/phase0_export_ssot.ts:149-158 | the first rule the slug matches decides; the first topic is used only when no rule matches; the guess is "other" only when there is no topic either |
| ExportSsot.EvidencePackYields | scripts/pseo/phase0_export_ssot.ts:150-151 | a slug containing both "evidence-pack" and "proof-assurance" goes to the proof-vs-assurance cluster |
| ExportSsot.RowOfSpec | scripts/pseo/phase0_export_ssot.ts:182-225 | values found in the page are kept; a missing title or heading falls back on the other, then on the slug; a missing canonical is the page URL; missing robots is "noindex,follow"; the language is never empty; without a record the id is the slug; the counts are bounded by what they count |
| ExportSsot.CountInbound | scripts/pseo/phase0_export_ssot.ts:231-235 | the inner loop returns the count specified by `Inbound` |
| ExportSsot.InboundSpec | scripts/pseo/phase0_export_ssot.ts:228-237 | a page never counts itself, so its count is at most the number of other pages; since the URL with its slash contains the URL without it, the count is the number of other pages that contain the bare URL |
| ExportSsot.SortedDirs | scripts/pseo/phase0_export_ssot.ts:176 | `dirs.sort()` is a sorted permutation of the directory names |
| ExportSsot.Htmls | scripts/pseo/phase0_export_ssot.ts:176-180 | `allHtml` has the slug and HTML of every page, in sorted order |
| ExportSsot.Rows | scripts/pseo/phase0_export_ssot.ts:182-240 | one exported row per directory |
| ExportSsot.Run | scripts/pseo/phase0_export_ssot.ts:160-240 | a missing article root exits with status 1; otherwise `run` returns the rows specified by `Rows` |
| ExportSsot.ReadAll | scripts/pseo/phase0_export_ssot.ts:176-180 | the reading loop builds the list specified by `Htmls` |
| ExportSsot.PushRows | scripts/pseo/phase0_export_ssot.ts:182-226 | the loop pushes one row per page, built from that page's slug, in order |
| ExportSsot.Slugs | scripts/pseo/phase0_export_ssot.ts:182 | the slugs of `allHtml`, in order |
| ExportSsot.BuildRow | scripts/pseo/phase0_export_ssot.ts:183-225 | one page's row is the one specified by `RowOf` |
| ExportSsot.RowForKeys | scripts/pseo/phase0_export_ssot.ts:184-202 | a row has the slug and URL it was built for |
| ExportSsot.PushedSlugs | scripts/pseo/phase0_export_ssot.ts:176-226 | `allHtml` follows the sorted directories, and each pushed row has its directory's slug and URL |
| ExportSsot.CollectInbound | scripts/pseo/phase0_export_ssot.ts:228-237 | every row's slug gets an entry in `inboundMap`, and each entry is that slug's inbound count |
| ExportSsot.FillInbound | scripts/pseo/phase0_export_ssot.ts:238-240 | each row gets its inbound count written in place, and nothing else about it changes |
| ExportSsot.RowsSlugAt | scripts/pseo/phase0_export_ssot.ts:176-226 | row k has the k-th directory in sorted order |
| ExportSsot.RowsOrder | scripts/pseo/phase0_export_ssot.ts:176-226 | the rows follow sorted directory order, with exactly one row per directory |
| ExportSsot.RowsInbound | scripts/pseo/phase0_export_ssot.ts:182-240 | each row is its page's row with its inbound count, which counts only other pages and so is at most the number of pages less one |
| ExportSsot.Cells | scripts/pseo/phase0_export_ssot.ts:267-293 | a row has 24 values, one per header column |
| ExportSsot.CsvTextRoundTrip | scripts/pseo/phase0_export_ssot.ts:258-296 | the file is the header, a line feed and the data lines; the data lines read back as each row's 24 values in header order, whatever they contain |

## Left out

- DedupHeadings.NormalizeHeadingKey: `Strings.Lower` lower-cases only the ASCII letters A–Z. JavaScript's `toLowerCase` is full Unicode: U+212A KELVIN SIGN becomes ASCII "k", U+0130 becomes two code units, and fullwidth "Ａ" becomes "ａ". So headings that differ only in such letters get different keys here and the same key in the source.
- IntentTaxonomy.IntentText: the keyword text is lower-cased ASCII-only (see `DedupHeadings.NormalizeHeadingKey`). A keyword written with a non-ASCII capital, or in text holding the Kelvin sign, can match in the source and not here.
- Validate.KeywordKey: the duplicate-keyword key lower-cases ASCII-only.
- Slugger.LowerAll: the slugger's English matching (`Slugger.EnHits`, stopwords, banned tokens) lower-cases ASCII-only.
- Similarity.Windows: a window is k characters (Unicode code points), while `text.slice(i, i + k)` takes k UTF-16 code units (scripts/pseo/quality/similarity.ts:77-82, scripts/pseo/phase0_duplicate_report.ts:44-49). On text with characters outside the Basic Multilingual Plane (emoji), the windows differ and so do the shingle sets.
- Similarity.Shingles: built on `Similarity.Windows`, so it inherits the code-point counting. So do the Jaccard values of the similarity report, the duplicate report (`DuplicateReport`) and the validator's same-content rule (`Validate`). `InjectAssets` models UTF-16 code units explicitly (`Utf16`), because its hash works on `charCodeAt`.
- Generate.Cut: `slice(0, 200)` cuts at 200 UTF-16 code units; the model cuts at 200 characters (code points). A point holding an emoji or other character outside the Basic Multilingual Plane is cut later here, and the source can split a surrogate pair at the cut.
- Generate.FallbackPass: the `t.length > 20 && t.length < 300` test counts UTF-16 code units; the model counts characters. A line of 15 emoji (30 code units) is a prose point in the source and not here.
- Generate.BulletOfSpec: the "at most 200" bound of a first-pass point is in characters, not in UTF-16 code units (see `Generate.Cut`).
- Generate.KeyPointsSpec: the point-length bound and the fallback's length window are in characters, not in UTF-16 code units (see `Generate.Cut` and `Generate.FallbackPass`).
- CiPseoGate.Head: `titleA.slice(0, 40)` (scripts/pseo/quality/ci_pseo_gate.ts:104) keeps the first 40 UTF-16 code units; the model keeps the first 40 characters (code points). A title holding characters outside the Basic Multilingual Plane is shown longer here in the warning, and the source can split a surrogate pair at the cut.
- BuildSsotPhaseA.Last20: `slug.slice(-20)` takes the last 20 UTF-16 code units; the model takes the last 20 characters. The two differ only for a slug holding characters outside the Basic Multilingual Plane.
- BuildSsotPhaseA.SummarySpec: the title is cut at 80 UTF-16 code units and `title.length > 80` counts code units (scripts/pseo/build_ssot_phase_a.ts:171); the model counts characters. A title of 50 emoji (100 code units) gets the ellipsis in the source and not here.
- Slugger.ClampSpec: `s.length > policy.max_length` and `s.slice(0, max_length)` count UTF-16 code units (scripts/pseo/slugger.ts:110-116); the model counts characters. The difference shows only for tokens outside the Basic Multilingual Plane.
- Slugger.FinalSlugSpec: the policy's separator is one character, and its `id_format` regular expression is the predicate `idMatches`. The source builds regular expressions from both (scripts/pseo/slugger.ts:116, 122, 197), so a separator that is a regex metacharacter (such as ".") or longer than one character behaves differently there; the dictionary's "-" behaves the same in both.
- TableWrap.ProcessPage: `html.replace(proseMatch[0], openTag + newBody + closeTag)` (scripts/pseo/postprocess_table_wrap.ts:49) expands `$&`, `$$`, `` $` `` and `$'` patterns in the replacement string; the model splices the replacement in literally. A table body holding "$&" is written differently by the source.
- TableWrap.Spliced: the same literal splice as `TableWrap.ProcessPage`, without `$`-pattern expansion; `TableWrap.SplicedKeepsOutside` is stated of it.
- TableWrap.Run: each page is processed against the file content given for it. The source re-reads `index.html` for every page, so a second page with the same `final_slug` reads the file the first one wrote; with the wrapper already in place it writes nothing, while the model writes it again.
- InjectAssets.InjectPage: in the fallback anchor (`ReplaceClose`, scripts/pseo/inject_assets.ts:172) the source passes `injectedHtml + "\n\n</div>\n</section>"` to `String.prototype.replace`, which expands `$&`, `$$`, `` $` `` and `$'` patterns; the model splices the asset HTML in literally. Asset HTML holding such a pattern is injected differently by the source.
- InjectAssets.InjectBeforeReferences: its `ReplaceClose` case is the literal splice described under `InjectAssets.InjectPage`.
- CheckPseoLinks.ExistsPathIff: the file name is the raw joined string. `path.join` normalises `//`, `.` and `..` segments (scripts/pseo/check_pseo_links.ts:20-40), so a link such as `/ja/a/../b/` names the file of `/ja/b/` in the source and a different name here.
- Seqs.SortStrings: JavaScript's default sort compares UTF-16 code units; this one compares code points. The two orders differ only between a surrogate pair and a character from U+E000 to U+FFFF. This affects `ExportSsot.SortedDirs` and `DuplicateReport.Slugs`.
- Regular-expression and HTML extraction are parameters, not models:
  - `stripBoilerplate` and `getRawBodyText` in similarity and in the duplicate report;
  - `getProseBody` of the table wrapper (a match record);
  - the validator's extractors (`Validate.Extractors`: open tags, `stripHtml`, tables, links, FAQ questions, checklists, `data-unique` blocks, H1 count, H2 texts, canonical/og:url/robots matches);
  - the extraction patterns of the URL export;
  - `extractHeadings` and `stripReferencesSection` of page generation;
  - the `<loc>` extraction of the sitemap and the link pattern of the link checker.
- claims_lint is not part of this model: the validator receives its verdict as a value (`Validate.Extractors`).
- postprocess_claims, layout, render_artifacts, apply_pseo_design and the other one-off HTML patchers are not part of this model. So are postprocess_h2_dedup (an I/O wrapper around `DedupHeadings`), migrate-urls, inventory and the CSS patch scripts.
- File system: reads, writes, `mkdir` and directory listings are left out. The files arrive as values: parsed records, `Option` for a file that may be missing, a set of existing paths, or a map from path to content.
- Process exits and console output are left out; each gate returns its verdict and its messages.
- The network is left out: the Cloudflare GraphQL call of the metrics pull is a value (its answer or its failure). The Gemini editing service of page generation is left out, with its retries and back-off.
- The clock is left out: `generated_at` timestamps, the build date of generated pages and the date range of the metrics pull arrive as values or are not modelled.
- Markdown rendering (`marked`) and the HTML templates of page generation are left out; the model stops at the assembled body Markdown and the page flags.
- The inject_assets block renderers are left out: an asset item arrives as its rendered HTML.
- The directory page's HTML text, its embedded filter/pagination script and its label markup are left out. The model states which pages are listed, in which sections and order, and the `data-page-index` values.
- RenderPseoIndex.SortByTitle: `localeCompare(…, "ja")` collation is an abstract rank function on titles; Japanese collation itself is not modelled.
- Floating point: Jaccard similarities and conversion rates are exact reals, not IEEE doubles. `toFixed` percentage formatting in the reports is left out.
- The Markdown reports are left out: the release candidates' `index_candidates.md` (scripts/pseo/release_candidates.ts:100-134) and the prioritiser's `reportToMarkdown` (scripts/pseo/prioritize.ts:140-170). Their data is modelled.
- Sitemap: rewriting the `<urlset>` element of the file text and writing the files (scripts/pseo/sitemap.ts:125-131) are left out. The model computes the list of `<url>` entries and the robots.txt text.
- Validate: the report-only fields of the quality report are left out: unique sections, the unique-element score, the topic copy, the artifact counts and the h2 fix-ups file. The model states the fail/warn reasons and the exit decision.
- `new URL` parsing is the caller's: release candidates receive each page's pathname, or `None` when the URL does not parse.
- Each quirk listed under Findings is modelled twice: the as-written member sits beside a corrected definition whose intended property is proved. The pipeline functions themselves follow the code as written.

## Findings

| source | as written | input that shows it | evidently intended | confidence | as-written member | corrected member |
|---|---|---|---|---|---|---|
| scripts/pseo/quality/dedup_headings.ts:56-84 | the first kept section is sliced from the start of the remaining text (`rest.slice(0, sectionEnd)`), and the text before its heading is also pushed on its own, so the preamble is emitted twice | `intro<h2>A</h2>x`: the parts are `intro` and `intro<h2>A</h2>x` | each section sliced from its own `<h2…>` tag, so the preamble appears once | not executed | DedupHeadings.PreambleTwice | DedupHeadings.HeadingOpensSection |
| scripts/pseo/redirects.ts:48-50 | the written file is `trimStart`ed, which removes the newline before the `# PSEO legacy URL` marker that the replace pattern needs; a later run no longer finds the block and appends a second one | an empty `_redirects`, with the script run twice | running again replaces the PSEO block, so a second run gives the same file | not executed | Redirects.SecondRunAppends | Redirects.RerunReplaces |
| scripts/pseo/release_candidates.ts:77-90 | the selection loop stops only at twenty pages or when the candidates run out, so the topic-diversity loop after it never finds its guard true | 25 candidates all with topic `misc`: twenty are selected and one topic is covered | the selection covers at least four topics when the candidates have them | not executed | ReleaseCandidates.DiversityUnreachable | ReleaseCandidates.SelectDiverse |
| scripts/pseo/render_pseo_index.ts:147 | `data-page-index` adds up the sizes of `SECTION_ORDER[i]` for the first `idx` shown sections, not of the shown sections themselves, so an empty section early in the order shifts the count | the evidence-pack section (first in `SECTION_ORDER`) empty, and the audit-controls and workflow sections one page each: both items get index 0 | the index of an item is its position in the whole rendered list | not executed | RenderPseoIndex.PageIndexAsWrittenRepeats | RenderPseoIndex.PageIndexAt |
| scripts/pseo/quality/similarity.ts:185-193 | the comment asks for clusters connected into one group, but an entry of `sameClusters` that shares a page with an earlier one is skipped | entries {a, b} and {b, c}: the clusters are [a, b] and page c is in none | pages linked by a chain of same-content pairs form one cluster | not executed | Similarity.ChainDropsPage | Similarity.MergedClustersSpec |
