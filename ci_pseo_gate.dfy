/**
 * The CI gate over the page SSOT: MECE (one indexable page per intent),
 * pillar reference minimums and unique-value scores are failures; pairs of
 * indexable pages with highly overlapping titles are only warnings.
 */
module CiPseoGate {
  import opened Wrappers
  import opened Strings
  import opened Seqs
  import opened Pairs
  import MeceGate
  import Similarity

  const IndexFollow: string := "index,follow"
  const PillarReferencesMin: real := 3.0
  const UniqueValueThreshold: real := 50.0
  const TitleOverlapWarnRatio: real := 0.85

  /** A page of the SSOT, as far as the gate reads it; JSON numbers are reals. */
  datatype SsotPage = SsotPage(url: string, title: Option<string>, summary: string, intentId: string,
                               isPillar: bool, robots: string, referencesMin: Option<real>,
                               uniqueValueScore: Option<real>)

  // ------------------------------------------------------------- url slug

  /** `url.replace(/^https?:\/\/[^/]+/, "")`: scheme and host removed when both are there. */
  function StripOrigin(url: string): string {
    var rest := if StartsWith(url, "https://") then url[8..]
                else if StartsWith(url, "http://") then url[7..]
                else url;
    var host := TakeRun(rest, c => c == '/');
    if rest == url || host == [] then url else rest[|host|..]
  }

  /** The non-empty parts, in order (`.filter(Boolean)`). */
  function NonEmptyParts(parts: seq<string>): seq<string> {
    if parts == [] then []
    else NonEmptyParts(parts[..|parts| - 1]) + (if parts[|parts| - 1] != "" then [parts[|parts| - 1]] else [])
  }

  /** `urlToSlug`: the last non-empty path segment, or "" when there is none. */
  function UrlToSlug(url: string): string {
    var parts := NonEmptyParts(Split(DropTrailingSlash(StripOrigin(url)), '/'));
    if parts == [] then "" else parts[|parts| - 1]
  }

  /** The slug never holds a slash. */
  lemma UrlToSlugNoSlash(url: string)
    ensures '/' !in UrlToSlug(url)
  {
    var split := Split(DropTrailingSlash(StripOrigin(url)), '/');
    var parts := NonEmptyParts(split);
    if parts != [] {
      NonEmptyPartsFrom(split, |parts| - 1);
      var k :| 0 <= k < |split| && split[k] == parts[|parts| - 1];
      SplitParts(DropTrailingSlash(StripOrigin(url)), '/', k);
    }
  }

  lemma {:induction false} NonEmptyPartsFrom(parts: seq<string>, i: nat)
    requires i < |NonEmptyParts(parts)|
    ensures exists k :: 0 <= k < |parts| && parts[k] == NonEmptyParts(parts)[i]
  {
    var n := |parts| - 1;
    var init := NonEmptyParts(parts[..n]);
    if i < |init| {
      NonEmptyPartsFrom(parts[..n], i);
      var k :| 0 <= k < n && parts[..n][k] == init[i];
      assert parts[k] == parts[..n][k];
    } else {
      assert NonEmptyParts(parts)[i] == parts[n];
    }
  }

  /** The slug of a page url `https://host/pseo/<slug>/` is `<slug>`. */
  lemma UrlToSlugOfPageUrl(scheme: string, host: string, slug: string)
    requires scheme == "https://" || scheme == "http://"
    requires host != "" && '/' !in host && slug != "" && '/' !in slug
    ensures UrlToSlug(scheme + host + "/pseo/" + slug + "/") == slug
  {
    var path := "/pseo/" + slug + "/";
    assert scheme + host + "/pseo/" + slug + "/" == scheme + host + path;
    StripOriginOfPageUrl(scheme, host, path);
    assert DropTrailingSlash(path) == "/pseo/" + slug;
    SplitPseoPath(slug);
    var parts := ["", "pseo", slug];
    assert parts[..2] == ["", "pseo"] && ["", "pseo"][..1] == [""] && [""][..0] == [];
    assert NonEmptyParts([""]) == [];
    assert NonEmptyParts(["", "pseo"]) == ["pseo"];
    assert NonEmptyParts(parts) == ["pseo", slug];
  }

  lemma StripOriginOfPageUrl(scheme: string, host: string, path: string)
    requires scheme == "https://" || scheme == "http://"
    requires host != "" && '/' !in host && path != [] && path[0] == '/'
    ensures StripOrigin(scheme + host + path) == path
  {
    var url := scheme + host + path;
    var rest := host + path;
    assert url == scheme + rest;
    if scheme == "https://" {
      assert StartsWith(url, "https://");
      assert url[8..] == rest;
    } else {
      assert url[4] == ':';
      assert !StartsWith(url, "https://");
      assert StartsWith(url, "http://");
      assert url[7..] == rest;
    }
    TakeRunPrefix(host, path);
    assert rest[|host|..] == path;
    assert rest != url;
  }

  lemma SplitPseoPath(slug: string)
    requires '/' !in slug
    ensures Split("/pseo/" + slug, '/') == ["", "pseo", slug]
  {
    assert "/pseo/" + slug == "" + ['/'] + ("pseo" + ['/'] + slug);
    SplitConcat("", "pseo" + ['/'] + slug, '/');
    SplitConcat("pseo", slug, '/');
    SplitNoSep("pseo", '/');
    SplitNoSep(slug, '/');
  }

  /** The host is the run up to the first slash of the path. */
  lemma {:induction false} TakeRunPrefix(host: string, path: string)
    requires '/' !in host && path != [] && path[0] == '/'
    ensures TakeRun(host + path, c => c == '/') == host
  {
    if host != [] {
      assert (host + path)[1..] == host[1..] + path;
      TakeRunPrefix(host[1..], path);
      assert host == [host[0]] + host[1..];
    } else {
      assert host + path == path;
    }
  }

  // ---------------------------------------------------------------- MECE

  /** The indexable pages, in order. */
  function Indexable(pages: seq<SsotPage>): seq<SsotPage> {
    if pages == [] then []
    else
      var p := pages[|pages| - 1];
      Indexable(pages[..|pages| - 1]) + (if p.robots == IndexFollow then [p] else [])
  }

  /** The indexable pillars, in order. */
  function Pillars(ix: seq<SsotPage>): seq<SsotPage> {
    if ix == [] then []
    else
      var p := ix[|ix| - 1];
      Pillars(ix[..|ix| - 1]) + (if p.isPillar then [p] else [])
  }

  lemma {:induction false} IndexableMembers(pages: seq<SsotPage>)
    ensures forall p :: p in Indexable(pages) <==> p in pages && p.robots == IndexFollow
  {
    if pages != [] {
      var n := |pages| - 1;
      IndexableMembers(pages[..n]);
      assert pages == pages[..n] + [pages[n]];
    }
  }

  lemma {:induction false} PillarsMembers(ix: seq<SsotPage>)
    ensures forall p :: p in Pillars(ix) <==> p in ix && p.isPillar
  {
    if ix != [] {
      var n := |ix| - 1;
      PillarsMembers(ix[..n]);
      assert ix == ix[..n] + [ix[n]];
    }
  }

  /** The (intent id, url) pairs of the MECE loop. */
  function IntentItems(ix: seq<SsotPage>): seq<(string, string)> {
    if ix == [] then [] else IntentItems(ix[..|ix| - 1]) + [(ix[|ix| - 1].intentId, ix[|ix| - 1].url)]
  }

  lemma {:induction false} IntentItemsAt(ix: seq<SsotPage>)
    ensures |IntentItems(ix)| == |ix|
    ensures forall i :: 0 <= i < |ix| ==> IntentItems(ix)[i] == (ix[i].intentId, ix[i].url)
  {
    if ix != [] {
      IntentItemsAt(ix[..|ix| - 1]);
    }
  }

  function MeceViolations(ix: seq<SsotPage>): seq<MeceGate.Violation> {
    var g := GroupBy(IntentItems(ix));
    MeceGate.ViolationsOf(g.keys, g.groups)
  }

  /** Some two indexable pages share an intent id. */
  predicate SharedIntent(ix: seq<SsotPage>) {
    exists i, j :: 0 <= i < j < |ix| && ix[i].intentId == ix[j].intentId
  }

  /**
   * There is a MECE failure exactly when two indexable pages share an intent
   * id; each failure is one intent id, with all of its urls, reported once.
   */
  lemma MeceFailuresIff(ix: seq<SsotPage>)
    ensures MeceViolations(ix) != [] <==> SharedIntent(ix)
    ensures forall v :: v in MeceViolations(ix) <==>
      |ValuesFor(IntentItems(ix), v.intentId)| > 1
      && v == MeceGate.Violation(v.intentId, |ValuesFor(IntentItems(ix), v.intentId)|,
                                 ValuesFor(IntentItems(ix), v.intentId))
    ensures forall i, j :: 0 <= i < j < |MeceViolations(ix)| ==>
      MeceViolations(ix)[i].intentId != MeceViolations(ix)[j].intentId
  {
    var items := IntentItems(ix);
    IntentItemsAt(ix);
    MeceGate.ReportEmptyIff(items);
    MeceGate.ReportOf(items);
    if SharedIntent(ix) {
      var i, j :| 0 <= i < j < |ix| && ix[i].intentId == ix[j].intentId;
      assert items[i].0 == items[j].0;
    }
    if MeceGate.SharedKey(items) {
      var i, j :| 0 <= i < j < |items| && items[i].0 == items[j].0;
      assert ix[i].intentId == ix[j].intentId;
    }
  }

  // ------------------------------------------------------------ failures

  datatype Failure =
    | Mece(violation: MeceGate.Violation)
    | References(url: string, referencesMin: real)
    | UniqueValue(url: string, score: real)

  function MeceFailures(vs: seq<MeceGate.Violation>): (fs: seq<Failure>)
    ensures |fs| == |vs|
    ensures forall i :: 0 <= i < |vs| ==> fs[i] == Mece(vs[i])
  {
    if vs == [] then [] else MeceFailures(vs[..|vs| - 1]) + [Mece(vs[|vs| - 1])]
  }

  /** `p.references_min ?? 0`. */
  function RefMin(p: SsotPage): real {
    p.referencesMin.GetOr(0.0)
  }

  function ReferenceFailures(pillars: seq<SsotPage>): seq<Failure> {
    if pillars == [] then []
    else
      var p := pillars[|pillars| - 1];
      ReferenceFailures(pillars[..|pillars| - 1])
      + (if RefMin(p) < PillarReferencesMin then [References(p.url, RefMin(p))] else [])
  }

  /** A reference failure names exactly a pillar whose minimum is below 3. */
  lemma {:induction false} ReferenceFailuresSpec(pillars: seq<SsotPage>)
    ensures forall f :: f in ReferenceFailures(pillars) <==>
      exists p :: p in pillars && RefMin(p) < PillarReferencesMin && f == References(p.url, RefMin(p))
  {
    if pillars != [] {
      var n := |pillars| - 1;
      ReferenceFailuresSpec(pillars[..n]);
      assert pillars == pillars[..n] + [pillars[n]];
    }
  }

  /** `p.unique_value_score ?? slugToScore.get(urlToSlug(p.url))`. */
  function Score(p: SsotPage, scores: map<string, real>): Option<real> {
    if p.uniqueValueScore.Some? then p.uniqueValueScore
    else
      var slug := UrlToSlug(p.url);
      if slug in scores then Some(scores[slug]) else None
  }

  function UniqueFailures(ix: seq<SsotPage>, scores: map<string, real>): seq<Failure> {
    if ix == [] then []
    else
      var p := ix[|ix| - 1];
      var score := Score(p, scores);
      UniqueFailures(ix[..|ix| - 1], scores)
      + (if score.Some? && score.value < UniqueValueThreshold then [UniqueValue(p.url, score.value)] else [])
  }

  /**
   * A unique-value failure names exactly an indexable page that has a score
   * below 50; a page with no score never fails.
   */
  lemma {:induction false} UniqueFailuresSpec(ix: seq<SsotPage>, scores: map<string, real>)
    ensures forall f :: f in UniqueFailures(ix, scores) <==>
      exists p :: p in ix && Score(p, scores).Some? && Score(p, scores).value < UniqueValueThreshold
        && f == UniqueValue(p.url, Score(p, scores).value)
  {
    if ix != [] {
      var n := |ix| - 1;
      UniqueFailuresSpec(ix[..n], scores);
      assert ix == ix[..n] + [ix[n]];
    }
  }

  /** The page's own score wins over the scores file, which is keyed by the url's slug. */
  lemma ScorePrecedence(p: SsotPage, scores: map<string, real>)
    ensures p.uniqueValueScore.Some? ==> Score(p, scores) == p.uniqueValueScore
    ensures p.uniqueValueScore.None? ==>
      (Score(p, scores).Some? <==> UrlToSlug(p.url) in scores)
      && (UrlToSlug(p.url) in scores ==> Score(p, scores) == Some(scores[UrlToSlug(p.url)]))
  {
  }

  // ------------------------------------------------------------- warnings

  predicate IsTitleSep(c: char) {
    c == '、' || c == '。' || c == '・' || IsSpace(c)
  }

  /** `tokenize`: the runs between separators and whitespace. */
  function Tokens(s: string): seq<string> {
    Runs(s, IsTitleSep)
  }

  /** `(p.title ?? p.summary ?? "").trim()`. */
  function TitleOf(p: SsotPage): string {
    Trim(p.title.GetOr(p.summary))
  }

  /** A page's trimmed title and its token set, as each pair comparison computes them. */
  datatype TitleInfo = TitleInfo(title: string, tokens: set<string>)

  function Info(p: SsotPage): TitleInfo {
    TitleInfo(TitleOf(p), SetOf(Tokens(TitleOf(p))))
  }

  /** The title of every indexable page, in order. */
  function Infos(ix: seq<SsotPage>): seq<TitleInfo> {
    seq(|ix|, i requires 0 <= i < |ix| => Info(ix[i]))
  }

  /** A title-overlap warning: the ratio and the first 40 characters of both titles. */
  datatype Warning = TitleOverlap(ratio: real, headA: string, headB: string)

  function Head(s: string): string {
    if |s| <= 40 then s else s[..40]
  }

  function PairWarning(a: TitleInfo, b: TitleInfo): Option<Warning> {
    if a.title == "" || b.title == "" then None
    else
      var ratio := Similarity.Jaccard(a.tokens, b.tokens);
      if ratio >= TitleOverlapWarnRatio then Some(TitleOverlap(ratio, Head(a.title), Head(b.title))) else None
  }

  /** A warning is a ratio in [0.85, 1]; whether a pair warns does not depend on its order. */
  lemma PairWarningSpec(a: TitleInfo, b: TitleInfo)
    ensures PairWarning(a, b).Some? ==> TitleOverlapWarnRatio <= PairWarning(a, b).value.ratio <= 1.0
    ensures PairWarning(a, b).Some? <==> PairWarning(b, a).Some?
  {
    Similarity.JaccardBounds(a.tokens, b.tokens);
    Similarity.JaccardSymmetric(a.tokens, b.tokens);
  }

  /** Two pages whose titles are equal and hold at least one token always warn. */
  lemma SameTitleWarns(p: SsotPage, q: SsotPage)
    requires TitleOf(p) == TitleOf(q) && Tokens(TitleOf(p)) != []
    ensures PairWarning(Info(p), Info(q)).Some?
  {
    var t := TitleOf(p);
    var sa := SetOf(Tokens(t));
    SetOfMembers(Tokens(t));
    assert Tokens(t)[0] in sa;
    RunsWordAt(t, IsTitleSep, 0);
    assert t != "";
    Similarity.JaccardBounds(sa, sa);
  }

  /** The comparison of pages `i` and `j`, total over indices (out of range never warns). */
  function PairPick(infos: seq<TitleInfo>): (nat, nat) -> Option<Warning> {
    (i: nat, j: nat) => if i < |infos| && j < |infos| then PairWarning(infos[i], infos[j]) else None
  }

  /** The nested loop over the pairs `i < j` of indexable pages. */
  function Warnings(infos: seq<TitleInfo>): seq<Warning> {
    PairPicks(PairPick(infos), |infos|, |infos|)
  }

  /** The warnings are exactly those of the unordered pairs `i < j` of indexable pages. */
  lemma WarningsMember(infos: seq<TitleInfo>, w: Warning)
    ensures w in Warnings(infos) <==>
      exists i, j :: 0 <= i < j < |infos| && PairWarning(infos[i], infos[j]) == Some(w)
  {
    if w in Warnings(infos) {
      var i, j := PairPicksFrom(PairPick(infos), |infos|, |infos|, w);
      assert PairPick(infos)(i, j) == PairWarning(infos[i], infos[j]);
    }
    forall i: nat, j: nat | i < j < |infos| && PairWarning(infos[i], infos[j]) == Some(w)
      ensures w in Warnings(infos)
    {
      assert PairPick(infos)(i, j) == PairWarning(infos[i], infos[j]);
      PairPicksHas(PairPick(infos), |infos|, |infos|, i, j, w);
    }
  }

  // ---------------------------------------------------------------- gate

  datatype SsotFile = SsotFile(pages: Option<seq<SsotPage>>)
  datatype ScoresFile = ScoresFile(scores: Option<map<string, real>>)

  datatype Outcome =
    | MissingSsot
    | Report(indexable: nat, pillars: nat, failures: seq<Failure>, warnings: seq<Warning>)

  function ScoresOf(f: Option<ScoresFile>): map<string, real> {
    if f.Some? && f.value.scores.Some? then f.value.scores.value else map[]
  }

  function Failures(ix: seq<SsotPage>, scores: map<string, real>): seq<Failure> {
    MeceFailures(MeceViolations(ix)) + ReferenceFailures(Pillars(ix)) + UniqueFailures(ix, scores)
  }

  function Gate(ssot: Option<SsotFile>, scoresFile: Option<ScoresFile>): Outcome {
    if ssot.None? then MissingSsot
    else
      var ix := Indexable(ssot.value.pages.GetOr([]));
      Report(|ix|, |Pillars(ix)|, Failures(ix, ScoresOf(scoresFile)), Warnings(Infos(ix)))
  }

  /** Exit status 1 exactly when the SSOT is missing or some check failed; warnings never fail. */
  function ExitCode(o: Outcome): (code: nat)
    ensures code == 1 <==> o.MissingSsot? || o.failures != []
  {
    if o.MissingSsot? || o.failures != [] then 1 else 0
  }

  /** Some reference failure is reported exactly when an indexable pillar asks for fewer than 3. */
  lemma ReferencesFailIff(pages: seq<SsotPage>)
    ensures ReferenceFailures(Pillars(Indexable(pages))) != [] <==>
      exists p :: p in pages && p.robots == IndexFollow && p.isPillar && RefMin(p) < PillarReferencesMin
  {
    var ix := Indexable(pages);
    IndexableMembers(pages);
    PillarsMembers(ix);
    ReferenceFailuresSpec(Pillars(ix));
    var refs := ReferenceFailures(Pillars(ix));
    if exists p :: p in pages && p.robots == IndexFollow && p.isPillar && RefMin(p) < PillarReferencesMin {
      var p :| p in pages && p.robots == IndexFollow && p.isPillar && RefMin(p) < PillarReferencesMin;
      assert References(p.url, RefMin(p)) in refs;
    }
    if refs != [] {
      assert refs[0] in refs;
    }
  }

  /** Some unique-value failure is reported exactly when an indexable page scores below 50. */
  lemma UniqueFailIff(pages: seq<SsotPage>, scores: map<string, real>)
    ensures UniqueFailures(Indexable(pages), scores) != [] <==>
      exists p :: p in pages && p.robots == IndexFollow && Score(p, scores).Some?
                  && Score(p, scores).value < UniqueValueThreshold
  {
    var ix := Indexable(pages);
    IndexableMembers(pages);
    UniqueFailuresSpec(ix, scores);
    var uniq := UniqueFailures(ix, scores);
    if exists p :: p in pages && p.robots == IndexFollow && Score(p, scores).Some?
                   && Score(p, scores).value < UniqueValueThreshold {
      var p :| p in pages && p.robots == IndexFollow && Score(p, scores).Some?
               && Score(p, scores).value < UniqueValueThreshold;
      assert UniqueValue(p.url, Score(p, scores).value) in uniq;
    }
    if uniq != [] {
      assert uniq[0] in uniq;
    }
  }

  /**
   * With the SSOT present, the gate fails exactly when two indexable pages
   * share an intent, an indexable pillar asks for fewer than 3 references, or
   * an indexable page has a unique-value score below 50.
   */
  lemma GateFailsIff(pages: seq<SsotPage>, scoresFile: Option<ScoresFile>)
    ensures var ix := Indexable(pages);
      var scores := ScoresOf(scoresFile);
      ExitCode(Gate(Some(SsotFile(Some(pages))), scoresFile)) == 1 <==>
        SharedIntent(ix)
        || (exists p :: p in pages && p.robots == IndexFollow && p.isPillar && RefMin(p) < PillarReferencesMin)
        || (exists p :: p in pages && p.robots == IndexFollow && Score(p, scores).Some?
                        && Score(p, scores).value < UniqueValueThreshold)
  {
    MeceFailuresIff(Indexable(pages));
    ReferencesFailIff(pages);
    UniqueFailIff(pages, ScoresOf(scoresFile));
  }

  // -------------------------------------------------------------- methods

  /** The MECE loop filling `intentToUrls`. */
  method GroupByIntent(ix: seq<SsotPage>) returns (g: Grouping<string, string>)
    ensures g == GroupBy(IntentItems(ix))
  {
    g := Grouping([], map[]);
    for i := 0 to |ix|
      invariant g == GroupBy(IntentItems(ix[..i]))
    {
      assert ix[..i + 1][..i] == ix[..i];
      g := GroupStep(g, ix[i].intentId, ix[i].url);
    }
    assert ix[..|ix|] == ix;
  }

  /** The pillar loop. */
  method CheckReferences(pillars: seq<SsotPage>) returns (fs: seq<Failure>)
    ensures fs == ReferenceFailures(pillars)
  {
    fs := [];
    for i := 0 to |pillars|
      invariant fs == ReferenceFailures(pillars[..i])
    {
      var p := pillars[i];
      assert pillars[..i + 1][..i] == pillars[..i];
      var minReq := p.referencesMin.GetOr(0.0);
      if minReq < PillarReferencesMin {
        fs := fs + [References(p.url, minReq)];
      }
    }
    assert pillars[..|pillars|] == pillars;
  }

  /** The unique-value loop. */
  method CheckUniqueValue(ix: seq<SsotPage>, scores: map<string, real>) returns (fs: seq<Failure>)
    ensures fs == UniqueFailures(ix, scores)
  {
    fs := [];
    for i := 0 to |ix|
      invariant fs == UniqueFailures(ix[..i], scores)
    {
      var p := ix[i];
      assert ix[..i + 1][..i] == ix[..i];
      var score := Score(p, scores);
      if score.Some? && score.value < UniqueValueThreshold {
        fs := fs + [UniqueValue(p.url, score.value)];
      }
    }
    assert ix[..|ix|] == ix;
  }

  /** One pair of the title-overlap loops, with the Jaccard count of the similarity module. */
  method CheckPair(a: TitleInfo, b: TitleInfo) returns (w: Option<Warning>)
    ensures w == PairWarning(a, b)
  {
    if a.title == "" || b.title == "" {
      return None;
    }
    var ratio := Similarity.JaccardCount(a.tokens, b.tokens);
    w := if ratio >= TitleOverlapWarnRatio then Some(TitleOverlap(ratio, Head(a.title), Head(b.title))) else None;
  }

  /** The inner title-overlap loop for page `i`. */
  method WarnRow(infos: seq<TitleInfo>, i: nat) returns (ws: seq<Warning>)
    requires i < |infos|
    ensures ws == RowPicks(PairPick(infos), i, |infos|)
  {
    ws := [];
    for j := i + 1 to |infos|
      invariant ws == RowPicks(PairPick(infos), i, j)
    {
      var w := CheckPair(infos[i], infos[j]);
      assert PairPick(infos)(i, j) == w;
      ws := ws + Somes(w);
    }
  }

  method WarnAll(infos: seq<TitleInfo>) returns (ws: seq<Warning>)
    ensures ws == Warnings(infos)
  {
    ws := [];
    for i := 0 to |infos|
      invariant ws == PairPicks(PairPick(infos), i, |infos|)
    {
      var row := WarnRow(infos, i);
      ws := ws + row;
    }
  }

  /** `main`: the gate's outcome. */
  method Run(ssot: Option<SsotFile>, scoresFile: Option<ScoresFile>) returns (o: Outcome)
    ensures o == Gate(ssot, scoresFile)
  {
    if ssot.None? {
      return MissingSsot;
    }
    var ix := Indexable(ssot.value.pages.GetOr([]));
    var pillars := Pillars(ix);
    var g := GroupByIntent(ix);
    var vs := MeceGate.CollectViolations(g);
    var refs := CheckReferences(pillars);
    var uniq := CheckUniqueValue(ix, ScoresOf(scoresFile));
    var ws := WarnAll(Infos(ix));
    o := Report(|ix|, |pillars|, MeceFailures(vs) + refs + uniq, ws);
  }
}
