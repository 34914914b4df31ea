/**
 * The URL export of the published articles: one row of 24 fields per
 * article directory, in sorted directory order, written as JSON and as
 * CSV. The directory listing, each page's HTML together with the values
 * the extraction patterns find in it, and the page records arrive as
 * values; the file reads and writes and the clock are left out.
 */
module ExportSsot {
  import opened Wrappers
  import opened Strings
  import Seqs

  // ---------------------------------------------------------------------
  // escapeCsv (section 2 of RFC 4180, rules 6 and 7)
  // ---------------------------------------------------------------------

  /** The characters that force a field into quotes. */
  predicate Special(c: char) {
    c == ',' || c == '"' || c == '\n' || c == '\r'
  }

  /** `/[,"\n\r]/.test(t)`. */
  predicate NeedsQuotes(t: string) {
    exists i :: 0 <= i < |t| && Special(t[i])
  }

  /** `t.replace(/"/g, '""')`. */
  function DoubleQuotes(t: string): (r: string)
    ensures |r| >= |t|
  {
    if t == [] then []
    else (if t[0] == '"' then "\"\"" else [t[0]]) + DoubleQuotes(t[1..])
  }

  /** A field is quoted, with its quotes doubled, exactly when it holds a special character. */
  function EscapeCsv(t: string): (r: string)
    ensures NeedsQuotes(t) ==> |r| >= |t| + 2 && r[0] == '"' && r[|r| - 1] == '"'
    ensures !NeedsQuotes(t) ==> r == t && (r == [] || r[0] != '"')
  {
    if NeedsQuotes(t) then "\"" + DoubleQuotes(t) + "\"" else t
  }

  /** `fields.map(escapeCsv)`. */
  function EscapeAll(fields: seq<string>): (r: seq<string>)
    ensures |r| == |fields|
  {
    if fields == [] then [] else [EscapeCsv(fields[0])] + EscapeAll(fields[1..])
  }

  /** One CSV line: the escaped fields joined by commas. */
  function RowText(fields: seq<string>): string {
    Join(EscapeAll(fields), ",")
  }

  /** Every line of a file, in order. */
  function RowTexts(records: seq<seq<string>>): (r: seq<string>)
    ensures |r| == |records|
  {
    if records == [] then [] else [RowText(records[0])] + RowTexts(records[1..])
  }

  // A reader for the format the writer produces: the reference against
  // which the escaping is proved.

  /** An unquoted field: everything up to the next comma or line feed. */
  function ScanPlain(s: string): (r: (string, string))
    ensures |r.1| <= |s|
  {
    if s == [] || s[0] == ',' || s[0] == '\n' then ([], s)
    else
      var rest := ScanPlain(s[1..]);
      ([s[0]] + rest.0, rest.1)
  }

  /** The inside of a quoted field after its opening quote: a doubled quote is one quote, a single one closes. */
  function ScanQuoted(s: string): (r: (string, string))
    ensures |r.1| <= |s|
  {
    if s == [] then ([], [])
    else if s[0] == '"' then
      if |s| >= 2 && s[1] == '"' then
        var rest := ScanQuoted(s[2..]);
        (['"'] + rest.0, rest.1)
      else ([], s[1..])
    else
      var rest := ScanQuoted(s[1..]);
      ([s[0]] + rest.0, rest.1)
  }

  /** One field and what follows it. */
  function ParseField(s: string): (r: (string, string))
    ensures |r.1| <= |s|
  {
    if s != [] && s[0] == '"' then ScanQuoted(s[1..]) else ScanPlain(s)
  }

  /** The fields of one record, up to a line feed or the end. */
  function ParseRecord(s: string): (r: (seq<string>, string))
    ensures |r.1| <= |s|
    decreases |s|
  {
    var f := ParseField(s);
    if f.1 != [] && f.1[0] == ',' then
      var rest := ParseRecord(f.1[1..]);
      ([f.0] + rest.0, rest.1)
    else ([f.0], f.1)
  }

  /** Every record of a file. */
  function ParseCsv(s: string): seq<seq<string>>
    decreases |s|
  {
    var r := ParseRecord(s);
    if r.1 != [] && r.1[0] == '\n' then [r.0] + ParseCsv(r.1[1..]) else [r.0]
  }

  /** An unquoted field is read back up to its separator. */
  lemma {:induction false} PlainRoundTrip(f: string, t: string)
    requires !NeedsQuotes(f)
    requires t == [] || t[0] == ',' || t[0] == '\n'
    ensures ScanPlain(f + t) == (f, t)
  {
    if f != [] {
      assert !Special(f[0]);
      assert !NeedsQuotes(f[1..]) by {
        forall i | 0 <= i < |f[1..]| ensures !Special(f[1..][i]) {
          assert f[1..][i] == f[i + 1];
        }
      }
      PlainRoundTrip(f[1..], t);
      assert (f + t)[0] == f[0] && (f + t)[1..] == f[1..] + t;
      assert [f[0]] + f[1..] == f;
    } else {
      assert f + t == t;
    }
  }

  /** A quoted field is read back up to its closing quote. */
  lemma {:induction false} QuotedRoundTrip(f: string, t: string)
    requires t == [] || t[0] != '"'
    ensures ScanQuoted(DoubleQuotes(f) + "\"" + t) == (f, t)
  {
    var s := DoubleQuotes(f) + "\"" + t;
    if f == [] {
      assert s == "\"" + t;
      assert s[1..] == t;
    } else if f[0] == '"' {
      QuotedRoundTrip(f[1..], t);
      assert s == "\"\"" + (DoubleQuotes(f[1..]) + "\"" + t);
      assert s[2..] == DoubleQuotes(f[1..]) + "\"" + t;
      assert ['"'] + f[1..] == f;
    } else {
      QuotedRoundTrip(f[1..], t);
      assert s == [f[0]] + (DoubleQuotes(f[1..]) + "\"" + t);
      assert s[0] == f[0] && s[1..] == DoubleQuotes(f[1..]) + "\"" + t;
      assert [f[0]] + f[1..] == f;
    }
  }

  /** Any escaped field is read back as itself, whatever separator follows. */
  lemma FieldRoundTrip(f: string, t: string)
    requires t == [] || t[0] == ',' || t[0] == '\n'
    ensures ParseField(EscapeCsv(f) + t) == (f, t)
  {
    if NeedsQuotes(f) {
      var q := DoubleQuotes(f) + "\"" + t;
      assert EscapeCsv(f) + t == ['"'] + q;
      QuotedRoundTrip(f, t);
    } else {
      assert EscapeCsv(f) == f;
      assert f + t == [] || (f + t)[0] != '"' by {
        if f != [] {
          assert (f + t)[0] == f[0];
        } else {
          assert f + t == t;
        }
      }
      PlainRoundTrip(f, t);
    }
  }

  /** A written line is read back as its fields. */
  lemma {:induction false} RecordRoundTrip(fields: seq<string>, t: string)
    requires fields != []
    requires t == [] || t[0] == '\n'
    ensures ParseRecord(RowText(fields) + t) == (fields, t)
  {
    var es := EscapeAll(fields);
    if |fields| == 1 {
      assert fields == [fields[0]] && fields[1..] == [];
      assert EscapeAll(fields) == [EscapeCsv(fields[0])];
      assert RowText(fields) == EscapeCsv(fields[0]);
      FieldRoundTrip(fields[0], t);
    } else {
      var tail := RowText(fields[1..]) + t;
      assert EscapeAll(fields)[1..] == EscapeAll(fields[1..]);
      assert RowText(fields) == EscapeCsv(fields[0]) + "," + RowText(fields[1..]);
      assert RowText(fields) + t == EscapeCsv(fields[0]) + ("," + tail);
      FieldRoundTrip(fields[0], "," + tail);
      assert ("," + tail)[1..] == tail;
      RecordRoundTrip(fields[1..], t);
      assert fields == [fields[0]] + fields[1..];
    }
  }

  /**
   * Section 2 of RFC 4180 read back: a file written as lines of escaped
   * fields joined by line feeds is read as exactly those records, whatever
   * commas, quotes and line breaks the fields hold.
   */
  lemma {:induction false} CsvRoundTrip(records: seq<seq<string>>)
    requires records != []
    requires forall i :: 0 <= i < |records| ==> records[i] != []
    ensures ParseCsv(Join(RowTexts(records), "\n")) == records
  {
    if |records| == 1 {
      assert Join(RowTexts(records), "\n") == RowText(records[0]) + [];
      RecordRoundTrip(records[0], []);
    } else {
      JoinRows(records);
      ParseCsvCons(records[0], Join(RowTexts(records[1..]), "\n"));
      CsvRoundTrip(records[1..]);
      assert records == [records[0]] + records[1..];
    }
  }

  /** The file is the first line, a line feed, then the other lines joined. */
  lemma JoinRows(records: seq<seq<string>>)
    requires |records| >= 2
    ensures Join(RowTexts(records), "\n") == RowText(records[0]) + ("\n" + Join(RowTexts(records[1..]), "\n"))
  {
    JoinCons(RowTexts(records), "\n");
    assert RowTexts(records)[1..] == RowTexts(records[1..]);
  }

  /** A written line followed by a line feed is read as one record, then the rest of the file. */
  lemma ParseCsvCons(fields: seq<string>, rest: string)
    requires fields != []
    ensures ParseCsv(RowText(fields) + ("\n" + rest)) == [fields] + ParseCsv(rest)
  {
    RecordRoundTrip(fields, "\n" + rest);
    assert ("\n" + rest)[1..] == rest;
  }

  // ---------------------------------------------------------------------
  // wordCountJapanese
  // ---------------------------------------------------------------------

  /** CJK symbols, kana, the unified ideographs up to U+9FAF, and the half- and fullwidth forms. */
  predicate CjkOrFullwidth(c: char) {
    ('\U{3000}' <= c <= '\U{303F}') || ('\U{3040}' <= c <= '\U{309F}') || ('\U{30A0}' <= c <= '\U{30FF}')
    || ('\U{4E00}' <= c <= '\U{9FAF}') || ('\U{FF00}' <= c <= '\U{FFEF}')
  }

  predicate AsciiAlnum(c: char) {
    ('a' <= c <= 'z') || ('A' <= c <= 'Z') || ('0' <= c <= '9')
  }

  /** A code point the count includes. */
  predicate Counted(c: char) {
    CjkOrFullwidth(c) || AsciiAlnum(c)
  }

  predicate NotSpace(c: char) {
    !IsSpace(c)
  }

  /** The counted code points of the text once its whitespace is removed. */
  function WordCount(text: string): nat {
    |Seqs.Filter(Counted, Seqs.Filter(NotSpace, text))|
  }

  /** `wordCountJapanese`: whitespace removed, then a counter over the code points. */
  method WordCountJapanese(text: string) returns (n: nat)
    ensures n == WordCount(text)
  {
    if text == "" {
      return 0;
    }
    var normalized := Seqs.Filter(NotSpace, text);
    n := 0;
    for i := 0 to |normalized|
      invariant n == |Seqs.Filter(Counted, normalized[..i])|
    {
      var c := normalized[i];
      Seqs.FilterSnoc(Counted, normalized, i);
      if CjkOrFullwidth(c) {
        n := n + 1;
      } else if AsciiAlnum(c) {
        n := n + 1;
      }
    }
    assert normalized[..|normalized|] == normalized;
  }

  /** The count is 0 for empty text and never exceeds the number of code points. */
  lemma WordCountBound(text: string)
    ensures text == "" ==> WordCount(text) == 0
    ensures WordCount(text) <= |text|
  {
    Seqs.FilterLength(NotSpace, text);
    Seqs.FilterLength(Counted, Seqs.Filter(NotSpace, text));
  }

  /**
   * One more code point adds one exactly when it is counted and is not
   * whitespace: the ideographic space U+3000 lies in the counted range but
   * is removed first.
   */
  lemma WordCountSnoc(text: string, c: char)
    ensures WordCount(text + [c]) == WordCount(text) + (if Counted(c) && !IsSpace(c) then 1 else 0)
  {
    var s := text + [c];
    assert s[..|text|] == text;
    Seqs.FilterSnoc(NotSpace, s, |text|);
    assert s[..|text| + 1] == s;
    Seqs.FlatMapAppend(Seqs.Keep(Counted), Seqs.Filter(NotSpace, text), if NotSpace(c) then [c] else []);
    if NotSpace(c) {
      assert Seqs.Filter(Counted, [c]) == Seqs.Filter(Counted, [][..0]) + (if Counted(c) then [c] else []);
    }
  }

  // ---------------------------------------------------------------------
  // countInternalPseoLinks
  // ---------------------------------------------------------------------

  const PseoDir := "/ja/resources/pseo/"
  const Http := "http://"
  const Https := "https://"

  /** An `href` value matched by the relative pattern (letters compared without case). */
  predicate IsPathHref(v: string) {
    |v| > |PseoDir| && StartsWith(Lower(v), PseoDir)
  }

  /** Where the host part of an absolute URL starts, 0 when there is no http or https scheme. */
  function SchemeEnd(lv: string): nat {
    if StartsWith(lv, Http) then |Http| else if StartsWith(lv, Https) then |Https| else 0
  }

  /** An `href` value matched by the absolute pattern: a scheme, then the directory later, then at least one character. */
  predicate IsFullHref(v: string) {
    var lv := Lower(v);
    SchemeEnd(lv) > 0 && exists i :: SchemeEnd(lv) <= i && i + |PseoDir| < |v| && MatchAt(lv, PseoDir, i)
  }

  predicate IsPseoHref(v: string) {
    IsFullHref(v) || IsPathHref(v)
  }

  /** The distinct link targets, one trailing slash removed. */
  function Targets(hrefs: seq<string>): set<string> {
    set v | v in hrefs && IsPseoHref(v) :: DropTrailingSlash(v)
  }

  function Image(vs: seq<string>): set<string> {
    set v | v in vs :: DropTrailingSlash(v)
  }

  /**
   * `countInternalPseoLinks`: the absolute matches, then the relative ones,
   * go into a set. The `href` attribute values of the page arrive in
   * document order.
   */
  method CountInternalPseoLinks(hrefs: seq<string>) returns (n: nat)
    ensures n == |Targets(hrefs)|
  {
    var full := Seqs.Filter(IsFullHref, hrefs);
    var path := Seqs.Filter(IsPathHref, hrefs);
    var seen := AddTargets({}, full);
    seen := AddTargets(seen, path);
    TargetsSplit(hrefs);
    n := |seen|;
  }

  /** One pass over a pattern's matches: each target goes into the set. */
  method AddTargets(seen0: set<string>, vs: seq<string>) returns (seen: set<string>)
    ensures seen == seen0 + Image(vs)
  {
    seen := seen0;
    for i := 0 to |vs|
      invariant seen == seen0 + Image(vs[..i])
    {
      ImageSnoc(vs, i);
      seen := seen + {DropTrailingSlash(vs[i])};
    }
    assert vs[..|vs|] == vs;
  }

  lemma ImageSnoc(vs: seq<string>, i: nat)
    requires i < |vs|
    ensures Image(vs[..i + 1]) == Image(vs[..i]) + {DropTrailingSlash(vs[i])}
  {
    assert vs[..i + 1] == vs[..i] + [vs[i]];
  }

  /** The two passes together give every target. */
  lemma TargetsSplit(hrefs: seq<string>)
    ensures Targets(hrefs) == Image(Seqs.Filter(IsFullHref, hrefs)) + Image(Seqs.Filter(IsPathHref, hrefs))
  {
    forall v ensures v in Seqs.Filter(IsFullHref, hrefs) <==> v in hrefs && IsFullHref(v) {
      Seqs.FilterMember(IsFullHref, hrefs, v);
    }
    forall v ensures v in Seqs.Filter(IsPathHref, hrefs) <==> v in hrefs && IsPathHref(v) {
      Seqs.FilterMember(IsPathHref, hrefs, v);
    }
  }

  /** There are never more targets than `href` values. */
  lemma {:induction false} TargetsBound(hrefs: seq<string>)
    ensures |Targets(hrefs)| <= |hrefs|
  {
    if hrefs != [] {
      var n := |hrefs| - 1;
      TargetsBound(hrefs[..n]);
      TargetsSnoc(hrefs, n);
      assert hrefs[..n + 1] == hrefs;
    }
  }

  /** One more `href` value adds at most its own target. */
  lemma TargetsSnoc(hrefs: seq<string>, n: nat)
    requires n < |hrefs|
    ensures Targets(hrefs[..n + 1]) == Targets(hrefs[..n]) + (if IsPseoHref(hrefs[n]) then {DropTrailingSlash(hrefs[n])} else {})
  {
    assert hrefs[..n + 1] == hrefs[..n] + [hrefs[n]];
  }

  /** A link with and without its trailing slash is one target. */
  lemma TargetsSlash(hrefs: seq<string>, u: string)
    requires u in hrefs && IsPseoHref(u) && !EndsWith(u, "/")
    ensures Targets(hrefs + [u + "/"]) == Targets(hrefs)
  {
    assert DropTrailingSlash(u + "/") == u;
    assert DropTrailingSlash(u) == u;
  }

  /** An absolute link and a relative one are never the same target. */
  lemma AbsoluteNotRelative(a: string, b: string)
    requires IsFullHref(a) && IsPathHref(b)
    ensures DropTrailingSlash(a) != DropTrailingSlash(b)
  {
    assert Lower(a)[0] == 'h';
    assert Lower(b)[0] == '/';
    assert DropTrailingSlash(a)[0] == a[0];
    assert DropTrailingSlash(b)[0] == b[0];
  }

  // ---------------------------------------------------------------------
  // clusterGuessFromSlug
  // ---------------------------------------------------------------------

  /** The clusters the slug rules name. */
  datatype Cluster = EvidencePack | ProofVsAssurance | IntakeReviewApprove | InventoryReview | CoverageMap | MinimumEvidence
  {
    function Name(): string {
      match this
      case EvidencePack => "evidence-pack"
      case ProofVsAssurance => "proof-vs-assurance"
      case IntakeReviewApprove => "intake-review-approve"
      case InventoryReview => "inventory-review"
      case CoverageMap => "coverage-map"
      case MinimumEvidence => "minimum-evidence"
    }
  }

  const EvidencePackWord := "evidence-pack"
  const ProofAssuranceWord := "proof-assurance"
  const ProofWords: seq<string> := ["proof-assurance", "responsibility-boundary"]
  const IntakeWords: seq<string> := ["intake", "request-review", "operating-workflow", "raci", "renewal"]
  const InventoryWords: seq<string> := ["inventory", "continuous-audit", "review-cycle"]
  const CoverageWords: seq<string> := ["coverage-map", "iso42001", "nist", "eu-ai"]
  const MinimumWords: seq<string> := ["minimum-evidence", "shadow-ai"]

  /** The six rules in the order they are tried, each with its cluster. */
  const RuleClusters: seq<Cluster> := [EvidencePack, ProofVsAssurance, IntakeReviewApprove, InventoryReview, CoverageMap, MinimumEvidence]

  /** Which of the six rules the slug matches, in rule order. */
  function RuleHits(slug: string): (r: seq<bool>)
    ensures |r| == |RuleClusters|
  {
    [Contains(slug, EvidencePackWord) && !Contains(slug, ProofAssuranceWord),
     ContainsAny(slug, ProofWords),
     ContainsAny(slug, IntakeWords),
     ContainsAny(slug, InventoryWords),
     ContainsAny(slug, CoverageWords),
     ContainsAny(slug, MinimumWords)]
  }

  /** The value of the first hit, if any. */
  function FirstHit<T>(hits: seq<bool>, vals: seq<T>): Option<T>
    requires |hits| == |vals|
  {
    if hits == [] then None
    else if hits[0] then Some(vals[0])
    else FirstHit(hits[1..], vals[1..])
  }

  /** The first hit decides; there is a value exactly when something hits. */
  lemma {:induction false} FirstHitSpec<T>(hits: seq<bool>, vals: seq<T>, k: nat)
    requires |hits| == |vals|
    ensures k < |hits| && hits[k] && (forall j :: 0 <= j < k ==> !hits[j]) ==> FirstHit(hits, vals) == Some(vals[k])
    ensures FirstHit(hits, vals).None? <==> forall j :: 0 <= j < |hits| ==> !hits[j]
  {
    if hits != [] && !hits[0] {
      FirstHitSpec(hits[1..], vals[1..], if k > 0 then k - 1 else 0);
      assert forall j :: 0 < j < |hits| ==> hits[1..][j - 1] == hits[j];
    }
  }

  /** The guess: a rule's cluster, else the first topic, else none ("other"). */
  datatype Guess = ByRule(cluster: Cluster) | ByTopic(topic: string) | NoGuess
  {
    function Text(): string {
      match this
      case ByRule(c) => c.Name()
      case ByTopic(t) => t
      case NoGuess => "other"
    }
  }

  /** `clusterGuessFromSlug`. */
  function ClusterGuess(slug: string, topic: Option<seq<string>>): Guess {
    match FirstHit(RuleHits(slug), RuleClusters)
    case Some(c) => ByRule(c)
    case None =>
      if topic.Some? && |topic.value| > 0 then ByTopic(topic.value[0]) else NoGuess
  }

  /**
   * The first rule the slug matches decides; only when none matches does
   * the first topic count, and only without topics is the guess "other".
   */
  lemma ClusterGuessSpec(slug: string, topic: Option<seq<string>>, k: nat)
    ensures k < |RuleClusters| && RuleHits(slug)[k] && (forall j :: 0 <= j < k ==> !RuleHits(slug)[j]) ==>
      ClusterGuess(slug, topic) == ByRule(RuleClusters[k])
    ensures ClusterGuess(slug, topic).ByRule? <==> exists j :: 0 <= j < |RuleClusters| && RuleHits(slug)[j]
    ensures ClusterGuess(slug, topic).ByTopic? <==>
      (forall j :: 0 <= j < |RuleClusters| ==> !RuleHits(slug)[j]) && topic.Some? && |topic.value| > 0
    ensures ClusterGuess(slug, topic).ByTopic? ==> ClusterGuess(slug, topic).topic == topic.value[0]
  {
    FirstHitSpec(RuleHits(slug), RuleClusters, k);
  }

  /** A slug holding "evidence-pack" and also "proof-assurance" falls to the second rule. */
  lemma EvidencePackYields(slug: string, topic: Option<seq<string>>)
    requires Contains(slug, EvidencePackWord) && Contains(slug, ProofAssuranceWord)
    ensures ClusterGuess(slug, topic) == ByRule(ProofVsAssurance)
  {
    assert ProofAssuranceWord in ProofWords;
    FirstHitSpec(RuleHits(slug), RuleClusters, 1);
  }

  // ---------------------------------------------------------------------
  // The rows of `run`
  // ---------------------------------------------------------------------

  const BaseUrl := "https://aimoaas.com"
  const NoindexFollow := "noindex,follow"
  const DefaultLang := "ja"
  const TemplateId := "pseo-article"

  /** A record of the page list, keyed by its final slug. */
  datatype PseoRecord = PseoRecord(id: string, topic: Option<seq<string>>, legacyUrl: Option<string>)

  /**
   * What the extraction patterns find in a page's HTML, "" where a pattern
   * does not match: the title, the title without its site suffix, the
   * heading, the description, canonical, robots and language, the prose of
   * the article body, the `href` values in document order, the JSON-LD
   * flags, the outbound citation count and the two asset flags.
   */
  datatype Extracted = Extracted(
    title: string, metaTitle: string, h1: string, metaDescription: string,
    canonical: string, robots: string, lang: string, prose: string, hrefs: seq<string>,
    hasAuthor: bool, hasDatePublished: bool, hasDateModified: bool,
    outboundCitations: nat, hasUniqueDiagram: bool, hasDownloadableAsset: bool)

  /** An article directory's `index.html`: its text and what is extracted from it. */
  datatype Page = Page(html: string, ex: Extracted)

  /** `SsotRow`, field for field. */
  datatype SsotRow = SsotRow(
    url: string, slug: string, title: string, h1: string, metaTitle: string, metaDescription: string,
    canonical: string, robots: string, lang: string, hreflangTargets: string, wordCount: nat,
    templateId: string, clusterGuess: string, lastModified: string,
    hasAuthor: bool, hasDatePublished: bool, hasDateModified: bool, outboundCitationsCount: nat,
    hasUniqueDiagram: bool, hasDownloadableAsset: bool, internalLinksOut: nat, internalLinksIn: nat,
    id: string, legacyUrl: string)

  /** JavaScript's `a || b` on strings. */
  function Or(a: string, b: string): string {
    if a != "" then a else b
  }

  function PageUrl(slug: string): string {
    BaseUrl + PseoDir + slug + "/"
  }

  function RecordFor(bySlug: map<string, PseoRecord>, slug: string): Option<PseoRecord> {
    if slug in bySlug then Some(bySlug[slug]) else None
  }

  /** The object pushed for a page, given its two counts; the inbound count starts at 0. */
  function NewRow(slug: string, p: Page, record: Option<PseoRecord>, wc: nat, internalOut: nat): SsotRow {
    var ex := p.ex;
    var url := PageUrl(slug);
    SsotRow(url, slug,
      Or(ex.metaTitle, Or(ex.h1, slug)),
      Or(ex.h1, Or(ex.metaTitle, slug)),
      Or(ex.metaTitle, ex.title),
      ex.metaDescription,
      Or(ex.canonical, url),
      Or(ex.robots, NoindexFollow),
      Or(ex.lang, DefaultLang),
      "", wc, TemplateId,
      ClusterGuess(slug, if record.Some? then record.value.topic else None).Text(),
      "",
      ex.hasAuthor, ex.hasDatePublished, ex.hasDateModified, ex.outboundCitations,
      ex.hasUniqueDiagram, ex.hasDownloadableAsset, internalOut, 0,
      if record.Some? then record.value.id else slug,
      if record.Some? && record.value.legacyUrl.Some? then record.value.legacyUrl.value else "")
  }

  function RowOf(slug: string, p: Page, record: Option<PseoRecord>): SsotRow {
    NewRow(slug, p, record, WordCount(p.ex.prose), |Targets(p.ex.hrefs)|)
  }

  /**
   * The row defaults: a value found in the page is kept; a missing title or
   * heading falls back on the other and then on the slug; a missing
   * canonical is the page's own URL, missing robots are "noindex,follow",
   * a missing language is "ja"; without a record the id is the slug and
   * there is no legacy URL. The counts are bounded by what they count.
   */
  lemma RowOfSpec(slug: string, p: Page, record: Option<PseoRecord>)
    ensures RowOf(slug, p, record).url == PageUrl(slug) && RowOf(slug, p, record).slug == slug
    ensures slug != "" ==> RowOf(slug, p, record).title != "" && RowOf(slug, p, record).h1 != ""
    ensures RowOf(slug, p, record).title in {p.ex.metaTitle, p.ex.h1, slug}
    ensures p.ex.metaTitle != "" ==> RowOf(slug, p, record).title == p.ex.metaTitle
    ensures p.ex.h1 != "" ==> RowOf(slug, p, record).h1 == p.ex.h1
    ensures p.ex.canonical == "" ==> RowOf(slug, p, record).canonical == PageUrl(slug)
    ensures p.ex.canonical != "" ==> RowOf(slug, p, record).canonical == p.ex.canonical
    ensures RowOf(slug, p, record).robots != "" && (p.ex.robots == "" ==> RowOf(slug, p, record).robots == NoindexFollow)
    ensures RowOf(slug, p, record).lang != ""
    ensures record.None? ==> RowOf(slug, p, record).id == slug && RowOf(slug, p, record).legacyUrl == ""
    ensures RowOf(slug, p, record).wordCount <= |p.ex.prose|
    ensures RowOf(slug, p, record).internalLinksOut <= |p.ex.hrefs|
    ensures RowOf(slug, p, record).internalLinksIn == 0
  {
    WordCountBound(p.ex.prose);
    TargetsBound(p.ex.hrefs);
  }

  // ---------------------------------------------------------------------
  // internal_links_in
  // ---------------------------------------------------------------------

  /** Another page links here when its HTML holds the URL without or with its trailing slash. */
  function LinksHere(slug: string, url: string): ((string, string)) -> bool {
    (o: (string, string)) => o.0 != slug && (Contains(o.1, DropTrailingSlash(url)) || Contains(o.1, url))
  }

  /** The number of other pages that link here. */
  function Inbound(all: seq<(string, string)>, slug: string, url: string): nat {
    |Seqs.Filter(LinksHere(slug, url), all)|
  }

  /** The inner loop of the inbound count. */
  method CountInbound(all: seq<(string, string)>, slug: string, url: string) returns (count: nat)
    ensures count == Inbound(all, slug, url)
  {
    var base := DropTrailingSlash(url);
    count := 0;
    for i := 0 to |all|
      invariant count == |Seqs.Filter(LinksHere(slug, url), all[..i])|
    {
      Seqs.FilterSnoc(LinksHere(slug, url), all, i);
      var other := all[i];
      if other.0 == slug {
        continue;
      }
      if Contains(other.1, base) || Contains(other.1, url) {
        count := count + 1;
      }
    }
    assert all[..|all|] == all;
  }

  /** Filtering out an element that fails shortens the sequence. */
  lemma {:induction false} FilterDrops<T>(f: T -> bool, s: seq<T>, i: nat)
    requires i < |s| && !f(s[i])
    ensures |Seqs.Filter(f, s)| < |s|
  {
    var n := |s| - 1;
    Seqs.FilterSnoc(f, s, n);
    assert s[..n + 1] == s;
    if i == n {
      Seqs.FilterLength(f, s[..n]);
    } else {
      FilterDrops(f, s[..n], i);
    }
  }

  /** Filters agree when their tests agree on every element. */
  lemma {:induction false} FilterSame<T>(f: T -> bool, g: T -> bool, s: seq<T>)
    requires forall i :: 0 <= i < |s| ==> f(s[i]) == g(s[i])
    ensures Seqs.Filter(f, s) == Seqs.Filter(g, s)
  {
    if s != [] {
      var n := |s| - 1;
      FilterSame(f, g, s[..n]);
      Seqs.FilterSnoc(f, s, n);
      Seqs.FilterSnoc(g, s, n);
      assert s[..n + 1] == s;
    }
  }

  /** Another page holds the URL without its slash. */
  function HoldsBase(slug: string, url: string): ((string, string)) -> bool {
    (o: (string, string)) => o.0 != slug && Contains(o.1, DropTrailingSlash(url))
  }

  /**
   * A page never counts itself, so the count is at most the number of
   * other pages; and since the URL with its slash holds the URL without
   * it, the count is that of the other pages holding the URL without the
   * slash.
   */
  lemma InboundSpec(all: seq<(string, string)>, slug: string, i: nat)
    requires i < |all| && all[i].0 == slug
    ensures Inbound(all, slug, PageUrl(slug)) <= |all| - 1
    ensures Inbound(all, slug, PageUrl(slug)) == |Seqs.Filter(HoldsBase(slug, PageUrl(slug)), all)|
  {
    var url := PageUrl(slug);
    FilterDrops(LinksHere(slug, url), all, i);
    var base := DropTrailingSlash(url);
    assert base + "/" == url;
    assert MatchAt(url, base, 0);
    forall j | 0 <= j < |all| ensures LinksHere(slug, url)(all[j]) == HoldsBase(slug, url)(all[j]) {
      if Contains(all[j].1, url) {
        ContainsTrans(all[j].1, url, base);
      }
    }
    FilterSame(LinksHere(slug, url), HoldsBase(slug, url), all);
  }

  // ---------------------------------------------------------------------
  // run
  // ---------------------------------------------------------------------

  /** `dirs.sort()`; every sorted name is a directory name. */
  function SortedDirs(dirs: seq<string>): (r: seq<string>)
    ensures |r| == |dirs| && multiset(r) == multiset(dirs)
    ensures Seqs.SortedStrings(r)
    ensures forall i :: 0 <= i < |r| ==> r[i] in dirs
  {
    var r := Seqs.SortStrings(dirs);
    assert forall i :: 0 <= i < |r| ==> r[i] in multiset(r);
    r
  }

  /** `allHtml`: slug and HTML of every page, in sorted order. */
  function Htmls(sorted: seq<string>, read: string -> Page): (r: seq<(string, string)>)
    ensures |r| == |sorted|
    ensures forall i :: 0 <= i < |r| ==> r[i] == (sorted[i], read(sorted[i]).html)
  {
    if sorted == [] then []
    else
      var n := |sorted| - 1;
      Htmls(sorted[..n], read) + [(sorted[n], read(sorted[n]).html)]
  }

  /** The row built for one directory, before its inbound count. */
  function RowFor(read: string -> Page, bySlug: map<string, PseoRecord>): string -> SsotRow {
    slug => RowOf(slug, read(slug), RecordFor(bySlug, slug))
  }

  /** A pushed row with its inbound count filled in. */
  function WithInbound(r: SsotRow, all: seq<(string, string)>): SsotRow {
    r.(internalLinksIn := Inbound(all, r.slug, r.url))
  }

  /** The rows `run` exports. */
  function Rows(dirs: seq<string>, read: string -> Page, bySlug: map<string, PseoRecord>): (r: seq<SsotRow>)
    ensures |r| == |dirs|
  {
    var sorted := SortedDirs(dirs);
    var pushed := Seqs.MapSnoc(RowFor(read, bySlug), sorted);
    var all := Htmls(sorted, read);
    seq(|pushed|, i requires 0 <= i < |pushed| => WithInbound(pushed[i], all))
  }

  /**
   * `run`: a missing article root exits with status 1; otherwise the pages
   * are read in sorted order, a row is pushed for each, the inbound counts
   * are collected per slug and written into the rows in place.
   */
  method Run(rootExists: bool, dirs: seq<string>, read: string -> Page, bySlug: map<string, PseoRecord>)
    returns (r: Result<seq<SsotRow>, int>)
    ensures !rootExists ==> r == Failure(1)
    ensures rootExists ==> r == Success(Rows(dirs, read, bySlug))
  {
    if !rootExists {
      return Failure(1);
    }
    var sorted := SortedDirs(dirs);
    var allHtml := ReadAll(sorted, read);
    var rows := PushRows(allHtml, read, bySlug);
    PushedSlugs(sorted, read, bySlug);
    var inboundMap := CollectInbound(rows, allHtml);
    rows := FillInbound(rows, inboundMap, allHtml);
    assert rows == Rows(dirs, read, bySlug);
    return Success(rows);
  }

  /** The loop that reads every page into `allHtml`. */
  method ReadAll(sorted: seq<string>, read: string -> Page) returns (allHtml: seq<(string, string)>)
    ensures allHtml == Htmls(sorted, read)
  {
    allHtml := [];
    for i := 0 to |sorted|
      invariant allHtml == Htmls(sorted[..i], read)
    {
      assert sorted[..i + 1][..i] == sorted[..i];
      allHtml := allHtml + [(sorted[i], read(sorted[i]).html)];
    }
    assert sorted[..|sorted|] == sorted;
  }

  /** The loop over `allHtml` that pushes each page's row. */
  method PushRows(allHtml: seq<(string, string)>, read: string -> Page, bySlug: map<string, PseoRecord>)
    returns (rows: seq<SsotRow>)
    ensures rows == Seqs.MapSnoc(RowFor(read, bySlug), Slugs(allHtml))
  {
    rows := [];
    for i := 0 to |allHtml|
      invariant rows == Seqs.MapSnoc(RowFor(read, bySlug), Slugs(allHtml[..i]))
    {
      var slug := allHtml[i].0;
      var row := BuildRow(slug, read(slug), RecordFor(bySlug, slug));
      assert allHtml[..i + 1][..i] == allHtml[..i];
      assert Slugs(allHtml[..i + 1]) == Slugs(allHtml[..i]) + [slug];
      Seqs.MapSnocStep(RowFor(read, bySlug), Slugs(allHtml[..i + 1]), i);
      rows := rows + [row];
    }
    assert allHtml[..|allHtml|] == allHtml;
  }

  /** The slugs of `allHtml`, in order. */
  function Slugs(all: seq<(string, string)>): (r: seq<string>)
    ensures |r| == |all|
    ensures forall i :: 0 <= i < |r| ==> r[i] == all[i].0
  {
    if all == [] then [] else Slugs(all[..|all| - 1]) + [all[|all| - 1].0]
  }

  /** One page's row: its prose counted, its links counted, the defaults applied. */
  method BuildRow(slug: string, page: Page, record: Option<PseoRecord>) returns (row: SsotRow)
    ensures row == RowOf(slug, page, record)
  {
    var wc := WordCountJapanese(page.ex.prose);
    var internalOut := CountInternalPseoLinks(page.ex.hrefs);
    row := NewRow(slug, page, record, wc, internalOut);
  }

  /** A row carries the slug and URL it was built for. */
  lemma RowForKeys(read: string -> Page, bySlug: map<string, PseoRecord>, slug: string)
    ensures RowFor(read, bySlug)(slug).slug == slug && RowFor(read, bySlug)(slug).url == PageUrl(slug)
  {
    var row := RowOf(slug, read(slug), RecordFor(bySlug, slug));
    assert row.slug == slug && row.url == PageUrl(slug);
  }

  /** The `i`th pushed row carries the `i`th directory's slug and URL. */
  lemma PushedSlugAt(sorted: seq<string>, read: string -> Page, bySlug: map<string, PseoRecord>, i: nat)
    requires i < |sorted|
    ensures Seqs.MapSnoc(RowFor(read, bySlug), sorted)[i].slug == sorted[i]
    ensures Seqs.MapSnoc(RowFor(read, bySlug), sorted)[i].url == PageUrl(sorted[i])
  {
    Seqs.MapSnocAt(RowFor(read, bySlug), sorted, i);
    RowForKeys(read, bySlug, sorted[i]);
  }

  /** `allHtml` lists the directories in the order given. */
  lemma HtmlSlugs(sorted: seq<string>, read: string -> Page)
    ensures Slugs(Htmls(sorted, read)) == sorted
  {
    var slugs := Slugs(Htmls(sorted, read));
    assert forall i :: 0 <= i < |sorted| ==> slugs[i] == sorted[i];
  }

  /** Every pushed row carries its directory's slug and URL. */
  lemma PushedSlugs(sorted: seq<string>, read: string -> Page, bySlug: map<string, PseoRecord>)
    ensures Slugs(Htmls(sorted, read)) == sorted
    ensures forall i :: 0 <= i < |sorted| ==>
      Seqs.MapSnoc(RowFor(read, bySlug), sorted)[i].slug == sorted[i] &&
      Seqs.MapSnoc(RowFor(read, bySlug), sorted)[i].url == PageUrl(sorted[i])
  {
    HtmlSlugs(sorted, read);
    forall i | 0 <= i < |sorted|
      ensures Seqs.MapSnoc(RowFor(read, bySlug), sorted)[i].slug == sorted[i] &&
        Seqs.MapSnoc(RowFor(read, bySlug), sorted)[i].url == PageUrl(sorted[i])
    {
      PushedSlugAt(sorted, read, bySlug, i);
    }
  }

  /** The loop that fills `inboundMap`, one count per slug. */
  method CollectInbound(rows: seq<SsotRow>, allHtml: seq<(string, string)>) returns (inboundMap: map<string, nat>)
    requires forall j :: 0 <= j < |rows| ==> rows[j].url == PageUrl(rows[j].slug)
    ensures forall j :: 0 <= j < |rows| ==> rows[j].slug in inboundMap
    ensures forall k :: k in inboundMap ==> inboundMap[k] == Inbound(allHtml, k, PageUrl(k))
  {
    inboundMap := map[];
    for i := 0 to |rows|
      invariant forall j :: 0 <= j < i ==> rows[j].slug in inboundMap
      invariant forall k :: k in inboundMap ==> inboundMap[k] == Inbound(allHtml, k, PageUrl(k))
    {
      var row := rows[i];
      var count := CountInbound(allHtml, row.slug, row.url);
      assert count == Inbound(allHtml, row.slug, PageUrl(row.slug));
      inboundMap := inboundMap[row.slug := count];
    }
  }

  /** `m.get(k) ?? 0`. */
  function CountFor(m: map<string, nat>, k: string): nat {
    if k in m then m[k] else 0
  }

  /** The loop that writes each row's inbound count in place. */
  method FillInbound(rows0: seq<SsotRow>, inboundMap: map<string, nat>, allHtml: seq<(string, string)>) returns (rows: seq<SsotRow>)
    requires forall j :: 0 <= j < |rows0| ==> rows0[j].url == PageUrl(rows0[j].slug) && rows0[j].slug in inboundMap
    requires forall k :: k in inboundMap ==> inboundMap[k] == Inbound(allHtml, k, PageUrl(k))
    ensures |rows| == |rows0|
    ensures forall j :: 0 <= j < |rows| ==> rows[j] == WithInbound(rows0[j], allHtml)
  {
    rows := rows0;
    for i := 0 to |rows|
      invariant |rows| == |rows0|
      invariant forall j :: 0 <= j < i ==> rows[j] == WithInbound(rows0[j], allHtml)
      invariant forall j :: i <= j < |rows| ==> rows[j] == rows0[j]
    {
      rows := rows[i := rows[i].(internalLinksIn := CountFor(inboundMap, rows[i].slug))];
    }
  }

  /** The `k`th exported row carries the `k`th directory in sorted order. */
  lemma RowsSlugAt(dirs: seq<string>, read: string -> Page, bySlug: map<string, PseoRecord>, k: nat)
    requires k < |dirs|
    ensures Rows(dirs, read, bySlug)[k].slug == SortedDirs(dirs)[k]
  {
    PushedSlugAt(SortedDirs(dirs), read, bySlug, k);
  }

  /** The exported rows follow sorted directory order, one per directory. */
  lemma RowsOrder(dirs: seq<string>, read: string -> Page, bySlug: map<string, PseoRecord>)
    ensures forall a, b :: 0 <= a < b < |Rows(dirs, read, bySlug)| ==>
      LexLe(Rows(dirs, read, bySlug)[a].slug, Rows(dirs, read, bySlug)[b].slug)
    ensures multiset(seq(|dirs|, k requires 0 <= k < |dirs| => Rows(dirs, read, bySlug)[k].slug)) == multiset(dirs)
  {
    var sorted := SortedDirs(dirs);
    var rows := Rows(dirs, read, bySlug);
    forall k | 0 <= k < |dirs|
      ensures rows[k].slug == sorted[k]
    {
      RowsSlugAt(dirs, read, bySlug, k);
    }
    assert seq(|dirs|, k requires 0 <= k < |dirs| => rows[k].slug) == sorted;
  }

  /**
   * Each exported row is its page's row with its inbound count, which
   * counts only other pages and so is at most the number of pages less one.
   */
  lemma RowsInbound(dirs: seq<string>, read: string -> Page, bySlug: map<string, PseoRecord>, i: nat)
    requires i < |dirs|
    ensures Rows(dirs, read, bySlug)[i].internalLinksIn <= |dirs| - 1
    ensures Rows(dirs, read, bySlug)[i] ==
      RowOf(SortedDirs(dirs)[i], read(SortedDirs(dirs)[i]), RecordFor(bySlug, SortedDirs(dirs)[i]))
        .(internalLinksIn := Inbound(Htmls(SortedDirs(dirs), read), SortedDirs(dirs)[i], PageUrl(SortedDirs(dirs)[i])))
  {
    var sorted := SortedDirs(dirs);
    var all := Htmls(sorted, read);
    Seqs.MapSnocAt(RowFor(read, bySlug), sorted, i);
    InboundSpec(all, sorted[i], i);
  }

  // ---------------------------------------------------------------------
  // The CSV file
  // ---------------------------------------------------------------------

  /** The header's column names, in order. */
  const HeaderFields: seq<string> := ["url", "slug", "title", "h1", "meta_title", "meta_description",
    "canonical", "robots", "lang", "hreflang_targets", "word_count", "template_id", "cluster_guess",
    "last_modified", "has_author", "has_datePublished", "has_dateModified", "outbound_citations_count",
    "has_unique_diagram", "has_downloadable_asset", "internal_links_out", "internal_links_in", "id", "legacy_url"]

  /** The header line, written as is. */
  const Header := Join(HeaderFields, ",")

  /** `String(b)`. */
  function BoolText(b: bool): string {
    if b then "true" else "false"
  }

  /** A row's values as text, in header order. */
  function Cells(r: SsotRow): (c: seq<string>)
    ensures |c| == |HeaderFields| == 24
  {
    [r.url, r.slug, r.title, r.h1, r.metaTitle, r.metaDescription, r.canonical, r.robots, r.lang,
     r.hreflangTargets, NatToString(r.wordCount), r.templateId, r.clusterGuess, r.lastModified,
     BoolText(r.hasAuthor), BoolText(r.hasDatePublished), BoolText(r.hasDateModified),
     NatToString(r.outboundCitationsCount), BoolText(r.hasUniqueDiagram), BoolText(r.hasDownloadableAsset),
     NatToString(r.internalLinksOut), NatToString(r.internalLinksIn), r.id, r.legacyUrl]
  }

  function CellsAll(rows: seq<SsotRow>): (r: seq<seq<string>>)
    ensures |r| == |rows|
  {
    if rows == [] then [] else [Cells(rows[0])] + CellsAll(rows[1..])
  }

  /** `pseo_url_ssot.csv`: the header, then one escaped line per row, joined by line feeds. */
  function CsvText(rows: seq<SsotRow>): string {
    Join([Header] + RowTexts(CellsAll(rows)), "\n")
  }

  /** The data lines of the file. */
  function Body(rows: seq<SsotRow>): string {
    Join(RowTexts(CellsAll(rows)), "\n")
  }

  /**
   * The file is the header line, a line feed and the data lines; reading
   * the data lines back gives, for every row, its 24 values in header
   * order, whatever commas, quotes and line breaks they hold.
   */
  lemma CsvTextRoundTrip(rows: seq<SsotRow>)
    requires rows != []
    ensures CsvText(rows) == Header + "\n" + Body(rows)
    ensures ParseCsv(Body(rows)) == CellsAll(rows)
    ensures forall i :: 0 <= i < |rows| ==> |ParseCsv(Body(rows))[i]| == |HeaderFields|
  {
    var lines := [Header] + RowTexts(CellsAll(rows));
    assert lines[1..] == RowTexts(CellsAll(rows));
    CellsAllCount(rows);
    CsvRoundTrip(CellsAll(rows));
  }

  lemma {:induction false} CellsAllCount(rows: seq<SsotRow>)
    ensures forall i :: 0 <= i < |CellsAll(rows)| ==> |CellsAll(rows)[i]| == 24
  {
    if rows != [] {
      CellsAllCount(rows[1..]);
    }
  }
}
