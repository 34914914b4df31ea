/**
 * The search-intent taxonomy (scripts/pseo/phase0_search_intent_taxonomy.ts):
 * every row of the URL SSOT export gets exactly one intent A–F from an
 * ordered list of keyword rules, an audience list and a scope list, and
 * the slugs are grouped by intent.
 */
module IntentTaxonomy {
  import opened Wrappers
  import opened Strings
  import opened Seqs

  datatype Intent = A | B | C | D | E | F

  function IntentLabel(i: Intent): string {
    match i
    case A => "成果物が欲しい（テンプレ/チェックリスト/目次/フォーム）"
    case B => "判断基準が欲しい（OK/NG基準、例外条件、RACI、責任分界）"
    case C => "実装手順が欲しい（手順/ワークフロー/運用設計/KPI）"
    case D => "マッピングが欲しい（ISO/EU AI Act/NIST等への対応表）"
    case E => "設計思想が知りたい（概念整理・用語定義・全体像）"
    case F => "事例が知りたい（失敗/監査指摘/是正/業界別）"
  }

  /** The declared audience tags (AUDIENCE_TAGS), in declaration order. */
  datatype AudienceTag = CisoIs | AuditFirm | LegalCompliance | SecurityVendor | BusinessProduct {
    function Name(): string {
      match this
      case CisoIs => "CISO/情報シス"
      case AuditFirm => "監査法人/内部監査"
      case LegalCompliance => "法務/コンプラ"
      case SecurityVendor => "セキュリティベンダー"
      case BusinessProduct => "事業部/プロダクト"
    }
  }

  /** The declared scope tags (SCOPE_TAGS), in declaration order. */
  datatype ScopeTag = ShadowAi | AgentGovernance | EvidenceReadiness | ContinuousMonitoring | AiBom
                    | LogPreservation | DataProtection {
    function Name(): string {
      match this
      case ShadowAi => "Shadow AI"
      case AgentGovernance => "AI agent governance"
      case EvidenceReadiness => "Evidence readiness"
      case ContinuousMonitoring => "Continuous Controls Monitoring"
      case AiBom => "AI-BOM/サプライチェーン"
      case LogPreservation => "ログ保全/改ざん防止"
      case DataProtection => "データ保護"
    }
  }

  // ------------------------------------------------------------ intent rules

  const DeliverableWords: seq<string> :=
    ["checklist", "目次", "テンプレ", "フォーム", "雛形", "提出物", "submission", "index", "table-template"]
  const CriteriaWords: seq<string> :=
    ["ok", "ng", "基準", "例外", "raci", "責任分界", "判断", "criteria", "boundary", "sla", "matrix"]
  const ProcedureWords: seq<string> :=
    ["手順", "ワークフロー", "運用", "workflow", "renewal", "review-cycle", "operating", "intake", "approve",
     "継続監査", "棚卸"]
  const MappingWords: seq<string> :=
    ["coverage", "map", "iso", "nist", "42001", "マッピング", "対応表", "perspectives"]
  const ConceptWords: seq<string> :=
    ["用語", "定義", "概念", "glossary", "全体", "responsibility", "structure", "boundary"]
  const ConceptExclusions: seq<string> := ["sla", "matrix", "raci"]
  const CaseWords: seq<string> :=
    ["指摘", "是正", "欠落", "remediation", "gaps", "findings", "失敗", "事例", "監査指摘"]
  const EvidenceWords: seq<string> := ["evidence-pack", "証拠", "証跡"]

  /** The eight rules, applied to the lowercased text in this order. */
  predicate DeliverableRule(s: string) {
    ContainsAny(s, DeliverableWords) || ThenLater(s, "raci", "雛形") || ThenLater(s, "申請", "フォーム")
  }
  predicate CriteriaRule(s: string) {
    ContainsAny(s, CriteriaWords) || ThenLater(s, "proof", "assurance")
  }
  predicate ProcedureRule(s: string) {
    ContainsAny(s, ProcedureWords)
  }
  predicate MappingRule(s: string) {
    ContainsAny(s, MappingWords) || ThenLater(s, "eu", "act")
  }
  predicate ConceptRule(s: string) {
    (ContainsAny(s, ConceptWords) || ThenLater(s, "proof", "vs") || ThenLater(s, "evidence", "bundle"))
    && !ContainsAny(s, ConceptExclusions)
  }
  predicate CaseRule(s: string) {
    ContainsAny(s, CaseWords)
  }
  predicate EvidenceRule(s: string) {
    ContainsAny(s, EvidenceWords) || ThenLater(s, "evidence", "pack")
  }
  predicate ControlViewpointRule(s: string) {
    ContainsAny(s, ["control", "統制", "監査"]) && ContainsAny(s, ["観点", "対応"])
  }

  /** The text the rules are applied to. */
  function IntentText(slug: string, title: string, clusterGuess: string): string {
    Lower(slug + " " + title + " " + clusterGuess)
  }

  /** `assignIntent`: the first matching rule decides, and E is the fallback. */
  function AssignIntent(slug: string, title: string, clusterGuess: string): Intent {
    var s := IntentText(slug, title, clusterGuess);
    if DeliverableRule(s) then A
    else if CriteriaRule(s) then B
    else if ProcedureRule(s) then C
    else if MappingRule(s) then D
    else if ConceptRule(s) then E
    else if CaseRule(s) then F
    else if EvidenceRule(s) then A
    else if ControlViewpointRule(s) then D
    else E
  }

  /** The intent depends on the text only up to ASCII case. */
  lemma AssignIntentCaseInsensitive(slug: string, title: string, clusterGuess: string)
    ensures AssignIntent(Lower(slug), Lower(title), Lower(clusterGuess)) == AssignIntent(slug, title, clusterGuess)
  {
    LowerConcat(slug, " ");
    LowerConcat(slug + " ", title);
    LowerConcat(slug + " " + title, " ");
    LowerConcat(slug + " " + title + " ", clusterGuess);
    LowerConcat(Lower(slug), " ");
    LowerConcat(Lower(slug) + " ", Lower(title));
    LowerConcat(Lower(slug) + " " + Lower(title), " ");
    LowerConcat(Lower(slug) + " " + Lower(title) + " ", Lower(clusterGuess));
    LowerIdempotent(slug);
    LowerIdempotent(title);
    LowerIdempotent(clusterGuess);
    assert Lower(" ") == " ";
  }

  /** Rule order is binding: a deliverable keyword wins over every later rule. */
  lemma DeliverableFirst(slug: string, title: string, clusterGuess: string, w: string)
    requires w in DeliverableWords && Contains(IntentText(slug, title, clusterGuess), w)
    ensures AssignIntent(slug, title, clusterGuess) == A
  {
  }

  /**
   * The exclusion on the concept rule never decides anything: a text that
   * reaches it has already failed the criteria rule, which lists sla,
   * matrix and raci itself.
   */
  lemma ConceptExclusionVacuous(s: string)
    requires !CriteriaRule(s)
    ensures ConceptRule(s) <==> ContainsAny(s, ConceptWords) || ThenLater(s, "proof", "vs") || ThenLater(s, "evidence", "bundle")
  {
    forall w | w in ConceptExclusions
      ensures !Contains(s, w)
    {
      assert w in CriteriaWords;
    }
  }

  /** An E page either matched the concept rule or matched no rule at all. */
  lemma FallbackIsE(slug: string, title: string, clusterGuess: string)
    ensures var s := IntentText(slug, title, clusterGuess);
      AssignIntent(slug, title, clusterGuess) == E <==>
        !DeliverableRule(s) && !CriteriaRule(s) && !ProcedureRule(s) && !MappingRule(s)
        && (ConceptRule(s) || (!CaseRule(s) && !EvidenceRule(s) && !ControlViewpointRule(s)))
  {
  }

  // ---------------------------------------------------- audience and scope

  /** `if (cond) out.push(tag)`. */
  function Push<T(==,!new)>(out: seq<T>, cond: bool, tag: T): (r: seq<T>)
    ensures forall x :: x in r <==> x in out || (cond && x == tag)
    ensures r == [] <==> out == [] && !cond
  {
    if cond then out + [tag] else out
  }

  predicate AuditRule(s: string) { ContainsAny(s, ["監査", "audit", "証跡", "evidence", "統制", "control"]) }
  predicate CisoRule(s: string) { ContainsAny(s, ["CISO", "情シス", "ガバナンス", "governance", "統制"]) }
  predicate LegalRule(s: string) { ContainsAny(s, ["法務", "コンプラ", "規制", "compliance", "申請", "例外"]) }
  predicate VendorRule(s: string) { ContainsAny(s, ["ベンダー", "vendor", "委託"]) }

  /** `assignAudience`: matched case-sensitively on slug and title. */
  function Audience(slug: string, title: string): seq<AudienceTag>
  {
    var s := slug + " " + title;
    AudienceFrom(AuditRule(s), CisoRule(s), LegalRule(s), VendorRule(s))
  }

  /** The pushes of `assignAudience`, given which of its four rules match. */
  function AudiencePushes(audit: bool, ciso: bool, legal: bool, vendor: bool): seq<AudienceTag> {
    Push(Push(Push(Push([], audit, AuditFirm), ciso, CisoIs), legal, LegalCompliance), vendor, SecurityVendor)
  }

  lemma AudiencePushesMembers(audit: bool, ciso: bool, legal: bool, vendor: bool)
    ensures forall x :: x in AudiencePushes(audit, ciso, legal, vendor) <==>
      (audit && x == AuditFirm) || (ciso && x == CisoIs) || (legal && x == LegalCompliance) || (vendor && x == SecurityVendor)
  {
  }

  function AudienceFrom(audit: bool, ciso: bool, legal: bool, vendor: bool): seq<AudienceTag> {
    var out := AudiencePushes(audit, ciso, legal, vendor);
    Dedup(if out == [] then [CisoIs, AuditFirm] else out)
  }

  /**
   * Each audience tag is present exactly when its rule matches, the first
   * two also when no rule matches. The business/product tag is never assigned.
   */
  lemma AudienceMembers(audit: bool, ciso: bool, legal: bool, vendor: bool)
    ensures AudienceFrom(audit, ciso, legal, vendor) != [] && Distinct(AudienceFrom(audit, ciso, legal, vendor))
    ensures var none := !audit && !ciso && !legal && !vendor;
      forall x :: x in AudienceFrom(audit, ciso, legal, vendor) <==>
        ((none || audit) && x == AuditFirm) || ((none || ciso) && x == CisoIs)
        || (legal && x == LegalCompliance) || (vendor && x == SecurityVendor)
  {
    var out := AudiencePushes(audit, ciso, legal, vendor);
    AudiencePushesMembers(audit, ciso, legal, vendor);
    if out == [] {
      assert !audit && !ciso && !legal && !vendor;
      assert forall x :: x in [CisoIs, AuditFirm] <==> x == CisoIs || x == AuditFirm;
    } else {
      assert out[0] in out;
    }
  }

  predicate ShadowRule(s: string) { ContainsAny(s, ["shadow", "未許可", "棚卸", "inventory"]) }
  predicate EvidenceScopeRule(s: string) { ContainsAny(s, ["evidence", "証跡", "証拠", "readiness"]) }
  predicate MonitoringRule(s: string) { ContainsAny(s, ["continuous", "継続", "ccm", "monitoring", "review-cycle"]) }
  predicate AssuranceRule(s: string) { ContainsAny(s, ["responsibility", "proof", "assurance", "boundary", "責任"]) }
  predicate StandardsRule(s: string) { ContainsAny(s, ["coverage", "iso", "nist", "eu", "規格", "マッピング"]) }
  predicate LogRule(s: string) { ContainsAny(s, ["改ざん", "ログ", "保持", "保管"]) }

  /** `assignScope`: four rules may push "Evidence readiness", which is also the default. */
  function Scope(slug: string, title: string): seq<ScopeTag>
  {
    var s := slug + " " + title;
    ScopeFrom(ShadowRule(s), EvidenceScopeRule(s), MonitoringRule(s), AssuranceRule(s), StandardsRule(s), LogRule(s))
  }

  /** The pushes of `assignScope`, given which of its six rules match. */
  function ScopePushes(shadow: bool, evidence: bool, monitoring: bool, assurance: bool, standards: bool, logs: bool)
    : seq<ScopeTag>
  {
    Push(Push(Push(Push(Push(Push([], shadow, ShadowAi), evidence, EvidenceReadiness),
                        monitoring, ContinuousMonitoring), assurance, EvidenceReadiness),
              standards, EvidenceReadiness), logs, LogPreservation)
  }

  lemma ScopePushesMembers(shadow: bool, evidence: bool, monitoring: bool, assurance: bool, standards: bool, logs: bool)
    ensures var out := ScopePushes(shadow, evidence, monitoring, assurance, standards, logs);
      forall x :: x in out <==>
        (shadow && x == ShadowAi) || ((evidence || assurance || standards) && x == EvidenceReadiness)
        || (monitoring && x == ContinuousMonitoring) || (logs && x == LogPreservation)
  {
  }

  function ScopeFrom(shadow: bool, evidence: bool, monitoring: bool, assurance: bool, standards: bool, logs: bool)
    : seq<ScopeTag>
  {
    var out := ScopePushes(shadow, evidence, monitoring, assurance, standards, logs);
    Dedup(if out == [] then [EvidenceReadiness] else out)
  }

  /**
   * Each scope tag is present exactly when one of its rules matches;
   * "Evidence readiness" (listed once) is also the default. No other tag
   * (AI agent governance, AI-BOM, data protection) is ever assigned.
   */
  lemma ScopeMembers(shadow: bool, evidence: bool, monitoring: bool, assurance: bool, standards: bool, logs: bool)
    ensures ScopeFrom(shadow, evidence, monitoring, assurance, standards, logs) != []
    ensures Distinct(ScopeFrom(shadow, evidence, monitoring, assurance, standards, logs))
    ensures forall x :: x in ScopeFrom(shadow, evidence, monitoring, assurance, standards, logs) <==>
      (shadow && x == ShadowAi)
      || ((evidence || assurance || standards || (!shadow && !monitoring && !logs)) && x == EvidenceReadiness)
      || (monitoring && x == ContinuousMonitoring) || (logs && x == LogPreservation)
  {
    var out := ScopePushes(shadow, evidence, monitoring, assurance, standards, logs);
    ScopePushesMembers(shadow, evidence, monitoring, assurance, standards, logs);
    if out == [] {
      assert !shadow && !evidence && !assurance && !standards && !monitoring && !logs;
      assert forall x :: x in [EvidenceReadiness] <==> x == EvidenceReadiness;
    } else {
      assert out[0] in out;
    }
  }

  // ----------------------------------------------------------------- rows

  /** A row of the URL SSOT export; an absent h1 is the empty string. */
  datatype SsotRow = SsotRow(slug: string, title: string, h1: string, clusterGuess: string, id: string, url: string)

  datatype PageIntent = PageIntent(slug: string, id: string, url: string, intentId: Intent, intentLabel: string,
                                   clusterId: string, audienceTags: seq<AudienceTag>, scopeTags: seq<ScopeTag>)

  function Classify(r: SsotRow): PageIntent {
    var intent := AssignIntent(r.slug, r.title + " " + r.h1, r.clusterGuess);
    PageIntent(r.slug, r.id, r.url, intent, IntentLabel(intent), r.clusterGuess,
               Audience(r.slug, r.title), Scope(r.slug, r.title))
  }

  function Taxonomy(rows: seq<SsotRow>): (t: seq<PageIntent>)
    ensures |t| == |rows|
  {
    if rows == [] then [] else Taxonomy(rows[..|rows| - 1]) + [Classify(rows[|rows| - 1])]
  }

  lemma TaxonomySnoc(rows: seq<SsotRow>, i: nat)
    requires i < |rows|
    ensures Taxonomy(rows[..i + 1]) == Taxonomy(rows[..i]) + [Classify(rows[i])]
  {
    assert rows[..i + 1][..i] == rows[..i];
  }

  /** Page `i` of the taxonomy is row `i`, classified. */
  lemma {:induction false} TaxonomyAt(rows: seq<SsotRow>, i: nat)
    requires i < |rows|
    ensures Taxonomy(rows)[i] == Classify(rows[i])
  {
    if i < |rows| - 1 {
      TaxonomyAt(rows[..|rows| - 1], i);
    }
  }

  function IntentItems(t: seq<PageIntent>): (items: seq<(Intent, string)>)
    ensures |items| == |t|
    ensures forall i :: 0 <= i < |t| ==> items[i] == (t[i].intentId, t[i].slug)
  {
    if t == [] then []
    else IntentItems(t[..|t| - 1]) + [(t[|t| - 1].intentId, t[|t| - 1].slug)]
  }

  /** The output document (its timestamp left out). */
  datatype TaxonomyFile = TaxonomyFile(byIntent: Grouping<Intent, string>, pages: seq<PageIntent>)

  /** The parsed export: `rows` may be absent. */
  datatype SsotExport = SsotExport(rows: Option<seq<SsotRow>>)

  /** `run`: a missing export is fatal, and nothing is written. */
  function TaxonomyOf(ssot: Option<SsotExport>): Result<TaxonomyFile, string> {
    if ssot.None? then Failure("Run phase0:export-ssot first.")
    else
      var t := Taxonomy(ssot.value.rows.GetOr([]));
      Success(TaxonomyFile(GroupBy(IntentItems(t)), t))
  }

  /**
   * `by_intent` partitions the slugs: every intent key lists, in row
   * order, the slugs of exactly the rows with that intent, and each row's
   * slug is under its own intent.
   */
  lemma ByIntentPartition(rows: seq<SsotRow>)
    ensures var f := TaxonomyOf(Some(SsotExport(Some(rows)))).value;
      Distinct(f.byIntent.keys)
      && (forall k :: k in f.byIntent.groups ==> f.byIntent.groups[k] == ValuesFor(IntentItems(f.pages), k))
      && forall i :: 0 <= i < |rows| ==>
           var k := AssignIntent(rows[i].slug, rows[i].title + " " + rows[i].h1, rows[i].clusterGuess);
           k in f.byIntent.groups && rows[i].slug in f.byIntent.groups[k]
  {
    var t := Taxonomy(rows);
    var items := IntentItems(t);
    GroupByCorrect(items);
    forall i | 0 <= i < |rows|
      ensures var k := AssignIntent(rows[i].slug, rows[i].title + " " + rows[i].h1, rows[i].clusterGuess);
        k in GroupBy(items).groups && rows[i].slug in GroupBy(items).groups[k]
    {
      TaxonomyAt(rows, i);
      ValuesForIndex(items, i);
      ValuesForNonEmpty(items, items[i].0);
    }
  }

  lemma {:induction false} ValuesForIndex<K, V>(items: seq<(K, V)>, i: nat)
    requires i < |items|
    ensures items[i].1 in ValuesFor(items, items[i].0)
  {
    if i < |items| - 1 {
      ValuesForIndex(items[..|items| - 1], i);
    }
  }

  /** Every page carries the label of its own intent, and non-empty tag lists. */
  lemma PagesWellFormed(rows: seq<SsotRow>, i: nat)
    requires i < |rows|
    ensures var p := Taxonomy(rows)[i];
      p.slug == rows[i].slug && p.intentLabel == IntentLabel(p.intentId)
      && p.clusterId == rows[i].clusterGuess
      && p.audienceTags != [] && Distinct(p.audienceTags) && p.scopeTags != [] && Distinct(p.scopeTags)
  {
    TaxonomyAt(rows, i);
    ClassifyWellFormed(rows[i]);
  }

  lemma ClassifyWellFormed(r: SsotRow)
    ensures var p := Classify(r);
      p.slug == r.slug && p.intentLabel == IntentLabel(p.intentId) && p.clusterId == r.clusterGuess
      && p.audienceTags != [] && Distinct(p.audienceTags) && p.scopeTags != [] && Distinct(p.scopeTags)
  {
    var s := r.slug + " " + r.title;
    AudienceMembers(AuditRule(s), CisoRule(s), LegalRule(s), VendorRule(s));
    ScopeMembers(ShadowRule(s), EvidenceScopeRule(s), MonitoringRule(s), AssuranceRule(s), StandardsRule(s), LogRule(s));
  }


  // ------------------------------------------------------------- the script

  /** The body of the first loop of `run`. */
  method ClassifyRow(row: SsotRow) returns (p: PageIntent)
    ensures p == Classify(row)
  {
    var intent := AssignIntent(row.slug, row.title + " " + row.h1, row.clusterGuess);
    p := PageIntent(row.slug, row.id, row.url, intent, IntentLabel(intent), row.clusterGuess,
                    Audience(row.slug, row.title), Scope(row.slug, row.title));
  }

  /** The first loop of `run`: classify every row, in order. */
  method ClassifyAll(rows: seq<SsotRow>) returns (taxonomy: seq<PageIntent>)
    ensures taxonomy == Taxonomy(rows)
  {
    taxonomy := [];
    for i := 0 to |rows|
      invariant taxonomy == Taxonomy(rows[..i])
    {
      taxonomy := ClassifyNext(rows, i, taxonomy);
    }
    assert rows[..|rows|] == rows;
  }

  /** One step of that loop: classify row `i` and append it. */
  method ClassifyNext(rows: seq<SsotRow>, i: nat, taxonomy: seq<PageIntent>) returns (next: seq<PageIntent>)
    requires i < |rows| && taxonomy == Taxonomy(rows[..i])
    ensures next == Taxonomy(rows[..i + 1])
  {
    TaxonomySnoc(rows, i);
    var p := ClassifyRow(rows[i]);
    next := taxonomy + [p];
  }

  /** The second loop of `run`: append each slug under its intent. */
  method GroupByIntent(taxonomy: seq<PageIntent>) returns (byIntent: Grouping<Intent, string>)
    ensures byIntent == GroupBy(IntentItems(taxonomy))
  {
    byIntent := Grouping([], map[]);
    var j := 0;
    while j < |taxonomy|
      invariant j <= |taxonomy|
      invariant byIntent == GroupBy(IntentItems(taxonomy[..j]))
    {
      var p := taxonomy[j];
      assert IntentItems(taxonomy[..j + 1]) == IntentItems(taxonomy[..j]) + [(p.intentId, p.slug)] by {
        assert taxonomy[..j + 1][..j] == taxonomy[..j];
      }
      if p.intentId in byIntent.groups {
        byIntent := Grouping(byIntent.keys, byIntent.groups[p.intentId := byIntent.groups[p.intentId] + [p.slug]]);
      } else {
        byIntent := Grouping(byIntent.keys + [p.intentId], byIntent.groups[p.intentId := [p.slug]]);
      }
      j := j + 1;
    }
    assert taxonomy[..j] == taxonomy;
  }

  /** `run`: read the export, classify, group, write. */
  method Run(ssot: Option<SsotExport>) returns (r: Result<TaxonomyFile, string>)
    ensures r == TaxonomyOf(ssot)
  {
    if ssot.None? {
      return Failure("Run phase0:export-ssot first.");
    }
    var taxonomy := ClassifyAll(ssot.value.rows.GetOr([]));
    var byIntent := GroupByIntent(taxonomy);
    r := Success(TaxonomyFile(byIntent, taxonomy));
  }
}
