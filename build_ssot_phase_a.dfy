/**
 * Phase A of the page SSOT: every page of the slug table becomes a row
 * with its cluster, search intent, indexing decision, canonical pillar,
 * priority, summary and audience tags.
 *
 * Clusters, pillars and the seven named intents are datatypes whose
 * `Name`/`Slug` give the strings the rows carry.
 */
module BuildSsotPhaseA {
  import opened Wrappers
  import opened Strings

  const BaseUrl: string := "https://aimoaas.com"
  const PseoPath: string := "/ja/resources/pseo/"
  const IndexFollow: string := "index,follow"
  const NoindexFollow: string := "noindex,follow"
  const MissingPages: string := "Missing data/pseo/pseo_pages.json"

  datatype Cluster = EvidencePack | MinimumEvidence | Workflow | Responsibility | Inventory {
    function Name(): string {
      match this
      case EvidencePack => "EvidencePack"
      case MinimumEvidence => "MinimumEvidence"
      case Workflow => "Workflow"
      case Responsibility => "Responsibility"
      case Inventory => "Inventory"
    }
  }

  /** The six pillar pages; each is indexable and canonical to itself. */
  datatype Pillar = EP1 | EP2 | INV1 | MIN1 | WORKFLOW1 | RACI1 {
    function Slug(): string {
      match this
      case EP1 => "evidence-pack-ai-audit-evidence-pack"
      case EP2 => "proof-assurance-boundary-ai-audit-evidence-bundle-structure"
      case INV1 => "ai-audit-controls-inventory-continuous-audit-workflow"
      case MIN1 => "proof-assurance-boundary-ai-audit-controls-control-evidence-frequency"
      case WORKFLOW1 => "intake-review-approve-ai-audit-controls-request-review-exception"
      case RACI1 => "responsibility-boundary-intake-review-approve-ai-raci-governance"
    }

    function Url(): string {
      BaseUrl + PseoPath + Slug() + "/"
    }
  }

  const ShadowAiSlug: string := "evidence-readiness-proof-assurance-boundary-ai-minimum-evidence-shadow-ai"

  /** `PILLAR_SLUGS`: the slugs of the six pillars. */
  predicate IsPillarSlug(slug: string) {
    exists p: Pillar :: p.Slug() == slug
  }

  /**
   * `NOINDEX_TO_EP1`, `NOINDEX_TO_MIN1`, `NOINDEX_TO_WORKFLOW1`,
   * `NOINDEX_TO_RACI1` and `NOINDEX_TO_INV1`, in the order they are
   * checked, each slug with the pillar its set points at.
   */
  const NoindexTargets: seq<(string, Pillar)> := [
    ("evidence-pack-evidence-readiness-ai-audit-evidence-pack-formats", EP1),
    ("evidence-pack-ai-audit-controls-evidence-gaps-remediation", EP1),
    ("evidence-pack-proof-assurance-boundary-ai-evidence-pack-index", EP1),
    ("ai-audit-controls-evidence-pack-minimum", MIN1),
    ("proof-assurance-boundary-ai-audit-evidence-formats-standards", MIN1),
    ("proof-assurance-boundary-controls-minimum-evidence-requirements", MIN1),
    ("proof-assurance-boundary-controls-evidence-readiness-internal-audit-evidence", MIN1),
    ("proof-assurance-boundary-ai-audit-controls-evidence-requirements-table", MIN1),
    ("proof-assurance-boundary-ai-audit-evidence-audit-questions-pack", MIN1),
    ("proof-assurance-boundary-ai-audit-intake-audit-submission-checklist", WORKFLOW1),
    ("intake-review-approve-ai-audit-inventory-operating-workflow-renewal", WORKFLOW1),
    ("responsibility-boundary-intake-review-approve-ai-operating-workflow", RACI1),
    ("ai-audit-monitoring-inventory-inventory-review-cycle", INV1)]

  predicate StartsWithAny(s: string, ps: seq<string>) {
    exists p :: p in ps && StartsWith(s, p)
  }

  /** `getClusterId`: ordered prefix rules, MinimumEvidence when none applies. */
  function ClusterOf(slug: string): Cluster {
    if StartsWith(slug, "evidence-pack-") && !Contains(slug, "proof-assurance-boundary-controls") then EvidencePack
    else if StartsWith(slug, "proof-assurance-boundary-ai-audit-evidence-bundle-structure") then EvidencePack
    else if StartsWith(slug, "proof-assurance-boundary-evidence-pack-ai-") then EvidencePack
    else if StartsWithAny(slug, [
      "proof-assurance-boundary-ai-audit-controls-",
      "proof-assurance-boundary-controls-",
      "proof-assurance-boundary-ai-audit-evidence-",
      "proof-assurance-boundary-ai-audit-e-",
      "ai-audit-controls-evidence-pack-minimum",
      "evidence-readiness-proof-assurance-boundary-ai-minimum-evidence-shadow-ai",
      "ai-audit-controls-e-",
      "proof-assurance-boundary-coverage-map-",
      "ai-governance-audit-evidence-controls-workflow-coverage-map"]) then MinimumEvidence
    else if StartsWithAny(slug, [
      "intake-review-approve-",
      "proof-assurance-boundary-ai-audit-intake-",
      "evidence-readiness-intake-review-approve-",
      "proof-assurance-boundary-evidence-readiness-intake-",
      "proof-assurance-boundary-intake-review-approve-"]) then Workflow
    else if StartsWithAny(slug, ["responsibility-boundary-", "proof-assurance-boundary-responsibility-boundary-ai-"])
    then Responsibility
    else if StartsWithAny(slug, ["ai-audit-controls-inventory-", "ai-audit-monitoring-inventory-"]) then Inventory
    else if StartsWith(slug, "evidence-pack-")
         || (StartsWith(slug, "proof-assurance-boundary-ai-audit-") && Contains(slug, "evidence"))
    then EvidencePack
    else MinimumEvidence
  }

  /** The pillar a noindex page of a cluster points at. */
  function ClusterPillar(c: Cluster): Pillar {
    match c
    case EvidencePack => EP1
    case MinimumEvidence => MIN1
    case Workflow => WORKFLOW1
    case Responsibility => RACI1
    case Inventory => INV1
  }

  /**
   * `getCanonicalTarget` as the pillar it names; `None` is the empty
   * target of an indexable page. `c` is the slug's cluster, which
   * `getCanonicalTarget` computes with `getClusterId` as `main` does.
   */
  function CanonicalPillar(slug: string, c: Cluster): Option<Pillar> {
    if IsPillarSlug(slug) || slug == ShadowAiSlug then None
    else match Lookup(NoindexTargets, slug)
      case Some(p) => Some(p)
      case None => Some(ClusterPillar(c))
  }

  function CanonicalTarget(slug: string, c: Cluster): string {
    match CanonicalPillar(slug, c)
    case None => ""
    case Some(p) => p.Url()
  }

  /**
   * The canonical target is empty exactly for the six pillars and the
   * shadow-AI page; every other page points at a pillar other than
   * itself, whose own target is empty.
   */
  lemma CanonicalTargetSpec(slug: string, c: Cluster)
    ensures CanonicalTarget(slug, c) == "" <==> IsPillarSlug(slug) || slug == ShadowAiSlug
    ensures CanonicalPillar(slug, c).Some? ==>
      var p := CanonicalPillar(slug, c).value;
      p.Slug() != slug && IsPillarSlug(p.Slug())
  {
  }

  /** The seven intents of the indexable pages. */
  datatype NamedIntent =
    | EpDecisionGuide | EbStructureGuide | ContinuousAuditWorkflow | MinEvidenceCatalog
    | IntakeReviewExceptionWorkflow | RaciGovernanceModel | ShadowAiEvidenceChecklist
  {
    function Name(): string {
      match this
      case EpDecisionGuide => "EP_DECISION_GUIDE"
      case EbStructureGuide => "EB_STRUCTURE_GUIDE"
      case ContinuousAuditWorkflow => "CONTINUOUS_AUDIT_WORKFLOW"
      case MinEvidenceCatalog => "MIN_EVIDENCE_CATALOG"
      case IntakeReviewExceptionWorkflow => "INTAKE_REVIEW_EXCEPTION_WORKFLOW"
      case RaciGovernanceModel => "RACI_GOVERNANCE_MODEL"
      case ShadowAiEvidenceChecklist => "SHADOW_AI_EVIDENCE_CHECKLIST"
    }
  }

  /** The slug each named intent belongs to. */
  function IntentSlug(n: NamedIntent): string {
    match n
    case EpDecisionGuide => EP1.Slug()
    case EbStructureGuide => EP2.Slug()
    case ContinuousAuditWorkflow => INV1.Slug()
    case MinEvidenceCatalog => MIN1.Slug()
    case IntakeReviewExceptionWorkflow => WORKFLOW1.Slug()
    case RaciGovernanceModel => RACI1.Slug()
    case ShadowAiEvidenceChecklist => ShadowAiSlug
  }

  /** The order in which `getIntentId` tests the named slugs. */
  const IntentOrder: seq<NamedIntent> := [
    EpDecisionGuide, EbStructureGuide, ContinuousAuditWorkflow, MinEvidenceCatalog,
    IntakeReviewExceptionWorkflow, RaciGovernanceModel, ShadowAiEvidenceChecklist]

  /** Each named slug paired with its intent, in test order. */
  function NamedIntents(): (t: seq<(string, NamedIntent)>)
    ensures |t| == |IntentOrder|
    ensures forall i :: 0 <= i < |t| ==> t[i] == (IntentSlug(IntentOrder[i]), IntentOrder[i])
  {
    seq(|IntentOrder|, i requires 0 <= i < |IntentOrder| => (IntentSlug(IntentOrder[i]), IntentOrder[i]))
  }

  function NamedIntentOf(slug: string): Option<NamedIntent> {
    Lookup(NamedIntents(), slug)
  }

  /** `slug.slice(-20)`: the last twenty characters, or all of a shorter slug. */
  function Last20(s: string): (r: string)
    ensures |r| <= 20 && EndsWith(s, r)
    ensures |s| >= 20 ==> |r| == 20
  {
    if |s| <= 20 then s else s[|s| - 20..]
  }

  /** `replace(/-/g, "_")`. */
  function Underscored(s: string): (r: string)
    ensures |r| == |s| && '-' !in r
    ensures forall i :: 0 <= i < |s| ==> r[i] == (if s[i] == '-' then '_' else s[i])
  {
    seq(|s|, i requires 0 <= i < |s| => if s[i] == '-' then '_' else s[i])
  }

  /** `getIntentId`. */
  function IntentId(slug: string, c: Cluster): string {
    match NamedIntentOf(slug)
    case Some(n) => n.Name()
    case None => c.Name() + "_NOINDEX_" + Underscored(Last20(slug))
  }

  /** A named intent is given only to its own slug, so no two slugs share one. */
  lemma NamedIntentSlug(slug: string)
    ensures NamedIntentOf(slug).Some? ==> slug == IntentSlug(NamedIntentOf(slug).value)
  {
    LookupSpec(NamedIntents(), slug);
  }

  /** Where each named intent sits in the test order. */
  function IntentIndex(n: NamedIntent): (i: nat)
    ensures i < |IntentOrder| && IntentOrder[i] == n
  {
    match n
    case EpDecisionGuide => 0
    case EbStructureGuide => 1
    case ContinuousAuditWorkflow => 2
    case MinEvidenceCatalog => 3
    case IntakeReviewExceptionWorkflow => 4
    case RaciGovernanceModel => 5
    case ShadowAiEvidenceChecklist => 6
  }

  function PillarIntent(p: Pillar): (n: NamedIntent)
    ensures IntentSlug(n) == p.Slug()
  {
    match p
    case EP1 => EpDecisionGuide
    case EP2 => EbStructureGuide
    case INV1 => ContinuousAuditWorkflow
    case MIN1 => MinEvidenceCatalog
    case WORKFLOW1 => IntakeReviewExceptionWorkflow
    case RACI1 => RaciGovernanceModel
  }

  /** The seven named slugs, and only they, get named intents. */
  lemma NamedIntentDomain(slug: string)
    ensures NamedIntentOf(slug).Some? <==> IsPillarSlug(slug) || slug == ShadowAiSlug
  {
    if NamedIntentOf(slug).Some? {
      NamedIntentNamed(slug);
    }
    if IsPillarSlug(slug) || slug == ShadowAiSlug {
      NamedSlugIntent(slug);
    }
  }

  /** A slug with a named intent is a pillar slug or the shadow-AI slug. */
  lemma NamedIntentNamed(slug: string)
    requires NamedIntentOf(slug).Some?
    ensures IsPillarSlug(slug) || slug == ShadowAiSlug
  {
    NamedIntentSlug(slug);
    match NamedIntentOf(slug).value
    case EpDecisionGuide => assert EP1.Slug() == slug;
    case EbStructureGuide => assert EP2.Slug() == slug;
    case ContinuousAuditWorkflow => assert INV1.Slug() == slug;
    case MinEvidenceCatalog => assert MIN1.Slug() == slug;
    case IntakeReviewExceptionWorkflow => assert WORKFLOW1.Slug() == slug;
    case RaciGovernanceModel => assert RACI1.Slug() == slug;
    case ShadowAiEvidenceChecklist =>
  }

  /** A pillar slug and the shadow-AI slug each have a named intent. */
  lemma NamedSlugIntent(slug: string)
    requires IsPillarSlug(slug) || slug == ShadowAiSlug
    ensures NamedIntentOf(slug).Some?
  {
    LookupSpec(NamedIntents(), slug);
    var n := if slug == ShadowAiSlug then ShadowAiEvidenceChecklist
             else var p: Pillar :| p.Slug() == slug; PillarIntent(p);
    assert IntentSlug(n) == slug;
    assert NamedIntents()[IntentIndex(n)].0 == slug;
  }

  lemma NameLength(n: NamedIntent)
    ensures |n.Name()| == match n
      case EpDecisionGuide => 17
      case EbStructureGuide => 18
      case ContinuousAuditWorkflow => 25
      case MinEvidenceCatalog => 20
      case IntakeReviewExceptionWorkflow => 32
      case RaciGovernanceModel => 21
      case ShadowAiEvidenceChecklist => 28
  {
  }

  /** The seven intent ids are distinct strings. */
  lemma NameInjective(m: NamedIntent, n: NamedIntent)
    ensures m != n ==> m.Name() != n.Name()
  {
    NameLength(m);
    NameLength(n);
  }

  datatype LegacyPage = LegacyPage(id: string, title: string, topic: Option<seq<string>>,
                                   finalSlug: string, finalUrl: string)

  datatype SsotRow = SsotRow(
    url: string,
    title: string,
    clusterId: string,
    intentId: string,
    isPillar: bool,
    robots: string,
    canonicalTarget: string,
    pagePriority: nat,
    summary: string,
    audienceTags: seq<string>,
    hasAsset: bool,
    referencesMin: nat)

  /** `replace(/\/?$/, "/")`: one trailing slash, added when missing. */
  function WithTrailingSlash(u: string): (r: string)
    ensures EndsWith(r, "/")
    ensures EndsWith(u, "/") ==> r == u
    ensures !EndsWith(u, "/") ==> r == u + "/"
  {
    if |u| > 0 && u[|u| - 1] == '/' then u else u + "/"
  }

  const Ellipsis: string := "…"

  /** The first 80 characters of the title, with an ellipsis when it was longer. */
  function Summary(title: string): string {
    if |title| > 80 then title[..80] + Ellipsis else title
  }

  lemma SummarySpec(title: string)
    ensures |Summary(title)| <= 81
    ensures |title| <= 80 ==> Summary(title) == title
    ensures |title| > 80 ==> Summary(title) == title[..80] + Ellipsis
  {
  }

  const AuditorsTag: string := "監査法人/内部監査"
  const LegalTag: string := "法務"
  const CisoTag: string := "CISO/情シス"

  function AudienceTags(slug: string, c: Cluster): seq<string> {
    [AuditorsTag]
    + (if c == Responsibility || Contains(slug, "sla") || Contains(slug, "raci") then [LegalTag] else [])
    + (if Contains(slug, "shadow") || Contains(slug, "evidence-readiness") then [CisoTag] else [])
  }

  /**
   * The audience always starts with the auditors, includes legal exactly
   * for Responsibility, sla or raci slugs, and the CISO exactly for
   * shadow or evidence-readiness slugs, with no tag twice.
   */
  lemma AudienceTagsSpec(slug: string, c: Cluster)
    ensures var t := AudienceTags(slug, c);
      1 <= |t| <= 3 && t[0] == AuditorsTag
      && (LegalTag in t <==> c == Responsibility || Contains(slug, "sla") || Contains(slug, "raci"))
      && (CisoTag in t <==> Contains(slug, "shadow") || Contains(slug, "evidence-readiness"))
      && forall i, j :: 0 <= i < j < |t| ==> t[i] != t[j]
  {
    assert AuditorsTag != LegalTag && AuditorsTag != CisoTag && LegalTag != CisoTag;
  }

  /** The row `main` builds for one page, given the page's cluster. */
  function RowWith(p: LegacyPage, c: Cluster): SsotRow {
    var slug := p.finalSlug;
    var isPillar := IsPillarSlug(slug);
    var canonical := CanonicalTarget(slug, c);
    var noindex := canonical != "";
    SsotRow(
      BaseUrl + WithTrailingSlash(p.finalUrl),
      p.title,
      c.Name(),
      IntentId(slug, c),
      isPillar,
      if noindex then NoindexFollow else IndexFollow,
      canonical,
      if isPillar then 1 else if noindex then 9 else 2,
      Summary(p.title),
      AudienceTags(slug, c),
      false,
      if isPillar then 3 else 0)
  }

  function RowFor(p: LegacyPage): SsotRow {
    RowWith(p, ClusterOf(p.finalSlug))
  }

  /** A row is indexable exactly when it has no canonical target: the pillars and the shadow-AI page. */
  lemma RowRobots(p: LegacyPage, c: Cluster)
    ensures var r := RowWith(p, c);
      (r.robots == IndexFollow <==> r.canonicalTarget == "")
      && (r.robots == IndexFollow <==> IsPillarSlug(p.finalSlug) || p.finalSlug == ShadowAiSlug)
      && (r.robots == IndexFollow || r.robots == NoindexFollow)
  {
    CanonicalTargetSpec(p.finalSlug, c);
  }

  lemma ShadowNotPillar()
    ensures !IsPillarSlug(ShadowAiSlug)
  {
    forall p: Pillar ensures p.Slug() != ShadowAiSlug {
      match p
      case EP1 => case EP2 => case INV1 => case MIN1 => case WORKFLOW1 => case RACI1 =>
    }
  }

  /** Priority 1 marks the pillars, 9 the noindex pages and 2 the shadow-AI page; pillars ask for three references. */
  lemma RowPriority(p: LegacyPage, c: Cluster)
    ensures var r := RowWith(p, c);
      (r.pagePriority == 1 <==> r.isPillar)
      && (r.pagePriority == 9 <==> r.robots == NoindexFollow)
      && (r.pagePriority == 2 <==> p.finalSlug == ShadowAiSlug)
      && (r.referencesMin >= 3 <==> r.isPillar)
      && (r.isPillar ==> r.robots == IndexFollow)
  {
    RowRobots(p, c);
    ShadowNotPillar();
  }

  /** The row's url is the site's base URL followed by the final URL, ending in a slash. */
  lemma RowUrl(p: LegacyPage, c: Cluster)
    ensures var r := RowWith(p, c);
      EndsWith(r.url, "/")
      && (EndsWith(p.finalUrl, "/") ==> r.url == BaseUrl + p.finalUrl)
  {
    var u := WithTrailingSlash(p.finalUrl);
    assert (BaseUrl + u)[|BaseUrl + u| - 1] == u[|u| - 1];
  }

  /** `main`: the rows of all pages, in order; a missing file is an error. */
  function BuildRows(pages: Option<seq<LegacyPage>>): Result<seq<SsotRow>, string> {
    match pages
    case None => Failure(MissingPages)
    case Some(ps) => Success(seq(|ps|, i requires 0 <= i < |ps| => RowFor(ps[i])))
  }

  /**
   * With distinct final slugs, no two indexable rows share an intent id:
   * the rows pass the one-indexable-page-per-intent rule.
   */
  lemma RowsMece(ps: seq<LegacyPage>, i: nat, j: nat)
    requires i < j < |ps| && ps[i].finalSlug != ps[j].finalSlug
    requires BuildRows(Some(ps)).value[i].robots == IndexFollow
    requires BuildRows(Some(ps)).value[j].robots == IndexFollow
    ensures BuildRows(Some(ps)).value[i].intentId != BuildRows(Some(ps)).value[j].intentId
  {
    var a, b := ps[i].finalSlug, ps[j].finalSlug;
    RowRobots(ps[i], ClusterOf(a));
    RowRobots(ps[j], ClusterOf(b));
    NamedIntentDomain(a);
    NamedIntentDomain(b);
    NamedIntentSlug(a);
    NamedIntentSlug(b);
    var m, n := NamedIntentOf(a).value, NamedIntentOf(b).value;
    NameInjective(m, n);
  }
}
