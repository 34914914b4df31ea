/**
 * The catalog builder: the 25 hand-written page seeds are topped up with
 * generated seeds, evenly over the page types A to E, to a target total;
 * each seed becomes a Japanese catalog page with its modules, its
 * references and a rotation of the other pages as related pages. The
 * generated ids come from a counter that lives as long as the builder.
 * Writing the YAML file is left out.
 */
module BuildCatalog {
  import opened Strings
  import Seqs

  const AimoStandard: string := "https://aimoaas.com/ja/aimo-standard/"
  const Aimo: string := "https://aimoaas.com/ja"
  const ShadowAi: string := "https://aimoaas.com/ja/resources/shadow-ai/"
  const Hitl: string := "https://aimoaas.com/ja/resources/human-in-the-loop/"
  const AuditFirms: string := "https://aimoaas.com/ja/audit-firms/"
  const Iso42001: string := "https://www.iso.org/standard/81230.html"
  const NistRmf: string := "https://www.nist.gov/itl/ai-risk-management-framework"
  const EuAiAct: string := "https://eur-lex.europa.eu/legal-content/EN/TXT/?uri=CELEX:32024R1689"

  datatype PageType = A | B | C | D | E {
    /** `t.toLowerCase()`. */
    function Letter(): char {
      match this
      case A => 'a'
      case B => 'b'
      case C => 'c'
      case D => 'd'
      case E => 'e'
    }
  }

  const Types: seq<PageType> := [A, B, C, D, E]

  datatype Cta = Tier1FreeLogAnalysis | Tier2BprSprint | ExecOnepagerRequest

  const Ctas: seq<Cta> := [Tier1FreeLogAnalysis, Tier2BprSprint, ExecOnepagerRequest]

  // ---------------------------------------------------- pick, modules, refs

  /** `pick`: `arr.slice(0, n)`. */
  function Pick<T>(arr: seq<T>, n: nat): (r: seq<T>)
    ensures |r| == (if n < |arr| then n else |arr|)
    ensures r == arr[..|r|]
  {
    if n < |arr| then arr[..n] else arr
  }

  // The module files a page can draw on.
  const AuditQuestionsPack: string := "audit-questions-pack.md"
  const CommonGapsAndRemediation: string := "common-gaps-and-remediation.md"
  const ContinuousAuditWorkflow: string := "continuous-audit-workflow.md"
  const ControlToEvidenceFrequency: string := "control-to-evidence-frequency.md"
  const CoverageMapEuAiActPerspectives: string := "coverage-map-eu-ai-act-perspectives.md"
  const CoverageMapIso42001Perspectives: string := "coverage-map-iso42001-perspectives.md"
  const CoverageMapNistRmfPerspectives: string := "coverage-map-nist-rmf-perspectives.md"
  const CoverageMapOverview: string := "coverage-map-overview.md"
  const EvidenceBundleStructureSummary: string := "evidence-bundle-structure-summary.md"
  const EvidencePackCommonFormats: string := "evidence-pack-common-formats.md"
  const EvidencePackIndexRequirements: string := "evidence-pack-index-requirements.md"
  const EvidencePackTableTemplate: string := "evidence-pack-table-template.md"
  const GlossaryEvidenceTerms: string := "glossary-evidence-terms.md"
  const InventoryAndReviewCycle: string := "inventory-and-review-cycle.md"
  const MinimumEvidenceChecklistShadowAi: string := "minimum-evidence-checklist-shadow-ai.md"
  const MinimumEvidenceRequirementsTable: string := "minimum-evidence-requirements-table.md"
  const ProofVsAssuranceTable: string := "proof-vs-assurance-table.md"
  const RaciRequestApprovalException: string := "raci-request-approval-exception.md"
  const ResponsibilityBoundaryProofAssurance: string := "responsibility-boundary-proof-assurance.md"
  const SlaAndResponsibilityMatrix: string := "sla-and-responsibility-matrix.md"
  const WorkflowRequestReviewExceptionRenewal: string := "workflow-request-review-exception-renewal.md"

  /** The six modules of each page type, most specific first. */
  function ModulesOf(t: PageType): (r: seq<string>)
    ensures |r| == 6
  {
    match t
    case A => [EvidenceBundleStructureSummary, EvidencePackTableTemplate, EvidencePackIndexRequirements,
               EvidencePackCommonFormats, CommonGapsAndRemediation, GlossaryEvidenceTerms]
    case B => [MinimumEvidenceRequirementsTable, MinimumEvidenceChecklistShadowAi, ControlToEvidenceFrequency,
               AuditQuestionsPack, CommonGapsAndRemediation, EvidencePackTableTemplate]
    case C => [WorkflowRequestReviewExceptionRenewal, RaciRequestApprovalException, ContinuousAuditWorkflow,
               InventoryAndReviewCycle, CommonGapsAndRemediation, AuditQuestionsPack]
    case D => [ResponsibilityBoundaryProofAssurance, ProofVsAssuranceTable, SlaAndResponsibilityMatrix,
               CommonGapsAndRemediation, AuditQuestionsPack, EvidencePackTableTemplate]
    case E => [CoverageMapOverview, CoverageMapIso42001Perspectives, CoverageMapNistRmfPerspectives,
               CoverageMapEuAiActPerspectives, CommonGapsAndRemediation, MinimumEvidenceRequirementsTable]
  }

  /** `pickModules`: the first `max(count, 5)` of the type's modules, so five or six. */
  function PickModules(t: PageType, count: nat): (r: seq<string>)
    ensures |r| == (if count >= 6 then 6 else 5)
    ensures r == ModulesOf(t)[..|r|]
    ensures count >= 6 ==> r == ModulesOf(t)
  {
    Pick(ModulesOf(t), if count > 5 then count else 5)
  }

  const BaseRefs: seq<string> := [AimoStandard, Aimo, ShadowAi, Hitl, AuditFirms]

  /** `refsAimo`: the first `min` base references, then the extras, first occurrences kept. */
  function RefsAimo(min: nat, extra: seq<string>): seq<string> {
    Seqs.Dedup(Pick(BaseRefs, min) + extra)
  }

  /** Without repeats among the chosen references and extras, nothing is dropped. */
  lemma RefsAimoDistinct(min: nat, extra: seq<string>)
    requires Seqs.Distinct(Pick(BaseRefs, min) + extra)
    ensures RefsAimo(min, extra) == Pick(BaseRefs, min) + extra
  {
    Seqs.DedupOfDistinct(Pick(BaseRefs, min) + extra);
  }

  /** The references of a page: the three AIMO references, plus the three standards for type E. */
  function RefsFor(t: PageType): seq<string> {
    if t == E then RefsAimo(3, [Iso42001, NistRmf, EuAiAct]) else RefsAimo(3, [])
  }

  /** E pages get six references, all other types three. */
  lemma RefsForCount(t: PageType)
    ensures |RefsFor(t)| == (if t == E then 6 else 3)
    ensures RefsFor(t)[..3] == [AimoStandard, Aimo, ShadowAi]
  {
    var base := [AimoStandard, Aimo, ShadowAi];
    assert Pick(BaseRefs, 3) == base;
    if t == E {
      var all := base + [Iso42001, NistRmf, EuAiAct];
      assert |AimoStandard| == 37 && |Aimo| == 22 && |ShadowAi| == 43;
      assert |Iso42001| == 39 && |NistRmf| == 53 && |EuAiAct| == 68;
      assert Seqs.Distinct(all);
      RefsAimoDistinct(3, [Iso42001, NistRmf, EuAiAct]);
    } else {
      assert |AimoStandard| == 37 && |Aimo| == 22 && |ShadowAi| == 43;
      assert base + [] == base;
      assert Seqs.Distinct(base);
      RefsAimoDistinct(3, []);
    }
  }

  // ------------------------------------------------------------ the seeds

  datatype PageSeed = PageSeed(id: string, pageType: PageType, slug: string, intentKeywords: seq<string>, primaryCta: Cta)

  /** The hand-written seeds. */
  const HandWritten: seq<PageSeed> :=
    [
     PageSeed("pseo-evidence-pack", A, "/ja/resources/pseo/evidence-pack/",
              ["Evidence Pack", "証拠パック", "監査提出物", "証跡目次", "証跡バンドル"], Tier1FreeLogAnalysis),
     PageSeed("pseo-evidence-pack-formats", A, "/ja/resources/pseo/evidence-pack-formats/",
              ["Evidence Pack 形式", "証跡 形式", "監査 提出 形式"], Tier2BprSprint),
     PageSeed("pseo-evidence-pack-index", A, "/ja/resources/pseo/evidence-pack-index/",
              ["証跡目次", "監査 証拠 一覧", "Evidence Pack 目次"], Tier1FreeLogAnalysis),
     PageSeed("pseo-evidence-pack-minimum", A, "/ja/resources/pseo/evidence-pack-minimum/",
              ["証拠 最小要件", "監査 提出 最小", "Evidence 最小"], Tier2BprSprint),
     PageSeed("pseo-evidence-bundle-structure", A, "/ja/resources/pseo/evidence-bundle-structure/",
              ["証跡バンドル 構成", "監査 証拠 構成", "Evidence Bundle"], Tier1FreeLogAnalysis),
     PageSeed("pseo-audit-submission-checklist", A, "/ja/resources/pseo/audit-submission-checklist/",
              ["監査 提出 チェックリスト", "証跡 提出物", "申請 証拠"], Tier2BprSprint),
     PageSeed("pseo-evidence-gaps-remediation", A, "/ja/resources/pseo/evidence-gaps-remediation/",
              ["証拠 欠落", "監査 指摘 対策", "証跡 ギャップ"], Tier1FreeLogAnalysis),
     PageSeed("pseo-evidence-formats-standards", A, "/ja/resources/pseo/evidence-formats-standards/",
              ["証跡 形式 基準", "監査 提出 形式", "Evidence 形式"], ExecOnepagerRequest),
     PageSeed("pseo-minimum-evidence", B, "/ja/resources/pseo/minimum-evidence-requirements/",
              ["最小証拠要件", "必要証跡", "証拠 頻度", "統制 証跡"], Tier1FreeLogAnalysis),
     PageSeed("pseo-minimum-evidence-shadow-ai", B, "/ja/resources/pseo/minimum-evidence-shadow-ai/",
              ["シャドーAI 証跡", "シャドーAI 証拠要件", "個人利用 ログ 証跡"], Tier2BprSprint),
     PageSeed("pseo-audit-questions-pack", B, "/ja/resources/pseo/audit-questions-pack/",
              ["監査 質問 証跡", "監査で聞かれる 証拠", "内部監査 AI ガバナンス"], Tier1FreeLogAnalysis),
     PageSeed("pseo-control-evidence-frequency", B, "/ja/resources/pseo/control-evidence-frequency/",
              ["統制 証跡 頻度", "証拠 頻度 要件", "ログ 保持 頻度"], Tier2BprSprint),
     PageSeed("pseo-evidence-requirements-table", B, "/ja/resources/pseo/evidence-requirements-table/",
              ["証拠要件 表", "統制 証跡 一覧", "最小証拠 表"], Tier1FreeLogAnalysis),
     PageSeed("pseo-internal-audit-evidence", B, "/ja/resources/pseo/internal-audit-evidence/",
              ["内部監査 証跡", "監査 証拠 準備", "AI ガバナンス 証跡"], Tier2BprSprint),
     PageSeed("pseo-operating-workflow", C, "/ja/resources/pseo/operating-workflow/",
              ["AI 利用 運用フロー", "申請 審査 例外 更新", "棚卸 継続監査", "RACI ガバナンス"], Tier1FreeLogAnalysis),
     PageSeed("pseo-workflow-renewal", C, "/ja/resources/pseo/operating-workflow-renewal/",
              ["ポリシー 更新 フロー", "例外 申請 審査", "継続監査 棚卸"], ExecOnepagerRequest),
     PageSeed("pseo-request-review-exception", C, "/ja/resources/pseo/request-review-exception/",
              ["申請 審査", "例外 申請", "AI 利用 申請"], Tier1FreeLogAnalysis),
     PageSeed("pseo-raci-governance", C, "/ja/resources/pseo/raci-governance/",
              ["RACI", "責任 分担", "申請 承認 責任"], Tier2BprSprint),
     PageSeed("pseo-inventory-review-cycle", C, "/ja/resources/pseo/inventory-review-cycle/",
              ["棚卸", "継続監査", "定期 レビュー"], Tier1FreeLogAnalysis),
     PageSeed("pseo-continuous-audit-workflow", C, "/ja/resources/pseo/continuous-audit-workflow/",
              ["継続監査 フロー", "棚卸 サイクル", "監査 継続"], Tier2BprSprint),
     PageSeed("pseo-responsibility-boundary", D, "/ja/resources/pseo/responsibility-boundary/",
              ["責任分界", "Proof Assurance", "証憑 保証", "誰が保証するか"], ExecOnepagerRequest),
     PageSeed("pseo-proof-vs-assurance", D, "/ja/resources/pseo/proof-vs-assurance/",
              ["Proof Assurance", "証憑 保証", "責任 分界"], ExecOnepagerRequest),
     PageSeed("pseo-sla-responsibility-matrix", D, "/ja/resources/pseo/sla-responsibility-matrix/",
              ["SLA", "責任 マトリクス", "保証 範囲"], Tier2BprSprint),
     PageSeed("pseo-coverage-map", E, "/ja/resources/pseo/coverage-map/",
              ["Coverage Map", "ISO 42001 対応観点", "NIST AI RMF 対応", "EU AI Act 対応観点"], Tier2BprSprint),
     PageSeed("pseo-coverage-map-iso", E, "/ja/resources/pseo/coverage-map-iso42001/",
              ["ISO IEC 42001 対応", "AI マネジメント 証跡", "42001 証拠"], ExecOnepagerRequest)
    ]

  /** The keyword pool of each type. */
  function IntentPool(t: PageType): (r: seq<seq<string>>)
    ensures |r| > 0
  {
    match t
    case A => [["監査", "証跡", "申請", "Evidence Pack"], ["証拠パック", "提出物", "目次"], ["証跡バンドル", "最小要件"], ["監査提出物", "形式"]]
    case B => [["監査", "証跡", "最小証拠"], ["証拠要件", "頻度", "統制"], ["シャドーAI", "ログ", "証跡"], ["内部監査", "質問", "証拠"]]
    case C => [["申請", "審査", "例外", "更新"], ["棚卸", "継続監査", "RACI"], ["運用フロー", "ポリシー更新"], ["Human-in-the-Loop", "申請 承認"]]
    case D => [["責任分界", "Proof", "Assurance"], ["証憑", "保証", "誰が"], ["SLA", "責任マトリクス"]]
    case E => [["ISO/IEC 42001", "NIST AI RMF", "EU AI Act"], ["ISMS", "対応観点", "Coverage Map"], ["AI マネジメント", "規制 対応"]]
  }

  const PseoPrefix: string := "/ja/resources/pseo/"

  /** The keywords every generated seed ends with, room permitting. */
  const GenSuffix: seq<string> := ["監査", "証跡"]

  /** `pseo-gen-<t>-<n>`. */
  function GenId(t: PageType, n: nat): string {
    "pseo-gen-" + [t.Letter()] + "-" + NatToString(n)
  }

  /** Generated ids of distinct counter values differ, whatever their types. */
  lemma GenIdInjective(t: PageType, n: nat, u: PageType, m: nat)
    requires GenId(t, n) == GenId(u, m)
    ensures n == m
  {
    var p := "pseo-gen-" + [t.Letter()] + "-";
    var q := "pseo-gen-" + [u.Letter()] + "-";
    assert |p| == |q| == 11;
    assert GenId(t, n)[11..] == NatToString(n);
    assert GenId(u, m)[11..] == NatToString(m);
    NatToStringInjective(n, m);
  }

  /** The seed generated in iteration `i` of type `t`'s loop, numbered `n`: keywords and CTAs taken in turn. */
  function GenSeed(t: PageType, i: nat, n: nat): (s: PageSeed)
    ensures s.id == GenId(t, n) && s.pageType == t
  {
    var pool := IntentPool(t);
    PageSeed(GenId(t, n), t, PseoPrefix + [t.Letter()] + "-" + NatToString(n) + "/",
             Pick(pool[i % |pool|] + GenSuffix, 5), Ctas[i % 3])
  }

  /** A generated seed has at most five keywords and the CTA of its iteration, modulo three. */
  lemma GenSeedShape(t: PageType, i: nat, n: nat)
    ensures |GenSeed(t, i, n).intentKeywords| <= 5 && GenSeed(t, i, n).primaryCta == Ctas[i % 3]
    ensures GenSeed(t, i, n).slug == PseoPrefix + [t.Letter()] + "-" + NatToString(n) + "/"
  {
  }

  /** A maker of seeds: from the iteration and the counter value, the seed. */
  type Maker = (nat, nat) -> PageSeed

  /** The makers of the five page types. */
  function Makers(): PageType -> Maker {
    t => (i: nat, n: nat) => GenSeed(t, i, n)
  }

  /**
   * `Math.ceil((targetTotal - SEEDS.length) / 5)` for `seeds` hand-written
   * seeds; a value of zero or less runs no iteration, so it is taken as 0.
   */
  function PerType(seeds: nat, target: nat): (r: nat)
    ensures target > seeds ==> 5 * r >= target - seeds
  {
    if target <= seeds then 0 else (target - seeds + 4) / 5
  }

  /** The inner loop from iteration `i`: a seed per iteration while below the target; the result and the counter. */
  function GenLoop(mk: Maker, i: nat, perType: nat, target: nat, out: seq<PageSeed>, id: nat): (seq<PageSeed>, nat)
    decreases perType - i
  {
    if i < perType && |out| < target then GenLoop(mk, i + 1, perType, target, out + [mk(i, id + 1)], id + 1)
    else (out, id)
  }

  /** The outer loop over the remaining types. */
  function GenTypes(ts: seq<PageType>, mks: PageType -> Maker, perType: nat, target: nat, out: seq<PageSeed>, id: nat): (seq<PageSeed>, nat) {
    if ts == [] then (out, id)
    else
      var (o, n) := GenLoop(mks(ts[0]), 0, perType, target, out, id);
      GenTypes(ts[1..], mks, perType, target, o, n)
  }

  function Min(a: nat, b: nat): nat {
    if a <= b then a else b
  }

  /** How many seeds the inner loop appends from iteration `i`, with `len` seeds so far. */
  function Count(i: nat, perType: nat, target: nat, len: nat): nat {
    if i < perType && len < target then Min(perType - i, target - len) else 0
  }

  /** `c` seeds from iteration `i`, numbered on from `id`. */
  function Gens(mk: Maker, i: nat, c: nat, id: nat): (r: seq<PageSeed>)
    ensures |r| == c
    decreases c
  {
    if c == 0 then [] else [mk(i, id + 1)] + Gens(mk, i + 1, c - 1, id + 1)
  }

  /** The `k`-th of them is the seed of iteration `i + k`, numbered `id + 1 + k`. */
  lemma {:induction false} GensAt(mk: Maker, i: nat, c: nat, id: nat, k: nat)
    requires k < c
    ensures Gens(mk, i, c, id)[k] == mk(i + k, id + 1 + k)
    decreases k
  {
    if k > 0 {
      GensAt(mk, i + 1, c - 1, id + 1, k - 1);
    }
  }

  /**
   * The inner loop appends seeds while below the target, numbering them on
   * from the counter, and leaves the seeds before it alone.
   */
  lemma {:induction false} GenLoopSpec(mk: Maker, i: nat, perType: nat, target: nat, out: seq<PageSeed>, id: nat)
    ensures var c := Count(i, perType, target, |out|);
      GenLoop(mk, i, perType, target, out, id) == (out + Gens(mk, i, c, id), id + c)
    decreases perType - i
  {
    var c := Count(i, perType, target, |out|);
    if i < perType && |out| < target {
      var out' := out + [mk(i, id + 1)];
      GenLoopSpec(mk, i + 1, perType, target, out', id + 1);
      assert Count(i + 1, perType, target, |out'|) == c - 1;
      assert out' + Gens(mk, i + 1, c - 1, id + 1) == out + Gens(mk, i, c, id);
    } else {
      assert out + Gens(mk, i, c, id) == out;
    }
  }

  /** The outer loop: it appends while below the target, and the counter advances by the number appended. */
  lemma {:induction false} GenTypesCount(ts: seq<PageType>, mks: PageType -> Maker, perType: nat, target: nat, out: seq<PageSeed>, id: nat)
    ensures var (o, n) := GenTypes(ts, mks, perType, target, out, id);
      |o| == (if |out| >= target then |out| else Min(target, |out| + |ts| * perType))
      && o[..|out|] == out && n == id + (|o| - |out|)
  {
    if ts != [] {
      var c := Count(0, perType, target, |out|);
      GenLoopSpec(mks(ts[0]), 0, perType, target, out, id);
      var (o1, n1) := GenLoop(mks(ts[0]), 0, perType, target, out, id);
      assert o1 == out + Gens(mks(ts[0]), 0, c, id) && n1 == id + c;
      assert o1[..|out|] == out;
      GenTypesCount(ts[1..], mks, perType, target, o1, n1);
      var (o, n) := GenTypes(ts[1..], mks, perType, target, o1, n1);
      assert o[..|out|] == o[..|o1|][..|out|];
      CountArith(|out|, c, |o|, |ts| - 1, perType, target);
    }
  }

  /** The lengths of one inner loop followed by the loops over `m` more types. */
  lemma CountArith(len: nat, c: nat, len2: nat, m: nat, perType: nat, target: nat)
    requires c == Count(0, perType, target, len)
    requires len2 == (if len + c >= target then len + c else Min(target, len + c + m * perType))
    ensures len2 == (if len >= target then len else Min(target, len + (m + 1) * perType))
  {
    assert (m + 1) * perType == m * perType + perType;
  }

  /** A seed some type's maker makes, with counter value `n`. */
  ghost predicate Made(s: PageSeed, mks: PageType -> Maker, n: nat) {
    exists t: PageType, i: nat :: s == mks(t)(i, n)
  }

  /** The outer loop: the counter numbers all generated seeds consecutively, across types. */
  lemma {:induction false} GenTypesSpec(ts: seq<PageType>, mks: PageType -> Maker, perType: nat, target: nat, out: seq<PageSeed>, id: nat)
    ensures var (o, n) := GenTypes(ts, mks, perType, target, out, id);
      forall k :: |out| <= k < |o| ==> Made(o[k], mks, id + 1 + (k - |out|))
  {
    if ts != [] {
      var c := Count(0, perType, target, |out|);
      GenLoopSpec(mks(ts[0]), 0, perType, target, out, id);
      var (o1, n1) := GenLoop(mks(ts[0]), 0, perType, target, out, id);
      GenTypesSpec(ts[1..], mks, perType, target, o1, n1);
      GenTypesCount(ts[1..], mks, perType, target, o1, n1);
      var (o, n) := GenTypes(ts[1..], mks, perType, target, o1, n1);
      forall k | |out| <= k < |o|
        ensures Made(o[k], mks, id + 1 + (k - |out|))
      {
        if k < |o1| {
          GensAt(mks(ts[0]), 0, c, id, k - |out|);
          assert o[k] == o[..|o1|][k] == o1[k] == Gens(mks(ts[0]), 0, c, id)[k - |out|];
          assert o[k] == mks(ts[0])(k - |out|, id + 1 + (k - |out|));
        }
      }
    }
  }

  /**
   * `moreSeeds` over the hand-written seeds `hw`, from counter value `id`:
   * exactly `target` seeds, and the counter afterwards, advanced by the
   * number of seeds generated.
   */
  function MoreSeedsFrom(hw: seq<PageSeed>, target: nat, id: nat): (r: (seq<PageSeed>, nat))
    ensures |r.0| == target && r.1 == id + (target - Min(target, |hw|))
  {
    var p := PerType(|hw|, target);
    GenTypesCount(Types, Makers(), p, target, hw, id);
    var (o, n) := GenTypes(Types, Makers(), p, target, hw, id);
    (Pick(o, target), n)
  }

  /**
   * The seeds `moreSeeds` returns start with the hand-written ones; each
   * seed after them is a generated one, numbered on from the counter.
   */
  lemma MoreSeedsShape(hw: seq<PageSeed>, target: nat, id: nat)
    ensures var s := MoreSeedsFrom(hw, target, id).0;
      s[..Min(target, |hw|)] == hw[..Min(target, |hw|)]
      && forall k :: |hw| <= k < target ==> Made(s[k], Makers(), id + 1 + (k - |hw|))
  {
    var p := PerType(|hw|, target);
    GenTypesCount(Types, Makers(), p, target, hw, id);
    GenTypesSpec(Types, Makers(), p, target, hw, id);
    var (o, n) := GenTypes(Types, Makers(), p, target, hw, id);
    var s := Pick(o, target);
    assert s[..Min(target, |hw|)] == o[..|hw|][..Min(target, |hw|)];
    forall k | |hw| <= k < target
      ensures Made(s[k], Makers(), id + 1 + (k - |hw|))
    {
      assert s[k] == o[k];
    }
  }

  /** A seed the makers make is a generated seed of its own type. */
  lemma MadeGen(s: PageSeed, n: nat)
    requires Made(s, Makers(), n)
    ensures exists i: nat :: s == GenSeed(s.pageType, i, n)
  {
    var t: PageType, i: nat :| s == Makers()(t)(i, n);
    assert s == GenSeed(t, i, n);
  }

  /**
   * Two generated seeds of one run have distinct ids; each has at most five
   * keywords and the CTA of its place in its type's loop, modulo three.
   */
  lemma MoreSeedsGenerated(hw: seq<PageSeed>, target: nat, id: nat, k: nat, k': nat)
    requires |hw| <= k < k' < target
    ensures var s := MoreSeedsFrom(hw, target, id).0;
      s[k].id != s[k'].id && |s[k].intentKeywords| <= 5
      && exists i: nat :: s[k].primaryCta == Ctas[i % 3] && s[k] == GenSeed(s[k].pageType, i, id + 1 + (k - |hw|))
  {
    var s := MoreSeedsFrom(hw, target, id).0;
    var n := id + 1 + (k - |hw|);
    var i := GeneratedAt(hw, target, id, k);
    var i' := GeneratedAt(hw, target, id, k');
    GenSeedShape(s[k].pageType, i, n);
    if s[k].id == s[k'].id {
      GenIdInjective(s[k].pageType, n, s[k'].pageType, id + 1 + (k' - |hw|));
    }
  }

  /** Seed `k` past the hand-written ones is a generated seed numbered `id + 1 + (k - |hw|)`. */
  lemma GeneratedAt(hw: seq<PageSeed>, target: nat, id: nat, k: nat) returns (i: nat)
    requires |hw| <= k < target
    ensures var s := MoreSeedsFrom(hw, target, id).0;
      s[k] == GenSeed(s[k].pageType, i, id + 1 + (k - |hw|))
  {
    MoreSeedsShape(hw, target, id);
    var s := MoreSeedsFrom(hw, target, id).0;
    MadeGen(s[k], id + 1 + (k - |hw|));
    i :| s[k] == GenSeed(s[k].pageType, i, id + 1 + (k - |hw|));
  }

  /** The length and last character of an id: enough to tell the hand-written ids apart. */
  function Signature(id: string): (nat, char) {
    if id == [] then (0, ' ') else (|id|, id[|id| - 1])
  }

  /** The signatures of the hand-written ids, in order. */
  const HandWrittenSignatures: seq<(nat, char)> := [
     (18, 'k'), (26, 's'), (24, 'x'), (26, 'm'), (30, 'e'), (31, 't'), (30, 'n'), (31, 's'),
     (21, 'e'), (31, 'i'), (25, 'k'), (31, 'y'), (32, 'e'), (28, 'e'), (23, 'w'), (21, 'l'),
     (29, 'n'), (20, 'e'), (27, 'e'), (30, 'w'), (28, 'y'), (23, 'e'), (30, 'x'), (17, 'p'),
     (21, 'o')
    ]

  /** No two hand-written signatures are equal, and none ends in a digit. */
  lemma SignaturesDistinct()
    ensures forall i, j :: 0 <= i < j < |HandWrittenSignatures| ==> HandWrittenSignatures[i] != HandWrittenSignatures[j]
    ensures forall i :: 0 <= i < |HandWrittenSignatures| ==>
      HandWrittenSignatures[i].0 > 0 && !('0' <= HandWrittenSignatures[i].1 <= '9')
  {
  }

  lemma HandWrittenSignaturesAt()
    ensures |HandWritten| == |HandWrittenSignatures|
    ensures forall i :: 0 <= i < |HandWritten| ==> Signature(HandWritten[i].id) == HandWrittenSignatures[i]
  {
    var sigs := seq(|HandWritten|, i requires 0 <= i < |HandWritten| => Signature(HandWritten[i].id));
    assert sigs == HandWrittenSignatures;
  }

  /** Ids that cannot be generated ones: non-empty and not ending in a digit. */
  predicate NotGenerated(hw: seq<PageSeed>) {
    forall k :: 0 <= k < |hw| ==> hw[k].id != [] && !('0' <= hw[k].id[|hw[k].id| - 1] <= '9')
  }

  /** The hand-written ids are distinct, and none can be mistaken for a generated one. */
  lemma HandWrittenDistinct()
    ensures Seqs.Distinct(IdsOf(HandWritten)) && NotGenerated(HandWritten)
  {
    SignaturesDistinct();
    HandWrittenSignaturesAt();
  }

  /** A generated id ends in a digit. */
  lemma GenIdEndsInDigit(t: PageType, n: nat)
    ensures GenId(t, n) != [] && '0' <= GenId(t, n)[|GenId(t, n)| - 1] <= '9'
  {
    var d := NatToString(n);
    assert GenId(t, n)[|GenId(t, n)| - 1] == d[|d| - 1];
  }

  /**
   * Over distinct hand-written ids that no generated id can equal,
   * every seed `moreSeeds` returns has its own id.
   */
  lemma MoreSeedsDistinct(hw: seq<PageSeed>, target: nat, id: nat)
    requires Seqs.Distinct(IdsOf(hw)) && NotGenerated(hw)
    ensures Seqs.Distinct(IdsOf(MoreSeedsFrom(hw, target, id).0))
  {
    var s := MoreSeedsFrom(hw, target, id).0;
    var h := Min(target, |hw|);
    MoreSeedsShape(hw, target, id);
    forall i, j | 0 <= i < j < |s|
      ensures s[i].id != s[j].id
    {
      if j < h {
        assert s[i] == s[..h][i] == hw[i] && s[j] == s[..h][j] == hw[j];
      } else if i < h {
        assert s[i] == s[..h][i] == hw[i];
        var g := GeneratedAt(hw, target, id, j);
        GenIdEndsInDigit(s[j].pageType, id + 1 + (j - |hw|));
      } else {
        MoreSeedsGenerated(hw, target, id, i, j);
      }
    }
  }

  /**
   * The builder: the module-level `seedId` counter is its field, and the
   * hand-written seeds it starts every run from are fixed at construction.
   */
  class CatalogBuilder {
    const seeds: seq<PageSeed>
    var seedId: nat

    constructor()
      ensures seeds == HandWritten && seedId == 100
    {
      seeds := HandWritten;
      seedId := 100;
    }

    /** `moreSeeds`: the counter goes on from where the last call left it. */
    method MoreSeeds(target: nat) returns (out: seq<PageSeed>)
      modifies this
      ensures (out, seedId) == MoreSeedsFrom(seeds, target, old(seedId))
    {
      var id0 := seedId;
      out := seeds;
      var perType := PerType(|seeds|, target);
      for j := 0 to |Types|
        invariant GenTypes(Types[j..], Makers(), perType, target, out, seedId) == GenTypes(Types, Makers(), perType, target, seeds, id0)
      {
        var t := Types[j];
        var pool := IntentPool(t);
        var out0, id1 := out, seedId;
        var i := 0;
        while i < perType && |out| < target
          invariant i <= perType
          invariant GenLoop(Makers()(t), i, perType, target, out, seedId) == GenLoop(Makers()(t), 0, perType, target, out0, id1)
          decreases perType - i
        {
          var kw := pool[i % |pool|];
          seedId := seedId + 1;
          out := out + [PageSeed(GenId(t, seedId), t, PseoPrefix + [t.Letter()] + "-" + NatToString(seedId) + "/",
                                 Pick(kw + GenSuffix, 5), Ctas[i % 3])];
          i := i + 1;
        }
        assert Types[j..][1..] == Types[j + 1..];
      }
      out := Pick(out, target);
    }
  }

  /** Consecutive calls number their seeds in disjoint ranges: the second starts where the first stopped. */
  lemma SecondCallContinues(hw: seq<PageSeed>, target: nat, target': nat, id: nat, k: nat, k': nat)
    requires |hw| <= k < target && |hw| <= k' < target'
    ensures var (s, n) := MoreSeedsFrom(hw, target, id);
      s[k].id != MoreSeedsFrom(hw, target', n).0[k'].id
  {
    var (s, n) := MoreSeedsFrom(hw, target, id);
    var s' := MoreSeedsFrom(hw, target', n).0;
    var i := GeneratedAt(hw, target, id, k);
    var i' := GeneratedAt(hw, target', n, k');
    if s[k].id == s'[k'].id {
      GenIdInjective(s[k].pageType, id + 1 + (k - |hw|), s'[k'].pageType, n + 1 + (k' - |hw|));
    }
  }

  // ---------------------------------------------------------- buildPages

  datatype CatalogPage = CatalogPage(id: string, lang: string, pageType: PageType, slug: string,
                                     intentKeywords: seq<string>, primaryCta: Cta, moduleRefs: seq<string>,
                                     references: seq<string>, relatedPages: seq<string>)

  function NotId(id: string): string -> bool {
    x => x != id
  }

  /** `others`, rotated to start at `idx mod max(1, |others|)`, cut to eight. */
  function Related(allIds: seq<string>, id: string, idx: nat): seq<string> {
    var others := Seqs.Filter(NotId(id), allIds);
    var start := idx % (if |others| > 1 then |others| else 1);
    Pick(Rotate(others, start), 8)
  }

  function PageFor(seeds: seq<PageSeed>, idx: nat): CatalogPage
    requires idx < |seeds|
  {
    var s := seeds[idx];
    CatalogPage(s.id, "ja", s.pageType, s.slug, s.intentKeywords, s.primaryCta, PickModules(s.pageType, 6),
                RefsFor(s.pageType), Related(IdsOf(seeds), s.id, idx))
  }

  function IdsOf(seeds: seq<PageSeed>): (r: seq<string>)
    ensures |r| == |seeds| && forall i :: 0 <= i < |seeds| ==> r[i] == seeds[i].id
  {
    seq(|seeds|, i requires 0 <= i < |seeds| => seeds[i].id)
  }

  /** `buildPages`. */
  function BuildPages(seeds: seq<PageSeed>): (r: seq<CatalogPage>)
    ensures |r| == |seeds|
    ensures forall i :: 0 <= i < |r| ==> r[i].lang == "ja" && |r[i].moduleRefs| == 6
  {
    seq(|seeds|, i requires 0 <= i < |seeds| => PageFor(seeds, i))
  }

  /** Removing every copy of one value leaves the others' count. */
  lemma {:induction false} FilterOutCount(s: seq<string>, x: string)
    ensures |Seqs.Filter(NotId(x), s)| + multiset(s)[x] == |s|
  {
    if s != [] {
      var n := |s| - 1;
      FilterOutCount(s[..n], x);
      Seqs.FilterSnoc(NotId(x), s, n);
      assert s[..n + 1] == s == s[..n] + [s[n]];
      assert multiset(s) == multiset(s[..n]) + multiset{s[n]};
    }
  }

  /**
   * The related pages are other pages only, never the page itself, and
   * there are min(8, |others|) of them: a rotation of the other ids.
   */
  lemma RelatedSpec(allIds: seq<string>, id: string, idx: nat)
    ensures var r := Related(allIds, id, idx);
      |r| == Min(8, |Seqs.Filter(NotId(id), allIds)|)
      && id !in r
      && forall x :: x in r ==> x in allIds
  {
    var others := Seqs.Filter(NotId(id), allIds);
    var start := idx % (if |others| > 1 then |others| else 1);
    var rotated := Rotate(others, start);
    forall x | x in rotated
      ensures x in others
    {
    }
    forall x | x in Related(allIds, id, idx)
      ensures x != id && x in allIds
    {
      Seqs.FilterMember(NotId(id), allIds, x);
    }
  }

  /** `[...s.slice(start), ...s.slice(0, start)]`. */
  function Rotate<T>(s: seq<T>, start: nat): (r: seq<T>)
    requires start <= |s|
    ensures |r| == |s|
  {
    s[start..] + s[..start]
  }

  /** Below twice the divisor, the remainder is at most one subtraction away. */
  lemma ModOnce(x: nat, n: nat)
    requires 0 < n && x < 2 * n
    ensures x % n == if x < n then x else x - n
  {
  }

  /** Position `k` of a rotation holds the element `k` places on from the start, wrapping round. */
  lemma RotateAt<T>(s: seq<T>, start: nat, k: nat)
    requires start < |s| && k < |s|
    ensures Rotate(s, start)[k] == s[(start + k) % |s|]
  {
    ModOnce(start + k, |s|);
  }

  /** The related pages go round the other ids from position `idx mod |others|`, wrapping at the end. */
  lemma RelatedRotation(allIds: seq<string>, id: string, idx: nat, k: nat)
    requires k < |Related(allIds, id, idx)|
    ensures var others := Seqs.Filter(NotId(id), allIds);
      |others| > 0 && Related(allIds, id, idx)[k] == others[(idx % |others| + k) % |others|]
  {
    var others := Seqs.Filter(NotId(id), allIds);
    var n := |others|;
    var start := idx % (if n > 1 then n else 1);
    assert Related(allIds, id, idx)[k] == Rotate(others, start)[k];
    assert start == idx % n;
    RotateAt(others, start, k);
  }

  /** With distinct ids, every page has min(8, n - 1) related pages. */
  lemma RelatedCount(seeds: seq<PageSeed>, idx: nat)
    requires idx < |seeds| && Seqs.Distinct(IdsOf(seeds))
    ensures |BuildPages(seeds)[idx].relatedPages| == Min(8, |seeds| - 1)
    ensures seeds[idx].id !in BuildPages(seeds)[idx].relatedPages
  {
    var ids := IdsOf(seeds);
    RelatedSpec(ids, seeds[idx].id, idx);
    FilterOutCount(ids, seeds[idx].id);
    Seqs.DistinctCount(ids);
    assert ids[idx] in ids;
  }

  /** `main`: a fresh builder, one hundred seeds, their pages. */
  method Main100() returns (pages: seq<CatalogPage>)
    ensures |pages| == 100
    ensures forall i :: 0 <= i < |pages| ==> pages[i].lang == "ja" && |pages[i].moduleRefs| == 6
    ensures forall i, j :: 0 <= i < j < |pages| ==> pages[i].id != pages[j].id
    ensures forall i :: 0 <= i < |pages| ==> |pages[i].relatedPages| == 8 && pages[i].id !in pages[i].relatedPages
  {
    var builder := new CatalogBuilder();
    var seeds := builder.MoreSeeds(100);
    HandWrittenDistinct();
    MoreSeedsDistinct(HandWritten, 100, 100);
    pages := BuildPages(seeds);
    forall i | 0 <= i < |pages|
      ensures |pages[i].relatedPages| == 8 && pages[i].id !in pages[i].relatedPages
    {
      RelatedCount(seeds, i);
    }
    assert forall i :: 0 <= i < |pages| ==> pages[i].id == IdsOf(seeds)[i];
  }
}
