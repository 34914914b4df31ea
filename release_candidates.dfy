/**
 * The index-release candidate selection: pages of the quality report that
 * passed validation, are not too similar to a neighbour and show a CTA
 * become candidates; the first twenty are selected, and their final slugs
 * make the suggested allowlist, whose first eight make the FAQ-schema list.
 * URL parsing is the caller's: each page carries the pathname of its url,
 * or None when the url does not parse.
 */
module ReleaseCandidates {
  import opened Wrappers
  import opened Strings
  import Seqs

  const ContentSimilarityMaxAllowed: real := 0.92
  const MaxCandidates: nat := 20
  const MinTopicsDiversity: nat := 4
  const FaqSchemaCandidates: nat := 8

  /** The `topic` field: absent (or null), an array, or some other JSON value. */
  datatype Topics = NoTopics | TopicList(items: seq<string>) | NotAList

  /** A page of the quality report; `path` is the pathname of `url`, None when it does not parse. */
  datatype QualityPage = QualityPage(
    pageId: string, url: string, path: Option<string>,
    pass: bool, fail: bool,
    contentSimilarity: Option<real>, topic: Topics, ctaPresent: Option<bool>)

  function Min(a: nat, b: nat): nat {
    if a < b then a else b
  }

  /** Passed every required rule and failed none. */
  predicate Passed(p: QualityPage) {
    p.pass && !p.fail
  }

  /** A passed page becomes a candidate when its similarity (0 when absent) is under 0.92, it has a CTA, and its topics are a list. */
  predicate CandidateOk(p: QualityPage) {
    p.contentSimilarity.GetOr(0.0) < ContentSimilarityMaxAllowed
    && p.ctaPresent == Some(true)
    && !p.topic.NotAList?
  }

  function PassedPages(pages: seq<QualityPage>): seq<QualityPage> {
    Seqs.Filter(Passed, pages)
  }

  function Candidates(passed: seq<QualityPage>): seq<QualityPage> {
    Seqs.Filter(CandidateOk, passed)
  }

  /** A page is a candidate exactly when it is in the report, passed, and meets the candidate rules. */
  lemma CandidateIff(pages: seq<QualityPage>, p: QualityPage)
    ensures p in Candidates(PassedPages(pages)) <==> p in pages && Passed(p) && CandidateOk(p)
  {
    Seqs.FilterMember(CandidateOk, PassedPages(pages), p);
    Seqs.FilterMember(Passed, pages, p);
  }

  /** The candidate loop: the passed pages in order, each kept when it meets the rules. */
  method CollectCandidates(passed: seq<QualityPage>) returns (candidates: seq<QualityPage>)
    ensures candidates == Candidates(passed)
  {
    candidates := [];
    for i := 0 to |passed|
      invariant candidates == Candidates(passed[..i])
    {
      Seqs.FilterSnoc(CandidateOk, passed, i);
      var p := passed[i];
      var contentSim := p.contentSimilarity.GetOr(0.0);
      if contentSim >= ContentSimilarityMaxAllowed {
        continue;
      }
      if p.ctaPresent != Some(true) {
        continue;
      }
      if p.topic.NotAList? {
        continue;
      }
      candidates := candidates + [p];
    }
    assert passed[..|passed|] == passed;
  }

  /** `p.topic ?? ["misc"]`, as the selection loop reads it. */
  function TopicsOrMisc(p: QualityPage): seq<string> {
    match p.topic
    case NoTopics => ["misc"]
    case TopicList(ts) => ts
    case NotAList => []
  }

  /** `p.topic ?? []`, as the diversity loop reads it. */
  function TopicsOrNone(p: QualityPage): seq<string> {
    match p.topic
    case TopicList(ts) => ts
    case _ => []
  }

  /** The topics seen over a list of pages. */
  function TopicsSeen(ps: seq<QualityPage>): set<string> {
    if ps == [] then {} else TopicsSeen(ps[..|ps| - 1]) + Seqs.SetOf(TopicsOrMisc(ps[|ps| - 1]))
  }

  /** The selection loop: candidates in order, stopping once twenty are selected. */
  method SelectFirst(candidates: seq<QualityPage>) returns (selected: seq<QualityPage>, topicSeen: set<string>)
    ensures selected == candidates[..Min(MaxCandidates, |candidates|)]
    ensures topicSeen == TopicsSeen(selected)
  {
    selected, topicSeen := [], {};
    var i := 0;
    while i < |candidates|
      invariant i <= |candidates| && i <= MaxCandidates
      invariant selected == candidates[..i]
      invariant topicSeen == TopicsSeen(selected)
      invariant i < Min(MaxCandidates, |candidates|) || i == |candidates|
    {
      var p := candidates[i];
      var topics := TopicsOrMisc(p);
      topicSeen := topicSeen + Seqs.SetOf(topics);
      assert candidates[..i + 1][..i] == candidates[..i];
      selected := selected + [p];
      i := i + 1;
      if |selected| >= MaxCandidates {
        break;
      }
    }
  }

  // ------------------------------------------------------- diversity loop

  /** The guard of the topic-diversity loop. */
  predicate DiversityGuard(candidates: seq<QualityPage>, chosen: seq<nat>, seen: set<string>) {
    |chosen| < MaxCandidates && |seen| < MinTopicsDiversity && |candidates| > |chosen|
  }

  /** A page that is not chosen yet and brings a topic not seen yet. */
  predicate Brings(candidates: seq<QualityPage>, chosen: seq<nat>, seen: set<string>, i: nat)
    requires i < |candidates|
  {
    i !in chosen && exists t :: t in TopicsOrNone(candidates[i]) && t !in seen
  }

  /** `candidates.find(...)`: the first page that brings a new topic, from position `k` on. */
  function FindNext(candidates: seq<QualityPage>, chosen: seq<nat>, seen: set<string>, k: nat): (r: Option<nat>)
    requires k <= |candidates|
    ensures r.Some? ==> k <= r.value < |candidates| && Brings(candidates, chosen, seen, r.value)
    ensures r.None? ==> forall i :: k <= i < |candidates| ==> !Brings(candidates, chosen, seen, i)
    decreases |candidates| - k
  {
    if k == |candidates| then None
    else if Brings(candidates, chosen, seen, k) then Some(k)
    else FindNext(candidates, chosen, seen, k + 1)
  }

  /**
   * The topic-diversity loop, over positions in `candidates` (the source
   * compares page objects by identity). While fewer than twenty are chosen,
   * fewer than four topics are seen and candidates remain, it adds the
   * first page that brings a new topic.
   */
  method Diversify(candidates: seq<QualityPage>, chosen: seq<nat>, seen: set<string>)
    returns (chosen': seq<nat>, seen': set<string>)
    requires Seqs.Distinct(chosen) && forall k :: 0 <= k < |chosen| ==> chosen[k] < |candidates|
    ensures !DiversityGuard(candidates, chosen, seen) ==> chosen' == chosen && seen' == seen
    ensures |chosen| <= |chosen'| && chosen'[..|chosen|] == chosen
    ensures Seqs.Distinct(chosen') && forall k :: 0 <= k < |chosen'| ==> chosen'[k] < |candidates|
    ensures seen <= seen'
  {
    chosen', seen' := chosen, seen;
    Seqs.DistinctCard(chosen');
    while DiversityGuard(candidates, chosen', seen')
      invariant Seqs.Distinct(chosen') && forall k :: 0 <= k < |chosen'| ==> chosen'[k] < |candidates|
      invariant |chosen| <= |chosen'| && chosen'[..|chosen|] == chosen && seen <= seen'
      invariant !DiversityGuard(candidates, chosen, seen) ==> chosen' == chosen && seen' == seen
      decreases |candidates| - |chosen'|
    {
      var next := FindNext(candidates, chosen', seen', 0);
      if next.None? {
        break;
      }
      var n := next.value;
      assert n !in chosen';
      chosen' := chosen' + [n];
      seen' := seen' + Seqs.SetOf(TopicsOrNone(candidates[n]));
    }
  }

  /** After the selection loop, the diversity loop's guard is false: twenty are chosen, or every candidate is. */
  lemma DiversityUnreachable(candidates: seq<QualityPage>, seen: set<string>)
    ensures !DiversityGuard(candidates, Range(Min(MaxCandidates, |candidates|)), seen)
  {
  }

  // ------------------------------------------- the evidently intended selection

  /** The topics of the pages at positions `idx`. */
  function TopicsAt(candidates: seq<QualityPage>, idx: seq<nat>): set<string>
    requires forall k :: 0 <= k < |idx| ==> idx[k] < |candidates|
  {
    if idx == [] then {}
    else TopicsAt(candidates, idx[..|idx| - 1]) + Seqs.SetOf(TopicsOrNone(candidates[idx[|idx| - 1]]))
  }

  /** Every chosen page's topics are among the topics of the choice. */
  lemma {:induction false} TopicsAtHas(candidates: seq<QualityPage>, idx: seq<nat>, k: nat)
    requires forall j :: 0 <= j < |idx| ==> idx[j] < |candidates|
    requires k < |idx|
    ensures Seqs.SetOf(TopicsOrNone(candidates[idx[k]])) <= TopicsAt(candidates, idx)
  {
    if k < |idx| - 1 {
      TopicsAtHas(candidates, idx[..|idx| - 1], k);
    }
  }

  /** Choosing more pages never loses a topic. */
  lemma {:induction false} TopicsAtPrefix(candidates: seq<QualityPage>, idx: seq<nat>, n: nat)
    requires forall j :: 0 <= j < |idx| ==> idx[j] < |candidates|
    requires n <= |idx|
    ensures TopicsAt(candidates, idx[..n]) <= TopicsAt(candidates, idx)
    decreases |idx| - n
  {
    if n < |idx| {
      var init := idx[..|idx| - 1];
      assert idx[..n] == init[..n];
      TopicsAtPrefix(candidates, init, n);
    } else {
      assert idx[..n] == idx;
    }
  }

  /** Bringing a new topic grows the topics seen by at least one. */
  lemma AddBringsOne(candidates: seq<QualityPage>, chosen: seq<nat>, seen: set<string>, n: nat)
    requires n < |candidates| && Brings(candidates, chosen, seen, n)
    ensures |seen + Seqs.SetOf(TopicsOrNone(candidates[n]))| >= |seen| + 1
  {
    var t :| t in TopicsOrNone(candidates[n]) && t !in seen;
    Seqs.SetOfMembers(TopicsOrNone(candidates[n]));
    SubsetCard(seen + {t}, seen + Seqs.SetOf(TopicsOrNone(candidates[n])));
  }

  /**
   * The first half of the intended selection: while fewer than four topics
   * are covered, add the first page that brings a new one. It stops with
   * four topics covered, or with every candidate's topics covered.
   */
  method PickDiverse(candidates: seq<QualityPage>) returns (chosen: seq<nat>)
    ensures Seqs.Distinct(chosen) && forall k :: 0 <= k < |chosen| ==> chosen[k] < |candidates|
    ensures |chosen| <= MinTopicsDiversity
    ensures |TopicsAt(candidates, chosen)| >= MinTopicsDiversity
      || forall i :: 0 <= i < |candidates| ==> Seqs.SetOf(TopicsOrNone(candidates[i])) <= TopicsAt(candidates, chosen)
  {
    chosen := [];
    var seen: set<string> := {};
    while |seen| < MinTopicsDiversity
      invariant Seqs.Distinct(chosen) && forall k :: 0 <= k < |chosen| ==> chosen[k] < |candidates|
      invariant seen == TopicsAt(candidates, chosen) && |chosen| <= |seen| && |chosen| <= MinTopicsDiversity
      decreases MinTopicsDiversity - |seen|
    {
      var next := FindNext(candidates, chosen, seen, 0);
      if next.None? {
        CoveredWhenNoneBrings(candidates, chosen, seen);
        return;
      }
      var n := next.value;
      AddBringsOne(candidates, chosen, seen, n);
      assert (chosen + [n])[..|chosen|] == chosen;
      chosen := chosen + [n];
      seen := seen + Seqs.SetOf(TopicsOrNone(candidates[n]));
    }
  }

  /** The second half: the candidates not chosen yet, in order, until twenty are chosen. */
  method FillInOrder(candidates: seq<QualityPage>, diverse: seq<nat>) returns (chosen: seq<nat>)
    requires Seqs.Distinct(diverse) && forall k :: 0 <= k < |diverse| ==> diverse[k] < |candidates|
    requires |diverse| <= MaxCandidates
    ensures Seqs.Distinct(chosen) && forall k :: 0 <= k < |chosen| ==> chosen[k] < |candidates|
    ensures |diverse| <= |chosen| <= MaxCandidates && chosen[..|diverse|] == diverse
    ensures |chosen| < MaxCandidates ==> forall i :: 0 <= i < |candidates| ==> i in chosen
  {
    chosen := diverse;
    for i := 0 to |candidates|
      invariant Seqs.Distinct(chosen) && forall k :: 0 <= k < |chosen| ==> chosen[k] < |candidates|
      invariant |diverse| <= |chosen| <= MaxCandidates && chosen[..|diverse|] == diverse
      invariant |chosen| < MaxCandidates ==> forall j :: 0 <= j < i ==> j in chosen
    {
      if |chosen| < MaxCandidates && i !in chosen {
        Seqs.DistinctConcat(chosen, [i]);
        assert (chosen + [i])[..|diverse|] == chosen[..|diverse|];
        chosen := chosen + [i];
      }
    }
  }

  /**
   * The evident intent of the topic-diversity loop, which as written never
   * runs (`DiversityUnreachable`): pick for diversity first, then fill up in
   * order. The choice covers four topics, or every topic any candidate has.
   */
  method SelectDiverse(candidates: seq<QualityPage>) returns (chosen: seq<nat>)
    ensures Seqs.Distinct(chosen) && forall k :: 0 <= k < |chosen| ==> chosen[k] < |candidates|
    ensures |chosen| <= MaxCandidates
    ensures |TopicsAt(candidates, chosen)| >= MinTopicsDiversity
      || forall i :: 0 <= i < |candidates| ==> Seqs.SetOf(TopicsOrNone(candidates[i])) <= TopicsAt(candidates, chosen)
  {
    var diverse := PickDiverse(candidates);
    chosen := FillInOrder(candidates, diverse);
    TopicsAtPrefix(candidates, chosen, |diverse|);
    var picked, all := TopicsAt(candidates, diverse), TopicsAt(candidates, chosen);
    assert picked <= all;
    if |picked| >= MinTopicsDiversity {
      SubsetCard(picked, all);
    }
  }

  /** When no page brings a new topic, the topics seen cover every candidate's. */
  lemma CoveredWhenNoneBrings(candidates: seq<QualityPage>, chosen: seq<nat>, seen: set<string>)
    requires forall k :: 0 <= k < |chosen| ==> chosen[k] < |candidates|
    requires seen == TopicsAt(candidates, chosen)
    requires FindNext(candidates, chosen, seen, 0).None?
    ensures forall i :: 0 <= i < |candidates| ==> Seqs.SetOf(TopicsOrNone(candidates[i])) <= seen
  {
    forall i | 0 <= i < |candidates|
      ensures Seqs.SetOf(TopicsOrNone(candidates[i])) <= seen
    {
      assert !Brings(candidates, chosen, seen, i);
      Seqs.SetOfMembers(TopicsOrNone(candidates[i]));
      if i in chosen {
        var k :| 0 <= k < |chosen| && chosen[k] == i;
        TopicsAtHas(candidates, chosen, k);
      }
    }
  }

  /** A subset has no more members than its superset. */
  lemma {:induction false} SubsetCard<T>(a: set<T>, b: set<T>)
    requires a <= b
    ensures |a| <= |b|
    decreases |b|
  {
    if a != {} {
      var x :| x in a;
      SubsetCard(a - {x}, b - {x});
    }
  }

  /** The positions `0 .. n-1`. */
  function Range(n: nat): (r: seq<nat>)
    ensures |r| == n && forall k :: 0 <= k < n ==> r[k] == k
  {
    seq(n, k requires 0 <= k < n => k)
  }

  lemma RangeDistinct(n: nat)
    ensures Seqs.Distinct(Range(n))
  {
  }

  // ---------------------------------------------------------------- slugs

  /** The last non-empty part, or "". */
  function LastNonEmpty(parts: seq<string>): string {
    if parts == [] then ""
    else if parts[|parts| - 1] != [] then parts[|parts| - 1]
    else LastNonEmpty(parts[..|parts| - 1])
  }

  lemma {:induction false} LastNonEmptyIn(parts: seq<string>)
    ensures LastNonEmpty(parts) == [] || LastNonEmpty(parts) in parts
  {
    if parts != [] && parts[|parts| - 1] == [] {
      LastNonEmptyIn(parts[..|parts| - 1]);
    }
  }

  /** `finalSlugFromUrl`: the last non-empty segment of the pathname without one trailing slash; "" when the url does not parse. */
  function FinalSlug(path: Option<string>): string {
    match path
    case None => ""
    case Some(p) => LastNonEmpty(Split(DropTrailingSlash(p), '/'))
  }

  /** A final slug is one path segment: it holds no slash. */
  lemma FinalSlugNoSlash(path: Option<string>)
    ensures '/' !in FinalSlug(path)
  {
    if path.Some? {
      var parts := Split(DropTrailingSlash(path.value), '/');
      LastNonEmptyIn(parts);
      if FinalSlug(path) != [] {
        var k :| 0 <= k < |parts| && parts[k] == FinalSlug(path);
        SplitParts(DropTrailingSlash(path.value), '/', k);
      }
    }
  }

  /** The slug of `<dir>/<slug>` and of `<dir>/<slug>/` is `<slug>`. */
  lemma FinalSlugOfPage(dir: string, slug: string)
    requires slug != [] && '/' !in slug
    ensures FinalSlug(Some(dir + "/" + slug)) == slug
    ensures FinalSlug(Some(dir + "/" + slug + "/")) == slug
  {
    assert DropTrailingSlash(dir + "/" + slug + "/") == dir + "/" + slug;
    assert slug[|slug| - 1] in slug;
    assert DropTrailingSlash(dir + "/" + slug) == dir + "/" + slug;
    SplitConcat(dir, slug, '/');
    SplitNoSep(slug, '/');
    assert dir + "/" + slug == dir + ['/'] + slug;
  }

  function SlugOf(p: QualityPage): seq<string> {
    var s := FinalSlug(p.path);
    if s == [] then [] else [s]
  }

  /** `selected.map(finalSlugFromUrl).filter(Boolean)`. */
  function AllowSlugs(selected: seq<QualityPage>): seq<string> {
    Seqs.FlatMap(SlugOf, selected)
  }

  /** The suggested allowlist holds exactly the non-empty slugs of the selected pages, each one path segment. */
  lemma AllowSlugsSpec(selected: seq<QualityPage>, s: string)
    ensures s in AllowSlugs(selected) <==> s != [] && exists i :: 0 <= i < |selected| && FinalSlug(selected[i].path) == s
    ensures s in AllowSlugs(selected) ==> '/' !in s
  {
    Seqs.FlatMapMember(SlugOf, selected, s);
    if s in AllowSlugs(selected) {
      var i :| 0 <= i < |selected| && s in SlugOf(selected[i]);
      FinalSlugNoSlash(selected[i].path);
    }
  }

  // ----------------------------------------------------------------- main

  /** What a run writes: a placeholder report without the quality report, else the suggested lists. */
  datatype Outcome =
    | Placeholder
    | Suggested(passedCount: nat, candidateCount: nat, selected: seq<QualityPage>, allow: seq<string>, faq: seq<string>)

  /** `main`, over the quality report's pages (None when the report is missing). */
  method Run(report: Option<seq<QualityPage>>) returns (out: Outcome)
    ensures report.None? <==> out.Placeholder?
    ensures report.Some? ==>
      var candidates := Candidates(PassedPages(report.value));
      out.passedCount == |PassedPages(report.value)|
      && out.candidateCount == |candidates|
      && out.selected == candidates[..Min(MaxCandidates, |candidates|)]
      && out.allow == AllowSlugs(out.selected)
      && out.faq == out.allow[..Min(FaqSchemaCandidates, |out.allow|)]
  {
    if report.None? {
      return Placeholder;
    }
    var passed := PassedPages(report.value);
    var candidates := CollectCandidates(passed);
    var selected, topicSeen := SelectFirst(candidates);
    var k := |selected|;
    RangeDistinct(k);
    DiversityUnreachable(candidates, topicSeen);
    var chosen, seen := Diversify(candidates, Range(k), topicSeen);
    assert chosen == Range(k);
    var slugs := AllowSlugs(selected);
    var faq := slugs[..Min(FaqSchemaCandidates, |slugs|)];
    out := Suggested(|passed|, |candidates|, selected, slugs, faq);
  }

  /** At most twenty are selected, all of them candidates, and the FAQ list is the first eight slugs of the allowlist. */
  lemma SelectionBounds(pages: seq<QualityPage>)
    ensures var c := Candidates(PassedPages(pages));
            var sel := c[..Min(MaxCandidates, |c|)];
            |sel| <= MaxCandidates
            && (|c| >= MaxCandidates ==> |sel| == MaxCandidates)
            && (forall p :: p in sel ==> p in pages && Passed(p) && CandidateOk(p))
            && |AllowSlugs(sel)| <= |sel|
  {
    var c := Candidates(PassedPages(pages));
    var sel := c[..Min(MaxCandidates, |c|)];
    forall p | p in sel ensures p in pages && Passed(p) && CandidateOk(p) {
      CandidateIff(pages, p);
    }
    AllowSlugsLength(sel);
  }

  lemma {:induction false} AllowSlugsLength(sel: seq<QualityPage>)
    ensures |AllowSlugs(sel)| <= |sel|
  {
    if sel != [] {
      AllowSlugsLength(sel[..|sel| - 1]);
    }
  }
}
