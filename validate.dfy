/**
 * The page validator of the PSEO pipeline: per-page fail rules (H1/H2,
 * canonical, og:url, robots, CTA, claims, legacy redirect, same content,
 * unique elements), warn-only rules, the redirect-file parser, the MECE and
 * duplicate-report global gates, and the exit decision.
 */
module Validate {
  import opened Wrappers
  import opened Strings
  import opened Seqs
  import MeceGate

  /** `content_max` at or above this is the same content: a failure. */
  const ContentSimilaritySame: real := 0.99
  /** `content_max` at or above this (and below the failure level) is only a warning. */
  const ContentSimilarityWarn: real := 0.9

  const MinTableRows: nat := 10
  const MinFaq: nat := 8
  const MinInternalLinks: nat := 8
  const MinPageTypesInLinks: nat := 3
  const MinChecklistItems: nat := 3
  const MinTableCells: nat := 15
  const MinIntentKeywordsMatched: nat := 2
  const RequiredArtifacts: seq<string> := ["最小要件表", "監査質問集（抜粋）", "RACI（簡易）"]
  const MinRequiredArtifacts: nat := 2

  // ------------------------------------------------------------ redirects

  /** The set entry `${from} -> ${to}`. */
  function Pair(from: string, to: string): string {
    from + " -> " + to
  }

  /**
   * One line of `_redirects`: when its trimmed text splits on whitespace into
   * at least two tokens, the source loses one trailing slash and the target
   * is normalised to end in exactly one added slash.
   */
  function RedirectEntry(line: string): (e: Option<(string, string)>)
    ensures e.Some? ==> EndsWith(e.value.1, "/") && |e.value.0| <= |line|
  {
    var t := SplitWs(Trim(line));
    if |t| >= 2 then Some((DropTrailingSlash(t[0]), DropTrailingSlash(Trim(t[1])) + "/"))
    else None
  }

  /** The two set entries a parsed line contributes. */
  function EntryPairs(e: Option<(string, string)>): set<string> {
    if e.Some? then {Pair(e.value.0, e.value.1), Pair(e.value.0 + "/", e.value.1)} else {}
  }

  /** The entries of the lines, in order. */
  function Entries(lines: seq<string>): (es: seq<Option<(string, string)>>)
    ensures |es| == |lines|
  {
    seq(|lines|, k requires 0 <= k < |lines| => RedirectEntry(lines[k]))
  }

  /** The set the loop over the parsed lines builds. */
  function PairsOf(es: seq<Option<(string, string)>>): set<string> {
    if es == [] then {} else PairsOf(es[..|es| - 1]) + EntryPairs(es[|es| - 1])
  }

  /** A missing `_redirects` is an empty set; otherwise its lines are split on "\n". */
  function Redirects(text: Option<string>): set<string> {
    if text.None? then {} else PairsOf(Entries(Split(text.value, '\n')))
  }

  /**
   * An entry is in the set exactly when some line parses to `(from, to)` and
   * the entry is `from -> to` or `from/ -> to`.
   */
  lemma {:induction false} PairsOfMember(es: seq<Option<(string, string)>>, s: string)
    ensures s in PairsOf(es) <==> exists k :: 0 <= k < |es| && s in EntryPairs(es[k])
  {
    if es != [] {
      var n := |es| - 1;
      PairsOfMember(es[..n], s);
      if exists k :: 0 <= k < |es| && s in EntryPairs(es[k]) {
        var k :| 0 <= k < |es| && s in EntryPairs(es[k]);
        if k < n {
          assert es[..n][k] == es[k];
        }
      }
    }
  }

  /** `loadRedirects`: the set is built line by line. */
  method LoadRedirects(text: Option<string>) returns (pairs: set<string>)
    ensures pairs == Redirects(text)
  {
    if text.None? {
      return {};
    }
    pairs := CollectPairs(Split(text.value, '\n'));
  }

  method CollectPairs(lines: seq<string>) returns (pairs: set<string>)
    ensures pairs == PairsOf(Entries(lines))
  {
    pairs := {};
    ghost var es := Entries(lines);
    for i := 0 to |lines|
      invariant pairs == PairsOf(es[..i])
    {
      var e := RedirectEntry(lines[i]);
      assert es[..i + 1][..i] == es[..i] && es[i] == e;
      assert PairsOf(es[..i + 1]) == PairsOf(es[..i]) + EntryPairs(e);
      pairs := pairs + EntryPairs(e);
    }
    assert es[..|lines|] == es;
  }

  /** `s.replace(/\/+/g, "/")`: every run of slashes becomes one. */
  function CollapseSlashes(s: string): (r: string)
    ensures s != [] ==> r != [] && r[0] == s[0]
    ensures forall i :: 0 <= i < |r| - 1 ==> !(r[i] == '/' && r[i + 1] == '/')
    decreases |s|
  {
    if s == [] then []
    else if |s| > 1 && s[0] == '/' && s[1] == '/' then CollapseSlashes(s[1..])
    else [s[0]] + CollapseSlashes(s[1..])
  }

  /** The source of the redirect a legacy url needs: one trailing slash removed. */
  function LegacyFrom(legacyUrl: string): string {
    DropTrailingSlash(legacyUrl)
  }

  /** Its target: the final url with one trailing slash, runs of slashes collapsed. */
  function LegacyTo(finalUrl: string): string {
    CollapseSlashes(DropTrailingSlash(finalUrl) + "/")
  }

  /** The legacy check: either spelling of the source redirects to the final url. */
  predicate LegacyRedirected(redirects: set<string>, legacyUrl: string, finalUrl: string) {
    Pair(LegacyFrom(legacyUrl), LegacyTo(finalUrl)) in redirects
    || Pair(LegacyFrom(legacyUrl) + "/", LegacyTo(finalUrl)) in redirects
  }

  // ------------------------------------------------------ url extraction

  /**
   * `extractCanonical` / `extractOgUrl` after the regular-expression match:
   * no match gives "", a match is trimmed, loses every trailing slash and
   * gains exactly one.
   */
  function ExtractUrl(m: Option<string>): string {
    if m.None? then "" else DropTrailingSlashes(Trim(m.value)) + "/"
  }

  /** The extracted url is empty or ends in exactly one slash. */
  lemma ExtractUrlShape(m: Option<string>)
    ensures var r := ExtractUrl(m);
      r == "" || (r[|r| - 1] == '/' && (|r| == 1 || r[|r| - 2] != '/'))
  {
  }

  /** `extractRobots`: the trimmed match, or "". */
  function ExtractRobots(m: Option<string>): string {
    if m.None? then "" else Trim(m.value)
  }

  // ----------------------------------------------------------- body scan

  const OpenDiv: string := "<div"
  const CloseDiv: string := "</div>"

  /** A tag the scan steps over: a `<div` or a `</div>`, by where it starts. */
  datatype Tag = OpenTag(at: nat) | CloseTag(at: nat)

  /**
   * The two searches of one scan step: the next `</div>` from `i`, and the
   * next `<div` when it comes before it; None when no `</div>` is left.
   */
  function NextTag(html: string, i: nat): (r: Option<Tag>)
    ensures r.Some? ==> i <= r.value.at < |html|
  {
    var o := IndexOf(html, OpenDiv, i);
    var c := IndexOf(html, CloseDiv, i);
    if c == -1 then None
    else if o != -1 && o < c then Some(OpenTag(o))
    else Some(CloseTag(c))
  }

  /** The tag found is the first `<div` or `</div>` from `i`: none starts before it. */
  lemma NextTagSpec(html: string, i: nat)
    ensures var r := NextTag(html, i);
      r.Some? ==> (Clear(html, i, r.value.at)
        && (r.value.OpenTag? ==> MatchAt(html, OpenDiv, r.value.at))
        && (r.value.CloseTag? ==> MatchAt(html, CloseDiv, r.value.at)))
    ensures NextTag(html, i).None? <==> IndexOf(html, CloseDiv, i) == -1
  {
    IndexOfFirst(html, OpenDiv, i);
    IndexOfFirst(html, CloseDiv, i);
  }

  /** A tag search over a text of length `n`: each tag it reports lies at or after where it looks. */
  ghost predicate Finder(next: nat -> Option<Tag>, n: nat) {
    forall k: nat :: next(k).Some? ==> k <= next(k).value.at < n
  }

  /** The tag `next` reports from `k`. */
  function TagAt(next: nat -> Option<Tag>, k: nat): Option<Tag> {
    next(k)
  }

  /** Each tag `next` reports is really there, and is the first one from where it looks. */
  ghost predicate FindsFirst(html: string, next: nat -> Option<Tag>) {
    forall k: nat {:trigger TagAt(next, k)} :: TagAt(next, k).Some? ==> (Clear(html, k, TagAt(next, k).value.at)
      && (TagAt(next, k).value.OpenTag? ==> MatchAt(html, OpenDiv, TagAt(next, k).value.at))
      && (TagAt(next, k).value.CloseTag? ==> MatchAt(html, CloseDiv, TagAt(next, k).value.at)))
  }

  /** The tag search of `getBodyHtml`. */
  function TagsOf(html: string): (next: nat -> Option<Tag>)
    ensures Finder(next, |html|)
  {
    (k: nat) => NextTag(html, k)
  }

  lemma TagsOfFindsFirst(html: string)
    ensures FindsFirst(html, TagsOf(html))
  {
    var next := TagsOf(html);
    forall k: nat | TagAt(next, k).Some?
      ensures Clear(html, k, TagAt(next, k).value.at)
      ensures TagAt(next, k).value.OpenTag? ==> MatchAt(html, OpenDiv, TagAt(next, k).value.at)
      ensures TagAt(next, k).value.CloseTag? ==> MatchAt(html, CloseDiv, TagAt(next, k).value.at)
    {
      NextTagSpec(html, k);
    }
  }

  /**
   * The depth-counting scan from position `i` at depth `depth`, stepping
   * from tag to tag as `next` finds them: the position of the `</div>` that
   * brings the depth to 0, or None when the tags or the text run out.
   */
  function Walk(next: nat -> Option<Tag>, n: nat, i: nat, depth: nat): (r: Option<nat>)
    requires Finder(next, n)
    ensures r.Some? ==> i <= r.value < n
    decreases n - i
  {
    if depth == 0 || i >= n then None
    else
      match next(i)
      case None => None
      case Some(OpenTag(o)) => Walk(next, n, o + 4, depth + 1)
      case Some(CloseTag(c)) => if depth == 1 then Some(c) else Walk(next, n, c + 6, depth - 1)
  }

  /** A walk that ends at `e` takes its first step over the tag `next` finds at `i`. */
  lemma WalkStep(next: nat -> Option<Tag>, n: nat, i: nat, depth: nat, e: nat) returns (t: Tag)
    requires Finder(next, n) && depth >= 1 && Walk(next, n, i, depth) == Some(e)
    ensures next(i) == Some(t)
    ensures t.OpenTag? ==> Walk(next, n, t.at + 4, depth + 1) == Some(e)
    ensures t.CloseTag? && depth == 1 ==> t.at == e
    ensures t.CloseTag? && depth > 1 ==> Walk(next, n, t.at + 6, depth - 1) == Some(e)
  {
    t := next(i).value;
  }

  /** The scan of `getBodyHtml` over `html`. */
  function Scan(html: string, i: nat, depth: nat): (r: Option<nat>)
    ensures r.Some? ==> i <= r.value < |html|
  {
    Walk(TagsOf(html), |html|, i, depth)
  }

  /** One step of the scan, over the tag found from `i`. */
  lemma ScanAt(html: string, i: nat, depth: nat, tag: Option<Tag>)
    requires depth > 0 && i < |html| && tag == NextTag(html, i)
    ensures tag.None? ==> Scan(html, i, depth) == None
    ensures tag.Some? && tag.value.OpenTag? ==> Scan(html, i, depth) == Scan(html, tag.value.at + 4, depth + 1)
    ensures tag.Some? && tag.value.CloseTag? && depth == 1 ==> Scan(html, i, depth) == Some(tag.value.at)
    ensures tag.Some? && tag.value.CloseTag? && depth > 1 ==> Scan(html, i, depth) == Scan(html, tag.value.at + 6, depth - 1)
  {
    assert TagAt(TagsOf(html), i) == tag;
  }

  /**
   * `getBodyHtml`, given the end of the pseo-main/prose opening match: the
   * whole html without a match, else the text after the opening up to its
   * matching `</div>`, or to the end when there is none.
   */
  function BodyHtml(html: string, openEnd: Option<nat>): (r: string)
    requires openEnd.Some? ==> openEnd.value <= |html|
    ensures openEnd.None? ==> r == html
    ensures openEnd.Some? ==> StartsWith(html[openEnd.value..], r)
  {
    if openEnd.None? then html
    else
      var start := openEnd.value;
      var c := Scan(html, start, 1);
      if c.Some? then html[start..c.value] else html[start..]
  }

  /** The depth-counting loop. */
  method GetBodyHtml(html: string, openEnd: Option<nat>) returns (body: string)
    requires openEnd.Some? ==> openEnd.value <= |html|
    ensures body == BodyHtml(html, openEnd)
  {
    if openEnd.None? {
      return html;
    }
    var start := openEnd.value;
    var depth := 1;
    var i := start;
    while depth > 0 && i < |html|
      invariant start <= i && depth > 0
      invariant Scan(html, i, depth) == Scan(html, start, 1)
      decreases |html| - i
    {
      var tag := NextTag(html, i);
      ScanAt(html, i, depth, tag);
      if tag.None? {
        break;
      }
      if tag.value.OpenTag? {
        depth := depth + 1;
        i := tag.value.at + 4;
      } else {
        depth := depth - 1;
        i := tag.value.at + 6;
        if depth == 0 {
          return html[start..tag.value.at];
        }
      }
    }
    return html[start..];
  }

  // ----------------------------------------------------- tag balance

  /** The occurrences of `pat` lying wholly inside `s[lo..hi]`, counted by where they end. */
  function CountIn(s: string, pat: string, lo: nat, hi: nat): nat
    decreases hi
  {
    if hi <= lo then 0
    else CountIn(s, pat, lo, hi - 1) + (if hi - |pat| >= lo && MatchAt(s, pat, hi - |pat|) then 1 else 0)
  }

  /** The occurrences of `pat` in `t`. */
  function Count(t: string, pat: string): nat {
    CountIn(t, pat, 0, |t|)
  }

  /** No occurrence of `pat` starts at `p`. */
  predicate Free(s: string, pat: string, p: nat) {
    !MatchAt(s, pat, p)
  }

  /** No occurrence of `pat` starting at or after `lo` runs across position `m`. */
  predicate NoStraddle(s: string, pat: string, lo: nat, m: nat) {
    forall p: nat {:trigger Free(s, pat, p)} :: lo <= p < m < p + |pat| ==> Free(s, pat, p)
  }

  /** `<div` at `p`, character by character. */
  lemma OpenAt(s: string, p: nat)
    ensures MatchAt(s, OpenDiv, p) <==>
      p + 4 <= |s| && s[p] == '<' && s[p + 1] == 'd' && s[p + 2] == 'i' && s[p + 3] == 'v'
  {
    if p + 4 <= |s| {
      assert s[p..p + 4] == [s[p], s[p + 1], s[p + 2], s[p + 3]];
    }
  }

  /** `</div>` at `p`, character by character. */
  lemma CloseAt(s: string, p: nat)
    ensures MatchAt(s, CloseDiv, p) <==>
      p + 6 <= |s| && s[p] == '<' && s[p + 1] == '/' && s[p + 2] == 'd'
      && s[p + 3] == 'i' && s[p + 4] == 'v' && s[p + 5] == '>'
  {
    if p + 6 <= |s| {
      assert s[p..p + 6] == [s[p], s[p + 1], s[p + 2], s[p + 3], s[p + 4], s[p + 5]];
    }
  }

  lemma {:induction false} CountNone(s: string, pat: string, lo: nat, hi: nat)
    requires forall p: nat {:trigger Free(s, pat, p)} :: lo <= p && p + |pat| <= hi ==> Free(s, pat, p)
    ensures CountIn(s, pat, lo, hi) == 0
    decreases hi
  {
    if hi > lo {
      CountNone(s, pat, lo, hi - 1);
      if hi - |pat| >= lo {
        assert Free(s, pat, hi - |pat|);
      }
    }
  }

  /** Counts add up across a position no occurrence runs across. */
  lemma {:induction false} CountSplit(s: string, pat: string, lo: nat, mid: nat, hi: nat)
    requires lo <= mid <= hi && NoStraddle(s, pat, lo, mid)
    ensures CountIn(s, pat, lo, hi) == CountIn(s, pat, lo, mid) + CountIn(s, pat, mid, hi)
    decreases hi
  {
    if hi > mid {
      CountSplit(s, pat, lo, mid, hi - 1);
      var p := hi - |pat|;
      if lo <= p < mid {
        assert Free(s, pat, p);
      }
    }
  }

  /** Counting inside a slice is counting inside the same stretch of the whole. */
  lemma {:induction false} CountSlice(s: string, pat: string, a: nat, b: nat, k: nat)
    requires a <= b <= |s| && k <= b - a
    ensures CountIn(s[a..b], pat, 0, k) == CountIn(s, pat, a, a + k)
    decreases k
  {
    if k > 0 {
      var t := s[a..b];
      CountSlice(s, pat, a, b, k - 1);
      var inT := k - |pat| >= 0 && MatchAt(t, pat, k - |pat|);
      var inS := a + k - |pat| >= a && MatchAt(s, pat, a + k - |pat|);
      if k >= |pat| {
        SliceMatch(s, pat, a, b, k - |pat|);
      }
      assert inT == inS;
      assert CountIn(t, pat, 0, k) == CountIn(t, pat, 0, k - 1) + (if inT then 1 else 0);
      assert CountIn(s, pat, a, a + k) == CountIn(s, pat, a, a + k - 1) + (if inS then 1 else 0);
    }
  }

  /** A match inside a slice is a match at the shifted position of the whole. */
  lemma SliceMatch(s: string, pat: string, a: nat, b: nat, p: nat)
    requires a <= b <= |s| && p + |pat| <= b - a
    ensures MatchAt(s[a..b], pat, p) == MatchAt(s, pat, a + p)
  {
    var t := s[a..b];
    var k := p + |pat|;
    forall j | 0 <= j < |pat|
      ensures t[p..k][j] == s[a + p..a + k][j]
    {
      assert t[p..k][j] == t[p + j] == s[a + p + j];
    }
    assert t[p..k] == s[a + p..a + k];
  }

  /** The tag at `q` is counted once in the stretch it exactly fills. */
  lemma CountTag(s: string, pat: string, q: nat)
    requires MatchAt(s, pat, q) && |pat| > 0
    ensures CountIn(s, pat, q, q + |pat|) == 1
  {
    CountNone(s, pat, q, q + |pat| - 1);
  }

  /** No `<div` and no `</div>` starts in `[i, e)`. */
  predicate Clear(html: string, i: nat, e: nat) {
    (forall k: nat {:trigger Free(html, OpenDiv, k)} :: i <= k < e ==> Free(html, OpenDiv, k))
    && (forall k: nat {:trigger Free(html, CloseDiv, k)} :: i <= k < e ==> Free(html, CloseDiv, k))
  }

  /** Stepping over the `<div` at `o`: one more opening, no closing, nothing runs across `o + 4`. */
  lemma OpenStep(html: string, start: nat, i: nat, o: nat)
    requires start <= i <= o && MatchAt(html, OpenDiv, o) && Clear(html, i, o)
    requires NoStraddle(html, OpenDiv, start, i) && NoStraddle(html, CloseDiv, start, i)
    ensures CountIn(html, OpenDiv, start, o + 4) == CountIn(html, OpenDiv, start, i) + 1
    ensures CountIn(html, CloseDiv, start, o + 4) == CountIn(html, CloseDiv, start, i)
    ensures NoStraddle(html, OpenDiv, start, o + 4) && NoStraddle(html, CloseDiv, start, o + 4)
  {
    OpenCounts(html, start, i, o);
    OpenFree(html, start, i, o);
  }

  lemma OpenCounts(html: string, start: nat, i: nat, o: nat)
    requires start <= i <= o && MatchAt(html, OpenDiv, o) && Clear(html, i, o)
    requires NoStraddle(html, OpenDiv, start, i) && NoStraddle(html, CloseDiv, start, i)
    ensures CountIn(html, OpenDiv, start, o + 4) == CountIn(html, OpenDiv, start, i) + 1
    ensures CountIn(html, CloseDiv, start, o + 4) == CountIn(html, CloseDiv, start, i)
  {
    OpenCountsOpen(html, start, i, o);
    CountSplit(html, CloseDiv, start, i, o + 4);
    CountNone(html, CloseDiv, i, o + 4);
  }

  lemma OpenCountsOpen(html: string, start: nat, i: nat, o: nat)
    requires start <= i <= o && MatchAt(html, OpenDiv, o) && Clear(html, i, o)
    requires NoStraddle(html, OpenDiv, start, i)
    ensures CountIn(html, OpenDiv, start, o + 4) == CountIn(html, OpenDiv, start, i) + 1
  {
    CountSplit(html, OpenDiv, start, i, o + 4);
    CountNone(html, OpenDiv, i, o);
    CountSplit(html, OpenDiv, i, o, o + 4);
    CountTag(html, OpenDiv, o);
  }

  lemma OpenFree(html: string, start: nat, i: nat, o: nat)
    requires start <= i <= o && MatchAt(html, OpenDiv, o) && Clear(html, i, o)
    requires NoStraddle(html, CloseDiv, start, i)
    ensures NoStraddle(html, OpenDiv, start, o + 4) && NoStraddle(html, CloseDiv, start, o + 4)
  {
    OpenAt(html, o);
    forall p: nat | start <= p < o + 4 < p + 4
      ensures Free(html, OpenDiv, p)
    {
      OpenAt(html, p);
    }
    forall p: nat | start <= p < o + 4 < p + 6
      ensures Free(html, CloseDiv, p)
    {
      if p >= o {
        CloseAt(html, p);
      }
    }
  }

  /** Stepping over the `</div>` at `c`: one more closing, no opening. */
  lemma CloseStep(html: string, start: nat, i: nat, c: nat)
    requires start <= i <= c && MatchAt(html, CloseDiv, c) && Clear(html, i, c)
    requires NoStraddle(html, OpenDiv, start, i) && NoStraddle(html, CloseDiv, start, i)
    ensures CountIn(html, OpenDiv, start, c) == CountIn(html, OpenDiv, start, i)
    ensures CountIn(html, CloseDiv, start, c) == CountIn(html, CloseDiv, start, i)
    ensures CountIn(html, OpenDiv, start, c + 6) == CountIn(html, OpenDiv, start, i)
    ensures CountIn(html, CloseDiv, start, c + 6) == CountIn(html, CloseDiv, start, i) + 1
    ensures NoStraddle(html, OpenDiv, start, c + 6) && NoStraddle(html, CloseDiv, start, c + 6)
  {
    CloseOpenCounts(html, start, i, c);
    CloseCloseCounts(html, start, i, c);
    CloseFree(html, start, i, c);
  }

  lemma CloseOpenCounts(html: string, start: nat, i: nat, c: nat)
    requires start <= i <= c && MatchAt(html, CloseDiv, c) && Clear(html, i, c)
    requires NoStraddle(html, OpenDiv, start, i)
    ensures CountIn(html, OpenDiv, start, c) == CountIn(html, OpenDiv, start, i)
    ensures CountIn(html, OpenDiv, start, c + 6) == CountIn(html, OpenDiv, start, i)
  {
    NoOpenThroughClose(html, i, c);
    CountNone(html, OpenDiv, i, c + 6);
    CountNone(html, OpenDiv, i, c);
    CountSplit(html, OpenDiv, start, i, c);
    CountSplit(html, OpenDiv, start, i, c + 6);
  }

  /** No `<div` starts between `i` and the end of a `</div>` at `c` when none starts before `c`. */
  lemma NoOpenThroughClose(html: string, i: nat, c: nat)
    requires i <= c && MatchAt(html, CloseDiv, c) && Clear(html, i, c)
    ensures forall p: nat {:trigger Free(html, OpenDiv, p)} :: i <= p && p + 4 <= c + 6 ==> Free(html, OpenDiv, p)
  {
    CloseAt(html, c);
    forall p: nat | i <= p && p + 4 <= c + 6
      ensures Free(html, OpenDiv, p)
    {
      if p >= c {
        OpenAt(html, p);
      }
    }
  }

  lemma CloseCloseCounts(html: string, start: nat, i: nat, c: nat)
    requires start <= i <= c && MatchAt(html, CloseDiv, c) && Clear(html, i, c)
    requires NoStraddle(html, CloseDiv, start, i)
    ensures CountIn(html, CloseDiv, start, c) == CountIn(html, CloseDiv, start, i)
    ensures CountIn(html, CloseDiv, start, c + 6) == CountIn(html, CloseDiv, start, i) + 1
  {
    CountNone(html, CloseDiv, i, c);
    CountSplit(html, CloseDiv, start, i, c);
    CountSplit(html, CloseDiv, start, i, c + 6);
    CountSplit(html, CloseDiv, i, c, c + 6);
    CountTag(html, CloseDiv, c);
  }

  lemma CloseFree(html: string, start: nat, i: nat, c: nat)
    requires start <= i <= c && MatchAt(html, CloseDiv, c)
    ensures NoStraddle(html, OpenDiv, start, c + 6) && NoStraddle(html, CloseDiv, start, c + 6)
  {
    CloseAt(html, c);
    forall p: nat | start <= p < c + 6 < p + 4
      ensures Free(html, OpenDiv, p)
    {
      OpenAt(html, p);
    }
    forall p: nat | start <= p < c + 6 < p + 6
      ensures Free(html, CloseDiv, p)
    {
      CloseAt(html, p);
    }
  }

  /** Since `start`, `depth - 1` more openings than closings, and no tag runs across `i`. */
  predicate Balance(html: string, start: nat, i: nat, depth: nat) {
    start <= i <= |html|
    && NoStraddle(html, OpenDiv, start, i) && NoStraddle(html, CloseDiv, start, i)
    && CountIn(html, OpenDiv, start, i) + 1 == CountIn(html, CloseDiv, start, i) + depth
  }

  lemma OpenBalance(html: string, start: nat, i: nat, depth: nat, o: nat)
    requires Balance(html, start, i, depth) && i <= o && MatchAt(html, OpenDiv, o) && Clear(html, i, o)
    ensures Balance(html, start, o + 4, depth + 1)
  {
    OpenStep(html, start, i, o);
  }

  lemma CloseBalance(html: string, start: nat, i: nat, depth: nat, c: nat)
    requires depth >= 1 && Balance(html, start, i, depth) && i <= c && MatchAt(html, CloseDiv, c) && Clear(html, i, c)
    ensures depth > 1 ==> Balance(html, start, c + 6, depth - 1)
    ensures depth == 1 ==> CountIn(html, OpenDiv, start, c) == CountIn(html, CloseDiv, start, c)
  {
    CloseStep(html, start, i, c);
  }

  /**
   * The scan keeps `depth - 1` equal to the openings minus the closings seen
   * since `start`; so when it stops at depth 0 the two counts agree.
   */
  lemma {:induction false} ScanBalance(html: string, next: nat -> Option<Tag>, start: nat, i: nat, depth: nat, e: nat)
    requires Finder(next, |html|) && FindsFirst(html, next)
    requires depth >= 1 && Walk(next, |html|, i, depth) == Some(e) && Balance(html, start, i, depth)
    ensures CountIn(html, OpenDiv, start, e) == CountIn(html, CloseDiv, start, e)
    decreases |html| - i
  {
    var t := WalkStep(next, |html|, i, depth, e);
    TagFacts(html, next, i, t);
    if t.OpenTag? {
      OpenBalance(html, start, i, depth, t.at);
      ScanBalance(html, next, start, t.at + 4, depth + 1, e);
    } else {
      CloseBalance(html, start, i, depth, t.at);
      if depth > 1 {
        ScanBalance(html, next, start, t.at + 6, depth - 1, e);
      }
    }
  }

  /** What a reported tag guarantees: nothing before it, and the tag itself at its place. */
  lemma TagFacts(html: string, next: nat -> Option<Tag>, i: nat, t: Tag)
    requires FindsFirst(html, next) && next(i) == Some(t)
    ensures Clear(html, i, t.at)
    ensures t.OpenTag? ==> MatchAt(html, OpenDiv, t.at)
    ensures t.CloseTag? ==> MatchAt(html, CloseDiv, t.at)
  {
    assert TagAt(next, i) == Some(t);
  }

  /**
   * When the matching `</div>` is found, the body holds as many `<div` as
   * `</div>`.
   */
  /** Up to where the scan stops, the text from `start` holds as many `<div` as `</div>`. */
  lemma ScanCountsEqual(html: string, start: nat)
    requires start <= |html| && Scan(html, start, 1).Some?
    ensures CountIn(html, OpenDiv, start, Scan(html, start, 1).value)
         == CountIn(html, CloseDiv, start, Scan(html, start, 1).value)
  {
    var e := Scan(html, start, 1).value;
    assert Balance(html, start, start, 1);
    TagsOfFindsFirst(html);
    ScanBalance(html, TagsOf(html), start, start, 1, e);
  }

  lemma BodyBalanced(html: string, start: nat)
    requires start <= |html| && Scan(html, start, 1).Some?
    ensures Count(BodyHtml(html, Some(start)), OpenDiv) == Count(BodyHtml(html, Some(start)), CloseDiv)
  {
    var e := Scan(html, start, 1).value;
    ScanCountsEqual(html, start);
    BodyOfScan(html, start);
    SliceCount(html, OpenDiv, start, e);
    SliceCount(html, CloseDiv, start, e);
  }

  lemma BodyOfScan(html: string, start: nat)
    requires start <= |html| && Scan(html, start, 1).Some?
    ensures BodyHtml(html, Some(start)) == html[start..Scan(html, start, 1).value]
  {
  }

  lemma SliceCount(s: string, pat: string, a: nat, b: nat)
    requires a <= b <= |s|
    ensures Count(s[a..b], pat) == CountIn(s, pat, a, b)
  {
    CountSlice(s, pat, a, b, b - a);
  }

  // ------------------------------------------------------------- inputs

  /** A catalog entry, as far as the validator reads it. */
  datatype CatalogPage = CatalogPage(id: string, slug: string, lang: string, pageType: string,
                                     intentKeywords: seq<string>)

  /** The record `pseo_pages.json` keeps for a page after the url migration. */
  datatype PseoRecord = PseoRecord(finalSlug: string, finalUrl: string, legacyUrl: Option<string>,
                                   topic: Option<seq<string>>)

  /** An entry of `pseo_pages.json`. */
  datatype PseoPage = PseoPage(id: string, record: PseoRecord)

  /** `loadPseoPagesMap`: each record under its id and then under its final slug; later entries win. */
  function PseoMap(pages: seq<PseoPage>): map<string, PseoRecord> {
    if pages == [] then map[]
    else
      var p := pages[|pages| - 1];
      PseoMap(pages[..|pages| - 1])[p.id := p.record][p.record.finalSlug := p.record]
  }

  /** A page names `key` by its id or by its final slug. */
  predicate Names(p: PseoPage, key: string) {
    p.id == key || p.record.finalSlug == key
  }

  /**
   * A key is in the map exactly when some entry names it, and it maps to
   * the record of the last entry that does.
   */
  lemma {:induction false} PseoMapSpec(pages: seq<PseoPage>, key: string)
    ensures key in PseoMap(pages) <==> exists i :: 0 <= i < |pages| && Names(pages[i], key)
    ensures key in PseoMap(pages) ==>
      exists i :: 0 <= i < |pages| && Names(pages[i], key) && PseoMap(pages)[key] == pages[i].record
        && forall j :: i < j < |pages| ==> !Names(pages[j], key)
  {
    if pages != [] {
      var n := |pages| - 1;
      var init := pages[..n];
      PseoMapSpec(init, key);
      if !Names(pages[n], key) {
        if key in PseoMap(pages) {
          assert key in PseoMap(init);
          var i :| 0 <= i < n && Names(init[i], key) && PseoMap(init)[key] == init[i].record
            && forall j :: i < j < n ==> !Names(init[j], key);
          assert init[i] == pages[i];
          assert forall j :: i < j < |pages| ==> !Names(pages[j], key) by {
            forall j | i < j < |pages|
              ensures !Names(pages[j], key)
            {
              if j < n {
                assert init[j] == pages[j];
              }
            }
          }
        }
        if exists i :: 0 <= i < |pages| && Names(pages[i], key) {
          var i :| 0 <= i < |pages| && Names(pages[i], key);
          assert init[i] == pages[i];
        }
      } else {
        assert PseoMap(pages)[key] == pages[n].record;
      }
    }
  }

  /** The loop of `loadPseoPagesMap`; a missing file is an empty map. */
  method LoadPseoMap(file: Option<seq<PseoPage>>) returns (m: map<string, PseoRecord>)
    ensures m == PseoMap(file.GetOr([]))
  {
    var pages := file.GetOr([]);
    m := map[];
    for i := 0 to |pages|
      invariant m == PseoMap(pages[..i])
    {
      assert pages[..i + 1][..i] == pages[..i];
      var rec := pages[i].record;
      m := m[pages[i].id := rec][rec.finalSlug := rec];
    }
    assert pages[..|pages|] == pages;
  }

  /** One page of `similarity_report.json`'s `by_page`. */
  datatype SimEntry = SimEntry(contentMax: Option<real>, contentWith: Option<string>)
  datatype SimilarityFile = SimilarityFile(byPage: Option<map<string, SimEntry>>)

  /** What the validator keeps of an entry: a missing `content_max` is 0. */
  datatype SimInfo = SimInfo(contentMax: real, contentWith: Option<string>)

  /** `loadSimilarityReport`: nothing without a file or without `by_page`. */
  function LoadSimilarity(f: Option<SimilarityFile>): (r: Option<map<string, SimInfo>>)
    ensures r.Some? <==> f.Some? && f.value.byPage.Some?
    ensures r.Some? ==> r.value.Keys == f.value.byPage.value.Keys
  {
    if f.None? || f.value.byPage.None? then None
    else
      var bp := f.value.byPage.value;
      Some(map k | k in bp :: SimInfo(bp[k].contentMax.GetOr(0.0), bp[k].contentWith))
  }

  /** A table the extractor found in the body: its `<tr` and `<td`/`<th` counts. */
  datatype TableInfo = TableInfo(rowCount: nat, cellCount: nat)

  /** A link the extractor found: its trimmed href and text. */
  datatype Link = Link(href: string, text: string)

  /** What `lintClaims` reports. */
  datatype ClaimsResult = ClaimsResult(pass: bool, violations: seq<string>)

  /**
   * The regular-expression extractors the validator applies to a page. They
   * are inputs of the model: `openEnd` is the end of the pseo-main/prose
   * opening match, `canonical`, `ogUrl` and `robots` are the captured
   * attribute values, `dataUnique` the captured `data-unique` values.
   */
  datatype Extractors = Extractors(
    openEnd: string -> Option<nat>,
    stripHtml: string -> string,
    tables: string -> seq<TableInfo>,
    links: string -> seq<Link>,
    faqQuestions: string -> seq<string>,
    checklistItems: string -> nat,
    dataUnique: string -> seq<string>,
    h1Count: string -> nat,
    h2Texts: string -> seq<string>,
    canonical: string -> Option<string>,
    ogUrl: string -> Option<string>,
    robots: string -> Option<string>,
    claims: string -> ClaimsResult)

  /** The end of the opening match; an end past the text, which no match has, counts as no match. */
  function OpenEnd(ex: Extractors, html: string): (e: Option<nat>)
    ensures e.Some? ==> e.value <= |html|
    ensures e.Some? <==> ex.openEnd(html).Some? && ex.openEnd(html).value <= |html|
  {
    var e := ex.openEnd(html);
    if e.Some? && e.value <= |html| then e else None
  }

  /** Everything `validatePage` reads besides the page and its html. */
  datatype Context = Context(catalog: seq<CatalogPage>, baseUrl: string, pseoMap: map<string, PseoRecord>,
                             allow: seq<string>, redirects: set<string>,
                             similarity: Option<map<string, SimInfo>>, ex: Extractors)

  // ------------------------------------------------------------ page urls

  /** `slug` without one leading and then one trailing slash. */
  function SlugPath(slug: string): string {
    DropTrailingSlash(DropLeadingSlash(slug))
  }

  /** The last `/`-separated part of the slug path (`split` never yields an empty list). */
  function Segment(slug: string): string {
    LastPart(SlugPath(slug), '/')
  }

  /** The segment holds no slash, and a slug path without one is its own segment. */
  lemma SegmentShape(slug: string)
    ensures '/' !in Segment(slug)
    ensures '/' !in SlugPath(slug) ==> Segment(slug) == SlugPath(slug)
  {
    LastPartSpec(SlugPath(slug), '/');
  }

  /** The migration record of a page, looked up by its segment. */
  function RecordFor(page: CatalogPage, pm: map<string, PseoRecord>): Option<PseoRecord> {
    var seg := Segment(page.slug);
    if seg in pm then Some(pm[seg]) else None
  }

  /** The generated file of a page, relative to the site root. */
  datatype FilePath = PseoIndex(finalSlug: string) | SlugIndex(path: string)

  /** `getFilePathForPage`: under the final slug when migrated, else under the slug. */
  function FileFor(page: CatalogPage, pm: map<string, PseoRecord>): (f: FilePath)
    ensures f.PseoIndex? <==> RecordFor(page, pm).Some?
    ensures f.PseoIndex? ==> f.finalSlug == RecordFor(page, pm).value.finalSlug
  {
    var rec := RecordFor(page, pm);
    if rec.Some? then PseoIndex(rec.value.finalSlug) else SlugIndex(DropLeadingSlash(page.slug))
  }

  /** The url the canonical and og:url must name: the final url with one trailing slash. */
  function ExpectedFinalUrl(baseUrl: string, rec: Option<PseoRecord>): string {
    if rec.Some? then baseUrl + DropTrailingSlash(rec.value.finalUrl) + "/" else ""
  }

  /** `getReportUrlForPage`: the final url when migrated, else the slug without its trailing slash. */
  function ReportUrl(page: CatalogPage, baseUrl: string, pm: map<string, PseoRecord>): (u: string)
    ensures RecordFor(page, pm).Some? ==> u == ExpectedFinalUrl(baseUrl, RecordFor(page, pm))
    ensures StartsWith(u, baseUrl)
  {
    var rec := RecordFor(page, pm);
    if rec.Some? then ExpectedFinalUrl(baseUrl, rec) else baseUrl + DropTrailingSlash(page.slug)
  }

  // --------------------------------------------------------------- hrefs

  /** `/^https?:\/\//i`. */
  predicate HasHttpScheme(href: string) {
    StartsWith(Lower(href), "https://") || StartsWith(Lower(href), "http://")
  }

  /** `href.replace(/^https?:\/\/[^/]+/i, "")`: scheme (any case) and host removed when both are there. */
  function StripOrigin(href: string): (r: string)
    ensures r == href || (HasHttpScheme(href) && |r| < |href| && EndsWith(href, r) && (r == "" || r[0] == '/'))
  {
    var low := Lower(href);
    var n := if StartsWith(low, "https://") then 8 else if StartsWith(low, "http://") then 7 else 0;
    var rest := href[n..];
    var host := TakeRun(rest, c => c == '/');
    if n == 0 || host == [] then href
    else
      assert rest[|host|..] == href[n + |host|..];
      rest[|host|..]
  }

  /** The position just after the last line terminator, or 0. */
  function LineStart(s: string): (k: nat)
    ensures k <= |s|
    ensures forall j :: k <= j < |s| ==> !IsLineTerminator(s[j])
  {
    if s == [] then 0
    else if IsLineTerminator(s[|s| - 1]) then |s|
    else
      var k := LineStart(s[..|s| - 1]);
      assert forall j :: k <= j < |s| - 1 ==> s[..|s| - 1][j] == s[j];
      k
  }

  /**
   * `s.replace(/#.*$/, "")`: `.` stops at line terminators and `$` is the end
   * of the text, so the cut is at the first '#' with no line terminator after it.
   */
  function DropFragment(s: string): string {
    var p := IndexOf(s, "#", LineStart(s));
    if p == -1 then s else s[..p]
  }

  /** The cut is at a '#' followed by no line terminator, and no such '#' comes earlier. */
  lemma DropFragmentSpec(s: string)
    ensures StartsWith(s, DropFragment(s))
    ensures var r := DropFragment(s);
      r == s || (s[|r|] == '#' && forall j :: |r| < j < |s| ==> !IsLineTerminator(s[j]))
    ensures var r := DropFragment(s);
      forall j :: LineStart(s) <= j < |r| ==> s[j] != '#'
    ensures '#' !in s ==> DropFragment(s) == s
  {
    DropFragmentCut(s);
    DropFragmentFirst(s);
  }

  /** The cut is at a '#' of the last line, or there is none. */
  lemma DropFragmentCut(s: string)
    ensures StartsWith(s, DropFragment(s))
    ensures var r := DropFragment(s);
      r == s || (s[|r|] == '#' && forall j :: |r| < j < |s| ==> !IsLineTerminator(s[j]))
  {
    var p := IndexOf(s, "#", LineStart(s));
    if p != -1 {
      assert s[p..p + 1][0] == s[p];
    }
  }

  /** No '#' of the last line comes before the cut. */
  lemma DropFragmentFirst(s: string)
    ensures var r := DropFragment(s);
      forall j :: LineStart(s) <= j < |r| ==> s[j] != '#'
  {
    var k := LineStart(s);
    IndexOfFirst(s, "#", k);
    var r := DropFragment(s);
    forall j | k <= j < |r|
      ensures s[j] != '#'
    {
      if s[j] == '#' {
        assert s[j..j + 1] == "#";
        assert MatchAt(s, "#", j);
      }
    }
  }

  /** `normalizePath`: origin, fragment, one trailing and then one leading slash removed. */
  function NormalizePath(href: string): string {
    DropLeadingSlash(DropTrailingSlash(DropFragment(StripOrigin(href))))
  }

  /** A reference link: an http(s) url or one naming aimoaas.com. */
  predicate IsRefHref(href: string) {
    HasHttpScheme(href) || Contains(href, "aimoaas.com")
  }

  /** An internal link: its href names "pseo" or "/ja/resources/". */
  predicate IsInternalHref(href: string) {
    Contains(href, "pseo") || Contains(href, "/ja/resources/")
  }

  /** The CTA pattern `aimoaas\.com\/ja\/#contact|#contact|\/ja\/#contact`, case-insensitive. */
  predicate CtaHref(href: string) {
    var low := Lower(href);
    Contains(low, "aimoaas.com/ja/#contact") || Contains(low, "#contact") || Contains(low, "/ja/#contact")
  }

  /** The first and third alternatives hold the second: an href is a CTA exactly when it mentions "#contact". */
  lemma CtaHrefIff(href: string)
    ensures CtaHref(href) <==> Contains(Lower(href), "#contact")
  {
    var low := Lower(href);
    if Contains(low, "aimoaas.com/ja/#contact") {
      assert MatchAt("aimoaas.com/ja/#contact", "#contact", 15);
      ContainsTrans(low, "aimoaas.com/ja/#contact", "#contact");
    }
    if Contains(low, "/ja/#contact") {
      assert MatchAt("/ja/#contact", "#contact", 4);
      ContainsTrans(low, "/ja/#contact", "#contact");
    }
  }

  /** The AIMO Standard pattern `aimo-standard|aimoaas\.com\/ja\/aimo-standard`, case-insensitive. */
  predicate AimoStandardUrl(u: string) {
    Contains(Lower(u), "aimo-standard") || Contains(Lower(u), "aimoaas.com/ja/aimo-standard")
  }

  /** The second alternative holds the first. */
  lemma AimoStandardIff(u: string)
    ensures AimoStandardUrl(u) <==> Contains(Lower(u), "aimo-standard")
  {
    if Contains(Lower(u), "aimoaas.com/ja/aimo-standard") {
      assert MatchAt("aimoaas.com/ja/aimo-standard", "aimo-standard", 15);
      ContainsTrans(Lower(u), "aimoaas.com/ja/aimo-standard", "aimo-standard");
    }
  }

  /** `uniqueRefUrls`: the reference links' hrefs without their fragment. */
  function RefUrls(links: seq<Link>): set<string> {
    set l | l in links && IsRefHref(l.href) :: DropFragment(l.href)
  }

  predicate HasAimoStandard(links: seq<Link>) {
    exists u :: u in RefUrls(links) && AimoStandardUrl(u)
  }

  /** The values present in a sequence of options, in order. */
  function Present<W>(os: seq<Option<W>>): seq<W> {
    if os == [] then [] else Present(os[..|os| - 1]) + (if os[|os| - 1].Some? then [os[|os| - 1].value] else [])
  }

  lemma {:induction false} PresentMember<W>(os: seq<Option<W>>, w: W)
    ensures w in Present(os) <==> exists k :: 0 <= k < |os| && os[k] == Some(w)
  {
    if os != [] {
      var n := |os| - 1;
      PresentMember(os[..n], w);
      if exists k :: 0 <= k < |os| && os[k] == Some(w) {
        var k :| 0 <= k < |os| && os[k] == Some(w);
        if k < n {
          assert os[..n][k] == os[k];
        }
      }
      if w in Present(os[..n]) {
        var k :| 0 <= k < n && os[..n][k] == Some(w);
        assert os[..n][k] == os[k];
      }
    }
  }

  /** The normalised path of an internal link; nothing for any other link. */
  function InternalPick(l: Link): Option<string> {
    if IsInternalHref(l.href) then Some(NormalizePath(l.href)) else None
  }

  /** The normalised paths of the internal links, in link order, repeats kept. */
  function InternalPaths(links: seq<Link>): seq<string> {
    Present(seq(|links|, k requires 0 <= k < |links| => InternalPick(links[k])))
  }

  /** `internalHrefs`: each normalised internal path once, first-seen order. */
  function InternalHrefs(links: seq<Link>): seq<string> {
    Dedup(InternalPaths(links))
  }

  /** The internal hrefs are distinct and are exactly the normalised paths of the internal links. */
  lemma InternalHrefsMembers(links: seq<Link>, path: string)
    ensures Distinct(InternalHrefs(links))
    ensures path in InternalHrefs(links) <==> exists k :: 0 <= k < |links| && InternalPick(links[k]) == Some(path)
  {
    var os := seq(|links|, k requires 0 <= k < |links| => InternalPick(links[k]));
    PresentMember(os, path);
    assert forall k :: 0 <= k < |links| ==> os[k] == InternalPick(links[k]);
  }

  // ---------------------------------------------------------- page types

  /** The match of `validatePage`'s inner loop: equal, or either ends with the other. */
  predicate PathMatches(path: string, slugPath: string) {
    path == slugPath || EndsWith(path, slugPath) || EndsWith(slugPath, path)
  }

  /** The first index from `j` below `n` that `m` accepts. */
  function FirstMatch(m: nat -> bool, n: nat, j: nat): (r: Option<nat>)
    ensures r.Some? ==> j <= r.value < n
    decreases n - j
  {
    if j >= n then None
    else if m(j) then Some(j)
    else FirstMatch(m, n, j + 1)
  }

  /** None exactly when no index from `j` is accepted; else the least one that is. */
  lemma {:induction false} FirstMatchSpec(m: nat -> bool, n: nat, j: nat)
    ensures FirstMatch(m, n, j).None? <==> forall i: nat :: j <= i < n ==> !m(i)
    ensures FirstMatch(m, n, j).Some? ==> var i := FirstMatch(m, n, j).value;
      j <= i < n && m(i) && forall k: nat :: j <= k < i ==> !m(k)
    decreases n - j
  {
    if j < n && !m(j) {
      FirstMatchSpec(m, n, j + 1);
    }
  }

  predicate MatchesPage(path: string, pages: seq<CatalogPage>, i: int) {
    0 <= i < |pages| && PathMatches(path, SlugPath(pages[i].slug))
  }

  /** Which catalog indices match `path`. */
  function Matcher(path: string, pages: seq<CatalogPage>): nat -> bool {
    (i: nat) => MatchesPage(path, pages, i)
  }

  /** The page type of the first catalog page from index `j` on whose slug path matches `path`. */
  function PageTypeFrom(path: string, pages: seq<CatalogPage>, j: nat): Option<string> {
    var r := FirstMatch(Matcher(path, pages), |pages|, j);
    if r.Some? then Some(pages[r.value].pageType) else None
  }

  function PageTypeOf(path: string, pages: seq<CatalogPage>): Option<string> {
    PageTypeFrom(path, pages, 0)
  }

  /** None when no catalog page matches; otherwise the type of the first that does. */
  lemma PageTypeOfFirst(path: string, pages: seq<CatalogPage>)
    ensures PageTypeOf(path, pages).None? <==> forall i :: 0 <= i < |pages| ==> !MatchesPage(path, pages, i)
    ensures PageTypeOf(path, pages).Some? ==>
      exists i :: MatchesPage(path, pages, i) && PageTypeOf(path, pages).value == pages[i].pageType
        && forall m :: 0 <= m < i ==> !MatchesPage(path, pages, m)
  {
    var m := Matcher(path, pages);
    FirstMatchSpec(m, |pages|, 0);
    assert forall i: nat :: m(i) == MatchesPage(path, pages, i);
    var r := FirstMatch(m, |pages|, 0);
    if r.Some? {
      assert MatchesPage(path, pages, r.value);
    }
  }

  /** `linkedPageTypes`: the types found for the internal hrefs. */
  function LinkedTypes(paths: seq<string>, pages: seq<CatalogPage>): set<string> {
    if paths == [] then {}
    else
      var t := PageTypeOf(paths[|paths| - 1], pages);
      LinkedTypes(paths[..|paths| - 1], pages) + (if t.Some? then {t.value} else {})
  }

  /** A type is linked exactly when it is the first match of some href. */
  lemma {:induction false} LinkedTypesMember(paths: seq<string>, pages: seq<CatalogPage>, t: string)
    ensures t in LinkedTypes(paths, pages) <==> exists k :: 0 <= k < |paths| && PageTypeOf(paths[k], pages) == Some(t)
  {
    if paths != [] {
      var n := |paths| - 1;
      LinkedTypesMember(paths[..n], pages, t);
      if exists k :: 0 <= k < |paths| && PageTypeOf(paths[k], pages) == Some(t) {
        var k :| 0 <= k < |paths| && PageTypeOf(paths[k], pages) == Some(t);
        if k < n {
          assert paths[..n][k] == paths[k];
        }
      }
      if t in LinkedTypes(paths[..n], pages) {
        var k :| 0 <= k < n && PageTypeOf(paths[..n][k], pages) == Some(t);
        assert paths[..n][k] == paths[k];
      }
    }
  }

  /** The inner loop, left by `break` at the first match. */
  method FindPageType(path: string, pages: seq<CatalogPage>) returns (t: Option<string>)
    ensures t == PageTypeOf(path, pages)
  {
    t := None;
    for j := 0 to |pages|
      invariant PageTypeOf(path, pages) == PageTypeFrom(path, pages, j)
    {
      assert Matcher(path, pages)(j) == PathMatches(path, SlugPath(pages[j].slug));
      if PathMatches(path, SlugPath(pages[j].slug)) {
        assert PageTypeFrom(path, pages, j) == Some(pages[j].pageType);
        t := Some(pages[j].pageType);
        break;
      }
      assert PageTypeFrom(path, pages, j) == PageTypeFrom(path, pages, j + 1);
    }
  }

  /** The outer loop over the internal hrefs. */
  method CollectPageTypes(paths: seq<string>, pages: seq<CatalogPage>) returns (types: set<string>)
    ensures types == LinkedTypes(paths, pages)
  {
    types := {};
    for i := 0 to |paths|
      invariant types == LinkedTypes(paths[..i], pages)
    {
      var t := FindPageType(paths[i], pages);
      assert paths[..i + 1][..i] == paths[..i];
      if t.Some? {
        types := types + {t.value};
      }
    }
    assert paths[..|paths|] == paths;
  }

  // ------------------------------------------------------------- counting

  /** How many of the patterns occur in the text. */
  function CountContained(pats: seq<string>, text: string): (n: nat)
    ensures n <= |pats|
  {
    if pats == [] then 0
    else CountContained(pats[..|pats| - 1], text) + (if Contains(text, pats[|pats| - 1]) then 1 else 0)
  }

  /** All patterns count exactly when each occurs; none exactly when none does. */
  lemma {:induction false} CountContainedBounds(pats: seq<string>, text: string)
    ensures CountContained(pats, text) == |pats| <==> forall i :: 0 <= i < |pats| ==> Contains(text, pats[i])
    ensures CountContained(pats, text) == 0 <==> forall i :: 0 <= i < |pats| ==> !Contains(text, pats[i])
  {
    if pats != [] {
      var n := |pats| - 1;
      CountContainedBounds(pats[..n], text);
      assert forall i :: 0 <= i < n ==> pats[..n][i] == pats[i];
    }
  }

  /** A keyword as it is searched for: lower-cased, whitespace runs collapsed. */
  function KeywordKey(kw: string): string {
    CollapseWs(Lower(kw))
  }

  function KeywordKeys(kws: seq<string>): (keys: seq<string>)
    ensures |keys| == |kws|
  {
    seq(|kws|, i requires 0 <= i < |kws| => KeywordKey(kws[i]))
  }

  /** The text the intent keywords are searched in: full text and body text, lower-cased. */
  function CombinedText(html: string, body: string, ex: Extractors): string {
    Lower(ex.stripHtml(html) + " " + ex.stripHtml(body))
  }

  /** The intent-keyword loop. */
  method CountKeywords(kws: seq<string>, text: string) returns (n: nat)
    ensures n == CountContained(KeywordKeys(kws), text)
  {
    n := 0;
    ghost var keys := KeywordKeys(kws);
    for i := 0 to |kws|
      invariant n == CountContained(keys[..i], text)
    {
      assert keys[..i + 1][..i] == keys[..i] && keys[i] == KeywordKey(kws[i]);
      if Contains(text, KeywordKey(kws[i])) {
        n := n + 1;
      }
    }
    assert keys[..|kws|] == keys;
  }

  /** The row count of the longest table, 0 without tables. */
  function MaxRows(ts: seq<TableInfo>): (m: nat)
    ensures forall i :: 0 <= i < |ts| ==> ts[i].rowCount <= m
    ensures ts == [] ==> m == 0
    ensures ts != [] ==> exists i :: 0 <= i < |ts| && ts[i].rowCount == m
  {
    if ts == [] then 0
    else
      var n := |ts| - 1;
      var m0 := MaxRows(ts[..n]);
      assert forall i :: 0 <= i < n ==> ts[..n][i] == ts[i];
      if ts[n].rowCount > m0 then ts[n].rowCount else if n == 0 then ts[n].rowCount else m0
  }

  /** The cells of all tables together. */
  function CellTotal(ts: seq<TableInfo>): nat {
    if ts == [] then 0 else CellTotal(ts[..|ts| - 1]) + ts[|ts| - 1].cellCount
  }

  /** `dataUniqueTypes`: the distinct non-empty `data-unique` values. */
  function UniqueTypes(vals: seq<string>): set<string> {
    set v | v in vals && v != ""
  }

  // ------------------------------------------------------------ fail rules

  /** Why a page fails. */
  datatype Reason =
    | H1Count(count: nat)
    | H2Duplicate
    | CanonicalMissing
    | CanonicalMismatch(got: string)
    | OgUrlMissing
    | OgUrlMismatch(got: string)
    | RobotsMissing
    | RobotsMismatch(expected: string, got: string)
    | NoCta
    | Claim(violation: string)
    | LegacyRedirectMissing(from: string, to: string)
    | SameContent(partner: Option<string>, contentMax: real)
    | UniqueElements
    | HtmlNotFound(file: FilePath)

  function H1Rule(h1: nat): seq<Reason> {
    if h1 != 1 then [H1Count(h1)] else []
  }

  /** A heading text repeats when the list is longer than its set. */
  function H2Rule(h2: seq<string>): seq<Reason> {
    if |h2| != |SetOf(h2)| then [H2Duplicate] else []
  }

  lemma H2RuleIff(h2: seq<string>)
    ensures H2Rule(h2) == [] <==> Distinct(h2)
  {
    SetOfCard(h2);
  }

  /** The comparison of a head url with the expected one, each with its trailing slashes made one. */
  predicate UrlMatches(got: string, expected: string) {
    DropTrailingSlashes(got) + "/" == DropTrailingSlashes(expected) + "/"
  }

  function CanonicalRule(rec: Option<PseoRecord>, canonical: string, expected: string): seq<Reason> {
    if rec.None? then []
    else if canonical == "" then [CanonicalMissing]
    else if !UrlMatches(canonical, expected) then [CanonicalMismatch(canonical)]
    else []
  }

  function OgUrlRule(rec: Option<PseoRecord>, ogUrl: string, expected: string): seq<Reason> {
    if rec.None? then []
    else if ogUrl == "" then [OgUrlMissing]
    else if !UrlMatches(ogUrl, expected) then [OgUrlMismatch(ogUrl)]
    else []
  }

  /** A head url is right when it was found and names the final url up to trailing slashes. */
  predicate HeadUrlOk(m: Option<string>, baseUrl: string, rec: PseoRecord) {
    m.Some? && DropTrailingSlashes(Trim(m.value)) == DropTrailingSlashes(baseUrl + DropTrailingSlash(rec.finalUrl))
  }

  lemma DropTrailingSlashesAppend(s: string)
    ensures DropTrailingSlashes(s + "/") == DropTrailingSlashes(s)
  {
    assert (s + "/")[..|s|] == s;
  }

  lemma AppendSlashCancel(a: string, b: string)
    ensures a + "/" == b + "/" <==> a == b
  {
    if a + "/" == b + "/" {
      assert (a + "/")[..|a|] == a && (b + "/")[..|b|] == b;
    }
  }

  /** The canonical and og:url checks pass exactly when the extracted url names the final url. */
  lemma HeadUrlRuleIff(rec: Option<PseoRecord>, m: Option<string>, baseUrl: string)
    ensures CanonicalRule(rec, ExtractUrl(m), ExpectedFinalUrl(baseUrl, rec)) == [] <==> rec.None? || HeadUrlOk(m, baseUrl, rec.value)
    ensures OgUrlRule(rec, ExtractUrl(m), ExpectedFinalUrl(baseUrl, rec)) == [] <==> rec.None? || HeadUrlOk(m, baseUrl, rec.value)
  {
    if rec.Some? && m.Some? {
      var got := DropTrailingSlashes(Trim(m.value)) + "/";
      var base := baseUrl + DropTrailingSlash(rec.value.finalUrl);
      DropTrailingSlashesAppend(DropTrailingSlashes(Trim(m.value)));
      DropTrailingSlashesAppend(base);
      assert DropTrailingSlashes(DropTrailingSlashes(Trim(m.value))) == DropTrailingSlashes(Trim(m.value)) by {
        DropTrailingSlashesIdem(Trim(m.value));
      }
      AppendSlashCancel(DropTrailingSlashes(got), DropTrailingSlashes(base + "/"));
    }
  }

  lemma DropTrailingSlashesIdem(s: string)
    ensures DropTrailingSlashes(DropTrailingSlashes(s)) == DropTrailingSlashes(s)
  {
  }

  /** `index,follow` for an allowlisted final slug, `noindex,follow` otherwise. */
  function ExpectedRobots(rec: Option<PseoRecord>, allow: seq<string>): string {
    if rec.Some? && rec.value.finalSlug in allow then "index,follow" else "noindex,follow"
  }

  function RobotsRule(rec: Option<PseoRecord>, robots: string, allow: seq<string>): seq<Reason> {
    if rec.None? then []
    else if robots == "" then [RobotsMissing]
    else if robots != ExpectedRobots(rec, allow) then [RobotsMismatch(ExpectedRobots(rec, allow), robots)]
    else []
  }

  /** Only migrated pages are checked, and they must say index exactly when allowlisted. */
  lemma RobotsRuleIff(rec: Option<PseoRecord>, robots: string, allow: seq<string>)
    ensures RobotsRule(rec, robots, allow) == [] <==>
      rec.None? || robots == (if rec.value.finalSlug in allow then "index,follow" else "noindex,follow")
  {
  }

  predicate HasCta(links: seq<Link>) {
    exists k :: 0 <= k < |links| && CtaHref(links[k].href)
  }

  function CtaRule(links: seq<Link>): seq<Reason> {
    if HasCta(links) then [] else [NoCta]
  }

  /** The CTA check passes exactly when some link mentions "#contact", in any case. */
  lemma CtaRuleIff(links: seq<Link>)
    ensures CtaRule(links) == [] <==> exists k :: 0 <= k < |links| && Contains(Lower(links[k].href), "#contact")
  {
    forall k | 0 <= k < |links|
      ensures CtaHref(links[k].href) <==> Contains(Lower(links[k].href), "#contact")
    {
      CtaHrefIff(links[k].href);
    }
  }

  /** A failed lint adds its violations, one reason each. */
  function ClaimsRule(c: ClaimsResult): (rs: seq<Reason>)
    ensures |rs| == (if c.pass then 0 else |c.violations|)
    ensures forall i :: 0 <= i < |rs| ==> rs[i] == Claim(c.violations[i])
  {
    if c.pass then [] else seq(|c.violations|, i requires 0 <= i < |c.violations| => Claim(c.violations[i]))
  }

  function LegacyRule(rec: Option<PseoRecord>, redirects: set<string>): seq<Reason> {
    if rec.Some? && rec.value.legacyUrl.Some? && rec.value.legacyUrl.value != ""
       && !LegacyRedirected(redirects, rec.value.legacyUrl.value, rec.value.finalUrl)
    then [LegacyRedirectMissing(LegacyFrom(rec.value.legacyUrl.value), LegacyTo(rec.value.finalUrl))]
    else []
  }

  /** The similarity entry of a page, by its segment. */
  function SimilarityOf(sim: Option<map<string, SimInfo>>, seg: string): Option<SimInfo> {
    if sim.Some? && seg in sim.value then Some(sim.value[seg]) else None
  }

  /** `simInfo?.content_max ?? 0`. */
  function ContentMax(info: Option<SimInfo>): real {
    if info.Some? then info.value.contentMax else 0.0
  }

  function Partner(info: Option<SimInfo>): Option<string> {
    if info.Some? then info.value.contentWith else None
  }

  function SimilarityRule(info: Option<SimInfo>): seq<Reason> {
    if ContentMax(info) >= ContentSimilaritySame then [SameContent(Partner(info), ContentMax(info))] else []
  }

  function UniqueRule(types: set<string>): seq<Reason> {
    if |types| < 2 then [UniqueElements] else []
  }

  /** The unique-elements check passes exactly when two different non-empty values occur. */
  lemma UniqueRuleIff(vals: seq<string>)
    ensures UniqueRule(UniqueTypes(vals)) == [] <==>
      exists a, b :: a in vals && b in vals && a != b && a != "" && b != ""
  {
    var ts := UniqueTypes(vals);
    if |ts| >= 2 {
      var a :| a in ts;
      assert |ts - {a}| >= 1;
      var b :| b in ts - {a};
    }
    if exists a, b :: a in vals && b in vals && a != b && a != "" && b != "" {
      var a, b :| a in vals && b in vals && a != b && a != "" && b != "";
      assert {a, b} <= ts;
      assert |ts| == |ts - {a, b}| + |{a, b}|;
    }
  }

  /** The fail rules in the order the validator applies them. */
  function FailReasons(page: CatalogPage, html: string, body: string, cx: Context): seq<Reason> {
    var ex := cx.ex;
    var rec := RecordFor(page, cx.pseoMap);
    var expected := ExpectedFinalUrl(cx.baseUrl, rec);
    H1Rule(ex.h1Count(html))
    + H2Rule(ex.h2Texts(html))
    + CanonicalRule(rec, ExtractUrl(ex.canonical(html)), expected)
    + OgUrlRule(rec, ExtractUrl(ex.ogUrl(html)), expected)
    + RobotsRule(rec, ExtractRobots(ex.robots(html)), cx.allow)
    + CtaRule(ex.links(html))
    + ClaimsRule(ex.claims(html))
    + LegacyRule(rec, cx.redirects)
    + SimilarityRule(SimilarityOf(cx.similarity, Segment(page.slug)))
    + UniqueRule(UniqueTypes(ex.dataUnique(body)))
  }

  // ------------------------------------------------------------ warn rules

  /** The counts behind the warn-only rules. */
  datatype Metrics = Metrics(referencesCount: nat, faqCount: nat, internalLinksCount: nat,
                             pageTypesInLinks: nat, tableCount: nat, maxTableRows: nat,
                             checklistItems: nat, tableCells: nat, intentKeywordsMatched: nat,
                             artifactCount: nat, hasAimoStandard: bool)

  /** Why a page draws a warning. */
  datatype Warn =
    | FewTables(tableCount: nat, maxRows: nat)
    | FewFaq(count: nat)
    | FewInternalLinks(count: nat)
    | FewPageTypes(count: nat)
    | FewChecklistItems(count: nat)
    | FewTableCells(count: nat)
    | FewIntentKeywords(count: nat)
    | FewArtifacts(count: nat)
    | NoAimoStandard
    | HighSimilarity(contentMax: real, partner: Option<string>)

  function MetricsOf(page: CatalogPage, html: string, body: string, cx: Context): Metrics {
    var ex := cx.ex;
    var links := ex.links(html);
    var tables := ex.tables(body);
    var internal := InternalHrefs(links);
    Metrics(|RefUrls(links)|, |ex.faqQuestions(html)|, |internal|, |LinkedTypes(internal, cx.catalog)|,
            |tables|, MaxRows(tables), ex.checklistItems(body), CellTotal(tables),
            CountContained(KeywordKeys(page.intentKeywords), CombinedText(html, body, ex)),
            CountContained(RequiredArtifacts, body), HasAimoStandard(links))
  }

  /** The warnings of the count thresholds, in the validator's order. */
  function CountWarns(m: Metrics): seq<Warn> {
    (if m.tableCount < 1 || m.maxTableRows < MinTableRows then [FewTables(m.tableCount, m.maxTableRows)] else [])
    + (if m.faqCount < MinFaq then [FewFaq(m.faqCount)] else [])
    + (if m.internalLinksCount < MinInternalLinks then [FewInternalLinks(m.internalLinksCount)] else [])
    + (if m.pageTypesInLinks < MinPageTypesInLinks then [FewPageTypes(m.pageTypesInLinks)] else [])
    + (if m.checklistItems < MinChecklistItems then [FewChecklistItems(m.checklistItems)] else [])
    + (if m.tableCells < MinTableCells then [FewTableCells(m.tableCells)] else [])
    + (if m.intentKeywordsMatched < MinIntentKeywordsMatched then [FewIntentKeywords(m.intentKeywordsMatched)] else [])
    + (if m.artifactCount < MinRequiredArtifacts then [FewArtifacts(m.artifactCount)] else [])
    + (if !m.hasAimoStandard then [NoAimoStandard] else [])
  }

  function SimilarityWarn(info: Option<SimInfo>): seq<Warn> {
    var cm := ContentMax(info);
    if cm >= ContentSimilarityWarn && cm < ContentSimilaritySame then [HighSimilarity(cm, Partner(info))] else []
  }

  function Warns(m: Metrics, info: Option<SimInfo>): seq<Warn> {
    CountWarns(m) + SimilarityWarn(info)
  }

  predicate HasHighSimilarity(ws: seq<Warn>) {
    exists k :: 0 <= k < |ws| && ws[k].HighSimilarity?
  }

  /**
   * Similarity has two tiers: at or above 0.99 the page fails, from 0.9 up to
   * 0.99 it only warns, and never both.
   */
  lemma SimilarityTiers(m: Metrics, info: Option<SimInfo>)
    ensures SimilarityRule(info) != [] <==> ContentMax(info) >= 0.99
    ensures HasHighSimilarity(Warns(m, info)) <==> 0.9 <= ContentMax(info) < 0.99
    ensures !(SimilarityRule(info) != [] && HasHighSimilarity(Warns(m, info)))
  {
    CountWarnsNotHigh(m);
    HighAfter(CountWarns(m), SimilarityWarn(info));
    var sw := SimilarityWarn(info);
    if 0.9 <= ContentMax(info) < 0.99 {
      assert sw[0].HighSimilarity?;
    }
  }

  lemma CountWarnsNotHigh(m: Metrics)
    ensures forall k :: 0 <= k < |CountWarns(m)| ==> !CountWarns(m)[k].HighSimilarity?
  {
  }

  /** After warnings none of which is about similarity, the similarity warnings decide. */
  lemma HighAfter(cw: seq<Warn>, sw: seq<Warn>)
    requires forall k :: 0 <= k < |cw| ==> !cw[k].HighSimilarity?
    ensures HasHighSimilarity(cw + sw) <==> HasHighSimilarity(sw)
  {
    var ws := cw + sw;
    if HasHighSimilarity(ws) {
      var k :| 0 <= k < |ws| && ws[k].HighSimilarity?;
      assert sw[k - |cw|] == ws[k];
    }
    if HasHighSimilarity(sw) {
      var k :| 0 <= k < |sw| && sw[k].HighSimilarity?;
      assert ws[|cw| + k] == sw[k];
    }
  }

  /** No count warning exactly when every threshold is met. */
  lemma CountWarnsEmptyIff(m: Metrics)
    ensures CountWarns(m) == [] <==>
      m.tableCount >= 1 && m.maxTableRows >= 10 && m.faqCount >= 8 && m.internalLinksCount >= 8
      && m.pageTypesInLinks >= 3 && m.checklistItems >= 3 && m.tableCells >= 15
      && m.intentKeywordsMatched >= 2 && m.artifactCount >= 2 && m.hasAimoStandard
  {
  }

  // --------------------------------------------------------------- a page

  datatype PageResult = PageResult(pageId: string, url: string, pass: bool, reasons: seq<Reason>,
                                   warns: seq<Warn>, metrics: Metrics)

  /** `validatePage`: a page passes exactly when no fail rule fires. */
  function ValidatePage(page: CatalogPage, html: string, cx: Context): (r: PageResult)
    ensures r.pageId == page.id && (r.pass <==> r.reasons == [])
  {
    var body := BodyHtml(html, OpenEnd(cx.ex, html));
    var reasons := FailReasons(page, html, body, cx);
    var m := MetricsOf(page, html, body, cx);
    PageResult(page.id, ReportUrl(page, cx.baseUrl, cx.pseoMap), reasons == [], reasons,
               Warns(m, SimilarityOf(cx.similarity, Segment(page.slug))), m)
  }

  /**
   * A page passes exactly when: one H1, no repeated H2 text; when migrated,
   * canonical and og:url name its final url and robots says index exactly when
   * its final slug is allowlisted; some link mentions "#contact"; the claims
   * lint adds no violation; a legacy url has its 301; its content similarity
   * is below 0.99; and two different data-unique values occur in its body.
   */
  lemma PagePassIff(page: CatalogPage, html: string, cx: Context)
    ensures var ex := cx.ex;
      var rec := RecordFor(page, cx.pseoMap);
      var body := BodyHtml(html, OpenEnd(ex, html));
      var vals := ex.dataUnique(body);
      var links := ex.links(html);
      ValidatePage(page, html, cx).pass <==>
        ex.h1Count(html) == 1
        && Distinct(ex.h2Texts(html))
        && (rec.Some? ==> HeadUrlOk(ex.canonical(html), cx.baseUrl, rec.value)
                          && HeadUrlOk(ex.ogUrl(html), cx.baseUrl, rec.value)
                          && ExtractRobots(ex.robots(html))
                             == (if rec.value.finalSlug in cx.allow then "index,follow" else "noindex,follow"))
        && (exists k :: 0 <= k < |links| && Contains(Lower(links[k].href), "#contact"))
        && (ex.claims(html).pass || ex.claims(html).violations == [])
        && (rec.Some? && rec.value.legacyUrl.Some? && rec.value.legacyUrl.value != "" ==>
              LegacyRedirected(cx.redirects, rec.value.legacyUrl.value, rec.value.finalUrl))
        && ContentMax(SimilarityOf(cx.similarity, Segment(page.slug))) < 0.99
        && (exists a, b :: a in vals && b in vals && a != b && a != "" && b != "")
  {
    var ex := cx.ex;
    var rec := RecordFor(page, cx.pseoMap);
    var body := BodyHtml(html, OpenEnd(ex, html));
    H2RuleIff(ex.h2Texts(html));
    HeadUrlRuleIff(rec, ex.canonical(html), cx.baseUrl);
    HeadUrlRuleIff(rec, ex.ogUrl(html), cx.baseUrl);
    RobotsRuleIff(rec, ExtractRobots(ex.robots(html)), cx.allow);
    CtaRuleIff(ex.links(html));
    UniqueRuleIff(ex.dataUnique(body));
  }

  /** `validatePage` as the source runs it: the body scan and the two loops are methods. */
  method CheckPage(page: CatalogPage, html: string, cx: Context) returns (r: PageResult)
    ensures r == ValidatePage(page, html, cx)
  {
    var ex := cx.ex;
    var body := GetBodyHtml(html, OpenEnd(ex, html));
    var reasons := FailReasons(page, html, body, cx);
    var links := ex.links(html);
    var tables := ex.tables(body);
    var internal := InternalHrefs(links);
    var types := CollectPageTypes(internal, cx.catalog);
    var matched := CountKeywords(page.intentKeywords, CombinedText(html, body, ex));
    var m := Metrics(|RefUrls(links)|, |ex.faqQuestions(html)|, |internal|, |types|,
                     |tables|, MaxRows(tables), ex.checklistItems(body), CellTotal(tables),
                     matched, CountContained(RequiredArtifacts, body), HasAimoStandard(links));
    var info := SimilarityOf(cx.similarity, Segment(page.slug));
    r := PageResult(page.id, ReportUrl(page, cx.baseUrl, cx.pseoMap), reasons == [], reasons, Warns(m, info), m);
  }

  // --------------------------------------------------------- global gates

  /** `duplicate_report.json`'s `summary.near_duplicate_pairs`, None when either is absent. */
  datatype DupFile = DupFile(nearDuplicatePairs: Option<int>)

  /** A failure that is not about one page. */
  datatype GlobalReason = NearDuplicates(count: int) | MeceViolation(violation: MeceGate.Violation)

  /** `loadDuplicateReportFail`: a failure exactly when the count, defaulting to 0, is positive. */
  function DupFail(f: Option<DupFile>): (r: Option<GlobalReason>)
    ensures r.Some? <==> f.Some? && f.value.nearDuplicatePairs.Some? && f.value.nearDuplicatePairs.value > 0
    ensures r.Some? ==> r.value == NearDuplicates(f.value.nearDuplicatePairs.value)
  {
    if f.Some? && f.value.nearDuplicatePairs.GetOr(0) > 0 then Some(NearDuplicates(f.value.nearDuplicatePairs.value))
    else None
  }

  /** The violations of the allowlisted slugs grouped by taxonomy intent. */
  function MeceViolations(allow: seq<string>, tax: map<string, string>): seq<MeceGate.Violation> {
    var g := GroupBy(MeceGate.AllowedItems(allow, tax));
    MeceGate.ViolationsOf(g.keys, g.groups)
  }

  /** `loadMeceFail`: the first intent, in first-seen order, with more than one allowlisted slug. */
  function MeceFail(allow: seq<string>, taxFile: Option<MeceGate.TaxonomyFile>): Option<GlobalReason> {
    if taxFile.None? || taxFile.value.pages.None? then None
    else
      var vs := MeceViolations(allow, MeceGate.Taxonomy(taxFile));
      if vs == [] then None else Some(MeceViolation(vs[0]))
  }

  /** The gate fails exactly when two allowlisted slugs share a non-empty intent. */
  lemma MeceFailIff(allow: seq<string>, taxFile: Option<MeceGate.TaxonomyFile>)
    requires Distinct(allow)
    ensures MeceFail(allow, taxFile).Some? <==>
      taxFile.Some? && taxFile.value.pages.Some? && MeceGate.SharedSlugIntent(allow, MeceGate.Taxonomy(taxFile))
  {
    if taxFile.Some? && taxFile.value.pages.Some? {
      var tax := MeceGate.Taxonomy(taxFile);
      MeceGate.ReportEmptyIff(MeceGate.AllowedItems(allow, tax));
      MeceGate.SharedSlugIntentIff(allow, tax);
    }
  }

  /** The reported intent has more than one slug, each allowlisted and mapped to it. */
  lemma MeceFailReported(allow: seq<string>, taxFile: Option<MeceGate.TaxonomyFile>)
    ensures var r := MeceFail(allow, taxFile);
      r.Some? ==>
        (r.value.MeceViolation? && |r.value.violation.pages| > 1
         && r.value.violation.count == |r.value.violation.pages|
         && forall s :: s in r.value.violation.pages ==>
              s in allow && s in MeceGate.Taxonomy(taxFile) && MeceGate.Taxonomy(taxFile)[s] == r.value.violation.intentId)
  {
    var r := MeceFail(allow, taxFile);
    if r.Some? {
      var tax := MeceGate.Taxonomy(taxFile);
      var items := MeceGate.AllowedItems(allow, tax);
      var v := r.value.violation;
      MeceGate.ReportOf(items);
      assert v in MeceViolations(allow, tax);
      MeceGate.AllowedItemsMembers(allow, tax);
      forall s | s in v.pages
        ensures s in allow && s in tax && tax[s] == v.intentId
      {
        ValuesForFrom(items, v.intentId, s);
      }
    }
  }

  /** The violations of a prefix of the keys come first. */
  lemma {:induction false} ViolationsOfPrefix(keys: seq<string>, groups: map<string, seq<string>>, j: nat)
    requires j <= |keys|
    ensures var p := MeceGate.ViolationsOf(keys[..j], groups);
      var all := MeceGate.ViolationsOf(keys, groups);
      |p| <= |all| && all[..|p|] == p
    decreases |keys| - j
  {
    if j < |keys| {
      var n := |keys| - 1;
      assert keys[..n][..j] == keys[..j];
      ViolationsOfPrefix(keys[..n], groups, j);
      assert keys[..|keys|] == keys;
    } else {
      assert keys[..j] == keys;
    }
  }

  /** Scanning the keys in order: the violations of one more key, and the first one found. */
  lemma ViolationsStep(keys: seq<string>, groups: map<string, seq<string>>, i: nat)
    requires i < |keys| && MeceGate.ViolationsOf(keys[..i], groups) == []
    ensures var k := keys[i];
      if k in groups && |groups[k]| > 1
      then MeceGate.ViolationsOf(keys, groups) != []
        && MeceGate.ViolationsOf(keys, groups)[0] == MeceGate.Violation(k, |groups[k]|, groups[k])
      else MeceGate.ViolationsOf(keys[..i + 1], groups) == []
  {
    assert keys[..i + 1][..i] == keys[..i];
    ViolationsOfPrefix(keys, groups, i + 1);
  }

  /** `loadMeceFail`'s loops: the taxonomy, the grouping, then the first violation. */
  method LoadMeceFail(allow: seq<string>, taxFile: Option<MeceGate.TaxonomyFile>) returns (r: Option<GlobalReason>)
    ensures r == MeceFail(allow, taxFile)
  {
    if taxFile.None? || taxFile.value.pages.None? {
      return None;
    }
    var tax := MeceGate.LoadTaxonomy(taxFile.value.pages.value);
    var g := MeceGate.GroupAllowed(allow, tax);
    r := None;
    for i := 0 to |g.keys|
      invariant MeceGate.ViolationsOf(g.keys[..i], g.groups) == []
    {
      var k := g.keys[i];
      ViolationsStep(g.keys, g.groups, i);
      if k in g.groups && |g.groups[k]| > 1 {
        return Some(MeceViolation(MeceGate.Violation(k, |g.groups[k]|, g.groups[k])));
      }
    }
    assert g.keys[..|g.keys|] == g.keys;
  }

  // ------------------------------------------------------------------ run

  /** Everything a run reads: the files, the environment and the generated site. */
  datatype Snapshot = Snapshot(
    catalog: seq<CatalogPage>,
    baseUrlEnv: Option<string>,
    pseoPages: Option<seq<PseoPage>>,
    allowFile: Option<MeceGate.AllowlistFile>,
    dupFile: Option<DupFile>,
    taxFile: Option<MeceGate.TaxonomyFile>,
    redirectsText: Option<string>,
    simFile: Option<SimilarityFile>,
    site: map<FilePath, string>,
    ex: Extractors)

  /** `process.env.BASE_URL || "https://aimoaas.com"`. */
  function BaseUrl(env: Option<string>): string {
    if env.Some? && env.value != "" then env.value else "https://aimoaas.com"
  }

  function ContextOf(s: Snapshot): Context {
    Context(s.catalog, BaseUrl(s.baseUrlEnv), PseoMap(s.pseoPages.GetOr([])), MeceGate.Allowlist(s.allowFile),
            Redirects(s.redirectsText), LoadSimilarity(s.simFile), s.ex)
  }

  /** The catalog pages in Japanese, in catalog order. */
  function JaPages(pages: seq<CatalogPage>): (r: seq<CatalogPage>)
    ensures forall p :: p in r <==> p in pages && p.lang == "ja"
  {
    if pages == [] then []
    else
      var p := pages[|pages| - 1];
      JaPages(pages[..|pages| - 1]) + (if p.lang == "ja" then [p] else [])
  }

  /** The result of one page: the validation of its file, or a failure when it was not generated. */
  function Outcome(page: CatalogPage, site: map<FilePath, string>, cx: Context): (r: PageResult)
    ensures r.pageId == page.id && (r.pass <==> r.reasons == [])
    ensures FileFor(page, cx.pseoMap) !in site ==> !r.pass && r.reasons == [HtmlNotFound(FileFor(page, cx.pseoMap))]
  {
    var f := FileFor(page, cx.pseoMap);
    if f in site then ValidatePage(page, site[f], cx)
    else
      PageResult(page.id, ReportUrl(page, cx.baseUrl, cx.pseoMap), false, [HtmlNotFound(f)], [],
                 Metrics(0, 0, 0, 0, 0, 0, 0, 0, 0, 0, false))
  }

  function MapAll<A, B>(xs: seq<A>, f: A -> B): (ys: seq<B>)
    ensures |ys| == |xs| && forall k :: 0 <= k < |xs| ==> ys[k] == f(xs[k])
  {
    seq(|xs|, k requires 0 <= k < |xs| => f(xs[k]))
  }

  function Results(pages: seq<CatalogPage>, site: map<FilePath, string>, cx: Context): (rs: seq<PageResult>)
    ensures |rs| == |pages|
  {
    MapAll(pages, p => Outcome(p, site, cx))
  }

  /** The duplicate gate, then the MECE gate. */
  function Globals(s: Snapshot): seq<GlobalReason> {
    var d := DupFail(s.dupFile);
    var m := MeceFail(MeceGate.Allowlist(s.allowFile), s.taxFile);
    (if d.Some? then [d.value] else []) + (if m.Some? then [m.value] else [])
  }

  function Failed(rs: seq<PageResult>): (n: nat)
    ensures n <= |rs|
  {
    if rs == [] then 0 else Failed(rs[..|rs| - 1]) + (if rs[|rs| - 1].pass then 0 else 1)
  }

  function Passed(rs: seq<PageResult>): nat {
    if rs == [] then 0 else Passed(rs[..|rs| - 1]) + (if rs[|rs| - 1].pass then 1 else 0)
  }

  /** The summary adds up, and nothing failed exactly when every result passed. */
  lemma {:induction false} SummaryCounts(rs: seq<PageResult>)
    ensures Passed(rs) + Failed(rs) == |rs|
    ensures Failed(rs) == 0 <==> forall k :: 0 <= k < |rs| ==> rs[k].pass
  {
    if rs != [] {
      var n := |rs| - 1;
      SummaryCounts(rs[..n]);
      assert forall k :: 0 <= k < n ==> rs[..n][k] == rs[k];
    }
  }

  /** The process exits with 1 on a global failure or a failed page. */
  function ExitCode(globals: seq<GlobalReason>, rs: seq<PageResult>): nat {
    if globals != [] || Failed(rs) > 0 then 1 else 0
  }

  /**
   * A run exits with 1 exactly when the duplicate report counts near
   * duplicates, two allowlisted slugs share an intent, or some Japanese
   * catalog page fails.
   */
  lemma ExitCodeIff(s: Snapshot)
    ensures var rs := Results(JaPages(s.catalog), s.site, ContextOf(s));
      ExitCode(Globals(s), rs) == 1 <==>
        DupFail(s.dupFile).Some?
        || (s.taxFile.Some? && s.taxFile.value.pages.Some?
            && MeceGate.SharedSlugIntent(MeceGate.Allowlist(s.allowFile), MeceGate.Taxonomy(s.taxFile)))
        || exists k :: 0 <= k < |rs| && !rs[k].pass
  {
    var rs := Results(JaPages(s.catalog), s.site, ContextOf(s));
    SummaryCounts(rs);
    GlobalsIff(s);
  }

  /** A global failure is a positive near-duplicate count or two allowlisted slugs sharing an intent. */
  lemma GlobalsIff(s: Snapshot)
    ensures Globals(s) != [] <==>
      DupFail(s.dupFile).Some?
      || (s.taxFile.Some? && s.taxFile.value.pages.Some?
          && MeceGate.SharedSlugIntent(MeceGate.Allowlist(s.allowFile), MeceGate.Taxonomy(s.taxFile)))
  {
    MeceFailIff(MeceGate.Allowlist(s.allowFile), s.taxFile);
  }

  /** The loaders of `main`: the migration map, the allowlist, the redirects and the similarity report. */
  method LoadContext(s: Snapshot) returns (cx: Context)
    ensures cx == ContextOf(s)
  {
    var pm := LoadPseoMap(s.pseoPages);
    var redirects := LoadRedirects(s.redirectsText);
    cx := Context(s.catalog, BaseUrl(s.baseUrlEnv), pm, MeceGate.Allowlist(s.allowFile), redirects,
                  LoadSimilarity(s.simFile), s.ex);
  }

  /** The duplicate gate, then the MECE gate, each adding at most one reason. */
  method LoadGlobals(s: Snapshot) returns (globals: seq<GlobalReason>)
    ensures globals == Globals(s)
  {
    globals := [];
    var dup := DupFail(s.dupFile);
    if dup.Some? {
      globals := globals + [dup.value];
    }
    var mece := LoadMeceFail(MeceGate.Allowlist(s.allowFile), s.taxFile);
    if mece.Some? {
      globals := globals + [mece.value];
    }
  }

  /** One iteration of the page loop. */
  method CheckOne(page: CatalogPage, site: map<FilePath, string>, cx: Context) returns (r: PageResult)
    ensures r == Outcome(page, site, cx)
  {
    var f := FileFor(page, cx.pseoMap);
    if f !in site {
      r := PageResult(page.id, ReportUrl(page, cx.baseUrl, cx.pseoMap), false, [HtmlNotFound(f)], [],
                      Metrics(0, 0, 0, 0, 0, 0, 0, 0, 0, 0, false));
    } else {
      r := CheckPage(page, site[f], cx);
    }
  }

  /** `main`: the gates, then every Japanese page in catalog order. */
  method Run(s: Snapshot) returns (results: seq<PageResult>, globals: seq<GlobalReason>, code: nat)
    ensures results == Results(JaPages(s.catalog), s.site, ContextOf(s))
    ensures globals == Globals(s)
    ensures code == ExitCode(globals, results)
  {
    globals := LoadGlobals(s);
    var cx := LoadContext(s);
    results := CheckAll(JaPages(s.catalog), s.site, cx);
    code := if globals != [] || Failed(results) > 0 then 1 else 0;
  }

  /** The page loop. */
  method CheckAll(pages: seq<CatalogPage>, site: map<FilePath, string>, cx: Context) returns (results: seq<PageResult>)
    ensures results == Results(pages, site, cx)
  {
    results := [];
    ghost var f := p => Outcome(p, site, cx);
    for i := 0 to |pages|
      invariant results == MapAll(pages[..i], f)
    {
      var r := CheckOne(pages[i], site, cx);
      MapAllSnoc(pages, f, i);
      results := results + [r];
    }
    assert pages[..|pages|] == pages;
  }

  lemma MapAllSnoc<A, B>(xs: seq<A>, f: A -> B, i: nat)
    requires i < |xs|
    ensures MapAll(xs[..i + 1], f) == MapAll(xs[..i], f) + [f(xs[i])]
  {
    SameAt(MapAll(xs[..i + 1], f), MapAll(xs[..i], f) + [f(xs[i])]);
  }

  lemma SameAt<B>(a: seq<B>, b: seq<B>)
    requires |a| == |b| && forall k :: 0 <= k < |a| ==> a[k] == b[k]
    ensures a == b
  {
  }
}
