/**
 * The dictionary-first slugger: a heading or title is scored against the
 * topics of the slug dictionary, the slugs of the best three topics are
 * cut into tokens and clamped to the policy's length, and the final slug
 * is the slug base, the separator and the page id.
 *
 * The dictionary file is read by the caller; here it is a value. The
 * policy's separator is one character (the dictionary uses "-"), and its
 * `id_format` regular expression is given as the predicate `idMatches`,
 * the full-match test the source builds from it.
 */
module Slugger {
  import opened Wrappers
  import opened Strings
  import Seqs

  datatype Policy = Policy(
    separator: char,
    maxLength: nat,
    minTokens: nat,
    maxTokens: nat,
    stopwords: seq<string>,
    bannedTerms: seq<string>,
    idFormat: string,
    idMatches: string -> bool)

  datatype Topic = Topic(key: string, slug: string, priority: int,
                         jaKeywords: seq<string>, enKeywords: seq<string>)

  datatype Dictionary = Dictionary(policy: Policy, topics: seq<Topic>, safeGenericTokens: seq<string>)

  datatype Fallback = FromDictionary | SafeGeneric | RomajiShort

  datatype Match = Match(key: string, slug: string, score: int)

  datatype SlugBase = SlugBase(slugBase: string, matched: seq<Match>, fallback: Fallback, notes: seq<string>)

  datatype SlugResult = SlugResult(
    id: string,
    title: string,
    topicKeys: seq<string>,
    slugBase: string,
    finalSlug: string,
    matchedTopics: seq<Match>,
    fallbackUsed: Fallback,
    notes: seq<string>)

  /**
   * `normalizeText`: whitespace runs become one space and the ends are
   * trimmed. Its quote replacement maps the ASCII apostrophe to itself and
   * changes nothing.
   */
  function NormalizeText(s: string): string {
    Trim(CollapseWs(s))
  }

  // ---------------------------------------------------------------------
  // Scoring
  // ---------------------------------------------------------------------

  /** How many of the non-empty needles occur in `text`. */
  function Hits(text: string, needles: seq<string>): (r: nat)
    ensures r <= |needles|
  {
    if needles == [] then 0
    else
      var n := needles[|needles| - 1];
      Hits(text, needles[..|needles| - 1]) + (if n != "" && Contains(text, n) then 1 else 0)
  }

  /** There are no hits exactly when no non-empty needle occurs. */
  lemma {:induction false} HitsZero(text: string, needles: seq<string>)
    ensures Hits(text, needles) == 0 <==> forall n :: n in needles ==> n == "" || !Contains(text, n)
  {
    if needles != [] {
      var init := needles[..|needles| - 1];
      HitsZero(text, init);
      assert needles == init + [needles[|needles| - 1]];
    }
  }

  method ContainsAny(text: string, needles: seq<string>) returns (c: nat)
    ensures c == Hits(text, needles)
  {
    c := 0;
    for i := 0 to |needles|
      invariant c == Hits(text, needles[..i])
    {
      assert needles[..i + 1][..i] == needles[..i];
      var n := needles[i];
      if n == "" {
        continue;
      }
      if Contains(text, n) {
        c := c + 1;
      }
    }
    assert needles[..|needles|] == needles;
  }

  function LowerAll(ws: seq<string>): (r: seq<string>)
    ensures |r| == |ws|
  {
    seq(|ws|, i requires 0 <= i < |ws| => Lower(ws[i]))
  }

  function JaHits(text: string, t: Topic): nat {
    Hits(text, t.jaKeywords)
  }

  /** English keywords are compared lower-cased on both sides. */
  function EnHits(text: string, t: Topic): nat {
    Hits(Lower(text), LowerAll(t.enKeywords))
  }

  function ScoreTopic(text: string, t: Topic): int {
    var hits := JaHits(text, t) + EnHits(text, t);
    if hits == 0 then 0 else hits * 10 + (if t.priority < 100 then t.priority else 100)
  }

  /** English matching ignores ASCII case. */
  lemma EnHitsIgnoreCase(text: string, t: Topic)
    ensures EnHits(Lower(text), t) == EnHits(text, t)
    ensures EnHits(text, t.(enKeywords := LowerAll(t.enKeywords))) == EnHits(text, t)
  {
    LowerIdempotent(text);
    var ws := t.enKeywords;
    forall i | 0 <= i < |ws|
      ensures LowerAll(LowerAll(ws))[i] == LowerAll(ws)[i]
    {
      LowerIdempotent(ws[i]);
    }
    assert LowerAll(LowerAll(ws)) == LowerAll(ws);
  }

  /**
   * A topic without a hit scores 0; with a hit and a priority of at least
   * 0 it scores at least 10; the priority counts for at most 100.
   */
  lemma ScoreTopicSpec(text: string, t: Topic)
    ensures (forall k :: k in t.jaKeywords ==> k == "" || !Contains(text, k))
         && (forall k :: k in LowerAll(t.enKeywords) ==> k == "" || !Contains(Lower(text), k))
         ==> ScoreTopic(text, t) == 0
    ensures (exists k :: k in t.jaKeywords && k != "" && Contains(text, k)) && t.priority >= 0
         ==> ScoreTopic(text, t) >= 10
    ensures ScoreTopic(text, t) <= 10 * (|t.jaKeywords| + |t.enKeywords|) + 100
  {
    HitsZero(text, t.jaKeywords);
    HitsZero(Lower(text), LowerAll(t.enKeywords));
  }

  // ---------------------------------------------------------------------
  // Tokens
  // ---------------------------------------------------------------------

  predicate IsStopword(p: Policy, t: string) {
    exists s :: s in p.stopwords && Lower(s) == t
  }

  predicate IsBanned(p: Policy, t: string) {
    exists s :: s in p.bannedTerms && Lower(s) == t
  }

  /** The token a split piece becomes: lower-cased, then trimmed. */
  function CleanToken(t: string): string {
    Trim(Lower(t))
  }

  /** Whether a cleaned token is kept: non-empty, not a stopword, not banned. */
  predicate Keep(p: Policy, t: string) {
    t != "" && !IsStopword(p, t) && !IsBanned(p, t)
  }

  /** The kept tokens of split pieces, in order. */
  function CleanAll(p: Policy, pieces: seq<string>): seq<string> {
    if pieces == [] then []
    else
      var last := pieces[|pieces| - 1];
      var t := CleanToken(last);
      CleanAll(p, pieces[..|pieces| - 1]) + (if last != "" && Keep(p, t) then [t] else [])
  }

  /** The tokens of one slug part; an empty part gives none. */
  function PartTokens(p: Policy, part: string): seq<string> {
    if part == "" then [] else CleanAll(p, Split(part, p.separator))
  }

  /** The tokens of all parts, in order, before the `max_tokens` cut. */
  function AllTokens(p: Policy, parts: seq<string>): seq<string> {
    Seqs.FlatMap(part => PartTokens(p, part), parts)
  }

  function Take<T>(s: seq<T>, n: nat): (r: seq<T>)
    ensures |r| <= n && r <= s
    ensures |s| <= n ==> r == s
  {
    if |s| <= n then s else s[..n]
  }

  /** What `tokenizeSlugParts` returns. */
  function Tokenize(p: Policy, parts: seq<string>): seq<string> {
    Take(AllTokens(p, parts), p.maxTokens)
  }

  lemma CleanAllSnoc(p: Policy, pieces: seq<string>, j: nat)
    requires j < |pieces|
    ensures var t := CleanToken(pieces[j]);
      CleanAll(p, pieces[..j + 1])
        == CleanAll(p, pieces[..j]) + (if pieces[j] != "" && Keep(p, t) then [t] else [])
  {
    assert pieces[..j + 1][..j] == pieces[..j];
  }

  lemma AllTokensSnoc(p: Policy, parts: seq<string>, i: nat)
    requires i < |parts|
    ensures AllTokens(p, parts[..i + 1]) == AllTokens(p, parts[..i]) + PartTokens(p, parts[i])
  {
    assert parts[..i + 1][..i] == parts[..i];
  }

  /** The inner loop of `tokenizeSlugParts`: the kept tokens of one part's pieces. */
  method CleanPieces(pieces: seq<string>, policy: Policy) returns (kept: seq<string>)
    ensures kept == CleanAll(policy, pieces)
  {
    kept := [];
    for j := 0 to |pieces|
      invariant kept == CleanAll(policy, pieces[..j])
    {
      CleanAllSnoc(policy, pieces, j);
      if pieces[j] == "" {
        continue;
      }
      var t := Trim(Lower(pieces[j]));
      if t == "" {
        continue;
      }
      if IsStopword(policy, t) {
        continue;
      }
      if IsBanned(policy, t) {
        continue;
      }
      kept := kept + [t];
    }
    assert pieces[..|pieces|] == pieces;
  }

  method TokenizeSlugParts(parts: seq<string>, policy: Policy) returns (trimmed: seq<string>)
    ensures trimmed == Tokenize(policy, parts)
  {
    var out: seq<string> := [];
    for i := 0 to |parts|
      invariant out == AllTokens(policy, parts[..i])
    {
      AllTokensSnoc(policy, parts, i);
      var p := parts[i];
      if p == "" {
        continue;
      }
      var kept := CleanPieces(Split(p, policy.separator), policy);
      out := out + kept;
    }
    assert parts[..|parts|] == parts;
    trimmed := Take(out, policy.maxTokens);
  }

  /** A token as `tokenizeSlugParts` emits it. */
  predicate CleanTokenShape(p: Policy, t: string) {
    Keep(p, t) && Lower(t) == t && Trim(t) == t && p.separator !in t
  }

  lemma CleanTokenIsClean(p: Policy, piece: string)
    requires p.separator !in piece && !('a' <= p.separator <= 'z')
    requires Keep(p, CleanToken(piece))
    ensures CleanTokenShape(p, CleanToken(piece))
  {
    var l := Lower(piece);
    assert p.separator !in l by {
      forall i | 0 <= i < |l|
        ensures l[i] != p.separator
      {
        assert piece[i] in piece;
      }
    }
    TrimStartLower(piece);
    TrimEndLower(TrimStart(piece));
    LowerIdempotent(Trim(piece));
    TrimIdempotent(l);
    TrimStartSpec(l);
    TrimEndSpec(TrimStart(l));
    var t := Trim(l);
    assert forall i :: 0 <= i < |t| ==> t[i] in l by {
      forall i | 0 <= i < |t|
        ensures t[i] in l
      {
        assert t[i] == l[|l| - |TrimStart(l)| + i];
      }
    }
  }

  lemma {:induction false} CleanAllShape(p: Policy, pieces: seq<string>)
    requires forall i :: 0 <= i < |pieces| ==> p.separator !in pieces[i]
    requires !('a' <= p.separator <= 'z')
    ensures forall t :: t in CleanAll(p, pieces) ==> CleanTokenShape(p, t)
  {
    if pieces != [] {
      var last := pieces[|pieces| - 1];
      CleanAllShape(p, pieces[..|pieces| - 1]);
      if last != "" && Keep(p, CleanToken(last)) {
        CleanTokenIsClean(p, last);
      }
    }
  }

  lemma {:induction false} AllTokensShape(p: Policy, parts: seq<string>)
    requires !('a' <= p.separator <= 'z')
    ensures forall t :: t in AllTokens(p, parts) ==> CleanTokenShape(p, t)
  {
    if parts != [] {
      AllTokensShape(p, parts[..|parts| - 1]);
      var part := parts[|parts| - 1];
      if part != "" {
        var pieces := Split(part, p.separator);
        forall i | 0 <= i < |pieces|
          ensures p.separator !in pieces[i]
        {
          SplitParts(part, p.separator, i);
        }
        CleanAllShape(p, pieces);
      }
    }
  }

  /**
   * Every token is non-empty, lower-cased, trimmed, free of the separator,
   * and neither a stopword nor a banned term; there are at most
   * `max_tokens` of them, the first ones in order.
   */
  lemma TokenizeSpec(p: Policy, parts: seq<string>)
    requires !('a' <= p.separator <= 'z')
    ensures |Tokenize(p, parts)| <= p.maxTokens
    ensures Tokenize(p, parts) <= AllTokens(p, parts)
    ensures forall t :: t in Tokenize(p, parts) ==> CleanTokenShape(p, t)
  {
    AllTokensShape(p, parts);
  }

  /** A token in emitted form is its own tokenisation. */
  lemma CleanTokenFixed(p: Policy, t: string)
    requires CleanTokenShape(p, t)
    ensures PartTokens(p, t) == [t]
  {
    SplitNoSep(t, p.separator);
    assert CleanAll(p, [t]) == CleanAll(p, []) + [t];
  }

  lemma {:induction false} AllTokensFixed(p: Policy, ts: seq<string>)
    requires forall t :: t in ts ==> CleanTokenShape(p, t)
    ensures AllTokens(p, ts) == ts
  {
    if ts != [] {
      var init := ts[..|ts| - 1];
      AllTokensFixed(p, init);
      CleanTokenFixed(p, ts[|ts| - 1]);
      assert init + [ts[|ts| - 1]] == ts;
    }
  }

  /**
   * Re-tokenising emitted tokens followed by more parts keeps the emitted
   * tokens in front: padding with the safe generic tokens appends them.
   */
  lemma RetokenizePad(p: Policy, tokens: seq<string>, more: seq<string>)
    requires forall t :: t in tokens ==> CleanTokenShape(p, t)
    ensures Tokenize(p, tokens + more) == Take(tokens + AllTokens(p, more), p.maxTokens)
  {
    Seqs.FlatMapAppend(part => PartTokens(p, part), tokens, more);
    AllTokensFixed(p, tokens);
  }

  /** Tokenising twice is tokenising once. */
  lemma TokenizeIdempotent(p: Policy, parts: seq<string>)
    requires !('a' <= p.separator <= 'z')
    ensures Tokenize(p, Tokenize(p, parts)) == Tokenize(p, parts)
  {
    TokenizeSpec(p, parts);
    AllTokensFixed(p, Tokenize(p, parts));
  }

  // ---------------------------------------------------------------------
  // Joining and clamping
  // ---------------------------------------------------------------------

  /** The tokens left once the tail ones are popped while too long and more than `min_tokens` remain. */
  function KeptTokens(p: Policy, tokens: seq<string>): (r: seq<string>)
    ensures r <= tokens
    decreases |tokens|
  {
    if |Join(tokens, [p.separator])| > p.maxLength && |tokens| > p.minTokens
    then
      var r := KeptTokens(p, tokens[..|tokens| - 1]);
      assert tokens[..|tokens| - 1] <= tokens;
      r
    else tokens
  }

  /** `s.replace(new RegExp(sep + "+$"), "")`: trailing separators removed. */
  function DropTrailing(s: string, c: char): (r: string)
    ensures r <= s && (r == [] || r[|r| - 1] != c)
  {
    if |s| > 0 && s[|s| - 1] == c then DropTrailing(s[..|s| - 1], c) else s
  }

  /** What `joinAndClamp` returns. */
  function Clamp(p: Policy, tokens: seq<string>): string {
    var s := Join(KeptTokens(p, tokens), [p.separator]);
    if |s| > p.maxLength then DropTrailing(s[..p.maxLength], p.separator) else s
  }

  /**
   * `joinAndClamp`, which pops the caller's array: `remaining` is what
   * that array holds afterwards.
   */
  method JoinAndClamp(tokens: seq<string>, policy: Policy) returns (s: string, remaining: seq<string>)
    ensures s == Clamp(policy, tokens)
    ensures remaining == KeptTokens(policy, tokens)
  {
    remaining := tokens;
    s := Join(remaining, [policy.separator]);
    while |s| > policy.maxLength && |remaining| > policy.minTokens
      invariant KeptTokens(policy, remaining) == KeptTokens(policy, tokens)
      invariant s == Join(remaining, [policy.separator])
      decreases |remaining|
    {
      remaining := remaining[..|remaining| - 1];
      s := Join(remaining, [policy.separator]);
    }
    if |s| > policy.maxLength {
      s := s[..policy.maxLength];
      s := DropTrailing(s, policy.separator);
    }
  }

  lemma {:induction false} KeptTokensSpec(p: Policy, tokens: seq<string>)
    ensures var k := KeptTokens(p, tokens);
      (|k| >= p.minTokens || k == tokens)
      && (|Join(k, [p.separator])| > p.maxLength ==> |k| <= p.minTokens)
    decreases |tokens|
  {
    if |Join(tokens, [p.separator])| > p.maxLength && |tokens| > p.minTokens {
      KeptTokensSpec(p, tokens[..|tokens| - 1]);
    }
  }

  /**
   * The clamped slug is at most `max_length` long and a prefix of the
   * joined tokens; text that already fits comes back unchanged; at least
   * `min_tokens` tokens (or all of them) survive the popping; a cut never
   * leaves a trailing separator.
   */
  lemma ClampSpec(p: Policy, tokens: seq<string>)
    ensures |Clamp(p, tokens)| <= p.maxLength
    ensures Clamp(p, tokens) <= Join(tokens, [p.separator])
    ensures |Join(tokens, [p.separator])| <= p.maxLength ==> Clamp(p, tokens) == Join(tokens, [p.separator])
    ensures |KeptTokens(p, tokens)| >= p.minTokens || KeptTokens(p, tokens) == tokens
    ensures |Join(KeptTokens(p, tokens), [p.separator])| > p.maxLength
         ==> Clamp(p, tokens) == [] || Clamp(p, tokens)[|Clamp(p, tokens)| - 1] != p.separator
  {
    var k := KeptTokens(p, tokens);
    KeptTokensSpec(p, tokens);
    JoinPrefix(tokens, [p.separator], |k|);
    assert tokens[..|k|] == k;
  }

  // ---------------------------------------------------------------------
  // Slug base and final slug
  // ---------------------------------------------------------------------

  function ScoreOf(m: Match): real {
    m.score as real
  }

  /** The topics with a positive score, in dictionary order. */
  function Positive(text: string, topics: seq<Topic>): (r: seq<Match>)
    ensures forall m :: m in r ==> m.score > 0
  {
    if topics == [] then []
    else
      var t := topics[|topics| - 1];
      var m := Match(t.key, t.slug, ScoreTopic(text, t));
      Positive(text, topics[..|topics| - 1]) + (if m.score > 0 then [m] else [])
  }

  /** The scored topics sorted by descending score, ties in dictionary order. */
  function Scored(text: string, topics: seq<Topic>): seq<Match> {
    Seqs.SortDescBy(Positive(text, topics), ScoreOf)
  }

  function Slugs(ms: seq<Match>): (r: seq<string>)
    ensures |r| == |ms|
  {
    seq(|ms|, i requires 0 <= i < |ms| => ms[i].slug)
  }

  const NoteEmpty: string := "dictionary matched but slug_base empty after filtering; using safe_generic fallback"
  const NoteNoMatch: string := "no dictionary topic matched; using safe_generic fallback"

  /** The dictionary attempt: the slug base from the top three topics, padded with generic tokens when short. */
  function DictionaryBase(d: Dictionary, picked: seq<Match>): string {
    var p := d.policy;
    var tokens := Tokenize(p, Slugs(picked));
    var finalTokens := if |tokens| < p.minTokens then Tokenize(p, tokens + d.safeGenericTokens) else tokens;
    Clamp(p, finalTokens)
  }

  function RomajiShortFallback(p: Policy): string {
    Clamp(p, Tokenize(p, ["ai-governance", "documentation"]))
  }

  /** The topics `buildSlugBaseFromText` picks: the best three. */
  function Picked(text: string, topics: seq<Topic>): seq<Match> {
    Take(Scored(text, topics), 3)
  }

  /** At most three picks, at least one when any topic scored, all positive and best first. */
  lemma PickedSpec(text: string, topics: seq<Topic>)
    ensures var r := Picked(text, topics);
      |r| <= 3 && (Scored(text, topics) != [] ==> |r| >= 1)
      && Seqs.SortedDesc(r, ScoreOf) && forall m :: m in r ==> m.score > 0
  {
    var pos := Positive(text, topics);
    Seqs.SortDescByMembers(pos, ScoreOf, 3);
    Seqs.SortDescBySorted(pos, ScoreOf);
  }

  /** The safe_generic attempt, then romaji_short, both with no matched topic. */
  function GenericFallback(d: Dictionary, notes: seq<string>): SlugBase {
    var p := d.policy;
    var base2 := Clamp(p, Tokenize(p, Take(d.safeGenericTokens, p.maxTokens)));
    if base2 != "" then SlugBase(base2, [], SafeGeneric, notes)
    else SlugBase(RomajiShortFallback(p), [], RomajiShort, notes)
  }

  lemma GenericFallbackSpec(d: Dictionary, notes: seq<string>)
    ensures var r := GenericFallback(d, notes);
      r.matched == [] && r.fallback != FromDictionary && r.notes == notes
      && (r.fallback == SafeGeneric ==> r.slugBase != "")
      && |r.slugBase| <= d.policy.maxLength
  {
    var p := d.policy;
    ClampSpec(p, Tokenize(p, Take(d.safeGenericTokens, p.maxTokens)));
    ClampSpec(p, Tokenize(p, ["ai-governance", "documentation"]));
  }

  lemma DictionaryBaseFits(d: Dictionary, picked: seq<Match>)
    ensures |DictionaryBase(d, picked)| <= d.policy.maxLength
  {
    var p := d.policy;
    var tokens := Tokenize(p, Slugs(picked));
    var finalTokens := if |tokens| < p.minTokens then Tokenize(p, tokens + d.safeGenericTokens) else tokens;
    ClampSpec(p, finalTokens);
  }

  /** `buildSlugBaseFromText`, with the fallback chain dictionary, safe_generic, romaji_short. */
  function BuildSlugBaseFromText(titleOrH1: string, d: Dictionary): SlugBase {
    var text := NormalizeText(titleOrH1);
    var scored := Scored(text, d.topics);
    var picked := Picked(text, d.topics);
    var base := if scored != [] then DictionaryBase(d, picked) else "";
    if scored != [] && base != "" then SlugBase(base, picked, FromDictionary, [])
    else GenericFallback(d, if scored != [] then [NoteEmpty] else [NoteNoMatch])
  }

  /**
   * The fallback chain: the dictionary result carries one to three
   * matched topics, sorted by descending score, and a non-empty slug
   * base; either fallback carries no matched topic, and safe_generic a
   * non-empty base; every base fits `max_length`.
   */
  lemma SlugBaseSpec(titleOrH1: string, d: Dictionary)
    ensures var r := BuildSlugBaseFromText(titleOrH1, d);
      (r.fallback == FromDictionary ==>
         1 <= |r.matched| <= 3 && r.slugBase != ""
         && r.matched == Picked(NormalizeText(titleOrH1), d.topics)
         && Seqs.SortedDesc(r.matched, ScoreOf)
         && forall m :: m in r.matched ==> m.score > 0)
      && (r.fallback != FromDictionary ==> r.matched == [])
      && (r.fallback == SafeGeneric ==> r.slugBase != "")
      && |r.slugBase| <= d.policy.maxLength
  {
    var text := NormalizeText(titleOrH1);
    var picked := Picked(text, d.topics);
    PickedSpec(text, d.topics);
    DictionaryBaseFits(d, picked);
    GenericFallbackSpec(d, [NoteEmpty]);
    GenericFallbackSpec(d, [NoteNoMatch]);
  }

  /** Topics of equal score keep their dictionary order. */
  lemma ScoredStable(text: string, topics: seq<Topic>, v: real)
    ensures Seqs.KeyFilter(Scored(text, topics), ScoreOf, v) == Seqs.KeyFilter(Positive(text, topics), ScoreOf, v)
  {
    Seqs.SortDescByStable(Positive(text, topics), ScoreOf, v);
  }

  /** `s.replace(new RegExp(sep + "{2,}", "g"), sep)`: every run of separators becomes one. */
  function CollapseSep(s: string, c: char): (r: string)
    decreases |s|
  {
    if |s| < 2 then s
    else if s[0] == c && s[1] == c then CollapseSep(s[1..], c)
    else [s[0]] + CollapseSep(s[1..], c)
  }

  predicate NoDoubleSep(s: string, c: char) {
    forall i :: 0 <= i < |s| - 1 ==> s[i] != c || s[i + 1] != c
  }

  lemma {:induction false} CollapseSepHead(s: string, c: char)
    requires s != []
    ensures CollapseSep(s, c) != [] && CollapseSep(s, c)[0] == s[0]
    decreases |s|
  {
    if |s| >= 2 && s[0] == c && s[1] == c {
      CollapseSepHead(s[1..], c);
    }
  }

  /** After collapsing, no two separators are adjacent. */
  lemma {:induction false} CollapseSepNoDouble(s: string, c: char)
    ensures NoDoubleSep(CollapseSep(s, c), c)
    decreases |s|
  {
    if |s| >= 2 {
      CollapseSepNoDouble(s[1..], c);
      if !(s[0] == c && s[1] == c) {
        CollapseSepHead(s[1..], c);
        var r := CollapseSep(s[1..], c);
        assert CollapseSep(s, c) == [s[0]] + r;
        assert forall i :: 1 <= i < |r| + 1 ==> ([s[0]] + r)[i] == r[i - 1];
      }
    }
  }

  /** Text without doubled separators is left as it is. */
  lemma {:induction false} CollapseSepClean(s: string, c: char)
    requires NoDoubleSep(s, c)
    ensures CollapseSep(s, c) == s
    decreases |s|
  {
    if |s| >= 2 {
      assert forall i :: 0 <= i < |s[1..]| - 1 ==> s[1..][i] == s[i + 1];
      CollapseSepClean(s[1..], c);
    }
  }

  /** A tail without doubled separators survives collapsing at the end of any text. */
  lemma {:induction false} CollapseSepSuffix(x: string, t: string, c: char)
    requires t != [] && NoDoubleSep(t, c)
    ensures EndsWith(CollapseSep(x + t, c), t)
    decreases |x|
  {
    if x == [] {
      assert x + t == t;
      CollapseSepClean(t, c);
    } else {
      var s := x + t;
      assert s[1..] == x[1..] + t;
      CollapseSepSuffix(x[1..], t, c);
    }
  }

  function InvalidIdMessage(id: string, p: Policy): string {
    "Invalid id format: " + id + " expected " + p.idFormat
  }

  /** `buildFinalSlug`: fails on an id that does not fully match `id_format`. */
  function BuildFinalSlug(id: string, titleOrH1: string, d: Dictionary): Result<SlugResult, string> {
    var p := d.policy;
    if !p.idMatches(id) then Failure(InvalidIdMessage(id, p))
    else
      var b := BuildSlugBaseFromText(titleOrH1, d);
      Success(SlugResult(id, titleOrH1, Keys(b.matched), b.slugBase,
                         CollapseSep(b.slugBase + [p.separator] + id, p.separator),
                         b.matched, b.fallback, b.notes))
  }

  function Keys(ms: seq<Match>): (r: seq<string>)
    ensures |r| == |ms|
  {
    seq(|ms|, i requires 0 <= i < |ms| => ms[i].key)
  }

  /**
   * Joining a slug base and an id: no two separators end up adjacent, and
   * an id without doubled or leading separators survives at the end.
   */
  lemma CollapseJoinSpec(base: string, id: string, sep: char)
    ensures NoDoubleSep(CollapseSep(base + [sep] + id, sep), sep)
    ensures NoDoubleSep(id, sep) && (id == [] || id[0] != sep)
         ==> EndsWith(CollapseSep(base + [sep] + id, sep), [sep] + id)
  {
    CollapseSepNoDouble(base + [sep] + id, sep);
    if NoDoubleSep(id, sep) && (id == [] || id[0] != sep) {
      var t := [sep] + id;
      assert NoDoubleSep(t, sep) by {
        forall i | 0 <= i < |t| - 1
          ensures t[i] != sep || t[i + 1] != sep
        {
          if i > 0 {
            assert t[i] == id[i - 1] && t[i + 1] == id[i];
          }
        }
      }
      assert base + [sep] + id == base + t;
      CollapseSepSuffix(base, t, sep);
    }
  }

  /**
   * The final slug: an invalid id is the only failure; otherwise the
   * result keeps the id and title, its topic keys are the matched keys in
   * order, no two separators in it are adjacent, and for an id without
   * doubled or leading separators it ends in the separator and the id.
   */
  lemma FinalSlugSpec(id: string, titleOrH1: string, d: Dictionary)
    ensures BuildFinalSlug(id, titleOrH1, d).Failure? <==> !d.policy.idMatches(id)
    ensures BuildFinalSlug(id, titleOrH1, d).Success? ==>
      var r := BuildFinalSlug(id, titleOrH1, d).value;
      var sep := d.policy.separator;
      r.id == id && r.title == titleOrH1
      && r.slugBase == BuildSlugBaseFromText(titleOrH1, d).slugBase
      && |r.topicKeys| == |r.matchedTopics|
      && (forall i :: 0 <= i < |r.topicKeys| ==> r.topicKeys[i] == r.matchedTopics[i].key)
      && NoDoubleSep(r.finalSlug, sep)
      && (NoDoubleSep(id, sep) && (id == [] || id[0] != sep) ==> EndsWith(r.finalSlug, [sep] + id))
  {
    CollapseJoinSpec(BuildSlugBaseFromText(titleOrH1, d).slugBase, id, d.policy.separator);
  }

  /** The slug base does not depend on the id. */
  lemma SlugBaseIgnoresId(id1: string, id2: string, titleOrH1: string, d: Dictionary)
    requires BuildFinalSlug(id1, titleOrH1, d).Success? && BuildFinalSlug(id2, titleOrH1, d).Success?
    ensures BuildFinalSlug(id1, titleOrH1, d).value.slugBase == BuildFinalSlug(id2, titleOrH1, d).value.slugBase
  {
  }
}
