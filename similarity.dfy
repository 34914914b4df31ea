/**
 * Content similarity between the Japanese PSEO pages
 * (scripts/pseo/quality/similarity.ts): 15-character shingles of the
 * whitespace-normalised text, Jaccard similarity of shingle sets, the
 * per-page maximum over every other page, the pairs reported above the
 * 0.85 threshold and the "same content" clusters at 0.99.
 *
 * The shingle and Jaccard definitions here are also the ones the
 * duplicate report and the validator use.
 */
module Similarity {
  import opened Wrappers
  import opened Strings
  import opened Seqs

  const ShingleSize: nat := 15
  const SameContentThreshold: real := 0.99
  const PairReportThreshold: real := 0.85
  const PairReportLimit: nat := 200

  // ---------------------------------------------------------------- shingles

  /** The windows of `k` characters of `n`, by start position. */
  function Windows(n: string, k: nat): (w: seq<string>)
    ensures |w| == if |n| >= k then |n| - k + 1 else 0
    decreases |n|
  {
    if |n| < k then [] else [n[..k]] + if |n| == 0 then [] else Windows(n[1..], k)
  }

  /** Window `i` starts at position `i`. */
  lemma {:induction false} WindowsAt(n: string, k: nat)
    ensures forall i :: 0 <= i < |Windows(n, k)| ==> Windows(n, k)[i] == n[i..i + k]
  {
    forall i | 0 <= i < |Windows(n, k)|
      ensures Windows(n, k)[i] == n[i..i + k]
    {
      WindowAt(n, k, i);
    }
  }

  lemma {:induction false} WindowAt(n: string, k: nat, i: nat)
    requires i < |Windows(n, k)|
    ensures Windows(n, k)[i] == n[i..i + k]
    decreases i
  {
    var w := Windows(n, k);
    assert |n| >= k;
    var rest := if |n| == 0 then [] else Windows(n[1..], k);
    assert w == [n[..k]] + rest;
    if i > 0 {
      WindowAt(n[1..], k, i - 1);
      assert |n| > 0 && w[i] == rest[i - 1];
      assert n[1..][i - 1..i - 1 + k] == n[i..i + k];
    } else {
      assert w[0] == n[..k];
    }
  }

  lemma WindowsMembers(n: string, k: nat)
    ensures forall x :: x in Windows(n, k) <==> |x| == k && Contains(n, x)
  {
    var w := Windows(n, k);
    forall x
      ensures x in w <==> |x| == k && Contains(n, x)
    {
      if |x| == k && Contains(n, x) {
        var i :| 0 <= i <= |n| - |x| && MatchAt(n, x, i);
        WindowOfMatch(n, k, x, i);
      }
      if x in w {
        var i :| 0 <= i < |w| && w[i] == x;
        MatchOfWindow(n, k, i);
      }
    }
  }

  lemma WindowOfMatch(n: string, k: nat, x: string, i: nat)
    requires |x| == k && i <= |n| - k && MatchAt(n, x, i)
    ensures x in Windows(n, k)
  {
    WindowAt(n, k, i);
    assert Windows(n, k)[i] == x;
  }

  lemma MatchOfWindow(n: string, k: nat, i: nat)
    requires i < |Windows(n, k)|
    ensures |Windows(n, k)[i]| == k && MatchAt(n, Windows(n, k)[i], i)
  {
    WindowAt(n, k, i);
  }

  /** Every window of `k` characters of the whitespace-normalised text. */
  function Shingles(str: string, k: nat): set<string> {
    SetOf(Windows(NormalizeWs(str), k))
  }

  /** A shingle is exactly a `k`-character piece of the normalised text. */
  lemma ShinglesMembers(str: string, k: nat)
    ensures forall x :: x in Shingles(str, k) <==> |x| == k && Contains(NormalizeWs(str), x)
    ensures Shingles(str, k) == {} <==> |NormalizeWs(str)| < k
  {
    var n := NormalizeWs(str);
    WindowsMembers(n, k);
    var w := Windows(n, k);
    SetOfMembers(w);
    assert |n| >= k ==> w[0] in w;
  }

  /** The shingling loop: one window per start position `0 <= i <= |n| - k`. */
  method Shingle(str: string, k: nat) returns (r: set<string>)
    ensures r == Shingles(str, k)
  {
    var n := NormalizeWs(str);
    ghost var w := Windows(n, k);
    WindowsAt(n, k);
    r := {};
    var i := 0;
    while i + k <= |n|
      invariant i <= |w|
      invariant r == SetOf(w[..i])
    {
      assert w[..i + 1][..i] == w[..i];
      r := r + {n[i..i + k]};
      i := i + 1;
    }
    assert w[..i] == w;
  }

  // ----------------------------------------------------------------- jaccard

  lemma SubsetCardLe(a: set<string>, b: set<string>)
    requires a <= b
    ensures |a| <= |b|
    ensures |a| == |b| ==> a == b
  {
    assert b == a + (b - a);
    assert a * (b - a) == {};
  }

  /** |A ∩ B| / |A ∪ B|, and 0 when both sets are empty. */
  function Jaccard(a: set<string>, b: set<string>): real {
    if |a| == 0 && |b| == 0 then 0.0 else |a * b| as real / |a + b| as real
  }

  /** The ratio lies in [0, 1] and is 1 exactly for equal non-empty sets. */
  lemma JaccardBounds(a: set<string>, b: set<string>)
    ensures 0.0 <= Jaccard(a, b) <= 1.0
    ensures a + b != {} ==> Jaccard(a, b) * (|a + b| as real) == |a * b| as real
    ensures Jaccard(a, b) == 1.0 <==> a == b && a != {}
  {
    assert |a + b| + |a * b| == |a| + |b|;
    SubsetCardLe(a * b, a + b);
    if |a| != 0 || |b| != 0 {
      var p, q := |a * b|, |a + b|;
      assert q > 0 by {
        if |a| > 0 {
          SubsetCardLe(a, a + b);
        } else {
          SubsetCardLe(b, a + b);
        }
      }
      var r := p as real / q as real;
      assert r == Jaccard(a, b);
      assert r * (q as real) == p as real;
      assert r == 1.0 ==> a == b by {
        if r == 1.0 {
          assert p == q;
          assert a * b == a + b;
          assert a <= a + b && b <= a + b;
        }
      }
      assert a == b ==> r == 1.0 by {
        if a == b {
          assert a * b == a + b;
        }
      }
    }
  }

  lemma JaccardSymmetric(a: set<string>, b: set<string>)
    ensures Jaccard(a, b) == Jaccard(b, a)
  {
    assert a * b == b * a;
  }

  /** The counting loop: one pass over `a`, counting members of `b`. */
  method JaccardCount(a: set<string>, b: set<string>) returns (r: real)
    ensures r == Jaccard(a, b)
  {
    if |a| == 0 && |b| == 0 {
      return 0.0;
    }
    var inter := 0;
    var rest := a;
    while rest != {}
      invariant rest <= a
      invariant inter == |(a - rest) * b|
      decreases |rest|
    {
      var x :| x in rest;
      CountStep(a, b, rest, x);
      if x in b {
        inter := inter + 1;
      }
      rest := rest - {x};
    }
    assert a - rest == a;
    UnionSize(a, b);
    r := inter as real / (|a| + |b| - inter) as real;
  }

  /** Taking `x` out of the rest adds it to the counted part exactly when it is in `b`. */
  lemma CountStep(a: set<string>, b: set<string>, rest: set<string>, x: string)
    requires rest <= a && x in rest
    ensures |(a - (rest - {x})) * b| == |(a - rest) * b| + (if x in b then 1 else 0)
  {
    var seen := (a - rest) * b;
    if x in b {
      assert (a - (rest - {x})) * b == seen + {x};
    } else {
      assert (a - (rest - {x})) * b == seen;
    }
  }

  /** Inclusion-exclusion for two sets. */
  lemma UnionSize(a: set<string>, b: set<string>)
    ensures |a + b| + |a * b| == |a| + |b|
  {
    assert a + b == a + (b - a);
    assert b == (b - a) + (a * b);
    assert (b - a) * (a * b) == {};
  }

  // ------------------------------------------------------------ input pages

  /** A catalog page, with the HTML of its built file when that file exists. */
  datatype PageSource = PageSource(id: string, lang: string, slug: string, html: Option<string>)

  /** The last path segment of a catalog slug: the key of the text maps. */
  function Segment(slug: string): string {
    var parts := Split(DropTrailingSlash(DropLeadingSlash(slug)), '/');
    parts[|parts| - 1]
  }

  predicate Loaded(p: PageSource) {
    p.lang == "ja" && p.html.Some?
  }

  /** The two text maps, keyed by segment; `ids` is their key order. */
  datatype Texts = Texts(ids: seq<string>, raw: map<string, string>, content: map<string, string>)

  /**
   * The loading loop: a page whose file is missing is skipped; a later
   * page with the same segment replaces the texts but keeps the key's
   * first position.
   */
  function CollectTexts(pages: seq<PageSource>, rawOf: string -> string, contentOf: string -> string)
    : (t: Texts)
    ensures Distinct(t.ids)
    ensures forall id :: id in t.raw <==> id in t.ids
    ensures forall id :: id in t.content <==> id in t.ids
  {
    if pages == [] then Texts([], map[], map[])
    else
      var init := pages[..|pages| - 1];
      var t := CollectTexts(init, rawOf, contentOf);
      var p := pages[|pages| - 1];
      if !Loaded(p) then t
      else AddText(t, Segment(p.slug), rawOf(p.html.value), contentOf(p.html.value))
  }

  /** One loaded page: its texts under `seg`, which joins the key order when it is new. */
  function AddText(t: Texts, seg: string, raw: string, content: string): (r: Texts)
    requires Distinct(t.ids)
    requires forall id :: id in t.raw <==> id in t.ids
    requires forall id :: id in t.content <==> id in t.ids
    ensures Distinct(r.ids)
    ensures forall id :: id in r.raw <==> id in r.ids
    ensures forall id :: id in r.content <==> id in r.ids
  {
    Texts(if seg in t.ids then t.ids else t.ids + [seg], t.raw[seg := raw], t.content[seg := content])
  }

  /** Segments of the pages whose file exists, in catalog order. */
  function LoadedSegments(pages: seq<PageSource>): seq<string> {
    if pages == [] then []
    else
      var p := pages[|pages| - 1];
      LoadedSegments(pages[..|pages| - 1]) + (if Loaded(p) then [Segment(p.slug)] else [])
  }

  /** The ids are the distinct segments of the loaded pages, in first-seen order. */
  lemma {:induction false} CollectTextsIds(pages: seq<PageSource>, rawOf: string -> string,
                                           contentOf: string -> string)
    ensures CollectTexts(pages, rawOf, contentOf).ids == Dedup(LoadedSegments(pages))
  {
    if pages != [] {
      var init := pages[..|pages| - 1];
      var p := pages[|pages| - 1];
      CollectTextsIds(init, rawOf, contentOf);
      if Loaded(p) {
        var seg := Segment(p.slug);
        assert LoadedSegments(pages) == LoadedSegments(init) + [seg];
        DedupPrefix(LoadedSegments(init), seg);
        assert seg in CollectTexts(init, rawOf, contentOf).ids <==> seg in LoadedSegments(init);
      } else {
        assert LoadedSegments(pages) == LoadedSegments(init);
      }
    }
  }

  /** The loading loop of the script. */
  method LoadTexts(pages: seq<PageSource>, rawOf: string -> string, contentOf: string -> string)
    returns (t: Texts)
    ensures t == CollectTexts(pages, rawOf, contentOf)
  {
    t := Texts([], map[], map[]);
    var i := 0;
    while i < |pages|
      invariant i <= |pages|
      invariant t == CollectTexts(pages[..i], rawOf, contentOf)
    {
      var p := pages[i];
      assert pages[..i + 1][..i] == pages[..i];
      if p.lang == "ja" && p.html.Some? {
        var seg := Segment(p.slug);
        if seg !in t.ids {
          t := t.(ids := t.ids + [seg]);
        }
        t := t.(raw := t.raw[seg := rawOf(p.html.value)], content := t.content[seg := contentOf(p.html.value)]);
      }
      i := i + 1;
    }
    assert pages[..i] == pages;
  }

  // --------------------------------------------------------- similarities

  function RawSim(t: Texts, a: string, b: string): real {
    if a in t.raw && b in t.raw
    then Jaccard(Shingles(t.raw[a], ShingleSize), Shingles(t.raw[b], ShingleSize))
    else 0.0
  }

  function ContentSim(t: Texts, a: string, b: string): real {
    if a in t.content && b in t.content
    then Jaccard(Shingles(t.content[a], ShingleSize), Shingles(t.content[b], ShingleSize))
    else 0.0
  }

  /** One step of the inner loop: candidate `id` and its two similarities with the page. */
  datatype Cand = Cand(id: string, rawSim: real, contentSim: real)

  /** Page `a` against each of `bs`, in order. */
  function Cands(t: Texts, a: string, bs: seq<string>): (cs: seq<Cand>)
    ensures |cs| == |bs|
  {
    if bs == [] then []
    else
      var b := bs[|bs| - 1];
      Cands(t, a, bs[..|bs| - 1]) + [Cand(b, RawSim(t, a, b), ContentSim(t, a, b))]
  }

  /** Candidate `i` is id `i` with its two similarities. */
  lemma {:induction false} CandAt(t: Texts, a: string, bs: seq<string>, i: nat)
    requires i < |bs|
    ensures Cands(t, a, bs)[i] == Cand(bs[i], RawSim(t, a, bs[i]), ContentSim(t, a, bs[i]))
  {
    if i < |bs| - 1 {
      CandAt(t, a, bs[..|bs| - 1], i);
    }
  }

  /** One more id adds its candidate at the end. */
  lemma CandsSnoc(t: Texts, a: string, bs: seq<string>, j: nat)
    requires j < |bs|
    ensures Cands(t, a, bs[..j + 1]) == Cands(t, a, bs[..j]) + [Cand(bs[j], RawSim(t, a, bs[j]), ContentSim(t, a, bs[j]))]
  {
    assert bs[..j + 1][..j] == bs[..j];
  }

  /** Which of the two similarities a running maximum is taken over. */
  datatype Kind = Raw | Content

  function Value(c: Cand, kind: Kind): real {
    if kind == Raw then c.rawSim else c.contentSim
  }

  /**
   * The running maximum of the inner loop: starts at ("", 0), skips the
   * page itself, and moves only on a strictly greater similarity.
   */
  function BestOf(self: string, cs: seq<Cand>, kind: Kind): (string, real) {
    if cs == [] then ("", 0.0)
    else
      var prev := BestOf(self, cs[..|cs| - 1], kind);
      var c := cs[|cs| - 1];
      if c.id != self && Value(c, kind) > prev.1 then (c.id, Value(c, kind)) else prev
  }

  /** The maximum bounds every other candidate; it is 0 only with no partner. */
  lemma {:induction false} BestOfBound(self: string, cs: seq<Cand>, kind: Kind)
    ensures BestOf(self, cs, kind).1 >= 0.0
    ensures forall i :: 0 <= i < |cs| && cs[i].id != self ==> Value(cs[i], kind) <= BestOf(self, cs, kind).1
    ensures BestOf(self, cs, kind).1 == 0.0 ==> BestOf(self, cs, kind).0 == ""
  {
    if cs != [] {
      var init := cs[..|cs| - 1];
      BestOfBound(self, init, kind);
      assert forall i :: 0 <= i < |init| ==> cs[i] == init[i];
    }
  }

  /** A positive maximum is attained by the partner, and by no earlier candidate. */
  lemma {:induction false} BestOfAttained(self: string, cs: seq<Cand>, kind: Kind)
    ensures BestOf(self, cs, kind).1 > 0.0 ==>
      exists j :: 0 <= j < |cs| && cs[j].id == BestOf(self, cs, kind).0 && cs[j].id != self
        && Value(cs[j], kind) == BestOf(self, cs, kind).1
        && forall k :: 0 <= k < j && cs[k].id != self ==> Value(cs[k], kind) < BestOf(self, cs, kind).1
  {
    if cs != [] {
      var n := |cs| - 1;
      var init := cs[..n];
      var prev := BestOf(self, init, kind);
      var c := cs[n];
      BestOfAttained(self, init, kind);
      if c.id != self && Value(c, kind) > prev.1 {
        BestOfBound(self, init, kind);
        assert forall k :: 0 <= k < n ==> cs[k] == init[k];
      } else if prev.1 > 0.0 {
        var j :| 0 <= j < |init| && init[j].id == prev.0 && init[j].id != self && Value(init[j], kind) == prev.1
          && forall k :: 0 <= k < j && init[k].id != self ==> Value(init[k], kind) < prev.1;
        assert cs[j] == init[j];
        assert forall k :: 0 <= k < j ==> cs[k] == init[k];
      }
    }
  }

  datatype Pair = Pair(idA: string, idB: string, rawSim: real, contentSim: real)

  predicate Reported(rawSim: real, contentSim: real) {
    contentSim >= PairReportThreshold || rawSim >= PairReportThreshold
  }

  /** Pairs pushed while page `a` is compared with the candidates, in order. */
  function PairsOf(a: string, cs: seq<Cand>): seq<Pair> {
    if cs == [] then []
    else
      var c := cs[|cs| - 1];
      PairsOf(a, cs[..|cs| - 1])
      + (if c.id != a && Reported(c.rawSim, c.contentSim) then [Pair(a, c.id, c.rawSim, c.contentSim)] else [])
  }

  /** `[a, b].sort().join("|")`. */
  function PairKey(a: string, b: string): string {
    if LexLe(a, b) then a + "|" + b else b + "|" + a
  }

  lemma PairKeySymmetric(a: string, b: string)
    ensures PairKey(a, b) == PairKey(b, a)
  {
    LexLeTotal(a, b);
    if LexLe(a, b) && LexLe(b, a) {
      LexLeAntisym(a, b);
    }
  }

  /** The `sameClusters` Map: keys in insertion order, each with its two ids. */
  datatype Same = Same(keys: seq<string>, members: map<string, seq<string>>)

  function SameOf(a: string, cs: seq<Cand>, s0: Same): Same {
    if cs == [] then s0
    else
      var s := SameOf(a, cs[..|cs| - 1], s0);
      var c := cs[|cs| - 1];
      var key := PairKey(a, c.id);
      if c.id != a && c.contentSim >= SameContentThreshold && key !in s.members
      then Same(s.keys + [key], s.members[key := [a, c.id]])
      else s
  }

  /** Every entry pairs two different pages at content similarity 0.99 or more. */
  ghost predicate SameOk(t: Texts, s: Same) {
    Distinct(s.keys)
    && (forall k :: k in s.members <==> k in s.keys)
    && forall k :: k in s.members ==>
      |s.members[k]| == 2 && s.members[k][0] != s.members[k][1]
      && k == PairKey(s.members[k][0], s.members[k][1])
      && ContentSim(t, s.members[k][0], s.members[k][1]) >= SameContentThreshold
  }

  lemma {:induction false} SameOfOk(t: Texts, a: string, bs: seq<string>, s0: Same)
    requires SameOk(t, s0)
    ensures SameOk(t, SameOf(a, Cands(t, a, bs), s0))
  {
    if bs != [] {
      var cs := Cands(t, a, bs);
      SameOfOk(t, a, bs[..|bs| - 1], s0);
      assert cs[..|cs| - 1] == Cands(t, a, bs[..|bs| - 1]);
    }
  }

  datatype PageSim = PageSim(rawMax: real, rawWith: Option<string>, contentMax: real, contentWith: Option<string>)

  /** `x || undefined`. */
  function OrUndefined(s: string): Option<string> {
    if s == "" then None else Some(s)
  }

  /** The `byPage` entry of page `a`: both maxima and their partners. */
  function Entry(a: string, cs: seq<Cand>): PageSim {
    PageSim(BestOf(a, cs, Raw).1, OrUndefined(BestOf(a, cs, Raw).0),
            BestOf(a, cs, Content).1, OrUndefined(BestOf(a, cs, Content).0))
  }

  datatype Scan = Scan(byPage: map<string, PageSim>, pairs: seq<Pair>, same: Same)

  /** What one pass of the inner loop adds for page `a`. */
  function Compared(s: Scan, a: string, cs: seq<Cand>): Scan {
    Scan(s.byPage[a := Entry(a, cs)], s.pairs + PairsOf(a, cs), SameOf(a, cs, s.same))
  }

  /** The outer loop over `pages`, each page compared with every id of `t`. */
  function ScanAll(t: Texts, pages: seq<string>): Scan {
    if pages == [] then Scan(map[], [], Same([], map[]))
    else
      var a := pages[|pages| - 1];
      Compared(ScanAll(t, pages[..|pages| - 1]), a, Cands(t, a, t.ids))
  }

  /** Greedy clusters: a `sameClusters` entry is kept when none of its ids is used yet. */
  function SelectClusters(keys: seq<string>, members: map<string, seq<string>>): (r: (set<string>, seq<seq<string>>))
    requires forall k :: k in keys ==> k in members
  {
    if keys == [] then ({}, [])
    else
      var (used, clusters) := SelectClusters(keys[..|keys| - 1], members);
      var arr := members[keys[|keys| - 1]];
      if exists id :: id in arr && id in used then (used, clusters)
      else (used + (set id | id in arr), clusters + [arr])
  }

  datatype Report = Report(byPage: map<string, PageSim>, pairsOverThreshold: seq<Pair>, clusters: seq<seq<string>>)

  /** What the script writes, for the given pages and text extractors. */
  function SimilarityReport(pages: seq<PageSource>, rawOf: string -> string, contentOf: string -> string): Report {
    var t := CollectTexts(pages, rawOf, contentOf);
    var s := ScanAll(t, t.ids);
    SameOfAllOk(t, t.ids);
    var (_, clusters) := SelectClusters(s.same.keys, s.same.members);
    Report(s.byPage, s.pairs[..if |s.pairs| < PairReportLimit then |s.pairs| else PairReportLimit], clusters)
  }

  lemma {:induction false} SameOfAllOk(t: Texts, pages: seq<string>)
    ensures SameOk(t, ScanAll(t, pages).same)
  {
    if pages != [] {
      SameOfAllOk(t, pages[..|pages| - 1]);
      SameOfOk(t, pages[|pages| - 1], t.ids, ScanAll(t, pages[..|pages| - 1]).same);
    }
  }

  /** Entries are never removed: a later candidate only adds keys. */
  lemma {:induction false} SameOfKeeps(a: string, cs: seq<Cand>, s0: Same, k: string)
    requires k in s0.members
    ensures k in SameOf(a, cs, s0).members
  {
    if cs != [] {
      SameOfKeeps(a, cs[..|cs| - 1], s0, k);
    }
  }

  /** Every candidate other than the page at 0.99 or more leaves its pair key in the map. */
  lemma {:induction false} SameOfHas(a: string, cs: seq<Cand>, s0: Same, j: nat)
    requires j < |cs| && cs[j].id != a && cs[j].contentSim >= SameContentThreshold
    ensures PairKey(a, cs[j].id) in SameOf(a, cs, s0).members
  {
    var init := cs[..|cs| - 1];
    if j < |cs| - 1 {
      assert init[j] == cs[j];
      SameOfHas(a, init, s0, j);
      var s := SameOf(a, init, s0);
      var c := cs[|cs| - 1];
      if c.id != a && c.contentSim >= SameContentThreshold && PairKey(a, c.id) !in s.members {
        assert SameOf(a, cs, s0).members == s.members[PairKey(a, c.id) := [a, c.id]];
      }
    }
  }

  /** Later pages only add keys to `sameClusters`. */
  lemma {:induction false} ScanAllKeeps(t: Texts, pages: seq<string>, n: nat, k: string)
    requires n <= |pages| && k in ScanAll(t, pages[..n]).same.members
    ensures k in ScanAll(t, pages).same.members
  {
    if n < |pages| {
      var init := pages[..|pages| - 1];
      assert init[..n] == pages[..n];
      ScanAllKeeps(t, init, n, k);
      SameOfKeeps(pages[|pages| - 1], Cands(t, pages[|pages| - 1], t.ids), ScanAll(t, init).same, k);
    } else {
      assert pages[..n] == pages;
    }
  }

  /**
   * Completeness of `sameClusters`: any compared page and any other id
   * whose content similarity reaches 0.99 have their pair key in the map.
   */
  lemma SameComplete(t: Texts, pages: seq<string>, a: string, b: string)
    requires a in pages && b in t.ids && a != b && ContentSim(t, a, b) >= SameContentThreshold
    ensures PairKey(a, b) in ScanAll(t, pages).same.members
    ensures PairKey(a, b) in ScanAll(t, pages).same.keys
  {
    var i :| 0 <= i < |pages| && pages[i] == a;
    var j :| 0 <= j < |t.ids| && t.ids[j] == b;
    var prefix := pages[..i + 1];
    assert prefix[..i] == pages[..i];
    var cs := Cands(t, a, t.ids);
    CandAt(t, a, t.ids, j);
    SameOfHas(a, cs, ScanAll(t, pages[..i]).same, j);
    assert ScanAll(t, prefix) == Compared(ScanAll(t, pages[..i]), a, cs);
    ScanAllKeeps(t, pages, i + 1, PairKey(a, b));
    SameOfAllOk(t, pages);
  }

  // ------------------------------------------------------------ properties

  /**
   * by_page has exactly the compared pages, each with the entry of its
   * own pass.
   */
  lemma {:induction false} ScanAllByPage(t: Texts, pages: seq<string>)
    ensures forall a :: a in ScanAll(t, pages).byPage <==> a in pages
    ensures forall a :: a in pages ==> ScanAll(t, pages).byPage[a] == Entry(a, Cands(t, a, t.ids))
  {
    if pages != [] {
      var init, last := pages[..|pages| - 1], pages[|pages| - 1];
      ScanAllByPage(t, init);
      var m0 := ScanAll(t, init).byPage;
      var m := ScanAll(t, pages).byPage;
      assert m == m0[last := Entry(last, Cands(t, last, t.ids))];
      assert pages == init + [last];
      forall a
        ensures (a in m <==> a in pages) && (a in pages ==> m[a] == Entry(a, Cands(t, a, t.ids)))
      {
        assert a in pages <==> a in init || a == last;
      }
    }
  }

  /** The maxima of page `a` are non-negative and bound its similarity with every other id. */
  lemma EntryBounds(t: Texts, a: string)
    ensures Entry(a, Cands(t, a, t.ids)).rawMax >= 0.0 && Entry(a, Cands(t, a, t.ids)).contentMax >= 0.0
    ensures forall b :: b in t.ids && b != a ==>
      RawSim(t, a, b) <= Entry(a, Cands(t, a, t.ids)).rawMax
      && ContentSim(t, a, b) <= Entry(a, Cands(t, a, t.ids)).contentMax
  {
    var cs := Cands(t, a, t.ids);
    BestOfBound(a, cs, Raw);
    BestOfBound(a, cs, Content);
    forall b | b in t.ids && b != a
      ensures RawSim(t, a, b) <= BestOf(a, cs, Raw).1 && ContentSim(t, a, b) <= BestOf(a, cs, Content).1
    {
      var i :| 0 <= i < |t.ids| && t.ids[i] == b;
      CandAt(t, a, t.ids, i);
      assert Value(cs[i], Raw) == RawSim(t, a, b);
      assert Value(cs[i], Content) == ContentSim(t, a, b);
    }
  }

  /** A positive raw maximum is the similarity with the recorded partner, another id. */
  lemma EntryRawPartner(t: Texts, a: string)
    ensures Entry(a, Cands(t, a, t.ids)).rawMax > 0.0 ==>
      exists b :: Entry(a, Cands(t, a, t.ids)).rawWith == OrUndefined(b) && b in t.ids && b != a
        && RawSim(t, a, b) == Entry(a, Cands(t, a, t.ids)).rawMax
  {
    var cs := Cands(t, a, t.ids);
    BestOfAttained(a, cs, Raw);
    if BestOf(a, cs, Raw).1 > 0.0 {
      var j :| 0 <= j < |cs| && cs[j].id == BestOf(a, cs, Raw).0 && cs[j].id != a
        && Value(cs[j], Raw) == BestOf(a, cs, Raw).1;
      CandAt(t, a, t.ids, j);
      assert t.ids[j] in t.ids && cs[j].id == t.ids[j];
    }
  }

  /** A positive content maximum is the similarity with the recorded partner, another id. */
  lemma EntryContentPartner(t: Texts, a: string)
    ensures Entry(a, Cands(t, a, t.ids)).contentMax > 0.0 ==>
      exists b :: Entry(a, Cands(t, a, t.ids)).contentWith == OrUndefined(b) && b in t.ids && b != a
        && ContentSim(t, a, b) == Entry(a, Cands(t, a, t.ids)).contentMax
  {
    var cs := Cands(t, a, t.ids);
    BestOfAttained(a, cs, Content);
    if BestOf(a, cs, Content).1 > 0.0 {
      var j :| 0 <= j < |cs| && cs[j].id == BestOf(a, cs, Content).0 && cs[j].id != a
        && Value(cs[j], Content) == BestOf(a, cs, Content).1;
      CandAt(t, a, t.ids, j);
      assert t.ids[j] in t.ids && cs[j].id == t.ids[j];
    }
  }

  lemma {:induction false} PairsOfMembers(a: string, cs: seq<Cand>)
    ensures forall p :: p in PairsOf(a, cs) <==>
      p.idA == a && p.idB != a && Cand(p.idB, p.rawSim, p.contentSim) in cs && Reported(p.rawSim, p.contentSim)
  {
    if cs != [] {
      PairsOfMembers(a, cs[..|cs| - 1]);
      assert forall x :: x in cs <==> x in cs[..|cs| - 1] || x == cs[|cs| - 1];
    }
  }

  lemma CandsMembers(t: Texts, a: string, bs: seq<string>)
    ensures forall b, r, c :: Cand(b, r, c) in Cands(t, a, bs) <==>
      b in bs && r == RawSim(t, a, b) && c == ContentSim(t, a, b)
  {
    forall b, r, c | b in bs && r == RawSim(t, a, b) && c == ContentSim(t, a, b)
      ensures Cand(b, r, c) in Cands(t, a, bs)
    {
      var i :| 0 <= i < |bs| && bs[i] == b;
      CandAt(t, a, bs, i);
    }
    forall b, r, c | Cand(b, r, c) in Cands(t, a, bs)
      ensures b in bs && r == RawSim(t, a, b) && c == ContentSim(t, a, b)
    {
      var i :| 0 <= i < |bs| && Cands(t, a, bs)[i] == Cand(b, r, c);
      CandAt(t, a, bs, i);
    }
  }

  /** A pair is reported exactly when one of its two similarities reaches 0.85. */
  lemma {:induction false} ScanAllPairs(t: Texts, pages: seq<string>)
    ensures forall p :: p in ScanAll(t, pages).pairs <==>
      p.idA in pages && p.idB in t.ids && p.idA != p.idB
      && p.rawSim == RawSim(t, p.idA, p.idB) && p.contentSim == ContentSim(t, p.idA, p.idB)
      && Reported(p.rawSim, p.contentSim)
  {
    if pages != [] {
      var init := pages[..|pages| - 1];
      var a := pages[|pages| - 1];
      ScanAllPairs(t, init);
      PairsOfMembers(a, Cands(t, a, t.ids));
      CandsMembers(t, a, t.ids);
      assert forall x :: x in pages <==> x in init || x == a;
    }
  }

  /** Selected clusters are disjoint and each is one `sameClusters` entry. */
  lemma {:induction false} SelectClustersDisjoint(keys: seq<string>, members: map<string, seq<string>>)
    requires forall k :: k in keys ==> k in members
    ensures forall c :: c in SelectClusters(keys, members).1 ==> exists k :: k in keys && members[k] == c
    ensures forall c, id :: c in SelectClusters(keys, members).1 && id in c ==> id in SelectClusters(keys, members).0
    ensures forall i, j, id ::
      (0 <= i < j < |SelectClusters(keys, members).1| && id in SelectClusters(keys, members).1[i])
      ==> id !in SelectClusters(keys, members).1[j]
  {
    if keys != [] {
      var init := keys[..|keys| - 1];
      SelectClustersDisjoint(init, members);
      assert forall k :: k in init ==> k in keys;
    }
  }

  // ----------------------------------- the evidently intended clusters

  /** The clusters that share an id with `arr`. */
  function Touching(cs: set<set<string>>, arr: set<string>): set<set<string>> {
    set c | c in cs && c * arr != {}
  }

  function UnionOf(cs: set<set<string>>): set<string> {
    set c, id | c in cs && id in c :: id
  }

  /** One `sameClusters` entry merged in: the clusters it touches and the entry become one. */
  function MergeEntry(cs: set<set<string>>, arr: set<string>): set<set<string>> {
    (cs - Touching(cs, arr)) + {arr + UnionOf(Touching(cs, arr))}
  }

  /**
   * The evident intent of `same_content_clusters`: pages linked by a chain
   * of same-content pairs form one cluster. As written, an entry sharing an
   * id with an earlier one is dropped (`SelectClustersDisjoint`), so three
   * mutually identical pages are reported as one pair and the third page in
   * no cluster.
   */
  function MergedClusters(keys: seq<string>, members: map<string, seq<string>>): set<set<string>>
    requires forall k :: k in keys ==> k in members
  {
    if keys == [] then {}
    else MergeEntry(MergedClusters(keys[..|keys| - 1], members), IdSet(members[keys[|keys| - 1]]))
  }

  function IdSet(arr: seq<string>): set<string> {
    set id | id in arr
  }

  ghost predicate DisjointClusters(cs: set<set<string>>) {
    forall a, b :: a in cs && b in cs && a != b ==> a * b == {}
  }

  lemma MergeDisjoint(cs: set<set<string>>, arr: set<string>)
    requires DisjointClusters(cs)
    ensures DisjointClusters(MergeEntry(cs, arr))
  {
    var t := Touching(cs, arr);
    var n := arr + UnionOf(t);
    forall a, b | a in MergeEntry(cs, arr) && b in MergeEntry(cs, arr) && a != b
      ensures a * b == {}
    {
      if a != n && b != n {
        assert a in cs && b in cs;
      } else {
        var c := if a == n then b else a;
        assert c in cs && c !in t;
        assert c * arr == {};
        forall id | id in c
          ensures id !in n
        {
          assert id !in c * arr;
          forall d | d in t
            ensures id !in d
          {
            assert d in cs && d != c;
            assert id !in c * d;
          }
        }
      }
    }
  }

  /** A cluster, once formed, stays inside some cluster. */
  lemma MergeKeeps(cs: set<set<string>>, arr: set<string>, c: set<string>) returns (d: set<string>)
    requires c in cs
    ensures d in MergeEntry(cs, arr) && c <= d
  {
    if c in Touching(cs, arr) {
      d := arr + UnionOf(Touching(cs, arr));
    } else {
      d := c;
    }
  }

  /**
   * The intended clusters are disjoint, and both pages of every
   * `sameClusters` entry lie in one of them.
   */
  lemma {:induction false} MergedClustersSpec(keys: seq<string>, members: map<string, seq<string>>)
    requires forall k :: k in keys ==> k in members
    ensures DisjointClusters(MergedClusters(keys, members))
    ensures forall k :: k in keys ==>
      exists c :: c in MergedClusters(keys, members) && IdSet(members[k]) <= c
  {
    if keys != [] {
      var init := keys[..|keys| - 1];
      var last := keys[|keys| - 1];
      assert forall k :: k in init ==> k in keys;
      MergedClustersSpec(init, members);
      var before := MergedClusters(init, members);
      var arr := IdSet(members[last]);
      MergeDisjoint(before, arr);
      forall k | k in keys
        ensures exists c :: c in MergedClusters(keys, members) && IdSet(members[k]) <= c
      {
        if k == last {
          var n := arr + UnionOf(Touching(before, arr));
          assert n in MergedClusters(keys, members) && IdSet(members[k]) <= n;
        } else {
          assert k in init;
          var c :| c in before && IdSet(members[k]) <= c;
          var d := MergeKeeps(before, arr, c);
          assert d in MergedClusters(keys, members) && IdSet(members[k]) <= d;
        }
      }
    }
  }

  /**
   * Three distinct pages linked by the entries {a, b} and {b, c}: as
   * written the second entry is skipped and `c` lands in no cluster, while
   * the merged clusters put all three pages together.
   */
  lemma ChainDropsPage(members: map<string, seq<string>>, k1: string, k2: string, a: string, b: string, c: string)
    requires k1 in members && k2 in members && members[k1] == [a, b] && members[k2] == [b, c]
    requires a != c && b != c
    ensures SelectClusters([k1, k2], members).1 == [[a, b]]
    ensures forall cl :: cl in SelectClusters([k1, k2], members).1 ==> c !in cl
    ensures MergedClusters([k1, k2], members) == {{a, b, c}}
  {
    assert [k1, k2][..1] == [k1];
    SelectOne(members, k1);
    MergedOne(members, k1);
    var ab := IdSet([a, b]);
    var bc := IdSet([b, c]);
    assert b in ab * bc;
    UnionOfOne(ab);
    assert Touching({ab}, bc) == {ab};
    assert MergedClusters([k1, k2], members) == {bc + ab};
    assert bc + ab == {a, b, c};
  }

  /** A single entry is kept as it is. */
  lemma SelectOne(members: map<string, seq<string>>, k: string)
    requires k in members
    ensures SelectClusters([k], members) == (IdSet(members[k]), [members[k]])
  {
    assert [k][..0] == [];
    var used: set<string> := {};
    assert SelectClusters([], members) == (used, []);
    assert !exists id :: id in members[k] && id in used;
    assert used + (set id | id in members[k]) == IdSet(members[k]);
    assert [] + [members[k]] == [members[k]];
  }

  /** A single entry is one merged cluster. */
  lemma MergedOne(members: map<string, seq<string>>, k: string)
    requires k in members
    ensures MergedClusters([k], members) == {IdSet(members[k])}
  {
    assert [k][..0] == [];
    var none: set<set<string>> := {};
    assert MergedClusters([], members) == none;
    var arr := IdSet(members[k]);
    assert Touching(none, arr) == none;
    assert arr + UnionOf(none) == arr;
    assert MergeEntry(none, arr) == {arr};
  }

  lemma UnionOfOne(x: set<string>)
    ensures UnionOf({x}) == x
  {
    assert forall id :: id in UnionOf({x}) <==> id in x;
  }

  /**
   * A page whose HTML file is missing has no by_page entry and takes part in
   * no reported pair.
   */
  lemma MissingPageAbsent(pages: seq<PageSource>, rawOf: string -> string, contentOf: string -> string, seg: string)
    requires seg !in LoadedSegments(pages)
    ensures seg !in SimilarityReport(pages, rawOf, contentOf).byPage
    ensures forall p :: p in SimilarityReport(pages, rawOf, contentOf).pairsOverThreshold ==>
      p.idA != seg && p.idB != seg
  {
    var t := CollectTexts(pages, rawOf, contentOf);
    CollectTextsIds(pages, rawOf, contentOf);
    ScanAllByPage(t, t.ids);
    ScanAllPairs(t, t.ids);
    var s := ScanAll(t, t.ids);
    var n := if |s.pairs| < PairReportLimit then |s.pairs| else PairReportLimit;
    assert forall p :: p in s.pairs[..n] ==> p in s.pairs;
  }

  // ------------------------------------------------------------- the script

  /** The two similarities of one ordered pair, from the shingle sets of `a`. */
  method PairSims(t: Texts, a: string, b: string, rawA: set<string>, contentA: set<string>)
    returns (rawSim: real, contentSim: real)
    requires a in t.raw && a in t.content && b in t.raw && b in t.content
    requires rawA == Shingles(t.raw[a], ShingleSize) && contentA == Shingles(t.content[a], ShingleSize)
    ensures rawSim == RawSim(t, a, b) && contentSim == ContentSim(t, a, b)
  {
    var rawB := Shingle(t.raw[b], ShingleSize);
    var contentB := Shingle(t.content[b], ShingleSize);
    rawSim := JaccardCount(rawA, rawB);
    contentSim := JaccardCount(contentA, contentB);
  }

  /** The variables of the inner loop: both running maxima, the pairs and `sameClusters`. */
  datatype Acc = Acc(rawWith: string, rawMax: real, contentWith: string, contentMax: real,
                     pairs: seq<Pair>, same: Same)

  /** The inner loop's variables once page `a` has met the candidates `cs`. */
  function AccOf(a: string, cs: seq<Cand>, s: Scan): Acc {
    Acc(BestOf(a, cs, Raw).0, BestOf(a, cs, Raw).1, BestOf(a, cs, Content).0, BestOf(a, cs, Content).1,
        s.pairs + PairsOf(a, cs), SameOf(a, cs, s.same))
  }

  /** Meeting the page itself changes nothing. */
  lemma AccOfSelf(a: string, cs: seq<Cand>, c: Cand, s: Scan)
    requires c.id == a
    ensures AccOf(a, cs + [c], s) == AccOf(a, cs, s)
  {
    assert (cs + [c])[..|cs|] == cs;
  }

  /** The body of the inner loop for a page `b` other than `a`. */
  method Visit(a: string, b: string, rawSim: real, contentSim: real, acc: Acc, ghost cs: seq<Cand>, ghost s: Scan)
    returns (acc': Acc)
    requires a != b
    requires acc == AccOf(a, cs, s)
    ensures acc' == AccOf(a, cs + [Cand(b, rawSim, contentSim)], s)
  {
    assert (cs + [Cand(b, rawSim, contentSim)])[..|cs|] == cs;
    acc' := acc;
    if rawSim > acc.rawMax {
      acc' := acc'.(rawWith := b, rawMax := rawSim);
    }
    if contentSim > acc.contentMax {
      acc' := acc'.(contentWith := b, contentMax := contentSim);
    }
    if contentSim >= PairReportThreshold || rawSim >= PairReportThreshold {
      acc' := acc'.(pairs := acc.pairs + [Pair(a, b, rawSim, contentSim)]);
    }
    var key := PairKey(a, b);
    if contentSim >= SameContentThreshold && key !in acc.same.members {
      acc' := acc'.(same := Same(acc.same.keys + [key], acc.same.members[key := [a, b]]));
    }
  }

  /** One pass of the inner loop: page `a` against every id. */
  method CompareOne(t: Texts, a: string, s: Scan) returns (s': Scan)
    requires forall id :: id in t.raw <==> id in t.ids
    requires forall id :: id in t.content <==> id in t.ids
    requires a in t.ids
    ensures s' == Compared(s, a, Cands(t, a, t.ids))
  {
    var acc := CompareRow(t, a, s);
    s' := Scan(s.byPage[a := PageSim(acc.rawMax, OrUndefined(acc.rawWith), acc.contentMax, OrUndefined(acc.contentWith))],
               acc.pairs, acc.same);
  }

  /** The inner loop: page `a` against every id, maxima and pairs accumulated. */
  method CompareRow(t: Texts, a: string, s: Scan) returns (acc: Acc)
    requires forall id :: id in t.raw <==> id in t.ids
    requires forall id :: id in t.content <==> id in t.ids
    requires a in t.ids
    ensures acc == AccOf(a, Cands(t, a, t.ids), s)
  {
    var rawA := Shingle(t.raw[a], ShingleSize);
    var contentA := Shingle(t.content[a], ShingleSize);
    acc := Acc("", 0.0, "", 0.0, s.pairs, s.same);
    ghost var cs: seq<Cand> := [];
    var j := 0;
    while j < |t.ids|
      invariant j <= |t.ids|
      invariant cs == Cands(t, a, t.ids[..j])
      invariant acc == AccOf(a, cs, s)
    {
      acc, cs := CompareStep(t, a, s, rawA, contentA, j, acc, cs);
      j := j + 1;
    }
    assert t.ids[..j] == t.ids;
  }

  /** One iteration of that loop: page `a` against `t.ids[j]`. */
  method CompareStep(t: Texts, a: string, s: Scan, rawA: set<string>, contentA: set<string>, j: nat,
                     acc: Acc, ghost cs: seq<Cand>)
    returns (acc': Acc, ghost cs': seq<Cand>)
    requires forall id :: id in t.raw <==> id in t.ids
    requires forall id :: id in t.content <==> id in t.ids
    requires a in t.ids && j < |t.ids|
    requires rawA == Shingles(t.raw[a], ShingleSize) && contentA == Shingles(t.content[a], ShingleSize)
    requires cs == Cands(t, a, t.ids[..j]) && acc == AccOf(a, cs, s)
    ensures cs' == Cands(t, a, t.ids[..j + 1]) && acc' == AccOf(a, cs', s)
  {
    var b := t.ids[j];
    CandsSnoc(t, a, t.ids, j);
    var c := Cand(b, RawSim(t, a, b), ContentSim(t, a, b));
    if a != b {
      var rawSim, contentSim := PairSims(t, a, b, rawA, contentA);
      acc' := Visit(a, b, rawSim, contentSim, acc, cs, s);
    } else {
      AccOfSelf(a, cs, c, s);
      acc' := acc;
    }
    cs' := cs + [c];
  }

  /** The comparison loops of `main`: every ordered pair of distinct pages. */
  method CompareAll(t: Texts) returns (s: Scan)
    requires forall id :: id in t.raw <==> id in t.ids
    requires forall id :: id in t.content <==> id in t.ids
    ensures s == ScanAll(t, t.ids)
  {
    s := Scan(map[], [], Same([], map[]));
    var i := 0;
    while i < |t.ids|
      invariant i <= |t.ids|
      invariant s == ScanAll(t, t.ids[..i])
    {
      s := CompareNext(t, i, s);
      i := i + 1;
    }
    assert t.ids[..i] == t.ids;
  }

  /** One iteration of the outer loop: page `t.ids[i]` against every id. */
  method CompareNext(t: Texts, i: nat, s: Scan) returns (s': Scan)
    requires forall id :: id in t.raw <==> id in t.ids
    requires forall id :: id in t.content <==> id in t.ids
    requires i < |t.ids| && s == ScanAll(t, t.ids[..i])
    ensures s' == ScanAll(t, t.ids[..i + 1])
  {
    assert t.ids[..i + 1][..i] == t.ids[..i];
    s' := CompareOne(t, t.ids[i], s);
  }

  /** The cluster loop: skip an entry that shares an id with an earlier cluster. */
  method PickClusters(keys: seq<string>, members: map<string, seq<string>>) returns (clusters: seq<seq<string>>)
    requires forall k :: k in keys ==> k in members
    ensures clusters == SelectClusters(keys, members).1
  {
    clusters := [];
    var used: set<string> := {};
    var i := 0;
    while i < |keys|
      invariant i <= |keys|
      invariant (used, clusters) == SelectClusters(keys[..i], members)
    {
      assert keys[..i + 1][..i] == keys[..i];
      var arr := members[keys[i]];
      var clash := false;
      var k := 0;
      while k < |arr|
        invariant k <= |arr|
        invariant clash <==> exists id :: id in arr[..k] && id in used
      {
        assert arr[..k + 1] == arr[..k] + [arr[k]];
        if arr[k] in used {
          clash := true;
        }
        k := k + 1;
      }
      assert arr[..k] == arr;
      if !clash {
        used := used + (set id | id in arr);
        clusters := clusters + [arr];
      }
      i := i + 1;
    }
    assert keys[..i] == keys;
  }

  /** The whole script, from the catalog pages to the report it writes. */
  method Run(pages: seq<PageSource>, rawOf: string -> string, contentOf: string -> string) returns (r: Report)
    ensures r == SimilarityReport(pages, rawOf, contentOf)
  {
    var t := LoadTexts(pages, rawOf, contentOf);
    var s := CompareAll(t);
    SameOfAllOk(t, t.ids);
    var clusters := PickClusters(s.same.keys, s.same.members);
    var n := if |s.pairs| < PairReportLimit then |s.pairs| else PairReportLimit;
    r := Report(s.byPage, s.pairs[..n], clusters);
  }
}
