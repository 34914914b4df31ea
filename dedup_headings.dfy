/**
 * Removal of repeated `<h2>` sections from generated HTML: a section runs
 * from one `<h2…>` opening tag to the next (or to the end of the text);
 * among sections whose heading text normalises to the same key only the
 * first is kept, and in every run of consecutive References sections
 * only the last is kept.
 *
 * The text is carved into sections by the regular-expression searches of
 * the loop (`NextSection`, `Cuts`), and the bookkeeping of the loop
 * (`parts`, `seen`, the References buffer, `fixups`, `lastIndex`) is a
 * step function over those sections (`StepCut`, `Fold`). A second,
 * index-wise description (`SpecState`) says what has been emitted after
 * the first k sections without replaying the loop, and `DedupByIndex`
 * proves the two agree.
 */
module DedupHeadings {
  import opened Wrappers
  import opened Strings
  import Seqs

  // ---------------------------------------------------------------------
  // Heading keys
  // ---------------------------------------------------------------------

  /** `s.replace(/　/g, " ")`. */
  function ReplaceIdeographicSpace(s: string): (r: string)
    ensures |r| == |s|
  {
    seq(|s|, i requires 0 <= i < |s| => if s[i] == '\U{3000}' then ' ' else s[i])
  }

  /** The heading key: whitespace runs collapsed, U+3000 as a space, trimmed, lower-cased. */
  function NormalizeHeadingKey(text: string): string {
    Lower(Trim(ReplaceIdeographicSpace(CollapseWs(text))))
  }

  /** Every whitespace character is a plain space and no two of them are adjacent. */
  predicate Tidy(s: string) {
    (forall i :: 0 <= i < |s| && IsSpace(s[i]) ==> s[i] == ' ')
    && (forall i :: 0 <= i < |s| - 1 ==> !IsSpace(s[i]) || !IsSpace(s[i + 1]))
  }

  lemma {:induction false} CollapseHead(t: string)
    requires t != []
    ensures CollapseWs(t) != []
    ensures IsSpace(t[0]) ==> CollapseWs(t)[0] == ' '
    ensures !IsSpace(t[0]) ==> CollapseWs(t)[0] == t[0]
    decreases |t|
  {
    if IsSpace(t[0]) && |t| > 1 && IsSpace(t[1]) {
      CollapseHead(t[1..]);
    }
  }

  lemma {:induction false} CollapseTidy(s: string)
    ensures Tidy(CollapseWs(s))
    decreases |s|
  {
    if s != [] {
      var r := CollapseWs(s[1..]);
      CollapseTidy(s[1..]);
      if |s| > 1 {
        CollapseHead(s[1..]);
      }
      var c := CollapseWs(s);
      if IsSpace(s[0]) && |s| > 1 && IsSpace(s[1]) {
        assert c == r;
      } else if IsSpace(s[0]) {
        assert c == " " + r;
        assert forall i :: 1 <= i < |c| ==> c[i] == r[i - 1];
      } else {
        assert c == [s[0]] + r;
        assert forall i :: 1 <= i < |c| ==> c[i] == r[i - 1];
      }
    }
  }

  lemma TidySlice(s: string, a: nat, b: nat)
    requires Tidy(s) && a <= b <= |s|
    ensures Tidy(s[a..b])
  {
    assert forall i :: 0 <= i < b - a ==> s[a..b][i] == s[a + i];
  }

  lemma TidyIdeographic(s: string)
    requires Tidy(s)
    ensures ReplaceIdeographicSpace(s) == s
  {
    assert forall i :: 0 <= i < |s| ==> s[i] != '\U{3000}';
  }

  lemma TrimEnds(s: string) returns (a: nat, b: nat)
    ensures Trim(s) == [] || (!IsSpace(Trim(s)[0]) && !IsSpace(Trim(s)[|Trim(s)| - 1]))
    ensures a <= b <= |s| && Trim(s) == s[a..b]
  {
    var t := TrimStart(s);
    TrimStartSpec(s);
    TrimEndSpec(t);
    a := |s| - |t|;
    b := a + |TrimEnd(t)|;
  }

  /** Lower-casing keeps a tidy text tidy and its ends non-blank. */
  lemma LowerTidy(t: string)
    requires Tidy(t) && (t == [] || (!IsSpace(t[0]) && !IsSpace(t[|t| - 1])))
    ensures var k := Lower(t);
      Tidy(k) && (k == [] || (!IsSpace(k[0]) && !IsSpace(k[|k| - 1])))
  {
    assert forall i :: 0 <= i < |t| ==> (IsSpace(Lower(t)[i]) <==> IsSpace(t[i]));
    assert forall i :: 0 <= i < |t| && IsSpace(t[i]) ==> Lower(t)[i] == t[i];
  }

  /**
   * The key is tidy and has no surrounding whitespace, so headings that
   * differ only in the length or kind of their whitespace runs share it.
   */
  lemma KeyShape(text: string)
    ensures var k := NormalizeHeadingKey(text);
      Tidy(k) && (k == [] || (!IsSpace(k[0]) && !IsSpace(k[|k| - 1])))
  {
    var c := CollapseWs(text);
    CollapseTidy(text);
    TidyIdeographic(c);
    var a, b := TrimEnds(c);
    TidySlice(c, a, b);
    LowerTidy(Trim(c));
  }

  /** Headings that differ only in ASCII case share a key. */
  lemma KeyIgnoresCase(text: string)
    ensures NormalizeHeadingKey(Lower(text)) == NormalizeHeadingKey(text)
  {
    var c := CollapseWs(text);
    CollapseLower(text);
    CollapseTidy(text);
    CollapseTidy(Lower(text));
    TidyIdeographic(c);
    TidyIdeographic(Lower(c));
    TrimStartLower(c);
    TrimEndLower(TrimStart(c));
    LowerIdempotent(Trim(c));
  }

  /** Leading whitespace does not change the key. */
  lemma KeyIgnoresLeadingSpace(text: string)
    ensures NormalizeHeadingKey(" " + text) == NormalizeHeadingKey(text)
  {
    assert (" " + text)[1..] == text;
    if text != [] && IsSpace(text[0]) {
      assert CollapseWs(" " + text) == CollapseWs(text);
    } else {
      var c := CollapseWs(text);
      assert CollapseWs(" " + text) == " " + c;
      assert ReplaceIdeographicSpace(" " + c) == " " + ReplaceIdeographicSpace(c);
      assert TrimStart(" " + ReplaceIdeographicSpace(c)) == TrimStart(ReplaceIdeographicSpace(c));
    }
  }

  predicate IsReferencesSection(h2Text: string) {
    var k := NormalizeHeadingKey(h2Text);
    k == "references" || k == "参考文献" || k == "references "
  }

  /** The third spelling the test lists, with a trailing space, can never be a key. */
  lemma ReferencesIff(h2Text: string)
    ensures IsReferencesSection(h2Text)
      <==> NormalizeHeadingKey(h2Text) == "references" || NormalizeHeadingKey(h2Text) == "参考文献"
  {
    KeyShape(h2Text);
  }

  // ---------------------------------------------------------------------
  // Carving the text into sections
  // ---------------------------------------------------------------------

  const H2Open: string := "<h2"
  const H2Close: string := "</h2>"

  /**
   * The first match of `/<h2[^>]*>/i`: its position and length. The
   * `[^>]*` part stops at the first `>`; if the first `<h2` has no `>`
   * after it, no later one has either, and there is no match.
   */
  function FindH2(s: string): (r: Option<(nat, nat)>)
    ensures r.Some? ==> r.value.1 >= 4 && r.value.0 + r.value.1 <= |s|
  {
    var p := IndexOf(Lower(s), H2Open, 0);
    if p == -1 then None
    else
      var g := IndexOf(s, ">", p + 3);
      if g == -1 then None else Some((p, g + 1 - p))
  }

  /** The match is the first `<h2` in any case, closed by the first `>` after it. */
  lemma FindH2Spec(s: string)
    ensures FindH2(s).Some? ==>
      var (p, len) := FindH2(s).value;
      MatchAt(Lower(s), H2Open, p) && s[p + len - 1] == '>'
      && (forall q :: 0 <= q < p ==> !MatchAt(Lower(s), H2Open, q))
      && (forall q :: p + 3 <= q < p + len - 1 ==> s[q] != '>')
    ensures FindH2(s).None? ==>
      forall q :: MatchAt(Lower(s), H2Open, q) ==> forall g :: q + 3 <= g < |s| ==> s[g] != '>'
  {
    IndexOfFirst(Lower(s), H2Open, 0);
    var p := IndexOf(Lower(s), H2Open, 0);
    if p != -1 {
      IndexOfFirst(s, ">", p + 3);
      var g := IndexOf(s, ">", p + 3);
      if g == -1 {
        FindH2None(s, p);
      } else {
        assert forall q :: p + 3 <= q < g && s[q] == '>' ==> MatchAt(s, ">", q);
      }
    }
  }

  /** Without a `>` after the first `<h2`, there is none after any later one. */
  lemma FindH2None(s: string, p: nat)
    requires p == IndexOf(Lower(s), H2Open, 0) && IndexOf(s, ">", p + 3) == -1
    ensures forall q :: MatchAt(Lower(s), H2Open, q) ==> forall g :: q + 3 <= g < |s| ==> s[g] != '>'
  {
    IndexOfFirst(Lower(s), H2Open, 0);
    IndexOfFirst(s, ">", p + 3);
    assert forall q :: p + 3 <= q < |s| && s[q] == '>' ==> MatchAt(s, ">", q);
    forall q | MatchAt(Lower(s), H2Open, q)
      ensures forall g :: q + 3 <= g < |s| ==> s[g] != '>'
    {
      assert p <= q;
    }
  }

  /** `s.replace(/<[^>]+>/g, "")`: every `<`, then one or more non-`>`, then `>`, removed. */
  function StripTags(s: string): (r: string)
    ensures |r| <= |s|
    decreases |s|
  {
    if s == [] then []
    else if s[0] == '<' then
      var g := IndexOf(s, ">", 1);
      if g >= 2 then StripTags(s[g + 1..]) else [s[0]] + StripTags(s[1..])
    else [s[0]] + StripTags(s[1..])
  }

  lemma {:induction false} StripTagsPlain(s: string)
    requires '<' !in s
    ensures StripTags(s) == s
    decreases |s|
  {
    if s != [] {
      assert s[0] in s;
      assert forall c :: c in s[1..] ==> c in s;
      StripTagsPlain(s[1..]);
    }
  }

  /**
   * A section: where its `<h2` starts, where it ends, its heading text,
   * and what the loop derives from that text (whether it is a References
   * heading, and its key).
   */
  datatype Section = Section(start: nat, end: nat, text: string, isRef: bool, key: string)

  /**
   * The heading text after an opening tag: what lies before the first
   * `</h2>` (in any case), tags stripped and trimmed, or "" when there is
   * no `</h2>`.
   */
  function HeadingText(after: string): string {
    var close := IndexOf(Lower(after), H2Close, 0);
    if close >= 0 then Trim(StripTags(after[..close])) else ""
  }

  /**
   * Where a section whose opening tag spans `rest[st..st + len]` ends: at
   * the next opening tag searched after the first `</h2>` (or after the
   * tag itself when there is no `</h2>`), else at the end of the text.
   * The end is computed as the source writes it, so when there is no
   * `</h2>` it is four characters past the next `<h2`
   * (`UnclosedSectionEnd`).
   */
  function SectionEnd(rest: string, st: nat, len: nat): (e: nat)
    requires len >= 4 && st + len <= |rest|
    ensures st + 4 <= e <= |rest| && st + len <= e
  {
    var after := rest[st + len..];
    var close := IndexOf(Lower(after), H2Close, 0);
    var skip: nat := if close >= 0 then close + 5 else 0;
    var next := FindH2(after[skip..]);
    if next.Some? then
      assert next.value.0 + 4 <= |after| - skip;
      st + len + close + 5 + next.value.0
    else |rest|
  }

  /** One turn of the loop's text handling: the next section, if an opening tag remains. */
  function NextSection(rest: string): (r: Option<Section>)
    ensures r.Some? ==> r.value.start + 4 <= r.value.end <= |rest|
  {
    match FindH2(rest)
    case None => None
    case Some((st, len)) =>
      var text := HeadingText(rest[st + len..]);
      Some(Section(st, SectionEnd(rest, st, len), text, IsReferencesSection(text), NormalizeHeadingKey(text)))
  }

  lemma LowerSuffix(s: string, a: nat)
    requires a <= |s|
    ensures Lower(s[a..]) == Lower(s)[a..]
  {
  }

  /** A case-insensitive match in a suffix is one in the whole text. */
  lemma MatchShift(rest: string, a: nat, q: nat)
    requires a <= |rest| && MatchAt(Lower(rest[a..]), H2Open, q)
    ensures MatchAt(Lower(rest), H2Open, a + q)
  {
    LowerSuffix(rest, a);
    var lr := Lower(rest);
    assert lr[a + q..a + q + 3] == lr[a..][q..q + 3];
  }

  /**
   * With a closing `</h2>`, a section ends where the next `<h2` starts or
   * at the end of the text.
   */
  lemma ClosedSectionEnd(rest: string, st: nat, len: nat)
    requires len >= 4 && st + len <= |rest|
    requires IndexOf(Lower(rest[st + len..]), H2Close, 0) >= 0
    ensures var e := SectionEnd(rest, st, len);
      e == |rest| || MatchAt(Lower(rest), H2Open, e)
  {
    var after := rest[st + len..];
    var close := IndexOf(Lower(after), H2Close, 0);
    assert MatchAt(Lower(after), H2Close, close);
    assert close + 5 <= |after|;
    var a := st + len + close + 5;
    var tail := after[close + 5..];
    assert tail == rest[a..];
    var next := FindH2(tail);
    if next.Some? {
      assert SectionEnd(rest, st, len) == a + next.value.0;
      assert MatchAt(Lower(tail), H2Open, next.value.0);
      MatchShift(rest, a, next.value.0);
    } else {
      assert SectionEnd(rest, st, len) == |rest|;
    }
  }

  /**
   * Without a closing `</h2>`, the computed end adds the 5 of `</h2>` to
   * the close position -1, so it lies four characters past the start of
   * the next `<h2`, inside that tag.
   */
  lemma UnclosedSectionEnd(rest: string, st: nat, len: nat)
    requires len >= 4 && st + len <= |rest|
    requires IndexOf(Lower(rest[st + len..]), H2Close, 0) == -1
    requires FindH2(rest[st + len..]).Some?
    ensures var e := SectionEnd(rest, st, len);
      e >= 4 && MatchAt(Lower(rest), H2Open, e - 4)
  {
    var after := rest[st + len..];
    assert after[0..] == after;
    var next := FindH2(after);
    assert SectionEnd(rest, st, len) == st + len + 4 + next.value.0;
    assert MatchAt(Lower(after), H2Open, next.value.0);
    MatchShift(rest, st + len, next.value.0);
  }

  /** A carved section together with the text the loop held when it was found. */
  datatype Cut = Cut(rest: string, sec: Section)

  predicate WellCut(c: Cut) {
    c.sec.start + 4 <= c.sec.end <= |c.rest|
  }

  predicate AllWell(cuts: seq<Cut>) {
    forall i :: 0 <= i < |cuts| ==> WellCut(cuts[i])
  }

  /** The sections in the order the loop meets them. */
  function Cuts(rest: string): (r: seq<Cut>)
    ensures AllWell(r)
    decreases |rest|
  {
    match NextSection(rest)
    case None => []
    case Some(s) => [Cut(rest, s)] + Cuts(rest[s.end..])
  }

  /** The trimmed text left once no opening tag remains. */
  function Tail(rest: string): string
    decreases |rest|
  {
    match NextSection(rest)
    case None => Trim(rest)
    case Some(s) => Tail(rest[s.end..])
  }

  // ---------------------------------------------------------------------
  // The loop's bookkeeping, one section at a time
  // ---------------------------------------------------------------------

  datatype State = State(parts: seq<string>, seen: set<string>, refs: seq<string>,
                         fixups: seq<string>, lastIndex: nat)

  const Init: State := State([], {}, [], [], 0)

  datatype Output = Output(html: string, fixups: seq<string>)

  const Untitled: string := "(無題)"

  function KeptLastMessage(n: nat): string {
    "References: kept last of " + NatToString(n)
  }

  /** The fixup for a dropped duplicate: its heading text, or "(無題)" when empty. */
  function Label(text: string): string {
    if text != "" then text else Untitled
  }

  /** The text of a section: from the start of the text the loop holds up to its end, trimmed. */
  function SectionText(c: Cut): string
    requires WellCut(c)
  {
    Trim(c.rest[..c.sec.end])
  }

  /** The trimmed text between `lastIndex` and the section's start, when there is some. */
  function Before(rest: string, last: nat, start: nat): seq<string>
    requires start <= |rest|
  {
    if last < start then
      var b := Trim(rest[last..start]);
      if b != "" then [b] else []
    else []
  }

  /** `flushReferences`: emit the last buffered References section, noting a run longer than one. */
  function Flush(st: State): State {
    if |st.refs| > 1 then
      st.(parts := st.parts + [st.refs[|st.refs| - 1]],
          fixups := st.fixups + [KeptLastMessage(|st.refs|)], refs := [])
    else if |st.refs| == 1 then st.(parts := st.parts + [st.refs[0]], refs := [])
    else st.(refs := [])
  }

  predicate IsRef(c: Cut) {
    c.sec.isRef
  }

  function KeyOf(c: Cut): string {
    c.sec.key
  }

  /** One pass of the loop body over section `c`. */
  function StepCut(st: State, c: Cut): State
    requires WellCut(c)
  {
    if IsRef(c) then
      st.(parts := st.parts + Before(c.rest, st.lastIndex, c.sec.start),
          refs := st.refs + [SectionText(c)], lastIndex := 0)
    else
      var f := Flush(st);
      if KeyOf(c) in f.seen then
        f.(fixups := f.fixups + [Label(c.sec.text)], lastIndex := 0)
      else
        f.(seen := f.seen + {KeyOf(c)},
           parts := f.parts + Before(c.rest, f.lastIndex, c.sec.start) + [SectionText(c)],
           lastIndex := c.sec.end)
  }

  function Fold(st: State, cuts: seq<Cut>): State
    requires AllWell(cuts)
    decreases |cuts|
  {
    if cuts == [] then st else Fold(StepCut(st, cuts[0]), cuts[1..])
  }

  /** After the loop: the trailing text, then the last References run, joined by blank lines. */
  function Finish(st: State, tail: string): Output {
    var f := Flush(st.(parts := st.parts + (if tail != "" then [tail] else [])));
    Output(Join(f.parts, "\n\n"), f.fixups)
  }

  /** What `deduplicateH2Sections` returns for `html`. */
  function Dedup(html: string): Output {
    Finish(Fold(Init, Cuts(html)), Tail(html))
  }

  // ---------------------------------------------------------------------
  // The loop
  // ---------------------------------------------------------------------

  method FlushReferences(parts: seq<string>, fixups: seq<string>, refs: seq<string>)
    returns (parts': seq<string>, fixups': seq<string>)
    ensures var f := Flush(State(parts, {}, refs, fixups, 0));
      parts' == f.parts && fixups' == f.fixups
  {
    parts', fixups' := parts, fixups;
    if |refs| > 1 {
      fixups' := fixups' + [KeptLastMessage(|refs|)];
      parts' := parts' + [refs[|refs| - 1]];
    } else if |refs| == 1 {
      parts' := parts' + [refs[0]];
    }
  }

  lemma FoldCons(st: State, c: Cut, cuts: seq<Cut>)
    requires WellCut(c) && AllWell(cuts)
    ensures AllWell([c] + cuts)
    ensures Fold(st, [c] + cuts) == Fold(StepCut(st, c), cuts)
  {
    assert ([c] + cuts)[1..] == cuts;
  }

  /** The loop's text handling: the sections of `rest` are the next one and those after it. */
  lemma CutsCons(rest: string)
    requires NextSection(rest).Some?
    ensures var s := NextSection(rest).value;
      Cuts(rest) == [Cut(rest, s)] + Cuts(rest[s.end..]) && Tail(rest) == Tail(rest[s.end..])
  {
  }

  method DeduplicateH2Sections(html: string) returns (out: Output)
    ensures out == Dedup(html)
  {
    var fixups: seq<string> := [];
    var seen: set<string> := {};
    var parts: seq<string> := [];
    var rest := html;
    var lastIndex: nat := 0;
    var refs: seq<string> := [];
    ghost var spec := Fold(Init, Cuts(html));
    ghost var tailPart := if Tail(html) != "" then [Tail(html)] else [];
    while true
      invariant Fold(State(parts, seen, refs, fixups, lastIndex), Cuts(rest)) == spec
      invariant Tail(rest) == Tail(html)
      decreases |rest|
    {
      var m := NextSection(rest);
      if m.None? {
        assert Cuts(rest) == [] && Tail(rest) == Trim(rest);
        assert State(parts, seen, refs, fixups, lastIndex) == spec;
        var tail := Trim(rest);
        if tail != "" {
          parts := parts + [tail];
        }
        assert State(parts, seen, refs, fixups, lastIndex) == spec.(parts := spec.parts + tailPart);
        break;
      }
      var s := m.value;
      ghost var c := Cut(rest, s);
      ghost var st := State(parts, seen, refs, fixups, lastIndex);
      CutsCons(rest);
      FoldCons(st, c, Cuts(rest[s.end..]));
      var section := Trim(rest[..s.end]);
      if s.isRef {
        parts := parts + Before(rest, lastIndex, s.start);
        refs := refs + [section];
        rest := rest[s.end..];
        lastIndex := 0;
        assert State(parts, seen, refs, fixups, lastIndex) == StepCut(st, c);
        continue;
      }
      parts, fixups := FlushReferences(parts, fixups, refs);
      refs := [];
      ghost var f := Flush(st);
      assert f == State(parts, seen, refs, fixups, lastIndex);
      var normalized := s.key;
      if normalized in seen {
        fixups := fixups + [Label(s.text)];
        rest := rest[s.end..];
        lastIndex := 0;
        assert State(parts, seen, refs, fixups, lastIndex) == StepCut(st, c);
        continue;
      }
      seen := seen + {normalized};
      parts := parts + Before(rest, lastIndex, s.start) + [section];
      lastIndex := s.end;
      rest := rest[s.end..];
      assert State(parts, seen, refs, fixups, lastIndex) == StepCut(st, c);
    }
    parts, fixups := FlushReferences(parts, fixups, refs);
    out := Output(Join(parts, "\n\n"), fixups);
  }

  // ---------------------------------------------------------------------
  // What has been emitted after k sections, described index by index
  // ---------------------------------------------------------------------

  /** The keys of the non-References sections among the first k. */
  function KeysBefore(cuts: seq<Cut>, k: nat): set<string>
    requires k <= |cuts|
  {
    if k == 0 then {}
    else KeysBefore(cuts, k - 1) + (if IsRef(cuts[k - 1]) then {} else {KeyOf(cuts[k - 1])})
  }

  /** A non-References section is kept iff no earlier non-References section has its key. */
  predicate Kept(cuts: seq<Cut>, i: nat)
    requires i < |cuts|
  {
    !IsRef(cuts[i]) && KeyOf(cuts[i]) !in KeysBefore(cuts, i)
  }

  /** How many References sections directly precede position k. */
  function RunLen(cuts: seq<Cut>, k: nat): nat
    requires k <= |cuts|
  {
    if k > 0 && IsRef(cuts[k - 1]) then RunLen(cuts, k - 1) + 1 else 0
  }

  /** The texts of those sections. */
  function RunBuf(cuts: seq<Cut>, k: nat): seq<string>
    requires k <= |cuts| && AllWell(cuts)
  {
    if k > 0 && IsRef(cuts[k - 1]) then RunBuf(cuts, k - 1) + [SectionText(cuts[k - 1])] else []
  }

  /** `lastIndex` when section k is reached: the previous section's end if it was kept, else 0. */
  function LastIdx(cuts: seq<Cut>, k: nat): nat
    requires k <= |cuts|
  {
    if k > 0 && Kept(cuts, k - 1) then cuts[k - 1].sec.end else 0
  }

  /** The References section emitted when the run before position k ends: its last member. */
  function FlushParts(cuts: seq<Cut>, k: nat): seq<string>
    requires k <= |cuts| && AllWell(cuts)
  {
    if RunLen(cuts, k) > 0 then [SectionText(cuts[k - 1])] else []
  }

  function FlushFix(cuts: seq<Cut>, k: nat): seq<string>
    requires k <= |cuts|
  {
    if RunLen(cuts, k) > 1 then [KeptLastMessage(RunLen(cuts, k))] else []
  }

  /** What section i adds to `parts`. */
  function PartsAt(cuts: seq<Cut>, i: nat): seq<string>
    requires i < |cuts| && AllWell(cuts)
  {
    var c := cuts[i];
    if IsRef(c) then Before(c.rest, LastIdx(cuts, i), c.sec.start)
    else
      FlushParts(cuts, i)
      + (if Kept(cuts, i) then Before(c.rest, LastIdx(cuts, i), c.sec.start) + [SectionText(c)] else [])
  }

  /** What section i adds to `fixups`. */
  function FixAt(cuts: seq<Cut>, i: nat): seq<string>
    requires i < |cuts|
  {
    if IsRef(cuts[i]) then []
    else FlushFix(cuts, i) + (if Kept(cuts, i) then [] else [Label(cuts[i].sec.text)])
  }

  function PartsUpTo(cuts: seq<Cut>, k: nat): seq<string>
    requires k <= |cuts| && AllWell(cuts)
  {
    if k == 0 then [] else PartsUpTo(cuts, k - 1) + PartsAt(cuts, k - 1)
  }

  function FixUpTo(cuts: seq<Cut>, k: nat): seq<string>
    requires k <= |cuts|
  {
    if k == 0 then [] else FixUpTo(cuts, k - 1) + FixAt(cuts, k - 1)
  }

  function SpecState(cuts: seq<Cut>, k: nat): State
    requires k <= |cuts| && AllWell(cuts)
  {
    State(PartsUpTo(cuts, k), KeysBefore(cuts, k), RunBuf(cuts, k), FixUpTo(cuts, k), LastIdx(cuts, k))
  }

  lemma {:induction false} RunBufShape(cuts: seq<Cut>, k: nat)
    requires k <= |cuts| && AllWell(cuts)
    ensures |RunBuf(cuts, k)| == RunLen(cuts, k)
    ensures RunLen(cuts, k) > 0 ==> RunBuf(cuts, k)[RunLen(cuts, k) - 1] == SectionText(cuts[k - 1])
  {
    if k > 0 && IsRef(cuts[k - 1]) {
      RunBufShape(cuts, k - 1);
    }
  }

  /** Flushing the buffer held after k sections emits what `FlushParts` and `FlushFix` say. */
  lemma FlushAt(cuts: seq<Cut>, k: nat, st: State)
    requires k <= |cuts| && AllWell(cuts) && st.refs == RunBuf(cuts, k)
    ensures Flush(st) == st.(parts := st.parts + FlushParts(cuts, k),
                             fixups := st.fixups + FlushFix(cuts, k), refs := [])
  {
    RunBufShape(cuts, k);
  }

  lemma Assoc(a: seq<string>, b: seq<string>, c: seq<string>, d: seq<string>)
    ensures a + b + c + d == a + (b + (c + d))
  {
  }

  lemma StepParts(cuts: seq<Cut>, k: nat)
    requires k < |cuts| && AllWell(cuts)
    ensures StepCut(SpecState(cuts, k), cuts[k]).parts == PartsUpTo(cuts, k + 1)
  {
    var st := SpecState(cuts, k);
    var c := cuts[k];
    var b := Before(c.rest, LastIdx(cuts, k), c.sec.start);
    if !IsRef(c) {
      FlushAt(cuts, k, st);
      var fp := FlushParts(cuts, k);
      if Kept(cuts, k) {
        var x := [SectionText(c)];
        assert PartsAt(cuts, k) == fp + (b + x);
        assert StepCut(st, c).parts == PartsUpTo(cuts, k) + fp + b + x;
        Assoc(PartsUpTo(cuts, k), fp, b, x);
      }
    }
  }

  /** Only the run buffer, the seen keys and the fix-ups decide the new fix-ups. */
  lemma StepFixups(cuts: seq<Cut>, k: nat, st: State)
    requires k < |cuts| && AllWell(cuts)
    requires st.refs == RunBuf(cuts, k) && st.seen == KeysBefore(cuts, k) && st.fixups == FixUpTo(cuts, k)
    ensures StepCut(st, cuts[k]).fixups == FixUpTo(cuts, k + 1)
  {
    var c := cuts[k];
    if !IsRef(c) {
      FlushAt(cuts, k, st);
      var ff := FlushFix(cuts, k);
      if !Kept(cuts, k) {
        var x := [Label(c.sec.text)];
        assert FixAt(cuts, k) == ff + x;
        assert StepCut(st, c).fixups == FixUpTo(cuts, k) + ff + x;
      }
    }
  }

  /** One loop pass takes the description after k sections to the one after k + 1. */
  lemma StepAgrees(cuts: seq<Cut>, k: nat)
    requires k < |cuts| && AllWell(cuts)
    ensures StepCut(SpecState(cuts, k), cuts[k]) == SpecState(cuts, k + 1)
  {
    var st := SpecState(cuts, k);
    var c := cuts[k];
    StepParts(cuts, k);
    StepFixups(cuts, k, st);
    if !IsRef(c) {
      FlushAt(cuts, k, st);
    }
    var n := StepCut(st, c);
    assert n.refs == RunBuf(cuts, k + 1);
    assert n.seen == KeysBefore(cuts, k + 1);
    assert n.lastIndex == LastIdx(cuts, k + 1);
  }

  lemma {:induction false} FoldAgrees(cuts: seq<Cut>, k: nat)
    requires k <= |cuts| && AllWell(cuts)
    ensures Fold(SpecState(cuts, k), cuts[k..]) == SpecState(cuts, |cuts|)
    decreases |cuts| - k
  {
    if k < |cuts| {
      StepAgrees(cuts, k);
      assert cuts[k..][1..] == cuts[k + 1..];
      FoldAgrees(cuts, k + 1);
    }
  }

  /**
   * The result, described section by section: the parts each section
   * adds, then the trailing text, then the final References run; the
   * fixups each section adds, then the note for that final run.
   */
  lemma DedupByIndex(html: string)
    ensures var cuts := Cuts(html);
      var n := |cuts|;
      var tail := Tail(html);
      Dedup(html) == Output(
        Join(PartsUpTo(cuts, n) + (if tail != "" then [tail] else []) + FlushParts(cuts, n), "\n\n"),
        FixUpTo(cuts, n) + FlushFix(cuts, n))
  {
    var cuts := Cuts(html);
    var n := |cuts|;
    var tail := Tail(html);
    FoldAgrees(cuts, 0);
    assert cuts[0..] == cuts;
    assert Fold(Init, cuts) == SpecState(cuts, n);
    var st := SpecState(cuts, n);
    FlushAt(cuts, n, st.(parts := st.parts + (if tail != "" then [tail] else [])));
  }

  // ---------------------------------------------------------------------
  // Consequences
  // ---------------------------------------------------------------------

  lemma {:induction false} KeysBeforeMembers(cuts: seq<Cut>, k: nat, key: string)
    requires k <= |cuts|
    ensures key in KeysBefore(cuts, k)
      <==> exists j :: 0 <= j < k && !IsRef(cuts[j]) && KeyOf(cuts[j]) == key
  {
    if k > 0 {
      KeysBeforeMembers(cuts, k - 1, key);
    }
  }

  /** Among non-References sections sharing a key, exactly the first is kept. */
  lemma KeptIffFirst(cuts: seq<Cut>, i: nat)
    requires i < |cuts|
    ensures Kept(cuts, i)
      <==> !IsRef(cuts[i]) && forall j :: 0 <= j < i && !IsRef(cuts[j]) ==> KeyOf(cuts[j]) != KeyOf(cuts[i])
  {
    KeysBeforeMembers(cuts, i, KeyOf(cuts[i]));
  }

  /** Kept sections have pairwise distinct keys. */
  lemma KeptDistinct(cuts: seq<Cut>, i: nat, j: nat)
    requires i < j < |cuts| && Kept(cuts, i) && Kept(cuts, j)
    ensures KeyOf(cuts[i]) != KeyOf(cuts[j])
  {
    KeptIffFirst(cuts, j);
  }

  /** A References run counted at k is exactly the maximal run of References sections ending before k. */
  lemma {:induction false} RunLenSpan(cuts: seq<Cut>, k: nat)
    requires k <= |cuts|
    ensures RunLen(cuts, k) <= k
    ensures forall j :: k - RunLen(cuts, k) <= j < k ==> IsRef(cuts[j])
    ensures RunLen(cuts, k) < k ==> !IsRef(cuts[k - RunLen(cuts, k) - 1])
  {
    if k > 0 && IsRef(cuts[k - 1]) {
      RunLenSpan(cuts, k - 1);
    }
  }

  /** Text without an opening `<h2…>` tag comes back trimmed, with no fixups. */
  lemma NoHeading(html: string)
    requires FindH2(html).None?
    ensures Dedup(html) == Output(Trim(html), [])
  {
  }

  /**
   * Text before the first heading is emitted twice when that heading is
   * kept: once on its own, and again at the head of the first section,
   * which is sliced from the start of the text rather than from the
   * heading.
   */
  lemma PreambleTwice(html: string)
    requires |Cuts(html)| > 0
    requires var c := Cuts(html)[0]; !IsRef(c) && Trim(html[..c.sec.start]) != ""
    ensures var c := Cuts(html)[0];
      var parts := PartsUpTo(Cuts(html), |Cuts(html)|);
      |parts| >= 2 && parts[0] == Trim(html[..c.sec.start]) && parts[1] == Trim(html[..c.sec.end])
      && html[..c.sec.start] <= html[..c.sec.end]
  {
    var cuts := Cuts(html);
    var c := cuts[0];
    assert c.rest == html;
    assert KeysBefore(cuts, 0) == {};
    assert PartsAt(cuts, 0) == Before(html, 0, c.sec.start) + [SectionText(c)];
    assert html[0..c.sec.start] == html[..c.sec.start];
    PartsPrefix(cuts, 1, |cuts|);
  }

  /**
   * The evident intent: a section is sliced from its own heading, so the
   * text before it is emitted once, by `before`, and not again.
   */
  function SectionFromHeading(c: Cut): string
    requires WellCut(c)
  {
    Trim(c.rest[c.sec.start..c.sec.end])
  }

  /** A section's slice from its heading keeps its opening tag when trimmed. */
  lemma SliceOpensWithTag(rest: string, p: nat, len: nat, e: nat) returns (b: nat)
    requires p + len <= e <= |rest| && len >= 1 && rest[p] == '<' && rest[p + len - 1] == '>'
    ensures p + len <= b <= e && Trim(rest[p..e]) == rest[p..b]
  {
    var x := rest[p..e];
    assert x[0] == '<' && x[len - 1] == '>';
    assert TrimStart(x) == x;
    TrimEndSpec(x);
    var n := |TrimEnd(x)|;
    assert !IsSpace(x[len - 1]);
    b := p + n;
    assert x[..n] == rest[p..b];
  }

  /** The opening tag the search matches starts with `<` and ends with `>`. */
  lemma H2TagEnds(s: string)
    requires FindH2(s).Some?
    ensures var m := FindH2(s).value; s[m.0] == '<' && s[m.0 + m.1 - 1] == '>'
  {
    var m := FindH2(s).value;
    FindH2Spec(s);
    assert MatchAt(Lower(s), H2Open, m.0);
    assert Lower(s)[m.0..m.0 + 3] == H2Open;
    assert LowerChar(s[m.0]) == Lower(s)[m.0] == '<';
  }

  /** The next section starts where the search matched and ends at `SectionEnd`. */
  lemma NextSectionAt(rest: string)
    requires FindH2(rest).Some?
    ensures var m := FindH2(rest).value;
      NextSection(rest).Some? && NextSection(rest).value.start == m.0
      && NextSection(rest).value.end == SectionEnd(rest, m.0, m.1)
  {
  }

  /** The next section, sliced from its heading, keeps the whole opening tag the search matched. */
  lemma NextSectionOpens(rest: string) returns (b: nat)
    requires FindH2(rest).Some?
    ensures var s := NextSection(rest).value;
      var m := FindH2(rest).value;
      s.start == m.0 && m.0 + m.1 <= b <= s.end
      && Trim(rest[s.start..s.end]) == rest[m.0..b]
  {
    var m := FindH2(rest).value;
    NextSectionAt(rest);
    H2TagEnds(rest);
    b := SliceOpensWithTag(rest, m.0, m.1, NextSection(rest).value.end);
  }

  /**
   * Sliced from its heading, the first section's part is the text from the
   * heading's `<` on, up to some point before the section's end: it opens
   * with the section's own `<h2…>` tag and holds nothing of the text before.
   */
  lemma HeadingOpensSection(html: string) returns (b: nat)
    requires |Cuts(html)| > 0
    ensures FindH2(html).Some?
    ensures var c := Cuts(html)[0];
      var m := FindH2(html).value;
      c.sec.start == m.0 && m.0 + m.1 <= b <= c.sec.end
      && SectionFromHeading(c) == html[m.0..b] && html[m.0..m.0 + m.1] <= html[m.0..b]
  {
    FirstCut(html);
    b := NextSectionOpens(html);
    var m := FindH2(html).value;
    TagPrefix(html, m.0, m.0 + m.1, b);
  }

  lemma FirstCut(html: string)
    requires |Cuts(html)| > 0
    ensures FindH2(html).Some? && NextSection(html).Some?
    ensures Cuts(html)[0] == Cut(html, NextSection(html).value)
  {
  }

  lemma TagPrefix(s: string, a: nat, t: nat, b: nat)
    requires a <= t <= b <= |s|
    ensures s[a..t] <= s[a..b]
  {
    assert s[a..b][..t - a] == s[a..t];
  }

  lemma PartsPrefix(cuts: seq<Cut>, k: nat, n: nat)
    requires k <= n <= |cuts| && AllWell(cuts)
    ensures PartsUpTo(cuts, k) <= PartsUpTo(cuts, n)
  {
    PartsConcat(cuts, k);
    PartsConcat(cuts, n);
    Seqs.ConcatUpToPrefix(PartsFn(cuts), k, n);
  }

  /** `PartsAt` as a total function of the index. */
  function PartsFn(cuts: seq<Cut>): nat -> seq<string> {
    (i: nat) => if i < |cuts| && AllWell(cuts) then PartsAt(cuts, i) else []
  }

  lemma {:induction false} PartsConcat(cuts: seq<Cut>, k: nat)
    requires k <= |cuts| && AllWell(cuts)
    ensures PartsUpTo(cuts, k) == Seqs.ConcatUpTo(PartsFn(cuts), k)
  {
    if k > 0 {
      PartsConcat(cuts, k - 1);
    }
  }

}
