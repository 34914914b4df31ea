/**
 * Phase 1 of the URL migration: two 301 (Moved Permanently, section
 * 15.4.2 of RFC 9110) redirect lines per page, from the legacy url with
 * and without its trailing slash to the final url, written as a preview
 * and as the PSEO block of `_redirects`. Reading and writing the files is
 * the caller's: the pages file and `_redirects` arrive as `Option` values.
 */
module Redirects {
  import opened Wrappers
  import opened Strings
  import Seqs
  import Validate

  datatype RedirectPage = RedirectPage(id: string, finalSlug: string, finalUrl: string, legacyUrl: string)

  const MissingPages: string := "Run pages:ssot first: npm run pages:ssot"
  /** The text the block-removing pattern starts with. */
  const Marker: string := "\n# PSEO legacy URL"
  /** The heading line of the generated block. */
  const Header: string := "\n# PSEO legacy URL → final_slug (301)\n"

  /** The source of both lines: the legacy url without one trailing slash. */
  function FromNoSlash(p: RedirectPage): string {
    DropTrailingSlash(p.legacyUrl)
  }

  /** The target: the final url with exactly one added trailing slash. */
  function ToSlash(p: RedirectPage): string {
    DropTrailingSlash(p.finalUrl) + "/"
  }

  function LineWithout(p: RedirectPage): string {
    FromNoSlash(p) + " " + ToSlash(p) + " 301"
  }

  function LineWith(p: RedirectPage): string {
    FromNoSlash(p) + "/ " + ToSlash(p) + " 301"
  }

  function PageLines(p: RedirectPage): seq<string> {
    [LineWithout(p), LineWith(p)]
  }

  /** The lines the loop pushes: two per page, in page order. */
  function Lines(ps: seq<RedirectPage>): seq<string> {
    Seqs.FlatMap(PageLines, ps)
  }

  lemma LinesLength(ps: seq<RedirectPage>)
    ensures |Lines(ps)| == 2 * |ps|
  {
    Seqs.FlatMapPairs(PageLines, ps, 0);
  }

  /** Line 2i is page i without the trailing slash, line 2i+1 with it. */
  lemma LinesAt(ps: seq<RedirectPage>, i: nat)
    requires i < |ps|
    ensures |Lines(ps)| == 2 * |ps|
    ensures Lines(ps)[2 * i] == LineWithout(ps[i]) && Lines(ps)[2 * i + 1] == LineWith(ps[i])
  {
    Seqs.FlatMapPairs(PageLines, ps, i);
  }

  function Preview(ps: seq<RedirectPage>): string {
    Join(Lines(ps), "\n")
  }

  function PseoBlock(preview: string): string {
    Header + preview + "\n"
  }

  // -------------------------------------------------- replacing the block

  /**
   * Where the lazy tail of the pattern stops: before the next "\n# " or
   * at the end of the text.
   */
  function BlockEnd(s: string, k: nat): (e: nat)
    requires k <= |s|
    ensures k <= e <= |s|
    decreases |s| - k
  {
    if k == |s| || MatchAt(s, "\n# ", k) then k else BlockEnd(s, k + 1)
  }

  /**
   * The first match of the pattern `\n# PSEO legacy URL[^\n]*\n[\s\S]*?(?=\n# |$)`
   * at or after `from`: the marker, the rest of its line and its newline,
   * then everything up to the next "\n# " or the end.
   */
  function FindBlock(s: string, from: nat): (r: Option<(nat, nat)>)
    ensures r.Some? ==> from <= r.value.0 < r.value.1 <= |s| && MatchAt(s, Marker, r.value.0)
    decreases |s| - from
  {
    if from + |Marker| > |s| then None
    else if MatchAt(s, Marker, from) && IndexOf(s, "\n", from + |Marker|) >= 0 then
      Some((from, BlockEnd(s, IndexOf(s, "\n", from + |Marker|) + 1)))
    else FindBlock(s, from + 1)
  }

  /** A text in which the marker never occurs holds no block. */
  lemma {:induction false} FindBlockNone(s: string, from: nat)
    requires forall i :: from <= i ==> !MatchAt(s, Marker, i)
    ensures FindBlock(s, from) == None
    decreases |s| - from
  {
    if from + |Marker| <= |s| {
      FindBlockNone(s, from + 1);
    }
  }

  /** The existing file with its first PSEO block cut out. */
  function WithoutBlock(existing: string): (r: string)
    ensures |r| <= |existing|
  {
    match FindBlock(existing, 0)
    case None => existing
    case Some((i, e)) => existing[..i] + existing[e..]
  }

  /** The new `_redirects`: the rest, trimmed at its end, the new block appended, trimmed at the start. */
  function NewRedirects(existing: string, preview: string): string {
    TrimStart(TrimEnd(WithoutBlock(existing)) + PseoBlock(preview))
  }

  datatype Output = Output(preview: string, redirects: string)

  /** `run`: the preview and the new `_redirects`, or the error for a missing pages file. */
  method Run(pages: Option<seq<RedirectPage>>, existing: Option<string>) returns (out: Result<Output, string>)
    ensures pages.None? <==> out.Failure?
    ensures pages.None? ==> out.error == MissingPages
    ensures pages.Some? ==>
      out.value.preview == Preview(pages.value)
      && out.value.redirects == NewRedirects(existing.GetOr(""), Preview(pages.value))
  {
    if pages.None? {
      return Failure(MissingPages);
    }
    var ps := pages.value;
    var lines: seq<string> := [];
    for i := 0 to |ps|
      invariant lines == Lines(ps[..i])
    {
      assert ps[..i + 1][..i] == ps[..i];
      assert Lines(ps[..i + 1]) == Lines(ps[..i]) + PageLines(ps[i]);
      var p := ps[i];
      var fromNoSlash := DropTrailingSlash(p.legacyUrl);
      var toSlash := DropTrailingSlash(p.finalUrl) + "/";
      lines := lines + [fromNoSlash + " " + toSlash + " 301"];
      lines := lines + [fromNoSlash + "/ " + toSlash + " 301"];
    }
    assert ps[..|ps|] == ps;
    var preview := Join(lines, "\n");
    var old_ := existing.GetOr("");
    out := Success(Output(preview, TrimStart(TrimEnd(WithoutBlock(old_)) + PseoBlock(preview))));
  }

  // ------------------------------------------------------- re-running

  lemma TrimStartNonSpace(a: string, b: string)
    requires a != [] && !IsSpace(a[0])
    ensures TrimStart(a + b) == a + b
  {
  }

  lemma TrimStartNewline(b: string)
    requires b != [] && !IsSpace(b[0])
    ensures TrimStart("\n" + b) == b
  {
    assert ("\n" + b)[1..] == b;
  }

  /** The only '#' of the header is its second character. */
  lemma HeaderHash(preview: string, i: nat)
    requires '#' !in preview && i < |PseoBlock(preview)| && PseoBlock(preview)[i] == '#'
    ensures i == 1
  {
    var b := PseoBlock(preview);
    assert forall j :: 0 <= j < |preview| ==> b[|Header| + j] == preview[j];
  }

  /**
   * A `_redirects` that held nothing but the PSEO block has lost the
   * newline before its marker to `trimStart`, so the next run finds no
   * block to replace and appends a second copy after the first.
   */
  lemma SecondRunAppends(preview: string)
    requires '#' !in preview
    ensures var first := NewRedirects("", preview);
      first == PseoBlock(preview)[1..]
      && NewRedirects(first, preview) == TrimEnd(first) + PseoBlock(preview)
      && NewRedirects(first, preview) != first
  {
    var b := PseoBlock(preview);
    assert FindBlock("", 0) == None;
    assert TrimEnd("") == "";
    assert "" + b == "\n" + b[1..];
    TrimStartNewline(b[1..]);
    var first := b[1..];
    assert first == NewRedirects("", preview);
    forall i | 0 <= i
      ensures !MatchAt(first, Marker, i)
    {
      if MatchAt(first, Marker, i) {
        assert first[i + 1] == Marker[1] == '#';
        HeaderHash(preview, i + 2);
      }
    }
    FindBlockNone(first, 0);
    TrimEndSpec(first);
    var t := TrimEnd(first);
    assert t != [] && t[0] == '#' by {
      assert first[0] == '#' && !IsSpace(first[0]);
    }
    TrimStartNonSpace(t, b);
    assert |t + b| > |first|;
  }

  /**
   * The evident intent: the new block replaces the previous one wherever it
   * stands. Keeping the newline before the marker (no `trimStart`) lets the
   * pattern find a block at the very start of the file.
   */
  function NewRedirectsKeepingMarker(existing: string, preview: string): string {
    TrimEnd(WithoutBlock(existing)) + PseoBlock(preview)
  }

  /** With no '#' after position k, the lazy tail runs to the end of the text. */
  lemma {:induction false} BlockEndNoHash(s: string, k: nat)
    requires k <= |s| && forall j :: k < j < |s| ==> s[j] != '#'
    ensures BlockEnd(s, k) == |s|
    decreases |s| - k
  {
    if k < |s| {
      assert k + 3 <= |s| ==> s[k..k + 3][1] == s[k + 1] != "\n# "[1];
      BlockEndNoHash(s, k + 1);
    }
  }

  /** Under the intended write, running twice from an empty file is running once. */
  lemma RerunReplaces(preview: string)
    requires '#' !in preview
    ensures var first := NewRedirectsKeepingMarker("", preview);
      first == PseoBlock(preview) && NewRedirectsKeepingMarker(first, preview) == first
  {
    var b := PseoBlock(preview);
    assert FindBlock("", 0) == None;
    assert TrimEnd("") == "";
    assert NewRedirectsKeepingMarker("", preview) == b;
    assert b[..|Marker|] == Marker;
    assert MatchAt(b, Marker, 0);
    assert MatchAt(b, "\n", |Header| - 1);
    IndexOfFirst(b, "\n", |Marker|);
    var r := IndexOf(b, "\n", |Marker|);
    assert r >= |Marker|;
    forall j | r + 1 < j < |b|
      ensures b[j] != '#'
    {
      if b[j] == '#' {
        HeaderHash(preview, j);
      }
    }
    BlockEndNoHash(b, r + 1);
    var e: nat := |b|;
    assert FindBlock(b, 0) == Some((0, e));
    assert WithoutBlock(b) == [];
  }

  /** Without a block in the existing file, all of its text is kept in front of the new block. */
  lemma KeepsOtherContent(existing: string, preview: string)
    requires forall i :: 0 <= i ==> !MatchAt(existing, Marker, i)
    requires exists k :: 0 <= k < |existing| && !IsSpace(existing[k])
    ensures NewRedirects(existing, preview) == TrimStart(TrimEnd(existing)) + PseoBlock(preview)
  {
    FindBlockNone(existing, 0);
    TrimEndSpec(existing);
    var t := TrimEnd(existing);
    var k :| 0 <= k < |existing| && !IsSpace(existing[k]);
    assert k < |t|;
    TrimStartConcat(t, PseoBlock(preview));
  }

  /** Leading whitespace is trimmed only inside a part that holds a non-space character. */
  lemma {:induction false} TrimStartConcat(a: string, b: string)
    requires exists k :: 0 <= k < |a| && !IsSpace(a[k])
    ensures TrimStart(a + b) == TrimStart(a) + b
  {
    if IsSpace(a[0]) {
      assert (a + b)[1..] == a[1..] + b;
      var k :| 0 <= k < |a| && !IsSpace(a[k]);
      assert k > 0 && a[1..][k - 1] == a[k];
      TrimStartConcat(a[1..], b);
    }
  }

  // ------------------------------------------------ round trip with validate

  /** No whitespace character in a url. */
  predicate NoSpace(u: string) {
    NoSep(u, IsSpace)
  }

  predicate NoDoubleSlash(u: string) {
    forall i :: 0 <= i < |u| - 1 ==> !(u[i] == '/' && u[i + 1] == '/')
  }

  lemma {:induction false} TakeRunWord(w: string, rest: string, isSep: char -> bool)
    requires NoSep(w, isSep) && (rest == [] || isSep(rest[0]))
    ensures TakeRun(w + rest, isSep) == w
  {
    if w != [] {
      assert (w + rest)[1..] == w[1..] + rest;
      TakeRunWord(w[1..], rest, isSep);
    }
  }

  /** A word followed by a separator is the first run. */
  lemma RunsCons(w: string, c: char, rest: string, isSep: char -> bool)
    requires |w| > 0 && NoSep(w, isSep) && isSep(c)
    ensures Runs(w + [c] + rest, isSep) == [w] + Runs(rest, isSep)
  {
    var s := w + [c] + rest;
    assert DropSeps(s, isSep) == s;
    TakeRunWord(w, [c] + rest, isSep);
    assert s == w + ([c] + rest);
    assert s[|w|..] == [c] + rest;
    assert ([c] + rest)[1..] == rest;
  }

  lemma RunsWord(w: string, isSep: char -> bool)
    requires |w| > 0 && NoSep(w, isSep)
    ensures Runs(w, isSep) == [w]
  {
    assert DropSeps(w, isSep) == w;
    TakeRunWord(w, [], isSep);
    assert w + [] == w;
  }

  lemma {:induction false} CollapseNoDouble(s: string)
    requires NoDoubleSlash(s)
    ensures Validate.CollapseSlashes(s) == s
  {
    if s != [] {
      CollapseNoDouble(s[1..]);
    }
  }

  /** `split("\n")` undoes `join("\n")` on lines without a newline. */
  lemma {:induction false} SplitJoin(lines: seq<string>)
    requires lines != [] && forall i :: 0 <= i < |lines| ==> '\n' !in lines[i]
    ensures Split(Join(lines, "\n"), '\n') == lines
  {
    SplitNoSep(lines[0], '\n');
    if |lines| > 1 {
      SplitJoin(lines[1..]);
      SplitConcat(lines[0], Join(lines[1..], "\n"), '\n');
      assert Join(lines, "\n") == lines[0] + ['\n'] + Join(lines[1..], "\n");
    }
  }

  lemma TrimWord(s: string)
    requires s != [] && !IsSpace(s[0]) && !IsSpace(s[|s| - 1])
    ensures Trim(s) == s
  {
  }

  lemma RunsOfTail(t: string, c: char, w: string, isSep: char -> bool)
    requires |t| > 0 && NoSep(t, isSep) && |w| > 0 && NoSep(w, isSep) && isSep(c)
    ensures Runs(t + [c] + w, isSep) == [t, w]
  {
    RunsCons(t, c, w, isSep);
    RunsWord(w, isSep);
  }

  /** Three words joined by one separator each are the three runs. */
  lemma ThreeRuns(f: string, t: string, w: string, c: char, isSep: char -> bool)
    requires |f| > 0 && |t| > 0 && |w| > 0 && NoSep(f, isSep) && NoSep(t, isSep) && NoSep(w, isSep) && isSep(c)
    ensures Runs(f + [c] + (t + [c] + w), isSep) == [f, t, w]
  {
    RunsCons(f, c, t + [c] + w, isSep);
    RunsOfTail(t, c, w, isSep);
  }

  /** A text without surrounding whitespace splits into its runs. */
  lemma SplitWsOfRuns(l: string, parts: seq<string>)
    requires l != [] && !IsSpace(l[0]) && !IsSpace(l[|l| - 1])
    requires Runs(l, IsSpace) == parts && parts != []
    ensures SplitWs(Trim(l)) == parts
  {
    TrimWord(l);
  }

  /** The validator's parse of a line of three words. */
  lemma EntryOfWords(f: string, t: string, w: string)
    requires |f| > 0 && |t| > 0 && |w| > 0 && NoSpace(f) && NoSpace(t) && NoSpace(w)
    ensures Validate.RedirectEntry(f + [' '] + (t + [' '] + w)) == Some((DropTrailingSlash(f), DropTrailingSlash(t) + "/"))
  {
    var l := f + [' '] + (t + [' '] + w);
    ThreeRuns(f, t, w, ' ', IsSpace);
    assert l[0] == f[0] && l[|l| - 1] == w[|w| - 1];
    SplitWsOfRuns(l, [f, t, w]);
    TrimWord(t);
  }

  /** The validator's parse of a generated line. */
  lemma EntryOfLine(f: string, t: string)
    requires |f| > 0 && |t| > 0 && NoSpace(f) && NoSpace(t)
    ensures Validate.RedirectEntry(f + " " + t + " 301") == Some((DropTrailingSlash(f), DropTrailingSlash(t) + "/"))
  {
    assert f + " " + t + " 301" == f + [' '] + (t + [' '] + "301");
    assert NoSpace("301");
    EntryOfWords(f, t, "301");
  }

  lemma DropTrailingSlashNoSpace(u: string)
    requires NoSpace(u)
    ensures NoSpace(DropTrailingSlash(u))
  {
    assert DropTrailingSlash(u) == u[..|DropTrailingSlash(u)|];
  }

  /** The parsed line with a trailing slash on the source. */
  lemma EntryOfLineWith(p: RedirectPage)
    requires NoSpace(p.legacyUrl) && NoSpace(p.finalUrl)
    ensures Validate.RedirectEntry(LineWith(p)) == Some((FromNoSlash(p), ToSlash(p)))
  {
    var f, t := FromNoSlash(p) + "/", ToSlash(p);
    Slashed(p.legacyUrl);
    Slashed(p.finalUrl);
    assert LineWith(p) == f + " " + t + " 301";
    EntryOfLine(f, t);
  }

  /** One slash put back after `dropTrailingSlash` keeps the url space-free and drops again. */
  lemma Slashed(u: string)
    requires NoSpace(u)
    ensures NoSpace(DropTrailingSlash(u) + "/")
    ensures DropTrailingSlash(DropTrailingSlash(u) + "/") == DropTrailingSlash(u)
  {
    var d := DropTrailingSlash(u);
    DropTrailingSlashNoSpace(u);
    assert !IsSpace('/');
    assert (d + "/")[..|d|] == d;
  }

  /** A generated line holds no newline. */
  lemma LineNoNewline(f: string, t: string)
    requires NoSpace(f) && NoSpace(t)
    ensures '\n' !in f + " " + t + " 301"
  {
    assert IsSpace('\n');
  }

  /** Both lines of a page are free of newlines. */
  lemma LinesNoNewline(ps: seq<RedirectPage>)
    requires forall i :: 0 <= i < |ps| ==> NoSpace(ps[i].legacyUrl) && NoSpace(ps[i].finalUrl)
    ensures forall i :: 0 <= i < |Lines(ps)| ==> '\n' !in Lines(ps)[i]
  {
    LinesLength(ps);
    forall i | 0 <= i < |Lines(ps)|
      ensures '\n' !in Lines(ps)[i]
    {
      var p := ps[i / 2];
      LinesAt(ps, i / 2);
      assert Lines(ps)[i] == LineWithout(p) || Lines(ps)[i] == LineWith(p) by {
        assert i == 2 * (i / 2) || i == 2 * (i / 2) + 1;
      }
      DropTrailingSlashNoSpace(p.legacyUrl);
      DropTrailingSlashNoSpace(p.finalUrl);
      LineNoNewline(FromNoSlash(p), ToSlash(p));
      LineNoNewline(FromNoSlash(p) + "/", ToSlash(p));
    }
  }

  /** The written text is the kept part and the heading line, then the preview on lines of its own. */
  lemma TextShape(existing: string, preview: string)
    ensures var a := TrimEnd(WithoutBlock(existing)) + Header[..|Header| - 1];
      NewRedirects(existing, preview) == TrimStart(a) + ['\n'] + (preview + "\n")
  {
    var t := TrimEnd(WithoutBlock(existing));
    var h := Header[..|Header| - 1];
    var a := t + h;
    var rest := ['\n'] + (preview + "\n");
    assert h + ['\n'] == Header;
    calc {
      t + PseoBlock(preview);
      t + (Header + preview + "\n");
      t + ((h + ['\n']) + preview + "\n");
      (t + h) + (['\n'] + (preview + "\n"));
      a + rest;
    }
    assert a[|a| - 1] == ')' && !IsSpace(a[|a| - 1]);
    TrimStartConcat(a, rest);
  }

  /**
   * Round trip: the validator, parsing the `_redirects` this step writes,
   * accepts every page's legacy redirect, whatever else the file held,
   * provided the urls hold no whitespace and the final url no doubled slash.
   */
  lemma RedirectsRoundTrip(ps: seq<RedirectPage>, existing: string, k: nat)
    requires k < |ps|
    requires forall i :: 0 <= i < |ps| ==> NoSpace(ps[i].legacyUrl) && NoSpace(ps[i].finalUrl)
    requires NoDoubleSlash(ps[k].finalUrl)
    ensures Validate.LegacyRedirected(
      Validate.Redirects(Some(NewRedirects(existing, Preview(ps)))), ps[k].legacyUrl, ps[k].finalUrl)
  {
    var p := ps[k];
    var lines := Split(NewRedirects(existing, Preview(ps)), '\n');
    var before := Split(TrimStart(KeptPart(existing)), '\n');
    WrittenLines(existing, ps);
    LineInShape(lines, before, ps, k);
    PairOfLine(lines, |before| + 2 * k + 1, p);
    ToSlashNoDouble(p.finalUrl);
    CollapseNoDouble(ToSlash(p));
  }

  /** In lines shaped as the written file's, page `k`'s line with the slash follows the kept lines. */
  lemma LineInShape(lines: seq<string>, before: seq<string>, ps: seq<RedirectPage>, k: nat)
    requires k < |ps| && lines == before + Lines(ps) + [""]
    ensures |before| + 2 * k + 1 < |lines| && lines[|before| + 2 * k + 1] == LineWith(ps[k])
  {
    LinesAt(ps, k);
    assert lines[|before| + 2 * k + 1] == Lines(ps)[2 * k + 1];
  }

  /** A line written for page `p` puts its redirect pair into the parsed set. */
  lemma PairOfLine(lines: seq<string>, j: nat, p: RedirectPage)
    requires j < |lines| && lines[j] == LineWith(p)
    requires NoSpace(p.legacyUrl) && NoSpace(p.finalUrl)
    ensures Validate.Pair(FromNoSlash(p), ToSlash(p)) in Validate.PairsOf(Validate.Entries(lines))
  {
    EntryOfLineWith(p);
    var es := Validate.Entries(lines);
    assert es[j] == Some((FromNoSlash(p), ToSlash(p)));
    var pair := Validate.Pair(FromNoSlash(p), ToSlash(p));
    assert pair in Validate.EntryPairs(es[j]);
    Validate.PairsOfMember(es, pair);
  }

  /** What precedes the preview in the written file, before `trimStart`. */
  function KeptPart(existing: string): string {
    TrimEnd(WithoutBlock(existing)) + Header[..|Header| - 1]
  }

  /** The lines of the written file: the kept part's, the generated ones, and a last empty one. */
  lemma WrittenLines(existing: string, ps: seq<RedirectPage>)
    requires ps != []
    requires forall i :: 0 <= i < |ps| ==> NoSpace(ps[i].legacyUrl) && NoSpace(ps[i].finalUrl)
    ensures Split(NewRedirects(existing, Preview(ps)), '\n')
         == Split(TrimStart(KeptPart(existing)), '\n') + Lines(ps) + [""]
  {
    var preview := Preview(ps);
    TextShape(existing, preview);
    SplitConcat(TrimStart(KeptPart(existing)), preview + "\n", '\n');
    assert preview + "\n" == preview + ['\n'] + "";
    SplitConcat(preview, "", '\n');
    LinesLength(ps);
    LinesNoNewline(ps);
    SplitJoin(Lines(ps));
  }

  lemma ToSlashNoDouble(u: string)
    requires NoDoubleSlash(u)
    ensures NoDoubleSlash(DropTrailingSlash(u) + "/")
  {
    var d := DropTrailingSlash(u);
    assert d == u[..|d|];
    assert d != [] ==> d[|d| - 1] != '/' by {
      if d != [] && d != u {
        assert u[|d|] == '/' && u[|d| - 1] == d[|d| - 1];
      }
    }
  }
}
