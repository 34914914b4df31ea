/**
 * The table post-processor: every `<table>` of a page's prose body is
 * wrapped in `<div class="table-wrap">`, unless the body already holds a
 * wrapper. The page files arrive as values; the prose section that the
 * source finds with a regular expression arrives as a match record.
 */
module TableWrap {
  import opened Wrappers
  import opened Strings
  import Seqs

  const Marker: string := "table-wrap"
  const WrapOpen: string := "<div class=\"table-wrap\">"
  const TableOpen: string := "<table"
  const TableClose: string := "</table>"

  /**
   * A match of `<table([^>]*)>([\s\S]*?)<\/table>` (case-insensitive)
   * starting at `i`: the position of the `>` that ends the opening tag and
   * of the first `</table>` after it.
   */
  function TableAt(s: string, i: nat): (r: Option<(nat, nat)>)
    ensures r.Some? ==> i + |TableOpen| <= r.value.0 < r.value.1 && r.value.1 + |TableClose| <= |s|
  {
    if !MatchAt(Lower(s), TableOpen, i) then None
    else
      var gt := IndexOf(s, ">", i + |TableOpen|);
      if gt < 0 then None
      else
        var close := IndexOf(Lower(s), TableClose, gt + 1);
        if close < 0 then None else Some((gt, close))
  }

  /** The wrapped table: tag names lower-cased, attributes and contents kept. */
  function Wrapped(attrs: string, inner: string): string {
    WrapOpen + TableOpen + attrs + ">" + inner + TableClose + "</div>"
  }

  /** A match found at `i` that lies inside the text. */
  predicate Hit(r: Option<(nat, nat)>, s: string, i: nat) {
    r.Some? && i + |TableOpen| <= r.value.0 < r.value.1 && r.value.1 + |TableClose| <= |s|
  }

  /**
   * The global replace from position `i` on, over the matches `at` finds:
   * a match is wrapped and the scan resumes after it, any other character
   * is copied.
   */
  function Scan(at: nat -> Option<(nat, nat)>, s: string, i: nat): string
    requires i <= |s|
    decreases |s| - i
  {
    if i == |s| then []
    else
      var r := at(i);
      if Hit(r, s, i) then
        Wrapped(s[i + |TableOpen|..r.value.0], s[r.value.0 + 1..r.value.1]) + Scan(at, s, r.value.1 + |TableClose|)
      else [s[i]] + Scan(at, s, i + 1)
  }

  /** The table matches of `s`, by starting position. */
  function Tables(s: string): nat -> Option<(nat, nat)> {
    (k: nat) => TableAt(s, k)
  }

  /** The table pattern's global replace from position `i` on. */
  function WrapFrom(s: string, i: nat): string
    requires i <= |s|
  {
    Scan(Tables(s), s, i)
  }

  /** `wrapTablesInBody`. */
  function WrapTablesInBody(body: string): string {
    if Contains(body, Marker) then body else WrapFrom(body, 0)
  }

  predicate NoTableFrom(s: string, i: nat) {
    forall k :: i <= k < |s| ==> TableAt(s, k).None?
  }

  /** Without a match from `i` on, the rest is copied unchanged. */
  lemma {:induction false} ScanIdentity(at: nat -> Option<(nat, nat)>, s: string, i: nat)
    requires i <= |s| && forall k :: i <= k < |s| ==> at(k).None?
    ensures Scan(at, s, i) == s[i..]
    decreases |s| - i
  {
    if i < |s| {
      ScanIdentity(at, s, i + 1);
      assert s[i..] == [s[i]] + s[i + 1..];
    }
  }

  /** Without a table from `i` on, the rest is copied unchanged. */
  lemma WrapFromIdentity(s: string, i: nat)
    requires i <= |s| && NoTableFrom(s, i)
    ensures WrapFrom(s, i) == s[i..]
  {
    ScanIdentity(Tables(s), s, i);
  }

  lemma ContainsRight(a: string, b: string, p: string)
    requires Contains(b, p)
    ensures Contains(a + b, p)
  {
    var k :| 0 <= k <= |b| - |p| && MatchAt(b, p, k);
    assert (a + b)[|a| + k..|a| + k + |p|] == b[k..k + |p|];
    assert MatchAt(a + b, p, |a| + k);
  }

  lemma ContainsLeft(a: string, b: string, p: string)
    requires Contains(a, p)
    ensures Contains(a + b, p)
  {
    var k :| 0 <= k <= |a| - |p| && MatchAt(a, p, k);
    assert (a + b)[k..k + |p|] == a[k..k + |p|];
    assert MatchAt(a + b, p, k);
  }

  /** Text that opens with a wrapper holds the wrapper's class name. */
  lemma OpensMarked(x: string)
    requires StartsWith(x, WrapOpen)
    ensures Contains(x, Marker)
  {
    assert x[12..22] == WrapOpen[12..22] == Marker;
    assert MatchAt(x, Marker, 12);
  }

  /** A wrapped table, whatever follows it, opens with the wrapper. */
  lemma WrappedOpens(attrs: string, inner: string, rest: string)
    ensures StartsWith(Wrapped(attrs, inner) + rest, WrapOpen)
  {
    var w := Wrapped(attrs, inner) + rest;
    assert w == WrapOpen + (TableOpen + attrs + ">" + inner + TableClose + "</div>" + rest);
    assert w[..|WrapOpen|] == WrapOpen;
  }

  /** A match at `i` puts a wrapper at the front of the output. */
  lemma ScanHitMarks(at: nat -> Option<(nat, nat)>, s: string, i: nat)
    requires i < |s| && Hit(at(i), s, i)
    ensures Contains(Scan(at, s, i), Marker)
  {
    var r := at(i).value;
    ScanHit(at, s, i);
    WrappedOpens(s[i + |TableOpen|..r.0], s[r.0 + 1..r.1], Scan(at, s, r.1 + |TableClose|));
    OpensMarked(Scan(at, s, i));
  }

  lemma ScanHit(at: nat -> Option<(nat, nat)>, s: string, i: nat)
    requires i < |s| && Hit(at(i), s, i)
    ensures Scan(at, s, i) ==
      Wrapped(s[i + |TableOpen|..at(i).value.0], s[at(i).value.0 + 1..at(i).value.1]) + Scan(at, s, at(i).value.1 + |TableClose|)
  {
  }

  /** A character copied in front keeps the wrapper the rest of the output holds. */
  lemma ScanMissMarks(at: nat -> Option<(nat, nat)>, s: string, i: nat)
    requires i < |s| && !Hit(at(i), s, i) && Contains(Scan(at, s, i + 1), Marker)
    ensures Contains(Scan(at, s, i), Marker)
  {
    assert Scan(at, s, i) == [s[i]] + Scan(at, s, i + 1);
    ContainsRight([s[i]], Scan(at, s, i + 1), Marker);
  }

  /** Once a match is wrapped, the output holds the wrapper's class name. */
  lemma {:induction false} ScanMarks(at: nat -> Option<(nat, nat)>, s: string, i: nat, t: nat)
    requires i <= t < |s| && Hit(at(t), s, t)
    ensures Contains(Scan(at, s, i), Marker)
    decreases |s| - i
  {
    if Hit(at(i), s, i) {
      ScanHitMarks(at, s, i);
    } else {
      ScanMarks(at, s, i + 1, t);
      ScanMissMarks(at, s, i);
    }
  }

  /** Once a table is wrapped, the output holds the wrapper's class name. */
  lemma WrapFromMarks(s: string, i: nat, t: nat)
    requires i <= t < |s| && TableAt(s, t).Some?
    ensures Contains(WrapFrom(s, i), Marker)
  {
    assert Hit(Tables(s)(t), s, t);
    ScanMarks(Tables(s), s, i, t);
  }

  /** Wrapping twice is wrapping once. */
  lemma WrapIdempotent(body: string)
    ensures WrapTablesInBody(WrapTablesInBody(body)) == WrapTablesInBody(body)
  {
    if !Contains(body, Marker) {
      if NoTableFrom(body, 0) {
        WrapFromIdentity(body, 0);
      } else {
        var t :| 0 <= t < |body| && TableAt(body, t).Some?;
        WrapFromMarks(body, 0, t);
      }
    }
  }

  /** A body without a table, or with a wrapper already, is left as it is. */
  lemma WrapNoTable(body: string)
    requires Contains(body, Marker) || NoTableFrom(body, 0)
    ensures WrapTablesInBody(body) == body
  {
    if !Contains(body, Marker) {
      WrapFromIdentity(body, 0);
    }
  }

  /** A body with a table and no wrapper changes, and gains the wrapper. */
  lemma WrapChanges(body: string, t: nat)
    requires !Contains(body, Marker) && t < |body| && TableAt(body, t).Some?
    ensures WrapTablesInBody(body) != body && Contains(WrapTablesInBody(body), Marker)
  {
    WrapFromMarks(body, 0, t);
  }

  // --------------------------------------------------------------- the pass

  /** The prose section of a page: its opening tags, its body and its closing tags, at `start`. */
  datatype ProseMatch = ProseMatch(start: nat, openTag: string, body: string, closeTag: string) {
    function Whole(): string {
      openTag + body + closeTag
    }
  }

  /** A page file: its final slug, its html (absent when the file is missing) and its prose section. */
  datatype PageFile = PageFile(finalSlug: string, html: Option<string>, prose: Option<ProseMatch>)

  /** The prose match lies in the html where it says. */
  predicate ValidPage(p: PageFile) {
    p.prose.Some? ==> p.html.Some? && MatchAt(p.html.value, p.prose.value.Whole(), p.prose.value.start)
  }

  /** The html with only the prose body replaced by its wrapped form. */
  function Spliced(html: string, m: ProseMatch): string
    requires MatchAt(html, m.Whole(), m.start)
  {
    html[..m.start] + m.openTag + WrapTablesInBody(m.body) + m.closeTag + html[m.start + |m.Whole()|..]
  }

  /** The file written for a page, if any: only when the file and prose exist and the body changed. */
  function WriteFor(p: PageFile): seq<(string, string)>
    requires ValidPage(p)
  {
    if p.html.None? || p.prose.None? || WrapTablesInBody(p.prose.value.body) == p.prose.value.body then []
    else [(p.finalSlug, Spliced(p.html.value, p.prose.value))]
  }

  function Writes(pages: seq<PageFile>): seq<(string, string)>
    requires forall i :: 0 <= i < |pages| ==> ValidPage(pages[i])
  {
    if pages == [] then [] else Writes(pages[..|pages| - 1]) + WriteFor(pages[|pages| - 1])
  }

  /** `main`: the files written, in page order, and the `updated` count. */
  method Run(pages: seq<PageFile>) returns (writes: seq<(string, string)>, updated: nat)
    requires forall i :: 0 <= i < |pages| ==> ValidPage(pages[i])
    ensures writes == Writes(pages)
    ensures updated == |writes| <= |pages|
  {
    writes, updated := [], 0;
    for i := 0 to |pages|
      invariant writes == Writes(pages[..i])
      invariant updated == |writes| <= i
    {
      var w := ProcessPage(pages[i]);
      WritesStep(pages, i);
      writes := writes + w;
      updated := updated + |w|;
    }
    assert pages[..|pages|] == pages;
  }

  /** One pass of the loop: skip a missing file, a page without prose, or an unchanged body; else write. */
  method ProcessPage(p: PageFile) returns (w: seq<(string, string)>)
    requires ValidPage(p)
    ensures w == WriteFor(p) && |w| <= 1
  {
    if p.html.None? {
      return [];
    }
    if p.prose.None? {
      return [];
    }
    var m := p.prose.value;
    var newBody := WrapTablesInBody(m.body);
    if newBody == m.body {
      return [];
    }
    var html := p.html.value;
    var newHtml := html[..m.start] + m.openTag + newBody + m.closeTag + html[m.start + |m.Whole()|..];
    return [(p.finalSlug, newHtml)];
  }

  lemma WritesStep(pages: seq<PageFile>, i: nat)
    requires i < |pages| && forall i :: 0 <= i < |pages| ==> ValidPage(pages[i])
    ensures Writes(pages[..i + 1]) == Writes(pages[..i]) + WriteFor(pages[i])
  {
    assert pages[..i + 1][..i] == pages[..i];
  }

  /**
   * A written page differs from the file on disk only inside its prose
   * body: the text before the body and after it is kept.
   */
  lemma SplicedKeepsOutside(html: string, m: ProseMatch)
    requires MatchAt(html, m.Whole(), m.start)
    ensures StartsWith(Spliced(html, m), html[..m.start] + m.openTag)
    ensures EndsWith(Spliced(html, m), m.closeTag + html[m.start + |m.Whole()|..])
  {
    var r := Spliced(html, m);
    var a := html[..m.start] + m.openTag;
    var z := m.closeTag + html[m.start + |m.Whole()|..];
    assert r == a + WrapTablesInBody(m.body) + z;
    assert r[..|a|] == a;
    assert r[|r| - |z|..] == z;
  }

  /**
   * Running the pass on its own output writes nothing for a page: the
   * body found there is already wrapped.
   */
  lemma SecondPassWritesNothing(p: PageFile, m: ProseMatch)
    requires ValidPage(p) && p.prose.Some?
    requires m == p.prose.value.(body := WrapTablesInBody(p.prose.value.body))
    requires ValidPage(p.(prose := Some(m)))
    ensures WriteFor(p.(prose := Some(m))) == []
  {
    WrapIdempotent(p.prose.value.body);
  }

  /** One write per page whose body changed, never two for the same page position. */
  lemma {:induction false} WritesBound(pages: seq<PageFile>)
    requires forall i :: 0 <= i < |pages| ==> ValidPage(pages[i])
    ensures |Writes(pages)| <= |pages|
    ensures forall w :: w in Writes(pages) ==> exists i :: 0 <= i < |pages| && w in WriteFor(pages[i])
  {
    if pages != [] {
      var n := |pages| - 1;
      WritesBound(pages[..n]);
      forall w | w in Writes(pages)
        ensures exists i :: 0 <= i < |pages| && w in WriteFor(pages[i])
      {
        if w in Writes(pages[..n]) {
          var i :| 0 <= i < n && w in WriteFor(pages[..n][i]);
          assert pages[..n][i] == pages[i];
        } else {
          assert w in WriteFor(pages[n]);
        }
      }
    }
  }
}
