/**
 * Page generation: module files are split into frontmatter and body, their
 * key points and outlines collected, the page body assembled with a single
 * References section, the internal links chosen from the link map, and the
 * robots and FAQ-schema flags decided from the allowlists. Markdown
 * rendering, the editing service, templates and file output are left out;
 * the file system is a map from path to content.
 */
module Generate {
  import opened Wrappers
  import opened Strings
  import Seqs

  // ------------------------------------------------------------ escapeHtml

  /** `s.replace(/c/g, rep)`. */
  function ReplaceChar(s: string, c: char, rep: string): (r: string)
    decreases |s|
  {
    if s == [] then [] else (if s[0] == c then rep else [s[0]]) + ReplaceChar(s[1..], c, rep)
  }

  lemma {:induction false} ReplaceCharConcat(a: string, b: string, c: char, rep: string)
    ensures ReplaceChar(a + b, c, rep) == ReplaceChar(a, c, rep) + ReplaceChar(b, c, rep)
    decreases |a|
  {
    if a != [] {
      ReplaceCharConcat(a[1..], b, c, rep);
      assert (a + b)[0] == a[0] && (a + b)[1..] == a[1..] + b;
    } else {
      assert a + b == b;
    }
  }

  const Amp: string := "&amp;"
  const Lt: string := "&lt;"
  const Gt: string := "&gt;"
  const Quot: string := "&quot;"
  const Apos: string := "&#39;"

  /** The five replacements in order, `&` first. */
  function EscapeHtml(s: string): string {
    ReplaceChar(ReplaceChar(ReplaceChar(ReplaceChar(ReplaceChar(s, '&', Amp), '<', Lt), '>', Gt), '"', Quot), '\'', Apos)
  }

  /** The entity one character stands for. */
  function EscapeChar(c: char): string {
    match c
    case '&' => Amp
    case '<' => Lt
    case '>' => Gt
    case '"' => Quot
    case '\'' => Apos
    case _ => [c]
  }

  /** Character by character: each character replaced by its entity. */
  function EscapeEach(s: string): string
    decreases |s|
  {
    if s == [] then [] else EscapeChar(s[0]) + EscapeEach(s[1..])
  }

  /**
   * Because `&` goes first, no later replacement produces a character an
   * earlier one would have caught, and the chain escapes each character
   * exactly once.
   */
  lemma {:induction false} EscapeHtmlEach(s: string)
    ensures EscapeHtml(s) == EscapeEach(s)
    decreases |s|
  {
    if s != [] {
      EscapeHtmlEach(s[1..]);
      var c := s[0];
      assert s == [c] + s[1..];
      ReplaceCharConcat([c], s[1..], '&', Amp);
      var a1 := ReplaceChar([c], '&', Amp);
      var b1 := ReplaceChar(s[1..], '&', Amp);
      ReplaceCharConcat(a1, b1, '<', Lt);
      var a2 := ReplaceChar(a1, '<', Lt);
      var b2 := ReplaceChar(b1, '<', Lt);
      ReplaceCharConcat(a2, b2, '>', Gt);
      var a3 := ReplaceChar(a2, '>', Gt);
      var b3 := ReplaceChar(b2, '>', Gt);
      ReplaceCharConcat(a3, b3, '"', Quot);
      var a4 := ReplaceChar(a3, '"', Quot);
      var b4 := ReplaceChar(b3, '"', Quot);
      ReplaceCharConcat(a4, b4, '\'', Apos);
      EscapeCharChain(c);
    }
  }

  /** One character replaced: the replacement or the character itself. */
  lemma ReplaceOne(c: char, x: char, rep: string)
    ensures ReplaceChar([c], x, rep) == if c == x then rep else [c]
  {
    assert [c][1..] == [];
  }

  /** One character through the chain. */
  lemma EscapeCharChain(c: char)
    ensures ReplaceChar(ReplaceChar(ReplaceChar(ReplaceChar(ReplaceChar([c], '&', Amp), '<', Lt), '>', Gt), '"', Quot), '\'', Apos)
            == EscapeChar(c)
  {
    assert '<' !in Amp && '>' !in Amp && '"' !in Amp && '\'' !in Amp;
    assert '>' !in Lt && '"' !in Lt && '\'' !in Lt;
    assert '"' !in Gt && '\'' !in Gt;
    assert '\'' !in Quot;
    ReplaceOne(c, '&', Amp);
    var e1 := ReplaceChar([c], '&', Amp);
    if c == '&' {
      ReplaceNone(Amp, '<', Lt);
      ReplaceNone(Amp, '>', Gt);
      ReplaceNone(Amp, '"', Quot);
      ReplaceNone(Amp, '\'', Apos);
    } else {
      ReplaceOne(c, '<', Lt);
      if c == '<' {
        ReplaceNone(Lt, '>', Gt);
        ReplaceNone(Lt, '"', Quot);
        ReplaceNone(Lt, '\'', Apos);
      } else {
        ReplaceOne(c, '>', Gt);
        if c == '>' {
          ReplaceNone(Gt, '"', Quot);
          ReplaceNone(Gt, '\'', Apos);
        } else {
          ReplaceOne(c, '"', Quot);
          if c == '"' {
            ReplaceNone(Quot, '\'', Apos);
          } else {
            ReplaceOne(c, '\'', Apos);
          }
        }
      }
    }
  }

  /** Replacing a character the text does not hold changes nothing. */
  lemma {:induction false} ReplaceNone(s: string, c: char, rep: string)
    requires c !in s
    ensures ReplaceChar(s, c, rep) == s
    decreases |s|
  {
    if s != [] {
      ReplaceNone(s[1..], c, rep);
      assert s == [s[0]] + s[1..];
    }
  }

  /** The markup characters an escaped text never holds raw. */
  predicate Markup(c: char) {
    c == '<' || c == '>' || c == '"' || c == '\''
  }

  /** An escaped text holds no raw `<`, `>`, `"` or `'`. */
  lemma {:induction false} EscapedHasNoMarkup(s: string)
    ensures forall i :: 0 <= i < |EscapeHtml(s)| ==> !Markup(EscapeHtml(s)[i])
  {
    EscapeHtmlEach(s);
    EscapeEachNoMarkup(s);
  }

  lemma {:induction false} EscapeEachNoMarkup(s: string)
    ensures forall i :: 0 <= i < |EscapeEach(s)| ==> !Markup(EscapeEach(s)[i])
    decreases |s|
  {
    if s != [] {
      EscapeEachNoMarkup(s[1..]);
      var e := EscapeChar(s[0]);
      assert forall i :: 0 <= i < |e| ==> !Markup(e[i]);
      var r := EscapeEach(s);
      forall i | 0 <= i < |r|
        ensures !Markup(r[i])
      {
        if i >= |e| {
          assert r[i] == EscapeEach(s[1..])[i - |e|];
        }
      }
    }
  }

  /** Reads the entities back: the inverse of escaping. */
  function Unescape(t: string): string
    decreases |t|
  {
    if t == [] then []
    else if StartsWith(t, Amp) then "&" + Unescape(t[|Amp|..])
    else if StartsWith(t, Lt) then "<" + Unescape(t[|Lt|..])
    else if StartsWith(t, Gt) then ">" + Unescape(t[|Gt|..])
    else if StartsWith(t, Quot) then "\"" + Unescape(t[|Quot|..])
    else if StartsWith(t, Apos) then "'" + Unescape(t[|Apos|..])
    else [t[0]] + Unescape(t[1..])
  }

  /** Escaping loses nothing: reading the entities back gives the original text. */
  lemma {:induction false} EscapeRoundTrip(s: string)
    ensures Unescape(EscapeHtml(s)) == s
  {
    EscapeHtmlEach(s);
    EscapeEachRoundTrip(s);
  }

  lemma {:induction false} EscapeEachRoundTrip(s: string)
    ensures Unescape(EscapeEach(s)) == s
    decreases |s|
  {
    if s != [] {
      EscapeEachRoundTrip(s[1..]);
      var c, rest := s[0], EscapeEach(s[1..]);
      var e := EscapeChar(c);
      var t := e + rest;
      assert EscapeEach(s) == t;
      assert t[..|e|] == e && t[|e|..] == rest;
      UnescapeStep(c, rest);
      assert s == [c] + s[1..];
    }
  }

  /** Reading back one escaped character. */
  lemma UnescapeStep(c: char, rest: string)
    ensures Unescape(EscapeChar(c) + rest) == [c] + Unescape(rest)
  {
    var e := EscapeChar(c);
    var t := e + rest;
    assert t[..|e|] == e && t[|e|..] == rest;
    assert Amp[1] == 'a' && Lt[1] == 'l' && Gt[1] == 'g' && Quot[1] == 'q' && Apos[1] == '#';
    assert Amp[0] == '&' && Lt[0] == '&' && Gt[0] == '&' && Quot[0] == '&' && Apos[0] == '&';
    if c == '&' {
      assert StartsWith(t, Amp);
    } else if c == '<' {
      assert t[1] == 'l';
      assert !StartsWith(t, Amp) && StartsWith(t, Lt);
    } else if c == '>' {
      assert t[1] == 'g';
      assert !StartsWith(t, Amp) && !StartsWith(t, Lt) && StartsWith(t, Gt);
    } else if c == '"' {
      assert t[1] == 'q';
      assert !StartsWith(t, Amp) && !StartsWith(t, Lt) && !StartsWith(t, Gt) && StartsWith(t, Quot);
    } else if c == '\'' {
      assert t[1] == '#';
      assert !StartsWith(t, Amp) && !StartsWith(t, Lt) && !StartsWith(t, Gt) && !StartsWith(t, Quot) && StartsWith(t, Apos);
    } else {
      assert t[0] == c;
      assert !StartsWith(t, Amp) && !StartsWith(t, Lt) && !StartsWith(t, Gt);
      assert !StartsWith(t, Quot) && !StartsWith(t, Apos);
    }
  }

  // ----------------------------------------------------------- getModuleId

  /** `ref.replace(/\.md$/i, "")`. */
  function StripMd(ref: string): (r: string)
    ensures r == ref || (|ref| >= 3 && r == ref[..|ref| - 3] && Lower(ref[|ref| - 3..]) == ".md")
  {
    if |ref| >= 3 && Lower(ref[|ref| - 3..]) == ".md" then ref[..|ref| - 3] else ref
  }

  /** `getModuleId`: the frontmatter's `module_id` when present, else the file name without its `.md`. */
  function GetModuleId(ref: string, frontmatter: map<string, string>): string {
    if "module_id" in frontmatter then frontmatter["module_id"] else StripMd(ref)
  }

  /** Without a `module_id`, the id is the ref less a final `.md` in any case, and a ref without one is its own id. */
  lemma GetModuleIdSpec(ref: string, frontmatter: map<string, string>)
    ensures "module_id" in frontmatter ==> GetModuleId(ref, frontmatter) == frontmatter["module_id"]
    ensures "module_id" !in frontmatter && (|ref| < 3 || Lower(ref[|ref| - 3..]) != ".md") ==> GetModuleId(ref, frontmatter) == ref
    ensures "module_id" !in frontmatter && |ref| >= 3 && Lower(ref[|ref| - 3..]) == ".md" ==> GetModuleId(ref, frontmatter) + ref[|ref| - 3..] == ref
  {
    if "module_id" !in frontmatter && |ref| >= 3 && Lower(ref[|ref| - 3..]) == ".md" {
      assert ref[..|ref| - 3] + ref[|ref| - 3..] == ref;
    }
  }

  // ---------------------------------------------------------- parseModule

  /** Where a `\r?\n` at `k` ends, if one starts there. */
  function NewlineEnd(raw: string, k: nat): Option<nat> {
    if MatchAt(raw, "\r\n", k) then Some(k + 2)
    else if MatchAt(raw, "\n", k) then Some(k + 1)
    else None
  }

  /** Where the body starts when the closing `\r?\n---\r?\n` starts at `j`. */
  function CloseAt(raw: string, j: nat): Option<nat> {
    if MatchAt(raw, "\r\n---", j) then NewlineEnd(raw, j + 5)
    else if MatchAt(raw, "\n---", j) then NewlineEnd(raw, j + 4)
    else None
  }

  /** The first closing line at or after `j`: the lazy `([\s\S]*?)` stops at the earliest one. */
  function FindClose(raw: string, j: nat): (r: Option<(nat, nat)>)
    ensures r.Some? ==> j <= r.value.0 && CloseAt(raw, r.value.0) == Some(r.value.1)
    decreases |raw| - j
  {
    if j >= |raw| then None
    else match CloseAt(raw, j)
      case Some(b) => Some((j, b))
      case None => FindClose(raw, j + 1)
  }

  /** No closing line starts between `j` and the one found. */
  lemma {:induction false} FindCloseFirst(raw: string, j: nat, k: nat)
    requires j <= k < |raw|
    requires FindClose(raw, j).None? || k < FindClose(raw, j).value.0
    ensures CloseAt(raw, k).None?
    decreases |raw| - j
  {
    if CloseAt(raw, j).None? && j < k {
      FindCloseFirst(raw, j + 1, k);
    }
  }

  /**
   * `raw.match(FRONTMATTER_REG)`: an opening `---\r?\n` at the very start,
   * then the frontmatter up to the first closing `\r?\n---\r?\n`, then the body.
   */
  function SplitFrontmatter(raw: string): (r: Option<(string, string)>)
    ensures r.Some? ==> StartsWith(raw, "---") && |r.value.0| + |r.value.1| < |raw|
  {
    var start := if StartsWith(raw, "---\n") then 4 else if StartsWith(raw, "---\r\n") then 5 else 0;
    if start == 0 then None
    else match FindClose(raw, start)
      case Some((j, b)) => Some((raw[start..j], raw[b..]))
      case None => None
  }

  /** One leading and one trailing quote removed: `.replace(/^["']|["']$/g, "")`. */
  function StripQuotes(v: string): (r: string)
    ensures |r| <= |v|
  {
    var a := if |v| > 0 && (v[0] == '"' || v[0] == '\'') then v[1..] else v;
    if |a| > 0 && (a[|a| - 1] == '"' || a[|a| - 1] == '\'') then a[..|a| - 1] else a
  }

  /** A frontmatter line with its first colon after index 0: the trimmed key and the trimmed, unquoted value. */
  function LineEntry(line: string): (r: Option<(string, string)>)
    ensures r.Some? <==> IndexOf(line, ":", 0) > 0
  {
    var colon := IndexOf(line, ":", 0);
    if colon > 0 then Some((Trim(line[..colon]), StripQuotes(Trim(line[colon + 1..])))) else None
  }

  /** The entries of a list of lines, one per line. */
  function Entries(lines: seq<string>): (r: seq<Option<(string, string)>>)
    ensures |r| == |lines| && forall i :: 0 <= i < |lines| ==> r[i] == LineEntry(lines[i])
  {
    seq(|lines|, i requires 0 <= i < |lines| => LineEntry(lines[i]))
  }

  /** The map built by assigning the entries in order: each overwrites any earlier one with its key. */
  function Assign<K(==), V>(es: seq<Option<(K, V)>>): map<K, V> {
    if es == [] then map[]
    else
      var m := Assign(es[..|es| - 1]);
      match es[|es| - 1]
      case Some((k, v)) => m[k := v]
      case None => m
  }

  /** The entry at `i` sets key `k`. */
  predicate SetsKey<K(==), V>(es: seq<Option<(K, V)>>, i: int, k: K)
    requires 0 <= i < |es|
  {
    es[i].Some? && es[i].value.0 == k
  }

  /** The entry at `i` is the last to set key `k`, and it gives `v`. */
  predicate LastSets<K(==), V(==)>(es: seq<Option<(K, V)>>, i: int, k: K, v: V) {
    0 <= i < |es| && SetsKey(es, i, k) && es[i].value.1 == v
    && forall j :: i < j < |es| ==> !SetsKey(es, j, k)
  }

  /** A key is present exactly when some entry sets it. */
  lemma {:induction false} AssignHas<K, V>(es: seq<Option<(K, V)>>, k: K)
    ensures k in Assign(es) <==> exists i :: 0 <= i < |es| && SetsKey(es, i, k)
  {
    if es != [] {
      var n := |es| - 1;
      var init := es[..n];
      AssignHas(init, k);
      if !SetsKey(es, n, k) {
        assert k in Assign(es) <==> k in Assign(init);
      }
      if exists i :: 0 <= i < |es| && SetsKey(es, i, k) {
        var i :| 0 <= i < |es| && SetsKey(es, i, k);
        if i < n {
          assert init[i] == es[i];
          assert SetsKey(init, i, k);
        }
      }
      if k in Assign(init) {
        var i :| 0 <= i < n && SetsKey(init, i, k);
        assert init[i] == es[i];
        assert SetsKey(es, i, k);
      }
    }
  }

  /** A present key holds the value of the last entry setting it: later duplicates overwrite earlier ones. */
  lemma {:induction false} AssignLast<K, V>(es: seq<Option<(K, V)>>, k: K)
    requires k in Assign(es)
    ensures exists i :: LastSets(es, i, k, Assign(es)[k])
  {
    var n := |es| - 1;
    if SetsKey(es, n, k) {
      assert LastSets(es, n, k, Assign(es)[k]);
    } else {
      var init := es[..n];
      AssignLast(init, k);
      var i :| LastSets(init, i, k, Assign(init)[k]);
      assert init[i] == es[i];
      forall j | i < j < |es|
        ensures !SetsKey(es, j, k)
      {
        if j < n {
          assert init[j] == es[j];
          assert !SetsKey(init, j, k);
        }
      }
      assert LastSets(es, i, k, Assign(es)[k]);
    }
  }

  /** The frontmatter map of a list of lines. */
  function Frontmatter(lines: seq<string>): map<string, string> {
    Assign(Entries(lines))
  }

  /**
   * A key is in the frontmatter exactly when some line with a colon after
   * its first character has it as trimmed key, and its value is the last such line's.
   */
  lemma FrontmatterLast(lines: seq<string>, k: string)
    ensures k in Frontmatter(lines) <==> exists i :: 0 <= i < |lines| && LineEntry(lines[i]).Some? && LineEntry(lines[i]).value.0 == k
    ensures k in Frontmatter(lines) ==> exists i :: LastSets(Entries(lines), i, k, Frontmatter(lines)[k])
  {
    var es := Entries(lines);
    AssignHas(es, k);
    if k in Frontmatter(lines) {
      AssignLast(es, k);
    }
    if exists i :: 0 <= i < |lines| && LineEntry(lines[i]).Some? && LineEntry(lines[i]).value.0 == k {
      var i :| 0 <= i < |lines| && LineEntry(lines[i]).Some? && LineEntry(lines[i]).value.0 == k;
      assert SetsKey(es, i, k);
    }
  }

  /**
   * The two regular-expression scans of a module body this model leaves
   * abstract: `stripReferencesSection` and `extractHeadings`.
   */
  datatype Scans = Scans(stripReferences: string -> string, headings: string -> seq<string>)

  /** A module file split into its frontmatter map and its body. */
  datatype Parsed = Parsed(frontmatter: map<string, string>, body: string)

  /** The text after the frontmatter, or the whole text when there is none. */
  function RawBody(raw: string): string {
    match SplitFrontmatter(raw)
    case None => raw
    case Some((_, body)) => body
  }

  /** What `parseModule` returns for a file's text: the frontmatter map and the body without its References section. */
  function ParsedOf(raw: string, scans: Scans): Parsed {
    match SplitFrontmatter(raw)
    case None => Parsed(map[], scans.stripReferences(raw))
    case Some((fm, body)) => Parsed(Frontmatter(Split(fm, '\n')), scans.stripReferences(body))
  }

  /** `parseModule`, given the file's text. */
  method ParseModule(raw: string, scans: Scans) returns (p: Parsed)
    ensures p == ParsedOf(raw, scans)
  {
    var split := SplitFrontmatter(raw);
    if split.None? {
      return Parsed(map[], scans.stripReferences(raw));
    }
    var (fm, body) := split.value;
    var lines := Split(fm, '\n');
    var entries := Entries(lines);
    var m := map[];
    for i := 0 to |entries|
      invariant m == Assign(entries[..i])
    {
      assert entries[..i + 1][..i] == entries[..i];
      if entries[i].Some? {
        m := m[entries[i].value.0 := entries[i].value.1];
      }
    }
    assert entries[..|entries|] == entries;
    p := Parsed(m, scans.stripReferences(body));
  }

  /** A file that does not start with `---` has no frontmatter: the map is empty and the whole text is the body. */
  lemma NoFrontmatter(raw: string, scans: Scans)
    requires !StartsWith(raw, "---")
    ensures ParsedOf(raw, scans) == Parsed(map[], scans.stripReferences(raw))
  {
  }

  /** With frontmatter, the body is a proper suffix of the text, starting after the closing `---` line. */
  lemma RawBodySuffix(raw: string)
    requires SplitFrontmatter(raw).Some?
    ensures |RawBody(raw)| < |raw| && RawBody(raw) == raw[|raw| - |RawBody(raw)|..]
    ensures exists j :: 0 < j && CloseAt(raw, j) == Some(|raw| - |RawBody(raw)|)
  {
    var start := if StartsWith(raw, "---\n") then 4 else 5;
    var (j, b) := FindClose(raw, start).value;
    assert RawBody(raw) == raw[b..];
  }

  // ------------------------------------------------------ extractKeyPoints

  /** `maxPoints`, at the default every call uses. */
  const MaxPoints := 15

  /** Points are cut to this many characters. */
  const PointLength := 200

  /** The first `n` elements, or all when there are fewer: `xs.slice(0, n)`. */
  function Take<T>(xs: seq<T>, n: nat): (r: seq<T>)
    ensures |r| == if |xs| <= n then |xs| else n
    ensures r == xs[..|r|]
  {
    if |xs| <= n then xs else xs[..n]
  }

  /** `.slice(0, 200)`. */
  function Cut(s: string): (r: string)
    ensures |r| <= |s| && |r| <= PointLength && r == s[..|r|]
    ensures |s| > 0 ==> |r| > 0
  {
    Take(s, PointLength)
  }

  /** `body.split(/\r?\n/)`: split at each newline, dropping a carriage return just before it. */
  function LinesOf(body: string): (r: seq<string>)
    ensures |r| == |Split(body, '\n')|
  {
    var parts := Split(body, '\n');
    seq(|parts|, i requires 0 <= i < |parts| =>
      if i < |parts| - 1 && EndsWith(parts[i], "\r") then parts[i][..|parts[i]| - 1] else parts[i])
  }

  predicate IsDigit(c: char) {
    '0' <= c <= '9'
  }

  /** The number of ASCII digits from `i` on. */
  function DigitRun(t: string, i: nat): (r: nat)
    ensures i + r <= |t| || (i > |t| && r == 0)
    ensures forall k :: i <= k < i + r ==> IsDigit(t[k])
    ensures i + r < |t| ==> !IsDigit(t[i + r])
    decreases |t| - i
  {
    if i < |t| && IsDigit(t[i]) then 1 + DigitRun(t, i + 1) else 0
  }

  /** `/^\d+\.\s/`: digits, a dot, a whitespace character. */
  predicate Numbered(t: string) {
    var d := DigitRun(t, 0);
    d > 0 && d + 1 < |t| && t[d] == '.' && IsSpace(t[d + 1])
  }

  /** A numbered line without its leading digits, dot and whitespace (the `^\d+\.\s*` replacement). */
  function DropNumber(t: string): string
    requires Numbered(t)
  {
    TrimStart(t[DigitRun(t, 0) + 1..])
  }

  /** A trimmed line that the first pass skips: empty, a heading, or a table row. */
  predicate Skipped(t: string) {
    t == [] || StartsWith(t, "#") || (StartsWith(t, "|") && EndsWith(t, "|"))
  }

  /** The point a line gives in the first pass: a bullet or a numbered item, cut to 200 characters. */
  function BulletOf(line: string): Option<string> {
    var t := Trim(line);
    if Skipped(t) then None
    else if StartsWith(t, "- ") || StartsWith(t, "* ") then Some(Cut(t[2..]))
    else if Numbered(t) then Some(Cut(DropNumber(t)))
    else None
  }

  /** The point a line gives in the fallback pass: a long enough prose line, cut to 200 characters. */
  function FallbackOf(line: string): Option<string> {
    var t := Trim(line);
    if 20 < |t| < 300 && !StartsWith(t, "#") && !StartsWith(t, "|") then Some(Cut(t)) else None
  }

  function Bullet(line: string): (r: seq<string>)
    ensures |r| <= 1
  {
    if BulletOf(line).Some? then [BulletOf(line).value] else []
  }

  function Fallback(line: string): seq<string> {
    if FallbackOf(line).Some? then [FallbackOf(line).value] else []
  }

  /** The first pass's branches on one line, as `Bullet` sees them. */
  lemma BulletCases(line: string, t: string)
    requires t == Trim(line)
    ensures Skipped(t) ==> Bullet(line) == []
    ensures !Skipped(t) && (StartsWith(t, "- ") || StartsWith(t, "* ")) ==> Bullet(line) == [Cut(t[2..])]
    ensures !Skipped(t) && !(StartsWith(t, "- ") || StartsWith(t, "* ")) && Numbered(t) ==> Bullet(line) == [Cut(DropNumber(t))]
    ensures !Skipped(t) && !(StartsWith(t, "- ") || StartsWith(t, "* ")) && !Numbered(t) ==> Bullet(line) == []
  {
  }

  /** Every point of the first pass, in line order, before the stop at `maxPoints`. */
  function Bullets(lines: seq<string>): seq<string> {
    Seqs.FlatMap(Bullet, lines)
  }

  /** Every point of the fallback pass, in line order. */
  function Fallbacks(lines: seq<string>): seq<string> {
    Seqs.FlatMap(Fallback, lines)
  }

  /** The key points of a body: its first bullets, or, when it has none, its first long prose lines. */
  function KeyPoints(lines: seq<string>): seq<string> {
    var b := Bullets(lines);
    Take(if b != [] then b else Fallbacks(lines), MaxPoints)
  }

  /** Taking exactly the length of a prefix gives the prefix. */
  lemma TakeAll<T>(a: seq<T>, b: seq<T>, n: nat)
    requires |a| == n
    ensures Take(a + b, n) == a
  {
    assert (a + b)[..n] == a;
  }

  /**
   * Stopping once `maxPoints` points are held, or at the end with fewer,
   * leaves the first `maxPoints` points of the whole body.
   */
  lemma FirstPassStops(lines: seq<string>, i: nat, points: seq<string>)
    requires i <= |lines| && points == Bullets(lines[..i])
    requires |points| == MaxPoints || (i == |lines| && |points| < MaxPoints)
    ensures points == Take(Bullets(lines), MaxPoints)
  {
    Seqs.FlatMapAppend(Bullet, lines[..i], lines[i..]);
    assert lines[..i] + lines[i..] == lines;
    if |points| == MaxPoints {
      TakeAll(points, Bullets(lines[i..]), MaxPoints);
    } else {
      assert lines[i..] == [];
    }
  }

  /** The first pass of `extractKeyPoints`: bullets and numbered items until `maxPoints` of them. */
  method FirstPass(lines: seq<string>) returns (points: seq<string>)
    ensures points == Take(Bullets(lines), MaxPoints)
  {
    points := [];
    var i := 0;
    var full := false;
    while i < |lines| && !full
      invariant 0 <= i <= |lines|
      invariant points == Bullets(lines[..i])
      invariant if full then |points| == MaxPoints else |points| < MaxPoints
    {
      Seqs.FlatMapSnoc(Bullet, lines, i);
      var t := Trim(lines[i]);
      BulletCases(lines[i], t);
      i := i + 1;
      if Skipped(t) {
        continue;
      }
      if StartsWith(t, "- ") || StartsWith(t, "* ") {
        points := points + [Cut(t[2..])];
      } else if Numbered(t) {
        points := points + [Cut(DropNumber(t))];
      }
      if |points| >= MaxPoints {
        full := true;
      }
    }
    FirstPassStops(lines, i, points);
  }

  /** The fallback pass: every long enough prose line (the early `return` inside `forEach` does not stop it). */
  method FallbackPass(lines: seq<string>) returns (points: seq<string>)
    ensures points == Fallbacks(lines)
  {
    points := [];
    for j := 0 to |lines|
      invariant points == Fallbacks(lines[..j])
    {
      Seqs.FlatMapSnoc(Fallback, lines, j);
      var t := Trim(lines[j]);
      if 20 < |t| < 300 && !StartsWith(t, "#") && !StartsWith(t, "|") {
        points := points + [Cut(t)];
      }
    }
    assert lines[..|lines|] == lines;
  }

  /** `extractKeyPoints(body)`. */
  method ExtractKeyPoints(body: string) returns (points: seq<string>)
    ensures points == KeyPoints(LinesOf(body))
  {
    var lines := LinesOf(body);
    points := FirstPass(lines);
    if points == [] {
      points := FallbackPass(lines);
    }
    points := Take(points, MaxPoints);
  }

  /** A trimmed text that is not empty ends in a character other than whitespace. */
  lemma TrimLast(s: string)
    ensures Trim(s) == [] || !IsSpace(Trim(s)[|Trim(s)| - 1])
  {
    TrimEndSpec(TrimStart(s));
  }

  /** A prefix of the text from `k` on is a match at `k`. */
  lemma PrefixMatch(t: string, k: nat, p: string)
    requires k + |p| <= |t| && p == t[k..][..|p|]
    ensures MatchAt(t, p, k)
  {
    assert t[k..k + |p|] == t[k..][..|p|];
  }

  /** Without its number, a numbered line that ends in a non-space is the non-empty rest after its marker. */
  lemma DropNumberAt(t: string) returns (k: nat)
    requires Numbered(t) && !IsSpace(t[|t| - 1])
    ensures 2 <= k < |t| && DropNumber(t) == t[k..]
  {
    var u := t[DigitRun(t, 0) + 1..];
    TrimStartSpec(u);
    assert u[|u| - 1] == t[|t| - 1];
    k := DigitRun(t, 0) + 1 + (|u| - |TrimStart(u)|);
    assert u[|u| - |TrimStart(u)|..] == t[k..];
  }

  /**
   * A first-pass point is a non-empty piece of at most 200 characters of the
   * trimmed line, taken after its `- `, `* ` or `N.` marker.
   */
  lemma BulletOfSpec(line: string)
    requires BulletOf(line).Some?
    ensures var t, p := Trim(line), BulletOf(line).value;
      0 < |p| <= PointLength && exists k :: 2 <= k < |t| && MatchAt(t, p, k)
  {
    var t, p := Trim(line), BulletOf(line).value;
    TrimLast(line);
    if StartsWith(t, "- ") || StartsWith(t, "* ") {
      assert IsSpace(t[1]);
      assert p == Cut(t[2..]);
      PrefixMatch(t, 2, p);
    } else {
      var k := DropNumberAt(t);
      assert p == Cut(t[k..]);
      PrefixMatch(t, k, p);
    }
  }

  /**
   * At most 15 points, each of at most 200 characters; a body with a bullet
   * or numbered line gets only first-pass points, and the fallback's prose
   * lines are used only when there is none.
   */
  lemma {:induction false} KeyPointsSpec(lines: seq<string>)
    ensures var r := KeyPoints(lines);
      |r| <= MaxPoints && forall p :: p in r ==> |p| <= PointLength
    ensures (exists i :: 0 <= i < |lines| && BulletOf(lines[i]).Some?) ==>
      KeyPoints(lines) == Take(Bullets(lines), MaxPoints)
      && forall p :: p in KeyPoints(lines) ==> exists i :: 0 <= i < |lines| && BulletOf(lines[i]) == Some(p)
    ensures (forall i :: 0 <= i < |lines| ==> BulletOf(lines[i]).None?) ==>
      KeyPoints(lines) == Take(Fallbacks(lines), MaxPoints)
      && forall p :: p in KeyPoints(lines) ==> exists i :: 0 <= i < |lines| && FallbackOf(lines[i]) == Some(p)
  {
    var r := KeyPoints(lines);
    Seqs.FlatMapEmpty(Bullet, lines);
    forall p | p in r
      ensures |p| <= PointLength
      ensures Bullets(lines) != [] ==> exists i :: 0 <= i < |lines| && BulletOf(lines[i]) == Some(p)
      ensures Bullets(lines) == [] ==> exists i :: 0 <= i < |lines| && FallbackOf(lines[i]) == Some(p)
    {
      if Bullets(lines) != [] {
        Seqs.FlatMapMember(Bullet, lines, p);
      } else {
        Seqs.FlatMapMember(Fallback, lines, p);
      }
    }
  }

  // ---------------------------------------------------- loadModuleOutlines

  /** The catalog fields the generator reads; an absent `module_refs` or `references` is the empty list. */
  datatype CatalogPage = CatalogPage(id: string, slug: string, lang: string, moduleRefs: seq<string>, references: seq<string>)

  datatype ModuleOutline = ModuleOutline(file: string, title: string, purpose: string, headings: seq<string>, keyPoints: seq<string>)

  /** One piece of the assembled body Markdown. */
  datatype BodyPart = Missing(ref: string) | ModuleBody(title: string, body: string) | References(links: string)
  {
    function Render(): string {
      match this
      case Missing(ref) => "\n\n<!-- module not found: " + ref + " -->\n"
      case ModuleBody(title, body) => "\n\n## " + title + "\n\n" + body
      case References(links) => "\n\n## References\n\n" + links
    }
  }

  /** The link used when a page lists no references. */
  const DefaultReference := "- [AIMO Standard](https://aimoaas.com/ja/aimo-standard/)"

  /** A reference as a Markdown list item: a link to itself when it is a URL. */
  function ReferenceLine(url: string): (r: string)
    ensures StartsWith(r, "- ") && Contains(r, url)
  {
    var r := if StartsWith(url, "http") then "- [" + url + "](" + url + ")" else "- " + url;
    assert MatchAt(r, url, 3) || MatchAt(r, url, 2);
    r
  }

  function ReferenceLines(urls: seq<string>): (r: seq<string>)
    ensures |r| == |urls| && forall i :: 0 <= i < |urls| ==> r[i] == ReferenceLine(urls[i])
  {
    seq(|urls|, i requires 0 <= i < |urls| => ReferenceLine(urls[i]))
  }

  /** The References section's list: one line per reference, or the default link when there are none. */
  function ReferencesLinks(urls: seq<string>): string {
    var joined := Join(ReferenceLines(urls), "\n");
    if joined == "" then DefaultReference else joined
  }

  /** The default link appears exactly when the page lists no references; otherwise each reference has its own line. */
  lemma ReferencesLinksSpec(urls: seq<string>)
    ensures urls == [] ==> ReferencesLinks(urls) == DefaultReference
    ensures urls != [] ==> ReferencesLinks(urls) == Join(ReferenceLines(urls), "\n")
  {
    if urls != [] {
      var lines := ReferenceLines(urls);
      assert StartsWith(lines[0], "- ");
      JoinPrefix(lines, "\n", 1);
    }
  }

  /** The module id of a file in the modules directory. */
  function IdOf(files: map<string, string>, ref: string, scans: Scans): string
    requires ref in files
  {
    GetModuleId(ref, ParsedOf(files[ref], scans).frontmatter)
  }

  /** The outline entry of a module file. */
  function OutlineOf(ref: string, p: Parsed, scans: Scans): ModuleOutline {
    var title := if "title" in p.frontmatter then p.frontmatter["title"] else ref;
    var purpose := if "purpose" in p.frontmatter then p.frontmatter["purpose"] else "";
    ModuleOutline(ref, title, purpose, scans.headings(p.body), KeyPoints(LinesOf(p.body)))
  }

  /** What the loop over `module_refs` has built so far. */
  datatype Loading = Loading(outline: seq<ModuleOutline>, parts: seq<BodyPart>, seen: set<string>)

  /**
   * What the loop needs of each reference: whether its file exists, and
   * for one that does, its module id, outline entry and body.
   */
  datatype Loader = Loader(present: string -> bool, id: string -> string, outline: string -> ModuleOutline, body: string -> string)
  {
    /** An outline entry records the file it came from. */
    ghost predicate Valid() {
      forall ref :: outline(ref).file == ref
    }
  }

  /** The loader over a modules directory given as a map from file name to text. */
  function ModuleLoader(files: map<string, string>, scans: Scans): (l: Loader)
    ensures l.Valid()
  {
    Loader(
      ref => ref in files,
      ref => if ref in files then IdOf(files, ref, scans) else "",
      ref => if ref in files then OutlineOf(ref, ParsedOf(files[ref], scans), scans) else ModuleOutline(ref, ref, "", [], []),
      ref => if ref in files then ParsedOf(files[ref], scans).body else "")
  }

  /** One reference: a comment when the file is missing, nothing when its id was seen, else its outline and body. */
  function LoadStep(st: Loading, ref: string, l: Loader): Loading {
    if !l.present(ref) then st.(parts := st.parts + [Missing(ref)])
    else if l.id(ref) in st.seen then st
    else Loading(st.outline + [l.outline(ref)], st.parts + [ModuleBody(l.outline(ref).title, l.body(ref))], st.seen + {l.id(ref)})
  }

  function LoadAll(refs: seq<string>, l: Loader): Loading {
    if refs == [] then Loading([], [], {})
    else LoadStep(LoadAll(refs[..|refs| - 1], l), refs[|refs| - 1], l)
  }

  function Load(refs: seq<string>, files: map<string, string>, scans: Scans): Loading {
    LoadAll(refs, ModuleLoader(files, scans))
  }

  /** All parts of the body: the modules' parts, then the References section. */
  function BodyParts(page: CatalogPage, files: map<string, string>, scans: Scans): seq<BodyPart> {
    Load(page.moduleRefs, files, scans).parts + [References(ReferencesLinks(page.references))]
  }

  function Rendered(parts: seq<BodyPart>): (r: seq<string>)
    ensures |r| == |parts| && forall i :: 0 <= i < |parts| ==> r[i] == parts[i].Render()
  {
    seq(|parts|, i requires 0 <= i < |parts| => parts[i].Render())
  }

  /** `loadModuleOutlines(page)`, with the modules directory given as a map from file name to text. */
  method LoadModuleOutlines(page: CatalogPage, files: map<string, string>, scans: Scans)
    returns (outline: seq<ModuleOutline>, bodyMarkdown: string)
    ensures outline == Load(page.moduleRefs, files, scans).outline
    ensures bodyMarkdown == Join(Rendered(BodyParts(page, files, scans)), "\n")
  {
    outline := [];
    var bodyParts: seq<BodyPart> := [];
    var seen: set<string> := {};
    var refs := page.moduleRefs;
    ghost var l := ModuleLoader(files, scans);
    for i := 0 to |refs|
      invariant Loading(outline, bodyParts, seen) == LoadAll(refs[..i], l)
    {
      assert refs[..i + 1][..i] == refs[..i];
      var ref := refs[i];
      if ref !in files {
        bodyParts := bodyParts + [Missing(ref)];
        continue;
      }
      var parsed := ParseModule(files[ref], scans);
      var moduleId := GetModuleId(ref, parsed.frontmatter);
      if moduleId in seen {
        continue;
      }
      seen := seen + {moduleId};
      var title := if "title" in parsed.frontmatter then parsed.frontmatter["title"] else ref;
      var purpose := if "purpose" in parsed.frontmatter then parsed.frontmatter["purpose"] else "";
      var headings := scans.headings(parsed.body);
      var keyPoints := ExtractKeyPoints(parsed.body);
      outline := outline + [ModuleOutline(ref, title, purpose, headings, keyPoints)];
      bodyParts := bodyParts + [ModuleBody(title, parsed.body)];
    }
    assert refs[..|refs|] == refs;
    bodyParts := bodyParts + [References(ReferencesLinks(page.references))];
    bodyMarkdown := Join(Rendered(bodyParts), "\n");
  }


  /** The module id of outline entry `k`. */
  function OutlineId(outline: seq<ModuleOutline>, k: int, l: Loader): string
    requires 0 <= k < |outline|
  {
    l.id(outline[k].file)
  }

  /** Every outline entry's file exists, and the seen set is exactly the outline's ids. */
  ghost predicate Tracked(st: Loading, l: Loader) {
    (forall k :: 0 <= k < |st.outline| ==> l.present(st.outline[k].file))
    && forall id :: id in st.seen <==> exists k :: 0 <= k < |st.outline| && OutlineId(st.outline, k, l) == id
  }

  /** The seen set tracks the outline, and every existing file's id has been seen. */
  lemma {:induction false} LoadTracked(refs: seq<string>, l: Loader)
    requires l.Valid()
    ensures Tracked(LoadAll(refs, l), l)
    ensures forall j :: 0 <= j < |refs| && l.present(refs[j]) ==> l.id(refs[j]) in LoadAll(refs, l).seen
  {
    if refs != [] {
      var n := |refs| - 1;
      var init := refs[..n];
      LoadTracked(init, l);
      var st0 := LoadAll(init, l);
      var st := LoadAll(refs, l);
      assert forall j :: 0 <= j < n ==> init[j] == refs[j];
      if l.present(refs[n]) && l.id(refs[n]) !in st0.seen {
        var m := |st0.outline|;
        assert st.outline[m] == l.outline(refs[n]);
        assert OutlineId(st.outline, m, l) == l.id(refs[n]);
        assert forall k :: 0 <= k < m ==> st.outline[k] == st0.outline[k];
        assert st.outline[m].file == refs[n];
        assert forall k :: 0 <= k < |st.outline| ==> l.present(st.outline[k].file);
        assert st.seen == st0.seen + {l.id(refs[n])};
        forall id
          ensures id in st.seen <==> exists k :: 0 <= k < |st.outline| && OutlineId(st.outline, k, l) == id
        {
          if id == l.id(refs[n]) {
            assert OutlineId(st.outline, m, l) == id;
          } else if id in st0.seen {
            var k :| 0 <= k < m && OutlineId(st0.outline, k, l) == id;
            assert OutlineId(st.outline, k, l) == id;
          }
          if exists k :: 0 <= k < |st.outline| && OutlineId(st.outline, k, l) == id {
            var k :| 0 <= k < |st.outline| && OutlineId(st.outline, k, l) == id;
            if k < m {
              assert OutlineId(st0.outline, k, l) == id;
            }
          }
        }
      }
    }
  }

  /** Module ids are unique in the outline. */
  lemma {:induction false} LoadDistinct(refs: seq<string>, l: Loader)
    requires l.Valid()
    ensures forall k1, k2 :: 0 <= k1 < k2 < |LoadAll(refs, l).outline| ==>
      OutlineId(LoadAll(refs, l).outline, k1, l) != OutlineId(LoadAll(refs, l).outline, k2, l)
  {
    if refs != [] {
      var n := |refs| - 1;
      var init := refs[..n];
      LoadDistinct(init, l);
      LoadTracked(init, l);
      var st0 := LoadAll(init, l);
      var st := LoadAll(refs, l);
      if l.present(refs[n]) && l.id(refs[n]) !in st0.seen {
        forall k1, k2 | 0 <= k1 < k2 < |st.outline|
          ensures OutlineId(st.outline, k1, l) != OutlineId(st.outline, k2, l)
        {
          assert OutlineId(st.outline, k1, l) == OutlineId(st0.outline, k1, l);
          if k2 < |st0.outline| {
            assert OutlineId(st.outline, k2, l) == OutlineId(st0.outline, k2, l);
          } else {
            assert st.outline[k2] == l.outline(refs[n]);
            assert OutlineId(st0.outline, k1, l) in st0.seen;
          }
        }
      }
    }
  }

  /** Reference `j` is the first existing file with its module id. */
  ghost predicate FirstWithId(refs: seq<string>, j: int, l: Loader)
    requires 0 <= j < |refs|
  {
    l.present(refs[j]) && forall i :: 0 <= i < j && l.present(refs[i]) ==> l.id(refs[i]) != l.id(refs[j])
  }

  /** Outline entry `k` comes from reference `j`, the first existing file with its module id. */
  lemma {:induction false} LoadFirstAt(refs: seq<string>, l: Loader, k: nat) returns (j: nat)
    requires l.Valid()
    requires k < |LoadAll(refs, l).outline|
    ensures j < |refs| && refs[j] == LoadAll(refs, l).outline[k].file && FirstWithId(refs, j, l)
    decreases |refs|
  {
    var n := |refs| - 1;
    var init := refs[..n];
    var st0 := LoadAll(init, l);
    assert LoadAll(refs, l) == LoadStep(st0, refs[n], l);
    if k < |st0.outline| {
      assert LoadAll(refs, l).outline[k] == st0.outline[k];
      j := LoadFirstAt(init, l, k);
      assert forall i :: 0 <= i <= j ==> init[i] == refs[i];
    } else {
      assert LoadAll(refs, l).outline[k] == l.outline(refs[n]);
      LoadTracked(init, l);
      forall i | 0 <= i < n && l.present(refs[i])
        ensures l.id(refs[i]) != l.id(refs[n])
      {
        assert init[i] == refs[i];
      }
      j := n;
    }
  }

  /** The first file with a given module id wins: each outline entry is the first reference with its id. */
  lemma LoadFirstWins(refs: seq<string>, l: Loader)
    requires l.Valid()
    ensures forall e :: e in LoadAll(refs, l).outline ==>
      exists j :: 0 <= j < |refs| && refs[j] == e.file && FirstWithId(refs, j, l)
  {
    var outline := LoadAll(refs, l).outline;
    forall e | e in outline
      ensures exists j :: 0 <= j < |refs| && refs[j] == e.file && FirstWithId(refs, j, l)
    {
      var k :| 0 <= k < |outline| && outline[k] == e;
      var j := LoadFirstAt(refs, l, k);
    }
  }

  /**
   * The parts are one comment per missing file and one body per outline
   * entry, in reference order, and none of them is a References section.
   */
  lemma {:induction false} LoadParts(refs: seq<string>, l: Loader)
    ensures var st := LoadAll(refs, l);
      |st.parts| == |st.outline| + |Seqs.Filter(ref => !l.present(ref), refs)|
      && forall k :: 0 <= k < |st.parts| ==> !st.parts[k].References?
    ensures forall ref :: Missing(ref) in LoadAll(refs, l).parts <==> ref in refs && !l.present(ref)
  {
    if refs != [] {
      var n := |refs| - 1;
      var init := refs[..n];
      LoadParts(init, l);
      Seqs.FilterSnoc(ref => !l.present(ref), refs, n);
      assert refs[..n + 1] == refs;
      assert forall ref :: ref in refs <==> ref in init || ref == refs[n];
    }
  }

  /**
   * What `loadModuleOutlines` promises: module ids are unique and the first
   * file with an id wins; a missing file leaves a comment; the References
   * section is appended exactly once, last, with the default link only
   * when the page lists no references.
   */
  lemma LoadModuleOutlinesSpec(page: CatalogPage, files: map<string, string>, scans: Scans)
    ensures var st, l := Load(page.moduleRefs, files, scans), ModuleLoader(files, scans);
      (forall k1, k2 :: 0 <= k1 < k2 < |st.outline| ==> OutlineId(st.outline, k1, l) != OutlineId(st.outline, k2, l))
      && forall e :: e in st.outline ==>
        exists j :: 0 <= j < |page.moduleRefs| && page.moduleRefs[j] == e.file && FirstWithId(page.moduleRefs, j, l)
    ensures var parts := BodyParts(page, files, scans);
      parts[|parts| - 1] == References(ReferencesLinks(page.references))
      && (forall k :: 0 <= k < |parts| - 1 ==> !parts[k].References?)
      && forall ref :: Missing(ref) in parts <==> ref in page.moduleRefs && ref !in files
    ensures page.references == [] ==> ReferencesLinks(page.references) == DefaultReference
  {
    var l := ModuleLoader(files, scans);
    LoadDistinct(page.moduleRefs, l);
    LoadFirstWins(page.moduleRefs, l);
    LoadParts(page.moduleRefs, l);
    var st := LoadAll(page.moduleRefs, l);
    var parts := BodyParts(page, files, scans);
    assert forall k :: 0 <= k < |parts| - 1 ==> parts[k] == st.parts[k];
    forall ref
      ensures Missing(ref) in parts <==> Missing(ref) in st.parts
    {
    }
    ReferencesLinksSpec(page.references);
  }

  // ------------------------------------------------------ buildBodyOutline

  /** The outline keeps at most this many key points. */
  const MaxOutlinePoints := 30

  function TitleAndHeadings(m: ModuleOutline): seq<string> {
    [m.title] + m.headings
  }

  function PurposeAndPoints(m: ModuleOutline): seq<string> {
    [m.purpose] + m.keyPoints
  }

  predicate NonEmpty(s: string) {
    s != ""
  }

  /** The headings of the page outline: the distinct non-empty titles and headings, in first-seen order. */
  function OutlineHeadings(outline: seq<ModuleOutline>): seq<string> {
    Seqs.Filter(NonEmpty, Seqs.Dedup(Seqs.FlatMap(TitleAndHeadings, outline)))
  }

  /** The key points of the page outline: the first 30 distinct purposes and key points. */
  function OutlinePoints(outline: seq<ModuleOutline>): seq<string> {
    Take(Seqs.Dedup(Seqs.FlatMap(PurposeAndPoints, outline)), MaxOutlinePoints)
  }

  /** `buildBodyOutline(outline)`. */
  method BuildBodyOutline(outline: seq<ModuleOutline>) returns (headings: seq<string>, keyPoints: seq<string>)
    ensures headings == OutlineHeadings(outline) && keyPoints == OutlinePoints(outline)
  {
    headings := [];
    keyPoints := [];
    for i := 0 to |outline|
      invariant headings == Seqs.FlatMap(TitleAndHeadings, outline[..i])
      invariant keyPoints == Seqs.FlatMap(PurposeAndPoints, outline[..i])
    {
      Seqs.FlatMapSnoc(TitleAndHeadings, outline, i);
      Seqs.FlatMapSnoc(PurposeAndPoints, outline, i);
      var m := outline[i];
      headings := headings + [m.title];
      headings := headings + m.headings;
      keyPoints := keyPoints + [m.purpose];
      keyPoints := keyPoints + m.keyPoints;
    }
    assert outline[..|outline|] == outline;
    headings := Seqs.Filter(NonEmpty, Seqs.Dedup(headings));
    keyPoints := Take(Seqs.Dedup(keyPoints), MaxOutlinePoints);
  }

  /**
   * The outline's headings are distinct and non-empty, and hold exactly the
   * non-empty module titles and headings; its key points are distinct, at
   * most 30, each a module purpose or key point, and all of them when
   * there are no more than 30 distinct ones.
   */
  lemma BodyOutlineSpec(outline: seq<ModuleOutline>)
    ensures var h := OutlineHeadings(outline);
      Seqs.Distinct(h) && (forall k :: 0 <= k < |h| ==> h[k] != "")
      && forall x :: x in h <==> x != "" && exists i :: 0 <= i < |outline| && (x == outline[i].title || x in outline[i].headings)
    ensures var p := OutlinePoints(outline);
      Seqs.Distinct(p) && |p| <= MaxOutlinePoints
      && forall x :: x in p ==> exists i :: 0 <= i < |outline| && (x == outline[i].purpose || x in outline[i].keyPoints)
    ensures |Seqs.Dedup(Seqs.FlatMap(PurposeAndPoints, outline))| <= MaxOutlinePoints ==>
      forall i :: 0 <= i < |outline| ==> outline[i].purpose in OutlinePoints(outline) && forall x :: x in outline[i].keyPoints ==> x in OutlinePoints(outline)
  {
    var all := Seqs.FlatMap(TitleAndHeadings, outline);
    var h := OutlineHeadings(outline);
    Seqs.FilterDistinct(NonEmpty, Seqs.Dedup(all));
    forall x
      ensures x in h <==> x != "" && exists i :: 0 <= i < |outline| && (x == outline[i].title || x in outline[i].headings)
    {
      Seqs.FilterMember(NonEmpty, Seqs.Dedup(all), x);
      Seqs.FlatMapMember(TitleAndHeadings, outline, x);
    }
    forall k | 0 <= k < |h|
      ensures h[k] != ""
    {
      Seqs.FilterMember(NonEmpty, Seqs.Dedup(all), h[k]);
    }
    var points := Seqs.FlatMap(PurposeAndPoints, outline);
    var p := OutlinePoints(outline);
    forall x | x in p
      ensures exists i :: 0 <= i < |outline| && (x == outline[i].purpose || x in outline[i].keyPoints)
    {
      Seqs.FlatMapMember(PurposeAndPoints, outline, x);
    }
    forall i | 0 <= i < |outline|
      ensures |Seqs.Dedup(points)| <= MaxOutlinePoints ==> outline[i].purpose in p && forall x :: x in outline[i].keyPoints ==> x in p
    {
      Seqs.FlatMapMember(PurposeAndPoints, outline, outline[i].purpose);
      forall x | x in outline[i].keyPoints
        ensures x in points
      {
        Seqs.FlatMapMember(PurposeAndPoints, outline, x);
      }
    }
  }

  // ---------------------------------------------------------- link map

  datatype LinkItem = LinkItem(text: string, href: string)

  /**
   * A value of `link_map.json`: a list of links, `null`, the empty string,
   * or any other JSON value.
   */
  datatype LinkValue = Links(items: seq<LinkItem>) | Null | EmptyText | OtherValue

  /** `link_map.json` as its entries in key order (a JSON object, so each key once). */
  type LinkMap = seq<(string, LinkValue)>

  /** `linkMap[key]`, with `undefined` and `null` both read as absent (the `??` test). */
  function Get(linkMap: LinkMap, key: string): Option<LinkValue> {
    var v := Lookup(linkMap, key);
    if v == Some(Null) then None else v
  }

  /**
   * `[...v]` where the elements are then read as links: a list gives its
   * items and the empty string none. Anything else throws, either while
   * spreading (a number, an object, a boolean) or when the first element's
   * `href` is read (the characters of a non-empty string have none).
   */
  function Spread(v: LinkValue): Option<seq<LinkItem>> {
    match v
    case Links(items) => Some(items)
    case EmptyText => Some([])
    case _ => None
  }

  /** `Array.isArray(v) ? v : []`. */
  function ArrayOr(v: LinkValue): seq<LinkItem> {
    if v.Links? then v.items else []
  }

  /** The page's own topic from `slugToTopic`, else `misc`. */
  function CurrentTopic(finalSlug: string, slugToTopic: map<string, string>): string {
    if finalSlug in slugToTopic then slugToTopic[finalSlug] else "misc"
  }

  /** `linkMap[currentTopic] ?? linkMap.misc ?? []`, kept only when it is a list. */
  function TopicLinks(linkMap: LinkMap, topic: string): seq<LinkItem> {
    match Get(linkMap, topic)
    case Some(v) => ArrayOr(v)
    case None =>
      match Get(linkMap, "misc")
      case Some(v) => ArrayOr(v)
      case None => []
  }

  /** A key that can lend a link: not `common` or `description`, not the page's topic, and a non-empty list. */
  predicate OtherTopic(entry: (string, LinkValue), current: string) {
    entry.0 != "common" && entry.0 != "description" && entry.0 != current
    && entry.1.Links? && |entry.1.items| > 0
  }

  /** The first link of an entry that can lend one. */
  function FirstOf(current: string): ((string, LinkValue)) -> seq<LinkItem> {
    e => if OtherTopic(e, current) then [e.1.items[0]] else []
  }

  /** The first link of each other topic, in key order. */
  function OtherFirsts(linkMap: LinkMap, current: string): seq<LinkItem> {
    Seqs.FlatMap(FirstOf(current), linkMap)
  }

  /** A candidate is taken when its href is new, until two are taken. */
  function PickOthers(firsts: seq<LinkItem>, picked: seq<LinkItem>): (r: seq<LinkItem>)
    decreases |firsts|
  {
    if |picked| >= 2 || firsts == [] then picked
    else if firsts[0].href in Hrefs(picked) then PickOthers(firsts[1..], picked)
    else PickOthers(firsts[1..], picked + [firsts[0]])
  }

  function Hrefs(links: seq<LinkItem>): (r: seq<string>)
    ensures |r| == |links| && forall i :: 0 <= i < |links| ==> r[i] == links[i].href
  {
    seq(|links|, i requires 0 <= i < |links| => links[i].href)
  }

  /** The links of the block, in order: common, the topic's (or misc's), then up to two from other topics. */
  function InternalLinks(common: seq<LinkItem>, linkMap: LinkMap, current: string): seq<LinkItem> {
    common + TopicLinks(linkMap, current) + PickOthers(OtherFirsts(linkMap, current), [])
  }

  const LinkSeparator := " <span class=\"text-slate-300\" aria-hidden=\"true\">/</span> "

  /** One link as an anchor; a relative href is prefixed with the base URL, and both attribute and text are escaped. */
  function Anchor(baseUrl: string, l: LinkItem): string {
    var url := if StartsWith(l.href, "http") then l.href else baseUrl + l.href;
    "<a href=\"" + EscapeHtml(url) + "\" class=\"text-indigo-600 hover:underline\">" + EscapeHtml(l.text) + "</a>"
  }

  function Anchors(baseUrl: string, links: seq<LinkItem>): (r: seq<string>)
    ensures |r| == |links| && forall i :: 0 <= i < |links| ==> r[i] == Anchor(baseUrl, links[i])
  {
    seq(|links|, i requires 0 <= i < |links| => Anchor(baseUrl, links[i]))
  }

  /** The loop of `buildInternalLinksHtmlFromLinkMap` over the other topics' first links. */
  method PickOtherLinks(otherTopics: seq<LinkItem>) returns (fromOthers: seq<LinkItem>)
    ensures fromOthers == PickOthers(otherTopics, [])
  {
    var added: set<string> := {};
    fromOthers := [];
    var i := 0;
    while i < |otherTopics|
      invariant 0 <= i <= |otherTopics|
      invariant |fromOthers| < 2
      invariant forall h :: h in added <==> h in Hrefs(fromOthers)
      invariant PickOthers(otherTopics[i..], fromOthers) == PickOthers(otherTopics, [])
    {
      var first := otherTopics[i];
      assert otherTopics[i..][0] == first && otherTopics[i..][1..] == otherTopics[i + 1..];
      if first.href !in added {
        assert Hrefs(fromOthers + [first]) == Hrefs(fromOthers) + [first.href];
        added := added + {first.href};
        fromOthers := fromOthers + [first];
        if |fromOthers| >= 2 {
          break;
        }
      }
      i := i + 1;
    }
  }

  /**
   * `buildInternalLinksHtmlFromLinkMap`; `None` when `common` holds a value
   * whose spread throws (see `Spread`).
   */
  method BuildInternalLinksHtml(baseUrl: string, finalSlug: string, linkMap: LinkMap, slugToTopic: map<string, string>)
    returns (html: Option<string>)
    ensures html == InternalLinksHtml(baseUrl, finalSlug, linkMap, slugToTopic)
  {
    var currentTopic := CurrentTopic(finalSlug, slugToTopic);
    var topicLinks := TopicLinks(linkMap, currentTopic);
    var common: seq<LinkItem> := [];
    match Get(linkMap, "common") {
      case Some(v) =>
        match Spread(v) {
          case Some(items) =>
            common := items;
          case None =>
            return None;
        }
      case None =>
    }
    var fromOthers := PickOtherLinks(OtherFirsts(linkMap, currentTopic));
    var links := common + topicLinks + fromOthers;
    html := Some(Join(Anchors(baseUrl, links), LinkSeparator));
  }

  /** The HTML of the internal-links block, or `None` when spreading `common` throws. */
  function InternalLinksHtml(baseUrl: string, finalSlug: string, linkMap: LinkMap, slugToTopic: map<string, string>): Option<string> {
    match Get(linkMap, "common")
    case Some(v) =>
      if Spread(v).Some? then Some(Join(Anchors(baseUrl, InternalLinks(Spread(v).value, linkMap, CurrentTopic(finalSlug, slugToTopic))), LinkSeparator))
      else None
    case None => Some(Join(Anchors(baseUrl, InternalLinks([], linkMap, CurrentTopic(finalSlug, slugToTopic))), LinkSeparator))
  }

  /**
   * The block fails exactly when `common` holds something other than a
   * list, the empty string or `null`; an empty-string or `null` `common`
   * contributes no links, as a missing one does, and a list contributes
   * its items first.
   */
  lemma InternalLinksHtmlFails(baseUrl: string, finalSlug: string, linkMap: LinkMap, slugToTopic: map<string, string>)
    ensures InternalLinksHtml(baseUrl, finalSlug, linkMap, slugToTopic).None? <==> Lookup(linkMap, "common") == Some(OtherValue)
    ensures Lookup(linkMap, "common") in {None, Some(EmptyText), Some(Null)} ==>
      InternalLinksHtml(baseUrl, finalSlug, linkMap, slugToTopic)
        == Some(Join(Anchors(baseUrl, InternalLinks([], linkMap, CurrentTopic(finalSlug, slugToTopic))), LinkSeparator))
    ensures Lookup(linkMap, "common").Some? && Lookup(linkMap, "common").value.Links? ==>
      InternalLinksHtml(baseUrl, finalSlug, linkMap, slugToTopic)
        == Some(Join(Anchors(baseUrl, InternalLinks(Lookup(linkMap, "common").value.items, linkMap, CurrentTopic(finalSlug, slugToTopic))), LinkSeparator))
  {
  }

  /** The candidates are exactly the first links of the other topics. */
  lemma OtherFirstsMember(linkMap: LinkMap, current: string, x: LinkItem)
    ensures x in OtherFirsts(linkMap, current) <==>
      exists i :: 0 <= i < |linkMap| && OtherTopic(linkMap[i], current) && linkMap[i].1.items[0] == x
  {
    Seqs.FlatMapMember(FirstOf(current), linkMap, x);
  }

  /**
   * Picking keeps what was picked, adds only candidates, never two links
   * with the same href and never more than two; it stops short of two only
   * when every candidate's href was taken.
   */
  lemma {:induction false} PickOthersSpec(firsts: seq<LinkItem>, picked: seq<LinkItem>)
    requires |picked| <= 2 && Seqs.Distinct(Hrefs(picked))
    ensures var r := PickOthers(firsts, picked);
      |r| <= 2 && |picked| <= |r| && r[..|picked|] == picked && Seqs.Distinct(Hrefs(r))
      && (forall k :: |picked| <= k < |r| ==> r[k] in firsts)
      && (|r| < 2 ==> forall f :: f in firsts ==> f.href in Hrefs(r))
    decreases |firsts|
  {
    if |picked| < 2 && firsts != [] {
      var rest := firsts[1..];
      if firsts[0].href in Hrefs(picked) {
        PickOthersSpec(rest, picked);
        var r := PickOthers(rest, picked);
        assert Hrefs(r)[..|picked|] == Hrefs(picked);
        assert firsts[0].href in Hrefs(r);
      } else {
        var next := picked + [firsts[0]];
        assert Hrefs(next) == Hrefs(picked) + [firsts[0].href];
        Seqs.DistinctConcat(Hrefs(picked), [firsts[0].href]);
        PickOthersSpec(rest, next);
        var r := PickOthers(rest, next);
        assert r[..|picked|] == next[..|picked|] == picked;
        assert r[|picked|] == firsts[0];
        assert Hrefs(r)[|picked|] == firsts[0].href;
      }
    }
  }

  /** The links lent by other topics. */
  function Others(linkMap: LinkMap, current: string): seq<LinkItem> {
    PickOthers(OtherFirsts(linkMap, current), [])
  }

  /**
   * At most two links are lent by other topics, with distinct hrefs, each
   * the first link of a topic other than `common`, `description` and the
   * page's own, whose list is not empty; fewer than two only when every
   * such topic's first href is already among them.
   */
  lemma OthersSpec(linkMap: LinkMap, current: string)
    ensures |Others(linkMap, current)| <= 2 && Seqs.Distinct(Hrefs(Others(linkMap, current)))
    ensures forall k :: 0 <= k < |Others(linkMap, current)| ==>
      exists i :: 0 <= i < |linkMap| && OtherTopic(linkMap[i], current) && linkMap[i].1.items[0] == Others(linkMap, current)[k]
    ensures |Others(linkMap, current)| < 2 ==> forall i :: 0 <= i < |linkMap| && OtherTopic(linkMap[i], current) ==>
      linkMap[i].1.items[0].href in Hrefs(Others(linkMap, current))
  {
    var firsts := OtherFirsts(linkMap, current);
    PickOthersSpec(firsts, []);
    var others := Others(linkMap, current);
    forall k | 0 <= k < |others|
      ensures exists i :: 0 <= i < |linkMap| && OtherTopic(linkMap[i], current) && linkMap[i].1.items[0] == others[k]
    {
      OtherFirstsMember(linkMap, current, others[k]);
    }
    assert forall k :: 0 <= k < |others| ==>
      exists i :: 0 <= i < |linkMap| && OtherTopic(linkMap[i], current) && linkMap[i].1.items[0] == others[k];
    forall i | 0 <= i < |linkMap| && OtherTopic(linkMap[i], current)
      ensures |others| < 2 ==> linkMap[i].1.items[0].href in Hrefs(others)
    {
      OtherFirstsMember(linkMap, current, linkMap[i].1.items[0]);
    }
  }

  /**
   * The page topic's list when it has an entry that is not null, else the
   * `misc` list under the same rule, else nothing; an entry that is not a
   * list counts as empty. Whatever is used comes from an entry of the map.
   */
  lemma TopicLinksSpec(linkMap: LinkMap, current: string)
    ensures Lookup(linkMap, current).Some? && Lookup(linkMap, current).value.Links? ==>
      TopicLinks(linkMap, current) == Lookup(linkMap, current).value.items
    ensures ((Lookup(linkMap, current).None? || Lookup(linkMap, current) == Some(Null))
        && Lookup(linkMap, "misc").Some? && Lookup(linkMap, "misc").value.Links?) ==>
      TopicLinks(linkMap, current) == Lookup(linkMap, "misc").value.items
    ensures TopicLinks(linkMap, current) != [] ==>
      (current, Links(TopicLinks(linkMap, current))) in linkMap || ("misc", Links(TopicLinks(linkMap, current))) in linkMap
  {
    LookupSpec(linkMap, current);
    LookupSpec(linkMap, "misc");
    var own: Option<LinkValue> := Lookup(linkMap, current);
    var misc: Option<LinkValue> := Lookup(linkMap, "misc");
    match own
    case Some(Links(items)) =>
      assert Get(linkMap, current) == Some(Links(items));
    case Some(OtherValue) =>
      assert Get(linkMap, current) == Some(OtherValue);
    case Some(EmptyText) =>
      assert Get(linkMap, current) == Some(EmptyText);
    case _ =>
      assert Get(linkMap, current) == None;
      match misc
      case Some(Links(items)) =>
        assert Get(linkMap, "misc") == Some(Links(items));
      case Some(OtherValue) =>
        assert Get(linkMap, "misc") == Some(OtherValue);
      case Some(EmptyText) =>
        assert Get(linkMap, "misc") == Some(EmptyText);
      case _ =>
        assert Get(linkMap, "misc") == None;
  }

  // ---------------------------------------------------------------------
  // loadSlugToTopic: final slug (and its last segment) to the page's topic
  // ---------------------------------------------------------------------

  /** A row of the published-pages list: id, final URL and slug, topics. */
  datatype PseoPage = PseoPage(id: string, finalUrl: string, finalSlug: string, topic: seq<string>)

  /** `topic?.[0] ?? "misc"`. */
  function TopicOf(p: PseoPage): string {
    if |p.topic| > 0 then p.topic[0] else "misc"
  }

  /** `replace(/^.*\//, "")`: everything after the last slash. */
  function SlugTail(slug: string): string {
    LastPart(slug, '/')
  }

  /** The two assignments one page makes: its slug, then its slug's tail. */
  function TopicEntries(p: PseoPage): seq<Option<(string, string)>> {
    [Some((p.finalSlug, TopicOf(p))), Some((SlugTail(p.finalSlug), TopicOf(p)))]
  }

  function SlugToTopic(pages: seq<PseoPage>): map<string, string> {
    Assign(Seqs.FlatMap(TopicEntries, pages))
  }

  /** One more assignment overrides the key it sets. */
  lemma AssignSnoc<K, V>(es: seq<Option<(K, V)>>, k: K, v: V)
    ensures Assign(es + [Some((k, v))]) == Assign(es)[k := v]
  {
    assert (es + [Some((k, v))])[..|es|] == es;
  }

  /** `loadSlugToTopic`, over the pages of the list. */
  method LoadSlugToTopic(pages: seq<PseoPage>) returns (m: map<string, string>)
    ensures m == SlugToTopic(pages)
  {
    m := map[];
    for i := 0 to |pages|
      invariant m == Assign(Seqs.FlatMap(TopicEntries, pages[..i]))
    {
      var p := pages[i];
      var t := TopicOf(p);
      var es := Seqs.FlatMap(TopicEntries, pages[..i]);
      Seqs.FlatMapSnoc(TopicEntries, pages, i);
      AssignSnoc(es, p.finalSlug, t);
      AssignSnoc(es + [Some((p.finalSlug, t))], SlugTail(p.finalSlug), t);
      assert es + [Some((p.finalSlug, t))] + [Some((SlugTail(p.finalSlug), t))] == es + TopicEntries(p);
      m := m[p.finalSlug := t];
      m := m[SlugTail(p.finalSlug) := t];
    }
    assert pages[..|pages|] == pages;
  }

  /**
   * A key is present exactly when it is some page's final slug or that
   * slug's tail, and it maps to the topic of such a page.
   */
  lemma SlugToTopicSpec(pages: seq<PseoPage>, k: string)
    ensures k in SlugToTopic(pages) <==>
      exists j :: 0 <= j < |pages| && (pages[j].finalSlug == k || SlugTail(pages[j].finalSlug) == k)
    ensures k in SlugToTopic(pages) ==>
      exists j :: 0 <= j < |pages| && (pages[j].finalSlug == k || SlugTail(pages[j].finalSlug) == k)
        && SlugToTopic(pages)[k] == TopicOf(pages[j])
    ensures '/' !in k && k in SlugToTopic(pages) ==> exists j :: 0 <= j < |pages| && SlugTail(pages[j].finalSlug) == k
  {
    var es := Seqs.FlatMap(TopicEntries, pages);
    AssignHas(es, k);
    if k in SlugToTopic(pages) {
      AssignLast(es, k);
      var i :| LastSets(es, i, k, SlugToTopic(pages)[k]);
      Seqs.FlatMapMember(TopicEntries, pages, es[i]);
      var j :| 0 <= j < |pages| && es[i] in TopicEntries(pages[j]);
      assert (pages[j].finalSlug == k || SlugTail(pages[j].finalSlug) == k) && SlugToTopic(pages)[k] == TopicOf(pages[j]);
      if '/' !in k {
        LastPartSpec(pages[j].finalSlug, '/');
        assert SlugTail(pages[j].finalSlug) == k;
      }
    }
    if exists j :: 0 <= j < |pages| && (pages[j].finalSlug == k || SlugTail(pages[j].finalSlug) == k) {
      var j :| 0 <= j < |pages| && (pages[j].finalSlug == k || SlugTail(pages[j].finalSlug) == k);
      var e := if pages[j].finalSlug == k then TopicEntries(pages[j])[0] else TopicEntries(pages[j])[1];
      Seqs.FlatMapMember(TopicEntries, pages, e);
      var i :| 0 <= i < |es| && es[i] == e;
      assert SetsKey(es, i, k);
    }
  }

  // ---------------------------------------------------------------------
  // main: which pages are generated, and each page's robots and FAQ flags
  // ---------------------------------------------------------------------

  /** Japanese pages only, and only the one named on the command line when one is (`""` names none). */
  function Generated(onlyId: string): CatalogPage -> bool {
    (p: CatalogPage) => p.lang == "ja" && (onlyId == "" || p.id == onlyId)
  }

  function PagesToGenerate(pages: seq<CatalogPage>, onlyId: string): seq<CatalogPage> {
    Seqs.Filter(Generated(onlyId), pages)
  }

  /** The generated pages are the catalog's Japanese pages (the named one only, when one is named), in catalog order. */
  lemma PagesToGenerateSpec(pages: seq<CatalogPage>, onlyId: string, p: CatalogPage)
    ensures p in PagesToGenerate(pages, onlyId) <==> p in pages && p.lang == "ja" && (onlyId == "" || p.id == onlyId)
    ensures |PagesToGenerate(pages, onlyId)| <= |pages|
    ensures onlyId != "" ==> forall q :: q in PagesToGenerate(pages, onlyId) ==> q.id == onlyId
  {
    Seqs.FilterMember(Generated(onlyId), pages, p);
    Seqs.FilterLength(Generated(onlyId), pages);
    forall q | q in PagesToGenerate(pages, onlyId)
      ensures q.id == onlyId || onlyId == ""
    {
      Seqs.FilterMember(Generated(onlyId), pages, q);
    }
  }

  /** The final URL and slug a page is published under. */
  datatype PseoRecord = PseoRecord(finalUrl: string, finalSlug: string)

  /** The last segment of a catalog slug, after one leading and one trailing slash are dropped. */
  function SlugSegment(slug: string): string {
    LastPart(DropTrailingSlash(DropLeadingSlash(slug)), '/')
  }

  /** `replace(/\/?$/, "/")`: one trailing slash is dropped if present, then one is added. */
  function WithSlash(url: string): (r: string)
    ensures |r| > 0 && r[|r| - 1] == '/'
    ensures r == url || r == url + "/"
  {
    DropTrailingSlash(url) + "/"
  }

  const IndexFollow := "index,follow"
  const NoindexFollow := "noindex,follow"

  /** What `main` decides for a page before rendering it. */
  datatype PageFlags = PageFlags(outDirSlug: string, canonicalUrl: Option<string>, robots: string, emitFaq: bool)

  function FlagsOf(page: CatalogPage, baseUrl: string, records: map<string, PseoRecord>,
                   indexAllow: set<string>, faqAllow: set<string>): PageFlags
  {
    var seg := SlugSegment(page.slug);
    var finalSlug := if seg in records then records[seg].finalSlug else seg;
    PageFlags(finalSlug,
      if seg in records then Some(baseUrl + WithSlash(records[seg].finalUrl)) else None,
      if finalSlug in indexAllow then IndexFollow else NoindexFollow,
      finalSlug in faqAllow)
  }

  /** The FAQPage schema is written only when the page may emit it and the editor produced one. */
  function FaqSchema(emitFaq: bool, faqPage: Option<string>): (r: string)
    ensures r != "" <==> emitFaq && faqPage.Some?
  {
    if emitFaq && faqPage.Some? then "<script type=\"application/ld+json\">" + faqPage.value + "</script>" else ""
  }

  /**
   * A page is indexed exactly when its final slug is on the index allowlist,
   * and carries the FAQPage schema exactly when that slug is on the FAQ
   * allowlist and a FAQ was produced. The final slug is the published
   * record's when the page's slug segment has one, else the segment, which
   * then holds no slash; the canonical URL exists only with a record and
   * ends in a slash.
   */
  lemma PageFlagsSpec(page: CatalogPage, baseUrl: string, records: map<string, PseoRecord>,
                      indexAllow: set<string>, faqAllow: set<string>, faqPage: Option<string>)
    ensures var f := FlagsOf(page, baseUrl, records, indexAllow, faqAllow);
      (f.robots == IndexFollow <==> f.outDirSlug in indexAllow)
      && (f.robots == NoindexFollow <==> f.outDirSlug !in indexAllow)
      && (FaqSchema(f.emitFaq, faqPage) != "" <==> f.outDirSlug in faqAllow && faqPage.Some?)
      && (SlugSegment(page.slug) in records ==> f.outDirSlug == records[SlugSegment(page.slug)].finalSlug)
      && (SlugSegment(page.slug) !in records ==> f.outDirSlug == SlugSegment(page.slug) && '/' !in f.outDirSlug)
      && (f.canonicalUrl.Some? <==> SlugSegment(page.slug) in records)
      && (f.canonicalUrl.Some? ==> f.canonicalUrl.value[|f.canonicalUrl.value| - 1] == '/')
  {
    LastPartSpec(DropTrailingSlash(DropLeadingSlash(page.slug)), '/');
  }
}
