/**
 * The internal-link checker of the PSEO pages: every `https://aimoaas.com/ja…`
 * link of every page is looked up once, a PSEO link against the PSEO
 * directories and any other link against the files of the site. File
 * existence is a given set of paths relative to the site root; the links of
 * a page arrive as the path parts the link pattern matched.
 */
module CheckPseoLinks {
  import opened Wrappers
  import opened Strings
  import Seqs

  const Host: string := "https://aimoaas.com"
  const IndexFile: string := "index.html"
  const ResourcesPrefix: string := "resources/"
  const PseoPrefix: string := "/ja/resources/pseo/"

  // ------------------------------------------------------------- pathToDir

  /** `replace(/^\/ja\/?/, "")`. */
  function StripJa(s: string): (r: string)
    ensures |r| <= |s|
  {
    if StartsWith(s, "/ja/") then s[4..] else if StartsWith(s, "/ja") then s[3..] else s
  }

  /** A `#` from which `.*` runs to the end: no line terminator follows it. */
  predicate FragmentAt(s: string, k: nat) {
    k < |s| && s[k] == '#' && forall j :: k < j < |s| ==> !IsLineTerminator(s[j])
  }

  /** The first fragment start at or after `k`, or `|s|` when there is none. */
  function FragmentStart(s: string, k: nat): (r: nat)
    requires k <= |s|
    ensures k <= r <= |s|
    ensures r < |s| ==> FragmentAt(s, r)
    decreases |s| - k
  {
    if k == |s| then |s| else if FragmentAt(s, k) then k else FragmentStart(s, k + 1)
  }

  /** `replace(/#.*$/, "")`. */
  function DropFragment(s: string): (r: string)
    ensures |r| <= |s|
  {
    s[..FragmentStart(s, 0)]
  }

  lemma {:induction false} FragmentStartNoHash(s: string, k: nat)
    requires k <= |s| && '#' !in s
    ensures FragmentStart(s, k) == |s|
    decreases |s| - k
  {
    if k < |s| {
      assert s[k] in s;
      FragmentStartNoHash(s, k + 1);
    }
  }

  /** A path without `#` has no fragment to drop. */
  lemma DropFragmentNoHash(s: string)
    requires '#' !in s
    ensures DropFragment(s) == s
  {
    FragmentStartNoHash(s, 0);
  }

  /** The path after `/ja`, without its fragment and one trailing slash; "index" when nothing is left. */
  function Rest(seg: string): (p: string)
    ensures p != []
  {
    var p := DropTrailingSlash(DropFragment(StripJa(seg)));
    if p == [] then "index" else p
  }

  /** `join(JA_ROOT, p, "index.html")`, relative to the site root. */
  function InJa(p: string): string {
    "ja/" + p + "/" + IndexFile
  }

  /** The slug after `resources/pseo/`: the second part of the split, or "" when there is none. */
  function SecondPart(parts: seq<string>): string {
    if |parts| > 1 then parts[1] else ""
  }

  /** The `resources/…` branch: only the first part counts, except under `pseo`, where the slug does. */
  function ResourcesDir(rest: string): string {
    if rest == [] then InJa("resources")
    else
      var parts := Split(rest, '/');
      if parts[0] == "pseo" then
        var slug := SecondPart(parts);
        if slug != [] then InJa("resources/pseo/" + slug) else ""
      else InJa(ResourcesPrefix + parts[0])
  }

  /** The file for a normalised path. */
  function PathOf(p: string): string {
    if p == "index" then "ja/" + IndexFile
    else if p == "aimo-standard" then InJa("aimo-standard")
    else if StartsWith(p, ResourcesPrefix) then ResourcesDir(p[|ResourcesPrefix|..])
    else if p == "audit-firms" then InJa("audit-firms")
    else InJa(p)
  }

  /**
   * `pathToDir`: the index file a `/ja…` path maps to, relative to the site
   * root; "" for the PSEO listing without a slug.
   */
  function PathToDir(seg: string): string {
    PathOf(Rest(seg))
  }

  lemma InJaIndex(p: string)
    ensures EndsWith(InJa(p), "/" + IndexFile)
  {
    var r := InJa(p);
    assert r == ("ja/" + p) + ("/" + IndexFile);
  }

  lemma ResourcesDirShape(rest: string)
    ensures ResourcesDir(rest) == [] || EndsWith(ResourcesDir(rest), "/" + IndexFile)
  {
    if rest == [] {
      InJaIndex("resources");
    } else {
      var parts := Split(rest, '/');
      if parts[0] == "pseo" {
        InJaIndex("resources/pseo/" + SecondPart(parts));
      } else {
        InJaIndex(ResourcesPrefix + parts[0]);
      }
    }
  }

  /** Every result is either "" or a path to an `index.html`. */
  lemma PathToDirShape(seg: string)
    ensures PathToDir(seg) == [] || EndsWith(PathToDir(seg), "/" + IndexFile)
  {
    var p := Rest(seg);
    if p == "index" {
      assert "ja/" + IndexFile == "ja" + ("/" + IndexFile);
    } else if p == "aimo-standard" {
      InJaIndex("aimo-standard");
    } else if StartsWith(p, ResourcesPrefix) {
      ResourcesDirShape(p[|ResourcesPrefix|..]);
    } else if p == "audit-firms" {
      InJaIndex("audit-firms");
    } else {
      InJaIndex(p);
    }
  }

  /** The first part of a split is a prefix of the text. */
  lemma {:induction false} SplitFirst(s: string)
    ensures StartsWith(s, Split(s, '/')[0])
  {
    if s != [] {
      SplitFirst(s[1..]);
    }
  }

  /** The first part is empty exactly when the text is empty or starts with the separator. */
  lemma SplitFirstEmpty(s: string)
    ensures Split(s, '/')[0] == [] <==> s == [] || s[0] == '/'
  {
    if s != [] {
      SplitCons(s[0], s[1..], '/');
      assert [s[0]] + s[1..] == s;
    }
  }

  /** The `resources/` branch gives "" only under `pseo`. */
  lemma ResourcesDirEmpty(rest: string)
    requires ResourcesDir(rest) == []
    ensures StartsWith(rest, "pseo")
  {
    var parts := Split(rest, '/');
    assert rest != [] && parts[0] == "pseo";
    SplitFirst(rest);
  }

  /** Only a `resources/` path can map to no file. */
  lemma PathOfEmpty(p: string)
    requires PathOf(p) == []
    ensures StartsWith(p, ResourcesPrefix)
  {
  }

  /** The empty result comes only from a `resources/pseo` path. */
  lemma PathToDirEmpty(seg: string)
    requires PathToDir(seg) == []
    ensures StartsWith(Rest(seg), "resources/pseo")
  {
    var p := Rest(seg);
    PathOfEmpty(p);
    var rest := p[|ResourcesPrefix|..];
    ResourcesDirEmpty(rest);
    assert p == ResourcesPrefix + rest;
    PrefixThenPseo(rest);
  }

  lemma PrefixThenPseo(rest: string)
    requires StartsWith(rest, "pseo")
    ensures StartsWith(ResourcesPrefix + rest, "resources/pseo")
  {
    var p := ResourcesPrefix + rest;
    assert p[..14] == ResourcesPrefix + rest[..4];
  }

  /** After `/ja/`, the rest is the path without one trailing slash. */
  lemma RestJa(t: string)
    requires '#' !in t
    ensures Rest("/ja/" + t) == (if DropTrailingSlash(t) == [] then "index" else DropTrailingSlash(t))
  {
    assert StripJa("/ja/" + t) == t;
    DropFragmentNoHash(t);
  }

  /** A `resources/` path is decided by its rest alone. */
  lemma PathOfResources(rest: string)
    ensures PathOf(ResourcesPrefix + rest) == ResourcesDir(rest)
  {
    var p := ResourcesPrefix + rest;
    assert p[0] == 'r';
    assert p[..|ResourcesPrefix|] == ResourcesPrefix;
    assert p[|ResourcesPrefix|..] == rest;
  }

  /** Under `pseo/`, the result is "" exactly when the slug part is empty. */
  lemma ResourcesDirPseo(y: string)
    ensures ResourcesDir("pseo/" + y) == [] <==> y == [] || y[0] == '/'
  {
    assert "pseo/" + y == "pseo" + "/" + y;
    SplitNoSep("pseo", '/');
    SplitConcat("pseo", y, '/');
    assert SecondPart(Split("pseo/" + y, '/')) == Split(y, '/')[0];
    SplitFirstEmpty(y);
  }

  lemma NotInConcat(a: string, b: string, c: char)
    requires c !in a && c !in b
    ensures c !in a + b
  {
  }

  /** The PSEO prefix is `/ja/` and then `resources/pseo/`. */
  lemma PseoPrefixParts()
    ensures PseoPrefix == "/ja/" + (ResourcesPrefix + "pseo/")
  {
  }

  lemma PseoDirParts()
    ensures '#' !in ResourcesPrefix + "pseo/"
    ensures DropTrailingSlash(ResourcesPrefix + "pseo/") == ResourcesPrefix + "pseo"
  {
  }

  /** A path `q + x` after `/ja/`, without `#`, loses only the trailing slash of `x`. */
  lemma RestSlug(seg: string, q: string, x: string)
    requires seg == "/ja/" + (q + x) && q != [] && x != [] && '#' !in q && '#' !in x
    ensures Rest(seg) == q + DropTrailingSlash(x)
  {
    NotInConcat(q, x, '#');
    RestJa(q + x);
    DropTrailingSlashConcat(q, x);
  }

  /** After `/ja/`, a path `q + x` without `#` loses only the trailing slash of `x`. */
  lemma RestOfJa(q: string, x: string)
    requires '#' !in q && '#' !in x && DropTrailingSlash(q) != []
    ensures Rest("/ja/" + (q + x)) == if x == [] then DropTrailingSlash(q) else q + DropTrailingSlash(x)
  {
    NotInConcat(q, x, '#');
    RestJa(q + x);
    if x != [] {
      DropTrailingSlashConcat(q, x);
    } else {
      assert q + x == q;
    }
  }

  lemma Assoc4(a: string, b: string, c: string, x: string)
    ensures (a + (b + c)) + x == a + (b + (c + x))
  {
  }

  /** The normalised path of a PSEO link with something after the prefix. */
  lemma RestPseo(x: string)
    requires x != [] && '#' !in x
    ensures Rest(PseoPrefix + x) == ResourcesPrefix + ("pseo/" + DropTrailingSlash(x))
  {
    PseoPrefixParts();
    PseoDirParts();
    Assoc4("/ja/", ResourcesPrefix, "pseo/", x);
    RestSlug(PseoPrefix + x, ResourcesPrefix + "pseo/", x);
  }

  /** The normalised path of the PSEO prefix alone. */
  lemma RestPseoListing()
    ensures Rest(PseoPrefix) == ResourcesPrefix + "pseo"
  {
    PseoPrefixParts();
    PseoDirParts();
    var q := ResourcesPrefix + "pseo/";
    assert PseoPrefix == "/ja/" + (q + []);
    RestOfJa(q, []);
  }

  /** `/ja/resources/pseo/<x>` maps to "" exactly when no slug follows. */
  lemma PseoListing(x: string)
    requires '#' !in x
    ensures PathToDir(PseoPrefix + x) == [] <==> x == [] || x[0] == '/'
  {
    if x == [] {
      assert PseoPrefix + x == PseoPrefix;
      RestPseoListing();
      PathOfResources("pseo");
      SplitNoSep("pseo", '/');
    } else {
      var y := DropTrailingSlash(x);
      RestPseo(x);
      PathOfResources("pseo/" + y);
      ResourcesDirPseo(y);
      assert y == [] || y[0] == x[0];
    }
  }

  /** Without a slash, the first part is the whole text. */
  lemma ResourcesDirFirst(a: string, y: string)
    requires a != [] && '/' !in a && a != "pseo"
    ensures ResourcesDir(a) == InJa(ResourcesPrefix + a)
    ensures ResourcesDir(a + "/" + y) == InJa(ResourcesPrefix + a)
  {
    SplitNoSep(a, '/');
    SplitConcat(a, y, '/');
    assert a + "/" + y == a + ['/'] + y;
  }

  lemma Assoc5(p: string, q: string, r: string, s: string, t: string)
    ensures p + q + r + s + t == p + (q + r + s + t)
  {
  }

  /** Under `/ja/<q><a>/`, a path without `#` loses only the trailing slash of what follows. */
  lemma RestUnder(seg: string, q: string, a: string, b: string)
    requires a != [] && b != [] && '#' !in q && '#' !in a && '#' !in b
    requires seg == "/ja/" + (q + a + "/" + b)
    ensures Rest(seg) == q + (a + "/" + DropTrailingSlash(b))
  {
    var d := DropTrailingSlash(b);
    assert Rest(seg) == q + a + "/" + d by {
      NotInConcat(q, a, '#');
      NotInConcat(q + a, "/", '#');
      RestSlug(seg, q + a + "/", b);
    }
    AssocLeft4(q, a, "/", d);
  }

  lemma AssocLeft4(p: string, q: string, r: string, s: string)
    ensures p + q + r + s == p + (q + r + s)
  {
  }

  /** `/ja/<q><a>/` is `<q><a>`. */
  lemma RestUnderDir(seg: string, q: string, a: string)
    requires a != [] && '#' !in q && '#' !in a
    requires seg == "/ja/" + ((q + a) + "/")
    ensures Rest(seg) == q + a
  {
    NotInConcat(q, a, '#');
    RestSlug(seg, q + a, "/");
  }

  /** The normalised path of a link under `/ja/resources/<a>/`. */
  lemma RestResources(a: string, b: string)
    requires a != [] && '#' !in a && '#' !in b
    ensures b != [] ==> Rest("/ja/" + ResourcesPrefix + a + "/" + b) == ResourcesPrefix + (a + "/" + DropTrailingSlash(b))
    ensures b == [] ==> Rest("/ja/" + ResourcesPrefix + a + "/" + b) == ResourcesPrefix + a
  {
    assert '#' !in ResourcesPrefix;
    Assoc5("/ja/", ResourcesPrefix, a, "/", b);
    var seg := "/ja/" + ResourcesPrefix + a + "/" + b;
    if b == [] {
      assert seg == "/ja/" + ((ResourcesPrefix + a) + "/");
      RestUnderDir(seg, ResourcesPrefix, a);
    } else {
      RestUnder(seg, ResourcesPrefix, a, b);
    }
  }

  /** `/ja/resources/<a>/<b>…` maps to the index of `<a>`: only the first part counts. */
  lemma ResourcesFirstPart(a: string, b: string)
    requires a != [] && '/' !in a && a != "pseo" && '#' !in a && '#' !in b
    ensures PathToDir("/ja/" + ResourcesPrefix + a + "/" + b) == InJa(ResourcesPrefix + a)
  {
    RestResources(a, b);
    ResourcesDirFirst(a, DropTrailingSlash(b));
    PathOfResources(a);
    PathOfResources(a + "/" + DropTrailingSlash(b));
  }

  /** `/ja/x` and `/ja/x/` map to the same file. */
  lemma SlashInsensitive(x: string)
    requires '#' !in x && (x == [] || x[|x| - 1] != '/')
    ensures PathToDir("/ja/" + x) == PathToDir("/ja/" + x + "/")
  {
    RestJa(x);
    assert "/ja/" + x + "/" == "/ja/" + (x + "/");
    RestJa(x + "/");
    assert DropTrailingSlash(x + "/") == x;
  }

  /** `existsPath`. */
  predicate ExistsPath(seg: string, files: set<string>) {
    var full := PathToDir(seg);
    if full == [] then false
    else if EndsWith(full, IndexFile) then full in files
    else full + "/" + IndexFile in files
  }

  /** A path exists exactly when it maps to a file that exists. */
  lemma ExistsPathIff(seg: string, files: set<string>)
    ensures ExistsPath(seg, files) <==> PathToDir(seg) != [] && PathToDir(seg) in files
  {
    PathToDirShape(seg);
    var full := PathToDir(seg);
    if full != [] {
      assert full[|full| - 10..] == (full[|full| - 11..])[1..];
    }
  }

  // ------------------------------------------------------------------ main

  /** A PSEO directory: its name and, when its `index.html` exists, the `/ja…` path of each link, in order. */
  datatype PseoDir = PseoDir(name: string, links: Option<seq<string>>)

  datatype BrokenLink = BrokenLink(file: string, url: string, path: string)

  /** The site root, the root with a slash, and in-page anchors of the root are not checked. */
  predicate Skipped(seg: string) {
    seg == "/ja" || seg == "/ja/" || StartsWith(seg, "/ja/#")
  }

  /** The slug of a PSEO link: the part after the prefix, without one trailing slash. */
  function PseoSlug(seg: string): string
    requires StartsWith(seg, PseoPrefix)
  {
    DropTrailingSlash(seg[|PseoPrefix|..])
  }

  /** A PSEO link must name a PSEO directory; any other link must map to an existing file. */
  predicate LinkOk(seg: string, slugs: seq<string>, files: set<string>) {
    if StartsWith(seg, PseoPrefix) then PseoSlug(seg) in slugs else ExistsPath(seg, files)
  }

  function OkFor(slugs: seq<string>, files: set<string>): string -> bool {
    seg => LinkOk(seg, slugs, files)
  }

  /** The links of one directory, tagged with its name. */
  function DirItems(d: PseoDir): seq<(string, string)> {
    match d.links
    case None => []
    case Some(ls) => seq(|ls|, k requires 0 <= k < |ls| => (d.name, ls[k]))
  }

  /** Every link of every directory with a page, in order. */
  function Items(dirs: seq<PseoDir>): seq<(string, string)> {
    Seqs.FlatMap(DirItems, dirs)
  }

  function Names(dirs: seq<PseoDir>): (r: seq<string>)
    ensures |r| == |dirs| && forall k :: 0 <= k < |dirs| ==> r[k] == dirs[k].name
  {
    seq(|dirs|, k requires 0 <= k < |dirs| => dirs[k].name)
  }

  /** The `seen` set and the `broken` list. */
  datatype Scan = Scan(seen: set<string>, broken: seq<BrokenLink>)

  /** One link: a url already seen is passed over; otherwise it is marked seen and, unless skipped or ok, reported. */
  function Visit(st: Scan, file: string, seg: string, ok: string -> bool): Scan {
    var url := Host + seg;
    if url in st.seen then st
    else if Skipped(seg) || ok(seg) then Scan(st.seen + {url}, st.broken)
    else Scan(st.seen + {url}, st.broken + [BrokenLink(file, url, seg)])
  }

  function ScanAll(items: seq<(string, string)>, ok: string -> bool): Scan {
    if items == [] then Scan({}, [])
    else
      var n := |items| - 1;
      Visit(ScanAll(items[..n], ok), items[n].0, items[n].1, ok)
  }

  lemma HostInjective(a: string, b: string)
    requires Host + a == Host + b
    ensures a == b
  {
    assert (Host + a)[|Host|..] == a;
    assert (Host + b)[|Host|..] == b;
  }

  /** The urls seen are those of the links visited. */
  ghost predicate SeenFact(items: seq<(string, string)>, st: Scan) {
    forall u :: u in st.seen <==> exists k :: 0 <= k < |items| && u == Host + items[k].1
  }

  /** A reported link: its url is the host and its path, it is not skipped, not ok, and some page has it. */
  ghost predicate Reported(items: seq<(string, string)>, ok: string -> bool, b: BrokenLink) {
    b.url == Host + b.path && !Skipped(b.path) && !ok(b.path)
    && exists k :: 0 <= k < |items| && items[k] == (b.file, b.path)
  }

  ghost predicate BrokenFact(items: seq<(string, string)>, ok: string -> bool, st: Scan) {
    forall i :: 0 <= i < |st.broken| ==> Reported(items, ok, st.broken[i])
  }

  ghost predicate DistinctFact(st: Scan) {
    forall i, j :: 0 <= i < j < |st.broken| ==> st.broken[i].url != st.broken[j].url
  }

  predicate HasPath(broken: seq<BrokenLink>, seg: string) {
    exists i :: 0 <= i < |broken| && broken[i].path == seg
  }

  ghost predicate CompleteFact(items: seq<(string, string)>, ok: string -> bool, st: Scan) {
    forall k :: 0 <= k < |items| && !Skipped(items[k].1) && !ok(items[k].1) ==> HasPath(st.broken, items[k].1)
  }

  lemma VisitSeen(items: seq<(string, string)>, st: Scan, file: string, seg: string, ok: string -> bool)
    requires SeenFact(items, st)
    ensures SeenFact(items + [(file, seg)], Visit(st, file, seg, ok))
  {
    var items' := items + [(file, seg)];
    var st' := Visit(st, file, seg, ok);
    forall u ensures u in st'.seen <==> exists k :: 0 <= k < |items'| && u == Host + items'[k].1 {
      if exists k :: 0 <= k < |items| && u == Host + items[k].1 {
        var k :| 0 <= k < |items| && u == Host + items[k].1;
        assert items'[k] == items[k];
      }
      if exists k :: 0 <= k < |items'| && u == Host + items'[k].1 {
        var k :| 0 <= k < |items'| && u == Host + items'[k].1;
        if k < |items| {
          assert items'[k] == items[k];
        }
      }
      assert items'[|items|] == (file, seg);
    }
  }

  lemma VisitBroken(items: seq<(string, string)>, st: Scan, file: string, seg: string, ok: string -> bool)
    requires BrokenFact(items, ok, st)
    ensures BrokenFact(items + [(file, seg)], ok, Visit(st, file, seg, ok))
  {
    var items' := items + [(file, seg)];
    var st' := Visit(st, file, seg, ok);
    forall i | 0 <= i < |st'.broken| ensures Reported(items', ok, st'.broken[i]) {
      if i < |st.broken| {
        assert st'.broken[i] == st.broken[i];
        var k :| 0 <= k < |items| && items[k] == (st.broken[i].file, st.broken[i].path);
        assert items'[k] == items[k];
      } else {
        assert items'[|items|] == (file, seg);
      }
    }
  }

  lemma VisitDistinct(items: seq<(string, string)>, st: Scan, file: string, seg: string, ok: string -> bool)
    requires SeenFact(items, st) && BrokenFact(items, ok, st) && DistinctFact(st)
    ensures DistinctFact(Visit(st, file, seg, ok))
  {
    var st' := Visit(st, file, seg, ok);
    forall i, j | 0 <= i < j < |st'.broken| ensures st'.broken[i].url != st'.broken[j].url {
      if j >= |st.broken| {
        var b := st.broken[i];
        assert Reported(items, ok, b);
        var k :| 0 <= k < |items| && items[k] == (b.file, b.path);
        assert b.url in st.seen;
      }
    }
  }

  lemma VisitComplete(items: seq<(string, string)>, st: Scan, file: string, seg: string, ok: string -> bool)
    requires SeenFact(items, st) && CompleteFact(items, ok, st)
    ensures CompleteFact(items + [(file, seg)], ok, Visit(st, file, seg, ok))
  {
    var items' := items + [(file, seg)];
    var st' := Visit(st, file, seg, ok);
    var url := Host + seg;
    forall k | 0 <= k < |items'| && !Skipped(items'[k].1) && !ok(items'[k].1)
      ensures HasPath(st'.broken, items'[k].1)
    {
      if k < |items| {
        assert items'[k] == items[k];
        var i :| 0 <= i < |st.broken| && st.broken[i].path == items[k].1;
        assert st'.broken[i] == st.broken[i];
      } else if url in st.seen {
        assert items'[k] == (file, seg);
        var k0 :| 0 <= k0 < |items| && url == Host + items[k0].1;
        HostInjective(seg, items[k0].1);
        var i :| 0 <= i < |st.broken| && st.broken[i].path == items[k0].1;
      } else {
        assert items'[k] == (file, seg);
        assert st'.broken[|st.broken|].path == seg;
      }
    }
  }

  /** What the scan keeps, over every prefix of the links. */
  lemma {:induction false} ScanAllFacts(items: seq<(string, string)>, ok: string -> bool)
    ensures SeenFact(items, ScanAll(items, ok)) && BrokenFact(items, ok, ScanAll(items, ok))
    ensures DistinctFact(ScanAll(items, ok)) && CompleteFact(items, ok, ScanAll(items, ok))
  {
    if items != [] {
      var n := |items| - 1;
      var pre := items[..n];
      ScanAllFacts(pre, ok);
      var st := ScanAll(pre, ok);
      assert items == pre + [(items[n].0, items[n].1)];
      VisitSeen(pre, st, items[n].0, items[n].1, ok);
      VisitBroken(pre, st, items[n].0, items[n].1, ok);
      VisitDistinct(pre, st, items[n].0, items[n].1, ok);
      VisitComplete(pre, st, items[n].0, items[n].1, ok);
    }
  }

  /**
   * Each distinct url is reported at most once, and a path is reported
   * exactly when some page links to it and it is neither skipped nor ok.
   */
  lemma BrokenIff(items: seq<(string, string)>, ok: string -> bool, seg: string)
    ensures HasPath(ScanAll(items, ok).broken, seg)
        <==> (exists k :: 0 <= k < |items| && items[k].1 == seg) && !Skipped(seg) && !ok(seg)
    ensures forall i, j :: 0 <= i < j < |ScanAll(items, ok).broken| ==>
              ScanAll(items, ok).broken[i].url != ScanAll(items, ok).broken[j].url
  {
    ScanAllFacts(items, ok);
    var broken := ScanAll(items, ok).broken;
    if HasPath(broken, seg) {
      var i :| 0 <= i < |broken| && broken[i].path == seg;
      assert Reported(items, ok, broken[i]);
    }
  }

  /** Nothing is reported exactly when every link is skipped or ok. */
  lemma CleanIff(items: seq<(string, string)>, ok: string -> bool)
    ensures ScanAll(items, ok).broken == [] <==> forall k :: 0 <= k < |items| ==> Skipped(items[k].1) || ok(items[k].1)
  {
    ScanAllFacts(items, ok);
    var broken := ScanAll(items, ok).broken;
    if broken != [] {
      assert Reported(items, ok, broken[0]);
    }
  }

  /** The outcome of a run. */
  datatype Verdict = RootMissing | Report(broken: seq<BrokenLink>) {
    function ExitCode(): nat {
      if RootMissing? || broken != [] then 1 else 0
    }
  }

  /** One link of the inner loop. */
  method VisitLink(seen: set<string>, broken: seq<BrokenLink>, file: string, seg: string,
                   slugs: seq<string>, files: set<string>)
    returns (seen': set<string>, broken': seq<BrokenLink>)
    ensures Scan(seen', broken') == Visit(Scan(seen, broken), file, seg, OkFor(slugs, files))
  {
    seen', broken' := seen, broken;
    var url := Host + seg;
    if url in seen {
      return;
    }
    seen' := seen + {url};
    if Skipped(seg) {
      return;
    }
    var ok := false;
    if StartsWith(seg, PseoPrefix) {
      var slug := DropTrailingSlash(seg[|PseoPrefix|..]);
      ok := slug in slugs;
    } else {
      ok := ExistsPath(seg, files);
    }
    if !ok {
      broken' := broken + [BrokenLink(file, url, seg)];
    }
  }

  /** One more link of a directory is one more visit. */
  lemma ScanStep(done: seq<(string, string)>, here: seq<(string, string)>, j: nat, ok: string -> bool)
    requires j < |here|
    ensures ScanAll(done + here[..j + 1], ok) == Visit(ScanAll(done + here[..j], ok), here[j].0, here[j].1, ok)
  {
    var pre := done + here[..j];
    assert done + here[..j + 1] == pre + [here[j]];
    assert (pre + [here[j]])[..|pre|] == pre;
  }

  /** The inner loop over one directory's links; a directory without a page has none. */
  method VisitDir(seen0: set<string>, broken0: seq<BrokenLink>, dir: PseoDir, slugs: seq<string>, files: set<string>,
                  ghost done: seq<(string, string)>)
    returns (seen: set<string>, broken: seq<BrokenLink>)
    requires Scan(seen0, broken0) == ScanAll(done, OkFor(slugs, files))
    ensures Scan(seen, broken) == ScanAll(done + DirItems(dir), OkFor(slugs, files))
  {
    seen, broken := seen0, broken0;
    ghost var ok := OkFor(slugs, files);
    ghost var here := DirItems(dir);
    var links := dir.links;
    if links.None? {
      assert done + here == done;
      return;
    }
    assert done + here[..0] == done;
    for j := 0 to |links.value|
      invariant Scan(seen, broken) == ScanAll(done + here[..j], ok)
    {
      ScanStep(done, here, j, ok);
      assert here[j] == (dir.name, links.value[j]);
      seen, broken := VisitLink(seen, broken, dir.name, links.value[j], slugs, files);
    }
    assert here[..|links.value|] == here;
  }

  /** `main`: the PSEO root (None when it is missing) and the files of the site. */
  method Run(root: Option<seq<PseoDir>>, files: set<string>) returns (v: Verdict)
    ensures root.None? ==> v == RootMissing
    ensures root.Some? ==> v == Report(ScanAll(Items(root.value), OkFor(Names(root.value), files)).broken)
    ensures v.ExitCode() == 0 <==> root.Some? && v.broken == []
  {
    if root.None? {
      return RootMissing;
    }
    var dirs := root.value;
    var slugs := Names(dirs);
    ghost var ok := OkFor(slugs, files);
    var seen: set<string> := {};
    var broken: seq<BrokenLink> := [];
    for i := 0 to |dirs|
      invariant Scan(seen, broken) == ScanAll(Items(dirs[..i]), ok)
    {
      Seqs.FlatMapSnoc(DirItems, dirs, i);
      seen, broken := VisitDir(seen, broken, dirs[i], slugs, files, Items(dirs[..i]));
    }
    assert dirs[..|dirs|] == dirs;
    v := Report(broken);
  }
}
