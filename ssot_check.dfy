/**
 * The consistency check of the page SSOT (`pseo_pages.json`): exactly 100
 * pages, every required key present and non-blank, and each page's final
 * slug and final url of the form the slug pipeline builds. Errors are
 * collected over all pages; the run fails when there is any. Reading the
 * file is the caller's: it arrives parsed, or `None` when it is missing.
 */
module SsotCheck {
  import opened Wrappers
  import opened Strings
  import Seqs

  const ExpectedCount: nat := 100
  const FinalUrlPrefix: string := "/ja/resources/pseo/"
  const FinalUrlSuffix: string := "/"

  /** A JSON value, as far as the check tells kinds apart; `Other` carries its `String(v)`. */
  datatype Value = Absent | Null | Str(s: string) | Arr(items: seq<string>) | Other(text: string)

  /** `String(v ?? "")`: a missing or null value is "", an array its items joined by commas. */
  function Stringify(v: Value): string {
    match v
    case Absent => ""
    case Null => ""
    case Str(s) => s
    case Arr(items) => Join(items, ",")
    case Other(t) => t
  }

  datatype Key = Id | Title | Topic | SlugBase | FinalSlug | FinalUrl | LegacyUrl {
    function Name(): string {
      match this
      case Id => "id"
      case Title => "title"
      case Topic => "topic"
      case SlugBase => "slug_base"
      case FinalSlug => "final_slug"
      case FinalUrl => "final_url"
      case LegacyUrl => "legacy_url"
    }
  }

  const RequiredKeys: seq<Key> := [Id, Title, Topic, SlugBase, FinalSlug, FinalUrl, LegacyUrl]

  /** A page object: the values of the keys it has. */
  type Page = map<Key, Value>

  function Get(p: Page, k: Key): Value {
    if k in p then p[k] else Absent
  }

  datatype CheckError =
    | NotFound
    | CountMismatch(count: nat)
    | MissingKey(id: string, key: Key)
    | EmptyKey(id: string, key: Key)
    | EmptyTopic(id: string)
    | SlugMismatch(id: string, got: string, expected: string)
    | UrlMismatch(id: string, got: string)

  /** The error one required key yields, if any. */
  function KeyError(id: string, k: Key, v: Value): Option<CheckError> {
    if v.Absent? || v.Null? then Some(MissingKey(id, k))
    else if v.Str? && Trim(v.s) == "" then Some(EmptyKey(id, k))
    else if k == Topic && v.Arr? && v.items == [] then Some(EmptyTopic(id))
    else None
  }

  /** A key passes when its value is a non-blank string, any other value, or (for topic) a non-empty array. */
  lemma KeyErrorNone(id: string, k: Key, v: Value)
    ensures KeyError(id, k, v).None? <==>
      match v
      case Absent => false
      case Null => false
      case Str(s) => Trim(s) != ""
      case Arr(items) => k != Topic || items != []
      case Other(_) => true
  {
  }

  /** The key errors of the keys in order. */
  function KeyErrors(id: string, p: Page, keys: seq<Key>): seq<CheckError> {
    if keys == [] then []
    else
      var k := keys[|keys| - 1];
      KeyErrors(id, p, keys[..|keys| - 1])
      + (match KeyError(id, k, Get(p, k)) case Some(e) => [e] case None => [])
  }

  lemma {:induction false} KeyErrorsEmpty(id: string, p: Page, keys: seq<Key>)
    ensures KeyErrors(id, p, keys) == [] <==> forall i :: 0 <= i < |keys| ==> KeyError(id, keys[i], Get(p, keys[i])).None?
  {
    if keys != [] {
      var n := |keys| - 1;
      KeyErrorsEmpty(id, p, keys[..n]);
      assert forall i :: 0 <= i < n ==> keys[..n][i] == keys[i];
    }
  }

  function PageId(p: Page): string {
    Stringify(Get(p, Id))
  }

  /** `${slug_base}-${id}` with the slug base trimmed and the id as it is. */
  function ExpectedSlug(p: Page): string {
    Trim(Stringify(Get(p, SlugBase))) + "-" + PageId(p)
  }

  function GotSlug(p: Page): string {
    Trim(Stringify(Get(p, FinalSlug)))
  }

  /** `s.replace(/\/?$/, "") + "/"`. */
  function NormalizeUrl(s: string): string {
    DropTrailingSlash(s) + "/"
  }

  function ExpectedUrl(p: Page): string {
    FinalUrlPrefix + GotSlug(p) + FinalUrlSuffix
  }

  predicate SlugOk(p: Page) {
    GotSlug(p) == ExpectedSlug(p)
  }

  predicate UrlOk(p: Page) {
    NormalizeUrl(Trim(Stringify(Get(p, FinalUrl)))) == NormalizeUrl(ExpectedUrl(p))
  }

  /** Every error of one page: its key errors in key order, then the slug, then the url. */
  function PageErrors(p: Page): seq<CheckError> {
    var id := PageId(p);
    KeyErrors(id, p, RequiredKeys)
    + (if SlugOk(p) then [] else [SlugMismatch(id, GotSlug(p), ExpectedSlug(p))])
    + (if UrlOk(p) then [] else [UrlMismatch(id, Trim(Stringify(Get(p, FinalUrl))))])
  }

  /** The errors of all pages, page by page. */
  function AllErrors(pages: seq<Page>): seq<CheckError> {
    Seqs.FlatMap(PageErrors, pages)
  }

  datatype Verdict = Verdict(errors: seq<CheckError>, exitCode: nat)

  /** The inner loop: the required keys of one page, then its slug and url. */
  method CheckPage(p: Page) returns (errs: seq<CheckError>)
    ensures errs == PageErrors(p)
  {
    var id := Stringify(Get(p, Id));
    errs := CheckKeys(id, p);
    var slugBase := Trim(Stringify(Get(p, SlugBase)));
    var finalSlug := Trim(Stringify(Get(p, FinalSlug)));
    var expectedSlug := slugBase + "-" + id;
    if finalSlug != expectedSlug {
      errs := errs + [SlugMismatch(id, finalSlug, expectedSlug)];
    }
    var finalUrl := Trim(Stringify(Get(p, FinalUrl)));
    var expectedUrl := FinalUrlPrefix + finalSlug + FinalUrlSuffix;
    if DropTrailingSlash(finalUrl) + "/" != DropTrailingSlash(expectedUrl) + "/" {
      errs := errs + [UrlMismatch(id, finalUrl)];
    }
  }

  /** The loop over the required keys of one page. */
  method CheckKeys(id: string, p: Page) returns (errs: seq<CheckError>)
    ensures errs == KeyErrors(id, p, RequiredKeys)
  {
    errs := [];
    for i := 0 to |RequiredKeys|
      invariant errs == KeyErrors(id, p, RequiredKeys[..i])
    {
      assert RequiredKeys[..i + 1][..i] == RequiredKeys[..i];
      var k := RequiredKeys[i];
      var v := Get(p, k);
      if v.Absent? || v.Null? {
        errs := errs + [MissingKey(id, k)];
      } else if v.Str? && Trim(v.s) == "" {
        errs := errs + [EmptyKey(id, k)];
      } else if k == Topic && v.Arr? && v.items == [] {
        errs := errs + [EmptyTopic(id)];
      }
    }
    assert RequiredKeys[..|RequiredKeys|] == RequiredKeys;
  }

  /**
   * `main`: a missing file and a page count other than 100 fail before any
   * page is looked at (a `pages` that is not an array counts as empty);
   * otherwise the run fails exactly when some page has an error.
   */
  method Run(file: Option<Option<seq<Page>>>) returns (v: Verdict)
    ensures v.exitCode == 1 <==> v.errors != []
    ensures v.exitCode == 0 || v.exitCode == 1
    ensures file.None? ==> v.errors == [NotFound]
    ensures file.Some? && |file.value.GetOr([])| != ExpectedCount ==> v.errors == [CountMismatch(|file.value.GetOr([])|)]
    ensures file.Some? && |file.value.GetOr([])| == ExpectedCount ==> v.errors == AllErrors(file.value.GetOr([]))
  {
    if file.None? {
      return Verdict([NotFound], 1);
    }
    var pages := file.value.GetOr([]);
    if |pages| != ExpectedCount {
      return Verdict([CountMismatch(|pages|)], 1);
    }
    var errors: seq<CheckError> := [];
    for i := 0 to |pages|
      invariant errors == AllErrors(pages[..i])
    {
      Seqs.FlatMapSnoc(PageErrors, pages, i);
      var errs := CheckPage(pages[i]);
      errors := errors + errs;
    }
    assert pages[..|pages|] == pages;
    v := Verdict(errors, if errors == [] then 0 else 1);
  }

  // ------------------------------------------------------------ properties

  /** An error is reported exactly when some page has it: nothing stops at the first. */
  lemma AllErrorsMember(pages: seq<Page>, e: CheckError)
    ensures e in AllErrors(pages) <==> exists i :: 0 <= i < |pages| && e in PageErrors(pages[i])
  {
    Seqs.FlatMapMember(PageErrors, pages, e);
  }

  /** A full-size SSOT passes exactly when every page is clean. */
  lemma AllErrorsEmpty(pages: seq<Page>)
    ensures AllErrors(pages) == [] <==> forall i :: 0 <= i < |pages| ==> PageErrors(pages[i]) == []
  {
    Seqs.FlatMapEmpty(PageErrors, pages);
  }

  /** A page is clean exactly when every required key passes and its slug and url have the built form. */
  lemma PageClean(p: Page)
    ensures PageErrors(p) == [] <==>
      (forall i :: 0 <= i < |RequiredKeys| ==> KeyError(PageId(p), RequiredKeys[i], Get(p, RequiredKeys[i])).None?)
      && GotSlug(p) == ExpectedSlug(p) && UrlOk(p)
  {
    KeyErrorsEmpty(PageId(p), p, RequiredKeys);
  }

  /**
   * For a final slug that does not end in a slash, the url check accepts
   * exactly the expected url with or without its trailing slash.
   */
  lemma UrlOkIff(p: Page)
    requires GotSlug(p) != [] && GotSlug(p)[|GotSlug(p)| - 1] != '/'
    ensures UrlOk(p) <==>
      (var u := Trim(Stringify(Get(p, FinalUrl)));
       u == ExpectedUrl(p) || u + "/" == ExpectedUrl(p))
  {
    var u := Trim(Stringify(Get(p, FinalUrl)));
    var e := ExpectedUrl(p);
    var g := GotSlug(p);
    assert e == (FinalUrlPrefix + g) + "/";
    assert DropTrailingSlash(e) == FinalUrlPrefix + g;
    if u + "/" == e {
      assert u == FinalUrlPrefix + g;
      assert u[|u| - 1] == g[|g| - 1];
    }
  }
}
