/**
 * The topic-asset injector: each page is mapped to a topic asset key, a
 * seed is hashed from its final slug, up to five blocks are picked from the
 * asset by the seed, and the joined blocks are inserted before the page's
 * References heading (or one of two fallback anchors). The asset files and
 * page files arrive as maps; the block renderers are left out, so an asset
 * item arrives as its rendered html (`None` for an item that is falsy).
 */
module InjectAssets {
  import opened Wrappers
  import opened Strings
  import Seqs

  const Mod32: nat := 0x1_0000_0000

  // ------------------------------------------------------------ simpleHash

  /** The UTF-16 code units of one character, as `charCodeAt` sees them. */
  function Units(c: char): (u: seq<nat>)
    ensures 1 <= |u| <= 2
    ensures forall i :: 0 <= i < |u| ==> u[i] < 0x10000
  {
    if c as int < 0x10000 then [c as int]
    else [0xD800 + (c as int - 0x10000) / 0x400, 0xDC00 + (c as int - 0x10000) % 0x400]
  }

  /** The code units of a string: `s.length` of them, `s.charCodeAt(i)` each. */
  function Utf16(s: string): (u: seq<nat>)
    ensures |s| <= |u| <= 2 * |s|
  {
    if s == [] then [] else Utf16(s[..|s| - 1]) + Units(s[|s| - 1])
  }

  /** `h = (h * 31 + unit) >>> 0` over the units, from `h = 0`. */
  function HashOf(u: seq<nat>): (h: nat)
    ensures h < Mod32
  {
    if u == [] then 0 else (HashOf(u[..|u| - 1]) * 31 + u[|u| - 1]) % Mod32
  }

  /** The polynomial the hash reduces: sum of unit_i * 31^(n-1-i), unbounded. */
  function Poly(u: seq<nat>): nat {
    if u == [] then 0 else Poly(u[..|u| - 1]) * 31 + u[|u| - 1]
  }

  lemma {:induction false} ModMultiple(x: nat, k: nat)
    ensures (x + k * Mod32) % Mod32 == x % Mod32
  {
    if k > 0 {
      ModMultiple(x, k - 1);
      assert x + k * Mod32 == (x + (k - 1) * Mod32) + Mod32;
    }
  }

  lemma ModStep(a: nat, c: nat)
    ensures ((a % Mod32) * 31 + c) % Mod32 == (a * 31 + c) % Mod32
  {
    var q := a / Mod32;
    assert a == q * Mod32 + a % Mod32;
    assert a * 31 + c == ((a % Mod32) * 31 + c) + (q * 31) * Mod32;
    ModMultiple((a % Mod32) * 31 + c, q * 31);
  }

  /**
   * Reducing after every step is reducing once at the end: the hash is the
   * polynomial of the code units modulo 2^32.
   */
  lemma {:induction false} HashIsPoly(u: seq<nat>)
    ensures HashOf(u) == Poly(u) % Mod32
  {
    if u != [] {
      var n := |u| - 1;
      HashIsPoly(u[..n]);
      ModStep(Poly(u[..n]), u[n]);
    }
  }

  /** `simpleHash`: the loop over the code units. */
  method SimpleHash(s: string) returns (h: nat)
    ensures h == HashOf(Utf16(s)) && h < Mod32
  {
    var u := Utf16(s);
    h := 0;
    for i := 0 to |u|
      invariant h == HashOf(u[..i])
    {
      assert u[..i + 1][..i] == u[..i];
      h := (h * 31 + u[i]) % Mod32;
    }
    assert u[..|u|] == u;
  }

  // ------------------------------------------------------- topicToAssetKey

  /** The asset keys; an asset file is named after `Name()`. */
  datatype AssetKey = CoverageMap | ShadowAi | ApprovalException | EvidencePack
                    | GovernanceWorkflow | AuditProofAssurance | Misc
  {
    function Name(): string {
      match this
      case CoverageMap => "coverage-map"
      case ShadowAi => "shadow-ai"
      case ApprovalException => "approval-exception"
      case EvidencePack => "evidence-pack"
      case GovernanceWorkflow => "governance-workflow"
      case AuditProofAssurance => "audit-proof-assurance"
      case Misc => "misc"
    }
  }

  /** The first-topic table consulted after the slug rules. */
  const TopicTable: seq<(string, AssetKey)> :=
    [("evidence-pack", EvidencePack), ("intake-review-approve", GovernanceWorkflow),
     ("coverage-map", CoverageMap), ("proof-assurance", AuditProofAssurance),
     ("ai-audit", AuditProofAssurance), ("controls", AuditProofAssurance),
     ("responsibility-boundary", AuditProofAssurance), ("evidence-readiness", AuditProofAssurance),
     ("monitoring", AuditProofAssurance), ("inventory", AuditProofAssurance)]

  /** A page record: the topic list may be absent. */
  datatype PseoPage = PseoPage(id: string, finalSlug: string, topic: Option<seq<string>>)

  predicate CoverageRule(slug: string, topics: seq<string>) {
    Contains(slug, "coverage-map") && topics == []
  }

  predicate ShadowRule(slug: string, topics: seq<string>) {
    Contains(slug, "shadow-ai") || "shadow-ai" in topics || Contains(slug, "minimum-evidence")
  }

  predicate ExceptionRule(slug: string, topics: seq<string>) {
    "request-review-exception" in topics || (Contains(slug, "exception") && "intake-review-approve" in topics)
  }

  /** The key of the first topic alone (`topics[0]` is undefined for no topics). */
  function FirstTopicKey(topics: seq<string>): AssetKey {
    if topics == [] then Misc else Lookup(TopicTable, topics[0]).GetOr(Misc)
  }

  /** No table entry is the approval-exception asset; only its rule gives it. */
  lemma TopicTableAvoidsException()
    ensures forall i :: 0 <= i < |TopicTable| ==> TopicTable[i].1 != ApprovalException
  {
  }

  lemma FirstTopicNotException(topics: seq<string>)
    ensures FirstTopicKey(topics) != ApprovalException
  {
    if topics != [] {
      TopicTableAvoidsException();
      LookupAvoids(TopicTable, topics[0], ApprovalException);
    }
  }

  /** `topicToAssetKey`: three slug-and-topic rules in order, then the first topic. */
  function TopicToAssetKey(slug: string, topics: seq<string>): (k: AssetKey)
    ensures CoverageRule(slug, topics) ==> k == CoverageMap
    ensures !CoverageRule(slug, topics) && ShadowRule(slug, topics) ==> k == ShadowAi
    ensures k == ApprovalException <==> !CoverageRule(slug, topics) && !ShadowRule(slug, topics) && ExceptionRule(slug, topics)
    ensures !CoverageRule(slug, topics) && !ShadowRule(slug, topics) && !ExceptionRule(slug, topics) ==> k == FirstTopicKey(topics)
  {
    FirstTopicNotException(topics);
    if CoverageRule(slug, topics) then CoverageMap
    else if ShadowRule(slug, topics) then ShadowAi
    else if ExceptionRule(slug, topics) then ApprovalException
    else FirstTopicKey(topics)
  }

  function PageKey(p: PseoPage): AssetKey {
    TopicToAssetKey(p.finalSlug, p.topic.GetOr([]))
  }

  /**
   * Misc is the fallback: the key is misc exactly when no rule fires and
   * there is no first topic or the table does not list it; any other key
   * the first topic gives is its table entry.
   */
  lemma MiscIff(slug: string, topics: seq<string>)
    ensures TopicToAssetKey(slug, topics) == Misc <==>
      !CoverageRule(slug, topics) && !ShadowRule(slug, topics) && !ExceptionRule(slug, topics)
      && (topics == [] || forall i :: 0 <= i < |TopicTable| ==> TopicTable[i].0 != topics[0])
    ensures topics != [] && FirstTopicKey(topics) != Misc ==> (topics[0], FirstTopicKey(topics)) in TopicTable
  {
    var t := TopicTable;
    assert forall i :: 0 <= i < |t| ==> t[i].1 != Misc;
    if topics != [] {
      LookupSpec(t, topics[0]);
    }
  }

  // --------------------------------------------------- buildInjectedBlocks

  datatype Category = CaseStudy | Checklist | FindingsFixes | ArtifactBlock | AuditQ {
    /** The `n` in `idx(n)`: the block's place in the fixed order. */
    function Offset(): nat {
      match this
      case CaseStudy => 0
      case Checklist => 1
      case FindingsFixes => 2
      case ArtifactBlock => 3
      case AuditQ => 4
    }
  }

  /** A topic asset: each list holds the rendered items, `None` for a falsy item; a missing list is empty. */
  datatype TopicAsset = TopicAsset(caseStudies: seq<Option<string>>, checklists: seq<Option<string>>,
                                   findingsAndFixes: seq<Option<string>>, artifactBlocks: seq<Option<string>>,
                                   auditQuestions: seq<Option<string>>)
  {
    function Items(c: Category): seq<Option<string>> {
      match c
      case CaseStudy => caseStudies
      case Checklist => checklists
      case FindingsFixes => findingsAndFixes
      case ArtifactBlock => artifactBlocks
      case AuditQ => auditQuestions
    }
  }

  datatype Block = Block(category: Category, html: string)

  /** `idx(n)`: `(seed + n) >>> 0`. */
  function Idx(seed: nat, n: nat): nat {
    (seed + n) % Mod32
  }

  /** `add`: nothing for an empty list, else the item at `index % length` if it is truthy. */
  function Pick(items: seq<Option<string>>, index: nat): Option<string> {
    if items == [] then None else items[index % |items|]
  }

  function BlockFor(asset: TopicAsset, seed: nat, c: Category): seq<Block> {
    match Pick(asset.Items(c), Idx(seed, c.Offset()))
    case Some(h) => [Block(c, h)]
    case None => []
  }

  const Categories: seq<Category> := [CaseStudy, Checklist, FindingsFixes, ArtifactBlock, AuditQ]

  function BlockOf(asset: TopicAsset, seed: nat): Category -> seq<Block> {
    c => BlockFor(asset, seed, c)
  }

  /** The blocks in the fixed category order. */
  function Blocks(asset: TopicAsset, seed: nat): seq<Block> {
    Seqs.FlatMap(BlockOf(asset, seed), Categories)
  }

  /** `add(arr, index, render)`. */
  method Add(blocks: seq<Block>, items: seq<Option<string>>, index: nat, c: Category) returns (r: seq<Block>)
    ensures r == blocks + (match Pick(items, index) case Some(h) => [Block(c, h)] case None => [])
  {
    r := blocks;
    if |items| == 0 {
      return;
    }
    var item := items[index % |items|];
    if item.Some? {
      r := r + [Block(c, item.value)];
    }
  }

  /** `buildInjectedBlocks`: the five `add` calls, the `n`-th with `idx(n)`. */
  method BuildInjectedBlocks(asset: TopicAsset, seed: nat) returns (blocks: seq<Block>)
    ensures blocks == Blocks(asset, seed)
  {
    blocks := [];
    assert forall n :: 0 <= n < |Categories| ==> Categories[n].Offset() == n;
    for n := 0 to |Categories|
      invariant blocks == Seqs.FlatMap(BlockOf(asset, seed), Categories[..n])
    {
      Seqs.FlatMapSnoc(BlockOf(asset, seed), Categories, n);
      var c := Categories[n];
      blocks := Add(blocks, asset.Items(c), Idx(seed, n), c);
    }
    assert Categories[..|Categories|] == Categories;
  }

  predicate Increasing(cs: seq<Category>) {
    forall i, j :: 0 <= i < j < |cs| ==> cs[i].Offset() < cs[j].Offset()
  }

  /** Over increasing categories: at most one block each, in category order, each of its category. */
  lemma {:induction false} BlocksFromOrdered(asset: TopicAsset, seed: nat, cs: seq<Category>)
    requires Increasing(cs)
    ensures var bs := Seqs.FlatMap(BlockOf(asset, seed), cs);
      |bs| <= |cs|
      && (forall k :: 0 <= k < |bs| ==> bs[k].category in cs)
      && forall i, j :: 0 <= i < j < |bs| ==> bs[i].category.Offset() < bs[j].category.Offset()
  {
    if cs != [] {
      var n := |cs| - 1;
      var init := cs[..n];
      BlocksFromOrdered(asset, seed, init);
      var a := Seqs.FlatMap(BlockOf(asset, seed), init);
      var b := BlockFor(asset, seed, cs[n]);
      var bs := Seqs.FlatMap(BlockOf(asset, seed), cs);
      assert bs == a + b;
      assert forall k :: 0 <= k < |a| ==> a[k].category in init && a[k].category.Offset() < cs[n].Offset();
    }
  }

  /** At most one block per category, in the fixed order. */
  lemma BlocksOrdered(asset: TopicAsset, seed: nat)
    ensures |Blocks(asset, seed)| <= 5
    ensures forall i, j :: 0 <= i < j < |Blocks(asset, seed)| ==>
      Blocks(asset, seed)[i].category.Offset() < Blocks(asset, seed)[j].category.Offset()
  {
    BlocksFromOrdered(asset, seed, Categories);
  }

  /** A category contributes a block exactly when its list is non-empty and the picked item is truthy. */
  lemma BlocksInclude(asset: TopicAsset, seed: nat, c: Category)
    ensures (exists b :: b in Blocks(asset, seed) && b.category == c)
      <==> asset.Items(c) != [] && asset.Items(c)[Idx(seed, c.Offset()) % |asset.Items(c)|].Some?
  {
    var f := BlockOf(asset, seed);
    var own := BlockFor(asset, seed, c);
    assert Categories[c.Offset()] == c;
    if own != [] {
      Seqs.FlatMapMember(f, Categories, own[0]);
      assert own[0] in f(Categories[c.Offset()]);
    }
    if exists b :: b in Blocks(asset, seed) && b.category == c {
      var b :| b in Blocks(asset, seed) && b.category == c;
      Seqs.FlatMapMember(f, Categories, b);
    }
  }

  /** The picked item: `((seed + n) mod 2^32) mod length`. */
  lemma BlockPicks(asset: TopicAsset, seed: nat, b: Block)
    requires b in Blocks(asset, seed)
    ensures var items := asset.Items(b.category);
      items != [] && items[Idx(seed, b.category.Offset()) % |items|] == Some(b.html)
  {
    Seqs.FlatMapMember(BlockOf(asset, seed), Categories, b);
  }

  // -------------------------------------------------- injectBeforeReferences

  /** The length of `\s*` at the start of `t`. */
  function SpaceRun(t: string): (n: nat)
    ensures n <= |t|
  {
    if t != [] && IsSpace(t[0]) then 1 + SpaceRun(t[1..]) else 0
  }

  /** The first `>` in `t` at or after `from`. */
  function FirstGt(t: string, from: nat): (r: Option<nat>)
    ensures r.Some? ==> from <= r.value < |t| && t[r.value] == '>'
    decreases |t| - from
  {
    if from >= |t| then None else if t[from] == '>' then Some(from) else FirstGt(t, from + 1)
  }

  /** A literal at the start of `t`, compared case-insensitively when `ci`. */
  predicate LitAt(t: string, lit: string, ci: bool) {
    |lit| <= |t| && (if ci then Lower(t[..|lit|]) == Lower(lit) else t[..|lit|] == lit)
  }

  /**
   * The length of a match of `<h2[^>]*>\s*WORD\s*<\/h2>` at the start of
   * `t`, if there is one. Every part of the pattern has one way to match,
   * so the match is determined by its start.
   */
  function HeadingMatch(t: string, word: string, ci: bool): (r: Option<nat>)
    ensures r.Some? ==> 0 < r.value <= |t|
  {
    if !LitAt(t, "<h2", ci) then None
    else match FirstGt(t, 3)
      case None => None
      case Some(g) =>
        var k := g + 1 + SpaceRun(t[g + 1..]);
        if !LitAt(t[k..], word, ci) then None
        else
          var k2 := k + |word| + SpaceRun(t[k + |word|..]);
          if LitAt(t[k2..], "</h2>", ci) then Some(k2 + 5) else None
  }

  /** The match at position `i` of `s`, as an absolute end position. */
  function MatchEnd(s: string, i: nat, word: string, ci: bool): (r: Option<nat>)
    ensures r.Some? ==> i < r.value <= |s|
  {
    if i > |s| then None
    else match HeadingMatch(s[i..], word, ci)
      case Some(n) => Some(i + n)
      case None => None
  }

  /** The next start the global regex finds at or after `pos`. */
  function NextMatch(s: string, pos: nat, word: string, ci: bool): (r: Option<nat>)
    ensures r.Some? ==> pos <= r.value < |s| && MatchEnd(s, r.value, word, ci).Some?
    ensures r.None? ==> forall k :: pos <= k < |s| ==> MatchEnd(s, k, word, ci).None?
    ensures r.Some? ==> forall k :: pos <= k < r.value ==> MatchEnd(s, k, word, ci).None?
    decreases |s| - pos
  {
    if pos >= |s| then None
    else if MatchEnd(s, pos, word, ci).Some? then Some(pos)
    else NextMatch(s, pos + 1, word, ci)
  }

  /**
   * The `while (re.exec(html))` loop from `pos`: `lastIndex` ends as the
   * start of the last match of the chain, each search resuming where the
   * previous match ended.
   */
  function LastMatch(s: string, pos: nat, word: string, ci: bool, last: int): (r: int)
    ensures r == last || (pos <= r < |s| && MatchEnd(s, r, word, ci).Some?)
    decreases |s| - pos
  {
    match NextMatch(s, pos, word, ci)
    case None => last
    case Some(k) => LastMatch(s, MatchEnd(s, k, word, ci).value, word, ci, k)
  }

  /**
   * The search finds a start exactly when some match exists; that start
   * matches, and no match starts after the end of its match.
   */
  lemma {:induction false} LastMatchSpec(s: string, pos: nat, word: string, ci: bool, last: int)
    requires last >= 0 ==> MatchEnd(s, last, word, ci).Some? && MatchEnd(s, last, word, ci).value <= pos
    ensures var r := LastMatch(s, pos, word, ci, last);
      (r >= 0 <==> last >= 0 || exists k :: pos <= k < |s| && MatchEnd(s, k, word, ci).Some?)
      && (r >= 0 ==> (MatchEnd(s, r, word, ci).Some?
                  && forall k :: MatchEnd(s, r, word, ci).value <= k < |s| && pos <= k ==> MatchEnd(s, k, word, ci).None?))
    decreases |s| - pos
  {
    match NextMatch(s, pos, word, ci)
    case None =>
    case Some(k) =>
      LastMatchSpec(s, MatchEnd(s, k, word, ci).value, word, ci, k);
  }

  /** `html.slice(0, i) + injected + "\n\n" + html.slice(i)`. */
  function InsertAt(html: string, i: nat, injected: string): (r: string)
    requires i <= |html|
    ensures |r| == |html| + |injected| + 2
  {
    html[..i] + injected + "\n\n" + html[i..]
  }

  const MidCta: string := "</div>\n      </section>\n\n      <!-- mid-cta"
  const English: string := "References"
  const Japanese: string := "参考文献"

  /** The first `</div>\s*</section>`: its start and end. */
  function CloseAt(s: string, i: nat): (r: Option<nat>)
    ensures r.Some? ==> i < r.value <= |s|
  {
    if !MatchAt(s, "</div>", i) then None
    else
      var k := i + 6 + SpaceRun(s[i + 6..]);
      if MatchAt(s, "</section>", k) then Some(k + 10) else None
  }

  function FirstClose(s: string, pos: nat): (r: Option<(nat, nat)>)
    ensures r.Some? ==> pos <= r.value.0 < r.value.1 <= |s| && CloseAt(s, r.value.0) == Some(r.value.1)
    ensures r.None? ==> forall k :: pos <= k < |s| ==> CloseAt(s, k).None?
    decreases |s| - pos
  {
    if pos >= |s| then None
    else match CloseAt(s, pos)
      case Some(e) => Some((pos, e))
      case None => FirstClose(s, pos + 1)
  }

  /** Where the blocks go, in the order the source tries its anchors. */
  datatype Anchor = BeforeHeading(at: nat) | BeforeMidCta(at: nat) | ReplaceClose(from: nat, to: nat) | NoAnchor

  /** The anchor chosen from the four searches' results, in the order they are tried. */
  function AnchorFrom(en: int, ja: int, p: int, close: Option<(nat, nat)>): Anchor {
    if en >= 0 then BeforeHeading(en)
    else if ja >= 0 then BeforeHeading(ja)
    else if p >= 0 then BeforeMidCta(p)
    else match close
      case Some((i, e)) => ReplaceClose(i, e)
      case None => NoAnchor
  }

  function AnchorOf(html: string): (a: Anchor)
    ensures a.BeforeHeading? || a.BeforeMidCta? ==> a.at < |html|
    ensures a.ReplaceClose? ==> a.from < a.to <= |html|
  {
    AnchorFrom(LastMatch(html, 0, English, true, -1), LastMatch(html, 0, Japanese, false, -1),
               IndexOf(html, MidCta, 0), FirstClose(html, 0))
  }

  /** `injectBeforeReferences`. */
  function InjectBeforeReferences(html: string, injected: string): string {
    match AnchorOf(html)
    case BeforeHeading(i) => InsertAt(html, i, injected)
    case BeforeMidCta(i) => InsertAt(html, i, injected)
    case ReplaceClose(i, e) => html[..i] + injected + "\n\n</div>\n</section>" + html[e..]
    case NoAnchor => html
  }

  /**
   * A References heading (English first, case-insensitive, then Japanese)
   * decides the place: the start of the last heading the search finds.
   */
  lemma HeadingFirst(html: string, injected: string, word: string, ci: bool)
    requires (word, ci) == (English, true) || (word, ci) == (Japanese, false)
    requires (word, ci) == (Japanese, false) ==> forall k :: 0 <= k < |html| ==> MatchEnd(html, k, English, true).None?
    requires exists k :: 0 <= k < |html| && MatchEnd(html, k, word, ci).Some?
    ensures var i := LastMatch(html, 0, word, ci, -1);
      0 <= i < |html| && MatchEnd(html, i, word, ci).Some?
      && (forall k :: MatchEnd(html, i, word, ci).value <= k < |html| ==> MatchEnd(html, k, word, ci).None?)
      && InjectBeforeReferences(html, injected) == InsertAt(html, i, injected)
  {
    LastMatchSpec(html, 0, English, true, -1);
    LastMatchSpec(html, 0, word, ci, -1);
  }

  /** Without any anchor the page is returned unchanged. */
  lemma NoAnchorUnchanged(html: string, injected: string)
    requires forall k :: 0 <= k < |html| ==> MatchEnd(html, k, English, true).None? && MatchEnd(html, k, Japanese, false).None?
    requires !Contains(html, MidCta)
    requires forall k :: 0 <= k < |html| ==> CloseAt(html, k).None?
    ensures InjectBeforeReferences(html, injected) == html
  {
    LastMatchSpec(html, 0, English, true, -1);
    LastMatchSpec(html, 0, Japanese, false, -1);
    ContainsIffIndexOf(html, MidCta);
  }

  /** An insertion keeps the page around the insert: removing it gives the page back. */
  lemma InsertKeeps(html: string, i: nat, injected: string)
    requires i <= |html|
    ensures var r := InsertAt(html, i, injected);
      r[..i] == html[..i] && r[i..i + |injected| + 2] == injected + "\n\n" && r[i + |injected| + 2..] == html[i..]
  {
  }

  /** The matcher looks only at the text from its start on. */
  lemma MatchEndShift(s: string, i: nat, t: string, j: nat, word: string, ci: bool)
    requires i <= |s| && j <= |t| && s[i..] == t[j..]
    ensures MatchEnd(s, i, word, ci).Some? <==> MatchEnd(t, j, word, ci).Some?
  {
  }

  /** A heading match survives in a text that keeps everything from it on. */
  lemma MatchPersists(html: string, r: string, i: nat, d: nat, word: string, ci: bool)
    requires i < |html| && MatchEnd(html, i, word, ci).Some?
    requires i + d <= |r| && r[i + d..] == html[i..]
    ensures LastMatch(r, 0, word, ci, -1) >= 0
  {
    MatchEndShift(html, i, r, i + d, word, ci);
    LastMatchSpec(r, 0, word, ci, -1);
  }

  /** The marker survives the same way. */
  lemma MarkerPersists(html: string, r: string, i: nat, d: nat)
    requires IndexOf(html, MidCta, 0) == i
    requires i + d <= |r| && r[i + d..] == html[i..]
    ensures IndexOf(r, MidCta, 0) >= 0
  {
    assert r[i + d..i + d + |MidCta|] == html[i..i + |MidCta|];
    assert MatchAt(r, MidCta, i + d);
    IndexOfFirst(r, MidCta, 0);
  }

  /** Which search found the anchor the blocks go before. */
  lemma AnchorCases(html: string)
    requires AnchorOf(html).BeforeHeading? || AnchorOf(html).BeforeMidCta?
    ensures var i := AnchorOf(html).at;
      ((LastMatch(html, 0, English, true, -1) == i && MatchEnd(html, i, English, true).Some?)
          || (LastMatch(html, 0, Japanese, false, -1) == i && MatchEnd(html, i, Japanese, false).Some?)
          || IndexOf(html, MidCta, 0) == i)
  {
    var en := LastMatch(html, 0, English, true, -1);
    var ja := LastMatch(html, 0, Japanese, false, -1);
    var p := IndexOf(html, MidCta, 0);
    AnchorFromCases(en, ja, p, FirstClose(html, 0));
  }

  lemma AnchorFromCases(en: int, ja: int, p: int, close: Option<(nat, nat)>)
    ensures var a := AnchorFrom(en, ja, p, close);
      a.BeforeHeading? || a.BeforeMidCta? ==>
        (en >= 0 && a.at == en) || (ja >= 0 && a.at == ja) || (p >= 0 && a.at == p)
  {
  }

  /** Any of the first three anchors puts the blocks before an anchor. */
  lemma AnchorKinds(html: string)
    requires LastMatch(html, 0, English, true, -1) >= 0 || LastMatch(html, 0, Japanese, false, -1) >= 0
      || IndexOf(html, MidCta, 0) >= 0
    ensures AnchorOf(html).BeforeHeading? || AnchorOf(html).BeforeMidCta?
  {
  }

  /** An anchor in front of which the blocks went is still there afterwards, shifted. */
  lemma {:induction false} AnchorSurvives(html: string, injected: string)
    requires AnchorOf(html).BeforeHeading? || AnchorOf(html).BeforeMidCta?
    ensures var r := InjectBeforeReferences(html, injected);
      AnchorOf(r).BeforeHeading? || AnchorOf(r).BeforeMidCta?
  {
    var i := AnchorOf(html).at;
    AnchorCases(html);
    var r := InsertAt(html, i, injected);
    var d := |injected| + 2;
    assert InjectBeforeReferences(html, injected) == r;
    InsertKeeps(html, i, injected);
    if LastMatch(html, 0, English, true, -1) == i && MatchEnd(html, i, English, true).Some? {
      MatchPersists(html, r, i, d, English, true);
    } else if LastMatch(html, 0, Japanese, false, -1) == i && MatchEnd(html, i, Japanese, false).Some? {
      MatchPersists(html, r, i, d, Japanese, false);
    } else {
      MarkerPersists(html, r, i, d);
    }
    AnchorKinds(r);
  }

  /**
   * Nothing marks a page as already injected: a page with a References
   * heading or the mid-cta marker gains the blocks again on every run.
   */
  lemma InjectAgain(html: string, injected: string)
    requires AnchorOf(html).BeforeHeading? || AnchorOf(html).BeforeMidCta?
    ensures var once := InjectBeforeReferences(html, injected);
      |InjectBeforeReferences(once, injected)| == |once| + |injected| + 2 == |html| + 2 * (|injected| + 2)
  {
    AnchorSurvives(html, injected);
  }

  // ------------------------------------------------------------------ main

  /** The joined html of the blocks. */
  function Injected(blocks: seq<Block>): string {
    Join(BlockHtmls(blocks), "\n\n")
  }

  function BlockHtmls(blocks: seq<Block>): (r: seq<string>)
    ensures |r| == |blocks|
  {
    if blocks == [] then [] else BlockHtmls(blocks[..|blocks| - 1]) + [blocks[|blocks| - 1].html]
  }

  /** The run state: the page files (by final slug) and the `injected` count. */
  datatype State = State(files: map<string, string>, injected: nat)

  /** What happens to one page: skipped without an asset, with fewer than two blocks or without a file. */
  function Step(assets: map<AssetKey, TopicAsset>, st: State, p: PseoPage): State {
    var key := PageKey(p);
    if key !in assets then st
    else
      var blocks := Blocks(assets[key], HashOf(Utf16(p.finalSlug)));
      if |blocks| < 2 || p.finalSlug !in st.files then st
      else State(st.files[p.finalSlug := InjectBeforeReferences(st.files[p.finalSlug], Injected(blocks))], st.injected + 1)
  }

  function StepAll(assets: map<AssetKey, TopicAsset>, st: State, pages: seq<PseoPage>): State {
    if pages == [] then st else Step(assets, StepAll(assets, st, pages[..|pages| - 1]), pages[|pages| - 1])
  }

  datatype Outcome = PagesMissing | Done(files: map<string, string>, injected: nat) {
    function ExitCode(): nat {
      if PagesMissing? then 1 else 0
    }
  }

  method InjectPage(assets: map<AssetKey, TopicAsset>, st: State, p: PseoPage) returns (r: State)
    ensures r == Step(assets, st, p)
  {
    r := st;
    var key := TopicToAssetKey(p.finalSlug, p.topic.GetOr([]));
    if key !in assets {
      return;
    }
    var seed := SimpleHash(p.finalSlug);
    var blocks := BuildInjectedBlocks(assets[key], seed);
    if |blocks| < 2 {
      return;
    }
    if p.finalSlug !in st.files {
      return;
    }
    var html := InjectBeforeReferences(st.files[p.finalSlug], Injected(blocks));
    r := State(st.files[p.finalSlug := html], st.injected + 1);
  }

  /** `main`: a missing page list exits 1; otherwise the pages are processed in order. */
  method Run(pages: Option<seq<PseoPage>>, assets: map<AssetKey, TopicAsset>, files: map<string, string>)
    returns (out: Outcome)
    ensures pages.None? <==> out.PagesMissing?
    ensures pages.Some? ==> out == Done(StepAll(assets, State(files, 0), pages.value).files,
                                        StepAll(assets, State(files, 0), pages.value).injected)
  {
    if pages.None? {
      return PagesMissing;
    }
    var ps := pages.value;
    var st := State(files, 0);
    for i := 0 to |ps|
      invariant st == StepAll(assets, State(files, 0), ps[..i])
    {
      assert ps[..i + 1][..i] == ps[..i];
      st := InjectPage(assets, st, ps[i]);
    }
    assert ps[..|ps|] == ps;
    out := Done(st.files, st.injected);
  }

  /** A skipped page changes nothing. */
  lemma StepSkips(assets: map<AssetKey, TopicAsset>, st: State, p: PseoPage)
    requires PageKey(p) !in assets
      || |Blocks(assets[PageKey(p)], HashOf(Utf16(p.finalSlug)))| < 2
      || p.finalSlug !in st.files
    ensures Step(assets, st, p) == st
  {
  }

  /** A processed page touches only its own file, and only by injecting. */
  lemma StepTouchesOwnFile(assets: map<AssetKey, TopicAsset>, st: State, p: PseoPage)
    ensures var r := Step(assets, st, p);
      r.files.Keys == st.files.Keys
      && (forall f :: f in st.files && f != p.finalSlug ==> r.files[f] == st.files[f])
      && (r.injected == st.injected || (r.injected == st.injected + 1 && p.finalSlug in st.files))
  {
  }

  /** At most one update per page, and the set of files never changes. */
  lemma {:induction false} StepAllBound(assets: map<AssetKey, TopicAsset>, st: State, pages: seq<PseoPage>)
    ensures StepAll(assets, st, pages).injected <= st.injected + |pages|
    ensures StepAll(assets, st, pages).files.Keys == st.files.Keys
  {
    if pages != [] {
      StepAllBound(assets, st, pages[..|pages| - 1]);
      StepTouchesOwnFile(assets, StepAll(assets, st, pages[..|pages| - 1]), pages[|pages| - 1]);
    }
  }
}
