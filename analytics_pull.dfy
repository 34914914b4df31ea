/**
 * The metrics pull: page views per path from the analytics provider, CTA
 * clicks and form submissions per path from the events export, merged into
 * one record per path with a trailing slash. The provider's answer (or its
 * failure), the parsed export and the environment's day count arrive as
 * values; the network call, the clock and the file writes are left out.
 */
module AnalyticsPull {
  import opened Wrappers
  import opened Strings
  import Generate
  import Prioritize

  const DefaultDays: int := 28

  function Norm(p: string): string {
    Prioritize.NormalizePath(p)
  }

  // ---------------------------------------------------------------------
  // Generic per-key sums
  // ---------------------------------------------------------------------

  function GetOr(m: map<string, nat>, k: string): nat {
    if k in m then m[k] else 0
  }

  /** Adds `w(x)` under `key(x)` when `x` has a key. */
  function AddOne<T>(m: map<string, nat>, key: T -> Option<string>, w: T -> nat, x: T): map<string, nat> {
    match key(x)
    case Some(k) => m[k := GetOr(m, k) + w(x)]
    case None => m
  }

  /** Adds `w(x)` under `key(x)` for every element that has a key, in order. */
  function AddAll<T>(xs: seq<T>, key: T -> Option<string>, w: T -> nat): map<string, nat> {
    if xs == [] then map[] else AddOne(AddAll(xs[..|xs| - 1], key, w), key, w, xs[|xs| - 1])
  }

  /** The step a loop over `xs` takes at element `i`. */
  lemma AddAllStep<T>(xs: seq<T>, key: T -> Option<string>, w: T -> nat, i: nat)
    requires i < |xs|
    ensures AddAll(xs[..i + 1], key, w) == AddOne(AddAll(xs[..i], key, w), key, w, xs[i])
  {
    assert xs[..i + 1][..i] == xs[..i];
  }

  /** The sum of `w` over the elements whose key is `k`: a reference definition, key by key. */
  function SumFor<T>(xs: seq<T>, key: T -> Option<string>, w: T -> nat, k: string): nat {
    if xs == [] then 0
    else SumFor(xs[..|xs| - 1], key, w, k) + (if key(xs[|xs| - 1]) == Some(k) then w(xs[|xs| - 1]) else 0)
  }

  /** A key is present exactly when some element carries it, and holds the sum of that key's weights. */
  lemma {:induction false} AddAllSpec<T>(xs: seq<T>, key: T -> Option<string>, w: T -> nat, k: string)
    ensures k in AddAll(xs, key, w) <==> exists i :: 0 <= i < |xs| && key(xs[i]) == Some(k)
    ensures GetOr(AddAll(xs, key, w), k) == SumFor(xs, key, w, k)
  {
    if xs != [] {
      var n := |xs| - 1;
      AddAllSpec(xs[..n], key, w, k);
      if exists i :: 0 <= i < n && key(xs[..n][i]) == Some(k) {
        var i :| 0 <= i < n && key(xs[..n][i]) == Some(k);
        assert xs[i] == xs[..n][i];
      }
      if exists i :: 0 <= i < |xs| && key(xs[i]) == Some(k) {
        var i :| 0 <= i < |xs| && key(xs[i]) == Some(k);
        if i < n {
          assert key(xs[..n][i]) == Some(k);
        }
      }
    }
  }

  // ---------------------------------------------------------------------
  // fetchCloudflarePageviews: visits per normalised path
  // ---------------------------------------------------------------------

  /** One group of the provider's answer: the request path and the visit sum, either possibly missing. */
  datatype Group = Group(path: Option<string>, visits: Option<nat>)

  /** The normalised path of a group, none for a missing or empty path (such groups are skipped). */
  function GroupKey(g: Group): Option<string> {
    var path := if g.path.Some? then g.path.value else "";
    if path == "" then None else Some(Norm(path))
  }

  function GroupVisits(g: Group): nat {
    if g.visits.Some? then g.visits.value else 0
  }

  function Visits(groups: seq<Group>): map<string, nat> {
    AddAll(groups, GroupKey, GroupVisits)
  }

  /** The summing loop of `fetchCloudflarePageviews`. */
  method SumVisits(groups: seq<Group>) returns (byPath: map<string, nat>)
    ensures byPath == Visits(groups)
  {
    byPath := map[];
    for i := 0 to |groups|
      invariant byPath == AddAll(groups[..i], GroupKey, GroupVisits)
    {
      AddAllStep(groups, GroupKey, GroupVisits, i);
      byPath := AddGroup(byPath, groups[i]);
    }
    assert groups[..|groups|] == groups;
  }

  /** One turn of the summing loop: a group with a path adds its visits under the normalised path. */
  method AddGroup(byPath: map<string, nat>, g: Group) returns (r: map<string, nat>)
    ensures r == AddOne(byPath, GroupKey, GroupVisits, g)
  {
    var path := if g.path.Some? then g.path.value else "";
    if path == "" {
      return byPath;
    }
    var normalized := if EndsWith(path, "/") then path else path + "/";
    r := byPath[normalized := (if normalized in byPath then byPath[normalized] else 0) + GroupVisits(g)];
  }

  /**
   * Every key ends in a slash and is the normalised path of some group with
   * a non-empty path; its value is the sum of those groups' visits, a
   * missing visit sum counting 0.
   */
  lemma VisitsSpec(groups: seq<Group>, k: string)
    ensures k in Visits(groups) <==> exists i :: 0 <= i < |groups| && GroupKey(groups[i]) == Some(k)
    ensures k in Visits(groups) ==> EndsWith(k, "/") && Visits(groups)[k] == SumFor(groups, GroupKey, GroupVisits, k)
  {
    AddAllSpec(groups, GroupKey, GroupVisits, k);
  }

  // ---------------------------------------------------------------------
  // loadEventsExport
  // ---------------------------------------------------------------------

  datatype Counts = Counts(ctaClicks: nat, formSubmits: nat)

  /** A row of the `by_path` form, either count possibly missing. */
  datatype RawCounts = RawCounts(ctaClicks: Option<nat>, formSubmits: Option<nat>)

  /** An event of the `events` form. */
  datatype Event = Event(path: string, eventType: string, count: Option<nat>)

  /** What the export file holds. */
  datatype EventsExport =
    | NoFile
    | ByPathForm(entries: seq<(string, RawCounts)>)
    | EventsForm(events: seq<Event>)
    | OtherShape

  function OrZero(n: Option<nat>): nat {
    if n.Some? then n.value else 0
  }

  /** `by_path` form: one assignment per entry, key normalised, missing counts 0; a later entry wins. */
  function ByPathEntry(e: (string, RawCounts)): Option<(string, Counts)> {
    Some((Norm(e.0), Counts(OrZero(e.1.ctaClicks), OrZero(e.1.formSubmits))))
  }

  function ByPathEntries(entries: seq<(string, RawCounts)>): (r: seq<Option<(string, Counts)>>)
    ensures |r| == |entries| && forall i :: 0 <= i < |entries| ==> r[i] == ByPathEntry(entries[i])
  {
    seq(|entries|, i requires 0 <= i < |entries| => ByPathEntry(entries[i]))
  }

  function FromByPath(entries: seq<(string, RawCounts)>): map<string, Counts> {
    Generate.Assign(ByPathEntries(entries))
  }

  method LoadByPath(entries: seq<(string, RawCounts)>) returns (out: map<string, Counts>)
    ensures out == FromByPath(entries)
  {
    out := map[];
    for i := 0 to |entries|
      invariant out == Generate.Assign(ByPathEntries(entries)[..i])
    {
      var (p, v) := entries[i];
      var key := if EndsWith(p, "/") then p else p + "/";
      var es := ByPathEntries(entries);
      assert es[..i + 1] == es[..i] + [Some((key, Counts(OrZero(v.ctaClicks), OrZero(v.formSubmits))))];
      Generate.AssignSnoc(es[..i], key, Counts(OrZero(v.ctaClicks), OrZero(v.formSubmits)));
      out := out[key := Counts(OrZero(v.ctaClicks), OrZero(v.formSubmits))];
    }
    assert ByPathEntries(entries)[..|entries|] == ByPathEntries(entries);
  }

  /**
   * A key is present exactly when some entry's path normalises to it, and it
   * holds the counts of the last such entry, a missing count read as 0.
   */
  lemma FromByPathSpec(entries: seq<(string, RawCounts)>, k: string)
    ensures k in FromByPath(entries) <==> exists i :: 0 <= i < |entries| && Norm(entries[i].0) == k
    ensures k in FromByPath(entries) ==>
      exists i :: (0 <= i < |entries| && Norm(entries[i].0) == k
        && FromByPath(entries)[k] == Counts(OrZero(entries[i].1.ctaClicks), OrZero(entries[i].1.formSubmits))
        && forall j :: i < j < |entries| ==> Norm(entries[j].0) != k)
  {
    FromByPathHas(entries, k);
    if k in FromByPath(entries) {
      FromByPathLast(entries, k);
    }
  }

  lemma FromByPathHas(entries: seq<(string, RawCounts)>, k: string)
    ensures k in FromByPath(entries) <==> exists i :: 0 <= i < |entries| && Norm(entries[i].0) == k
  {
    var es := ByPathEntries(entries);
    Generate.AssignHas(es, k);
    if exists i :: 0 <= i < |entries| && Norm(entries[i].0) == k {
      var i :| 0 <= i < |entries| && Norm(entries[i].0) == k;
      assert Generate.SetsKey(es, i, k);
    }
  }

  lemma FromByPathLast(entries: seq<(string, RawCounts)>, k: string)
    requires k in FromByPath(entries)
    ensures exists i :: (0 <= i < |entries| && Norm(entries[i].0) == k
        && FromByPath(entries)[k] == Counts(OrZero(entries[i].1.ctaClicks), OrZero(entries[i].1.formSubmits))
        && forall j :: i < j < |entries| ==> Norm(entries[j].0) != k)
  {
    var es := ByPathEntries(entries);
    Generate.AssignLast(es, k);
    var i :| Generate.LastSets(es, i, k, FromByPath(entries)[k]);
    forall j | i < j < |entries| ensures Norm(entries[j].0) != k {
      assert !Generate.SetsKey(es, j, k);
    }
  }

  const CtaClick := "cta_click"
  const FormSubmit := "form_submit"

  function EventKey(e: Event): Option<string> {
    Some(Norm(e.path))
  }

  /** `count ?? 1` for an event of the given type, 0 for any other event. */
  function Weight(eventType: string): Event -> nat {
    (e: Event) => if e.eventType == eventType then (if e.count.Some? then e.count.value else 1) else 0
  }

  /** Two per-key sums at once; every key seen gets an entry, even with zero weights. */
  function Tally<T>(xs: seq<T>, key: T -> Option<string>, a: T -> nat, b: T -> nat): map<string, Counts> {
    if xs == [] then map[]
    else
      var m := Tally(xs[..|xs| - 1], key, a, b);
      var x := xs[|xs| - 1];
      match key(x)
      case Some(k) => m[k := Add(CountsOr(m, k), a(x), b(x))]
      case None => m
  }

  function CountsOr(m: map<string, Counts>, k: string): Counts {
    if k in m then m[k] else Counts(0, 0)
  }

  function Add(c: Counts, a: nat, b: nat): Counts {
    Counts(c.ctaClicks + a, c.formSubmits + b)
  }

  /** One more element adds its two weights under its key, creating the entry if needed. */
  lemma TallyStep<T>(xs: seq<T>, key: T -> Option<string>, a: T -> nat, b: T -> nat, i: nat, k: string)
    requires i < |xs| && key(xs[i]) == Some(k)
    ensures Tally(xs[..i + 1], key, a, b) == Tally(xs[..i], key, a, b)[k := Add(CountsOr(Tally(xs[..i], key, a, b), k), a(xs[i]), b(xs[i]))]
  {
    assert xs[..i + 1][..i] == xs[..i];
  }

  /** Tallying is the two per-key sums, over exactly the keys seen. */
  lemma {:induction false} TallySpec<T>(xs: seq<T>, key: T -> Option<string>, a: T -> nat, b: T -> nat, k: string)
    ensures k in Tally(xs, key, a, b) <==> exists i :: 0 <= i < |xs| && key(xs[i]) == Some(k)
    ensures CountsOr(Tally(xs, key, a, b), k) == Counts(SumFor(xs, key, a, k), SumFor(xs, key, b, k))
  {
    if xs != [] {
      var n := |xs| - 1;
      TallySpec(xs[..n], key, a, b, k);
      if exists i :: 0 <= i < n && key(xs[..n][i]) == Some(k) {
        var i :| 0 <= i < n && key(xs[..n][i]) == Some(k);
        assert xs[i] == xs[..n][i];
      }
      if exists i :: 0 <= i < |xs| && key(xs[i]) == Some(k) {
        var i :| 0 <= i < |xs| && key(xs[i]) == Some(k);
        if i < n {
          assert key(xs[..n][i]) == Some(k);
        }
      }
    }
  }

  function FromEvents(events: seq<Event>): map<string, Counts> {
    Tally(events, EventKey, Weight(CtaClick), Weight(FormSubmit))
  }

  /** The loop over the events of the `events` form. */
  method LoadEvents(events: seq<Event>) returns (out: map<string, Counts>)
    ensures out == FromEvents(events)
  {
    out := map[];
    for i := 0 to |events|
      invariant out == Tally(events[..i], EventKey, Weight(CtaClick), Weight(FormSubmit))
    {
      TallyStep(events, EventKey, Weight(CtaClick), Weight(FormSubmit), i, Norm(events[i].path));
      out := CountEvent(out, events[i]);
    }
    assert events[..|events|] == events;
  }

  /** One event of the loop: its entry is created if missing, then the counter of its type grows. */
  method CountEvent(out0: map<string, Counts>, e: Event) returns (out: map<string, Counts>)
    ensures out == out0[Norm(e.path) := Add(CountsOr(out0, Norm(e.path)), Weight(CtaClick)(e), Weight(FormSubmit)(e))]
  {
    out := out0;
    var key := if EndsWith(e.path, "/") then e.path else e.path + "/";
    if key !in out {
      out := out[key := Counts(0, 0)];
    }
    var add := if e.count.Some? then e.count.value else 1;
    ghost var before := out[key];
    assert out == out0[key := before];
    if e.eventType == CtaClick {
      out := out[key := Counts(out[key].ctaClicks + add, out[key].formSubmits)];
    } else if e.eventType == FormSubmit {
      out := out[key := Counts(out[key].ctaClicks, out[key].formSubmits + add)];
    }
    assert out == out0[key := out[key]];
    assert key == Norm(e.path) && before == CountsOr(out0, key);
    WeightOf(CtaClick, e);
    WeightOf(FormSubmit, e);
    assert CtaClick != FormSubmit by {
      assert CtaClick[0] != FormSubmit[0];
    }
  }

  lemma WeightOf(eventType: string, e: Event)
    ensures Weight(eventType)(e) == if e.eventType == eventType then (if e.count.Some? then e.count.value else 1) else 0
  {
  }

  /** Every event's normalised path gets an entry, and only those. */
  lemma FromEventsKeys(events: seq<Event>, k: string)
    ensures k in FromEvents(events) <==> exists i :: 0 <= i < |events| && Norm(events[i].path) == k
    ensures k in FromEvents(events) ==> EndsWith(k, "/")
  {
    TallySpec(events, EventKey, Weight(CtaClick), Weight(FormSubmit), k);
    if k in FromEvents(events) {
      var i :| 0 <= i < |events| && EventKey(events[i]) == Some(k);
    }
  }

  /**
   * A path's CTA clicks are the sum of the counts of its `cta_click`
   * events, a missing count taken as 1; no other event adds to them.
   */
  lemma FromEventsCta(events: seq<Event>, k: string)
    ensures CountsOr(FromEvents(events), k).ctaClicks == SumFor(events, EventKey, Weight(CtaClick), k)
  {
    TallySpec(events, EventKey, Weight(CtaClick), Weight(FormSubmit), k);
  }

  /**
   * A path's form submissions are the sum of the counts of its
   * `form_submit` events, a missing count taken as 1; no other event adds
   * to them.
   */
  lemma FromEventsForm(events: seq<Event>, k: string)
    ensures CountsOr(FromEvents(events), k).formSubmits == SumFor(events, EventKey, Weight(FormSubmit), k)
  {
    TallySpec(events, EventKey, Weight(CtaClick), Weight(FormSubmit), k);
  }

  /** `loadEventsExport`: a missing file or an unrecognised shape gives nothing. */
  function EventsByPath(exported: EventsExport): map<string, Counts> {
    match exported
    case NoFile => map[]
    case OtherShape => map[]
    case ByPathForm(entries) => FromByPath(entries)
    case EventsForm(events) => FromEvents(events)
  }

  /** Every key of the export's result ends in a slash. */
  lemma EventsByPathKeys(exported: EventsExport, k: string)
    ensures k in EventsByPath(exported) ==> EndsWith(k, "/")
    ensures exported.NoFile? || exported.OtherShape? ==> EventsByPath(exported) == map[]
  {
    match exported
    case ByPathForm(entries) =>
      FromByPathSpec(entries, k);
    case EventsForm(events) =>
      FromEventsKeys(events, k);
    case _ =>
  }

  // ---------------------------------------------------------------------
  // pullMetrics
  // ---------------------------------------------------------------------

  /** `days ?? (parseInt(env) || 28)`: an absent, unparsable or zero environment value gives 28. */
  function Days(option: Option<int>, parsedEnv: Option<int>): (r: int)
    ensures option.Some? ==> r == option.value
    ensures option.None? && parsedEnv.Some? && parsedEnv.value != 0 ==> r == parsedEnv.value
    ensures option.None? && (parsedEnv.None? || parsedEnv.value == 0) ==> r == DefaultDays
  {
    if option.Some? then option.value
    else if parsedEnv.Some? && parsedEnv.value != 0 then parsedEnv.value
    else DefaultDays
  }

  /** Keys of both maps, each ending in a slash as their producers guarantee. */
  predicate NormalisedKeys(pv: map<string, nat>, ev: map<string, Counts>) {
    (forall k :: k in pv ==> EndsWith(k, "/")) && (forall k :: k in ev ==> EndsWith(k, "/"))
  }

  function Row(pv: map<string, nat>, ev: map<string, Counts>, k: string): Prioritize.Metrics {
    Prioritize.Metrics(GetOr(pv, k),
      if k in ev then ev[k].ctaClicks else 0,
      if k in ev then ev[k].formSubmits else 0)
  }

  function Merged(pv: map<string, nat>, ev: map<string, Counts>): map<string, Prioritize.Metrics> {
    map k | k in pv.Keys + ev.Keys :: Row(pv, ev, k)
  }

  /** `m[a] ?? m[b] ?? d`. */
  function FirstOf<V>(m: map<string, V>, a: string, b: string, d: V): V {
    if a in m then m[a] else if b in m then m[b] else d
  }

  /** The merge loop of `pullMetrics`, over every path of either source. */
  method MergeByPath(pv: map<string, nat>, ev: map<string, Counts>) returns (byPath: map<string, Prioritize.Metrics>)
    requires NormalisedKeys(pv, ev)
    ensures byPath == Merged(pv, ev)
  {
    byPath := map[];
    var rest := pv.Keys + ev.Keys;
    ghost var done: set<string> := {};
    while rest != {}
      invariant rest + done == pv.Keys + ev.Keys && rest !! done
      invariant byPath == RowsFor(pv, ev, done)
      decreases rest
    {
      var path :| path in rest;
      var normalized, row := MergeOne(pv, ev, path);
      RowsForAdd(pv, ev, done, path);
      byPath := byPath[normalized := row];
      rest := rest - {path};
      done := done + {path};
    }
    RowsForAll(pv, ev, done);
  }

  /** The records of the paths merged so far. */
  function RowsFor(pv: map<string, nat>, ev: map<string, Counts>, done: set<string>): map<string, Prioritize.Metrics> {
    map k | k in done :: Row(pv, ev, k)
  }

  lemma RowsForAll(pv: map<string, nat>, ev: map<string, Counts>, done: set<string>)
    requires done == pv.Keys + ev.Keys
    ensures RowsFor(pv, ev, done) == Merged(pv, ev)
  {
  }

  /** Merging one more path adds its record. */
  lemma RowsForAdd(pv: map<string, nat>, ev: map<string, Counts>, done: set<string>, path: string)
    ensures RowsFor(pv, ev, done)[path := Row(pv, ev, path)] == RowsFor(pv, ev, done + {path})
  {
  }

  /** One path of the merge: its normalised form is itself, and its record reads both maps. */
  method MergeOne(pv: map<string, nat>, ev: map<string, Counts>, path: string) returns (normalized: string, row: Prioritize.Metrics)
    requires NormalisedKeys(pv, ev) && path in pv.Keys + ev.Keys
    ensures normalized == path && row == Row(pv, ev, path)
  {
    normalized := if EndsWith(path, "/") then path else path + "/";
    var pageviews := FirstOf(pv, normalized, path, 0);
    var counts := FirstOf(ev, normalized, path, Counts(0, 0));
    row := Prioritize.Metrics(pageviews, counts.ctaClicks, counts.formSubmits);
  }

  /** The provider's answer: absent without credentials, else its groups or an error. */
  datatype Provider = NoCredentials | Answered(groups: seq<Group>) | Failed(message: string)

  datatype PulledMetrics = PulledMetrics(days: int, byPath: map<string, Prioritize.Metrics>)

  /** `pullMetrics`: a provider failure leaves page views empty rather than failing the pull. */
  function PullMetrics(option: Option<int>, parsedEnv: Option<int>, provider: Provider, exported: EventsExport): PulledMetrics {
    var pv := if provider.Answered? then Visits(provider.groups) else map[];
    PulledMetrics(Days(option, parsedEnv), Merged(pv, EventsByPath(exported)))
  }

  /**
   * The paths are exactly those with page views or events, each ending in a
   * slash; a count with no source is 0; without an answer from the provider
   * every page-view count is 0.
   */
  lemma PullMetricsSpec(option: Option<int>, parsedEnv: Option<int>, provider: Provider, exported: EventsExport, k: string)
    ensures var pv := if provider.Answered? then Visits(provider.groups) else map[];
      k in PullMetrics(option, parsedEnv, provider, exported).byPath <==> k in pv || k in EventsByPath(exported)
    ensures k in PullMetrics(option, parsedEnv, provider, exported).byPath ==> EndsWith(k, "/")
    ensures !provider.Answered? && k in PullMetrics(option, parsedEnv, provider, exported).byPath ==>
      PullMetrics(option, parsedEnv, provider, exported).byPath[k].pageviews == 0
    ensures k in PullMetrics(option, parsedEnv, provider, exported).byPath && k !in EventsByPath(exported) ==>
      PullMetrics(option, parsedEnv, provider, exported).byPath[k].ctaClicks == 0
      && PullMetrics(option, parsedEnv, provider, exported).byPath[k].formSubmits == 0
  {
    EventsByPathKeys(exported, k);
    if provider.Answered? {
      VisitsSpec(provider.groups, k);
    }
  }
}
