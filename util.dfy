/**
 * Shared vocabulary for the PSEO pipeline model: optional values and
 * results, the JavaScript string operations the scripts lean on
 * (`\s`, trim, split, indexOf, toLowerCase), and the collection idioms
 * they use (`[...new Set(xs)]`, grouping into an insertion-ordered Map,
 * a stable sort by a numeric key, the default string sort).
 */
module Wrappers {
  datatype Option<T> = None | Some(value: T) {
    function GetOr(default: T): T {
      if Some? then value else default
    }
  }

  datatype Result<T, E> = Success(value: T) | Failure(error: E)

  /** The value of the first entry whose key is `k` (a chain of equality tests). */
  function Lookup<K(==), V>(t: seq<(K, V)>, k: K): Option<V> {
    if t == [] then None else if t[0].0 == k then Some(t[0].1) else Lookup(t[1..], k)
  }

  /** A hit is an entry of the table; a miss means no entry has the key. */
  lemma {:induction false} LookupSpec<K, V>(t: seq<(K, V)>, k: K)
    ensures Lookup(t, k).Some? ==> (k, Lookup(t, k).value) in t
    ensures Lookup(t, k).None? <==> forall i :: 0 <= i < |t| ==> t[i].0 != k
  {
    if t != [] && t[0].0 != k {
      LookupSpec(t[1..], k);
      assert forall i :: 1 <= i < |t| ==> t[i] == t[1..][i - 1];
    }
  }

  /** A value no entry carries is never found. */
  lemma {:induction false} LookupAvoids<K, V>(t: seq<(K, V)>, k: K, v: V)
    requires forall i :: 0 <= i < |t| ==> t[i].1 != v
    ensures Lookup(t, k) != Some(v)
  {
    if t != [] && t[0].0 != k {
      assert forall i :: 1 <= i < |t| ==> t[i] == t[1..][i - 1];
      LookupAvoids(t[1..], k, v);
    }
  }

  /** `f` over `xs` in order, stopping at the first failure (a loop whose body may throw). */
  function MapAll<T, R, E>(f: T -> Result<R, E>, xs: seq<T>): Result<seq<R>, E> {
    if xs == [] then Success([])
    else
      var init := MapAll(f, xs[..|xs| - 1]);
      if init.Failure? then init
      else
        var last := f(xs[|xs| - 1]);
        if last.Failure? then Failure(last.error) else Success(init.value + [last.value])
  }

  lemma MapAllSnoc<T, R, E>(f: T -> Result<R, E>, xs: seq<T>, i: nat)
    requires i < |xs| && MapAll(f, xs[..i]).Success?
    ensures MapAll(f, xs[..i + 1])
         == if f(xs[i]).Failure? then Failure(f(xs[i]).error)
            else Success(MapAll(f, xs[..i]).value + [f(xs[i]).value])
  {
    assert xs[..i + 1][..i] == xs[..i];
  }

  /** The first failure ends the whole run with its error. */
  lemma {:induction false} MapAllStop<T, R, E>(f: T -> Result<R, E>, xs: seq<T>, i: nat)
    requires i < |xs| && MapAll(f, xs[..i]).Success? && f(xs[i]).Failure?
    ensures MapAll(f, xs) == Failure(f(xs[i]).error)
    decreases |xs| - i
  {
    if i + 1 == |xs| {
      assert xs[..i] == xs[..|xs| - 1];
    } else {
      var init := xs[..|xs| - 1];
      assert init[..i] == xs[..i] && init[i] == xs[i];
      MapAllStop(f, init, i);
    }
  }

  /** The run fails exactly when some element fails. */
  lemma {:induction false} MapAllFailIff<T, R, E>(f: T -> Result<R, E>, xs: seq<T>)
    ensures MapAll(f, xs).Failure? <==> exists i :: 0 <= i < |xs| && f(xs[i]).Failure?
  {
    if xs != [] {
      var init := xs[..|xs| - 1];
      MapAllFailIff(f, init);
      if exists i :: 0 <= i < |init| && f(init[i]).Failure? {
        var i :| 0 <= i < |init| && f(init[i]).Failure?;
        assert xs[i] == init[i];
      }
      if exists i :: 0 <= i < |xs| && f(xs[i]).Failure? {
        var i :| 0 <= i < |xs| && f(xs[i]).Failure?;
        if i < |init| {
          assert init[i] == xs[i];
        }
      }
    }
  }

  /** A successful run holds one result per element, in order. */
  lemma {:induction false} MapAllSuccess<T, R, E>(f: T -> Result<R, E>, xs: seq<T>)
    requires MapAll(f, xs).Success?
    ensures |MapAll(f, xs).value| == |xs|
    ensures forall i :: 0 <= i < |xs| ==> f(xs[i]).Success? && MapAll(f, xs).value[i] == f(xs[i]).value
  {
    if xs != [] {
      var init := xs[..|xs| - 1];
      MapAllSuccess(f, init);
      forall i | 0 <= i < |init|
        ensures xs[i] == init[i]
      {
      }
    }
  }
}

module Strings {
  /** Membership in JavaScript's `\s` class (the trim set of String.prototype.trim). */
  predicate IsSpace(c: char) {
    c == ' ' || c == '\t' || c == '\n' || c == '\r' || c == '\U{B}' || c == '\U{C}'
    || c == '\U{A0}' || c == '\U{1680}' || ('\U{2000}' <= c <= '\U{200A}')
    || c == '\U{2028}' || c == '\U{2029}' || c == '\U{202F}' || c == '\U{205F}'
    || c == '\U{3000}' || c == '\U{FEFF}'
  }

  /** A line terminator, which the regular-expression `.` does not match. */
  predicate IsLineTerminator(c: char) {
    c == '\n' || c == '\r' || c == '\U{2028}' || c == '\U{2029}'
  }

  function LowerChar(c: char): char {
    if 'A' <= c <= 'Z' then (c as int + 32) as char else c
  }

  /** toLowerCase, restricted to the ASCII letters. */
  function Lower(s: string): (r: string)
    ensures |r| == |s|
  {
    seq(|s|, i requires 0 <= i < |s| => LowerChar(s[i]))
  }

  predicate MatchAt(s: string, p: string, i: int) {
    0 <= i && i + |p| <= |s| && s[i..i + |p|] == p
  }

  /** `s.includes(p)`, or a regular-expression test for the literal `p`. */
  predicate Contains(s: string, p: string) {
    exists i :: 0 <= i <= |s| - |p| && MatchAt(s, p, i)
  }

  /** A test of a regular expression that is an alternation of literals. */
  predicate ContainsAny(s: string, ws: seq<string>) {
    exists w :: w in ws && Contains(s, w)
  }

  lemma LowerConcat(a: string, b: string)
    ensures Lower(a + b) == Lower(a) + Lower(b)
  {
    assert forall i :: 0 <= i < |a + b| ==> Lower(a + b)[i] == (Lower(a) + Lower(b))[i];
  }

  lemma LowerIdempotent(s: string)
    ensures Lower(Lower(s)) == Lower(s)
  {
  }

  /** Lower-casing commutes with collapsing whitespace and with trimming. */
  lemma {:induction false} CollapseLower(s: string)
    ensures CollapseWs(Lower(s)) == Lower(CollapseWs(s))
    decreases |s|
  {
    if s != [] {
      var l := Lower(s);
      assert l[1..] == Lower(s[1..]);
      assert IsSpace(l[0]) == IsSpace(s[0]);
      assert |s| > 1 ==> IsSpace(l[1]) == IsSpace(s[1]);
      CollapseLower(s[1..]);
      var r := CollapseWs(s[1..]);
      if IsSpace(s[0]) && |s| > 1 && IsSpace(s[1]) {
        assert CollapseWs(l) == CollapseWs(l[1..]);
      } else if IsSpace(s[0]) {
        assert CollapseWs(l) == " " + CollapseWs(l[1..]);
        LowerConcat(" ", r);
      } else {
        assert CollapseWs(l) == [l[0]] + CollapseWs(l[1..]);
        LowerConcat([s[0]], r);
      }
    }
  }

  lemma {:induction false} TrimStartLower(s: string)
    ensures TrimStart(Lower(s)) == Lower(TrimStart(s))
    decreases |s|
  {
    if s != [] {
      assert Lower(s)[1..] == Lower(s[1..]);
      TrimStartLower(s[1..]);
    }
  }

  lemma {:induction false} TrimEndLower(s: string)
    ensures TrimEnd(Lower(s)) == Lower(TrimEnd(s))
    decreases |s|
  {
    if s != [] {
      assert Lower(s)[..|s| - 1] == Lower(s[..|s| - 1]);
      TrimEndLower(s[..|s| - 1]);
    }
  }

  predicate StartsWith(s: string, p: string) {
    |p| <= |s| && s[..|p|] == p
  }

  predicate EndsWith(s: string, p: string) {
    |p| <= |s| && s[|s| - |p|..] == p
  }

  /** `s.indexOf(p, from)`: the least match position at or after `from`, else -1. */
  function IndexOf(s: string, p: string, from: nat): (r: int)
    ensures r == -1 || (from <= r && MatchAt(s, p, r))
    decreases |s| - from
  {
    if from + |p| > |s| then -1
    else if MatchAt(s, p, from) then from
    else IndexOf(s, p, from + 1)
  }

  /** No match of `p` lies between `from` and the one `IndexOf` finds. */
  lemma {:induction false} IndexOfFirst(s: string, p: string, from: nat)
    ensures forall k :: from <= k && (IndexOf(s, p, from) == -1 || k < IndexOf(s, p, from)) ==> !MatchAt(s, p, k)
    decreases |s| - from
  {
    if from + |p| <= |s| && !MatchAt(s, p, from) {
      IndexOfFirst(s, p, from + 1);
    }
  }

  /** A text holding `a` holds everything `a` holds. */
  lemma ContainsTrans(s: string, a: string, b: string)
    requires Contains(s, a) && Contains(a, b)
    ensures Contains(s, b)
  {
    var i :| 0 <= i <= |s| - |a| && MatchAt(s, a, i);
    var j :| 0 <= j <= |a| - |b| && MatchAt(a, b, j);
    forall k | 0 <= k < |b|
      ensures s[i + j + k] == b[k]
    {
      assert s[i..i + |a|][j + k] == a[j + k];
      assert a[j..j + |b|][k] == b[k];
    }
    assert s[i + j..i + j + |b|] == b;
    assert MatchAt(s, b, i + j);
  }

  lemma ContainsIffIndexOf(s: string, p: string)
    ensures Contains(s, p) <==> IndexOf(s, p, 0) >= 0
  {
    IndexOfFirst(s, p, 0);
  }

  /** The regular expression `a.*b`: `a`, later `b`, no line terminator between. */
  predicate ThenLater(s: string, a: string, b: string) {
    exists i, j :: 0 <= i && i + |a| <= j <= |s| - |b| && MatchAt(s, a, i) && MatchAt(s, b, j)
      && forall k :: i + |a| <= k < j ==> !IsLineTerminator(s[k])
  }

  function TrimStart(s: string): (r: string)
    ensures |r| <= |s|
  {
    if |s| > 0 && IsSpace(s[0]) then TrimStart(s[1..]) else s
  }

  /** `trimStart` removes exactly the leading whitespace. */
  lemma {:induction false} TrimStartSpec(s: string)
    ensures TrimStart(s) == s[|s| - |TrimStart(s)|..]
    ensures TrimStart(s) == [] || !IsSpace(TrimStart(s)[0])
    ensures forall i :: 0 <= i < |s| - |TrimStart(s)| ==> IsSpace(s[i])
  {
    if |s| > 0 && IsSpace(s[0]) {
      TrimStartSpec(s[1..]);
    }
  }

  function TrimEnd(s: string): (r: string)
    ensures |r| <= |s|
  {
    if |s| > 0 && IsSpace(s[|s| - 1]) then TrimEnd(s[..|s| - 1]) else s
  }

  /** `trimEnd` removes exactly the trailing whitespace. */
  lemma {:induction false} TrimEndSpec(s: string)
    ensures TrimEnd(s) == s[..|TrimEnd(s)|]
    ensures TrimEnd(s) == [] || !IsSpace(TrimEnd(s)[|TrimEnd(s)| - 1])
    ensures forall i :: |TrimEnd(s)| <= i < |s| ==> IsSpace(s[i])
  {
    if |s| > 0 && IsSpace(s[|s| - 1]) {
      TrimEndSpec(s[..|s| - 1]);
    }
  }

  /** A trimmed text is its own trim. */
  lemma TrimIdempotent(s: string)
    ensures Trim(Trim(s)) == Trim(s)
  {
    var t := TrimStart(s);
    TrimStartSpec(s);
    TrimEndSpec(t);
    var y := TrimEnd(t);
    assert y == [] || !IsSpace(y[0]);
    TrimStartSpec(y);
    TrimEndSpec(y);
  }

  function Trim(s: string): string {
    TrimEnd(TrimStart(s))
  }

  /** `s.replace(/\s+/g, " ")`. */
  function CollapseWs(s: string): (r: string)
    decreases |s|
  {
    if s == [] then []
    else if IsSpace(s[0]) then (if |s| > 1 && IsSpace(s[1]) then [] else " ") + CollapseWs(s[1..])
    else [s[0]] + CollapseWs(s[1..])
  }

  /** `s.replace(/\s+/g, " ").trim()`, the normalisation the shingling steps share. */
  function NormalizeWs(s: string): string {
    Trim(CollapseWs(s))
  }

  /** `s.replace(/\/$/, "")` (and `/\/?$/`): at most one trailing slash removed. */
  function DropTrailingSlash(s: string): (r: string)
    ensures r == s || (s == r + "/")
  {
    if |s| > 0 && s[|s| - 1] == '/' then s[..|s| - 1] else s
  }

  /** Only the last part of a concatenation loses its slash. */
  lemma DropTrailingSlashConcat(a: string, x: string)
    requires x != []
    ensures DropTrailingSlash(a + x) == a + DropTrailingSlash(x)
  {
    if x[|x| - 1] == '/' {
      assert (a + x)[..|a + x| - 1] == a + x[..|x| - 1];
    }
  }

  /** Every trailing slash removed (a `replace` of the pattern slash-star-dollar). */
  function DropTrailingSlashes(s: string): (r: string)
    ensures r == [] || r[|r| - 1] != '/'
    ensures |r| <= |s| && r == s[..|r|]
  {
    if |s| > 0 && s[|s| - 1] == '/' then DropTrailingSlashes(s[..|s| - 1]) else s
  }

  function DropLeadingSlash(s: string): string {
    if |s| > 0 && s[0] == '/' then s[1..] else s
  }

  /** `w` holds no separator character. */
  predicate NoSep(w: string, isSep: char -> bool) {
    forall j :: 0 <= j < |w| ==> !isSep(w[j])
  }

  /** The longest prefix of `s` that holds no separator. */
  function TakeRun(s: string, isSep: char -> bool): (r: string)
    ensures |r| <= |s| && r == s[..|r|]
    ensures NoSep(r, isSep)
    ensures |r| == |s| || isSep(s[|r|])
  {
    if s == [] || isSep(s[0]) then [] else [s[0]] + TakeRun(s[1..], isSep)
  }

  function DropSeps(s: string, isSep: char -> bool): (r: string)
    ensures |r| <= |s| && r == s[|s| - |r|..]
    ensures r == [] || !isSep(r[0])
  {
    if |s| > 0 && isSep(s[0]) then DropSeps(s[1..], isSep) else s
  }

  /**
   * The maximal runs of non-separator characters, in order: what
   * `s.replace(/[seps]+/g, " ").split(/\s+/).filter(Boolean)` yields.
   */
  function Runs(s: string, isSep: char -> bool): seq<string>
    decreases |s|
  {
    var t := DropSeps(s, isSep);
    if t == [] then []
    else
      var w := TakeRun(t, isSep);
      assert |w| > 0;
      [w] + Runs(t[|w|..], isSep)
  }

  /** Every run is a non-empty word without separators. */
  lemma {:induction false} RunsWordAt(s: string, isSep: char -> bool, i: nat)
    requires i < |Runs(s, isSep)|
    ensures |Runs(s, isSep)[i]| > 0 && NoSep(Runs(s, isSep)[i], isSep)
    decreases |s|
  {
    var t := DropSeps(s, isSep);
    assert t != [];
    var w := TakeRun(t, isSep);
    assert |w| > 0;
    var rest := Runs(t[|w|..], isSep);
    assert Runs(s, isSep) == [w] + rest;
    if i == 0 {
      assert Runs(s, isSep)[i] == w;
    } else {
      RunsWordAt(t[|w|..], isSep, i - 1);
      assert Runs(s, isSep)[i] == rest[i - 1];
    }
  }

  /** `s.trim().split(/\s+/)`: an empty string yields one empty token. */
  function SplitWs(s: string): (r: seq<string>)
    ensures |r| >= 1
  {
    var w := Runs(s, IsSpace);
    if w == [] then [""] else w
  }

  /** `s.split(c)` for a one-character separator. */
  function Split(s: string, c: char): (r: seq<string>)
    ensures |r| >= 1
  {
    if s == [] then [""]
    else
      var rest := Split(s[1..], c);
      if s[0] == c then [""] + rest else [[s[0]] + rest[0]] + rest[1..]
  }

  /** `parts.join(sep)`. */
  function Join(parts: seq<string>, sep: string): string {
    if parts == [] then ""
    else if |parts| == 1 then parts[0]
    else parts[0] + sep + Join(parts[1..], sep)
  }

  /** Two or more parts: the first, the separator, then the others joined. */
  lemma JoinCons(parts: seq<string>, sep: string)
    requires |parts| >= 2
    ensures Join(parts, sep) == parts[0] + (sep + Join(parts[1..], sep))
  {
    assert parts[0] + sep + Join(parts[1..], sep) == parts[0] + (sep + Join(parts[1..], sep));
  }

  /** Joining a leading run of the parts yields a prefix of joining them all. */
  lemma {:induction false} JoinPrefix(parts: seq<string>, sep: string, k: nat)
    requires k <= |parts|
    ensures Join(parts[..k], sep) <= Join(parts, sep)
  {
    if k > 0 && |parts| > 1 {
      if k == 1 {
        assert parts[..1] == [parts[0]];
      } else {
        JoinPrefix(parts[1..], sep, k - 1);
        assert parts[..k][1..] == parts[1..][..k - 1];
      }
    }
  }

  lemma {:induction false} JoinSplit(s: string, c: char)
    ensures Join(Split(s, c), [c]) == s
  {
    if s != [] {
      JoinSplit(s[1..], c);
      var rest := Split(s[1..], c);
      if s[0] != c && |rest| > 1 {
        assert Join(rest, [c]) == rest[0] + [c] + Join(rest[1..], [c]);
        assert [s[0]] + rest[0] + [c] + Join(rest[1..], [c]) == s;
      }
    }
  }

  /** No part of a split holds the separator. */
  lemma {:induction false} SplitParts(s: string, c: char, i: nat)
    requires i < |Split(s, c)|
    ensures c !in Split(s, c)[i]
  {
    if s != [] {
      var rest := Split(s[1..], c);
      if s[0] == c {
        if i > 0 {
          SplitParts(s[1..], c, i - 1);
        }
      } else if i == 0 {
        SplitParts(s[1..], c, 0);
      } else {
        SplitParts(s[1..], c, i);
      }
    }
  }

  /** A string without the separator splits into itself. */
  lemma {:induction false} SplitNoSep(s: string, c: char)
    requires c !in s
    ensures Split(s, c) == [s]
  {
    if s != [] {
      SplitNoSep(s[1..], c);
      assert [s[0]] + s[1..] == s;
    }
  }

  /** `s.split(c).pop()`: the text after the last separator. */
  function LastPart(s: string, c: char): string {
    var parts := Split(s, c);
    parts[|parts| - 1]
  }

  /** The last part holds no separator, and a text without one is its own last part. */
  lemma LastPartSpec(s: string, c: char)
    ensures c !in LastPart(s, c)
    ensures c !in s ==> LastPart(s, c) == s
  {
    SplitParts(s, c, |Split(s, c)| - 1);
    if c !in s {
      SplitNoSep(s, c);
    }
  }

  lemma SplitCons(x: char, t: string, c: char)
    ensures Split([x] + t, c)
         == if x == c then [""] + Split(t, c) else [[x] + Split(t, c)[0]] + Split(t, c)[1..]
  {
    assert ([x] + t)[1..] == t;
  }

  /** The cons step of `Split`, applied to a concatenation of splits. */
  lemma SplitConsConcat(x: char, sa: seq<string>, sb: seq<string>, c: char)
    requires |sa| >= 1
    ensures (var t := sa + sb; if x == c then [""] + t else [[x] + t[0]] + t[1..])
         == (if x == c then [""] + sa else [[x] + sa[0]] + sa[1..]) + sb
  {
    var t := sa + sb;
    assert t[0] == sa[0] && t[1..] == sa[1..] + sb;
  }

  /** Splitting at one separator concatenates the two sides' splits. */
  lemma {:induction false} SplitConcat(a: string, b: string, c: char)
    ensures Split(a + [c] + b, c) == Split(a, c) + Split(b, c)
  {
    if a == [] {
      assert a + [c] + b == [c] + b;
      SplitCons(c, b, c);
    } else {
      var t := a[1..] + [c] + b;
      assert a + [c] + b == [a[0]] + t;
      assert a == [a[0]] + a[1..];
      SplitCons(a[0], t, c);
      SplitCons(a[0], a[1..], c);
      SplitConcat(a[1..], b, c);
      SplitConsConcat(a[0], Split(a[1..], c), Split(b, c), c);
    }
  }

  /** Decimal rendering of a natural number, as String(n) does. */
  function NatToString(n: nat): (r: string)
    ensures |r| >= 1
    ensures forall i :: 0 <= i < |r| ==> '0' <= r[i] <= '9'
  {
    if n < 10 then [('0' as int + n) as char]
    else NatToString(n / 10) + [('0' as int + n % 10) as char]
  }

  lemma {:induction false} NatToStringInjective(n: nat, m: nat)
    requires NatToString(n) == NatToString(m)
    ensures n == m
  {
    var a, b := NatToString(n), NatToString(m);
    assert a[|a| - 1] == b[|b| - 1];
    if n >= 10 && m >= 10 {
      assert NatToString(n / 10) == a[..|a| - 1] == b[..|b| - 1] == NatToString(m / 10);
      NatToStringInjective(n / 10, m / 10);
      assert n % 10 == m % 10;
    }
  }

  /** Lexicographic order on code points: the default `Array.prototype.sort` order. */
  predicate LexLe(a: string, b: string) {
    a == [] || (b != [] && (a[0] < b[0] || (a[0] == b[0] && LexLe(a[1..], b[1..]))))
  }

  lemma {:induction false} LexLeTotal(a: string, b: string)
    ensures LexLe(a, b) || LexLe(b, a)
  {
    if a != [] && b != [] && a[0] == b[0] {
      LexLeTotal(a[1..], b[1..]);
    }
  }

  lemma {:induction false} LexLeTrans(a: string, b: string, c: string)
    requires LexLe(a, b) && LexLe(b, c)
    ensures LexLe(a, c)
  {
    if a != [] && b != [] && c != [] && a[0] == b[0] && b[0] == c[0] {
      LexLeTrans(a[1..], b[1..], c[1..]);
    }
  }

  lemma {:induction false} LexLeAntisym(a: string, b: string)
    requires LexLe(a, b) && LexLe(b, a)
    ensures a == b
  {
    if a != [] && b != [] {
      LexLeAntisym(a[1..], b[1..]);
      assert a == [a[0]] + a[1..];
      assert b == [b[0]] + b[1..];
    }
  }
}

module Seqs {
  import Strings

  ghost predicate Distinct<T>(s: seq<T>) {
    forall i, j :: 0 <= i < j < |s| ==> s[i] != s[j]
  }

  /** `[...new Set(s)]`: first occurrences, in order. */
  function Dedup<T(==,!new)>(s: seq<T>): (r: seq<T>)
    ensures Distinct(r)
    ensures forall x :: x in r <==> x in s
    ensures |r| <= |s|
  {
    if s == [] then []
    else
      var d := Dedup(s[..|s| - 1]);
      if s[|s| - 1] in d then d else d + [s[|s| - 1]]
  }

  lemma {:induction false} DedupOfDistinct<T(!new)>(s: seq<T>)
    requires Distinct(s)
    ensures Dedup(s) == s
  {
    if s != [] {
      DedupOfDistinct(s[..|s| - 1]);
      assert s[|s| - 1] !in s[..|s| - 1];
      assert s[..|s| - 1] + [s[|s| - 1]] == s;
    }
  }

  lemma {:induction false} DedupPrefix<T(!new)>(s: seq<T>, x: T)
    ensures Dedup(s + [x]) == (if x in s then Dedup(s) else Dedup(s) + [x])
  {
    assert (s + [x])[..|s + [x]| - 1] == s;
  }

  /** A distinct sequence holds each value at most once. */
  lemma {:induction false} DistinctCount<T>(s: seq<T>)
    requires Distinct(s)
    ensures forall x :: multiset(s)[x] <= 1
  {
    if s != [] {
      var init := s[..|s| - 1];
      DistinctCount(init);
      assert s == init + [s[|s| - 1]];
      assert s[|s| - 1] !in multiset(init);
    }
  }

  /** A rearrangement of a distinct sequence is distinct. */
  lemma DistinctPerm<T>(a: seq<T>, b: seq<T>)
    requires multiset(a) == multiset(b) && Distinct(b)
    ensures Distinct(a)
  {
    DistinctCount(b);
    forall i, j | 0 <= i < j < |a|
      ensures a[i] != a[j]
    {
      RepeatCount(a, i, j);
    }
  }

  lemma RepeatCount<T>(s: seq<T>, i: nat, j: nat)
    requires i < j < |s|
    ensures s[i] == s[j] ==> multiset(s)[s[i]] >= 2
  {
    assert s == s[..i] + [s[i]] + s[i + 1..j] + [s[j]] + s[j + 1..];
  }

  /** Dropping the last element keeps a list distinct, and that element is not in the rest. */
  lemma DistinctInit<T>(s: seq<T>)
    requires Distinct(s) && s != []
    ensures Distinct(s[..|s| - 1]) && s[|s| - 1] !in s[..|s| - 1]
  {
    var n := |s| - 1;
    assert forall i :: 0 <= i < n ==> s[..n][i] == s[i];
  }

  lemma DistinctConcat<T>(a: seq<T>, b: seq<T>)
    requires Distinct(a) && Distinct(b)
    requires forall x :: x in a ==> x !in b
    ensures Distinct(a + b)
  {
    forall i, j | 0 <= i < j < |a + b|
      ensures (a + b)[i] != (a + b)[j]
    {
      if i < |a| && j >= |a| {
        assert (a + b)[i] in a;
        assert (a + b)[j] == b[j - |a|];
      }
    }
  }

  /** The elements of a sequence as a set, `new Set(s)`, built front to back. */
  function SetOf<T>(s: seq<T>): set<T> {
    if s == [] then {} else SetOf(s[..|s| - 1]) + {s[|s| - 1]}
  }

  lemma {:induction false} SetOfMembers<T>(s: seq<T>)
    ensures forall x :: x in SetOf(s) <==> x in s
  {
    if s != [] {
      SetOfMembers(s[..|s| - 1]);
      assert forall x :: x in s <==> x in s[..|s| - 1] || x == s[|s| - 1];
    }
  }

  /** A set built from distinct elements has one member per element. */
  lemma {:induction false} DistinctCard<T>(s: seq<T>)
    requires Distinct(s)
    ensures |SetOf(s)| == |s|
  {
    if s != [] {
      var init := s[..|s| - 1];
      DistinctCard(init);
      SetOfMembers(init);
      assert s[|s| - 1] !in SetOf(init);
    }
  }

  /** A sequence has at least as many elements as its set, exactly as many when it is distinct. */
  lemma {:induction false} SetOfCard<T>(s: seq<T>)
    ensures |SetOf(s)| <= |s|
    ensures |SetOf(s)| == |s| <==> Distinct(s)
  {
    if s != [] {
      var n := |s| - 1;
      var init := s[..n];
      SetOfCard(init);
      SetOfMembers(init);
      assert SetOf(s) == SetOf(init) + {s[n]};
      if Distinct(s) {
        DistinctCard(s);
      } else if s[n] in init {
        assert SetOf(s) == SetOf(init);
      } else {
        assert |SetOf(s)| == |SetOf(init)| + 1;
        if Distinct(init) {
          forall i, j | 0 <= i < j < |s|
            ensures s[i] != s[j]
          {
            if j == n {
              assert s[i] == init[i];
            } else {
              assert s[i] == init[i] && s[j] == init[j];
            }
          }
        }
      }
    }
  }

  /** The concatenation of `f` over `s`, in order. */
  function FlatMap<T, U>(f: T -> seq<U>, s: seq<T>): seq<U> {
    if s == [] then [] else FlatMap(f, s[..|s| - 1]) + f(s[|s| - 1])
  }

  lemma {:induction false} FlatMapAppend<T, U>(f: T -> seq<U>, a: seq<T>, b: seq<T>)
    ensures FlatMap(f, a + b) == FlatMap(f, a) + FlatMap(f, b)
  {
    if b == [] {
      assert a + b == a;
    } else {
      var init := b[..|b| - 1];
      assert (a + b)[..|a + b| - 1] == a + init;
      FlatMapAppend(f, a, init);
    }
  }

  /** One more element appends its image. */
  lemma FlatMapSnoc<T, U>(f: T -> seq<U>, s: seq<T>, i: nat)
    requires i < |s|
    ensures FlatMap(f, s[..i + 1]) == FlatMap(f, s[..i]) + f(s[i])
  {
    assert s[..i + 1][..i] == s[..i];
  }

  /** Item `k` of element `idx`'s image sits after the images of the elements before it. */
  lemma FlatMapAt<T, U>(f: T -> seq<U>, s: seq<T>, idx: nat, k: nat)
    requires idx < |s| && k < |f(s[idx])|
    ensures |FlatMap(f, s[..idx])| + k < |FlatMap(f, s)|
    ensures FlatMap(f, s)[|FlatMap(f, s[..idx])| + k] == f(s[idx])[k]
  {
    assert s == s[..idx + 1] + s[idx + 1..];
    FlatMapAppend(f, s[..idx + 1], s[idx + 1..]);
    FlatMapSnoc(f, s, idx);
  }

  /** An element of the result comes from the image of some element. */
  lemma {:induction false} FlatMapMember<T, U>(f: T -> seq<U>, s: seq<T>, x: U)
    ensures x in FlatMap(f, s) <==> exists i :: 0 <= i < |s| && x in f(s[i])
  {
    if s != [] {
      var n := |s| - 1;
      FlatMapMember(f, s[..n], x);
      if exists i :: 0 <= i < |s| && x in f(s[i]) {
        var i :| 0 <= i < |s| && x in f(s[i]);
        if i < n {
          assert s[..n][i] == s[i];
        }
      }
    }
  }

  /** The result is empty exactly when every image is. */
  lemma {:induction false} FlatMapEmpty<T, U>(f: T -> seq<U>, s: seq<T>)
    ensures FlatMap(f, s) == [] <==> forall i :: 0 <= i < |s| ==> f(s[i]) == []
  {
    if s != [] {
      var n := |s| - 1;
      FlatMapEmpty(f, s[..n]);
      assert forall i :: 0 <= i < n ==> s[..n][i] == s[i];
    }
  }

  /** `f` applied to every element, built from the back as a loop pushes. */
  function MapSnoc<T, U>(f: T -> U, s: seq<T>): (r: seq<U>)
    ensures |r| == |s|
  {
    if s == [] then [] else MapSnoc(f, s[..|s| - 1]) + [f(s[|s| - 1])]
  }

  lemma {:induction false} MapSnocAt<T, U>(f: T -> U, s: seq<T>, i: nat)
    requires i < |s|
    ensures MapSnoc(f, s)[i] == f(s[i])
  {
    var n := |s| - 1;
    if i < n {
      MapSnocAt(f, s[..n], i);
      assert s[..n][i] == s[i];
    }
  }

  /** The step a loop pushing `f(s[i])` takes. */
  lemma MapSnocStep<T, U>(f: T -> U, s: seq<T>, i: nat)
    requires i < |s|
    ensures MapSnoc(f, s[..i + 1]) == MapSnoc(f, s[..i]) + [f(s[i])]
  {
    assert s[..i + 1][..i] == s[..i];
  }

  /** The singleton of a kept element, else nothing. */
  function Keep<T>(f: T -> bool): T -> seq<T> {
    x => if f(x) then [x] else []
  }

  /** `s.filter(f)`: the elements that pass, in order. */
  function Filter<T>(f: T -> bool, s: seq<T>): seq<T> {
    FlatMap(Keep(f), s)
  }

  lemma FilterSnoc<T>(f: T -> bool, s: seq<T>, i: nat)
    requires i < |s|
    ensures Filter(f, s[..i + 1]) == Filter(f, s[..i]) + (if f(s[i]) then [s[i]] else [])
  {
    FlatMapSnoc(Keep(f), s, i);
  }

  /** Filtering a prefix gives a prefix of the filtered whole. */
  lemma FilterPrefix<T>(f: T -> bool, s: seq<T>, n: nat)
    requires n <= |s|
    ensures Filter(f, s[..n]) <= Filter(f, s)
  {
    assert s == s[..n] + s[n..];
    FlatMapAppend(Keep(f), s[..n], s[n..]);
  }

  /** An element is kept exactly when it occurs and passes. */
  lemma FilterMember<T>(f: T -> bool, s: seq<T>, x: T)
    ensures x in Filter(f, s) <==> x in s && f(x)
  {
    FlatMapMember(Keep(f), s, x);
    if x in s && f(x) {
      var i :| 0 <= i < |s| && s[i] == x;
      assert x in Keep(f)(s[i]);
    }
  }

  /** Filtering keeps a distinct sequence distinct. */
  lemma {:induction false} FilterDistinct<T>(f: T -> bool, s: seq<T>)
    requires Distinct(s)
    ensures Distinct(Filter(f, s))
  {
    if s != [] {
      var n := |s| - 1;
      DistinctInit(s);
      FilterDistinct(f, s[..n]);
      FilterSnoc(f, s, n);
      assert s[..n + 1] == s;
      FilterMember(f, s[..n], s[n]);
      DistinctConcat(Filter(f, s[..n]), if f(s[n]) then [s[n]] else []);
    }
  }

  /** Filtering never lengthens. */
  lemma {:induction false} FilterLength<T>(f: T -> bool, s: seq<T>)
    ensures |Filter(f, s)| <= |s|
  {
    if s != [] {
      FilterLength(f, s[..|s| - 1]);
      FilterSnoc(f, s, |s| - 1);
      assert s[..|s|] == s;
    }
  }

  /** Mapping to two elements each: element 2i and 2i+1 come from `s[i]`. */
  lemma {:induction false} FlatMapPairs<T, U>(f: T -> seq<U>, s: seq<T>, i: nat)
    requires forall x :: |f(x)| == 2
    ensures |FlatMap(f, s)| == 2 * |s|
    ensures i < |s| ==> FlatMap(f, s)[2 * i] == f(s[i])[0] && FlatMap(f, s)[2 * i + 1] == f(s[i])[1]
  {
    if s != [] {
      var n := |s| - 1;
      FlatMapPairs(f, s[..n], if i < n then i else 0);
      if i < n {
        assert s[..n][i] == s[i];
      }
    }
  }

  /** Elements of `s` with `key(e) == v`, in order. */
  function KeyFilter<T>(s: seq<T>, key: T -> real, v: real): seq<T> {
    if s == [] then []
    else (if key(s[0]) == v then [s[0]] else []) + KeyFilter(s[1..], key, v)
  }

  lemma {:induction false} KeyFilterConcat<T>(a: seq<T>, b: seq<T>, key: T -> real, v: real)
    ensures KeyFilter(a + b, key, v) == KeyFilter(a, key, v) + KeyFilter(b, key, v)
  {
    if a == [] {
      assert a + b == b;
    } else {
      var h := if key(a[0]) == v then [a[0]] else [];
      assert (a + b)[1..] == a[1..] + b;
      assert (a + b)[0] == a[0];
      KeyFilterConcat(a[1..], b, key, v);
      calc {
        KeyFilter(a + b, key, v);
        h + KeyFilter(a[1..] + b, key, v);
        h + (KeyFilter(a[1..], key, v) + KeyFilter(b, key, v));
        (h + KeyFilter(a[1..], key, v)) + KeyFilter(b, key, v);
      }
    }
  }

  lemma {:induction false} KeyFilterNone<T>(s: seq<T>, key: T -> real, v: real)
    requires forall e :: e in s ==> key(e) != v
    ensures KeyFilter(s, key, v) == []
  {
    if s != [] {
      KeyFilterNone(s[1..], key, v);
    }
  }

  predicate SortedDesc<T>(s: seq<T>, key: T -> real) {
    forall i, j :: 0 <= i < j < |s| ==> key(s[i]) >= key(s[j])
  }

  /** Insert `x` after every element whose key is at least `key(x)`. */
  function InsertDesc<T>(x: T, s: seq<T>, key: T -> real): (r: seq<T>)
    ensures multiset(r) == multiset(s) + multiset{x}
    ensures |r| == |s| + 1
  {
    if s == [] then [x]
    else if key(s[0]) >= key(x) then
      assert s == [s[0]] + s[1..];
      [s[0]] + InsertDesc(x, s[1..], key)
    else [x] + s
  }

  /** Inserting keeps every key under a bound that `x` and `s` keep. */
  lemma {:induction false} InsertDescBelow<T>(x: T, s: seq<T>, key: T -> real, b: real)
    requires key(x) <= b && forall k :: 0 <= k < |s| ==> key(s[k]) <= b
    ensures forall i :: 0 <= i < |InsertDesc(x, s, key)| ==> key(InsertDesc(x, s, key)[i]) <= b
  {
    if s != [] && key(s[0]) >= key(x) {
      InsertDescBelow(x, s[1..], key, b);
      assert InsertDesc(x, s, key) == [s[0]] + InsertDesc(x, s[1..], key);
    }
  }

  /** A head no smaller than every key of a sorted tail keeps it sorted. */
  lemma SortedDescCons<T>(h: T, t: seq<T>, key: T -> real)
    requires SortedDesc(t, key) && forall k :: 0 <= k < |t| ==> key(t[k]) <= key(h)
    ensures SortedDesc([h] + t, key)
  {
    var r := [h] + t;
    forall i, j | 0 <= i < j < |r|
      ensures key(r[i]) >= key(r[j])
    {
      assert r[j] == t[j - 1];
      if i > 0 {
        assert r[i] == t[i - 1];
      }
    }
  }

  lemma {:induction false} InsertDescSorted<T>(x: T, s: seq<T>, key: T -> real)
    requires SortedDesc(s, key)
    ensures SortedDesc(InsertDesc(x, s, key), key)
  {
    if s != [] {
      assert forall k :: 0 <= k < |s[1..]| ==> s[1..][k] == s[k + 1];
      if key(s[0]) >= key(x) {
        InsertDescSorted(x, s[1..], key);
        InsertDescBelow(x, s[1..], key, key(s[0]));
        SortedDescCons(s[0], InsertDesc(x, s[1..], key), key);
      } else {
        SortedDescCons(x, s, key);
      }
    }
  }

  lemma SortedDescTail<T>(s: seq<T>, key: T -> real)
    requires SortedDesc(s, key) && s != []
    ensures SortedDesc(s[1..], key)
  {
    assert forall k :: 0 <= k < |s[1..]| ==> s[1..][k] == s[k + 1];
  }

  lemma KeyFilterCons<T>(h: T, t: seq<T>, key: T -> real, v: real)
    ensures KeyFilter([h] + t, key, v) == (if key(h) == v then [h] else []) + KeyFilter(t, key, v)
  {
    assert ([h] + t)[1..] == t;
  }

  /** An `x` keyed above the head of a sorted `s` shares its key with no element of `s`. */
  lemma InsertFrontStable<T>(x: T, s: seq<T>, key: T -> real, v: real)
    requires SortedDesc(s, key) && s != [] && key(s[0]) < key(x)
    ensures KeyFilter([x] + s, key, v) == KeyFilter(s, key, v) + (if key(x) == v then [x] else [])
  {
    KeyFilterCons(x, s, key, v);
    if key(x) == v {
      forall e | e in s
        ensures key(e) != v
      {
        var i :| 0 <= i < |s| && s[i] == e;
        if i > 0 {
          assert key(s[0]) >= key(s[i]);
        }
      }
      KeyFilterNone(s, key, v);
    }
  }

  /** The step past a head keyed at least `key(x)`, given the claim for the tail. */
  lemma InsertAfterStable<T>(x: T, s: seq<T>, key: T -> real, v: real)
    requires s != [] && key(s[0]) >= key(x)
    requires KeyFilter(InsertDesc(x, s[1..], key), key, v) == KeyFilter(s[1..], key, v) + (if key(x) == v then [x] else [])
    ensures KeyFilter(InsertDesc(x, s, key), key, v) == KeyFilter(s, key, v) + (if key(x) == v then [x] else [])
  {
    var t := InsertDesc(x, s[1..], key);
    var h: seq<T> := if key(s[0]) == v then [s[0]] else [];
    var tx: seq<T> := if key(x) == v then [x] else [];
    var r := InsertDesc(x, s, key);
    assert r == [s[0]] + t;
    assert r[0] == s[0] && r[1..] == t;
    Reassociate(KeyFilter(r, key, v), KeyFilter(t, key, v), KeyFilter(s[1..], key, v),
                KeyFilter(s, key, v), h, tx);
  }

  lemma Reassociate<T>(r: seq<T>, rt: seq<T>, st: seq<T>, all: seq<T>, h: seq<T>, tx: seq<T>)
    requires r == h + rt && rt == st + tx && all == h + st
    ensures r == all + tx
  {
  }

  /** `f(0) + f(1) + … + f(k - 1)`. */
  function ConcatUpTo<T>(f: nat -> seq<T>, k: nat): seq<T> {
    if k == 0 then [] else ConcatUpTo(f, k - 1) + f(k - 1)
  }

  /** A concatenation only grows by appending. */
  lemma {:induction false} ConcatUpToPrefix<T>(f: nat -> seq<T>, k: nat, n: nat)
    requires k <= n
    ensures ConcatUpTo(f, k) <= ConcatUpTo(f, n)
    decreases n - k
  {
    if k < n {
      ConcatUpToPrefix(f, k, n - 1);
      PrefixExtend(ConcatUpTo(f, k), ConcatUpTo(f, n - 1), f(n - 1));
    }
  }

  lemma PrefixExtend<T>(a: seq<T>, b: seq<T>, c: seq<T>)
    requires a <= b
    ensures a <= b + c
  {
    assert (b + c)[..|a|] == b[..|a|];
  }

  /** Past a one-element head, indices shift by one. */
  /** Behind one leading element, position `i` holds the image of element `i - 1`. */
  lemma MapSnocShiftAt<T, U>(x: U, f: T -> U, s: seq<T>, i: nat)
    requires 1 <= i <= |s|
    ensures ([x] + MapSnoc(f, s))[i] == f(s[i - 1])
  {
    MapSnocAt(f, s, i - 1);
  }

  lemma {:induction false} InsertDescStable<T>(x: T, s: seq<T>, key: T -> real, v: real)
    requires SortedDesc(s, key)
    ensures KeyFilter(InsertDesc(x, s, key), key, v)
         == KeyFilter(s, key, v) + (if key(x) == v then [x] else [])
  {
    if s == [] {
      assert InsertDesc(x, s, key) == [x];
      KeyFilterCons(x, [], key, v);
    } else if key(s[0]) >= key(x) {
      SortedDescTail(s, key);
      InsertDescStable(x, s[1..], key, v);
      InsertAfterStable(x, s, key, v);
    } else {
      assert InsertDesc(x, s, key) == [x] + s;
      InsertFrontStable(x, s, key, v);
    }
  }

  /** A stable sort by descending key (Array.prototype.sort with `(a, b) => key(b) - key(a)`). */
  function SortDescBy<T>(s: seq<T>, key: T -> real): (r: seq<T>)
    ensures multiset(r) == multiset(s)
    ensures |r| == |s|
  {
    if s == [] then []
    else
      assert s == s[..|s| - 1] + [s[|s| - 1]];
      InsertDesc(s[|s| - 1], SortDescBy(s[..|s| - 1], key), key)
  }

  lemma {:induction false} SortDescBySorted<T>(s: seq<T>, key: T -> real)
    ensures SortedDesc(SortDescBy(s, key), key)
  {
    if s != [] {
      var init, last := s[..|s| - 1], s[|s| - 1];
      SortDescBySorted(init, key);
      InsertDescSorted(last, SortDescBy(init, key), key);
    }
  }

  /** Sorting keeps the elements, and a leading run of the result is still sorted. */
  lemma SortDescByMembers<T>(s: seq<T>, key: T -> real, n: nat)
    ensures forall x :: x in SortDescBy(s, key) <==> x in s
    ensures n <= |s| ==> SortedDesc(SortDescBy(s, key)[..n], key)
  {
    var r := SortDescBy(s, key);
    assert forall x :: x in r <==> x in multiset(r);
    SortDescBySorted(s, key);
  }

  /** Elements of equal key keep their input order. */
  lemma {:induction false} SortDescByStable<T>(s: seq<T>, key: T -> real, v: real)
    ensures KeyFilter(SortDescBy(s, key), key, v) == KeyFilter(s, key, v)
  {
    if s != [] {
      var init, last := s[..|s| - 1], s[|s| - 1];
      var r0 := SortDescBy(init, key);
      var tl: seq<T> := if key(last) == v then [last] else [];
      assert [last][1..] == [];
      assert KeyFilter([last], key, v) == tl;
      assert init + [last] == s;
      calc {
        KeyFilter(SortDescBy(s, key), key, v);
        KeyFilter(InsertDesc(last, r0, key), key, v);
        { SortDescBySorted(init, key); InsertDescStable(last, r0, key, v); }
        KeyFilter(r0, key, v) + tl;
        { SortDescByStable(init, key, v); }
        KeyFilter(init, key, v) + KeyFilter([last], key, v);
        { KeyFilterConcat(init, [last], key, v); }
        KeyFilter(s, key, v);
      }
    }
  }

  predicate SortedStrings(s: seq<string>) {
    forall i, j :: 0 <= i < j < |s| ==> Strings.LexLe(s[i], s[j])
  }

  function InsertString(x: string, s: seq<string>): (r: seq<string>)
    ensures multiset(r) == multiset(s) + multiset{x}
    ensures |r| == |s| + 1
  {
    if s == [] then [x]
    else if Strings.LexLe(s[0], x) then
      assert s == [s[0]] + s[1..];
      [s[0]] + InsertString(x, s[1..])
    else [x] + s
  }

  lemma {:induction false} InsertStringSorted(x: string, s: seq<string>)
    requires SortedStrings(s)
    ensures SortedStrings(InsertString(x, s))
  {
    if s != [] {
      var r := InsertString(x, s);
      if Strings.LexLe(s[0], x) {
        InsertStringSorted(x, s[1..]);
        forall i, j | 0 <= i < j < |r|
          ensures Strings.LexLe(r[i], r[j])
        {
          if i == 0 {
            assert r[j] in multiset(InsertString(x, s[1..]));
            assert r[j] in multiset(s[1..]) + multiset{x};
            if r[j] != x {
              assert r[j] in s[1..];
            }
          }
        }
      } else {
        Strings.LexLeTotal(s[0], x);
        forall i, j | 0 <= i < j < |r|
          ensures Strings.LexLe(r[i], r[j])
        {
          if i == 0 && j > 1 {
            Strings.LexLeTrans(x, s[0], s[j - 1]);
          }
        }
      }
    }
  }

  /** `xs.sort()` on strings. */
  function SortStrings(s: seq<string>): (r: seq<string>)
    ensures multiset(r) == multiset(s)
    ensures |r| == |s|
    ensures SortedStrings(r)
  {
    if s == [] then []
    else
      var r0 := SortStrings(s[..|s| - 1]);
      InsertStringSorted(s[|s| - 1], r0);
      assert s == s[..|s| - 1] + [s[|s| - 1]];
      InsertString(s[|s| - 1], r0)
  }

  /** Values grouped under `k`, in input order. */
  ghost function ValuesFor<K, V>(items: seq<(K, V)>, k: K): seq<V> {
    if items == [] then []
    else ValuesFor(items[..|items| - 1], k)
         + (if items[|items| - 1].0 == k then [items[|items| - 1].1] else [])
  }

  /** A Map from key to list, filled by `get(k) ?? []` then `push`, keys in insertion order. */
  datatype Grouping<K(==), V> = Grouping(keys: seq<K>, groups: map<K, seq<V>>)

  function GroupStep<K(==), V>(g: Grouping<K, V>, k: K, v: V): Grouping<K, V> {
    if k in g.groups then Grouping(g.keys, g.groups[k := g.groups[k] + [v]])
    else Grouping(g.keys + [k], g.groups[k := [v]])
  }

  function GroupBy<K(==), V>(items: seq<(K, V)>): Grouping<K, V> {
    if items == [] then Grouping([], map[])
    else GroupStep(GroupBy(items[..|items| - 1]), items[|items| - 1].0, items[|items| - 1].1)
  }

  /**
   * The keys are distinct and in first-seen order, and each key's list holds
   * exactly its values, in input order; an absent key has no value.
   */
  lemma {:induction false} GroupByCorrect<K, V>(items: seq<(K, V)>)
    ensures Distinct(GroupBy(items).keys)
    ensures forall k :: k in GroupBy(items).groups <==> k in GroupBy(items).keys
    ensures forall k :: k in GroupBy(items).groups ==> GroupBy(items).groups[k] == ValuesFor(items, k) != []
    ensures forall k :: k !in GroupBy(items).groups ==> ValuesFor(items, k) == []
  {
    if items != [] {
      var init := items[..|items| - 1];
      GroupByCorrect(init);
      var last := items[|items| - 1];
      assert forall k :: ValuesFor(items, k) == ValuesFor(init, k) + (if last.0 == k then [last.1] else []);
    }
  }

  /** A key has values exactly when some item carries it. */
  lemma {:induction false} ValuesForNonEmpty<K, V>(items: seq<(K, V)>, k: K)
    ensures ValuesFor(items, k) != [] <==> exists i :: 0 <= i < |items| && items[i].0 == k
  {
    if items != [] {
      var n := |items| - 1;
      ValuesForNonEmpty(items[..n], k);
      assert forall i :: 0 <= i < n ==> items[..n][i] == items[i];
    }
  }

  lemma {:induction false} ValuesForLength<K, V>(items: seq<(K, V)>, k: K)
    ensures |ValuesFor(items, k)| == |set i | 0 <= i < |items| && items[i].0 == k|
  {
    if items != [] {
      var n := |items| - 1;
      ValuesForLength(items[..n], k);
      var lo := set i | 0 <= i < n && items[..n][i].0 == k;
      var all := set i | 0 <= i < |items| && items[i].0 == k;
      if items[n].0 == k {
        assert all == lo + {n};
      } else {
        assert all == lo;
      }
    }
  }

  /** Every value listed under `k` comes from an item carrying `k`. */
  lemma {:induction false} ValuesForFrom<K, V>(items: seq<(K, V)>, k: K, v: V)
    requires v in ValuesFor(items, k)
    ensures (k, v) in items
  {
    var n := |items| - 1;
    if v !in ValuesFor(items[..n], k) {
      assert items[n] == (k, v);
    } else {
      ValuesForFrom(items[..n], k, v);
      assert (k, v) in items[..n];
    }
  }

  /** Two items with the same key put at least two values under it. */
  lemma {:induction false} ValuesForTwo<K, V>(items: seq<(K, V)>, i: nat, j: nat)
    requires i < j < |items| && items[i].0 == items[j].0
    ensures |ValuesFor(items, items[i].0)| >= 2
  {
    var n := |items| - 1;
    var k := items[i].0;
    if j == n {
      ValuesForNonEmpty(items[..n], k);
      assert items[..n][i].0 == k;
    } else {
      ValuesForTwo(items[..n], i, j);
      assert items[..n][i] == items[i];
    }
  }

  /** Distinct keys leave at most one value under each key. */
  lemma {:induction false} ValuesForAtMostOne<K, V>(items: seq<(K, V)>, k: K)
    requires forall i, j :: 0 <= i < j < |items| ==> items[i].0 != items[j].0
    ensures |ValuesFor(items, k)| <= 1
  {
    if items != [] {
      var n := |items| - 1;
      ValuesForAtMostOne(items[..n], k);
      if items[n].0 == k {
        ValuesForNonEmpty(items[..n], k);
        assert forall i :: 0 <= i < n ==> items[..n][i].0 != k;
      }
    }
  }
}

/** The upper triangle of an `n`-by-`size` comparison: every pair `i < j` visited once, row by row. */
module Pairs {
  import opened Wrappers

  function Somes<W>(o: Option<W>): seq<W> {
    if o.Some? then [o.value] else []
  }

  /** Row `i`: the picks of the pairs `(i, j)` for `i < j < m`, in order of `j`. */
  function RowPicks<W>(pick: (nat, nat) -> Option<W>, i: nat, m: nat): seq<W>
    decreases m
  {
    if m <= i + 1 then [] else RowPicks(pick, i, m - 1) + Somes(pick(i, m - 1))
  }

  /** Rows `0 .. n-1`, each against the columns up to `size`. */
  function PairPicks<W>(pick: (nat, nat) -> Option<W>, n: nat, size: nat): seq<W> {
    if n == 0 then [] else PairPicks(pick, n - 1, size) + RowPicks(pick, n - 1, size)
  }

  lemma {:induction false} RowPicksFrom<W>(pick: (nat, nat) -> Option<W>, i: nat, m: nat, w: W) returns (j: nat)
    requires w in RowPicks(pick, i, m)
    ensures i < j < m && pick(i, j) == Some(w)
  {
    if w in RowPicks(pick, i, m - 1) {
      j := RowPicksFrom(pick, i, m - 1, w);
    } else {
      j := m - 1;
    }
  }

  lemma {:induction false} RowPicksHas<W>(pick: (nat, nat) -> Option<W>, i: nat, m: nat, j: nat, w: W)
    requires i < j < m && pick(i, j) == Some(w)
    ensures w in RowPicks(pick, i, m)
  {
    if j < m - 1 {
      RowPicksHas(pick, i, m - 1, j, w);
    }
  }

  lemma {:induction false} PairPicksFrom<W>(pick: (nat, nat) -> Option<W>, n: nat, size: nat, w: W)
    returns (i: nat, j: nat)
    requires w in PairPicks(pick, n, size)
    ensures i < n && i < j < size && pick(i, j) == Some(w)
  {
    if w in PairPicks(pick, n - 1, size) {
      i, j := PairPicksFrom(pick, n - 1, size, w);
    } else {
      i := n - 1;
      j := RowPicksFrom(pick, n - 1, size, w);
    }
  }

  lemma {:induction false} PairPicksHas<W>(pick: (nat, nat) -> Option<W>, n: nat, size: nat, i: nat, j: nat, w: W)
    requires i < n && i < j < size && pick(i, j) == Some(w)
    ensures w in PairPicks(pick, n, size)
  {
    if i < n - 1 {
      PairPicksHas(pick, n - 1, size, i, j, w);
    } else {
      RowPicksHas(pick, i, size, j, w);
    }
  }
}
