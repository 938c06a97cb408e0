/** Paths: `getpath`, `fat_build_path_from_components` and the current directory. */
module Paths {
  import opened Words

  type Name = seq<byte>

  const SLASH: byte := 0x2F
  const BACKSLASH: byte := 0x5C
  const MAX_COMPONENTS := 32
  const MAX_LENGTH := 256
  const CURRENT: Name := [0x2E]
  const PARENT: Name := [0x2E, 0x2E]

  predicate IsSeparator(c: byte) {
    c == SLASH || c == BACKSLASH
  }

  // ----- what a path means -----

  /** The parts of a path, split at either separator; parts may be empty. */
  function Split(s: seq<byte>): (parts: seq<Name>)
    ensures |parts| > 0
  {
    if s == [] then [[]]
    else
      var rest := Split(s[1..]);
      if IsSeparator(s[0]) then [[]] + rest else [[s[0]] + rest[0]] + rest[1..]
  }

  /** One part: nothing, the same directory, its parent (the root is its own), or one level down. */
  function Push(stack: seq<Name>, part: Name): seq<Name> {
    if part == [] || part == CURRENT then stack
    else if part == PARENT then (if stack == [] then [] else stack[..|stack| - 1])
    else stack + [part]
  }

  function Fold(stack: seq<Name>, parts: seq<Name>): seq<Name>
    decreases |parts|
  {
    if parts == [] then stack else Fold(Push(stack, parts[0]), parts[1..])
  }

  /** The limits of the code: a part that is too long gives no components at all, and nothing is read after the 32nd. */
  function Limited(stack: seq<Name>, parts: seq<Name>): seq<Name>
    requires |parts| > 0
    decreases |parts|
  {
    if |parts[0]| >= MAX_LENGTH then []
    else
      var next := Push(stack, parts[0]);
      if |parts| == 1 || |next| >= MAX_COMPONENTS then next else Limited(next, parts[1..])
  }

  /** No part is too long, and no part but the last takes the path to its 32nd component. */
  ghost predicate WithinLimits(stack: seq<Name>, parts: seq<Name>) {
    && (forall i :: 0 <= i < |parts| ==> |parts[i]| < MAX_LENGTH)
    && (forall k :: 0 < k < |parts| ==> |Fold(stack, parts[..k])| < MAX_COMPONENTS)
  }

  /** The first `k` parts, but not all, give the 32nd component, and nothing before is too long. */
  ghost predicate FullAt(stack: seq<Name>, parts: seq<Name>, k: nat) {
    && 0 < k < |parts| && |Fold(stack, parts[..k])| >= MAX_COMPONENTS
    && (forall i :: 0 <= i < k ==> |parts[i]| < MAX_LENGTH)
    && (forall m :: 0 < m < k ==> |Fold(stack, parts[..m])| < MAX_COMPONENTS)
  }

  /** Part `k` is too long, and is met before the 32nd component. */
  ghost predicate LongAt(stack: seq<Name>, parts: seq<Name>, k: nat) {
    && k < |parts| && |parts[k]| >= MAX_LENGTH
    && (forall i :: 0 <= i < k ==> |parts[i]| < MAX_LENGTH)
    && (forall m :: 0 < m <= k ==> |Fold(stack, parts[..m])| < MAX_COMPONENTS)
  }

  /** The same, as the code meets it. */
  predicate MeetsLong(stack: seq<Name>, parts: seq<Name>)
    requires |parts| > 0
    decreases |parts|
  {
    || |parts[0]| >= MAX_LENGTH
    || (&& |parts| > 1 && |Push(stack, parts[0])| < MAX_COMPONENTS
        && MeetsLong(Push(stack, parts[0]), parts[1..]))
  }

  lemma FoldFirst(stack: seq<Name>, parts: seq<Name>, k: nat)
    requires 0 < k <= |parts|
    ensures Fold(stack, parts[..k]) == Fold(Push(stack, parts[0]), parts[1..][..k - 1])
  {
    assert parts[..k][1..] == parts[1..][..k - 1];
  }

  /** Where the parts after the first stop is where all of them stop, one further on. */
  lemma LimitsShift(stack: seq<Name>, parts: seq<Name>, k: nat)
    requires |parts| > 1 && |parts[0]| < MAX_LENGTH && |Push(stack, parts[0])| < MAX_COMPONENTS
    ensures var next, rest := Push(stack, parts[0]), parts[1..];
      && (FullAt(stack, parts, k + 1) <==> FullAt(next, rest, k))
      && (LongAt(stack, parts, k + 1) <==> LongAt(next, rest, k))
      && (WithinLimits(stack, parts) <==> WithinLimits(next, rest))
      && !FullAt(stack, parts, 1) && !LongAt(stack, parts, 0)
  {
    hide Fold, Push;
    var next, rest := Push(stack, parts[0]), parts[1..];
    FoldNone(next);
    forall m | 0 < m <= |parts| ensures Fold(stack, parts[..m]) == Fold(next, rest[..m - 1]) {
      FoldFirst(stack, parts, m);
    }
    assert rest[..0] == [];
    assert forall i :: 0 <= i < |rest| ==> rest[i] == parts[i + 1];
    Shifted(stack, parts, next, rest, k);
  }

  lemma FoldNone(stack: seq<Name>)
    ensures Fold(stack, []) == stack
  {
  }

  lemma Shifted(stack: seq<Name>, parts: seq<Name>, next: seq<Name>, rest: seq<Name>, k: nat)
    requires |parts| > 1 && |rest| == |parts| - 1 && |parts[0]| < MAX_LENGTH && |next| < MAX_COMPONENTS
    requires forall m :: 0 < m <= |parts| ==> Fold(stack, parts[..m]) == Fold(next, rest[..m - 1])
    requires forall i :: 0 <= i < |rest| ==> rest[i] == parts[i + 1]
    requires Fold(next, rest[..0]) == next
    ensures FullAt(stack, parts, k + 1) <==> FullAt(next, rest, k)
    ensures LongAt(stack, parts, k + 1) <==> LongAt(next, rest, k)
    ensures WithinLimits(stack, parts) <==> WithinLimits(next, rest)
    ensures !FullAt(stack, parts, 1) && !LongAt(stack, parts, 0)
  {
    hide Fold;
    assert forall m :: 0 <= m <= |rest| ==> Fold(next, rest[..m]) == Fold(stack, parts[..m + 1]);
    assert forall i :: 0 < i < |parts| ==> parts[i] == rest[i - 1];
  }

  /** The three cases, of which exactly one holds, and what comes out in each. */
  lemma {:induction false} LimitedExact(stack: seq<Name>, parts: seq<Name>)
    requires |parts| > 0 && |stack| < MAX_COMPONENTS
    ensures WithinLimits(stack, parts) || (exists k: nat :: FullAt(stack, parts, k)) || MeetsLong(stack, parts)
    ensures MeetsLong(stack, parts) <==> exists k: nat :: LongAt(stack, parts, k)
    ensures WithinLimits(stack, parts) ==> !MeetsLong(stack, parts) && Limited(stack, parts) == Fold(stack, parts)
    ensures MeetsLong(stack, parts) ==> Limited(stack, parts) == []
    ensures forall k: nat :: FullAt(stack, parts, k) ==>
      !WithinLimits(stack, parts) && !MeetsLong(stack, parts)
      && Limited(stack, parts) == Fold(stack, parts[..k]) && |Limited(stack, parts)| == MAX_COMPONENTS
    decreases |parts|
  {
    hide Push, Fold, FullAt, LongAt, WithinLimits;
    var next := Push(stack, parts[0]);
    PushGrows(stack, parts[0]);
    if |parts[0]| >= MAX_LENGTH || |parts| == 1 || |next| >= MAX_COMPONENTS {
      StopsAtOnce(stack, parts);
    } else {
      LimitedExact(next, parts[1..]);
      CasesShift(stack, parts);
    }
  }

  lemma PushGrows(stack: seq<Name>, part: Name)
    ensures |Push(stack, part)| <= |stack| + 1
  {
  }

  lemma StopsAtOnce(stack: seq<Name>, parts: seq<Name>)
    requires |parts| > 0
    requires |parts[0]| >= MAX_LENGTH || |parts| == 1 || |Push(stack, parts[0])| >= MAX_COMPONENTS
    ensures |parts[0]| >= MAX_LENGTH ==> LongAt(stack, parts, 0) && !WithinLimits(stack, parts)
    ensures |parts[0]| < MAX_LENGTH ==> forall k: nat :: !LongAt(stack, parts, k)
    ensures |parts[0]| < MAX_LENGTH && |parts| == 1 ==> WithinLimits(stack, parts) && Fold(stack, parts) == Push(stack, parts[0])
    ensures |parts[0]| < MAX_LENGTH && |parts| > 1 ==>
      FullAt(stack, parts, 1) && !WithinLimits(stack, parts) && Fold(stack, parts[..1]) == Push(stack, parts[0])
    ensures forall k: nat :: FullAt(stack, parts, k) ==> k == 1 && |parts[0]| < MAX_LENGTH && |parts| > 1
  {
    hide Push;
    FoldFirst(stack, parts, 1);
    assert parts[1..][..0] == [] && parts[..1] == [parts[0]];
    assert |parts| == 1 ==> parts == parts[..1];
  }

  lemma CasesShift(stack: seq<Name>, parts: seq<Name>)
    requires |parts| > 1 && |parts[0]| < MAX_LENGTH && |Push(stack, parts[0])| < MAX_COMPONENTS
    ensures var next, rest := Push(stack, parts[0]), parts[1..];
      && (WithinLimits(stack, parts) <==> WithinLimits(next, rest))
      && ((exists k: nat :: FullAt(stack, parts, k)) <==> exists k: nat :: FullAt(next, rest, k))
      && ((exists k: nat :: LongAt(stack, parts, k)) <==> exists k: nat :: LongAt(next, rest, k))
      && Fold(stack, parts) == Fold(next, rest)
      && forall k: nat :: FullAt(stack, parts, k) ==>
           k > 0 && FullAt(next, rest, k - 1) && Fold(stack, parts[..k]) == Fold(next, rest[..k - 1])
  {
    hide Push;
    var next, rest := Push(stack, parts[0]), parts[1..];
    LimitsShift(stack, parts, 0);
    forall k: nat
      ensures FullAt(stack, parts, k + 1) <==> FullAt(next, rest, k)
      ensures LongAt(stack, parts, k + 1) <==> LongAt(next, rest, k)
    {
      LimitsShift(stack, parts, k);
    }
    ShiftedCases(stack, parts, next, rest);
    forall k: nat | FullAt(stack, parts, k) ensures Fold(stack, parts[..k]) == Fold(next, rest[..k - 1]) {
      FoldFirst(stack, parts, k);
    }
  }

  lemma ShiftedCases(stack: seq<Name>, parts: seq<Name>, next: seq<Name>, rest: seq<Name>)
    requires forall k: nat :: FullAt(stack, parts, k + 1) <==> FullAt(next, rest, k)
    requires forall k: nat :: LongAt(stack, parts, k + 1) <==> LongAt(next, rest, k)
    requires !LongAt(stack, parts, 0)
    ensures (exists k: nat :: FullAt(stack, parts, k)) <==> exists k: nat :: FullAt(next, rest, k)
    ensures (exists k: nat :: LongAt(stack, parts, k)) <==> exists k: nat :: LongAt(next, rest, k)
    ensures forall k: nat :: FullAt(stack, parts, k) ==> k > 0 && FullAt(next, rest, k - 1)
  {
    assert !FullAt(stack, parts, 0);
    hide FullAt, LongAt;
    forall k: nat | FullAt(stack, parts, k) ensures k > 0 && FullAt(next, rest, k - 1) {
      assert FullAt(stack, parts, k - 1 + 1);
    }
    forall k: nat | LongAt(stack, parts, k) ensures k > 0 && LongAt(next, rest, k - 1) {
      assert LongAt(stack, parts, k - 1 + 1);
    }
    forall k: nat | FullAt(next, rest, k) ensures FullAt(stack, parts, k + 1) {
    }
    forall k: nat | LongAt(next, rest, k) ensures LongAt(stack, parts, k + 1) {
    }
  }

  /** A component as a path may yield it. */
  predicate IsComponent(c: Name) {
    0 < |c| < MAX_LENGTH && c != CURRENT && c != PARENT && forall i :: 0 <= i < |c| ==> !IsSeparator(c[i])
  }

  ghost predicate IsCanonical(p: seq<Name>) {
    |p| <= MAX_COMPONENTS && forall i :: 0 <= i < |p| ==> IsComponent(p[i])
  }

  lemma {:induction false} PartsLackSeparators(s: seq<byte>)
    ensures forall k, i :: 0 <= k < |Split(s)| && 0 <= i < |Split(s)[k]| ==> !IsSeparator(Split(s)[k][i])
  {
    if s != [] {
      PartsLackSeparators(s[1..]);
    }
  }

  /** No empty component, no `.` and no `..` comes out, and never more than 32. */
  lemma {:induction false} LimitedIsCanonical(stack: seq<Name>, parts: seq<Name>)
    requires |parts| > 0 && IsCanonical(stack) && |stack| < MAX_COMPONENTS
    requires forall k, i :: 0 <= k < |parts| && 0 <= i < |parts[k]| ==> !IsSeparator(parts[k][i])
    ensures IsCanonical(Limited(stack, parts))
    decreases |parts|
  {
    if |parts[0]| < MAX_LENGTH {
      var next := Push(stack, parts[0]);
      if |parts| > 1 && |next| < MAX_COMPONENTS {
        LimitedIsCanonical(next, parts[1..]);
      }
    }
  }

  /** The path that the code reads: an absolute path itself, a relative one after the current directory if both fit the buffer. */
  function Source(cwd: seq<byte>, path: seq<byte>): (bool, seq<byte>) {
    if path != [] && IsSeparator(path[0]) then (true, path)
    else
      var base := if cwd == [] || cwd[|cwd| - 1] != SLASH then cwd + [SLASH] else cwd;
      (|base| + |path| < MAX_COMPONENTS * MAX_LENGTH, base + path)
  }

  /** What a path names from the current directory. */
  function Resolved(cwd: seq<byte>, path: seq<byte>): seq<Name> {
    var (fits, source) := Source(cwd, path);
    if fits then Limited([], Split(source)) else []
  }

  /** `getpath`. */
  method GetPath(cwd: seq<byte>, path: seq<byte>) returns (r: seq<Name>)
    requires |cwd| < MAX_LENGTH
    ensures r == Resolved(cwd, path)
    ensures IsCanonical(r)
  {
    var source := path;
    if path == [] || !IsSeparator(path[0]) {
      var combined := cwd;
      if |combined| == 0 {
        combined := [SLASH];
      } else if combined[|combined| - 1] != SLASH {
        combined := combined + [SLASH];
      }
      if |combined| + |path| >= MAX_COMPONENTS * MAX_LENGTH {
        return [];
      }
      source := combined + path;
    }
    r := Parse(source);
  }

  /** The loop of `getpath`. */
  method Parse(source: seq<byte>) returns (r: seq<Name>)
    ensures r == Limited([], Split(source))
    ensures IsCanonical(r)
  {
    hide Split, Push, Limited, IsSeparator, PARENT, CURRENT;
    PartsLackSeparators(source);
    LimitedIsCanonical([], Split(source));
    r := [];
    var component: Name := [];
    var i := 0;
    SplitEmpty(source);
    assert source[0..] == source;
    while i < |source|
      invariant 0 <= i <= |source| && |r| < MAX_COMPONENTS && |component| < MAX_LENGTH
      invariant Limited(r, SplitWith(component, source[i..])) == Limited([], Split(source))
    {
      var c := source[i];
      assert source[i..][1..] == source[i + 1..];
      SplitStep(component, source[i..]);
      LimitedStep(r, component, Split(source[i + 1..]));
      i := i + 1;
      if IsSeparator(c) {
        var pushed := PushComponent(r, component);
        r := pushed;
        if |r| >= MAX_COMPONENTS {
          return;
        }
        component := [];
        SplitEmpty(source[i..]);
      } else if |component| < MAX_LENGTH - 1 {
        component := component + [c];
      } else {
        LimitedLong(r, component + [c], source[i..]);
        return [];
      }
    }
    SplitEnd(component, source[|source|..]);
    LimitedLast(r, component);
    r := PushComponent(r, component);
  }

  /** A finished component: dropped, taken back, or kept. */
  method PushComponent(stack: seq<Name>, component: Name) returns (r: seq<Name>)
    ensures r == Push(stack, component)
  {
    if |component| == 0 || component == CURRENT {
      return stack;
    }
    if component == PARENT {
      if |stack| > 0 {
        return stack[..|stack| - 1];
      }
      return stack;
    }
    return stack + [component];
  }

  /** The parts that remain when `component` has been read of the next one. */
  function SplitWith(component: Name, rest: seq<byte>): (parts: seq<Name>)
    ensures |parts| > 0
  {
    [component + Split(rest)[0]] + Split(rest)[1..]
  }

  lemma SplitEmpty(s: seq<byte>)
    ensures SplitWith([], s) == Split(s)
  {
    assert [] + Split(s)[0] == Split(s)[0];
  }

  lemma SplitStep(component: Name, rest: seq<byte>)
    requires rest != []
    ensures SplitWith(component, rest) ==
      if IsSeparator(rest[0]) then [component] + Split(rest[1..]) else SplitWith(component + [rest[0]], rest[1..])
  {
    assert component + [] == component;
    assert component + ([rest[0]] + Split(rest[1..])[0]) == component + [rest[0]] + Split(rest[1..])[0];
  }

  lemma SplitEnd(component: Name, rest: seq<byte>)
    requires rest == []
    ensures SplitWith(component, rest) == [component]
  {
    assert component + [] == component;
  }

  lemma LimitedStep(stack: seq<Name>, component: Name, parts: seq<Name>)
    requires |component| < MAX_LENGTH && |parts| > 0
    ensures Limited(stack, [component] + parts) ==
      var next := Push(stack, component); if |next| >= MAX_COMPONENTS then next else Limited(next, parts)
  {
    assert ([component] + parts)[1..] == parts;
  }

  lemma LimitedLong(stack: seq<Name>, component: Name, rest: seq<byte>)
    requires |component| >= MAX_LENGTH
    ensures Limited(stack, SplitWith(component, rest)) == []
  {
  }

  lemma LimitedLast(stack: seq<Name>, component: Name)
    requires |component| < MAX_LENGTH
    ensures Limited(stack, [component]) == Push(stack, component)
  {
  }

  // ----- printing -----

  /** The components one after the other, each after a slash; empty ones are passed over. */
  function Joined(p: seq<Name>): seq<byte> {
    if p == [] then [] else Joined(p[..|p| - 1]) + (if p[|p| - 1] == [] then [] else [SLASH] + p[|p| - 1])
  }

  function Printed(p: seq<Name>): (s: seq<byte>) {
    if Joined(p) == [] then [SLASH] else Joined(p)
  }

  /** `fat_build_path_from_components`: it succeeds exactly when the path and its final zero fit. */
  method BuildPath(p: seq<Name>, size: nat) returns (ok: bool, output: seq<byte>)
    ensures ok == (|Printed(p)| < size)
    ensures ok ==> output == Printed(p)
  {
    output := [];
    if size == 0 {
      return false, output;
    }
    if |p| == 0 {
      return size >= 2, [SLASH];
    }
    for i := 0 to |p|
      invariant output == Joined(p[..i]) && |output| < size
    {
      assert p[..i + 1][..i] == p[..i];
      JoinedGrows(p, i + 1);
      if |p[i]| == 0 {
        continue;
      }
      if |output| + 1 + |p[i]| + 1 > size {
        return false, output;
      }
      output := output + [SLASH] + p[i];
    }
    assert p[..|p|] == p;
    if |output| == 0 {
      return size >= 2, [SLASH];
    }
    ok := true;
  }

  lemma {:induction false} JoinedGrows(p: seq<Name>, k: nat)
    requires k <= |p|
    ensures |Joined(p[..k])| <= |Joined(p)|
    decreases |p|
  {
    if k < |p| {
      JoinedGrows(p[..|p| - 1], k);
      assert p[..|p| - 1][..k] == p[..k];
    } else {
      assert p[..k] == p;
    }
  }

  // ----- printing and parsing are inverse -----

  lemma {:induction false} SplitPlain(c: Name)
    requires forall i :: 0 <= i < |c| ==> !IsSeparator(c[i])
    ensures Split(c) == [c]
  {
    if c != [] {
      SplitPlain(c[1..]);
      assert [c[0]] + c[1..] == c;
    }
  }

  lemma SplitCons(c: byte, rest: seq<byte>)
    ensures Split([c] + rest) ==
      if IsSeparator(c) then [[]] + Split(rest) else [[c] + Split(rest)[0]] + Split(rest)[1..]
  {
    assert ([c] + rest)[1..] == rest;
  }

  /** The parts of two paths joined by a separator are the parts of both. */
  lemma {:induction false} SplitJoin(x: seq<byte>, c: byte, y: seq<byte>)
    requires IsSeparator(c)
    ensures Split(x + [c] + y) == Split(x) + Split(y)
  {
    hide Split, IsSeparator;
    if x == [] {
      SplitNothing();
      assert x + [c] + y == [c] + y;
      SplitCons(c, y);
    } else {
      SplitJoin(x[1..], c, y);
      assert x + [c] + y == [x[0]] + (x[1..] + [c] + y) && x == [x[0]] + x[1..];
      SplitCons(x[0], x[1..] + [c] + y);
      SplitCons(x[0], x[1..]);
      SplitRest(x[0], Split(x[1..]), Split(y));
    }
  }

  lemma SplitRest(c: byte, r: seq<Name>, y: seq<Name>)
    requires |r| > 0
    ensures [[]] + (r + y) == [[]] + r + y
    ensures [[c] + (r + y)[0]] + (r + y)[1..] == [[c] + r[0]] + r[1..] + y
  {
  }

  lemma {:induction false} SplitJoined(p: seq<Name>)
    requires p != [] && forall i :: 0 <= i < |p| ==> IsComponent(p[i])
    ensures Split(Joined(p)) == [[]] + p && Joined(p) != [] && Joined(p)[0] == SLASH
  {
    hide Split;
    var n := |p| - 1;
    SplitPlain(p[n]);
    SplitNothing();
    assert Joined(p) == Joined(p[..n]) + [SLASH] + p[n];
    SplitJoin(Joined(p[..n]), SLASH, p[n]);
    if n > 0 {
      SplitJoined(p[..n]);
      assert [[]] + p[..n] + [p[n]] == [[]] + p;
    } else {
      assert Joined(p[..0]) == [] && p == [p[0]];
    }
  }

  lemma SplitNothing()
    ensures Split([]) == [[]]
  {
  }

  /** Components are pushed one after the other, and the rest of the path starts from there. */
  lemma {:induction false} LimitedAppend(stack: seq<Name>, p: seq<Name>, parts: seq<Name>)
    requires (forall i :: 0 <= i < |p| ==> IsComponent(p[i])) && |stack| + |p| <= MAX_COMPONENTS && |stack| < MAX_COMPONENTS
    requires |parts| > 0
    ensures Limited(stack, p + parts) == if |stack| + |p| < MAX_COMPONENTS then Limited(stack + p, parts) else stack + p
    decreases |p|
  {
    if p == [] {
      assert p + parts == parts && stack + p == stack;
    } else {
      assert (p + parts)[1..] == p[1..] + parts;
      assert stack + p == stack + [p[0]] + p[1..];
      if |stack| + 1 < MAX_COMPONENTS {
        LimitedAppend(stack + [p[0]], p[1..], parts);
      } else {
        assert p == [p[0]];
      }
    }
  }

  lemma LimitedSkips(stack: seq<Name>, parts: seq<Name>)
    requires |stack| < MAX_COMPONENTS && |parts| > 0
    ensures Limited(stack, [[]] + parts) == Limited(stack, parts)
  {
    LimitedStep(stack, [], parts);
  }

  /** A path after a printed one is read from where the printed one leads; after 32 components nothing more is read. */
  lemma ParseAfterPrinted(p: seq<Name>, path: seq<byte>)
    requires IsCanonical(p)
    ensures var base := if p == [] then [SLASH] else Printed(p) + [SLASH];
      Limited([], Split(base + path)) == if |p| < MAX_COMPONENTS then Limited(p, Split(path)) else p
  {
    hide *;
    if p == [] {
      ParseAfterRoot(path);
    } else {
      CanonicalMeans(p);
      SplitJoined(p);
      PrintedJoined(p);
      SplitJoin(Joined(p), SLASH, path);
      LimitedFromRoot(p, Split(path));
    }
  }

  lemma LimitedFromRoot(p: seq<Name>, parts: seq<Name>)
    requires |p| <= MAX_COMPONENTS && (forall i :: 0 <= i < |p| ==> IsComponent(p[i])) && |parts| > 0
    ensures |[[]] + p + parts| > 0
    ensures Limited([], [[]] + p + parts) == if |p| < MAX_COMPONENTS then Limited(p, parts) else p
  {
    hide Limited, IsComponent;
    assert [[]] + p + parts == [[]] + (p + parts);
    LimitedSkips([], p + parts);
    LimitedAppend([], p, parts);
    assert [] + p == p;
  }

  lemma CanonicalMeans(p: seq<Name>)
    requires IsCanonical(p)
    ensures |p| <= MAX_COMPONENTS && MAX_COMPONENTS == 32 && IsSeparator(SLASH)
    ensures forall i :: 0 <= i < |p| ==> IsComponent(p[i])
  {
    hide IsComponent;
  }

  lemma PrintedJoined(p: seq<Name>)
    requires Joined(p) != []
    ensures Printed(p) == Joined(p)
  {
  }

  lemma ParseAfterRoot(path: seq<byte>)
    ensures Limited([], Split([SLASH] + path)) == Limited([], Split(path)) && 0 < MAX_COMPONENTS
  {
    hide Split, Limited;
    SplitNothing();
    assert [] + [SLASH] + path == [SLASH] + path;
    SplitJoin([], SLASH, path);
    LimitedSkips([], Split(path));
  }

  /** Re-parsing what was printed gives the same components. */
  lemma ParsePrinted(p: seq<Name>)
    requires IsCanonical(p)
    ensures Limited([], Split(Printed(p))) == p
  {
    hide Split, Limited;
    if p == [] {
      SplitNothing();
      assert [] + [SLASH] + [] == [SLASH];
      SplitJoin([], SLASH, []);
      LimitedSkips([], [[]]);
      LimitedLast([], []);
    } else {
      var n := |p| - 1;
      SplitJoined(p);
      assert p == p[..n] + [p[n]];
      LimitedSkips([], p);
      LimitedAppend([], p[..n], [p[n]]);
      assert [] + p[..n] == p[..n];
      LimitedLast(p[..n], p[n]);
    }
  }

  lemma PrintedStarts(p: seq<Name>)
    requires IsCanonical(p)
    ensures Printed(p) != [] && IsSeparator(Printed(p)[0])
    ensures if p == [] then Printed(p) == [SLASH] else Printed(p)[|Printed(p)| - 1] != SLASH
  {
    if p != [] {
      SplitJoined(p);
      var n := |p| - 1;
      assert Joined(p) == Joined(p[..n]) + ([SLASH] + p[n]);
      assert Joined(p)[|Joined(p)| - 1] == p[n][|p[n]| - 1];
    }
  }

  /** The same from any current directory: a printed path is absolute. */
  lemma ResolvePrinted(cwd: seq<byte>, p: seq<Name>)
    requires IsCanonical(p)
    ensures Resolved(cwd, Printed(p)) == p
  {
    hide Split, Limited;
    PrintedStarts(p);
    ParsePrinted(p);
  }

  /**
   A relative path is read from the components of the current directory: it names what its fold
   reaches from there, and what the same path appended to the current directory names.
   */
  lemma ResolveRelative(p: seq<Name>, path: seq<byte>)
    requires IsCanonical(p) && (path == [] || !IsSeparator(path[0]))
    requires |Printed(p)| + 1 + |path| < MAX_COMPONENTS * MAX_LENGTH
    ensures Resolved(Printed(p), path) == if |p| < MAX_COMPONENTS then Limited(p, Split(path)) else p
    ensures Resolved(Printed(p), path) == Resolved([], Printed(p) + [SLASH] + path)
    ensures |p| < MAX_COMPONENTS && WithinLimits(p, Split(path)) ==> Resolved(Printed(p), path) == Fold(p, Split(path))
  {
    hide Split, Limited, Fold;
    PrintedStarts(p);
    ParseAfterPrinted(p, path);
    if p == [] {
      SlashesAlike(path);
    }
    if |p| < MAX_COMPONENTS && WithinLimits(p, Split(path)) {
      LimitedExact(p, Split(path));
    }
  }

  lemma SlashesAlike(path: seq<byte>)
    ensures Limited([], Split([SLASH] + [SLASH] + path)) == Limited([], Split([SLASH] + path))
  {
    hide Split, Limited;
    SplitNothing();
    SplitJoin([], SLASH, [SLASH] + path);
    SplitJoin([], SLASH, path);
    assert [] + [SLASH] + ([SLASH] + path) == [SLASH] + [SLASH] + path;
    assert [] + [SLASH] + path == [SLASH] + path;
    LimitedSkips([], Split([SLASH] + path));
  }

  // ----- what dots, separators and components do -----

  // Nothing here relies on how a part is pushed: with what a canonical list folds to, these facts determine the fold.

  /** A component, in bytes: not empty, not `.` or `..`, and without either separator. */
  ghost predicate IsPlainPart(c: Name) {
    0 < |c| < 256 && c != [0x2E] && c != [0x2E, 0x2E] && forall i :: 0 <= i < |c| ==> c[i] != 0x2F && c[i] != 0x5C
  }

  lemma PlainIsComponent(c: Name)
    ensures IsPlainPart(c) <==> IsComponent(c)
  {
  }

  lemma {:induction false} FoldJoin(stack: seq<Name>, x: seq<Name>, y: seq<Name>)
    ensures Fold(stack, x + y) == Fold(Fold(stack, x), y)
    decreases |x|
  {
    hide Push;
    if x == [] {
      assert x + y == y;
    } else {
      FoldJoin(Push(stack, x[0]), x[1..], y);
      assert (x + y)[1..] == x[1..] + y;
    }
  }

  /** `..` takes back the component before it, and at the root nothing; `.` and empty parts do nothing. */
  lemma FoldDots(stack: seq<Name>, c: Name)
    requires IsPlainPart(c)
    ensures Fold(stack, [c]) == stack + [c]
    ensures Fold(stack, [c, [0x2E, 0x2E]]) == stack && Fold([], [[0x2E, 0x2E]]) == []
    ensures Fold(stack, [[0x2E]]) == stack && Fold(stack, [[]]) == stack
  {
    var up: Name := [0x2E, 0x2E];
    assert [c, up][1..] == [up] && (stack + [c])[..|stack|] == stack;
    assert Fold(stack + [c], [up]) == Fold(stack, []);
  }

  /** Wherever these parts stand in a path, they may as well be left out. */
  lemma FoldWithout(stack: seq<Name>, x: seq<Name>, c: Name, y: seq<Name>)
    requires IsPlainPart(c)
    ensures Fold(stack, x + [c, [0x2E, 0x2E]] + y) == Fold(stack, x + y)
    ensures Fold(stack, x + [[0x2E]] + y) == Fold(stack, x + y)
    ensures Fold(stack, x + [[]] + y) == Fold(stack, x + y)
  {
    hide Fold;
    FoldDots(Fold(stack, x), c);
    FoldJoin(stack, x, y);
    FoldAround(stack, x, [c, [0x2E, 0x2E]], y);
    FoldAround(stack, x, [[0x2E]], y);
    FoldAround(stack, x, [[]], y);
  }

  lemma FoldAround(stack: seq<Name>, x: seq<Name>, z: seq<Name>, y: seq<Name>)
    ensures Fold(stack, x + z + y) == Fold(Fold(Fold(stack, x), z), y)
  {
    hide Fold;
    FoldJoin(stack, x + z, y);
    FoldJoin(stack, x, z);
  }

  lemma SplitDots()
    ensures Split([0x2E, 0x2E]) == [[0x2E, 0x2E]] && Split([0x2E]) == [[0x2E]] && Split([]) == [[]]
  {
    SplitPlain([0x2E, 0x2E]);
    SplitPlain([0x2E]);
  }

  /** Parts after a path that leads to `p`, while there are fewer than 32 components. */
  lemma AfterIs(p: seq<Name>, part: Name)
    requires IsCanonical(p) && |p| < 32 && |part| < 256
    ensures Limited(p, [part]) == Fold(p, [part])
  {
    LimitedLast(p, part);
    assert [part][1..] == [];
  }

  /** The parent of a directory: `/x/y/..` is `/x`. Once there are 32 components nothing more is read. */
  lemma Parent(cwd: seq<byte>, p: seq<Name>, c: Name)
    requires IsCanonical(p) && IsPlainPart(c) && |p| < 32
    ensures Resolved(cwd, Printed(p + [c]) + [0x2F, 0x2E, 0x2E]) == if |p| + 1 < 32 then p else p + [c]
  {
    hide Split, Limited, Fold, Printed;
    PlainIsComponent(c);
    var r := p + [c];
    PrintedStarts(r);
    ParseAfterPrinted(r, [0x2E, 0x2E]);
    assert Printed(r) + [SLASH] + [0x2E, 0x2E] == Printed(r) + [0x2F, 0x2E, 0x2E];
    SplitDots();
    if |r| < 32 {
      AfterIs(r, [0x2E, 0x2E]);
      FoldDots(p, c);
      FoldJoin(p, [c], [[0x2E, 0x2E]]);
      assert [c] + [[0x2E, 0x2E]] == [c, [0x2E, 0x2E]];
    }
  }

  /** Down and up again from the current directory: `y/..` leads nowhere. */
  lemma DownAndUp(p: seq<Name>, c: Name)
    requires IsCanonical(p) && IsPlainPart(c) && |p| < 32 && |Printed(p)| + |c| + 4 < 32 * 256
    ensures Resolved(Printed(p), c + [0x2F, 0x2E, 0x2E]) == if |p| + 1 < 32 then p else p + [c]
  {
    hide Split, Limited, Fold, Printed, Resolved;
    PlainIsComponent(c);
    var path := c + [0x2F, 0x2E, 0x2E];
    assert path[0] == c[0];
    ResolveRelative(p, path);
    SplitJoin(c, 0x2F, [0x2E, 0x2E]);
    assert c + [0x2F] + [0x2E, 0x2E] == path;
    SplitPlain(c);
    SplitDots();
    assert [c] + [[0x2E, 0x2E]] == [c, [0x2E, 0x2E]];
    FoldDots(p, c);
    TwoParts(p, c, [0x2E, 0x2E]);
  }

  lemma TwoParts(p: seq<Name>, c: Name, d: Name)
    requires IsPlainPart(c) && |d| < 256
    ensures Limited(p, [c, d]) == if |p| + 1 < 32 then Fold(p, [c, d]) else p + [c]
  {
    assert [c, d][1..] == [d] && [d][1..] == [];
    FoldDots(p, c);
    LimitedLast(p + [c], d);
    assert Fold(p + [c], [d]) == Fold(Push(p + [c], d), []);
  }

  /** The root is its own parent. */
  lemma ParentOfRoot(cwd: seq<byte>)
    ensures Resolved(cwd, [0x2F, 0x2E, 0x2E]) == []
  {
    hide Split, Limited, Fold;
    ParseAfterRoot([0x2E, 0x2E]);
    assert [SLASH] + [0x2E, 0x2E] == [0x2F, 0x2E, 0x2E];
    SplitDots();
    AfterIs([], [0x2E, 0x2E]);
    FoldDots([], [0x61]);
  }

  /** `.` and a separator too many change nothing: `a/./b` and `a//b` are `a/b`, as far as they fit the buffer. */
  lemma DotsNothing(cwd: seq<byte>, a: seq<byte>, b: seq<byte>)
    requires a != [] && Source(cwd, a + [0x2F, 0x2E, 0x2F] + b).0
    ensures Resolved(cwd, a + [0x2F, 0x2E, 0x2F] + b) == Resolved(cwd, a + [0x2F] + b)
    ensures Resolved(cwd, a + [0x2F, 0x2F] + b) == Resolved(cwd, a + [0x2F] + b)
  {
    hide Split, Limited;
    var x, y, z := a + [0x2F] + b, a + [0x2F, 0x2E, 0x2F] + b, a + [0x2F, 0x2F] + b;
    assert x[0] == y[0] == z[0] == a[0];
    var head := Source(cwd, a).1;
    assert Source(cwd, x).1 == head + [0x2F] + b;
    assert Source(cwd, y).1 == head + [0x2F] + ([0x2E] + [0x2F] + b);
    assert Source(cwd, z).1 == head + [0x2F] + ([] + [0x2F] + b);
    SplitDots();
    SplitJoin(head, 0x2F, b);
    SplitJoin([0x2E], 0x2F, b);
    SplitJoin([], 0x2F, b);
    SplitJoin(head, 0x2F, [0x2E] + [0x2F] + b);
    SplitJoin(head, 0x2F, [] + [0x2F] + b);
    LimitedWithout([], Split(head), [0x2E], Split(b));
    LimitedWithout([], Split(head), [], Split(b));
  }

  lemma {:induction false} LimitedWithout(stack: seq<Name>, x: seq<Name>, d: Name, y: seq<Name>)
    requires |x| > 0 && |y| > 0 && (d == [0x2E] || d == [])
    ensures Limited(stack, x + ([d] + y)) == Limited(stack, x + y)
    decreases |x|
  {
    hide Push;
    assert (x + ([d] + y))[0] == (x + y)[0] == x[0];
    assert (x + ([d] + y))[1..] == x[1..] + ([d] + y) && (x + y)[1..] == x[1..] + y;
    if |x[0]| < MAX_LENGTH && |Push(stack, x[0])| < MAX_COMPONENTS {
      if |x| == 1 {
        assert x[1..] + ([d] + y) == [d] + y && x[1..] + y == y;
        LimitedStep(Push(stack, x[0]), d, y);
        PushNothing(Push(stack, x[0]), d);
      } else {
        LimitedWithout(Push(stack, x[0]), x[1..], d, y);
      }
    }
  }

  lemma PushNothing(stack: seq<Name>, d: Name)
    requires d == [0x2E] || d == []
    ensures Push(stack, d) == stack
  {
  }

  /** A part of up to 255 bytes is a component; a longer one gives nothing at all, and so does a path too long for the buffer. */
  lemma PartLimit(cwd: seq<byte>, c: Name)
    requires c != [] && forall i :: 0 <= i < |c| ==> c[i] != 0x2F && c[i] != 0x5C
    ensures Resolved(cwd, [0x2F] + c) == if |c| > 255 || c == [0x2E] || c == [0x2E, 0x2E] then [] else [c]
    ensures |cwd| > 0 && cwd[|cwd| - 1] != 0x2F ==> (Source(cwd, c).0 <==> |cwd| + 1 + |c| < 8192)
    ensures !Source(cwd, c).0 ==> Resolved(cwd, c) == []
  {
    hide Split, Limited;
    SplitPlain(c);
    ParseAfterRoot(c);
    NotFitting(cwd, c);
    OnePart(c);
  }

  lemma OnePart(c: Name)
    requires c != []
    ensures Limited([], [c]) == if |c| > 255 || c == [0x2E] || c == [0x2E, 0x2E] then [] else [c]
  {
  }

  /** A slash and a backslash separate alike, and nothing else does. */
  lemma {:induction false} SeparatorsAlike(s: seq<byte>, s': seq<byte>)
    requires |s| == |s'|
    requires forall i :: 0 <= i < |s| ==> s'[i] == s[i] || (s[i] in {0x2F, 0x5C} && s'[i] in {0x2F, 0x5C})
    ensures Split(s) == Split(s')
    ensures (forall i :: 0 <= i < |s| ==> s[i] !in {0x2F, 0x5C}) ==> Split(s) == [s]
  {
    if s != [] {
      SeparatorsAlike(s[1..], s'[1..]);
      assert [s[0]] + s[1..] == s;
    }
  }

  /** A printed path: a slash before every component, or a slash alone. */
  lemma PrintedIs(p: seq<Name>, c: Name)
    requires c != []
    ensures Printed([]) == [0x2F] && Printed([c]) == [0x2F] + c
    ensures p != [] && Printed(p) != [0x2F] ==> Printed(p + [c]) == Printed(p) + [0x2F] + c
  {
    assert (p + [c])[..|p|] == p && [c][..0] == [];
  }

  // ----- the current directory -----

  /** Where a relative path leads from `p`: nowhere else once there are 32 components. */
  function After(p: seq<Name>, path: seq<byte>): seq<Name> {
    if |p| < MAX_COMPONENTS then Limited(p, Split(path)) else p
  }

  /** A path that the code gives up because a part is too long. */
  predicate GivesUp(p: seq<Name>, path: seq<byte>) {
    if path != [] && IsSeparator(path[0]) then MeetsLong([], Split(path))
    else |p| < MAX_COMPONENTS && MeetsLong(p, Split(path))
  }

  /** More parts go on where the first ones stopped, unless a part was too long or the list is full. */
  lemma {:induction false} LimitedJoin(stack: seq<Name>, x: seq<Name>, y: seq<Name>)
    requires |x| > 0 && |y| > 0
    ensures Limited(stack, x + y) ==
      if MeetsLong(stack, x) then []
      else if |Limited(stack, x)| < MAX_COMPONENTS then Limited(Limited(stack, x), y) else Limited(stack, x)
    decreases |x|
  {
    hide Push;
    assert (x + y)[0] == x[0] && (x + y)[1..] == x[1..] + y;
    if |x[0]| < MAX_LENGTH {
      if |x| == 1 {
        assert x[1..] + y == y;
      } else if |Push(stack, x[0])| < MAX_COMPONENTS {
        LimitedJoin(Push(stack, x[0]), x[1..], y);
      }
    }
  }

  /** What the path `a/b` names, from the components that `a` leads to. */
  lemma ResolveJoined(p: seq<Name>, a: seq<byte>, b: seq<byte>)
    requires IsCanonical(p) && a != []
    ensures var cwd, ab := Printed(p), a + [SLASH] + b;
      Source(cwd, ab).0 ==>
        Resolved(cwd, ab) == if GivesUp(p, a) then [] else After(Resolved(cwd, a), b)
  {
    hide Split, Limited, MeetsLong, IsCanonical;
    var cwd, ab := Printed(p), a + [SLASH] + b;
    assert ab[0] == a[0];
    SplitJoin(a, SLASH, b);
    PrintedStarts(p);
    if IsSeparator(a[0]) {
      LimitedJoin([], Split(a), Split(b));
    } else {
      ParseAfterPrinted(p, a);
      ParseAfterPrinted(p, ab);
      if |p| < MAX_COMPONENTS {
        LimitedJoin(p, Split(a), Split(b));
      }
    }
  }

  /** What the relative path `b` names. */
  lemma ResolveAfter(p: seq<Name>, b: seq<byte>)
    requires IsCanonical(p) && (b == [] || !IsSeparator(b[0]))
    ensures Resolved(Printed(p), b) == if Source(Printed(p), b).0 then After(p, b) else []
  {
    hide Split, Limited, IsCanonical;
    PrintedStarts(p);
    ParseAfterPrinted(p, b);
  }

  /** The outcome of `fat_chdir`; `found` tells whether the volume has the directory. */
  ghost predicate Changed(cwd: seq<byte>, path: seq<byte>, found: bool, cwd': seq<byte>, r: int) {
    var p := Resolved(cwd, path);
    if p == [] || (found && |Printed(p)| < MAX_LENGTH) then r == 0 && cwd' == Printed(p)
    else r == -1 && cwd' == cwd
  }

  /**
   Going to `a` and from there to the relative path `b` is going to `a/b`, for directories that
   exist: both succeed, and lead to the same place, exactly when they name the same components and
   these fit the buffer. They name the same exactly when nothing is cut off on one way only: `a/b` is
   cut off when it does not fit its buffer or a part of `a` is too long, the second step when `b` does
   not fit.
   */
  lemma TwoSteps(p: seq<Name>, a: seq<byte>, b: seq<byte>, cwd1: seq<byte>, cwd2: seq<byte>, r2: int,
                 cwd3: seq<byte>, r3: int)
    requires IsCanonical(p) && a != [] && (b == [] || !IsSeparator(b[0]))
    requires Changed(Printed(p), a, true, cwd1, 0)
    requires Changed(cwd1, b, true, cwd2, r2) && Changed(Printed(p), a + [SLASH] + b, true, cwd3, r3)
    ensures var two, one := Resolved(cwd1, b), Resolved(Printed(p), a + [SLASH] + b);
      && (r2 == 0 && r3 == 0 && cwd2 == cwd3 <==> two == one && |Printed(two)| < MAX_LENGTH)
      && (two == one <==>
            || After(Resolved(Printed(p), a), b) == []
            || (Source(Printed(p), a + [SLASH] + b).0 && !GivesUp(p, a) <==> Source(cwd1, b).0))
  {
    hide Split, Limited, MeetsLong, IsCanonical, Printed, Source, GivesUp, After, Resolved;
    var cwd := Printed(p);
    var r := Resolved(cwd, a);
    ResolvedCanonical(cwd, a);
    ResolvedCanonical(cwd, a + [SLASH] + b);
    ResolvedCanonical(cwd1, b);
    assert cwd1 == Printed(r);
    ResolveJoined(p, a, b);
    ResolveAfter(r, b);
    NotFitting(cwd, a + [SLASH] + b);
    PrintedNothing();
    PrintedOnce(Resolved(cwd1, b), Resolved(cwd, a + [SLASH] + b));
  }

  lemma NotFitting(cwd: seq<byte>, path: seq<byte>)
    ensures !Source(cwd, path).0 ==> Resolved(cwd, path) == []
  {
  }

  lemma ResolvedCanonical(cwd: seq<byte>, path: seq<byte>)
    ensures IsCanonical(Resolved(cwd, path))
  {
    hide Split, Limited;
    var (fits, source) := Source(cwd, path);
    PartsLackSeparators(source);
    LimitedIsCanonical([], Split(source));
  }

  /** Different components are printed differently. */
  lemma PrintedOnce(p: seq<Name>, q: seq<Name>)
    requires IsCanonical(p) && IsCanonical(q)
    ensures Printed(p) == Printed(q) ==> p == q
  {
    hide Printed, IsCanonical;
    ParsePrinted(p);
    ParsePrinted(q);
  }

  class WorkingDirectory {
    var cwd: seq<byte>

    constructor ()
      ensures Valid() && Here() == []
    {
      cwd := [SLASH];
      new;
      ParsePrinted([]);
      assert IsCurrent([], cwd);
    }

    /** The current directory is the printed form of a canonical path, and it fits its buffer. */
    ghost predicate Valid()
      reads this
    {
      exists p :: IsCurrent(p, cwd)
    }

    ghost function Here(): seq<Name>
      reads this
    {
      Limited([], Split(cwd))
    }

    /** `fat_chdir`; `found` tells whether the volume has the directory. */
    method Change(path: seq<byte>, found: bool) returns (r: int)
      requires Valid()
      modifies this
      ensures Valid() && Changed(old(cwd), path, found, cwd, r)
      ensures r == 0 ==> Here() == Resolved(old(cwd), path)
    {
      hide Split, Limited, Resolved, Joined, IsCanonical, Printed;
      var parsed := GetPath(cwd, path);
      ParsePrinted(parsed);
      if |parsed| == 0 {
        PrintedNothing();
        cwd := [SLASH];
        assert IsCurrent(parsed, cwd);
        return 0;
      }
      if !found {
        return -1;
      }
      var ok, printed := BuildPath(parsed, MAX_LENGTH);
      if !ok {
        return -1;
      }
      cwd := printed;
      assert IsCurrent(parsed, cwd);
      return 0;
    }
  }

  ghost predicate IsCurrent(p: seq<Name>, cwd: seq<byte>) {
    IsCanonical(p) && cwd == Printed(p) && |cwd| < MAX_LENGTH
  }

  lemma PrintedNothing()
    ensures Printed([]) == [SLASH] && |[SLASH]| < MAX_LENGTH
  {
  }
}
