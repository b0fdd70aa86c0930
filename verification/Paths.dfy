/**
 * Path normalisation of the in-memory file system: `PATH.normalizeArray`
 * walks the components backwards with a counter, `PATH.normalize` wraps it
 * between `split('/')` and `join('/')`. The reference is the forward walk that
 * keeps a stack of directories.
 */
module Paths {
  type Components = seq<string>

  // ----- the forward walk -----

  /** "..": leave the current directory. At the top the step is recorded when
      the path may climb above its start, and ignored otherwise. */
  function Leave(stack: Components, above: bool): Components {
    if stack != [] && stack[|stack| - 1] != ".." then stack[..|stack| - 1]
    else if above then stack + [".."]
    else stack
  }

  function Walk(stack: Components, parts: Components, above: bool): Components
    decreases parts
  {
    if parts == [] then stack
    else if parts[0] == "." then Walk(stack, parts[1..], above)
    else if parts[0] == ".." then Walk(Leave(stack, above), parts[1..], above)
    else Walk(stack + [parts[0]], parts[1..], above)
  }

  function LeaveTimes(stack: Components, n: nat, above: bool): Components
    decreases n
  {
    if n == 0 then stack else LeaveTimes(Leave(stack, above), n - 1, above)
  }

  // ----- the backward walk -----

  /** What the loop has left of the components it passed, and its counter. */
  datatype Suffix = Suffix(up: nat, kept: Components)

  function Backward(parts: Components): Suffix {
    if parts == [] then Suffix(0, [])
    else
      var later := Backward(parts[1..]);
      if parts[0] == "." then later
      else if parts[0] == ".." then later.(up := later.up + 1)
      else if later.up > 0 then later.(up := later.up - 1)
      else later.(kept := [parts[0]] + later.kept)
  }

  predicate Names(parts: Components) {
    forall i :: 0 <= i < |parts| ==> parts[i] != "." && parts[i] != ".."
  }

  lemma {:induction false} BackwardKeepsNames(parts: Components)
    ensures Names(Backward(parts).kept)
  {
    if parts != [] { BackwardKeepsNames(parts[1..]); }
  }

  function Dots(n: nat): (d: Components)
    ensures |d| == n
  {
    seq(n, _ => "..")
  }

  /** A suffix acts on every stack as `up` steps out and then `kept` steps in. */
  lemma {:induction false} WalkIsBackward(stack: Components, parts: Components, above: bool)
    ensures Walk(stack, parts, above) ==
            LeaveTimes(stack, Backward(parts).up, above) + Backward(parts).kept
    decreases parts
  {
    if parts != [] {
      var p, rest, later := parts[0], parts[1..], Backward(parts[1..]);
      if p == "." {
        WalkIsBackward(stack, rest, above);
      } else if p == ".." {
        WalkIsBackward(Leave(stack, above), rest, above);
      } else {
        WalkIsBackward(stack + [p], rest, above);
        assert Leave(stack + [p], above) == stack;
        assert stack + [p] + later.kept == stack + ([p] + later.kept);
      }
    }
  }

  lemma {:induction false} LeaveTop(depth: nat, n: nat, above: bool)
    ensures LeaveTimes(Dots(depth), n, above) == Dots(if above then depth + n else depth)
    decreases n
  {
    if n > 0 {
      assert Leave(Dots(depth), above) == Dots(if above then depth + 1 else depth);
      LeaveTop(if above then depth + 1 else depth, n - 1, above);
    }
  }

  /** `normalizeArray`: scan backwards, splicing out ".", "..", and the names
      that a later ".." cancels; then put back the unmatched ".."s. */
  method NormalizeArray(given: Components, allowAboveRoot: bool) returns (parts: Components)
    ensures parts == Walk([], given, allowAboveRoot)
  {
    parts := given;
    var up := 0;
    var i := |parts| - 1;
    assert given[i + 1..] == [];
    while i >= 0
      invariant -1 <= i < |parts| && i < |given|
      invariant up >= 0
      invariant parts[..i + 1] == given[..i + 1]
      invariant Suffix(up, parts[i + 1..]) == Backward(given[i + 1..])
    {
      var last := parts[i];
      SpliceAt(given, parts, i);
      if last == "." {
        parts := parts[..i] + parts[i + 1..];
      } else if last == ".." {
        parts := parts[..i] + parts[i + 1..];
        up := up + 1;
      } else if up != 0 {
        parts := parts[..i] + parts[i + 1..];
        up := up - 1;
      }
      i := i - 1;
    }
    ghost var kept := parts;
    assert given[0..] == given && parts[0..] == kept;
    WalkIsBackward([], given, allowAboveRoot);
    LeaveTop(0, up, allowAboveRoot);
    assert Dots(0) == [];
    ghost var total := up;
    if allowAboveRoot {
      while up != 0
        invariant 0 <= up <= total
        invariant parts == Dots(total - up) + kept
      {
        parts := [".."] + parts;
        up := up - 1;
        assert [".."] + Dots(total - up - 1) == Dots(total - up);
      }
    }
    assert parts == Dots(if allowAboveRoot then total else 0) + kept;
  }

  /** The sequence facts one step of the backward loop uses. */
  lemma {:induction false} SpliceAt(given: Components, parts: Components, i: nat)
    requires i < |given| && i < |parts| && parts[..i + 1] == given[..i + 1]
    ensures parts[i] == given[i] && given[i..][0] == given[i] && given[i..][1..] == given[i + 1..]
    ensures parts[..i] == given[..i] && parts[i..] == [parts[i]] + parts[i + 1..]
    ensures var cut := parts[..i] + parts[i + 1..]; cut[..i] == given[..i] && cut[i..] == parts[i + 1..]
  {
    assert parts[i] == parts[..i + 1][i] && given[i] == given[..i + 1][i];
    assert parts[..i] == parts[..i + 1][..i] && given[..i] == given[..i + 1][..i];
  }

  // ----- what the result looks like -----

  /** Every ".." of the result is in its leading run, which is empty for a
      path that may not climb; no "." is left. */
  lemma {:induction false} OnlyLeadingDots(parts: Components, above: bool)
    ensures var r := Backward(parts);
            Walk([], parts, above) == Dots(if above then r.up else 0) + r.kept && Names(r.kept)
  {
    WalkIsBackward([], parts, above);
    LeaveTop(0, Backward(parts).up, above);
    assert Dots(0) == [];
    BackwardKeepsNames(parts);
  }

  lemma {:induction false} BackwardOfNormal(n: nat, kept: Components)
    requires Names(kept)
    ensures Backward(Dots(n) + kept) == Suffix(n, kept)
  {
    if n > 0 {
      assert (Dots(n) + kept)[1..] == Dots(n - 1) + kept;
      BackwardOfNormal(n - 1, kept);
    } else {
      assert Dots(0) + kept == kept;
      BackwardOfNames(kept);
    }
  }

  lemma {:induction false} BackwardOfNames(kept: Components)
    requires Names(kept)
    ensures Backward(kept) == Suffix(0, kept)
  {
    if kept != [] {
      BackwardOfNames(kept[1..]);
      assert kept == [kept[0]] + kept[1..];
    }
  }

  lemma {:induction false} ArrayIdempotent(parts: Components, above: bool)
    ensures Walk([], Walk([], parts, above), above) == Walk([], parts, above)
  {
    OnlyLeadingDots(parts, above);
    var r := Backward(parts);
    BackwardOfNormal(if above then r.up else 0, r.kept);
    OnlyLeadingDots(Walk([], parts, above), above);
  }

  // ----- what the result means -----

  /** From every directory, the normalised path leads where the path leads. */
  lemma {:induction false} ArraySameDestination(start: Components, parts: Components)
    ensures Walk(start, Walk([], parts, true), false) == Walk(start, parts, false)
  {
    OnlyLeadingDots(parts, true);
    BackwardOfNormal(Backward(parts).up, Backward(parts).kept);
    WalkIsBackward(start, parts, false);
    WalkIsBackward(start, Walk([], parts, true), false);
  }

  lemma {:induction false} LeaveNames(start: Components, n: nat)
    requires Names(start) && n <= |start|
    ensures LeaveTimes(start, n, false) == start[..|start| - n]
  {
    if n > 0 {
      LeaveNames(start[..|start| - 1], n - 1);
    }
  }

  function Repeat(name: string, n: nat): (r: Components)
    ensures |r| == n
  {
    seq(n, _ => name)
  }

  /** The walk from a deep enough directory of equal names. */
  lemma {:induction false} DeepWalk(name: string, depth: nat, parts: Components)
    requires name != "." && name != ".." && depth >= Backward(parts).up
    ensures Walk(Repeat(name, depth), parts, false) ==
            Repeat(name, depth - Backward(parts).up) + Backward(parts).kept
  {
    var start := Repeat(name, depth);
    WalkIsBackward(start, parts, false);
    LeaveNames(start, Backward(parts).up);
    assert start[..depth - Backward(parts).up] == Repeat(name, depth - Backward(parts).up);
  }

  lemma {:induction false} RepeatAt(name: string, n: nat, tail: Components, k: nat)
    requires k < n + |tail|
    ensures (Repeat(name, n) + tail)[k] == if k < n then name else tail[k - n]
  {
  }

  /** Two decompositions that agree under two fillers have the same length. */
  lemma {:induction false} FillerLength(m: nat, x: Components, n: nat, y: Components)
    requires Repeat("s", m) + x == Repeat("s", n) + y
    requires Repeat("t", m) + x == Repeat("t", n) + y
    ensures m <= n
  {
    assert |Repeat("s", m) + x| == n + |y|;
    if n < m {
      RepeatAt("s", m, x, n);
      RepeatAt("t", m, x, n);
      RepeatAt("s", n, y, n);
      RepeatAt("t", n, y, n);
    }
  }

  /** Two relative component lists that lead to the same place from everywhere
      are normalised to the same list. */
  lemma {:induction false} ArrayCanonical(a: Components, b: Components)
    requires forall start: Components :: Names(start) ==> Walk(start, a, false) == Walk(start, b, false)
    ensures Walk([], a, true) == Walk([], b, true)
  {
    var x, y := Backward(a), Backward(b);
    var depth := x.up + y.up;
    assert Names(Repeat("s", depth)) && Names(Repeat("t", depth));
    DeepWalk("s", depth, a); DeepWalk("s", depth, b);
    DeepWalk("t", depth, a); DeepWalk("t", depth, b);
    FillerLength(y.up, x.kept, x.up, y.kept);
    FillerLength(x.up, y.kept, y.up, x.kept);
    var filler := Repeat("s", x.up);
    assert (filler + x.kept)[x.up..] == x.kept && (filler + y.kept)[x.up..] == y.kept;
    OnlyLeadingDots(a, true);
    OnlyLeadingDots(b, true);
  }

  // ----- strings -----

  function Split(s: string): (parts: Components)
    ensures |parts| > 0
  {
    if s == "" then [""]
    else if s[0] == '/' then [""] + Split(s[1..])
    else var rest := Split(s[1..]); [[s[0]] + rest[0]] + rest[1..]
  }

  function NonEmpty(parts: Components): Components {
    if parts == [] then []
    else if parts[0] == "" then NonEmpty(parts[1..])
    else [parts[0]] + NonEmpty(parts[1..])
  }

  function Join(parts: Components): string {
    if parts == [] then ""
    else if |parts| == 1 then parts[0]
    else parts[0] + "/" + Join(parts[1..])
  }

  predicate IsAbs(path: string) {
    path != "" && path[0] == '/'
  }

  predicate TrailingSlash(path: string) {
    path != "" && path[|path| - 1] == '/'
  }

  function PartsOf(path: string): Components {
    NonEmpty(Split(path))
  }

  /** The components left once "." and ".." are resolved. */
  function Resolved(path: string): Components {
    Walk([], PartsOf(path), !IsAbs(path))
  }

  /** The components joined, or "." for a relative path that has none. */
  function Named(isAbsolute: bool, parts: Components): string {
    if Join(parts) == "" && !isAbsolute then "." else Join(parts)
  }

  function Slashed(isAbsolute: bool, trailingSlash: bool, named: string): string {
    (if isAbsolute then "/" else "") + (named + (if named != "" && trailingSlash then "/" else ""))
  }

  function Spelled(isAbsolute: bool, trailingSlash: bool, parts: Components): string {
    Slashed(isAbsolute, trailingSlash, Named(isAbsolute, parts))
  }

  /** `PATH.normalize`. */
  method Normalize(given: string) returns (path: string)
    ensures path == Spelled(IsAbs(given), TrailingSlash(given), Resolved(given))
  {
    var isAbsolute, trailingSlash := IsAbs(given), TrailingSlash(given);
    var parts := NormalizeArray(PartsOf(given), !isAbsolute);
    path := Join(parts);
    if path == "" && !isAbsolute {
      path := ".";
    }
    if path != "" && trailingSlash {
      path := path + "/";
    }
    path := (if isAbsolute then "/" else "") + path;
  }

  function Normal(path: string): string {
    Spelled(IsAbs(path), TrailingSlash(path), Resolved(path))
  }

  predicate Component(p: string) {
    p != "" && '/' !in p
  }

  predicate AllComponents(parts: Components) {
    forall i :: 0 <= i < |parts| ==> Component(parts[i])
  }

  lemma {:induction false} SplitAfter(p: string, rest: string)
    requires '/' !in p
    ensures Split(p) == [p]
    ensures Split(p + "/" + rest) == [p] + Split(rest)
  {
    var s := p + "/" + rest;
    if p == "" {
      assert s[1..] == rest;
    } else {
      SplitAfter(p[1..], rest);
      assert s[1..] == p[1..] + "/" + rest;
      assert [p[0]] + p[1..] == p;
    }
  }

  lemma {:induction false} SplitSlashEnd(s: string)
    ensures Split(s + "/") == Split(s) + [""]
  {
    if s == "" {
      assert ("" + "/")[1..] == "";
    } else {
      assert (s + "/")[1..] == s[1..] + "/";
      SplitSlashEnd(s[1..]);
    }
  }

  lemma {:induction false} NonEmptyConcat(a: Components, b: Components)
    ensures NonEmpty(a + b) == NonEmpty(a) + NonEmpty(b)
  {
    if a == [] {
      assert a + b == b;
    } else {
      assert (a + b)[1..] == a[1..] + b;
      NonEmptyConcat(a[1..], b);
    }
  }

  /** Slashes at either end do not change the components. */
  lemma {:induction false} OuterSlashes(s: string)
    ensures PartsOf("/" + s) == PartsOf(s) && PartsOf(s + "/") == PartsOf(s)
  {
    assert ("/" + s)[1..] == s;
    SplitSlashEnd(s);
    NonEmptyConcat(Split(s), [""]);
  }

  lemma {:induction false} JoinSplits(parts: Components)
    requires AllComponents(parts)
    ensures PartsOf(Join(parts)) == parts
    ensures (Join(parts) == "" <==> parts == [])
    ensures !IsAbs(Join(parts)) && !TrailingSlash(Join(parts))
  {
    if parts == [] {
    } else if |parts| == 1 {
      SplitAfter(parts[0], "");
      assert parts == [parts[0]] && Component(parts[0]);
      assert NonEmpty([parts[0]]) == [parts[0]] + NonEmpty([]);
    } else {
      JoinSplits(parts[1..]);
      SplitAfter(parts[0], Join(parts[1..]));
      assert parts == [parts[0]] + parts[1..];
      var tail := Join(parts[1..]);
      assert Join(parts)[|Join(parts)| - 1] == tail[|tail| - 1];
    }
  }

  lemma {:induction false} SplitSlashFree(s: string, i: nat)
    requires i < |Split(s)|
    ensures '/' !in Split(s)[i]
  {
    if s != "" {
      var rest := Split(s[1..]);
      SplitSlashFree(s[1..], if s[0] == '/' && i > 0 then i - 1 else if i < |rest| then i else 0);
    }
  }

  lemma {:induction false} NonEmptyComponents(parts: Components)
    requires forall i :: 0 <= i < |parts| ==> '/' !in parts[i]
    ensures AllComponents(NonEmpty(parts))
  {
    if parts != [] { NonEmptyComponents(parts[1..]); }
  }

  lemma {:induction false} KeptComponents(parts: Components)
    requires AllComponents(parts)
    ensures AllComponents(Backward(parts).kept)
  {
    if parts != [] { KeptComponents(parts[1..]); }
  }

  lemma {:induction false} ResolvedComponents(path: string)
    ensures AllComponents(Resolved(path))
  {
    forall i | 0 <= i < |Split(path)| ensures '/' !in Split(path)[i] {
      SplitSlashFree(path, i);
    }
    NonEmptyComponents(Split(path));
    KeptComponents(PartsOf(path));
    OnlyLeadingDots(PartsOf(path), !IsAbs(path));
    assert Component("..");
  }

  /** What the slashes around a name do. */
  lemma {:induction false} SlashedReads(isAbsolute: bool, trailingSlash: bool, named: string)
    requires !IsAbs(named) && !TrailingSlash(named) && (named == "" ==> isAbsolute)
    ensures var s := Slashed(isAbsolute, trailingSlash, named);
            IsAbs(s) == isAbsolute && TrailingSlash(s) == (named == "" || trailingSlash)
  {
  }

  lemma {:induction false} SlashedParts(isAbsolute: bool, trailingSlash: bool, named: string)
    ensures PartsOf(Slashed(isAbsolute, trailingSlash, named)) == PartsOf(named)
  {
    var tailed := named + (if named != "" && trailingSlash then "/" else "");
    assert named + "" == named && "" + tailed == tailed;
    OuterSlashes(named);
    OuterSlashes(tailed);
  }

  /** What reading the normalised spelling gives back. */
  lemma {:induction false} SpelledReads(isAbsolute: bool, trailingSlash: bool, parts: Components)
    requires AllComponents(parts)
    ensures IsAbs(Spelled(isAbsolute, trailingSlash, parts)) == isAbsolute
    ensures TrailingSlash(Spelled(isAbsolute, trailingSlash, parts)) == ((isAbsolute && parts == []) || trailingSlash)
    ensures PartsOf(Spelled(isAbsolute, trailingSlash, parts)) == if parts == [] && !isAbsolute then ["."] else parts
  {
    JoinSplits(parts);
    DotSplits();
    SlashedReads(isAbsolute, trailingSlash, Named(isAbsolute, parts));
    SlashedParts(isAbsolute, trailingSlash, Named(isAbsolute, parts));
  }

  lemma {:induction false} DotSplits()
    ensures PartsOf(".") == ["."]
  {
    SplitAfter(".", "");
  }

  /** Normalising twice is normalising once, for every path. */
  lemma {:induction false} NormalizeIdempotent(path: string)
    ensures Normal(Normal(path)) == Normal(path)
  {
    ResolvedComponents(path);
    var parts, once := Resolved(path), Normal(path);
    SpelledReads(IsAbs(path), TrailingSlash(path), parts);
    ArrayIdempotent(PartsOf(path), !IsAbs(path));
    if parts == [] && !IsAbs(path) {
      assert Walk([], ["."], true) == Walk([], [], true);
      assert Resolved(once) == [];
    } else {
      assert Resolved(once) == parts;
    }
  }

  /** The directory a path leads to from `start`. */
  function Destination(start: Components, path: string): Components {
    Walk(if IsAbs(path) then [] else start, PartsOf(path), false)
  }

  /** The normalised path is of the same kind and leads to the same place,
      from every directory. */
  lemma {:induction false} SameDestination(start: Components, path: string)
    ensures IsAbs(Normal(path)) == IsAbs(path)
    ensures Destination(start, Normal(path)) == Destination(start, path)
  {
    ResolvedComponents(path);
    SpelledReads(IsAbs(path), TrailingSlash(path), Resolved(path));
    if IsAbs(path) {
      ArrayIdempotent(PartsOf(path), false);
    } else {
      ArraySameDestination(start, PartsOf(path));
      if Resolved(path) == [] {
        assert Walk(start, ["."], false) == Walk(start, [], false);
      }
    }
  }

  /** Two paths that agree on the leading and on the trailing slash are
      normalised to the same string exactly when they lead to the same place
      from every directory. */
  lemma {:induction false} NormalIsCanonical(a: string, b: string)
    requires IsAbs(a) == IsAbs(b) && TrailingSlash(a) == TrailingSlash(b)
    ensures Normal(a) == Normal(b) <==>
            forall start: Components :: Names(start) ==> Destination(start, a) == Destination(start, b)
  {
    if Normal(a) == Normal(b) {
      forall start: Components | Names(start) ensures Destination(start, a) == Destination(start, b) {
        SameDestination(start, a);
        SameDestination(start, b);
      }
    }
    if forall start: Components :: Names(start) ==> Destination(start, a) == Destination(start, b) {
      var root: Components := [];
      assert Names(root);
      assert Destination(root, a) == Destination(root, b);
      if !IsAbs(a) {
        forall start: Components | Names(start)
          ensures Walk(start, PartsOf(a), false) == Walk(start, PartsOf(b), false)
        {
          assert Destination(start, a) == Destination(start, b);
        }
        ArrayCanonical(PartsOf(a), PartsOf(b));
      }
    }
  }
}
