/**
 * Whether every node of the in-memory file system still hangs from the root. A rename
 * that moves a directory below itself cuts it off; the ancestor test of FS.rename looks
 * at path texts only and lets some of these through.
 */
module MemRooted {
  import opened Words
  import opened NameTable
  import opened MemTree

  /** The node `k` steps up from `n`; the root is its own parent. */
  ghost function Up(t: Tree, n: FsNode, k: nat): (m: FsNode)
    requires Agree(t) && n in t.place
    ensures m in t.place
  {
    if k == 0 then n
    else
      PlaceIsLive(t, n);
      Up(t, t.place[n].dir, k - 1)
  }

  ghost predicate Hangs(t: Tree, n: FsNode)
    requires Agree(t) && n in t.place
  {
    exists k: nat :: Up(t, n, k) == t.root
  }

  ghost predicate Rooted(t: Tree)
    requires Agree(t)
  {
    forall n :: n in t.place ==> Hangs(t, n)
  }

  /** `d` is `n` or lies below it. */
  ghost predicate Under(t: Tree, d: FsNode, n: FsNode)
    requires Agree(t) && d in t.place
  {
    exists k: nat :: Up(t, d, k) == n
  }

  lemma {:induction false} UpSum(t: Tree, n: FsNode, a: nat, b: nat)
    requires Agree(t) && n in t.place
    ensures Up(t, n, a + b) == Up(t, Up(t, n, a), b)
    decreases a
  {
    if a > 0 {
      PlaceIsLive(t, n);
      UpSum(t, t.place[n].dir, a - 1, b);
    }
  }

  lemma {:induction false} UpFromRoot(t: Tree, k: nat)
    requires Agree(t)
    ensures Up(t, t.root, k) == t.root
  {
    assert PlaceAgrees(t, t.root);
    if k > 0 { UpFromRoot(t, k - 1); }
  }

  /** Once at the root, always at the root. */
  lemma {:induction false} UpBeyond(t: Tree, n: FsNode, a: nat, b: nat)
    requires Agree(t) && n in t.place && a <= b && Up(t, n, a) == t.root
    ensures Up(t, n, b) == t.root
  {
    UpSum(t, n, a, b - a);
    UpFromRoot(t, b - a);
  }

  /** Where two trees agree on the parents, the way up is the same until it meets `n`. */
  lemma {:induction false} SameUp(t: Tree, u: Tree, n: FsNode, m: FsNode, k: nat)
    requires Agree(t) && Agree(u) && m in t.place && m in u.place
    requires forall x :: x in t.place && x in u.place && x != n ==> u.place[x] == t.place[x]
    requires forall j: nat :: j < k ==> Up(t, m, j) != n
    ensures Up(u, m, k) == Up(t, m, k)
    decreases k
  {
    if k > 0 {
      assert Up(t, m, 0) == m;
      PlaceIsLive(t, m);
      PlaceIsLive(u, m);
      var next := t.place[m].dir;
      forall j: nat | j < k - 1 ensures Up(t, next, j) != n {
        assert Up(t, m, j + 1) == Up(t, next, j);
      }
      SameUp(t, u, n, next, k - 1);
    }
  }

  /** The first time that the way up meets `n`. */
  lemma {:induction false} FirstMeeting(t: Tree, m: FsNode, n: FsNode, k: nat) returns (j: nat)
    requires Agree(t) && m in t.place && Up(t, m, k) == n
    ensures j <= k && Up(t, m, j) == n && forall i: nat :: i < j ==> Up(t, m, i) != n
  {
    j := k;
    while exists i: nat :: i < j && Up(t, m, i) == n
      invariant j <= k && Up(t, m, j) == n
      decreases j
    {
      var i: nat :| i < j && Up(t, m, i) == n;
      j := i;
    }
  }

  // ----- creating and removing -----

  lemma {:induction false} InsertRooted(t: Tree, p: Place, n: FsNode)
    requires Agree(t) && Agree(Insert(t, p, n)) && Rooted(t) && n !in t.place && p.dir in t.place
    ensures Rooted(Insert(t, p, n))
  {
    var u := Insert(t, p, n);
    forall m | m in u.place ensures Hangs(u, m) {
      var from := if m == n then p.dir else m;
      assert Hangs(t, from);
      var k: nat :| Up(t, from, k) == t.root;
      SameUp(t, u, n, from, k);
      assert Up(u, n, k + 1) == Up(u, p.dir, k);
    }
  }

  lemma {:induction false} DeleteRooted(t: Tree, p: Place)
    requires Agree(t) && p in t.at && Agree(Delete(t, p)) && Rooted(t)
    ensures Rooted(Delete(t, p))
  {
    var u := Delete(t, p);
    forall m | m in u.place ensures Hangs(u, m) {
      assert Hangs(t, m);
      var k: nat :| Up(t, m, k) == t.root;
      SameUpInside(t, u, m, k);
    }
  }

  /** Taking nodes away does not change the way up from the others. */
  lemma {:induction false} SameUpInside(t: Tree, u: Tree, m: FsNode, k: nat)
    requires Agree(t) && Agree(u) && m in u.place
    requires forall x :: x in u.place ==> x in t.place && u.place[x] == t.place[x]
    ensures Up(u, m, k) == Up(t, m, k)
    decreases k
  {
    if k > 0 {
      PlaceIsLive(u, m);
      SameUpInside(t, u, u.place[m].dir, k - 1);
    }
  }

  // ----- moving -----

  /** What the checks of a rename establish before the node is moved. */
  ghost predicate Movable(t: Tree, n: FsNode, p: Place)
    requires Agree(t)
  {
    && n in t.place && n != t.root && t.place[n] != p
    && p.dir in t.place && p.dir.attr.kind == Dir && p.name != SLASH_NAME
    && (p in t.at ==> Replaceable(t, p, n.attr.kind == Dir) && EmptyDir(t, t.at[p]))
  }

  /** The tree after a move: one node has a new place, a replaced node is gone. */
  lemma {:induction false} MovedPlaces(t: Tree, n: FsNode, p: Place)
    requires Agree(t) && Movable(t, n, p)
    ensures var u := Move(Clear(t, p), n, p);
            && Agree(u) && u.root == t.root && n in u.place && u.place[n] == p && p.dir in u.place
            && (forall x :: x in u.place ==> x in t.place && (x != n ==> u.place[x] == t.place[x]))
  {
    ReplaceAgrees(t, n, p);
    var u := Move(Clear(t, p), n, p);
    assert p in t.at ==> t.at[p] != n by {
      if p in t.at { assert ListingAgrees(t, p); }
    }
    MovedTree(t, n, p);
    assert PlaceAgrees(u, n);
  }

  /** A move keeps every node below the root exactly when the new directory is not the
      moved node and not below it. */
  lemma {:induction false} MoveRooted(t: Tree, n: FsNode, p: Place)
    requires Agree(t) && Movable(t, n, p) && Rooted(t)
    ensures Agree(Move(Clear(t, p), n, p))
    ensures Rooted(Move(Clear(t, p), n, p)) <==> !Under(t, p.dir, n)
  {
    MovedPlaces(t, n, p);
    if Under(t, p.dir, n) {
      var k: nat :| Up(t, p.dir, k) == n;
      CutOff(t, n, p, k);
    } else {
      forall m | m in Move(Clear(t, p), n, p).place ensures Hangs(Move(Clear(t, p), n, p), m) {
        StillHangs(t, n, p, m);
      }
    }
  }

  lemma {:induction false} StillHangs(t: Tree, n: FsNode, p: Place, m: FsNode)
    requires Agree(t) && Movable(t, n, p) && Rooted(t) && !Under(t, p.dir, n)
    requires m in Move(Clear(t, p), n, p).place
    ensures Agree(Move(Clear(t, p), n, p)) && Hangs(Move(Clear(t, p), n, p), m)
  {
    MovedPlaces(t, n, p);
    var u := Move(Clear(t, p), n, p);
    assert Hangs(t, p.dir) && Hangs(t, m);
    var k: nat :| Up(t, p.dir, k) == t.root;
    SameUp(t, u, n, p.dir, k);
    var i: nat :| Up(t, m, i) == t.root;
    if Under(t, m, n) {
      var j0: nat :| Up(t, m, j0) == n;
      var j := FirstMeeting(t, m, n, j0);
      SameUp(t, u, n, m, j);
      UpSum(u, m, j, k + 1);
      assert Up(u, n, k + 1) == Up(u, p.dir, k);
      assert Up(u, m, j + (k + 1)) == u.root;
    } else {
      SameUp(t, u, n, m, i);
    }
  }

  /** Below itself a node goes round in a circle. */
  lemma {:induction false} CutOff(t: Tree, n: FsNode, p: Place, k: nat)
    requires Agree(t) && Movable(t, n, p) && Up(t, p.dir, k) == n
    ensures Agree(Move(Clear(t, p), n, p)) && !Rooted(Move(Clear(t, p), n, p))
  {
    MovedPlaces(t, n, p);
    var u := Move(Clear(t, p), n, p);
    var j := FirstMeeting(t, p.dir, n, k);
    forall i: nat | i <= j ensures Up(u, n, i + 1) == Up(t, p.dir, i) != t.root {
      SameUp(t, u, n, p.dir, i);
      if Up(t, p.dir, i) == t.root { UpBeyond(t, p.dir, i, j); }
    }
    assert Up(u, n, j + 1) == n;
    forall i: nat | i < j + 1 ensures Up(u, n, i) != u.root {
      if i > 0 { assert Up(u, n, (i - 1) + 1) == Up(t, p.dir, i - 1); }
    }
    forall i: nat ensures Up(u, n, i) != u.root {
      Circle(u, n, j + 1, i);
    }
    assert !Hangs(u, n);
  }

  lemma {:induction false} Circle(u: Tree, n: FsNode, period: nat, i: nat)
    requires Agree(u) && n in u.place && period > 0 && Up(u, n, period) == n
    requires forall j: nat :: j < period ==> Up(u, n, j) != u.root
    ensures Up(u, n, i) != u.root
    decreases i
  {
    if i >= period {
      UpSum(u, n, period, i - period);
      Circle(u, n, period, i - period);
    }
  }

  // ----- what paths reach -----

  /** The nodes above the end of a path are those on the path. */
  lemma {:induction false} UpAlong(t: Tree, path: seq<Name>, d: FsNode, k: nat)
    requires Agree(t) && Leads(t, t.root, path, d) && k <= |path|
    ensures d in t.place && Leads(t, t.root, path[..|path| - k], Up(t, d, k))
    decreases k
  {
    if path != [] { LeadsLast(t, t.root, path, d); }
    if k == 0 {
      assert path[..|path|] == path;
    } else {
      UpAlong(t, path[..|path| - 1], t.place[d].dir, k - 1);
      assert path[..|path| - 1][..|path| - k] == path[..|path| - k];
    }
  }

  lemma {:induction false} ReachedHangs(t: Tree, n: FsNode)
    requires Agree(t) && Reached(t, n)
    ensures n in t.place && Hangs(t, n)
  {
    var path :| Leads(t, t.root, path, n);
    UpAlong(t, path, n, |path|);
    assert Up(t, n, |path|) == t.root;
  }

  /** Below a node is what its path is a prefix of. */
  lemma {:induction false} UnderIsPrefix(t: Tree, a: seq<Name>, n: FsNode, b: seq<Name>, d: FsNode)
    requires Agree(t) && n != t.root && Leads(t, t.root, a, n) && Leads(t, t.root, b, d)
    ensures d in t.place && (Under(t, d, n) <==> a <= b)
  {
    UpAlong(t, b, d, 0);
    if a <= b {
      UpAlong(t, b, d, |b| - |a|);
      assert b[..|a|] == a;
      LeadsSame(t, t.root, a, n, Up(t, d, |b| - |a|));
    }
    if k: nat :| Up(t, d, k) == n {
      UpAlong(t, b, d, |b|);
      if k > |b| { UpBeyond(t, d, |b|, k); }
      UpAlong(t, b, d, k);
      LeadsUnique(t, a, b[..|b| - k], n);
    }
  }

  /** No directory is below one of its entries, when a path from the root leads to it. */
  lemma {:induction false} NotBelowEntry(t: Tree, dir: FsNode, name: Name)
    requires Agree(t) && Reached(t, dir) && Place(dir, name) in t.at
    ensures dir in t.place && !Under(t, dir, t.at[Place(dir, name)])
  {
    assert ListingAgrees(t, Place(dir, name));
    var path :| Leads(t, t.root, path, dir);
    LeadsOn(t, t.root, path, dir, name);
    UnderIsPrefix(t, path + [name], t.at[Place(dir, name)], path, dir);
  }

  // ----- one operation -----

  /** A rename that moves a node to itself or below itself. */
  ghost predicate MovesBelowItself(t: Tree, op: Op)
    requires Agree(t)
  {
    op.MoveTo? && ResolvePath(t, op.dir).Ok? && ResolvePath(t, op.newDir).Ok?
    && var n, d := Entry(t, Place(ResolvePath(t, op.dir).value, op.name)), ResolvePath(t, op.newDir).value;
       n.Some? && d in t.place && Under(t, d, n.value)
  }

  /** What a successful rename has checked. */
  lemma {:induction false} RenameChecks(t: Tree, from: Place, to: Place, tests: PathTests)
    requires Agree(t) && from.dir in t.place && to.dir in t.place && (to.name == SLASH_NAME ==> to.dir == t.root)
    requires RenameOutcome(t, from, to, tests).Ok?
    ensures Entry(t, from).Some? && !tests.oldIsAncestor
    ensures var n, u := Entry(t, from).value, RenameOutcome(t, from, to, tests).value;
            (u == t && from == to) || (Movable(t, n, to) && u == Move(Clear(t, to), n, to))
  {
    var n := Entry(t, from).value;
    EntryIsLive(t, from);
    EntryIsPlace(t, n, to);
    EntryIsPlace(t, n, from);
    assert PlaceAgrees(t, t.root);
    if to in t.at {
      assert ListingAgrees(t, to);
      if n.attr.kind != Dir { OnlyDirsList(t, t.at[to]); }
    }
  }

  /** The places and the result of a successful rename. */
  lemma {:induction false} RenameParts(t: Tree, op: Op, u: Tree) returns (n: FsNode, from: Place, to: Place)
    requires Agree(t) && op.MoveTo? && op.WellFormed() && OpError(t, op) == 0 && Effect(t, op, u)
    ensures ResolvePath(t, op.dir) == Ok(from.dir) && ResolvePath(t, op.newDir) == Ok(to.dir)
    ensures from.name == op.name && to.name == op.newName && Entry(t, from) == Some(n)
    ensures Reached(t, from.dir) && Reached(t, to.dir) && from.dir in t.place && to.dir in t.place
    ensures (u == t && from == to) || (Movable(t, n, to) && u == Move(Clear(t, to), n, to))
    ensures !op.Tests().oldIsAncestor
  {
    from := Place(ResolvePath(t, op.dir).value, op.name);
    to := Place(ResolvePath(t, op.newDir).value, op.newName);
    ResolvedIsReached(t, op.dir, MAX_WALKS);
    ResolvedIsReached(t, op.newDir, MAX_WALKS);
    RenameChecks(t, from, to, op.Tests());
    n := Entry(t, from).value;
  }

  /** A successful rename keeps every node below the root exactly when it does not move
      the node below itself. */
  lemma {:induction false} RenameRooted(t: Tree, op: Op, u: Tree)
    requires Agree(t) && Rooted(t) && op.MoveTo? && op.WellFormed() && OpError(t, op) == 0 && Effect(t, op, u)
    requires Agree(u)
    ensures Rooted(u) <==> !MovesBelowItself(t, op)
  {
    var n, from, to := RenameParts(t, op, u);
    if u == t && from == to {
      if from in t.at {
        NotBelowEntry(t, from.dir, from.name);
      }
    } else {
      MoveRooted(t, n, to);
    }
  }

  /** Any operation keeps every node below the root, unless it is a rename that moves a
      node below itself and succeeds. */
  lemma {:induction false} StepRooted(t: Tree, op: Op, u: Tree, errno: nat)
    requires Agree(t) && Rooted(t) && op.WellFormed() && Outcome(t, op, u, errno) && Agree(u)
    ensures Rooted(u) <==> !(errno == 0 && MovesBelowItself(t, op))
  {
    if errno == 0 {
      ResolvedIsReached(t, op.dir, MAX_WALKS);
      var p := Place(ResolvePath(t, op.dir).value, op.name);
      if op.Create? || op.MakeLink? {
        var attr := if op.Create? then op.attr else LinkAttr(op.text);
        var n :| n in u.place && n !in t.place && n.attr == attr && u == Insert(t, p, n);
        InsertRooted(t, p, n);
      } else if op.MoveTo? {
        RenameRooted(t, op, u);
      } else {
        DeleteRooted(t, p);
      }
    }
  }

  // ----- runs -----

  /** A node that is cut off stays cut off: no path leads to it any more. */
  lemma {:induction false} CutStays(t: Tree, op: Op, u: Tree, errno: nat, m: FsNode)
    requires Agree(t) && op.WellFormed() && Outcome(t, op, u, errno) && Agree(u)
    requires m in t.place && !Hangs(t, m)
    ensures m in u.place && !Hangs(u, m)
  {
    if errno == 0 {
      ResolvedIsReached(t, op.dir, MAX_WALKS);
      var p := Place(ResolvePath(t, op.dir).value, op.name);
      if op.Create? || op.MakeLink? {
        var attr := if op.Create? then op.attr else LinkAttr(op.text);
        var n :| n in u.place && n !in t.place && n.attr == attr && u == Insert(t, p, n);
        NoNewWay(t, u, n, m);
      } else if op.MoveTo? {
        var n, from, to := RenameParts(t, op, u);
        if !(u == t && from == to) { CutStaysInMove(t, n, from, to, m); }
      } else {
        ChildIsReached(t, p.dir, p.name);
        ReachedHangs(t, t.at[p]);
        NoNewWay(t, u, t.at[p], m);
      }
    }
  }

  lemma {:induction false} CutStaysInMove(t: Tree, n: FsNode, from: Place, to: Place, m: FsNode)
    requires Agree(t) && Movable(t, n, to) && Entry(t, from) == Some(n)
    requires Reached(t, from.dir) && Reached(t, to.dir) && m in t.place && !Hangs(t, m)
    ensures Agree(Move(Clear(t, to), n, to)) && m in Move(Clear(t, to), n, to).place
    ensures !Hangs(Move(Clear(t, to), n, to), m)
  {
    MovedPlaces(t, n, to);
    ChildIsReached(t, from.dir, from.name);
    ReachedHangs(t, n);
    if to in t.at {
      ChildIsReached(t, to.dir, to.name);
      ReachedHangs(t, t.at[to]);
    }
    NoNewWay(t, Move(Clear(t, to), n, to), n, m);
  }

  lemma {:induction false} HangsBelow(t: Tree, m: FsNode, k: nat)
    requires Agree(t) && m in t.place && Hangs(t, Up(t, m, k))
    ensures Hangs(t, m)
  {
    var j: nat :| Up(t, Up(t, m, k), j) == t.root;
    UpSum(t, m, k, j);
    assert Up(t, m, k + j) == t.root;
  }

  /** The way up from a cut-off node meets no node that hangs or is new, so a change of
      such a node's place does not help it. */
  lemma {:induction false} NoNewWay(t: Tree, u: Tree, n: FsNode, m: FsNode)
    requires Agree(t) && Agree(u) && u.root == t.root && m in t.place && m in u.place && !Hangs(t, m)
    requires n in t.place ==> Hangs(t, n)
    requires forall x :: x in t.place && x in u.place && x != n ==> u.place[x] == t.place[x]
    ensures !Hangs(u, m)
  {
    forall k: nat ensures Up(t, m, k) != n {
      if Up(t, m, k) == n { HangsBelow(t, m, k); }
    }
    forall k: nat ensures Up(u, m, k) != u.root {
      SameUp(t, u, n, m, k);
    }
  }

  /** The renames of a run that succeed and move a node below itself. */
  ghost predicate CutsOff(trace: seq<Tree>, ops: seq<Op>, errnos: seq<nat>, i: nat)
    requires History(trace, ops, errnos) && i < |ops|
  {
    errnos[i] == 0 && MovesBelowItself(trace[i], ops[i])
  }

  /** A run ends with every node below the root exactly when none of its successful
      renames moved a node below itself. */
  lemma {:induction false} RunRooted(trace: seq<Tree>, ops: seq<Op>, errnos: seq<nat>, k: nat)
    requires History(trace, ops, errnos) && k <= |ops| && (forall i: nat :: i < |ops| ==> ops[i].WellFormed())
    requires Rooted(trace[0])
    ensures Rooted(trace[k]) <==> forall i: nat :: i < k ==> !CutsOff(trace, ops, errnos, i)
    decreases k
  {
    if k > 0 {
      var t, u := trace[k - 1], trace[k];
      RunRooted(trace, ops, errnos, k - 1);
      if Rooted(t) {
        StepRooted(t, ops[k - 1], u, errnos[k - 1]);
        assert CutsOff(trace, ops, errnos, k - 1) <==> errnos[k - 1] == 0 && MovesBelowItself(t, ops[k - 1]);
      } else {
        var m :| m in t.place && !Hangs(t, m);
        CutStays(t, ops[k - 1], u, errnos[k - 1], m);
      }
    }
  }

  /** A new file system has all its nodes below the root, and no links. */
  lemma {:induction false} NewIsRooted(strict: bool, cwd: Name, root: FsNode)
    requires root.attr.kind == Dir
    ensures var t := RootTree(strict, cwd, root); Agree(t) && Rooted(t) && NoLinks(t)
  {
    var t := RootTree(strict, cwd, root);
    RootAgrees(strict, cwd, root);
    assert Up(t, root, 0) == t.root;
  }

  // ----- without links: paths as texts -----

  ghost predicate NoLinks(t: Tree) {
    forall n :: n in t.place ==> n.attr.kind != Link
  }

  /** Without links a path leads where its normal form leads. */
  lemma {:induction false} WalkNormal(t: Tree, current: FsNode, walked: seq<Name>, path: seq<Name>, walks: nat)
    requires Agree(t) && NoLinks(t) && current in t.place && Leads(t, t.root, walked, current) && SLASH_NAME !in path
    ensures var r := Walk(t, current, walked, path, walks); r.Ok? ==> Leads(t, t.root, Normal(walked, path), r.value)
    decreases walks, |path|
  {
    if path != [] {
      var part, rest := path[0], path[1..];
      if part == [] || part == DOT_NAME {
        WalkNormal(t, current, walked, rest, walks);
      } else if part == DOTDOT_NAME {
        if walked == [] {
          assert PlaceAgrees(t, t.root) && DropLast(walked) + rest == rest;
          if walks > 0 { WalkNormal(t, t.root, [], rest, walks - 1); }
        } else {
          ParentOnPath(t, current, walked);
          WalkNormal(t, t.place[current].dir, DropLast(walked), rest, walks);
        }
      } else if LookupResult(t, current, part).Ok? {
        var n := LookupResult(t, current, part).value;
        EntryIsLive(t, Place(current, part));
        LeadsOn(t, t.root, walked, current, part);
        WalkNormal(t, n, walked + [part], rest, walks);
      }
    }
  }

  lemma {:induction false} ParentOnPath(t: Tree, n: FsNode, path: seq<Name>)
    requires Agree(t) && n in t.place && path != [] && Leads(t, t.root, path, n)
    ensures t.place[n].dir in t.place && t.place[n].dir != n && Leads(t, t.root, DropLast(path), t.place[n].dir)
  {
    PlaceIsLive(t, n);
    LeadsLast(t, t.root, path, n);
    if t.place[n].dir == n { LeadsUnique(t, path, path[..|path| - 1], n); }
  }

  lemma {:induction false} ResolvedNormal(t: Tree, path: seq<Name>)
    requires Agree(t) && NoLinks(t) && SLASH_NAME !in path && ResolvePath(t, path).Ok?
    ensures Leads(t, t.root, Normal([], path), ResolvePath(t, path).value)
  {
    WalkNormal(t, t.root, [], path, MAX_WALKS - 1);
  }

  /** Without empty and dot parts a path comes to itself. */
  lemma {:induction false} NormalIsPath(path: seq<Name>)
    requires Clean(path)
    ensures Normal([], path) == path
  {
    NormalAppends([], path);
    assert [] + path == path;
  }

  lemma {:induction false} NormalAppends(stack: seq<Name>, path: seq<Name>)
    requires Clean(path)
    ensures Normal(stack, path) == stack + path
    decreases |path|
  {
    if path != [] {
      assert forall i: nat :: i < |path[1..]| ==> path[1..][i] == path[i + 1];
      NormalAppends(stack + [path[0]], path[1..]);
    }
  }

  /** Normal forms have no empty and no dot parts. */
  predicate Clean(path: seq<Name>) {
    forall i: nat :: i < |path| ==> path[i] != [] && path[i] != DOT_NAME && path[i] != DOTDOT_NAME
  }

  lemma {:induction false} NormalIsClean(stack: seq<Name>, path: seq<Name>)
    requires Clean(stack)
    ensures Clean(Normal(stack, path))
    decreases |path|
  {
    if path != [] {
      NormalIsClean(if path[0] == [] || path[0] == DOT_NAME then stack
                    else if path[0] == DOTDOT_NAME then DropLast(stack)
                    else stack + [path[0]], path[1..]);
    }
  }

  lemma {:induction false} NormalAppend(stack: seq<Name>, path: seq<Name>, name: Name)
    ensures Normal(stack, path + [name]) ==
            var front := Normal(stack, path);
            if name == [] || name == DOT_NAME then front
            else if name == DOTDOT_NAME then DropLast(front)
            else front + [name]
    decreases |path|
  {
    if path == [] {
      assert path + [name] == [name] && |[name][1..]| == 0;
    } else {
      assert (path + [name])[1..] == path[1..] + [name];
      NormalAppend(if path[0] == [] || path[0] == DOT_NAME then stack
                   else if path[0] == DOTDOT_NAME then DropLast(stack)
                   else stack + [path[0]], path[1..], name);
    }
  }

  /** Where the moved node is, by the text of the path. */
  function OldPath(op: Op): seq<Name> {
    Normal([], op.dir) + [op.name]
  }

  function NewDir(op: Op): seq<Name>
    requires op.MoveTo?
  {
    Normal([], op.newDir)
  }

  /** The new directory lies below the node, and the first name on the way to it starts
      with a dot: what the ancestor test takes for a way up. */
  predicate HiddenBelow(a: seq<Name>, b: seq<Name>) {
    a < b && b[|a|] != [] && b[|a|][0] == 0x2E
  }

  /** The ancestor test finds the moves of a node to itself or below itself, except
      those through a name that starts with a dot. */
  lemma {:induction false} AncestorTestExact(t: Tree, op: Op, n: FsNode, d: FsNode)
    requires Agree(t) && NoLinks(t) && op.MoveTo? && op.WellFormed() && op.name != [] && op.name != SLASH_NAME
    requires op.name != DOT_NAME && op.name != DOTDOT_NAME
    requires ResolvePath(t, op.dir).Ok? && Entry(t, Place(ResolvePath(t, op.dir).value, op.name)) == Some(n)
    requires ResolvePath(t, op.newDir) == Ok(d)
    ensures d in t.place
    ensures op.Tests().oldIsAncestor <==> Under(t, d, n) && !HiddenBelow(OldPath(op), NewDir(op))
  {
    BelowByText(t, op, n, d);
    NormalAppend([], op.dir, op.name);
  }

  /** A node is moved below itself exactly when its path is a prefix of the new
      directory's, by their normal forms. */
  lemma {:induction false} BelowByText(t: Tree, op: Op, n: FsNode, d: FsNode)
    requires Agree(t) && NoLinks(t) && op.MoveTo? && op.WellFormed() && op.name != SLASH_NAME
    requires ResolvePath(t, op.dir).Ok? && Entry(t, Place(ResolvePath(t, op.dir).value, op.name)) == Some(n)
    requires ResolvePath(t, op.newDir) == Ok(d)
    ensures d in t.place && (Under(t, d, n) <==> OldPath(op) <= NewDir(op))
  {
    var dir := ResolvePath(t, op.dir).value;
    ResolvedNormal(t, op.dir);
    ResolvedNormal(t, op.newDir);
    LeadsOn(t, t.root, Normal([], op.dir), dir, op.name);
    assert ListingAgrees(t, Place(dir, op.name));
    UnderIsPrefix(t, OldPath(op), n, NewDir(op), d);
  }

  /** A successful rename moves a node below itself exactly when a name that starts with
      a dot hid it from the test. */
  lemma {:induction false} CutIsHidden(t: Tree, op: Op)
    requires Agree(t) && NoLinks(t) && op.MoveTo? && op.WellFormed() && OpError(t, op) == 0
    ensures MovesBelowItself(t, op) <==> HiddenBelow(OldPath(op), NewDir(op))
  {
    var from, to := Place(ResolvePath(t, op.dir).value, op.name), Place(ResolvePath(t, op.newDir).value, op.newName);
    ResolvedIsReached(t, op.dir, MAX_WALKS);
    ResolvedIsReached(t, op.newDir, MAX_WALKS);
    RenameChecks(t, from, to, op.Tests());
    assert PlaceAgrees(t, t.root);
    BelowByText(t, op, Entry(t, from).value, to.dir);
    NormalAppend([], op.dir, op.name);
    NormalIsClean([], op.newDir);
    if OldPath(op) <= NewDir(op) { LastIsClean(Normal([], op.dir), op.name, NewDir(op)); }
  }

  lemma {:induction false} LastIsClean(front: seq<Name>, name: Name, path: seq<Name>)
    requires Clean(path) && front + [name] <= path
    ensures name != [] && name != DOT_NAME && name != DOTDOT_NAME
  {
    assert path[|front|] == name;
  }

  lemma {:induction false} LinksKept(t: Tree, op: Op, u: Tree, errno: nat)
    requires Agree(t) && NoLinks(t) && op.WellFormed() && !op.MakeLink? && Outcome(t, op, u, errno) && Agree(u)
    ensures NoLinks(u)
  {
    if errno == 0 && op.Create? {
      var p := Place(ResolvePath(t, op.dir).value, op.name);
      var n :| n in u.place && n !in t.place && n.attr == op.attr && u == Insert(t, p, n);
    } else if errno == 0 && op.MoveTo? {
      var n, from, to := RenameParts(t, op, u);
      if !(u == t && from == to) { MovedPlaces(t, n, to); }
    }
  }

  lemma {:induction false} RunWithoutLinks(trace: seq<Tree>, ops: seq<Op>, errnos: seq<nat>, k: nat)
    requires History(trace, ops, errnos) && k <= |ops| && NoLinks(trace[0])
    requires forall i: nat :: i < |ops| ==> ops[i].WellFormed() && !ops[i].MakeLink?
    ensures NoLinks(trace[k])
    decreases k
  {
    if k > 0 {
      RunWithoutLinks(trace, ops, errnos, k - 1);
      LinksKept(trace[k - 1], ops[k - 1], trace[k], errnos[k - 1]);
    }
  }

  /** The rename of a run is one that a dot-named directory hides from the test. */
  predicate Hidden(op: Op) {
    op.MoveTo? && HiddenBelow(OldPath(op), NewDir(op))
  }

  /** A run that makes no links ends with every node below the root exactly when none of
      its successful renames was hidden from the ancestor test. */
  lemma {:induction false} RunRootedByText(trace: seq<Tree>, ops: seq<Op>, errnos: seq<nat>, k: nat)
    requires History(trace, ops, errnos) && k <= |ops| && Rooted(trace[0]) && NoLinks(trace[0])
    requires forall i: nat :: i < |ops| ==> ops[i].WellFormed() && !ops[i].MakeLink?
    ensures Rooted(trace[k]) <==> forall i: nat :: i < k && Hidden(ops[i]) ==> errnos[i] != 0
  {
    RunRooted(trace, ops, errnos, k);
    forall i: nat | i < k
      ensures CutsOff(trace, ops, errnos, i) <==> errnos[i] == 0 && Hidden(ops[i])
    {
      assert Outcome(trace[i], ops[i], trace[i + 1], errnos[i]);
      RunWithoutLinks(trace, ops, errnos, i);
      if errnos[i] == 0 && ops[i].MoveTo? { CutIsHidden(trace[i], ops[i]); }
    }
  }

  // ----- what the ancestor test lets through -----

  const A_NAME: Name := [0x61]
  const DOT_H_NAME: Name := [0x2E, 0x68]
  const X_NAME: Name := [0x78]

  /** The directories "/a" and "/a/.h". */
  ghost function NestedTree(root: FsNode, a: FsNode, h: FsNode): Tree {
    Tree(false, SLASH_NAME, root,
         map[root := Place(root, SLASH_NAME), a := Place(root, A_NAME), h := Place(a, DOT_H_NAME)],
         map[Place(root, A_NAME) := a, Place(a, DOT_H_NAME) := h])
  }

  /** Moving "/a" to "/a/.h/x" passes the test, because the relative path ".h" starts
      with a dot, and cuts "/a" off. */
  lemma {:induction false} DotNameFoolsTest(root: FsNode, a: FsNode, h: FsNode, u: Tree)
    requires root != a && root != h && a != h && root.attr.kind == a.attr.kind == h.attr.kind == Dir
    ensures var t, op := NestedTree(root, a, h), MoveTo([], A_NAME, [A_NAME, DOT_H_NAME], X_NAME);
            && Agree(t) && Rooted(t) && NoLinks(t) && op.WellFormed()
            && (Agree(u) && Outcome(t, op, u, 0) ==> !Rooted(u))
            && Outcome(t, op, Move(t, a, Place(h, X_NAME)), 0)
  {
    var t, to := NestedTree(root, a, h), Place(h, X_NAME);
    var op := MoveTo([], A_NAME, [A_NAME, DOT_H_NAME], X_NAME);
    NestedAgrees(root, a, h);
    NestedResolves(root, a, h);
    NestedTests();
    assert Movable(t, a, to);
    assert Clear(t, to) == t;
    assert RenameOutcome(t, Place(root, A_NAME), to, op.Tests()) == Ok(Move(t, a, to));
    assert Up(t, h, 1) == Up(t, a, 0) == a;
    MoveRooted(t, a, to);
  }

  lemma {:induction false} NestedAgrees(root: FsNode, a: FsNode, h: FsNode)
    requires root != a && root != h && a != h && root.attr.kind == a.attr.kind == h.attr.kind == Dir
    ensures Agree(NestedTree(root, a, h)) && Rooted(NestedTree(root, a, h)) && NoLinks(NestedTree(root, a, h))
  {
    var t := NestedTree(root, a, h);
    assert Agree(t);
    assert Up(t, root, 0) == root && Up(t, a, 1) == Up(t, root, 0) && Up(t, h, 2) == Up(t, a, 1);
    assert Hangs(t, root) && Hangs(t, a) && Hangs(t, h);
  }

  lemma {:induction false} NestedResolves(root: FsNode, a: FsNode, h: FsNode)
    requires root != a && root != h && a != h && root.attr.kind == a.attr.kind == h.attr.kind == Dir
    requires Agree(NestedTree(root, a, h))
    ensures ResolvePath(NestedTree(root, a, h), []) == Ok(root)
    ensures ResolvePath(NestedTree(root, a, h), [A_NAME, DOT_H_NAME]) == Ok(h)
  {
    var t, path := NestedTree(root, a, h), [A_NAME, DOT_H_NAME];
    var one: seq<Name> := [DOT_H_NAME];
    assert path[1..] == one && |one[1..]| == 0;
    assert LookupResult(t, root, A_NAME) == Ok(a) && LookupResult(t, a, DOT_H_NAME) == Ok(h);
    assert Walk(t, h, [] + [A_NAME] + [DOT_H_NAME], [], MAX_WALKS - 1) == Ok(h);
    assert Walk(t, a, [] + [A_NAME], [DOT_H_NAME], MAX_WALKS - 1) == Ok(h);
    assert Walk(t, root, [], path, MAX_WALKS - 1) == Ok(h);
  }

  lemma {:induction false} NestedTests()
    ensures !SeemsAncestor(FullPath([], A_NAME), [A_NAME, DOT_H_NAME])
    ensures !SeemsAncestor(FullPath([A_NAME, DOT_H_NAME], X_NAME), [])
  {
    var a: seq<Name>, b: seq<Name>, c: seq<Name> := [A_NAME], [A_NAME, DOT_H_NAME], [A_NAME, DOT_H_NAME, X_NAME];
    assert Clean(a) && Clean(b) && Clean(c);
    NormalIsPath(a);
    NormalIsPath(b);
    NormalIsPath(c);
    assert FullPath([], A_NAME) == a && FullPath(b, X_NAME) == c;
  }
}
