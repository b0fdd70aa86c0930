/**
 * When an operation of the in-memory file system succeeds, and with which number it fails
 * otherwise, said of what the directories list and permit.
 */
module MemErrors {
  import opened Words
  import opened NameTable
  import opened MemTree
  import opened MemLinks

  /** The directory has an entry of that name; the root has itself under "/". */
  ghost predicate Listed(t: Tree, dir: FsNode, name: Name) {
    Place(dir, name) in t.at || (dir == t.root && name == [0x2F])
  }

  ghost function Listing(t: Tree, dir: FsNode, name: Name): FsNode
    requires Listed(t, dir, name)
  {
    if dir == t.root && name == [0x2F] then t.root else t.at[Place(dir, name)]
  }

  ghost predicate MayWrite(t: Tree, dir: FsNode) {
    t.strict ==> dir.attr.access.write
  }

  predicate IsDots(name: Name) {
    name == [0x2E] || name == [0x2E, 0x2E]
  }

  // ----- making entries -----

  /** A node is made exactly in a directory that may be searched and written, under a name
      that it does not list. */
  lemma {:induction false} CreateNumbers(t: Tree, op: Op, d: FsNode)
    requires Agree(t) && op.Create? && op.name != [] && ResolvePath(t, op.dir) == Ok(d)
    ensures var e, isDir := OpError(t, op), d.attr.kind == Dir;
            var special := op.attr.kind == BlockDev || op.attr.kind == Fifo;
            var free := MaySearch(t, d) && MayWrite(t, d) && !Listed(t, d, op.name) && !IsDots(op.name);
            && e in {0, 2, 20, 54, 63}
            && (e == 0 <==> free && !special)
            && (e == 63 <==> free && special)
            && (e == 54 <==> !IsDots(op.name) && !isDir)
            && (e == 20 <==> IsDots(op.name) || (MaySearch(t, d) && Listed(t, d, op.name)))
            && (e == 2 <==> !IsDots(op.name) && isDir
                            && (!MaySearch(t, d) || (!MayWrite(t, d) && !Listed(t, d, op.name))))
  {
  }

  lemma {:induction false} LinkNumbers(t: Tree, op: Op, d: FsNode)
    requires Agree(t) && op.MakeLink? && op.name != [] && op.text != [] && ResolvePath(t, op.dir) == Ok(d)
    ensures var e, isDir := OpError(t, op), d.attr.kind == Dir;
            && e in {0, 2, 20, 54}
            && (e == 0 <==> MaySearch(t, d) && MayWrite(t, d) && !Listed(t, d, op.name))
            && (e == 54 <==> !isDir)
            && (e == 20 <==> MaySearch(t, d) && Listed(t, d, op.name))
            && (e == 2 <==> isDir && (!MaySearch(t, d) || (!MayWrite(t, d) && !Listed(t, d, op.name))))
  {
  }

  /** The new link has the given text, and everybody may read, write and follow it. */
  lemma {:induction false} LinkMade(t: Tree, op: Op, u: Tree)
    requires Agree(t) && op.MakeLink? && ResolvePath(t, op.dir).Ok? && Effect(t, op, u)
    ensures var p := Place(ResolvePath(t, op.dir).value, op.name);
            && p in u.at && u.at[p] !in t.place && u.at[p].attr.kind == Link && u.at[p].attr.link == op.text
            && u.at[p].attr.access == Access(true, true) && u.at == t.at[p := u.at[p]]
  {
    var p := Place(ResolvePath(t, op.dir).value, op.name);
    var n :| n in u.place && n !in t.place && n.attr == LinkAttr(op.text) && u == Insert(t, p, n);
    assert u.at[p] == n;
  }

  // ----- removing entries -----

  /** A file is removed exactly from a directory that may be searched and written, when it
      lists something under the name that is no directory. */
  lemma {:induction false} UnlinkNumbers(t: Tree, op: Op, d: FsNode)
    requires Agree(t) && op.RemoveFile? && op.name != [] && ResolvePath(t, op.dir) == Ok(d)
    ensures var e := OpError(t, op);
            var deletable := MaySearch(t, d) && Listed(t, d, op.name) && MayWrite(t, d);
            && e in {0, 2, 31, 44, 54}
            && (e == 0 <==> deletable && Listing(t, d, op.name).attr.kind != Dir)
            && (e == 31 <==> deletable && Listing(t, d, op.name).attr.kind == Dir)
            && (e == 44 <==> MaySearch(t, d) && !Listed(t, d, op.name))
            && (e == 54 <==> d.attr.kind != Dir)
            && (e == 2 <==> d.attr.kind == Dir && (!MaySearch(t, d) || (Listed(t, d, op.name) && !MayWrite(t, d))))
  {
  }

  /** A directory is removed exactly when it is empty, neither its own parent nor the
      current directory, and its parent may be searched and written. */
  lemma {:induction false} RmdirNumbers(t: Tree, op: Op, d: FsNode)
    requires Agree(t) && op.RemoveDir? && op.name != [] && ResolvePath(t, op.dir) == Ok(d)
    ensures var e := OpError(t, op);
            var deletable := MaySearch(t, d) && Listed(t, d, op.name) && MayWrite(t, d);
            && e in {0, 2, 10, 44, 54, 55}
            && (e == 44 <==> MaySearch(t, d) && !Listed(t, d, op.name))
            && (e == 2 <==> d.attr.kind == Dir && (!MaySearch(t, d) || (Listed(t, d, op.name) && !MayWrite(t, d))))
            && (e == 54 <==> d.attr.kind != Dir || (deletable && Listing(t, d, op.name).attr.kind != Dir))
            && (deletable && Listing(t, d, op.name).attr.kind == Dir ==>
                  var n := Listing(t, d, op.name);
                  && (e == 10 <==> n == d || IsCwd(t, n))
                  && (e == 55 <==> e != 10 && exists name :: Place(n, name) in t.at))
  {
    if Listed(t, d, op.name) {
      var n := Listing(t, d, op.name);
      EntryIsLive(t, Place(d, op.name));
      NotEmpty(t, n);
    }
  }

  lemma {:induction false} NotEmpty(t: Tree, d: FsNode)
    ensures !EmptyDir(t, d) <==> exists name :: Place(d, name) in t.at
  {
    if p :| p in t.at && p.dir == d {
      assert Place(d, p.name) in t.at;
    }
  }

  // ----- moving entries -----

  /** Nothing stands under the name, or something of the same sort that may be deleted: no
      directory in place of itself, none that is current, and none that has entries. */
  ghost predicate GivesWay(t: Tree, to: Place, isDir: bool) {
    MaySearch(t, to.dir) && MayWrite(t, to.dir) &&
    (Listed(t, to.dir, to.name) ==>
       var m := Listing(t, to.dir, to.name);
       && (m.attr.kind == Dir) == isDir
       && (isDir ==> m != to.dir && !IsCwd(t, m) && forall name :: Place(m, name) !in t.at))
  }

  /** A rename succeeds exactly when the source is listed, the path tests find no ancestor,
      and source and target are one node, or the source may be deleted and the target
      gives way. It fails with 28 and 55 for the ancestors. */
  lemma {:induction false} RenameSucceeds(t: Tree, from: Place, to: Place, tests: PathTests)
    requires Agree(t)
    ensures var r := RenameOutcome(t, from, to, tests);
            var found := MaySearch(t, from.dir) && Listed(t, from.dir, from.name);
            && (r.Ok? <==> found && !tests.oldIsAncestor && !tests.newIsAncestor
                           && (SameNode(t, from, to) || (Leaves(t, from) && GivesWay(t, to, IsDirAt(t, from)))))
            && (!found ==> r == Err(if from.dir.attr.kind != Dir then 54 else if MaySearch(t, from.dir) then 44 else 2))
            && (found && tests.oldIsAncestor ==> r == Err(28))
            && (found && !tests.oldIsAncestor && tests.newIsAncestor ==> r == Err(55))
  {
    if Listed(t, from.dir, from.name) { EntryIsLive(t, from); }
    if Listed(t, to.dir, to.name) {
      EntryIsLive(t, to);
      NotEmpty(t, Listing(t, to.dir, to.name));
    }
  }

  /** The error numbers of the other failures, first those of the source. */
  lemma {:induction false} RenameNumbers(t: Tree, from: Place, to: Place, tests: PathTests)
    requires Agree(t) && MaySearch(t, from.dir) && Listed(t, from.dir, from.name)
    requires !tests.oldIsAncestor && !tests.newIsAncestor && !SameNode(t, from, to)
    ensures var r, isDir := RenameOutcome(t, from, to, tests), IsDirAt(t, from);
            && (!Leaves(t, from) ==> r == Err(if MayWrite(t, from.dir) then 10 else 2))
            && (Leaves(t, from) && to.dir.attr.kind != Dir ==> r == Err(54))
            && (Leaves(t, from) && to.dir.attr.kind == Dir && !MaySearch(t, to.dir) ==> r == Err(2))
            && (Leaves(t, from) && MaySearch(t, to.dir) && !MayWrite(t, to.dir) ==> r == Err(2))
            && (Leaves(t, from) && MaySearch(t, to.dir) && MayWrite(t, to.dir) && Listed(t, to.dir, to.name) ==>
                  var m := Listing(t, to.dir, to.name);
                  && (!isDir && m.attr.kind == Dir ==> r == Err(31))
                  && (isDir && m.attr.kind != Dir ==> r == Err(54))
                  && (isDir && m.attr.kind == Dir && (m == to.dir || IsCwd(t, m)) ==> r == Err(10))
                  && (isDir && m.attr.kind == Dir && m != to.dir && !IsCwd(t, m) ==>
                        ((exists x :: Place(m, x) in t.at) ==> r == Err(55))))
  {
    EntryIsLive(t, from);
    if Listed(t, to.dir, to.name) {
      EntryIsLive(t, to);
      NotEmpty(t, Listing(t, to.dir, to.name));
    }
  }

  ghost predicate SameNode(t: Tree, from: Place, to: Place)
    requires Listed(t, from.dir, from.name)
  {
    MaySearch(t, to.dir) && Listed(t, to.dir, to.name)
    && Listing(t, to.dir, to.name) == Listing(t, from.dir, from.name)
  }

  ghost predicate IsDirAt(t: Tree, p: Place)
    requires Listed(t, p.dir, p.name)
  {
    Listing(t, p.dir, p.name).attr.kind == Dir
  }

  ghost predicate Leaves(t: Tree, from: Place)
    requires Listed(t, from.dir, from.name)
  {
    var n := Listing(t, from.dir, from.name);
    MayWrite(t, from.dir) && (n.attr.kind == Dir ==> n != from.dir && !IsCwd(t, n))
  }

  // ----- operations by path -----

  /** An empty path is not found; the error of a lookup is the error of the operation. */
  lemma {:induction false} LookupNumbers(t: Tree, op: Op)
    requires Agree(t)
    ensures op.name == [] || (op.MakeLink? && op.text == []) ==> OpError(t, op) == 44
    ensures op.name != [] && (op.MakeLink? ==> op.text != []) && ResolvePath(t, op.dir).Err? ==>
              OpError(t, op) == ResolvePath(t, op.dir).errno
    ensures op.MoveTo? && op.name != [] && ResolvePath(t, op.dir).Ok? ==>
              if op.newName == [] then OpError(t, op) == 44
              else if ResolvePath(t, op.newDir).Err? then OpError(t, op) == ResolvePath(t, op.newDir).errno
              else
                var r := RenameOutcome(t, Place(ResolvePath(t, op.dir).value, op.name),
                                       Place(ResolvePath(t, op.newDir).value, op.newName), op.Tests());
                OpError(t, op) == if r.Ok? then 0 else r.errno
  {
  }

  /** The text of a path from the root: a slash in front of every name. */
  lemma {:induction false} PathTextSpells(names: seq<Name>)
    requires names != [] && forall i: nat :: i < |names| ==> names[i] != [] && 0x2F !in names[i]
    ensures Spells([[]] + names, PathText(names)) && PathText([]) == [0x2F]
  {
    JoinedSpells(names);
    assert ([[]] + names)[1..] == names && PathText(names)[1..] == Joined(names) && PathText(names)[..0] == [];
  }

  lemma {:induction false} JoinedSpells(names: seq<Name>)
    requires names != [] && forall i: nat :: i < |names| ==> names[i] != [] && 0x2F !in names[i]
    ensures Joined(names) != [] && Spells(names, Joined(names))
    decreases |names|
  {
    if |names| > 1 {
      var rest := Joined(names[1..]);
      assert forall i: nat :: i < |names[1..]| ==> names[1..][i] == names[i + 1];
      JoinedSpells(names[1..]);
      var text := names[0] + SLASH_NAME + rest;
      assert text[..|names[0]|] == names[0] && text[|names[0]| + 1..] == rest;
    }
  }
}
