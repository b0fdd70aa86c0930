/**
 * The directory tree of the in-memory file system as a value: what is where, what
 * each operation does to it, and the error it ends with otherwise.
 */
module MemTree {
  import opened Words
  import opened NameTable

  const SLASH_NAME: Name := [0x2F]
  const DOT_NAME: Name := [0x2E]
  const DOTDOT_NAME: Name := [0x2E, 0x2E]

  // The error numbers that the operations throw.
  const EACCES: nat := 2
  const EBUSY: nat := 10
  const EEXIST: nat := 20
  const EINVAL: nat := 28
  const EISDIR: nat := 31
  const ELOOP: nat := 32
  const ENOENT: nat := 44
  const ENOTDIR: nat := 54
  const ENOTEMPTY: nat := 55
  const EPERM: nat := 63

  type Errno = x: nat | x > 0 witness EACCES

  datatype Result<+T> = Ok(value: T) | Err(errno: Errno)

  // ----- the tree -----

  /** A place in the tree: a directory and a name in it. */
  datatype Place = Place(dir: FsNode, name: Name)

  /** Where every live node is, what is at every place that a directory lists, whether
      permissions count, and the text of the current directory. */
  datatype Tree = Tree(strict: bool, cwd: Name, root: FsNode, place: map<FsNode, Place>, at: map<Place, FsNode>)

  /** What is at a place, without the index. The root is also found in itself under
      "/", the name it is created with. */
  ghost function Entry(t: Tree, p: Place): Option<FsNode> {
    if p == Place(t.root, SLASH_NAME) then Some(t.root)
    else if p in t.at then Some(t.at[p])
    else None
  }

  /** Live nodes other than the root are listed by a live parent directory. */
  ghost predicate PlaceAgrees(t: Tree, n: FsNode)
    requires n in t.place
  {
    var p := t.place[n];
    && p.dir in t.place && p.dir.attr.kind == Dir
    && (if n == t.root then p == Place(n, SLASH_NAME)
        else p.name != SLASH_NAME && p in t.at && t.at[p] == n)
  }

  /** What a directory lists is live and knows its place. */
  ghost predicate ListingAgrees(t: Tree, p: Place)
    requires p in t.at
  {
    var n := t.at[p];
    n in t.place && n != t.root && t.place[n] == p
  }

  ghost predicate Agree(t: Tree) {
    && t.root in t.place && t.root.attr.kind == Dir
    && (forall n {:trigger PlaceAgrees(t, n)} :: n in t.place ==> PlaceAgrees(t, n))
    && (forall p {:trigger ListingAgrees(t, p)} :: p in t.at ==> ListingAgrees(t, p))
  }

  /** In an agreeing tree a node is at a place exactly when it knows that place. */
  lemma {:induction false} EntryIsPlace(t: Tree, n: FsNode, p: Place)
    requires Agree(t) && n in t.place
    ensures Entry(t, p) == Some(n) <==> t.place[n] == p
  {
    assert PlaceAgrees(t, n);
    if p in t.at { assert ListingAgrees(t, p); }
  }

  /** Only live directories list anything. */
  lemma {:induction false} ListersAreLive(t: Tree, p: Place)
    requires Agree(t) && p in t.at
    ensures p.dir in t.place && p.dir.attr.kind == Dir
  {
    assert ListingAgrees(t, p);
    assert PlaceAgrees(t, t.at[p]);
  }

  ghost predicate EmptyDir(t: Tree, d: FsNode) {
    forall p :: p in t.at ==> p.dir != d
  }

  ghost function Insert(t: Tree, p: Place, n: FsNode): Tree {
    Tree(t.strict, t.cwd, t.root, t.place[n := p], t.at[p := n])
  }

  ghost function Delete(t: Tree, p: Place): Tree
    requires p in t.at
  {
    Tree(t.strict, t.cwd, t.root, t.place - {t.at[p]}, t.at - {p})
  }

  ghost function Move(t: Tree, n: FsNode, p: Place): Tree {
    Tree(t.strict, t.cwd, t.root, t.place[n := p], (if n in t.place then t.at - {t.place[n]} else t.at)[p := n])
  }

  lemma {:induction false} InsertAgrees(t: Tree, p: Place, n: FsNode)
    requires Agree(t) && p.dir in t.place && p.dir.attr.kind == Dir && n !in t.place
    requires p.name != SLASH_NAME && p !in t.at
    ensures Agree(Insert(t, p, n))
  {
    var u := Insert(t, p, n);
    forall m | m in u.place
      ensures PlaceAgrees(u, m)
    {
      if m != n { assert PlaceAgrees(t, m); }
    }
    forall q | q in u.at
      ensures ListingAgrees(u, q)
    {
      if q != p { assert ListingAgrees(t, q); }
    }
  }

  lemma {:induction false} DeleteAgrees(t: Tree, p: Place)
    requires Agree(t) && p in t.at && EmptyDir(t, t.at[p])
    ensures Agree(Delete(t, p))
  {
    var u := Delete(t, p);
    assert ListingAgrees(t, p);
    forall m | m in u.place
      ensures PlaceAgrees(u, m)
    {
      assert PlaceAgrees(t, m);
    }
    forall q | q in u.at
      ensures ListingAgrees(u, q)
    {
      assert ListingAgrees(t, q);
    }
  }

  lemma {:induction false} MoveAgrees(t: Tree, n: FsNode, p: Place)
    requires Agree(t) && n in t.place && n != t.root && p.dir in t.place && p.dir.attr.kind == Dir
    requires p.name != SLASH_NAME && p !in t.at
    ensures Agree(Move(t, n, p))
  {
    var u := Move(t, n, p);
    assert PlaceAgrees(t, n);
    forall m | m in u.place
      ensures PlaceAgrees(u, m)
    {
      assert PlaceAgrees(t, m);
    }
    forall q | q in u.at
      ensures ListingAgrees(u, q)
    {
      if q != p { assert ListingAgrees(t, q); }
    }
  }

  ghost function RootTree(strict: bool, cwd: Name, root: FsNode): Tree {
    Tree(strict, cwd, root, map[root := Place(root, SLASH_NAME)], map[])
  }

  lemma {:induction false} RootAgrees(strict: bool, cwd: Name, root: FsNode)
    requires root.attr.kind == Dir
    ensures Agree(RootTree(strict, cwd, root))
  {
  }

  lemma {:induction false} EntryIsLive(t: Tree, p: Place)
    requires Agree(t) && Entry(t, p).Some?
    ensures Entry(t, p).value in t.place && t.place[Entry(t, p).value] == p
  {
    if p in t.at { assert ListingAgrees(t, p); }
    assert PlaceAgrees(t, t.root);
  }

  lemma {:induction false} OnlyDirsList(t: Tree, n: FsNode)
    requires Agree(t) && n.attr.kind != Dir
    ensures EmptyDir(t, n)
  {
    forall p | p in t.at ensures p.dir != n {
      ListersAreLive(t, p);
    }
  }

  // ----- the way from the root -----

  /** Following the listings from one node leads to the other. */
  ghost predicate Leads(t: Tree, from: FsNode, path: seq<Name>, d: FsNode)
    decreases |path|
  {
    if path == [] then from == d
    else Place(from, path[0]) in t.at && Leads(t, t.at[Place(from, path[0])], path[1..], d)
  }

  ghost predicate Reached(t: Tree, n: FsNode) {
    exists path :: Leads(t, t.root, path, n)
  }

  /** The last step, seen from its end. */
  lemma {:induction false} LeadsLast(t: Tree, from: FsNode, path: seq<Name>, d: FsNode)
    requires Agree(t) && path != [] && Leads(t, from, path, d)
    ensures d in t.place && d != t.root && t.place[d].name == path[|path| - 1]
    ensures Leads(t, from, path[..|path| - 1], t.place[d].dir)
    decreases |path|
  {
    var n := t.at[Place(from, path[0])];
    assert ListingAgrees(t, Place(from, path[0]));
    if |path| > 1 {
      LeadsLast(t, n, path[1..], d);
      assert path[1..][..|path| - 2] == path[..|path| - 1][1..];
    }
  }

  lemma {:induction false} LeadsOn(t: Tree, from: FsNode, path: seq<Name>, d: FsNode, name: Name)
    requires Leads(t, from, path, d) && Place(d, name) in t.at
    ensures Leads(t, from, path + [name], t.at[Place(d, name)])
    decreases |path|
  {
    if path != [] {
      assert (path + [name])[1..] == path[1..] + [name];
      LeadsOn(t, t.at[Place(from, path[0])], path[1..], d, name);
    }
  }

  lemma {:induction false} LeadsSame(t: Tree, from: FsNode, path: seq<Name>, a: FsNode, b: FsNode)
    requires Leads(t, from, path, a) && Leads(t, from, path, b)
    ensures a == b
    decreases |path|
  {
    if path != [] { LeadsSame(t, t.at[Place(from, path[0])], path[1..], a, b); }
  }

  /** From the root, every node is reached by at most one path. */
  lemma {:induction false} LeadsUnique(t: Tree, a: seq<Name>, b: seq<Name>, d: FsNode)
    requires Agree(t) && Leads(t, t.root, a, d) && Leads(t, t.root, b, d)
    ensures a == b
    decreases |a|
  {
    if a != [] { LeadsLast(t, t.root, a, d); }
    if b != [] { LeadsLast(t, t.root, b, d); }
    if a != [] && b != [] {
      LeadsUnique(t, a[..|a| - 1], b[..|b| - 1], t.place[d].dir);
      assert a == a[..|a| - 1] + [a[|a| - 1]] && b == b[..|b| - 1] + [b[|b| - 1]];
    }
  }

  /** The names with slashes between them. */
  function Joined(names: seq<Name>): Name {
    if names == [] then []
    else
      var rest := Joined(names[1..]);
      if rest != [] then names[0] + SLASH_NAME + rest else names[0]
  }

  function PathText(names: seq<Name>): Name {
    SLASH_NAME + Joined(names)
  }

  /** The path of the node is the text of the current directory. */
  ghost predicate IsCwd(t: Tree, n: FsNode) {
    exists path :: Leads(t, t.root, path, n) && PathText(path) == t.cwd
  }

  // ----- permissions and lookups -----

  ghost predicate Writable(t: Tree, n: FsNode) {
    t.strict ==> n.attr.access.write
  }

  ghost predicate Searchable(t: Tree, n: FsNode) {
    t.strict ==> n.attr.access.exec
  }

  /** What looking a name up in a directory gives. */
  ghost function LookupResult(t: Tree, dir: FsNode, name: Name): Result<FsNode> {
    if dir.attr.kind != Dir then Err(ENOTDIR)
    else if !Searchable(t, dir) then Err(EACCES)
    else match Entry(t, Place(dir, name))
      case Some(n) => Ok(n)
      case None => Err(ENOENT)
  }

  ghost function CreateError(t: Tree, dir: FsNode, name: Name): nat {
    if dir.attr.kind != Dir then ENOTDIR
    else if LookupResult(t, dir, name).Ok? then EEXIST
    else if Writable(t, dir) && Searchable(t, dir) then 0
    else EACCES
  }

  ghost function MknodError(t: Tree, dir: FsNode, name: Name, kind: Kind): nat {
    if name == [] then EINVAL
    else if name == DOT_NAME || name == DOTDOT_NAME then EEXIST
    else if CreateError(t, dir, name) != 0 then CreateError(t, dir, name)
    else if kind == BlockDev || kind == Fifo then EPERM
    else 0
  }

  ghost function MayDeleteError(t: Tree, dir: FsNode, name: Name, isDir: bool): nat
    requires Agree(t)
  {
    match LookupResult(t, dir, name)
    case Err(e) => e
    case Ok(n) =>
      EntryIsLive(t, Place(dir, name));
      if !Writable(t, dir) then EACCES
      else if !isDir then if n.attr.kind == Dir then EISDIR else 0
      else if n.attr.kind != Dir then ENOTDIR
      else if t.place[n].dir == n || IsCwd(t, n) then EBUSY
      else 0
  }

  ghost function RmdirError(t: Tree, dir: FsNode, name: Name): nat
    requires Agree(t)
  {
    var errno := MayDeleteError(t, dir, name, true);
    if errno != 0 then errno
    else if !EmptyDir(t, Entry(t, Place(dir, name)).value) then ENOTEMPTY
    else 0
  }

  // ----- rename -----

  /** What the path comparisons of FS.rename found. */
  datatype PathTests = PathTests(oldIsAncestor: bool, newIsAncestor: bool)

  /** The target of a rename may be overwritten by a node of the same sort. */
  ghost predicate Replaceable(t: Tree, p: Place, isDir: bool)
    requires p in t.at
  {
    (t.at[p].attr.kind == Dir) == isDir && p.dir != t.at[p]
  }

  ghost function Clear(t: Tree, p: Place): Tree {
    if p in t.at then Delete(t, p) else t
  }

  lemma {:induction false} ReplaceAgrees(t: Tree, n: FsNode, p: Place)
    requires Agree(t) && n in t.place && n != t.root && t.place[n] != p
    requires p.dir in t.place && p.dir.attr.kind == Dir && p.name != SLASH_NAME
    requires p in t.at ==> Replaceable(t, p, n.attr.kind == Dir) && EmptyDir(t, t.at[p])
    ensures n in Clear(t, p).place && Agree(Move(Clear(t, p), n, p))
  {
    if p in t.at {
      assert ListingAgrees(t, p);
      assert PlaceAgrees(t, n);
      DeleteAgrees(t, p);
    }
    MoveAgrees(Clear(t, p), n, p);
  }

  /** A directory does not replace one that has entries. */
  ghost function MoveError(t: Tree, n: FsNode, p: Place): nat {
    if p in t.at && n.attr.kind == Dir && !EmptyDir(t, t.at[p]) then ENOTEMPTY else 0
  }

  /** The moved tree, place by place. */
  lemma {:induction false} MovedTree(t: Tree, n: FsNode, p: Place)
    requires Agree(t) && n in t.place && n != t.root && t.place[n] != p
    requires p in t.at ==> t.at[p] != n
    ensures var u := Move(Clear(t, p), n, p);
            && u.root == t.root
            && (forall m :: m in u.place <==> m in t.place && !(p in t.at && t.at[p] == m))
            && (forall m {:trigger u.place[m]} :: m in u.place ==> u.place[m] == if m == n then p else t.place[m])
            && (forall q :: q in u.at <==> q == p || (q in t.at && q != t.place[n]))
            && (forall q {:trigger u.at[q]} :: q in u.at ==> u.at[q] == if q == p then n else t.at[q])
  {
  }

  /** What a rename does to the tree, or the error it ends with. */
  ghost function RenameOutcome(t: Tree, from: Place, to: Place, tests: PathTests): Result<Tree>
    requires Agree(t)
  {
    match LookupResult(t, from.dir, from.name)
    case Err(e) => Err(e)
    case Ok(n) =>
      EntryIsLive(t, from);
      var target, isDir := LookupResult(t, to.dir, to.name), n.attr.kind == Dir;
      var oldError := MayDeleteError(t, from.dir, from.name, isDir);
      var newError := if target.Ok? then MayDeleteError(t, to.dir, to.name, isDir)
                      else CreateError(t, to.dir, to.name);
      if tests.oldIsAncestor then Err(EINVAL)
      else if tests.newIsAncestor then Err(ENOTEMPTY)
      else if target == Ok(n) then Ok(t)
      else if oldError != 0 then Err(oldError)
      else if newError != 0 then Err(newError)
      else if target.Ok? && isDir && !EmptyDir(t, target.value) then Err(ENOTEMPTY)
      else Ok(Move(Clear(t, to), n, to))
  }

  // ----- paths -----

  /** The parts of a text between slashes; empty parts stay. */
  function Split(text: Name): (parts: seq<Name>)
    ensures parts != []
  {
    if text == [] then [[]]
    else
      var rest := Split(text[1..]);
      if text[0] == 0x2F then [[]] + rest else [[text[0]] + rest[0]] + rest[1..]
  }

  predicate IsAbsolute(text: Name) {
    text != [] && text[0] == 0x2F
  }

  function DropLast(names: seq<Name>): seq<Name> {
    if names == [] then [] else names[..|names| - 1]
  }

  /** How often a path is walked at most: links and ".." at the root start over. */
  const MAX_WALKS: nat := 40

  /** The directory that a path leads to, by what the directories list. */
  ghost function ResolvePath(t: Tree, path: seq<Name>): Result<FsNode>
    requires Agree(t)
  {
    Resolve(t, path, MAX_WALKS)
  }

  ghost function Resolve(t: Tree, path: seq<Name>, walks: nat): Result<FsNode>
    requires Agree(t)
    decreases walks, 0
  {
    if walks == 0 then Err(ELOOP) else Walk(t, t.root, [], path, walks - 1)
  }

  /** From `current`, which the names in `walked` lead to, along `path`. Empty and "."
      parts are skipped and ".." goes to the parent; at the root it starts over with
      the rest, as a link does with its text in front of the rest. */
  ghost function Walk(t: Tree, current: FsNode, walked: seq<Name>, path: seq<Name>, walks: nat): Result<FsNode>
    requires Agree(t) && current in t.place
    decreases walks, |path| + 1
  {
    if path == [] then Ok(current)
    else
      var part, rest := path[0], path[1..];
      if part == [] || part == DOT_NAME then Walk(t, current, walked, rest, walks)
      else if part == DOTDOT_NAME then
        PlaceIsLive(t, current);
        if t.place[current].dir == current then Resolve(t, DropLast(walked) + rest, walks)
        else Walk(t, t.place[current].dir, DropLast(walked), rest, walks)
      else match LookupResult(t, current, part)
        case Err(e) => Err(e)
        case Ok(n) =>
          EntryIsLive(t, Place(current, part));
          if n.attr.kind == Link then Resolve(t, LinkedPath(n.attr.link, walked) + rest, walks)
          else Walk(t, n, walked + [part], rest, walks)
  }

  /** Where a link in the directory `walked` points to. */
  function LinkedPath(link: Name, walked: seq<Name>): seq<Name> {
    (if IsAbsolute(link) then [] else walked) + Split(link)
  }

  function Parents(n: nat): seq<Name> {
    seq(n, _ => DOTDOT_NAME)
  }

  /** At the root every ".." costs a walk: fewer than 40 lead back to the root, 40 are
      taken for a loop of links. */
  lemma {:induction false} ParentsOfRoot(t: Tree, n: nat)
    requires Agree(t)
    ensures ResolvePath(t, Parents(n)) == if n < MAX_WALKS then Ok(t.root) else Err(ELOOP)
  {
    ParentsResolve(t, n, MAX_WALKS);
  }

  lemma {:induction false} ParentsResolve(t: Tree, n: nat, walks: nat)
    requires Agree(t)
    ensures Resolve(t, Parents(n), walks) == if n < walks then Ok(t.root) else Err(ELOOP)
    decreases walks
  {
    if walks > 0 && n > 0 {
      assert PlaceAgrees(t, t.root);
      assert Parents(n)[1..] == Parents(n - 1) == DropLast([]) + Parents(n - 1);
      ParentsResolve(t, n - 1, walks - 1);
    }
  }

  lemma {:induction false} PlaceIsLive(t: Tree, n: FsNode)
    requires Agree(t) && n in t.place
    ensures t.place[n].dir in t.place && t.place[n].dir.attr.kind == Dir
  {
    assert PlaceAgrees(t, n);
  }

  lemma {:induction false} ResolvedIsReached(t: Tree, path: seq<Name>, walks: nat)
    requires Agree(t)
    ensures var r := Resolve(t, path, walks); r.Ok? ==> Reached(t, r.value) && r.value in t.place
    decreases walks, 0
  {
    if walks > 0 {
      assert Leads(t, t.root, [], t.root);
      WalkedIsReached(t, t.root, [], path, walks - 1);
    }
  }

  lemma {:induction false} WalkedIsReached(t: Tree, current: FsNode, walked: seq<Name>, path: seq<Name>, walks: nat)
    requires Agree(t) && current in t.place && Reached(t, current)
    ensures var r := Walk(t, current, walked, path, walks); r.Ok? ==> Reached(t, r.value) && r.value in t.place
    decreases walks, |path| + 1
  {
    if path != [] {
      var part, rest := path[0], path[1..];
      if part == [] || part == DOT_NAME {
        WalkedIsReached(t, current, walked, rest, walks);
      } else if part == DOTDOT_NAME {
        ParentIsReached(t, current);
        if t.place[current].dir == current {
          ResolvedIsReached(t, DropLast(walked) + rest, walks);
        } else {
          WalkedIsReached(t, t.place[current].dir, DropLast(walked), rest, walks);
        }
      } else if LookupResult(t, current, part).Ok? {
        var n := LookupResult(t, current, part).value;
        ChildIsReached(t, current, part);
        if n.attr.kind == Link {
          ResolvedIsReached(t, LinkedPath(n.attr.link, walked) + rest, walks);
        } else {
          WalkedIsReached(t, n, walked + [part], rest, walks);
        }
      }
    }
  }

  lemma {:induction false} ParentIsReached(t: Tree, n: FsNode)
    requires Agree(t) && n in t.place && Reached(t, n)
    ensures t.place[n].dir in t.place && Reached(t, t.place[n].dir)
  {
    PlaceIsLive(t, n);
    var path :| Leads(t, t.root, path, n);
    if path != [] {
      LeadsLast(t, t.root, path, n);
    } else {
      assert PlaceAgrees(t, t.root) && Leads(t, t.root, [], t.root);
    }
  }

  lemma {:induction false} ChildIsReached(t: Tree, dir: FsNode, name: Name)
    requires Agree(t) && Reached(t, dir) && Entry(t, Place(dir, name)).Some?
    ensures var n := Entry(t, Place(dir, name)).value; n in t.place && Reached(t, n)
  {
    EntryIsLive(t, Place(dir, name));
    var path :| Leads(t, t.root, path, dir);
    if Place(dir, name) in t.at { LeadsOn(t, t.root, path, dir, name); }
  }

  /** What a path from the root comes to by its text alone. */
  function Normal(stack: seq<Name>, path: seq<Name>): seq<Name>
    decreases |path|
  {
    if path == [] then stack
    else if path[0] == [] || path[0] == DOT_NAME then Normal(stack, path[1..])
    else if path[0] == DOTDOT_NAME then Normal(DropLast(stack), path[1..])
    else Normal(stack + [path[0]], path[1..])
  }

  function FullPath(dir: seq<Name>, name: Name): seq<Name> {
    if name == SLASH_NAME then [] else dir + [name]
  }

  /** The ancestor test of FS.rename: whether the relative path from one to the other
      does not start with a dot, which it also does when a name on the way does. */
  function SeemsAncestor(path: seq<Name>, other: seq<Name>): bool {
    var a, b := Normal([], path), Normal([], other);
    a <= b && (|a| < |b| ==> b[|a|] == [] || b[|a|][0] != 0x2E)
  }

  // ----- operations -----

  /** An operation with the path of its directory and the last component. */
  datatype Op =
    | Create(dir: seq<Name>, name: Name, attr: Attr)
    | MakeLink(dir: seq<Name>, name: Name, text: Name)
    | RemoveFile(dir: seq<Name>, name: Name)
    | RemoveDir(dir: seq<Name>, name: Name)
    | MoveTo(dir: seq<Name>, name: Name, newDir: seq<Name>, newName: Name)
  {
    /** Components are not "/"; the last one is, only when the whole path is the root, and
        it is empty only when the path is. Links are made by their own operation. */
    predicate WellFormed() {
      && SLASH_NAME !in dir && (MoveTo? ==> SLASH_NAME !in newDir)
      && (name == SLASH_NAME || name == [] ==> dir == [])
      && (MoveTo? && (newName == SLASH_NAME || newName == []) ==> newDir == [])
      && (Create? ==> attr.kind != Link)
    }

    function Tests(): PathTests
      requires MoveTo?
    {
      PathTests(SeemsAncestor(FullPath(dir, name), newDir), SeemsAncestor(FullPath(newDir, newName), dir))
    }
  }

  function LinkAttr(text: Name): Attr {
    Attr(Link, Access(true, true), text)
  }

  /** The error that an operation ends with, or 0. An empty path is not found. */
  ghost function OpError(t: Tree, op: Op): nat
    requires Agree(t)
  {
    if op.name == [] || (op.MakeLink? && op.text == []) then ENOENT
    else match ResolvePath(t, op.dir)
      case Err(e) => e
      case Ok(dir) =>
        match op
        case Create(_, name, attr) => MknodError(t, dir, name, attr.kind)
        case MakeLink(_, name, _) => CreateError(t, dir, name)
        case RemoveFile(_, name) => MayDeleteError(t, dir, name, false)
        case RemoveDir(_, name) => RmdirError(t, dir, name)
        case MoveTo(_, name, newDir, newName) =>
          if newName == [] then ENOENT
          else match ResolvePath(t, newDir)
            case Err(e) => e
            case Ok(target) =>
              match RenameOutcome(t, Place(dir, name), Place(target, newName), op.Tests())
              case Err(e) => e
              case Ok(_) => 0
  }

  /** A new node with the attributes at the place, and nothing else. */
  ghost predicate Created(t: Tree, p: Place, attr: Attr, u: Tree) {
    exists n :: n in u.place && n !in t.place && n.attr == attr && u == Insert(t, p, n)
  }

  /** `u` is what a successful operation makes of `t`. */
  ghost predicate Effect(t: Tree, op: Op, u: Tree)
    requires Agree(t)
  {
    ResolvePath(t, op.dir).Ok? &&
    var p := Place(ResolvePath(t, op.dir).value, op.name);
    match op
    case Create(_, _, attr) => Created(t, p, attr, u)
    case MakeLink(_, _, text) => Created(t, p, LinkAttr(text), u)
    case RemoveFile(_, _) => p in t.at && u == Delete(t, p)
    case RemoveDir(_, _) => p in t.at && u == Delete(t, p)
    case MoveTo(_, _, newDir, newName) =>
      && ResolvePath(t, newDir).Ok?
      && RenameOutcome(t, p, Place(ResolvePath(t, newDir).value, newName), op.Tests()) == Ok(u)
  }

  /** An operation ends with its error and leaves the tree as it is, or has its effect. */
  ghost predicate Outcome(t: Tree, op: Op, u: Tree, errno: nat)
    requires Agree(t)
  {
    && errno == OpError(t, op)
    && (if errno != 0 then u == t else Effect(t, op, u))
  }

  /** The trees before and after every operation, and what the callers were told. */
  ghost predicate History(trace: seq<Tree>, ops: seq<Op>, errnos: seq<nat>) {
    && |errnos| == |ops| && |trace| == |ops| + 1
    && (forall k: nat :: k < |trace| ==> Agree(trace[k]))
    && (forall k: nat :: k < |ops| ==> Outcome(trace[k], ops[k], trace[k + 1], errnos[k]))
  }
}
