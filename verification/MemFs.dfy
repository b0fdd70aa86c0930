/**
 * Directory operations of the in-memory file system, on top of the hash index. The
 * directory contents and the index are two views of the same tree; every operation
 * keeps them in agreement.
 */
module MemFs {
  import opened Words
  import opened NameTable
  import opened MemTree

  const TABLE_SIZE: nat := 4096

  // ----- the file system object -----

  /** The fields of a node on the heap are what the tree says about it. */
  ghost predicate Mirrors(n: FsNode, t: Tree)
    requires n in t.place
    reads n`parent, n`name, n`contents
  {
    && Place(n.parent, n.name) == t.place[n]
    && (forall x :: x in n.contents <==> Place(n, x) in t.at)
    && (forall x :: x in n.contents ==> n.contents[x] == t.at[Place(n, x)])
  }

  /** The fields of a node after what is at `p` has been taken out of its directory. */
  ghost predicate Unlisted(n: FsNode, t: Tree, p: Place)
    requires n in t.place
    reads n`parent, n`name, n`contents
  {
    && Place(n.parent, n.name) == t.place[n]
    && (forall x :: x in n.contents <==> Place(n, x) in t.at && Place(n, x) != p)
    && (forall x :: x in n.contents ==> n.contents[x] == t.at[Place(n, x)])
  }

  /** The fields of a node after `m` has been moved to `p` in the tree `t`. */
  ghost predicate Moved(n: FsNode, t: Tree, m: FsNode, p: Place)
    requires n in t.place && m in t.place
    reads n`parent, n`name, n`contents
  {
    && Place(n.parent, n.name) == (if n == m then p else t.place[n])
    && (forall x :: x in n.contents <==> Place(n, x) == p || (Place(n, x) in t.at && Place(n, x) != t.place[m]))
    && (forall x :: x in n.contents ==> n.contents[x] == if Place(n, x) == p then m else t.at[Place(n, x)])
  }

  lemma {:induction false} MovedMirrors(t: Tree, m: FsNode, p: Place)
    requires Agree(t) && m in t.place && m != t.root && t.place[m] != p
    requires p in t.at ==> t.at[p] != m
    requires forall n {:trigger Moved(n, t, m, p)} :: n in t.place ==> Moved(n, t, m, p)
    ensures var u := Move(Clear(t, p), m, p);
            && (forall n :: n in u.place <==> n in t.place && !(p in t.at && t.at[p] == n))
            && (forall n {:trigger Mirrors(n, u)} :: n in u.place ==> Mirrors(n, u))
  {
    MovedTree(t, m, p);
    var u := Move(Clear(t, p), m, p);
    forall n | n in u.place
      ensures Mirrors(n, u)
    {
      assert Moved(n, t, m, p);
    }
  }

  class FileSystem {
    const index: Index
    const root: FsNode
    const ignorePermissions: bool
    var currentPath: Name
    var nextInode: nat
    ghost var tree: Tree

    ghost predicate IdsOk()
      reads this
    {
      && (forall n {:trigger n.id} :: n in tree.place ==> n.id < nextInode)
      && (forall m, n {:trigger m.id, n.id} :: m in tree.place && n in tree.place && m.id == n.id ==> m == n)
    }

    ghost predicate AllMirrored()
      reads this, tree.place.Keys`parent, tree.place.Keys`name, tree.place.Keys`contents
    {
      forall n {:trigger Mirrors(n, tree)} :: n in tree.place ==> Mirrors(n, tree)
    }

    /** Everything but the index: the tree agrees with itself and with the heap. */
    ghost predicate TreeOk()
      reads this, tree.place.Keys`parent, tree.place.Keys`name, tree.place.Keys`contents
    {
      && tree.root == root && tree.strict == !ignorePermissions && tree.cwd == currentPath
      && Agree(tree) && IdsOk() && AllMirrored()
    }

    /** The index is in order and its members are exactly the live nodes. */
    ghost predicate Valid()
      reads this, index, index.table, tree.place.Keys`parent, tree.place.Keys`name, tree.place.Keys`contents
      reads index.members`parent, index.members`name, index.members`nameNext
    {
      index.Valid() && index.members == tree.place.Keys && TreeOk()
    }

    /** The root is created with all permissions. */
    constructor (ignorePermissions: bool)
      ensures Valid() && fresh(root) && fresh(index) && fresh(index.table) && index.table.Length == 4096
      ensures tree == RootTree(!ignorePermissions, SLASH_NAME, root) && root.attr == Attr(Dir, Access(true, true), [])
    {
      this.ignorePermissions := ignorePermissions;
      index := new Index(TABLE_SIZE);
      var r := new FsNode(null, SLASH_NAME, Attr(Dir, Access(true, true), []), 1);
      root := r;
      nextInode := 2;
      currentPath := SLASH_NAME;
      tree := RootTree(!ignorePermissions, SLASH_NAME, r);
      new;
      RootAgrees(!ignorePermissions, SLASH_NAME, root);
      assert tree.place.Keys == {root};
      assert Mirrors(root, tree);
      assert TreeOk();
      index.HashAddNode(root);
      assert TreeOk();
    }

    /** FS.nodePermissions for writing, searching or both. */
    predicate Permitted(node: FsNode, write: bool, exec: bool)
      reads {}
    {
      ignorePermissions || ((write ==> node.attr.access.write) && (exec ==> node.attr.access.exec))
    }

    /** The chain walk for a directory and a name. */
    method FindIn(dir: FsNode, name: Name) returns (r: Option<FsNode>)
      requires index.Valid() && TreeOk() && index.members <= tree.place.Keys && dir in tree.place
      ensures r.Some? ==> r.value in index.members && tree.place[r.value] == Place(dir, name)
      ensures r.None? ==> forall n :: n in index.members ==> tree.place[n] != Place(dir, name)
    {
      r := index.Find(dir.id, name);
      match r
      case Some(n) => KeyMatches(n, dir, name);
      case None =>
        forall n | n in index.members
          ensures tree.place[n] != Place(dir, name)
        {
          KeyMatches(n, dir, name);
        }
    }

    /** Ids are as good as nodes: the comparison of the chain walk decides the place. */
    lemma {:induction false} KeyMatches(n: FsNode, dir: FsNode, name: Name)
      requires Agree(tree) && IdsOk() && n in tree.place && dir in tree.place && Mirrors(n, tree)
      ensures Matches(n, dir.id, name) <==> tree.place[n] == Place(dir, name)
    {
      assert PlaceAgrees(tree, n);
    }

    /** FS.lookupNode: the index answers exactly what the directory contents say. */
    method LookupNode(dir: FsNode, name: Name) returns (r: Result<FsNode>)
      requires Valid() && dir in tree.place
      ensures r == LookupResult(tree, dir, name)
      ensures r.Ok? ==> r.value in tree.place && tree.place[r.value] == Place(dir, name)
    {
      if dir.attr.kind != Dir {
        return Err(ENOTDIR);
      }
      if !Permitted(dir, false, true) {
        return Err(EACCES);
      }
      var found := FindIn(dir, name);
      match found {
        case Some(n) =>
          EntryIsPlace(tree, n, Place(dir, name));
          r := Ok(n);
        case None =>
          if Entry(tree, Place(dir, name)).Some? {
            EntryIsLive(tree, Place(dir, name));
          }
          r := Err(ENOENT);
      }
    }

    /** FS.createNode and the part of MEMFS.createNode that lists it in its parent. */
    method CreateNode(dir: FsNode, name: Name, attr: Attr) returns (node: FsNode)
      requires Valid() && dir in tree.place && dir.attr.kind == Dir
      requires name != SLASH_NAME && Place(dir, name) !in tree.at
      modifies `nextInode, `tree, index, index.table, dir`contents
      ensures Valid() && fresh(node) && node.attr == attr
      ensures tree == Insert(old(tree), Place(dir, name), node)
    {
      node := new FsNode(dir, name, attr, nextInode);
      nextInode := nextInode + 1;
      assert TreeOk();
      index.HashAddNode(node);
      assert TreeOk();
      ListNode(dir, name, node);
    }

    /** Listing an indexed node in its directory. */
    method ListNode(dir: FsNode, name: Name, node: FsNode)
      requires index.Valid() && TreeOk() && index.members == tree.place.Keys + {node}
      requires dir in tree.place && dir.attr.kind == Dir && name != SLASH_NAME && Place(dir, name) !in tree.at
      requires node !in tree.place && node.parent == dir && node.name == name && node.contents == map[]
      requires node.id < nextInode && forall n :: n in tree.place ==> n.id < node.id
      modifies `tree, dir`contents
      ensures Valid() && tree == Insert(old(tree), Place(dir, name), node)
    {
      ghost var t := tree;
      InsertAgrees(t, Place(dir, name), node);
      dir.contents := dir.contents[name := node];
      tree := Insert(t, Place(dir, name), node);
      forall n | n in tree.place
        ensures Mirrors(n, tree)
      {
        if n in t.place {
          assert old(Mirrors(n, tree));
        } else {
          forall x ensures Place(node, x) !in t.at {
            if Place(node, x) in t.at { ListersAreLive(t, Place(node, x)); }
          }
        }
      }
    }

    /** FS.mayCreate */
    method MayCreate(dir: FsNode, name: Name) returns (errno: nat)
      requires Valid() && dir in tree.place
      ensures errno == CreateError(tree, dir, name)
    {
      if dir.attr.kind != Dir {
        return ENOTDIR;
      }
      var found := LookupNode(dir, name);
      errno := if found.Ok? then EEXIST else if Permitted(dir, true, true) then 0 else EACCES;
    }

    /** FS.mknod, for a resolved parent. */
    method Mknod(dir: FsNode, name: Name, attr: Attr) returns (r: Result<FsNode>)
      requires Valid() && dir in tree.place && FromPath(dir, name)
      modifies `nextInode, `tree, index, index.table, dir`contents
      ensures Valid()
      ensures r.Ok? <==> MknodError(old(tree), dir, name, attr.kind) == 0
      ensures r.Ok? ==> fresh(r.value) && r.value.attr == attr && tree == Insert(old(tree), Place(dir, name), r.value)
      ensures r.Err? ==> tree == old(tree) && r.errno == MknodError(old(tree), dir, name, attr.kind)
    {
      if name == [] {
        return Err(EINVAL);
      }
      if name == DOT_NAME || name == DOTDOT_NAME {
        return Err(EEXIST);
      }
      var errno := MayCreate(dir, name);
      if errno != 0 {
        return Err(errno);
      }
      if attr.kind == BlockDev || attr.kind == Fifo {
        return Err(EPERM);
      }
      CreatablePlace(dir, name);
      var node := CreateNode(dir, name, attr);
      r := Ok(node);
    }

    /** A place where something may be created is free. */
    lemma {:induction false} CreatablePlace(dir: FsNode, name: Name)
      requires Agree(tree) && CreateError(tree, dir, name) == 0 && FromPath(dir, name) && tree.root == root
      ensures dir.attr.kind == Dir && name != SLASH_NAME && Place(dir, name) !in tree.at
    {
    }

    /** FS.symlink, for a resolved parent: no check for "." or "..". */
    method Symlink(dir: FsNode, name: Name, text: Name) returns (r: Result<FsNode>)
      requires Valid() && dir in tree.place && FromPath(dir, name)
      modifies `nextInode, `tree, index, index.table, dir`contents
      ensures Valid()
      ensures r.Ok? <==> CreateError(old(tree), dir, name) == 0
      ensures r.Ok? ==>
                fresh(r.value) && r.value.attr == LinkAttr(text) && tree == Insert(old(tree), Place(dir, name), r.value)
      ensures r.Err? ==> tree == old(tree) && r.errno == CreateError(old(tree), dir, name)
    {
      var errno := MayCreate(dir, name);
      if errno != 0 {
        return Err(errno);
      }
      CreatablePlace(dir, name);
      var node := CreateNode(dir, name, LinkAttr(text));
      r := Ok(node);
    }

    /** FS.getPath, for a node that is reached from the root. */
    method GetPath(n: FsNode) returns (text: Name)
      requires TreeOk() && n in tree.place && Reached(tree, n)
      ensures exists path :: Leads(tree, root, path, n) && text == PathText(path)
    {
      var path: Name, node := [], n;
      ghost var whole :| Leads(tree, root, whole, n);
      ghost var above := whole;
      assert whole[|whole|..] == [] && whole[..|whole|] == whole;
      while true
        invariant node in tree.place && |above| <= |whole| && above == whole[..|above|]
        invariant Leads(tree, root, above, node) && path == Joined(whole[|above|..])
        decreases |above|
      {
        assert Mirrors(node, tree);
        if node.parent == node {
          OwnParent(node, above);
          return SLASH_NAME + path;
        }
        assert PlaceAgrees(tree, root);
        LeadsLast(tree, root, above, node);
        PlaceIsLive(tree, node);
        ghost var k := |above| - 1;
        assert whole[k..][0] == node.name && whole[k..][1..] == whole[k + 1..];
        path := if path != [] then node.name + SLASH_NAME + path else node.name;
        node := node.parent;
        above := above[..k];
      }
    }

    /** A reached node is its own parent only when it is the root. */
    lemma {:induction false} OwnParent(n: FsNode, path: seq<Name>)
      requires Agree(tree) && n in tree.place && Leads(tree, tree.root, path, n) && tree.place[n].dir == n
      ensures path == []
    {
      if path != [] {
        LeadsLast(tree, tree.root, path, n);
        LeadsUnique(tree, path, path[..|path| - 1], n);
      }
    }

    /** FS.mayDelete. The node lies in a directory that a path leads to. */
    method MayDelete(dir: FsNode, name: Name, isDir: bool) returns (errno: nat)
      requires Valid() && dir in tree.place && Reached(tree, dir)
      ensures errno == MayDeleteError(tree, dir, name, isDir)
    {
      var found := LookupNode(dir, name);
      if found.Err? {
        return found.errno;
      }
      var node := found.value;
      if !Permitted(dir, true, true) {
        return EACCES;
      }
      if isDir {
        errno := MayDeleteDir(dir, name, node);
      } else {
        errno := if node.attr.kind == Dir then EISDIR else 0;
      }
    }

    /** The part of FS.mayDelete for directories. */
    method MayDeleteDir(dir: FsNode, name: Name, node: FsNode) returns (errno: nat)
      requires TreeOk() && dir in tree.place && Reached(tree, dir) && Entry(tree, Place(dir, name)) == Some(node)
      ensures node in tree.place
      ensures errno == if node.attr.kind != Dir then ENOTDIR
                       else if tree.place[node].dir == node || IsCwd(tree, node) then EBUSY
                       else 0
    {
      ChildIsReached(tree, dir, name);
      assert Mirrors(node, tree);
      if node.attr.kind != Dir {
        return ENOTDIR;
      }
      if node.parent == node {
        return EBUSY;
      }
      var path := GetPath(node);
      CwdIsPath(node, path);
      errno := if path == currentPath then EBUSY else 0;
    }

    lemma {:induction false} CwdIsPath(n: FsNode, text: Name)
      requires Agree(tree) && exists path :: Leads(tree, tree.root, path, n) && text == PathText(path)
      ensures IsCwd(tree, n) <==> text == tree.cwd
    {
      var path :| Leads(tree, tree.root, path, n) && text == PathText(path);
      if IsCwd(tree, n) {
        var other :| Leads(tree, tree.root, other, n) && PathText(other) == tree.cwd;
        LeadsUnique(tree, path, other, n);
      }
    }

    /** FS.unlink, for a resolved parent. */
    method Unlink(dir: FsNode, name: Name) returns (errno: nat)
      requires Valid() && dir in tree.place && FromPath(dir, name) && Reached(tree, dir)
      modifies `tree, index, index.table, tree.place.Keys`nameNext, dir`contents
      ensures Valid()
      ensures errno == MayDeleteError(old(tree), dir, name, false)
      ensures errno == 0 ==> Place(dir, name) in old(tree).at && tree == Delete(old(tree), Place(dir, name))
      ensures errno != 0 ==> tree == old(tree)
    {
      var found := LookupNode(dir, name);
      if found.Err? {
        return found.errno;
      }
      errno := MayDelete(dir, name, false);
      if errno == 0 {
        OnlyDirsList(tree, found.value);
        RemoveNode(dir, name, found.value);
      }
    }

    /** FS.rmdir with the emptiness test of MEMFS, for a resolved parent. */
    method Rmdir(dir: FsNode, name: Name) returns (errno: nat)
      requires Valid() && dir in tree.place && FromPath(dir, name) && Reached(tree, dir)
      modifies `tree, index, index.table, tree.place.Keys`nameNext, dir`contents
      ensures Valid()
      ensures errno == RmdirError(old(tree), dir, name)
      ensures errno == 0 ==> Place(dir, name) in old(tree).at && tree == Delete(old(tree), Place(dir, name))
      ensures errno != 0 ==> tree == old(tree)
    {
      var found := LookupNode(dir, name);
      if found.Err? {
        return found.errno;
      }
      errno := MayDelete(dir, name, true);
      if errno != 0 {
        return;
      }
      EmptyIsEmpty(found.value);
      assert PlaceAgrees(tree, root);
      if found.value.contents != map[] {
        return ENOTEMPTY;
      }
      RemoveNode(dir, name, found.value);
    }

    /** A directory lists nothing on the heap exactly when it is empty in the tree. */
    lemma {:induction false} EmptyIsEmpty(n: FsNode)
      requires TreeOk() && n in tree.place
      ensures n.contents == map[] <==> EmptyDir(tree, n)
    {
      assert Mirrors(n, tree);
      if n.contents == map[] {
        forall p | p in tree.at ensures p.dir != n {
          assert p == Place(p.dir, p.name);
        }
      } else {
        var x :| x in n.contents;
        assert Place(n, x) in tree.at;
      }
    }

    /** Taking a node that lists nothing out of its directory and out of the index. */
    method RemoveNode(dir: FsNode, name: Name, node: FsNode)
      requires Valid() && dir in tree.place && Place(dir, name) in tree.at && tree.at[Place(dir, name)] == node
      requires EmptyDir(tree, node)
      modifies `tree, index, index.table, tree.place.Keys`nameNext, dir`contents
      ensures Valid() && tree == Delete(old(tree), Place(dir, name))
    {
      assert ListingAgrees(tree, Place(dir, name));
      assert TreeOk();
      index.HashRemoveNode(node);
      assert TreeOk();
      UnlistNode(dir, name, node);
    }

    method UnlistNode(dir: FsNode, name: Name, node: FsNode)
      requires index.Valid() && TreeOk() && index.members == tree.place.Keys - {node}
      requires dir in tree.place && Place(dir, name) in tree.at && tree.at[Place(dir, name)] == node
      requires EmptyDir(tree, node) && node in tree.place
      modifies `tree, dir`contents
      ensures Valid() && tree == Delete(old(tree), Place(dir, name))
    {
      ghost var t := tree;
      DeleteAgrees(t, Place(dir, name));
      UnlistName(dir, name, t);
      tree := Delete(t, Place(dir, name));
      forall n | n in tree.place
        ensures Mirrors(n, tree)
      {
        assert Unlisted(n, t, Place(dir, name));
      }
    }

    /** The directory's own list. */
    static method UnlistName(dir: FsNode, name: Name, ghost t: Tree)
      requires dir in t.place && forall n {:trigger Mirrors(n, t)} :: n in t.place ==> Mirrors(n, t)
      modifies dir`contents
      ensures forall n {:trigger Unlisted(n, t, Place(dir, name))} :: n in t.place ==> Unlisted(n, t, Place(dir, name))
    {
      assert Mirrors(dir, t);
      dir.contents := dir.contents - {name};
      forall n | n in t.place
        ensures Unlisted(n, t, Place(dir, name))
      {
        assert old(Mirrors(n, t));
      }
    }

    /** Names are last components of paths: "/" only for the root itself. */
    ghost predicate FromPath(dir: FsNode, name: Name) {
      name == SLASH_NAME ==> dir == root
    }

    /** FS.rename with the rename of MEMFS, for resolved parents. The ancestor tests look
        at path texts only; here are their outcomes. */
    method Rename(oldDir: FsNode, oldName: Name, newDir: FsNode, newName: Name, tests: PathTests) returns (errno: nat)
      requires Valid() && oldDir in tree.place && newDir in tree.place
      requires FromPath(oldDir, oldName) && FromPath(newDir, newName) && Reached(tree, oldDir) && Reached(tree, newDir)
      modifies `tree, index, index.table, tree.place.Keys
      ensures Valid()
      ensures RenameOutcome(old(tree), Place(oldDir, oldName), Place(newDir, newName), tests)
              == if errno == 0 then Ok(tree) else Err(errno)
      ensures errno != 0 ==> tree == old(tree)
      ensures tree.place.Keys <= old(tree.place.Keys)
    {
      var checked := CheckRename(oldDir, oldName, newDir, newName, tests);
      if checked.Err? {
        return checked.errno;
      }
      if checked.value.None? {
        return 0;
      }
      errno := MoveNode(checked.value.value, newDir, newName);
    }

    /** The checks of FS.rename: its error, nothing when there is nothing to do, or the
        node to move. */
    method CheckRename(oldDir: FsNode, oldName: Name, newDir: FsNode, newName: Name, tests: PathTests)
      returns (r: Result<Option<FsNode>>)
      requires Valid() && oldDir in tree.place && newDir in tree.place
      requires FromPath(oldDir, oldName) && FromPath(newDir, newName) && Reached(tree, oldDir) && Reached(tree, newDir)
      ensures r.Err? ==> RenameOutcome(tree, Place(oldDir, oldName), Place(newDir, newName), tests) == Err(r.errno)
      ensures r == Ok(None) ==> RenameOutcome(tree, Place(oldDir, oldName), Place(newDir, newName), tests) == Ok(tree)
      ensures r.Ok? && r.value.Some? ==>
                var n, p := r.value.value, Place(newDir, newName);
                && n in tree.place && n != root && tree.place[n] != p
                && newDir.attr.kind == Dir && newName != SLASH_NAME
                && (p in tree.at ==> Replaceable(tree, p, n.attr.kind == Dir))
                && RenameOutcome(tree, Place(oldDir, oldName), p, tests)
                   == if p in tree.at && n.attr.kind == Dir && !EmptyDir(tree, tree.at[p]) then Err(ENOTEMPTY)
                      else Ok(Move(Clear(tree, p), n, p))
    {
      var source := LookupNode(oldDir, oldName);
      if source.Err? {
        return Err(source.errno);
      }
      var oldNode := source.value;
      if tests.oldIsAncestor {
        return Err(EINVAL);
      }
      if tests.newIsAncestor {
        return Err(ENOTEMPTY);
      }
      var target := LookupNode(newDir, newName);
      if target == Ok(oldNode) {
        return Ok(None);
      }
      var isDir := oldNode.attr.kind == Dir;
      var errno := MayDelete(oldDir, oldName, isDir);
      if errno != 0 {
        return Err(errno);
      }
      if target.Ok? {
        errno := MayDelete(newDir, newName, isDir);
      } else {
        errno := MayCreate(newDir, newName);
      }
      if errno != 0 {
        return Err(errno);
      }
      CheckedMove(oldDir, oldName, newDir, newName, oldNode);
      r := Ok(Some(oldNode));
    }

    /** What the checks of a rename establish. */
    lemma {:induction false} CheckedMove(oldDir: FsNode, oldName: Name, newDir: FsNode, newName: Name, n: FsNode)
      requires TreeOk() && oldDir in tree.place && newDir in tree.place && FromPath(newDir, newName)
      requires LookupResult(tree, oldDir, oldName) == Ok(n) && LookupResult(tree, newDir, newName) != Ok(n)
      requires MayDeleteError(tree, oldDir, oldName, n.attr.kind == Dir) == 0
      requires if LookupResult(tree, newDir, newName).Ok?
               then MayDeleteError(tree, newDir, newName, n.attr.kind == Dir) == 0
               else CreateError(tree, newDir, newName) == 0
      ensures n in tree.place && n != root && newDir.attr.kind == Dir && newName != SLASH_NAME
      ensures var p := Place(newDir, newName);
              tree.place[n] != p
              && (p in tree.at ==>
                    LookupResult(tree, newDir, newName) == Ok(tree.at[p]) && Replaceable(tree, p, n.attr.kind == Dir))
              && (p !in tree.at ==> !LookupResult(tree, newDir, newName).Ok?)
    {
      EntryIsLive(tree, Place(oldDir, oldName));
      EntryIsPlace(tree, n, Place(newDir, newName));
      assert PlaceAgrees(tree, root);
      if Place(newDir, newName) in tree.at { assert ListingAgrees(tree, Place(newDir, newName)); }
    }

    /** The last part of FS.rename: out of the index, MEMFS rename, into the index. */
    method MoveNode(oldNode: FsNode, newDir: FsNode, newName: Name) returns (errno: nat)
      requires Valid() && oldNode in tree.place && oldNode != root && newDir in tree.place && newDir.attr.kind == Dir
      requires newName != SLASH_NAME && tree.place[oldNode] != Place(newDir, newName)
      requires Place(newDir, newName) in tree.at ==> Replaceable(tree, Place(newDir, newName), oldNode.attr.kind == Dir)
      modifies `tree, index, index.table, tree.place.Keys
      ensures Valid()
      ensures var p := Place(newDir, newName);
              && errno == MoveError(old(tree), oldNode, p)
              && (errno == 0 ==> tree == Move(Clear(old(tree), p), oldNode, p))
              && (errno != 0 ==> tree == old(tree))
      ensures tree.place.Keys <= old(tree.place.Keys)
    {
      assert TreeOk();
      index.HashRemoveNode(oldNode);
      assert TreeOk();
      errno := MoveUnindexed(oldNode, newDir, newName);
      assert TreeOk();
      index.HashAddNode(oldNode);
      assert TreeOk();
    }

    /** The rename of MEMFS, and the parent update, while the node is out of the index. */
    method MoveUnindexed(oldNode: FsNode, newDir: FsNode, newName: Name) returns (errno: nat)
      requires index.Valid() && TreeOk() && oldNode in tree.place && index.members == tree.place.Keys - {oldNode}
      requires oldNode != root && newDir in tree.place && newDir.attr.kind == Dir
      requires newName != SLASH_NAME && tree.place[oldNode] != Place(newDir, newName)
      requires Place(newDir, newName) in tree.at ==> Replaceable(tree, Place(newDir, newName), oldNode.attr.kind == Dir)
      modifies `tree, index, index.table, tree.place.Keys
      ensures index.Valid() && TreeOk() && index.members == tree.place.Keys - {oldNode}
      ensures var p := Place(newDir, newName);
              && errno == MoveError(old(tree), oldNode, p)
              && (errno == 0 ==> tree == Move(Clear(old(tree), p), oldNode, p))
              && (errno != 0 ==> tree == old(tree))
      ensures oldNode in tree.place && tree.place.Keys <= old(tree.place.Keys)
    {
      errno := MemfsRename(oldNode, newDir, newName);
      if errno == 0 {
        if Place(newDir, newName) in tree.at && oldNode.attr.kind != Dir {
          OnlyDirsList(tree, tree.at[Place(newDir, newName)]);
        }
        Rewire(oldNode, newDir, newName);
      }
    }

    /** The first half of the MEMFS rename: an existing target must be empty when a
        directory is moved, and leaves the index. */
    method MemfsRename(oldNode: FsNode, newDir: FsNode, newName: Name) returns (errno: nat)
      requires index.Valid() && TreeOk() && oldNode in tree.place && index.members == tree.place.Keys - {oldNode}
      requires newDir in tree.place && tree.place[oldNode] != Place(newDir, newName)
      requires newName != SLASH_NAME
      modifies index, index.table, tree.place.Keys`nameNext
      ensures index.Valid() && TreeOk()
      ensures var p := Place(newDir, newName);
              && errno == MoveError(tree, oldNode, p)
              && index.members == (if errno == 0 then Clear(tree, p) else tree).place.Keys - {oldNode}
    {
      ghost var p := Place(newDir, newName);
      if p in tree.at { assert ListingAgrees(tree, p); }
      var target := FindIn(newDir, newName);
      assert target.None? ==> p !in tree.at;
      if target.Some? {
        EntryIsPlace(tree, target.value, p);
        EmptyIsEmpty(target.value);
        if oldNode.attr.kind == Dir && target.value.contents != map[] {
          return ENOTEMPTY;
        }
        assert TreeOk();
        index.HashRemoveNode(target.value);
        assert TreeOk();
      }
      errno := 0;
    }

    /** The second half: the internal rewiring, and the parent update of FS.rename. */
    method Rewire(oldNode: FsNode, newDir: FsNode, newName: Name)
      requires index.Valid() && TreeOk() && oldNode in tree.place && oldNode != root
      requires newDir in tree.place && newDir.attr.kind == Dir && newName != SLASH_NAME
      requires tree.place[oldNode] != Place(newDir, newName)
      requires var p := Place(newDir, newName);
               && index.members == Clear(tree, p).place.Keys - {oldNode}
               && (p in tree.at ==> Replaceable(tree, p, oldNode.attr.kind == Dir) && EmptyDir(tree, tree.at[p]))
      modifies `tree, tree.place.Keys
      ensures index.Valid() && TreeOk() && index.members == tree.place.Keys - {oldNode}
      ensures tree == Move(Clear(old(tree), Place(newDir, newName)), oldNode, Place(newDir, newName))
    {
      ghost var t, p := tree, Place(newDir, newName);
      assert PlaceAgrees(t, oldNode) && Mirrors(oldNode, t);
      ReplaceAgrees(t, oldNode, p);
      tree := Move(Clear(t, p), oldNode, p);
      assert index.Valid();
      RewireUnindexed(oldNode, newDir, newName, t);
      MovedMirrors(t, oldNode, p);
    }

    /** The node being moved is not in the index, so the index does not notice. */
    method RewireUnindexed(oldNode: FsNode, newDir: FsNode, newName: Name, ghost t: Tree)
      requires oldNode in t.place && newDir in t.place && oldNode.parent in t.place
      requires forall n {:trigger Mirrors(n, t)} :: n in t.place ==> Mirrors(n, t)
      requires index.Valid() && oldNode !in index.members
      modifies oldNode`name, oldNode`parent, oldNode.parent`contents, newDir`contents
      ensures index.Valid()
      ensures forall n {:trigger Moved(n, t, oldNode, Place(newDir, newName))} :: n in t.place ==>
                Moved(n, t, oldNode, Place(newDir, newName))
    {
      RewireFields(oldNode, newDir, newName, t);
    }

    static method RewireFields(oldNode: FsNode, newDir: FsNode, newName: Name, ghost t: Tree)
      requires oldNode in t.place && newDir in t.place && oldNode.parent in t.place
      requires forall n {:trigger Mirrors(n, t)} :: n in t.place ==> Mirrors(n, t)
      modifies oldNode`name, oldNode`parent, oldNode.parent`contents, newDir`contents
      ensures forall n {:trigger Moved(n, t, oldNode, Place(newDir, newName))} :: n in t.place ==>
                Moved(n, t, oldNode, Place(newDir, newName))
    {
      assert Mirrors(oldNode, t) && Mirrors(newDir, t) && Mirrors(oldNode.parent, t);
      oldNode.parent.contents := oldNode.parent.contents - {oldNode.name};
      newDir.contents := newDir.contents[newName := oldNode];
      oldNode.name := newName;
      oldNode.parent := newDir;
      forall n | n in t.place
        ensures Moved(n, t, oldNode, Place(newDir, newName))
      {
        assert old(Mirrors(n, t));
      }
    }

    // ----- runs -----

    /** FS.lookupPath for the directory of a path: component by component, with ".." and
        links, starting over at most 40 times. */
    method ResolveDir(path: seq<Name>) returns (r: Result<FsNode>)
      requires Valid()
      ensures r == ResolvePath(tree, path)
      ensures r.Ok? ==> r.value in tree.place && Reached(tree, r.value) && (path == [] ==> r.value == root)
    {
      ResolvedIsReached(tree, path, MAX_WALKS);
      var parts, nlinks := path, 0;
      while nlinks < MAX_WALKS
        invariant 0 <= nlinks <= MAX_WALKS && (path == [] ==> nlinks == 0 && parts == [])
        invariant ResolvePath(tree, path) == Resolve(tree, parts, MAX_WALKS - nlinks)
      {
        var again;
        r, again, parts := WalkOnce(parts, MAX_WALKS - nlinks - 1);
        if !again {
          return;
        }
        nlinks := nlinks + 1;
      }
      r := Err(ELOOP);
    }

    /** One turn of the loop over links: a result, or the path to start over with. */
    method WalkOnce(path: seq<Name>, ghost walks: nat) returns (r: Result<FsNode>, again: bool, next: seq<Name>)
      requires Valid()
      ensures !again ==> r == Walk(tree, root, [], path, walks) && (r.Ok? ==> r.value in tree.place)
      ensures again ==> Walk(tree, root, [], path, walks) == Resolve(tree, next, walks) && path != []
      ensures path == [] ==> r == Ok(root)
    {
      next := path;
      var current, walked: seq<Name> := root, [];
      assert path[0..] == path;
      for i := 0 to |path|
        invariant current in tree.place && (i == 0 ==> current == root)
        invariant Walk(tree, root, [], path, walks) == Walk(tree, current, walked, path[i..], walks)
      {
        assert path[i..][0] == path[i] && path[i..][1..] == path[i + 1..];
        if path[i] == [] || path[i] == DOT_NAME {
          continue;
        }
        if path[i] == DOTDOT_NAME {
          PlaceIsLive(tree, current);
          assert Mirrors(current, tree);
          walked := DropLast(walked);
          if current == current.parent {
            return Err(ELOOP), true, walked + path[i + 1..];
          }
          current := current.parent;
          continue;
        }
        var found := LookupNode(current, path[i]);
        if found.Err? {
          return found, false, path;
        }
        if found.value.attr.kind == Link {
          return found, true, LinkedPath(found.value.attr.link, walked) + path[i + 1..];
        }
        current, walked := found.value, walked + [path[i]];
      }
      return Ok(current), false, path;
    }

    /** One operation with its paths: its error, and the tree unchanged; or 0, and its
        effect. */
    method Step(op: Op) returns (errno: nat)
      requires Valid() && op.WellFormed()
      modifies this, index, index.table, tree.place.Keys
      ensures Valid() && fresh(tree.place.Keys - old(tree.place.Keys))
      ensures Outcome(old(tree), op, tree, errno)
    {
      if op.name == [] || (op.MakeLink? && op.text == []) {
        return ENOENT;
      }
      var dir := ResolveDir(op.dir);
      if dir.Err? {
        return dir.errno;
      }
      errno := StepIn(op, dir.value);
    }

    /** The operation in its resolved directory. */
    method StepIn(op: Op, dir: FsNode) returns (errno: nat)
      requires Valid() && op.WellFormed() && op.name != [] && (op.MakeLink? ==> op.text != [])
      requires ResolvePath(tree, op.dir) == Ok(dir) && dir in tree.place && Reached(tree, dir)
      requires (op.dir == [] ==> dir == root)
      modifies this, index, index.table, tree.place.Keys
      ensures Valid() && fresh(tree.place.Keys - old(tree.place.Keys))
      ensures Outcome(old(tree), op, tree, errno)
    {
      match op
      case Create(_, name, attr) =>
        var r := Mknod(dir, name, attr);
        errno := if r.Ok? then 0 else r.errno;
      case MakeLink(_, name, text) =>
        var r := Symlink(dir, name, text);
        errno := if r.Ok? then 0 else r.errno;
      case RemoveFile(_, name) =>
        errno := Unlink(dir, name);
      case RemoveDir(_, name) =>
        errno := Rmdir(dir, name);
      case MoveTo(_, name, newDir, newName) =>
        if newName == [] {
          return ENOENT;
        }
        var target := ResolveDir(newDir);
        if target.Err? {
          return target.errno;
        }
        errno := Rename(dir, name, target.value, newName, op.Tests());
    }

    /** Any run of operations keeps the index in agreement with the contents, and
        every operation of the run has its outcome. */
    method Run(ops: seq<Op>) returns (errnos: seq<nat>, ghost trace: seq<Tree>)
      requires Valid() && forall k :: 0 <= k < |ops| ==> ops[k].WellFormed()
      modifies this, index, index.table, tree.place.Keys
      ensures Valid()
      ensures |errnos| == |ops| && |trace| == |ops| + 1 && trace[0] == old(tree) && trace[|ops|] == tree
      ensures History(trace, ops, errnos)
    {
      errnos, trace := [], [tree];
      for k := 0 to |ops|
        invariant Valid() && fresh(tree.place.Keys - old(tree.place.Keys))
        invariant |errnos| == k && |trace| == k + 1 && trace[0] == old(tree) && trace[k] == tree
        invariant forall j: nat :: j <= k ==> Agree(trace[j])
        invariant forall j: nat :: j < k ==> Outcome(trace[j], ops[j], trace[j + 1], errnos[j])
      {
        var errno := Step(ops[k]);
        errnos, trace := errnos + [errno], trace + [tree];
      }
    }

    /** What a valid file system promises, for every directory and name: the chain
        for the name contains a node that matches exactly when the directory lists
        that node (or it is the root under "/"). */
    lemma {:induction false} IndexAgreesWithContents(dir: FsNode, name: Name, n: FsNode)
      requires Valid() && dir in tree.place && dir.attr.kind == Dir && n in tree.place
      ensures n in index.chains[HashOf(dir.id, name, index.table.Length)] && Matches(n, dir.id, name)
              <==> (name in dir.contents && dir.contents[name] == n) || (n == dir == root && name == SLASH_NAME)
    {
      assert Mirrors(n, tree) && Mirrors(dir, tree);
      KeyMatches(n, dir, name);
      EntryIsPlace(tree, n, Place(dir, name));
      index.ExactlyOneChain(n, HashOf(dir.id, name, index.table.Length));
      assert PlaceAgrees(tree, n) && PlaceAgrees(tree, root);
      if Place(dir, name) in tree.at { assert ListingAgrees(tree, Place(dir, name)); }
    }
  }
}
