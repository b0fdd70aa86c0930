/**
 * The mutable inode tree: nodes on the heap, and a ghost shape that names the
 * nodes in pre-order. A walk over the tree is proved against the flat list of
 * records that the shape enumerates.
 */
module PfsTree {
  import opened Words
  import opened PfsLayout

  const DIR_MODE: nat := 0x41ED
  const FILE_MODE: nat := 0x81A4

  /** The file-scope inode counter; number 1 is reserved for the root. */
  class InodeCounter {
    var next: nat

    constructor ()
      ensures next == 2
    {
      next := 2;
    }
  }

  class Inode {
    const name: Bytes
    const kind: Kind
    const parent: Inode?
    var mode: nat
    var nlink: nat
    var flags: nat
    var size: nat
    var sizeCompressed: nat
    var offset: nat
    var ino: nat
    var srcPath: Option<Path>
    var children: seq<Inode>

    /** pfs_inode_create */
    constructor (name: Bytes, kind: Kind, parent: Inode?, counter: InodeCounter)
      modifies counter
      ensures this.parent == parent
      ensures counter.next == old(counter.next) + 1
      ensures Snap() == FreshRec(name, kind, old(counter.next))
      ensures children == []
    {
      this.name := name;
      this.kind := kind;
      this.parent := parent;
      children := [];
      nlink, flags, size, sizeCompressed, offset := 0, 0, 0, 0, 0;
      srcPath := None;
      mode := if kind == Dir then DIR_MODE else FILE_MODE;
      ino := counter.next;
      new;
      counter.next := counter.next + 1;
    }

    function Snap(): Rec
      reads this
    {
      Rec(name, kind, mode, nlink, flags, size, sizeCompressed, offset, ino, srcPath)
    }

    /** pfs_inode_add_child */
    method AddChild(child: Inode)
      modifies `children, `nlink
      ensures children == old(children) + [child]
      ensures nlink == old(nlink) + 1
    {
      children := children + [child];
      nlink := nlink + 1;
    }
  }

  function FreshRec(name: Bytes, kind: Kind, ino: nat): Rec {
    Rec(name, kind, if kind == Dir then DIR_MODE else FILE_MODE, 0, 0, 0, 0, 0, ino, None)
  }

  // ----- shapes -----

  datatype Shape = Shape(node: Inode, kids: seq<Shape>)

  /** The subtrees of a tree in pre-order; their nodes are the tree's nodes. */
  ghost function Pre(s: Shape): seq<Shape>
  {
    [s] + PreAll(s.kids)
  }

  ghost function PreAll(ks: seq<Shape>): seq<Shape>
  {
    if ks == [] then [] else Pre(ks[0]) + PreAll(ks[1..])
  }

  ghost function Heads(ks: seq<Shape>): seq<Inode> {
    seq(|ks|, i requires 0 <= i < |ks| => ks[i].node)
  }

  ghost function Nodes(ts: seq<Shape>): set<Inode> {
    set t | t in ts :: t.node
  }

  /** The child arrays on the heap are those of the shapes. */
  ghost predicate Linked(ts: seq<Shape>)
    reads Nodes(ts)
  {
    forall i: nat :: i < |ts| ==> ts[i].node.children == Heads(ts[i].kids)
  }

  ghost predicate ParentOf(ks: seq<Shape>, p: Inode) {
    forall i: nat :: i < |ks| ==> ks[i].node.parent == p
  }

  ghost predicate Distinct(ts: seq<Shape>) {
    forall i: nat, j: nat :: i < j < |ts| ==> ts[i].node != ts[j].node
  }

  lemma {:induction false} LinkedParts(a: seq<Shape>, b: seq<Shape>)
    ensures Linked(a + b) <==> Linked(a) && Linked(b)
  {
    assert forall i: nat :: i < |a| ==> (a + b)[i] == a[i];
    assert forall i: nat :: i < |b| ==> (a + b)[|a| + i] == b[i];
  }

  lemma {:induction false} DistinctParts(a: seq<Shape>, b: seq<Shape>)
    requires Distinct(a + b)
    ensures Distinct(a) && Distinct(b) && Nodes(a) !! Nodes(b)
  {
    assert forall i: nat :: i < |a| ==> (a + b)[i] == a[i];
    assert forall i: nat :: i < |b| ==> (a + b)[|a| + i] == b[i];
  }

  lemma {:induction false} NodesParts(a: seq<Shape>, b: seq<Shape>)
    ensures Nodes(a + b) == Nodes(a) + Nodes(b)
  {
  }

  ghost function Snaps(ts: seq<Shape>): (rs: seq<Rec>)
    reads Nodes(ts)
    ensures |rs| == |ts|
  {
    seq(|ts|, i requires 0 <= i < |ts| reads Nodes(ts) => ts[i].node.Snap())
  }

  lemma {:induction false} SnapsConcat(a: seq<Shape>, b: seq<Shape>)
    ensures Snaps(a + b) == Snaps(a) + Snaps(b)
  {
  }

  // ----- counting walks -----

  /** count_inodes */
  method CountInodes(node: Inode, ghost s: Shape) returns (count: nat)
    requires node == s.node && Linked(Pre(s))
    ensures count == |Pre(s)|
    decreases s
  {
    count := 1;
    ghost var rest := s.kids;
    LinkedParts([s], PreAll(rest));
    assert Pre(s)[0] == s;
    for i := 0 to |node.children|
      invariant rest == s.kids[i..] && Linked(PreAll(rest))
      invariant count + |PreAll(rest)| == |Pre(s)|
    {
      ghost var tail := PreAll(rest[1..]);
      LinkedParts(Pre(rest[0]), tail);
      assert Linked(tail);
      var c := CountInodes(node.children[i], rest[0]);
      assert Linked(tail);
      count := count + c;
      rest := rest[1..];
    }
  }

  predicate SizesFit(rs: seq<Rec>, bs: nat) {
    forall k: nat :: k < |rs| ==> rs[k].size + bs <= TWO64
  }

  lemma {:induction false} SizesFitParts(a: seq<Rec>, b: seq<Rec>, bs: nat)
    requires SizesFit(a + b, bs)
    ensures SizesFit(a, bs) && SizesFit(b, bs)
  {
    assert forall k: nat :: k < |a| ==> (a + b)[k] == a[k];
    assert forall k: nat :: k < |b| ==> (a + b)[|a| + k] == b[k];
  }

  /** The facts a walk needs when it enters the first of the subtrees still to do. */
  lemma {:induction false} EnterFirst(rest: seq<Shape>, bs: nat)
    requires rest != [] && bs > 0 && Linked(PreAll(rest)) && SizesFit(Snaps(PreAll(rest)), bs)
    ensures Linked(Pre(rest[0])) && Linked(PreAll(rest[1..]))
    ensures Snaps(PreAll(rest)) == Snaps(Pre(rest[0])) + Snaps(PreAll(rest[1..]))
    ensures SizesFit(Snaps(Pre(rest[0])), bs) && SizesFit(Snaps(PreAll(rest[1..])), bs)
    ensures TotalBlocks(Snaps(PreAll(rest)), bs)
            == TotalBlocks(Snaps(Pre(rest[0])), bs) + TotalBlocks(Snaps(PreAll(rest[1..])), bs)
  {
    var kid, tail := Pre(rest[0]), PreAll(rest[1..]);
    LinkedParts(kid, tail);
    SnapsConcat(kid, tail);
    SizesFitParts(Snaps(kid), Snaps(tail), bs);
    TotalsConcat(Snaps(kid), Snaps(tail), bs);
  }

  lemma {:induction false} EnterRoot(s: Shape, bs: nat)
    requires bs > 0 && Linked(Pre(s)) && SizesFit(Snaps(Pre(s)), bs)
    ensures s.node.children == Heads(s.kids) && Linked(PreAll(s.kids))
    ensures s.node.size + bs <= TWO64
    ensures Snaps(Pre(s)) == [s.node.Snap()] + Snaps(PreAll(s.kids))
    ensures SizesFit(Snaps(PreAll(s.kids)), bs)
    ensures TotalBlocks(Snaps(Pre(s)), bs) == Blocks(s.node.Snap(), bs) + TotalBlocks(Snaps(PreAll(s.kids)), bs)
  {
    LinkedParts([s], PreAll(s.kids));
    assert Pre(s)[0] == s;
    SnapsConcat([s], PreAll(s.kids));
    assert Snaps([s]) == [s.node.Snap()];
    SizesFitParts([s.node.Snap()], Snaps(PreAll(s.kids)), bs);
    assert Snaps(Pre(s))[0].size + bs <= TWO64;
  }

  /** count_blocks */
  method CountBlocks(node: Inode, bs: nat, ghost s: Shape, ghost rs: seq<Rec>) returns (blocks: nat)
    requires node == s.node && Linked(Pre(s)) && rs == Snaps(Pre(s))
    requires 0 < bs < TWO64 && SizesFit(rs, bs)
    ensures blocks == TotalBlocks(rs, bs)
    decreases s
  {
    EnterRoot(s, bs);
    blocks := 0;
    if node.kind == File && node.size > 0 {
      AlignUpIsAligned(node.size, bs);
      blocks := AlignUp(node.size, bs) / bs;
    }
    ghost var rest, recs := s.kids, rs[1..];
    for i := 0 to |node.children|
      invariant rest == s.kids[i..] && Linked(PreAll(rest)) && Snaps(PreAll(rest)) == recs
      invariant SizesFit(recs, bs)
      invariant blocks + TotalBlocks(recs, bs) == TotalBlocks(rs, bs)
    {
      EnterFirst(rest, bs);
      ghost var kid, tail := Pre(rest[0]), PreAll(rest[1..]);
      ghost var kidRecs, tailRecs := Snaps(kid), Snaps(tail);
      assert Linked(tail);
      var b := CountBlocks(node.children[i], bs, rest[0], kidRecs);
      assert Linked(tail) && Snaps(tail) == tailRecs;
      blocks := blocks + b;
      rest, recs := rest[1..], tailRecs;
    }
  }

  lemma {:induction false} DistinctThree(a: seq<Shape>, b: seq<Shape>, c: seq<Shape>)
    requires Distinct(a + (b + c))
    ensures Distinct(b) && Nodes(a) !! Nodes(b) && Nodes(c) !! Nodes(b)
    ensures a + (b + c) == (a + b) + c
    ensures Nodes(b) <= Nodes(a + (b + c))
  {
    DistinctParts(a, b + c);
    DistinctParts(b, c);
    NodesParts(a, b + c);
    NodesParts(b, c);
  }

  lemma {:induction false} BeforeChild(done: seq<Shape>, rest: seq<Shape>, doneRecs: seq<Rec>, restRecs: seq<Rec>,
                                       bs: nat)
    requires rest != [] && bs > 0 && Linked(PreAll(rest)) && Distinct(done + PreAll(rest))
    requires SizesFit(restRecs, bs) && Snaps(PreAll(rest)) == restRecs
    ensures var kid, tail := Pre(rest[0]), PreAll(rest[1..]);
            && Linked(kid) && Linked(tail) && Distinct(kid)
            && Nodes(done) !! Nodes(kid) && Nodes(tail) !! Nodes(kid)
            && SizesFit(Snaps(kid), bs) && SizesFit(Snaps(tail), bs)
            && (done + kid) + tail == done + PreAll(rest)
            && (doneRecs + Snaps(kid)) + Snaps(tail) == doneRecs + restRecs
  {
    EnterFirst(rest, bs);
    DistinctThree(done, Pre(rest[0]), PreAll(rest[1..]));
    Assoc(doneRecs, Snaps(Pre(rest[0])), Snaps(PreAll(rest[1..])));
  }

  lemma {:induction false} PlacedConcat(a: seq<Shape>, b: seq<Shape>, ra: seq<Rec>, rb: seq<Rec>, base: nat, bs: nat)
    requires bs > 0 && Snaps(a) == Assign(ra, base, bs)
    requires Snaps(b) == Assign(rb, base + TotalSpan(ra, bs), bs)
    ensures Snaps(a + b) == Assign(ra + rb, base, bs)
    ensures TotalSpan(ra + rb, bs) == TotalSpan(ra, bs) + TotalSpan(rb, bs)
  {
    AssignConcat(ra, rb, base, bs);
    TotalsConcat(ra, rb, bs);
    SnapsConcat(a, b);
  }

  /** assign_offsets: writes `offset` of the files in place and nothing else. */
  method AssignOffsets(node: Inode, cur: nat, bs: nat, ghost s: Shape, ghost rs: seq<Rec>) returns (next: nat)
    requires node == s.node && Linked(Pre(s)) && Distinct(Pre(s)) && rs == Snaps(Pre(s))
    requires 0 < bs < TWO64 && SizesFit(rs, bs)
    modifies Nodes(Pre(s))`offset
    ensures next == cur + TotalSpan(rs, bs)
    ensures Snaps(Pre(s)) == Assign(rs, cur, bs)
    decreases s, 0
  {
    EnterRoot(s, bs);
    next := cur;
    ghost var done, rest := [s], s.kids;
    ghost var doneRecs, restRecs := [node.Snap()], Snaps(PreAll(rest));
    DistinctParts(done, PreAll(rest));
    if node.kind == File && node.size > 0 {
      AlignUpIsAligned(node.size, bs);
      node.offset := next;
      next := next + AlignUp(node.size, bs);
    }
    for i := 0 to |node.children|
      invariant rest == s.kids[i..] && Linked(PreAll(rest))
      invariant done + PreAll(rest) == Pre(s) && doneRecs + restRecs == rs
      invariant SizesFit(restRecs, bs) && Snaps(PreAll(rest)) == restRecs
      invariant Snaps(done) == Assign(doneRecs, cur, bs)
      invariant next == cur + TotalSpan(doneRecs, bs)
    {
      next, done, doneRecs, restRecs := AssignChild(node.children[i], next, bs, done, rest, cur, doneRecs, restRecs);
      rest := rest[1..];
    }
    assert done == Pre(s) && doneRecs == rs;
  }

  /** The body of the child loop: the first remaining subtree moves to the done part. */
  method AssignChild(child: Inode, cur: nat, bs: nat, ghost done: seq<Shape>, ghost rest: seq<Shape>,
                     ghost base: nat, ghost doneRecs: seq<Rec>, ghost restRecs: seq<Rec>)
    returns (next: nat, ghost done': seq<Shape>, ghost doneRecs': seq<Rec>, ghost restRecs': seq<Rec>)
    requires rest != [] && child == rest[0].node
    requires Linked(PreAll(rest)) && Distinct(done + PreAll(rest))
    requires 0 < bs < TWO64 && SizesFit(restRecs, bs)
    requires Snaps(PreAll(rest)) == restRecs && Snaps(done) == Assign(doneRecs, base, bs)
    requires cur == base + TotalSpan(doneRecs, bs)
    modifies Nodes(Pre(rest[0]))`offset
    ensures done' == done + Pre(rest[0]) && done' + PreAll(rest[1..]) == done + PreAll(rest)
    ensures doneRecs' + restRecs' == doneRecs + restRecs && SizesFit(restRecs', bs)
    ensures Linked(PreAll(rest[1..])) && Snaps(PreAll(rest[1..])) == restRecs'
    ensures Snaps(done') == Assign(doneRecs', base, bs)
    ensures next == base + TotalSpan(doneRecs', bs)
    decreases rest[0], 2
  {
    ghost var kid, tail := Pre(rest[0]), PreAll(rest[1..]);
    ghost var kidRecs := Snaps(kid);
    restRecs' := Snaps(tail);
    BeforeChild(done, rest, doneRecs, restRecs, bs);
    next := AssignApart(child, cur, bs, rest[0], kidRecs, done, tail);
    PlacedConcat(done, kid, doneRecs, kidRecs, base, bs);
    done', doneRecs' := done + kid, doneRecs + kidRecs;
  }

  /** The walk over one subtree leaves the nodes of the others alone. */
  method AssignApart(child: Inode, cur: nat, bs: nat, ghost s: Shape, ghost rs: seq<Rec>,
                     ghost done: seq<Shape>, ghost tail: seq<Shape>)
    returns (next: nat)
    requires child == s.node && Linked(Pre(s)) && Distinct(Pre(s)) && rs == Snaps(Pre(s))
    requires 0 < bs < TWO64 && SizesFit(rs, bs)
    requires Linked(tail) && Nodes(done) !! Nodes(Pre(s)) && Nodes(tail) !! Nodes(Pre(s))
    modifies Nodes(Pre(s))`offset
    ensures next == cur + TotalSpan(rs, bs) && Snaps(Pre(s)) == Assign(rs, cur, bs)
    ensures Linked(tail) && Snaps(tail) == old(Snaps(tail)) && Snaps(done) == old(Snaps(done))
    decreases s, 1
  {
    next := AssignOffsets(child, cur, bs, s, rs);
  }
}
