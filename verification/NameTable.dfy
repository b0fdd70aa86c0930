/**
 * The chained hash index of the in-memory file system: nodes are found by the id of
 * their parent and their name.
 */
module NameTable {
  import opened Words

  type Name = seq<Unit>

  datatype Kind = Dir | File | Link | CharDev | BlockDev | Fifo | Socket

  /** Whether any of owner, group and others has the bit. */
  datatype Access = Access(write: bool, exec: bool)

  /** What a node is created with; `link` is the text of a symbolic link. */
  datatype Attr = Attr(kind: Kind, access: Access, link: Name)

  class FsNode {
    const id: nat
    const attr: Attr
    var name: Name
    var parent: FsNode
    var nameNext: FsNode?
    var contents: map<Name, FsNode>

    /** A node without a parent is its own parent: the root. */
    constructor (parent: FsNode?, name: Name, attr: Attr, id: nat)
      ensures this.id == id && this.attr == attr && this.name == name
      ensures this.parent == if parent == null then this else parent
      ensures contents == map[]
    {
      this.id, this.attr, this.name := id, attr, name;
      if parent == null {
        this.parent := this;
      } else {
        this.parent := parent;
      }
      nameNext := null;
      contents := map[];
    }
  }

  // ----- the hash -----

  /** The conversion `| 0` and the shift make of a number: a signed 32-bit value. */
  function ToInt32(x: int): int {
    var m := x % TWO32;
    if m < 0x8000_0000 then m else m - TWO32
  }

  function HashCode(name: Name): int {
    if name == [] then 0
    else
      var h := HashCode(name[..|name| - 1]);
      ToInt32(ToInt32(h * 32) - h + name[|name| - 1])
  }

  function HashOf(parentId: nat, name: Name, buckets: nat): (h: nat)
    requires buckets > 0
    ensures h < buckets
  {
    ((parentId + HashCode(name)) % TWO32) % buckets
  }

  /** FS.hashName */
  method HashName(parentId: nat, name: Name, buckets: nat) returns (h: nat)
    requires buckets > 0
    ensures h == HashOf(parentId, name, buckets)
  {
    var hash := 0;
    for i := 0 to |name|
      invariant hash == HashCode(name[..i])
    {
      assert name[..i + 1][..i] == name[..i];
      hash := ToInt32(ToInt32(hash * 32) - hash + name[i]);
    }
    assert name[..|name|] == name;
    h := ((parentId + hash) % TWO32) % buckets;
  }

  /** The value of a name as a number in base 31. */
  function Base31(name: Name): nat {
    if name == [] then 0 else 31 * Base31(name[..|name| - 1]) + name[|name| - 1]
  }

  lemma {:induction false} WrapStep(x: int, y: int, c: int)
    requires (x - y) % 0x1_0000_0000 == 0
    ensures (ToInt32(ToInt32(x * 32) - x + c) - (31 * y + c)) % 0x1_0000_0000 == 0
  {
    var a, b, q := ToInt32(x * 32), ToInt32(ToInt32(x * 32) - x + c), (x - y) / 0x1_0000_0000;
    var i := WrapsBy(x * 32);
    var j := WrapsBy(a - x + c);
    assert b - (31 * y + c) == (31 * q - i - j) * 0x1_0000_0000;
    Multiple(31 * q - i - j);
  }

  lemma {:induction false} WrapsBy(x: int) returns (k: int)
    ensures ToInt32(x) == x - k * 0x1_0000_0000
  {
    k := if x % TWO32 < 0x8000_0000 then x / TWO32 else x / TWO32 + 1;
  }

  lemma {:induction false} Multiple(k: int)
    ensures (k * 0x1_0000_0000) % 0x1_0000_0000 == 0
  {
  }

  /** The loop with its signed 32-bit steps computes the name in base 31, plus the id of
      the parent, modulo 2^32, and then the bucket. */
  lemma {:induction false} HashIsBase31(parentId: nat, name: Name, buckets: nat)
    requires buckets > 0
    ensures HashOf(parentId, name, buckets) == ((parentId + Base31(name)) % 0x1_0000_0000) % buckets
  {
    CodeIsBase31(name);
    var q := (HashCode(name) - Base31(name)) / 0x1_0000_0000;
    assert parentId + HashCode(name) == parentId + Base31(name) + q * 0x1_0000_0000;
    SameRest(parentId + Base31(name), q);
  }

  lemma {:induction false} SameRest(x: int, q: int)
    ensures (x + q * 0x1_0000_0000) % 0x1_0000_0000 == x % 0x1_0000_0000
  {
  }

  lemma {:induction false} CodeIsBase31(name: Name)
    ensures (HashCode(name) - Base31(name)) % 0x1_0000_0000 == 0
  {
    if name != [] {
      var front, c := name[..|name| - 1], name[|name| - 1];
      CodeIsBase31(front);
      WrapStep(HashCode(front), Base31(front), c);
    }
  }

  // ----- chains -----

  ghost function At(c: seq<FsNode>, i: nat): FsNode? {
    if i < |c| then c[i] else null
  }

  /** Starting at `head`, the links run through exactly the nodes of `c`. */
  ghost predicate IsChain(head: FsNode?, c: seq<FsNode>)
    reads c`nameNext
  {
    head == At(c, 0) && forall i: nat {:trigger c[i].nameNext} :: i < |c| ==> c[i].nameNext == At(c, i + 1)
  }

  lemma {:induction false} ChainCons(node: FsNode, head: FsNode?, c: seq<FsNode>)
    requires IsChain(head, c) && node.nameNext == head
    ensures IsChain(node, [node] + c)
  {
    var d := [node] + c;
    forall i: nat | i < |d|
      ensures d[i].nameNext == At(d, i + 1)
    {
      if i > 0 { assert d[i] == c[i - 1]; }
    }
  }

  ghost function Without(c: seq<FsNode>, k: nat): seq<FsNode>
    requires k < |c|
  {
    c[..k] + c[k + 1..]
  }

  lemma {:induction false} WithoutMembers(c: seq<FsNode>, k: nat)
    requires k < |c| && NoDuplicates(c)
    ensures NoDuplicates(Without(c, k))
    ensures forall n :: n in Without(c, k) <==> n in c && n != c[k]
  {
    var d := Without(c, k);
    assert forall i: nat :: i < k ==> d[i] == c[i];
    assert forall i: nat :: k <= i < |d| ==> d[i] == c[i + 1];
    forall n | n in c && n != c[k]
      ensures n in d
    {
      var i: nat :| i < |c| && c[i] == n;
      assert d[if i < k then i else i - 1] == n;
    }
  }

  /** Bypassing the node at `k` leaves a chain without it. */
  lemma {:induction false} ChainWithout(head: FsNode?, c: seq<FsNode>, k: nat)
    requires k < |c| && head == At(c, if k == 0 then 1 else 0)
    requires forall i: nat {:trigger c[i].nameNext} :: i < |c| && i + 1 != k && i != k ==> c[i].nameNext == At(c, i + 1)
    requires k > 0 ==> c[k - 1].nameNext == At(c, k + 1)
    ensures IsChain(head, Without(c, k))
  {
    var d := Without(c, k);
    forall i: nat | i < |d|
      ensures d[i].nameNext == At(d, i + 1)
    {
      if i < k {
        assert d[i] == c[i];
      } else {
        assert d[i] == c[i + 1];
      }
    }
  }

  ghost predicate NoDuplicates(c: seq<FsNode>) {
    forall i, j :: 0 <= i < j < |c| ==> c[i] != c[j]
  }

  /** `n` is the node for `name` in the directory with this id. */
  predicate Matches(n: FsNode, parentId: nat, name: Name)
    reads n`parent, n`name
  {
    n.parent.id == parentId && n.name == name
  }

  class Index {
    const table: array<FsNode?>
    ghost var chains: seq<seq<FsNode>>
    ghost var members: set<FsNode>

    ghost function Bucket(n: FsNode): nat
      requires table.Length > 0
      reads n`parent, n`name
    {
      HashOf(n.parent.id, n.name, table.Length)
    }

    /** Every chain runs through exactly its nodes; every member is in the one chain
        that its parent id and name hash to. */
    ghost predicate Valid()
      reads this, table, members`parent, members`name, members`nameNext
    {
      && |chains| == table.Length > 0
      && (forall h: nat {:trigger ChainOk(h)} :: h < |chains| ==> ChainOk(h))
      && (forall n {:trigger Bucket(n)} :: n in members ==> n in chains[Bucket(n)])
    }

    ghost predicate ChainOk(h: nat)
      requires |chains| == table.Length > 0 && h < |chains|
      reads this, table, members`parent, members`name, members`nameNext
    {
      var c := chains[h];
      && (forall n :: n in c ==> n in members && Bucket(n) == h)
      && NoDuplicates(c)
      && IsChain(table[h], c)
    }

    constructor (size: nat)
      requires size > 0
      ensures Valid() && members == {} && fresh(table) && table.Length == size
    {
      table := new FsNode?[size](_ => null);
      chains := seq(size, _ => []);
      members := {};
    }

    /** Every member is in exactly one chain, once: the one its key hashes to. */
    lemma {:induction false} ExactlyOneChain(n: FsNode, h: nat)
      requires Valid() && n in members && h < table.Length
      ensures n in chains[h] <==> h == Bucket(n)
      ensures NoDuplicates(chains[h]) && IsChain(table[h], chains[h])
    {
      assert ChainOk(h);
    }

    /** FS.hashAddNode */
    method HashAddNode(node: FsNode)
      requires Valid() && node !in members
      modifies `chains, `members, table, node`nameNext
      ensures Valid() && members == old(members) + {node}
    {
      var hash := HashName(node.parent.id, node.name, table.Length);
      assert ChainOk(hash);
      ghost var c := chains[hash];
      node.nameNext := table[hash];
      ChainCons(node, table[hash], c);
      table[hash] := node;
      assert IsChain(node, [node] + c);
      chains := chains[hash := [node] + c];
      members := members + {node};
      forall h | 0 <= h < |chains|
        ensures ChainOk(h)
      {
        assert old(ChainOk(h)) && old(IsChain(table[h], chains[h]));
      }
    }

    /** FS.hashRemoveNode. A node that is not a member is searched for in vain. */
    method HashRemoveNode(node: FsNode)
      requires Valid()
      modifies `chains, `members, table, members`nameNext
      ensures Valid() && members == old(members) - {node}
      ensures node !in old(members) ==> chains == old(chains)
    {
      var hash := HashName(node.parent.id, node.name, table.Length);
      assert ChainOk(hash);
      ghost var c := chains[hash];
      ghost var rest := Unlink(hash, node, c);
      chains := chains[hash := rest];
      members := members - {node};
      assert ChainOk(hash);
      forall h | 0 <= h < |chains| && h != hash
        ensures ChainOk(h)
      {
        assert old(ChainOk(h)) && old(ChainOk(hash)) && old(IsChain(table[h], chains[h]));
        assert forall n :: n in chains[h] ==> n !in c && n.nameNext == old(n.nameNext);
      }
    }

    /** Where a node is in a chain, or the length of the chain. */
    static ghost function PlaceIn(node: FsNode, c: seq<FsNode>): (k: nat)
      ensures k <= |c| && (k < |c| ==> c[k] == node) && (k == |c| ==> node !in c)
    {
      if c == [] then 0 else if c[0] == node then 0 else 1 + PlaceIn(node, c[1..])
    }

    /** The chain loses the node, if it has it. */
    method Unlink(hash: nat, node: FsNode, ghost c: seq<FsNode>) returns (ghost rest: seq<FsNode>)
      requires hash < table.Length && IsChain(table[hash], c) && NoDuplicates(c)
      modifies table, c`nameNext
      ensures IsChain(table[hash], rest) && NoDuplicates(rest) && (forall n :: n in rest <==> n in c && n != node)
      ensures node !in c ==> rest == c
      ensures forall h :: 0 <= h < table.Length && h != hash ==> table[h] == old(table[h])
    {
      ghost var k := PlaceIn(node, c);
      Detach(hash, node, c, k);
      if k < |c| { WithoutMembers(c, k); }
      rest := if k < |c| then Without(c, k) else c;
    }

    /** The relinking part of FS.hashRemoveNode, for the node at place `k` of the chain;
        a `k` behind the chain stands for a node that is not in it. */
    method Detach(hash: nat, node: FsNode, ghost c: seq<FsNode>, ghost k: nat)
      requires hash < table.Length && IsChain(table[hash], c) && NoDuplicates(c)
      requires k <= |c| && (k < |c| ==> c[k] == node) && (k == |c| ==> node !in c)
      modifies table, c`nameNext
      ensures IsChain(table[hash], if k < |c| then Without(c, k) else c)
      ensures forall h :: 0 <= h < table.Length && h != hash ==> table[h] == old(table[h])
    {
      if table[hash] == node {
        assert k == 0;
        table[hash] := node.nameNext;
      } else {
        Bypass(table[hash], node, c, k);
      }
      if k < |c| { ChainWithout(table[hash], c, k); }
    }

    /** The search loop of FS.hashRemoveNode, for a node behind the head. */
    static method Bypass(head: FsNode?, node: FsNode, ghost c: seq<FsNode>, ghost k: nat)
      requires IsChain(head, c) && NoDuplicates(c) && head != node
      requires k <= |c| && (k < |c| ==> c[k] == node) && (k == |c| ==> node !in c)
      modifies c`nameNext
      ensures k == |c| ==> IsChain(head, c)
      ensures k < |c| ==> k > 0 && c[k - 1].nameNext == At(c, k + 1)
      ensures forall i: nat {:trigger c[i].nameNext} :: i < |c| && i + 1 != k ==> c[i].nameNext == At(c, i + 1)
    {
      var current := head;
      ghost var i := 0;
      while current != null
        invariant 0 <= i <= |c| && current == At(c, i) && (k < |c| ==> i < k)
        invariant IsChain(head, c)
        decreases |c| - i
      {
        assert c[i].nameNext == At(c, i + 1) && (k < |c| ==> c[k].nameNext == At(c, k + 1));
        if current.nameNext == node {
          current.nameNext := node.nameNext;
          return;
        }
        current := current.nameNext;
        i := i + 1;
      }
    }

    /** The chain walk of FS.lookupNode. */
    method Find(parentId: nat, name: Name) returns (r: Option<FsNode>)
      requires Valid()
      ensures r.Some? ==> r.value in members && Matches(r.value, parentId, name)
      ensures r.None? ==> forall n :: n in members ==> !Matches(n, parentId, name)
    {
      var hash := HashName(parentId, name, table.Length);
      assert ChainOk(hash);
      ghost var c := chains[hash];
      var node := table[hash];
      ghost var i := 0;
      while node != null
        invariant 0 <= i <= |c| && node == At(c, i)
        invariant forall j :: 0 <= j < i ==> !Matches(c[j], parentId, name)
        decreases |c| - i
      {
        assert c[i].nameNext == At(c, i + 1);
        if node.parent.id == parentId && node.name == name {
          return Some(node);
        }
        node := node.nameNext;
        i := i + 1;
      }
      forall n | n in members
        ensures !Matches(n, parentId, name)
      {
        assert n in chains[Bucket(n)];
      }
      r := None;
    }
  }
}
