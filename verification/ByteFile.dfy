/**
 * A seekable output file: bytes and a position. Writing past the end fills the
 * gap with zeros. The package builder writes through it, and the in-memory file
 * system is proved to store files with the same meaning.
 */
module ByteFile {
  import opened Words

  /** Positioned write; an empty write never changes the file, not even its length. */
  function WriteAt(data: Bytes, pos: nat, b: Bytes): Bytes {
    if b == [] then data
    else seq(Max(|data|, pos + |b|), i requires 0 <= i => ByteAfter(data, pos, b, i))
  }

  function ByteAfter(data: Bytes, pos: nat, b: Bytes, i: nat): Byte {
    if pos <= i < pos + |b| then b[i - pos]
    else if i < |data| then data[i]
    else 0
  }

  /** Two consecutive writes are one write of the concatenation. */
  lemma {:induction false} WriteAtAppend(data: Bytes, pos: nat, a: Bytes, b: Bytes)
    ensures WriteAt(WriteAt(data, pos, a), pos + |a|, b) == WriteAt(data, pos, a + b)
  {
    if a == [] {
      assert a + b == b;
    } else if b == [] {
      assert a + b == a;
    } else {
      TwoWrites(data, pos, a, b);
    }
  }

  lemma {:induction false} TwoWrites(data: Bytes, pos: nat, a: Bytes, b: Bytes)
    requires a != [] && b != []
    ensures WriteAt(WriteAt(data, pos, a), pos + |a|, b) == WriteAt(data, pos, a + b)
  {
    var l := WriteAt(WriteAt(data, pos, a), pos + |a|, b);
    var r := WriteAt(data, pos, a + b);
    assert |l| == |r|;
    forall i: nat | i < |l|
      ensures l[i] == r[i]
    {
      TwoWritesAt(data, pos, a, b, i);
    }
    SameBytes(l, r);
  }

  lemma {:induction false} SameBytes(l: Bytes, r: Bytes)
    requires |l| == |r| && forall i: nat :: i < |l| ==> l[i] == r[i]
    ensures l == r
  {
  }

  lemma {:induction false} TwoWritesAt(data: Bytes, pos: nat, a: Bytes, b: Bytes, i: nat)
    requires a != [] && b != [] && i < Max(|data|, pos + |a| + |b|)
    ensures WriteAt(WriteAt(data, pos, a), pos + |a|, b)[i] == WriteAt(data, pos, a + b)[i]
  {
    var m := WriteAt(data, pos, a);
    WriteAtByte(data, pos, a + b, i);
    WriteAtByte(m, pos + |a|, b, i);
    if i < |m| { WriteAtByte(data, pos, a, i); }
  }

  lemma {:induction false} WriteAtByte(data: Bytes, pos: nat, b: Bytes, i: nat)
    requires b != [] && i < Max(|data|, pos + |b|)
    ensures |WriteAt(data, pos, b)| == Max(|data|, pos + |b|) && WriteAt(data, pos, b)[i] == ByteAfter(data, pos, b, i)
  {
  }

  lemma {:induction false} WriteAtLength(data: Bytes, pos: nat, b: Bytes)
    ensures |WriteAt(data, pos, b)| == if b == [] then |data| else Max(|data|, pos + |b|)
    ensures b != [] ==> WriteAt(data, pos, b)[pos..pos + |b|] == b
  {
    if b != [] {
      var r := WriteAt(data, pos, b);
      assert |r[pos..pos + |b|]| == |b|;
      forall i | 0 <= i < |b| ensures r[pos..pos + |b|][i] == b[i] {}
    }
  }

  /** `lo..hi` of `data` holds exactly `b`. */
  predicate Holds(data: Bytes, lo: nat, b: Bytes) {
    lo + |b| <= |data| && data[lo..lo + |b|] == b
  }

  lemma {:induction false} HoldsConcat(data: Bytes, lo: nat, a: Bytes, b: Bytes)
    requires Holds(data, lo, a) && Holds(data, lo + |a|, b)
    ensures Holds(data, lo, a + b)
  {
    assert data[lo..lo + |a + b|] == data[lo..lo + |a|] + data[lo + |a|..lo + |a| + |b|];
  }

  /** One differing byte is enough for a range not to hold. */
  lemma {:induction false} HoldsNot(data: Bytes, x: nat, v: Byte, lo: nat, b: Bytes)
    requires Holds(data, x, [v]) && lo <= x < lo + |b| && b[x - lo] != v
    ensures !Holds(data, lo, b)
  {
    assert data[x] == data[x..x + 1][0] == v;
    assert lo + |b| <= |data| ==> data[lo..lo + |b|][x - lo] == v;
  }

  lemma {:induction false} HoldsWithin(data: Bytes, lo: nat, b: Bytes, i: nat, v: Byte)
    requires Holds(data, lo, b) && i < |b| && b[i] == v
    ensures Holds(data, lo + i, [v])
  {
    assert b == b[..i] + ([v] + b[i + 1..]);
    HoldsPart(data, lo, b[..i], [v] + b[i + 1..]);
    HoldsPart(data, lo + i, [v], b[i + 1..]);
  }

  lemma {:induction false} HoldsByte(data: Bytes, lo: nat, b: Bytes, i: nat)
    requires Holds(data, lo, b) && i < |b|
    ensures lo + i < |data| && data[lo + i] == b[i]
  {
    assert data[lo..lo + |b|][i] == data[lo + i];
  }

  lemma {:induction false} WriteHolds(data: Bytes, pos: nat, b: Bytes)
    requires b != [] || pos <= |data|
    ensures Holds(WriteAt(data, pos, b), pos, b)
  {
    WriteAtLength(data, pos, b);
  }

  /** A write keeps every range it does not overlap. */
  lemma {:induction false} WriteKeeps(data: Bytes, pos: nat, b: Bytes, lo: nat, kept: Bytes)
    requires Holds(data, lo, kept)
    requires lo + |kept| <= pos || pos + |b| <= lo
    ensures Holds(WriteAt(data, pos, b), lo, kept)
  {
    if b != [] {
      var r := WriteAt(data, pos, b);
      assert |r| >= |data|;
      forall i | 0 <= i < |kept| ensures r[lo..lo + |kept|][i] == kept[i] {
        assert data[lo..lo + |kept|][i] == data[lo + i];
      }
      assert r[lo..lo + |kept|] == kept;
    }
  }

  lemma {:induction false} HoldsPart(data: Bytes, lo: nat, a: Bytes, b: Bytes)
    requires Holds(data, lo, a + b)
    ensures Holds(data, lo, a) && Holds(data, lo + |a|, b)
  {
    var w := data[lo..lo + |a + b|];
    assert w[..|a|] == a && w[|a|..] == b;
    assert data[lo..lo + |a|] == w[..|a|];
    assert data[lo + |a|..lo + |a| + |b|] == w[|a|..];
  }

  class OutFile {
    var data: Bytes
    var pos: nat

    constructor ()
      ensures data == [] && pos == 0
    {
      data, pos := [], 0;
    }

    method Seek(p: nat)
      modifies `pos
      ensures pos == p
    {
      pos := p;
    }

    method Write(b: Bytes)
      modifies this
      ensures data == WriteAt(old(data), old(pos), b)
      ensures pos == old(pos) + |b|
    {
      data := WriteAt(data, pos, b);
      pos := pos + |b|;
    }

    /** A write that continues an earlier one: together they are one write. */
    method WriteMore(b: Bytes, ghost base: Bytes, ghost start: nat, ghost written: Bytes)
      requires data == WriteAt(base, start, written) && pos == start + |written|
      modifies this
      ensures data == WriteAt(base, start, written + b)
      ensures pos == start + |written + b|
    {
      WriteAtAppend(base, start, written, b);
      Write(b);
    }
  }
}
