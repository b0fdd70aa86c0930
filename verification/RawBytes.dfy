/**
 * Fields and C strings read out of raw bytes: little-endian words and
 * zero-terminated texts.
 */
module RawBytes {
  import opened Words
  import opened ByteFile

  function U16(file: Bytes, at: nat): nat
    requires at + 2 <= |file|
  {
    Words.Value(file[at..at + 2])
  }

  function U32(file: Bytes, at: nat): nat
    requires at + 4 <= |file|
  {
    Words.Value(file[at..at + 4])
  }

  function U64(file: Bytes, at: nat): nat
    requires at + 8 <= |file|
  {
    Words.Value(file[at..at + 8])
  }

  /** The bytes from `at` up to the first zero, or up to the end of the file. */
  function CString(file: Bytes, at: nat): Bytes
    decreases |file| - at
  {
    if at >= |file| || file[at] == 0 then [] else [file[at]] + CString(file, at + 1)
  }

  lemma {:induction false} CStringScan(b: Bytes, from: nat, to: nat)
    requires from <= to <= |b| && forall k :: from <= k < to ==> b[k] != 0
    requires to == |b| || b[to] == 0
    ensures CString(b, from) == b[from..to]
    decreases |b| - from
  {
    if from < to { CStringScan(b, from + 1, to); }
  }

  lemma {:induction false} CStringEnds(b: Bytes, at: nat)
    requires at <= |b|
    ensures var c := CString(b, at);
            at + |c| <= |b| && c == b[at..at + |c|] && 0 !in c && (at + |c| == |b| || b[at + |c|] == 0)
    decreases |b| - at
  {
    if at < |b| && b[at] != 0 { CStringEnds(b, at + 1); }
  }

  lemma {:induction false} CStringIs(b: Bytes, at: nat, c: Bytes)
    requires Holds(b, at, c + [0]) && 0 !in c
    ensures CString(b, at) == c
  {
    HoldsPart(b, at, c, [0]);
    forall k: nat | at <= k < at + |c| ensures b[k] != 0 {
      assert b[at..at + |c|][k - at] == b[k];
    }
    assert b[at + |c|..at + |c| + 1][0] == b[at + |c|];
    CStringScan(b, at, at + |c|);
  }

  lemma {:induction false} ReadsU16(b: Bytes, at: nat, v: nat)
    requires Holds(b, at, LE(v, 2)) && v < 0x1_0000
    ensures U16(b, at) == v
  {
    ReadU16(v);
  }

  lemma {:induction false} ReadsU32(b: Bytes, at: nat, v: nat)
    requires Holds(b, at, LE(v, 4)) && v < TWO32
    ensures U32(b, at) == v
  {
    ReadU32(v);
  }

  lemma {:induction false} ReadsU64(b: Bytes, at: nat, v: nat)
    requires Holds(b, at, LE(v, 8)) && v < TWO64
    ensures U64(b, at) == v
  {
    ReadU64(v);
  }

  lemma {:induction false} ValueConcat(a: Bytes, b: Bytes)
    ensures Words.Value(a + b) == Words.Value(a) + Pow256(|a|) * Words.Value(b)
  {
    if a == [] {
      assert a + b == b;
    } else {
      assert (a + b)[1..] == a[1..] + b;
      ValueConcat(a[1..], b);
    }
  }

  lemma {:induction false} ValueBelow(b: Bytes)
    ensures Words.Value(b) < Pow256(|b|)
  {
    if b != [] { ValueBelow(b[1..]); }
  }

  /** The low and the high half of a 64-bit field. */
  lemma {:induction false} Halves(b: Bytes, at: nat)
    requires at + 8 <= |b|
    ensures U64(b, at) % TWO32 == U32(b, at) && U64(b, at) / TWO32 == U32(b, at + 4)
  {
    var lo, hi := b[at..at + 4], b[at + 4..at + 8];
    assert b[at..at + 8] == lo + hi;
    ValueConcat(lo, hi);
    ValueBelow(lo);
    Pow256Values();
    DivModUnique(U64(b, at), TWO32, Words.Value(hi), Words.Value(lo));
  }
}
