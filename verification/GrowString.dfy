/**
 * The growable string `dstr_t` that the server builds its answers in. A `char`
 * stands for one byte of a C string.
 */
module GrowString {
  import opened Words

  const INITIAL: nat := 4096

  class DString {
    var buf: array<char>
    var len: nat
    /** Bytes that all the reallocations so far have copied. */
    ghost var copied: nat

    ghost predicate Valid()
      reads this, buf
    {
      len < buf.Length && buf[len] == '\0' && '\0' !in buf[..len]
      && (buf.Length == INITIAL || INITIAL <= buf.Length < 2 * (len + 1))
      && copied <= buf.Length - INITIAL
    }

    /** The text, which is also what a reader of the C string sees. */
    function Content(): string
      reads this, buf
      requires Valid()
    {
      buf[..len]
    }

    /** `dstr_init` */
    constructor ()
      ensures Valid() && fresh(buf) && Content() == ""
      ensures copied == 0 && buf.Length == 4096
    {
      buf := new char[INITIAL](_ => '\0');
      len := 0;
      copied := 0;
    }

    /** `dstr_append`. `granted` says whether a reallocation succeeds; without it a text
        that does not fit is dropped. */
    method Append(s: string, granted: bool := true)
      requires Valid() && '\0' !in s
      modifies this, buf
      ensures Valid() && (buf == old(buf) || fresh(buf))
      ensures granted ==> Content() == old(Content()) + s
      ensures !granted ==>
                Content() == if old(len) + |s| + 1 <= old(buf.Length) then old(Content()) + s else old(Content())
    {
      ghost var before := Content();
      assert buf[..len] == before;
      if len + |s| + 1 > buf.Length {
        if !granted {
          return;
        }
        var newCap := buf.Length;
        while len + |s| + 1 > newCap
          invariant newCap == buf.Length || buf.Length < newCap < 2 * (len + |s| + 1)
          invariant newCap == buf.Length || 2 * buf.Length <= newCap
          decreases len + |s| + 1 - newCap
        {
          newCap := newCap * 2;
        }
        Reallocate(newCap);
      }
      assert forall i :: 0 <= i < |before| ==> buf[i] == before[i];
      forall i | 0 <= i < |s| {
        buf[len + i] := s[i];
      }
      buf[len + |s|] := '\0';
      assert forall i :: 0 <= i < |before| ==> buf[i] == before[i];
      assert forall i :: 0 <= i < |s| ==> buf[|before| + i] == s[i];
      len := len + |s|;
      Joined(before, s, buf[..len]);
    }

    /** `realloc` to a larger size: it copies the old capacity. */
    method Reallocate(newCap: nat)
      requires len < buf.Length && newCap >= 2 * buf.Length
      modifies this
      ensures fresh(buf) && buf.Length == newCap && len == old(len)
      ensures buf[..len] == old(buf[..len])
      ensures copied == old(copied) + old(buf.Length)
    {
      var nb := new char[newCap](i reads this, buf => if 0 <= i < buf.Length then buf[i] else '\0');
      assert nb[..len] == buf[..len];
      copied := copied + buf.Length;
      buf := nb;
    }

    static lemma {:induction false} Joined(a: string, b: string, c: string)
      requires |c| == |a| + |b|
      requires forall i :: 0 <= i < |a| ==> c[i] == a[i]
      requires forall i :: 0 <= i < |b| ==> c[|a| + i] == b[i]
      ensures c == a + b
    {
      assert forall i :: |a| <= i < |c| ==> c[i] == b[i - |a|];
    }
  }

  function Concatenated(parts: seq<string>): string
    decreases |parts|
  {
    if parts == [] then "" else Concatenated(parts[..|parts| - 1]) + parts[|parts| - 1]
  }

  /** Any run of appends: the content is their concatenation, the capacity is the
      initial one or below twice the size used, and all the reallocations together
      copy less than the final capacity. */
  method AppendAll(parts: seq<string>) returns (d: DString)
    requires forall i :: 0 <= i < |parts| ==> '\0' !in parts[i]
    ensures fresh(d) && fresh(d.buf) && d.Valid() && d.Content() == Concatenated(parts)
    ensures d.buf.Length == 4096 || d.buf.Length < 2 * (|Concatenated(parts)| + 1)
    ensures d.copied <= d.buf.Length - 4096
  {
    d := new DString();
    for i := 0 to |parts|
      invariant fresh(d) && fresh(d.buf) && d.Valid() && d.Content() == Concatenated(parts[..i])
    {
      assert parts[..i + 1][..i] == parts[..i];
      d.Append(parts[i]);
    }
    assert parts[..|parts|] == parts;
  }
}
