/**
 * C strings in buffers: a `char` stands for one byte, and the text of a buffer
 * ends at its first zero.
 */
module CText {
  import opened Words

  /** The C string that starts a buffer. */
  function Text(b: seq<char>): string {
    if b == [] || b[0] == '\0' then "" else [b[0]] + Text(b[1..])
  }

  lemma {:induction false} TextEnds(b: seq<char>)
    ensures var t := Text(b); |t| <= |b| && t == b[..|t|] && '\0' !in t && (|t| < |b| ==> b[|t|] == '\0')
  {
    if b != [] && b[0] != '\0' {
      TextEnds(b[1..]);
      var t := Text(b[1..]);
      assert b[..|t| + 1] == [b[0]] + b[1..][..|t|];
    }
  }

  lemma {:induction false} TextIs(b: seq<char>, n: nat)
    requires n < |b| && b[n] == '\0' && '\0' !in b[..n]
    ensures Text(b) == b[..n]
  {
    if n > 0 {
      assert b[0] == b[..n][0];
      assert b[1..][..n - 1] == b[..n][1..];
      TextIs(b[1..], n - 1);
      assert b[..n] == [b[0]] + b[1..][..n - 1];
    }
  }

  /** A bounded copy of a C string: cut to the buffer, and filled up with zeros. */
  method CopyInto(buf: array<char>, s: string)
    requires buf.Length > 0
    modifies buf
    ensures forall i :: 0 <= i < buf.Length ==>
              buf[i] == if i < |Cut(s, buf.Length - 1)| then s[i] else '\0'
  {
    for i := 0 to buf.Length
      invariant forall k :: 0 <= k < i ==>
                  buf[k] == if k < |Cut(s, buf.Length - 1)| then s[k] else '\0'
    {
      buf[i] := if i < |s| && i < buf.Length - 1 then s[i] else '\0';
    }
  }
}
