/**
 * Query strings: `url_decode`, which rewrites its buffer in place, and
 * `qs_get`, which finds a parameter and decodes its value.
 */
module Query {
  import opened Words
  import opened CText

  // ----- decoding -----

  /** "%" and two hexadecimal digits. */
  predicate IsEscape(s: string) {
    |s| >= 3 && s[0] == '%' && HexValue(s[1]).Some? && HexValue(s[2]).Some?
  }

  function EscapeValue(s: string): char
    requires IsEscape(s)
  {
    (16 * HexValue(s[1]).value + HexValue(s[2]).value) as char
  }

  function Decoded(s: string): string {
    if s == "" then ""
    else if IsEscape(s) then [EscapeValue(s)] + Decoded(s[3..])
    else if s[0] == '+' then " " + Decoded(s[1..])
    else [s[0]] + Decoded(s[1..])
  }

  lemma {:induction false} DecodedStep(s: string, i: nat)
    requires i < |s|
    ensures IsEscape(s[i..]) <==> s[i] == '%' && i + 2 < |s| && HexValue(s[i + 1]).Some? && HexValue(s[i + 2]).Some?
    ensures IsEscape(s[i..]) ==>
              EscapeValue(s[i..]) == (16 * HexValue(s[i + 1]).value + HexValue(s[i + 2]).value) as char
    ensures Decoded(s[i..]) == if IsEscape(s[i..]) then [EscapeValue(s[i..])] + Decoded(s[i + 3..])
                               else [if s[i] == '+' then ' ' else s[i]] + Decoded(s[i + 1..])
  {
    assert s[i..][1..] == s[i + 1..];
    assert |s| >= i + 3 ==> s[i..][3..] == s[i + 3..];
  }

  /** `url_decode`: the write position never passes the read position, so the
      text still to be read is untouched. */
  method UrlDecode(buf: array<char>, len: nat) returns (n: nat)
    requires len <= buf.Length && (len < buf.Length || '\0' in buf[..len])
    modifies buf
    ensures n == |Decoded(Text(old(buf[..len])))| < buf.Length
    ensures buf[..n] == Decoded(Text(old(buf[..len]))) && buf[n] == '\0'
    ensures forall k :: n < k < buf.Length ==> buf[k] == old(buf[k])
  {
    ghost var s := Text(buf[..len]);
    TextEnds(buf[..len]);
    TextInside(buf[..len]);
    var from, out := 0, 0;
    assert s[0..] == s;
    while from < len && buf[from] != '\0'
      invariant out <= from <= |s|
      invariant buf[..out] + Decoded(s[from..]) == Decoded(s)
      invariant forall k :: out <= k < buf.Length ==> buf[k] == old(buf[k])
    {
      var c;
      from, c := DecodeNext(buf, len, s, from);
      ghost var done := buf[..out];
      buf[out] := c;
      out := out + 1;
      assert buf[..out] == done + [c];
      Assoc(done, [c], Decoded(s[from..]));
    }
    assert s[|s|..] == "";
    buf[out] := '\0';
    n := out;
  }

  lemma {:induction false} TextInside(b: seq<char>)
    ensures |Text(b)| <= |b| && ('\0' in b ==> |Text(b)| < |b|)
    ensures forall i :: 0 <= i < |Text(b)| ==> b[i] == Text(b)[i] && b[i] != '\0'
  {
    TextEnds(b);
  }

  /** One character read at `from`: the new read position and the byte to store. */
  method DecodeNext(buf: array<char>, len: nat, ghost s: string, from: nat) returns (next: nat, c: char)
    requires len <= buf.Length && |s| <= len && from < |s|
    requires forall k :: from <= k < |s| ==> buf[k] == s[k]
    requires |s| < len ==> buf[|s|] == '\0'
    ensures from < next <= |s|
    ensures Decoded(s[from..]) == [c] + Decoded(s[next..])
  {
    DecodedStep(s, from);
    if buf[from] == '%' && from + 2 < len && HexValue(buf[from + 1]).Some? && HexValue(buf[from + 2]).Some? {
      c := (16 * HexValue(buf[from + 1]).value + HexValue(buf[from + 2]).value) as char;
      next := from + 3;
    } else if buf[from] == '+' {
      c := ' ';
      next := from + 1;
    } else {
      c := buf[from];
      next := from + 1;
    }
  }

  // ----- looking up a parameter -----

  /** Up to the first "&". */
  function Segment(s: string): string {
    if s == "" || s[0] == '&' then "" else [s[0]] + Segment(s[1..])
  }

  predicate HasKey(s: string, key: string) {
    |key| < |s| && s[..|key|] == key && s[|key|] == '='
  }

  /** The decoded value of `key`, cut to the buffer before it is decoded. */
  function Lookup(s: string, key: string, outLen: nat): Option<string>
    requires outLen > 0
    decreases |s|
  {
    if s == "" then None
    else if HasKey(s, key) then Some(Decoded(Cut(Segment(s[|key| + 1..]), outLen - 1)))
    else
      SegmentShort(s);
      var seg := Segment(s);
      if |seg| == |s| then None else Lookup(s[|seg| + 1..], key, outLen)
  }

  lemma {:induction false} SegmentShort(s: string)
    ensures |Segment(s)| <= |s| && Segment(s) == s[..|Segment(s)|] && '&' !in Segment(s)
    ensures |Segment(s)| < |s| ==> s[|Segment(s)|] == '&'
  {
    if s != "" && s[0] != '&' {
      SegmentShort(s[1..]);
      var t := Segment(s[1..]);
      assert s[..|t| + 1] == [s[0]] + s[1..][..|t|];
    }
  }

  /** The text at `p` starts with the key and an equals sign. */
  predicate KeyAt(s: string, p: nat, key: string) {
    p + |key| < |s| && s[p..p + |key|] == key && s[p + |key|] == '='
  }

  /** What the buffer gets when the value starts at `from`. */
  function ValueFrom(s: string, from: nat, outLen: nat): string
    requires from <= |s| && outLen > 0
  {
    Decoded(Cut(Segment(s[from..]), outLen - 1))
  }

  /** What is left of the query from a position on. */
  function Rest(s: string, p: nat): string {
    if p <= |s| then s[p..] else ""
  }

  lemma {:induction false} KeyIsThere(s: string, p: nat, key: string)
    requires p <= |s|
    ensures HasKey(s[p..], key) <==> KeyAt(s, p, key)
    ensures KeyAt(s, p, key) ==> s[p..][|key| + 1..] == s[p + |key| + 1..]
  {
    assert p + |key| <= |s| ==> s[p..][..|key|] == s[p..p + |key|];
  }

  /** The search at a position where the key starts. */
  lemma {:induction false} LookupHit(s: string, p: nat, key: string, outLen: nat)
    requires p < |s| && outLen > 0 && KeyAt(s, p, key)
    ensures Lookup(Rest(s, p), key, outLen) == Some(ValueFrom(s, p + |key| + 1, outLen))
  {
    KeyIsThere(s, p, key);
  }

  /** ... and where it does not: it goes on behind the segment. */
  lemma {:induction false} LookupMiss(s: string, p: nat, key: string, outLen: nat, amp: nat)
    requires p < |s| && outLen > 0 && !KeyAt(s, p, key) && amp == p + |Segment(s[p..])|
    ensures Lookup(Rest(s, p), key, outLen) == Lookup(Rest(s, amp + 1), key, outLen)
  {
    var t := s[p..];
    KeyIsThere(s, p, key);
    SegmentShort(t);
    assert |Segment(t)| < |t| ==> t[|Segment(t)| + 1..] == s[amp + 1..];
  }

  /** `strchr(s + from, '&')`, or the end of the string. */
  method FindAmp(s: string, from: nat) returns (at: nat)
    requires from <= |s|
    ensures from <= at <= |s| && s[from..at] == Segment(s[from..]) && at == from + |Segment(s[from..])|
  {
    at := from;
    while at < |s| && s[at] != '&'
      invariant from <= at <= |s| && forall k :: from <= k < at ==> s[k] != '&'
    {
      at := at + 1;
    }
    SegmentAt(s, from, at);
  }

  lemma {:induction false} SegmentAt(s: string, from: nat, at: nat)
    requires from <= at <= |s| && (forall k :: from <= k < at ==> s[k] != '&') && (at < |s| ==> s[at] == '&')
    ensures Segment(s[from..]) == s[from..at]
    decreases |s| - from
  {
    if from < at {
      assert s[from..at] == [s[from]] + s[from + 1..at];
      assert s[from..][1..] == s[from + 1..];
      SegmentAt(s, from + 1, at);
    }
  }

  /** The buffer starts with `v` and a zero. */
  predicate Stored(buf: seq<char>, v: string) {
    |v| < |buf| && buf[..|v|] == v && buf[|v|] == '\0'
  }

  /** The loop of `qs_get`: where the value of `key` starts. */
  method FindValue(s: string, key: string, ghost outLen: nat) returns (found: bool, from: nat)
    requires outLen > 0
    ensures found <==> Lookup(s, key, outLen).Some?
    ensures found ==> from <= |s| && Lookup(s, key, outLen) == Some(ValueFrom(s, from, outLen))
  {
    var p := 0;
    assert Rest(s, 0) == s;
    ghost var want := Lookup(s, key, outLen);
    while p < |s|
      invariant Lookup(Rest(s, p), key, outLen) == want
    {
      if KeyAt(s, p, key) {
        LookupHit(s, p, key, outLen);
        return true, p + |key| + 1;
      }
      p := NextPair(s, p, key, outLen);
    }
    assert Rest(s, p) == "";
    found, from := false, 0;
  }

  /** Advance to the next parameter. */
  method NextPair(s: string, p: nat, key: string, ghost outLen: nat) returns (next: nat)
    requires p < |s| && outLen > 0 && !KeyAt(s, p, key)
    ensures next > p && Lookup(Rest(s, next), key, outLen) == Lookup(Rest(s, p), key, outLen)
  {
    var amp := FindAmp(s, p);
    LookupMiss(s, p, key, outLen, amp);
    next := amp + 1;
  }

  /** `qs_get`: the value is left in `out`. */
  method QsGet(qs: Option<string>, key: string, out: array<char>) returns (found: bool)
    requires out.Length > 0 && (qs.Some? ==> '\0' !in qs.value)
    modifies out
    ensures found <==> qs.Some? && Lookup(qs.value, key, out.Length).Some?
    ensures found ==> Stored(out[..], Lookup(qs.value, key, out.Length).value)
    ensures !found ==> out[..] == old(out[..])
  {
    if qs.None? {
      return false;
    }
    var from;
    found, from := FindValue(qs.value, key, out.Length);
    if found {
      CopyValue(qs.value, from, out);
    }
  }

  /** Copy the value that starts at `from`, terminate it, decode it in place. */
  method CopyValue(s: string, from: nat, out: array<char>)
    requires from <= |s| && out.Length > 0 && '\0' !in s
    modifies out
    ensures Stored(out[..], ValueFrom(s, from, out.Length))
  {
    var end := FindAmp(s, from);
    var vlen := end - from;
    var copy := if vlen < out.Length - 1 then vlen else out.Length - 1;
    ghost var raw := Cut(Segment(s[from..]), out.Length - 1);
    forall k | 0 <= k < copy {
      out[k] := s[from + k];
    }
    out[copy] := '\0';
    assert raw == s[from..from + copy] == out[..copy];
    TextIs(out[..copy + 1], copy);
    assert out[..copy + 1][..copy] == raw;
    var n := UrlDecode(out, copy + 1);
    assert out[..][..n] == out[..n];
  }

  // ----- encoded queries -----

  /** A byte that may stand for itself in an encoded value. */
  predicate Literal(c: char) {
    c != '%' && c != '+' && c != '&' && c != '\0'
  }

  /** `e` percent-encodes `v` (section 2.1 of RFC 3986, "+" for a space): each
      byte is written literally, as "+", or as an escape, at the encoder's choice. */
  predicate EncodedAs(e: string, v: string)
    decreases v
  {
    if v == "" then e == ""
    else
      e != ""
      && ((e[0] == v[0] && Literal(v[0]) && EncodedAs(e[1..], v[1..]))
          || (e[0] == '+' && v[0] == ' ' && EncodedAs(e[1..], v[1..]))
          || (IsEscape(e) && EscapeValue(e) == v[0] && EncodedAs(e[3..], v[1..])))
  }

  /** Decoding inverts every such encoding. */
  lemma {:induction false} DecodeInvertsEncode(e: string, v: string)
    requires EncodedAs(e, v)
    ensures Decoded(e) == v
    decreases v
  {
    if v != "" {
      assert v == [v[0]] + v[1..];
      if IsEscape(e) && EscapeValue(e) == v[0] && EncodedAs(e[3..], v[1..]) {
        DecodeInvertsEncode(e[3..], v[1..]);
      } else {
        DecodeInvertsEncode(e[1..], v[1..]);
      }
    }
  }

  lemma {:induction false} EncodedHasNoAmp(e: string, v: string)
    requires EncodedAs(e, v)
    ensures '&' !in e
    decreases v
  {
    if v != "" {
      if IsEscape(e) && EncodedAs(e[3..], v[1..]) {
        EncodedHasNoAmp(e[3..], v[1..]);
        assert e == [e[0], e[1], e[2]] + e[3..];
      } else {
        EncodedHasNoAmp(e[1..], v[1..]);
        assert e == [e[0]] + e[1..];
      }
    }
  }

  /** `encodeURIComponent` on bytes: letters, digits and -_.!~*'() stand for
      themselves, every other byte is escaped. */
  predicate Unreserved(c: char) {
    'a' <= c <= 'z' || 'A' <= c <= 'Z' || '0' <= c <= '9'
    || c in {'-', '_', '.', '!', '~', '*', '\'', '(', ')'}
  }

  const UPPER: string := "0123456789ABCDEF"

  function Encode(v: string): string
    requires forall i :: 0 <= i < |v| ==> v[i] as int < 256
  {
    if v == "" then ""
    else if Unreserved(v[0]) then [v[0]] + Encode(v[1..])
    else ['%', UPPER[v[0] as int / 16], UPPER[v[0] as int % 16]] + Encode(v[1..])
  }

  lemma {:induction false} UpperDigit(n: nat)
    requires n < 16
    ensures HexValue(UPPER[n]) == Some(n)
  {
    assert UPPER == ['0', '1', '2', '3', '4', '5', '6', '7', '8', '9', 'A', 'B', 'C', 'D', 'E', 'F'];
  }

  lemma {:induction false} EncodeEncodes(v: string)
    requires forall i :: 0 <= i < |v| ==> v[i] as int < 256
    ensures EncodedAs(Encode(v), v)
  {
    if v != "" {
      EncodeEncodes(v[1..]);
      var e := Encode(v);
      if Unreserved(v[0]) {
        assert e[1..] == Encode(v[1..]);
      } else {
        UpperDigit(v[0] as int / 16);
        UpperDigit(v[0] as int % 16);
        assert e[3..] == Encode(v[1..]);
        assert EscapeValue(e) == v[0];
      }
    }
  }

  datatype Pair = Pair(key: string, value: string, encoded: string)

  predicate Key(k: string) {
    '&' !in k && '=' !in k
  }

  predicate GoodPair(p: Pair) {
    Key(p.key) && EncodedAs(p.encoded, p.value)
  }

  predicate GoodPairs(ps: seq<Pair>) {
    forall i :: 0 <= i < |ps| ==> GoodPair(ps[i])
  }

  function QueryOf(ps: seq<Pair>): string {
    if ps == [] then ""
    else if |ps| == 1 then ps[0].key + ("=" + ps[0].encoded)
    else ps[0].key + ("=" + (ps[0].encoded + ("&" + QueryOf(ps[1..]))))
  }

  /** The first pair with the key. */
  function First(ps: seq<Pair>, key: string): Option<Pair> {
    if ps == [] then None
    else if ps[0].key == key then Some(ps[0])
    else First(ps[1..], key)
  }

  lemma {:induction false} SegmentIs(a: string, rest: string)
    requires '&' !in a
    ensures Segment(a + ("&" + rest)) == a && Segment(a) == a
  {
    var s := a + ("&" + rest);
    if a == "" {
      assert s == "&" + rest;
    } else {
      SegmentIs(a[1..], rest);
      assert s[1..] == a[1..] + ("&" + rest) && a == [a[0]] + a[1..];
    }
  }

  /** A key without "=" is found at a pair exactly when it is the pair's key. */
  lemma {:induction false} KeyMatches(k: string, tail: string, key: string)
    requires Key(k) && Key(key)
    ensures HasKey(k + ("=" + tail), key) <==> k == key
    ensures (k + ("=" + tail))[|k| + 1..] == tail
  {
    var s := k + ("=" + tail);
    assert HasKey(s, k);
    if HasKey(s, key) {
      ShorterKey(s, k, key);
      ShorterKey(s, key, k);
    }
  }

  lemma {:induction false} ShorterKey(s: string, a: string, b: string)
    requires HasKey(s, a) && HasKey(s, b)
    ensures |b| < |a| ==> '=' in a
  {
    if |b| < |a| {
      assert a[|b|] == s[..|a|][|b|];
    }
  }

  function PairText(p: Pair, rest: Option<string>): string {
    p.key + ("=" + (if rest.None? then p.encoded else p.encoded + ("&" + rest.value)))
  }

  lemma {:induction false} LookupBy(s: string, key: string, outLen: nat)
    requires s != "" && outLen > 0
    ensures HasKey(s, key) ==> Lookup(s, key, outLen) == Some(Decoded(Cut(Segment(s[|key| + 1..]), outLen - 1)))
    ensures !HasKey(s, key) && |Segment(s)| == |s| ==> Lookup(s, key, outLen) == None
    ensures !HasKey(s, key) && |Segment(s)| < |s| ==>
              Lookup(s, key, outLen) == Lookup(s[|Segment(s)| + 1..], key, outLen)
  {
  }

  lemma {:induction false} PairSegment(p: Pair, rest: Option<string>)
    requires Key(p.key) && '&' !in p.encoded
    ensures var s, seg := PairText(p, rest), p.key + ("=" + p.encoded);
            Segment(s) == seg && (if rest.None? then s == seg else s == seg + ("&" + rest.value))
  {
    var seg := p.key + ("=" + p.encoded);
    if rest.Some? {
      SegmentIs(seg, rest.value);
      assert PairText(p, rest) == seg + ("&" + rest.value);
    } else {
      SegmentIs(seg, "");
    }
  }

  lemma {:induction false} LookupOne(p: Pair, rest: Option<string>, key: string, outLen: nat)
    requires Key(p.key) && '&' !in p.encoded && Key(key) && outLen > 0
    ensures Lookup(PairText(p, rest), key, outLen) ==
            if p.key == key then Some(Decoded(Cut(p.encoded, outLen - 1)))
            else if rest.None? then None
            else Lookup(rest.value, key, outLen)
  {
    var s := PairText(p, rest);
    KeyMatches(p.key, if rest.None? then p.encoded else p.encoded + ("&" + rest.value), key);
    LookupBy(s, key, outLen);
    if p.key == key {
      SegmentIs(p.encoded, if rest.None? then "" else rest.value);
    } else {
      PairSegment(p, rest);
      assert rest.Some? ==> s[|Segment(s)| + 1..] == rest.value;
    }
  }

  /** On a query of encoded pairs the search finds the first pair with the key
      and never a text inside another value. */
  lemma {:induction false} LookupIsFirst(ps: seq<Pair>, key: string, outLen: nat)
    requires GoodPairs(ps) && Key(key) && outLen > 0
    ensures var f := First(ps, key);
            Lookup(QueryOf(ps), key, outLen) ==
            if f.None? then None else Some(Decoded(Cut(f.value.encoded, outLen - 1)))
  {
    if ps != [] {
      EncodedHasNoAmp(ps[0].encoded, ps[0].value);
      LookupOne(ps[0], if |ps| == 1 then None else Some(QueryOf(ps[1..])), key, outLen);
      LookupIsFirst(ps[1..], key, outLen);
    }
  }

  /** A parameter comes back with its original value when its encoding fits. */
  lemma {:induction false} QueryRoundTrip(ps: seq<Pair>, key: string, outLen: nat)
    requires GoodPairs(ps) && Key(key) && outLen > 0
    requires First(ps, key).Some? ==> |First(ps, key).value.encoded| < outLen
    ensures var f := First(ps, key);
            Lookup(QueryOf(ps), key, outLen) == if f.None? then None else Some(f.value.value)
  {
    LookupIsFirst(ps, key, outLen);
    FirstIsGood(ps, key);
    if First(ps, key).Some? {
      DecodeInvertsEncode(First(ps, key).value.encoded, First(ps, key).value.value);
    }
  }

  lemma {:induction false} FirstIsGood(ps: seq<Pair>, key: string)
    requires GoodPairs(ps)
    ensures First(ps, key).Some? ==> GoodPair(First(ps, key).value)
  {
    if ps != [] { FirstIsGood(ps[1..], key); }
  }
}
