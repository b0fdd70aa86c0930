/**
 * Fixed-width words: bytes, little-endian fields, and the masked rounding of
 * `align_up`, written on integers with the 64-bit wrap-around spelled out.
 */
module Words {
  datatype Option<+T> = None | Some(value: T)

  type Byte = x: int | 0 <= x < 0x100
  type Bytes = seq<Byte>

  /** A UTF-16 code unit, the element of a JavaScript string. */
  type Unit = x: int | 0 <= x < 0x1_0000

  const TWO32: nat := 0x1_0000_0000
  const TWO63: nat := 0x8000_0000_0000_0000
  const TWO64: nat := 0x1_0000_0000_0000_0000

  function Min(a: int, b: int): int {
    if a <= b then a else b
  }

  function Max(a: int, b: int): int {
    if a >= b then a else b
  }

  function Cut<T>(s: seq<T>, n: nat): seq<T> {
    if |s| <= n then s else s[..n]
  }

  /** The value of a hexadecimal digit. */
  function HexValue(c: char): Option<nat> {
    if '0' <= c <= '9' then Some(c as int - '0' as int)
    else if 'a' <= c <= 'f' then Some(c as int - 'a' as int + 10)
    else if 'A' <= c <= 'F' then Some(c as int - 'A' as int + 10)
    else None
  }

  function Zeros(n: nat): Bytes {
    seq(n, _ => 0)
  }

  function Ascii(s: string): Bytes {
    seq(|s|, i requires 0 <= i < |s| => if s[i] < 128 as char then s[i] as int else 0)
  }

  lemma {:induction false} Assoc<T>(a: seq<T>, b: seq<T>, c: seq<T>)
    ensures a + (b + c) == (a + b) + c
  {
  }

  // ----- powers of two and bitwise "and" -----

  function Pow2(k: nat): (p: nat)
    ensures p > 0
  {
    if k == 0 then 1 else 2 * Pow2(k - 1)
  }

  /** Bitwise "and" of two non-negative integers, one binary digit at a time. */
  function And(x: nat, y: nat): nat {
    if x == 0 || y == 0 then 0
    else (if x % 2 == 1 && y % 2 == 1 then 1 else 0) + 2 * And(x / 2, y / 2)
  }

  /** 64-bit complement. */
  function Not64(x: nat): nat
    requires x < TWO64
  {
    TWO64 - 1 - x
  }

  /** `align_up`: 64-bit addition, then a mask. */
  function AlignUp(value: nat, alignment: nat): nat
    requires 0 < alignment < TWO64
  {
    And((value + alignment - 1) % TWO64, Not64(alignment - 1))
  }

  ghost predicate IsPow2(a: nat) {
    exists k: nat :: a == Pow2(k)
  }

  /** `align_up` without the wrap-around: the sum less the bits under the mask. It is
      defined for every alignment, and never below the value. */
  function Aligned(v: nat, a: nat): (r: nat)
    requires a > 0
    ensures v <= r < v + a
  {
    var sum := v + a - 1;
    AndBelow(sum, a - 1);
    assert Clears(sum, a - 1, sum - And(sum, a - 1));
    var r: nat :| v <= r < v + a && Clears(sum, a - 1, r);
    r
  }

  /** `r` is `x` without the bits of `mask`. The trigger keeps the digits out of proofs
      that do not mention them. */
  predicate Clears(x: nat, mask: nat, r: nat) {
    forall y: nat, m: nat {:trigger And(y, m)} :: y == x && m == mask ==> r == x - And(y, m)
  }

  lemma {:induction false} AlignedClears(v: nat, a: nat)
    requires a > 0
    ensures Aligned(v, a) == (v + a - 1) - And(v + a - 1, a - 1)
  {
    assert Clears(v + a - 1, a - 1, Aligned(v, a));
    var below := And(v + a - 1, a - 1);
  }

  /** Number of blocks of size `a` that hold `v` bytes, and their total size. */
  function BlocksFor(v: nat, a: nat): nat
    requires a > 0
  {
    (v + a - 1) / a
  }

  function RoundUp(v: nat, a: nat): nat
    requires a > 0
  {
    BlocksFor(v, a) * a
  }

  lemma {:induction false} AndBelow(x: nat, y: nat)
    ensures And(x, y) <= x && And(x, y) <= y
  {
    if x != 0 && y != 0 {
      AndBelow(x / 2, y / 2);
      AndStep(x, y);
    }
  }

  /** A remainder by `b * m`: the last digit in base `b`, and the remainder by `m` of
      the other digits. */
  lemma {:induction false} FirstDigit(x: nat, b: nat, m: nat)
    requires b > 0 && m > 0
    ensures b * m > 0 && x % (b * m) == b * ((x / b) % m) + x % b
  {
    DivisionLaw(x, b);
    OtherDigits(x, b, m, x / b, x % b);
  }

  lemma {:induction false} OtherDigits(x: nat, b: nat, m: nat, y: nat, d: nat)
    requires m > 0 && x == y * b + d && d < b
    ensures b * m > 0 && x % (b * m) == b * (y % m) + d
  {
    MulMonotone(1, b, m);
    DivisionLaw(y, m);
    DigitLaw(x, b, m, b * m, y, d, y / m, y % m);
  }

  lemma {:induction false} DivisionLaw(x: nat, m: nat)
    requires m > 0
    ensures x == (x / m) * m + x % m && x % m < m
  {
  }

  lemma {:induction false} DigitLaw(x: nat, b: nat, m: nat, width: nat, y: nat, d: nat, q: nat, r: nat)
    requires width == b * m && width > 0
    requires x == y * b + d && d < b && y == q * m + r && r < m
    ensures x % width == b * r + d
  {
    assert y * b == b * (q * m) + b * r;
    assert b * (q * m) == q * (b * m);
    DigitBelow(b, m, r, d);
    DivModUnique(x, width, q, b * r + d);
  }

  lemma {:induction false} DigitBelow(b: nat, m: nat, r: nat, d: nat)
    requires d < b && r < m
    ensures b * r + d < b * m
  {
    MulMonotone(r + 1, m, b);
    assert (r + 1) * b == b * r + b;
  }

  lemma {:induction false} DivModUnique(x: int, m: int, q: int, r: int)
    requires m > 0 && 0 <= r < m && x == q * m + r
    ensures x / m == q && x % m == r
  {
    var d := x / m - q;
    assert x == (x / m) * m + x % m;
    assert d * m == r - x % m;
    MulMonotone(1, d, m);
    MulMonotone(d, -1, m);
  }

  /** The bits under a mask and the bits outside it make up the number. */
  lemma {:induction false} AndParts(x: nat, y: nat, n: nat)
    requires x < Pow2(n) && y < Pow2(n)
    ensures And(x, y) + And(x, Pow2(n) - 1 - y) == x
    decreases n
  {
    if n > 0 {
      var z := Pow2(n) - 1 - y;
      assert z / 2 == Pow2(n - 1) - 1 - y / 2 && z % 2 == 1 - y % 2;
      AndParts(x / 2, y / 2, n - 1);
      AndStep(x, y);
      AndStep(x, z);
    }
  }

  /** The last digits, and the "and" of the others. */
  lemma {:induction false} AndStep(x: nat, y: nat)
    ensures And(x, y) == (if x % 2 == 1 && y % 2 == 1 then 1 else 0) + 2 * And(x / 2, y / 2)
  {
  }

  /** The bits below a power of two are the remainder. */
  lemma {:induction false} AndLowMask(x: nat, k: nat)
    ensures And(x, Pow2(k) - 1) == x % Pow2(k)
  {
    if k > 0 {
      var m := Pow2(k - 1);
      assert (Pow2(k) - 1) / 2 == m - 1 && (Pow2(k) - 1) % 2 == 1;
      AndStep(x, Pow2(k) - 1);
      AndLowMask(x / 2, k - 1);
      FirstDigit(x, 2, m);
    }
  }

  lemma {:induction false} AndSelf(x: nat)
    ensures And(x, x) == x
  {
    if x > 0 {
      AndSelf(x / 2);
      AndStep(x, x);
    }
  }

  /** Clearing the lowest set bit leaves nothing exactly for the powers of two. */
  lemma {:induction false} AndPrevious(a: nat)
    requires a > 0
    ensures And(a, a - 1) == 0 <==> IsPow2(a)
  {
    AndStep(a, a - 1);
    if a % 2 == 1 {
      assert (a - 1) / 2 == a / 2;
      AndSelf(a / 2);
      assert Pow2(0) == 1;
      OddPow2(a);
    } else {
      AndPrevious(a / 2);
      assert (a - 1) / 2 == a / 2 - 1;
      HalfPow2(a / 2);
    }
  }

  lemma {:induction false} DoubleIsEven(x: nat)
    ensures (2 * x) % 2 == 0
  {
  }

  lemma {:induction false} OddPow2(a: nat)
    requires a % 2 == 1
    ensures IsPow2(a) ==> a == 1
  {
    forall k: nat | a == Pow2(k) ensures k == 0 {
      if k > 0 { DoubleIsEven(Pow2(k - 1)); }
    }
  }

  lemma {:induction false} HalfPow2(a: nat)
    requires a > 0
    ensures IsPow2(2 * a) <==> IsPow2(a)
  {
    if k: nat :| a == Pow2(k) {
      assert Pow2(k + 1) == 2 * a;
    }
    if k: nat :| 2 * a == Pow2(k) {
      assert k > 0;
      assert Pow2(k - 1) == a;
    }
  }

  lemma {:induction false} Pow2Is64()
    ensures Pow2(64) == TWO64
  {
    Pow2Small();
    Pow2Sum(16, 16);
    Pow2Sum(32, 32);
  }

  lemma {:induction false} Pow2Small()
    ensures Pow2(4) == 16 && Pow2(16) == 0x1_0000
  {
    Pow2Sum(1, 1);
    Pow2Sum(2, 2);
    Pow2Sum(4, 4);
    Pow2Sum(8, 8);
  }

  lemma {:induction false} Pow2Sum(a: nat, b: nat)
    ensures Pow2(a + b) == Pow2(a) * Pow2(b)
  {
    if a > 0 { Pow2Sum(a - 1, b); }
  }

  /** For every alignment the 64-bit form is the form without wrap-around exactly
      while the sum stays inside 64 bits; once it wraps, the result is below the value. */
  lemma {:induction false} AlignUpIsAligned(value: nat, alignment: nat)
    requires 0 < alignment < TWO64 && value < TWO64
    ensures value + alignment - 1 < TWO64 ==> AlignUp(value, alignment) == Aligned(value, alignment)
    ensures AlignUp(value, alignment) >= value <==> value + alignment - 1 < TWO64
  {
    var sum := value + alignment - 1;
    if sum < TWO64 {
      assert sum % TWO64 == sum;
      Pow2Is64();
      AndParts(sum, alignment - 1, 64);
      AlignedClears(value, alignment);
    } else {
      assert sum % TWO64 == sum - TWO64;
      AndBelow(sum - TWO64, Not64(alignment - 1));
    }
  }

  /** The masked form rounds up to a multiple for all values exactly when the
      alignment is a power of two. */
  lemma {:induction false} AlignedIsRoundUp(a: nat)
    requires a > 0
    ensures (forall v: nat :: Aligned(v, a) == RoundUp(v, a)) <==> IsPow2(a)
  {
    if IsPow2(a) {
      forall v: nat ensures Aligned(v, a) == RoundUp(v, a) {
        Pow2Rounds(v, a);
      }
    } else {
      AndPrevious(a);
      AlignedClears(1, a);
      DivModUnique(a, a, 1, 0);
      assert Aligned(1, a) == a - And(a, a - 1) && RoundUp(1, a) == a;
    }
  }

  lemma {:induction false} AlignedZero(a: nat)
    requires a > 0
    ensures Aligned(0, a) == 0
  {
    AndSelf(a - 1);
    AlignedClears(0, a);
  }

  lemma {:induction false} Pow2Rounds(v: nat, a: nat)
    requires a > 0 && IsPow2(a)
    ensures Aligned(v, a) == RoundUp(v, a)
  {
    var k: nat :| a == Pow2(k);
    AndLowMask(v + a - 1, k);
    AlignedClears(v, a);
    RoundUpIsFloor(v, a);
  }

  lemma {:induction false} RoundUpIsFloor(v: nat, a: nat)
    requires a > 0
    ensures RoundUp(v, a) == (v + a - 1) - (v + a - 1) % a
  {
    var s := v + a - 1;
    assert s == (s / a) * a + s % a;
  }

  lemma {:induction false} RoundUpBounds(v: nat, a: nat)
    requires a > 0
    ensures v <= RoundUp(v, a) < v + a
    ensures RoundUp(v, a) % a == 0
  {
    var q := BlocksFor(v, a);
    assert v + a - 1 == q * a + (v + a - 1) % a;
    DivModUnique(q * a, a, q, 0);
  }

  /** Rounding up gives the least multiple that is not below the value. */
  lemma {:induction false} RoundUpIsLeast(v: nat, a: nat, m: nat)
    requires a > 0 && m % a == 0 && v <= m
    ensures RoundUp(v, a) <= m
  {
    RoundUpBounds(v, a);
    var p, q := m / a, BlocksFor(v, a);
    assert m == p * a;
    LeastQuotient(p, q, a, v);
    MulMonotone(q, p, a);
  }

  /** A multiple that reaches `v` has at least the quotient of the rounded value. */
  lemma {:induction false} LeastQuotient(p: nat, q: nat, a: nat, v: nat)
    requires a > 0 && v <= p * a && q * a < v + a
    ensures q <= p
  {
    MulMonotone(p + 1, q, a);
    assert (p + 1) * a == p * a + a;
  }

  lemma {:induction false} MulMonotone(x: int, y: int, a: nat)
    ensures x <= y ==> x * a <= y * a
  {
    assert y * a == x * a + (y - x) * a;
    assert x <= y ==> (y - x) * a >= 0;
  }

  // ----- little-endian fields -----

  /** The `n` bytes that the shift-and-mask writers store for `v`. */
  function LE(v: nat, n: nat): (b: Bytes)
    ensures |b| == n
  {
    if n == 0 then [] else [v % 0x100] + LE(v / 0x100, n - 1)
  }

  /** The value that the shift-and-or readers assemble. */
  function Value(b: Bytes): nat {
    if b == [] then 0 else b[0] + 0x100 * Value(b[1..])
  }

  function Pow256(n: nat): (p: nat)
    ensures p > 0
  {
    if n == 0 then 1 else 0x100 * Pow256(n - 1)
  }

  /** Writing `n` bytes and reading them back keeps the value modulo the width. */
  lemma {:induction false} ReadWriteLE(v: nat, n: nat)
    ensures Value(LE(v, n)) == v % Pow256(n)
  {
    if n > 0 {
      ReadWriteLE(v / 0x100, n - 1);
      assert LE(v, n)[1..] == LE(v / 0x100, n - 1);
      FirstDigit(v, 0x100, Pow256(n - 1));
    }
  }

  lemma {:induction false} Pow256Values()
    ensures Pow256(2) == 0x1_0000 && Pow256(4) == TWO32 && Pow256(8) == TWO64
  {
    assert Pow256(2) == 0x100 * Pow256(1);
    assert Pow256(3) == 0x100 * Pow256(2);
    assert Pow256(4) == 0x100 * Pow256(3);
    assert Pow256(5) == 0x100 * Pow256(4);
    assert Pow256(6) == 0x100 * Pow256(5);
    assert Pow256(7) == 0x100 * Pow256(6);
    assert Pow256(8) == 0x100 * Pow256(7);
  }

  lemma {:induction false} ReadU16(v: nat)
    requires v < 0x1_0000
    ensures Value(LE(v, 2)) == v
  {
    ReadWriteLE(v, 2); Pow256Values();
  }

  lemma {:induction false} ReadU32(v: nat)
    requires v < TWO32
    ensures Value(LE(v, 4)) == v
  {
    ReadWriteLE(v, 4); Pow256Values();
  }

  lemma {:induction false} ReadU64(v: nat)
    requires v < TWO64
    ensures Value(LE(v, 8)) == v
  {
    ReadWriteLE(v, 8); Pow256Values();
  }
}
