/** The ECMAScript operations that the avatar colour code relies on, stated on
    mathematical integers.  A JavaScript Number that holds an integer is an `int`
    here; the 32-bit conversions that the bitwise operators apply to their
    operands are written out (ToInt32, ToUint32), and a string is a sequence. */
module JsOps {

  const TwoTo31: int := 0x8000_0000
  const TwoTo32: int := 0x1_0000_0000

  function Min(a: int, b: int): int { if a <= b then a else b }
  function Max(a: int, b: int): int { if a <= b then b else a }

  /** 2 to the power n. */
  function Pow2(n: nat): (r: nat)
    ensures r >= 1
  {
    if n == 0 then 1 else 2 * Pow2(n - 1)
  }

  /** Two integers are equal modulo 2^32: they have the same 32-bit pattern. */
  predicate Congruent32(a: int, b: int) {
    a % TwoTo32 == b % TwoTo32
  }

  // ---------------------------------------------------------------------------
  // Conversions to 32 bits

  /** The ToInt32 abstract operation on an integral Number: the value taken
      modulo 2^32 and read as a two's complement signed 32-bit integer. */
  function ToInt32(x: int): (r: int)
    ensures -TwoTo31 <= r < TwoTo31
    ensures Congruent32(r, x)
    ensures -TwoTo31 <= x < TwoTo31 ==> r == x
  {
    var m := x % TwoTo32;
    if m >= TwoTo31 then m - TwoTo32 else m
  }

  /** The ToUint32 abstract operation on an integral Number: the value taken
      modulo 2^32, read as unsigned. */
  function ToUint32(x: int): (r: nat)
    ensures r < TwoTo32
    ensures Congruent32(r, x)
    ensures 0 <= x < TwoTo32 ==> r == x
  {
    x % TwoTo32
  }

  /** Any two integers that differ by a multiple of 2^32 are congruent. */
  lemma CongruentByMultiple(x: int, y: int, q: int)
    requires x - y == TwoTo32 * q
    ensures Congruent32(x, y)
  {
    var dx, dy := x / TwoTo32, y / TwoTo32;
    assert x == TwoTo32 * dx + x % TwoTo32;
    assert y == TwoTo32 * dy + y % TwoTo32;
    assert x % TwoTo32 - y % TwoTo32 == TwoTo32 * (q - dx + dy);
  }

  /** Congruence modulo 2^32 survives multiplication by any factor. */
  lemma CongruentScale(a: int, b: int, k: int)
    requires Congruent32(a, b)
    ensures Congruent32(a * k, b * k)
  {
    var q := a / TwoTo32 - b / TwoTo32;
    assert a - b == TwoTo32 * q;
    assert a * k - b * k == (a - b) * k == TwoTo32 * (q * k);
    CongruentByMultiple(a * k, b * k, q * k);
  }

  /** Congruence modulo 2^32 survives adding the same amount to both sides. */
  lemma CongruentShift(a: int, b: int, c: int)
    requires Congruent32(a, b)
    ensures Congruent32(a + c, b + c)
  {
    var q := a / TwoTo32 - b / TwoTo32;
    assert a - b == TwoTo32 * q;
    CongruentByMultiple(a + c, b + c, q);
  }

  // ---------------------------------------------------------------------------
  // Shift operators

  /** The shift count the shift operators use: the right operand's low five bits. */
  function ShiftCount(n: int): (k: nat)
    ensures k < 32
    ensures 0 <= n < 32 ==> k == n
  {
    ToUint32(n) % 32
  }

  /** `x << n`: the 32-bit pattern of x moved left by the shift count, read
      back as a signed 32-bit integer. */
  function ShiftLeft(x: int, n: int): (r: int)
    ensures -TwoTo31 <= r < TwoTo31
    ensures Congruent32(r, x * Pow2(ShiftCount(n)))
  {
    var p := Pow2(ShiftCount(n));
    CongruentScale(ToInt32(x), x, p);
    ToInt32(ToInt32(x) * p)
  }

  /** `x >> n`: the signed 32-bit value of x divided by 2^(shift count),
      rounded towards negative infinity (the sign bit is copied in). */
  function ShiftRight(x: int, n: int): (r: int)
    ensures -TwoTo31 <= r < TwoTo31
    ensures Pow2(ShiftCount(n)) * r <= ToInt32(x) < Pow2(ShiftCount(n)) * (r + 1)
  {
    FloorDivBounds(ToInt32(x), Pow2(ShiftCount(n)));
    ToInt32(x) / Pow2(ShiftCount(n))
  }

  /** Division by a positive divisor rounds down and stays in the int32 range. */
  lemma FloorDivBounds(t: int, p: int)
    requires -TwoTo31 <= t < TwoTo31 && p >= 1
    ensures -TwoTo31 <= t / p < TwoTo31
    ensures p * (t / p) <= t < p * (t / p + 1)
  {
    var q, r := t / p, t % p;
    assert t == p * q + r && 0 <= r < p;
    if t >= 0 {
      DivIsSmaller(t, p);
    } else {
      NegDivIsSmaller(t, p);
    }
  }

  lemma DivIsSmaller(t: nat, p: nat)
    requires p >= 1
    ensures 0 <= t / p <= t
  {
    var q, r := t / p, t % p;
    assert t == p * q + r && 0 <= r < p;
    MulAwayFromZero(p, q);
    MulNonNegative(p - 1, q);
    assert (p - 1) * q == p * q - q;
  }

  lemma NegDivIsSmaller(t: int, p: nat)
    requires t < 0 && p >= 1
    ensures t <= t / p < 0
  {
    var q, r := t / p, t % p;
    assert t == p * q + r && 0 <= r < p;
    MulAwayFromZero(p, q);
    MulNonNegative(p - 1, -q - 1);
    assert (p - 1) * (-q - 1) == -(p * q) + q - p + 1;
  }

  lemma MulNonNegative(a: nat, b: nat)
    ensures a * b >= 0
  {
  }

  // ---------------------------------------------------------------------------
  // Bitwise AND

  /** Bitwise AND of two naturals, one binary digit at a time from the least
      significant end. */
  function AndNat(a: nat, b: nat): (r: nat)
    ensures r <= a && r <= b
    decreases a
  {
    if a == 0 || b == 0 then 0
    else 2 * AndNat(a / 2, b / 2) + (if a % 2 == 1 && b % 2 == 1 then 1 else 0)
  }

  /** `a & b`: the AND of the two 32-bit patterns, read as a signed 32-bit
      integer.  Masking with a non-negative int32 gives a value between 0 and
      the mask. */
  function BitAnd(a: int, b: int): (r: int)
    ensures -TwoTo31 <= r < TwoTo31
    ensures 0 <= b < TwoTo31 ==> 0 <= r <= b
  {
    ToInt32(AndNat(ToUint32(a), ToUint32(b)))
  }

  /** Dropping the last binary digit and taking the rest modulo p gives the
      value modulo 2p once the digit is put back. */
  lemma HalfMod(x: nat, p: nat)
    requires p >= 1
    ensures x % (2 * p) == 2 * ((x / 2) % p) + x % 2
  {
    var h, r := x / 2, (x / 2) % p;
    var q := h / p;
    assert h == p * q + r;
    assert x == 2 * h + x % 2;
    assert x == (2 * p) * q + (2 * r + x % 2);
    assert 0 <= 2 * r + x % 2 < 2 * p;
    DivModUnique(x, 2 * p, q, 2 * r + x % 2);
  }

  lemma DivModUnique(x: int, d: int, q: int, r: int)
    requires d >= 1 && 0 <= r < d && x == d * q + r
    ensures x % d == r
  {
    var q', r' := x / d, x % d;
    assert x == d * q' + r' && 0 <= r' < d;
    assert d * (q - q') == r' - r;
    SmallMultipleIsZero(d, q - q');
  }

  lemma SmallMultipleIsZero(d: int, k: int)
    requires d >= 1 && -d < d * k < d
    ensures k == 0
  {
    MulAwayFromZero(d, k);
  }

  /** A non-zero multiple of d is at least d away from zero. */
  lemma MulAwayFromZero(d: int, k: int)
    requires d >= 1
    ensures k == 0 || d * k >= d || d * k <= -d
  {
    if k > 0 {
      MulNonNegative(d, k - 1);
      assert d * k == d * (k - 1) + d;
    } else if k < 0 {
      MulNonNegative(d, -k - 1);
      assert d * (-k) == d * (-k - 1) + d;
    }
  }

  /** ANDing with 2^k - 1 (k one bits) keeps the value modulo 2^k. */
  lemma {:induction false} AndLowMask(x: nat, k: nat)
    ensures AndNat(x, Pow2(k) - 1) == x % Pow2(k)
  {
    if k == 0 || x == 0 {
    } else {
      var p := Pow2(k - 1);
      assert Pow2(k) == 2 * p;
      AndOddMask(x, p);
      AndLowMask(x / 2, k - 1);
      HalfMod(x, p);
      calc {
        AndNat(x, Pow2(k) - 1);
        AndNat(x, 2 * p - 1);
        2 * AndNat(x / 2, p - 1) + x % 2;
        2 * ((x / 2) % p) + x % 2;
        x % (2 * p);
      }
    }
  }

  /** One step of the AND with a mask whose lowest bit is set. */
  lemma AndOddMask(x: nat, p: nat)
    requires x > 0 && p >= 1
    ensures AndNat(x, 2 * p - 1) == 2 * AndNat(x / 2, p - 1) + x % 2
  {
    var m := 2 * p - 1;
    assert m % 2 == 1 && m / 2 == p - 1;
  }

  lemma Pow2Bytes()
    ensures Pow2(5) == 32 && Pow2(8) == 0x100
    ensures Pow2(16) == 0x1_0000 && Pow2(24) == 0x100_0000
  {
    assert Pow2(8) == 0x100;
    assert Pow2(16) == 0x1_0000;
    assert Pow2(24) == 0x100_0000;
  }

  /** `x & 0xff` is the low byte of x's 32-bit pattern. */
  lemma LowByteMask(x: int)
    ensures BitAnd(x, 0xff) == x % 0x100
  {
    Pow2Bytes();
    var u := ToUint32(x);
    AndLowMask(u, 8);
    LowByteOfPattern(x);
  }

  /** The low byte of x is the low byte of its 32-bit pattern. */
  lemma LowByteOfPattern(x: int)
    ensures (x % TwoTo32) % 0x100 == x % 0x100
  {
    var q, u := x / TwoTo32, x % TwoTo32;
    assert x == TwoTo32 * q + u;
    assert x == 0x100 * (x / 0x100) + x % 0x100;
    assert u == 0x100 * (x / 0x100 - 0x100_0000 * q) + x % 0x100;
    DivModUnique(u, 0x100, x / 0x100 - 0x100_0000 * q, x % 0x100);
  }

  // ---------------------------------------------------------------------------
  // Hexadecimal digits and Number.prototype.toString(16)

  predicate IsLowerHexDigit(c: char) {
    '0' <= c <= '9' || 'a' <= c <= 'f'
  }

  predicate AllLowerHex(s: string) {
    forall i :: 0 <= i < |s| ==> IsLowerHexDigit(s[i])
  }

  /** The digit `toString` writes for d in radix 16: 0-9, then lower-case a-f. */
  function HexDigit(d: nat): (c: char)
    requires d < 16
    ensures IsLowerHexDigit(c)
    ensures DigitValue(c) == d
  {
    if d < 10 then ('0' as int + d) as char else ('a' as int + d - 10) as char
  }

  /** The value of one lower-case hexadecimal digit. */
  function DigitValue(c: char): (d: nat)
    requires IsLowerHexDigit(c)
    ensures d < 16
  {
    if c <= '9' then c as int - '0' as int else c as int - 'a' as int + 10
  }

  /** The number a string of lower-case hexadecimal digits denotes. */
  function HexValue(s: string): nat
    requires AllLowerHex(s)
  {
    if s == [] then 0 else 16 * HexValue(s[..|s| - 1]) + DigitValue(s[|s| - 1])
  }

  /** `n.toString(16)` for a non-negative integral Number: the lower-case
      hexadecimal numeral of n, without leading zeros. */
  function ToHexString(n: nat): (r: string)
    ensures 1 <= |r| && AllLowerHex(r)
    ensures HexValue(r) == n
    ensures n > 0 ==> r[0] != '0'
  {
    if n < 16 then [HexDigit(n)]
    else
      var hi := ToHexString(n / 16);
      var r := hi + [HexDigit(n % 16)];
      assert r[..|r| - 1] == hi;
      r
  }

  // ---------------------------------------------------------------------------
  // String.prototype.slice and String.prototype.substring

  /** `s.slice(start)` with an integral start: a negative start counts back
      from the end; the result is the suffix from the clamped position. */
  function Slice<T>(s: seq<T>, start: int): (r: seq<T>)
    ensures |r| == if start < 0 then Min(-start, |s|) else |s| - Min(start, |s|)
    ensures r == s[|s| - |r|..]
  {
    var from := if start < 0 then Max(|s| + start, 0) else Min(start, |s|);
    s[from..]
  }

  /** `s.substring(start, end)` with integral arguments: both ends are clamped
      to [0, |s|] and swapped when the start lies after the end. */
  function Substring<T>(s: seq<T>, start: int, end: int): (r: seq<T>)
    ensures |r| <= |s|
    ensures start <= 0 <= end ==> r == s[..Min(end, |s|)]
    ensures end <= 0 <= start ==> r == s[..Min(start, |s|)]
  {
    var a := Min(Max(start, 0), |s|);
    var b := Min(Max(end, 0), |s|);
    s[Min(a, b)..Max(a, b)]
  }
}
