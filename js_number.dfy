/**
 * The parts of JavaScript's Number semantics that `stringToColour` relies on.
 *
 * JavaScript numbers are doubles. For inputs shorter than 2^21 code units every
 * value `stringToColour` produces is an integer below 2^53, where doubles are
 * exact (StringToColour.HashBound), so a number is modelled here as a
 * mathematical `int`. The bitwise operators first convert
 * their operands with ToInt32 (section 7.1.6 of ECMA-262) and produce a signed
 * 32-bit result; `+` and `-` do not convert and stay exact.
 */
module JsNumber {

  const TWO_31: int := 0x8000_0000
  const TWO_32: int := 0x1_0000_0000

  /**
   * ECMA-262 ToInt32: the unique signed 32-bit integer congruent to x modulo
   * 2^32. ECMA-262 takes x modulo 2^32 and subtracts 2^32 from results of 2^31
   * and above; shifting by 2^31 before and after the (Euclidean, never
   * negative) remainder does the same in one step.
   */
  function ToInt32(x: int): (r: int)
    ensures -TWO_31 <= r < TWO_31
    ensures (x - r) % TWO_32 == 0
  {
    (x + TWO_31) % TWO_32 - TWO_31
  }

  /** ToInt32 leaves a value that is already a signed 32-bit integer alone. */
  lemma ToInt32OfInt32(x: int)
    requires -TWO_31 <= x < TWO_31
    ensures ToInt32(x) == x
  {
  }

  /** ToInt32 only looks at its argument modulo 2^32. */
  lemma ToInt32Congruent(x: int, y: int)
    requires (x - y) % TWO_32 == 0
    ensures ToInt32(x) == ToInt32(y)
  {
    var k := (x - y) / TWO_32;
    assert x + TWO_31 == (y + TWO_31) + k * TWO_32;
    ModAddMultiple(y + TWO_31, k, TWO_32);
  }

  /** Adding a multiple of d does not change the remainder modulo d. */
  lemma ModAddMultiple(y: int, k: int, d: int)
    requires d > 0
    ensures (y + k * d) % d == y % d
  {
    var q, m := y / d, y % d;
    assert y + k * d == (q + k) * d + m;
    DivUnique(y + k * d, d, q + k, m);
  }

  /** Congruence modulo 2^32 is symmetric. */
  lemma CongruentSymm(a: int, b: int)
    requires (a - b) % TWO_32 == 0
    ensures (b - a) % TWO_32 == 0
  {
    var k := (a - b) / TWO_32;
    assert a - b == k * TWO_32;
    MultipleIsCongruent(b - a, -k);
  }

  /** Congruence modulo 2^32 is transitive. */
  lemma CongruentTrans(a: int, b: int, c: int)
    requires (a - b) % TWO_32 == 0 && (b - c) % TWO_32 == 0
    ensures (a - c) % TWO_32 == 0
  {
    var k := (a - b) / TWO_32;
    var l := (b - c) / TWO_32;
    assert a - b == k * TWO_32 && b - c == l * TWO_32;
    MultipleIsCongruent(a - c, k + l);
  }

  /** `h ≡ c + 31 * w` and `w ≡ p` give `h ≡ c + 31 * p`, all modulo 2^32. */
  lemma CongruentStep(h: int, w: int, p: int, c: int)
    requires (h - (c + 31 * w)) % TWO_32 == 0
    requires (w - p) % TWO_32 == 0
    ensures (h - (c + 31 * p)) % TWO_32 == 0
  {
    var a := (h - (c + 31 * w)) / TWO_32;
    var b := (w - p) / TWO_32;
    assert h - (c + 31 * w) == a * TWO_32 && w - p == b * TWO_32;
    MultipleIsCongruent(h - (c + 31 * p), a + 31 * b);
  }

  /** x * 2^k, by doubling k times. */
  function MulPow2(x: int, k: nat): int
  {
    if k == 0 then x else 2 * MulPow2(x, k - 1)
  }

  /** x / 2^k rounded towards minus infinity, by halving k times. */
  function DivPow2(x: int, k: nat): int
  {
    if k == 0 then x else DivPow2(x, k - 1) / 2
  }

  /** Doubling respects congruence modulo 2^32. */
  lemma {:induction false} MulPow2Congruent(x: int, y: int, k: nat)
    requires (x - y) % TWO_32 == 0
    ensures (MulPow2(x, k) - MulPow2(y, k)) % TWO_32 == 0
  {
    if k > 0 {
      MulPow2Congruent(x, y, k - 1);
      DoubleCongruent(MulPow2(x, k - 1), MulPow2(y, k - 1), MulPow2(x, k), MulPow2(y, k));
    }
  }

  /** Doubling both sides of a congruence modulo 2^32. */
  lemma DoubleCongruent(a: int, b: int, a2: int, b2: int)
    requires (a - b) % TWO_32 == 0
    requires a2 == 2 * a && b2 == 2 * b
    ensures (a2 - b2) % TWO_32 == 0
  {
    var d := (a - b) / TWO_32;
    assert a - b == d * TWO_32;
    MultipleIsCongruent(a2 - b2, 2 * d);
  }

  /** A multiple of 2^32 is congruent to 0. */
  lemma MultipleIsCongruent(x: int, k: int)
    requires x == k * TWO_32
    ensures x % TWO_32 == 0
  {
    ModAddMultiple(0, k, TWO_32);
  }

  /**
   * `x << n`: both operands go through ToInt32, the shift count is masked
   * with `& 0x1F` (which on a two's-complement count is the Euclidean
   * remainder by 32), and the product wraps to a signed 32-bit result.
   */
  function ShiftLeft(x: int, n: int): (r: int)
    ensures -TWO_31 <= r < TWO_31
  {
    ToInt32(MulPow2(ToInt32(x), n % 32))
  }

  /** Modulo 2^32, `x << n` multiplies x by 2^(n mod 32). */
  lemma ShiftLeftCongruent(x: int, n: int)
    ensures (MulPow2(x, n % 32) - ShiftLeft(x, n)) % TWO_32 == 0
  {
    MulPow2CongruentTo(x, n % 32, ToInt32(x), MulPow2(ToInt32(x), n % 32), ShiftLeft(x, n));
  }

  /** If x ≡ y and z = y * 2^k ≡ r, then x * 2^k ≡ r, modulo 2^32. */
  lemma MulPow2CongruentTo(x: int, k: nat, y: int, z: int, r: int)
    requires (x - y) % TWO_32 == 0
    requires z == MulPow2(y, k)
    requires (z - r) % TWO_32 == 0
    ensures (MulPow2(x, k) - r) % TWO_32 == 0
  {
    MulPow2Congruent(x, y, k);
    CongruentTrans(MulPow2(x, k), z, r);
  }

  /**
   * `x >> n`: the sign-propagating right shift of ToInt32(x) by the masked
   * count, that is, division by 2^(n mod 32) rounding towards minus infinity.
   * For a positive divisor Dafny's `/` is exactly that floor division.
   */
  function SignedShiftRight(x: int, n: int): int
  {
    DivPow2(ToInt32(x), n % 32)
  }

  /** Halving k times is one floor division by 2^k. */
  lemma {:induction false} DivPow2IsDivision(v: int, k: nat)
    ensures MulPow2(1, k) > 0
    ensures DivPow2(v, k) == v / MulPow2(1, k)
  {
    if k > 0 {
      DivPow2IsDivision(v, k - 1);
      HalveTwice(v, MulPow2(1, k - 1));
    }
  }

  /** The right shifts by whole bytes, as divisions of ToInt32(x). */
  lemma ShiftRightBytes(x: int)
    ensures SignedShiftRight(x, 0) == ToInt32(x)
    ensures SignedShiftRight(x, 8) == ToInt32(x) / 256
    ensures SignedShiftRight(x, 16) == ToInt32(x) / 65536
  {
    var v := ToInt32(x);
    DivPow2IsDivision(v, 8);
    DivPow2IsDivision(v, 16);
    assert MulPow2(1, 8) == 256;
    assert MulPow2(1, 16) == 65536;
  }

  /** Floor division by d and then by 2 is floor division by 2d. */
  lemma HalveTwice(v: int, d: int)
    requires d > 0
    ensures v / d / 2 == v / (2 * d)
  {
    var q, m := v / d, v % d;
    var q2, m2 := q / 2, q % 2;
    assert v == (2 * d) * q2 + (d * m2 + m);
    assert 0 <= d * m2 + m < 2 * d;
    DivUnique(v, 2 * d, q2, d * m2 + m);
  }

  /** The quotient of Euclidean division by a positive number is unique. */
  lemma DivUnique(x: int, d: int, q: int, m: int)
    requires d > 0 && x == q * d + m && 0 <= m < d
    ensures x / d == q
  {
    var q' := x / d;
    var m' := x % d;
    assert x == q' * d + m';
    if q' > q {
      MultiplyMonotone(q + 1, q', d);
      assert false;
    } else if q' < q {
      MultiplyMonotone(q' + 1, q, d);
      assert false;
    }
  }

  lemma MultiplyMonotone(a: int, b: int, p: int)
    requires a <= b && p >= 0
    ensures a * p <= b * p
  {
    assert b * p - a * p == (b - a) * p;
  }

  /** `x & 0xFF`: the low byte of ToInt32(x) in two's complement. */
  function AndLowByte(x: int): (r: int)
    ensures 0 <= r < 256
  {
    ToInt32(x) % 256
  }

  /** On any int, `& 0xFF` is the Euclidean remainder modulo 256. */
  lemma AndLowByteIsMod(x: int)
    ensures AndLowByte(x) == x % 256
  {
  }
}
