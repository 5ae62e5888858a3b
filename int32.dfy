/** Rust's `i32` as the machine uses it: the value range, division and
    remainder truncating toward zero, shifts, and the bitwise operators on
    the 32-bit two's-complement encoding. */
module Int32 {

  const MIN: int := -0x8000_0000
  const MAX: int := 0x7FFF_FFFF
  /** Number of distinct 32-bit patterns. */
  const MODULUS: int := 0x1_0000_0000

  /** A value of Rust's `i32`. */
  type i32 = x: int | -0x8000_0000 <= x <= 0x7FFF_FFFF

  predicate InRange(x: int) {
    MIN <= x <= MAX
  }

  function Abs(x: int): nat {
    if x < 0 then -x else x
  }

  // ---------------------------------------------------------------------
  // Division truncating toward zero (Rust's `/` and `%` on integers)
  // ---------------------------------------------------------------------

  /** Quotient rounded toward zero. */
  function Quot(a: int, b: int): int
    requires b != 0
  {
    if (a < 0) == (b < 0) then Abs(a) / Abs(b) else -(Abs(a) / Abs(b))
  }

  /** Remainder carrying the sign of the dividend. */
  function Rem(a: int, b: int): (r: int)
    requires b != 0
    ensures Abs(r) < Abs(b)
  {
    if a < 0 then -(Abs(a) % Abs(b)) else Abs(a) % Abs(b)
  }

  /** Negating one factor negates the product. */
  lemma NegateFactor(b: int, q: int)
    ensures (-b) * q == -(b * q)
  {
  }

  /** p * q >= q for p >= 1 and q >= 0. */
  lemma {:induction false} MulAtLeast(p: int, q: int)
    requires p >= 1 && q >= 0
    ensures p * q >= q
    decreases p
  {
    if p > 1 {
      MulAtLeast(p - 1, q);
      assert p * q == (p - 1) * q + q;
    }
  }

  /** Quot and Rem satisfy the defining identity of truncated division:
      the remainder is smaller than the divisor and never has the opposite
      sign of the dividend. */
  lemma QuotRem(a: int, b: int)
    requires b != 0
    ensures a == b * Quot(a, b) + Rem(a, b)
    ensures Abs(Rem(a, b)) < Abs(b)
    ensures a >= 0 ==> Rem(a, b) >= 0
    ensures a <= 0 ==> Rem(a, b) <= 0
  {
    var q, r := Abs(a) / Abs(b), Abs(a) % Abs(b);
    assert Abs(a) == Abs(b) * q + r;
    if b < 0 {
      NegateFactor(b, q);
      assert b * (-q) == -(b * q);
    }
  }

  /** A product b * k with k != 0 is at least |b| in magnitude. */
  lemma MultipleBound(b: int, k: int)
    requires k != 0
    ensures Abs(b * k) >= Abs(b)
  {
    MulAtLeast(Abs(k), Abs(b));
    assert Abs(k) * Abs(b) == Abs(b * k) by {
      if b < 0 { NegateFactor(b, k); }
      if k < 0 { NegateFactor(k, b); }
      if b < 0 && k < 0 { NegateFactor(b, -k); }
    }
  }

  /** Truncated division is the only (quotient, remainder) pair with the
      properties of QuotRem, so Quot and Rem are exactly Rust's operators. */
  lemma QuotRemUnique(a: int, b: int, q: int, r: int)
    requires b != 0
    requires a == b * q + r && Abs(r) < Abs(b)
    requires a >= 0 ==> r >= 0
    requires a <= 0 ==> r <= 0
    ensures q == Quot(a, b) && r == Rem(a, b)
  {
    QuotRem(a, b);
    var q', r' := Quot(a, b), Rem(a, b);
    assert b * (q - q') == r' - r;
    if q != q' {
      MultipleBound(b, q - q');
      assert false;
    }
  }

  lemma HalfBound(n: nat, d: nat)
    requires d >= 2
    ensures 2 * (n / d) <= n
  {
    var q := n / d;
    assert n == d * q + n % d;
    MulAtLeast(d - 1, q);
    assert d * q == (d - 1) * q + q;
  }

  /** The quotient of two `i32` values overflows only for MIN / -1. */
  lemma QuotInRange(a: i32, b: i32)
    requires b != 0
    ensures InRange(Quot(a, b)) <==> !(a == MIN && b == -1)
  {
    var n, d := Abs(a), Abs(b);
    if d == 1 {
      assert n / d == n;
    } else {
      HalfBound(n, d);
    }
  }

  // ---------------------------------------------------------------------
  // Two's-complement encoding
  // ---------------------------------------------------------------------

  function Pow2(n: nat): (p: nat)
    ensures p >= 1
  {
    if n == 0 then 1 else 2 * Pow2(n - 1)
  }

  lemma Pow2Of32()
    ensures Pow2(32) == MODULUS
  {
    assert Pow2(4) == 16;
    assert Pow2(8) == 256;
    assert Pow2(12) == 4096;
    assert Pow2(16) == 65536;
    assert Pow2(20) == 0x10_0000;
    assert Pow2(24) == 0x100_0000;
    assert Pow2(28) == 0x1000_0000;
  }

  /** The 32-bit pattern of x, read as an unsigned number. */
  function ToUnsigned(x: i32): (u: nat)
    ensures u < MODULUS
    ensures u == if x >= 0 then x else x + MODULUS
  {
    x % MODULUS
  }

  /** The `i32` whose 32-bit pattern is u. */
  function FromUnsigned(u: nat): i32
    requires u < MODULUS
  {
    if u > MAX then u - MODULUS else u
  }

  /** Reduces an arbitrary integer to `i32` by dropping all bits above bit 31. */
  function Wrap(v: int): (r: i32)
    ensures (v - r) % MODULUS == 0
    ensures InRange(v) ==> r == v
  {
    FromUnsigned(v % MODULUS)
  }

  lemma UnsignedRoundTrip(x: i32, u: nat)
    requires u < MODULUS
    ensures FromUnsigned(ToUnsigned(x)) == x
    ensures ToUnsigned(FromUnsigned(u)) == u
  {
  }

  // ---------------------------------------------------------------------
  // Shifts (`<<` and the arithmetic `>>` of `i32`)
  // ---------------------------------------------------------------------

  /** `x << n`: the bits moved past bit 31 are lost. */
  function ShiftLeft(x: i32, n: nat): i32
    requires n < 32
  {
    Wrap(x * Pow2(n))
  }

  /** Floor division by a positive divisor stays between 0 and the dividend. */
  lemma DivShrinks(x: int, p: int)
    requires p >= 1
    ensures x >= 0 ==> 0 <= x / p <= x
    ensures x < 0 ==> x <= x / p < 0
  {
    var q, r := x / p, x % p;
    assert x == p * q + r && 0 <= r < p;
    if x >= 0 {
      if q < 0 {
        MulAtLeast(p, -q);
        NegateFactor(q, p);
        assert false;
      }
      MulAtLeast(p, q);
    } else {
      if q >= 0 {
        MulAtLeast(p, q);
        assert false;
      }
      MulAtLeast(-q, p - 1);
      assert p * q == (p - 1) * q + q;
    }
  }

  /** Dividing an exact multiple recovers the factor. */
  lemma DivExact(x: int, p: int)
    requires p >= 1
    ensures (x * p) / p == x
  {
    var q, r := (x * p) / p, (x * p) % p;
    assert x * p == p * q + r && 0 <= r < p;
    assert p * (x - q) == r;
    if x != q {
      MultipleBound(p, x - q);
      assert false;
    }
  }

  /** `x >> n` on `i32`: an arithmetic shift, i.e. division by 2^n rounded
      toward negative infinity. */
  function ShiftRight(x: i32, n: nat): (r: i32)
    requires n < 32
    ensures r < 0 <==> x < 0
  {
    DivShrinks(x, Pow2(n));
    x / Pow2(n)
  }

  /** Shifting left loses nothing when the product fits, and shifting back
      right restores the operand. */
  lemma ShiftRoundTrip(x: i32, n: nat)
    requires n < 32 && InRange(x * Pow2(n))
    ensures ShiftLeft(x, n) == x * Pow2(n)
    ensures ShiftRight(ShiftLeft(x, n), n) == x
  {
    DivExact(x, Pow2(n));
  }

  // ---------------------------------------------------------------------
  // Bitwise operators, defined bit by bit on the unsigned encoding
  // ---------------------------------------------------------------------

  datatype BitOp = AndBit | OrBit | XorBit

  function CombineBit(op: BitOp, a: nat, b: nat): nat
    requires a < 2 && b < 2
  {
    match op
    case AndBit => a * b
    case OrBit => if a + b > 0 then 1 else 0
    case XorBit => (a + b) % 2
  }

  /** Applies op to the low `width` bits of u and v. */
  function Bitwise(op: BitOp, u: nat, v: nat, width: nat): (r: nat)
    ensures r < Pow2(width)
    decreases width
  {
    if width == 0 then 0
    else 2 * Bitwise(op, u / 2, v / 2, width - 1) + CombineBit(op, u % 2, v % 2)
  }

  /** Flips the low `width` bits of u. */
  function Complement(u: nat, width: nat): (r: nat)
    ensures r < Pow2(width)
    decreases width
  {
    if width == 0 then 0 else 2 * Complement(u / 2, width - 1) + (1 - u % 2)
  }

  function AndBits(x: i32, y: i32): i32 {
    Pow2Of32();
    FromUnsigned(Bitwise(AndBit, ToUnsigned(x), ToUnsigned(y), 32))
  }

  function OrBits(x: i32, y: i32): i32 {
    Pow2Of32();
    FromUnsigned(Bitwise(OrBit, ToUnsigned(x), ToUnsigned(y), 32))
  }

  function XorBits(x: i32, y: i32): i32 {
    Pow2Of32();
    FromUnsigned(Bitwise(XorBit, ToUnsigned(x), ToUnsigned(y), 32))
  }

  function NotBits(x: i32): i32 {
    Pow2Of32();
    FromUnsigned(Complement(ToUnsigned(x), 32))
  }

  lemma {:induction false} ComplementValue(u: nat, width: nat)
    requires u < Pow2(width)
    ensures Complement(u, width) == Pow2(width) - 1 - u
    decreases width
  {
    if width > 0 {
      ComplementValue(u / 2, width - 1);
    }
  }

  /** Bitwise complement is `-x - 1` in two's complement. */
  lemma NotIsNegatedPredecessor(x: i32)
    ensures NotBits(x) as int == -(x as int) - 1
  {
    Pow2Of32();
    ComplementValue(ToUnsigned(x), 32);
  }

  lemma {:induction false} XorTwice(u: nat, v: nat, width: nat)
    requires u < Pow2(width)
    ensures Bitwise(XorBit, Bitwise(XorBit, u, v, width), v, width) == u
    decreases width
  {
    if width > 0 {
      var w := Bitwise(XorBit, u, v, width);
      var rest := Bitwise(XorBit, u / 2, v / 2, width - 1);
      assert w / 2 == rest && w % 2 == (u % 2 + v % 2) % 2;
      XorTwice(u / 2, v / 2, width - 1);
    }
  }

  /** XOR with the same operand twice restores the original value. */
  lemma XorInvolution(x: i32, y: i32)
    ensures XorBits(XorBits(x, y), y) == x
  {
    var u, v := ToUnsigned(x), ToUnsigned(y);
    Pow2Of32();
    var w := Bitwise(XorBit, u, v, 32);
    UnsignedRoundTrip(x, w);
    XorTwice(u, v, 32);
  }

  lemma {:induction false} BitwiseSame(op: BitOp, u: nat, width: nat)
    requires op != XorBit && u < Pow2(width)
    ensures Bitwise(op, u, u, width) == u
    decreases width
  {
    if width > 0 {
      BitwiseSame(op, u / 2, width - 1);
    }
  }

  /** AND and OR of a value with itself give the value back. */
  lemma AndOrIdempotent(x: i32)
    ensures AndBits(x, x) == x && OrBits(x, x) == x
  {
    Pow2Of32();
    BitwiseSame(AndBit, ToUnsigned(x), 32);
    BitwiseSame(OrBit, ToUnsigned(x), 32);
  }

  lemma {:induction false} XorSelf(u: nat, width: nat)
    ensures Bitwise(XorBit, u, u, width) == 0
    decreases width
  {
    if width > 0 {
      XorSelf(u / 2, width - 1);
    }
  }

  /** XOR of a value with itself is zero. */
  lemma XorSelfIsZero(x: i32)
    ensures XorBits(x, x) == 0
  {
    Pow2Of32();
    XorSelf(ToUnsigned(x), 32);
  }
}
