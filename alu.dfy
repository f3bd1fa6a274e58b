/**
 * The arithmetic of the EX stage and the sub-word arithmetic of the MEM stage:
 * shifts, the 64-bit multiply split into HI and LO, divide, set-less-than, and
 * the byte and halfword merges of the stores. Each operation is stated as the
 * C expression computes it on `uint32_t`/`uint64_t` values, and its meaning on
 * the two's-complement integers is proved beside it.
 */
module Alu {
  import opened Words

  /** A value pair destined for the HI and LO registers. */
  datatype HiLo = HiLo(hi: Word, lo: Word)

  // ---------------------------------------------------------------------
  // Shifts
  // ---------------------------------------------------------------------

  /** SLL: a `uint32_t` shifted left by `sa`; the bits pushed past bit 31 are lost. */
  function ShiftLeft(b: Word, sa: nat): Word
    requires sa < 32
  {
    Wrap(b * Pow2(sa))
  }

  /** SRL: a `uint32_t` shifted right by `sa`, zeros entering at the top. */
  function ShiftRightLogical(b: Word, sa: nat): (r: Word)
    requires sa < 32
    ensures r < Pow2(32 - sa)
    ensures r * Pow2(sa) + b % Pow2(sa) == b
  {
    ShiftQuotient(b, sa);
    b / Pow2(sa)
  }

  /** The facts about `b / 2^sa` that SRL's contract states. */
  lemma ShiftQuotient(b: Word, sa: nat)
    requires sa < 32
    ensures 0 <= b / Pow2(sa) <= b && b / Pow2(sa) < Pow2(32 - sa)
    ensures b / Pow2(sa) * Pow2(sa) + b % Pow2(sa) == b
  {
    var p, q := Pow2(sa), Pow2(32 - sa);
    Pow2Complement(sa);
    QuotientFacts(b, p, q);
  }

  /** The quotient of `b < p * q` by `p` is below `q`, at most `b`, and with the remainder gives `b` back. */
  lemma QuotientFacts(b: nat, p: nat, q: nat)
    requires p > 0 && q > 0 && b < p * q
    ensures 0 <= b / p <= b && b / p < q
    ensures b / p * p + b % p == b
  {
    DivBound(b, p, q);
    DivAtMost(b, p);
  }

  /**
   * SRA as intended: a negative word is complemented, shifted logically and
   * complemented back, which fills the vacated bits with copies of bit 31; a
   * non-negative one is shifted logically.
   * Read as signed integers, the result is the dividend divided by 2^sa rounded
   * toward minus infinity.
   */
  function ShiftRightArith(b: Word, sa: nat): (r: Word)
    requires sa < 32
    ensures Signed(r) == Signed(b) / Pow2(sa)
  {
    if b / 0x8000_0000 == 1 then
      SraNegative(b, sa);
      Not(ShiftRightLogical(Not(b), sa))
    else
      SraNonNegative(b, sa);
      ShiftRightLogical(b, sa)
  }

  /** Bitwise complement `~x` of a `uint32_t`. */
  function Not(x: Word): Word {
    0xFFFF_FFFF - x
  }

  /** `b` with every bit but bit 31 cleared. */
  function SignBitMask(b: Word): Word {
    b / 0x8000_0000 * 0x8000_0000
  }

  /**
   * SRA as written: the sign test compares the masked sign bit with 1, which
   * it never equals (it is 0 or 2^31), so the complementing branch is dead.
   */
  function ShiftRightArithAsWritten(b: Word, sa: nat): Word
    requires sa < 32
  {
    if SignBitMask(b) == 1 then Not(ShiftRightLogical(Not(b), sa)) else ShiftRightLogical(b, sa)
  }

  /** As written, SRA is SRL for every operand. */
  lemma SraAsWrittenIsLogical(b: Word, sa: nat)
    requires sa < 32
    ensures ShiftRightArithAsWritten(b, sa) == ShiftRightLogical(b, sa)
  {
    assert SignBitMask(b) == 0 || SignBitMask(b) == 0x8000_0000;
  }

  /** The input that shows it: 0x80000000 shifted arithmetically by 1. */
  lemma SraAsWrittenLosesSign()
    ensures ShiftRightArithAsWritten(0x8000_0000, 1) == 0x4000_0000
    ensures ShiftRightArith(0x8000_0000, 1) == 0xC000_0000
  {
    SraAsWrittenIsLogical(0x8000_0000, 1);
    assert Pow2(1) == 2;
  }

  /** Left shift keeps the low `32 - sa` bits of `b` above `sa` zero bits. */
  lemma ShiftLeftBits(b: Word, sa: nat)
    requires sa < 32
    ensures ShiftLeft(b, sa) % Pow2(sa) == 0
    ensures ShiftLeft(b, sa) / Pow2(sa) == b % Pow2(32 - sa)
  {
    var p, q := Pow2(sa), Pow2(32 - sa);
    Pow2Complement(sa);
    assert ShiftLeft(b, sa) == b * p % (p * q);
    ShiftLeftMod(b, p, q);
  }

  /** `b * p` reduced modulo `p * q` is the low part `b % q`, scaled by `p`. */
  lemma ShiftLeftMod(b: nat, p: int, q: int)
    requires p > 0 && q > 0
    ensures b * p % (p * q) % p == 0
    ensures b * p % (p * q) / p == b % q
  {
    var k: int, r: int := b / q, b % q;
    ShiftLeftSplit(b, p, q, k, r);
    DivModSplit(b * p, p * q, k, r * p);
    DivModSplit(r * p, p, r, 0);
  }

  lemma ShiftLeftSplit(b: int, p: int, q: int, k: int, r: int)
    requires p > 0 && q > 0 && b == k * q + r && 0 <= r < q
    ensures b * p == k * (p * q) + r * p
    ensures 0 <= r * p < p * q
  {
    assert b * p == k * q * p + r * p;
    assert k * q * p == k * (p * q);
    MulLe(r, q - 1, p);
    assert (q - 1) * p == p * q - p;
  }

  /** Complement, logical shift, complement: for a negative `b`, the floor of `b / 2^sa`. */
  lemma SraNegative(b: Word, sa: nat)
    requires sa < 32 && b / 0x8000_0000 == 1
    ensures Signed(Not(ShiftRightLogical(Not(b), sa))) == Signed(b) / Pow2(sa)
  {
    var p := Pow2(sa);
    var m: int := Not(b);
    assert Signed(b) == -m - 1 && m < 0x8000_0000;
    DivAtMost(m, p);
    var q := m / p;
    assert ShiftRightLogical(m, sa) == q;
    assert Signed(Not(q)) == -1 - q;
    FloorOfComplement(m, p);
  }

  /** Flooring division of `-m - 1`, the complement of `m`, is the complement of `m / p`. */
  lemma FloorOfComplement(m: int, p: int)
    requires m >= 0 && p > 0
    ensures (-m - 1) / p == -1 - m / p
  {
    var q: int, r: int := m / p, m % p;
    assert -m - 1 == (-1 - q) * p + (p - 1 - r) by {
      assert m == q * p + r;
      assert (-1 - q) * p == -p - q * p;
    }
    DivModSplit(-m - 1, p, -1 - q, p - 1 - r);
  }

  lemma SraNonNegative(b: Word, sa: nat)
    requires sa < 32 && b / 0x8000_0000 == 0
    ensures Signed(ShiftRightLogical(b, sa)) == Signed(b) / Pow2(sa)
  {
    Pow2Complement(sa);
    QuotientFacts(b, Pow2(sa), Pow2(32 - sa));
  }

  // ---------------------------------------------------------------------
  // Multiply
  // ---------------------------------------------------------------------

  /** HI:LO as one 64-bit value. */
  function Join(r: HiLo): nat {
    r.hi * TWO32 + r.lo
  }

  /** The two's-complement reading of a 64-bit value. */
  function Signed64(x: int): int
    requires 0 <= x < TWO64
  {
    if x < 0x8000_0000_0000_0000 then x else x - TWO64
  }

  /** MULT's operand widening to 64 bits: ones in bits 63-32 when bit 31 is set, else `a` itself. */
  function Widen(a: Word): (p: nat)
    ensures p < TWO64
    ensures p == Signed(a) || p == Signed(a) + TWO64
  {
    if a / 0x8000_0000 == 1 then 0xFFFF_FFFF_0000_0000 + a else a
  }

  /** A `uint64_t` split into its upper and lower 32 bits. */
  function Split(product: nat): (r: HiLo)
    requires product < TWO64
    ensures Join(r) == product
  {
    HiLo(product / TWO32, product % TWO32)
  }

  /** MULT: the `uint64_t` product of the widened operands, split into HI and LO. */
  function Mult(a: Word, b: Word): HiLo {
    Split(Widen(a) * Widen(b) % TWO64)
  }

  /** MULTU: the `uint64_t` product of the zero-extended operands, split into HI and LO. */
  function MultU(a: Word, b: Word): HiLo {
    Split(a * b % TWO64)
  }

  /**
   * MULT leaves in HI:LO the signed product of the operands modulo 2^64; read
   * as a signed 64-bit value it is the exact product.
   */
  lemma MultIsSignedProduct(a: Word, b: Word)
    ensures Join(Mult(a, b)) == Signed(a) * Signed(b) % TWO64
    ensures Signed64(Join(Mult(a, b))) == Signed(a) * Signed(b)
  {
    var x, y := Signed(a), Signed(b);
    var xy := x * y;
    WidenedProduct(a, b);
    SignedProductBound(x, y);
    if xy >= 0 {
      DivModSplit(xy, TWO64, 0, xy);
    } else {
      DivModSplit(xy, TWO64, -1, xy + TWO64);
    }
  }

  /** The widened operands multiply to the signed product, modulo 2^64. */
  lemma WidenedProduct(a: Word, b: Word)
    ensures Widen(a) * Widen(b) % TWO64 == Signed(a) * Signed(b) % TWO64
  {
    var x, y := Signed(a), Signed(b);
    var u, v := Widen(a), Widen(b);
    if u != x {
      ProductModShift(x, v);
    }
    if v != y {
      ProductModShift(y, x);
    }
  }

  /** Adding 2^64 to one factor does not change the product modulo 2^64. */
  lemma ProductModShift(x: int, y: int)
    ensures (x + TWO64) * y % TWO64 == x * y % TWO64
    ensures y * (x + TWO64) % TWO64 == y * x % TWO64
  {
    assert (x + TWO64) * y == x * y + y * TWO64;
    ModAddMultiple(x * y, y, TWO64);
  }

  /** MULTU leaves in HI:LO the exact unsigned product. */
  lemma MultUIsProduct(a: Word, b: Word)
    ensures Join(MultU(a, b)) == a * b
  {
    var p := a * b;
    MulBelow(a, b, TWO32);
    assert TWO32 * TWO32 == TWO64;
    DivModSplit(p, TWO64, 0, p);
  }

  lemma MulBelow(a: nat, b: nat, n: nat)
    requires a < n && b < n
    ensures a * b < n * n
  {
    MulLe(a, n - 1, b);
    MulLe(b, n - 1, n - 1);
    assert (n - 1) * b == b * (n - 1);
  }

  /** The two multiplications worked through: -1 times -1, and 0xFFFFFFFF times 2 unsigned. */
  lemma MultExamples()
    ensures Mult(0xFFFF_FFFF, 0xFFFF_FFFF) == HiLo(0, 1)
    ensures MultU(0xFFFF_FFFF, 2) == HiLo(1, 0xFFFF_FFFE)
  {
  }

  lemma SignedProductBound(x: int, y: int)
    requires -0x8000_0000 <= x < 0x8000_0000 && -0x8000_0000 <= y < 0x8000_0000
    ensures -0x4000_0000_0000_0000 < x * y <= 0x4000_0000_0000_0000
  {
    if x < 0 && y < 0 {
      MulLe(-x, 0x8000_0000, -y);
      MulLe(-y, 0x8000_0000, 0x8000_0000);
      assert x * y == (-x) * (-y);
    } else if x < 0 {
      MulLe(-x, 0x8000_0000, y);
      MulLe(y, 0x7FFF_FFFF, 0x8000_0000);
      assert x * y == -((-x) * y);
    } else if y < 0 {
      MulLe(-y, 0x8000_0000, x);
      MulLe(x, 0x7FFF_FFFF, 0x8000_0000);
      assert x * y == -((-y) * x);
    } else {
      MulLe(x, 0x8000_0000, y);
      MulLe(y, 0x8000_0000, 0x8000_0000);
    }
  }

  // ---------------------------------------------------------------------
  // Divide
  // ---------------------------------------------------------------------

  function Abs(x: int): nat {
    if x < 0 then -x else x
  }

  /**
   * C's `/` on `int32_t`: the quotient truncated toward zero. With `r` the
   * remainder `x - q * y`, it is the unique `q` with `|r| < |y|` and `r` zero
   * or of the sign of the dividend.
   */
  function QuotTrunc(x: int, y: int): (q: int)
    requires y != 0
    ensures Abs(x - q * y) < Abs(y)
    ensures x - q * y == 0 || (x - q * y < 0 <==> x < 0)
  {
    QuotTruncFacts(x, y);
    var n := Abs(x) / Abs(y);
    if (x < 0) == (y < 0) then n else -n
  }

  lemma QuotTruncFacts(x: int, y: int)
    requires y != 0
    ensures var n := Abs(x) / Abs(y);
      var q := if (x < 0) == (y < 0) then n else -n;
      && Abs(x - q * y) < Abs(y)
      && (x - q * y == 0 || (x - q * y < 0 <==> x < 0))
  {
    var ax, ay := Abs(x), Abs(y);
    var n, m := ax / ay, ax % ay;
    assert ax == n * ay + m;
    if x >= 0 && y > 0 {
      assert x - n * y == m;
    } else if x >= 0 {
      assert x - (-n) * y == m by {
        assert (-n) * y == n * ay;
      }
    } else if y > 0 {
      assert x - (-n) * y == -m by {
        assert (-n) * y == -(n * ay);
      }
    } else {
      assert x - n * y == -m by {
        assert n * y == -(n * ay);
      }
    }
  }

  /** C's `%` on `int32_t`, the remainder that goes with the truncated quotient. */
  function RemTrunc(x: int, y: int): int
    requires y != 0
  {
    x - QuotTrunc(x, y) * y
  }

  /** DIV with a non-zero divisor: LO the truncated quotient, HI the remainder, as `uint32_t`. */
  function Div(a: Word, b: Word): HiLo
    requires b != 0
  {
    HiLo(Wrap(RemTrunc(Signed(a), Signed(b))), Wrap(QuotTrunc(Signed(a), Signed(b))))
  }

  /**
   * DIV's results read as signed words: the remainder exactly, smaller than
   * the divisor and of the dividend's sign, and the quotient exactly except for
   * -2^31 / -1, whose quotient 2^31 wraps to 0x80000000.
   */
  lemma DivIsTruncatedDivision(a: Word, b: Word)
    requires b != 0
    ensures var q := QuotTrunc(Signed(a), Signed(b));
      && Signed(Div(a, b).hi) == Signed(a) - q * Signed(b)
      && Abs(Signed(Div(a, b).hi)) < Abs(Signed(b))
      && (Signed(a) == -0x8000_0000 && Signed(b) == -1 ==> Div(a, b).lo == 0x8000_0000)
      && (!(Signed(a) == -0x8000_0000 && Signed(b) == -1) ==> Signed(Div(a, b).lo) == q)
  {
    var x, y := Signed(a), Signed(b);
    var q := QuotTrunc(x, y);
    var r := x - q * y;
    assert -0x8000_0000 < r < 0x8000_0000;
    WrapSigned(r);
    if x == -0x8000_0000 && y == -1 {
      DivModSplit(0x8000_0000, 1, 0x8000_0000, 0);
      assert q == 0x8000_0000;
    } else {
      QuotInRange(x, y);
      WrapSigned(q);
    }
  }

  /**
   * `p` is what DIV leaves for `a` and `b` read as signed words: LO the
   * quotient truncated toward zero and HI the remainder, smaller than the
   * divisor in magnitude and zero or of the dividend's sign. The one quotient
   * that does not fit, 2^31 for -2^31 / -1, wraps to 0x80000000.
   */
  predicate IsTruncatedDivision(a: Word, b: Word, p: HiLo)
    requires b != 0
  {
    var x, y := Signed(a), Signed(b);
    && Abs(Signed(p.hi)) < Abs(y)
    && (p.hi == 0 || (Signed(p.hi) < 0 <==> x < 0))
    && (if x == -0x8000_0000 && y == -1 then p.lo == 0x8000_0000
        else Signed(p.lo) * y + Signed(p.hi) == x)
  }

  /** Exactly one HI/LO pair is the truncated division, and it is `Div`'s. */
  lemma DivIsTheTruncatedDivision(a: Word, b: Word, p: HiLo)
    requires b != 0
    ensures IsTruncatedDivision(a, b, p) <==> p == Div(a, b)
  {
    var x, y := Signed(a), Signed(b);
    var d := Div(a, b);
    DivIsTruncatedDivision(a, b);
    var q := QuotTrunc(x, y);
    assert d.hi == 0 || (Signed(d.hi) < 0 <==> x < 0) by {
      assert Signed(d.hi) == x - q * y;
      if Signed(d.hi) == 0 {
        assert d.hi == Wrap(Signed(d.hi));
      }
    }
    assert IsTruncatedDivision(a, b, d);
    if IsTruncatedDivision(a, b, p) {
      if x == -0x8000_0000 && y == -1 {
        assert Signed(p.hi) == 0 && Signed(d.hi) == 0;
        assert p.hi == Wrap(Signed(p.hi)) && d.hi == Wrap(Signed(d.hi));
      } else {
        var h := Signed(p.hi);
        assert h == x - Signed(p.lo) * y;
        QuotTruncUnique(x, y, Signed(p.lo));
        assert p.lo == Wrap(Signed(p.lo)) && d.lo == Wrap(Signed(d.lo));
        assert p.hi == Wrap(Signed(p.hi)) && d.hi == Wrap(Signed(d.hi));
      }
    }
  }

  /** The truncated quotient is the only one whose remainder is below the divisor and zero or of the dividend's sign. */
  lemma QuotTruncUnique(x: int, y: int, q: int)
    requires y != 0
    requires Abs(x - q * y) < Abs(y)
    requires x - q * y == 0 || (x - q * y < 0 <==> x < 0)
    ensures q == QuotTrunc(x, y)
  {
    var q0 := QuotTrunc(x, y);
    var d := q0 - q;
    assert d * y == (x - q * y) - (x - q0 * y);
    if d != 0 {
      MulAbsAtLeast(d, y);
      assert false;
    }
  }

  /** A non-zero multiple of `y` is at least `y` in magnitude. */
  lemma MulAbsAtLeast(d: int, y: int)
    requires d != 0
    ensures Abs(d * y) >= Abs(y)
  {
    var ad, ay := Abs(d), Abs(y);
    assert Abs(d * y) == ad * ay by {
      if d < 0 && y < 0 {
        assert d * y == (-d) * (-y);
      } else if d < 0 {
        assert d * y == -((-d) * y);
      } else if y < 0 {
        assert d * y == -(d * (-y));
      }
    }
    MulLe(1, ad, ay);
  }

  /** Apart from -2^31 / -1, a truncated quotient of two signed words is a signed word. */
  lemma QuotInRange(x: int, y: int)
    requires -0x8000_0000 <= x < 0x8000_0000 && -0x8000_0000 <= y < 0x8000_0000 && y != 0
    requires !(x == -0x8000_0000 && y == -1)
    ensures -0x8000_0000 <= QuotTrunc(x, y) < 0x8000_0000
  {
    var ax: int, ay: int := Abs(x), Abs(y);
    var n: int := ax / ay;
    assert QuotTrunc(x, y) == n || QuotTrunc(x, y) == -n;
    if ay == 1 {
      DivModSplit(ax, 1, ax, 0);
      assert n == ax;
    } else {
      QuotHalf(ax, ay);
    }
  }

  lemma QuotHalf(ax: nat, ay: nat)
    requires ay >= 2 && ax <= 0x8000_0000
    ensures ax / ay <= 0x4000_0000
  {
    var n := ax / ay;
    assert n * ay <= ax;
    MulLe(2, ay, n);
  }

  lemma WrapSigned(v: int)
    requires -0x8000_0000 <= v < 0x8000_0000
    ensures Signed(Wrap(v)) == v
  {
    if v < 0 {
      DivModSplit(v, TWO32, -1, v + TWO32);
    }
  }

  /** DIVU with a non-zero divisor: LO the quotient, HI the remainder. */
  function DivU(a: Word, b: Word): (r: HiLo)
    requires b != 0
    ensures r.lo * b + r.hi == a && r.hi < b
  {
    HiLo(a % b, a / b)
  }

  /**
   * DIV with the guard on its own divisor: nothing for a zero divisor (HI and
   * LO stay as they are), the truncated division otherwise.
   */
  function DivGuarded(a: Word, b: Word): (r: Option<HiLo>)
    ensures r.None? <==> b == 0
    ensures r.Some? ==> IsTruncatedDivision(a, b, r.value)
  {
    if b == 0 then None else
      DivIsTheTruncatedDivision(a, b, Div(a, b));
      Some(Div(a, b))
  }

  /** What DIV can end in when its guard and its divisor are different values. */
  datatype DivOutcome = Unchanged | Divided(result: HiLo) | DivideByZero

  /**
   * DIV as written: the guard tests the divisor register as it is now
   * (`rtNow`), while the division uses the operand `b` latched by ID a cycle
   * earlier.
   */
  function DivAsWritten(a: Word, b: Word, rtNow: Word): DivOutcome {
    if rtNow == 0 then Unchanged
    else if b == 0 then DivideByZero
    else Divided(Div(a, b))
  }

  /**
   * The input that shows it: a latched divisor of 0 while the register has
   * since been overwritten with 1 passes the guard and divides by zero.
   */
  lemma DivAsWrittenDividesByZero()
    ensures DivAsWritten(7, 0, 1) == DivideByZero
    ensures DivGuarded(7, 0) == None
  {
  }

  // ---------------------------------------------------------------------
  // Comparison
  // ---------------------------------------------------------------------

  /** SLT and SLTI as intended: 1 when `a` is less than `b` as signed words, else 0. */
  function SetLessThan(a: Word, b: Word): (r: Word)
    ensures r == 0 || r == 1
    ensures r == 1 <==> (a + 0x8000_0000) % TWO32 < (b + 0x8000_0000) % TWO32
  {
    if Signed(a) < Signed(b) then 1 else 0
  }

  /** SLT as written: the comparison is on the unsigned words. */
  function SltAsWritten(a: Word, b: Word): Word {
    if a < b then 1 else 0
  }

  /** The input that shows it: -1 < 0 is true, 0xFFFFFFFF < 0 is not. */
  lemma SltAsWrittenUnsigned()
    ensures SltAsWritten(0xFFFF_FFFF, 0) == 0
    ensures SetLessThan(0xFFFF_FFFF, 0) == 1
  {
  }

  /**
   * SLTI as written: the sign of the 32-bit difference `(int32_t)a - simm`,
   * with the signed overflow wrapping around.
   */
  function SltiAsWritten(a: Word, simm: Word): Word {
    if Signed(Wrap(Signed(a) - Signed(simm))) < 0 then 1 else 0
  }

  /** As written, SLTI is right whenever the difference does not overflow. */
  lemma SltiAsWrittenWithoutOverflow(a: Word, simm: Word)
    requires -0x8000_0000 <= Signed(a) - Signed(simm) < 0x8000_0000
    ensures SltiAsWritten(a, simm) == SetLessThan(a, simm)
  {
    WrapSigned(Signed(a) - Signed(simm));
  }

  /** The input that shows it: 0x7FFFFFFF < -1 is false, but the difference wraps negative. */
  lemma SltiAsWrittenOverflows()
    ensures SltiAsWritten(0x7FFF_FFFF, SignExtend16(0xFFFF)) == 1
    ensures SetLessThan(0x7FFF_FFFF, SignExtend16(0xFFFF)) == 0
  {
  }

  // ---------------------------------------------------------------------
  // Sub-word stores
  // ---------------------------------------------------------------------

  /** SB's merge: the low byte of `b` replaces that of `data`. */
  function MergeByte(data: Word, b: Word): (r: Word)
    ensures r % 0x100 == b % 0x100
    ensures r / 0x100 == data / 0x100
  {
    DivModSplit(data - data % 0x100 + b % 0x100, 0x100, data / 0x100, b % 0x100);
    data - data % 0x100 + b % 0x100
  }

  /** SH's merge: the low half of `b` replaces that of `data`. */
  function MergeHalf(data: Word, b: Word): (r: Word)
    ensures r % TWO16 == b % TWO16
    ensures r / TWO16 == data / TWO16
  {
    DivModSplit(data - data % TWO16 + b % TWO16, TWO16, data / TWO16, b % TWO16);
    data - data % TWO16 + b % TWO16
  }

  // ---------------------------------------------------------------------
  // Immediates
  // ---------------------------------------------------------------------

  /** Adding a sign-extended immediate adds its signed 16-bit value, modulo 2^32. */
  lemma AddSignExtended(a: Word, imm: Word)
    ensures Add(a, SignExtend16(imm)) == Wrap(a + Signed(SignExtend16(imm)))
  {
    var s := SignExtend16(imm);
    if Signed(s) < 0 {
      ModAddMultiple(a + Signed(s), 1, TWO32);
    }
  }

  /** LUI shifts out the upper half, so extending the immediate first makes no difference. */
  lemma LuiIgnoresExtension(imm: Word)
    ensures ShiftLeft(SignExtend16(imm), 16) == ShiftLeft(imm % TWO16, 16)
    ensures ShiftLeft(imm % TWO16, 16) == imm % TWO16 * TWO16
  {
    Pow2Constants();
    Pow2Add(16, 16);
    ShiftLeftBits(SignExtend16(imm), 16);
    ShiftLeftBits(imm % TWO16, 16);
    var r := ShiftLeft(imm % TWO16, 16);
    assert r == r / TWO16 * TWO16 + r % TWO16;
  }
}
