/**
 * 32-bit words and bytes of the simulated machine, and the fixed bit fields of
 * a MIPS32 instruction word.
 *
 * Words are the unsigned values of a `uint32_t`, kept as bounded integers:
 * masking a bit field and shifting it down is division by a power of two
 * followed by a remainder (bits 25-21 are `ir / 0x20_0000 % 32`), and C's
 * unsigned wrap-around is `Wrap`.
 */
module Words {

  const TWO16: int := 0x1_0000
  const TWO32: int := 0x1_0000_0000
  const TWO64: int := 0x1_0000_0000_0000_0000

  /** A `uint32_t`. */
  type Word = x: int | 0 <= x < 0x1_0000_0000

  /** A `uint8_t`, one cell of a memory region. */
  type Byte = x: int | 0 <= x < 0x100

  datatype Option<T> = None | Some(value: T)

  /** Truncation to 32 bits: what storing an integer into a `uint32_t` does. */
  function Wrap(x: int): Word {
    x % TWO32
  }

  /** 32-bit unsigned addition, `a + b` on two `uint32_t`. */
  function Add(a: Word, b: Word): Word {
    Wrap(a + b)
  }

  /** 32-bit unsigned subtraction, `a - b` on two `uint32_t`. */
  function Sub(a: Word, b: Word): Word {
    Wrap(a - b)
  }

  function Pow2(n: nat): (r: nat)
    ensures r > 0
  {
    if n == 0 then 1 else 2 * Pow2(n - 1)
  }

  lemma {:induction false} Pow2Add(m: nat, n: nat)
    ensures Pow2(m + n) == Pow2(m) * Pow2(n)
  {
    if m > 0 {
      Pow2Add(m - 1, n);
    }
  }

  lemma Pow2Constants()
    ensures Pow2(8) == 0x100 && Pow2(16) == TWO16 && Pow2(32) == TWO32
  {
    assert Pow2(4) == 16;
    Pow2Add(4, 4);
    Pow2Add(8, 8);
    Pow2Add(16, 16);
  }

  /** Two complementary powers of two make 2^32. */
  lemma Pow2Complement(n: nat)
    requires n <= 32
    ensures Pow2(n) * Pow2(32 - n) == TWO32
  {
    Pow2Constants();
    Pow2Add(n, 32 - n);
  }

  /** The two's-complement reading of a word, the cast `(int32_t)x`. */
  function Signed(x: Word): (r: int)
    ensures -0x8000_0000 <= r < 0x8000_0000
    ensures Wrap(r) == x
    ensures r < 0 <==> x / 0x8000_0000 == 1
  {
    if x < 0x8000_0000 then x else x - TWO32
  }

  // ---------------------------------------------------------------------
  // Instruction fields (bits 31-26, 25-21, 20-16, 15-11, 10-6, 5-0, 15-0)
  // ---------------------------------------------------------------------

  /** The opcode, bits 31-26. */
  function Opcode(ir: Word): (r: nat)
    ensures r < 64
  {
    ir / 0x400_0000
  }

  /** The first source register, bits 25-21. */
  function Rs(ir: Word): (r: nat)
    ensures r < 32
  {
    ir / 0x20_0000 % 32
  }

  /** The second source (or immediate-format target) register, bits 20-16. */
  function Rt(ir: Word): (r: nat)
    ensures r < 32
  {
    ir / 0x1_0000 % 32
  }

  /** The register-format destination, bits 15-11. */
  function Rd(ir: Word): (r: nat)
    ensures r < 32
  {
    ir / 0x800 % 32
  }

  /** The shift amount, bits 10-6. */
  function Shamt(ir: Word): (r: nat)
    ensures r < 32
  {
    ir / 0x40 % 32
  }

  /** The function field, bits 5-0. */
  function Funct(ir: Word): (r: nat)
    ensures r < 64
  {
    ir % 0x40
  }

  /** The immediate field, bits 15-0. */
  function Imm16(ir: Word): (r: nat)
    ensures r < TWO16
  {
    ir % TWO16
  }

  /** The word of a register-format instruction with the given fields. */
  function EncodeR(op: nat, rs: nat, rt: nat, rd: nat, sa: nat, funct: nat): (ir: Word)
    requires op < 64 && rs < 32 && rt < 32 && rd < 32 && sa < 32 && funct < 64
  {
    op * 0x400_0000 + rs * 0x20_0000 + rt * 0x1_0000 + rd * 0x800 + sa * 0x40 + funct
  }

  /** The word of an immediate-format instruction with the given fields. */
  function EncodeI(op: nat, rs: nat, rt: nat, imm: nat): (ir: Word)
    requires op < 64 && rs < 32 && rt < 32 && imm < TWO16
  {
    op * 0x400_0000 + rs * 0x20_0000 + rt * 0x1_0000 + imm
  }

  /** Decoding the fields of an encoded register-format word gives them back. */
  lemma DecodeEncodeR(op: nat, rs: nat, rt: nat, rd: nat, sa: nat, funct: nat)
    requires op < 64 && rs < 32 && rt < 32 && rd < 32 && sa < 32 && funct < 64
    ensures var ir := EncodeR(op, rs, rt, rd, sa, funct);
      Opcode(ir) == op && Rs(ir) == rs && Rt(ir) == rt && Rd(ir) == rd
      && Shamt(ir) == sa && Funct(ir) == funct
  {
    var ir := EncodeR(op, rs, rt, rd, sa, funct);
    var low := sa * 0x40 + funct;
    var mid := rt * 0x20 + rd;
    assert ir == (op * 0x20 + rs) * 0x20_0000 + mid * 0x800 + low;
    DivModSplit(ir, 0x40, (((op * 0x20 + rs) * 0x20 + rt) * 0x20 + rd) * 0x20 + sa, funct);
    DivModSplit(ir / 0x40, 32, ((op * 0x20 + rs) * 0x20 + rt) * 0x20 + rd, sa);
    DivModSplit(ir, 0x800, ((op * 0x20 + rs) * 0x20 + rt) * 0x20 + rd, low);
    DivModSplit(ir / 0x800, 32, (op * 0x20 + rs) * 0x20 + rt, rd);
    DivModSplit(ir, 0x1_0000, (op * 0x20 + rs) * 0x20 + rt, rd * 0x800 + low);
    DivModSplit(ir / 0x1_0000, 32, op * 0x20 + rs, rt);
    DivModSplit(ir, 0x20_0000, op * 0x20 + rs, mid * 0x800 + low);
    DivModSplit(ir / 0x20_0000, 32, op, rs);
    DivModSplit(ir, 0x400_0000, op, rs * 0x20_0000 + mid * 0x800 + low);
  }

  /** The fields of any word, re-encoded, give the word back. */
  lemma EncodeDecodeR(ir: Word)
    ensures EncodeR(Opcode(ir), Rs(ir), Rt(ir), Rd(ir), Shamt(ir), Funct(ir)) == ir
  {
    DivDiv(ir, 0x40, 32);
    DivDiv(ir, 0x800, 32);
    DivDiv(ir, 0x1_0000, 32);
    DivDiv(ir, 0x20_0000, 32);
    var a, b, c, d, e := ir / 0x40, ir / 0x800, ir / 0x1_0000, ir / 0x20_0000, ir / 0x400_0000;
    assert ir == a * 0x40 + Funct(ir);
    assert a == b * 32 + Shamt(ir);
    assert b == c * 32 + Rd(ir);
    assert c == d * 32 + Rt(ir);
    assert d == e * 32 + Rs(ir);
    assert e == Opcode(ir);
  }

  /** `x == q * d + r` with `0 <= r < d` determines `x / d` and `x % d`. */
  lemma DivModSplit(x: int, d: int, q: int, r: int)
    requires d > 0 && 0 <= r < d && x == q * d + r
    ensures x / d == q && x % d == r
  {
    var q', r' := x / d, x % d;
    assert q' * d + r' == q * d + r;
    assert (q' - q) * d == r - r' by {
      assert q' * d - q * d == (q' - q) * d;
    }
    if q' > q {
      MulAtLeast(q' - q, d);
    } else if q' < q {
      MulAtLeast(q - q', d);
    }
  }

  lemma MulAtLeast(k: int, d: int)
    requires k >= 1 && d > 0
    ensures k * d >= d
  {
    assert k * d == (k - 1) * d + d;
  }

  lemma MulLe(a: int, b: int, c: int)
    requires a <= b && c >= 0
    ensures a * c <= b * c
  {
    assert b * c - a * c == (b - a) * c;
  }

  lemma MulLtCancel(a: int, b: int, c: int)
    requires c > 0 && a * c < b * c
    ensures a < b
  {
  }

  lemma DivBound(x: nat, p: nat, q: nat)
    requires p > 0 && q > 0 && x < p * q
    ensures x / p < q
  {
    assert x / p * p <= x;
    assert x / p * p < q * p;
    MulLtCancel(x / p, q, p);
  }

  lemma DivAtMost(x: nat, y: nat)
    requires y > 0
    ensures x / y <= x
  {
    MulLe(1, y, x / y);
    assert x / y * y <= x;
  }

  /** Adding a multiple of the modulus does not change a remainder. */
  lemma ModAddMultiple(x: int, k: int, m: int)
    requires m > 0
    ensures (x + k * m) % m == x % m
  {
    assert x + k * m == (x / m + k) * m + x % m by {
      assert (x / m + k) * m == x / m * m + k * m;
    }
    DivModSplit(x + k * m, m, x / m + k, x % m);
  }

  /** Dividing twice is dividing by the product. */
  lemma DivDiv(x: nat, d: nat, e: nat)
    requires d > 0 && e > 0
    ensures x / d / e == x / (d * e)
  {
    var q := x / d / e;
    var r := x / d % e;
    var s := x % d;
    assert x / d == q * e + r;
    assert x == (q * e + r) * d + s;
    assert x == q * (d * e) + (r * d + s);
    assert r * d + s < d * e by {
      assert r <= e - 1;
      assert r * d <= (e - 1) * d;
    }
    DivModSplit(x, d * e, q, r * d + s);
  }

  // ---------------------------------------------------------------------
  // Sign extension
  // ---------------------------------------------------------------------

  /**
   * Sign extension of the low 16 bits of a word: ID adds 0xFFFF0000 when
   * bit 15 is set, SLTI ors it in, and LH extends the loaded word the same
   * way; all three are this map.
   * The low 16 bits are kept; the upper 16 bits are all ones exactly when
   * bit 15 is set and all zeros otherwise.
   */
  function SignExtend16(x: Word): (r: Word)
    ensures r % TWO16 == x % TWO16
    ensures r / TWO16 == if x / 0x8000 % 2 == 1 then 0xFFFF else 0
    ensures Signed(r) == if x / 0x8000 % 2 == 1 then x % TWO16 - TWO16 else x % TWO16
  {
    var low := x % TWO16;
    if low >= 0x8000 then 0xFFFF_0000 + low else low
  }

  /**
   * Sign extension of the low byte of a loaded word (LB): ones in bits
   * 31-8 when bit 7 is set, zeros otherwise.
   * The low 8 bits are kept; the upper 24 bits are all ones exactly when bit 7
   * is set and all zeros otherwise.
   */
  function SignExtend8(x: Word): (r: Word)
    ensures r % 0x100 == x % 0x100
    ensures r / 0x100 == if x / 0x80 % 2 == 1 then 0xFF_FFFF else 0
    ensures Signed(r) == if x / 0x80 % 2 == 1 then x % 0x100 - 0x100 else x % 0x100
  {
    var low := x % 0x100;
    if low >= 0x80 then 0xFFFF_FF00 + low else low
  }

  /** Extending an already extended value changes nothing (EX re-extends the latched immediate). */
  lemma {:induction false} SignExtend16Idempotent(x: Word)
    ensures SignExtend16(SignExtend16(x)) == SignExtend16(x)
  {
  }
}
