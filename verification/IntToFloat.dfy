/** Integer to binary32 conversion (floatsisf.c, floatunsisf.c) with the branchless leading-zero
    count of clzsi2.c, against round-to-nearest, ties-to-even (section 4.3.1 of IEEE 754-2008). */
module IntToFloat {
  import opened Bits
  import opened UnsignedDivide

  const SIGNIFICAND_BITS := 23
  const EXPONENT_BIAS := 127
  const IMPLICIT_BIT: u32 := 0x80_0000
  const SIGN_BIT: u32 := 0x8000_0000
  const INFINITY: u32 := 0x7F80_0000

  // ---- binary32 values ----

  /** The value of a non-negative finite bit pattern, in units of the least subnormal 2^-149. */
  function Value(p: nat): int {
    var e, f := p / 0x80_0000, p % 0x80_0000;
    if e == 0 then f else (0x80_0000 + f) * Pow2(e - 1)
  }

  /** An integer in the same units. */
  function Units(x: nat): int {
    x * Pow2(149)
  }

  function Distance(x: int, y: int): nat {
    if x < y then y - x else x - y
  }

  /** `p` is the finite binary32 nearest to `x`; of two equally near ones, the one with an even significand. */
  ghost predicate RoundsTo(x: int, p: u32) {
    && p < INFINITY
    && forall r: nat | r < INFINITY && r != p ::
         Distance(Value(p), x) < Distance(Value(r), x) ||
         (Distance(Value(p), x) == Distance(Value(r), x) && p % 2 == 0)
  }

  /** Consecutive patterns are consecutive values: the gap above `p` is its unit in the last place. */
  lemma {:induction false} ValueStep(p: nat)
    ensures Value(p + 1) == Value(p) + Pow2(if p / 0x80_0000 == 0 then 0 else p / 0x80_0000 - 1)
  {
    var e, f := p / 0x80_0000, p % 0x80_0000;
    if f == 0x7F_FFFF {
      ModUnique(p + 1, 0x80_0000, e + 1, 0);
      if e > 0 {
        Pow2Succ(e - 1);
      }
    } else {
      ModUnique(p + 1, 0x80_0000, e, f + 1);
    }
  }

  lemma {:induction false} ValueMonotone(p: nat, q: nat)
    requires p < q
    ensures Value(p) < Value(q)
    decreases q
  {
    hide Value;
    ValueStep(q - 1);
    if p < q - 1 {
      ValueMonotone(p, q - 1);
    }
  }

  /** Rounding is a function: no integer or real has two nearest patterns with the tie rule. */
  lemma {:induction false} RoundsUnique(x: int, p: u32, q: u32)
    requires RoundsTo(x, p) && RoundsTo(x, q)
    ensures p == q
  {
    hide Value;
    if p != q {
      var lo, hi := if p < q then p else q, if p < q then q else p;
      assert Distance(Value(p), x) == Distance(Value(q), x) && p % 2 == 0 && q % 2 == 0;
      assert lo + 1 < hi;
      ValueMonotone(lo, lo + 1);
      ValueMonotone(lo + 1, hi);
    }
  }

  /** Rounding is monotone. */
  lemma {:induction false} RoundsMonotone(x: int, y: int, p: u32, q: u32)
    requires x <= y && RoundsTo(x, p) && RoundsTo(y, q)
    ensures p <= q
  {
    hide Value;
    if q < p {
      ValueMonotone(q, p);
      assert Distance(Value(p), x) <= Distance(Value(q), x);
      assert Distance(Value(q), y) <= Distance(Value(p), y);
      assert x == y;
      RoundsUnique(x, p, q);
    }
  }

  /** A value between two neighbours rounds to the nearer one, or to the even one from the middle. */
  lemma {:induction false} RoundsBetween(x: int, p: u32, up: bool)
    requires p + 1 < INFINITY && Value(p) <= x < Value(p + 1)
    requires up ==> x - Value(p) > Value(p + 1) - x || (x - Value(p) == Value(p + 1) - x && p % 2 == 1)
    requires !up ==> x - Value(p) < Value(p + 1) - x || (x - Value(p) == Value(p + 1) - x && p % 2 == 0)
    ensures RoundsTo(x, if up then p + 1 else p)
  {
    hide Value;
    var n := if up then p + 1 else p;
    forall r: nat | r < INFINITY && r != n
      ensures Distance(Value(n), x) < Distance(Value(r), x) ||
              (Distance(Value(n), x) == Distance(Value(r), x) && n % 2 == 0)
    {
      if r < p {
        ValueMonotone(r, p);
      } else if r > p + 1 {
        ValueMonotone(p + 1, r);
      }
    }
  }

  lemma {:induction false} RoundsExact(x: int, p: u32)
    requires p < INFINITY && Value(p) == x
    ensures RoundsTo(x, p)
  {
    hide Value;
    forall r: nat | r < INFINITY && r != p
      ensures Distance(Value(p), x) < Distance(Value(r), x)
    {
      if r < p {
        ValueMonotone(r, p);
      } else {
        ValueMonotone(p, r);
      }
    }
  }

  // ---- the leading-zero count ----

  /** Masking the bits from s up tests whether a word reaches 2^s. */
  lemma {:induction false} AndHigh(x: nat, n: nat, s: nat)
    requires x < Pow2(n + s)
    ensures And(x, Shl(Pow2(n) - 1, s)) == Shl(Shr(x, s), s)
    decreases s
  {
    hide And;
    if s == 0 {
      AndMask(x, n);
      ModUnique(x, Pow2(n), 0, x);
    } else {
      AndStep(x, Shl(Pow2(n) - 1, s));
      AndHigh(x / 2, n, s - 1);
    }
  }

  lemma {:induction false} ShiftZero(x: nat, s: nat)
    ensures (Shl(Shr(x, s), s) == 0) == (x < Pow2(s))
    decreases s
  {
    if s > 0 {
      ShiftZero(x / 2, s - 1);
      ShlDouble(Shr(x, s), s);
    }
  }

  lemma {:induction false} ShlDouble(x: nat, s: nat)
    requires s > 0
    ensures Shl(x, s) == 2 * Shl(x, s - 1)
  {
  }

  lemma {:induction false} BitLenShr(x: nat, s: nat)
    requires Pow2(s) <= x
    ensures BitLen(x) == s + BitLen(Shr(x, s)) && Shr(x, s) > 0
    decreases s
  {
    hide Pow2;
    if s > 0 {
      Pow2Succ(s - 1);
      BitLenShr(x / 2, s - 1);
    } else {
      PowZero();
    }
  }

  /** One halving of `__clzsi2`: the mask of the upper half of 2 * s bits decides. */
  method Halve(x: u32, mask: u32, s: nat) returns (t: nat, y: u32)
    requires s == 16 || s == 8 || s == 4 || s == 2
    requires 0 < x < Pow2(2 * s) && mask == Shl(Pow2(s) - 1, s)
    ensures t == 0 || t == s
    ensures 0 < y < Pow2(s)
    ensures 2 * s - BitLen(x) == t + (s - BitLen(y))
  {
    hide And, Shl, Shr, BitLen, Pow2;
    Pow2Add(s, s);
    AndHigh(x, s, s);
    ShiftZero(x, s);
    t := if And(x, mask) == 0 then s else 0;
    y := Shr32(x, s - t);
    if t == 0 {
      BitLenShr(x, s);
      ShrIsDiv(x, s);
      DivBound(x, Pow2(s), Pow2(s));
    } else {
      ShrIsDiv(x, 0);
      PowZero();
    }
  }

  lemma {:induction false} ClzMasks()
    ensures Shl(Pow2(16) - 1, 16) == 0xFFFF_0000 && Shl(Pow2(8) - 1, 8) == 0xFF00
    ensures Shl(Pow2(4) - 1, 4) == 0xF0 && Shl(Pow2(2) - 1, 2) == 0xC
    ensures Pow2(2) == 4 && Pow2(4) == 16
  {
    Widths();
    assert Pow2(2) == 4 && Pow2(4) == 16;
    ShlIsMul(Pow2(16) - 1, 16);
    ShlIsMul(Pow2(8) - 1, 8);
  }

  /** The branchless end of the count: what is left is 1, 2 or 3. */
  lemma {:induction false} LastTwoBits(x: u32)
    requires 0 < x < 4
    ensures And32(Sub32(2, x), if And32(x, 2) == 0 then 0xFFFF_FFFF else 0) == 2 - BitLen(x)
  {
    Widths();
    AndMask(1, 32);
    AndWithZero(Sub32(2, x));
    assert x == 1 || x == 2 || x == 3;
    assert And(1, 2) == 0 && And(2, 2) == 2 && And(3, 2) == 2;
    assert BitLen(1) == 1 && BitLen(2) == 2 && BitLen(3) == 2;
  }

  /** `__clzsi2`: the number of leading zeros of a non-zero word. */
  method Clzsi2(a: u32) returns (r: nat)
    requires a != 0
    ensures r == Clz32(a)
  {
    hide Shl, BitLen, Pow2, And32, Sub32;
    ClzMasks();
    Widths();
    var t, x := Halve(a, 0xFFFF_0000, 16);
    r := t;
    t, x := Halve(x, 0xFF00, 8);
    r := r + t;
    t, x := Halve(x, 0xF0, 4);
    r := r + t;
    t, x := Halve(x, 0xC, 2);
    r := r + t;
    LastTwoBits(x);
    r := r + And32(Sub32(2, x), if And32(x, 2) == 0 then 0xFFFF_FFFF else 0);
  }

  // ---- the conversions ----

  /** The pattern with exponent `e` and the 24-bit significand `q`, as the code assembles it. */
  function Assemble(q: nat, e: nat): int {
    q - 0x80_0000 + (e + 127) * 0x80_0000
  }

  lemma {:induction false} AssembledValue(q: nat, e: nat)
    requires 0x80_0000 <= q < 0x100_0000
    ensures 0 <= Assemble(q, e) && Value(Assemble(q, e)) == q * Pow2(e + 126)
    ensures Assemble(q, e) % 2 == q % 2
    ensures Value(Assemble(q, e) + 1) == (q + 1) * Pow2(e + 126)
  {
    hide Pow2, Value;
    var p := Assemble(q, e);
    ModUnique(p, 0x80_0000, e + 127, q - 0x80_0000);
    ValueOf(p, e + 127, q - 0x80_0000);
    ValueAbove(p, e + 127);
    MulSucc(q, Pow2(e + 126));
    SameParity(q, e + 127);
  }

  /** The value of a normal pattern with exponent field `e` and fraction field `f`. */
  lemma {:induction false} ValueOf(p: nat, e: nat, f: nat)
    requires e > 0 && p / 0x80_0000 == e && p % 0x80_0000 == f
    ensures Value(p) == (0x80_0000 + f) * Pow2(e - 1)
  {
    hide Pow2;
  }

  lemma {:induction false} ValueAbove(p: nat, e: nat)
    requires e > 0 && p / 0x80_0000 == e
    ensures Value(p + 1) == Value(p) + Pow2(e - 1)
  {
    hide Value, Pow2;
    ValueStep(p);
  }

  lemma {:induction false} SameParity(q: int, e: nat)
    ensures (q - 0x80_0000 + e * 0x80_0000) % 2 == q % 2
  {
  }

  lemma {:induction false} MulSucc(q: int, x: int)
    ensures (q + 1) * x == q * x + x
  {
  }

  /** Clearing the implicit bit of a 24-bit significand. */
  lemma {:induction false} ClearImplicit(q: nat)
    requires 0x80_0000 <= q < 0x100_0000
    ensures Xor(q, IMPLICIT_BIT) == q - 0x80_0000
  {
    hide Pow2, Xor;
    Power23();
    XorTop(q, 23);
  }

  lemma {:induction false} XorTop(q: nat, n: nat)
    requires Pow2(n) <= q < 2 * Pow2(n)
    ensures Xor(q, Pow2(n)) == q - Pow2(n)
    decreases n
  {
    hide Xor;
    XorStep(q, Pow2(n));
    if n == 0 {
      XorSelf(0);
    } else {
      XorTop(q / 2, n - 1);
    }
  }

  lemma {:induction false} XorSelf(x: nat)
    ensures Xor(0, x) == x
  {
  }

  /** The rounding decision on the bits shifted out, aligned to the top of a word. */
  lemma {:induction false} RoundBits(a: u32, shift: nat)
    requires 0 < shift < 32
    ensures var rem, half, round := a % Pow2(shift), Pow2(shift - 1), Shl32(a, 32 - shift);
            (round > SIGN_BIT <==> rem > half) && (round == SIGN_BIT <==> rem == half)
  {
    hide Pow2, Shl32;
    Widths();
    ShlSplit(a, shift);
    Pow2Add(shift - 1, 32 - shift);
    Pow2Succ(shift - 1);
    ScaleOrder(a % Pow2(shift), Pow2(shift - 1), Pow2(32 - shift));
  }

  lemma {:induction false} ScaleOrder(x: nat, y: nat, k: nat)
    requires k > 0
    ensures (x * k > y * k <==> x > y) && (x * k == y * k <==> x == y)
  {
    if x < y {
      MulBounds(x, y, k);
    } else if y < x {
      MulBounds(y, x, k);
    }
  }

  /** Shifting out all but 24 digits leaves a full significand. */
  lemma {:induction false} Significand(a: u32, exponent: nat)
    requires 23 < exponent < 32 && Pow2(exponent) <= a < Pow2(exponent + 1)
    ensures var s := exponent - 23;
            0x80_0000 <= Shr(a, s) < 0x100_0000 && a == Pow2(s) * Shr(a, s) + a % Pow2(s)
  {
    hide Pow2, Shr;
    var s := exponent - 23;
    ShrIsDiv(a, s);
    var p, q := Pow2(s), a / Pow2(s);
    Power23();
    Pow2Add(s, 23);
    Pow2Succ(exponent);
    assert a == p * q + a % p;
    if q < 0x80_0000 {
      MulBounds(q, 0x80_0000, p);
    }
    DivBound(a, p, 0x100_0000);
  }

  lemma {:induction false} Power23()
    ensures Pow2(23) == 0x80_0000
  {
    Widths();
    Pow2Add(8, 15);
  }

  /** In units of the least subnormal: the significand times its last place, and what is shifted out. */
  lemma {:induction false} Scaled(a: u32, exponent: nat)
    requires 23 < exponent < 32 && Pow2(exponent) <= a < Pow2(exponent + 1)
    ensures var s := exponent - 23;
            var half, rem, k := Pow2(s - 1), a % Pow2(s), Pow2(149);
            && Pow2(exponent + 126) == 2 * (half * k)
            && Units(a) == Shr(a, s) * (2 * (half * k)) + rem * k
            && rem < 2 * half
  {
    hide Pow2, Shr;
    var s := exponent - 23;
    var p, q, rem, k := Pow2(s), Shr(a, s), a % Pow2(s), Pow2(149);
    Significand(a, exponent);
    Pow2Succ(s - 1);
    Pow2Add(s, 149);
    Distribute(p, q, rem, k);
    HalfScale(Pow2(s - 1), k, q);
  }

  lemma {:induction false} HalfScale(half: int, k: int, q: int)
    ensures (2 * half) * k == 2 * (half * k) && ((2 * half) * k) * q == q * (2 * (half * k))
  {
  }

  /** `__floatunsisf`: the binary32 nearest to `a`, ties to even. */
  method FloatUnsiSf(a: u32) returns (bits: u32)
    ensures RoundsTo(Units(a), bits)
    ensures a <= 0x100_0000 ==> Value(bits) == Units(a)
  {
    hide Pow2, Shl32, Shr, Shr32, BitLen, Value, Xor, RoundsTo, Units, And;
    if a == 0 {
      ZeroIsExact();
      return 0;
    }
    var clz := Clzsi2(a);
    var exponent := 31 - clz;
    ClzBounds(a);
    if exponent <= SIGNIFICAND_BITS {
      bits := ExactBits(a, exponent);
    } else {
      bits := RoundedBits(a, exponent);
    }
  }

  lemma {:induction false} ZeroIsExact()
    ensures RoundsTo(Units(0), 0) && Value(0) == Units(0)
  {
    RoundsExact(0, 0);
  }

  /** Small values are shifted up; nothing is lost. */
  method ExactBits(a: u32, exponent: nat) returns (bits: u32)
    requires exponent <= 23 && Pow2(exponent) <= a < Pow2(exponent + 1)
    ensures RoundsTo(Units(a), bits) && Value(bits) == Units(a)
  {
    hide Pow2, Shl32, Value, Xor, RoundsTo;
    var shift := SIGNIFICAND_BITS - exponent;
    ghost var q := a * Pow2(shift);
    UpShift(a, exponent);
    bits := Xor32(Shl32(a, shift), IMPLICIT_BIT);
    ClearImplicit(q);
    bits := (bits + (exponent + EXPONENT_BIAS) * 0x80_0000) % W32;
    ModUnique(Assemble(q, exponent), W32, 0, Assemble(q, exponent));
    AssembledValue(q, exponent);
    RoundsExact(Units(a), bits);
  }

  function Xor32(a: u32, b: u32): u32 {
    Widths();
    XorBound(a, b, 32);
    Xor(a, b)
  }

  lemma {:induction false} UpShift(a: u32, exponent: nat)
    requires exponent <= 23 && Pow2(exponent) <= a < Pow2(exponent + 1)
    ensures var q := a * Pow2(23 - exponent);
            0x80_0000 <= q < 0x100_0000 && Shl32(a, 23 - exponent) == q && q * Pow2(exponent + 126) == Units(a)
  {
    hide Pow2, Shl;
    var k := Pow2(23 - exponent);
    Power23();
    Pow2Add(exponent, 23 - exponent);
    Pow2Add(exponent + 1, 23 - exponent);
    Pow2Succ(23);
    MulLe(k, Pow2(exponent), a);
    MulBounds(a, Pow2(exponent + 1), k);
    ShlIsMul(a, 23 - exponent);
    ModUnique(a * k, W32, 0, a * k);
    Pow2Add(23 - exponent, exponent + 126);
    MulAssoc(a, k, Pow2(exponent + 126));
  }

  /** The two conditional increments. */
  method RoundUp(a: u32, shift: nat, significand: u32) returns (result: u32)
    requires 0 < shift < 32 && significand < 0x80_0000
    ensures var rem, half := a % Pow2(shift), Pow2(shift - 1);
            result == significand + if rem > half || (rem == half && significand % 2 == 1) then 1 else 0
  {
    hide Pow2, Shl32, And32;
    result := significand;
    var round := Shl32(a, 32 - shift);
    RoundBits(a, shift);
    if round > SIGN_BIT {
      result := (result + 1) % W32;
    }
    if round == SIGN_BIT {
      AndOne(result);
      result := (result + And32(result, 1)) % W32;
    }
  }

  /** The shifted word without its implicit bit. */
  lemma {:induction false} Fraction(a: u32, exponent: nat)
    requires 23 < exponent < 32 && Pow2(exponent) <= a < Pow2(exponent + 1)
    ensures var q := Shr(a, exponent - 23);
            0x80_0000 <= q < 0x100_0000 && Xor32(Shr32(a, exponent - 23), IMPLICIT_BIT) == q - 0x80_0000
  {
    hide Pow2, Shr, Xor;
    Significand(a, exponent);
    ClearImplicit(Shr(a, exponent - 23));
  }

  /** The exponent field added to a rounded significand; the sum fits into 32 bits. */
  function WithExponent(result: nat, exponent: nat): (bits: u32)
    requires result <= 0x80_0000 && exponent < 32
    ensures bits == result + (exponent + EXPONENT_BIAS) * 0x80_0000
  {
    (result + (exponent + EXPONENT_BIAS) * 0x80_0000) % W32
  }

  /** Large values are shifted down and rounded; the carry may run into the exponent. */
  method RoundedBits(a: u32, exponent: nat) returns (bits: u32)
    requires 23 < exponent < 32 && Pow2(exponent) <= a < Pow2(exponent + 1)
    ensures RoundsTo(Units(a), bits)
    ensures a <= 0x100_0000 ==> Value(bits) == Units(a)
  {
    hide Pow2, Shr, Value, Xor, RoundsTo, Units, Xor32, Shr32;
    var shift := exponent - SIGNIFICAND_BITS;
    ghost var q := Shr(a, shift);
    Fraction(a, exponent);
    var result := RoundUp(a, shift, Xor32(Shr32(a, shift), IMPLICIT_BIT));
    bits := WithExponent(result, exponent);
    RoundedNearest(a, exponent, q, a % Pow2(shift), Pow2(shift - 1), bits);
  }

  lemma {:induction false} AndOne(x: u32)
    ensures And32(x, 1) == x % 2
  {
    PowZero();
    AndMask(x, 1);
  }

  /** The neighbours of a value between two patterns, and the distances to them. */
  lemma {:induction false} RoundedNearest(a: u32, exponent: nat, q: nat, rem: nat, half: nat, bits: u32)
    requires 23 < exponent < 32 && Pow2(exponent) <= a < Pow2(exponent + 1)
    requires q == Shr(a, exponent - 23) && rem == a % Pow2(exponent - 23) && half == Pow2(exponent - 24)
    requires bits == Assemble(q, exponent) + if rem > half || (rem == half && q % 2 == 1) then 1 else 0
    ensures RoundsTo(Units(a), bits)
    ensures a <= 0x100_0000 ==> Value(bits) == Units(a)
  {
    hide Pow2, Shr, Value, Units, RoundsTo, Assemble;
    Significand(a, exponent);
    Scaled(a, exponent);
    AssembledValue(q, exponent);
    AssembledRange(q, exponent);
    Between(Assemble(q, exponent), Units(a), q, rem, half, Pow2(149));
    if a <= 0x100_0000 {
      OnlyPower(a, exponent);
    }
  }

  lemma {:induction false} AssembledRange(q: nat, exponent: nat)
    requires 0x80_0000 <= q < 0x100_0000 && exponent < 32
    ensures 0 <= Assemble(q, exponent) < INFINITY - 1
  {
  }

  lemma {:induction false} Between(p: nat, x: int, q: nat, rem: nat, half: nat, k: nat)
    requires p + 1 < INFINITY && rem < 2 * half && k > 0 && p % 2 == q % 2
    requires x == q * (2 * (half * k)) + rem * k
    requires Value(p) == q * (2 * (half * k)) && Value(p + 1) == (q + 1) * (2 * (half * k))
    ensures RoundsTo(x, p + if rem > half || (rem == half && q % 2 == 1) then 1 else 0)
    ensures rem == 0 ==> Value(p) == x
  {
    hide Value, RoundsTo;
    var u := half * k;
    ScaleOrder(rem, half, k);
    MulBounds(rem, 2 * half, k);
    HalfScale(half, k, q);
    MulSucc(q, 2 * u);
    RoundsBetween(x, p, rem > half || (rem == half && q % 2 == 1));
  }

  /** The only value up to 2^24 that needs more than 24 digits is 2^24 itself. */
  lemma {:induction false} OnlyPower(a: u32, exponent: nat)
    requires 23 < exponent < 32 && Pow2(exponent) <= a <= 0x100_0000
    ensures exponent == 24 && a == 0x100_0000 && a % Pow2(exponent - 23) == 0
  {
    assert Pow2(24) == 0x100_0000 by { Widths(); Pow2Add(16, 8); }
    if exponent > 24 {
      Pow2Mono(25, exponent);
    }
    PowZero();
  }

  /** The binary32 pattern of a signed integer: its sign, and its magnitude rounded to nearest, ties to even. */
  ghost predicate IsFloatOf(a: int, bits: u32) {
    && RoundsTo(Units(if a < 0 then -a else a), bits % SIGN_BIT)
    && bits / SIGN_BIT == if a < 0 then 1 else 0
  }

  ghost function SignedValue(bits: u32): int {
    if bits / SIGN_BIT == 1 then -Value(bits % SIGN_BIT) else Value(bits % SIGN_BIT)
  }

  /** Conversion is monotone, across zero too. */
  lemma {:induction false} SignedMonotone(a: int, b: int, x: u32, y: u32)
    requires a <= b && IsFloatOf(a, x) && IsFloatOf(b, y)
    ensures SignedValue(x) <= SignedValue(y)
  {
    hide Value, RoundsTo, Units;
    var p, q := x % SIGN_BIT, y % SIGN_BIT;
    ValueNonNegative(p);
    ValueNonNegative(q);
    if a >= 0 {
      UnitsMonotone(a, b);
      MagnitudeOrder(Units(a), Units(b), p, q);
    } else if b < 0 {
      UnitsMonotone(-b, -a);
      MagnitudeOrder(Units(-b), Units(-a), q, p);
    }
  }

  lemma {:induction false} MagnitudeOrder(x: int, y: int, p: u32, q: u32)
    requires x <= y && RoundsTo(x, p) && RoundsTo(y, q)
    ensures Value(p) <= Value(q)
  {
    hide Value, RoundsTo;
    RoundsMonotone(x, y, p, q);
    if p < q {
      ValueMonotone(p, q);
    }
  }

  lemma {:induction false} UnitsMonotone(x: nat, y: nat)
    requires x <= y
    ensures Units(x) <= Units(y)
  {
    hide Pow2;
    MulLe(Pow2(149), x, y);
  }

  lemma {:induction false} ValueNonNegative(p: nat)
    ensures Value(p) >= 0
  {
    hide Value;
    if p > 0 {
      ValueMonotone(0, p);
    }
    ZeroValue();
  }

  lemma {:induction false} ZeroValue()
    ensures Value(0) == 0
  {
  }

  /** `__floatsisf`: the sign bit, and the magnitude rounded to nearest, ties to even. */
  method FloatSiSf(a: int) returns (bits: u32)
    requires -0x8000_0000 <= a < 0x8000_0000
    ensures IsFloatOf(a, bits)
    ensures -0x100_0000 <= a <= 0x100_0000 ==> Value(bits % SIGN_BIT) == Units(if a < 0 then -a else a)
  {
    hide Pow2, Value, RoundsTo, Units, BitLen, Or32, Sub32, Clz32;
    if a == 0 {
      ZeroIsExact();
      return 0;
    }
    SignedMagnitude(a);
    var sign: u32 := 0;
    var aAbs: u32 := a % W32;
    if a < 0 {
      sign := SIGN_BIT;
      aAbs := Sub32(0, aAbs);
    }
    var clz := Clzsi2(aAbs);
    var exponent := 31 - clz;
    ClzBounds(aAbs);
    var result;
    if exponent <= SIGNIFICAND_BITS {
      result := ExactBits(aAbs, exponent);
    } else {
      result := RoundedBits(aAbs, exponent);
    }
    FinitePattern(Units(aAbs), result);
    SignBit(result, sign);
    bits := Or32(result, sign);
  }

  lemma {:induction false} SignedMagnitude(a: int)
    requires -0x8000_0000 <= a < 0x8000_0000 && a != 0
    ensures a < 0 ==> Sub32(0, a % W32) == -a
    ensures a > 0 ==> a % W32 == a
  {
    if a < 0 {
      ModUnique(a, W32, -1, a + W32);
      ModUnique(-(a + W32), W32, -1, -a);
    }
  }

  lemma {:induction false} FinitePattern(x: int, p: u32)
    requires RoundsTo(x, p)
    ensures p < SIGN_BIT
  {
  }

  lemma {:induction false} SignBit(p: u32, sign: u32)
    requires p < SIGN_BIT && (sign == 0 || sign == SIGN_BIT)
    ensures Or32(p, sign) == p + sign
  {
    hide Pow2, Or;
    Widths();
    OrCommutes(p, sign);
    if sign == SIGN_BIT {
      OrIsAdd(1, p, 31);
    } else {
      OrZero(p);
    }
  }

  lemma {:induction false} OrCommutes(a: nat, b: nat)
    ensures Or(a, b) == Or(b, a)
    decreases a
  {
    hide Or;
    OrStep(a, b);
    OrStep(b, a);
    if a > 0 {
      OrCommutes(a / 2, b / 2);
    } else {
      OrZero(b);
      ZeroOr(b);
    }
  }

  lemma {:induction false} ZeroOr(b: nat)
    ensures Or(0, b) == b
  {
  }
}
