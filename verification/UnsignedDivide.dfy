/** 64-bit unsigned division on 32-bit halves: the normalised restoring divider of udivmoddi4.c. */
module UnsignedDivide {
  import opened Bits

  const W32 := 0x1_0000_0000
  const W64 := 0x1_0000_0000_0000_0000

  // ---- C's operators on uint32_t ----

  function Shl32(x: u32, s: nat): u32
    requires s < 32
  {
    Shl(x, s) % W32
  }

  function Shr32(x: u32, s: nat): (r: u32)
    requires s < 32
    ensures r <= x
  {
    ShrLe(x, s);
    Shr(x, s)
  }

  lemma {:induction false} ShrLe(x: nat, s: nat)
    ensures Shr(x, s) <= x
    decreases s
  {
    if s > 0 {
      ShrLe(x / 2, s - 1);
    }
  }

  function Or32(a: u32, b: u32): u32 {
    Widths();
    OrBound(a, b, 32);
    Or(a, b)
  }

  function And32(a: u32, b: u32): u32 {
    And(a, b)
  }

  function Sub32(a: u32, b: u32): u32 {
    (a - b) % W32
  }

  function Make64(hi: u32, lo: u32): u64 {
    hi * W32 + lo
  }

  /** The number of binary digits of `x`. */
  function BitLen(x: nat): (n: nat)
    ensures x < Pow2(n) && (x > 0 ==> n > 0 && Pow2(n - 1) <= x)
  {
    if x == 0 then 0 else 1 + BitLen(x / 2)
  }

  /** Leading zeros of a non-zero word (`__builtin_clzl`). */
  function Clz32(x: u32): (n: nat)
    requires x > 0
    ensures n < 32
  {
    Widths();
    BitLenBound(x, 32);
    32 - BitLen(x)
  }

  lemma {:induction false} BitLenBound(x: nat, n: nat)
    requires x < Pow2(n)
    ensures BitLen(x) <= n
  {
    if BitLen(x) > n {
      Pow2Mono(n, BitLen(x) - 1);
    }
  }

  /** Trailing zeros of a non-zero word (`__builtin_ctzl`). */
  function Ctz32(x: nat): (n: nat)
    requires x > 0
    decreases x
  {
    if x % 2 == 1 then 0 else 1 + Ctz32(x / 2)
  }

  /** The test `x & (x - 1) == 0` recognises powers of two, and ctz is the exponent. */
  lemma {:induction false} PowerOfTwo(x: nat)
    requires x > 0
    ensures And(x, x - 1) == 0 <==> x == Pow2(Ctz32(x))
    decreases x
  {
    hide And;
    AndStep(x, x - 1);
    var y := x / 2;
    if x % 2 == 1 {
      assert x == 2 * y + 1 && (x - 1) / 2 == y;
      AndSelf(y);
    } else {
      assert x == 2 * y && (x - 1) / 2 == y - 1 && (x - 1) % 2 == 1;
      PowerOfTwo(y);
      assert Pow2(Ctz32(x)) == 2 * Pow2(Ctz32(y));
    }
  }

  lemma {:induction false} AndSelf(x: nat)
    ensures And(x, x) == x
  {
    if x > 0 {
      AndSelf(x / 2);
    }
  }

  // ---- shifting ----

  // Arithmetic steps, on plain integers.

  lemma {:induction false} Distribute(p: int, h: int, l: int, k: int)
    ensures (p * h + l) * k == (p * k) * h + l * k
  {
  }

  lemma {:induction false} MulBounds(l: nat, p: nat, k: nat)
    requires l < p && k > 0
    ensures 0 <= l * k && l * k + k <= p * k
  {
    MulLe(k, l + 1, p);
  }

  lemma {:induction false} DivBound(x: nat, p: nat, k: nat)
    requires p > 0 && x < p * k
    ensures x / p < k
  {
    if x / p >= k {
      MulLe(p, k, x / p);
    }
  }

  /** Modulo w == p * k, multiplying by k keeps the part below p. */
  lemma {:induction false} KeepLow(x: nat, p: nat, k: nat, w: nat)
    requires p > 0 && k > 0 && p * k == w
    ensures (x * k) % w == (x % p) * k && 0 <= (x % p) * k < w
  {
    var h, l := x / p, x % p;
    assert x == p * h + l;
    Distribute(p, h, l, k);
    MulBounds(l, p, k);
    ModUnique(x * k, w, h, l * k);
  }

  /** Dividing hi:lo by p, digit by digit. */
  lemma {:induction false} DivideSplit(hi: nat, lo: nat, p: nat, k: nat)
    requires p > 0 && k > 0 && p * k == W32
    ensures (hi * W32 + lo) / p == (hi / p) * W32 + ((hi % p) * k + lo / p)
    ensures (hi * W32 + lo) % p == lo % p
  {
    var a, b, c, d := hi / p, hi % p, lo / p, lo % p;
    var q := a * W32 + (b * k + c);
    assert hi == p * a + b && lo == p * c + d;
    assert p * (b * k) == b * W32;
    assert p * q == p * (a * W32) + p * (b * k) + p * c;
    ModUnique(hi * W32 + lo, p, q, d);
  }

  /** Dividing hi:lo by p * 2^32, and moving what is left to the top. */
  lemma {:induction false} DivideFar(hi: u32, lo: u32, p: nat, k: nat)
    requires p > 0 && k > 0 && p * k == W32
    ensures (hi * W32 + lo) / (W32 * p) == hi / p
    ensures ((hi * W32 + lo) % (W32 * p)) * k == ((hi % p) * k + lo / p) * W32 + (lo % p) * k
  {
    var a, b, c, d := hi / p, hi % p, lo / p, lo % p;
    assert hi == p * a + b && lo == p * c + d;
    var r := b * W32 + lo;
    assert r < W32 * p by { MulBounds(b, p, W32); }
    assert hi * W32 + lo == (W32 * p) * a + r by { Distribute(p, a, b, W32); }
    ModUnique(hi * W32 + lo, W32 * p, a, r);
    FarIdentity(b, c, d, p, k);
  }

  lemma {:induction false} FarIdentity(b: int, c: int, d: int, p: int, k: int)
    requires p * k == W32
    ensures (b * W32 + (p * c + d)) * k == (b * k + c) * W32 + d * k
  {
    Distribute(p, c, d, k);
  }

  /** A left shift keeps the low digits and moves them to the top. */
  lemma {:induction false} ShlSplit(x: u32, s: nat)
    requires 0 < s < 32
    ensures Shl32(x, 32 - s) == (x % Pow2(s)) * Pow2(32 - s)
  {
    hide Pow2, Shl;
    Widths();
    Pow2Add(s, 32 - s);
    ShlIsMul(x, 32 - s);
    KeepLow(x, Pow2(s), Pow2(32 - s), W32);
  }

  /** The funnel shift of the pair hi:lo moves digits across the word boundary. */
  lemma {:induction false} FunnelWordValue(hi: u32, lo: u32, s: nat)
    requires 0 < s < 32
    ensures Or32(Shl32(hi, 32 - s), Shr32(lo, s)) == (hi % Pow2(s)) * Pow2(32 - s) + lo / Pow2(s)
  {
    hide Pow2, Shl32, Or;
    Widths();
    Pow2Add(s, 32 - s);
    ShlSplit(hi, s);
    ShrIsDiv(lo, s);
    DivBound(lo, Pow2(s), Pow2(32 - s));
    OrIsAdd(hi % Pow2(s), Shr(lo, s), 32 - s);
  }

  /** The funnel shift of the pair hi:lo, right by s and the rest left to the top, for 0 < s < 32. */
  lemma {:induction false} Funnel(hi: u32, lo: u32, s: nat)
    requires 0 < s < 32
    ensures Make64(Shr32(hi, s), Or32(Shl32(hi, 32 - s), Shr32(lo, s))) == Make64(hi, lo) / Pow2(s)
    ensures Make64(Shl32(lo, 32 - s), 0) == (Make64(hi, lo) % Pow2(s)) * Pow2(64 - s)
  {
    hide Pow2, Shl32, Or32;
    Widths();
    Pow2Add(s, 32 - s);
    Pow2Add(32, 32 - s);
    FunnelWordValue(hi, lo, s);
    ShlSplit(lo, s);
    ShrIsDiv(hi, s);
    DivideSplit(hi, lo, Pow2(s), Pow2(32 - s));
    Distribute(1, 0, lo % Pow2(s), Pow2(64 - s));
    MulAssoc(lo % Pow2(s), Pow2(32 - s), W32);
  }

  lemma {:induction false} MulAssoc(x: int, y: int, z: int)
    ensures (x * y) * z == x * (z * y)
  {
  }

  /** The same for shifts by 32 + t. */
  lemma {:induction false} FunnelFar(hi: u32, lo: u32, t: nat)
    requires 0 < t < 32
    ensures Make64(0, Shr32(hi, t)) == Make64(hi, lo) / Pow2(32 + t)
    ensures Make64(Or32(Shl32(hi, 32 - t), Shr32(lo, t)), Shl32(lo, 32 - t)) ==
            (Make64(hi, lo) % Pow2(32 + t)) * Pow2(32 - t)
  {
    hide Pow2, Shl32, Or32;
    Widths();
    Pow2Add(t, 32 - t);
    Pow2Add(32, t);
    FunnelWordValue(hi, lo, t);
    ShlSplit(lo, t);
    ShrIsDiv(hi, t);
    DivideFar(hi, lo, Pow2(t), Pow2(32 - t));
  }

  /** Exactly one word. */
  lemma {:induction false} FunnelWord(hi: u32, lo: u32)
    ensures Make64(0, hi) == Make64(hi, lo) / Pow2(32)
    ensures Make64(lo, 0) == (Make64(hi, lo) % Pow2(32)) * Pow2(32)
  {
    Widths();
    ModUnique(Make64(hi, lo), W32, hi, lo);
  }

  // ---- the shift-subtract loop ----

  const H32 := 0x8000_0000

  lemma {:induction false} TopOfWord(x: u32)
    ensures x / H32 < 2 && 2 * x == W32 * (x / H32) + 2 * (x % H32)
    ensures (2 * x) % W32 == 2 * (x % H32)
  {
    ModUnique(2 * x, W32, x / H32, 2 * (x % H32));
  }

  /** Shift one bit into a word. */
  lemma {:induction false} ShiftIn(x: u32, bit: nat)
    requires bit < 2
    ensures Or32(Shl32(x, 1), bit) == 2 * (x % H32) + bit
    ensures Shr32(x, 31) == x / H32
  {
    hide Or, Shr, Pow2;
    Widths();
    TopOfWord(x);
    ShlIsMul(x, 1);
    Pow2Succ(0);
    PowZero();
    OrIsAdd(x % H32, bit, 1);
    ShrIsDiv(x, 31);
  }

  lemma {:induction false} PowZero()
    ensures Pow2(0) == 1 && Pow2(1) == 2
  {
  }

  lemma {:induction false} PairTop(hi: u32, lo: u32)
    ensures Make64(hi, lo) / (W64 / 2) == hi / H32
    ensures (2 * Make64(hi, lo)) % W64 == (2 * (hi % H32)) * W32 + 2 * lo
  {
    TopOfWord(hi);
    ModUnique(Make64(hi, lo), W64 / 2, hi / H32, (hi % H32) * W32 + lo);
    ModUnique(2 * Make64(hi, lo), W64, hi / H32, (2 * (hi % H32)) * W32 + 2 * lo);
  }

  /** Shift one bit into a pair of words; the top bit falls out. */
  lemma {:induction false} ShiftPair(hi: u32, lo: u32, bit: nat)
    requires bit < 2
    ensures Shr32(lo, 31) < 2 && Shr32(hi, 31) == Make64(hi, lo) / (W64 / 2) < 2
    ensures Make64(Or32(Shl32(hi, 1), Shr32(lo, 31)), Or32(Shl32(lo, 1), bit)) == (2 * Make64(hi, lo)) % W64 + bit
  {
    hide Or32, Shl32, Shr32;
    ShiftIn(lo, bit);
    TopOfWord(lo);
    TopOfWord(hi);
    ShiftIn(hi, lo / H32);
    PairTop(hi, lo);
  }

  /** The bits of `a` above the last `s`. */
  function Prefix(a: nat, s: nat): nat {
    Shr(a, s)
  }

  /** The last `s` bits of `a`, at the top of a 64-bit register. */
  function Pending(a: nat, s: nat): int
    requires s <= 64
  {
    (a % Pow2(s)) * Pow2(64 - s)
  }

  function Times(x: nat, y: nat): int {
    x * y
  }

  /** The state of the loop with `s` bits of `a` still to come: the remainder register holds the
      remainder of the bits consumed so far, and the quotient register holds the bits to come at
      the top and the quotient so far at the bottom, except its last bit, which is in `carry`. */
  ghost predicate Dividing(a: u64, b: u64, s: nat, quotient: nat, r: u64, q: u64, carry: nat)
    requires s < 64
  {
    && r < b
    && Prefix(a, s) == Times(quotient, b) + r
    && quotient / 2 < Pow2(64 - s)
    && carry == quotient % 2
    && q == Pending(a, s) + quotient / 2
  }

  /** One more bit of the dividend moves from the quotient register to the remainder. */
  lemma {:induction false} NextBit(a: u64, s: nat, quotient: nat, q: u64)
    requires 0 < s < 64 && quotient / 2 < Pow2(64 - s)
    requires q == Pending(a, s) + quotient / 2
    ensures Prefix(a, s - 1) == 2 * Prefix(a, s) + q / (W64 / 2)
    ensures (2 * q) % W64 + quotient % 2 == Pending(a, s - 1) + quotient
  {
    hide Pow2, Shr;
    Widths();
    Pow2Succ(s - 1);
    Pow2Succ(64 - s);
    Pow2Add(s - 1, 64 - s);
    ShrIsDiv(a, s);
    ShrIsDiv(a, s - 1);
    TopBit(a, Pow2(s - 1), Pow2(64 - s), quotient / 2, q);
  }

  lemma {:induction false} TopBit(a: nat, p: nat, k: nat, low: nat, q: nat)
    requires p > 0 && p * k == W64 / 2 && low < k
    requires q == (a % (2 * p)) * k + low
    ensures a / p == 2 * (a / (2 * p)) + q / (W64 / 2)
    ensures (2 * q) % W64 == (a % p) * (2 * k) + 2 * low
  {
    HalfDivisor(a, p);
    TopOfRegister(a % (2 * p), p, k, low, q);
  }

  lemma {:induction false} HalfDivisor(a: nat, p: nat)
    requires p > 0
    ensures a / p == 2 * (a / (2 * p)) + (a % (2 * p)) / p
    ensures a % p == (a % (2 * p)) % p
  {
    var big, rest := a / (2 * p), a % (2 * p);
    var t, l := rest / p, rest % p;
    assert a == (2 * p) * big + rest;
    assert rest == p * t + l;
    TwoStep(p, big, t, l);
    ModUnique(a, p, 2 * big + t, l);
  }

  lemma {:induction false} TopOfRegister(rest: nat, p: nat, k: nat, low: nat, q: nat)
    requires p > 0 && p * k == W64 / 2 && low < k && rest < 2 * p
    requires q == rest * k + low
    ensures rest / p == q / (W64 / 2)
    ensures (2 * q) % W64 == (rest % p) * (2 * k) + 2 * low
  {
    var t, l := rest / p, rest % p;
    assert rest == p * t + l;
    DivBound(rest, p, 2);
    Distribute(p, t, l, k);
    MulBounds(l, p, k);
    Double(l, k);
    RegisterTop(q, t, l * k + low);
  }

  lemma {:induction false} RegisterTop(q: nat, t: nat, low: nat)
    requires t < 2 && low < W64 / 2 && q == (W64 / 2) * t + low
    ensures q / (W64 / 2) == t && (2 * q) % W64 == 2 * low
  {
    ModUnique(q, W64 / 2, t, low);
    ModUnique(2 * q, W64, t, 2 * low);
  }

  lemma {:induction false} TwoStep(p: int, big: int, t: int, l: int)
    ensures (2 * p) * big + (p * t + l) == p * (2 * big + t) + l
  {
  }

  lemma {:induction false} Double(l: int, k: int)
    ensures l * (2 * k) == 2 * (l * k)
  {
  }

  /** The shifted partial remainder stays within 64 bits: it is part of a prefix of the dividend. */
  lemma {:induction false} PartialFits(a: u64, s: nat, quotient: nat, b: u64, r: u64, bit: nat)
    requires 0 < s < 64 && Prefix(a, s) == Times(quotient, b) + r
    requires Prefix(a, s - 1) == 2 * Prefix(a, s) + bit
    ensures 2 * r + bit <= Prefix(a, s - 1) <= a
  {
    ShrLe(a, s - 1);
    MulLe(b, 0, quotient);
  }

  /** One pass keeps the loop state: shift one bit in, compare, subtract, remember the new quotient bit. */
  lemma {:induction false} KeepDividing(a: u64, b: u64, s: nat, quotient: nat, r: u64, q: u64, carry: nat,
                     shifted: nat, r': u64, q': u64, carry': nat)
    requires 0 < s < 64 && Dividing(a, b, s, quotient, r, q, carry)
    requires shifted == 2 * r + q / (W64 / 2)
    requires carry' == (if shifted >= b then 1 else 0) && r' == (if shifted >= b then shifted - b else shifted)
    requires q' == (2 * q) % W64 + carry
    ensures Dividing(a, b, s - 1, 2 * quotient + carry', r', q', carry')
  {
    hide Pow2, Prefix, Pending, Times;
    NextBit(a, s, quotient, q);
    QuotientStep(quotient, b, carry');
    Pow2Succ(64 - s);
    assert q / (W64 / 2) < 2;
    assert (2 * quotient + carry') / 2 < Pow2(65 - s);
  }

  lemma {:induction false} QuotientStep(quotient: nat, b: nat, carry: nat)
    requires carry < 2
    ensures Times(2 * quotient + carry, b) == 2 * Times(quotient, b) + (if carry == 1 then b else 0)
    ensures (2 * quotient + carry) / 2 == quotient && (2 * quotient + carry) % 2 == carry
  {
  }

  /** Shifts the pair of registers by one: the top quotient bit enters the remainder, the carry
      enters the quotient. */
  method ShiftRegisters(rHi0: u32, rLo0: u32, qHi0: u32, qLo0: u32, carry: u32)
    returns (rHi: u32, rLo: u32, qHi: u32, qLo: u32)
    requires carry < 2
    requires 2 * Make64(rHi0, rLo0) + Make64(qHi0, qLo0) / (W64 / 2) < W64
    ensures Make64(rHi, rLo) == 2 * Make64(rHi0, rLo0) + Make64(qHi0, qLo0) / (W64 / 2)
    ensures Make64(qHi, qLo) == (2 * Make64(qHi0, qLo0)) % W64 + carry
  {
    hide Shl32, Shr32, Or32, Make64;
    ShiftPair(qHi0, qLo0, carry);
    ShiftPair(rHi0, rLo0, Make64(qHi0, qLo0) / (W64 / 2));
    ModUnique(2 * Make64(rHi0, rLo0), W64, 0, 2 * Make64(rHi0, rLo0));
    rHi := Or32(Shl32(rHi0, 1), Shr32(rLo0, 31));
    rLo := Or32(Shl32(rLo0, 1), Shr32(qHi0, 31));
    qHi := Or32(Shl32(qHi0, 1), Shr32(qLo0, 31));
    qLo := Or32(Shl32(qLo0, 1), carry);
  }

  /** Subtracts the divisor if it fits, with the borrow computed by hand from the low words. */
  method SubtractIfFits(rHi0: u32, rLo0: u32, dHi: u32, dLo: u32) returns (rHi: u32, rLo: u32, carry: u32)
    ensures var r, d := Make64(rHi0, rLo0), Make64(dHi, dLo);
            carry == (if r >= d then 1 else 0) && Make64(rHi, rLo) == if r >= d then r - d else r
  {
    rHi, rLo := rHi0, rLo0;
    if rHi > dHi || (rHi == dHi && rLo >= dLo) {
      var newLo := Sub32(rLo, dLo);
      var borrow := if newLo > rLo then 1 else 0;
      rHi := (rHi - dHi - borrow) % W32;
      rLo := newLo;
      carry := 1;
    } else {
      carry := 0;
    }
  }

  /** The loop, from the registers that normalisation prepared. */
  method ShiftSubtract(ghost a: u64, dHi: u32, dLo: u32, start: nat, qHi0: u32, qLo0: u32, rHi0: u32, rLo0: u32)
    returns (q: u64, rem: u64)
    requires 0 < start < 64
    requires Make64(rHi0, rLo0) == Prefix(a, start) < Make64(dHi, dLo)
    requires Make64(qHi0, qLo0) == Pending(a, start)
    ensures a == Times(q, Make64(dHi, dLo)) + rem && rem < Make64(dHi, dLo)
  {
    hide Pow2, Make64, Prefix, Pending, Times, Or32, Shl32, Shr32;
    ghost var b := Make64(dHi, dLo);
    var qHi: u32, qLo: u32, rHi: u32, rLo: u32 := qHi0, qLo0, rHi0, rLo0;
    var sr := start;
    var carry: u32 := 0;
    ghost var quotient: nat := 0;
    LoopStart(a, start, b, Make64(rHi, rLo), Make64(qHi, qLo));
    while sr > 0
      invariant sr < 64
      invariant Dividing(a, b, sr, quotient, Make64(rHi, rLo), Make64(qHi, qLo), carry)
    {
      ghost var r0, q0, carry0 := Make64(rHi, rLo), Make64(qHi, qLo), carry;
      NextBit(a, sr, quotient, q0);
      PartialFits(a, sr, quotient, b, r0, q0 / (W64 / 2));
      rHi, rLo, qHi, qLo := ShiftRegisters(rHi, rLo, qHi, qLo, carry);
      ghost var shifted := Make64(rHi, rLo);
      rHi, rLo, carry := SubtractIfFits(rHi, rLo, dHi, dLo);
      KeepDividing(a, b, sr, quotient, r0, q0, carry0, shifted, Make64(rHi, rLo), Make64(qHi, qLo), carry);
      quotient := 2 * quotient + carry;
      sr := sr - 1;
    }
    LoopEnd(a, quotient, b, Make64(rHi, rLo), Make64(qHi, qLo), carry);
    ShiftPair(qHi, qLo, carry);
    q := Make64(Or32(Shl32(qHi, 1), Shr32(qLo, 31)), Or32(Shl32(qLo, 1), carry));
    rem := Make64(rHi, rLo);
  }

  lemma {:induction false} LoopStart(a: u64, s: nat, b: u64, r: u64, q: u64)
    requires 0 < s < 64 && r == Prefix(a, s) < b && q == Pending(a, s)
    ensures Dividing(a, b, s, 0, r, q, 0)
  {
    hide Prefix, Pending;
    assert Times(0, b) == 0;
  }

  /** When all bits are consumed, shifting the carry in completes the quotient. */
  lemma {:induction false} LoopEnd(a: u64, quotient: nat, b: u64, r: u64, q: u64, carry: nat)
    requires Dividing(a, b, 0, quotient, r, q, carry)
    ensures a == Times(quotient, b) + r && r < b && (2 * q) % W64 + carry == quotient
  {
    hide Times, Pending, Pow2;
    TimesGrows(quotient, b);
    NothingPending(a);
    ModUnique(2 * q, W64, 0, 2 * q);
  }

  lemma {:induction false} TimesGrows(x: nat, y: nat)
    requires y > 0
    ensures Times(x, y) >= x
  {
    MulLe(x, 1, y);
  }

  lemma {:induction false} NothingPending(a: nat)
    ensures Pending(a, 0) == 0
  {
    assert a % Pow2(0) == 0;
  }

  // ---- normalisation and the special cases ----

  /** Enough leading bits are shifted away for the first partial remainder to be below the divisor. */
  lemma {:induction false} StartsBelow(a: u64, b: u64, m: nat, s: nat, k: nat)
    requires a < Pow2(m) && m == s + k && Pow2(k) <= b
    ensures Prefix(a, s) < b
  {
    hide Pow2;
    Pow2Add(s, k);
    ShrIsDiv(a, s);
    DivBound(a, Pow2(s), Pow2(k));
  }

  lemma {:induction false} PairBound(hi: u32, lo: u32, n: nat)
    requires hi < Pow2(n)
    ensures Make64(hi, lo) < Pow2(n + 32)
  {
    Widths();
    Pow2Add(n, 32);
    MulLe(W32, hi, Pow2(n) - 1);
  }

  lemma {:induction false} PairAtLeast(hi: u32, lo: u32, n: nat)
    requires Pow2(n) <= hi
    ensures Pow2(n + 32) <= Make64(hi, lo)
  {
    Widths();
    Pow2Add(n, 32);
    MulLe(W32, Pow2(n), hi);
  }

  /** More leading zeros mean a smaller number. */
  lemma {:induction false} ClzOrder(x: u32, y: u32)
    requires x > 0 && y > 0 && Clz32(x) > Clz32(y)
    ensures x < y
  {
    Pow2Mono(BitLen(x), BitLen(y) - 1);
  }

  /** Dividing by 2^c * 2^32. */
  lemma {:induction false} PowerHigh(nHi: u32, nLo: u32, dHi: u32)
    requires dHi > 0 && And32(dHi, dHi - 1) == 0
    ensures Ctz32(dHi) < 32
    ensures var q, rem := Shr32(nHi, Ctz32(dHi)), Make64(And32(nHi, dHi - 1), nLo);
            Make64(nHi, nLo) == Times(q, Make64(dHi, 0)) + rem && rem < Make64(dHi, 0)
  {
    hide Pow2, Shr, And, Times;
    PowerExponent(dHi);
    var c := Ctz32(dHi);
    AndMask(nHi, c);
    ShrIsDiv(nHi, c);
    DivideWord(nHi, nLo, dHi);
  }

  /** Dividing by a multiple of 2^32 only looks at the high word. */
  lemma {:induction false} DivideWord(nHi: u32, nLo: u32, dHi: u32)
    requires dHi > 0
    ensures Make64(nHi, nLo) == Times(nHi / dHi, Make64(dHi, 0)) + Make64(nHi % dHi, nLo)
    ensures Make64(nHi % dHi, nLo) < Make64(dHi, 0)
  {
    var q, r := nHi / dHi, nHi % dHi;
    assert nHi == dHi * q + r;
    Distribute(dHi, q, r, W32);
    MulAssoc(q, W32, dHi);
  }

  lemma {:induction false} PowerExponent(d: u32)
    requires d > 0 && And(d, d - 1) == 0
    ensures d == Pow2(Ctz32(d)) && Ctz32(d) < 32
  {
    PowerOfTwo(d);
    Widths();
    if Ctz32(d) >= 32 {
      Pow2Mono(32, Ctz32(d));
    }
  }

  /** Dividing by 2^c, 0 < c < 32. */
  lemma {:induction false} PowerLow(nHi: u32, nLo: u32, dLo: u32)
    requires dLo > 1 && And32(dLo, dLo - 1) == 0
    ensures 0 < Ctz32(dLo) < 32
    ensures var c := Ctz32(dLo);
            var q := Make64(Shr32(nHi, c), Or32(Shl32(nHi, 32 - c), Shr32(nLo, c)));
            Make64(nHi, nLo) == Times(q, dLo) + And32(nLo, dLo - 1) && And32(nLo, dLo - 1) < dLo
  {
    hide Pow2, Shr, And, Make64, Or32, Shl32, Shr32;
    PowerExponent(dLo);
    PowZero();
    var c := Ctz32(dLo);
    Funnel(nHi, nLo, c);
    AndMask(nLo, c);
    ShrIsDiv(Make64(nHi, nLo), c);
    LowRemainder(nHi, nLo, c);
  }

  lemma {:induction false} LowRemainder(hi: u32, lo: u32, c: nat)
    requires 0 < c < 32
    ensures Make64(hi, lo) == Times(Shr(Make64(hi, lo), c), Pow2(c)) + lo % Pow2(c)
  {
    hide Pow2, Shr;
    ShrIsDiv(Make64(hi, lo), c);
    Widths();
    Pow2Add(c, 32 - c);
    DivideSplit(hi, lo, Pow2(c), Pow2(32 - c));
  }

  lemma {:induction false} ClzBounds(x: u32)
    requires x > 0
    ensures Pow2(31 - Clz32(x)) <= x < Pow2(32 - Clz32(x))
  {
  }

  /** A high divisor word of 2^31 or less that is not a power of two has a second bit. */
  lemma {:induction false} ClzNotPower(x: u32)
    requires x > 0 && And32(x, x - 1) != 0
    ensures Clz32(x) <= 30
  {
    ClzBounds(x);
    PowZero();
    AndWithZero(x);
  }

  /** The two paths for divisors of 33 bits and more: 1 <= sr <= 32. */
  method NearShift(nHi: u32, nLo: u32, dHi: u32, dLo: u32, sr: nat) returns (q: u64, rem: u64)
    requires nHi > 0 && dHi > 0 && 1 <= sr <= 32 && sr == 1 + Clz32(dHi) - Clz32(nHi)
    ensures Make64(nHi, nLo) == Times(q, Make64(dHi, dLo)) + rem && rem < Make64(dHi, dLo)
  {
    hide Pow2, Make64, Clz32, Or32, Shl32, Shr32, Shr, Times;
    ghost var a, b := Make64(nHi, nLo), Make64(dHi, dLo);
    ClzBounds(nHi);
    ClzBounds(dHi);
    PairBound(nHi, nLo, 32 - Clz32(nHi));
    PairAtLeast(dHi, dLo, 31 - Clz32(dHi));
    StartsBelow(a, b, 64 - Clz32(nHi), sr, 63 - Clz32(dHi));
    ShrIsDiv(a, sr);
    if sr == 32 {
      FunnelWord(nHi, nLo);
      q, rem := ShiftSubtract(a, dHi, dLo, sr, nLo, 0, 0, nHi);
    } else {
      Funnel(nHi, nLo, sr);
      q, rem := ShiftSubtract(a, dHi, dLo, sr, Shl32(nLo, 32 - sr), 0,
                              Shr32(nHi, sr), Or32(Shl32(nHi, 32 - sr), Shr32(nLo, sr)));
    }
  }

  /** The paths for 32-bit divisors of a dividend above 32 bits. */
  method DivideByWord(nHi: u32, nLo: u32, dLo: u32) returns (q: u64, rem: u64)
    requires nHi > 0 && dLo > 0
    ensures Make64(nHi, nLo) == Times(q, dLo) + rem && rem < dLo
  {
    hide Pow2, Make64, Clz32, Ctz32, Or32, Shl32, Shr32, And32, Shr, Times;
    ghost var a := Make64(nHi, nLo);
    if And32(dLo, dLo - 1) == 0 {
      rem := And32(nLo, dLo - 1);
      if dLo == 1 {
        TimesOne(a);
        AndWithZero(nLo);
        return Make64(nHi, nLo), rem;
      }
      PowerLow(nHi, nLo, dLo);
      var sr := Ctz32(dLo);
      q := Make64(Shr32(nHi, sr), Or32(Shl32(nHi, 32 - sr), Shr32(nLo, sr)));
      return;
    }
    ClzNotPower(dLo);
    var sr := (1 + 32 + Clz32(dLo) - Clz32(nHi)) % 0x1_0000;
    ClzBounds(nHi);
    ClzBounds(dLo);
    PairBound(nHi, nLo, 32 - Clz32(nHi));
    StartsBelow(a, dLo, 64 - Clz32(nHi), sr, 31 - Clz32(dLo));
    ShrIsDiv(a, sr);
    LowWord(dLo);
    if sr == 32 {
      FunnelWord(nHi, nLo);
      q, rem := ShiftSubtract(a, 0, dLo, sr, nLo, 0, 0, nHi);
    } else if sr < 32 {
      Funnel(nHi, nLo, sr);
      q, rem := ShiftSubtract(a, 0, dLo, sr, Shl32(nLo, 32 - sr), 0,
                              Shr32(nHi, sr), Or32(Shl32(nHi, 32 - sr), Shr32(nLo, sr)));
    } else {
      FunnelFar(nHi, nLo, sr - 32);
      q, rem := ShiftSubtract(a, 0, dLo, sr, Or32(Shl32(nHi, 64 - sr), Shr32(nLo, sr - 32)), Shl32(nLo, 64 - sr),
                              0, Shr32(nHi, sr - 32));
    }
  }

  lemma {:induction false} TimesOne(x: nat)
    ensures Times(x, 1) == x
  {
  }

  lemma {:induction false} AndWithZero(x: u32)
    ensures And32(x, 0) == 0
  {
  }

  lemma {:induction false} LowWord(x: u32)
    ensures Make64(0, x) == x
  {
  }

  lemma {:induction false} Halves(a: u64)
    ensures a == Make64(a / W32, a % W32)
  {
  }

  lemma {:induction false} DivideSmall(n: nat, d: nat)
    requires d > 0
    ensures n == Times(n / d, d) + n % d
  {
  }

  lemma {:induction false} DivideNone(n: nat, d: nat)
    ensures n == Times(0, d) + n
  {
  }

  /** All the paths, in the order of the code. */
  method DivideHalves(nHi: u32, nLo: u32, dHi: u32, dLo: u32) returns (q: u64, rem: u64)
    requires dHi != 0 || dLo != 0
    ensures Make64(nHi, nLo) == Times(q, Make64(dHi, dLo)) + rem && rem < Make64(dHi, dLo)
  {
    hide Pow2, Or32, Shl32, Shr32, And32, Clz32, Ctz32, BitLen, Times;
    if nHi == 0 {
      if dHi == 0 {
        DivideSmall(nLo, dLo);
        return nLo / dLo, nLo % dLo;
      }
      DivideNone(nLo, Make64(dHi, dLo));
      return 0, nLo;
    }
    if dLo == 0 {
      if nLo == 0 {
        DivideWord(nHi, 0, dHi);
        return nHi / dHi, Make64(nHi % dHi, 0);
      }
      if And32(dHi, dHi - 1) == 0 {
        PowerHigh(nHi, nLo, dHi);
        return Shr32(nHi, Ctz32(dHi)), Make64(And32(nHi, dHi - 1), nLo);
      }
      var sr := (Clz32(dHi) - Clz32(nHi)) % 0x1_0000;
      if sr > 30 {
        ClzNotPower(dHi);
        ClzOrder(nHi, dHi);
        DivideNone(Make64(nHi, nLo), Make64(dHi, dLo));
        return 0, Make64(nHi, nLo);
      }
      q, rem := NearShift(nHi, nLo, dHi, dLo, sr + 1);
    } else if dHi == 0 {
      q, rem := DivideByWord(nHi, nLo, dLo);
    } else {
      var sr := (Clz32(dHi) - Clz32(nHi)) % 0x1_0000;
      if sr > 31 {
        ClzOrder(nHi, dHi);
        DivideNone(Make64(nHi, nLo), Make64(dHi, dLo));
        return 0, Make64(nHi, nLo);
      }
      q, rem := NearShift(nHi, nLo, dHi, dLo, sr + 1);
    }
  }

  /** `__udivmoddi4`: the quotient and remainder of Euclidean division, on every path. */
  method UDivMod(a: u64, b: u64) returns (q: u64, rem: u64)
    requires b != 0
    ensures a == q * b + rem && rem < b
    ensures q == a / b && rem == a % b
  {
    hide Make64;
    Halves(a);
    Halves(b);
    q, rem := DivideHalves(a / W32, a % W32, b / W32, b % W32);
    ModUnique(a, b, q, rem);
  }
}
