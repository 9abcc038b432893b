/** The 16-bit Galois shift register behind the random delays of main_queue.c: its period is maximal. */
module Lfsr {
  import opened Bits

  // C's operators on uint16_t, by name, so that proofs need not look at their digits.

  function Add(a: bv16, b: bv16): bv16 {
    a ^ b
  }

  function Half(a: bv16): bv16 {
    a >> 1
  }

  predicate Odd(a: bv16) {
    a & 1 == 1
  }

  const TAPS: bv16 := 0xB400

  /** `lfsr_next`. */
  function Next(state: bv16): bv16 {
    if Odd(state) then Add(Half(state), TAPS) else Half(state)
  }

  /** The state after `n` steps. */
  function Jump(s: bv16, n: nat): bv16
    decreases n
  {
    if n == 0 then s else Jump(Next(s), n - 1)
  }

  const SEED: bv16 := 0xACE1
  const PERIOD := 65535

  // ---- jumping is linear ----

  lemma {:induction false} AddAssoc(a: bv16, b: bv16, c: bv16)
    ensures Add(Add(a, b), c) == Add(a, Add(b, c))
  {
  }

  lemma {:induction false} AddSwap(a: bv16, b: bv16, c: bv16)
    ensures Add(Add(a, b), c) == Add(Add(a, c), b)
  {
  }

  lemma {:induction false} AddBack(a: bv16, b: bv16)
    ensures Add(a, Add(b, a)) == b
  {
  }

  lemma {:induction false} HalfAdd(a: bv16, b: bv16)
    ensures Half(Add(a, b)) == Add(Half(a), Half(b))
  {
  }

  lemma {:induction false} OddAdd(a: bv16, b: bv16)
    ensures Odd(Add(a, b)) == (Odd(a) != Odd(b))
  {
  }

  /** The register steps digit by digit: a step of a sum is the sum of the steps. */
  lemma {:induction false} NextAdd(a: bv16, b: bv16)
    ensures Next(Add(a, b)) == Add(Next(a), Next(b))
  {
    hide Add, Half, Odd;
    var p, q := Half(a), Half(b);
    HalfAdd(a, b);
    OddAdd(a, b);
    AddSwap(p, q, TAPS);
    AddAssoc(p, q, TAPS);
    AddAssoc(p, TAPS, Add(q, TAPS));
    AddBack(TAPS, q);
  }

  function Pick(a: bv16, mask: bv16, b: bv16): bv16 {
    if a & mask != 0 then b else 0
  }

  function Four(b: bv16): bv16 {
    Next(Next(Next(Next(b))))
  }

  /** The sum of b, Next(b), Next(Next(b)) and so on, over the four upper digits of `a`. */
  function Quad(b: bv16, a: bv16): bv16 {
    Add(Add(Pick(a, 0x8000, b), Pick(a, 0x4000, Next(b))),
        Add(Pick(a, 0x2000, Next(Next(b))), Pick(a, 0x1000, Next(Next(Next(b))))))
  }

  /** The same over all sixteen digits. */
  function Combine(b: bv16, a: bv16): bv16 {
    Add(Add(Quad(b, a), Quad(Four(b), a << 4)), Add(Quad(Four(Four(b)), a << 8), Quad(Four(Four(Four(b))), a << 12)))
  }

  lemma {:induction false} NextPick(a: bv16, mask: bv16, b: bv16)
    ensures Next(Pick(a, mask, b)) == Pick(a, mask, Next(b))
  {
  }

  lemma {:induction false} NextQuad(b: bv16, a: bv16)
    ensures Next(Quad(b, a)) == Quad(Next(b), a)
  {
    hide Add, Next, Pick;
    var t0, t1 := Pick(a, 0x8000, b), Pick(a, 0x4000, Next(b));
    var t2, t3 := Pick(a, 0x2000, Next(Next(b))), Pick(a, 0x1000, Next(Next(Next(b))));
    NextAdd(Add(t0, t1), Add(t2, t3));
    NextAdd(t0, t1);
    NextAdd(t2, t3);
    NextPick(a, 0x8000, b);
    NextPick(a, 0x4000, Next(b));
    NextPick(a, 0x2000, Next(Next(b)));
    NextPick(a, 0x1000, Next(Next(Next(b))));
  }

  lemma {:induction false} NextCombine(b: bv16, a: bv16)
    ensures Next(Combine(b, a)) == Combine(Next(b), a)
  {
    hide Add, Next, Quad;
    var q0, q1 := Quad(b, a), Quad(Four(b), a << 4);
    var q2, q3 := Quad(Four(Four(b)), a << 8), Quad(Four(Four(Four(b))), a << 12);
    NextAdd(Add(q0, q1), Add(q2, q3));
    NextAdd(q0, q1);
    NextAdd(q2, q3);
    NextQuad(b, a);
    NextQuad(Four(b), a << 4);
    NextQuad(Four(Four(b)), a << 8);
    NextQuad(Four(Four(Four(b))), a << 12);
  }

  lemma {:induction false} JumpCombine(b: bv16, a: bv16, n: nat)
    ensures Jump(Combine(b, a), n) == Combine(Jump(b, n), a)
    decreases n
  {
    hide Next, Combine;
    if n > 0 {
      NextCombine(b, a);
      JumpCombine(Next(b), a, n - 1);
    }
  }

  lemma {:induction false} JumpAdd(s: bv16, m: nat, n: nat)
    ensures Jump(s, m + n) == Jump(Jump(s, m), n)
    decreases m
  {
    hide Next;
    if m > 0 {
      JumpAdd(Next(s), m - 1, n);
    }
  }

  function Mask(a: bv16, m: bv16): bv16 {
    a & m
  }

  lemma {:induction false} MaskAdd(a: bv16, m: bv16, n: bv16)
    requires m & n == 0
    ensures Add(Mask(a, m), Mask(a, n)) == Mask(a, m | n)
  {
  }

  lemma {:induction false} Pick00(a: bv16)
    ensures Pick(a, 0x8000, 0x8000) == Mask(a, 0x8000)
  {
  }

  lemma {:induction false} Pick01(a: bv16)
    ensures Pick(a, 0x4000, 0x4000) == Mask(a, 0x4000)
  {
  }

  lemma {:induction false} Pick02(a: bv16)
    ensures Pick(a, 0x2000, 0x2000) == Mask(a, 0x2000)
  {
  }

  lemma {:induction false} Pick03(a: bv16)
    ensures Pick(a, 0x1000, 0x1000) == Mask(a, 0x1000)
  {
  }

  lemma {:induction false} QuadDigits0(a: bv16)
    ensures Quad(0x8000, a) == Mask(a, 0xF000)
  {
    hide Pick, Mask, Add;
    Pick00(a);
    Pick01(a);
    Pick02(a);
    Pick03(a);
    MaskAdd(a, 0x8000, 0x4000);
    MaskAdd(a, 0x2000, 0x1000);
    MaskAdd(a, 0xC000, 0x3000);
  }

  lemma {:induction false} Pick10(a: bv16)
    ensures Pick(a << 4, 0x8000, 0x0800) == Mask(a, 0x0800)
  {
  }

  lemma {:induction false} Pick11(a: bv16)
    ensures Pick(a << 4, 0x4000, 0x0400) == Mask(a, 0x0400)
  {
  }

  lemma {:induction false} Pick12(a: bv16)
    ensures Pick(a << 4, 0x2000, 0x0200) == Mask(a, 0x0200)
  {
  }

  lemma {:induction false} Pick13(a: bv16)
    ensures Pick(a << 4, 0x1000, 0x0100) == Mask(a, 0x0100)
  {
  }

  lemma {:induction false} QuadDigits1(a: bv16)
    ensures Quad(0x0800, a << 4) == Mask(a, 0x0F00)
  {
    hide Pick, Mask, Add;
    Pick10(a);
    Pick11(a);
    Pick12(a);
    Pick13(a);
    MaskAdd(a, 0x0800, 0x0400);
    MaskAdd(a, 0x0200, 0x0100);
    MaskAdd(a, 0x0C00, 0x0300);
  }

  lemma {:induction false} Pick20(a: bv16)
    ensures Pick(a << 8, 0x8000, 0x0080) == Mask(a, 0x0080)
  {
  }

  lemma {:induction false} Pick21(a: bv16)
    ensures Pick(a << 8, 0x4000, 0x0040) == Mask(a, 0x0040)
  {
  }

  lemma {:induction false} Pick22(a: bv16)
    ensures Pick(a << 8, 0x2000, 0x0020) == Mask(a, 0x0020)
  {
  }

  lemma {:induction false} Pick23(a: bv16)
    ensures Pick(a << 8, 0x1000, 0x0010) == Mask(a, 0x0010)
  {
  }

  lemma {:induction false} QuadDigits2(a: bv16)
    ensures Quad(0x0080, a << 8) == Mask(a, 0x00F0)
  {
    hide Pick, Mask, Add;
    Pick20(a);
    Pick21(a);
    Pick22(a);
    Pick23(a);
    MaskAdd(a, 0x0080, 0x0040);
    MaskAdd(a, 0x0020, 0x0010);
    MaskAdd(a, 0x00C0, 0x0030);
  }

  lemma {:induction false} Pick30(a: bv16)
    ensures Pick(a << 12, 0x8000, 0x0008) == Mask(a, 0x0008)
  {
  }

  lemma {:induction false} Pick31(a: bv16)
    ensures Pick(a << 12, 0x4000, 0x0004) == Mask(a, 0x0004)
  {
  }

  lemma {:induction false} Pick32(a: bv16)
    ensures Pick(a << 12, 0x2000, 0x0002) == Mask(a, 0x0002)
  {
  }

  lemma {:induction false} Pick33(a: bv16)
    ensures Pick(a << 12, 0x1000, 0x0001) == Mask(a, 0x0001)
  {
  }

  lemma {:induction false} QuadDigits3(a: bv16)
    ensures Quad(0x0008, a << 12) == Mask(a, 0x000F)
  {
    hide Pick, Mask, Add;
    Pick30(a);
    Pick31(a);
    Pick32(a);
    Pick33(a);
    MaskAdd(a, 0x0008, 0x0004);
    MaskAdd(a, 0x0002, 0x0001);
    MaskAdd(a, 0x000C, 0x0003);
  }

  /** Every state is the sum of steps of the unit, one for each of its digits. */
  lemma {:induction false} CombineUnit(a: bv16)
    ensures Combine(0x8000, a) == a
  {
    hide Quad, Add, Mask, Four;
    FourSteps();
    QuadDigits0(a);
    QuadDigits1(a);
    QuadDigits2(a);
    QuadDigits3(a);
    MaskAdd(a, 0xF000, 0x0F00);
    MaskAdd(a, 0x00F0, 0x000F);
    MaskAdd(a, 0xFF00, 0x00FF);
    AllDigits(a);
  }

  lemma {:induction false} FourSteps()
    ensures Four(0x8000) == 0x0800 && Four(0x0800) == 0x0080 && Four(0x0080) == 0x0008
  {
  }

  lemma {:induction false} AllDigits(a: bv16)
    ensures Mask(a, 0xFFFF) == a
  {
  }

  /** The state that the unit reaches in `n` steps. */
  function Power(n: nat): bv16 {
    Jump(0x8000, n)
  }

  /** It tells where every state gets in `n` steps. */
  lemma {:induction false} JumpIs(s: bv16, n: nat)
    ensures Jump(s, n) == Combine(Power(n), s)
  {
    hide Jump, Combine;
    CombineUnit(s);
    JumpCombine(0x8000, s, n);
  }

  /** A sum of steps, four digits at a time. */
  lemma {:induction false} CombineIs(b: bv16, a: bv16, b4: bv16, b8: bv16, b12: bv16, q0: bv16, q1: bv16, q2: bv16,
                                     q3: bv16)
    requires Four(b) == b4 && Four(b4) == b8 && Four(b8) == b12
    requires Quad(b, a) == q0 && Quad(b4, a << 4) == q1 && Quad(b8, a << 8) == q2 && Quad(b12, a << 12) == q3
    ensures Combine(b, a) == Add(Add(q0, q1), Add(q2, q3))
  {
    hide Four, Quad, Add;
  }

  /** m + n steps from m and from n. */
  lemma {:induction false} PowerSum(m: nat, n: nat, x: bv16, y: bv16, y4: bv16, y8: bv16, y12: bv16,
                                    q0: bv16, q1: bv16, q2: bv16, q3: bv16)
    requires Power(m) == x && Power(n) == y && Four(y) == y4 && Four(y4) == y8 && Four(y8) == y12
    requires Quad(y, x) == q0 && Quad(y4, x << 4) == q1 && Quad(y8, x << 8) == q2 && Quad(y12, x << 12) == q3
    ensures Power(m + n) == Add(Add(q0, q1), Add(q2, q3))
  {
    hide Jump, Combine, Four, Quad, Add;
    JumpAdd(0x8000, m, n);
    JumpIs(x, n);
    CombineIs(y, x, y4, y8, y12, q0, q1, q2, q3);
  }

  // ---- jumps by the divisors of the period ----

  lemma {:induction false} Power1()
    ensures Power(1) == 0x4000
  {
    assert Jump(0x8000, 1) == Jump(Next(0x8000), 0);
  }

  // Jumps are composed: two steps from one and one, four from two and two, and so on.

  lemma {:induction false} PowersTo15()
    ensures Power(2) == 0x2000
    ensures Power(15) == 0x0001
  {
    hide Jump, Power, Combine;
    Power1();
    PowerSum(1, 1, 0x4000, 0x4000, 0x0400, 0x0040, 0x0004, 0x2000, 0x0000, 0x0000, 0x0000);
    PowerSum(2, 2, 0x2000, 0x2000, 0x0200, 0x0020, 0x0002, 0x0800, 0x0000, 0x0000, 0x0000);
    PowerSum(4, 1, 0x0800, 0x4000, 0x0400, 0x0040, 0x0004, 0x0000, 0x0400, 0x0000, 0x0000);
    PowerSum(5, 5, 0x0400, 0x0400, 0x0040, 0x0004, 0x5A00, 0x0000, 0x0020, 0x0000, 0x0000);
    PowerSum(10, 5, 0x0020, 0x0400, 0x0040, 0x0004, 0x5A00, 0x0000, 0x0000, 0x0001, 0x0000);
  }

  lemma {:induction false} PowersTo85()
    ensures Power(51) == 0x8EB7
    ensures Power(85) == 0xCF70
  {
    hide Jump, Power, Combine;
    PowersTo15();
    PowerSum(15, 2, 0x0001, 0x2000, 0x0200, 0x0020, 0x0002, 0x0000, 0x0000, 0x0000, 0x5A00);
    PowerSum(17, 17, 0x5A00, 0x5A00, 0x05A0, 0x005A, 0x9905, 0x2640, 0x04C8, 0x0000, 0x0000);
    PowerSum(34, 17, 0x2288, 0x5A00, 0x05A0, 0x005A, 0x9905, 0x1680, 0x0168, 0x005A, 0x9905);
    PowerSum(51, 34, 0x8EB7, 0x2288, 0xB628, 0xBF62, 0x26F6, 0x2288, 0xC0B6, 0x6956, 0x4418);
  }

  lemma {:induction false} PowersTo257()
    ensures Power(255) == 0xA300
    ensures Power(257) == 0x28C0
  {
    hide Jump, Power, Combine;
    PowersTo15();
    PowersTo85();
    PowerSum(85, 85, 0xCF70, 0xCF70, 0x0CF7, 0x614F, 0xD394, 0xA8C8, 0x912F, 0xBDDD, 0x0000);
    PowerSum(170, 85, 0x843A, 0xCF70, 0x0CF7, 0x614F, 0xD394, 0xCF70, 0xB27B, 0x397A, 0xE771);
    PowerSum(255, 2, 0xA300, 0x2000, 0x0200, 0x0020, 0x0002, 0x2800, 0x00C0, 0x0000, 0x0000);
  }

  lemma {:induction false} PowersTo3855()
    ensures Power(514) == 0x9180
    ensures Power(3855) == 0x2D35
  {
    hide Jump, Power, Combine;
    PowersTo257();
    PowerSum(257, 257, 0x28C0, 0x28C0, 0x028C, 0xEE28, 0xBAE2, 0x0A30, 0x028C, 0x993C, 0x0000);
    PowerSum(514, 514, 0x9180, 0x9180, 0x0918, 0xB491, 0x1DC9, 0x83B0, 0x0123, 0xB491, 0x0000);
    PowerSum(1028, 257, 0x3602, 0x28C0, 0x028C, 0xEE28, 0xBAE2, 0x0F28, 0x01E5, 0x0000, 0x9AB8);
    PowerSum(1285, 1285, 0x9475, 0x9475, 0x45C7, 0x65DC, 0xE85D, 0x1FFB, 0x96E3, 0x9322, 0x4425);
    PowerSum(2570, 1285, 0x5E1F, 0x9475, 0x45C7, 0x65DC, 0xE85D, 0x75B4, 0x2C55, 0xB8BB, 0xCC6F);
  }

  lemma {:induction false} PowersTo21845()
    ensures Power(13107) == 0x5F61
    ensures Power(21845) == 0x5335
  {
    hide Jump, Power, Combine;
    PowersTo3855();
    PowerSum(3855, 514, 0x2D35, 0x9180, 0x0918, 0xB491, 0x1DC9, 0x2460, 0x0CB7, 0x4CB6, 0x945D);
    PowerSum(4369, 4369, 0xF03C, 0xF03C, 0xE103, 0x3590, 0x0359, 0x1E2A, 0x0000, 0x0BD6, 0xB6F5);
    PowerSum(8738, 4369, 0xA309, 0xF03C, 0xE103, 0x3590, 0x0359, 0xCC33, 0xBD60, 0x0000, 0x2E32);
    PowerSum(13107, 8738, 0x5F61, 0xA309, 0xA8B0, 0x0A8B, 0x8F28, 0xDCE5, 0xC3D2, 0x5DE7, 0x11E5);
  }

  lemma {:induction false} PowersTo65535()
    ensures Power(65535) == 0x8000
  {
    hide Jump, Power, Combine;
    PowersTo21845();
    PowerSum(21845, 21845, 0x5335, 0x5335, 0x49B3, 0x3F1B, 0x8C71, 0x0EFC, 0x825A, 0x9125, 0xCEB6);
    PowerSum(43690, 21845, 0xD335, 0x5335, 0x49B3, 0x3F1B, 0x8C71, 0x5DC9, 0x825A, 0x9125, 0xCEB6);
  }

  /** From every state the register is back after 65535 steps. */
  lemma {:induction false} Returns(s: bv16)
    ensures Jump(s, PERIOD) == s
  {
    hide Jump, Combine, Power;
    PowersTo65535();
    JumpIs(s, PERIOD);
    CombineUnit(s);
  }

  /** From the seed it is not back after a third, a fifth, a seventeenth or a 257th of that. */
  lemma {:induction false} NotEarlier()
    ensures Jump(SEED, 21845) != SEED && Jump(SEED, 13107) != SEED
    ensures Jump(SEED, 3855) != SEED && Jump(SEED, 255) != SEED
  {
    hide Jump, Power, Combine;
    PowersTo257();
    PowersTo3855();
    PowersTo21845();
    JumpIs(SEED, 21845);
    CombineIs(0x5335, SEED, 0x49B3, 0x3F1B, 0x8C71, 0x1DF8, 0xD96A, 0x7550, 0x3C8E);
    JumpIs(SEED, 13107);
    CombineIs(0x5F61, SEED, 0x1376, 0x7637, 0x66E3, 0x12B9, 0x1ACD, 0x0AA1, 0x7BDC);
    JumpIs(SEED, 3855);
    CombineIs(0x2D35, SEED, 0x4E53, 0x3F65, 0x4F76, 0x7C78, 0xDD7A, 0xC10E, 0xE7EE);
    JumpIs(SEED, 255);
    CombineIs(0xA300, SEED, 0x0A30, 0x00A3, 0x3B8A, 0x8BC0, 0x0F28, 0x5ADA, 0x5D71);
  }

  // ---- the period ----

  predicate Prime(p: nat) {
    p > 1 && forall r | 1 < r < p :: Leaves(p, r)
  }

  predicate Leaves(p: nat, r: nat)
    requires r > 0
  {
    p % r != 0
  }

  lemma {:induction false} Primes()
    ensures Prime(3) && Prime(5) && Prime(17) && Prime(257)
  {
    forall r | 1 < r < 257
      ensures Leaves(257, r)
    {
      Leaves257(r);
    }
  }

  lemma {:induction false} Leaves257(r: nat)
    requires 1 < r < 257
    ensures Leaves(257, r)
  {
    if 257 % r == 0 {
      var m: nat := 257 / r;
      assert m * r == 257;
      BothLarge(m, r);
      if r <= 16 {
        SmallFactor(r, m);
      } else {
        SmallFactor(m, r);
      }
    }
  }

  lemma {:induction false} BothLarge(m: nat, r: nat)
    ensures m > 16 && r > 16 ==> m * r >= 289
  {
    if m > 16 && r > 16 {
      MulLe(m, 17, r);
    }
  }

  lemma {:induction false} SmallFactor(r: nat, m: nat)
    requires r <= 16 && r != 1
    ensures m * r != 257
  {
  }

  /** A prime that divides a product divides a factor. */
  lemma {:induction false} Euclid(p: nat, k: int, r: nat)
    requires Prime(p) && 0 < r < p && (k * r) % p == 0
    ensures k % p == 0
    decreases r
  {
    hide Leaves;
    if r > 1 {
      assert Leaves(p, r);
      NextRemainder(p, k, r);
      Euclid(p, k, p % r);
    }
  }

  lemma {:induction false} NextRemainder(p: nat, k: int, r: nat)
    requires 0 < r < p && Leaves(p, r) && (k * r) % p == 0
    ensures 0 < p % r < r && (k * (p % r)) % p == 0
  {
    var d, t, j := p / r, p % r, k * r / p;
    Spread(k, r, d, t, p, j);
    ModUnique(k * t, p, k - d * j, 0);
  }

  lemma {:induction false} Spread(k: int, r: int, d: int, t: int, p: int, j: int)
    requires p == r * d + t && k * r == p * j
    ensures k * t == p * (k - d * j)
  {
    assert k * p == k * (r * d) + k * t;
    assert k * (r * d) == (k * r) * d == (p * j) * d;
  }

  /** A period that 1/p of the full one is not a multiple of is itself a multiple of p. */
  lemma {:induction false} PrimeDivides(p: nat, part: nat, q: nat)
    requires Prime(p) && q > 0 && (p * part) % q == 0 && part % q != 0
    ensures q % p == 0
  {
    hide Leaves;
    if q % p != 0 {
      var k, d, r := p * part / q, q / p, q % p;
      assert p > 1 && p * part == k * q && q == p * d + r;
      RemainderFactor(p, part, k, d, r);
      Euclid(p, k, r);
      Cancel(p, part, k / p, q);
      ModUnique(part, q, k / p, 0);
    }
  }

  lemma {:induction false} RemainderFactor(p: nat, part: nat, k: int, d: nat, r: nat)
    requires p > 1 && p * part == k * (p * d + r)
    ensures (k * r) % p == 0
  {
    assert k * (p * d + r) == p * (k * d) + k * r;
    ModUnique(k * r, p, part - k * d, 0);
  }

  lemma {:induction false} Cancel(p: nat, part: nat, j: int, q: nat)
    requires p > 1 && p * part == (p * j) * q
    ensures part == q * j
  {
    assert (p * j) * q == p * (q * j);
    if part < q * j {
      MulLe(p, part + 1, q * j);
    } else if part > q * j {
      MulLe(p, q * j + 1, part);
    }
  }

  /** A multiple of all four primes is a multiple of their product. */
  lemma {:induction false} AllPrimes(q: nat)
    requires q % 3 == 0 && q % 5 == 0 && q % 17 == 0 && q % 257 == 0
    ensures q % PERIOD == 0
  {
    var k15 := 2 * (q / 5) - q / 3;
    assert q == 15 * k15;
    var k255 := 8 * k15 - 9 * (q / 17);
    assert q == 255 * k255;
    var k := 128 * (q / 257) - 127 * k255;
    assert q == PERIOD * k;
    ModUnique(q, PERIOD, k, 0);
  }

  lemma {:induction false} JumpMultiple(s: bv16, q: nat, k: nat)
    requires Jump(s, q) == s
    ensures Jump(s, k * q) == s
    decreases k
  {
    hide Jump;
    if k == 0 {
      JumpNone(s);
    } else {
      assert k * q == q + (k - 1) * q;
      JumpAdd(s, q, (k - 1) * q);
      JumpMultiple(s, q, k - 1);
    }
  }

  lemma {:induction false} JumpNone(s: bv16)
    ensures Jump(s, 0) == s
  {
  }

  /** What is left of one period after whole other ones is a period. */
  lemma {:induction false} JumpRemainder(s: bv16, d: nat, q: nat)
    requires q > 0 && Jump(s, q) == s && Jump(s, d) == s
    ensures Jump(s, d % q) == s
  {
    hide Jump;
    var k := d / q;
    assert d == k * q + d % q;
    JumpMultiple(s, q, k);
    JumpAdd(s, k * q, d % q);
  }

  /** The shortest period, searched from `k` on. */
  lemma {:induction false} Shortest(s: bv16, d: nat, k: nat) returns (q: nat)
    requires 0 < k <= d && Jump(s, d) == s
    requires forall j: nat | 0 < j < k :: Jump(s, j) != s
    ensures 0 < q <= d && Jump(s, q) == s
    ensures forall j: nat | 0 < j < q :: Jump(s, j) != s
    decreases d - k
  {
    hide Jump;
    if Jump(s, k) == s {
      q := k;
    } else {
      q := Shortest(s, d, k + 1);
    }
  }

  /** From the seed the register is back exactly after multiples of 65535 steps. */
  lemma {:induction false} MaximalPeriod(d: nat)
    ensures Jump(SEED, d) == SEED <==> d % PERIOD == 0
  {
    hide Jump, Prime;
    Returns(SEED);
    var q := Shortest(SEED, PERIOD, 1);
    JumpRemainder(SEED, PERIOD, q);
    Primes();
    NotEarlier();
    PartIsNone(3, 21845, q);
    PartIsNone(5, 13107, q);
    PartIsNone(17, 3855, q);
    PartIsNone(257, 255, q);
    AllPrimes(q);
    if d % PERIOD == 0 {
      JumpMultiple(SEED, PERIOD, d / PERIOD);
    }
    if Jump(SEED, d) == SEED {
      JumpRemainder(SEED, d, PERIOD);
    }
  }

  lemma {:induction false} PartIsNone(p: nat, part: nat, q: nat)
    requires Prime(p) && q > 0 && p * part == PERIOD && PERIOD % q == 0
    requires Jump(SEED, q) == SEED && Jump(SEED, part) != SEED
    ensures q % p == 0
  {
    hide Jump, Prime;
    if part % q == 0 {
      JumpMultiple(SEED, q, part / q);
    }
    PrimeDivides(p, part, q);
  }

  /** The first 65535 states are all different. */
  lemma {:induction false} AllDifferent(i: nat, j: nat)
    requires i < j < PERIOD
    ensures Jump(SEED, i) != Jump(SEED, j)
  {
    hide Jump;
    var n := PERIOD - j;
    MaximalPeriod(i + n);
    Returns(SEED);
    JumpAdd(SEED, i, n);
    JumpAdd(SEED, j, n);
  }

  /** No state is zero. */
  lemma {:induction false} NeverZero(i: nat)
    ensures Jump(SEED, i) != 0
  {
    hide Jump;
    var n := PERIOD - i % PERIOD;
    MaximalPeriod(i + n);
    JumpAdd(SEED, i, n);
    ZeroStays(n);
  }

  lemma {:induction false} ZeroStays(n: nat)
    ensures Jump(0, n) == 0
    decreases n
  {
    if n > 0 {
      ZeroStays(n - 1);
    }
  }

  // ---- the states reached are all states but zero ----

  /** The states of the first `n` steps, as numbers. */
  ghost function Reached(n: nat): set<int> {
    if n == 0 then {} else Reached(n - 1) + {Jump(SEED, n - 1) as int}
  }

  lemma {:induction false} SameNumber(a: bv16, b: bv16)
    requires a as int == b as int
    ensures a == b
  {
    assert (a as int) as bv16 == a;
  }

  ghost predicate AtStep(x: int, i: nat) {
    Jump(SEED, i) as int == x
  }

  /** What is reached is reached at some step. */
  lemma {:induction false} ReachedAt(n: nat, x: int) returns (i: nat)
    requires x in Reached(n)
    ensures i < n && AtStep(x, i)
    decreases n
  {
    hide Jump;
    if x == Jump(SEED, n - 1) as int {
      i := n - 1;
    } else {
      i := ReachedAt(n - 1, x);
    }
  }

  /** As many as steps, and in the range of the numbers from 1 to 65535. */
  lemma {:induction false} ReachedCount(n: nat)
    requires n <= PERIOD
    ensures |Reached(n)| == n && Reached(n) <= Numbers(PERIOD)
    decreases n
  {
    hide Jump, Numbers;
    if n > 0 {
      ReachedCount(n - 1);
      NeverZero(n - 1);
      InNumbers(Jump(SEED, n - 1));
      NewState(n - 1);
    }
  }

  lemma {:induction false} NewState(n: nat)
    requires n < PERIOD
    ensures Jump(SEED, n) as int !in Reached(n)
  {
    hide Jump, Reached;
    if Jump(SEED, n) as int in Reached(n) {
      var i := ReachedAt(n, Jump(SEED, n) as int);
      SameNumber(Jump(SEED, i), Jump(SEED, n));
      AllDifferent(i, n);
    }
  }

  ghost function Numbers(n: nat): set<int> {
    if n == 0 then {} else Numbers(n - 1) + {n}
  }

  lemma {:induction false} InNumbers(s: bv16)
    requires s != 0
    ensures s as int in Numbers(PERIOD)
  {
    hide Numbers;
    if s as int == 0 {
      SameNumber(s, 0);
    }
    NumbersAre(PERIOD, s as int);
  }

  lemma {:induction false} NumbersAre(n: nat, x: int)
    ensures x in Numbers(n) <==> 1 <= x <= n
    decreases n
  {
    if n > 0 {
      NumbersAre(n - 1, x);
    }
  }

  lemma {:induction false} NumbersCount(n: nat)
    ensures |Numbers(n)| == n
    decreases n
  {
    if n > 0 {
      NumbersCount(n - 1);
      NumbersAre(n - 1, n);
    }
  }

  lemma {:induction false} SameSet(a: set<int>, b: set<int>)
    requires a <= b && |a| == |b|
    ensures a == b
  {
    assert |b - a| == |b| - |a|;
  }

  /** From the seed the register gets to every state but zero. */
  lemma {:induction false} EveryState(s: bv16)
    requires s != 0
    ensures exists i: nat :: i < PERIOD && Jump(SEED, i) == s
  {
    hide Jump, Reached, Numbers;
    ReachedCount(PERIOD);
    NumbersCount(PERIOD);
    SameSet(Reached(PERIOD), Numbers(PERIOD));
    InNumbers(s);
    var i := ReachedAt(PERIOD, s as int);
    SameNumber(Jump(SEED, i), s);
  }
}
