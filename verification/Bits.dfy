/** Fixed-width words as natural numbers, with C's bitwise operators defined digit by digit.
    Every module below works on these: a `u16` is a value of `uint16_t`, and so on. */
module Bits {

  function Pow2(n: nat): (p: nat)
    ensures p > 0
  {
    if n == 0 then 1 else 2 * Pow2(n - 1)
  }

  type u8 = x: int | 0 <= x < 0x100
  type u16 = x: int | 0 <= x < 0x1_0000
  type u32 = x: int | 0 <= x < 0x1_0000_0000
  type u64 = x: int | 0 <= x < 0x1_0000_0000_0000_0000

  /** Binary digit `i` of `x`, counted from the least significant. */
  predicate Bit(x: nat, i: nat)
    decreases i
  {
    if i == 0 then x % 2 == 1 else Bit(x / 2, i - 1)
  }

  function Digit(b: bool): (d: nat)
    ensures d < 2
  {
    if b then 1 else 0
  }

  function And(a: nat, b: nat): (r: nat)
    ensures r <= a && r <= b
    decreases a
  {
    if a == 0 then 0 else Digit(a % 2 == 1 && b % 2 == 1) + 2 * And(a / 2, b / 2)
  }

  function Or(a: nat, b: nat): (r: nat)
    ensures a <= r && b <= r
    decreases a
  {
    if a == 0 then b else Digit(a % 2 == 1 || b % 2 == 1) + 2 * Or(a / 2, b / 2)
  }

  function Xor(a: nat, b: nat): (r: nat)
    decreases a
  {
    if a == 0 then b else Digit((a % 2 == 1) != (b % 2 == 1)) + 2 * Xor(a / 2, b / 2)
  }

  // ---- powers of two ----

  lemma {:induction false} Pow2Add(m: nat, n: nat)
    ensures Pow2(m + n) == Pow2(m) * Pow2(n)
  {
    if m == 0 {
    } else {
      Pow2Add(m - 1, n);
    }
  }

  lemma {:induction false} Pow2Succ(n: nat)
    ensures Pow2(n + 1) == 2 * Pow2(n)
  {
  }

  lemma {:induction false} Pow2Mono(m: nat, n: nat)
    requires m <= n
    ensures Pow2(m) <= Pow2(n)
  {
    if m < n {
      Pow2Mono(m, n - 1);
    }
  }

  /** The widths that occur in the code. */
  lemma {:induction false} Widths()
    ensures Pow2(8) == 0x100 && Pow2(15) == 0x8000 && Pow2(16) == 0x1_0000
    ensures Pow2(31) == 0x8000_0000 && Pow2(32) == 0x1_0000_0000
    ensures Pow2(63) == 0x8000_0000_0000_0000 && Pow2(64) == 0x1_0000_0000_0000_0000
  {
    hide Pow2;
    ByteWidths();
    Pow2Add(8, 7);
    Pow2Add(8, 8);
    Pow2Add(16, 15);
    Pow2Add(16, 16);
    Pow2Add(32, 31);
    Pow2Add(32, 32);
  }

  lemma {:induction false} ByteWidths()
    ensures Pow2(7) == 0x80 && Pow2(8) == 0x100
  {
  }

  // ---- digits of the operators ----

  lemma {:induction false} ZeroBit(i: nat)
    ensures !Bit(0, i)
  {
    if i > 0 {
      ZeroBit(i - 1);
    }
  }

  lemma {:induction false} LastDigit(d: nat, r: nat)
    requires d < 2
    ensures (d + 2 * r) % 2 == d && (d + 2 * r) / 2 == r
  {
  }

  // One step of each operator: its last digit, and the rest.

  lemma {:induction false} AndStep(a: nat, b: nat)
    ensures And(a, b) % 2 == Digit(a % 2 == 1 && b % 2 == 1) && And(a, b) / 2 == And(a / 2, b / 2)
  {
    LastDigit(Digit(a % 2 == 1 && b % 2 == 1), And(a / 2, b / 2));
  }

  lemma {:induction false} OrStep(a: nat, b: nat)
    ensures Or(a, b) % 2 == Digit(a % 2 == 1 || b % 2 == 1) && Or(a, b) / 2 == Or(a / 2, b / 2)
  {
    LastDigit(Digit(a % 2 == 1 || b % 2 == 1), Or(a / 2, b / 2));
  }

  lemma {:induction false} XorStep(a: nat, b: nat)
    ensures Xor(a, b) % 2 == Digit((a % 2 == 1) != (b % 2 == 1)) && Xor(a, b) / 2 == Xor(a / 2, b / 2)
  {
    LastDigit(Digit((a % 2 == 1) != (b % 2 == 1)), Xor(a / 2, b / 2));
  }

  lemma {:induction false} BitAnd(a: nat, b: nat, i: nat)
    ensures Bit(And(a, b), i) == (Bit(a, i) && Bit(b, i))
    decreases i
  {
    AndStep(a, b);
    if i > 0 {
      BitAnd(a / 2, b / 2, i - 1);
    }
  }

  lemma {:induction false} BitOr(a: nat, b: nat, i: nat)
    ensures Bit(Or(a, b), i) == (Bit(a, i) || Bit(b, i))
    decreases i
  {
    OrStep(a, b);
    if i > 0 {
      BitOr(a / 2, b / 2, i - 1);
    }
  }

  lemma {:induction false} BitXor(a: nat, b: nat, i: nat)
    ensures Bit(Xor(a, b), i) == (Bit(a, i) != Bit(b, i))
    decreases i
  {
    XorStep(a, b);
    if i > 0 {
      BitXor(a / 2, b / 2, i - 1);
    }
  }

  /** A number below 2^n has no digit at n or above. */
  lemma {:induction false} HighBit(x: nat, n: nat, i: nat)
    requires x < Pow2(n) && n <= i
    ensures !Bit(x, i)
    decreases i
  {
    if n == 0 {
      ZeroBit(i);
    } else {
      HighBit(x / 2, n - 1, i - 1);
    }
  }

  /** Truncation to n digits, as storing in a narrower type does. */
  lemma {:induction false} BitMod(x: nat, n: nat, i: nat)
    ensures Bit(x % Pow2(n), i) == (i < n && Bit(x, i))
    decreases i
  {
    if n == 0 {
      ZeroBit(i);
    } else {
      ModHalf(x, Pow2(n - 1));
      if i > 0 {
        BitMod(x / 2, n - 1, i - 1);
      }
    }
  }

  lemma {:induction false} ModHalf(x: nat, p: nat)
    requires p > 0
    ensures (x % (2 * p)) / 2 == (x / 2) % p
    ensures (x % (2 * p)) % 2 == x % 2
  {
    var h := x / 2;
    var q, r := h / p, h % p;
    assert h == q * p + r;
    assert x == (2 * p) * q + (2 * r + x % 2);
    ModUnique(x, 2 * p, q, 2 * r + x % 2);
  }

  /** Quotient and remainder are determined by the division equation. */
  lemma {:induction false} ModUnique(x: int, d: int, q: int, r: int)
    requires 0 <= r < d && x == d * q + r
    ensures x / d == q && x % d == r
  {
    var q', r' := x / d, x % d;
    assert d * q' + r' == d * q + r;
    if q' > q {
      assert d * (q' - q) >= d by { MulLe(d, 1, q' - q); }
    } else if q' < q {
      assert d * (q - q') >= d by { MulLe(d, 1, q - q'); }
    }
  }

  lemma {:induction false} MulLe(a: int, x: int, y: int)
    requires 0 <= a && x <= y
    ensures a * x <= a * y
  {
  }

  /** Shift right, one place at a time. */
  function Shr(x: nat, s: nat): nat
    decreases s
  {
    if s == 0 then x else Shr(x / 2, s - 1)
  }

  lemma {:induction false} BitShr(x: nat, s: nat, i: nat)
    ensures Bit(Shr(x, s), i) == Bit(x, s + i)
    decreases s
  {
    if s > 0 {
      BitShr(x / 2, s - 1, i);
    }
  }

  lemma {:induction false} ShrIsDiv(x: nat, s: nat)
    ensures Shr(x, s) == x / Pow2(s)
    decreases s
  {
    if s > 0 {
      HalveThenShift(x, s);
      ShrIsDiv(x / 2, s - 1);
    }
  }

  lemma {:induction false} HalveThenShift(x: nat, s: nat)
    requires s > 0
    ensures x / Pow2(s) == (x / 2) / Pow2(s - 1)
  {
    hide Pow2;
    Pow2Succ(s - 1);
    DivDiv(x, 2, Pow2(s - 1));
  }

  lemma {:induction false} DivDiv(x: nat, a: nat, b: nat)
    requires a > 0 && b > 0
    ensures a * b > 0 && x / (a * b) == (x / a) / b
  {
    MulLe(a, 1, b);
    var y, r := x / a, x % a;
    var z, t := y / b, y % b;
    assert x == (a * b) * z + (a * t + r) by {
      assert x == a * (b * z + t) + r;
    }
    assert a * t + r < a * b by { MulLe(a, t + 1, b); assert a * (t + 1) == a * t + a; }
    ModUnique(x, a * b, z, a * t + r);
  }

  /** Shift left, without truncation. */
  function Shl(x: nat, s: nat): nat
    decreases s
  {
    if s == 0 then x else 2 * Shl(x, s - 1)
  }

  lemma {:induction false} BitShl(x: nat, s: nat, i: nat)
    ensures Bit(Shl(x, s), i) == (i >= s && Bit(x, i - s))
    decreases s
  {
    if s > 0 && i > 0 {
      BitShl(x, s - 1, i - 1);
    }
  }

  lemma {:induction false} ShlIsMul(x: nat, s: nat)
    ensures Shl(x, s) == x * Pow2(s)
    decreases s
  {
    if s > 0 {
      ShlIsMul(x, s - 1);
      assert x * Pow2(s) == 2 * (x * Pow2(s - 1));
    }
  }

  /** Complement in n digits. */
  lemma {:induction false} BitNot(x: nat, n: nat, i: nat)
    requires x < Pow2(n) && i < n
    ensures Bit(Pow2(n) - 1 - x, i) == !Bit(x, i)
    decreases n
  {
    var p := Pow2(n - 1);
    assert Pow2(n) - 1 - x == 2 * (p - 1 - x / 2) + (1 - x % 2);
    if i > 0 {
      BitNot(x / 2, n - 1, i - 1);
    }
  }

  /** A run of n ones starting at digit s. */
  lemma {:induction false} RunOfOnes(n: nat, s: nat, i: nat)
    ensures Bit(Shl(Pow2(n) - 1, s), i) == (s <= i < s + n)
  {
    hide Pow2;
    BitShl(Pow2(n) - 1, s, i);
    if i >= s {
      if i - s < n {
        BitNot(0, n, i - s);
        ZeroBit(i - s);
      } else {
        HighBit(Pow2(n) - 1, n, i - s);
      }
    }
  }

  lemma {:induction false} OrBound(a: nat, b: nat, n: nat)
    requires a < Pow2(n) && b < Pow2(n)
    ensures Or(a, b) < Pow2(n)
    decreases a
  {
    if a > 0 {
      OrBound(a / 2, b / 2, n - 1);
    }
  }

  lemma {:induction false} XorBound(a: nat, b: nat, n: nat)
    requires a < Pow2(n) && b < Pow2(n)
    ensures Xor(a, b) < Pow2(n)
    decreases a
  {
    if a > 0 {
      XorBound(a / 2, b / 2, n - 1);
    }
  }

  lemma {:induction false} XorZero(x: nat)
    ensures Xor(x, 0) == x
  {
    if x > 0 {
      XorZero(x / 2);
    }
  }

  /** "Xor" with n ones is the complement in n digits. */
  lemma {:induction false} XorOnes(x: nat, n: nat)
    requires x < Pow2(n)
    ensures Xor(x, Pow2(n) - 1) == Pow2(n) - 1 - x
    decreases n
  {
    hide Xor;
    if n == 0 {
      XorZero(0);
    } else {
      var p := Pow2(n - 1);
      XorStep(x, Pow2(n) - 1);
      XorOnes(x / 2, n - 1);
      assert (2 * p - 1) / 2 == p - 1 && (2 * p - 1) % 2 == 1;
    }
  }

  /** A number is determined by its digits. */
  lemma {:induction false} BitExt(x: nat, y: nat, n: nat)
    requires x < Pow2(n) && y < Pow2(n)
    requires forall i: nat | i < n :: Bit(x, i) == Bit(y, i)
    ensures x == y
    decreases n
  {
    if n > 0 {
      assert Bit(x, 0) == Bit(y, 0);
      forall i: nat | i < n - 1
        ensures Bit(x / 2, i) == Bit(y / 2, i)
      {
        assert Bit(x, i + 1) == Bit(y, i + 1);
      }
      BitExt(x / 2, y / 2, n - 1);
    }
  }

  /** "Or" of words whose digits do not overlap is addition. */
  lemma {:induction false} OrIsAdd(hi: nat, lo: nat, s: nat)
    requires lo < Pow2(s)
    ensures Or(hi * Pow2(s), lo) == hi * Pow2(s) + lo
    decreases s
  {
    if s > 0 && hi * Pow2(s) > 0 {
      var h := hi * Pow2(s - 1);
      assert hi * Pow2(s) == 2 * h;
      OrIsAdd(hi, lo / 2, s - 1);
    } else if s == 0 && hi > 0 {
      OrZero(hi);
    }
  }

  lemma {:induction false} OrZero(x: nat)
    ensures Or(x, 0) == x
  {
    if x > 0 {
      OrZero(x / 2);
    }
  }

  /** Masking with 2^n - 1 keeps the low n digits. */
  lemma {:induction false} AndMask(x: nat, n: nat)
    ensures And(x, Pow2(n) - 1) == x % Pow2(n)
    decreases n
  {
    hide And;
    if n > 0 {
      AndStep(x, Pow2(n) - 1);
      AndMask(x / 2, n - 1);
      MaskStep(x, And(x / 2, Pow2(n - 1) - 1), n);
    } else {
      AndZero(x);
    }
  }

  lemma {:induction false} AndZero(x: nat)
    ensures And(x, 0) == 0
  {
    if x > 0 {
      AndZero(x / 2);
    }
  }

  lemma {:induction false} MaskStep(x: nat, low: nat, n: nat)
    requires n > 0 && low == (x / 2) % Pow2(n - 1)
    ensures x % 2 + 2 * low == x % Pow2(n)
    ensures (Pow2(n) - 1) / 2 == Pow2(n - 1) - 1 && (Pow2(n) - 1) % 2 == 1
  {
    ModHalf(x, Pow2(n - 1));
  }
}
