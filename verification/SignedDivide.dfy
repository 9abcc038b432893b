/** Signed 64-bit division and remainder by sign masks (divdi3.c, moddi3.c), on top of the unsigned
    divider. Signed words are two's complement. */
module SignedDivide {
  import opened Bits
  import opened UnsignedDivide

  const MIN64 := -0x8000_0000_0000_0000

  type i64 = x: int | MIN64 <= x < 0x8000_0000_0000_0000

  /** The bit pattern of a signed value, and back. */
  function Pattern(x: int): u64 {
    x % W64
  }

  function Signed(u: u64): i64 {
    if u < 0x8000_0000_0000_0000 then u else u - W64
  }

  /** Division that truncates toward zero, and its remainder (section 6.5.5 of ISO C11). */
  function TruncDiv(a: int, b: int): int
    requires b != 0
  {
    if (a < 0) == (b < 0) then Magnitude(a) / Magnitude(b) else -(Magnitude(a) / Magnitude(b))
  }

  function TruncMod(a: int, b: int): int
    requires b != 0
  {
    a - TruncDiv(a, b) * b
  }

  function Magnitude(x: int): (m: nat)
    ensures x != 0 ==> m != 0
  {
    if x < 0 then -x else x
  }

  /** What the truncating operators are: the remainder has the sign of the dividend and is smaller
      than the divisor, and no other pair is like that. */
  lemma {:induction false} TruncIsC(a: int, b: int, q: int, r: int)
    requires b != 0
    ensures (q == TruncDiv(a, b) && r == TruncMod(a, b)) <==> IsC(a, b, q, r)
  {
    hide TruncDiv, TruncMod;
    TruncMeetsC(a, b);
    if IsC(a, b, q, r) {
      UniqueC(a, b, q, r);
    }
  }

  predicate IsC(a: int, b: int, q: int, r: int) {
    a == q * b + r && Magnitude(r) < Magnitude(b) && (a >= 0 ==> r >= 0) && (a <= 0 ==> r <= 0)
  }

  lemma {:induction false} TruncMeetsC(a: int, b: int)
    requires b != 0
    ensures IsC(a, b, TruncDiv(a, b), TruncMod(a, b))
    ensures TruncMod(a, b) == if a < 0 then -(Magnitude(a) % Magnitude(b)) else Magnitude(a) % Magnitude(b)
  {
    hide TruncDiv;
    TruncProduct(a, b);
    DivisorOne(Magnitude(a), Magnitude(b));
    SignedIsC(a, b, TruncDiv(a, b) * b, TruncMod(a, b), Magnitude(a) % Magnitude(b));
  }

  lemma {:induction false} SignedIsC(a: int, b: int, product: int, r: int, e: int)
    requires 0 <= e < Magnitude(b) && e <= Magnitude(a) && r == a - product
    requires product == if a < 0 then e - Magnitude(a) else Magnitude(a) - e
    ensures r == (if a < 0 then -e else e) && Magnitude(r) == e
    ensures (a >= 0 ==> r >= 0) && (a <= 0 ==> r <= 0)
  {
  }

  lemma {:induction false} TruncProduct(a: int, b: int)
    requires b != 0
    ensures var p := Magnitude(a) - Magnitude(a) % Magnitude(b);
            TruncDiv(a, b) * b == if a < 0 then -p else p
  {
    hide Magnitude;
    var m, n := Magnitude(a), Magnitude(b);
    var d := m / n;
    assert m == n * d + m % n;
    Negations(a, b, d);
  }

  lemma {:induction false} UniqueC(a: int, b: int, q: int, r: int)
    requires b != 0 && IsC(a, b, q, r)
    ensures q == TruncDiv(a, b) && r == TruncMod(a, b)
  {
    var t := if (a < 0) == (b < 0) then q else -q;
    Negations(a, b, t);
    ModUnique(Magnitude(a), Magnitude(b), t, Magnitude(r));
  }

  /** Multiplying by a signed divisor, by magnitudes. */
  lemma {:induction false} Negations(a: int, b: int, d: int)
    ensures var s := if (a < 0) == (b < 0) then d else -d;
            s * b == if a < 0 then -(Magnitude(b) * d) else Magnitude(b) * d
  {
  }

  // ---- the mask idiom ----

  /** The arithmetic shift right by 63: -1 for negative values, otherwise 0. */
  function SignMask(x: i64): i64 {
    x / 0x8000_0000_0000_0000
  }

  /** `(x ^ s) + -s`: negates x when the mask is -1. */
  function MaskNegate(x: u64, s: int): u64 {
    (Xor64(x, Pattern(s)) + Pattern(-s)) % W64
  }

  function Xor64(a: u64, b: u64): u64 {
    Widths();
    XorBound(a, b, 64);
    Xor(a, b)
  }

  lemma {:induction false} MaskPatterns()
    ensures Pattern(0) == 0 && Pattern(1) == 1 && Pattern(-1) == W64 - 1
  {
    ModUnique(-1, W64, -1, W64 - 1);
  }

  lemma {:induction false} XorMask(x: u64)
    ensures Xor64(x, 0) == x && Xor64(x, W64 - 1) == W64 - 1 - x
  {
    hide Xor, Pow2;
    Widths();
    XorZero(x);
    XorOnes(x, 64);
  }

  lemma {:induction false} MaskNegates(x: u64, s: int)
    requires s == 0 || s == -1
    ensures MaskNegate(x, s) == if s == 0 || x == 0 then x else W64 - x
  {
    hide Xor64, Pattern;
    MaskPatterns();
    XorMask(x);
  }

  /** The magnitude of a signed value, by its mask. */
  lemma {:induction false} MaskMagnitude(x: i64)
    ensures SignMask(x) == if x < 0 then -1 else 0
    ensures MaskNegate(Pattern(x), SignMask(x)) == Magnitude(x)
  {
    hide MaskNegate;
    if x < 0 {
      ModUnique(x, W64, -1, x + W64);
      ModUnique(x, 0x8000_0000_0000_0000, -1, x + 0x8000_0000_0000_0000);
    } else {
      ModUnique(x, W64, 0, x);
      ModUnique(x, 0x8000_0000_0000_0000, 0, x);
    }
    MaskNegates(Pattern(x), SignMask(x));
  }

  /** The sign of the quotient: the masks combine by "xor". */
  lemma {:induction false} MaskXor(s: i64, t: i64)
    requires (s == 0 || s == -1) && (t == 0 || t == -1)
    ensures Signed(Xor64(Pattern(s), Pattern(t))) == if s == t then 0 else -1
  {
    hide Xor64, Pattern;
    MaskPatterns();
    XorMask(Pattern(s));
  }

  // ---- the operations ----

  /** `__divdi3`. The quotient is C's wherever it is representable, and wraps for MIN64 / -1. */
  method DivDi3(a: i64, b: i64) returns (q: i64)
    requires b != 0
    ensures q == if a == MIN64 && b == -1 then MIN64 else TruncDiv(a, b)
  {
    hide Xor64, MaskNegate, Pattern, Magnitude;
    var sA: i64, sB: i64 := SignMask(a), SignMask(b);
    MaskMagnitude(a);
    MaskMagnitude(b);
    var aU := MaskNegate(Pattern(a), sA);
    var bU := MaskNegate(Pattern(b), sB);
    MaskXor(sA, sB);
    sA := Signed(Xor64(Pattern(sA), Pattern(sB)));
    var u, _ := UDivMod(aU, bU);
    MaskNegates(u, sA);
    QuotientRange(a, b);
    MinOverMinusOne();
    q := Signed(MaskNegate(u, sA));
  }

  lemma {:induction false} QuotientRange(a: i64, b: i64)
    requires b != 0
    ensures 0 <= Magnitude(a) / Magnitude(b) <= -MIN64
    ensures Magnitude(a) / Magnitude(b) == -MIN64 ==> a == MIN64 && (b == 1 || b == -1)
  {
    DivisorOne(Magnitude(a), Magnitude(b));
  }

  lemma {:induction false} MinOverMinusOne()
    ensures Magnitude(MIN64) / Magnitude(-1) == -MIN64
  {
  }

  lemma {:induction false} DivisorOne(m: nat, n: nat)
    requires n > 0
    ensures 0 <= m / n <= m && (n >= 2 ==> 2 * (m / n) <= m)
    ensures 0 <= m % n < n && m % n <= m
  {
    var d := m / n;
    assert m == n * d + m % n;
    MulLe(d, 1, n);
    if n >= 2 {
      MulLe(d, 2, n);
    }
  }

  /** `__moddi3`. */
  method ModDi3(a: i64, b: i64) returns (r: i64)
    requires b != 0
    ensures r == TruncMod(a, b)
  {
    hide Xor64, MaskNegate, Pattern, TruncMod, TruncDiv;
    var s: i64 := SignMask(b);
    MaskMagnitude(b);
    var bU := MaskNegate(Pattern(b), s);
    s := SignMask(a);
    MaskMagnitude(a);
    var aU := MaskNegate(Pattern(a), s);
    var _, res := UDivMod(aU, bU);
    MaskNegates(res, s);
    r := Signed(MaskNegate(res, s));
    TruncMeetsC(a, b);
    assert res < -MIN64;
  }

  /** Quotient and remainder always recombine: exactly when the quotient is representable, and modulo
      2^64 in the one case where it wraps. */
  method Recombine(a: i64, b: i64) returns (q: i64, r: i64)
    requires b != 0
    ensures (q * b + r - a) % W64 == 0
    ensures !(a == MIN64 && b == -1) <==> q * b + r == a
    ensures Magnitude(r) < Magnitude(b) && (a >= 0 ==> r >= 0) && (a <= 0 ==> r <= 0)
  {
    hide TruncDiv, TruncMod;
    q := DivDi3(a, b);
    r := ModDi3(a, b);
    TruncMeetsC(a, b);
    if a == MIN64 && b == -1 {
      ModUnique(Magnitude(a), 1, Magnitude(a), 0);
      assert r == 0;
      ModUnique(W64, W64, 1, 0);
    } else {
      ModUnique(0, W64, 0, 0);
    }
  }
}
