/** 64-bit multiplication from 16-bit partial products (muldi3.c). All additions and products are
    written with the truncation of `uint32_t` and `uint64_t`. */
module Multiply {
  import opened Bits
  import opened UnsignedDivide
  import opened SignedDivide

  const MASK16: u32 := 0xFFFF

  function Add32(a: u32, b: u32): u32 {
    (a + b) % W32
  }

  function Mul32(a: nat, b: nat): u32 {
    Product(a, b) % W32
  }

  function Product(a: nat, b: nat): (p: nat)
    ensures a == 0 || b == 0 ==> p == 0
  {
    MulLe(a, 0, b);
    a * b
  }

  lemma {:induction false} LowHalf(x: u32)
    ensures And32(x, MASK16) == x % 0x1_0000 && Shr32(x, 16) == x / 0x1_0000
    ensures x == 0x1_0000 * (x / 0x1_0000) + x % 0x1_0000
  {
    hide And, Shr, Pow2;
    Widths();
    AndMask(x, 16);
    ShrIsDiv(x, 16);
  }

  lemma {:induction false} ShlLow(x: u32)
    requires x < 0x1_0000
    ensures Shl32(x, 16) == 0x1_0000 * x
  {
    hide Shl, Pow2;
    Widths();
    ShlIsMul(x, 16);
    ModUnique(x * 0x1_0000, W32, 0, x * 0x1_0000);
  }

  /** The product of two 16-bit values leaves room for a carry of 16 bits, twice. */
  lemma {:induction false} SmallProduct(x: nat, y: nat)
    requires x < 0x1_0000 && y < 0x1_0000
    ensures Product(x, y) <= 0xFFFE_0001 && Mul32(x, y) == Product(x, y)
  {
    MulLe(x, y, 0xFFFF);
    MulLe(0xFFFF, x, 0xFFFF);
    ModUnique(Product(x, y), W32, 0, Product(x, y));
  }

  lemma {:induction false} Expand(aHi: nat, aLo: nat, bHi: nat, bLo: nat)
    ensures Product(0x1_0000 * aHi + aLo, 0x1_0000 * bHi + bLo) ==
            W32 * Product(aHi, bHi) + 0x1_0000 * (Product(aHi, bLo) + Product(bHi, aLo)) + Product(aLo, bLo)
  {
    Distribute(0x1_0000, aHi, aLo, 0x1_0000 * bHi + bLo);
    Distribute(0x1_0000, bHi, bLo, aHi);
    Distribute(0x1_0000, bHi, bLo, aLo);
  }

  /** The column sums: each stays below 2^32, and together they are the product. */
  lemma {:induction false} Columns(p0: nat, p1: nat, p2: nat, p3: nat, t1: nat, l1: nat, t2: nat, l2: nat)
    requires p0 <= 0xFFFE_0001 && p1 <= 0xFFFE_0001 && p2 <= 0xFFFE_0001 && p3 <= 0xFFFE_0001
    requires t1 == p0 / 0x1_0000 + p1 && l1 == p0 % 0x1_0000 + 0x1_0000 * (t1 % 0x1_0000)
    requires t2 == l1 / 0x1_0000 + p2 && l2 == l1 % 0x1_0000 + 0x1_0000 * (t2 % 0x1_0000)
    ensures t1 < W32 && l1 < W32 && t2 < W32 && l2 < W32
    ensures t1 / 0x1_0000 + t2 / 0x1_0000 + p3 < W32
    ensures W32 * (t1 / 0x1_0000 + t2 / 0x1_0000 + p3) + l2 == W32 * p3 + 0x1_0000 * (p1 + p2) + p0
  {
    ModUnique(l1, 0x1_0000, t1 % 0x1_0000, p0 % 0x1_0000);
    assert t1 == 0x1_0000 * (t1 / 0x1_0000) + t1 % 0x1_0000;
    assert t2 == 0x1_0000 * (t2 / 0x1_0000) + t2 % 0x1_0000;
    assert p0 == 0x1_0000 * (p0 / 0x1_0000) + p0 % 0x1_0000;
  }

  /** An addition that does not overflow. */
  lemma {:induction false} AddExact(a: u32, b: u32)
    requires a + b < W32
    ensures Add32(a, b) == a + b
  {
    ModUnique(a + b, W32, 0, a + b);
  }

  /** Splitting off and placing a 16-bit half. */
  lemma {:induction false} Halve(x: u32)
    ensures And32(x, MASK16) == x % 0x1_0000 && Shr32(x, 16) == x / 0x1_0000
    ensures Shl32(And32(x, MASK16), 16) == 0x1_0000 * (x % 0x1_0000)
  {
    hide And32, Shr32, Shl32;
    LowHalf(x);
    ShlLow(x % 0x1_0000);
  }

  /** `__muldsi3`: the exact 64-bit product of two words; no partial sum overflows. */
  method MulDsi3(a: u32, b: u32) returns (r: u64)
    ensures r == Product(a, b)
  {
    hide And32, Shr32, Shl32, Product, Mul32, Add32;
    Halve(a);
    Halve(b);
    LowHalf(a);
    LowHalf(b);
    ghost var aL, aH, bL, bH := a % 0x1_0000, a / 0x1_0000, b % 0x1_0000, b / 0x1_0000;
    SmallProduct(aL, bL);
    SmallProduct(aH, bL);
    SmallProduct(bH, aL);
    SmallProduct(aH, bH);
    Expand(aH, aL, bH, bL);
    ghost var p0, p1, p2, p3 := Product(aL, bL), Product(aH, bL), Product(bH, aL), Product(aH, bH);
    ghost var t1 := p0 / 0x1_0000 + p1;
    ghost var l1 := p0 % 0x1_0000 + 0x1_0000 * (t1 % 0x1_0000);
    ghost var t2 := l1 / 0x1_0000 + p2;
    ghost var l2 := l1 % 0x1_0000 + 0x1_0000 * (t2 % 0x1_0000);
    Columns(p0, p1, p2, p3, t1, l1, t2, l2);

    var rLo := Mul32(And32(a, MASK16), And32(b, MASK16));
    Halve(p0);
    var t := Shr32(rLo, 16);
    rLo := And32(rLo, MASK16);
    AddExact(t, p1);
    t := Add32(t, Mul32(Shr32(a, 16), And32(b, MASK16)));
    Halve(t1);
    AddExact(rLo, 0x1_0000 * (t1 % 0x1_0000));
    rLo := Add32(rLo, Shl32(And32(t, MASK16), 16));
    var rHi := Shr32(t, 16);
    Halve(l1);
    t := Shr32(rLo, 16);
    rLo := And32(rLo, MASK16);
    AddExact(t, p2);
    t := Add32(t, Mul32(Shr32(b, 16), And32(a, MASK16)));
    Halve(t2);
    AddExact(rLo, 0x1_0000 * (t2 % 0x1_0000));
    rLo := Add32(rLo, Shl32(And32(t, MASK16), 16));
    AddExact(rHi, t2 / 0x1_0000);
    rHi := Add32(rHi, Shr32(t, 16));
    AddExact(rHi, p3);
    rHi := Add32(rHi, Mul32(Shr32(a, 16), Shr32(b, 16)));
    r := Make64(rHi, rLo);
  }

  /** `__muldi3`: the product of any two signed words modulo 2^64. */
  method MulDi3(a: i64, b: i64) returns (r: i64)
    ensures (r - a * b) % W64 == 0
  {
    hide Product, Mul32;
    var aLo, aHi := Pattern(a) % W32, Pattern(a) / W32;
    var bLo, bHi := Pattern(b) % W32, Pattern(b) / W32;
    var result := MulDsi3(aLo, bLo);
    ghost var low := result;
    result := (result + Make64(Mul32(aHi, bLo), 0)) % W64;
    result := (result + Make64(Mul32(aLo, bHi), 0)) % W64;
    r := Signed(result);
    CrossProducts(a, b, aHi, aLo, bHi, bLo, result);
  }

  /** The low product plus the two cross products, each truncated, agrees with the signed product. */
  lemma {:induction false} CrossProducts(a: i64, b: i64, aHi: u32, aLo: u32, bHi: u32, bLo: u32, result: u64)
    requires Pattern(a) == W32 * aHi + aLo && Pattern(b) == W32 * bHi + bLo
    requires result == (((Product(aLo, bLo) + Mul32(aHi, bLo) * W32) % W64) + Mul32(aLo, bHi) * W32) % W64
    ensures (Signed(result) - a * b) % W64 == 0
  {
    hide Product, Pattern;
    var p, c, d := Product(aLo, bLo), Product(aHi, bLo), Product(aLo, bHi);
    var s1 := p + (c % W32) * W32;
    var s2 := s1 % W64 + (d % W32) * W32;
    var i, j := PatternOffset(a), PatternOffset(b);
    PatternIs(a);
    PatternIs(b);
    Wrapped(a, b, i, j);
    Unfolded(aHi, aLo, bHi, bLo);
    var k := if result < 0x8000_0000_0000_0000 then 0 else 1;
    var wrap := a * j + b * i + W64 * (i * j);
    var m := wrap - Product(aHi, bHi) - c / W32 - d / W32 - s1 / W64 - s2 / W64 - k;
    Collect(p, c, d, Product(aHi, bHi), a * b, wrap, s1, s2, result);
    ModUnique(Signed(result) - a * b, W64, m, 0);
  }

  lemma {:induction false} Collect(p: int, c: int, d: int, h: int, ab: int, wrap: int, s1: int, s2: int, result: int)
    requires s1 == p + (c % W32) * W32 && s2 == s1 % W64 + (d % W32) * W32 && result == s2 % W64
    requires W64 * h + W32 * (c + d) + p == ab + W64 * wrap
    ensures result - ab == W64 * (wrap - h - c / W32 - d / W32 - s1 / W64 - s2 / W64)
  {
    assert c == W32 * (c / W32) + c % W32 && d == W32 * (d / W32) + d % W32;
    assert s1 == W64 * (s1 / W64) + s1 % W64 && s2 == W64 * (s2 / W64) + s2 % W64;
  }

  /** How often 2^64 is added to make the pattern of a signed value. */
  function PatternOffset(x: i64): nat {
    if x < 0 then 1 else 0
  }

  lemma {:induction false} PatternIs(x: i64)
    ensures Pattern(x) == x + W64 * PatternOffset(x)
  {
    ModUnique(x, W64, if x < 0 then -1 else 0, x + W64 * PatternOffset(x));
  }

  lemma {:induction false} Wrapped(a: int, b: int, i: int, j: int)
    ensures (a + W64 * i) * (b + W64 * j) == a * b + W64 * (a * j + b * i + W64 * (i * j))
  {
  }

  lemma {:induction false} Unfolded(aHi: nat, aLo: nat, bHi: nat, bLo: nat)
    ensures (W32 * aHi + aLo) * (W32 * bHi + bLo) ==
            W64 * Product(aHi, bHi) + W32 * (Product(aHi, bLo) + Product(aLo, bHi)) + Product(aLo, bLo)
  {
    Distribute(W32, aHi, aLo, W32 * bHi + bLo);
    Distribute(W32, bHi, bLo, aHi);
    Distribute(W32, bHi, bLo, aLo);
  }
}
