/** The bit-parallel heart of the Game of Life demos: sixteen cells of one row are packed in a
    big-endian word, cell 0 in the most significant bit, and one pass of a carry-save adder
    counts the neighbours of all sixteen at once. */
module LifeWord {
  import opened Bits

  /** Is the cell in lane `k` of a packed word alive? */
  predicate Lane(w: u16, k: nat)
    requires k < 16
  {
    Bit(w, 15 - k)
  }

  /** Conway's rule for one cell with `n` live neighbours. */
  predicate Rule(alive: bool, n: nat) {
    n == 3 || (n == 2 && alive)
  }

  // ---- C's operators on uint16_t, with what they do to a lane ----

  function And16(a: u16, b: u16): (r: u16)
    ensures forall k: nat | k < 16 :: Lane(r, k) == (Lane(a, k) && Lane(b, k))
  {
    assert forall k: nat | k < 16 :: Lane(And(a, b), k) == (Lane(a, k) && Lane(b, k)) by {
      forall k: nat | k < 16 { BitAnd(a, b, 15 - k); }
    }
    And(a, b)
  }

  function Or16(a: u16, b: u16): (r: u16)
    ensures forall k: nat | k < 16 :: Lane(r, k) == (Lane(a, k) || Lane(b, k))
  {
    Widths();
    OrBound(a, b, 16);
    assert forall k: nat | k < 16 :: Lane(Or(a, b), k) == (Lane(a, k) || Lane(b, k)) by {
      forall k: nat | k < 16 { BitOr(a, b, 15 - k); }
    }
    Or(a, b)
  }

  function Xor16(a: u16, b: u16): (r: u16)
    ensures forall k: nat | k < 16 :: Lane(r, k) == (Lane(a, k) != Lane(b, k))
  {
    Widths();
    XorBound(a, b, 16);
    assert forall k: nat | k < 16 :: Lane(Xor(a, b), k) == (Lane(a, k) != Lane(b, k)) by {
      forall k: nat | k < 16 { BitXor(a, b, 15 - k); }
    }
    Xor(a, b)
  }

  function Not16(a: u16): (r: u16)
    ensures forall k: nat | k < 16 :: Lane(r, k) == !Lane(a, k)
  {
    assert forall k: nat | k < 16 :: Lane(0xFFFF - a, k) == !Lane(a, k) by {
      forall k: nat | k < 16
        ensures Lane(0xFFFF - a, k) == !Lane(a, k)
      { NotLane(a, k); }
    }
    0xFFFF - a
  }

  lemma {:induction false} NotLane(a: u16, k: nat)
    requires k < 16
    ensures Lane(0xFFFF - a, k) == !Lane(a, k)
  {
    hide Pow2;
    Widths();
    BitNot(a, 16, 15 - k);
  }

  /** A one-place shift right moves every lane by one; the last lane of the other word fills the gap. */
  lemma {:induction false} ShiftRightLanes(c: u16, o: u16, k: nat)
    requires k < 16
    ensures Lane(c / 2, k) == (k > 0 && Lane(c, k - 1))
    ensures Lane(o * 0x8000 % 0x1_0000, k) == (k == 0 && Lane(o, 15))
  {
    hide Pow2, Shl;
    var i := 15 - k;
    Widths();
    HighBit(c, 16, 16);
    assert Bit(c / 2, i) == Bit(c, i + 1);
    ShlIsMul(o, 15);
    BitShl(o, 15, i);
    BitMod(o * 0x8000, 16, i);
  }

  /** The same to the left. */
  lemma {:induction false} ShiftLeftLanes(c: u16, o: u16, k: nat)
    requires k < 16
    ensures Lane(c * 2 % 0x1_0000, k) == (k < 15 && Lane(c, k + 1))
    ensures Lane(o / 0x8000, k) == (k == 15 && Lane(o, 0))
  {
    hide Pow2, Shr;
    var i := 15 - k;
    Widths();
    BitMod(c * 2, 16, i);
    assert Bit(c * 2, i) == (i > 0 && Bit(c, i - 1));
    ShrIsDiv(o, 15);
    BitShr(o, 15, i);
    if k < 15 {
      HighBit(o, 16, 15 + i);
    }
  }

  /** Each cell's left neighbour: the word shifted right, its first lane fed by the word before. */
  function FromLeft(c: u16, l: u16): (r: u16)
    ensures forall k: nat | k < 16 :: Lane(r, k) == if k == 0 then Lane(l, 15) else Lane(c, k - 1)
  {
    var r := Or16(c / 2, l * 0x8000 % 0x1_0000);
    assert forall k: nat | k < 16 :: Lane(r, k) == if k == 0 then Lane(l, 15) else Lane(c, k - 1) by {
      forall k: nat | k < 16
        ensures Lane(r, k) == if k == 0 then Lane(l, 15) else Lane(c, k - 1)
      { ShiftRightLanes(c, l, k); }
    }
    r
  }

  /** Each cell's right neighbour: the word shifted left, its last lane fed by the word after. */
  function FromRight(c: u16, n: u16): (r: u16)
    ensures forall k: nat | k < 16 :: Lane(r, k) == if k == 15 then Lane(n, 0) else Lane(c, k + 1)
  {
    var r := Or16(c * 2 % 0x1_0000, n / 0x8000);
    assert forall k: nat | k < 16 :: Lane(r, k) == if k == 15 then Lane(n, 0) else Lane(c, k + 1) by {
      forall k: nat | k < 16
        ensures Lane(r, k) == if k == 15 then Lane(n, 0) else Lane(c, k + 1)
      { ShiftLeftLanes(c, n, k); }
    }
    r
  }

  lemma {:induction false} LaneZero(k: nat)
    requires k < 16
    ensures !Lane(0, k)
  {
    ZeroBit(15 - k);
  }

  /** A word is determined by its lanes. */
  lemma {:induction false} WordExt(a: u16, b: u16)
    requires forall k: nat | k < 16 :: Lane(a, k) == Lane(b, k)
    ensures a == b
  {
    forall i: nat | i < 16
      ensures Bit(a, i) == Bit(b, i)
    {
      assert Lane(a, 15 - i) == Lane(b, 15 - i);
    }
    Widths();
    BitExt(a, b, 16);
  }

  // ---- the neighbour count ----

  function Maj(a: u16, b: u16, c: u16): u16 {
    Or16(Or16(And16(a, b), And16(a, c)), And16(b, c))
  }

  function Xor3(a: u16, b: u16, c: u16): u16 {
    Xor16(Xor16(a, b), c)
  }

  /** The three packed rows around a word: shifted left, centre, shifted right, above, here and below. */
  datatype Rows = Rows(uL: u16, uC: u16, uR: u16, mL: u16, mC: u16, mR: u16, dL: u16, dC: u16, dR: u16)

  /** The four binary digits of the neighbour counts of all lanes. */
  datatype Sums = Sums(bit0: u16, bit1: u16, bit2: u16, bit3: u16)

  /** The carry-save adder tree. */
  function AddNeighbours(r: Rows): Sums {
    var sum1, carry1 := Xor3(r.uL, r.uC, r.uR), Maj(r.uL, r.uC, r.uR);
    var sum2, carry2 := Xor3(r.mL, r.mR, r.dL), Maj(r.mL, r.mR, r.dL);
    var sum3, carry3 := Xor16(r.dC, r.dR), And16(r.dC, r.dR);
    var sum4, carry4 := Xor3(sum1, sum2, sum3), Maj(sum1, sum2, sum3);
    var tSum, tCarry := Xor3(carry1, carry2, carry3), Maj(carry1, carry2, carry3);
    var c1 := And16(tSum, carry4);
    Sums(sum4, Xor16(tSum, carry4), Xor16(tCarry, c1), And16(tCarry, c1))
  }

  /** Twos and threes: the lanes whose count is 2 or 3. */
  function TwoOrThree(n: Sums): u16 {
    And16(And16(n.bit1, Not16(n.bit2)), Not16(n.bit3))
  }

  /** The rule as life2.c and life2_2x.c compute it. */
  function NextWord(r: Rows): u16 {
    var n := AddNeighbours(r);
    And16(TwoOrThree(n), Or16(n.bit0, r.mC))
  }

  /** The rule as life.c computes it: count is three, or count is two and the cell is alive. */
  function NextWordN2N3(r: Rows): u16 {
    var n := AddNeighbours(r);
    var n2 := And16(And16(And16(Not16(n.bit0), n.bit1), Not16(n.bit2)), Not16(n.bit3));
    var n3 := And16(And16(And16(n.bit0, n.bit1), Not16(n.bit2)), Not16(n.bit3));
    Or16(n3, And16(n2, r.mC))
  }

  /** The two forms of the rule are the same function on words. */
  lemma {:induction false} SimplifiedRule(r: Rows)
    ensures NextWordN2N3(r) == NextWord(r)
  {
    WordExt(NextWordN2N3(r), NextWord(r));
  }

  function LaneCount(r: Rows, k: nat): nat
    requires k < 16
  {
    Digit(Lane(r.uL, k)) + Digit(Lane(r.uC, k)) + Digit(Lane(r.uR, k)) + Digit(Lane(r.mL, k)) +
    Digit(Lane(r.mR, k)) + Digit(Lane(r.dL, k)) + Digit(Lane(r.dC, k)) + Digit(Lane(r.dR, k))
  }

  /** A full adder in every lane: three bits in, a sum bit and a carry of weight two out. */
  lemma {:induction false} FullAdder(a: u16, b: u16, c: u16, k: nat)
    requires k < 16
    ensures Digit(Lane(a, k)) + Digit(Lane(b, k)) + Digit(Lane(c, k)) ==
            Digit(Lane(Xor3(a, b, c), k)) + 2 * Digit(Lane(Maj(a, b, c), k))
  {
  }

  /** The adder tree loses no carry: its four digits are the number of live neighbours. */
  lemma {:induction false} AdderTree(r: Rows, k: nat)
    requires k < 16
    ensures var n := AddNeighbours(r);
            Digit(Lane(n.bit0, k)) + 2 * Digit(Lane(n.bit1, k)) +
            4 * Digit(Lane(n.bit2, k)) + 8 * Digit(Lane(n.bit3, k)) == LaneCount(r, k)
  {
    FullAdder(r.uL, r.uC, r.uR, k);
    FullAdder(r.mL, r.mR, r.dL, k);
    var sum1, carry1 := Xor3(r.uL, r.uC, r.uR), Maj(r.uL, r.uC, r.uR);
    var sum2, carry2 := Xor3(r.mL, r.mR, r.dL), Maj(r.mL, r.mR, r.dL);
    var sum3, carry3 := Xor16(r.dC, r.dR), And16(r.dC, r.dR);
    FullAdder(sum1, sum2, sum3, k);
    FullAdder(carry1, carry2, carry3, k);
  }

  /** Every lane of the word the adder computes is Conway's rule for that lane. */
  lemma {:induction false} NextWordLane(r: Rows, k: nat)
    requires k < 16
    ensures Lane(NextWord(r), k) == Rule(Lane(r.mC, k), LaneCount(r, k))
  {
    AdderTree(r, k);
  }
}
