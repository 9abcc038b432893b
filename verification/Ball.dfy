/** The bouncing ball of ball2.c: 8.8 fixed-point motion in a box, random jitter at the walls, and a
    speed that is renormalised by an integer square root so that energy does not drift. Every 16-bit
    operation is written as a checked value: the types show that none overflows. */
module Ball {
  import opened Bits

  type i16 = x: int | -0x8000 <= x < 0x8000

  const SCREEN_COLS := 32
  const SCREEN_ROWS := 24
  const MAX_X: i16 := 31 * 256
  const MAX_Y: i16 := 23 * 256
  const SPEED2: u16 := 8192
  const MAX_AXIS: u16 := 90
  const DELTA_S: i16 := 7
  const JITTER_THRESHOLD: u16 := 3276
  const BORDER_TOTAL := 108

  // ---- integer square root ----

  /** The weights of the root's digits; the bit under test is the square of half a weight. */
  predicate IsWeight(g: nat) {
    g == 1 || g == 2 || g == 4 || g == 8 || g == 16 || g == 32 || g == 64 || g == 128 || g == 256
  }

  /** The bit under test for weight `g`. */
  function BitOf(g: nat): nat {
    (g / 2) * (g / 2)
  }

  lemma {:induction false} QuarterBit(g: nat)
    requires IsWeight(g) && g > 1
    ensures IsWeight(g / 2) && BitOf(g) / 4 == BitOf(g / 2) && BitOf(g) > 0
    ensures 2 * (g / 2) == g
  {
  }

  /** With the root so far `r`, the digit h belongs to the root when 2 * r * h + h * h still fits. */
  lemma {:induction false} DigitStep(v: int, r: nat, h: nat)
    ensures (r + h) * (r + h) == r * r + (r * (2 * h) + h * h)
    ensures (r + h) * h == r * h + h * h && r * (2 * h) == 2 * (r * h)
    ensures v - r * r >= r * (2 * h) + h * h <==> (r + h) * (r + h) <= v
  {
  }

  lemma {:induction false} TrialFits(r: nat, g: nat)
    requires IsWeight(g) && r + g <= 256
    ensures r * g + BitOf(g) < 0x1_0000
  {
    MulLe(g, r, 256 - g);
  }

  /** `isqrt16`: the floor of the square root, digit by digit. The registers hold the root so far
      times the weight `g`, and what remains of the value after subtracting its square. */
  method Isqrt16(v: u16) returns (root: u16)
    ensures IsRoot(root, v)
  {
    hide IsWeight, BitOf;
    var value: u16, res: u16, bit: u16 := v, 0, 0x4000;
    ghost var g: nat := 256;
    TopWeight();
    while bit > value
      invariant IsWeight(g) && bit == BitOf(g) && v < g * g
      decreases bit
    {
      WeightOne();
      QuarterBit(g);
      HalfSquare(g);
      bit := bit / 4;
      g := g / 2;
    }
    ghost var r: nat := 0;
    WeightAtMost(g);
    while bit != 0
      invariant IsWeight(g) && bit == BitOf(g)
      invariant r + g <= 256 && res == r * g
      invariant value == v - r * r && v < (r + g) * (r + g)
      decreases bit
    {
      WeightOne();
      TrialFits(r, g);
      QuarterBit(g);
      HalfSquare(g);
      DigitStep(v, r, g / 2);
      var trial: u16 := res + bit;
      if value >= trial {
        value := value - trial;
        res := res / 2 + bit;
        r := r + g / 2;
      } else {
        res := res / 2;
      }
      bit := bit / 4;
      g := g / 2;
    }
    LastWeight(g);
    root := res;
  }

  lemma {:induction false} TopWeight()
    ensures IsWeight(256) && BitOf(256) == 0x4000
  {
  }

  lemma {:induction false} WeightOne()
    ensures BitOf(1) == 0
  {
  }

  lemma {:induction false} HalfSquare(g: nat)
    ensures BitOf(g) == (g / 2) * (g / 2)
  {
  }

  lemma {:induction false} WeightAtMost(g: nat)
    requires IsWeight(g)
    ensures 1 <= g <= 256
  {
  }

  lemma {:induction false} LastWeight(g: nat)
    requires IsWeight(g) && BitOf(g) == 0
    ensures g == 1
  {
  }

  /** The exact floor square root. */
  ghost predicate IsRoot(root: nat, v: int) {
    root * root <= v < (root + 1) * (root + 1)
  }

  /** Floor square roots are unique and monotone. */
  lemma {:induction false} RootMonotone(v: int, x: nat, w: int, y: nat)
    requires x * x <= v <= w < (y + 1) * (y + 1)
    ensures x <= y
  {
    if x > y {
      MulLe(x, y + 1, x);
      MulLe(y + 1, y + 1, x);
    }
  }

  // ---- the border characters ----

  /** The index of a border cell in the `border` array, or -1 inside. */
  function BorderIndex(row: nat, col: nat): int {
    if row == 0 then col
    else if row == SCREEN_ROWS - 1 then 32 + 22 + col
    else if col == SCREEN_COLS - 1 && row > 0 && row < SCREEN_ROWS - 1 then 32 + (row - 1)
    else if col == 0 && row > 0 && row < SCREEN_ROWS - 1 then 32 + 22 + 32 + (row - 1)
    else -1
  }

  predicate OnScreen(row: nat, col: nat) {
    row < SCREEN_ROWS && col < SCREEN_COLS
  }

  /** On screen, the index is within the array exactly for border cells, and no two cells share one. */
  lemma {:induction false} BorderIndexExact(row: nat, col: nat, row': nat, col': nat)
    requires OnScreen(row, col) && OnScreen(row', col')
    ensures var i := BorderIndex(row, col);
            if row == 0 || row == SCREEN_ROWS - 1 || col == 0 || col == SCREEN_COLS - 1
            then 0 <= i < BORDER_TOTAL else i == -1
    ensures BorderIndex(row, col) == BorderIndex(row', col') >= 0 ==> row == row' && col == col'
  {
  }

  /** The character after a hit: 0 to 9, then A to Z, then 0 again. */
  function BorderNext(v: u8): u8 {
    if 48 <= v <= 56 then v + 1
    else if v == 57 then 65
    else if 65 <= v <= 89 then v + 1
    else 48
  }

  // ---- the ball ----

  /** Each use of the generator is a fresh word, so one frame's randomness is three of them. */
  datatype Random = Random(first: u16, second: u16, third: u16)

  function AbsU16(x: i16): u16
    requires x != -0x8000
  {
    if x < 0 then -x else x
  }

  /** A speed component on the scaled grid, with its sign. */
  function Velocity(sign: int, s: u16): i16
    requires s <= MAX_AXIS
  {
    if sign < 0 then -(s * 4) else s * 4
  }

  /** The magnitude of a velocity on the scaled grid. */
  function Scaled(vel: i16): u16
    requires vel != -0x8000
  {
    AbsU16(vel) / 4
  }

  lemma {:induction false} VelocityMagnitude(sign: int, s: u16)
    requires s <= MAX_AXIS
    ensures Velocity(sign, s) != -0x8000 && Scaled(Velocity(sign, s)) == s
  {
  }

  function Clamp(tmp: i16): (s: u16)
    ensures s <= MAX_AXIS
  {
    if tmp < 0 then 0 else if tmp > MAX_AXIS then MAX_AXIS else tmp
  }

  // ---- what a frame does ----

  datatype Ball = Ball(posX: i16, posY: i16, velX: i16, velY: i16, signX: int, signY: int, border: seq<u8>)

  /** Energy never drifts: each component is at most the largest root, and the sum of squares stays
      within two roots below the initial energy. */
  ghost predicate EnergyKept(vx: nat, vy: nat) {
    && vx <= MAX_AXIS && vy <= MAX_AXIS
    && SPEED2 - 2 * MAX_AXIS <= vx * vx + vy * vy <= SPEED2
  }

  /** The ball is in the box, and its speed carries the initial energy. */
  ghost predicate Bounded(b: Ball) {
    && |b.border| == BORDER_TOTAL
    && 0 <= b.posX <= MAX_X && 0 <= b.posY <= MAX_Y
    && b.velX != -0x8000 && b.velY != -0x8000
    && EnergyKept(Scaled(b.velX), Scaled(b.velY))
    && b.velX == Velocity(b.signX, Scaled(b.velX)) && b.velY == Velocity(b.signY, Scaled(b.velY))
  }

  /** After a bounce a draw below the threshold moves one component by the step, and the other takes what is
      left of the energy; a corner hit picks one of the two by a further draw. */
  ghost predicate Jittered(vx: u16, vy: u16, bouncedX: bool, bouncedY: bool, random: Random, vx': u16, vy': u16) {
    if random.first / 2 >= JITTER_THRESHOLD then vx' == vx && vy' == vy
    else
      vx <= MAX_AXIS && vy <= MAX_AXIS &&
      var delta := if random.second >= 0x8000 then DELTA_S else -DELTA_S;
      if bouncedX && (!bouncedY || random.third < 0x8000)
      then vx' == Clamp(vx + delta) && IsRoot(vy', SPEED2 - vx' * vx')
      else vy' == Clamp(vy + delta) && IsRoot(vx', SPEED2 - vy' * vy')
  }

  function Clip(x: int, max: int): int {
    if x < 0 then 0 else if x > max then max else x
  }

  predicate Outside(x: int, max: int) {
    x < 0 || x > max
  }

  function Sign(x: int, max: int, sign: int): int {
    if x < 0 then 1 else if x > max then -1 else sign
  }

  /** The border after the ball leaves cell (`row`, `col`): a hit advances the character there. */
  function Touched(border: seq<u8>, row: nat, col: nat): seq<u8> {
    var i := BorderIndex(row, col);
    if 0 <= i < |border| then border[i := BorderNext(border[i])] else border
  }

  /** One frame: the ball moves, stops at a wall and turns there, and perhaps changes its direction. */
  ghost predicate Moved(b: Ball, random: Random, c: Ball)
    requires Bounded(b)
  {
    var x, y := b.posX + b.velX, b.posY + b.velY;
    && c.posX == Clip(x, MAX_X) && c.posY == Clip(y, MAX_Y)
    && c.signX == Sign(x, MAX_X, b.signX) && c.signY == Sign(y, MAX_Y, b.signY)
    && c.border == Touched(b.border, b.posY / 256, b.posX / 256)
    && c.velX != -0x8000 && c.velY != -0x8000
    && Turned(b, random, Outside(x, MAX_X), Outside(y, MAX_Y), c)
  }

  ghost predicate Turned(b: Ball, random: Random, bouncedX: bool, bouncedY: bool, c: Ball)
    requires b.velX != -0x8000 && b.velY != -0x8000 && c.velX != -0x8000 && c.velY != -0x8000
  {
    if !bouncedX && !bouncedY then c.velX == b.velX && c.velY == b.velY
    else
      && Scaled(c.velX) <= MAX_AXIS && Scaled(c.velY) <= MAX_AXIS
      && Jittered(Scaled(b.velX), Scaled(b.velY), bouncedX, bouncedY, random, Scaled(c.velX), Scaled(c.velY))
      && c.velX == Velocity(c.signX, Scaled(c.velX)) && c.velY == Velocity(c.signY, Scaled(c.velY))
  }

  // ---- what every run keeps ----

  /** One component changes within its range and the other takes the rest of the energy. */
  lemma {:induction false} Rebalanced(s: nat, root: nat)
    requires s <= MAX_AXIS
    requires IsRoot(root, SPEED2 - s * s)
    ensures EnergyKept(s, root) && EnergyKept(root, s)
  {
    assert 90 * 90 <= SPEED2 < 91 * 91;
    MulLe(s, 0, s);
    RootMonotone(SPEED2 - s * s, root, SPEED2, 90);
    NextSquare(root);
  }

  lemma {:induction false} NextSquare(x: int)
    ensures (x + 1) * (x + 1) == x * x + 2 * x + 1
  {
  }

  lemma {:induction false} SquareFits(s: nat)
    requires s <= MAX_AXIS
    ensures 0 <= s * s <= SPEED2
  {
    MulLe(s, s, 90);
    MulLe(90, s, 90);
  }

  lemma {:induction false} JitterKeepsEnergy(vx: u16, vy: u16, bouncedX: bool, bouncedY: bool, random: Random,
                                             vx': u16, vy': u16)
    requires EnergyKept(vx, vy) && Jittered(vx, vy, bouncedX, bouncedY, random, vx', vy')
    ensures EnergyKept(vx', vy')
  {
    hide EnergyKept, IsRoot;
    if random.first / 2 < JITTER_THRESHOLD {
      if bouncedX && (!bouncedY || random.third < 0x8000) {
        Rebalanced(vx', vy');
      } else {
        Rebalanced(vy', vx');
      }
    }
  }

  /** Every frame keeps the ball in the box and the energy in its band. */
  lemma {:induction false} MoveKeeps(b: Ball, random: Random, c: Ball)
    requires Bounded(b) && Moved(b, random, c)
    ensures Bounded(c)
  {
    hide EnergyKept, Jittered, BorderIndex;
    var x, y := b.posX + b.velX, b.posY + b.velY;
    var bouncedX, bouncedY := Outside(x, MAX_X), Outside(y, MAX_Y);
    if bouncedX || bouncedY {
      JitterKeepsEnergy(Scaled(b.velX), Scaled(b.velY), bouncedX, bouncedY, random, Scaled(c.velX), Scaled(c.velY));
    }
  }

  /** A frame has exactly one outcome. */
  lemma {:induction false} MoveUnique(b: Ball, random: Random, c: Ball, d: Ball)
    requires Bounded(b) && Moved(b, random, c) && Moved(b, random, d)
    ensures c == d
  {
    hide EnergyKept, BorderIndex, IsRoot, Scaled;
    if Outside(b.posX + b.velX, MAX_X) || Outside(b.posY + b.velY, MAX_Y) {
      RootUnique(SPEED2 - Scaled(c.velX) * Scaled(c.velX), Scaled(c.velY), Scaled(d.velY));
      RootUnique(SPEED2 - Scaled(c.velY) * Scaled(c.velY), Scaled(c.velX), Scaled(d.velX));
    }
  }

  /** Positions and velocities alone: a ball that would leave the box stops at the wall and moves away from it or
      along it; an axis on which it stays inside keeps its direction. */
  lemma {:induction false} TurnsAtWalls(b: Ball, random: Random, c: Ball)
    requires Bounded(b) && Moved(b, random, c)
    ensures b.posX + b.velX < 0 ==> c.posX == 0 && c.velX >= 0 && c.signX == 1
    ensures b.posX + b.velX > MAX_X ==> c.posX == MAX_X && c.velX <= 0 && c.signX == -1
    ensures 0 <= b.posX + b.velX <= MAX_X ==>
              && c.posX == b.posX + b.velX && c.signX == b.signX
              && (b.velX > 0 ==> c.velX >= 0) && (b.velX < 0 ==> c.velX <= 0)
    ensures b.posY + b.velY < 0 ==> c.posY == 0 && c.velY >= 0 && c.signY == 1
    ensures b.posY + b.velY > MAX_Y ==> c.posY == MAX_Y && c.velY <= 0 && c.signY == -1
    ensures 0 <= b.posY + b.velY <= MAX_Y ==>
              && c.posY == b.posY + b.velY && c.signY == b.signY
              && (b.velY > 0 ==> c.velY >= 0) && (b.velY < 0 ==> c.velY <= 0)
  {
    hide EnergyKept, Jittered, BorderIndex, Touched;
  }

  /** Without jitter a wall reverses its own axis and nothing else does. */
  lemma {:induction false} PlainBounce(b: Ball, random: Random, c: Ball)
    requires Bounded(b) && Moved(b, random, c) && random.first >= 6552
    ensures c.velX == if 0 <= b.posX + b.velX <= MAX_X then b.velX else -b.velX
    ensures c.velY == if 0 <= b.posY + b.velY <= MAX_Y then b.velY else -b.velY
  {
    hide EnergyKept, BorderIndex, Touched, IsRoot;
  }

  /** In the open nothing turns the ball, whatever is drawn. */
  lemma {:induction false} OpenMove(b: Ball, random: Random, c: Ball)
    requires Bounded(b) && Moved(b, random, c)
    requires 0 <= b.posX + b.velX <= MAX_X && 0 <= b.posY + b.velY <= MAX_Y
    ensures c.velX == b.velX && c.velY == b.velY
  {
    hide EnergyKept, BorderIndex, Touched;
  }

  /** A speed component of four times `s`, in either direction. */
  predicate Speed(vel: int, s: int) {
    vel == 4 * s || vel == -4 * s
  }

  /** `m` is `s` after the jitter step, within 0 to 90, and `r` is the root of what it leaves of 8192. */
  ghost predicate Stepped(s: int, random: Random, m: int, r: int) {
    var step := if random.second >= 0x8000 then 7 else -7;
    && m == (if s + step < 0 then 0 else if s + step > 90 then 90 else s + step)
    && r >= 0 && r * r <= 8192 - m * m < (r + 1) * (r + 1)
  }

  /** Jitter at an x wall steps the x speed, in a corner only if the third draw is low; y takes the rest. */
  lemma {:induction false} JitterAtX(b: Ball, random: Random, c: Ball) returns (s: int, m: int, r: int)
    requires Bounded(b) && Moved(b, random, c) && random.first < 6552
    requires !(0 <= b.posX + b.velX <= MAX_X)
    requires 0 <= b.posY + b.velY <= MAX_Y || random.third < 0x8000
    ensures Speed(b.velX, s) && s >= 0 && Stepped(s, random, m, r) && Speed(c.velX, m) && Speed(c.velY, r)
  {
    hide EnergyKept, BorderIndex, Touched;
    s, m, r := Scaled(b.velX), Scaled(c.velX), Scaled(c.velY);
  }

  /** Jitter at a y wall likewise, in a corner if the third draw is high. */
  lemma {:induction false} JitterAtY(b: Ball, random: Random, c: Ball) returns (s: int, m: int, r: int)
    requires Bounded(b) && Moved(b, random, c) && random.first < 6552
    requires !(0 <= b.posY + b.velY <= MAX_Y)
    requires 0 <= b.posX + b.velX <= MAX_X || random.third >= 0x8000
    ensures Speed(b.velY, s) && s >= 0 && Stepped(s, random, m, r) && Speed(c.velY, m) && Speed(c.velX, r)
  {
    hide EnergyKept, BorderIndex, Touched;
    s, m, r := Scaled(b.velY), Scaled(c.velY), Scaled(c.velX);
  }

  lemma {:induction false} RootUnique(v: int, x: nat, y: nat)
    ensures IsRoot(x, v) && IsRoot(y, v) ==> x == y
  {
    if IsRoot(x, v) && IsRoot(y, v) {
      RootMonotone(v, x, v, y);
      RootMonotone(v, y, v, x);
    }
  }

  /** The set-up code: the ball at the centre with speed one on both axes, the border all '0'. */
  function Start(): Ball {
    Ball(16 * 256, 12 * 256, 256, 256, 1, 1, seq(BORDER_TOTAL, i => 48))
  }

  /** Successive frames from the start. */
  ghost predicate IsRun(states: seq<Ball>, randoms: seq<Random>) {
    && |states| == |randoms| + 1 && states[0] == Start()
    && forall i | 0 <= i < |randoms| :: Follows(states, randoms, i)
  }

  /** A frame, where its arithmetic makes sense. */
  ghost predicate Follows(states: seq<Ball>, randoms: seq<Random>, i: nat)
    requires i < |randoms| && i + 1 < |states|
  {
    Bounded(states[i]) ==> Moved(states[i], randoms[i], states[i + 1])
  }

  /** In every run, for every random sequence, the ball stays in the box and its energy in the band. */
  lemma {:induction false} RunKeeps(states: seq<Ball>, randoms: seq<Random>, k: nat)
    requires IsRun(states, randoms) && k < |states|
    ensures Bounded(states[k])
  {
    if k == 0 {
      StartBounded();
    } else {
      assert Follows(states, randoms, k - 1);
      RunKeeps(states, randoms, k - 1);
      MoveKeeps(states[k - 1], randoms[k - 1], states[k]);
    }
  }

  /** Whatever is drawn, the ball runs diagonally for eleven frames, and the twelfth stops it at the lower wall. */
  lemma {:induction false} FirstWall(states: seq<Ball>, randoms: seq<Random>, k: nat)
    requires IsRun(states, randoms) && k < |states| && k <= 12
    ensures states[k].posX == 4096 + 256 * k
    ensures k <= 11 ==> states[k].posY == 3072 + 256 * k && states[k].velX == states[k].velY == 256
    ensures k == 12 ==> states[k].posY == 5888 && states[k].velY <= 0
    decreases k
  {
    hide Bounded, Moved;
    if k > 0 {
      assert Follows(states, randoms, k - 1);
      RunKeeps(states, randoms, k - 1);
      FirstWall(states, randoms, k - 1);
      TurnsAtWalls(states[k - 1], randoms[k - 1], states[k]);
      if k <= 11 {
        OpenMove(states[k - 1], randoms[k - 1], states[k]);
      }
    }
  }

  lemma {:induction false} StartBounded()
    ensures Bounded(Start())
  {
  }

  // ---- the border counts ----

  /** How often the ball has left this cell in the first `k` frames. */
  ghost function Hits(states: seq<Ball>, k: nat, row: nat, col: nat): nat
    requires k <= |states|
  {
    if k == 0 then 0
    else
      Hits(states, k - 1, row, col) +
      if states[k - 1].posY / 256 == row && states[k - 1].posX / 256 == col then 1 else 0
  }

  /** The digits of base 36: 0 to 9, then A to Z. */
  function Digit(n: nat): u8
    requires n < 36
  {
    if n < 10 then 48 + n else 55 + n
  }

  lemma {:induction false} DigitAfter(n: nat)
    ensures BorderNext(Digit(n % 36)) == Digit((n + 1) % 36)
  {
    assert (n + 1) % 36 == if n % 36 == 35 then 0 else n % 36 + 1;
  }

  /** In every run, each border cell shows the number of times that the ball has left it, modulo 36. */
  lemma {:induction false} BorderCounts(states: seq<Ball>, randoms: seq<Random>, k: nat, row: nat, col: nat)
    requires IsRun(states, randoms) && k < |states| && OnScreen(row, col)
    requires row == 0 || row == SCREEN_ROWS - 1 || col == 0 || col == SCREEN_COLS - 1
    ensures |states[k].border| == BORDER_TOTAL && 0 <= BorderIndex(row, col) < BORDER_TOTAL
    ensures states[k].border[BorderIndex(row, col)] == Digit(Hits(states, k, row, col) % 36)
    decreases k
  {
    hide BorderIndex, EnergyKept, Jittered, BorderNext, Digit;
    BorderIndexExact(row, col, row, col);
    if k == 0 {
      FirstDigit();
    } else {
      var b := states[k - 1];
      RunKeeps(states, randoms, k - 1);
      BorderCounts(states, randoms, k - 1, row, col);
      assert Follows(states, randoms, k - 1);
      DigitAfter(Hits(states, k - 1, row, col));
      BorderIndexExact(b.posY / 256, b.posX / 256, row, col);
    }
  }

  lemma {:induction false} FirstDigit()
    ensures Digit(0 % 36) == 48
  {
  }

  // ---- the program ----

  class Simulation {
    var posX: i16
    var posY: i16
    var velX: i16
    var velY: i16
    var signX: int
    var signY: int
    const border: array<u8>

    ghost function State(): Ball
      reads this, border
    {
      Ball(posX, posY, velX, velY, signX, signY, border[..])
    }

    constructor ()
      ensures fresh(border) && State() == Start()
    {
      posX, posY := 16 * 256, 12 * 256;
      signX, signY := 1, 1;
      velX, velY := 256, 256;
      border := new u8[BORDER_TOTAL](i => 48);
      new;
      var maxAxis := Isqrt16(SPEED2);
      RootMonotone(SPEED2, maxAxis, SPEED2, 90);
      RootMonotone(SPEED2, 90, SPEED2, maxAxis);
      assert maxAxis == MAX_AXIS;
      assert border[..] == Start().border;
    }

    /** A hit on the border advances the character there; elsewhere nothing changes. */
    method TouchBorder()
      requires border.Length == BORDER_TOTAL && 0 <= posX <= MAX_X && 0 <= posY <= MAX_Y
      modifies border
      ensures border[..] == Touched(old(border[..]), posY / 256, posX / 256)
    {
      hide BorderIndex;
      var ballX, ballY := posX / 256, posY / 256;
      BorderIndexExact(ballY, ballX, ballY, ballX);
      var idx := BorderIndex(ballY, ballX);
      if idx >= 0 {
        border[idx] := BorderNext(border[idx]);
      }
    }

    /** One pass of the loop. No 16-bit operation in it overflows: the types of the variables say so. */
    method Frame(random: Random)
      requires Bounded(State())
      modifies this, border
      ensures Moved(old(State()), random, State()) && Bounded(State())
    {
      hide EnergyKept, Jittered, Touched;
      ghost var b := State();
      SpeedBounds(b);
      TouchBorder();
      var nextX: i16 := posX + velX;
      var nextY: i16 := posY + velY;
      var bouncedX, bouncedY := false, false;
      if nextX < 0 {
        nextX, signX, bouncedX := 0, 1, true;
      } else if nextX > MAX_X {
        nextX, signX, bouncedX := MAX_X, -1, true;
      }
      if nextY < 0 {
        nextY, signY, bouncedY := 0, 1, true;
      } else if nextY > MAX_Y {
        nextY, signY, bouncedY := MAX_Y, -1, true;
      }
      if bouncedX || bouncedY {
        var vxS: u16, vyS: u16 := AbsU16(velX) / 4, AbsU16(velY) / 4;
        vxS, vyS := Jitter(vxS, vyS, bouncedX, bouncedY, random);
        velX := Velocity(signX, vxS);
        velY := Velocity(signY, vyS);
        VelocityMagnitude(signX, vxS);
        VelocityMagnitude(signY, vyS);
      }
      posX, posY := nextX, nextY;
      MoveKeeps(b, random, State());
    }
  }

  lemma {:induction false} SpeedBounds(b: Ball)
    requires Bounded(b)
    ensures -360 <= b.velX <= 360 && -360 <= b.velY <= 360
  {
  }

  /** The jitter after a bounce. */
  method Jitter(vx: u16, vy: u16, bouncedX: bool, bouncedY: bool, random: Random) returns (vxS: u16, vyS: u16)
    requires EnergyKept(vx, vy) && (bouncedX || bouncedY)
    ensures Jittered(vx, vy, bouncedX, bouncedY, random, vxS, vyS)
    ensures vxS <= MAX_AXIS && vyS <= MAX_AXIS
  {
    hide EnergyKept, IsRoot;
    EnergyBounds(vx, vy);
    vxS, vyS := vx, vy;
    var adjustX, adjustY := bouncedX, bouncedY;
    if random.first / 2 < JITTER_THRESHOLD {
      var delta: i16 := if random.second >= 0x8000 then DELTA_S else -DELTA_S;
      if adjustX && adjustY {
        if random.third >= 0x8000 {
          adjustX := false;
        } else {
          adjustY := false;
        }
      }
      if adjustX {
        vxS, vyS := Adjust(vxS, delta);
      } else if adjustY {
        vyS, vxS := Adjust(vyS, delta);
      }
    }
  }

  /** Moves one component by the step and gives the other what is left of the energy. */
  method Adjust(s: u16, delta: i16) returns (moved: u16, other: u16)
    requires s <= MAX_AXIS && -DELTA_S <= delta <= DELTA_S
    ensures moved == Clamp(s + delta) && IsRoot(other, SPEED2 - moved * moved)
    ensures other <= MAX_AXIS
  {
    hide EnergyKept, IsRoot;
    moved := Clamp(s + delta);
    SquareFits(moved);
    other := Isqrt16(SPEED2 - moved * moved);
    Rebalanced(moved, other);
    EnergyBounds(moved, other);
  }

  lemma {:induction false} EnergyBounds(vx: nat, vy: nat)
    requires EnergyKept(vx, vy)
    ensures vx <= MAX_AXIS && vy <= MAX_AXIS
  {
  }

  /** The main loop, for as many frames as there are random words for. */
  method Run(randoms: seq<Random>) returns (ball: Simulation, ghost states: seq<Ball>)
    ensures IsRun(states, randoms) && ball.State() == states[|randoms|]
  {
    hide Moved, Bounded;
    ball := new Simulation();
    states := [Start()];
    StartBounded();
    for i := 0 to |randoms|
      invariant fresh(ball) && fresh(ball.border)
      invariant |states| == i + 1 && states[0] == Start() && states[i] == ball.State() && Bounded(ball.State())
      invariant forall k | 0 <= k < i :: Follows(states, randoms, k)
    {
      ghost var before := states;
      ball.Frame(randoms[i]);
      states := states + [ball.State()];
      forall k | 0 <= k < i + 1
        ensures Follows(states, randoms, k)
      {
        assert k < i ==> Follows(before, randoms, k);
      }
    }
  }
}
