/** Keccak-f[1600] on 25 lanes in place, against the step mappings of FIPS 202, section 3.2, given
    bit by bit. */
module KeccakF {
  import opened Words
  import opened Bits

  type Lanes = s: seq<Word> | |s| == 25 witness seq(25, i => 0)

  // ---------------------------------------------------------------- the step mappings

  /** A state as the standard's bit string: bit (x, y, z) at place 64 (5y + x) + z. */
  type Cube = a: seq<bool> | |a| == 1600 witness seq(1600, i => false)

  function Spot(x: nat, y: nat, z: nat): (k: nat)
    requires x < 5 && y < 5 && z < 64
    ensures k < 1600 && k / 64 % 5 == x && k / 320 == y && k % 64 == z
  {
    64 * (5 * y + x) + z
  }

  function At(a: Cube, x: nat, y: nat, z: nat): bool
    requires x < 5 && y < 5 && z < 64
  {
    a[Spot(x, y, z)]
  }

  /** Offsets of rho by lane 5y + x (table 2 of the standard, modulo 64). */
  const RHO: seq<nat> := [0, 1, 62, 28, 27, 36, 44, 6, 55, 20, 3, 10, 43, 25, 39, 41, 45, 15, 21, 8, 18, 2, 61, 56, 14]

  function RhoOffset(lane: nat): (r: nat)
    requires lane < 25
    ensures r < 64
  {
    RHO[lane]
  }

  function Parity(a: Cube, x: nat, z: nat): bool
    requires x < 5 && z < 64
  {
    At(a, x, 0, z) != (At(a, x, 1, z) != (At(a, x, 2, z) != (At(a, x, 3, z) != At(a, x, 4, z))))
  }

  function ThetaBit(a: Cube, x: nat, y: nat, z: nat): bool
    requires x < 5 && y < 5 && z < 64
  {
    At(a, x, y, z) != (Parity(a, (x + 4) % 5, z) != Parity(a, (x + 1) % 5, (z + 63) % 64))
  }

  function Theta(a: Cube): Cube {
    seq(1600, k requires 0 <= k < 1600 => ThetaBit(a, k / 64 % 5, k / 320, k % 64))
  }

  function RhoBit(a: Cube, x: nat, y: nat, z: nat): bool
    requires x < 5 && y < 5 && z < 64
  {
    At(a, x, y, (z + 64 - RhoOffset(5 * y + x)) % 64)
  }

  function Rho(a: Cube): Cube {
    seq(1600, k requires 0 <= k < 1600 => RhoBit(a, k / 64 % 5, k / 320, k % 64))
  }

  function PiBit(a: Cube, x: nat, y: nat, z: nat): bool
    requires x < 5 && y < 5 && z < 64
  {
    At(a, (x + 3 * y) % 5, x, z)
  }

  function Pi(a: Cube): Cube {
    seq(1600, k requires 0 <= k < 1600 => PiBit(a, k / 64 % 5, k / 320, k % 64))
  }

  function ChiBit(a: Cube, x: nat, y: nat, z: nat): bool
    requires x < 5 && y < 5 && z < 64
  {
    At(a, x, y, z) != (!At(a, (x + 1) % 5, y, z) && At(a, (x + 2) % 5, y, z))
  }

  function Chi(a: Cube): Cube {
    seq(1600, k requires 0 <= k < 1600 => ChiBit(a, k / 64 % 5, k / 320, k % 64))
  }

  function IotaBit(a: Cube, round: nat, x: nat, y: nat, z: nat): bool
    requires x < 5 && y < 5 && z < 64
  {
    At(a, x, y, z) != (x == 0 && y == 0 && RoundBit(round, z))
  }

  function Iota(a: Cube, round: nat): Cube {
    seq(1600, k requires 0 <= k < 1600 => IotaBit(a, round, k / 64 % 5, k / 320, k % 64))
  }

  /** One step of the shift register of algorithm 5: shift, and feed the bit shifted out back
      into the places 0, 4, 5 and 6. */
  function Shift(r: Byte): Byte {
    if r < 0x80 then 2 * r else XorByte(2 * (r - 0x80), 0x71)
  }

  function Register(t: nat): Byte {
    if t == 0 then 1 else Shift(Register(t - 1))
  }

  /** rc(t), the register's lowest bit after t steps. */
  function Rc(t: nat): bool {
    Register(t) % 2 == 1
  }

  /** Bit z of the constant of a round: rc(j + 7 * round) at the places 2^j - 1. */
  function RoundBit(round: nat, z: nat): bool {
    if z == 0 then Rc(7 * round)
    else if z == 1 then Rc(7 * round + 1)
    else if z == 3 then Rc(7 * round + 2)
    else if z == 7 then Rc(7 * round + 3)
    else if z == 15 then Rc(7 * round + 4)
    else if z == 31 then Rc(7 * round + 5)
    else if z == 63 then Rc(7 * round + 6)
    else false
  }

  function Rnd(a: Cube, round: nat): Cube {
    Iota(Chi(Pi(Rho(Theta(a)))), round)
  }

  function Rounds(a: Cube, n: nat): Cube {
    if n == 0 then a else Rnd(Rounds(a, n - 1), n - 1)
  }

  // ---------------------------------------------------------------- the round in input bits

  /** Whether an odd number of the bits is set. */
  predicate Odd(bits: seq<bool>) {
    bits != [] && bits[0] != Odd(bits[1..])
  }

  /** The five bits of column x at z. */
  function Five(a: Cube, x: nat, z: nat): (bits: seq<bool>)
    requires x < 5 && z < 64
    ensures |bits| == 5
  {
    [At(a, x, 0, z), At(a, x, 1, z), At(a, x, 2, z), At(a, x, 3, z), At(a, x, 4, z)]
  }

  /** The bit itself, column x - 1 at z, and column x + 1 at z - 1. */
  function Eleven(a: Cube, x: nat, y: nat, z: nat): (bits: seq<bool>)
    requires x < 5 && y < 5 && z < 64
    ensures |bits| == 11
  {
    [At(a, x, y, z)] + Five(a, (x + 4) % 5, z) + Five(a, (x + 1) % 5, (z + 63) % 64)
  }

  /** What a round has at (x, y, z) in front of its one nonlinear step: the parity of eleven
      input bits around the place that lane (x, y) is moved and rotated from. */
  predicate InFront(a: Cube, x: nat, y: nat, z: nat)
    requires x < 5 && y < 5 && z < 64
  {
    var u := (x + 3 * y) % 5;
    Odd(Eleven(a, u, x, (z + 64 - RhoOffset(5 * x + u)) % 64))
  }

  lemma OddOfFive(a: bool, b: bool, c: bool, d: bool, e: bool)
    ensures Odd([a, b, c, d, e]) == (a != (b != (c != (d != e))))
  {
    OddOfOne(e);
    assert [d, e][1..] == [e] && [c, d, e][1..] == [d, e];
    assert [b, c, d, e][1..] == [c, d, e] && [a, b, c, d, e][1..] == [b, c, d, e];
    assert Odd([c, d, e]) == (c != Odd([d, e]));
  }

  lemma {:induction false} OddOfBoth(p: seq<bool>, q: seq<bool>)
    ensures Odd(p + q) == (Odd(p) != Odd(q))
  {
    if p == [] {
      assert p + q == q;
    } else {
      OddOfBoth(p[1..], q);
      assert p + q != [] && (p + q)[0] == p[0] && (p + q)[1..] == p[1..] + q;
    }
  }

  lemma ThetaOf(a: Cube, x: nat, y: nat, z: nat)
    requires x < 5 && y < 5 && z < 64
    ensures At(Theta(a), x, y, z) == ThetaBit(a, x, y, z)
  {
    hide ThetaBit;
  }

  lemma OddOfColumn(a: Cube, x: nat, z: nat)
    requires x < 5 && z < 64
    ensures Odd(Five(a, x, z)) == Parity(a, x, z)
  {
    hide At, Odd;
    OddOfFive(At(a, x, 0, z), At(a, x, 1, z), At(a, x, 2, z), At(a, x, 3, z), At(a, x, 4, z));
  }

  lemma ThetaByBits(a: Cube, x: nat, y: nat, z: nat)
    requires x < 5 && y < 5 && z < 64
    ensures At(Theta(a), x, y, z) == Odd(Eleven(a, x, y, z))
  {
    hide At, Theta, Odd, Five, Parity;
    var left, right := Five(a, (x + 4) % 5, z), Five(a, (x + 1) % 5, (z + 63) % 64);
    ThetaOf(a, x, y, z);
    OddOfBoth([At(a, x, y, z)] + left, right);
    OddOfBoth([At(a, x, y, z)], left);
    OddOfOne(At(a, x, y, z));
    OddOfColumn(a, (x + 4) % 5, z);
    OddOfColumn(a, (x + 1) % 5, (z + 63) % 64);
  }

  lemma OddOfOne(b: bool)
    ensures Odd([b]) == b
  {
    assert [b][1..] == [];
  }

  /** The cube with one bit turned over. */
  function Flip(a: Cube, u: nat, v: nat, w: nat): Cube
    requires u < 5 && v < 5 && w < 64
  {
    a[Spot(u, v, w) := !At(a, u, v, w)]
  }

  lemma FlipAt(a: Cube, u: nat, v: nat, w: nat, x: nat, y: nat, z: nat)
    requires u < 5 && v < 5 && w < 64 && x < 5 && y < 5 && z < 64
    ensures At(Flip(a, u, v, w), x, y, z) == (At(a, x, y, z) != (x == u && y == v && z == w))
  {
  }

  lemma FlipParity(a: Cube, u: nat, v: nat, w: nat, x: nat, z: nat)
    requires u < 5 && v < 5 && w < 64 && x < 5 && z < 64
    ensures Parity(Flip(a, u, v, w), x, z) == (Parity(a, x, z) != (x == u && z == w))
  {
    hide At, Flip;
    FlipAt(a, u, v, w, x, 0, z);
    FlipAt(a, u, v, w, x, 1, z);
    FlipAt(a, u, v, w, x, 2, z);
    FlipAt(a, u, v, w, x, 3, z);
    FlipAt(a, u, v, w, x, 4, z);
  }

  /** Turning over one bit turns over exactly eleven bits of theta: the bit itself, column u + 1
      at w, and column u - 1 at w + 1. */
  lemma ThetaSpreads(a: Cube, u: nat, v: nat, w: nat, x: nat, y: nat, z: nat)
    requires u < 5 && v < 5 && w < 64 && x < 5 && y < 5 && z < 64
    ensures (At(Theta(Flip(a, u, v, w)), x, y, z) != At(Theta(a), x, y, z)) ==
      ((x == u && y == v && z == w) || (x == (u + 1) % 5 && z == w) || (x == (u + 4) % 5 && z == (w + 1) % 64))
  {
    hide At, Flip, Theta, Parity;
    ThetaOf(a, x, y, z);
    ThetaOf(Flip(a, u, v, w), x, y, z);
    FlipAt(a, u, v, w, x, y, z);
    FlipParity(a, u, v, w, (x + 4) % 5, z);
    FlipParity(a, u, v, w, (x + 1) % 5, (z + 63) % 64);
  }

  /** A round as one formula over the bits it starts from. */
  lemma RoundByBits(a: Cube, n: nat, x: nat, y: nat, z: nat)
    requires x < 5 && y < 5 && z < 64
    ensures At(Rnd(a, n), x, y, z) ==
      (InFront(a, x, y, z) != ((!InFront(a, (x + 1) % 5, y, z) && InFront(a, (x + 2) % 5, y, z))
        != (x == 0 && y == 0 && RoundBit(n, z))))
  {
    hide Theta, Rho, Pi, Chi, Odd, Eleven, RoundBit, RhoOffset;
    ChiOf(Pi(Rho(Theta(a))), x, y, z);
    FrontOf(a, x, y, z);
    FrontOf(a, (x + 1) % 5, y, z);
    FrontOf(a, (x + 2) % 5, y, z);
  }

  lemma ChiOf(a: Cube, x: nat, y: nat, z: nat)
    requires x < 5 && y < 5 && z < 64
    ensures At(Chi(a), x, y, z) == ChiBit(a, x, y, z)
  {
    hide ChiBit;
  }

  lemma FrontOf(a: Cube, x: nat, y: nat, z: nat)
    requires x < 5 && y < 5 && z < 64
    ensures At(Pi(Rho(Theta(a))), x, y, z) == InFront(a, x, y, z)
  {
    hide Theta, Rho, Pi, Odd, Eleven, RhoOffset, At;
    var u := (x + 3 * y) % 5;
    PiOf(Rho(Theta(a)), x, y, z);
    RhoOf(Theta(a), u, x, z);
    ThetaByBits(a, u, x, (z + 64 - RhoOffset(5 * x + u)) % 64);
  }

  lemma PiOf(a: Cube, x: nat, y: nat, z: nat)
    requires x < 5 && y < 5 && z < 64
    ensures At(Pi(a), x, y, z) == PiBit(a, x, y, z)
  {
    hide PiBit;
  }

  lemma RhoOf(a: Cube, x: nat, y: nat, z: nat)
    requires x < 5 && y < 5 && z < 64
    ensures At(Rho(a), x, y, z) == RhoBit(a, x, y, z)
  {
    hide RhoBit;
  }

  /** The lanes hold the cube: bit z of lane 5y + x is the bit at (x, y, z). */
  ghost predicate Agrees(s: Lanes, a: Cube) {
    forall x: nat, y: nat, z: nat | x < 5 && y < 5 && z < 64 :: At(a, x, y, z) == Bit(s[5 * y + x], z)
  }

  // ---------------------------------------------------------------- the rho table

  const ROTATION: seq<nat> := [1, 3, 6, 10, 15, 21, 28, 36, 45, 55, 2, 14, 27, 41, 56, 8, 25, 43, 62, 18, 39, 61, 20, 44]
  const PI_LANE: seq<nat> := [10, 7, 11, 17, 18, 3, 5, 16, 8, 21, 24, 4, 15, 23, 19, 13, 12, 2, 20, 14, 22, 9, 6, 1]

  /** Position t of the walk: from (1, 0), each step goes from (x, y) to (y, 2x + 3y). */
  function Walk(t: nat): (p: (nat, nat))
    ensures p.0 < 5 && p.1 < 5
  {
    if t == 0 then (1, 0) else var p := Walk(t - 1); (p.1, (2 * p.0 + 3 * p.1) % 5)
  }

  /** The lane visited at step t. */
  function WalkLane(t: nat): (lane: nat)
    ensures lane < 25
  {
    5 * Walk(t).1 + Walk(t).0
  }

  function NextLane(lane: nat): (next: nat)
    ensures lane < 25 ==> next < 25
  {
    5 * ((2 * (lane % 5) + 3 * (lane / 5)) % 5) + lane / 5
  }

  lemma WalkStep(t: nat)
    ensures WalkLane(t + 1) == NextLane(WalkLane(t))
  {
    var p := Walk(t);
    assert (5 * p.1 + p.0) % 5 == p.0 && (5 * p.1 + p.0) / 5 == p.1;
  }

  lemma WalkValues()
    ensures NextLane(1) == 10 && NextLane(10) == 7 && NextLane(7) == 11 && NextLane(11) == 17 && NextLane(17) == 18 && NextLane(18) == 3
    ensures NextLane(3) == 5 && NextLane(5) == 16 && NextLane(16) == 8 && NextLane(8) == 21 && NextLane(21) == 24 && NextLane(24) == 4
    ensures NextLane(4) == 15 && NextLane(15) == 23 && NextLane(23) == 19 && NextLane(19) == 13 && NextLane(13) == 12 && NextLane(12) == 2
    ensures NextLane(2) == 20 && NextLane(20) == 14 && NextLane(14) == 22 && NextLane(22) == 9 && NextLane(9) == 6 && NextLane(6) == 1
  {
  }

  lemma LaneTable(t: nat)
    requires t < 24
    ensures PI_LANE[t] == NextLane(if t == 0 then 1 else PI_LANE[t - 1])
  {
    hide NextLane;
    WalkValues();
  }

  lemma RotationTable(t: nat)
    requires t < 24
    ensures ROTATION[t] == (t + 1) * (t + 2) / 2 % 64
  {
  }

  lemma RhoTable(t: nat)
    requires t < 24
    ensures RHO[if t == 0 then 1 else PI_LANE[t - 1]] == ROTATION[t]
  {
  }

  /** The lane table is the walk, and the rotation table its triangular numbers, which are the
      rho offsets of the lanes walked through. */
  lemma {:induction false} TablesFollowWalk(t: nat)
    requires t < 24
    ensures WalkLane(t) == (if t == 0 then 1 else PI_LANE[t - 1]) && WalkLane(t + 1) == PI_LANE[t]
    ensures ROTATION[t] == (t + 1) * (t + 2) / 2 % 64 == RhoOffset(WalkLane(t))
  {
    LaneTable(t);
    RotationTable(t);
    RhoTable(t);
    if t > 0 {
      TablesFollowWalk(t - 1);
    } else {
      assert Walk(0) == (1, 0);
    }
    WalkStep(t);
  }

  // ---------------------------------------------------------------- the steps on lanes

  function Column(s: Lanes, x: nat): Word
    requires x < 5
  {
    Xor(Xor(Xor(Xor(s[x], s[5 + x]), s[10 + x]), s[15 + x]), s[20 + x])
  }

  function ThetaLane(s: Lanes, x: nat, y: nat): Word
    requires x < 5 && y < 5
  {
    Xor(s[5 * y + x], Spread(s, x))
  }

  /** What theta adds to every lane of column x. */
  function Spread(s: Lanes, x: nat): Word
    requires x < 5
  {
    Xor(Column(s, (x + 4) % 5), RotL(Column(s, (x + 1) % 5), 1))
  }

  function ThetaLanes(s: Lanes): Lanes {
    seq<Word>(25, i requires 0 <= i < 25 => ThetaLane(s, i % 5, i / 5))
  }

  /** Rho and pi together: lane (x, y) comes, rotated, from lane (x + 3y, x). */
  function RhoPiLane(s: Lanes, x: nat, y: nat): Word
    requires x < 5 && y < 5
  {
    var from := 5 * x + (x + 3 * y) % 5;
    RotL(s[from], RhoOffset(from))
  }

  function RhoPiLanes(s: Lanes): Lanes {
    seq<Word>(25, i requires 0 <= i < 25 => RhoPiLane(s, i % 5, i / 5))
  }

  function ChiLane(s: Lanes, x: nat, y: nat): Word
    requires x < 5 && y < 5
  {
    Xor(s[5 * y + x], And(Not(s[5 * y + (x + 1) % 5]), s[5 * y + (x + 2) % 5]))
  }

  function ChiLanes(s: Lanes): Lanes {
    seq<Word>(25, i requires 0 <= i < 25 => ChiLane(s, i % 5, i / 5))
  }

  lemma LanePlace(x: nat, y: nat)
    requires x < 5
    ensures (5 * y + x) % 5 == x && (5 * y + x) / 5 == y
  {
  }

  lemma ColumnBits(s: Lanes, a: Cube, x: nat, z: nat)
    requires Agrees(s, a) && x < 5 && z < 64
    ensures Bit(Column(s, x), z) == Parity(a, x, z)
  {
    hide Bit, Xor, At;
    var c1 := Xor(s[x], s[5 + x]);
    var c2 := Xor(c1, s[10 + x]);
    var c3 := Xor(c2, s[15 + x]);
    BitOfXorWord(s[x], s[5 + x], z);
    BitOfXorWord(c1, s[10 + x], z);
    BitOfXorWord(c2, s[15 + x], z);
    BitOfXorWord(c3, s[20 + x], z);
    assert At(a, x, 0, z) == Bit(s[5 * 0 + x], z) && At(a, x, 1, z) == Bit(s[5 * 1 + x], z);
    assert At(a, x, 2, z) == Bit(s[5 * 2 + x], z) && At(a, x, 3, z) == Bit(s[5 * 3 + x], z);
    assert At(a, x, 4, z) == Bit(s[5 * 4 + x], z);
  }

  lemma SpreadBits(s: Lanes, a: Cube, x: nat, z: nat)
    requires Agrees(s, a) && x < 5 && z < 64
    ensures Bit(Spread(s, x), z) == (Parity(a, (x + 4) % 5, z) != Parity(a, (x + 1) % 5, (z + 63) % 64))
  {
    hide Bit, Column, Parity, Agrees, Xor;
    var left, right := Column(s, (x + 4) % 5), Column(s, (x + 1) % 5);
    ColumnBits(s, a, (x + 4) % 5, z);
    ColumnBits(s, a, (x + 1) % 5, (z + 63) % 64);
    BitOfRotL(right, 1, z);
    BitOfXorWord(left, RotL(right, 1), z);
  }

  lemma ThetaAgrees(s: Lanes, a: Cube)
    requires Agrees(s, a)
    ensures Agrees(ThetaLanes(s), Theta(a))
  {
    hide Bit, Spread, Parity, Xor;
    forall x: nat, y: nat, z: nat | x < 5 && y < 5 && z < 64
      ensures At(Theta(a), x, y, z) == Bit(ThetaLanes(s)[5 * y + x], z)
    {
      LanePlace(x, y);
      SpreadBits(s, a, x, z);
      BitOfXorWord(s[5 * y + x], Spread(s, x), z);
    }
  }

  lemma RhoPiAgrees(s: Lanes, a: Cube)
    requires Agrees(s, a)
    ensures Agrees(RhoPiLanes(s), Pi(Rho(a)))
  {
    hide Bit, RhoPiLane, Rho;
    forall x: nat, y: nat, z: nat | x < 5 && y < 5 && z < 64
      ensures At(Pi(Rho(a)), x, y, z) == Bit(RhoPiLanes(s)[5 * y + x], z)
    {
      LanePlace(x, y);
      RhoPiBits(s, a, x, y, z);
    }
  }

  lemma RhoPiBits(s: Lanes, a: Cube, x: nat, y: nat, z: nat)
    requires Agrees(s, a) && x < 5 && y < 5 && z < 64
    ensures At(Rho(a), (x + 3 * y) % 5, x, z) == Bit(RhoPiLane(s, x, y), z)
  {
    hide Bit, RhoOffset, RotL;
    var x' := (x + 3 * y) % 5;
    var from := 5 * x + x';
    var z' := (z + 64 - RhoOffset(from)) % 64;
    BitOfRotL(s[from], RhoOffset(from), z);
    assert At(a, x', x, z') == Bit(s[5 * x + x'], z');
  }

  lemma ChiAgrees(s: Lanes, a: Cube)
    requires Agrees(s, a)
    ensures Agrees(ChiLanes(s), Chi(a))
  {
    hide Bit, ChiLane;
    forall x: nat, y: nat, z: nat | x < 5 && y < 5 && z < 64
      ensures At(Chi(a), x, y, z) == Bit(ChiLanes(s)[5 * y + x], z)
    {
      LanePlace(x, y);
      ChiBits(s, a, x, y, z);
    }
  }

  lemma ChiBits(s: Lanes, a: Cube, x: nat, y: nat, z: nat)
    requires Agrees(s, a) && x < 5 && y < 5 && z < 64
    ensures Bit(ChiLane(s, x, y), z) == ChiBit(a, x, y, z)
  {
    hide Bit, Not, And;
    var x1, x2 := (x + 1) % 5, (x + 2) % 5;
    assert At(a, x, y, z) == Bit(s[5 * y + x], z);
    assert At(a, x1, y, z) == Bit(s[5 * y + x1], z);
    assert At(a, x2, y, z) == Bit(s[5 * y + x2], z);
    LaneBits(s[5 * y + x], s[5 * y + x1], s[5 * y + x2], z);
  }

  lemma LaneBits(p: Word, q: Word, r: Word, z: nat)
    requires z < 64
    ensures Bit(Xor(p, And(Not(q), r)), z) == (Bit(p, z) != (!Bit(q, z) && Bit(r, z)))
  {
    hide Bit, Not;
    BitOfNot(q, z);
    BitOfAnd(Not(q), r, z);
    BitOfXor(p, And(Not(q), r), z);
  }

  // ---------------------------------------------------------------- the walk in place

  /** Step of the walk that ends in a lane. */
  const PI_STEP: seq<nat> := [0, 23, 17, 5, 11, 6, 22, 1, 8, 21, 0, 2, 16, 15, 19, 12, 7, 3, 4, 14, 18, 9, 20, 13, 10]

  lemma WalkReaches(i: nat)
    requires 0 < i < 25
    ensures PI_STEP[i] < 24 && PI_LANE[PI_STEP[i]] == i
  {
  }

  lemma WalkOnce(j: nat)
    requires j < 24
    ensures 0 < PI_LANE[j] < 25 && PI_STEP[PI_LANE[j]] == j
  {
  }

  function StepFrom(j: nat): (lane: nat)
    requires j < 24
    ensures lane < 25
  {
    if j == 0 then 1 else WalkOnce(j - 1); PI_LANE[j - 1]
  }

  /** The lane that pi moves to the end of a step is the one the step starts from. */
  lemma SourceOfNext(lane: nat)
    requires lane < 25
    ensures var i := NextLane(lane); 5 * (i % 5) + (i % 5 + 3 * (i / 5)) % 5 == lane
  {
    var x, y := lane % 5, lane / 5;
    var m := (2 * x + 3 * y) % 5;
    LanePlace(y, m);
    var q := (2 * x + 3 * y) / 5;
    assert y + 3 * m == 5 * (x + 2 * y - 3 * q) + x;
    DivModUnique(y + 3 * m, 5, x + 2 * y - 3 * q, x);
  }

  lemma StepResult(s: Lanes, j: nat)
    requires j < 24
    ensures PI_LANE[j] < 25
    ensures RhoPiLanes(s)[PI_LANE[j]] == RotL(s[StepFrom(j)], ROTATION[j])
  {
    hide RotL, NextLane;
    WalkOnce(j);
    LaneTable(j);
    RhoTable(j);
    SourceOfNext(StepFrom(j));
  }

  /** Carrying one lane along the walk moves and rotates all of them at once. */
  method RhoPiInPlace(state: array<Word>)
    requires state.Length == 25
    modifies state
    ensures state[..] == RhoPiLanes(old(state[..]))
  {
    hide RotL, RhoPiLanes;
    ghost var s: Lanes := state[..];
    var temp := state[1];
    for t := 0 to 24
      invariant temp == s[if t < 24 then StepFrom(t) else 1]
      invariant forall i :: 0 <= i < 25 ==>
        state[i] == if 0 < i && PI_STEP[i] < t then RhoPiLanes(s)[i] else s[i]
    {
      WalkOnce(t);
      StepResult(s, t);
      var lane := PI_LANE[t];
      var bc := state[lane];
      state[lane] := RotL(temp, ROTATION[t]);
      temp := bc;
      forall i | 0 < i < 25 && i != lane ensures PI_STEP[i] != t { WalkReaches(i); }
    }
    forall i | 0 <= i < 25
      ensures state[i] == RhoPiLanes(s)[i]
    {
      if i > 0 {
        WalkReaches(i);
      } else {
        LaneZeroStays(s);
      }
    }
  }

  lemma LaneZeroStays(s: Lanes)
    ensures RhoPiLanes(s)[0] == s[0]
  {
  }

  method ThetaInPlace(state: array<Word>, bc: array<Word>)
    requires state.Length == 25 && bc.Length == 5 && state != bc
    modifies state, bc
    ensures state[..] == ThetaLanes(old(state[..]))
  {
    hide RotL, Xor;
    ghost var s: Lanes := state[..];
    for x := 0 to 5
      invariant state[..] == s
      invariant forall k :: 0 <= k < x ==> bc[k] == Column(s, k)
    {
      bc[x] := Xor(Xor(Xor(Xor(state[x], state[5 + x]), state[10 + x]), state[15 + x]), state[20 + x]);
    }
    for x := 0 to 5
      invariant forall k :: 0 <= k < 5 ==> bc[k] == Column(s, k)
      invariant forall i :: 0 <= i < 25 ==> state[i] == if i % 5 < x then ThetaLane(s, i % 5, i / 5) else s[i]
    {
      var temp := Xor(bc[(x + 4) % 5], RotL(bc[(x + 1) % 5], 1));
      assert temp == Spread(s, x);
      SpreadColumn(state, x, temp, s);
    }
  }

  method SpreadColumn(state: array<Word>, x: nat, temp: Word, ghost s: Lanes)
    requires state.Length == 25 && x < 5 && temp == Spread(s, x)
    requires forall i :: 0 <= i < 25 ==> state[i] == if i % 5 < x then ThetaLane(s, i % 5, i / 5) else s[i]
    modifies state
    ensures forall i :: 0 <= i < 25 ==> state[i] == if i % 5 < x + 1 then ThetaLane(s, i % 5, i / 5) else s[i]
  {
    hide Xor, Spread;
    for y := 0 to 5
      invariant forall i :: 0 <= i < 25 ==>
        state[i] == if i % 5 < x || (i % 5 == x && i / 5 < y) then ThetaLane(s, i % 5, i / 5) else s[i]
    {
      LanePlace(x, y);
      state[5 * y + x] := Xor(state[5 * y + x], temp);
      forall i | 0 <= i < 25 && i % 5 == x && i / 5 == y ensures i == 5 * y + x { }
    }
  }

  method ChiInPlace(state: array<Word>, bc: array<Word>)
    requires state.Length == 25 && bc.Length == 5 && state != bc
    modifies state, bc
    ensures state[..] == ChiLanes(old(state[..]))
  {
    hide ChiLane;
    ghost var s: Lanes := state[..];
    for y := 0 to 5
      invariant forall i :: 0 <= i < 25 ==> state[i] == if i / 5 < y then ChiLane(s, i % 5, i / 5) else s[i]
    {
      bc[0], bc[1], bc[2], bc[3], bc[4] :=
        state[5 * y], state[5 * y + 1], state[5 * y + 2], state[5 * y + 3], state[5 * y + 4];
      ChiRow(state, bc, y, s);
    }
  }

  method ChiRow(state: array<Word>, bc: array<Word>, y: nat, ghost s: Lanes)
    requires state.Length == 25 && bc.Length == 5 && state != bc && y < 5
    requires forall k :: 0 <= k < 5 ==> bc[k] == s[5 * y + k]
    requires forall i :: 0 <= i < 25 ==> state[i] == if i / 5 < y then ChiLane(s, i % 5, i / 5) else s[i]
    modifies state
    ensures forall i :: 0 <= i < 25 ==> state[i] == if i / 5 < y + 1 then ChiLane(s, i % 5, i / 5) else s[i]
  {
    hide Xor, And, Not, ChiLane;
    for x := 0 to 5
      invariant forall i :: 0 <= i < 25 ==>
        state[i] == if i / 5 < y || (i / 5 == y && i % 5 < x) then ChiLane(s, i % 5, i / 5) else s[i]
    {
      LanePlace(x, y);
      ChiLaneOfRow(s, bc[..], x, y);
      state[5 * y + x] := Xor(bc[x], And(Not(bc[(x + 1) % 5]), bc[(x + 2) % 5]));
      forall i | 0 <= i < 25 && i % 5 == x && i / 5 == y ensures i == 5 * y + x { }
    }
  }

  lemma ChiLaneOfRow(s: Lanes, row: seq<Word>, x: nat, y: nat)
    requires |row| == 5 && x < 5 && y < 5
    requires forall k :: 0 <= k < 5 ==> row[k] == s[5 * y + k]
    ensures ChiLane(s, x, y) == Xor(row[x], And(Not(row[(x + 1) % 5]), row[(x + 2) % 5]))
  {
    hide Xor, And, Not;
  }

  // ---------------------------------------------------------------- round constants

  function RoundBitUpTo(round: nat, z: nat, j: nat): bool {
    if j == 0 then false
    else if z == Pow2(j - 1) - 1 then Rc(7 * round + (j - 1))
    else RoundBitUpTo(round, z, j - 1)
  }

  lemma {:induction false} NoRoundBit(round: nat, z: nat, j: nat)
    requires z >= Pow2(j) - 1
    ensures !RoundBitUpTo(round, z, j)
    decreases j
  {
    if j > 0 {
      NoRoundBit(round, z, j - 1);
    }
  }

  lemma AllRoundBits(round: nat, z: nat)
    ensures RoundBitUpTo(round, z, 7) == RoundBit(round, z)
  {
    hide Rc;
    assert Pow2(6) == 64 && Pow2(5) == 32 && Pow2(4) == 16 && Pow2(3) == 8;
    assert RoundBitUpTo(round, z, 7) == if z == 63 then Rc(7 * round + 6) else RoundBitUpTo(round, z, 6);
    assert RoundBitUpTo(round, z, 6) == if z == 31 then Rc(7 * round + 5) else RoundBitUpTo(round, z, 5);
    assert RoundBitUpTo(round, z, 5) == if z == 15 then Rc(7 * round + 4) else RoundBitUpTo(round, z, 4);
    assert RoundBitUpTo(round, z, 4) == if z == 7 then Rc(7 * round + 3) else RoundBitUpTo(round, z, 3);
    assert RoundBitUpTo(round, z, 3) == if z == 3 then Rc(7 * round + 2) else RoundBitUpTo(round, z, 2);
    assert RoundBitUpTo(round, z, 2) == if z == 1 then Rc(7 * round + 1) else RoundBitUpTo(round, z, 1);
  }

  lemma {:induction false} BitOfPower(m: nat, z: nat)
    ensures Bit(Pow2(m), z) == (z == m)
    decreases z
  {
    if z > 0 {
      if m > 0 {
        BitOfPower(m - 1, z - 1);
      } else {
        ZeroBits(z - 1);
      }
    }
  }

  /** The register step bit by bit: every bit moves up, and the bit shifted out is added to the
      places 0, 4, 5 and 6. */
  lemma ShiftByBits(r: Byte, i: nat)
    requires i < 8
    ensures Bit(Shift(r), i) == ((i > 0 && Bit(r, i - 1)) != (Bit(r, 7) && i in {0, 4, 5, 6}))
  {
    assert Pow2(7) == 128;
    TopBitOff(r, 7, if i > 0 then i - 1 else 0);
    var low := if r < 128 then r else r - 128;
    assert Bit(2 * low, i) == (i > 0 && Bit(low, i - 1));
    if r >= 128 {
      hide Bit;
      BitOfXor(2 * low, 0x71, i);
      FeedbackPlaces(i);
    }
  }

  lemma FeedbackPlaces(i: nat)
    requires i < 8
    ensures Bit(0x71, i) == (i in {0, 4, 5, 6})
  {
    assert Bit(0x71, 0) && !Bit(0x71, 1) && !Bit(0x71, 2) && !Bit(0x71, 3);
    assert Bit(0x71, 4) && Bit(0x71, 5) && Bit(0x71, 6) && !Bit(0x71, 7);
  }

  /** The shift register keeps bits above the eighth that the standard drops; its low byte is
      the standard's register all the same. */
  lemma UntruncatedShift(t: nat)
    ensures (if Bit(t, 7) then XorBits(2 * t, 0x71) else 2 * t) % 256 == Shift(t % 256)
  {
    hide Bit, XorBits;
    TopBitOfByte(t);
    DoubledByte(t);
    assert Pow2(8) == 256;
    XorRemainder(2 * t, 0x71, 8);
  }

  lemma TopBitOfByte(t: nat)
    ensures Bit(t, 7) <==> t % 256 >= 128
  {
    hide Bit;
    assert Pow2(7) == 128 && Pow2(8) == 256;
    BitOfRemainder(t, 8, 7);
    TopBitOff(t % 256, 7, 0);
  }

  lemma DoubledByte(t: nat)
    ensures 2 * t % 256 == if t % 256 < 128 then 2 * (t % 256) else 2 * (t % 256 - 128)
  {
    var q, r := t / 256, t % 256;
    DivModUnique(2 * t, 256, if r < 128 then 2 * q else 2 * q + 1, if r < 128 then 2 * r else 2 * (r - 128));
  }

  /** One step of the source's register: what it adds and what it becomes. */
  lemma ParityOfByte(t: nat)
    ensures t % 256 % 2 == t % 2
  {
  }

  method ShiftRegister(t: nat) returns (doXor: bool, u: nat)
    ensures doXor == (t % 256 % 2 == 1) && u % 256 == Shift(t % 256)
  {
    ParityOfByte(t);
    UntruncatedShift(t);
    hide Bit, XorBits, Shift;
    doXor := t % 2 != 0;
    if Bit(t, 7) {
      u := XorBits(2 * t, 0x71);
    } else {
      u := 2 * t;
    }
  }

  method GetNextRoundConstant(lfsr: Byte, ghost round: nat) returns (roundConstant: Word, next: Byte)
    requires lfsr == Register(7 * round)
    ensures next == Register(7 * round + 7)
    ensures forall z :: 0 <= z < 64 ==> Bit(roundConstant, z) == RoundBit(round, z)
  {
    hide Bit, RoundBit, RoundBitUpTo, Shift;
    roundConstant := 0;
    var temp: nat := lfsr;
    var i := 1;
    ghost var j := 0;
    NoBitsYet(round);
    while i < 128
      invariant 0 <= j <= 7 && i == Pow2(j)
      invariant temp % 256 == Register(7 * round + j)
      invariant forall z :: 0 <= z < 64 ==> Bit(roundConstant, z) == RoundBitUpTo(round, z, j)
      decreases 7 - j
    {
      SmallPower(j);
      var doXor;
      doXor, temp := ShiftRegister(temp);
      if doXor {
        roundConstant := SetBit(roundConstant, i - 1, round, j);
      } else {
        KeepBits(roundConstant, round, j);
      }
      i, j := 2 * i, j + 1;
    }
    assert Pow2(7) == 128;
    LargePower(j);
    forall z | 0 <= z < 64 ensures Bit(roundConstant, z) == RoundBit(round, z) { AllRoundBits(round, z); }
    next := temp % 256;
  }

  lemma NoBitsYet(round: nat)
    ensures forall z :: 0 <= z < 64 ==> Bit(0, z) == RoundBitUpTo(round, z, 0)
  {
    hide Bit;
    forall z | 0 <= z < 64 ensures Bit(0, z) == RoundBitUpTo(round, z, 0) { ZeroBits(z); }
  }

  lemma LargePower(j: nat)
    requires j <= 7 && Pow2(j) >= 128
    ensures j == 7
  {
    if j < 7 {
      Pow2Sum(j, 7 - j);
      MulMonotone(Pow2(j), 2, Pow2(7 - j));
    }
  }

  lemma SmallPower(j: nat)
    requires j <= 7 && Pow2(j) < 128
    ensures j < 7 && Pow2(j) <= 64
  {
    assert Pow2(6) == 64 && Pow2(7) == 128;
    if j < 6 {
      Pow2Sum(j, 6 - j);
      MulMonotone(Pow2(j), 1, Pow2(6 - j));
    }
  }

  lemma KeepBits(rc: Word, round: nat, j: nat)
    requires forall z :: 0 <= z < 64 ==> Bit(rc, z) == RoundBitUpTo(round, z, j)
    requires !Rc(7 * round + j)
    ensures forall z :: 0 <= z < 64 ==> Bit(rc, z) == RoundBitUpTo(round, z, j + 1)
  {
    hide Bit, Rc;
    NoRoundBit(round, Pow2(j) - 1, j);
  }

  method SetBit(rc: Word, place: nat, ghost round: nat, ghost j: nat) returns (r: Word)
    requires place == Pow2(j) - 1 && place < 64 && Rc(7 * round + j)
    requires forall z :: 0 <= z < 64 ==> Bit(rc, z) == RoundBitUpTo(round, z, j)
    ensures forall z :: 0 <= z < 64 ==> Bit(r, z) == RoundBitUpTo(round, z, j + 1)
  {
    hide Bit, Rc;
    PowerIsWord(place);
    r := Xor(rc, Pow2(place));
    NoRoundBit(round, place, j);
    forall z | 0 <= z < 64
      ensures Bit(r, z) == RoundBitUpTo(round, z, j + 1)
    {
      BitOfXor(rc, Pow2(place), z);
      BitOfPower(place, z);
    }
  }

  lemma PowerIsWord(m: nat)
    requires m < 64
    ensures Pow2(m) < WORD_LIMIT
  {
    Pow2Word();
    Pow2Sum(m, 64 - m);
    MulMonotone(Pow2(m), 2, Pow2(64 - m));
  }

  /** rc is the linear recurrence of the polynomial x^8 + x^6 + x^5 + x^4 + 1. */
  lemma RcRecurrence(t: nat)
    ensures Rc(t + 8) == (Rc(t + 6) != (Rc(t + 5) != (Rc(t + 4) != Rc(t))))
  {
    hide Bit, Shift;
    forall k: nat
      ensures Bit(Register(k + 1), 0) == Bit(Register(k), 7) && Rc(k) == Bit(Register(k), 0)
    {
      RegisterBit(k, 0);
      LowestBit(Register(k));
    }
    RegisterBit(t, 1);
    RegisterBit(t + 1, 2);
    RegisterBit(t + 2, 3);
    RegisterBit(t + 3, 4);
    RegisterBit(t + 4, 5);
    RegisterBit(t + 5, 6);
    RegisterBit(t + 6, 7);
  }

  lemma RegisterBit(t: nat, i: nat)
    requires i < 8
    ensures Bit(Register(t + 1), i) ==
      ((i > 0 && Bit(Register(t), i - 1)) != (Bit(Register(t), 7) && i in {0, 4, 5, 6}))
  {
    hide Bit, Shift;
    ShiftByBits(Register(t), i);
  }

  lemma LowestBit(r: nat)
    ensures Bit(r, 0) == (r % 2 == 1)
  {
  }

  /** It starts with a one and seven zeros. */
  lemma RcStarts()
    ensures Rc(0) && !Rc(1) && !Rc(2) && !Rc(3) && !Rc(4) && !Rc(5) && !Rc(6) && !Rc(7)
  {
    assert Register(1) == 2;
    assert Register(2) == 4;
    assert Register(3) == 8;
    assert Register(4) == 16;
    assert Register(5) == 32;
    assert Register(6) == 64;
    assert Register(7) == 128;
  }

  // ---------------------------------------------------------------- the permutation

  lemma IotaAgrees(s: Lanes, a: Cube, round: nat, rc: Word)
    requires Agrees(s, a)
    requires forall z :: 0 <= z < 64 ==> Bit(rc, z) == RoundBit(round, z)
    ensures Agrees(s[0 := Xor(s[0], rc)], Iota(a, round))
  {
    hide Bit, Xor, RoundBit;
    var t := s[0 := Xor(s[0], rc)];
    forall x: nat, y: nat, z: nat | x < 5 && y < 5 && z < 64
      ensures At(Iota(a, round), x, y, z) == Bit(t[5 * y + x], z)
    {
      BitOfXorWord(s[0], rc, z);
    }
  }

  /** One round in place. */
  method RoundInPlace(state: array<Word>, bc: array<Word>, lfsr: Byte, ghost a: Cube, ghost n: nat)
      returns (next: Byte)
    requires state.Length == 25 && bc.Length == 5 && state != bc
    requires Agrees(state[..], a) && lfsr == Register(7 * n)
    modifies state, bc
    ensures Agrees(state[..], Rnd(a, n)) && next == Register(7 * n + 7)
  {
    hide Agrees, Theta, Rho, Pi, Chi, Iota, Bit, Register, RoundBit, Xor, ThetaLanes, RhoPiLanes, ChiLanes;
    ThetaAgrees(state[..], a);
    ThetaInPlace(state, bc);
    RhoPiAgrees(state[..], Theta(a));
    RhoPiInPlace(state);
    ChiAgrees(state[..], Pi(Rho(Theta(a))));
    ChiInPlace(state, bc);
    var rc;
    rc, next := GetNextRoundConstant(lfsr, n);
    ghost var s: Lanes := state[..];
    IotaAgrees(s, Chi(Pi(Rho(Theta(a)))), n, rc);
    state[0] := Xor(state[0], rc);
    assert state[..] == s[0 := Xor(s[0], rc)];
  }

  /** Keccak-f[1600] in place: on every state the lanes go through 24 rounds of the standard's
      step mappings. */
  method StatePermute(state: array<Word>, ghost a: Cube)
    requires state.Length == 25 && Agrees(state[..], a)
    modifies state
    ensures Agrees(state[..], Rounds(a, 24))
  {
    hide Agrees, Rnd, Register;
    var bc := new Word[5];
    FirstRegister();
    var lfsr: Byte := 1;
    var round := 24;
    while round != 0
      invariant 0 <= round <= 24
      invariant Agrees(state[..], Rounds(a, 24 - round)) && lfsr == Register(7 * (24 - round))
    {
      lfsr := RoundInPlace(state, bc, lfsr, Rounds(a, 24 - round), 24 - round);
      round := round - 1;
    }
  }

  lemma FirstRegister()
    ensures Register(0) == 1
  {
  }
}
