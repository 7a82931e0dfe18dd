/** Unsigned integers of any width as 32-bit limbs, lowest first, changed in place by carry loops.
    Arithmetic is modulo two to the width. */
module BaseUint {
  import opened Bytes
  import opened Radix
  import opened Words

  const BASE: nat := 0x1_0000_0000

  ghost function ValueOfLimbs(pn: seq<Uint>): nat {
    Value(pn, BASE)
  }

  ghost function Limit(width: nat): nat {
    Power(BASE, width)
  }

  lemma {:induction false} LimbsBelowLimit(pn: seq<Uint>)
    ensures 0 <= ValueOfLimbs(pn) < Limit(|pn|)
  {
    ValueBelowPower(pn, BASE);
  }

  /** Limbs and a carry out make up a number; the limbs alone are it modulo the limit. */
  lemma WithoutCarry(pn: seq<Uint>, carry: nat, total: nat)
    requires ValueOfLimbs(pn) + Limit(|pn|) * carry == total
    ensures ValueOfLimbs(pn) == total % Limit(|pn|)
  {
    LimbsBelowLimit(pn);
    DivModUnique(total, Limit(|pn|), carry, ValueOfLimbs(pn));
  }

  lemma LimbsSnoc(pn: seq<Uint>, i: nat)
    requires i < |pn|
    ensures ValueOfLimbs(pn[..i + 1]) == ValueOfLimbs(pn[..i]) + Limit(i) * pn[i]
  {
    assert pn[..i + 1] == pn[..i] + [pn[i]];
    ValueSnoc(pn[..i], pn[i], BASE);
  }

  // ---------------------------------------------------------------- addition

  lemma AddStep(p: nat, a: nat, b: nat, x: nat, y: nat, z: nat, carry: nat, out: nat, sum: nat)
    requires sum + p * carry == a + b && carry + x + y == z + BASE * out
    ensures sum + p * z + BASE * p * out == a + p * x + (b + p * y)
  {
    Distribute(p, carry, x + y);
    Distribute(p, x, y);
    Distribute(p, z, BASE * out);
    MulAssociative(p, BASE, out);
  }

  /** What negation leaves of the limbs: all bits turned over. */
  function Flipped(pn: seq<Uint>): (r: seq<Uint>)
    ensures |r| == |pn| && forall i :: 0 <= i < |pn| ==> r[i] == BASE - 1 - pn[i]
  {
    seq<Uint>(|pn|, i requires 0 <= i < |pn| => BASE - 1 - pn[i])
  }

  lemma {:induction false} FlippedValue(pn: seq<Uint>)
    ensures ValueOfLimbs(Flipped(pn)) + ValueOfLimbs(pn) == Limit(|pn|) - 1
    decreases |pn|
  {
    if pn != [] {
      FlippedValue(pn[1..]);
      assert Flipped(pn)[1..] == Flipped(pn[1..]);
      Distribute(BASE, ValueOfLimbs(Flipped(pn[1..])), ValueOfLimbs(pn[1..]));
    }
  }

  // ---------------------------------------------------------------- comparison

  /** The highest limb that differs decides. */
  lemma HigherLimbWins(a: seq<Uint>, b: seq<Uint>, i: nat)
    requires |a| == |b| && i < |a| && a[i] < b[i] && a[i + 1..] == b[i + 1..]
    ensures ValueOfLimbs(a) < ValueOfLimbs(b)
  {
    ValueSplit(a, i + 1, BASE);
    ValueSplit(b, i + 1, BASE);
    LimbsSnoc(a, i);
    LimbsSnoc(b, i);
    LimbsBelowLimit(a[..i]);
    LimbsBelowLimit(b[..i]);
    MulMonotone(Limit(i), a[i] + 1, b[i]);
    Distribute(Limit(i), a[i], 1);
  }

  lemma {:induction false} SameValueSameLimbs(a: seq<Uint>, b: seq<Uint>)
    requires |a| == |b| && ValueOfLimbs(a) == ValueOfLimbs(b)
    ensures a == b
    decreases |a|
  {
    if a != [] {
      DivModUnique(ValueOfLimbs(a), BASE, ValueOfLimbs(a[1..]), a[0]);
      DivModUnique(ValueOfLimbs(b), BASE, ValueOfLimbs(b[1..]), b[0]);
      SameValueSameLimbs(a[1..], b[1..]);
      assert a == [a[0]] + a[1..] && b == [b[0]] + b[1..];
    }
  }

  // ---------------------------------------------------------------- shifts

  /** Two to the s and what it lacks to a limb. */
  ghost predicate Halves(f: nat, g: nat) {
    f > 0 && g > 0 && f * g == BASE
  }

  function UpLimb(x: Uint, below: Uint, f: nat, g: nat): nat
    requires f > 0 && g > 0
  {
    QuotientIsNat(x, g);
    QuotientIsNat(below, g);
    x % g * f + below / g
  }

  function DownLimb(x: Uint, above: Uint, f: nat, g: nat): nat
    requires f > 0 && g > 0
  {
    QuotientIsNat(x, f);
    QuotientIsNat(above, f);
    x / f + above % f * g
  }

  lemma QuotientBelow(x: Uint, f: nat, g: nat)
    requires Halves(f, g)
    ensures x / g < f && x / f < g
  {
    QuotientIsNat(x, g);
    QuotientIsNat(x, f);
    if x / g >= f {
      MulMonotone(g, f, x / g);
      assert false;
    }
    if x / f >= g {
      MulMonotone(f, g, x / f);
      assert false;
    }
  }

  lemma UpLimbFits(x: Uint, below: Uint, f: nat, g: nat)
    requires Halves(f, g)
    ensures UpLimb(x, below, f, g) < BASE
  {
    QuotientBelow(below, f, g);
    QuotientIsNat(x, g);
    MulMonotone(f, x % g + 1, g);
    Distribute(f, x % g, 1);
  }

  lemma DownLimbFits(x: Uint, above: Uint, f: nat, g: nat)
    requires Halves(f, g)
    ensures DownLimb(x, above, f, g) < BASE
  {
    QuotientBelow(x, f, g);
    QuotientIsNat(above, f);
    MulMonotone(g, above % f + 1, f);
    Distribute(g, above % f, 1);
  }

  /** The limb under the lowest is zero, and so is the one over the highest. */
  function LimbAt(a: seq<Uint>, i: int): Uint {
    if 0 <= i < |a| then a[i] else 0
  }

  function ShiftedUp(a: seq<Uint>, below: Uint, f: nat, g: nat): (r: seq<nat>)
    requires f > 0 && g > 0
    ensures |r| == |a|
    decreases |a|
  {
    if a == [] then [] else [UpLimb(a[0], below, f, g)] + ShiftedUp(a[1..], a[0], f, g)
  }

  lemma {:induction false} ShiftedUpAt(a: seq<Uint>, below: Uint, f: nat, g: nat, i: nat)
    requires f > 0 && g > 0 && i < |a|
    ensures ShiftedUp(a, below, f, g)[i] == UpLimb(a[i], if i == 0 then below else a[i - 1], f, g)
    decreases i
  {
    if i > 0 {
      ShiftedUpAt(a[1..], a[0], f, g, i - 1);
    }
  }

  /** Shifting up multiplies by f: what leaves at the top is a limb up. */
  lemma {:induction false} ShiftedUpValue(a: seq<Uint>, below: Uint, f: nat, g: nat)
    requires Halves(f, g)
    ensures var top := if a == [] then below else a[|a| - 1];
            0 <= top / g && Value(ShiftedUp(a, below, f, g), BASE) + Limit(|a|) * (top / g) == f * ValueOfLimbs(a) + below / g
    decreases |a|
  {
    QuotientIsNat(below, g);
    if a == [] {
      assert f * 0 == 0;
    } else {
      var x, rest := a[0], a[1..];
      var top := a[|a| - 1];
      ShiftedUpValue(rest, x, f, g);
      QuotientIsNat(top, g);
      QuotientIsNat(x, g);
      var v := Value(ShiftedUp(rest, x, f, g), BASE);
      UpStep(f, g, x / g, x % g, v, Limit(|rest|), top / g, ValueOfLimbs(rest), below / g);
    }
  }

  lemma UpStep(f: nat, g: nat, q: nat, r: nat, v: nat, p: nat, t: nat, w: nat, c: nat)
    requires f * g == BASE && v + p * t == f * w + q
    ensures r * f + c + BASE * v + BASE * p * t == f * (g * q + r + BASE * w) + c
  {
    Distribute(BASE, v, p * t);
    Distribute(BASE, f * w, q);
    MulAssociative(BASE, p, t);
    Distribute(f, g * q, r + BASE * w);
    Distribute(f, r, BASE * w);
    MulAssociative(f, g, q);
    MulAssociative(BASE, f, w);
    MulAssociative(f, BASE, w);
  }

  function ShiftedDown(a: seq<Uint>, f: nat, g: nat): (r: seq<nat>)
    requires f > 0 && g > 0
    ensures |r| == |a|
    decreases |a|
  {
    if a == [] then [] else [DownLimb(a[0], LimbAt(a, 1), f, g)] + ShiftedDown(a[1..], f, g)
  }

  lemma {:induction false} ShiftedDownAt(a: seq<Uint>, f: nat, g: nat, i: nat)
    requires f > 0 && g > 0 && i < |a|
    ensures ShiftedDown(a, f, g)[i] == DownLimb(a[i], LimbAt(a, i + 1), f, g)
    decreases i
  {
    if i > 0 {
      ShiftedDownAt(a[1..], f, g, i - 1);
    }
  }

  /** Shifting down divides by f. */
  lemma {:induction false} ShiftedDownValue(a: seq<Uint>, f: nat, g: nat)
    requires Halves(f, g)
    ensures f * Value(ShiftedDown(a, f, g), BASE) + LimbAt(a, 0) % f == ValueOfLimbs(a)
    decreases |a|
  {
    if a == [] {
      assert f * 0 == 0;
      QuotientIsNat(0, f);
      DivModUnique(0, f, 0, 0);
    } else {
      var rest := a[1..];
      ShiftedDownValue(rest, f, g);
      assert LimbAt(rest, 0) == LimbAt(a, 1);
      QuotientIsNat(a[0], f);
      QuotientIsNat(LimbAt(a, 1), f);
      DownStep(f, g, a[0] / f, a[0] % f, LimbAt(a, 1) % f, Value(ShiftedDown(rest, f, g), BASE), ValueOfLimbs(rest));
    }
  }

  lemma DownStep(f: nat, g: nat, q: nat, r: nat, m: nat, v: nat, w: nat)
    requires f * g == BASE && f * v + m == w
    ensures f * (q + m * g + BASE * v) + r == f * q + r + BASE * w
  {
    Distribute(f, q, m * g + BASE * v);
    Distribute(f, m * g, BASE * v);
    Distribute(BASE, f * v, m);
    MulAssociative(f, g, m);
    MulAssociative(f, BASE, v);
    MulAssociative(BASE, f, v);
  }

  lemma {:induction false} ZerosBelow(k: nat, d: seq<nat>)
    ensures Value(Repeat(0, k) + d, BASE) == Power(BASE, k) * Value(d, BASE)
    decreases k
  {
    if k == 0 {
      assert Repeat(0, 0) + d == d;
    } else {
      assert (Repeat(0, k) + d)[1..] == Repeat(0, k - 1) + d;
      ZerosBelow(k - 1, d);
      MulAssociative(BASE, Power(BASE, k - 1), Value(d, BASE));
    }
  }

  /** k limbs up and f times: modulo the limit this is multiplication by f and k limbs. */
  lemma ShiftLeftValue(a: seq<Uint>, k: nat, f: nat, g: nat, r: seq<Uint>)
    requires Halves(f, g) && |r| == |a| && k <= |a|
    requires r == Repeat(0, k) + ShiftedUp(a[..|a| - k], 0, f, g)
    ensures ValueOfLimbs(r) == Power(BASE, k) * f * ValueOfLimbs(a) % Limit(|a|)
  {
    HalvesMean(f, g);
    hide *;
    var n := |a| - k;
    var high := Radix.Value(a[n..], BASE);
    var top := UpValue(a[..n], f, g);
    var low := ValueOfLimbs(a[..n]);
    var kept := Radix.Value(ShiftedUp(a[..n], 0, f, g), BASE);
    var b, p := Power(BASE, k), Limit(n);
    assert ValueOfLimbs(r) == b * kept by {
      LimbsAre(r);
      ZerosBelow(k, ShiftedUp(a[..n], 0, f, g));
    }
    assert Limit(|r|) == b * p by {
      LimbsAre(r);
      LimbsAre(a[..n]);
      PowerSum(BASE, k, n);
    }
    assert ValueOfLimbs(a) == low + p * high by {
      LimbsAre(a);
      LimbsAre(a[..n]);
      ValueSplit(a, n, BASE);
    }
    LeftTotal(b, p, f, kept, top, low, high);
    MulMonotone(f, 0, high);
    WithoutCarry(r, top + f * high, b * f * ValueOfLimbs(a));
  }

  /** What a shift up with nothing below pushes out at the top. */
  lemma UpValue(low: seq<Uint>, f: nat, g: nat) returns (top: nat)
    requires Halves(f, g)
    ensures Radix.Value(ShiftedUp(low, 0, f, g), BASE) + Limit(|low|) * top == f * ValueOfLimbs(low)
  {
    ShiftedUpValue(low, 0, f, g);
    QuotientIsNat(0, g);
    DivModUnique(0, g, 0, 0);
    hide ShiftedUp, ValueOfLimbs, Limit, Radix.Value;
    top := (if low == [] then 0 else low[|low| - 1]) / g;
  }

  lemma HalvesMean(f: nat, g: nat)
    requires Halves(f, g)
    ensures f > 0 && g > 0
  {
  }

  lemma LimbsAre(pn: seq<Uint>)
    ensures ValueOfLimbs(pn) == Radix.Value(pn, BASE) && Limit(|pn|) == Power(BASE, |pn|)
  {
  }

  lemma LeftTotal(b: nat, p: nat, f: nat, v: nat, t: nat, low: nat, high: nat)
    requires v + p * t == f * low
    ensures b * v + b * p * (t + f * high) == b * f * (low + p * high)
  {
    Distribute(b * p, t, f * high);
    MulAssociative(b, p, t);
    Distribute(b, v, p * t);
    MulAssociative(b, f, low);
    Distribute(b * f, low, p * high);
    MulAssociative(b * p, f, high);
    MulAssociative(b * f, p, high);
    assert b * p * f == b * f * p;
  }

  /** k limbs down and a division by f: the floor of the quotient. */
  lemma ShiftRightValue(a: seq<Uint>, k: nat, f: nat, g: nat, r: seq<Uint>)
    requires Halves(f, g) && |r| == |a| && k <= |a|
    requires r == ShiftedDown(a[k..], f, g) + Repeat(0, k)
    ensures Power(BASE, k) * f > 0 && ValueOfLimbs(r) == ValueOfLimbs(a) / (Power(BASE, k) * f)
  {
    var high := a[k..];
    var down := ShiftedDown(high, f, g);
    ZerosAbove(down, k);
    ShiftedDownValue(high, f, g);
    ValueSplit(a, k, BASE);
    LimbsBelowLimit(a[..k]);
    QuotientIsNat(LimbAt(high, 0), f);
    RightTotal(Power(BASE, k), f, Value(down, BASE), LimbAt(high, 0) % f, ValueOfLimbs(high), ValueOfLimbs(a[..k]), ValueOfLimbs(a));
  }

  lemma {:induction false} ZerosAbove(d: seq<nat>, k: nat)
    ensures Value(d + Repeat(0, k), BASE) == Value(d, BASE)
    decreases k
  {
    if k == 0 {
      assert d + Repeat(0, 0) == d;
    } else {
      assert d + Repeat(0, k) == d + Repeat(0, k - 1) + [0];
      TopZero(d + Repeat(0, k - 1), BASE);
      ZerosAbove(d, k - 1);
    }
  }

  lemma RightTotal(p: nat, f: nat, v: nat, m: nat, high: nat, low: nat, total: nat)
    requires p > 0 && f > 0 && m < f && low < p && f * v + m == high && total == low + p * high
    ensures p * f > 0 && total / (p * f) == v
  {
    Distribute(p, f * v, m);
    MulAssociative(p, f, v);
    MulMonotone(p, m + 1, f);
    Distribute(p, m, 1);
    MulMonotone(p, 1, f);
    DivModUnique(total, p * f, v, p * m + low);
  }

  // ---------------------------------------------------------------- the integer

  class BaseUint {
    var pn: array<Uint>

    constructor (width: nat)
      ensures fresh(pn) && pn.Length == width && forall i :: 0 <= i < width ==> pn[i] == 0
    {
      pn := new Uint[width](_ => 0);
    }

    constructor Of(limbs: seq<Uint>)
      ensures fresh(pn) && pn[..] == limbs
    {
      pn := new Uint[|limbs|](i requires 0 <= i < |limbs| => limbs[i]);
      new;
      assert pn[..] == limbs;
    }

    ghost function Number(): nat
      reads this, pn
    {
      ValueOfLimbs(pn[..])
    }

    /** Addition modulo the limit, by way of a carry. */
    method PlusAssign(b: seq<Uint>)
      requires |b| == pn.Length
      modifies pn
      ensures Number() == (old(Number()) + ValueOfLimbs(b)) % Limit(pn.Length)
    {
      hide ValueOfLimbs, Limit;
      ghost var a := pn[..];
      var carry := 0;
      var i := 0;
      NoLimbs(a);
      NoLimbs(b);
      while i < pn.Length
        invariant 0 <= i <= pn.Length && 0 <= carry <= 1
        invariant pn[i..] == a[i..]
        invariant ValueOfLimbs(pn[..i]) + Limit(i) * carry == ValueOfLimbs(a[..i]) + ValueOfLimbs(b[..i])
      {
        ghost var before := pn[..i];
        assert pn[i] == a[i] by { assert pn[i..][0] == a[i..][0]; }
        var n := carry + pn[i] + b[i];
        var low, high := n % UINT_LIMIT, n / UINT_LIMIT;
        pn[i] := low;
        assert pn[..i + 1] == before + [low];
        LimbAdded(before, low);
        LimbsSnoc(a, i);
        LimbsSnoc(b, i);
        AddStep(Limit(i), ValueOfLimbs(a[..i]), ValueOfLimbs(b[..i]), a[i], b[i], low, carry, high, ValueOfLimbs(before));
        NextLimit(i);
        carry := high;
        assert pn[i + 1..] == a[i + 1..];
        i := i + 1;
      }
      assert pn[..i] == pn[..] && a[..i] == a && b[..i] == b;
      WithoutCarry(pn[..], carry, ValueOfLimbs(a) + ValueOfLimbs(b));
    }

    /** All bits turned over. */
    method Complement() returns (r: seq<Uint>)
      ensures r == Flipped(pn[..])
    {
      r := [];
      var i := 0;
      while i < pn.Length
        invariant 0 <= i <= pn.Length && r == Flipped(pn[..i])
      {
        r := r + [UINT_LIMIT - 1 - pn[i]];
        i := i + 1;
      }
      assert pn[..i] == pn[..];
    }

    /** One more, modulo the limit: a limb that comes back to zero carries. */
    method Increment()
      requires pn.Length > 0
      modifies pn
      ensures Number() == (old(Number()) + 1) % Limit(pn.Length)
    {
      ghost var a := pn[..];
      hide ValueOfLimbs, Limit;
      var i := 0;
      pn[0] := if pn[0] == UINT_LIMIT - 1 then 0 else pn[0] + 1;
      while pn[i] == 0 && i < pn.Length - 1
        invariant 0 <= i < pn.Length
        invariant forall j :: 0 <= j < i ==> a[j] == UINT_LIMIT - 1 && pn[j] == 0
        invariant pn[i] == if a[i] == UINT_LIMIT - 1 then 0 else a[i] + 1
        invariant forall j :: i < j < pn.Length ==> pn[j] == a[j]
      {
        i := i + 1;
        pn[i] := if pn[i] == UINT_LIMIT - 1 then 0 else pn[i] + 1;
      }
      assert pn[i + 1..] == a[i + 1..];
      Carried(a, pn[..], i);
    }

    /** One less, modulo the limit: a limb that goes below zero borrows. */
    method Decrement()
      requires pn.Length > 0
      modifies pn
      ensures old(Number()) == (Number() + 1) % Limit(pn.Length)
    {
      ghost var a := pn[..];
      hide ValueOfLimbs, Limit;
      var i := 0;
      pn[0] := if pn[0] == 0 then UINT_LIMIT - 1 else pn[0] - 1;
      while pn[i] == UINT_LIMIT - 1 && i < pn.Length - 1
        invariant 0 <= i < pn.Length
        invariant forall j :: 0 <= j < i ==> a[j] == 0 && pn[j] == UINT_LIMIT - 1
        invariant pn[i] == if a[i] == 0 then UINT_LIMIT - 1 else a[i] - 1
        invariant forall j :: i < j < pn.Length ==> pn[j] == a[j]
      {
        i := i + 1;
        pn[i] := if pn[i] == 0 then UINT_LIMIT - 1 else pn[i] - 1;
      }
      assert pn[i + 1..] == a[i + 1..];
      Carried(pn[..], a, i);
    }

    /** The additive inverse modulo the limit: flip and add one. */
    method Negated() returns (r: seq<Uint>)
      requires pn.Length > 0
      ensures |r| == pn.Length && (ValueOfLimbs(r) + Number()) % Limit(pn.Length) == 0
    {
      var flipped := Complement();
      FlippedValue(pn[..]);
      hide ValueOfLimbs, Limit, Flipped;
      var t := new BaseUint.Of(flipped);
      t.Increment();
      r := t.pn[..];
      Inverse(ValueOfLimbs(flipped), Number(), ValueOfLimbs(r), Limit(pn.Length));
    }

    /** Subtraction modulo the limit: adding the inverse. */
    method MinusAssign(b: BaseUint)
      requires b.pn.Length == pn.Length > 0
      modifies pn
      ensures (Number() + old(b.Number())) % Limit(pn.Length) == old(Number())
      ensures b.pn != pn ==> b.Number() == old(b.Number())
    {
      ghost var start, other := Number(), b.Number();
      LimbsBelowLimit(pn[..]);
      var r := b.Negated();
      PlusAssign(r);
      hide ValueOfLimbs, Limit;
      TakenAway(start, ValueOfLimbs(r), other, Number(), Limit(pn.Length));
    }

    /** A shift up multiplies by a power of two, modulo the limit. */
    method ShiftLeftAssign(shift: nat)
      modifies pn
      ensures Number() == Pow2(shift) * old(Number()) % Limit(pn.Length)
    {
      var a := pn[..];
      Clear();
      var k, s := shift / 32, shift % 32;
      ghost var f, g := Pow2(s), Pow2(32 - s);
      PowersMatch(shift, k, s);
      Zeroed(a, pn[..], k, f, g);
      hide AllUp, ValueOfLimbs, Limit, Pow2, Halves;
      var i := 0;
      while i < |a|
        invariant 0 <= i <= |a| == pn.Length
        invariant AllUp(a, pn[..], k, f, g, i)
      {
        SpreadUp(a, i, k, s);
        i := i + 1;
      }
      UpDone(a, pn[..], shift, k, f, g);
    }

    /** One limb's low part goes k limbs up, its high part one further. */
    method SpreadUp(a: seq<Uint>, i: nat, k: nat, s: nat)
      requires i < |a| == pn.Length && s < 32
      requires AllUp(a, pn[..], k, Pow2(s), Pow2(32 - s), i)
      modifies pn
      ensures AllUp(a, pn[..], k, Pow2(s), Pow2(32 - s), i + 1)
    {
      var f, g := Pow2(s), Pow2(32 - s);
      Halved(s);
      ghost var before := pn[..];
      UpFacts(a, before, k, f, g, i);
      if s == 0 {
        WholeLimb(a[i]);
      }
      ShiftedBits(a[i], f, g);
      hide AllUp, UpStage, Halves, Pow2, Apart, UpLimb;
      if i + k + 1 < |a| && s != 0 {
        NothingThere(a[i] / g, f);
        pn[i + k + 1] := Or(a[i] / g, pn[i + k + 1], f);
      }
      if i + k < |a| {
        pn[i + k] := Or(pn[i + k], a[i] * f % UINT_LIMIT, f);
      }
      UpNext(a, before, pn[..], k, f, g, i);
    }

    /** A shift down divides by a power of two. */
    method ShiftRightAssign(shift: nat)
      modifies pn
      ensures Number() == old(Number()) / Pow2(shift)
    {
      var a := pn[..];
      Clear();
      var k, s := shift / 32, shift % 32;
      ghost var f, g := Pow2(s), Pow2(32 - s);
      PowersMatch(shift, k, s);
      Zeroed(a, pn[..], k, f, g);
      hide AllDown, ValueOfLimbs, Limit, Pow2, Halves;
      var i := 0;
      while i < |a|
        invariant 0 <= i <= |a| == pn.Length
        invariant AllDown(a, pn[..], k, f, g, i)
      {
        SpreadDown(a, i, k, s);
        i := i + 1;
      }
      DownDone(a, pn[..], shift, k, f, g);
    }

    /** One limb's high part goes k limbs down, its low part one further. */
    method SpreadDown(a: seq<Uint>, i: nat, k: nat, s: nat)
      requires i < |a| == pn.Length && s < 32
      requires AllDown(a, pn[..], k, Pow2(s), Pow2(32 - s), i)
      modifies pn
      ensures AllDown(a, pn[..], k, Pow2(s), Pow2(32 - s), i + 1)
    {
      var f, g := Pow2(s), Pow2(32 - s);
      Halved(s);
      ghost var before := pn[..];
      DownFacts(a, before, k, f, g, i);
      if s == 0 {
        WholeLimb(a[i]);
      }
      ShiftedBits(a[i], g, f);
      hide AllDown, DownStage, Halves, Pow2, Apart, DownLimb;
      if i - k - 1 >= 0 && s != 0 {
        pn[i - k - 1] := Or(pn[i - k - 1], a[i] * g % UINT_LIMIT, g);
      }
      if i - k >= 0 {
        NothingThere(a[i] / f, g);
        pn[i - k] := Or(a[i] / f, pn[i - k], g);
      }
      DownNext(a, before, pn[..], k, f, g, i);
    }

    method Clear()
      modifies pn
      ensures forall i :: 0 <= i < pn.Length ==> pn[i] == 0
    {
      var i := 0;
      while i < pn.Length
        invariant 0 <= i <= pn.Length && forall j :: 0 <= j < i ==> pn[j] == 0
      {
        pn[i] := 0;
        i := i + 1;
      }
    }
  }

  /** Or of two numbers that share no bit: one lies below f, a power of two, and the other is a
      multiple of f, unless one of them is zero. */
  function Or(low: nat, high: nat, f: nat): (r: nat)
    requires Apart(low, high, f)
  {
    low + high
  }

  ghost predicate Apart(low: nat, high: nat, f: nat) {
    low == 0 || high == 0 || (low < f && exists q: nat :: high == q * f)
  }

  lemma PowersMatch(shift: nat, k: nat, s: nat)
    requires k == shift / 32 && s == shift % 32
    ensures Halves(Pow2(s), Pow2(32 - s)) && Pow2(shift) == Power(BASE, k) * Pow2(s)
  {
    Pow2Sum(s, 32 - s);
    Pow2Limb();
    Pow2Limbs(k);
    Pow2Sum(32 * k, s);
  }

  lemma Pow2Limb()
    ensures Pow2(32) == BASE
  {
    assert Pow2(8) == 256;
    Pow2Sum(8, 8);
    Pow2Sum(16, 16);
  }

  lemma {:induction false} Pow2Limbs(k: nat)
    ensures Pow2(32 * k) == Power(BASE, k)
  {
    if k > 0 {
      Pow2Limbs(k - 1);
      Pow2Limb();
      Pow2Sum(32, 32 * (k - 1));
    }
  }

  /** Bits shifted out at the top are those over g. */
  lemma ShiftedBits(x: Uint, f: nat, g: nat)
    requires Halves(f, g)
    ensures x * f % BASE == x % g * f
  {
    QuotientIsNat(x, g);
    var q, r := x / g, x % g;
    Distribute(f, g * q, r);
    MulAssociative(f, g, q);
    MulMonotone(f, r + 1, g);
    Distribute(f, r, 1);
    DivModUnique(x * f, BASE, q, r * f);
  }

  /** Without a part-limb shift nothing crosses a limb. */
  lemma WholeLimb(x: Uint)
    ensures x / Pow2(32) == 0 && x % Pow2(0) == 0
  {
    Pow2Limb();
    DivModUnique(x, BASE, 0, x);
    DivModUnique(x, 1, x, 0);
  }

  lemma Halved(s: nat)
    requires s < 32
    ensures Halves(Pow2(s), Pow2(32 - s)) && Halves(Pow2(32 - s), Pow2(s))
  {
    Pow2Sum(s, 32 - s);
    Pow2Limb();
  }

  lemma NothingThere(x: nat, f: nat)
    ensures Apart(x, 0, f) && Apart(0, x, f)
  {
  }

  lemma Zeroed(a: seq<Uint>, r: seq<Uint>, k: nat, f: nat, g: nat)
    requires Halves(f, g) && |r| == |a| && forall j :: 0 <= j < |r| ==> r[j] == 0
    ensures AllUp(a, r, k, f, g, 0) && AllDown(a, r, k, f, g, 0)
  {
    DivModUnique(0, g, 0, 0);
  }

  /** Limb j after i limbs are shifted up. */
  function UpStage(a: seq<Uint>, k: nat, f: nat, g: nat, i: nat, j: nat): nat
    requires f > 0 && g > 0 && i <= |a| && j < |a|
  {
    if j < k || j - k > i then 0
    else if j - k < i then UpLimb(a[j - k], LimbAt(a, j - k - 1), f, g)
    else
      QuotientIsNat(LimbAt(a, i - 1), g);
      LimbAt(a, i - 1) / g
  }

  ghost predicate AllUp(a: seq<Uint>, r: seq<Uint>, k: nat, f: nat, g: nat, i: nat)
    requires i <= |a| == |r|
  {
    f > 0 && g > 0 && forall j :: 0 <= j < |a| ==> r[j] == UpStage(a, k, f, g, i, j)
  }

  lemma UpFacts(a: seq<Uint>, r: seq<Uint>, k: nat, f: nat, g: nat, i: nat)
    requires Halves(f, g) && i < |a| == |r| && AllUp(a, r, k, f, g, i)
    ensures i + k + 1 < |a| ==> r[i + k + 1] == 0
    ensures 0 <= a[i] / g < f && 0 <= a[i] % g * f
    ensures i + k < |a| ==>
              Apart(r[i + k], a[i] % g * f, f) && r[i + k] + a[i] % g * f == UpLimb(a[i], LimbAt(a, i - 1), f, g) < BASE
  {
    QuotientIsNat(a[i], g);
    QuotientBelow(a[i], f, g);
    var below := LimbAt(a, i - 1);
    QuotientBelow(below, f, g);
    QuotientIsNat(below, g);
    UpLimbFits(a[i], below, f, g);
    MulMonotone(f, 0, a[i] % g);
    if i + k < |a| {
      assert r[i + k] == UpStage(a, k, f, g, i, i + k) == below / g;
    }
    if i + k + 1 < |a| {
      assert r[i + k + 1] == UpStage(a, k, f, g, i, i + k + 1);
    }
  }

  lemma UpNext(a: seq<Uint>, r: seq<Uint>, t: seq<Uint>, k: nat, f: nat, g: nat, i: nat)
    requires i < |a| == |r| == |t| && AllUp(a, r, k, f, g, i)
    requires forall j :: 0 <= j < |a| && j != i + k && j != i + k + 1 ==> t[j] == r[j]
    requires i + k < |a| ==> t[i + k] == UpLimb(a[i], LimbAt(a, i - 1), f, g)
    requires i + k + 1 < |a| ==> t[i + k + 1] == a[i] / g
    ensures AllUp(a, t, k, f, g, i + 1)
  {
    hide UpLimb;
    forall j | 0 <= j < |a|
      ensures t[j] == UpStage(a, k, f, g, i + 1, j)
    {
      assert r[j] == UpStage(a, k, f, g, i, j);
    }
  }

  lemma UpDone(a: seq<Uint>, r: seq<Uint>, shift: nat, k: nat, f: nat, g: nat)
    requires Halves(f, g) && |r| == |a| && Pow2(shift) == Power(BASE, k) * f
    requires AllUp(a, r, k, f, g, |a|)
    ensures ValueOfLimbs(r) == Pow2(shift) * ValueOfLimbs(a) % Limit(|a|)
  {
    if k <= |a| {
      var low := a[..|a| - k];
      forall j | 0 <= j < |a|
        ensures r[j] == (Repeat(0, k) + ShiftedUp(low, 0, f, g))[j]
      {
        if j >= k {
          ShiftedUpAt(low, 0, f, g, j - k);
        }
      }
      assert r == Repeat(0, k) + ShiftedUp(low, 0, f, g);
      hide ShiftedUp, UpStage, ValueOfLimbs;
      ShiftLeftValue(a, k, f, g, r);
    } else {
      EmptyLimbs(r);
      PowerSum(BASE, |a|, k - |a|);
      hide UpStage, ValueOfLimbs;
      AllOut(Limit(|a|), Power(BASE, k - |a|), f, ValueOfLimbs(a));
    }
  }

  /** Limb j after i limbs are shifted down. */
  function DownStage(a: seq<Uint>, k: nat, f: nat, g: nat, i: nat, j: nat): nat
    requires f > 0 && g > 0 && i <= |a| && j < |a|
  {
    if j + k >= i then 0
    else if j + k + 1 < i then DownLimb(a[j + k], LimbAt(a, j + k + 1), f, g)
    else
      QuotientIsNat(a[j + k], f);
      a[j + k] / f
  }

  ghost predicate AllDown(a: seq<Uint>, r: seq<Uint>, k: nat, f: nat, g: nat, i: nat)
    requires i <= |a| == |r|
  {
    f > 0 && g > 0 && forall j :: 0 <= j < |a| ==> r[j] == DownStage(a, k, f, g, i, j)
  }

  lemma DownFacts(a: seq<Uint>, r: seq<Uint>, k: nat, f: nat, g: nat, i: nat)
    requires Halves(f, g) && i < |a| == |r| && AllDown(a, r, k, f, g, i)
    ensures i - k >= 0 ==> r[i - k] == 0
    ensures 0 <= a[i] / f < g && 0 <= a[i] % f * g
    ensures i - k - 1 >= 0 ==>
              Apart(r[i - k - 1], a[i] % f * g, g) && r[i - k - 1] + a[i] % f * g == DownLimb(a[i - 1], a[i], f, g) < BASE
  {
    QuotientIsNat(a[i], f);
    QuotientBelow(a[i], f, g);
    MulMonotone(g, 0, a[i] % f);
    if i - k >= 0 {
      assert r[i - k] == DownStage(a, k, f, g, i, i - k);
    }
    if i - k - 1 >= 0 {
      QuotientBelow(a[i - 1], f, g);
      DownLimbFits(a[i - 1], a[i], f, g);
      assert r[i - k - 1] == DownStage(a, k, f, g, i, i - k - 1) == a[i - 1] / f;
    }
  }

  lemma DownNext(a: seq<Uint>, r: seq<Uint>, t: seq<Uint>, k: nat, f: nat, g: nat, i: nat)
    requires i < |a| == |r| == |t| && AllDown(a, r, k, f, g, i)
    requires forall j :: 0 <= j < |a| && j != i - k && j != i - k - 1 ==> t[j] == r[j]
    requires i - k >= 0 ==> t[i - k] == a[i] / f
    requires i - k - 1 >= 0 ==> t[i - k - 1] == DownLimb(a[i - 1], a[i], f, g)
    ensures AllDown(a, t, k, f, g, i + 1)
  {
    hide DownLimb;
    forall j | 0 <= j < |a|
      ensures t[j] == DownStage(a, k, f, g, i + 1, j)
    {
      assert r[j] == DownStage(a, k, f, g, i, j);
    }
  }

  lemma DownDone(a: seq<Uint>, r: seq<Uint>, shift: nat, k: nat, f: nat, g: nat)
    requires Halves(f, g) && |r| == |a| && Pow2(shift) == Power(BASE, k) * f
    requires AllDown(a, r, k, f, g, |a|)
    ensures ValueOfLimbs(r) == ValueOfLimbs(a) / Pow2(shift)
  {
    if k <= |a| {
      var high := a[k..];
      hide ShiftedDown, DownLimb, ValueOfLimbs;
      forall j | 0 <= j < |a|
        ensures r[j] == (ShiftedDown(high, f, g) + Repeat(0, k))[j]
      {
        assert r[j] == DownStage(a, k, f, g, |a|, j);
        if j < |a| - k {
          ShiftedDownAt(high, f, g, j);
          LastLimb(a, k, f, g, j);
        }
      }
      hide DownStage, AllDown;
      assert r == ShiftedDown(high, f, g) + Repeat(0, k);
      ShiftRightValue(a, k, f, g, r);
    } else {
      EmptyLimbs(r);
      LimbsBelowLimit(a);
      PowerSum(BASE, |a|, k - |a|);
      hide DownStage, ValueOfLimbs;
      NothingLeft(ValueOfLimbs(a), Limit(|a|), Power(BASE, k - |a|), f);
    }
  }

  /** The highest limb has nothing above it. */
  lemma LastLimb(a: seq<Uint>, k: nat, f: nat, g: nat, j: nat)
    requires f > 0 && g > 0 && j + k < |a|
    ensures DownStage(a, k, f, g, |a|, j) == DownLimb(a[k..][j], LimbAt(a[k..], j + 1), f, g)
  {
    QuotientIsNat(0, f);
    DivModUnique(0, f, 0, 0);
    assert 0 * g == 0;
  }

  lemma NothingLeft(v: nat, limit: nat, p: nat, f: nat)
    requires v < limit && p > 0 && f > 0
    ensures limit * p * f > 0 && v / (limit * p * f) == 0
  {
    MulMonotone(limit, 1, p);
    MulMonotone(limit * p, 1, f);
    DivModUnique(v, limit * p * f, 0, v);
  }

  lemma AllOut(limit: nat, p: nat, f: nat, v: nat)
    requires limit > 0
    ensures limit * p * f * v % limit == 0
  {
    MulAssociative(limit, p, f);
    MulAssociative(limit, p * f, v);
    DivModUnique(limit * p * f * v, limit, p * f * v, 0);
  }

  method LessThan(a: seq<Uint>, b: seq<Uint>) returns (less: bool)
    requires |a| == |b|
    ensures less <==> ValueOfLimbs(a) < ValueOfLimbs(b)
  {
    hide ValueOfLimbs;
    var i := |a| - 1;
    while i >= 0
      invariant -1 <= i < |a| && a[i + 1..] == b[i + 1..]
    {
      if a[i] < b[i] {
        HigherLimbWins(a, b, i);
        return true;
      } else if a[i] > b[i] {
        HigherLimbWins(b, a, i);
        return false;
      }
      assert a[i..] == [a[i]] + a[i + 1..] && b[i..] == [b[i]] + b[i + 1..];
      i := i - 1;
    }
    assert a[0..] == a && b[0..] == b;
    less := false;
  }

  method Equals(a: seq<Uint>, b: seq<Uint>) returns (equal: bool)
    requires |a| == |b|
    ensures equal <==> ValueOfLimbs(a) == ValueOfLimbs(b)
  {
    hide ValueOfLimbs;
    var i := 0;
    while i < |a|
      invariant 0 <= i <= |a| && a[..i] == b[..i]
    {
      if a[i] != b[i] {
        if ValueOfLimbs(a) == ValueOfLimbs(b) {
          SameValueSameLimbs(a, b);
          assert false;
        }
        return false;
      }
      i := i + 1;
    }
    assert a[..i] == a && b[..i] == b;
    equal := true;
  }

  lemma NoLimbs(a: seq<Uint>)
    ensures ValueOfLimbs(a[..0]) == 0 && Limit(0) == 1
  {
  }

  lemma LimbAdded(front: seq<Uint>, x: Uint)
    ensures ValueOfLimbs(front + [x]) == ValueOfLimbs(front) + Limit(|front|) * x
  {
    ValueSnoc(front, x, BASE);
  }

  lemma NextLimit(i: nat)
    ensures Limit(i + 1) == BASE * Limit(i)
  {
  }

  /** Where a carry stops: full limbs below have come back to zero, and one limb has gone up by one,
      unless it was full and the last. */
  lemma Carried(a: seq<Uint>, r: seq<Uint>, i: nat)
    requires |a| == |r| && i < |a| && a[i + 1..] == r[i + 1..]
    requires forall j :: 0 <= j < i ==> a[j] == UINT_LIMIT - 1 && r[j] == 0
    requires r[i] == if a[i] == UINT_LIMIT - 1 then 0 else a[i] + 1
    requires a[i] == UINT_LIMIT - 1 ==> i == |a| - 1
    ensures ValueOfLimbs(r) == (ValueOfLimbs(a) + 1) % Limit(|a|)
  {
    FullLimbs(a[..i]);
    EmptyLimbs(r[..i]);
    LimbsSnoc(a, i);
    LimbsSnoc(r, i);
    ValueSplit(a, i + 1, BASE);
    ValueSplit(r, i + 1, BASE);
    var p, high := Limit(i), ValueOfLimbs(a[i + 1..]);
    NextLimit(i);
    if a[i] == UINT_LIMIT - 1 {
      assert a[i + 1..] == [];
      assert Limit(i + 1) * 0 == 0;
      Distribute(p, UINT_LIMIT - 1, 1);
      assert p * 0 == 0;
      WithoutCarry(r, 1, ValueOfLimbs(a) + 1);
    } else {
      Distribute(p, a[i], 1);
      WithoutCarry(r, 0, ValueOfLimbs(a) + 1);
    }
  }

  lemma {:induction false} FullLimbs(a: seq<Uint>)
    requires forall j :: 0 <= j < |a| ==> a[j] == UINT_LIMIT - 1
    ensures ValueOfLimbs(a) == Limit(|a|) - 1
    decreases |a|
  {
    if a != [] {
      FullLimbs(a[1..]);
      Distribute(BASE, Limit(|a| - 1), -1);
    }
  }

  lemma {:induction false} EmptyLimbs(a: seq<Uint>)
    requires forall j :: 0 <= j < |a| ==> a[j] == 0
    ensures ValueOfLimbs(a) == 0
    decreases |a|
  {
    if a != [] {
      EmptyLimbs(a[1..]);
      assert BASE * 0 == 0;
    }
  }

  lemma Inverse(flipped: nat, v: nat, r: nat, limit: nat)
    requires limit > 0 && flipped + v == limit - 1 && r == (flipped + 1) % limit
    ensures (r + v) % limit == 0
  {
    if v == 0 {
      DivModUnique(flipped + 1, limit, 1, 0);
      DivModUnique(r + v, limit, 0, 0);
    } else {
      DivModUnique(flipped + 1, limit, 0, flipped + 1);
      DivModUnique(r + v, limit, 1, 0);
    }
  }

  lemma TakenAway(start: nat, r: nat, b: nat, v: nat, limit: nat)
    requires limit > 0 && start < limit && (r + b) % limit == 0 && v == (start + r) % limit
    ensures (v + b) % limit == start
  {
    var q, s := (r + b) / limit, (start + r) / limit;
    assert r + b == limit * q && start + r == limit * s + v;
    Distribute(limit, q, -s);
    assert limit * -s == -(limit * s);
    DivModUnique(v + b, limit, q - s, start);
  }
}
