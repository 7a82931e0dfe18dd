/** Filling a round's payout transaction: accounts are paid in order until the maximum is met, and
    the finder takes what is left. The ints handed back between the calls are narrowed to 32 bits;
    the filling is the intended one exactly when the narrowing never misleads it. */
module Filling {
  import opened Bytes
  import opened Coinbase
  import opened Words

  /** Pay the accounts in order, in full while they fit; the first that does not fit gets what is
      left, and the filling stops there. */
  function Filled(c: Payout, order: seq<Text>, balances: map<Text, Word>): Payout
    requires forall k :: k in order ==> k in balances
    decreases |order|
  {
    if order == [] then c
    else if balances[order[0]] == 0 then Filled(c, order[1..], balances)
    else
      var (d, left) := Attempt(c, order[0], balances[order[0]]);
      if left < 0 then Attempt(d, order[0], (balances[order[0]] + left) % WORD_LIMIT).0
      else Filled(d, order[1..], balances)
  }

  /** The finder takes what is left. */
  function Completed(c: Payout, finder: Text): Payout {
    if c.currentValue == c.maxValue then c
    else Attempt(c, finder, ToInt(c.maxValue - c.currentValue) % WORD_LIMIT).0
  }

  /** The transaction after the first account of an order is dealt with. */
  function HeadPaid(c: Payout, address: Text, balance: Word): Payout {
    if balance == 0 then c
    else
      var (d, left) := Attempt(c, address, balance);
      if left < 0 then Attempt(d, address, (balance + left) % WORD_LIMIT).0 else d
  }

  lemma FilledHead(c: Payout, order: seq<Text>, balances: map<Text, Word>)
    requires order != [] && forall k :: k in order ==> k in balances
    ensures var b := balances[order[0]];
            Filled(c, order, balances) == if b > 0 && Attempt(c, order[0], b).1 < 0 then HeadPaid(c, order[0], b)
                                          else Filled(HeadPaid(c, order[0], b), order[1..], balances)
  {
    hide Attempt;
  }

  lemma AttemptKeepsTerms(c: Payout, address: Text, value: Word)
    ensures Attempt(c, address, value).0.maxValue == c.maxValue && Attempt(c, address, value).0.poolFee == c.poolFee
  {
  }

  /** Filling changes neither the maximum nor the fee. */
  lemma {:induction false} FilledKeepsTerms(c: Payout, order: seq<Text>, balances: map<Text, Word>)
    requires forall k :: k in order ==> k in balances
    ensures Filled(c, order, balances).maxValue == c.maxValue && Filled(c, order, balances).poolFee == c.poolFee
    decreases |order|
  {
    if order != [] {
      hide Attempt;
      var b := balances[order[0]];
      if b == 0 {
        FilledKeepsTerms(c, order[1..], balances);
      } else {
        var (d, left) := Attempt(c, order[0], b);
        AttemptKeepsTerms(c, order[0], b);
        AttemptKeepsTerms(d, order[0], (b + left) % WORD_LIMIT);
        FilledKeepsTerms(d, order[1..], balances);
      }
    }
  }

  lemma CompletedKeepsTerms(c: Payout, finder: Text)
    ensures Completed(c, finder).maxValue == c.maxValue && Completed(c, finder).poolFee == c.poolFee
  {
    AttemptKeepsTerms(c, finder, ToInt(c.maxValue - c.currentValue) % WORD_LIMIT);
  }

  // ---------------------------------------------------------------- what is intended

  /** Balances of the first i accounts together. */
  function Before(order: seq<Text>, balances: map<Text, Word>, i: nat): nat
    requires i <= |order| && forall k :: k in order ==> k in balances
  {
    if i == 0 then 0 else Before(order, balances, i - 1) + balances[order[i - 1]]
  }

  lemma {:induction false} BeforeTail(order: seq<Text>, balances: map<Text, Word>, i: nat)
    requires 1 <= i <= |order| && forall k :: k in order ==> k in balances
    ensures Before(order, balances, i) == balances[order[0]] + Before(order[1..], balances, i - 1)
  {
    if i > 1 {
      BeforeTail(order, balances, i - 1);
      assert order[1..][i - 2] == order[i - 1];
    }
  }

  lemma {:induction false} BeforeGrows(order: seq<Text>, balances: map<Text, Word>, i: nat, j: nat)
    requires i <= j <= |order| && forall k :: k in order ==> k in balances
    ensures Before(order, balances, i) <= Before(order, balances, j)
    decreases j
  {
    if i < j {
      BeforeGrows(order, balances, i, j - 1);
    }
  }

  /** Where the level stands after i accounts. */
  function Level(c: Payout, order: seq<Text>, balances: map<Text, Word>, i: nat): nat
    requires i <= |order| && forall k :: k in order ==> k in balances
  {
    Min(c.maxValue, c.currentValue + Before(order, balances, i))
  }

  /** Water-filling: account i is paid the part of its balance that lies below the maximum when the
      balances are laid end to end. */
  ghost predicate Paid(c: Payout, order: seq<Text>, balances: map<Text, Word>, i: nat)
    requires i < |order| && forall k :: k in order ==> k in balances
  {
    At<Text>(Filled(c, order, balances).outputs, order[i])
    == At<Text>(c.outputs, order[i]) + Level(c, order, balances, i + 1) - Level(c, order, balances, i)
  }

  // ---------------------------------------------------------------- when narrowing is harmless

  /** A second attempt for s more adds nothing at a value so far of y. */
  predicate Idle(s: int, y: nat, max: nat) {
    s == 0 || y + s > max || y + s < 0
  }

  /** One account of balance b, met at value x, when all balances together reach value end: it is met
      too late to matter; or it does not fit, by at most 2^31; or it fits, and the int handed back is
      not negative, or is negative and stops a filling that had nothing more to add. */
  predicate StepExact(max: nat, x: nat, b: nat, end: nat) {
    || b == 0 || x >= max
    || (x + b > max && x + b - max <= 0x8000_0000)
    || (x + b <= max && (ToInt(max - x - b) >= 0 || (end == x + b && Idle(b + ToInt(max - x - b), x + b, max))))
  }

  ghost predicate ExactAt(start: nat, max: nat, order: seq<Text>, balances: map<Text, Word>, i: nat)
    requires i < |order| && forall k :: k in order ==> k in balances
  {
    StepExact(max, start + Before(order, balances, i), balances[order[i]], start + Before(order, balances, |order|))
  }

  ghost predicate Faithful(start: nat, max: nat, order: seq<Text>, balances: map<Text, Word>)
    requires forall k :: k in order ==> k in balances
  {
    forall i :: 0 <= i < |order| ==> ExactAt(start, max, order, balances, i)
  }

  /** Every balance is known, and no 64-bit sum wraps. */
  ghost predicate NoWrap(c: Payout, order: seq<Text>, balances: map<Text, Word>) {
    && (forall k :: k in order ==> k in balances)
    && c.maxValue + Before(order, balances, |order|) + 0x8000_0000 < WORD_LIMIT
  }

  lemma ExactFirst(start: nat, max: nat, order: seq<Text>, balances: map<Text, Word>)
    requires order != [] && forall k :: k in order ==> k in balances
    ensures ExactAt(start, max, order, balances, 0)
            <==> StepExact(max, start, balances[order[0]], start + Before(order, balances, |order|))
  {
  }

  lemma ExactLater(start: nat, max: nat, order: seq<Text>, balances: map<Text, Word>, i: nat)
    requires i + 1 < |order| && forall k :: k in order ==> k in balances
    ensures ExactAt(start, max, order, balances, i + 1)
            <==> ExactAt(start + balances[order[0]], max, order[1..], balances, i)
  {
    hide StepExact;
    BeforeTail(order, balances, i + 1);
    BeforeTail(order, balances, |order|);
  }

  lemma FaithfulHead(start: nat, max: nat, order: seq<Text>, balances: map<Text, Word>)
    requires order != [] && forall k :: k in order ==> k in balances
    ensures Faithful(start, max, order, balances)
            <==> StepExact(max, start, balances[order[0]], start + Before(order, balances, |order|))
                 && Faithful(start + balances[order[0]], max, order[1..], balances)
  {
    hide StepExact, ExactAt, Before;
    var next, rest := start + balances[order[0]], order[1..];
    ExactFirst(start, max, order, balances);
    forall i | 0 <= i < |rest|
      ensures ExactAt(next, max, rest, balances, i) <==> ExactAt(start, max, order, balances, i + 1)
    {
      ExactLater(start, max, order, balances, i);
    }
    if ExactAt(start, max, order, balances, 0) && Faithful(next, max, rest, balances) {
      forall i | 0 <= i < |order| ensures ExactAt(start, max, order, balances, i) {
        if i > 0 {
          assert ExactAt(next, max, rest, balances, i - 1);
        }
      }
    }
  }

  /** Past the maximum nothing can go wrong. */
  lemma FaithfulPast(start: nat, max: nat, order: seq<Text>, balances: map<Text, Word>)
    requires (forall k :: k in order ==> k in balances) && start >= max
    ensures Faithful(start, max, order, balances)
  {
  }

  /** An account that straddles the maximum is too large by at most 2^31. */
  ghost predicate Straddles(start: nat, max: nat, order: seq<Text>, balances: map<Text, Word>, i: nat)
    requires i < |order| && forall k :: k in order ==> k in balances
  {
    start + Before(order, balances, i) < max < start + Before(order, balances, i + 1)
    ==> start + Before(order, balances, i + 1) - max <= 0x8000_0000
  }

  lemma ExactBelow(start: nat, max: nat, order: seq<Text>, balances: map<Text, Word>, i: nat)
    requires i < |order| && (forall k :: k in order ==> k in balances) && max < 0x8000_0000
    ensures ExactAt(start, max, order, balances, i) <==> Straddles(start, max, order, balances, i)
  {
    var x, b, end := start + Before(order, balances, i), balances[order[i]], start + Before(order, balances, |order|);
    assert start + Before(order, balances, i + 1) == x + b;
    hide Before;
    StepBelow(max, x, b, end);
  }

  lemma StepBelow(max: nat, x: nat, b: nat, end: nat)
    requires max < 0x8000_0000
    ensures StepExact(max, x, b, end) <==> (x < max < x + b ==> x + b - max <= 0x8000_0000)
  {
    hide Idle, ToInt;
    if x + b <= max {
      SmallIsKept(max - x - b);
    }
  }

  /** With a maximum below 2^31 only the account that straddles it matters. */
  lemma FaithfulBelow(start: nat, max: nat, order: seq<Text>, balances: map<Text, Word>)
    requires (forall k :: k in order ==> k in balances) && max < 0x8000_0000
    ensures Faithful(start, max, order, balances)
            <==> forall i :: 0 <= i < |order| ==> Straddles(start, max, order, balances, i)
  {
    hide ExactAt, Straddles;
    forall i | 0 <= i < |order|
      ensures ExactAt(start, max, order, balances, i) <==> Straddles(start, max, order, balances, i)
    {
      ExactBelow(start, max, order, balances, i);
    }
  }

  // ---------------------------------------------------------------- one account

  /** A transaction that is the same but for entries of zero. */
  ghost predicate Unmoved(c: Payout, d: Payout) {
    && d.maxValue == c.maxValue && d.poolFee == c.poolFee && d.currentValue == c.currentValue
    && Total<Text>(d.outputs) == Total<Text>(c.outputs)
    && forall k :: At<Text>(d.outputs, k) == At<Text>(c.outputs, k)
  }

  lemma NothingAdded(c: Payout, address: Text)
    requires Sound(c)
    ensures Unmoved(c, Attempt(c, address, 0).0)
  {
    AttemptFits(c, address, 0);
    hide Attempt, Total;
  }

  /** The second attempt, for what the returned int says is still to come. */
  lemma SecondAttempt(c: Payout, address: Text, s: int)
    requires Sound(c) && c.maxValue + 0x8000_0000 < WORD_LIMIT && -0x8000_0000 <= s && c.currentValue + s < WORD_LIMIT && s < WORD_LIMIT
    ensures Idle(s, c.currentValue, c.maxValue) ==> Unmoved(c, Attempt(c, address, s % WORD_LIMIT).0)
    ensures !Idle(s, c.currentValue, c.maxValue) ==>
              At<Text>(Attempt(c, address, s % WORD_LIMIT).0.outputs, address) != At<Text>(c.outputs, address)
  {
    var y, max := c.currentValue, c.maxValue;
    if s == 0 {
      NothingAdded(c, address);
    } else if s > 0 {
      assert s % WORD_LIMIT == s;
      AddedDiffers(c, address, s);
    } else {
      assert s % WORD_LIMIT == WORD_LIMIT + s;
      AddedDiffers(c, address, WORD_LIMIT + s);
      assert Add(WORD_LIMIT + s, y) == if y + s >= 0 then y + s else WORD_LIMIT + y + s;
    }
  }

  /** A value that is taken up shows in the output. */
  lemma AddedDiffers(c: Payout, address: Text, value: Word)
    requires value > 0
    ensures Add(value, c.currentValue) > c.maxValue ==> Attempt(c, address, value).0 == c
    ensures Add(value, c.currentValue) <= c.maxValue ==>
              At<Text>(Attempt(c, address, value).0.outputs, address) != At<Text>(c.outputs, address)
  {
    var was := if address in c.outputs then c.outputs[address] else 0;
    assert Add(was, value) != was;
  }

  /** An account too large for what is left: taken in part when it is too large by at most 2^31, and
      otherwise not at all, whether or not the filling stops there. */
  lemma HeadTooLarge(c: Payout, address: Text, b: Word)
    requires c.currentValue <= c.maxValue < c.currentValue + b < WORD_LIMIT
    ensures Attempt(c, address, b) == (c, ToInt(c.maxValue - c.currentValue - b))
    ensures var over := c.currentValue + b - c.maxValue;
            if over <= 0x8000_0000
            then ToInt(-over) == -over && HeadPaid(c, address, b) == Attempt(c, address, c.maxValue - c.currentValue).0
            else HeadPaid(c, address, b) == c
  {
    var over := c.currentValue + b - c.maxValue;
    AttemptTooLarge(c, address, b);
    var left := ToInt(-over);
    if over <= 0x8000_0000 {
      SmallIsKept(-over);
      assert (b + left) % WORD_LIMIT == c.maxValue - c.currentValue;
    } else if left < 0 {
      var k := NarrowingShifts(-over);
      assert k >= 1;
      assert (b + left) % WORD_LIMIT == b + left;
      AttemptTooLarge(c, address, b + left);
    }
  }

  // ---------------------------------------------------------------- along the order

  /** No address outside the order is touched. */
  lemma {:induction false} FilledOthers(c: Payout, order: seq<Text>, balances: map<Text, Word>, k: Text)
    requires (forall j :: j in order ==> j in balances) && k !in order
    ensures var d := Filled(c, order, balances);
            && At<Text>(d.outputs, k) == At<Text>(c.outputs, k) && (k in d.outputs ==> k in c.outputs)
            && d.maxValue == c.maxValue && d.poolFee == c.poolFee
    decreases |order|
  {
    if order != [] {
      FilledOthers(c, order[1..], balances, k);
      FilledOthers(Attempt(c, order[0], balances[order[0]]).0, order[1..], balances, k);
    }
  }

  lemma {:induction false} FilledKeys(c: Payout, order: seq<Text>, balances: map<Text, Word>)
    requires forall k :: k in order ==> k in balances
    ensures forall k :: k in Filled(c, order, balances).outputs ==> k in c.outputs || k in order
  {
    forall k | k in Filled(c, order, balances).outputs && k !in order
      ensures k in c.outputs
    {
      FilledOthers(c, order, balances, k);
    }
  }

  lemma NoWrapTail(c: Payout, d: Payout, order: seq<Text>, balances: map<Text, Word>)
    requires NoWrap(c, order, balances) && order != [] && d.maxValue == c.maxValue
    ensures NoWrap(d, order[1..], balances) && c.maxValue + 0x8000_0000 < WORD_LIMIT
    ensures c.maxValue + balances[order[0]] + 0x8000_0000 < WORD_LIMIT
  {
    BeforeTail(order, balances, |order|);
  }

  /** Once the maximum is met, nothing more is taken. */
  lemma {:induction false} FullStays(c: Payout, order: seq<Text>, balances: map<Text, Word>)
    requires NoWrap(c, order, balances) && Sound(c) && c.currentValue == c.maxValue
    ensures Unmoved(c, Filled(c, order, balances))
    decreases |order|
  {
    if order != [] {
      hide Attempt, Filled, HeadPaid, Total;
      var b := balances[order[0]];
      NoWrapTail(c, c, order, balances);
      FullStays(c, order[1..], balances);
      FilledHead(c, order, balances);
      if b > 0 {
        HeadTooLarge(c, order[0], b);
        NothingAdded(c, order[0]);
      } else {
        NothingPaid(c, order[0]);
      }
    } else {
      FilledNone(c, balances);
    }
  }

  lemma NothingPaid(c: Payout, address: Text)
    ensures HeadPaid(c, address, 0) == c
  {
  }

  lemma FilledNone(c: Payout, balances: map<Text, Word>)
    ensures Filled(c, [], balances) == c
  {
  }

  lemma LevelTail(c: Payout, d: Payout, order: seq<Text>, balances: map<Text, Word>, i: nat)
    requires i < |order| && (forall k :: k in order ==> k in balances)
    requires d.maxValue == c.maxValue && d.currentValue == c.currentValue + balances[order[0]]
    ensures Level(c, order, balances, i + 1) == Level(d, order[1..], balances, i)
  {
    BeforeTail(order, balances, i + 1);
  }

  /** The levels before and after the first account, and where later ones lie. */
  lemma Levels(c: Payout, order: seq<Text>, balances: map<Text, Word>, i: nat)
    requires i < |order| && c.currentValue <= c.maxValue && (forall k :: k in order ==> k in balances)
    ensures Level(c, order, balances, 0) == c.currentValue
    ensures Level(c, order, balances, 1) == Min(c.maxValue, c.currentValue + balances[order[0]])
    ensures Level(c, order, balances, 1) <= Level(c, order, balances, i + 1) <= c.maxValue
    ensures Level(c, order, balances, i) <= Level(c, order, balances, i + 1)
    ensures i > 0 ==> Level(c, order, balances, 1) <= Level(c, order, balances, i)
    ensures i + 1 <= |order| && Before(order, balances, |order|) == balances[order[0]]
            ==> Level(c, order, balances, i + 1) == Level(c, order, balances, 1)
    ensures i > 0 && Before(order, balances, |order|) == balances[order[0]]
            ==> Level(c, order, balances, i) == Level(c, order, balances, 1)
  {
    assert Before(order, balances, 1) == balances[order[0]];
    BeforeGrows(order, balances, 1, i + 1);
    BeforeGrows(order, balances, i + 1, |order|);
    if i > 0 {
      BeforeGrows(order, balances, 1, i);
      BeforeGrows(order, balances, i, |order|);
    }
  }

  /** How the filling goes on after its first account. */
  datatype Turn = Past | Skipped | InFull | Last | Part | Missed

  /** Past the maximum; nothing to pay; paid in full and going on; paid in full and stopping; paid in
      part; too large by more than 2^31. */
  function TurnOf(c: Payout, order: seq<Text>, balances: map<Text, Word>): Turn
    requires order != [] && c.currentValue <= c.maxValue && forall k :: k in order ==> k in balances
  {
    var left := c.maxValue - c.currentValue - balances[order[0]];
    if c.currentValue == c.maxValue then Past
    else if balances[order[0]] == 0 then Skipped
    else if left < -0x8000_0000 then Missed
    else if left < 0 then Part
    else if ToInt(left) >= 0 then InFull
    else Last
  }

  /** The transaction handed to the rest of the order. */
  function Next(c: Payout, order: seq<Text>, balances: map<Text, Word>): Payout
    requires order != [] && forall k :: k in order ==> k in balances
  {
    if balances[order[0]] == 0 then c else Attempt(c, order[0], balances[order[0]]).0
  }

  /** An address has gained a value, and everything else is as it was. */
  ghost predicate Adds(c: Payout, d: Payout, address: Text, value: nat) {
    && Sound(d) && d.maxValue == c.maxValue && d.poolFee == c.poolFee && d.currentValue == c.currentValue + value
    && At<Text>(d.outputs, address) == At<Text>(c.outputs, address) + value
    && forall k :: k != address ==> At<Text>(d.outputs, k) == At<Text>(c.outputs, k)
  }

  lemma AttemptAdds(c: Payout, address: Text, value: Word)
    requires Sound(c) && c.currentValue + value <= c.maxValue
    ensures Adds(c, Attempt(c, address, value).0, address, value)
    ensures Attempt(c, address, value).1 == ToInt(c.maxValue - c.currentValue - value)
    ensures Attempt(c, address, value).0.outputs.Keys == c.outputs.Keys + {address}
  {
    AttemptFits(c, address, value);
    hide Attempt, Sound;
  }

  lemma NextAdds(c: Payout, order: seq<Text>, balances: map<Text, Word>)
    requires Sound(c) && order != [] && (forall k :: k in order ==> k in balances)
    requires c.currentValue + balances[order[0]] <= c.maxValue
    ensures Adds(c, Next(c, order, balances), order[0], balances[order[0]])
  {
    if balances[order[0]] > 0 {
      AttemptAdds(c, order[0], balances[order[0]]);
    }
    hide Attempt, Sound;
  }

  lemma FilledNext(c: Payout, order: seq<Text>, balances: map<Text, Word>)
    requires order != [] && forall k :: k in order ==> k in balances
    requires balances[order[0]] == 0 || Attempt(c, order[0], balances[order[0]]).1 >= 0
    ensures Filled(c, order, balances) == Filled(Next(c, order, balances), order[1..], balances)
  {
    hide Attempt;
  }

  lemma StepInFull(max: nat, x: nat, b: nat, end: nat)
    requires b == 0 || (x + b <= max && ToInt(max - x - b) >= 0)
    ensures StepExact(max, x, b, end)
  {
    hide ToInt, Idle;
  }

  lemma GoesOn(c: Payout, order: seq<Text>, balances: map<Text, Word>)
    requires NoWrap(c, order, balances) && Sound(c) && order != [] && TurnOf(c, order, balances) in {Skipped, InFull}
    ensures var d := Next(c, order, balances);
            && Filled(c, order, balances) == Filled(d, order[1..], balances)
            && Adds(c, d, order[0], balances[order[0]]) && NoWrap(d, order[1..], balances)
            && (Faithful(c.currentValue, c.maxValue, order, balances)
                <==> Faithful(d.currentValue, d.maxValue, order[1..], balances))
    ensures c.currentValue + balances[order[0]] <= c.maxValue
  {
    hide *;
    NoWrapKeys(c, order, balances);
    SoundBound(c);
    TurnIs(c, order, balances);
    var b, d := balances[order[0]], Next(c, order, balances);
    NextAdds(c, order, balances);
    AddsValue(c, d, order[0], b);
    if b > 0 {
      AttemptAdds(c, order[0], b);
    }
    FilledNext(c, order, balances);
    NoWrapTail(c, d, order, balances);
    FaithfulHead(c.currentValue, c.maxValue, order, balances);
    StepInFull(c.maxValue, c.currentValue, b, c.currentValue + Before(order, balances, |order|));
  }

  lemma AddsValue(c: Payout, d: Payout, address: Text, value: nat)
    requires Adds(c, d, address, value)
    ensures Sound(d) && d.maxValue == c.maxValue && d.poolFee == c.poolFee && d.currentValue == c.currentValue + value
    ensures At<Text>(d.outputs, address) == At<Text>(c.outputs, address) + value
    ensures forall k :: k != address ==> At<Text>(d.outputs, k) == At<Text>(c.outputs, k)
  {
  }

  lemma HeadStops(c: Payout, address: Text, b: Word)
    requires b > 0 && Attempt(c, address, b).1 < 0
    ensures var (d, left) := Attempt(c, address, b);
            HeadPaid(c, address, b) == Attempt(d, address, (b + left) % WORD_LIMIT).0
  {
  }

  lemma StopsFull(c: Payout, order: seq<Text>, balances: map<Text, Word>)
    requires NoWrap(c, order, balances) && Sound(c) && order != [] && TurnOf(c, order, balances).Last?
    ensures var b := balances[order[0]];
            var s := b + ToInt(c.maxValue - c.currentValue - b);
            var d, e := Attempt(c, order[0], b).0, Filled(c, order, balances);
            && Adds(c, d, order[0], b) && d.currentValue < c.maxValue
            && (Idle(s, d.currentValue, d.maxValue) ==> Unmoved(d, e))
            && (!Idle(s, d.currentValue, d.maxValue) ==> At<Text>(e.outputs, order[0]) != At<Text>(d.outputs, order[0]))
  {
    hide *;
    NoWrapKeys(c, order, balances);
    SoundBound(c);
    TurnIs(c, order, balances);
    var b := balances[order[0]];
    AttemptAdds(c, order[0], b);
    NoWrapTail(c, c, order, balances);
    var d := Attempt(c, order[0], b).0;
    AddsValue(c, d, order[0], b);
    FilledHead(c, order, balances);
    HeadStops(c, order[0], b);
    SmallIsKept(0);
    SecondAttempt(d, order[0], b + ToInt(c.maxValue - c.currentValue - b));
  }

  /** A faithful filling reaches the smaller of the maximum and all balances together, outputs and
      value in step. */
  lemma {:induction false} FilledTotal(c: Payout, order: seq<Text>, balances: map<Text, Word>)
    requires NoWrap(c, order, balances) && Sound(c) && Faithful(c.currentValue, c.maxValue, order, balances)
    ensures var d := Filled(c, order, balances);
            && Sound(d) && d.maxValue == c.maxValue && d.poolFee == c.poolFee
            && d.currentValue == Level(c, order, balances, |order|)
    decreases |order|
  {
    hide *;
    SoundBound(c);
    if order == [] {
      FilledNone(c, balances);
      LevelNone(c, balances);
    } else {
      NoWrapKeys(c, order, balances);
      Levels(c, order, balances, |order| - 1);
      TurnIs(c, order, balances);
      match TurnOf(c, order, balances)
      case Past =>
        FullStays(c, order, balances);
        UnmovedSound(c, Filled(c, order, balances));
        MinIs(c.maxValue, c.currentValue + balances[order[0]]);
      case Skipped | InFull =>
        GoesOn(c, order, balances);
        var d := Next(c, order, balances);
        AddsValue(c, d, order[0], balances[order[0]]);
        FilledTotal(d, order[1..], balances);
        LevelTail(c, d, order, balances, |order| - 1);
      case Last =>
        StopsFull(c, order, balances);
        LastIdle(c, order, balances);
        AddsValue(c, Attempt(c, order[0], balances[order[0]]).0, order[0], balances[order[0]]);
        UnmovedSound(Attempt(c, order[0], balances[order[0]]).0, Filled(c, order, balances));
        MinIs(c.maxValue, c.currentValue + balances[order[0]]);
      case Part =>
        PaidInPart(c, order, balances);
        AddsValue(c, Filled(c, order, balances), order[0], c.maxValue - c.currentValue);
        MinIs(c.maxValue, c.currentValue + balances[order[0]]);
      case Missed =>
        MissedUnfaithful(c, order, balances);
    }
  }

  lemma LevelNone(c: Payout, balances: map<Text, Word>)
    requires c.currentValue <= c.maxValue
    ensures Level(c, [], balances, 0) == c.currentValue
  {
  }

  lemma NoWrapKeys(c: Payout, order: seq<Text>, balances: map<Text, Word>)
    requires NoWrap(c, order, balances)
    ensures forall k :: k in order ==> k in balances
  {
  }

  lemma UnmovedSound(c: Payout, d: Payout)
    requires Sound(c) && Unmoved(c, d)
    ensures Sound(d) && d.maxValue == c.maxValue && d.poolFee == c.poolFee && d.currentValue == c.currentValue
    ensures forall k :: At<Text>(d.outputs, k) == At<Text>(c.outputs, k)
  {
  }

  lemma TurnIs(c: Payout, order: seq<Text>, balances: map<Text, Word>)
    requires order != [] && c.currentValue <= c.maxValue && forall k :: k in order ==> k in balances
    ensures var (t, left) := (TurnOf(c, order, balances), c.maxValue - c.currentValue - balances[order[0]]);
            && (t.Past? <==> c.currentValue == c.maxValue)
            && (t.Skipped? ==> balances[order[0]] == 0 && c.currentValue < c.maxValue)
            && (t in {InFull, Last, Part, Missed} ==> balances[order[0]] > 0)
            && (t in {InFull, Last} ==> 0 <= left && (t.InFull? <==> ToInt(left) >= 0)) && (t.Part? ==> -0x8000_0000 <= left < 0) && (t.Missed? ==> left < -0x8000_0000)
  {
  }

  /** In a faithful filling the stop after a full payment comes when nothing more is to be paid. */
  lemma LastIdle(c: Payout, order: seq<Text>, balances: map<Text, Word>)
    requires order != [] && c.currentValue <= c.maxValue && (forall k :: k in order ==> k in balances)
    requires TurnOf(c, order, balances).Last?
    ensures Faithful(c.currentValue, c.maxValue, order, balances)
            ==> Before(order, balances, |order|) == balances[order[0]]
                && Idle(balances[order[0]] + ToInt(c.maxValue - c.currentValue - balances[order[0]]), c.currentValue + balances[order[0]], c.maxValue)
  {
    FaithfulHead(c.currentValue, c.maxValue, order, balances);
    hide Faithful, Before, Idle;
  }

  lemma MissedUnfaithful(c: Payout, order: seq<Text>, balances: map<Text, Word>)
    requires order != [] && c.currentValue <= c.maxValue && (forall k :: k in order ==> k in balances)
    requires TurnOf(c, order, balances).Missed?
    ensures !Faithful(c.currentValue, c.maxValue, order, balances)
  {
    FaithfulHead(c.currentValue, c.maxValue, order, balances);
    hide Faithful, Before, Idle;
  }

  lemma PaidInPart(c: Payout, order: seq<Text>, balances: map<Text, Word>)
    requires NoWrap(c, order, balances) && Sound(c) && order != [] && TurnOf(c, order, balances).Part?
    ensures Adds(c, Filled(c, order, balances), order[0], c.maxValue - c.currentValue)
  {
    NoWrapKeys(c, order, balances);
    hide Adds, Attempt, Filled, HeadPaid, NoWrap, Sound, ToInt;
    SoundBound(c);
    NoWrapTail(c, c, order, balances);
    HeadTooLarge(c, order[0], balances[order[0]]);
    FilledHead(c, order, balances);
    AttemptAdds(c, order[0], c.maxValue - c.currentValue);
  }

  // ---------------------------------------------------------------- faithful exactly when harmless

  /** An account that is too large by more than 2^31 gets nothing. */
  lemma MissedOut(c: Payout, order: seq<Text>, balances: map<Text, Word>)
    requires NoWrap(c, order, balances) && Sound(c) && order != [] && TurnOf(c, order, balances).Missed?
    requires Distinct(order)
    ensures At<Text>(Filled(c, order, balances).outputs, order[0]) == At<Text>(c.outputs, order[0])
  {
    NoWrapKeys(c, order, balances);
    hide Attempt, Filled, HeadPaid, NoWrap, Sound, ToInt;
    SoundBound(c);
    NoWrapTail(c, c, order, balances);
    HeadTooLarge(c, order[0], balances[order[0]]);
    FilledHead(c, order, balances);
    FilledOthers(c, order[1..], balances, order[0]);
  }

  lemma PaidMeans(c: Payout, order: seq<Text>, balances: map<Text, Word>, i: nat)
    requires i < |order| && forall k :: k in order ==> k in balances
    ensures Paid(c, order, balances, i)
            <==> At<Text>(Filled(c, order, balances).outputs, order[i])
                 == At<Text>(c.outputs, order[i]) + Level(c, order, balances, i + 1) - Level(c, order, balances, i)
  {
  }

  /** When the filling goes on, the first account is paid, and each later one is paid exactly when it
      is in what follows. */
  lemma GoneOn(c: Payout, order: seq<Text>, balances: map<Text, Word>, i: nat)
    requires NoWrap(c, order, balances) && Sound(c) && i < |order| && Distinct(order)
    requires TurnOf(c, order, balances) in {Skipped, InFull}
    ensures if i == 0 then Paid(c, order, balances, 0)
            else Paid(c, order, balances, i) <==> Paid(Next(c, order, balances), order[1..], balances, i - 1)
  {
    hide *;
    NoWrapKeys(c, order, balances);
    SoundBound(c);
    GoesOn(c, order, balances);
    var b, d := balances[order[0]], Next(c, order, balances);
    AddsValue(c, d, order[0], b);
    PaidMeans(c, order, balances, i);
    DistinctTail(order);
    if i == 0 {
      FilledOthers(d, order[1..], balances, order[0]);
      Levels(c, order, balances, 0);
      MinIs(c.maxValue, c.currentValue + b);
    } else {
      PaidMeans(d, order[1..], balances, i - 1);
      LevelTail(c, d, order, balances, i);
      LevelTail(c, d, order, balances, i - 1);
    }
  }

  lemma DistinctTail(order: seq<Text>)
    requires Distinct(order) && order != []
    ensures order[0] !in order[1..] && Distinct(order[1..])
    ensures forall i :: 0 < i < |order| ==> order[i] != order[0]
  {
  }

  /** In a faithful filling every account is paid as intended. */
  lemma {:induction false} FilledPays(c: Payout, order: seq<Text>, balances: map<Text, Word>, i: nat)
    requires NoWrap(c, order, balances) && Sound(c) && Distinct(order) && i < |order|
    requires Faithful(c.currentValue, c.maxValue, order, balances)
    ensures Paid(c, order, balances, i)
    decreases |order|
  {
    hide *;
    NoWrapKeys(c, order, balances);
    SoundBound(c);
    TurnIs(c, order, balances);
    PaidMeans(c, order, balances, i);
    Levels(c, order, balances, i);
    DistinctTail(order);
    var b := balances[order[0]];
    MinIs(c.maxValue, c.currentValue + b);
    match TurnOf(c, order, balances)
    case Past =>
      FullStays(c, order, balances);
      UnmovedSound(c, Filled(c, order, balances));
    case Skipped | InFull =>
      GoesOn(c, order, balances);
      GoneOn(c, order, balances, i);
      if i > 0 {
        AddsValue(c, Next(c, order, balances), order[0], b);
        FilledPays(Next(c, order, balances), order[1..], balances, i - 1);
      }
    case Last =>
      StopsFull(c, order, balances);
      LastIdle(c, order, balances);
      AddsValue(c, Attempt(c, order[0], b).0, order[0], b);
      UnmovedSound(Attempt(c, order[0], b).0, Filled(c, order, balances));
    case Part =>
      PaidInPart(c, order, balances);
      AddsValue(c, Filled(c, order, balances), order[0], c.maxValue - c.currentValue);
    case Missed =>
      MissedUnfaithful(c, order, balances);
  }

  /** The first later account with a balance. */
  lemma {:induction false} NextPositive(order: seq<Text>, balances: map<Text, Word>, i: nat) returns (j: nat)
    requires i <= |order| && (forall k :: k in order ==> k in balances)
    requires Before(order, balances, i) < Before(order, balances, |order|)
    ensures i <= j < |order| && Before(order, balances, j) == Before(order, balances, i) && balances[order[j]] > 0
    decreases |order| - i
  {
    if balances[order[i]] > 0 {
      j := i;
    } else {
      j := NextPositive(order, balances, i + 1);
    }
  }

  /** A filling that stops after a full payment although more is to be paid leaves someone short. */
  lemma StopsShort(c: Payout, order: seq<Text>, balances: map<Text, Word>) returns (j: nat)
    requires NoWrap(c, order, balances) && Sound(c) && Distinct(order) && order != []
    requires TurnOf(c, order, balances).Last? && !Faithful(c.currentValue, c.maxValue, order, balances)
    ensures j < |order| && !Paid(c, order, balances, j)
  {
    hide *;
    NoWrapKeys(c, order, balances);
    SoundBound(c);
    StopsFull(c, order, balances);
    var b := balances[order[0]];
    var d, e := Attempt(c, order[0], b).0, Filled(c, order, balances);
    AddsValue(c, d, order[0], b);
    MinIs(c.maxValue, c.currentValue + b);
    DistinctTail(order);
    if Idle(b + ToInt(c.maxValue - c.currentValue - b), d.currentValue, d.maxValue) {
      UnmovedSound(d, e);
      LastFaithful(c, order, balances);
      BeforeOne(order, balances);
      j := NextPositive(order, balances, 1);
      LevelRises(c, order, balances, j);
    } else {
      j := 0;
      Levels(c, order, balances, 0);
    }
    PaidMeans(c, order, balances, j);
  }

  lemma BeforeOne(order: seq<Text>, balances: map<Text, Word>)
    requires order != [] && forall k :: k in order ==> k in balances
    ensures Before(order, balances, 1) == balances[order[0]] <= Before(order, balances, |order|)
  {
    assert Before(order, balances, 1) == balances[order[0]];
    BeforeGrows(order, balances, 1, |order|);
  }

  lemma LevelRises(c: Payout, order: seq<Text>, balances: map<Text, Word>, j: nat)
    requires j < |order| && (forall k :: k in order ==> k in balances)
    requires c.currentValue + Before(order, balances, j) < c.maxValue && balances[order[j]] > 0
    ensures Level(c, order, balances, j) < Level(c, order, balances, j + 1)
  {
  }

  /** Converse of LastIdle. */
  lemma LastFaithful(c: Payout, order: seq<Text>, balances: map<Text, Word>)
    requires order != [] && c.currentValue <= c.maxValue && (forall k :: k in order ==> k in balances)
    requires TurnOf(c, order, balances).Last?
    requires Idle(balances[order[0]] + ToInt(c.maxValue - c.currentValue - balances[order[0]]), c.currentValue + balances[order[0]], c.maxValue)
    ensures Before(order, balances, |order|) == balances[order[0]]
            ==> Faithful(c.currentValue, c.maxValue, order, balances)
  {
    var b := balances[order[0]];
    FaithfulHead(c.currentValue, c.maxValue, order, balances);
    BeforeTail(order, balances, |order|);
    if Before(order, balances, |order|) == b {
      NoneFaithful(c.currentValue + b, c.maxValue, order[1..], balances);
    }
    hide Faithful, Before, Idle;
  }

  /** With nothing left to pay nothing can go wrong. */
  lemma NoneFaithful(start: nat, max: nat, order: seq<Text>, balances: map<Text, Word>)
    requires (forall k :: k in order ==> k in balances) && Before(order, balances, |order|) == 0
    ensures Faithful(start, max, order, balances)
  {
    forall i | 0 <= i < |order| ensures ExactAt(start, max, order, balances, i) {
      BeforeGrows(order, balances, i + 1, |order|);
    }
  }

  /** In a filling that is not faithful some account is not paid as intended. */
  lemma {:induction false} UnfaithfulMisses(c: Payout, order: seq<Text>, balances: map<Text, Word>) returns (j: nat)
    requires NoWrap(c, order, balances) && Sound(c) && Distinct(order)
    requires !Faithful(c.currentValue, c.maxValue, order, balances)
    ensures j < |order| && !Paid(c, order, balances, j)
    decreases |order|
  {
    hide *;
    NoWrapKeys(c, order, balances);
    SoundBound(c);
    NonemptyUnfaithful(c, order, balances);
    TurnIs(c, order, balances);
    DistinctTail(order);
    j := 0;
    match TurnOf(c, order, balances)
    case Past =>
      FaithfulPast(c.currentValue, c.maxValue, order, balances);
    case Skipped | InFull =>
      GoesOn(c, order, balances);
      AddsValue(c, Next(c, order, balances), order[0], balances[order[0]]);
      var i := UnfaithfulMisses(Next(c, order, balances), order[1..], balances);
      j := i + 1;
      GoneOn(c, order, balances, j);
    case Last =>
      j := StopsShort(c, order, balances);
    case Part =>
      PartFaithful(c, order, balances);
    case Missed =>
      MissedOut(c, order, balances);
      PaidMeans(c, order, balances, 0);
      Levels(c, order, balances, 0);
      MinIs(c.maxValue, c.currentValue + balances[order[0]]);
  }

  lemma NonemptyUnfaithful(c: Payout, order: seq<Text>, balances: map<Text, Word>)
    requires (forall k :: k in order ==> k in balances) && !Faithful(c.currentValue, c.maxValue, order, balances)
    ensures order != []
  {
  }

  lemma PartFaithful(c: Payout, order: seq<Text>, balances: map<Text, Word>)
    requires order != [] && c.currentValue <= c.maxValue && (forall k :: k in order ==> k in balances)
    requires TurnOf(c, order, balances).Part?
    ensures Faithful(c.currentValue, c.maxValue, order, balances)
  {
    FaithfulHead(c.currentValue, c.maxValue, order, balances);
    FaithfulPast(c.currentValue + balances[order[0]], c.maxValue, order[1..], balances);
    hide Faithful, Before, Idle;
  }

  /** The filling pays every account what is intended exactly when narrowing never misleads it. */
  lemma FilledExactly(c: Payout, order: seq<Text>, balances: map<Text, Word>)
    requires NoWrap(c, order, balances) && Sound(c) && Distinct(order)
    ensures (forall i :: 0 <= i < |order| ==> Paid(c, order, balances, i))
            <==> Faithful(c.currentValue, c.maxValue, order, balances)
  {
    hide *;
    NoWrapKeys(c, order, balances);
    if Faithful(c.currentValue, c.maxValue, order, balances) {
      forall i | 0 <= i < |order| ensures Paid(c, order, balances, i) {
        FilledPays(c, order, balances, i);
      }
    } else {
      var j := UnfaithfulMisses(c, order, balances);
    }
  }

  /** With a maximum below 2^31 outputs and value stay in step whatever the balances are. */
  lemma {:induction false} FilledSound(c: Payout, order: seq<Text>, balances: map<Text, Word>)
    requires NoWrap(c, order, balances) && Sound(c) && c.maxValue < 0x8000_0000
    ensures var d := Filled(c, order, balances);
            Sound(d) && d.maxValue == c.maxValue && d.poolFee == c.poolFee
    decreases |order|
  {
    hide *;
    SoundBound(c);
    if order == [] {
      FilledNone(c, balances);
    } else {
      NoWrapKeys(c, order, balances);
      TurnIs(c, order, balances);
      match TurnOf(c, order, balances)
      case Past =>
        FullStays(c, order, balances);
        UnmovedSound(c, Filled(c, order, balances));
      case Skipped | InFull =>
        GoesOn(c, order, balances);
        AddsValue(c, Next(c, order, balances), order[0], balances[order[0]]);
        FilledSound(Next(c, order, balances), order[1..], balances);
      case Last =>
        SmallIsKept(c.maxValue - c.currentValue - balances[order[0]]);
      case Part =>
        PaidInPart(c, order, balances);
        AddsValue(c, Filled(c, order, balances), order[0], c.maxValue - c.currentValue);
      case Missed =>
        NoWrapTail(c, c, order, balances);
        HeadTooLarge(c, order[0], balances[order[0]]);
        FilledHead(c, order, balances);
        FilledSound(c, order[1..], balances);
    }
  }

  // ---------------------------------------------------------------- the finder

  /** What is left over goes to the finder. */
  lemma CompletedFills(c: Payout, finder: Text)
    requires Sound(c) && c.maxValue - c.currentValue < 0x8000_0000
    ensures var d := Completed(c, finder);
            && Sound(d) && d.currentValue == d.maxValue == c.maxValue && d.poolFee == c.poolFee
            && Total<Text>(d.outputs) == c.maxValue
            && At<Text>(d.outputs, finder) == At<Text>(c.outputs, finder) + (c.maxValue - c.currentValue)
            && d.outputs.Keys <= c.outputs.Keys + {finder}
            && forall k :: k != finder ==> At<Text>(d.outputs, k) == At<Text>(c.outputs, k)
  {
    hide *;
    SoundBound(c);
    SoundTotal(c);
    CompletedIs(c, finder);
    if c.currentValue < c.maxValue {
      SmallIsKept(c.maxValue - c.currentValue);
      WordIsKept(c.maxValue - c.currentValue);
      AttemptAdds(c, finder, c.maxValue - c.currentValue);
      var d := Attempt(c, finder, c.maxValue - c.currentValue).0;
      AddsValue(c, d, finder, c.maxValue - c.currentValue);
      SoundTotal(d);
    }
  }

  lemma WordIsKept(s: Word)
    ensures s % WORD_LIMIT == s
  {
  }

  lemma CompletedIs(c: Payout, finder: Text)
    ensures Completed(c, finder)
            == if c.currentValue == c.maxValue then c
               else Attempt(c, finder, ToInt(c.maxValue - c.currentValue) % WORD_LIMIT).0
  {
  }

  /** The transaction is completed exactly when what is left over is an int. */
  lemma CompletedExactly(c: Payout, finder: Text)
    requires Sound(c) && c.maxValue + 0x8000_0000 < WORD_LIMIT
    ensures Completed(c, finder).currentValue == c.maxValue <==> c.maxValue - c.currentValue < 0x8000_0000
  {
    SoundBound(c);
    var left := c.maxValue - c.currentValue;
    if left < 0x8000_0000 {
      CompletedFills(c, finder);
    } else {
      var k := NarrowingShifts(left);
      CompletedIs(c, finder);
      WrongRemainder(c, finder, ToInt(left));
    }
  }

  lemma WrongRemainder(c: Payout, finder: Text, s: int)
    requires c.currentValue < c.maxValue && c.maxValue + 0x8000_0000 < WORD_LIMIT
    requires -0x8000_0000 <= s < 0x8000_0000 && s < c.maxValue - c.currentValue
    ensures Attempt(c, finder, s % WORD_LIMIT).0.currentValue != c.maxValue
  {
    assert s % WORD_LIMIT == if s < 0 then WORD_LIMIT + s else s;
    assert Add(s % WORD_LIMIT, c.currentValue)
        == if c.currentValue + s >= 0 then c.currentValue + s else WORD_LIMIT + c.currentValue + s;
  }
}
