/** The reward of a new block: pool fee and outputs together are the reward, and each account gets
    what its place in the order entitles it to. */
module Rewards {
  import opened Bytes
  import opened Coinbase
  import opened Filling
  import Ledger
  import opened Words

  function PoolFee(reward: Word, feePercent: nat): Word
    requires feePercent <= 100
  {
    reward * feePercent / 100
  }

  function Reset(reward: Word, feePercent: nat): Payout
    requires feePercent <= 100
  {
    var fee := PoolFee(reward, feePercent);
    Payout(0, map[], Sub(reward, fee), fee)
  }

  /** A hundred times the fee is the reward times the percentage, up to less than one unit. */
  lemma PoolFeeIs(reward: Word, feePercent: nat)
    requires feePercent <= 100
    ensures 100 * PoolFee(reward, feePercent) <= reward * feePercent < 100 * PoolFee(reward, feePercent) + 100
  {
    MulMonotone(reward, 0, feePercent);
  }

  /** What the round shares out and what the payout keeps back are rounded down separately: one
      unit is lost between them unless the fee comes out even. */
  lemma FeeSplit(reward: Word, feePercent: nat)
    requires feePercent <= 100
    ensures Ledger.AfterFee(reward, feePercent) + PoolFee(reward, feePercent)
            == if reward * feePercent % 100 == 0 then reward else reward - 1
  {
    hide PoolFee, Ledger.AfterFee;
    PoolFeeIs(reward, feePercent);
    Ledger.AfterFeeIs(reward, feePercent);
    Distribute(reward, 100 - feePercent, feePercent);
    var fee: int, x: int := PoolFee(reward, feePercent), reward * feePercent;
    DivModUnique(x, 100, fee, x - 100 * fee);
  }

  /** The maximum of a new payout transaction is the reward less the fee rounded down. */
  lemma ResetMaximum(reward: Word, feePercent: nat)
    requires feePercent <= 100
    ensures var max := Reset(reward, feePercent).maxValue;
            100 * max - 100 < reward * (100 - feePercent) <= 100 * max
  {
    hide PoolFee;
    PoolFeeIs(reward, feePercent);
    FeeWithin(reward, feePercent);
    Distribute(reward, 100 - feePercent, feePercent);
  }

  /** Fee and maximum of a filled and completed transaction, in hundredths of the reward. */
  lemma RewardTerms(reward: Word, feePercent: nat, order: seq<Text>, balances: map<Text, Word>, finder: Text)
    requires feePercent <= 100 && forall k :: k in order ==> k in balances
    ensures var c := Completed(Filled(Reset(reward, feePercent), order, balances), finder);
            && 100 * c.poolFee <= reward * feePercent < 100 * c.poolFee + 100
            && 100 * c.maxValue - 100 < reward * (100 - feePercent) <= 100 * c.maxValue
            && c.maxValue + c.poolFee == reward
  {
    hide Filled, Completed, PoolFee;
    var c := Reset(reward, feePercent);
    FilledKeepsTerms(c, order, balances);
    CompletedKeepsTerms(Filled(c, order, balances), finder);
    PoolFeeIs(reward, feePercent);
    ResetMaximum(reward, feePercent);
    ResetSound(reward, feePercent);
  }

  lemma FeeWithin(reward: Word, feePercent: nat)
    requires feePercent <= 100
    ensures 0 <= PoolFee(reward, feePercent) <= reward
  {
    MulMonotone(reward, feePercent, 100);
  }

  lemma ResetSound(reward: Word, feePercent: nat)
    requires feePercent <= 100
    ensures var c := Reset(reward, feePercent);
            Sound(c) && c.maxValue + c.poolFee == reward && c.outputs == map[] && c.currentValue == 0
  {
    FeeWithin(reward, feePercent);
    hide PoolFee;
  }

  /** How many accounts of an order are paid in full. */
  function FullyPaid(order: seq<Text>, balances: map<Text, Word>, max: nat, i: nat): (n: nat)
    requires i <= |order| && forall k :: k in order ==> k in balances
    requires Before(order, balances, i) <= max
    ensures i <= n <= |order| && Before(order, balances, n) <= max
    ensures n < |order| ==> Before(order, balances, n + 1) > max
    decreases |order| - i
  {
    if i == |order| || Before(order, balances, i + 1) > max then i else FullyPaid(order, balances, max, i + 1)
  }

  /** What account number i of the order is paid when the first n are paid in full, the next gets
      what is left, and the finder gets what nobody else could take. */
  function Payment(order: seq<Text>, balances: map<Text, Word>, max: nat, finder: Text, n: nat, i: nat): int
    requires i < |order| && n <= |order| && forall k :: k in order ==> k in balances
  {
    (if i < n then balances[order[i]] else if i == n then max - Before(order, balances, n) else 0)
    + if order[i] == finder && n == |order| then max - Before(order, balances, n) else 0
  }

  /** With a maximum below 2^31 outputs and fee are the reward exactly, however large the balances:
      only accounts of the order and the finder are paid. */
  lemma RewardIsPaidOut(order: seq<Text>, balances: map<Text, Word>, reward: Word, feePercent: nat, finder: Text)
    requires feePercent <= 100 && NoWrap(Reset(reward, feePercent), order, balances)
    requires Reset(reward, feePercent).maxValue < 0x8000_0000
    ensures forall k :: k in order ==> k in balances
    ensures var c := Reset(reward, feePercent);
            var d := Completed(Filled(c, order, balances), finder);
            && Total<Text>(d.outputs) + d.poolFee == reward && d.currentValue == d.maxValue == c.maxValue
            && forall k :: k in d.outputs ==> k in order || k == finder
  {
    hide *;
    var c := Reset(reward, feePercent);
    NoWrapKeys(c, order, balances);
    ResetSound(reward, feePercent);
    FilledSound(c, order, balances);
    FilledKeys(c, order, balances);
    SoundBound(Filled(c, order, balances));
    CompletedFills(Filled(c, order, balances), finder);
  }

  /** At any maximum, when narrowing never misleads the filling: outputs and fee are the reward exactly
      when what is left for the finder is an int. */
  lemma FaithfulReward(order: seq<Text>, balances: map<Text, Word>, reward: Word, feePercent: nat, finder: Text)
    requires feePercent <= 100 && NoWrap(Reset(reward, feePercent), order, balances)
    requires Faithful(0, Reset(reward, feePercent).maxValue, order, balances)
    ensures forall k :: k in order ==> k in balances
    ensures var c := Reset(reward, feePercent);
            Completed(Filled(c, order, balances), finder).currentValue + c.poolFee == reward
            <==> c.maxValue - Before(order, balances, |order|) < 0x8000_0000
  {
    hide *;
    var c := Reset(reward, feePercent);
    NoWrapKeys(c, order, balances);
    NoWrapTop(c, order, balances);
    ResetSound(reward, feePercent);
    FilledTotal(c, order, balances);
    CompletedExactly(Filled(c, order, balances), finder);
    LevelIs(c, order, balances, |order|);
  }

  lemma NoWrapTop(c: Payout, order: seq<Text>, balances: map<Text, Word>)
    requires NoWrap(c, order, balances)
    ensures c.maxValue + 0x8000_0000 < WORD_LIMIT
  {
  }

  /** What each account of the order is paid: the accounts paid in full are a prefix of the order, at
      most one more is paid in part, and only the finder can get more than its balance. */
  lemma PaymentIs(c: Payout, order: seq<Text>, balances: map<Text, Word>, finder: Text, n: nat, i: nat)
    requires NoWrap(c, order, balances) && Sound(c) && Distinct(order) && c.outputs == map[] && c.currentValue == 0
    requires Faithful(0, c.maxValue, order, balances) && c.maxValue - Before(order, balances, |order|) < 0x8000_0000
    requires i < |order| && n == FullyPaid(order, balances, c.maxValue, 0)
    ensures At<Text>(Completed(Filled(c, order, balances), finder).outputs, order[i])
            == Payment(order, balances, c.maxValue, finder, n, i)
    ensures n < |order| ==> 0 <= c.maxValue - Before(order, balances, n) < balances[order[n]]
  {
    hide *;
    NoWrapKeys(c, order, balances);
    var e := Filled(c, order, balances);
    FilledPays(c, order, balances, i);
    PaidMeans(c, order, balances, i);
    FilledTotal(c, order, balances);
    LevelIs(c, order, balances, i);
    LevelIs(c, order, balances, i + 1);
    LevelIs(c, order, balances, |order|);
    CompletedFills(e, finder);
    PlacesInOrder(order, balances, c.maxValue, n, i);
    PaymentMeans(order, balances, c.maxValue, finder, n, i);
    if n < |order| {
      PlacesInOrder(order, balances, c.maxValue, n, n);
    }
  }

  lemma LevelIs(c: Payout, order: seq<Text>, balances: map<Text, Word>, i: nat)
    requires c.outputs == map[] && c.currentValue == 0 && i <= |order| && forall k :: k in order ==> k in balances
    ensures var b := Before(order, balances, i);
            Level(c, order, balances, i) == if c.maxValue < b then c.maxValue else b
    ensures i < |order| ==> At<Text>(c.outputs, order[i]) == 0
  {
  }

  /** Sums of balances up to accounts before, at and after the first one not paid in full. */
  lemma PlacesInOrder(order: seq<Text>, balances: map<Text, Word>, max: nat, n: nat, i: nat)
    requires i < |order| && (forall k :: k in order ==> k in balances) && n == FullyPaid(order, balances, max, 0)
    ensures n <= |order| && Before(order, balances, n) <= max
    ensures Before(order, balances, i + 1) == Before(order, balances, i) + balances[order[i]]
    ensures i < n ==> Before(order, balances, i + 1) <= max
    ensures i > n ==> Before(order, balances, i) > max
    ensures n < |order| ==> Before(order, balances, n + 1) > max && Before(order, balances, |order|) > max
  {
    if i < n {
      BeforeGrows(order, balances, i + 1, n);
    } else if i > n {
      BeforeGrows(order, balances, n + 1, i);
    }
    if n < |order| {
      BeforeGrows(order, balances, n + 1, |order|);
    }
  }

  lemma PaymentMeans(order: seq<Text>, balances: map<Text, Word>, max: nat, finder: Text, n: nat, i: nat)
    requires i < |order| && n <= |order| && forall k :: k in order ==> k in balances
    ensures Payment(order, balances, max, finder, n, i)
            == (if i < n then balances[order[i]] else if i == n then max - Before(order, balances, n) else 0)
               + if order[i] == finder && n == |order| then max - Before(order, balances, n) else 0
  {
  }

  /** One account with a balance of one, and a maximum of 2^31 + 1: the int handed back turns negative
      although the output was taken, and the transaction stays incomplete. */
  lemma WideRewardIsNotPaidOut(a: Text, finder: Text)
    ensures var c := Reset(0x8000_0001, 0);
            var d := Completed(Filled(c, [a], map[a := 1]), finder);
            d.outputs == map[a := 1] && d.currentValue == 1 < d.maxValue
  {
    var c := Reset(0x8000_0001, 0);
    assert c == Payout(0, map[], 0x8000_0001, 0);
    assert ToInt(0x8000_0000) == -0x8000_0000;
    var d := OutputAdded(c, a, 1);
    assert d == Payout(1, map[a := 1], 0x8000_0001, 0);
    assert Attempt(c, a, 1) == (d, -0x8000_0000);
    var big := (1 - 0x8000_0000) % WORD_LIMIT;
    assert big == WORD_LIMIT + 1 - 0x8000_0000;
    assert Attempt(d, a, big).0 == d;
    assert Filled(c, [a], map[a := 1]) == d;
    assert (-0x8000_0000) % WORD_LIMIT == WORD_LIMIT - 0x8000_0000;
  }

  /** An account of 2^32 at a maximum of 1000: the int handed back says all 1000 are left, and the
      account is passed over. */
  lemma OversizedBalanceIsSkipped(a: Text, b: Text)
    requires a != b
    ensures Filled(Reset(1000, 0), [a, b], map[a := 0x1_0000_0000, b := 5]).outputs == map[b := 5]
  {
    var c, balances: map<Text, Word> := Reset(1000, 0), map[a := 0x1_0000_0000, b := 5];
    assert c == Payout(0, map[], 1000, 0);
    assert Attempt(c, a, 0x1_0000_0000) == (c, 1000);
    assert Attempt(c, b, 5) == (Payout(5, map[b := 5], 1000, 0), 995);
    assert [a, b][1..] == [b] && [b][1..] == [];
    assert Filled(c, [a, b], balances) == Filled(c, [b], balances) == Filled(Payout(5, map[b := 5], 1000, 0), [], balances);
  }
}
