/** Refunding an orphaned round: which accounts it restores, what the finder keeps, and that the
    block finder's share of the books comes out as stated. */
module RefundLaws {
  import opened Bytes
  import opened Coinbase
  import opened Database
  import opened Ledger
  import opened LedgerLaws
  import opened Words

  // ---------------------------------------------------------------- taking credits back, returning outputs

  lemma {:induction false} RemovedOnce(m: Accounts, keys: seq<Text>, credits: map<Text, Word>, x: Text)
    requires OwnKeys(m) && Distinct(keys) && x in m
    requires forall k :: k in keys ==> k in credits && k in m
    ensures var n := CreditsRemoved(m, keys, credits);
            n.Keys == m.Keys && OwnKeys(n)
            && n[x] == if x in keys then m[x].(balance := Less(m[x].balance, credits[x])) else m[x]
    decreases |keys|
  {
    if keys != [] {
      assert keys == [keys[0]] + keys[1..] && keys[0] !in keys[1..];
      var n := Removed(m, keys[0], credits[keys[0]]);
      assert n == m[keys[0] := m[keys[0]].(balance := Less(m[keys[0]].balance, credits[keys[0]]))];
      assert n.Keys == m.Keys;
      RemovedOnce(n, keys[1..], credits, x);
    }
  }

  lemma {:induction false} ReturnedOnce(m: Accounts, keys: seq<Text>, outputs: map<Text, Word>, x: Text)
    requires OwnKeys(m) && Distinct(keys) && x in m
    requires forall k :: k in keys ==> k in outputs && k in m
    ensures var n := OutputsReturned(m, keys, outputs);
            n.Keys == m.Keys && OwnKeys(n)
            && n[x] == if x in keys then m[x].(balance := Add(m[x].balance, outputs[x])) else m[x]
    decreases |keys|
  {
    if keys != [] {
      assert keys == [keys[0]] + keys[1..] && keys[0] !in keys[1..];
      var n := Credited(m, keys[0], outputs[keys[0]]);
      assert n == m[keys[0] := m[keys[0]].(balance := Add(m[keys[0]].balance, outputs[keys[0]]))];
      assert n.Keys == m.Keys;
      ReturnedOnce(n, keys[1..], outputs, x);
    }
  }

  ghost function Refunded(m: Accounts, credits: map<Text, Word>, outputs: map<Text, Word>,
                          creditKeys: seq<Text>, outputKeys: seq<Text>): Accounts
    requires Lists(creditKeys, credits.Keys) && Lists(outputKeys, outputs.Keys)
  {
    OutputsReturned(CreditsRemoved(m, creditKeys, credits), outputKeys, outputs)
  }

  /** Each account loses its credit, but no more than it has, and gets its output back. */
  lemma RefundedAccount(m: Accounts, credits: map<Text, Word>, outputs: map<Text, Word>,
                        creditKeys: seq<Text>, outputKeys: seq<Text>, k: Text)
    requires Lists(creditKeys, credits.Keys) && Lists(outputKeys, outputs.Keys)
    requires OwnKeys(m) && credits.Keys <= m.Keys && outputs.Keys <= m.Keys && k in m
    ensures var n := Refunded(m, credits, outputs, creditKeys, outputKeys);
            n.Keys == m.Keys && OwnKeys(n)
            && n[k] == m[k].(balance := Add(Less(m[k].balance, At<Text>(credits, k)), At<Text>(outputs, k)))
  {
    RemovedOnce(m, creditKeys, credits, k);
    ReturnedOnce(CreditsRemoved(m, creditKeys, credits), outputKeys, outputs, k);
  }

  lemma {:induction false} RemovedKeeps(m: Accounts, keys: seq<Text>, credits: map<Text, Word>)
    requires OwnKeys(m) && forall k :: k in keys ==> k in credits && k in m
    ensures CreditsRemoved(m, keys, credits).Keys == m.Keys && OwnKeys(CreditsRemoved(m, keys, credits))
    decreases |keys|
  {
    if keys != [] {
      var n := Removed(m, keys[0], credits[keys[0]]);
      assert n.Keys == m.Keys;
      RemovedKeeps(n, keys[1..], credits);
    }
  }

  lemma {:induction false} ReturnedKeeps(m: Accounts, keys: seq<Text>, outputs: map<Text, Word>)
    requires OwnKeys(m) && forall k :: k in keys ==> k in outputs && k in m
    ensures OutputsReturned(m, keys, outputs).Keys == m.Keys && OwnKeys(OutputsReturned(m, keys, outputs))
    decreases |keys|
  {
    if keys != [] {
      var n := Credited(m, keys[0], outputs[keys[0]]);
      assert n.Keys == m.Keys;
      ReturnedKeeps(n, keys[1..], outputs);
    }
  }

  lemma RefundKeeps(m: Accounts, credits: map<Text, Word>, outputs: map<Text, Word>, creditKeys: seq<Text>, outputKeys: seq<Text>)
    requires Lists(creditKeys, credits.Keys) && Lists(outputKeys, outputs.Keys)
    requires OwnKeys(m) && credits.Keys <= m.Keys && outputs.Keys <= m.Keys
    ensures var n := Refunded(m, credits, outputs, creditKeys, outputKeys);
            n.Keys == m.Keys && OwnKeys(n)
  {
    RemovedKeeps(m, creditKeys, credits);
    ReturnedKeeps(CreditsRemoved(m, creditKeys, credits), outputKeys, outputs);
  }

  /** What a refund really takes back from each account: its credit, but no more than there is. */
  ghost function Reclaimed(m: Accounts, credits: map<Text, Word>): map<Text, nat> {
    map k | k in m :: Min(At<Text>(credits, k), m[k].balance)
  }

  ghost function Padded(outputs: map<Text, Word>, known: set<Text>): map<Text, nat> {
    map k | k in known :: At<Text>(outputs, k)
  }

  lemma {:induction false} PaddedTotal(outputs: map<Text, Word>, known: set<Text>)
    requires outputs.Keys <= known
    ensures Total(Padded(outputs, known)) == Total<Text>(outputs)
    decreases |known|
  {
    if outputs.Keys == known {
      assert Padded(outputs, known) == outputs;
    } else {
      var k :| k in known && k !in outputs;
      TotalRemove(Padded(outputs, known), k);
      assert Padded(outputs, known) - {k} == Padded(outputs, known - {k});
      PaddedTotal(outputs, known - {k});
    }
  }

  /** All balances together: a refund takes back what it reclaims and returns all outputs. */
  lemma RefundTotal(m: Accounts, credits: map<Text, Word>, outputs: map<Text, Word>,
                    creditKeys: seq<Text>, outputKeys: seq<Text>)
    requires Lists(creditKeys, credits.Keys) && Lists(outputKeys, outputs.Keys)
    requires OwnKeys(m) && credits.Keys <= m.Keys && outputs.Keys <= m.Keys
    requires forall k :: k in m ==> m[k].balance + At<Text>(outputs, k) < WORD_LIMIT
    ensures Total(Balances(Refunded(m, credits, outputs, creditKeys, outputKeys))) + Total(Reclaimed(m, credits))
            == Total(Balances(m)) + Total<Text>(outputs)
  {
    hide *;
    var n := Refunded(m, credits, outputs, creditKeys, outputKeys);
    RefundedBalances(m, credits, outputs, creditKeys, outputKeys);
    SharedOut(m, credits, outputs, n);
    TotalSum(Kept(m, credits), Padded(outputs, m.Keys), Balances(n));
    TotalSum(Kept(m, credits), Reclaimed(m, credits), Balances(m));
    PaddedTotal(outputs, m.Keys);
  }

  /** What a refund leaves before outputs are returned. */
  ghost function Kept(m: Accounts, credits: map<Text, Word>): map<Text, nat> {
    map k | k in m :: Less(m[k].balance, At<Text>(credits, k))
  }

  lemma SharedOut(m: Accounts, credits: map<Text, Word>, outputs: map<Text, Word>, n: Accounts)
    requires n.Keys == m.Keys
    requires forall k :: k in m ==> n[k].balance == Less(m[k].balance, At<Text>(credits, k)) + At<Text>(outputs, k)
    ensures Kept(m, credits).Keys == Reclaimed(m, credits).Keys == Padded(outputs, m.Keys).Keys == Balances(n).Keys == Balances(m).Keys
    ensures forall k :: k in Kept(m, credits) ==> Balances(n)[k] == Kept(m, credits)[k] + Padded(outputs, m.Keys)[k]
    ensures forall k :: k in Kept(m, credits) ==> Balances(m)[k] == Kept(m, credits)[k] + Reclaimed(m, credits)[k]
  {
  }

  lemma RefundedBalances(m: Accounts, credits: map<Text, Word>, outputs: map<Text, Word>,
                         creditKeys: seq<Text>, outputKeys: seq<Text>)
    requires Lists(creditKeys, credits.Keys) && Lists(outputKeys, outputs.Keys)
    requires OwnKeys(m) && credits.Keys <= m.Keys && outputs.Keys <= m.Keys
    requires forall k :: k in m ==> m[k].balance + At<Text>(outputs, k) < WORD_LIMIT
    ensures var n := Refunded(m, credits, outputs, creditKeys, outputKeys);
            && n.Keys == m.Keys
            && forall k :: k in m ==> n[k].balance == Less(m[k].balance, At<Text>(credits, k)) + At<Text>(outputs, k)
  {
    var n := Refunded(m, credits, outputs, creditKeys, outputKeys);
    RefundKeeps(m, credits, outputs, creditKeys, outputKeys);
    hide Refunded, OwnKeys, Lists;
    forall k | k in m
      ensures n[k].balance == Less(m[k].balance, At<Text>(credits, k)) + At<Text>(outputs, k)
    {
      RefundedAccount(m, credits, outputs, creditKeys, outputKeys, k);
    }
  }

  // ---------------------------------------------------------------- the round to be refunded

  /** The account after the round: the finder's has the remainder on top. */
  lemma OutcomeAccount(m: Accounts, finder: Text, reward: Word, outputs: map<Text, Word>, keys: seq<Text>, k: Text)
    requires Named(m) && Bounded(m, reward) && Lists(keys, Opening(m, finder, reward).accounts.Keys)
    requires finder in m && k in m
    ensures var t := TermsOf(m, finder, reward, outputs);
            var rest := if k == finder then Remainder(m, finder, reward, outputs) else 0;
            var n := Outcome(m, finder, reward, outputs, keys).accounts;
            && n.Keys == m.Keys && OwnKeys(n) && Remainder(m, finder, reward, outputs) >= 0
            && 0 <= Settlement(m, finder, reward, t, k) && Settlement(m, finder, reward, t, k) + rest < WORD_LIMIT
            && n[k] == m[k].(balance := Settlement(m, finder, reward, t, k) + rest)
  {
    hide *;
    var t := TermsOf(m, finder, reward, outputs);
    var p := Middle(m, finder, reward, outputs, keys);
    MiddleOnFile(m, finder, reward, outputs, keys) by {
      FileMeans(m, finder);
    }
    MiddlePaid(m, finder, reward, outputs, keys);
    RemainderIs(m, finder, reward, outputs, keys);
    OutcomeIsClosed(m, finder, reward, outputs, keys);
    WithinBounds(m, finder, reward, outputs, finder);
    WithinBounds(m, finder, reward, outputs, k);
    SettledAccount(m, finder, reward, outputs, keys, k);
    SettledAccount(m, finder, reward, outputs, keys, finder);
    MiddleIs(m, finder, reward, outputs, keys);
    ClosedAccount(p, finder, t.pool, k);
  }

  lemma FileMeans(m: Accounts, finder: Text)
    requires finder in m
    ensures OnFile(m, finder)
  {
  }

  lemma MiddleIs(m: Accounts, finder: Text, reward: Word, outputs: map<Text, Word>, keys: seq<Text>)
    requires Lists(keys, Opening(m, finder, reward).accounts.Keys)
    ensures Middle(m, finder, reward, outputs, keys)
            == SettledAll(Opening(m, finder, reward), keys, TermsOf(m, finder, reward, outputs))
  {
  }

  lemma ClosedAccount(p: Progress, finder: Text, pool: Word, k: Text)
    requires OwnKeys(p.accounts) && finder in p.accounts && k in p.accounts
    requires p.paid <= pool && p.accounts[finder].balance + pool - p.paid < WORD_LIMIT
    ensures var n := Closed(p, finder, pool);
            && n.Keys == p.accounts.Keys && OwnKeys(n)
            && n[k] == if k == finder then p.accounts[k].(balance := p.accounts[k].balance + pool - p.paid) else p.accounts[k]
  {
  }

  lemma WithinBounds(m: Accounts, finder: Text, reward: Word, outputs: map<Text, Word>, k: Text)
    requires Named(m) && Bounded(m, reward) && k in m
    ensures Settlement(m, finder, reward, TermsOf(m, finder, reward, outputs), k)
            + Remainder(m, finder, reward, outputs) < WORD_LIMIT
  {
    var t := TermsOf(m, finder, reward, outputs);
    OpeningWeight(m, finder, reward, outputs);
    EarnedAtMostPool(m, t, k);
    TotalBounds(Balances(m), k);
    BonusWithin(finder, reward);
    hide Total, EarnedMap, Opening, Shares;
  }

  /** The credits on record: bonus and earnings, without the remainder. */
  lemma OutcomeCredit(m: Accounts, finder: Text, reward: Word, outputs: map<Text, Word>, keys: seq<Text>, k: Text)
    requires Named(m) && Bounded(m, reward) && Lists(keys, Opening(m, finder, reward).accounts.Keys)
    requires finder in m && k in m
    ensures var t := TermsOf(m, finder, reward, outputs);
            var c := Outcome(m, finder, reward, outputs, keys).credits;
            At<Text>(c, k) == BonusAt(finder, reward, k) + EarnedBy(m[k], t)
  {
    hide *;
    var t := TermsOf(m, finder, reward, outputs);
    var o := Opening(m, finder, reward);
    OpeningCredit(m, finder, reward, outputs, keys, k);
    SettledCredits(o, keys, t, k);
    OutcomeCredits(m, finder, reward, outputs, keys);
    EarnedZero(m, t, k);
    RoundLimits(m, finder, reward, outputs, k);
    AddFits(BonusAt(finder, reward, k), EarnedBy(m[k], t));
  }

  lemma AddFits(a: Word, b: Word)
    requires a + b < WORD_LIMIT
    ensures Add(a, b) == a + b
  {
  }

  lemma EarnedZero(m: Accounts, t: Terms, k: Text)
    requires k in m
    ensures EarnedBy(m[k], t) == Earned(m[k].shares, t.weight, t.pool)
    ensures m[k].shares == 0 ==> EarnedBy(m[k], t) == 0
  {
    NothingForNothing(t);
  }

  lemma OutcomeCredits(m: Accounts, finder: Text, reward: Word, outputs: map<Text, Word>, keys: seq<Text>)
    requires Lists(keys, Opening(m, finder, reward).accounts.Keys)
    ensures Outcome(m, finder, reward, outputs, keys).credits
            == SettledAll(Opening(m, finder, reward), keys, TermsOf(m, finder, reward, outputs)).credits
  {
  }

  lemma OpeningCredit(m: Accounts, finder: Text, reward: Word, outputs: map<Text, Word>, keys: seq<Text>, k: Text)
    requires Named(m) && Bounded(m, reward) && Lists(keys, Opening(m, finder, reward).accounts.Keys)
    requires finder in m && k in m
    ensures var o := Opening(m, finder, reward);
            && Quiet(o.accounts) && Distinct(keys) && k in keys && (forall j :: j in keys ==> j in o.accounts)
            && o.accounts[k].shares == m[k].shares
            && At<Text>(o.credits, k) == BonusAt(finder, reward, k)
  {
    OpeningOnFile(m, finder, reward);
    hide Total, Shares;
  }

  lemma {:induction false} CreditKeys(p: Progress, keys: seq<Text>, t: Terms, x: Text)
    requires forall k :: k in keys ==> k in p.accounts
    requires x in SettledAll(p, keys, t).credits
    ensures x in p.credits || x in keys
    decreases |keys|
  {
    if keys != [] {
      CreditKeys(SettledKey(p, keys[0], t), keys[1..], t, x);
    }
  }

  lemma OutcomeCreditKeys(m: Accounts, finder: Text, reward: Word, outputs: map<Text, Word>, keys: seq<Text>)
    requires Named(m) && Bounded(m, reward) && Lists(keys, Opening(m, finder, reward).accounts.Keys)
    requires finder in m
    ensures Outcome(m, finder, reward, outputs, keys).credits.Keys <= m.Keys
  {
    var t := TermsOf(m, finder, reward, outputs);
    OpeningOnFile(m, finder, reward);
    forall x | x in Outcome(m, finder, reward, outputs, keys).credits
      ensures x in m
    {
      CreditKeys(Opening(m, finder, reward), keys, t, x);
    }
  }

  // ---------------------------------------------------------------- a round in numbers

  /** Two miners, with two shares and one. */
  function TwoMiners(a: Text, b: Text): Accounts {
    map[a := Account(a, 100, 2, 0), b := Account(b, 5, 1, 0)]
  }

  lemma TwoMinersTotals(a: Text, b: Text)
    requires a != b
    ensures Total(Balances(TwoMiners(a, b))) == 105 && Total(Shares(TwoMiners(a, b))) == 3
  {
    var m := TwoMiners(a, b);
    var none: map<Text, nat> := map[];
    hide Total;
    NoTotal();
    TotalUpdate(none, a, 100);
    TotalUpdate(none[a := 100], b, 5);
    TotalUpdate(none, a, 2);
    TotalUpdate(none[a := 2], b, 1);
    assert Balances(m) == none[a := 100][b := 5] && Shares(m) == none[a := 2][b := 1];
  }

  lemma NoTotal()
    ensures Total<Text>(map[]) == 0
  {
  }

  lemma Numbers(a: Text)
    requires a != []
    ensures AfterFee(1000000, 2) == 980000 && Bonus(a, 980000) == 19600
    ensures Earned(2, 3, 960400) == 640266 && Earned(1, 3, 960400) == 320133
  {
  }

  lemma TwoMinersOnFile(a: Text, b: Text)
    requires a != b && a != [] && b != []
    ensures Named(TwoMiners(a, b)) && Bounded(TwoMiners(a, b), 980000)
  {
    TwoMinersTotals(a, b);
    hide Total;
  }

  lemma TwoMinersTerms(a: Text, b: Text, outputs: map<Text, Word>)
    requires a != b && a != [] && b != []
    ensures TermsOf(TwoMiners(a, b), a, 980000, outputs) == Terms(outputs, 3, 960400)
  {
    TwoMinersTotals(a, b);
    TwoMinersOnFile(a, b);
    Numbers(a);
    hide *;
    OpeningWeight(TwoMiners(a, b), a, 980000, outputs);
  }

  lemma TwoMinersEarn(a: Text, b: Text, t: Terms)
    requires a != b && a != [] && t.weight == 3 && t.pool == 960400
    ensures Total(EarnedMap(TwoMiners(a, b), t)) == 960399
  {
    Numbers(a);
    var none: map<Text, nat> := map[];
    hide Total, Earned;
    NoTotal();
    TotalUpdate(none, a, 640266);
    TotalUpdate(none[a := 640266], b, 320133);
    assert EarnedMap(TwoMiners(a, b), t) == none[a := 640266][b := 320133];
  }

  lemma TwoMinersSettle(a: Text, b: Text, t: Terms)
    requires a != b && a != [] && b != [] && t == Terms(map[a := 60, b := 6], 3, 960400)
    ensures a in TwoMiners(a, b) && b in TwoMiners(a, b)
    ensures Settlement(TwoMiners(a, b), a, 980000, t, a) == 659906 && Settlement(TwoMiners(a, b), a, 980000, t, b) == 320133
    ensures BonusAt(a, 980000, a) + EarnedBy(TwoMiners(a, b)[a], t) == 659866
    ensures BonusAt(a, 980000, b) + EarnedBy(TwoMiners(a, b)[b], t) == 320133
  {
    Numbers(a);
    hide Earned, Bonus;
  }

  lemma RestOf(m: Accounts, finder: Text, reward: Word, outputs: map<Text, Word>, t: Terms)
    requires t == TermsOf(m, finder, reward, outputs)
    ensures Remainder(m, finder, reward, outputs) == t.pool - Total(EarnedMap(m, t))
  {
  }

  lemma MinerInNumbers(a: Text, b: Text, after: Word, keys: seq<Text>, k: Text)
    requires a != b && a != [] && b != [] && after == 980000 && (k == a || k == b)
    requires Lists(keys, Opening(TwoMiners(a, b), a, after).accounts.Keys)
    ensures var o := Outcome(TwoMiners(a, b), a, after, map[a := 60, b := 6], keys);
      && o.accounts.Keys == {a, b}
      && o.accounts[k] == Account(k, if k == a then 659907 else 320133, if k == a then 2 else 1, 0)
      && At<Text>(o.credits, k) == if k == a then 659866 else 320133
  {
    assert TwoMiners(a, b)[a] == Account(a, 100, 2, 0) && TwoMiners(a, b)[b] == Account(b, 5, 1, 0);
    assert TwoMiners(a, b).Keys == {a, b};
    hide *;
    var m, outputs: map<Text, Word> := TwoMiners(a, b), map[a := 60, b := 6];
    var t := TermsOf(m, a, after, outputs);
    TwoMinersOnFile(a, b);
    TwoMinersTerms(a, b, outputs);
    TwoMinersEarn(a, b, t);
    TwoMinersSettle(a, b, t);
    RestOf(m, a, after, outputs, t);
    OutcomeAccount(m, a, after, outputs, keys, k);
    OutcomeCredit(m, a, after, outputs, keys, k);
  }

  /** A reward of 1,000,000 with a fee of two percent leaves 980,000: a bonus of 19,600 for the finder,
      who holds two shares of three in the other 960,400 and gets the one unit that rounding leaves.
      Payouts of 60 and 6 take 60 from the finder and all of the 5 the other has. */
  lemma RoundInNumbers(a: Text, b: Text, keys: seq<Text>)
    requires a != b && a != [] && b != []
    requires Lists(keys, Opening(TwoMiners(a, b), a, AfterFee(1000000, 2)).accounts.Keys)
    ensures var o := Outcome(TwoMiners(a, b), a, AfterFee(1000000, 2), map[a := 60, b := 6], keys);
      && o.accounts == map[a := Account(a, 659907, 2, 0), b := Account(b, 320133, 1, 0)]
      && At<Text>(o.credits, a) == 659866 && At<Text>(o.credits, b) == 320133
  {
    Numbers(a);
    hide *;
    MinerInNumbers(a, b, AfterFee(1000000, 2), keys, a);
    MinerInNumbers(a, b, AfterFee(1000000, 2), keys, b);
    OnlyTwo(Outcome(TwoMiners(a, b), a, AfterFee(1000000, 2), map[a := 60, b := 6], keys).accounts, a, b);
  }

  lemma OnlyTwo(m: Accounts, a: Text, b: Text)
    requires m.Keys == {a, b}
    ensures m == map[a := m[a], b := m[b]]
  {
  }

  // ---------------------------------------------------------------- what the refund restores

  /** Round and refund in a row, one account. */
  ghost function RoundTrip(m: Accounts, finder: Text, reward: Word, outputs: map<Text, Word>, keys: seq<Text>,
                           creditKeys: seq<Text>, outputKeys: seq<Text>): Accounts
    requires Lists(keys, Opening(m, finder, reward).accounts.Keys)
    requires Lists(creditKeys, Outcome(m, finder, reward, outputs, keys).credits.Keys) && Lists(outputKeys, outputs.Keys)
  {
    var round := Outcome(m, finder, reward, outputs, keys);
    Refunded(round.accounts, round.credits, outputs, creditKeys, outputKeys)
  }

  /** The balance that is left, as arithmetic: b before, o paid out, c credited of which the bonus
      part u came first, r given on top and not recorded. */
  function Restored(b: nat, o: nat, u: nat, e: nat, r: nat): int {
    var after := b + u - Min(o, b + u) + e + r;
    (if u + e > after then 0 else after - (u + e)) + o
  }

  lemma RestoredMeans(b: nat, o: nat, u: nat, e: nat, r: nat)
    ensures u == 0 && r == 0 ==> (Restored(b, o, u, e, r) == b <==> o <= b)
    ensures Restored(b, o, u, e, r) == b + r <==> o <= b + Min(u, r)
    ensures Restored(b, o, u, e, r) == b <==> o <= b && r == 0
    ensures Restored(b, o, u, e, r) >= b
  {
  }

  lemma RoundTripAccount(m: Accounts, finder: Text, reward: Word, outputs: map<Text, Word>, keys: seq<Text>,
                         creditKeys: seq<Text>, outputKeys: seq<Text>, k: Text)
    requires Named(m) && Bounded(m, reward) && Lists(keys, Opening(m, finder, reward).accounts.Keys)
    requires Lists(creditKeys, Outcome(m, finder, reward, outputs, keys).credits.Keys) && Lists(outputKeys, outputs.Keys)
    requires finder in m && outputs.Keys <= m.Keys && k in m
    requires m[k].balance + reward + At<Text>(outputs, k) < WORD_LIMIT
    ensures var rest := if k == finder then Remainder(m, finder, reward, outputs) else 0;
            var n := RoundTrip(m, finder, reward, outputs, keys, creditKeys, outputKeys);
            && n.Keys == m.Keys && rest >= 0
            && EarnedBy(m[k], TermsOf(m, finder, reward, outputs)) >= 0
            && var v := Restored(m[k].balance, At<Text>(outputs, k), BonusAt(finder, reward, k),
                                 EarnedBy(m[k], TermsOf(m, finder, reward, outputs)), rest);
               0 <= v < WORD_LIMIT && n[k] == m[k].(balance := v)
  {
    hide *;
    var t := TermsOf(m, finder, reward, outputs);
    OutcomeAccount(m, finder, reward, outputs, keys, k);
    OutcomeCredit(m, finder, reward, outputs, keys, k);
    OutcomeCreditKeys(m, finder, reward, outputs, keys);
    RoundLimits(m, finder, reward, outputs, k);
    var round := Outcome(m, finder, reward, outputs, keys);
    RefundedAccount(round.accounts, round.credits, outputs, creditKeys, outputKeys, k);
    RoundTripIs(m, finder, reward, outputs, keys, creditKeys, outputKeys);
    RestoredIs(m, finder, reward, t, k, if k == finder then Remainder(m, finder, reward, outputs) else 0);
  }

  lemma RoundTripIs(m: Accounts, finder: Text, reward: Word, outputs: map<Text, Word>, keys: seq<Text>,
                    creditKeys: seq<Text>, outputKeys: seq<Text>)
    requires Lists(keys, Opening(m, finder, reward).accounts.Keys)
    requires Lists(creditKeys, Outcome(m, finder, reward, outputs, keys).credits.Keys) && Lists(outputKeys, outputs.Keys)
    ensures RoundTrip(m, finder, reward, outputs, keys, creditKeys, outputKeys)
            == Refunded(Outcome(m, finder, reward, outputs, keys).accounts, Outcome(m, finder, reward, outputs, keys).credits,
                        outputs, creditKeys, outputKeys)
  {
  }

  lemma RoundLimits(m: Accounts, finder: Text, reward: Word, outputs: map<Text, Word>, k: Text)
    requires Named(m) && Bounded(m, reward) && k in m
    ensures var t := TermsOf(m, finder, reward, outputs);
            t.outputs == outputs && 0 <= EarnedBy(m[k], t) && 0 <= Remainder(m, finder, reward, outputs)
            && BonusAt(finder, reward, k) + EarnedBy(m[k], t)
               + (if k == finder then Remainder(m, finder, reward, outputs) else 0) <= reward
  {
    var t := TermsOf(m, finder, reward, outputs);
    OpeningWeight(m, finder, reward, outputs);
    EarnedAtMostPool(m, t, k);
    BonusWithin(finder, reward);
    hide Opening, EarnedMap, Total, Shares, Quiet, Earned, Bounded;
  }

  lemma RestoredIs(m: Accounts, finder: Text, reward: Word, t: Terms, k: Text, rest: nat)
    requires k in m && 0 <= EarnedBy(m[k], t)
    requires m[k].balance + reward + At<Text>(t.outputs, k) < WORD_LIMIT
    requires BonusAt(finder, reward, k) + EarnedBy(m[k], t) + rest <= reward
    ensures var after := Settlement(m, finder, reward, t, k) + rest;
            var credit := BonusAt(finder, reward, k) + EarnedBy(m[k], t);
            var v := Restored(m[k].balance, At<Text>(t.outputs, k), BonusAt(finder, reward, k), EarnedBy(m[k], t), rest);
            && 0 <= after < WORD_LIMIT && 0 <= v < WORD_LIMIT
            && v == Add(Less(after, credit), At<Text>(t.outputs, k))
  {
    hide Bonus, Earned, EarnedBy, BonusAt;
  }

  /** Refunding right after the round restores an account other than the finder's exactly when its
      payout did not exceed its balance. */
  lemma RefundRestores(m: Accounts, finder: Text, reward: Word, outputs: map<Text, Word>, keys: seq<Text>,
                       creditKeys: seq<Text>, outputKeys: seq<Text>, k: Text)
    requires Named(m) && Bounded(m, reward) && Lists(keys, Opening(m, finder, reward).accounts.Keys)
    requires Lists(creditKeys, Outcome(m, finder, reward, outputs, keys).credits.Keys) && Lists(outputKeys, outputs.Keys)
    requires finder in m && outputs.Keys <= m.Keys && k in m && k != finder
    requires m[k].balance + reward + At<Text>(outputs, k) < WORD_LIMIT
    ensures var n := RoundTrip(m, finder, reward, outputs, keys, creditKeys, outputKeys);
            k in n && (n[k] == m[k] <==> At<Text>(outputs, k) <= m[k].balance)
  {
    RoundTripAccount(m, finder, reward, outputs, keys, creditKeys, outputKeys, k);
    RestoredMeans(m[k].balance, At<Text>(outputs, k), 0, EarnedBy(m[k], TermsOf(m, finder, reward, outputs)), 0);
    hide RoundTrip, EarnedBy, TermsOf, Restored, Outcome, Opening;
  }

  /** The finder keeps exactly the unrecorded remainder, precisely when its payout did not exceed its
      balance by more than both the bonus and the remainder; it is restored only without a remainder. */
  lemma RefundLeavesRemainder(m: Accounts, finder: Text, reward: Word, outputs: map<Text, Word>, keys: seq<Text>,
                              creditKeys: seq<Text>, outputKeys: seq<Text>)
    requires Named(m) && Bounded(m, reward) && Lists(keys, Opening(m, finder, reward).accounts.Keys)
    requires Lists(creditKeys, Outcome(m, finder, reward, outputs, keys).credits.Keys) && Lists(outputKeys, outputs.Keys)
    requires finder in m && outputs.Keys <= m.Keys
    requires m[finder].balance + reward + At<Text>(outputs, finder) < WORD_LIMIT
    ensures var n := RoundTrip(m, finder, reward, outputs, keys, creditKeys, outputKeys);
            var r := Remainder(m, finder, reward, outputs);
            && finder in n && r >= 0 && n[finder] == m[finder].(balance := n[finder].balance)
            && (n[finder].balance == m[finder].balance + r
                <==> At<Text>(outputs, finder) <= m[finder].balance + Min(Bonus(finder, reward), r))
            && (n[finder] == m[finder] <==> r == 0 && At<Text>(outputs, finder) <= m[finder].balance)
  {
    var r := Remainder(m, finder, reward, outputs);
    RoundTripAccount(m, finder, reward, outputs, keys, creditKeys, outputKeys, finder);
    BonusWithin(finder, reward);
    RestoredMeans(m[finder].balance, At<Text>(outputs, finder), Bonus(finder, reward),
                  EarnedBy(m[finder], TermsOf(m, finder, reward, outputs)), r);
    hide RoundTrip, EarnedBy, TermsOf, Restored, Outcome, Opening, Bonus, Remainder;
  }

  // ---------------------------------------------------------------- a refund that is skipped

  /** Where the refund is skipped, an account stays as it was before the round exactly when what it is
      credited is what its payout took. */
  lemma SkippedAccount(m: Accounts, finder: Text, reward: Word, outputs: map<Text, Word>, keys: seq<Text>, k: Text)
    requires Named(m) && Bounded(m, reward) && Lists(keys, Opening(m, finder, reward).accounts.Keys)
    requires finder in m && k in m
    ensures var rest := if k == finder then Remainder(m, finder, reward, outputs) else 0;
            var n := Outcome(m, finder, reward, outputs, keys).accounts;
            k in n && (n[k] == m[k] <==> BonusAt(finder, reward, k) + EarnedBy(m[k], TermsOf(m, finder, reward, outputs)) + rest
                                         == TakenFrom(m, finder, reward, outputs, k))
  {
    OutcomeAccount(m, finder, reward, outputs, keys, k);
    hide Outcome, Opening, Remainder, BonusAt, EarnedBy, TakenFrom, Bounded, Named;
  }

  /** Without payouts the accounts are as before only when there was no reward. */
  lemma SkippedRound(m: Accounts, finder: Text, reward: Word, keys: seq<Text>)
    requires Named(m) && Bounded(m, reward) && Lists(keys, Opening(m, finder, reward).accounts.Keys)
    requires finder in m
    ensures Outcome(m, finder, reward, map[], keys).accounts == m <==> reward == 0
  {
    hide *;
    var n := Outcome(m, finder, reward, map[], keys).accounts;
    FileMeans(m, finder);
    ConservedOnFile(m, finder, reward, map[], keys);
    ConservesMeans(m, finder, reward, map[], n);
    NothingTaken(m, finder, reward);
    if reward == 0 {
      OutcomeAccount(m, finder, reward, map[], keys, finder);
      forall k | k in m ensures n[k] == m[k] {
        SkippedAccount(m, finder, reward, map[], keys, k);
        NothingEarned(m, finder, map[], k);
        NothingTakenFrom(m, finder, reward, k);
      }
    }
  }

  lemma NothingTakenFrom(m: Accounts, finder: Text, reward: Word, k: Text)
    requires k in m
    ensures TakenFrom(m, finder, reward, map[], k) == 0
  {
    BonusWithin(finder, reward);
  }

  lemma NothingTaken(m: Accounts, finder: Text, reward: Word)
    ensures Total(Taken(m, finder, reward, map[])) == 0
  {
    forall k | k in m ensures TakenFrom(m, finder, reward, map[], k) == 0 {
      NothingTakenFrom(m, finder, reward, k);
    }
    AllZero(Taken(m, finder, reward, map[]));
  }

  lemma NothingEarned(m: Accounts, finder: Text, outputs: map<Text, Word>, k: Text)
    requires Named(m) && Bounded(m, 0) && finder in m && k in m
    ensures BonusAt(finder, 0, k) == 0 && EarnedBy(m[k], TermsOf(m, finder, 0, outputs)) == 0
    ensures Remainder(m, finder, 0, outputs) == 0
  {
    var none: Word := 0;
    hide *;
    FileMeans(m, finder);
    RoundLimits(m, finder, none, outputs, k);
    RoundLimits(m, finder, none, outputs, finder);
    NoBonus(finder, k);
    PoolWithin(m, finder, outputs);
  }

  lemma NoBonus(finder: Text, k: Text)
    ensures BonusAt(finder, 0, k) == 0
  {
  }

  lemma PoolWithin(m: Accounts, finder: Text, outputs: map<Text, Word>)
    requires Named(m) && Bounded(m, 0) && finder in m
    ensures Remainder(m, finder, 0, outputs) <= 0
  {
    OpeningWeight(m, finder, 0, outputs);
    hide Opening, EarnedMap, Total, Shares, Quiet, Bounded;
  }

  // ---------------------------------------------------------------- a payout too large

  /** A finder without a balance, and another account with a balance of five. */
  function Pair(k: Text, finder: Text): Accounts {
    map[finder := Account(finder, 0, 0, 0), k := Account(k, 5, 0, 0)]
  }

  lemma PairIsBounded(k: Text, finder: Text)
    requires k != finder && k != [] && finder != []
    ensures Named(Pair(k, finder)) && Bounded(Pair(k, finder), 100) && finder in Pair(k, finder)
    ensures k in Pair(k, finder) && Pair(k, finder)[k].balance == 5
  {
    var m := Pair(k, finder);
    TotalRemove(Balances(m), k);
    TotalRemove(Shares(m), k);
    AllZero(Balances(m) - {k});
    AllZero(Shares(m) - {k});
    hide Total, Balances, Shares;
  }

  /** A payout one above the balance of five: round and refund do not restore the account. */
  lemma OverpaidIsNotRestored(k: Text, finder: Text, outputs: map<Text, Word>, keys: seq<Text>, creditKeys: seq<Text>,
                              outputKeys: seq<Text>)
    requires k != finder && k != [] && finder != [] && outputs == map[k := 6]
    requires Lists(keys, Opening(Pair(k, finder), finder, 100).accounts.Keys) && Lists(outputKeys, outputs.Keys)
    requires Lists(creditKeys, Outcome(Pair(k, finder), finder, 100, outputs, keys).credits.Keys)
    ensures var n := RoundTrip(Pair(k, finder), finder, 100, outputs, keys, creditKeys, outputKeys);
            k in n && k in Pair(k, finder) && n[k] != Pair(k, finder)[k]
  {
    PairIsBounded(k, finder);
    assert outputs.Keys <= Pair(k, finder).Keys;
    hide RoundTrip, Outcome, Opening, Bounded, Named, Pair;
    RefundRestores(Pair(k, finder), finder, 100, outputs, keys, creditKeys, outputKeys, k);
  }
}
