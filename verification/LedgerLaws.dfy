/** The books balance: what a round credits is exactly its reward, what a refund undoes and what it
    leaves, and when each of these fails. */
module LedgerLaws {
  import opened Bytes
  import opened Coinbase
  import opened Database
  import opened Ledger
  import opened Words

  /** No 64-bit sum wraps and no credit exceeds 32 bits. */
  ghost predicate Bounded(m: Accounts, reward: Word) {
    && reward < UINT_LIMIT
    && Total(Balances(m)) + reward < WORD_LIMIT
    && Total(Shares(m)) < WORD_LIMIT
  }

  /** Records sit under their own, nonempty keys. */
  ghost predicate Named(m: Accounts) {
    OwnKeys(m) && [] !in m
  }

  function BonusAt(finder: Text, reward: Word, k: Text): Word {
    if k == finder then Bonus(finder, reward) else 0
  }

  function EarnedBy(r: Account, t: Terms): Word {
    Earned(r.shares, t.weight, t.pool)
  }

  /** What is really taken from an account: its output, but no more than there is. */
  function TakenFrom(m: Accounts, finder: Text, reward: Word, outputs: map<Text, Word>, k: Text): nat
    requires k in m
  {
    Min(At<Text>(outputs, k), m[k].balance + BonusAt(finder, reward, k))
  }

  ghost function Taken(m: Accounts, finder: Text, reward: Word, outputs: map<Text, Word>): map<Text, nat> {
    map k | k in m :: TakenFrom(m, finder, reward, outputs, k)
  }

  ghost function Remainder(m: Accounts, finder: Text, reward: Word, outputs: map<Text, Word>): int {
    var t := TermsOf(m, finder, reward, outputs);
    t.pool - Total(EarnedMap(m, t))
  }

  // ---------------------------------------------------------------- the opening

  lemma BonusWithin(finder: Text, reward: Word)
    ensures 0 <= Bonus(finder, reward) <= reward
  {
  }

  ghost predicate OnFile(m: Accounts, finder: Text) {
    finder == [] || finder in m
  }

  lemma OpeningOnFile(m: Accounts, finder: Text, reward: Word)
    requires Named(m) && OnFile(m, finder) && Bounded(m, reward)
    ensures var o := Opening(m, finder, reward).accounts;
            && o.Keys == m.Keys && Quiet(o) && Shares(o) == Shares(m)
            && forall k :: k in m ==> m[k].balance + BonusAt(finder, reward, k) < WORD_LIMIT
                                      && o[k] == m[k].(balance := m[k].balance + BonusAt(finder, reward, k))
  {
    BonusWithin(finder, reward);
    forall k | k in m
      ensures m[k].balance + BonusAt(finder, reward, k) < WORD_LIMIT
    {
      TotalBounds(Balances(m), k);
    }
    if finder != [] {
      var o := Opening(m, finder, reward).accounts;
      assert o.Keys == m.Keys;
      assert forall k :: k in m ==> o[k].shares == m[k].shares;
    }
  }

  lemma OpeningStray(m: Accounts, finder: Text, reward: Word)
    requires Named(m) && !OnFile(m, finder)
    ensures var o := Opening(m, finder, reward).accounts;
            && o == m[finder := BLANK][[] := BLANK.(balance := Bonus(finder, reward))]
            && Quiet(o) && Total(Shares(o)) == Total(Shares(m))
  {
    var o := Opening(m, finder, reward).accounts;
    var n := m[finder := BLANK];
    assert Found(m, finder) == BLANK;
    assert Add(0, Bonus(finder, reward)) == Bonus(finder, reward);
    assert Shares(n) == Shares(m)[finder := 0];
    assert Shares(o) == Shares(n)[[] := 0];
    TotalUpdate(Shares(m), finder, 0);
    TotalUpdate(Shares(n), [], 0);
  }

  lemma OpeningWeight(m: Accounts, finder: Text, reward: Word, outputs: map<Text, Word>)
    requires Named(m) && Bounded(m, reward)
    ensures TermsOf(m, finder, reward, outputs) == Terms(outputs, Total(Shares(m)), reward - Bonus(finder, reward))
    ensures Quiet(Opening(m, finder, reward).accounts)
    ensures var t := TermsOf(m, finder, reward, outputs);
            Total(EarnedMap(Opening(m, finder, reward).accounts, t)) == Total(EarnedMap(m, t)) <= t.pool
  {
    var t := TermsOf(m, finder, reward, outputs);
    var o := Opening(m, finder, reward).accounts;
    hide Total, EarnedMap, Earned, Shares, Opening, Quiet;
    BonusWithin(finder, reward);
    assert Total(Shares(m)) % WORD_LIMIT == Total(Shares(m));
    if OnFile(m, finder) {
      OpeningOnFile(m, finder, reward);
      EarnedMapOfShares(o, m, t);
      EarnedWithinPool(m, t);
    } else {
      OpeningStray(m, finder, reward);
      StrayEarnsNothing(m, finder, BLANK.(balance := Bonus(finder, reward)), t);
      EarnedWithinPool(m, t);
    }
  }

  lemma StrayEarnsNothing(m: Accounts, finder: Text, nameless: Account, t: Terms)
    requires finder !in m && [] !in m && finder != [] && nameless.shares == 0
    ensures Total(EarnedMap(m[finder := BLANK][[] := nameless], t)) == Total(EarnedMap(m, t))
  {
    NothingForNothing(t);
    hide Earned;
    var n := m[finder := BLANK];
    var o := n[[] := nameless];
    assert EarnedMap(n, t) == EarnedMap(m, t)[finder := 0];
    assert EarnedMap(o, t) == EarnedMap(n, t)[[] := 0];
    TotalUpdate(EarnedMap(m, t), finder, 0);
    TotalUpdate(EarnedMap(n, t), [], 0);
  }

  // ---------------------------------------------------------------- the settlement

  function Settlement(m: Accounts, finder: Text, reward: Word, t: Terms, k: Text): int
    requires k in m
  {
    m[k].balance + BonusAt(finder, reward, k) - TakenFrom(m, finder, reward, t.outputs, k) + EarnedBy(m[k], t)
  }

  lemma EarnedAtMostPool(m: Accounts, t: Terms, k: Text)
    requires k in m && Total(EarnedMap(m, t)) <= t.pool
    ensures 0 <= EarnedBy(m[k], t) <= Total(EarnedMap(m, t))
  {
    TotalBounds(EarnedMap(m, t), k);
  }

  lemma SettledBalance(r: Account, k: Text, t: Terms)
    requires r.balance + EarnedBy(r, t) < WORD_LIMIT
    ensures SettledRecord(r, k, t) == r.(balance := r.balance - Min(At<Text>(t.outputs, k), r.balance) + EarnedBy(r, t))
  {
    NothingForNothing(t);
    hide Earned;
  }

  /** Before the remainder is handed out, each account on file has its balance, less what was taken,
      plus what it earned, and the sum paid is the sum of the floors. */
  lemma Settled(m: Accounts, finder: Text, reward: Word, outputs: map<Text, Word>, keys: seq<Text>)
    requires Named(m) && Bounded(m, reward) && Lists(keys, Opening(m, finder, reward).accounts.Keys)
    ensures var t := TermsOf(m, finder, reward, outputs);
            var p := SettledAll(Opening(m, finder, reward), keys, t);
            && p.paid == Total(EarnedMap(m, t)) <= t.pool
            && p.accounts.Keys == Opening(m, finder, reward).accounts.Keys
            && forall k :: k in m ==> k in p.accounts
                                      && 0 <= Settlement(m, finder, reward, t, k) < WORD_LIMIT
                                      && p.accounts[k] == m[k].(balance := Settlement(m, finder, reward, t, k))
  {
    var t := TermsOf(m, finder, reward, outputs);
    var o := Opening(m, finder, reward);
    OpeningWeight(m, finder, reward, outputs);
    SumOverTotal(keys, EarnedMap(o.accounts, t));
    SettledPays(o, keys, t);
    forall k | k in m
      ensures k in SettledAll(o, keys, t).accounts
              && 0 <= Settlement(m, finder, reward, t, k) < WORD_LIMIT
              && SettledAll(o, keys, t).accounts[k] == m[k].(balance := Settlement(m, finder, reward, t, k))
    {
      SettledAccount(m, finder, reward, outputs, keys, k);
    }
  }

  lemma SettledAccount(m: Accounts, finder: Text, reward: Word, outputs: map<Text, Word>, keys: seq<Text>, k: Text)
    requires Named(m) && Bounded(m, reward) && Lists(keys, Opening(m, finder, reward).accounts.Keys) && k in m
    ensures var t := TermsOf(m, finder, reward, outputs);
            var p := SettledAll(Opening(m, finder, reward), keys, t);
            && k in p.accounts
            && 0 <= Settlement(m, finder, reward, t, k) < WORD_LIMIT
            && p.accounts[k] == m[k].(balance := Settlement(m, finder, reward, t, k))
  {
    var t := TermsOf(m, finder, reward, outputs);
    var o := Opening(m, finder, reward);
    OpeningWeight(m, finder, reward, outputs);
    OpeningAccount(m, finder, reward, k);
    EarnedAtMostPool(m, t, k);
    BonusWithin(finder, reward);
    assert m[k].balance + reward < WORD_LIMIT by { TotalBounds(Balances(m), k); }
    hide Opening, Earned, TermsOf, Quiet, Total, Balances, Bonus, SettledRecord, EarnedMap;
    SettledOnce(o, keys, t, k);
    hide SettledAll, Lists, Named, Bounded, Shares;
    SettledBalance(o.accounts[k], k, t);
  }

  lemma OpeningAccount(m: Accounts, finder: Text, reward: Word, k: Text)
    requires Named(m) && Bounded(m, reward) && k in m
    ensures var o := Opening(m, finder, reward).accounts;
            && k in o && m[k].balance + BonusAt(finder, reward, k) < WORD_LIMIT
            && o[k] == m[k].(balance := m[k].balance + BonusAt(finder, reward, k))
            && forall j :: j in o && j != k ==> o[j].key != k
  {
    if OnFile(m, finder) {
      OpeningOnFile(m, finder, reward);
    } else {
      OpeningStray(m, finder, reward);
    }
  }

  // ---------------------------------------------------------------- conservation

  ghost function SettledMap(m: Accounts, finder: Text, reward: Word, t: Terms): (s: map<Text, nat>)
    requires forall k :: k in m ==> 0 <= Settlement(m, finder, reward, t, k)
    ensures s.Keys == m.Keys
  {
    map k | k in m :: Settlement(m, finder, reward, t, k)
  }

  ghost function BonusMap(m: Accounts, finder: Text, reward: Word): map<Text, nat> {
    map k | k in m :: BonusAt(finder, reward, k)
  }

  lemma BonusTotal(m: Accounts, finder: Text, reward: Word)
    ensures Total(BonusMap(m, finder, reward)) == if finder in m then Bonus(finder, reward) else 0
  {
    var b := BonusMap(m, finder, reward);
    if finder in m {
      TotalRemove(b, finder);
    }
    AllZero(b - {finder});
    assert finder !in m ==> b - {finder} == b;
  }

  /** Over the accounts on file: balances after, plus what was taken, are balances before plus
      bonus and earnings. */
  lemma SettledTotals(m: Accounts, finder: Text, reward: Word, t: Terms)
    requires forall k :: k in m ==> 0 <= Settlement(m, finder, reward, t, k)
    ensures Total(SettledMap(m, finder, reward, t)) + Total(Taken(m, finder, reward, t.outputs))
            == Total(Balances(m)) + Total(BonusMap(m, finder, reward)) + Total(EarnedMap(m, t))
  {
    var bonus, earned := BonusMap(m, finder, reward), EarnedMap(m, t);
    var start: map<Text, nat> := map k | k in m :: Balances(m)[k] + bonus[k];
    var gross: map<Text, nat> := map k | k in m :: start[k] + earned[k];
    assert bonus.Keys == earned.Keys == start.Keys == gross.Keys == Balances(m).Keys;
    TotalSum(Balances(m), bonus, start);
    TotalSum(start, earned, gross);
    TotalSum(SettledMap(m, finder, reward, t), Taken(m, finder, reward, t.outputs), gross);
  }

  ghost predicate Conserves(m: Accounts, finder: Text, reward: Word, outputs: map<Text, Word>, after: Accounts) {
    Total(Balances(after)) + Total(Taken(m, finder, reward, outputs)) == Total(Balances(m)) + reward
  }

  /** All keys settled, the remainder still to be handed out. */
  ghost function Middle(m: Accounts, finder: Text, reward: Word, outputs: map<Text, Word>, keys: seq<Text>): Progress
    requires Lists(keys, Opening(m, finder, reward).accounts.Keys)
  {
    SettledAll(Opening(m, finder, reward), keys, TermsOf(m, finder, reward, outputs))
  }

  lemma MiddleOnFile(m: Accounts, finder: Text, reward: Word, outputs: map<Text, Word>, keys: seq<Text>)
    requires Named(m) && Bounded(m, reward) && Lists(keys, Opening(m, finder, reward).accounts.Keys)
    requires OnFile(m, finder)
    ensures var t := TermsOf(m, finder, reward, outputs);
            var p := Middle(m, finder, reward, outputs, keys);
            && p.accounts.Keys == m.Keys && OwnKeys(p.accounts)
            && (forall k :: k in m ==> 0 <= Settlement(m, finder, reward, t, k))
            && Balances(p.accounts) == SettledMap(m, finder, reward, t)
  {
    var t := TermsOf(m, finder, reward, outputs);
    var p := Middle(m, finder, reward, outputs, keys);
    assert p.accounts.Keys == m.Keys by {
      MiddleKeys(m, finder, reward, outputs, keys);
      OpeningOnFile(m, finder, reward);
    }
    MiddleAccounts(m, finder, reward, outputs, keys);
    hide Opening, Middle, Settlement, TermsOf, Lists, Balances, Named, Bounded;
    BalancesAre(p.accounts, SettledMap(m, finder, reward, t));
  }

  lemma BalancesAre(a: Accounts, b: map<Text, nat>)
    requires a.Keys == b.Keys && forall k :: k in a ==> a[k].balance == b[k]
    ensures Balances(a) == b
  {
  }

  lemma MiddleKeys(m: Accounts, finder: Text, reward: Word, outputs: map<Text, Word>, keys: seq<Text>)
    requires Named(m) && Bounded(m, reward) && Lists(keys, Opening(m, finder, reward).accounts.Keys)
    ensures Middle(m, finder, reward, outputs, keys).accounts.Keys == Opening(m, finder, reward).accounts.Keys
  {
    Settled(m, finder, reward, outputs, keys);
    hide Opening, SettledAll, Settlement, EarnedMap, Total, Lists;
  }

  lemma MiddleAccounts(m: Accounts, finder: Text, reward: Word, outputs: map<Text, Word>, keys: seq<Text>)
    requires Named(m) && Bounded(m, reward) && Lists(keys, Opening(m, finder, reward).accounts.Keys)
    ensures var t := TermsOf(m, finder, reward, outputs);
            var p := Middle(m, finder, reward, outputs, keys);
            forall k :: k in m ==> k in p.accounts && p.accounts[k].key == k
                                   && 0 <= Settlement(m, finder, reward, t, k) == p.accounts[k].balance
  {
    Settled(m, finder, reward, outputs, keys);
    hide Opening, SettledAll, Settlement, EarnedMap, Total, Lists;
  }

  lemma MiddlePaid(m: Accounts, finder: Text, reward: Word, outputs: map<Text, Word>, keys: seq<Text>)
    requires Named(m) && Bounded(m, reward) && Lists(keys, Opening(m, finder, reward).accounts.Keys)
    ensures var t := TermsOf(m, finder, reward, outputs);
            var p := Middle(m, finder, reward, outputs, keys);
            p.paid == Total(EarnedMap(m, t)) && p.paid <= t.pool && t.pool == reward - Bonus(finder, reward)
  {
    Settled(m, finder, reward, outputs, keys);
    hide Opening, SettledAll, Settlement, EarnedMap, Shares, Total, Lists;
  }

  lemma ConservedOnFile(m: Accounts, finder: Text, reward: Word, outputs: map<Text, Word>, keys: seq<Text>)
    requires Named(m) && Bounded(m, reward) && Lists(keys, Opening(m, finder, reward).accounts.Keys)
    requires OnFile(m, finder)
    ensures Conserves(m, finder, reward, outputs, Outcome(m, finder, reward, outputs, keys).accounts)
  {
    hide *;
    var t := TermsOf(m, finder, reward, outputs);
    var p := Middle(m, finder, reward, outputs, keys);
    MiddleOnFile(m, finder, reward, outputs, keys);
    MiddlePaid(m, finder, reward, outputs, keys);
    SettledTotals(m, finder, reward, t);
    BonusTotal(m, finder, reward);
    OpeningTerms(m, finder, reward, outputs);
    ClosingAdds(p, finder, t.pool);
    OutcomeIsClosed(m, finder, reward, outputs, keys);
    ConservesMeans(m, finder, reward, outputs, Closed(p, finder, t.pool));
  }

  lemma OpeningTerms(m: Accounts, finder: Text, reward: Word, outputs: map<Text, Word>)
    requires Named(m) && Bounded(m, reward)
    ensures TermsOf(m, finder, reward, outputs).outputs == outputs
    ensures Total(Balances(m)) + reward < WORD_LIMIT
    ensures finder == [] ==> Bonus(finder, reward) == 0
    ensures OnFile(m, finder) ==> finder == [] || finder in m
    ensures finder == [] ==> finder !in m
  {
  }

  lemma ConservesMeans(m: Accounts, finder: Text, reward: Word, outputs: map<Text, Word>, after: Accounts)
    ensures Conserves(m, finder, reward, outputs, after)
            <==> Total(Balances(after)) + Total(Taken(m, finder, reward, outputs)) == Total(Balances(m)) + reward
  {
  }

  lemma ClosingAdds(p: Progress, finder: Text, pool: Word)
    requires OwnKeys(p.accounts) && (finder == [] || finder in p.accounts)
    requires p.paid <= pool && Total(Balances(p.accounts)) + pool - p.paid < WORD_LIMIT
    ensures Total(Balances(Closed(p, finder, pool))) == Total(Balances(p.accounts)) + pool - p.paid
  {
    if pool > p.paid {
      var r := Found(p.accounts, finder);
      assert r.key == finder;
      assert At(Balances(p.accounts), finder) == r.balance;
      if finder in p.accounts {
        TotalBounds(Balances(p.accounts), finder);
      }
      hide Total;
      var v := r.balance + pool - p.paid;
      var after := Closed(p, finder, pool);
      assert after == p.accounts[finder := r.(balance := v)];
      assert Balances(after) == Balances(p.accounts)[finder := v];
      TotalUpdate(Balances(p.accounts), finder, v);
    }
  }

  /** A stray pair: the record looked up for a missing finder, blank and nameless, and the nameless
      record it is stored under. Paying out to the missing finder wipes the latter. */
  lemma {:induction false} StraySettled(p: Progress, keys: seq<Text>, t: Terms, finder: Text)
    requires Distinct(keys) && finder != [] && [] !in t.outputs
    requires finder in p.accounts && p.accounts[finder] == BLANK
    requires [] in p.accounts && p.accounts[[]].key == [] && p.accounts[[]].shares == 0
    requires forall k :: k in keys ==> k in p.accounts && (k != finder && k != [] ==> p.accounts[k].key == k)
    ensures var q := SettledAll(p, keys, t).accounts;
            && finder in q && q[finder] == BLANK
            && [] in q && q[[]] == if finder in keys && finder in t.outputs then BLANK else p.accounts[[]]
    decreases |keys|
  {
    if keys != [] {
      assert keys == [keys[0]] + keys[1..] && keys[0] !in keys[1..];
      StraySettled(SettledKey(p, keys[0], t), keys[1..], t, finder);
    }
  }

  /** What the nameless record ends up with when the finder is missing: the bonus is wiped by a
      payout to the finder or overwritten by the remainder. */
  function Salvaged(finder: Text, reward: Word, outputs: map<Text, Word>, remainder: nat): nat {
    if remainder > 0 then remainder
    else if finder in outputs then 0
    else Bonus(finder, reward)
  }

  lemma StrayOutcome(m: Accounts, finder: Text, reward: Word, outputs: map<Text, Word>, keys: seq<Text>)
    requires Named(m) && Bounded(m, reward) && Lists(keys, Opening(m, finder, reward).accounts.Keys)
    requires !OnFile(m, finder) && [] !in outputs
    ensures var t := TermsOf(m, finder, reward, outputs);
            var r := Remainder(m, finder, reward, outputs);
            && r >= 0 && (forall k :: k in m ==> 0 <= Settlement(m, finder, reward, t, k))
            && Balances(Outcome(m, finder, reward, outputs, keys).accounts)
               == SettledMap(m, finder, reward, t)[finder := 0][[] := Salvaged(finder, reward, outputs, r)]
  {
    hide *;
    RemainderIs(m, finder, reward, outputs, keys);
    StrayFacts(m, finder);
    MiddlePaid(m, finder, reward, outputs, keys);
    MiddleStray(m, finder, reward, outputs, keys);
    OutcomeIsClosed(m, finder, reward, outputs, keys);
    var t := TermsOf(m, finder, reward, outputs);
    var p := Middle(m, finder, reward, outputs, keys);
    var nameless := if finder in outputs then 0 else Bonus(finder, reward);
    StrayClosing(m, p, finder, t.pool, SettledMap(m, finder, reward, t), nameless);
    SalvagedIs(finder, reward, outputs, t.pool - p.paid);
  }

  lemma SalvagedIs(finder: Text, reward: Word, outputs: map<Text, Word>, r: nat)
    ensures Salvaged(finder, reward, outputs, r)
            == if r > 0 then r else if finder in outputs then 0 else Bonus(finder, reward)
  {
  }

  lemma StrayFacts(m: Accounts, finder: Text)
    requires Named(m) && !OnFile(m, finder)
    ensures finder !in m && [] !in m && finder != []
  {
  }

  lemma RemainderIs(m: Accounts, finder: Text, reward: Word, outputs: map<Text, Word>, keys: seq<Text>)
    requires Named(m) && Bounded(m, reward) && Lists(keys, Opening(m, finder, reward).accounts.Keys)
    ensures Remainder(m, finder, reward, outputs)
            == TermsOf(m, finder, reward, outputs).pool - Middle(m, finder, reward, outputs, keys).paid
  {
    MiddlePaid(m, finder, reward, outputs, keys);
    hide Middle, TermsOf, EarnedMap, Total, Lists, Named, Bounded;
  }

  lemma OutcomeIsClosed(m: Accounts, finder: Text, reward: Word, outputs: map<Text, Word>, keys: seq<Text>)
    requires Lists(keys, Opening(m, finder, reward).accounts.Keys)
    ensures Outcome(m, finder, reward, outputs, keys).accounts
            == Closed(Middle(m, finder, reward, outputs, keys), finder, TermsOf(m, finder, reward, outputs).pool)
  {
  }

  lemma OpeningStrayRecords(m: Accounts, finder: Text, reward: Word)
    requires Named(m) && !OnFile(m, finder)
    ensures var o := Opening(m, finder, reward).accounts;
            && o.Keys == m.Keys + {finder, []} && o[finder] == BLANK
            && o[[]] == BLANK.(balance := Bonus(finder, reward))
            && forall k :: k in o && k != finder && k != [] ==> o[k].key == k
  {
    OpeningStray(m, finder, reward);
    hide Opening, Quiet, Total, Shares, Bonus;
  }

  lemma MiddleStrayPair(m: Accounts, finder: Text, reward: Word, outputs: map<Text, Word>, keys: seq<Text>)
    requires Named(m) && Bounded(m, reward) && Lists(keys, Opening(m, finder, reward).accounts.Keys)
    requires !OnFile(m, finder) && [] !in outputs
    ensures var p := Middle(m, finder, reward, outputs, keys);
            && finder in p.accounts && p.accounts[finder] == BLANK
            && [] in p.accounts && p.accounts[[]].key == [] && p.accounts[[]].shares == 0
            && p.accounts[[]].balance == if finder in outputs then 0 else Bonus(finder, reward)
  {
    OpeningStrayRecords(m, finder, reward);
    hide Opening, Bonus, Total, Shares;
    StraySettled(Opening(m, finder, reward), keys, TermsOf(m, finder, reward, outputs), finder);
    hide SettledAll, Bounded, Named;
  }

  lemma MiddleStray(m: Accounts, finder: Text, reward: Word, outputs: map<Text, Word>, keys: seq<Text>)
    requires Named(m) && Bounded(m, reward) && Lists(keys, Opening(m, finder, reward).accounts.Keys)
    requires !OnFile(m, finder) && [] !in outputs
    ensures var t := TermsOf(m, finder, reward, outputs);
            var p := Middle(m, finder, reward, outputs, keys);
            && p.accounts.Keys == m.Keys + {finder, []}
            && (forall k :: k in m ==> 0 <= Settlement(m, finder, reward, t, k))
            && (forall k :: k in m ==> p.accounts[k].balance == SettledMap(m, finder, reward, t)[k])
            && p.accounts[finder] == BLANK
            && p.accounts[[]].balance == if finder in outputs then 0 else Bonus(finder, reward)
  {
    MiddleStrayPair(m, finder, reward, outputs, keys);
    OpeningStrayRecords(m, finder, reward);
    MiddleKeys(m, finder, reward, outputs, keys);
    MiddleAccounts(m, finder, reward, outputs, keys);
    hide Opening, Settlement, TermsOf, Bonus, Middle, Lists, Named, Bounded;
  }

  lemma StrayClosing(m: Accounts, p: Progress, finder: Text, pool: Word, settled: map<Text, nat>, nameless: Word)
    requires finder !in m && [] !in m && finder != [] && p.paid <= pool
    requires p.accounts.Keys == m.Keys + {finder, []} && settled.Keys == m.Keys
    requires forall k :: k in m ==> p.accounts[k].balance == settled[k]
    requires p.accounts[finder] == BLANK && p.accounts[[]].balance == nameless
    ensures Balances(Closed(p, finder, pool))
            == settled[finder := 0][[] := if pool > p.paid then pool - p.paid else nameless]
  {
    if pool > p.paid {
      var after := Closed(p, finder, pool);
      assert after == p.accounts[[] := BLANK.(balance := pool - p.paid)];
    }
  }

  lemma TwoMore(settled: map<Text, nat>, finder: Text, v: nat)
    requires finder !in settled && [] !in settled && finder != []
    ensures Total(settled[finder := 0][[] := v]) == Total(settled) + v
  {
    TotalUpdate(settled, finder, 0);
    TotalUpdate(settled[finder := 0], [], v);
  }

  /** Value is conserved exactly when the finder's record is on file, or there is no finder, or what
      the missing record would lose is nothing. */
  lemma UpdateConserves(m: Accounts, finder: Text, reward: Word, outputs: map<Text, Word>, keys: seq<Text>)
    requires Named(m) && Bounded(m, reward) && Lists(keys, Opening(m, finder, reward).accounts.Keys)
    requires OnFile(m, finder) || [] !in outputs
    ensures Conserves(m, finder, reward, outputs, Outcome(m, finder, reward, outputs, keys).accounts)
            <==> OnFile(m, finder) || Bonus(finder, reward) == 0
                 || (finder !in outputs && Remainder(m, finder, reward, outputs) == 0)
  {
    if OnFile(m, finder) {
      ConservedOnFile(m, finder, reward, outputs, keys);
    } else {
      hide *;
      StrayFacts(m, finder);
      OpeningTerms(m, finder, reward, outputs);
      ConservesMeans(m, finder, reward, outputs, Outcome(m, finder, reward, outputs, keys).accounts);
      MiddlePaid(m, finder, reward, outputs, keys);
      RemainderIs(m, finder, reward, outputs, keys);
      var t := TermsOf(m, finder, reward, outputs);
      var r := Remainder(m, finder, reward, outputs);
      SalvagedIs(finder, reward, outputs, r);
      StrayOutcome(m, finder, reward, outputs, keys);
      SettledTotals(m, finder, reward, t);
      BonusTotal(m, finder, reward);
      var left := SettledMap(m, finder, reward, t);
      TwoMore(left, finder, Salvaged(finder, reward, outputs, r));
    }
  }

  // ---------------------------------------------------------------- clearing the shares

  lemma {:induction false} ClearedOnce(m: Accounts, keys: seq<Text>, x: Text)
    requires Distinct(keys) && x in m && m[x].key == x
    requires forall k :: k in keys ==> k in m && (k != x ==> m[k].key != x)
    ensures var n := ClearedAll(m, keys);
            x in n && n[x] == if x in keys then m[x].(shares := 0) else m[x]
    decreases |keys|
  {
    if keys != [] {
      assert keys == [keys[0]] + keys[1..] && keys[0] !in keys[1..];
      ClearedOnce(m[m[keys[0]].key := m[keys[0]].(shares := 0)], keys[1..], x);
    }
  }

  /** Clearing the shares writes the blank record of a missing finder over the nameless one. */
  lemma {:induction false} ClearedStray(m: Accounts, keys: seq<Text>, finder: Text)
    requires Distinct(keys) && finder != [] && finder in m && m[finder] == BLANK
    requires [] in m && m[[]].key == [] && m[[]].shares == 0
    requires forall k :: k in keys ==> k in m && (k != finder && k != [] ==> m[k].key == k)
    ensures var n := ClearedAll(m, keys);
            && finder in n && n[finder] == BLANK
            && [] in n && n[[]] == if finder in keys then BLANK else m[[]]
    decreases |keys|
  {
    if keys != [] {
      assert keys == [keys[0]] + keys[1..] && keys[0] !in keys[1..];
      ClearedStray(m[m[keys[0]].key := m[keys[0]].(shares := 0)], keys[1..], finder);
    }
  }

  lemma {:induction false} ClearedKeys(m: Accounts, keys: seq<Text>)
    requires forall k :: k in keys ==> k in m && m[k].key in m
    requires forall k :: k in m ==> m[k].key in m
    ensures ClearedAll(m, keys).Keys == m.Keys
    decreases |keys|
  {
    if keys != [] {
      var n := m[m[keys[0]].key := m[keys[0]].(shares := 0)];
      assert n.Keys == m.Keys;
      ClearedKeys(n, keys[1..]);
    }
  }

  lemma ClearingKeepsBalances(m: Accounts, keys: seq<Text>)
    requires OwnKeys(m) && Lists(keys, m.Keys)
    ensures var n := ClearedAll(m, keys);
            && n.Keys == m.Keys && OwnKeys(n) && Balances(n) == Balances(m)
            && forall k :: k in m ==> n[k] == m[k].(shares := 0)
  {
    ClearedKeys(m, keys);
    forall k | k in m
      ensures k in ClearedAll(m, keys) && ClearedAll(m, keys)[k] == m[k].(shares := 0)
    {
      ClearedOnce(m, keys, k);
    }
  }

  lemma OutcomeOwn(m: Accounts, finder: Text, reward: Word, outputs: map<Text, Word>, keys: seq<Text>)
    requires Named(m) && Bounded(m, reward) && Lists(keys, Opening(m, finder, reward).accounts.Keys)
    requires OnFile(m, finder)
    ensures OwnKeys(Outcome(m, finder, reward, outputs, keys).accounts)
  {
    MiddleOnFile(m, finder, reward, outputs, keys);
    OutcomeIsClosed(m, finder, reward, outputs, keys);
    hide Middle, Opening, Outcome, TermsOf, Lists, Balances, SettledMap, Bounded;
  }

  /** The stray pair after the round. */
  lemma StrayAfter(m: Accounts, finder: Text, reward: Word, outputs: map<Text, Word>, keys: seq<Text>)
    requires Named(m) && Bounded(m, reward) && Lists(keys, Opening(m, finder, reward).accounts.Keys)
    requires !OnFile(m, finder) && [] !in outputs
    ensures var n := Outcome(m, finder, reward, outputs, keys).accounts;
            && n.Keys == m.Keys + {finder, []} && n[finder] == BLANK && n[[]].key == [] && n[[]].shares == 0
            && forall k :: k in m ==> n[k].key == k
  {
    hide *;
    StrayFacts(m, finder);
    MiddleStray(m, finder, reward, outputs, keys);
    MiddleStrayPair(m, finder, reward, outputs, keys);
    MiddleAccounts(m, finder, reward, outputs, keys);
    OutcomeIsClosed(m, finder, reward, outputs, keys);
    var p := Middle(m, finder, reward, outputs, keys);
    ClosedStray(p, finder, TermsOf(m, finder, reward, outputs).pool);
  }

  lemma ClosedStray(p: Progress, finder: Text, pool: Word)
    requires finder in p.accounts && p.accounts[finder] == BLANK && [] in p.accounts && finder != []
    ensures var n := Closed(p, finder, pool);
            && n.Keys == p.accounts.Keys && (forall k :: k in n && k != [] ==> n[k] == p.accounts[k])
            && (n == p.accounts || (n[[]].key == [] && n[[]].shares == 0))
  {
  }

  ghost predicate StrayPair(n: Accounts, m: Accounts, finder: Text) {
    && finder !in m && [] !in m && finder != []
    && n.Keys == m.Keys + {finder, []} && n[finder] == BLANK && n[[]].key == [] && n[[]].shares == 0
    && forall k :: k in m ==> n[k].key == k
  }

  lemma ClearedStrayAt(n: Accounts, m: Accounts, keys: seq<Text>, finder: Text, k: Text)
    requires StrayPair(n, m, finder) && Lists(keys, n.Keys) && k in n
    ensures var c := ClearedAll(n, keys);
            k in c && c[k].balance == if k in m then n[k].balance else 0
  {
    if k in m {
      ClearedOnce(n, keys, k);
    } else {
      ClearedStray(n, keys, finder);
    }
  }

  lemma ClearedStrayKeys(n: Accounts, m: Accounts, keys: seq<Text>, finder: Text)
    requires StrayPair(n, m, finder) && Lists(keys, n.Keys)
    ensures ClearedAll(n, keys).Keys == n.Keys
  {
    ClearedKeys(n, keys);
  }

  lemma ListsAll(keys: seq<Text>, n: Accounts)
    requires Lists(keys, n.Keys)
    ensures forall k :: k in keys ==> k in n
  {
  }

  /** With no record for the finder, clearing the shares wipes the nameless balance as well. */
  lemma ClearedStrayBalances(n: Accounts, m: Accounts, keys: seq<Text>, finder: Text, settled: map<Text, nat>, v: nat)
    requires StrayPair(n, m, finder) && settled.Keys == m.Keys && Lists(keys, n.Keys)
    requires Balances(n) == settled[finder := 0][[] := v]
    ensures forall k :: k in keys ==> k in n
    ensures Balances(ClearedAll(n, keys)) == settled[finder := 0][[] := 0]
  {
    hide Lists, ClearedAll;
    ListsAll(keys, n);
    ClearedStrayKeys(n, m, keys, finder);
    var c := ClearedAll(n, keys);
    forall k | k in n
      ensures c[k].balance == if k in m then settled[k] else 0
    {
      ClearedStrayAt(n, m, keys, finder, k);
      assert Balances(n)[k] == n[k].balance;
    }
    hide Balances;
    BalancesAre(c, settled[finder := 0][[] := 0]);
  }

  lemma ListsOnly(keys: seq<Text>, s: set<Text>)
    requires Lists(keys, s)
    ensures forall k :: k in keys ==> k in s
  {
  }

  lemma StrayPairIs(n: Accounts, m: Accounts, finder: Text)
    requires finder !in m && [] !in m && finder != []
    requires n.Keys == m.Keys + {finder, []} && n[finder] == BLANK && n[[]].key == [] && n[[]].shares == 0
    requires forall k :: k in m ==> n[k].key == k
    ensures StrayPair(n, m, finder)
  {
  }

  /** A whole new round, balances updated and shares cleared, conserves value exactly when the finder
      is on file or there is none, or nothing was to be given to the finder. */
  lemma NewRoundConserves(m: Accounts, finder: Text, reward: Word, outputs: map<Text, Word>, keys: seq<Text>, cleared: seq<Text>)
    requires Named(m) && Bounded(m, reward) && Lists(keys, Opening(m, finder, reward).accounts.Keys)
    requires Lists(cleared, Outcome(m, finder, reward, outputs, keys).accounts.Keys)
    requires OnFile(m, finder) || [] !in outputs
    ensures Conserves(m, finder, reward, outputs, ClearedAll(Outcome(m, finder, reward, outputs, keys).accounts, cleared))
            <==> OnFile(m, finder) || (Bonus(finder, reward) == 0 && Remainder(m, finder, reward, outputs) == 0)
  {
    hide *;
    var after := Outcome(m, finder, reward, outputs, keys).accounts;
    ListsOnly(cleared, after.Keys);
    OpeningTerms(m, finder, reward, outputs);
    if OnFile(m, finder) {
      OutcomeOwn(m, finder, reward, outputs, keys);
      ConservedOnFile(m, finder, reward, outputs, keys);
      ConservesMeans(m, finder, reward, outputs, after);
      ConservesMeans(m, finder, reward, outputs, ClearedAll(after, cleared));
      ClearingKeepsBalances(after, cleared);
    } else {
      var t := TermsOf(m, finder, reward, outputs);
      var r := Remainder(m, finder, reward, outputs);
      StrayFacts(m, finder);
      StrayOutcome(m, finder, reward, outputs, keys);
      StrayAfter(m, finder, reward, outputs, keys);
      MiddlePaid(m, finder, reward, outputs, keys);
      RemainderIs(m, finder, reward, outputs, keys);
      SettledTotals(m, finder, reward, t);
      BonusTotal(m, finder, reward);
      BonusWithin(finder, reward);
      var left := SettledMap(m, finder, reward, t);
      StrayPairIs(after, m, finder);
      ClearedStrayBalances(after, m, cleared, finder, left, Salvaged(finder, reward, outputs, r));
      TwoMore(left, finder, 0);
      ConservesMeans(m, finder, reward, outputs, ClearedAll(after, cleared));
    }
  }

  /** No account at all and a finder without a record: of a reward of 100 the bonus of two is lost in
      the round, and the rest when the shares are cleared. */
  lemma RewardIsLost(finder: Text, keys: seq<Text>, cleared: seq<Text>)
    requires finder != [] && Lists(keys, Opening(map[], finder, 100).accounts.Keys)
    requires Lists(cleared, Outcome(map[], finder, 100, map[], keys).accounts.Keys)
    ensures !Conserves(map[], finder, 100, map[], Outcome(map[], finder, 100, map[], keys).accounts)
    ensures forall k :: k in cleared ==> k in Outcome(map[], finder, 100, map[], keys).accounts
    ensures !Conserves(map[], finder, 100, map[], ClearedAll(Outcome(map[], finder, 100, map[], keys).accounts, cleared))
  {
    NothingOnFile(finder);
    hide *;
    ListsOnly(cleared, Outcome(map[], finder, 100, map[], keys).accounts.Keys);
    UpdateConserves(map[], finder, 100, map[], keys);
    NewRoundConserves(map[], finder, 100, map[], keys, cleared);
  }

  lemma NothingOnFile(finder: Text)
    requires finder != []
    ensures Named(map[]) && Bounded(map[], 100) && !OnFile(map[], finder)
    ensures Bonus(finder, 100) == 2 && Remainder(map[], finder, 100, map[]) == 98
  {
    assert Balances(map[]) == map[] && Shares(map[]) == map[];
    assert Total<Text>(map[]) == 0;
    OpeningWeight(map[], finder, 100, map[]);
    assert EarnedMap(map[], TermsOf(map[], finder, 100, map[])) == map[];
  }
}
