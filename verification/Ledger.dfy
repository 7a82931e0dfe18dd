/** What one round does to the account records, as functions on the record map: crediting the block
    finder, paying out, sharing the reward by weight, and taking all of it back for an orphan. */
module Ledger {
  import opened Bytes
  import opened Coinbase
  import opened Database
  import opened Words

  datatype Account = Account(key: Text, balance: Word, shares: Word, blocksFound: Uint)

  const BLANK := Account([], 0, 0, 0)

  /** A 1024-bit block hash, as its thirty-two words. */
  type Hash = w: seq<Uint> | |w| == 32 witness Repeat<Uint>(0, 32)

  datatype Block = Block(key: Hash, coinbaseValue: Word, coinbase: Payout, credits: map<Text, Word>, round: Uint)

  const NO_HASH: Hash := Repeat<Uint>(0, 32)
  const BLANK_BLOCK := Block(NO_HASH, 0, Payout(0, map[], 0, 0), map[], 0)

  function BlockKey(b: Block): Hash {
    b.key
  }

  type Accounts = map<Text, Account>

  function AccountKey(a: Account): Text {
    a.key
  }

  function Less(a: Word, b: Word): Word {
    if b > a then 0 else a - b
  }

  function Found(m: Accounts, k: Text): Account {
    if k in m then m[k] else BLANK
  }

  /** Look up, add to the balance, store under the record's own key. */
  function Credited(m: Accounts, k: Text, v: Word): Accounts {
    var r := Found(m, k);
    Touched(m, k, BLANK)[r.key := r.(balance := Add(r.balance, v))]
  }

  /** Every record is stored under its own key. */
  ghost predicate OwnKeys(m: Accounts) {
    forall k :: k in m ==> m[k].key == k
  }

  ghost function Shares(m: Accounts): map<Text, nat> {
    map k | k in m :: m[k].shares
  }

  ghost function Balances(m: Accounts): map<Text, nat> {
    map k | k in m :: m[k].balance
  }

  // ---------------------------------------------------------------- settling a round

  function AfterFee(reward: Word, feePercent: nat): Word
    requires feePercent <= 100
  {
    reward * (100 - feePercent) / 100
  }

  /** Two parts in a hundred for the finder, when there is one. */
  function Bonus(finder: Text, reward: Word): Word {
    if finder == [] then 0 else reward * 2 / 100
  }

  /** A hundred times what is left after the fee is the reward times the percentage left, up to
      less than one unit. */
  lemma AfterFeeIs(reward: Word, feePercent: nat)
    requires feePercent <= 100
    ensures 100 * AfterFee(reward, feePercent) <= reward * (100 - feePercent) < 100 * AfterFee(reward, feePercent) + 100
  {
    MulMonotone(reward, 0, 100 - feePercent);
  }

  lemma BonusIs(finder: Text, reward: Word)
    ensures finder == [] ==> Bonus(finder, reward) == 0
    ensures finder != [] ==> 100 * Bonus(finder, reward) <= 2 * reward < 100 * Bonus(finder, reward) + 100
  {
  }

  /** The part of the pool a number of shares earns, rounded down and narrowed to 32 bits. */
  function Earned(shares: Word, weight: Word, pool: Word): Word {
    if weight == 0 then 0 else shares * pool / weight % UINT_LIMIT
  }

  datatype Progress = Progress(accounts: Accounts, credits: map<Text, Word>, paid: Word)

  function CreditAdded(credits: map<Text, Word>, k: Text, v: Word): map<Text, Word> {
    credits[k := Add(if k in credits then credits[k] else 0, v)]
  }

  datatype Terms = Terms(outputs: map<Text, Word>, weight: Word, pool: Word)

  function PaidOut(r: Account, k: Text, t: Terms): Account {
    if k in t.outputs then r.(balance := Less(r.balance, t.outputs[k])) else r
  }

  function SettledRecord(r: Account, k: Text, t: Terms): Account {
    var q := PaidOut(r, k, t);
    if q.shares == 0 then q else q.(balance := Add(q.balance, Earned(q.shares, t.weight, t.pool)))
  }

  function SettledKey(p: Progress, k: Text, t: Terms): Progress
    requires k in p.accounts
  {
    var r := SettledRecord(p.accounts[k], k, t);
    var accounts := if k in t.outputs || r.shares != 0 then p.accounts[r.key := r] else p.accounts;
    if r.shares == 0 then p.(accounts := accounts)
    else
      var earned := Earned(r.shares, t.weight, t.pool);
      Progress(accounts, CreditAdded(p.credits, k, earned), Add(p.paid, earned))
  }

  function SettledAll(p: Progress, keys: seq<Text>, t: Terms): Progress
    requires forall k :: k in keys ==> k in p.accounts
    decreases |keys|
  {
    if keys == [] then p else SettledAll(SettledKey(p, keys[0], t), keys[1..], t)
  }

  function Opening(m: Accounts, finder: Text, reward: Word): Progress {
    if finder == [] then Progress(m, map[], 0)
    else Progress(Credited(m, finder, Bonus(finder, reward)), map[finder := Bonus(finder, reward)], 0)
  }

  function Closed(p: Progress, finder: Text, pool: Word): Accounts {
    if pool > p.paid then Credited(p.accounts, finder, pool - p.paid) else p.accounts
  }

  ghost function TermsOf(m: Accounts, finder: Text, reward: Word, outputs: map<Text, Word>): Terms {
    Terms(outputs, Total(Shares(Opening(m, finder, reward).accounts)) % WORD_LIMIT, reward - Bonus(finder, reward))
  }

  /** The round's outcome, for keys in the order the store yields them. */
  ghost function Outcome(m: Accounts, finder: Text, reward: Word, outputs: map<Text, Word>, keys: seq<Text>): Progress
    requires Lists(keys, Opening(m, finder, reward).accounts.Keys)
  {
    var t := TermsOf(m, finder, reward, outputs);
    var p := SettledAll(Opening(m, finder, reward), keys, t);
    p.(accounts := Closed(p, finder, t.pool))
  }

  function ClearedAll(m: Accounts, keys: seq<Text>): Accounts
    requires forall k :: k in keys ==> k in m
    decreases |keys|
  {
    if keys == [] then m else ClearedAll(m[m[keys[0]].key := m[keys[0]].(shares := 0)], keys[1..])
  }

  // ---------------------------------------------------------------- refunding it

  function Removed(m: Accounts, k: Text, v: Word): Accounts {
    var r := Found(m, k);
    Touched(m, k, BLANK)[r.key := r.(balance := Less(r.balance, v))]
  }

  function CreditsRemoved(m: Accounts, keys: seq<Text>, credits: map<Text, Word>): Accounts
    requires forall k :: k in keys ==> k in credits
    decreases |keys|
  {
    if keys == [] then m else CreditsRemoved(Removed(m, keys[0], credits[keys[0]]), keys[1..], credits)
  }

  function OutputsReturned(m: Accounts, keys: seq<Text>, outputs: map<Text, Word>): Accounts
    requires forall k :: k in keys ==> k in outputs
    decreases |keys|
  {
    if keys == [] then m else OutputsReturned(Credited(m, keys[0], outputs[keys[0]]), keys[1..], outputs)
  }

  // ---------------------------------------------------------------- sums over listings

  ghost function SumOver(keys: seq<Text>, m: map<Text, nat>): nat
    requires forall k :: k in keys ==> k in m
  {
    if keys == [] then 0 else m[keys[0]] + SumOver(keys[1..], m)
  }

  lemma {:induction false} SumOverTotal(keys: seq<Text>, m: map<Text, nat>)
    requires Lists(keys, m.Keys)
    ensures SumOver(keys, m) == Total(m)
    decreases |keys|
  {
    if keys == [] {
      assert m == map[];
    } else {
      var k := keys[0];
      TotalRemove(m, k);
      assert keys == [k] + keys[1..];
      assert Lists(keys[1..], (m - {k}).Keys);
      SumOverTotal(keys[1..], m - {k});
      SumOverSame(keys[1..], m - {k}, m);
    }
  }

  lemma {:induction false} SumOverSame(keys: seq<Text>, a: map<Text, nat>, b: map<Text, nat>)
    requires forall k :: k in keys ==> k in a && k in b && a[k] == b[k]
    ensures SumOver(keys, a) == SumOver(keys, b)
    decreases |keys|
  {
    if keys != [] {
      SumOverSame(keys[1..], a, b);
    }
  }

  lemma {:induction false} SumOverSnoc(keys: seq<Text>, k: Text, m: map<Text, nat>)
    requires k in m && forall j :: j in keys ==> j in m
    ensures SumOver(keys + [k], m) == SumOver(keys, m) + m[k]
    decreases |keys|
  {
    if keys == [] {
      assert [k][1..] == [];
    } else {
      assert (keys + [k])[1..] == keys[1..] + [k];
      SumOverSnoc(keys[1..], k, m);
    }
  }

  // ---------------------------------------------------------------- one key at a time

  /** A record under its own key, which no other record claims, is settled once. */
  lemma {:induction false} SettledOnce(p: Progress, keys: seq<Text>, t: Terms, x: Text)
    requires Distinct(keys) && x in p.accounts && p.accounts[x].key == x
    requires forall k :: k in keys ==> k in p.accounts && (k != x ==> p.accounts[k].key != x)
    ensures var q := SettledAll(p, keys, t).accounts;
            x in q && q[x] == if x in keys then SettledRecord(p.accounts[x], x, t) else p.accounts[x]
    decreases |keys|
  {
    if keys != [] {
      var k := keys[0];
      assert keys == [k] + keys[1..] && k !in keys[1..];
      SettledOnce(SettledKey(p, k, t), keys[1..], t, x);
    }
  }

  /** Strays do not matter to the weight: a record not under its own key is blank apart from its
      balance, and so is the nameless record it would overwrite. */
  ghost predicate Quiet(m: Accounts) {
    && (forall k :: k in m ==> m[k].key == k || (m[k].key == [] && m[k].shares == 0))
    && (OwnKeys(m) || ([] in m && m[[]].key == [] && m[[]].shares == 0))
  }

  lemma RecordKept(r: Account, k: Text, t: Terms)
    ensures SettledRecord(r, k, t).key == r.key && SettledRecord(r, k, t).shares == r.shares
  {
  }

  lemma StoreQuiet(m: Accounts, k: Text, r: Account)
    requires Quiet(m) && k in m && r.key == m[k].key && r.shares == m[k].shares
    ensures r.key in m && m[r.key].shares == r.shares
    ensures Quiet(m[r.key := r])
  {
  }

  lemma StoreKeepsShares(m: Accounts, k: Text, r: Account)
    requires k in m && m[k].shares == r.shares
    ensures m[k := r].Keys == m.Keys && Shares(m[k := r]) == Shares(m)
  {
    assert m[k := r].Keys == m.Keys;
  }

  lemma StepKeepsShares(p: Progress, k: Text, t: Terms)
    requires k in p.accounts && Quiet(p.accounts)
    ensures var q := SettledKey(p, k, t);
            q.accounts.Keys == p.accounts.Keys && Shares(q.accounts) == Shares(p.accounts) && Quiet(q.accounts)
  {
    RecordKept(p.accounts[k], k, t);
    hide SettledRecord, Quiet, Shares;
    var r := SettledRecord(p.accounts[k], k, t);
    StoreQuiet(p.accounts, k, r);
    StoreKeepsShares(p.accounts, r.key, r);
  }

  ghost function EarnedMap(m: Accounts, t: Terms): map<Text, nat> {
    map k | k in m :: Earned(m[k].shares, t.weight, t.pool)
  }

  lemma EarnedMapOfShares(a: Accounts, b: Accounts, t: Terms)
    requires Shares(a) == Shares(b)
    ensures EarnedMap(a, t) == EarnedMap(b, t)
  {
    assert a.Keys == Shares(a).Keys == b.Keys;
    assert forall k :: k in a ==> a[k].shares == Shares(a)[k] == b[k].shares;
  }

  lemma StepPays(p: Progress, k: Text, t: Terms)
    requires k in p.accounts && p.paid + EarnedMap(p.accounts, t)[k] < WORD_LIMIT
    ensures SettledKey(p, k, t).paid == p.paid + EarnedMap(p.accounts, t)[k]
  {
    NothingForNothing(t);
    RecordKept(p.accounts[k], k, t);
    hide SettledRecord, Earned;
  }

  lemma NothingForNothing(t: Terms)
    ensures Earned(0, t.weight, t.pool) == 0
  {
    if t.weight != 0 {
      DivModUnique(0 * t.pool, t.weight, 0, 0);
    }
  }

  lemma {:induction false} SettledPays(p: Progress, keys: seq<Text>, t: Terms)
    requires Quiet(p.accounts) && forall k :: k in keys ==> k in p.accounts
    requires p.paid + SumOver(keys, EarnedMap(p.accounts, t)) < WORD_LIMIT
    ensures SettledAll(p, keys, t).paid == p.paid + SumOver(keys, EarnedMap(p.accounts, t))
    ensures SettledAll(p, keys, t).accounts.Keys == p.accounts.Keys
    decreases |keys|
  {
    if keys != [] {
      hide Quiet, Shares;
      var q := SettledKey(p, keys[0], t);
      StepKeepsShares(p, keys[0], t);
      EarnedMapOfShares(p.accounts, q.accounts, t);
      StepPays(p, keys[0], t);
      hide SettledKey, EarnedMap;
      SettledPays(q, keys[1..], t);
    }
  }

  lemma {:induction false} SettledCredits(p: Progress, keys: seq<Text>, t: Terms, x: Text)
    requires Quiet(p.accounts) && Distinct(keys) && forall k :: k in keys ==> k in p.accounts
    ensures var c := SettledAll(p, keys, t).credits;
            var earns := x in keys && p.accounts[x].shares != 0;
            && (x in c <==> x in p.credits || earns)
            && At<Text>(c, x) == if earns then Add(At<Text>(p.credits, x), Earned(p.accounts[x].shares, t.weight, t.pool))
                                 else At<Text>(p.credits, x)
    decreases |keys|
  {
    if keys != [] {
      hide Quiet, Earned, SettledRecord;
      var q := SettledKey(p, keys[0], t);
      StepKeepsShares(p, keys[0], t);
      RecordKept(p.accounts[keys[0]], keys[0], t);
      assert keys == [keys[0]] + keys[1..] && keys[0] !in keys[1..];
      if x in keys {
        assert Shares(q.accounts)[x] == Shares(p.accounts)[x];
      }
      SettledCredits(q, keys[1..], t, x);
    }
  }

  // ---------------------------------------------------------------- floors

  lemma EarnedIsFloor(shares: Word, weight: Word, pool: Word)
    requires shares <= weight && 0 < weight && pool < UINT_LIMIT
    ensures Earned(shares, weight, pool) <= pool
    ensures weight * Earned(shares, weight, pool) <= shares * pool < weight * Earned(shares, weight, pool) + weight
  {
    var x := shares * pool;
    var q := x / weight;
    assert x == weight * q + x % weight;
    assert x <= weight * pool by {
      MulMonotone(pool, shares, weight);
    }
    if q > pool {
      Distribute(weight, pool, q - pool);
      MulAtLeast(weight, q - pool);
      assert false;
    }
    assert q >= 0 by {
      if q < 0 {
        MulMonotone(weight, q, -1);
        assert false;
      }
    }
  }

  /** A share of s in weight parts of the pool bounds what is earned. */
  ghost predicate WithinShare(weight: nat, earned: nat, s: nat, pool: nat) {
    weight * earned <= s * pool
  }

  lemma FloorsAdd(weight: nat, a: nat, b: nat, s: nat, t: nat, pool: nat)
    requires WithinShare(weight, a, s, pool) && WithinShare(weight, b, t, pool)
    ensures WithinShare(weight, a + b, s + t, pool)
  {
    Distribute(weight, a, b);
    Distribute(pool, s, t);
  }

  /** Each credit stays within its part of the pool. */
  ghost predicate EachWithin(shares: map<Text, nat>, earned: map<Text, nat>, weight: nat, pool: nat) {
    shares.Keys == earned.Keys && forall k :: k in shares ==> WithinShare(weight, earned[k], shares[k], pool)
  }

  lemma OthersWithin(shares: map<Text, nat>, earned: map<Text, nat>, weight: nat, pool: nat, k: Text)
    requires EachWithin(shares, earned, weight, pool) && k in shares
    ensures k in earned && WithinShare(weight, earned[k], shares[k], pool)
    ensures EachWithin(shares - {k}, earned - {k}, weight, pool)
  {
    hide WithinShare;
  }

  lemma OneMoreWithin(shares: map<Text, nat>, earned: map<Text, nat>, weight: nat, pool: nat, k: Text)
    requires k in shares && k in earned && WithinShare(weight, earned[k], shares[k], pool)
    requires WithinShare(weight, Total(earned - {k}), Total(shares - {k}), pool)
    ensures WithinShare(weight, Total(earned), Total(shares), pool)
  {
    hide *;
    TotalRemove(shares, k);
    TotalRemove(earned, k);
    FloorsAdd(weight, earned[k], Total(earned - {k}), shares[k], Total(shares - {k}), pool);
  }

  /** The floors together stay within the pool. */
  lemma {:induction false} FloorsWithin(shares: map<Text, nat>, earned: map<Text, nat>, weight: nat, pool: nat)
    requires EachWithin(shares, earned, weight, pool)
    ensures WithinShare(weight, Total(earned), Total(shares), pool)
    decreases |shares|
  {
    if shares == map[] {
      assert earned == map[];
    } else {
      var k :| k in shares;
      hide *;
      OthersWithin(shares, earned, weight, pool, k);
      FloorsWithin(shares - {k}, earned - {k}, weight, pool);
      OneMoreWithin(shares, earned, weight, pool, k);
    }
  }

  lemma CancelWeight(weight: nat, a: nat, b: nat)
    requires weight > 0 && weight * a <= weight * b
    ensures a <= b
  {
    if a > b {
      Distribute(weight, b, a - b);
      MulAtLeast(weight, a - b);
      assert false;
    }
  }

  lemma EarnedWithinPool(m: Accounts, t: Terms)
    requires t.weight == Total(Shares(m)) && t.pool < UINT_LIMIT
    ensures Total(EarnedMap(m, t)) <= t.pool
  {
    var shares, earned := Shares(m), EarnedMap(m, t);
    if t.weight == 0 {
      AllZero(earned);
    } else {
      forall k | k in m
        ensures WithinShare(t.weight, earned[k], shares[k], t.pool)
      {
        TotalBounds(shares, k);
        EarnedIsFloor(m[k].shares, t.weight, t.pool);
      }
      FloorsWithin(shares, earned, t.weight, t.pool);
      CancelWeight(t.weight, Total(earned), t.pool);
    }
  }

  lemma {:induction false} AllZero(m: map<Text, nat>)
    requires forall k :: k in m ==> m[k] == 0
    ensures Total(m) == 0
    decreases |m|
  {
    if m != map[] {
      var k :| k in m;
      TotalRemove(m, k);
      AllZero(m - {k});
    }
  }
}
