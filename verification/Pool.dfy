/** The pool's handlers over its two record stores and the pending payout transaction, each one
    step, and what every step keeps. */
module Pool {
  import opened Bytes
  import opened Coinbase
  import opened Database
  import opened Filling
  import opened Ledger
  import opened LedgerLaws
  import opened RefundLaws
  import opened Rewards
  import opened Words

  function Payouts(m: Accounts): map<Text, Word> {
    map k | k in m :: m[k].balance
  }

  // ---------------------------------------------------------------- what the steps keep

  ghost predicate Covered(b: Block, known: set<Text>) {
    b.coinbase.outputs.Keys <= known && b.credits.Keys <= known
  }

  /** Records under their own keys, and every payout and credit, pending or recorded, naming an
      account on file. */
  ghost predicate Orderly(m: Accounts, blocks: map<Hash, Block>, outputs: set<Text>) {
    && Named(m) && outputs <= m.Keys
    && forall h :: h in blocks ==> Covered(blocks[h], m.Keys)
  }

  /** The same with the finder on file. */
  ghost predicate Books(m: Accounts, blocks: map<Hash, Block>, outputs: set<Text>, finder: Text) {
    Orderly(m, blocks, outputs) && finder in m
  }

  lemma {:induction false} SettledKeeps(p: Progress, keys: seq<Text>, t: Terms)
    requires OwnKeys(p.accounts) && p.credits.Keys <= p.accounts.Keys && forall k :: k in keys ==> k in p.accounts
    ensures var q := SettledAll(p, keys, t);
            OwnKeys(q.accounts) && q.accounts.Keys == p.accounts.Keys && q.credits.Keys <= p.accounts.Keys
    decreases |keys|
  {
    if keys != [] {
      var q := SettledKey(p, keys[0], t);
      assert q.accounts.Keys == p.accounts.Keys;
      SettledKeeps(q, keys[1..], t);
    }
  }

  lemma OutcomeKeeps(m: Accounts, finder: Text, reward: Word, outputs: map<Text, Word>, keys: seq<Text>)
    requires Named(m) && finder in m && Lists(keys, Opening(m, finder, reward).accounts.Keys)
    ensures var q := Outcome(m, finder, reward, outputs, keys);
            OwnKeys(q.accounts) && q.accounts.Keys == m.Keys && q.credits.Keys <= m.Keys
  {
    var o := Opening(m, finder, reward);
    var t := TermsOf(m, finder, reward, outputs);
    assert o.accounts.Keys == m.Keys;
    SettledKeeps(o, keys, t);
    var p := SettledAll(o, keys, t);
    hide SettledAll, TermsOf, Opening;
    assert Closed(p, finder, t.pool).Keys == m.Keys;
  }

  lemma NewRoundKeeps(m: Accounts, finder: Text, reward: Word, outputs: map<Text, Word>, keys: seq<Text>, cleared: seq<Text>)
    requires Named(m) && finder in m && Lists(keys, Opening(m, finder, reward).accounts.Keys)
    requires Lists(cleared, Outcome(m, finder, reward, outputs, keys).accounts.Keys)
    ensures var o := Outcome(m, finder, reward, outputs, keys);
            && (forall k :: k in cleared ==> k in o.accounts) && Named(ClearedAll(o.accounts, cleared))
            && ClearedAll(o.accounts, cleared).Keys == m.Keys && o.credits.Keys <= m.Keys
  {
    OutcomeKeeps(m, finder, reward, outputs, keys);
    ClearingKeepsBalances(Outcome(m, finder, reward, outputs, keys).accounts, cleared);
    hide Outcome, ClearedAll, Opening, Balances;
  }

  lemma NewRoundBooks(m: Accounts, blocks: map<Hash, Block>, finder: Text, reward: Word, c: Payout, keys: seq<Text>,
                      cleared: seq<Text>, hash: Hash, b: Block)
    requires Books(m, blocks, c.outputs.Keys, finder) && Lists(keys, Opening(m, finder, reward).accounts.Keys)
    requires Lists(cleared, Outcome(m, finder, reward, c.outputs, keys).accounts.Keys)
    requires b.coinbase == c && b.credits == Outcome(m, finder, reward, c.outputs, keys).credits
    ensures var o := Outcome(m, finder, reward, c.outputs, keys);
            && (forall k :: k in cleared ==> k in o.accounts)
            && Books(ClearedAll(o.accounts, cleared), blocks[hash := b], c.outputs.Keys, finder)
  {
    NewRoundKeeps(m, finder, reward, c.outputs, keys, cleared);
    hide Outcome, ClearedAll, Lists, Opening, Named;
  }

  function FoundBlock(blocks: map<Hash, Block>, hash: Hash): Block {
    if hash in blocks then blocks[hash] else BLANK_BLOCK
  }

  /** Both stores after a refund; a block of value zero is left alone. */
  ghost function RefundOf(m: Accounts, blocks: map<Hash, Block>, hash: Hash, creditKeys: seq<Text>, outputKeys: seq<Text>):
    (Accounts, map<Hash, Block>)
    requires Lists(creditKeys, FoundBlock(blocks, hash).credits.Keys)
    requires Lists(outputKeys, FoundBlock(blocks, hash).coinbase.outputs.Keys)
  {
    var b, looked := FoundBlock(blocks, hash), Touched(blocks, hash, BLANK_BLOCK);
    if b.coinbaseValue == 0 then (m, looked)
    else (Refunded(m, b.credits, b.coinbase.outputs, creditKeys, outputKeys), looked[b.key := b.(coinbaseValue := 0)])
  }

  lemma RefundOrderly(m: Accounts, blocks: map<Hash, Block>, outputs: set<Text>, hash: Hash,
                      creditKeys: seq<Text>, outputKeys: seq<Text>)
    requires Orderly(m, blocks, outputs)
    requires Lists(creditKeys, FoundBlock(blocks, hash).credits.Keys)
    requires Lists(outputKeys, FoundBlock(blocks, hash).coinbase.outputs.Keys)
    ensures var (n, recorded) := RefundOf(m, blocks, hash, creditKeys, outputKeys);
            Orderly(n, recorded, outputs) && n.Keys == m.Keys
  {
    var b := FoundBlock(blocks, hash);
    assert Covered(b, m.Keys);
    RefundKeeps(m, b.credits, b.coinbase.outputs, creditKeys, outputKeys);
    hide Refunded, Lists;
  }

  lemma ClearedHead(m: Accounts, keys: seq<Text>)
    requires keys != [] && forall k :: k in keys ==> k in m
    ensures ClearedAll(m, keys) == ClearedAll(m[m[keys[0]].key := m[keys[0]].(shares := 0)], keys[1..])
  {
  }

  lemma ClearedNone(m: Accounts)
    ensures ClearedAll(m, []) == m
  {
  }

  lemma NothingSummed(m: map<Text, nat>)
    ensures SumOver([], m) == 0
  {
  }

  lemma InAccounts(m: Accounts, k: Text)
    requires k in Shares(m)
    ensures k in m
  {
  }

  lemma OpeningIs(m: Accounts, finder: Text, after: Word, outputs: map<Text, Word>)
    ensures 0 <= Bonus(finder, after) <= after
    ensures TermsOf(m, finder, after, outputs)
            == Terms(outputs, Total(Shares(Opening(m, finder, after).accounts)) % WORD_LIMIT, after - Bonus(finder, after))
    ensures var o := Opening(m, finder, after); o == Progress(o.accounts, o.credits, 0)
  {
  }

  lemma OutcomeIs(m: Accounts, finder: Text, after: Word, outputs: map<Text, Word>, keys: seq<Text>)
    requires Lists(keys, Opening(m, finder, after).accounts.Keys)
    ensures forall k :: k in keys ==> k in Opening(m, finder, after).accounts
    ensures var t := TermsOf(m, finder, after, outputs);
            var p := SettledAll(Opening(m, finder, after), keys, t);
            var o := Outcome(m, finder, after, outputs, keys);
            o.accounts == Closed(Progress(p.accounts, p.credits, p.paid), finder, t.pool) && o.credits == p.credits
  {
  }

  // ---------------------------------------------------------------- the pool

  class Pool {
    const accounts: Database<Text, Account>
    const blocks: Database<Hash, Block>
    const coinbase: Coinbase
    const feePercent: nat
    var finder: Text
    var currentRound: Uint
    var roundReward: Word
    var submission: Hash
    var coinbasePending: bool

    constructor (accounts: Database<Text, Account>, blocks: Database<Hash, Block>, feePercent: nat, finder: Text)
      requires accounts.keyOf == AccountKey && accounts.blank == BLANK
      requires blocks.keyOf == BlockKey && blocks.blank == BLANK_BLOCK && feePercent <= 100
      ensures this.accounts == accounts && this.blocks == blocks && this.finder == finder
      ensures Wired() && fresh(coinbase) && coinbase.Value() == Payout(0, map[], 0, 0)
      ensures currentRound == 1 && !coinbasePending
      ensures Orderly(accounts.records, blocks.records, {}) ==> Tidy()
    {
      this.accounts := accounts;
      this.blocks := blocks;
      this.feePercent := feePercent;
      this.finder := finder;
      coinbase := new Coinbase();
      currentRound, roundReward, submission, coinbasePending := 1, 0, NO_HASH, false;
    }

    ghost predicate Wired() {
      && accounts.keyOf == AccountKey && accounts.blank == BLANK
      && blocks.keyOf == BlockKey && blocks.blank == BLANK_BLOCK
      && feePercent <= 100
    }

    /** What holds from the start, the finder on file or not: logins, shares, submissions and refunds
        keep it. */
    ghost predicate Tidy()
      reads this, accounts, blocks, coinbase
    {
      Wired() && Orderly(accounts.records, blocks.records, coinbase.outputs.Keys)
    }

    /** What holds from the first block on that a registered miner finds: every handler keeps it. */
    ghost predicate Valid()
      reads this, accounts, blocks, coinbase
    {
      Wired() && Books(accounts.records, blocks.records, coinbase.outputs.Keys, finder)
    }

    method SharesOf(key: Text) returns (shares: Word)
      requires Wired() && key in accounts.records
      modifies accounts`records
      ensures accounts.records == old(accounts.records)
      ensures key in Shares(accounts.records) && shares == Shares(accounts.records)[key]
    {
      var r := accounts.GetRecord(key);
      shares := r.shares;
    }

    method TotalWeight() returns (weight: Word)
      requires Wired()
      modifies accounts`records
      ensures accounts.records == old(accounts.records)
      ensures weight == Total(Shares(accounts.records)) % WORD_LIMIT
    {
      var keys := accounts.GetKeys();
      SumOverTotal(keys, Shares(accounts.records));
      weight := WeightOf(keys);
    }

    method WeightOf(keys: seq<Text>) returns (weight: Word)
      requires Wired() && forall k :: k in keys ==> k in Shares(accounts.records)
      modifies accounts`records
      ensures accounts.records == old(accounts.records)
      ensures weight == SumOver(keys, Shares(accounts.records)) % WORD_LIMIT
    {
      hide Total, SumOver, Shares;
      weight := 0;
      var i := 0;
      ghost var shares := Shares(accounts.records);
      NothingSummed(shares);
      while i < |keys|
        invariant 0 <= i <= |keys| && accounts.records == old(accounts.records)
        invariant weight == SumOver(keys[..i], shares) % WORD_LIMIT
      {
        InAccounts(accounts.records, keys[i]);
        var w := SharesOf(keys[i]);
        SumOverSnoc(keys[..i], keys[i], shares);
        AddWraps(SumOver(keys[..i], shares), w);
        assert keys[..i + 1] == keys[..i] + [keys[i]];
        weight := Add(weight, w);
        i := i + 1;
      }
      assert keys[..i] == keys;
    }

    method CreditAccount(key: Text, value: Word)
      requires Wired()
      modifies accounts`records
      ensures accounts.records == Credited(old(accounts.records), key, value)
    {
      var r := accounts.GetRecord(key);
      accounts.UpdateRecord(r.(balance := Add(r.balance, value)));
    }

    /** The body of the settling loop, for one key. */
    method SettleAccount(key: Text, weight: Word, pool: Word, credits: map<Text, Word>, paid: Word)
      returns (newCredits: map<Text, Word>, newPaid: Word)
      requires Wired() && key in accounts.records
      modifies accounts`records
      ensures Progress(accounts.records, newCredits, newPaid)
              == SettledKey(Progress(old(accounts.records), credits, paid), key, Terms(coinbase.outputs, weight, pool))
    {
      newCredits, newPaid := credits, paid;
      var r := accounts.GetRecord(key);
      if key in coinbase.outputs {
        if coinbase.outputs[key] > r.balance {
          r := r.(balance := 0);
        } else {
          r := r.(balance := r.balance - coinbase.outputs[key]);
        }
        accounts.UpdateRecord(r);
      }
      if r.shares == 0 {
        return;
      }
      var credit := Earned(r.shares, weight, pool);
      r := r.(balance := Add(r.balance, credit));
      newPaid := Add(paid, credit);
      newCredits := CreditAdded(credits, key, credit);
      accounts.UpdateRecord(r);
    }

    method UpdateBalances(reward: Word) returns (ghost keys: seq<Text>)
      requires Wired()
      modifies accounts`records, blocks`records
      ensures Lists(keys, Opening(old(accounts.records), finder, AfterFee(reward, feePercent)).accounts.Keys)
      ensures var o := Outcome(old(accounts.records), finder, AfterFee(reward, feePercent), coinbase.outputs, keys);
              && accounts.records == o.accounts
              && blocks.records == old(blocks.records)[submission :=
                   Block(submission, Add(coinbase.maxValue, coinbase.poolFee), coinbase.Value(), o.credits, currentRound)]
    {
      var credits;
      credits, keys := SettleRound(AfterFee(reward, feePercent));
      hide AfterFee, Opening, Outcome;
      blocks.UpdateRecord(Block(submission, Add(coinbase.maxValue, coinbase.poolFee), coinbase.Value(), credits, currentRound));
    }

    method SettleRound(after: Word) returns (credits: map<Text, Word>, ghost keys: seq<Text>)
      requires Wired()
      modifies accounts`records
      ensures Lists(keys, Opening(old(accounts.records), finder, after).accounts.Keys)
      ensures var o := Outcome(old(accounts.records), finder, after, coinbase.outputs, keys);
              accounts.records == o.accounts && credits == o.credits
    {
      hide *;
      ghost var start := accounts.records;
      credits := CreditFinder(after);
      OpeningIs(start, finder, after, coinbase.outputs);
      var weight := TotalWeight();
      var left := after - Bonus(finder, after);
      var listed := accounts.GetKeys();
      keys := listed;
      ListsOnly(listed, accounts.records.Keys);
      var paid;
      credits, paid := SettleAccounts(listed, weight, left, credits);
      OutcomeIs(start, finder, after, coinbase.outputs, listed);
      GiveRemainder(left, paid, credits);
    }

    /** The finder's bonus, credited and put on record. */
    method CreditFinder(after: Word) returns (credits: map<Text, Word>)
      requires Wired()
      modifies accounts`records
      ensures Progress(accounts.records, credits, 0) == Opening(old(accounts.records), finder, after)
    {
      credits := map[];
      if finder != [] {
        var bonus := after * 2 / 100;
        CreditAccount(finder, bonus);
        credits := CreditAdded(credits, finder, bonus);
      }
    }

    method GiveRemainder(left: Word, paid: Word, ghost credits: map<Text, Word>)
      requires Wired()
      modifies accounts`records
      ensures accounts.records == Closed(Progress(old(accounts.records), credits, paid), finder, left)
    {
      if left > paid {
        CreditAccount(finder, left - paid);
      }
    }

    method SettleAccounts(keys: seq<Text>, weight: Word, pool: Word, opening: map<Text, Word>)
      returns (credits: map<Text, Word>, paid: Word)
      requires Wired() && forall k :: k in keys ==> k in accounts.records
      modifies accounts`records
      ensures Progress(accounts.records, credits, paid)
              == SettledAll(Progress(old(accounts.records), opening, 0), keys, Terms(coinbase.outputs, weight, pool))
    {
      hide SettledKey;
      credits, paid := opening, 0;
      ghost var t := Terms(coinbase.outputs, weight, pool);
      ghost var goal := SettledAll(Progress(accounts.records, opening, 0), keys, t);
      var i := 0;
      assert keys[0..] == keys;
      while i < |keys|
        invariant 0 <= i <= |keys| && forall k :: k in keys ==> k in accounts.records
        invariant SettledAll(Progress(accounts.records, credits, paid), keys[i..], t) == goal
      {
        ghost var p := Progress(accounts.records, credits, paid);
        assert keys[i..][0] == keys[i] && keys[i..][1..] == keys[i + 1..];
        SettlingKeepsKeys(p, keys[i], t);
        credits, paid := SettleAccount(keys[i], weight, pool, credits, paid);
        i := i + 1;
      }
    }

    method ClearAccount(key: Text)
      requires Wired() && key in accounts.records
      modifies accounts`records
      ensures accounts.records == old(accounts.records)[old(accounts.records)[key].key := old(accounts.records)[key].(shares := 0)]
    {
      var r := accounts.GetRecord(key);
      accounts.UpdateRecord(r.(shares := 0));
    }

    method ClearShares() returns (ghost keys: seq<Text>)
      requires Wired()
      modifies accounts`records
      ensures Lists(keys, old(accounts.records).Keys)
      ensures accounts.records == ClearedAll(old(accounts.records), keys)
    {
      var listed := accounts.GetKeys();
      keys := listed;
      ClearEach(listed);
    }

    method ClearEach(keys: seq<Text>)
      requires Wired() && forall k :: k in keys ==> k in accounts.records
      modifies accounts`records
      ensures accounts.records == ClearedAll(old(accounts.records), keys)
    {
      hide ClearedAll;
      var i := 0;
      ghost var goal := ClearedAll(accounts.records, keys);
      assert keys[0..] == keys;
      while i < |keys|
        invariant 0 <= i <= |keys| && forall k :: k in keys ==> k in accounts.records
        invariant ClearedAll(accounts.records, keys[i..]) == goal
      {
        assert keys[i..][0] == keys[i] && keys[i..][1..] == keys[i + 1..];
        ClearedHead(accounts.records, keys[i..]);
        ClearAccount(keys[i]);
        i := i + 1;
      }
      ClearedNone(accounts.records);
      assert keys[i..] == [];
    }

    method NewRound() returns (ghost keys: seq<Text>, ghost cleared: seq<Text>)
      requires Wired()
      modifies accounts`records, blocks`records, `coinbasePending, `currentRound
      ensures Lists(keys, Opening(old(accounts.records), finder, AfterFee(roundReward, feePercent)).accounts.Keys)
      ensures var o := Outcome(old(accounts.records), finder, AfterFee(roundReward, feePercent), coinbase.outputs, keys);
              && Lists(cleared, o.accounts.Keys) && accounts.records == ClearedAll(o.accounts, cleared)
              && blocks.records == old(blocks.records)[submission :=
                   Block(submission, Add(coinbase.maxValue, coinbase.poolFee), coinbase.Value(), o.credits, old(currentRound))]
      ensures coinbasePending && currentRound == (old(currentRound) + 1) % UINT_LIMIT
      ensures old(Valid()) ==> Valid()
    {
      hide AfterFee, Books, ClearedAll, Lists, Opening, Outcome;
      coinbasePending := true;
      keys, cleared := SettleAndClear();
      currentRound := (currentRound + 1) % UINT_LIMIT;
    }

    /** The stores' part of a new round. */
    method SettleAndClear() returns (ghost keys: seq<Text>, ghost cleared: seq<Text>)
      requires Wired()
      modifies accounts`records, blocks`records
      ensures Lists(keys, Opening(old(accounts.records), finder, AfterFee(roundReward, feePercent)).accounts.Keys)
      ensures var o := Outcome(old(accounts.records), finder, AfterFee(roundReward, feePercent), coinbase.outputs, keys);
              && Lists(cleared, o.accounts.Keys) && accounts.records == ClearedAll(o.accounts, cleared)
              && blocks.records == old(blocks.records)[submission :=
                   Block(submission, Add(coinbase.maxValue, coinbase.poolFee), coinbase.Value(), o.credits, currentRound)]
      ensures old(Valid()) ==> Valid()
    {
      ghost var valid := Valid();
      ghost var start, recorded := accounts.records, blocks.records;
      ghost var after := AfterFee(roundReward, feePercent);
      assert valid ==> Books(start, recorded, coinbase.Value().outputs.Keys, finder);
      assert coinbase.Value().outputs == coinbase.outputs;
      hide *;
      keys := UpdateBalances(roundReward);
      cleared := ClearShares();
      if valid {
        ghost var o := Outcome(start, finder, after, coinbase.outputs, keys);
        Renew(start, recorded, after, keys, cleared, submission,
              Block(submission, Add(coinbase.maxValue, coinbase.poolFee), coinbase.Value(), o.credits, currentRound));
      }
    }

    /** The stores of a new round hold sound books. */
    lemma Renew(m: Accounts, recorded: map<Hash, Block>, after: Word, keys: seq<Text>, cleared: seq<Text>, hash: Hash, b: Block)
      requires Wired() && Books(m, recorded, coinbase.Value().outputs.Keys, finder)
      requires Lists(keys, Opening(m, finder, after).accounts.Keys)
      requires var o := Outcome(m, finder, after, coinbase.Value().outputs, keys);
               && Lists(cleared, o.accounts.Keys) && accounts.records == ClearedAll(o.accounts, cleared)
               && b.credits == o.credits
      requires blocks.records == recorded[hash := b] && b.coinbase == coinbase.Value()
      ensures Valid()
    {
      hide *;
      NewRoundBooks(m, recorded, finder, after, coinbase.Value(), keys, cleared, hash, b);
      Establish();
    }

    lemma Establish()
      requires Wired() && Books(accounts.records, blocks.records, coinbase.Value().outputs.Keys, finder)
      ensures Valid()
    {
    }

    method RefundPayouts(hash: Hash) returns (ghost creditKeys: seq<Text>, ghost outputKeys: seq<Text>)
      requires Wired()
      modifies accounts`records, blocks`records
      ensures var b := FoundBlock(old(blocks.records), hash);
              && Lists(creditKeys, b.credits.Keys) && Lists(outputKeys, b.coinbase.outputs.Keys)
              && (accounts.records, blocks.records)
                 == RefundOf(old(accounts.records), old(blocks.records), hash, creditKeys, outputKeys)
      ensures (old(Tidy()) ==> Tidy()) && (old(Valid()) ==> Valid())
    {
      ghost var m, recorded := accounts.records, blocks.records;
      creditKeys, outputKeys := RefundRecorded(hash);
      if Orderly(m, recorded, coinbase.outputs.Keys) {
        RefundOrderly(m, recorded, coinbase.outputs.Keys, hash, creditKeys, outputKeys);
      }
      hide Refunded, Touched, Lists, Orderly, FoundBlock;
    }

    method RefundRecorded(hash: Hash) returns (ghost creditKeys: seq<Text>, ghost outputKeys: seq<Text>)
      requires Wired()
      modifies accounts`records, blocks`records
      ensures var b := FoundBlock(old(blocks.records), hash);
              && Lists(creditKeys, b.credits.Keys) && Lists(outputKeys, b.coinbase.outputs.Keys)
              && (accounts.records, blocks.records)
                 == RefundOf(old(accounts.records), old(blocks.records), hash, creditKeys, outputKeys)
    {
      var block := blocks.GetRecord(hash);
      var listed := ListKeys(block.credits);
      creditKeys := listed;
      var others := ListKeys(block.coinbase.outputs);
      outputKeys := others;
      if block.coinbaseValue == 0 {
        return;
      }
      RemoveCredits(listed, block.credits);
      ReturnOutputs(others, block.coinbase.outputs);
      blocks.UpdateRecord(block.(coinbaseValue := 0));
    }

    method RemoveCredit(key: Text, value: Word)
      requires Wired()
      modifies accounts`records
      ensures accounts.records == Removed(old(accounts.records), key, value)
    {
      var r := accounts.GetRecord(key);
      if value > r.balance {
        r := r.(balance := 0);
      } else {
        r := r.(balance := r.balance - value);
      }
      accounts.UpdateRecord(r);
    }

    method RemoveCredits(keys: seq<Text>, credits: map<Text, Word>)
      requires Wired() && forall k :: k in keys ==> k in credits
      modifies accounts`records
      ensures accounts.records == CreditsRemoved(old(accounts.records), keys, credits)
    {
      var i := 0;
      assert keys[0..] == keys;
      while i < |keys|
        invariant 0 <= i <= |keys|
        invariant CreditsRemoved(accounts.records, keys[i..], credits) == CreditsRemoved(old(accounts.records), keys, credits)
      {
        assert keys[i..][0] == keys[i] && keys[i..][1..] == keys[i + 1..];
        RemoveCredit(keys[i], credits[keys[i]]);
        i := i + 1;
      }
    }

    method ReturnOutputs(keys: seq<Text>, outputs: map<Text, Word>)
      requires Wired() && forall k :: k in keys ==> k in outputs
      modifies accounts`records
      ensures accounts.records == OutputsReturned(old(accounts.records), keys, outputs)
    {
      var i := 0;
      assert keys[0..] == keys;
      while i < |keys|
        invariant 0 <= i <= |keys|
        invariant OutputsReturned(accounts.records, keys[i..], outputs) == OutputsReturned(old(accounts.records), keys, outputs)
      {
        assert keys[i..][0] == keys[i] && keys[i..][1..] == keys[i + 1..];
        CreditAccount(keys[i], outputs[keys[i]]);
        i := i + 1;
      }
    }

    /** The reward of the next block arrives; the order is the accounts', highest balance first. */
    method BlockReward(reward: Word, order: seq<Text>)
      requires Wired() && Lists(order, accounts.records.Keys)
      modifies this`roundReward, this`coinbasePending, coinbase, accounts`records
      ensures accounts.records == old(accounts.records) && roundReward == reward
      ensures if currentRound > 1 && old(coinbasePending)
              then coinbasePending && coinbase.Value() == Completed(Filled(Reset(reward, feePercent), order, Payouts(accounts.records)), finder)
              else !coinbasePending && coinbase.Value() == old(coinbase.Value())
      ensures coinbasePending ==>
                && 100 * coinbase.poolFee <= reward * feePercent < 100 * coinbase.poolFee + 100
                && 100 * coinbase.maxValue - 100 < reward * (100 - feePercent) <= 100 * coinbase.maxValue
      ensures old(Valid()) ==> Valid()
    {
      roundReward := reward;
      if currentRound > 1 && coinbasePending {
        coinbase.poolFee := PoolFee(reward, feePercent);
        FeeWithin(reward, feePercent);
        coinbase.Reset(Sub(reward, coinbase.poolFee));
        Fill(order);
        Complete();
        FilledKeys(Reset(reward, feePercent), order, Payouts(accounts.records));
        RewardTerms(reward, feePercent, order, Payouts(accounts.records), finder);
      } else {
        coinbasePending := false;
      }
    }

    /** One account's payout; the filling stops when it does not fit in full. */
    method PayAccount(address: Text) returns (stop: bool)
      requires Wired() && address in accounts.records
      modifies coinbase, accounts`records
      ensures accounts.records == old(accounts.records)
      ensures coinbase.Value() == HeadPaid(old(coinbase.Value()), address, accounts.records[address].balance)
      ensures stop <==> accounts.records[address].balance > 0
                        && Attempt(old(coinbase.Value()), address, accounts.records[address].balance).1 < 0
    {
      hide Attempt;
      stop := false;
      var r := accounts.GetRecord(address);
      if r.balance > 0 {
        var value := coinbase.AddTransaction(address, r.balance);
        if value < 0 {
          value := coinbase.AddTransaction(address, (r.balance + value) % WORD_LIMIT);
          stop := true;
        }
      }
    }

    method Fill(order: seq<Text>)
      requires Wired() && forall k :: k in order ==> k in accounts.records
      modifies coinbase, accounts`records
      ensures accounts.records == old(accounts.records)
      ensures coinbase.Value() == Filled(old(coinbase.Value()), order, Payouts(accounts.records))
    {
      hide Attempt, HeadPaid;
      var i := 0;
      ghost var balances := Payouts(accounts.records);
      ghost var goal := Filled(coinbase.Value(), order, balances);
      assert order[0..] == order;
      while i < |order|
        invariant 0 <= i <= |order| && accounts.records == old(accounts.records)
        invariant Filled(coinbase.Value(), order[i..], balances) == goal
      {
        assert order[i..][0] == order[i] && order[i..][1..] == order[i + 1..];
        FilledHead(coinbase.Value(), order[i..], balances);
        var stop := PayAccount(order[i]);
        if stop {
          break;
        }
        i := i + 1;
      }
    }

    method Complete()
      modifies coinbase
      ensures coinbase.Value() == Completed(old(coinbase.Value()), finder)
    {
      var complete := coinbase.IsComplete();
      if !complete {
        var bonus := coinbase.GetRemainder();
        bonus := coinbase.AddTransaction(finder, bonus % WORD_LIMIT);
      }
    }

    /** A miner logs in under a valid, hence nonempty, address. */
    method Login(address: Text)
      requires Wired() && address != []
      modifies accounts`records
      ensures accounts.records == Touched(old(accounts.records), address, Account(address, 0, 0, 0))
      ensures (old(Tidy()) ==> Tidy()) && (old(Valid()) ==> Valid())
    {
      var has := accounts.HasKey(address);
      if !has {
        accounts.UpdateRecord(Account(address, 0, 0, 0));
      }
    }

    /** A share's weight is added to the miner's account and stored under the record's own key. */
    method Share(address: Text, weight: Word)
      requires Wired()
      modifies accounts`records
      ensures var m := Touched(old(accounts.records), address, BLANK);
              var r := m[address];
              accounts.records == m[r.key := r.(shares := Add(r.shares, weight))]
      ensures address in old(accounts.records) ==> (old(Tidy()) ==> Tidy()) && (old(Valid()) ==> Valid())
    {
      var r := accounts.GetRecord(address);
      accounts.UpdateRecord(r.(shares := Add(r.shares, weight)));
    }

    /** A solved block is taken up; only one at the current height makes its miner the finder. */
    method SubmitBlock(address: Text, hash: Hash, current: bool)
      requires Wired()
      modifies this`finder, this`submission
      ensures submission == hash && finder == if current then address else old(finder)
      ensures old(Tidy()) ==> Tidy()
      ensures old(Tidy()) && current && address in accounts.records ==> Valid()
      ensures old(Valid()) && address in accounts.records ==> Valid()
    {
      submission := hash;
      if current {
        finder := address;
      }
    }

    /** Refunding a block twice has the effect of refunding it once. */
    method RefundTwice(hash: Hash) returns (ghost creditKeys: seq<Text>, ghost outputKeys: seq<Text>)
      requires Wired() && hash in blocks.records && blocks.records[hash].key == hash
      modifies accounts`records, blocks`records
      ensures var b := old(blocks.records)[hash];
              if b.coinbaseValue == 0 then accounts.records == old(accounts.records) && blocks.records == old(blocks.records)
              else
                && Lists(creditKeys, b.credits.Keys) && Lists(outputKeys, b.coinbase.outputs.Keys)
                && accounts.records == Refunded(old(accounts.records), b.credits, b.coinbase.outputs, creditKeys, outputKeys)
                && blocks.records == old(blocks.records)[hash := b.(coinbaseValue := 0)]
    {
      creditKeys, outputKeys := RefundPayouts(hash);
      var _, _ := RefundPayouts(hash);
    }

    /** A round that is orphaned at once: accounts other than the finder's come back exactly when
        their payout was covered, and the finder's keeps the remainder. */
    method OrphanedRound(reward: Word)
      requires Valid() && Add(coinbase.maxValue, coinbase.poolFee) != 0
      requires Bounded(accounts.records, AfterFee(reward, feePercent))
      requires Spare(accounts.records, coinbase.outputs, AfterFee(reward, feePercent))
      modifies accounts`records, blocks`records
      ensures Valid() && accounts.records.Keys == old(accounts.records.Keys)
      ensures forall k :: k in accounts.records && k != finder ==>
                (accounts.records[k] == old(accounts.records)[k] <==> Covers(old(accounts.records), coinbase.outputs, k, 0))
      ensures var r := Remainder(old(accounts.records), finder, AfterFee(reward, feePercent), coinbase.outputs);
              var bonus := Bonus(finder, AfterFee(reward, feePercent));
              && r >= 0
              && (accounts.records[finder].balance == old(accounts.records)[finder].balance + r
                  <==> Covers(old(accounts.records), coinbase.outputs, finder, Min(bonus, r)))
    {
      ghost var start := accounts.records;
      ghost var after := AfterFee(reward, feePercent);
      ghost var keys := UpdateBalances(reward);
      ghost var outputs := coinbase.outputs;
      ghost var o := Outcome(start, finder, after, outputs, keys);
      assert blocks.records[submission].coinbaseValue != 0;
      OutcomeKeeps(start, finder, after, outputs, keys);
      assert Valid();
      ghost var creditKeys, outputKeys := RefundPayouts(submission);
      hide Outcome, Opening, Refunded, AfterFee, Remainder, Bonus, Lists, Bounded, Touched;
      assert accounts.records == RoundTrip(start, finder, after, outputs, keys, creditKeys, outputKeys);
      RefundedRound(start, finder, after, outputs, keys, creditKeys, outputKeys);
    }

    /** A refund directly after the round is skipped if and only if maximum and fee of the payout add
        up to zero, which the refund takes for a block already refunded. */
    method RoundAndRefund(reward: Word) returns (ghost keys: seq<Text>, ghost creditKeys: seq<Text>, ghost outputKeys: seq<Text>)
      requires Wired()
      modifies accounts`records, blocks`records
      ensures Lists(keys, Opening(old(accounts.records), finder, AfterFee(reward, feePercent)).accounts.Keys)
      ensures var o := Outcome(old(accounts.records), finder, AfterFee(reward, feePercent), coinbase.outputs, keys);
              if Add(coinbase.maxValue, coinbase.poolFee) == 0 then accounts.records == o.accounts
              else
                && Lists(creditKeys, o.credits.Keys) && Lists(outputKeys, coinbase.outputs.Keys)
                && accounts.records == Refunded(o.accounts, o.credits, coinbase.outputs, creditKeys, outputKeys)
    {
      keys := UpdateBalances(reward);
      creditKeys, outputKeys := RefundPayouts(submission);
    }

    /** The payout transaction is first built after the first round, so a first block that is orphaned
        is taken for one already refunded. Its credits stay: the accounts are as before the round only
        when there was no reward. */
    method OrphanedFirstRound(reward: Word) returns (ghost keys: seq<Text>)
      requires Wired() && coinbase.Value() == Payout(0, map[], 0, 0)
      modifies accounts`records, blocks`records
      ensures Lists(keys, Opening(old(accounts.records), finder, AfterFee(reward, feePercent)).accounts.Keys)
      ensures accounts.records == Outcome(old(accounts.records), finder, AfterFee(reward, feePercent), map[], keys).accounts
      ensures old(Valid()) && Bounded(old(accounts.records), AfterFee(reward, feePercent)) ==>
                (accounts.records == old(accounts.records) <==> AfterFee(reward, feePercent) == 0)
    {
      ghost var valid, start := Valid(), accounts.records;
      ghost var after := AfterFee(reward, feePercent);
      assert valid ==> Named(start) && finder in start;
      ghost var creditKeys, outputKeys;
      keys, creditKeys, outputKeys := RoundAndRefund(reward);
      if valid && Bounded(start, after) {
        SkippedRound(start, finder, after, keys);
      }
    }
  }

  /** Room to add every output back. */
  ghost predicate Spare(m: Accounts, outputs: map<Text, Word>, reward: Word) {
    forall k :: k in m ==> m[k].balance + reward + At<Text>(outputs, k) < WORD_LIMIT
  }

  predicate Covers(m: Accounts, outputs: map<Text, Word>, k: Text, extra: nat)
    requires k in m
  {
    At<Text>(outputs, k) <= m[k].balance + extra
  }

  lemma RefundedRound(m: Accounts, finder: Text, reward: Word, outputs: map<Text, Word>, keys: seq<Text>,
                      creditKeys: seq<Text>, outputKeys: seq<Text>)
    requires Named(m) && Bounded(m, reward) && Lists(keys, Opening(m, finder, reward).accounts.Keys)
    requires Lists(creditKeys, Outcome(m, finder, reward, outputs, keys).credits.Keys) && Lists(outputKeys, outputs.Keys)
    requires finder in m && outputs.Keys <= m.Keys && Spare(m, outputs, reward)
    ensures var n := RoundTrip(m, finder, reward, outputs, keys, creditKeys, outputKeys);
            var r := Remainder(m, finder, reward, outputs);
            && n.Keys == m.Keys && r >= 0
            && (forall k :: k in m && k != finder ==> (n[k] == m[k] <==> Covers(m, outputs, k, 0)))
            && (n[finder].balance == m[finder].balance + r <==> Covers(m, outputs, finder, Min(Bonus(finder, reward), r)))
  {
    RoundTripAccount(m, finder, reward, outputs, keys, creditKeys, outputKeys, finder);
    RefundLeavesRemainder(m, finder, reward, outputs, keys, creditKeys, outputKeys);
    hide RoundTrip, Outcome, Opening, Remainder, Bonus, Lists, Bounded, Restored;
    forall k | k in m && k != finder
      ensures RoundTrip(m, finder, reward, outputs, keys, creditKeys, outputKeys)[k] == m[k] <==> Covers(m, outputs, k, 0)
    {
      RefundRestores(m, finder, reward, outputs, keys, creditKeys, outputKeys, k);
    }
  }

  lemma SettlingKeepsKeys(p: Progress, k: Text, t: Terms)
    requires k in p.accounts
    ensures p.accounts.Keys <= SettledKey(p, k, t).accounts.Keys
  {
  }
}
