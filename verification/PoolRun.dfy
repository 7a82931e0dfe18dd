/** The pool as a state machine: one step per request, whatever order the requests come in, and what
    holds after any number of them. */
module PoolRun {
  import opened Bytes
  import opened Coinbase
  import opened Database
  import opened Filling
  import opened Ledger
  import opened LedgerLaws
  import opened Pool
  import opened RefundLaws
  import opened Rewards
  import opened Words

  datatype State = State(accounts: Accounts, blocks: map<Hash, Block>, coinbase: Payout, finder: Text, round: Uint,
                         reward: Word, submission: Hash, pending: bool)

  datatype Request =
    | Login(address: Text)
    | Share(miner: Text, weight: Word)
    | Submit(solver: Text, hash: Hash, current: bool)
    | Reward(value: Word, order: seq<Text>)
    | NewRound
    | Refund(orphan: Hash)

  /** A request with the orders in which its loops went through the keys. */
  datatype Event = Event(request: Request, first: seq<Text>, second: seq<Text>)

  function SnapshotOf(pool: Pool): State
    reads pool, pool.accounts, pool.blocks, pool.coinbase
  {
    State(pool.accounts.records, pool.blocks.records, pool.coinbase.Value(), pool.finder, pool.currentRound,
          pool.roundReward, pool.submission, pool.coinbasePending)
  }

  // ---------------------------------------------------------------- one step

  ghost function RoundOf(fee: nat, s: State, keys: seq<Text>): Progress
    requires fee <= 100 && Lists(keys, Opening(s.accounts, s.finder, AfterFee(s.reward, fee)).accounts.Keys)
  {
    Outcome(s.accounts, s.finder, AfterFee(s.reward, fee), s.coinbase.outputs, keys)
  }

  /** Requests come from registered miners, and loops go through each key once. */
  ghost predicate Enabled(fee: nat, s: State, e: Event)
    requires fee <= 100
  {
    match e.request
    case Login(address) => address != []
    case Share(miner, _) => miner in s.accounts
    case Submit(solver, _, _) => solver in s.accounts
    case Reward(_, order) => Lists(order, s.accounts.Keys)
    case NewRound =>
      && Lists(e.first, Opening(s.accounts, s.finder, AfterFee(s.reward, fee)).accounts.Keys)
      && Lists(e.second, RoundOf(fee, s, e.first).accounts.Keys)
    case Refund(hash) =>
      && Lists(e.first, FoundBlock(s.blocks, hash).credits.Keys)
      && Lists(e.second, FoundBlock(s.blocks, hash).coinbase.outputs.Keys)
  }

  ghost function Step(fee: nat, s: State, e: Event): State
    requires fee <= 100 && Enabled(fee, s, e)
  {
    match e.request
    case Login(address) => s.(accounts := Touched(s.accounts, address, Account(address, 0, 0, 0)))
    case Share(miner, weight) =>
      var r := s.accounts[miner];
      s.(accounts := s.accounts[r.key := r.(shares := Add(r.shares, weight))])
    case Submit(solver, hash, current) => s.(submission := hash, finder := if current then solver else s.finder)
    case Reward(value, order) =>
      if s.round > 1 && s.pending
      then s.(reward := value, coinbase := Completed(Filled(Reset(value, fee), order, Payouts(s.accounts)), s.finder))
      else s.(reward := value, pending := false)
    case NewRound =>
      var o := RoundOf(fee, s, e.first);
      ListsOnly(e.second, o.accounts.Keys);
      s.(accounts := ClearedAll(o.accounts, e.second),
         blocks := s.blocks[s.submission := Block(s.submission, Add(s.coinbase.maxValue, s.coinbase.poolFee), s.coinbase, o.credits, s.round)],
         pending := true, round := (s.round + 1) % UINT_LIMIT)
    case Refund(hash) =>
      var (accounts, blocks) := RefundOf(s.accounts, s.blocks, hash, e.first, e.second);
      s.(accounts := accounts, blocks := blocks)
  }

  /** The handlers are the steps. */
  method Handle(pool: Pool, request: Request) returns (ghost e: Event)
    requires pool.Wired()
    requires request.Login? ==> request.address != []
    requires request.Share? ==> request.miner in pool.accounts.records
    requires request.Submit? ==> request.solver in pool.accounts.records
    requires request.Reward? ==> Lists(request.order, pool.accounts.records.Keys)
    modifies pool, pool.accounts`records, pool.blocks`records, pool.coinbase
    ensures pool.Wired() && e.request == request && Enabled(pool.feePercent, old(SnapshotOf(pool)), e)
    ensures SnapshotOf(pool) == Step(pool.feePercent, old(SnapshotOf(pool)), e)
  {
    e := Event(request, [], []);
    match request
    case Login(address) =>
      pool.Login(address);
    case Share(miner, weight) =>
      pool.Share(miner, weight);
    case Submit(solver, hash, current) =>
      pool.SubmitBlock(solver, hash, current);
    case Reward(value, order) =>
      pool.BlockReward(value, order);
    case NewRound =>
      e := HandleNewRound(pool);
    case Refund(hash) =>
      e := HandleRefund(pool, hash);
  }

  method HandleNewRound(pool: Pool) returns (ghost e: Event)
    requires pool.Wired()
    modifies pool, pool.accounts`records, pool.blocks`records
    ensures pool.Wired() && e.request == NewRound && Enabled(pool.feePercent, old(SnapshotOf(pool)), e)
    ensures SnapshotOf(pool) == Step(pool.feePercent, old(SnapshotOf(pool)), e)
  {
    hide Outcome, Opening, AfterFee, ClearedAll, Lists;
    ghost var keys, cleared := pool.NewRound();
    e := Event(NewRound, keys, cleared);
  }

  method HandleRefund(pool: Pool, hash: Hash) returns (ghost e: Event)
    requires pool.Wired()
    modifies pool.accounts`records, pool.blocks`records
    ensures pool.Wired() && e.request == Refund(hash) && Enabled(pool.feePercent, old(SnapshotOf(pool)), e)
    ensures SnapshotOf(pool) == Step(pool.feePercent, old(SnapshotOf(pool)), e)
  {
    hide RefundOf, Refunded, Lists, FoundBlock;
    ghost var creditKeys, outputKeys := pool.RefundPayouts(hash);
    e := Event(Refund(hash), creditKeys, outputKeys);
  }

  // ---------------------------------------------------------------- the books after every run

  ghost predicate BooksOf(s: State) {
    Books(s.accounts, s.blocks, s.coinbase.outputs.Keys, s.finder)
  }

  ghost predicate AllEnabled(fee: nat, s: State, events: seq<Event>)
    requires fee <= 100
    decreases |events|
  {
    events == [] || (Enabled(fee, s, events[0]) && AllEnabled(fee, Step(fee, s, events[0]), events[1..]))
  }

  ghost function Run(fee: nat, s: State, events: seq<Event>): State
    requires fee <= 100 && AllEnabled(fee, s, events)
    decreases |events|
  {
    if events == [] then s else Run(fee, Step(fee, s, events[0]), events[1..])
  }

  lemma CompletedKeys(c: Payout, finder: Text)
    ensures Completed(c, finder).outputs.Keys <= c.outputs.Keys + {finder}
  {
  }

  lemma LoginBooks(s: State, address: Text)
    requires BooksOf(s) && address != []
    ensures BooksOf(s.(accounts := Touched(s.accounts, address, Account(address, 0, 0, 0))))
  {
  }

  lemma ShareBooks(s: State, miner: Text, r: Account)
    requires BooksOf(s) && miner in s.accounts && r.key == miner
    ensures BooksOf(s.(accounts := s.accounts[miner := r]))
  {
    assert s.accounts[miner := r].Keys == s.accounts.Keys;
  }

  lemma RewardBooks(fee: nat, s: State, value: Word, order: seq<Text>)
    requires fee <= 100 && BooksOf(s) && Lists(order, s.accounts.Keys)
    ensures forall k :: k in order ==> k in Payouts(s.accounts)
    ensures BooksOf(s.(coinbase := Completed(Filled(Reset(value, fee), order, Payouts(s.accounts)), s.finder)))
  {
    var c := Reset(value, fee);
    FilledKeys(c, order, Payouts(s.accounts));
    CompletedKeys(Filled(c, order, Payouts(s.accounts)), s.finder);
    hide Filled, Completed, Reset;
    assert Reset(value, fee).outputs == map[] by { ResetSound(value, fee); }
  }

  lemma RoundBooks(fee: nat, s: State, e: Event)
    requires fee <= 100 && BooksOf(s) && Enabled(fee, s, e) && e.request.NewRound?
    ensures BooksOf(Step(fee, s, e))
  {
    var o := RoundOf(fee, s, e.first);
    var b := Block(s.submission, Add(s.coinbase.maxValue, s.coinbase.poolFee), s.coinbase, o.credits, s.round);
    hide Outcome, Opening, ClearedAll, Lists, AfterFee;
    NewRoundBooks(s.accounts, s.blocks, s.finder, AfterFee(s.reward, fee), s.coinbase, e.first, e.second, s.submission, b);
  }

  lemma RefundBooks(fee: nat, s: State, e: Event)
    requires fee <= 100 && BooksOf(s) && Enabled(fee, s, e) && e.request.Refund?
    ensures BooksOf(Step(fee, s, e))
  {
    hide RefundOf, Lists, FoundBlock;
    RefundOrderly(s.accounts, s.blocks, s.coinbase.outputs.Keys, e.request.orphan, e.first, e.second);
  }

  /** Every step keeps the books. */
  lemma StepBooks(fee: nat, s: State, e: Event)
    requires fee <= 100 && BooksOf(s) && Enabled(fee, s, e)
    ensures BooksOf(Step(fee, s, e))
  {
    match e.request
    case Login(address) => LoginBooks(s, address);
    case Share(miner, weight) => ShareBooks(s, miner, s.accounts[miner].(shares := Add(s.accounts[miner].shares, weight)));
    case Submit(_, _, _) =>
    case Reward(value, order) => RewardBooks(fee, s, value, order);
    case NewRound => RoundBooks(fee, s, e);
    case Refund(_) => RefundBooks(fee, s, e);
  }

  /** After any number of steps every record is under its own key, the finder is on file, and every
      payout and credit names an account on file. */
  lemma {:induction false} RunBooks(fee: nat, s: State, events: seq<Event>)
    requires fee <= 100 && BooksOf(s) && AllEnabled(fee, s, events)
    ensures BooksOf(Run(fee, s, events))
    decreases |events|
  {
    if events != [] {
      hide BooksOf, Enabled, Step;
      StepBooks(fee, s, events[0]);
      RunBooks(fee, Step(fee, s, events[0]), events[1..]);
    }
  }

  // ---------------------------------------------------------------- the money after every run

  ghost function Money(s: State): nat {
    Total(Balances(s.accounts))
  }

  /** No 64-bit sum wraps in the step, and no credit exceeds 32 bits. */
  ghost predicate Roomy(fee: nat, s: State, e: Event)
    requires fee <= 100
  {
    match e.request
    case NewRound => Bounded(s.accounts, AfterFee(s.reward, fee))
    case Refund(hash) =>
      forall k :: k in s.accounts ==>
        s.accounts[k].balance + At<Text>(FoundBlock(s.blocks, hash).coinbase.outputs, k) < WORD_LIMIT
    case _ => true
  }

  /** What a step gives the miners: a round the reward after the fee. */
  function Given(fee: nat, s: State, e: Event): nat
    requires fee <= 100
  {
    if e.request.NewRound? then AfterFee(s.reward, fee) else 0
  }

  /** What a step moves between balances and payouts: a round takes payouts off, as far as there is
      a balance; a refund returns payouts and takes credits back, as far as there is a balance. */
  ghost function Moved(fee: nat, s: State, e: Event): int
    requires fee <= 100
  {
    match e.request
    case NewRound => 0 - Total(Taken(s.accounts, s.finder, AfterFee(s.reward, fee), s.coinbase.outputs)) as int
    case Refund(hash) =>
      var b := FoundBlock(s.blocks, hash);
      if b.coinbaseValue == 0 then 0
      else Total<Text>(b.coinbase.outputs) - Total(Reclaimed(s.accounts, b.credits))
    case _ => 0
  }

  ghost function Change(fee: nat, s: State, e: Event): int
    requires fee <= 100
  {
    Given(fee, s, e) + Moved(fee, s, e)
  }

  ghost function Changes(fee: nat, s: State, events: seq<Event>): int
    requires fee <= 100 && AllEnabled(fee, s, events)
    decreases |events|
  {
    if events == [] then 0 else Change(fee, s, events[0]) + Changes(fee, Step(fee, s, events[0]), events[1..])
  }

  ghost predicate AllRoomy(fee: nat, s: State, events: seq<Event>)
    requires fee <= 100 && AllEnabled(fee, s, events)
    decreases |events|
  {
    events == [] || (Roomy(fee, s, events[0]) && AllRoomy(fee, Step(fee, s, events[0]), events[1..]))
  }

  lemma LoginMoney(m: Accounts, address: Text)
    ensures Total(Balances(Touched(m, address, Account(address, 0, 0, 0)))) == Total(Balances(m))
  {
    if address !in m {
      assert Balances(m[address := Account(address, 0, 0, 0)]) == Balances(m)[address := 0];
      TotalUpdate(Balances(m), address, 0);
    }
  }

  lemma ShareMoney(m: Accounts, miner: Text, r: Account)
    requires miner in m && r.balance == m[miner].balance
    ensures Total(Balances(m[miner := r])) == Total(Balances(m))
  {
    assert Balances(m[miner := r]) == Balances(m);
  }

  lemma RoundMoney(fee: nat, s: State, e: Event)
    requires fee <= 100 && BooksOf(s) && Enabled(fee, s, e) && Roomy(fee, s, e) && e.request.NewRound?
    ensures Money(Step(fee, s, e)) == Money(s) + Change(fee, s, e)
  {
    var after := AfterFee(s.reward, fee);
    hide Outcome, Opening, ClearedAll, Lists, AfterFee, Bounded, Taken, Balances, Total;
    FileMeans(s.accounts, s.finder);
    NewRoundConserves(s.accounts, s.finder, after, s.coinbase.outputs, e.first, e.second);
  }

  lemma RefundMoney(fee: nat, s: State, e: Event)
    requires fee <= 100 && BooksOf(s) && Enabled(fee, s, e) && Roomy(fee, s, e) && e.request.Refund?
    ensures Money(Step(fee, s, e)) == Money(s) + Change(fee, s, e)
  {
    var b := FoundBlock(s.blocks, e.request.orphan);
    assert Covered(b, s.accounts.Keys);
    hide Refunded, Lists, FoundBlock, Total, Balances, Reclaimed;
    RefundTotal(s.accounts, b.credits, b.coinbase.outputs, e.first, e.second);
  }

  lemma StepMoney(fee: nat, s: State, e: Event)
    requires fee <= 100 && BooksOf(s) && Enabled(fee, s, e) && Roomy(fee, s, e)
    ensures Money(Step(fee, s, e)) == Money(s) + Change(fee, s, e)
  {
    match e.request
    case Login(address) => LoginMoney(s.accounts, address);
    case Share(miner, weight) => ShareMoney(s.accounts, miner, s.accounts[miner].(shares := Add(s.accounts[miner].shares, weight)));
    case Submit(_, _, _) =>
    case Reward(_, _) =>
    case NewRound => RoundMoney(fee, s, e);
    case Refund(_) => RefundMoney(fee, s, e);
  }

  /** After any number of steps all balances together are what they were at the start, plus every
      reward after its fee, less every payout really taken, plus every payout returned, less every
      credit really taken back. */
  lemma {:induction false} RunConserves(fee: nat, s: State, events: seq<Event>)
    requires fee <= 100 && BooksOf(s) && AllEnabled(fee, s, events) && AllRoomy(fee, s, events)
    ensures Money(Run(fee, s, events)) == Money(s) + Changes(fee, s, events)
    decreases |events|
  {
    if events != [] {
      hide BooksOf, Enabled, Step, Roomy, Change, Money;
      StepMoney(fee, s, events[0]);
      StepBooks(fee, s, events[0]);
      RunConserves(fee, Step(fee, s, events[0]), events[1..]);
    }
  }

  /** What all steps together move between balances and payouts. */
  ghost function AllMoved(fee: nat, s: State, events: seq<Event>): int
    requires fee <= 100 && AllEnabled(fee, s, events)
    decreases |events|
  {
    if events == [] then 0 else Moved(fee, s, events[0]) + AllMoved(fee, Step(fee, s, events[0]), events[1..])
  }

  /** The rewards of all rounds, times the percentage the miners keep. */
  ghost function Hundredths(fee: nat, s: State, events: seq<Event>): nat
    requires fee <= 100 && AllEnabled(fee, s, events)
    decreases |events|
  {
    if events == [] then 0
    else
      MulMonotone(s.reward, 0, 100 - fee);
      (if events[0].request.NewRound? then s.reward * (100 - fee) else 0)
      + Hundredths(fee, Step(fee, s, events[0]), events[1..])
  }

  function Rounds(events: seq<Event>): nat {
    if events == [] then 0 else (if events[0].request.NewRound? then 1 else 0) + Rounds(events[1..])
  }

  lemma GivenIs(fee: nat, s: State, e: Event)
    requires fee <= 100
    ensures if e.request.NewRound? then 100 * Given(fee, s, e) <= s.reward * (100 - fee) < 100 * Given(fee, s, e) + 100
            else Given(fee, s, e) == 0
  {
    AfterFeeIs(s.reward, fee);
  }

  lemma {:induction false} ChangesWithin(fee: nat, s: State, events: seq<Event>)
    requires fee <= 100 && AllEnabled(fee, s, events)
    ensures var given := Changes(fee, s, events) - AllMoved(fee, s, events);
            100 * given <= Hundredths(fee, s, events) <= 100 * given + 99 * Rounds(events)
    decreases |events|
  {
    if events != [] {
      hide Enabled, Step, Given, Moved;
      GivenIs(fee, s, events[0]);
      ChangesWithin(fee, Step(fee, s, events[0]), events[1..]);
    }
  }

  /** Over any run, a hundred times what the balances gain beyond the payouts moved is the rewards of
      all rounds times the percentage the miners keep, up to less than one unit a round. */
  lemma RunGives(fee: nat, s: State, events: seq<Event>)
    requires fee <= 100 && BooksOf(s) && AllEnabled(fee, s, events) && AllRoomy(fee, s, events)
    ensures var given := Money(Run(fee, s, events)) - Money(s) - AllMoved(fee, s, events);
            100 * given <= Hundredths(fee, s, events) <= 100 * given + 99 * Rounds(events)
  {
    hide *;
    RunConserves(fee, s, events);
    ChangesWithin(fee, s, events);
  }

  /** Before the first block is found the books may lack the finder; a registered miner's block at the
      current height completes them. */
  lemma FirstBlock(fee: nat, s: State, e: Event)
    requires fee <= 100 && Orderly(s.accounts, s.blocks, s.coinbase.outputs.Keys)
    requires Enabled(fee, s, e) && e.request.Submit? && e.request.current
    ensures BooksOf(Step(fee, s, e))
  {
  }
}
