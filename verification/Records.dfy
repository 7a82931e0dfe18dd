/** Records on disk: accounts, and blocks with their nested payout and credit lists, each list entry
    carrying the length of its address in one byte. */
module Records {
  import opened Bytes
  import opened Coinbase
  import opened Database
  import opened Ledger
  import opened Words

  // ---------------------------------------------------------------- address and value lists

  function Entry(k: Text, v: Word): seq<Byte> {
    [|k| % 0x100] + k + Uint2Bytes64(v)
  }

  function Entries(keys: seq<Text>, m: map<Text, Word>): seq<Byte>
    requires forall k :: k in keys ==> k in m
  {
    if keys == [] then [] else Entry(keys[0], m[keys[0]]) + Entries(keys[1..], m)
  }

  lemma {:induction false} EntriesSnoc(keys: seq<Text>, k: Text, m: map<Text, Word>)
    requires k in m && forall j :: j in keys ==> j in m
    ensures Entries(keys + [k], m) == Entries(keys, m) + Entry(k, m[k])
    decreases |keys|
  {
    hide Entry;
    if keys == [] {
      assert keys + [k] == [k] && [k][1..] == [];
    } else {
      assert (keys + [k])[1..] == keys[1..] + [k];
      EntriesSnoc(keys[1..], k, m);
    }
  }

  datatype Listing = Listing(entries: map<Text, Word>, sum: Word)

  /** Reading a number of entries from a place in a stream; none when the stream is too short. */
  function Parsed(data: seq<Byte>, pos: nat, n: nat, read: Listing): Option<Listing>
    decreases n
  {
    if n == 0 then Some(read)
    else if |data| <= pos || |data| < pos + data[pos] + 9 then None
    else
      var length := data[pos];
      var value := Bytes2Uint64(data[pos + 1 + length..pos + length + 9], 0);
      Parsed(data, pos + length + 9, n - 1,
             Listing(read.entries[data[pos + 1..pos + 1 + length] := value], Add(read.sum, value)))
  }

  function SumFrom(s: Word, keys: seq<Text>, m: map<Text, Word>): Word
    requires forall k :: k in keys ==> k in m
    decreases |keys|
  {
    if keys == [] then s else SumFrom(Add(s, m[keys[0]]), keys[1..], m)
  }

  /** The entries named by some keys. */
  ghost function Picked(keys: seq<Text>, m: map<Text, Word>): map<Text, Word>
    requires forall k :: k in keys ==> k in m
  {
    map k | k in keys :: m[k]
  }

  lemma PickedAll(keys: seq<Text>, m: map<Text, Word>)
    requires Lists(keys, m.Keys)
    ensures forall k :: k in keys ==> k in m
    ensures map[] + Picked(keys, m) == m
  {
  }

  lemma KeyCount(keys: seq<Text>, m: map<Text, Word>)
    requires Lists(keys, m.Keys) && Compact(m)
    ensures |keys| == |m| < 0x100 && forall k :: k in keys ==> k in m && |k| < 0x100
  {
    ListsSize(keys, m.Keys);
    assert |m.Keys| == |m|;
  }

  /** A list fits its one-byte counts. */
  ghost predicate Compact(m: map<Text, Word>) {
    |m| < 0x100 && forall k :: k in m ==> |k| < 0x100
  }

  lemma ReadEntry(data: seq<Byte>, pos: nat, k: Text, v: Word, rest: seq<Byte>)
    requires |k| < 0x100 && pos <= |data| && data[pos..] == Entry(k, v) + rest
    ensures |data| >= pos + |k| + 9 && data[pos] == |k| && data[pos + 1..pos + 1 + |k|] == k
    ensures Bytes2Uint64(data[pos + 1 + |k|..pos + |k| + 9], 0) == v
    ensures data[pos + |k| + 9..] == rest
  {
    hide Bytes2Uint64, Uint2Bytes64;
    var s := data[pos..];
    assert |s| == |k| + 9 + |rest|;
    assert s[0] == |k| && s[1..1 + |k|] == k && s[1 + |k|..|k| + 9] == Uint2Bytes64(v) && s[|k| + 9..] == rest;
    var b := data[pos + 1 + |k|..pos + |k| + 9];
    assert b == s[1 + |k|..|k| + 9];
    assert b[0..0 + 8] == b;
    Uint64RoundTrip(b, 0, v);
  }

  /** What was written is read back, entry by entry, on top of what was there. */
  lemma {:induction false} EntriesRoundTrip(data: seq<Byte>, pos: nat, keys: seq<Text>, m: map<Text, Word>, rest: seq<Byte>, read: Listing)
    requires forall k :: k in keys ==> k in m && |k| < 0x100
    requires pos <= |data| && data[pos..] == Entries(keys, m) + rest
    ensures Parsed(data, pos, |keys|, read)
            == Some(Listing(read.entries + Picked(keys, m), SumFrom(read.sum, keys, m)))
    decreases |keys|
  {
    hide *;
    if keys == [] {
      NoEntries(data, pos, m, read);
    } else {
      var k := keys[0];
      var after := Entries(keys[1..], m) + rest;
      EntriesHead(keys, m);
      assert Entry(k, m[k]) + Entries(keys[1..], m) + rest == Entry(k, m[k]) + after;
      ReadEntry(data, pos, k, m[k], after);
      var next := Listing(read.entries[k := m[k]], Add(read.sum, m[k]));
      ParsedHead(data, pos, |keys|, read);
      EntriesRoundTrip(data, pos + |k| + 9, keys[1..], m, rest, next);
      UnionStep(read.entries, keys, m);
      SumHead(read.sum, keys, m);
    }
  }

  lemma NoEntries(data: seq<Byte>, pos: nat, m: map<Text, Word>, read: Listing)
    ensures Parsed(data, pos, 0, read) == Some(read)
    ensures Picked([], m) == map[] && SumFrom(read.sum, [], m) == read.sum
    ensures Listing(read.entries + map[], read.sum) == read
  {
    assert read.entries + map[] == read.entries;
  }

  lemma EntriesHead(keys: seq<Text>, m: map<Text, Word>)
    requires keys != [] && forall k :: k in keys ==> k in m
    ensures Entries(keys, m) == Entry(keys[0], m[keys[0]]) + Entries(keys[1..], m)
  {
  }

  lemma SumHead(s: Word, keys: seq<Text>, m: map<Text, Word>)
    requires keys != [] && forall k :: k in keys ==> k in m
    ensures SumFrom(s, keys, m) == SumFrom(Add(s, m[keys[0]]), keys[1..], m)
  {
  }

  lemma ParsedHead(data: seq<Byte>, pos: nat, n: nat, read: Listing)
    requires n > 0 && pos < |data| && pos + data[pos] + 9 <= |data|
    ensures Parsed(data, pos, n, read)
            == Parsed(data, pos + data[pos] + 9, n - 1,
                      Listing(read.entries[data[pos + 1..pos + 1 + data[pos]] := Bytes2Uint64(data[pos + 1 + data[pos]..pos + data[pos] + 9], 0)],
                              Add(read.sum, Bytes2Uint64(data[pos + 1 + data[pos]..pos + data[pos] + 9], 0))))
  {
  }

  lemma UnionStep(a: map<Text, Word>, keys: seq<Text>, m: map<Text, Word>)
    requires keys != [] && forall k :: k in keys ==> k in m
    ensures a[keys[0] := m[keys[0]]] + Picked(keys[1..], m) == a + Picked(keys, m)
  {
    assert keys == [keys[0]] + keys[1..];
  }

  lemma {:induction false} ListsSize(keys: seq<Text>, s: set<Text>)
    requires Lists(keys, s)
    ensures |keys| == |s|
    decreases |keys|
  {
    if keys == [] {
      assert s == {};
    } else {
      assert keys == [keys[0]] + keys[1..];
      assert Lists(keys[1..], s - {keys[0]});
      ListsSize(keys[1..], s - {keys[0]});
    }
  }

  lemma {:induction false} EntriesLength(keys: seq<Text>, m: map<Text, Word>)
    requires forall k :: k in keys ==> k in m && |k| < 0x100
    ensures |Entries(keys, m)| <= 264 * |keys|
    decreases |keys|
  {
    if keys != [] {
      EntriesLength(keys[1..], m);
    }
  }

  // ---------------------------------------------------------------- the payout and credit lists

  function PayoutBytes(c: Payout, keys: seq<Text>): seq<Byte>
    requires forall k :: k in keys ==> k in c.outputs
  {
    [|c.outputs| % 0x100] + Uint2Bytes64(c.poolFee) + Entries(keys, c.outputs)
  }

  function CreditBytes(m: map<Text, Word>, keys: seq<Text>): seq<Byte>
    requires forall k :: k in keys ==> k in m
  {
    [|m| % 0x100] + Entries(keys, m)
  }

  /** The payout read from a stream: its maximum is given, and its value so far starts at the fee. */
  function PayoutOf(data: seq<Byte>, value: Word, outputs: map<Text, Word>): Option<Payout> {
    if |data| == 0 then None
    else
      var fee := Bytes2Uint64(data, 1);
      match Parsed(data, 9, data[0], Listing(outputs, fee))
      case None => None
      case Some(l) => Some(Payout(l.sum, l.entries, value, fee))
  }

  function CreditsOf(data: seq<Byte>): Option<map<Text, Word>> {
    if |data| == 0 then None
    else
      match Parsed(data, 1, data[0], Listing(map[], 0))
      case None => None
      case Some(l) => Some(l.entries)
  }

  /** A payout comes back with the same outputs and fee, the given maximum, and the fee counted in. */
  lemma PayoutRoundTrip(c: Payout, keys: seq<Text>, value: Word)
    requires Lists(keys, c.outputs.Keys) && Compact(c.outputs)
    ensures PayoutOf(PayoutBytes(c, keys), value, map[])
            == Some(Payout(SumFrom(c.poolFee, keys, c.outputs), c.outputs, value, c.poolFee))
  {
    var data := PayoutBytes(c, keys);
    KeyCount(keys, c.outputs);
    PickedAll(keys, c.outputs);
    PayoutLayout(c, keys);
    hide Bytes2Uint64, Uint2Bytes64, Parsed, SumFrom, Picked, PayoutBytes, Lists, Compact;
    Uint64RoundTrip(data, 1, c.poolFee);
    EntriesRoundTrip(data, 9, keys, c.outputs, [], Listing(map[], c.poolFee));
  }

  lemma PayoutLayout(c: Payout, keys: seq<Text>)
    requires |c.outputs| < 0x100 && forall k :: k in keys ==> k in c.outputs
    ensures var data := PayoutBytes(c, keys);
            |data| >= 9 && data[0] == |c.outputs| && data[1..1 + 8] == Uint2Bytes64(c.poolFee)
            && data[9..] == Entries(keys, c.outputs) + []
  {
    hide Uint2Bytes64, Entries;
  }

  lemma CreditsRoundTrip(m: map<Text, Word>, keys: seq<Text>)
    requires Lists(keys, m.Keys) && Compact(m)
    ensures CreditsOf(CreditBytes(m, keys)) == Some(m)
  {
    var data := CreditBytes(m, keys);
    KeyCount(keys, m);
    PickedAll(keys, m);
    CreditLayout(m, keys);
    hide Parsed, SumFrom, Picked, CreditBytes, Lists, Compact;
    EntriesRoundTrip(data, 1, keys, m, [], Listing(map[], 0));
  }

  lemma CreditLayout(m: map<Text, Word>, keys: seq<Text>)
    requires |m| < 0x100 && forall k :: k in keys ==> k in m
    ensures var data := CreditBytes(m, keys);
            |data| >= 1 && data[0] == |m| && data[1..] == Entries(keys, m) + []
  {
    hide Entries;
  }

  /** The entries in the order the map yields its keys. */
  method SerializeEntries(m: map<Text, Word>, keys: seq<Text>, prefix: seq<Byte>) returns (data: seq<Byte>)
    requires Lists(keys, m.Keys)
    ensures data == prefix + Entries(keys, m)
  {
    ListsOnlyKeys(keys, m);
    data := prefix;
    assert data == prefix + Entries(keys[..0], m);
    hide Entries, Lists, Uint2Bytes64;
    var i := 0;
    while i < |keys|
      invariant 0 <= i <= |keys|
      invariant data == prefix + Entries(keys[..i], m)
    {
      EntriesSnoc(keys[..i], keys[i], m);
      assert keys[..i + 1] == keys[..i] + [keys[i]];
      var address := keys[i];
      data := data + [|address| % 0x100] + address + Uint2Bytes64(m[address]);
      i := i + 1;
    }
    assert keys[..i] == keys;
  }

  method SerializePayout(c: Payout, keys: seq<Text>) returns (data: seq<Byte>)
    requires Lists(keys, c.outputs.Keys)
    ensures data == PayoutBytes(c, keys)
  {
    data := SerializeEntries(c.outputs, keys, [|c.outputs| % 0x100] + Uint2Bytes64(c.poolFee));
  }

  method SerializeCredits(m: map<Text, Word>, keys: seq<Text>) returns (data: seq<Byte>)
    requires Lists(keys, m.Keys)
    ensures data == CreditBytes(m, keys)
  {
    data := SerializeEntries(m, keys, [|m| % 0x100]);
  }

  /** Reading a stream into a payout transaction: outputs already there stay unless named again. */
  method DeserializePayout(c: Coinbase, data: seq<Byte>, value: Word)
    requires PayoutOf(data, value, c.outputs).Some?
    modifies c
    ensures c.Value() == PayoutOf(data, value, old(c.outputs)).value
  {
    hide Bytes2Uint64;
    c.maxValue := value;
    var size: nat, pos: nat := data[0], 9;
    c.poolFee := Bytes2Uint64(data, 1);
    c.currentValue := c.poolFee;
    var index := 0;
    ghost var goal := Parsed(data, 9, size, Listing(c.outputs, c.poolFee));
    while index < size
      invariant 0 <= index <= size && 0 <= pos
      invariant Parsed(data, pos, size - index, Listing(c.outputs, c.currentValue)) == goal
      invariant c.maxValue == value && c.poolFee == Bytes2Uint64(data, 1)
    {
      var length := data[pos];
      var address := data[pos + 1..pos + 1 + length];
      var amount := Bytes2Uint64(data[pos + 1 + length..pos + length + 9], 0);
      c.outputs := c.outputs[address := amount];
      pos := pos + length + 9;
      c.currentValue := Add(c.currentValue, amount);
      index := index + 1;
    }
  }

  // ---------------------------------------------------------------- accounts

  function AccountBytes(a: Account): seq<Byte> {
    Uint2Bytes64(a.balance) + Uint2Bytes64(a.shares) + Uint2Bytes(a.blocksFound) + a.key
  }

  function AccountOf(data: seq<Byte>): Account {
    Account(if |data| >= 20 then data[20..] else [], Bytes2Uint64(data, 0), Bytes2Uint64(data, 8), Bytes2Uint(data, 16))
  }

  /** An account survives the disk whole, whatever its key. */
  lemma AccountRoundTrip(a: Account)
    ensures AccountOf(AccountBytes(a)) == a
  {
    hide Uint2Bytes, Uint2Bytes64, Bytes2Uint, Bytes2Uint64;
    var data := AccountBytes(a);
    assert data[0..0 + 8] == Uint2Bytes64(a.balance);
    assert data[8..8 + 8] == Uint2Bytes64(a.shares);
    assert data[16..16 + 4] == Uint2Bytes(a.blocksFound);
    assert data[20..] == a.key;
    Uint64RoundTrip(data, 0, a.balance);
    Uint64RoundTrip(data, 8, a.shares);
    UintRoundTrip(data, 16, a.blocksFound);
  }

  // ---------------------------------------------------------------- hashes

  /** The words of a hash, each high byte first. */
  function HashBytes(words: seq<Uint>): (b: seq<Byte>)
    ensures |b| == 4 * |words|
  {
    if words == [] then [] else Uint2Bytes(words[0]) + HashBytes(words[1..])
  }

  function WordsOf(b: seq<Byte>, n: nat): (words: seq<Uint>)
    ensures |words| == n
    decreases n
  {
    if n == 0 then [] else [Bytes2Uint(b, 0)] + WordsOf(if |b| >= 4 then b[4..] else [], n - 1)
  }

  lemma {:induction false} HashRoundTrip(words: seq<Uint>)
    ensures WordsOf(HashBytes(words), |words|) == words
    decreases |words|
  {
    if words != [] {
      hide Uint2Bytes, Bytes2Uint;
      var b := HashBytes(words);
      assert b[0..0 + 4] == Uint2Bytes(words[0]);
      UintRoundTrip(b, 0, words[0]);
      assert b[4..] == HashBytes(words[1..]);
      HashRoundTrip(words[1..]);
    }
  }

  method GetBytes(words: seq<Uint>) returns (data: seq<Byte>)
    ensures data == HashBytes(words)
  {
    data := [];
    var index := 0;
    assert words[0..] == words;
    while index < |words|
      invariant 0 <= index <= |words|
      invariant data + HashBytes(words[index..]) == HashBytes(words)
    {
      assert words[index..][0] == words[index] && words[index..][1..] == words[index + 1..];
      data := data + Uint2Bytes(words[index]);
      index := index + 1;
    }
  }

  // ---------------------------------------------------------------- blocks

  /** An iteration order for the keys of a map. */
  ghost predicate Ordering(order: set<Text> -> seq<Text>) {
    forall s: set<Text> :: Lists(order(s), s)
  }

  function KeysIn(order: set<Text> -> seq<Text>, s: set<Text>): (keys: seq<Text>)
    requires Ordering(order)
    ensures Lists(keys, s)
  {
    order(s)
  }

  ghost predicate CompactBlock(b: Block) {
    Compact(b.coinbase.outputs) && Compact(b.credits)
  }

  function Assembled(b: Block, coinbase: seq<Byte>, credits: seq<Byte>): seq<Byte> {
    Uint2Bytes64(b.coinbaseValue) + Uint2Bytes(|coinbase| % UINT_LIMIT) + coinbase + credits
    + Uint2Bytes(b.round) + HashBytes(b.key)
  }

  function BlockBytes(order: set<Text> -> seq<Text>, b: Block): seq<Byte>
    requires Ordering(order)
  {
    Assembled(b, PayoutBytes(b.coinbase, KeysIn(order, b.coinbase.outputs.Keys)),
              CreditBytes(b.credits, KeysIn(order, b.credits.Keys)))
  }

  function BlockOf(data: seq<Byte>): Option<Block> {
    var n := Bytes2Uint(data, 8);
    if |data| < n + 144 then None
    else
      var value := Bytes2Uint64(data, 0);
      var end := |data|;
      var coinbase := PayoutOf(data[12..n + 12], value, map[]);
      var credits := CreditsOf(data[n + 12..end - 132]);
      if coinbase.None? || credits.None? then None
      else Some(Block(WordsOf(data[end - 128..], 32), value, coinbase.value, credits.value,
                      Bytes2Uint(data[end - 132..end - 128], 0)))
  }

  /** The block as it comes back: its payout's maximum is the recorded value, and the value so far
      has the fee counted in. */
  ghost function Reread(order: set<Text> -> seq<Text>, b: Block): Block
    requires Ordering(order)
  {
    var keys := KeysIn(order, b.coinbase.outputs.Keys);
    Block(b.key, b.coinbaseValue,
          Payout(SumFrom(b.coinbase.poolFee, keys, b.coinbase.outputs), b.coinbase.outputs, b.coinbaseValue, b.coinbase.poolFee),
          b.credits, b.round)
  }

  lemma PayoutLength(c: Payout, keys: seq<Text>)
    requires Lists(keys, c.outputs.Keys) && Compact(c.outputs)
    ensures 9 <= |PayoutBytes(c, keys)| < UINT_LIMIT
  {
    ListsSize(keys, c.outputs.Keys);
    assert |c.outputs.Keys| == |c.outputs|;
    EntriesLength(keys, c.outputs);
  }

  /** Layout: where each part of a block's bytes lies. */
  lemma PartsOf(value: seq<Byte>, length: seq<Byte>, coinbase: seq<Byte>, credits: seq<Byte>, round: seq<Byte>, key: seq<Byte>)
    requires |value| == 8 && |length| == 4 && |round| == 4 && |key| == 128
    ensures var data := value + length + coinbase + credits + round + key;
            var n, end := |coinbase|, |data|;
            && end == n + |credits| + 144
            && data[0..0 + 8] == value && data[8..8 + 4] == length && data[12..n + 12] == coinbase
            && data[n + 12..end - 132] == credits && data[end - 132..end - 128] == round && data[end - 128..] == key
  {
  }

  lemma BlockRoundTrip(order: set<Text> -> seq<Text>, b: Block)
    requires Ordering(order) && CompactBlock(b)
    ensures BlockOf(BlockBytes(order, b)) == Some(Reread(order, b))
  {
    hide *;
    var outputKeys, creditKeys := KeysIn(order, b.coinbase.outputs.Keys), KeysIn(order, b.credits.Keys);
    CompactMeans(b);
    ListsOnlyKeys(outputKeys, b.coinbase.outputs);
    ListsOnlyKeys(creditKeys, b.credits);
    var coinbase, credits := PayoutBytes(b.coinbase, outputKeys), CreditBytes(b.credits, creditKeys);
    PayoutLength(b.coinbase, outputKeys);
    AssembledParts(b, coinbase, credits);
    PayoutRoundTrip(b.coinbase, outputKeys, b.coinbaseValue);
    CreditsRoundTrip(b.credits, creditKeys);
    BlockBytesAre(order, b);
    BlockOfParts(Assembled(b, coinbase, credits), |coinbase|);
    RereadIs(order, b);
  }

  lemma CompactMeans(b: Block)
    requires CompactBlock(b)
    ensures Compact(b.coinbase.outputs) && Compact(b.credits)
  {
  }

  lemma ListsOnlyKeys(keys: seq<Text>, m: map<Text, Word>)
    requires Lists(keys, m.Keys)
    ensures forall k :: k in keys ==> k in m
  {
  }

  lemma BlockBytesAre(order: set<Text> -> seq<Text>, b: Block)
    requires Ordering(order)
    ensures forall k :: k in KeysIn(order, b.coinbase.outputs.Keys) ==> k in b.coinbase.outputs
    ensures forall k :: k in KeysIn(order, b.credits.Keys) ==> k in b.credits
    ensures BlockBytes(order, b)
            == Assembled(b, PayoutBytes(b.coinbase, KeysIn(order, b.coinbase.outputs.Keys)),
                         CreditBytes(b.credits, KeysIn(order, b.credits.Keys)))
  {
    hide KeysIn, PayoutBytes, CreditBytes, Assembled;
  }

  lemma RereadIs(order: set<Text> -> seq<Text>, b: Block)
    requires Ordering(order)
    ensures forall k :: k in KeysIn(order, b.coinbase.outputs.Keys) ==> k in b.coinbase.outputs
    ensures Reread(order, b)
            == Block(b.key, b.coinbaseValue,
                     Payout(SumFrom(b.coinbase.poolFee, KeysIn(order, b.coinbase.outputs.Keys), b.coinbase.outputs),
                            b.coinbase.outputs, b.coinbaseValue, b.coinbase.poolFee),
                     b.credits, b.round)
  {
    hide KeysIn, SumFrom;
  }

  /** Every fixed-size part of an assembled block reads back. */
  lemma AssembledParts(b: Block, coinbase: seq<Byte>, credits: seq<Byte>)
    requires |coinbase| < UINT_LIMIT
    ensures var data := Assembled(b, coinbase, credits);
            var n, end := |coinbase|, |data|;
            && end >= n + 144 && Bytes2Uint(data, 8) == n && Bytes2Uint64(data, 0) == b.coinbaseValue
            && data[12..n + 12] == coinbase && data[n + 12..end - 132] == credits
            && Bytes2Uint(data[end - 132..end - 128], 0) == b.round && WordsOf(data[end - 128..], 32) == b.key
  {
    var data := Assembled(b, coinbase, credits);
    AssembledSlices(b, coinbase, credits);
    hide Assembled, Uint2Bytes64, Uint2Bytes, HashBytes, Bytes2Uint, Bytes2Uint64, WordsOf;
    Uint64RoundTrip(data, 0, b.coinbaseValue);
    UintRoundTrip(data, 8, |coinbase|);
    UintAlone(b.round);
    HashRoundTrip(b.key);
  }

  lemma UintAlone(x: Uint)
    ensures Bytes2Uint(Uint2Bytes(x), 0) == x
  {
    var b := Uint2Bytes(x);
    hide Uint2Bytes, Bytes2Uint;
    assert b[0..0 + 4] == b;
    UintRoundTrip(b, 0, x);
  }

  lemma AssembledSlices(b: Block, coinbase: seq<Byte>, credits: seq<Byte>)
    requires |coinbase| < UINT_LIMIT
    ensures var data := Assembled(b, coinbase, credits);
            var n, end := |coinbase|, |data|;
            && end == n + |credits| + 144 && data[0..0 + 8] == Uint2Bytes64(b.coinbaseValue) && data[8..8 + 4] == Uint2Bytes(n)
            && data[12..n + 12] == coinbase && data[n + 12..end - 132] == credits
            && data[end - 132..end - 128] == Uint2Bytes(b.round) && data[end - 128..] == HashBytes(b.key)
  {
    AssembledIs(b, coinbase, credits);
    Sizes(b, |coinbase|);
    hide Assembled, Uint2Bytes64, Uint2Bytes, HashBytes;
    PartsOf(Uint2Bytes64(b.coinbaseValue), Uint2Bytes(|coinbase|), coinbase, credits, Uint2Bytes(b.round), HashBytes(b.key));
  }

  lemma AssembledIs(b: Block, coinbase: seq<Byte>, credits: seq<Byte>)
    requires |coinbase| < UINT_LIMIT
    ensures Assembled(b, coinbase, credits)
            == Uint2Bytes64(b.coinbaseValue) + Uint2Bytes(|coinbase|) + coinbase + credits + Uint2Bytes(b.round) + HashBytes(b.key)
  {
    hide Uint2Bytes64, Uint2Bytes, HashBytes;
    assert |coinbase| % UINT_LIMIT == |coinbase|;
  }

  lemma Sizes(b: Block, n: Uint)
    ensures |Uint2Bytes64(b.coinbaseValue)| == 8 && |Uint2Bytes(n)| == 4 && |Uint2Bytes(b.round)| == 4 && |HashBytes(b.key)| == 128
  {
  }

  lemma BlockOfParts(data: seq<Byte>, n: nat)
    requires Bytes2Uint(data, 8) == n && |data| >= n + 144
    requires PayoutOf(data[12..n + 12], Bytes2Uint64(data, 0), map[]).Some?
    requires CreditsOf(data[n + 12..|data| - 132]).Some?
    ensures BlockOf(data) == Some(Block(WordsOf(data[|data| - 128..], 32), Bytes2Uint64(data, 0),
                                        PayoutOf(data[12..n + 12], Bytes2Uint64(data, 0), map[]).value,
                                        CreditsOf(data[n + 12..|data| - 132]).value,
                                        Bytes2Uint(data[|data| - 132..|data| - 128], 0)))
  {
    hide Bytes2Uint, Bytes2Uint64, PayoutOf, CreditsOf, WordsOf;
  }

  lemma {:induction false} SumFromIs(s: Word, keys: seq<Text>, m: map<Text, Word>)
    requires forall k :: k in keys ==> k in m
    ensures SumFrom(s, keys, m) == (s + SumOver(keys, m)) % WORD_LIMIT
    decreases |keys|
  {
    if keys != [] {
      var v := m[keys[0]];
      SumFromIs(Add(s, v), keys[1..], m);
      AddWraps(s, v);
      WrapOnce(s + v, SumOver(keys[1..], m));
      assert s % WORD_LIMIT == s;
    }
  }

  /** Reread, a payout's value so far is its fee plus its outputs, whatever it was when written. */
  lemma RereadValue(order: set<Text> -> seq<Text>, b: Block)
    requires Ordering(order)
    ensures Reread(order, b).coinbase.currentValue == (b.coinbase.poolFee + Total<Text>(b.coinbase.outputs)) % WORD_LIMIT
  {
    var keys := KeysIn(order, b.coinbase.outputs.Keys);
    SumFromIs(b.coinbase.poolFee, keys, b.coinbase.outputs);
    SumOverTotal(keys, b.coinbase.outputs);
  }

  /** A block comes back exactly as it was written if and only if its payout's maximum is its recorded
      value and its payout's value so far is the fee and all outputs together. */
  lemma BlockUnchanged(order: set<Text> -> seq<Text>, b: Block)
    requires Ordering(order) && CompactBlock(b)
    ensures BlockOf(BlockBytes(order, b)) == Some(b)
            <==> b.coinbase.maxValue == b.coinbaseValue
                 && b.coinbase.currentValue == (b.coinbase.poolFee + Total<Text>(b.coinbase.outputs)) % WORD_LIMIT
  {
    BlockRoundTrip(order, b);
    RereadValue(order, b);
    hide BlockOf, BlockBytes, CompactBlock, Ordering, Total;
  }

  /** A round records its block with maximum and fee together as the value. Such a block comes back as
      written if and only if there was no fee and the payout's value so far is what its outputs are. */
  lemma RoundBlockUnchanged(order: set<Text> -> seq<Text>, b: Block)
    requires Ordering(order) && CompactBlock(b)
    requires b.coinbaseValue == Add(b.coinbase.maxValue, b.coinbase.poolFee)
    ensures BlockOf(BlockBytes(order, b)) == Some(b)
            <==> b.coinbase.poolFee == 0 && b.coinbase.currentValue == Total<Text>(b.coinbase.outputs) % WORD_LIMIT
  {
    hide *;
    BlockUnchanged(order, b);
    NoFee(b.coinbase.maxValue, b.coinbase.poolFee);
  }

  lemma NoFee(max: Word, fee: Word)
    ensures Add(max, fee) == max <==> fee == 0
  {
  }

  // ---------------------------------------------------------------- the stores

  function BlockOrBlank(data: seq<Byte>): Block {
    if BlockOf(data).Some? then BlockOf(data).value else BLANK_BLOCK
  }

  ghost function RereadAll(order: set<Text> -> seq<Text>, m: map<Hash, Block>): (n: map<Hash, Block>)
    requires Ordering(order)
    ensures n.Keys == m.Keys && forall h :: h in m ==> n[h] == Reread(order, m[h])
  {
    map h | h in m :: Reread(order, m[h])
  }

  /** Every block written to disk is read back under its key, with the same key, value, outputs,
      fee, credits and round. */
  lemma BlocksRestored(order: set<Text> -> seq<Text>, serialize: Block -> seq<Byte>, m: map<Hash, Block>, keys: seq<Hash>)
    requires Ordering(order) && forall b :: serialize(b) == BlockBytes(order, b)
    requires Lists(keys, m.Keys)
    requires forall h :: h in m ==> m[h].key == h && CompactBlock(m[h])
    ensures forall h :: h in keys ==> h in m
    ensures Loaded(Images(keys, m, serialize), BlockOrBlank, BlockKey) == RereadAll(order, m)
  {
    var reread := RereadAll(order, m);
    hide BlockOrBlank, BlockKey, BlockBytes, Reread, RereadAll, Loaded, Images, Lists, Ordering, CompactBlock;
    forall h | h in m
      ensures BlockOrBlank(serialize(m[h])) == reread[h] && BlockKey(reread[h]) == h
    {
      RestoredBlock(order, m[h]);
    }
    WriteThenRead(keys, m, serialize, BlockOrBlank, BlockKey, reread);
  }

  lemma RestoredBlock(order: set<Text> -> seq<Text>, b: Block)
    requires Ordering(order) && CompactBlock(b)
    ensures BlockOrBlank(BlockBytes(order, b)) == Reread(order, b)
    ensures BlockKey(Reread(order, b)) == b.key
  {
    BlockRoundTrip(order, b);
    RereadIs(order, b);
    hide BlockBytes, BlockOf, Reread, Ordering, CompactBlock;
  }

  // ---------------------------------------------------------------- through the disk

  /** What each record takes on disk, its length included. */
  ghost function DiskSizes<K, R>(m: map<K, R>, serialize: R -> seq<Byte>): (s: map<K, nat>)
    ensures s.Keys == m.Keys
  {
    map k | k in m :: 4 + |serialize(m[k])|
  }

  /** The whole file stays within a 32-bit length. */
  ghost predicate FitsDisk<K, R>(m: map<K, R>, serialize: R -> seq<Byte>) {
    Total(DiskSizes(m, serialize)) < UINT_LIMIT
  }

  lemma RecordFits<K, R>(m: map<K, R>, serialize: R -> seq<Byte>)
    requires FitsDisk(m, serialize)
    ensures forall k :: k in m ==> |serialize(m[k])| < UINT_LIMIT
  {
    forall k | k in m ensures |serialize(m[k])| < UINT_LIMIT {
      TotalBounds(DiskSizes(m, serialize), k);
    }
  }

  /** The file is as long as all records together, in whatever order they are written. */
  lemma {:induction false} FileLength<K(!new), R>(keys: seq<K>, m: map<K, R>, serialize: R -> seq<Byte>)
    requires Lists(keys, m.Keys) && FitsDisk(m, serialize)
    ensures forall k :: k in keys ==> k in m
    ensures Fits(Images(keys, m, serialize))
    ensures |FileOf(Images(keys, m, serialize))| == Total(DiskSizes(m, serialize))
    decreases |keys|
  {
    RecordFits(m, serialize);
    ListsTail(keys, m);
    if keys == [] {
      assert DiskSizes(m, serialize) == map[];
    } else {
      var k, rest := keys[0], m - {keys[0]};
      SizesTail(m, k, serialize);
      hide FitsDisk, DiskSizes, Total, Lists, Images, Framed;
      FitsMeans(m, serialize);
      FitsMeans(rest, serialize);
      FileLength(keys[1..], rest, serialize);
      ImagesHead(keys, m, serialize);
      FramedLength(serialize(m[k]));
    }
  }

  lemma ListsTail<K(!new), R>(keys: seq<K>, m: map<K, R>)
    requires Lists(keys, m.Keys)
    ensures forall k :: k in keys ==> k in m
    ensures keys == [] ==> m == map[]
    ensures keys != [] ==> Lists(keys[1..], (m - {keys[0]}).Keys)
  {
    if keys != [] {
      forall j | j in (m - {keys[0]}).Keys ensures j in keys[1..] {
        assert j in keys;
      }
    }
  }

  lemma SizesTail<K, R>(m: map<K, R>, k: K, serialize: R -> seq<Byte>)
    requires k in m
    ensures Total(DiskSizes(m, serialize)) == 4 + |serialize(m[k])| + Total(DiskSizes(m - {k}, serialize))
  {
    TotalRemove(DiskSizes(m, serialize), k);
    assert DiskSizes(m, serialize) - {k} == DiskSizes(m - {k}, serialize);
  }

  lemma ImagesHead<K(!new), R>(keys: seq<K>, m: map<K, R>, serialize: R -> seq<Byte>)
    requires Lists(keys, m.Keys) && keys != []
    ensures forall k :: k in keys ==> k in m
    ensures forall k :: k in keys[1..] ==> k in m - {keys[0]}
    ensures Images(keys, m, serialize) == [serialize(m[keys[0]])] + Images(keys[1..], m - {keys[0]}, serialize)
  {
  }

  lemma FramedLength(data: seq<Byte>)
    requires |data| < UINT_LIMIT
    ensures |Framed(data)| == 4 + |data|
  {
  }

  /** Saving the accounts and reading them back changes nothing. */
  method ReloadAccounts(db: Database<Text, Account>)
    requires db.serialize == AccountBytes && db.deserialize == AccountOf && db.keyOf == AccountKey
    requires OwnKeys(db.records) && FitsDisk(db.records, AccountBytes)
    modifies db
    ensures db.records == old(db.records)
  {
    ghost var m := db.records;
    RecordFits(m, AccountBytes);
    hide AccountBytes, AccountOf, Images, Loaded, Lists, FileOf, FitsDisk;
    forall k | k in m ensures AccountOf(AccountBytes(m[k])) == m[k] {
      AccountRoundTrip(m[k]);
    }
    ghost var keys := db.WriteToDisk();
    FileLength(keys, m, AccountBytes);
    FitsMeans(m, AccountBytes);
    db.ReadIntoMemory(Images(keys, m, AccountBytes));
    WriteThenRead(keys, m, AccountBytes, AccountOf, AccountKey, m);
  }

  lemma FitsMeans<K, R>(m: map<K, R>, serialize: R -> seq<Byte>)
    ensures FitsDisk(m, serialize) <==> Total(DiskSizes(m, serialize)) < UINT_LIMIT
  {
  }

  /** Saving the blocks and reading them back leaves each block in its reread form under its key. */
  method ReloadBlocks(db: Database<Hash, Block>, ghost order: set<Text> -> seq<Text>)
    requires Ordering(order) && forall b :: db.serialize(b) == BlockBytes(order, b)
    requires db.deserialize == BlockOrBlank && db.keyOf == BlockKey
    requires forall h :: h in db.records ==> db.records[h].key == h && CompactBlock(db.records[h])
    requires FitsDisk(db.records, db.serialize)
    modifies db
    ensures db.records == RereadAll(order, old(db.records))
  {
    ghost var m := db.records;
    RecordFits(m, db.serialize);
    hide Images, Loaded, Lists, FileOf, FitsDisk, BlockBytes, BlockOrBlank, RereadAll, CompactBlock, Ordering;
    ghost var keys := db.WriteToDisk();
    FileLength(keys, m, db.serialize);
    FitsMeans(m, db.serialize);
    db.ReadIntoMemory(Images(keys, m, db.serialize));
    BlocksRestored(order, db.serialize, m, keys);
  }

  // ---------------------------------------------------------------- records in bytes

  /** Where the fields of an account lie. */
  lemma AccountLayout(a: Account)
    ensures var data := AccountBytes(a);
      && |data| == 20 + |a.key| && Bytes2Uint64(data, 0) == a.balance && Bytes2Uint64(data, 8) == a.shares
      && Bytes2Uint(data, 16) == a.blocksFound && data[20..] == a.key
  {
    hide Uint2Bytes, Uint2Bytes64, Bytes2Uint, Bytes2Uint64;
    var data := AccountBytes(a);
    assert data[0..0 + 8] == Uint2Bytes64(a.balance) && data[8..8 + 8] == Uint2Bytes64(a.shares);
    assert data[16..16 + 4] == Uint2Bytes(a.blocksFound);
    Uint64RoundTrip(data, 0, a.balance);
    Uint64RoundTrip(data, 8, a.shares);
    UintRoundTrip(data, 16, a.blocksFound);
  }

  /** Word i of a hash lies at place 4i. */
  lemma {:induction false} HashLayout(words: seq<Uint>, i: nat)
    requires i < |words|
    ensures Bytes2Uint(HashBytes(words), 4 * i) == words[i]
    decreases i
  {
    hide Uint2Bytes;
    var b := HashBytes(words);
    if i == 0 {
      hide Bytes2Uint;
      assert b[0..0 + 4] == Uint2Bytes(words[0]);
      UintRoundTrip(b, 0, words[0]);
    } else {
      HashLayout(words[1..], i - 1);
      assert b[4..] == HashBytes(words[1..]);
      assert forall j :: 0 <= j < |b| - 4 ==> b[4 + j] == HashBytes(words[1..])[j];
    }
  }

  /** A payout of 258 to the address AB with a fee of 3, and a credit of 7 to C. */
  lemma ListsInBytes()
    ensures PayoutBytes(Payout(0, map[[65, 66] := 258], 0, 3), [[65, 66]])
      == [1, 0, 0, 0, 3, 0, 0, 0, 0, 2, 65, 66, 0, 0, 1, 2, 0, 0, 0, 0]
    ensures CreditBytes(map[[67] := 7], [[67]]) == [1, 1, 67, 0, 0, 0, 7, 0, 0, 0, 0]
  {
    OneEntry([65, 66], 258);
    OneEntry([67], 7);
    NumbersInBytes();
    hide Entry, Entries, Uint2Bytes64;
  }

  lemma NumbersInBytes()
    ensures Uint2Bytes64(258) == [0, 0, 1, 2, 0, 0, 0, 0] && Uint2Bytes64(7) == [0, 0, 0, 7, 0, 0, 0, 0]
    ensures Uint2Bytes64(3) == [0, 0, 0, 3, 0, 0, 0, 0]
  {
  }

  lemma OneEntry(k: Text, v: Word)
    requires |k| < 0x100
    ensures |map[k := v]| == 1 && Entries([k], map[k := v]) == [|k|] + k + Uint2Bytes64(v)
  {
    hide Uint2Bytes64;
    EntriesHead([k], map[k := v]);
  }
}
