/** Skein hashing on top of the block function: a buffer that always holds back the last block,
    so that the final flag can still be set on it, and counter-mode output. */
module SkeinHash {
  import opened Bits
  import opened Words
  import opened Threefish
  import opened SkeinBlock

  const TYPE_MSG: Word := 0x3000_0000_0000_0000
  const TYPE_OUT: Word := 0x3F00_0000_0000_0000

  // ---------------------------------------------------------------- storing words

  /** Byte n of the little-endian image of the words. */
  function ByteOf(x: seq<Word>, n: nat): Byte
    requires n < 8 * |x|
  {
    StoreWord(x[n / 8])[n % 8]
  }

  function StoreWords(x: seq<Word>, n: nat): (b: seq<Byte>)
    requires n <= 8 * |x|
    ensures |b| == n
  {
    seq(n, i requires 0 <= i < n => ByteOf(x, i))
  }

  // ---------------------------------------------------------------- message so far

  /** Full blocks that may be processed: the last 1..B bytes are always held back. */
  function Ready(v: Variant, len: nat): (n: nat)
    requires v.Valid()
    ensures n * (8 * v.words) <= len <= n * (8 * v.words) + 8 * v.words
    ensures len > 0 ==> n * (8 * v.words) < len
  {
    if len <= 8 * v.words then 0 else 1 + Ready(v, len - 8 * v.words)
  }

  /** The context is the one that message msg leads to from chain c with an empty buffer. */
  ghost predicate Holds(ctx: Context, c: Chain, msg: seq<Byte>)
    reads ctx, ctx.x, ctx.b
  {
    && ctx.Valid() && ValidChain(ctx.v, c)
    && var n := Ready(ctx.v, |msg|);
    && ctx.Chained() == Blocks(ctx.v, c, msg, n, 8 * ctx.v.words)
    && ctx.b[..ctx.bCnt] == msg[n * (8 * ctx.v.words)..]
  }

  lemma {:induction false} BlocksPrefix(v: Variant, c: Chain, msg: seq<Byte>, more: seq<Byte>, n: nat, add: Word)
    requires ValidChain(v, c) && n * (8 * v.words) <= |msg|
    ensures Blocks(v, c, msg + more, n, add) == Blocks(v, c, msg, n, add)
  {
    hide *;
    if n == 0 {
      NoBlocks(v, c, msg, add);
      NoBlocks(v, c, msg + more, add);
    } else {
      OneLess(n, 8 * v.words);
      MulMonotone(8 * v.words, 0, n - 1);
      BlocksPrefix(v, c, msg, more, n - 1, add);
      BlocksNext(v, c, msg, n - 1, add);
      BlocksNext(v, c, msg + more, n - 1, add);
      var at := (n - 1) * (8 * v.words);
      assert (msg + more)[at..at + 8 * v.words] == msg[at..at + 8 * v.words];
      SameWords(v, msg, n - 1, at, msg + more, n - 1, at);
    }
  }

  /** Equal bytes at two places are equal blocks. */
  lemma SameWords(v: Variant, a: seq<Byte>, i: nat, x: nat, b: seq<Byte>, j: nat, y: nat)
    requires x == i * (8 * v.words) && x + 8 * v.words <= |a|
    requires y == j * (8 * v.words) && y + 8 * v.words <= |b|
    requires a[x..x + 8 * v.words] == b[y..y + 8 * v.words]
    ensures (i + 1) * (8 * v.words) <= |a| && (j + 1) * (8 * v.words) <= |b|
    ensures BlockWords(v, a, i) == BlockWords(v, b, j)
  {
    hide LoadWords;
    OneLess(i + 1, 8 * v.words);
    OneLess(j + 1, 8 * v.words);
  }

  /** Processing k blocks and then n more is processing k + n. */
  lemma {:induction false} BlocksConcat(v: Variant, c: Chain, a: seq<Byte>, b: seq<Byte>, k: nat, n: nat, add: Word)
    requires ValidChain(v, c) && k * (8 * v.words) == |a| && n * (8 * v.words) <= |b|
    ensures (k + n) * (8 * v.words) == |a| + n * (8 * v.words)
    ensures Blocks(v, Blocks(v, c, a, k, add), b, n, add) == Blocks(v, c, a + b, k + n, add)
    decreases n
  {
    hide *;
    Distribute(8 * v.words, k, n);
    if n == 0 {
      BlocksPrefix(v, c, a, b, k, add);
      NoBlocks(v, Blocks(v, c, a, k, add), b, add);
    } else {
      OneLess(n, 8 * v.words);
      BlocksConcat(v, c, a, b, k, n - 1, add);
      var at := (n - 1) * (8 * v.words);
      Distribute(8 * v.words, k, n - 1);
      assert (a + b)[|a| + at..|a| + at + 8 * v.words] == b[at..at + 8 * v.words];
      SameWords(v, b, n - 1, at, a + b, k + (n - 1), |a| + at);
      BlocksNext(v, c, a + b, k + (n - 1), add);
      BlocksNext(v, Blocks(v, c, a, k, add), b, n - 1, add);
    }
  }

  /** The tweak that n blocks leave behind: the byte count, and no first flag once a block ran. */
  lemma {:induction false} BlocksTweak(v: Variant, c: Chain, msg: seq<Byte>, n: nat, add: Word)
    requires ValidChain(v, c) && n * (8 * v.words) <= |msg|
    ensures Blocks(v, c, msg, n, add).t0 == (c.t0 + add * n) % WORD_LIMIT
    ensures Blocks(v, c, msg, n, add).t1 == if n == 0 then c.t1 else ClearFirst(c.t1)
  {
    hide *;
    if n == 0 {
      NoBlocks(v, c, msg, add);
    } else {
      OneLess(n, 8 * v.words);
      BlocksTweak(v, c, msg, n - 1, add);
      BlocksNext(v, c, msg, n - 1, add);
      StepTweak(v, Blocks(v, c, msg, n - 1, add), BlockWords(v, msg, n - 1), add);
      CountOneMore(c.t0, add, n);
      ClearTwice(c.t1);
    }
  }

  lemma StepTweak(v: Variant, c: Chain, w: seq<Word>, add: Word)
    requires ValidChain(v, c) && |w| == v.words
    ensures BlockStep(v, c, w, add).t0 == Add(c.t0, add) && BlockStep(v, c, w, add).t1 == ClearFirst(c.t1)
  {
  }

  lemma CountOneMore(t0: Word, add: Word, n: nat)
    requires n > 0
    ensures Add((t0 + add * (n - 1)) % WORD_LIMIT, add) == (t0 + add * n) % WORD_LIMIT
  {
    MulMonotone(add, 0, n - 1);
    Distribute(add, n - 1, 1);
    AddWraps(t0 + add * (n - 1), add);
  }

  lemma ClearTwice(t1: Word)
    ensures ClearFirst(ClearFirst(t1)) == ClearFirst(t1)
  {
  }

  // ---------------------------------------------------------------- update

  /** Append bytes to the block buffer. */
  method FillBuffer(ctx: Context, m: seq<Byte>)
    requires ctx.Valid() && ctx.bCnt + |m| <= ctx.b.Length
    modifies ctx`bCnt, ctx.b
    ensures ctx.Valid() && ctx.bCnt == old(ctx.bCnt) + |m|
    ensures ctx.b[..ctx.bCnt] == old(ctx.b[..ctx.bCnt]) + m
  {
    for i := 0 to |m|
      invariant ctx.bCnt == old(ctx.bCnt)
      invariant ctx.b[..ctx.bCnt] == old(ctx.b[..ctx.bCnt])
      invariant ctx.b[ctx.bCnt..ctx.bCnt + i] == m[..i]
    {
      ctx.b[ctx.bCnt + i] := m[i];
    }
    assert ctx.b[..ctx.bCnt + |m|] == ctx.b[..ctx.bCnt] + ctx.b[ctx.bCnt..ctx.bCnt + |m|];
    ctx.bCnt := ctx.bCnt + |m|;
  }

  lemma OneLess(n: nat, size: nat)
    ensures n == 0 ==> n * size == 0
    ensures n > 0 ==> n * size == (n - 1) * size + size >= size
  {
    if n > 0 {
      Distribute(size, n - 1, 1);
      MulMonotone(size, 0, n - 1);
    }
  }

  lemma {:induction false} ReadyUnique(v: Variant, len: nat, n: nat)
    requires v.Valid() && n * (8 * v.words) < len <= n * (8 * v.words) + 8 * v.words
    ensures Ready(v, len) == n
    decreases n
  {
    var size := 8 * v.words;
    assert size > 0;
    hide Variant.Valid;
    OneLess(n, size);
    if n > 0 {
      ReadyUnique(v, len - size, n - 1);
    }
  }

  /** The buffer was just flushed: all of msg, k whole blocks, has been processed. */
  ghost predicate Flushed(ctx: Context, c: Chain, msg: seq<Byte>, k: nat)
    reads ctx, ctx.x
  {
    && ctx.Valid() && ValidChain(ctx.v, c) && ctx.bCnt == 0
    && k * (8 * ctx.v.words) == |msg|
    && ctx.Chained() == Blocks(ctx.v, c, msg, k, 8 * ctx.v.words)
  }

  method ProcessMore(ctx: Context, blk: seq<Byte>, n: nat, ghost used: seq<Byte>, ghost c: Chain, ghost msg: seq<Byte>, ghost k: nat)
    requires Flushed(ctx, c, msg, k) && 0 < n && used <= blk && |used| == n * (8 * ctx.v.words)
    modifies ctx`t0, ctx`t1, ctx.x
    ensures Flushed(ctx, c, msg + used, k + n)
  {
    hide Blocks;
    assert 8 * ctx.v.words < WORD_LIMIT;
    ghost var size := 8 * ctx.v.words;
    assert blk == used + blk[|used|..];
    BlocksPrefix(ctx.v, ctx.Chained(), used, blk[|used|..], n, size);
    BlocksConcat(ctx.v, c, msg, used, k, n, size);
    ProcessBlock(ctx, blk, n, 8 * ctx.v.words, ctx.v == T1024);
  }

  /** The bytes after a flush go to the buffer: with at most one block of them, exactly the last
      1..B bytes of the message are held back again. */
  method KeepRest(ctx: Context, m: seq<Byte>, ghost c: Chain, ghost msg: seq<Byte>, ghost k: nat)
    requires Flushed(ctx, c, msg, k) && 0 < |m| <= 8 * ctx.v.words
    modifies ctx`bCnt, ctx.b
    ensures Holds(ctx, c, msg + m)
  {
    hide Blocks;
    ReadyUnique(ctx.v, |msg + m|, k);
    BlocksPrefix(ctx.v, c, msg, m, k, 8 * ctx.v.words);
    FillBuffer(ctx, m);
  }

  /** Fill a partly filled buffer up to a whole block and process it. */
  method FinishBuffered(ctx: Context, m: seq<Byte>, ghost c: Chain, ghost msg: seq<Byte>)
    requires Holds(ctx, c, msg) && 0 < ctx.bCnt && ctx.bCnt + |m| == 8 * ctx.v.words
    modifies ctx`bCnt, ctx`t0, ctx`t1, ctx.x, ctx.b
    ensures Flushed(ctx, c, msg + m, Ready(ctx.v, |msg|) + 1)
  {
    hide Blocks;
    ghost var k := Ready(ctx.v, |msg|);
    ghost var done, held := msg[..k * (8 * ctx.v.words)], msg[k * (8 * ctx.v.words)..];
    assert msg == done + held;
    BlocksPrefix(ctx.v, c, done, held, k, 8 * ctx.v.words);
    FillBuffer(ctx, m);
    ctx.bCnt := 0;
    assert ctx.b[..] == held + m;
    ProcessMore(ctx, ctx.b[..], 1, held + m, c, done, k);
    assert done + (held + m) == msg + m;
  }

  /** Process full blocks straight from the input, keeping back the last 1..B bytes. */
  method ProcessDirect(ctx: Context, m: seq<Byte>, ghost c: Chain, ghost msg: seq<Byte>, ghost k: nat)
    requires Flushed(ctx, c, msg, k) && |m| > 0
    modifies ctx`bCnt, ctx`t0, ctx`t1, ctx.x, ctx.b
    ensures Holds(ctx, c, msg + m)
  {
    hide Blocks;
    var size := 8 * ctx.v.words;
    if |m| > size {
      var n := (|m| - 1) / size;
      FullBlocks(|m| - 1, size, n);
      ProcessMore(ctx, m, n, m[..n * size], c, msg, k);
      KeepRest(ctx, m[n * size..], c, msg + m[..n * size], k + n);
      assert msg + m[..n * size] + m[n * size..] == msg + m;
    } else {
      KeepRest(ctx, m, c, msg, k);
    }
  }

  lemma FullBlocks(len: nat, size: nat, n: nat)
    requires len >= size > 0 && n == len / size
    ensures n > 0 && n * size <= len < n * size + size
  {
  }

  /** Hash more bytes. The context depends on the concatenated message alone, however it was cut
      into calls: every full block except the held-back one has been processed. */
  method Update(ctx: Context, data: seq<Byte>, ghost c: Chain, ghost sofar: seq<Byte>)
    requires Holds(ctx, c, sofar)
    modifies ctx`bCnt, ctx`t0, ctx`t1, ctx.x, ctx.b
    ensures Holds(ctx, c, sofar + data)
  {
    hide Blocks;
    var size := 8 * ctx.v.words;
    if |data| + ctx.bCnt > size {
      if ctx.bCnt > 0 {
        var n := size - ctx.bCnt;
        ghost var k := Ready(ctx.v, |sofar|) + 1;
        FinishBuffered(ctx, data[..n], c, sofar);
        ProcessDirect(ctx, data[n..], c, sofar + data[..n], k);
        assert sofar + data[..n] + data[n..] == sofar + data;
      } else {
        EmptyHolds(ctx, c, sofar);
        ProcessDirect(ctx, data, c, sofar, 0);
      }
    } else if |data| > 0 {
      KeepShort(ctx, data, c, sofar);
    } else {
      assert sofar + data == sofar;
    }
  }

  /** Input that fits behind the buffered bytes is only copied. */
  method KeepShort(ctx: Context, m: seq<Byte>, ghost c: Chain, ghost sofar: seq<Byte>)
    requires Holds(ctx, c, sofar) && 0 < |m| && |m| + ctx.bCnt <= 8 * ctx.v.words
    modifies ctx`bCnt, ctx.b
    ensures Holds(ctx, c, sofar + m)
  {
    hide Blocks;
    ghost var n := Ready(ctx.v, |sofar|);
    ReadyUnique(ctx.v, |sofar + m|, n);
    BlocksPrefix(ctx.v, c, sofar, m, n, 8 * ctx.v.words);
    FillBuffer(ctx, m);
  }

  lemma EmptyHolds(ctx: Context, c: Chain, msg: seq<Byte>)
    requires Holds(ctx, c, msg) && ctx.bCnt == 0
    ensures msg == [] && Flushed(ctx, c, msg, 0)
  {
  }

  // ---------------------------------------------------------------- final block and output

  function SetFinal(t1: Word): Word {
    if t1 >= FLAG_FINAL then t1 else t1 + FLAG_FINAL
  }

  /** The end of the message that no full block has taken yet. */
  function HeldBack(v: Variant, msg: seq<Byte>): (held: seq<Byte>)
    requires v.Valid()
    ensures |held| <= 8 * v.words && |held| == |msg| - Ready(v, |msg|) * (8 * v.words)
  {
    msg[Ready(v, |msg|) * (8 * v.words)..]
  }

  /** The chain in front of the last block. */
  function BeforeLast(v: Variant, c: Chain, msg: seq<Byte>): (r: Chain)
    requires ValidChain(v, c)
    ensures ValidChain(v, r)
  {
    Blocks(v, c, msg, Ready(v, |msg|), 8 * v.words)
  }

  /** The chain after the last block of msg: the held-back bytes, zero padded, counted without
      the padding, and flagged final. An empty message still makes one block. */
  function Finished(v: Variant, c: Chain, msg: seq<Byte>): (r: Chain)
    requires ValidChain(v, c)
    ensures ValidChain(v, r)
  {
    var before, held := BeforeLast(v, c, msg), HeldBack(v, msg);
    BlockStep(v, Chain(before.x, before.t0, SetFinal(before.t1)),
      LoadWords(held + Zeros(8 * v.words - |held|), v.words), |held|)
  }

  /** Output block i: the finished chaining words are the key, the counter is the message. */
  function OutputBlock(v: Variant, x: seq<Word>, i: Word): (y: seq<Word>)
    requires ValidChain(v, Chain(x, 0, 0))
    ensures |y| == v.words
  {
    BlockStep(v, Chain(x, 0, FLAG_FINAL + FLAG_FIRST + TYPE_OUT),
      LoadWords(StoreWord(i) + Zeros(8 * v.words - 8), v.words), 8).x
  }

  /** Byte j of the hash of msg, for a message hashed from chain c. */
  function HashByte(v: Variant, c: Chain, msg: seq<Byte>, j: Word): Byte
    requires ValidChain(v, c)
  {
    OutputByte(v, Finished(v, c, msg).x, j)
  }

  function OutputByte(v: Variant, x: seq<Word>, j: Word): Byte
    requires ValidChain(v, Chain(x, 0, 0))
  {
    var size := 8 * v.words;
    DivBelow(j, size);
    ByteOf(OutputBlock(v, x, j / size), j % size)
  }

  lemma DivBelow(j: nat, size: nat)
    requires size > 0
    ensures 0 <= j / size <= j
  {
    var q := j / size;
    assert j == size * q + j % size;
    MulMonotone(q, 1, size);
  }

  lemma OneBlock(v: Variant, c: Chain, msg: seq<Byte>, add: Word)
    requires ValidChain(v, c) && 1 * (8 * v.words) <= |msg|
    ensures Blocks(v, c, msg, 1, add) == BlockStep(v, c, LoadWords(msg[..8 * v.words], v.words), add)
  {
    hide BlockStep, LoadWords, Variant.Valid;
    OneLess(1, 8 * v.words);
    assert Blocks(v, c, msg, 0, add) == c;
  }

  method FinishMessage(ctx: Context, ghost c: Chain, ghost msg: seq<Byte>)
    requires Holds(ctx, c, msg)
    modifies ctx`t0, ctx`t1, ctx.x, ctx.b
    ensures ctx.Valid() && ctx.Chained() == Finished(ctx.v, c, msg)
    ensures ctx.t0 == (c.t0 + |msg|) % WORD_LIMIT
  {
    hide Blocks, BlockStep, LoadWords;
    var size := 8 * ctx.v.words;
    ctx.t1 := SetFinal(ctx.t1);
    PadBuffer(ctx);
    ghost var last := HeldBack(ctx.v, msg) + Zeros(size - ctx.bCnt);
    assert last[..size] == last;
    OneBlock(ctx.v, ctx.Chained(), last, ctx.bCnt);
    ProcessBlock(ctx, ctx.b[..], 1, ctx.bCnt, ctx.v == T1024);
    FinishedCount(ctx.v, c, msg);
  }

  /** Setting the final flag sets bit 63 and leaves the other bits. */
  lemma SetFinalBits(t1: Word, i: nat)
    requires i < 64
    ensures Bit(SetFinal(t1), i) == (i == 63 || Bit(t1, i))
  {
    TopPower();
    hide Pow2;
    TopBitOff(t1, 63, i);
    if t1 < FLAG_FINAL {
      BitPutOn(t1, 63, i);
    }
  }

  lemma LastTweak(v: Variant, c: Chain, msg: seq<Byte>)
    requires ValidChain(v, c)
    ensures (BeforeLast(v, c, msg).t0 + |HeldBack(v, msg)|) % WORD_LIMIT == (c.t0 + |msg|) % WORD_LIMIT
    ensures BeforeLast(v, c, msg).t1 == if |msg| <= 8 * v.words then c.t1 else ClearFirst(c.t1)
  {
    hide Blocks, ClearFirst, HeldBack;
    var n, size := Ready(v, |msg|), 8 * v.words;
    BlocksTweak(v, c, msg, n, size);
    WrapOnce(c.t0 + size * n, |HeldBack(v, msg)|);
  }

  /** The position after the last block is the message length: padding is not counted. */
  lemma FinishedCount(v: Variant, c: Chain, msg: seq<Byte>)
    requires ValidChain(v, c)
    ensures Finished(v, c, msg).t0 == (c.t0 + |msg|) % WORD_LIMIT
  {
    assert v.words <= 16;
    hide BeforeLast, HeldBack, LoadWords, Add, Encrypt, ClearFirst, SetFinal, Variant.Valid;
    LastTweak(v, c, msg);
    AddIs(BeforeLast(v, c, msg).t0, |HeldBack(v, msg)|);
  }

  /** Afterwards the final bit is set, the first bit is clear, and the others are as before. */
  lemma FinishedFlags(v: Variant, c: Chain, msg: seq<Byte>, i: nat)
    requires ValidChain(v, c) && i < 64
    ensures Bit(Finished(v, c, msg).t1, i) == (i == 63 || (i != 62 && Bit(c.t1, i)))
  {
    hide BeforeLast, HeldBack, LoadWords, Add, Encrypt, ClearFirst, SetFinal, Bit, Variant.Valid;
    LastTweak(v, c, msg);
    var before := BeforeLast(v, c, msg);
    ClearFirstBits(c.t1, i);
    SetFinalBits(before.t1, i);
    ClearFirstBits(SetFinal(before.t1), i);
  }

  lemma StepDecryptsAs(v: Variant, c: Chain, w: seq<Word>, add: Word, t0: Word, after: seq<Word>)
    requires ValidChain(v, c) && |w| == v.words
    requires t0 == (c.t0 + add) % WORD_LIMIT && after == BlockStep(v, c, w, add).x
    ensures Recovers(v, c.x, t0, c.t1, after, w)
  {
    hide BlockStep, Recovers;
    StepDecrypts(v, c, w, add);
  }

  /** Full block i is encrypted at position (i + 1) * add, with the first flag only if i is 0. */
  lemma BlockDecrypts(v: Variant, c: Chain, msg: seq<Byte>, i: nat, add: Word, at: Word)
    requires ValidChain(v, c) && i * (8 * v.words) <= |msg| && (i + 1) * (8 * v.words) <= |msg|
    requires at == (c.t0 + add * (i + 1)) % WORD_LIMIT
    ensures Recovers(v, Blocks(v, c, msg, i, add).x, at, if i == 0 then c.t1 else ClearFirst(c.t1),
      Blocks(v, c, msg, i + 1, add).x, BlockWords(v, msg, i))
  {
    hide Blocks, BlockStep, BlockWords, Recovers, ClearFirst, Variant.Valid;
    var before := Blocks(v, c, msg, i, add);
    BlocksNext(v, c, msg, i, add);
    BlocksTweak(v, c, msg, i, add);
    CountBlock(c.t0, before.t0, add, i);
    StepDecryptsAs(v, before, BlockWords(v, msg, i), add, at, Blocks(v, c, msg, i + 1, add).x);
  }

  lemma CountBlock(t0: Word, before: Word, add: Word, i: nat)
    requires before == (t0 + add * i) % WORD_LIMIT
    ensures (before + add) % WORD_LIMIT == (t0 + add * (i + 1)) % WORD_LIMIT
  {
    hide Add;
    CountOneMore(t0, add, i + 1);
    AddIs(before, add);
  }

  /** The tweak word with the bits that the last block needs is the one it gets. */
  lemma LastFlags(v: Variant, c: Chain, msg: seq<Byte>, t1: Word)
    requires ValidChain(v, c)
    requires forall i: nat :: i < 64 ==>
      Bit(t1, i) == (i == 63 || (Bit(c.t1, i) && (i != 62 || |msg| <= 8 * v.words)))
    ensures SetFinal(BeforeLast(v, c, msg).t1) == t1
  {
    hide BeforeLast, ClearFirst, SetFinal, Bit;
    var before := BeforeLast(v, c, msg);
    LastTweak(v, c, msg);
    forall i: nat | i < 64
      ensures Bit(t1, i) == Bit(SetFinal(before.t1), i)
    {
      ClearFirstBits(c.t1, i);
      SetFinalBits(before.t1, i);
    }
    SameWord(t1, SetFinal(before.t1));
  }

  /** The last block, what was held back and then zeros, is encrypted at the length of the
      message under a tweak whose final bit is set, whose first bit is kept only by a message of
      at most one block, and whose other bits are those of the chain. */
  lemma LastDecrypts(v: Variant, c: Chain, msg: seq<Byte>, t1: Word)
    requires ValidChain(v, c)
    requires forall i: nat :: i < 64 ==>
      Bit(t1, i) == (i == 63 || (Bit(c.t1, i) && (i != 62 || |msg| <= 8 * v.words)))
    ensures Recovers(v, BeforeLast(v, c, msg).x, (c.t0 + |msg|) % WORD_LIMIT, t1, Finished(v, c, msg).x,
      LoadWords(HeldBack(v, msg) + Zeros(8 * v.words - |HeldBack(v, msg)|), v.words))
  {
    hide BeforeLast, HeldBack, BlockStep, Recovers, SetFinal, Bit, LoadWords;
    LastFlags(v, c, msg, t1);
    LastTweak(v, c, msg);
    var before, held := BeforeLast(v, c, msg), HeldBack(v, msg);
    StepDecryptsAs(v, Chain(before.x, before.t0, t1), LoadWords(held + Zeros(8 * v.words - |held|), v.words), |held|,
      (c.t0 + |msg|) % WORD_LIMIT, Finished(v, c, msg).x);
  }

  method PadBuffer(ctx: Context)
    requires ctx.Valid()
    modifies ctx.b
    ensures ctx.b[..] == old(ctx.b[..ctx.bCnt]) + Zeros(8 * ctx.v.words - ctx.bCnt)
  {
    for i := ctx.bCnt to 8 * ctx.v.words
      invariant ctx.b[..ctx.bCnt] == old(ctx.b[..ctx.bCnt])
      invariant forall j :: ctx.bCnt <= j < i ==> ctx.b[j] == 0
    {
      ctx.b[i] := 0;
    }
    assert ctx.b[..] == ctx.b[..ctx.bCnt] + ctx.b[ctx.bCnt..];
  }

  /** The finished chaining words as bytes, without an output stage. */
  method FinalPad(ctx: Context, ghost c: Chain, ghost msg: seq<Byte>) returns (hash: seq<Byte>)
    requires Holds(ctx, c, msg)
    modifies ctx`t0, ctx`t1, ctx.x, ctx.b
    ensures hash == StoreWords(Finished(ctx.v, c, msg).x, 8 * ctx.v.words)
  {
    FinishMessage(ctx, c, msg);
    hash := StoreWords(ctx.x[..], 8 * ctx.v.words);
  }

  /** Run the block function on counter i under the saved key words. */
  method RunCounter(ctx: Context, i: Word, ghost key: seq<Word>)
    requires ctx.Valid() && ctx.x[..] == key && ctx.b[8..] == Zeros(8 * ctx.v.words - 8)
    modifies ctx`bCnt, ctx`t0, ctx`t1, ctx.x, ctx.b
    ensures ctx.Valid() && ctx.x[..] == OutputBlock(ctx.v, key, i)
    ensures ctx.b[8..] == Zeros(8 * ctx.v.words - 8)
  {
    hide BlockStep, LoadWords, StoreWord, Blocks;
    var counter := StoreWord(i);
    StoreCounter(ctx, counter);
    ctx.t0, ctx.t1, ctx.bCnt := 0, FLAG_FINAL + FLAG_FIRST + TYPE_OUT, 0;
    assert ctx.b[..] == ctx.b[..][..8 * ctx.v.words];
    OneBlock(ctx.v, ctx.Chained(), counter + Zeros(8 * ctx.v.words - 8), 8);
    ProcessBlock(ctx, ctx.b[..], 1, 8, ctx.v == T1024);
  }

  method StoreCounter(ctx: Context, counter: seq<Byte>)
    requires ctx.Valid() && |counter| == 8
    modifies ctx.b
    ensures ctx.b[..] == counter + old(ctx.b[8..])
  {
    for j := 0 to 8
      invariant ctx.b[..j] == counter[..j] && ctx.b[8..] == old(ctx.b[8..])
    {
      ctx.b[j] := counter[j];
    }
    assert ctx.b[..] == ctx.b[..8] + ctx.b[8..];
  }

  /** Finish the hash: output blocks in counter mode, each from the same key words, cut to the
      hash length. */
  method Final(ctx: Context, ghost c: Chain, ghost msg: seq<Byte>) returns (hash: seq<Byte>)
    requires Holds(ctx, c, msg) && ctx.hashBitLen + 7 < WORD_LIMIT
    modifies ctx`bCnt, ctx`t0, ctx`t1, ctx.x, ctx.b
    ensures |hash| == (ctx.hashBitLen + 7) / 8
    ensures forall j :: 0 <= j < |hash| ==> hash[j] == HashByte(ctx.v, c, msg, j)
  {
    hide Finished, OutputByte;
    FinishMessage(ctx, c, msg);
    ctx.bCnt := 0;
    hash := CounterMode(ctx, ctx.x[..]);
  }

  method CounterMode(ctx: Context, key: seq<Word>) returns (hash: seq<Byte>)
    requires ctx.Valid() && ctx.x[..] == key && ctx.hashBitLen + 7 < WORD_LIMIT
    modifies ctx`bCnt, ctx`t0, ctx`t1, ctx.x, ctx.b
    ensures |hash| == (ctx.hashBitLen + 7) / 8
    ensures forall j :: 0 <= j < |hash| ==> hash[j] == OutputByte(ctx.v, key, j)
  {
    hide OutputBlock, ByteOf, OutputByte, StoreWords;
    var size := 8 * ctx.v.words;
    var byteCnt := (ctx.hashBitLen + 7) / 8;
    forall i | 0 <= i < size { ctx.b[i] := 0; }
    hash := [];
    var i := 0;
    ghost var at := 0;
    while i * size < byteCnt
      invariant ctx.Valid() && ctx.x[..] == key && ctx.b[8..] == Zeros(size - 8)
      invariant i <= at == i * size
      invariant |hash| == if at < byteCnt then at else byteCnt
      invariant forall j :: 0 <= j < |hash| ==> hash[j] == OutputByte(ctx.v, key, j)
      decreases byteCnt - at
    {
      var n := if byteCnt - i * size >= size then size else byteCnt - i * size;
      var part := OutputPart(ctx, key, i, n);
      hash := hash + part;
      Distribute(size, i, 1);
      i, at := i + 1, at + size;
    }
  }

  /** One turn of counter mode: output block i, cut to n bytes, and the key words put back. */
  method OutputPart(ctx: Context, key: seq<Word>, i: Word, n: nat) returns (part: seq<Byte>)
    requires ctx.Valid() && ctx.x[..] == key && ctx.b[8..] == Zeros(8 * ctx.v.words - 8)
    requires n <= 8 * ctx.v.words && i * (8 * ctx.v.words) + n < WORD_LIMIT
    modifies ctx`bCnt, ctx`t0, ctx`t1, ctx.x, ctx.b
    ensures ctx.Valid() && ctx.x[..] == key && ctx.b[8..] == Zeros(8 * ctx.v.words - 8)
    ensures |part| == n
    ensures forall j :: 0 <= j < n ==> part[j] == OutputByte(ctx.v, key, i * (8 * ctx.v.words) + j)
  {
    hide OutputBlock, ByteOf;
    RunCounter(ctx, i, key);
    part := StoreWords(ctx.x[..], n);
    hide StoreWords, OutputByte;
    forall j | 0 <= j < n
      ensures part[j] == OutputByte(ctx.v, key, i * (8 * ctx.v.words) + j)
    {
      ByteOfBlock(ctx.v, key, i, n, j);
    }
    forall j | 0 <= j < |key| { ctx.x[j] := key[j]; }
  }

  lemma ByteOfBlock(v: Variant, key: seq<Word>, i: Word, n: nat, j: nat)
    requires ValidChain(v, Chain(key, 0, 0)) && j < n <= 8 * v.words
    requires 0 <= i * (8 * v.words) + j < WORD_LIMIT
    ensures StoreWords(OutputBlock(v, key, i), n)[j] == OutputByte(v, key, i * (8 * v.words) + j)
  {
    hide OutputBlock, ByteOf;
    DivModUnique(i * (8 * v.words) + j, 8 * v.words, i, j);
  }

  /** Every whole run of output bytes reads back, word by word, as its output block. */
  lemma OutputLoads(v: Variant, x: seq<Word>, i: Word, run: seq<Byte>)
    requires ValidChain(v, Chain(x, 0, 0)) && |run| == 8 * v.words
    requires 0 <= i * (8 * v.words) && i * (8 * v.words) + 8 * v.words <= WORD_LIMIT
    requires forall k :: 0 <= k < 8 * v.words ==> run[k] == OutputByte(v, x, i * (8 * v.words) + k)
    ensures LoadWords(run, v.words) == OutputBlock(v, x, i)
  {
    hide OutputBlock, OutputByte, LoadWord, StoreWord, Variant.Valid;
    var y := OutputBlock(v, x, i);
    forall j | 0 <= j < v.words
      ensures LoadWord(run[8 * j..8 * j + 8]) == y[j]
    {
      forall m | 0 <= m < 8
        ensures run[8 * j + m] == StoreWord(y[j])[m]
      {
        ByteOfBlock(v, x, i, 8 * v.words, 8 * j + m);
        DivModUnique(8 * j + m, 8, j, m);
      }
      assert run[8 * j..8 * j + 8] == StoreWord(y[j]);
      LoadStore(y[j], StoreWord(y[j]));
    }
  }

  // ---------------------------------------------------------------- whole hashes

  const TYPE_CFG: Word := 0x0400_0000_0000_0000
  const SCHEMA_VERSION: Word := 0x1_3341_4853

  function ConfigBlock(v: Variant, hashBitLen: Word): (b: seq<Byte>)
    requires v.Valid()
    ensures |b| == 8 * v.words
  {
    StoreWord(SCHEMA_VERSION) + StoreWord(hashBitLen) + StoreWord(0) + Zeros(8 * v.words - 24)
  }

  /** The chain a message starts from: the configuration block hashed under zero words. */
  function Initial(v: Variant, hashBitLen: Word): (c: Chain)
    requires v.Valid() && v.rounds < 1000
    ensures ValidChain(v, c)
  {
    var zero := seq(v.words, i => 0);
    var cfg := BlockStep(v, Chain(zero, 0, FLAG_FINAL + FLAG_FIRST + TYPE_CFG),
      LoadWords(ConfigBlock(v, hashBitLen), v.words), 32);
    Chain(cfg.x, 0, FLAG_FIRST + TYPE_MSG)
  }

  /** Start a hash from its configuration block. */
  method Init(ctx: Context, hashBitLen: Word)
    requires ctx.Valid()
    modifies ctx`hashBitLen, ctx`bCnt, ctx`t0, ctx`t1, ctx.x
    ensures ctx.hashBitLen == hashBitLen && Holds(ctx, Initial(ctx.v, hashBitLen), [])
  {
    hide BlockStep, LoadWords, ConfigBlock;
    ctx.hashBitLen := hashBitLen;
    ctx.t0, ctx.t1, ctx.bCnt := 0, FLAG_FINAL + FLAG_FIRST + TYPE_CFG, 0;
    forall i | 0 <= i < ctx.v.words { ctx.x[i] := 0; }
    var cfg := ConfigBlock(ctx.v, hashBitLen);
    assert ctx.x[..] == seq(ctx.v.words, i => 0);
    assert cfg[..8 * ctx.v.words] == cfg;
    OneBlock(ctx.v, ctx.Chained(), cfg, 32);
    ProcessBlock(ctx, cfg, 1, 32, ctx.v == T1024);
    ctx.t0, ctx.t1, ctx.bCnt := 0, FLAG_FIRST + TYPE_MSG, 0;
    NoBlocks(ctx.v, ctx.Chained(), [], 8 * ctx.v.words);
  }

  /** The configuration block starts with the schema SHA3 in version 1 and the output length. */
  lemma ConfigLayout(v: Variant, hashBitLen: Word)
    requires v.Valid()
    ensures var b := ConfigBlock(v, hashBitLen);
      && b[..8] == [0x53, 0x48, 0x41, 0x33, 1, 0, 0, 0] && LoadWord(b[8..16]) == hashBitLen
      && forall i :: 16 <= i < 8 * v.words ==> b[i] == 0
  {
    SchemaBytes();
    ZeroBytes(8);
    LoadStore(hashBitLen, StoreWord(0));
    hide StoreWord, LoadWord;
    assert ConfigBlock(v, hashBitLen)[..8] == StoreWord(SCHEMA_VERSION);
    assert ConfigBlock(v, hashBitLen)[8..16] == StoreWord(hashBitLen);
    assert ConfigBlock(v, hashBitLen)[16..24] == StoreWord(0);
    assert ConfigBlock(v, hashBitLen)[24..] == Zeros(8 * v.words - 24);
  }

  lemma SchemaBytes()
    ensures StoreWord(SCHEMA_VERSION) == [0x53, 0x48, 0x41, 0x33, 1, 0, 0, 0]
  {
    assert LowBytes(0x1, 4) == [1, 0, 0, 0];
    assert LowBytes(0x1_3341, 6) == [0x41, 0x33] + LowBytes(0x1, 4);
  }

  lemma {:induction false} ZeroBytes(k: nat)
    ensures LowBytes(0, k) == Zeros(k) && ValueOf(Zeros(k)) == 0
  {
    if k > 0 {
      ZeroBytes(k - 1);
      assert Zeros(k)[1..] == Zeros(k - 1);
    }
  }

  /** A message starts at position 0 as first block of type message, and its chaining words are
      those of the configuration block, encrypted under zero words as only block, at position
      32 and of type configuration. */
  lemma ConfigDecrypts(v: Variant, hashBitLen: Word)
    requires v.Valid() && v.rounds < 1000
    ensures Initial(v, hashBitLen).t0 == 0 && Initial(v, hashBitLen).t1 == 0x7000_0000_0000_0000
    ensures Recovers(v, seq(v.words, i => 0), 32, 0xC400_0000_0000_0000, Initial(v, hashBitLen).x,
      LoadWords(ConfigBlock(v, hashBitLen), v.words))
  {
    hide BlockStep, Recovers, LoadWords, ConfigBlock;
    var cfg := ConfigBlock(v, hashBitLen);
    StepDecryptsAs(v, Chain(seq(v.words, i => 0), 0, 0xC400_0000_0000_0000), LoadWords(cfg, v.words), 32, 32,
      Initial(v, hashBitLen).x);
  }

  /** The counter i and then zeros. */
  function CounterWords(n: nat, i: Word): (w: seq<Word>)
    ensures |w| == n && forall j :: 0 <= j < n ==> w[j] == if j == 0 then i else 0
  {
    seq(n, j => if j == 0 then i else 0)
  }

  lemma CounterBlock(n: nat, i: Word)
    requires n > 0
    ensures LoadWords(StoreWord(i) + Zeros(8 * n - 8), n) == CounterWords(n, i)
  {
    hide StoreWord, LoadWord;
    var b := StoreWord(i) + Zeros(8 * n - 8);
    LoadStore(i, Zeros(8));
    ZeroWord();
    assert b[0..8] == StoreWord(i);
    forall j | 0 < j < n
      ensures LoadWords(b, n)[j] == 0
    {
      assert b[8 * j..8 * j + 8] == Zeros(8);
    }
  }

  lemma ZeroWord()
    ensures LoadWord(Zeros(8)) == 0
  {
    ZeroBytes(8);
  }

  /** Output block i is the counter i and zeros, encrypted under the finished chaining words as
      only block, at position 8 and of type output. */
  lemma OutputDecrypts(v: Variant, x: seq<Word>, i: Word)
    requires ValidChain(v, Chain(x, 0, 0))
    ensures Recovers(v, x, 8, 0xFF00_0000_0000_0000, OutputBlock(v, x, i), CounterWords(v.words, i))
  {
    hide BlockStep, Recovers, LoadWords, StoreWord;
    var b := StoreWord(i) + Zeros(8 * v.words - 8);
    CounterBlock(v.words, i);
    StepDecryptsAs(v, Chain(x, 0, 0xFF00_0000_0000_0000), LoadWords(b, v.words), 8, 8, OutputBlock(v, x, i));
  }

  function Flatten(parts: seq<seq<Byte>>): seq<Byte> {
    if parts == [] then [] else Flatten(parts[..|parts| - 1]) + parts[|parts| - 1]
  }

  /** Initialise, update once per part, finish: the hash is a function of the joined parts. */
  method HashParts(v: Variant, hashBitLen: Word, parts: seq<seq<Byte>>) returns (hash: seq<Byte>)
    requires v.Valid() && v.rounds < 1000 && hashBitLen + 7 < WORD_LIMIT
    ensures |hash| == (hashBitLen + 7) / 8
    ensures forall j :: 0 <= j < |hash| ==> hash[j] == HashByte(v, Initial(v, hashBitLen), Flatten(parts), j)
  {
    hide Initial, HashByte, Blocks, Variant.Valid;
    var ctx := new Context(v);
    Init(ctx, hashBitLen);
    ghost var c := Initial(v, hashBitLen);
    for i := 0 to |parts|
      invariant fresh(ctx) && fresh(ctx.x) && fresh(ctx.b)
      invariant ctx.hashBitLen == hashBitLen && Holds(ctx, c, Flatten(parts[..i]))
    {
      Update(ctx, parts[i], c, Flatten(parts[..i]));
      assert parts[..i + 1][..i] == parts[..i];
    }
    assert parts[..|parts|] == parts;
    hash := Final(ctx, c, Flatten(parts));
  }
}
