/** Keccak hashing of bit strings: messages of any bit length, a domain suffix of up to seven
    bits, and the sponge of FIPS 202, section 4, over bits as the reference. */
module KeccakHash {
  import opened Words
  import opened Bits
  import opened KeccakSponge

  // ---------------------------------------------------------------- bits of bytes

  function LowBits(b: nat, k: nat): (bits: seq<bool>)
    ensures |bits| == k
  {
    seq(k, i requires 0 <= i < k => Bit(b, i))
  }

  function ValueOfBits(s: seq<bool>): nat {
    if s == [] then 0 else (if s[0] then 1 else 0) + 2 * ValueOfBits(s[1..])
  }

  lemma {:induction false} BitsBound(s: seq<bool>)
    ensures ValueOfBits(s) < Pow2(|s|)
  {
    if s != [] {
      BitsBound(s[1..]);
    }
  }

  lemma {:induction false} ValueOfLowBits(b: nat, k: nat)
    requires b < Pow2(k)
    ensures ValueOfBits(LowBits(b, k)) == b
    decreases k
  {
    if k > 0 {
      ValueOfLowBits(b / 2, k - 1);
      assert LowBits(b, k)[1..] == LowBits(b / 2, k - 1);
    }
  }

  /** The bits of a byte string, lowest bit of every byte first. */
  function BitsOf(data: seq<Byte>): (bits: seq<bool>)
    ensures |bits| == 8 * |data|
  {
    seq(8 * |data|, k requires 0 <= k < 8 * |data| => Bit(data[k / 8], k % 8))
  }

  function ByteOfBits(s: seq<bool>): Byte
    requires |s| == 8
  {
    BitsBound(s);
    assert Pow2(8) == 256;
    ValueOfBits(s)
  }

  /** The 200 bytes that a 1600-bit string stands for. */
  function StateOf(bits: seq<bool>): State
    requires |bits| == 8 * STATE_BYTES
  {
    seq<Byte>(STATE_BYTES, i requires 0 <= i < STATE_BYTES => ByteOfBits(bits[8 * i..8 * i + 8]))
  }

  lemma StateOfBits(s: State)
    ensures StateOf(BitsOf(s)) == s
  {
    hide Bit;
    forall i | 0 <= i < STATE_BYTES
      ensures StateOf(BitsOf(s))[i] == s[i]
    {
      assert BitsOf(s)[8 * i..8 * i + 8] == LowBits(s[i], 8);
      assert Pow2(8) == 256;
      ValueOfLowBits(s[i], 8);
    }
  }

  lemma {:induction false} BitOfBits(s: seq<bool>, i: nat)
    requires i < |s|
    ensures Bit(ValueOfBits(s), i) == s[i]
    decreases i
  {
    if i > 0 {
      BitOfBits(s[1..], i - 1);
    }
  }

  lemma BitsOfState(bits: seq<bool>)
    requires |bits| == 8 * STATE_BYTES
    ensures BitsOf(StateOf(bits)) == bits
  {
    hide Bit, ValueOfBits;
    forall k | 0 <= k < 8 * STATE_BYTES
      ensures BitsOf(StateOf(bits))[k] == bits[k]
    {
      var s := bits[8 * (k / 8)..8 * (k / 8) + 8];
      BitOfBits(s, k % 8);
    }
  }

  lemma BitsOfConcat(a: seq<Byte>, b: seq<Byte>)
    ensures BitsOf(a + b) == BitsOf(a) + BitsOf(b)
  {
    hide Bit;
  }

  // ---------------------------------------------------------------- the sponge over bits

  /** The permutation acting on 1600-bit strings. */
  function OnBits(f: State -> State, bits: seq<bool>): (r: seq<bool>)
    requires |bits| == 8 * STATE_BYTES
    ensures |r| == 8 * STATE_BYTES
  {
    BitsOf(f(StateOf(bits)))
  }

  function XorBlock(s: seq<bool>, p: seq<bool>): (r: seq<bool>)
    requires |p| <= |s|
    ensures |r| == |s|
  {
    seq(|s|, k requires 0 <= k < |s| => if k < |p| then s[k] != p[k] else s[k])
  }

  /** Absorb n blocks of rate bits each, step 6 of the sponge algorithm. */
  function AbsorbBlocks(f: State -> State, rate: nat, s: seq<bool>, p: seq<bool>, n: nat): (r: seq<bool>)
    requires |s| == 8 * STATE_BYTES && rate <= |s| && n * rate <= |p|
    ensures |r| == |s|
  {
    if n == 0 then s
    else OnBits(f, XorBlock(AbsorbBlocks(f, rate, s, p, n - 1), p[(n - 1) * rate..(n - 1) * rate + rate]))
  }

  function Falses(n: nat): (z: seq<bool>)
    ensures |z| == n
  {
    seq(n, i => false)
  }

  /** pad10*1 of FIPS 202, section 5.1, for rate x and a message of m bits. */
  function Pad101(x: nat, m: nat): (pad: seq<bool>)
    requires x > 0
  {
    var zeros := (-(m as int) - 2) % (x as int);
    [true] + Falses(zeros) + [true]
  }

  /** The padding is the one string that starts and ends with different 1s, holds zeros between
      them, fills the message up to whole blocks, and is shorter than a block and two bits. */
  lemma PadShape(x: nat, m: nat)
    requires x > 0
    ensures var pad := Pad101(x, m);
      && 2 <= |pad| < x + 2 && (m + |pad|) % x == 0
      && forall i :: 0 <= i < |pad| ==> pad[i] == (i == 0 || i == |pad| - 1)
  {
    var zeros: nat := (-(m as int) - 2) % (x as int);
    assert -(m as int) - 2 == x * ((-(m as int) - 2) / x) + zeros;
    DivModUnique(m + zeros + 2, x, -((-(m as int) - 2) / x), 0);
  }

  /** The state in which squeezing of SPONGE[f, pad10*1, rate](msg) begins. */
  function SpongeState(f: State -> State, rate: nat, msg: seq<bool>): (r: seq<bool>)
    requires 0 < rate <= 8 * STATE_BYTES
    ensures |r| == 8 * STATE_BYTES
  {
    var p := msg + Pad101(rate, |msg|);
    WholeBlocks(|p|, rate);
    AbsorbBlocks(f, rate, Falses(8 * STATE_BYTES), p, |p| / rate)
  }

  lemma WholeBlocks(len: nat, rate: nat)
    requires rate > 0
    ensures len / rate >= 0 && (len / rate) * rate <= len
  {
  }

  /** The first n blocks of output, the loop of steps 8 to 10 of the sponge algorithm: take the
      first rate bits of the string, permute it, and go on. */
  function SqueezeBlocks(f: State -> State, rate: nat, s: seq<bool>, n: nat): (z: seq<bool>)
    requires |s| == 8 * STATE_BYTES && rate <= |s|
    ensures |z| == n * rate
    decreases n
  {
    Distribute(rate, n - 1, 1);
    if n == 0 then [] else s[..rate] + SqueezeBlocks(f, rate, OnBits(f, s), n - 1)
  }

  // ---------------------------------------------------------------- bytes against bits

  lemma XorAtBits(s: State, data: seq<Byte>)
    requires |data| <= STATE_BYTES
    ensures BitsOf(XorAt(s, 0, data)) == XorBlock(BitsOf(s), BitsOf(data))
  {
    hide Bit;
    forall k | 0 <= k < 8 * STATE_BYTES
      ensures BitsOf(XorAt(s, 0, data))[k] == XorBlock(BitsOf(s), BitsOf(data))[k]
    {
      if k / 8 < |data| {
        BitOfXor(s[k / 8], data[k / 8], k % 8);
      }
    }
  }

  lemma NextBlock(f: State -> State, rate: nat, s: seq<bool>, p: seq<bool>, q: seq<bool>, n: nat)
    requires |s| == 8 * STATE_BYTES && |q| == rate <= |s| && n * rate == |p|
    ensures (n + 1) * rate == |p + q|
    ensures AbsorbBlocks(f, rate, s, p + q, n + 1) == OnBits(f, XorBlock(AbsorbBlocks(f, rate, s, p, n), q))
  {
    hide OnBits, XorBlock;
    Distribute(rate, n, 1);
    BlocksPrefix(f, rate, s, p, q, n);
    assert (p + q)[|p|..|p| + rate] == q;
  }

  /** Absorbing n whole blocks of bytes is absorbing their bits block by block. */
  lemma {:induction false} AbsorbBytesIsAbsorbBlocks(f: State -> State, r: nat, s: State, data: seq<Byte>, n: nat)
    requires 0 < r <= STATE_BYTES && |data| == n * r
    ensures n * (8 * r) == 8 * |data|
    ensures var c := AbsorbBytes(f, r, Cursor(s, 0), data);
      c.index == 0 && BitsOf(c.state) == AbsorbBlocks(f, 8 * r, BitsOf(s), BitsOf(data), n)
    decreases n
  {
    hide XorAt, BitsOf, AbsorbBytes, OnBits, XorBlock;
    if n == 0 {
      assert data == [];
      AbsorbNothing(f, r, Cursor(s, 0));
    } else {
      Distribute(r, n - 1, 1);
      var head, block := data[..|data| - r], data[|data| - r..];
      assert data == head + block;
      AbsorbBytesIsAbsorbBlocks(f, r, s, head, n - 1);
      AbsorbOneBlock(f, r, s, head, block);
      BitsOfConcat(head, block);
      NextBlock(f, 8 * r, BitsOf(s), BitsOf(head), BitsOf(block), n - 1);
    }
  }

  lemma AbsorbOneBlock(f: State -> State, r: nat, s: State, head: seq<Byte>, block: seq<Byte>)
    requires 0 < r <= STATE_BYTES && |block| == r && AbsorbBytes(f, r, Cursor(s, 0), head).index == 0
    ensures var c := AbsorbBytes(f, r, Cursor(s, 0), head);
      var d := AbsorbBytes(f, r, Cursor(s, 0), head + block);
      d.index == 0 && BitsOf(d.state) == OnBits(f, XorBlock(BitsOf(c.state), BitsOf(block)))
  {
    hide XorAt, BitsOf, AbsorbBytes, StateOf;
    var c := AbsorbBytes(f, r, Cursor(s, 0), head);
    AbsorbConcat(f, r, Cursor(s, 0), head, block);
    AbsorbRun(f, r, c, block);
    XorAtBits(c.state, block);
    StateOfBits(XorAt(c.state, 0, block));
  }

  lemma {:induction false} BlocksPrefix(f: State -> State, rate: nat, s: seq<bool>, p: seq<bool>, q: seq<bool>, n: nat)
    requires |s| == 8 * STATE_BYTES && rate <= |s| && n * rate <= |p|
    ensures AbsorbBlocks(f, rate, s, p + q, n) == AbsorbBlocks(f, rate, s, p, n)
    decreases n
  {
    hide OnBits, XorBlock;
    if n > 0 {
      Distribute(rate, n - 1, 1);
      BlocksPrefix(f, rate, s, p, q, n - 1);
      assert (p + q)[(n - 1) * rate..(n - 1) * rate + rate] == p[(n - 1) * rate..(n - 1) * rate + rate];
    }
  }

  lemma {:induction false} IterateFirst(f: State -> State, s: State, n: nat)
    ensures Iterate(f, f(s), n) == Iterate(f, s, n + 1)
  {
    if n > 0 {
      IterateFirst(f, s, n - 1);
    }
  }

  /** Output bytes from r on are the output of the permuted state. */
  lemma NextBlockByte(f: State -> State, r: nat, s: State, k: nat)
    requires 0 < r <= STATE_BYTES
    ensures k < r ==> SqueezedByte(f, r, s, k) == s[k]
    ensures SqueezedByte(f, r, s, r + k) == SqueezedByte(f, r, f(s), k)
  {
    if k < r {
      DivModUnique(k, r, 0, k);
    }
    DivModUnique(r + k, r, k / r + 1, k % r);
    IterateFirst(f, s, k / r);
  }

  lemma FirstBlockOut(f: State -> State, r: nat, s: State, n: nat)
    requires 0 < r <= STATE_BYTES
    ensures OutputRun(f, r, s, 0, r + n) == s[..r] + OutputRun(f, r, f(s), 0, n)
  {
    hide SqueezedByte;
    forall k | 0 <= k < r + n
      ensures SqueezedByte(f, r, s, k) == if k < r then s[k] else SqueezedByte(f, r, f(s), k - r)
    {
      NextBlockByte(f, r, s, if k < r then k else k - r);
    }
  }

  /** The output bytes are, bit by bit, what the sponge algorithm squeezes. */
  lemma {:induction false} OutputIsSqueezed(f: State -> State, r: nat, s: State, n: nat)
    requires 0 < r <= STATE_BYTES
    ensures 0 <= n * r && BitsOf(OutputRun(f, r, s, 0, n * r)) == SqueezeBlocks(f, 8 * r, BitsOf(s), n)
    decreases n
  {
    hide BitsOf, OutputRun, StateOf;
    if n == 0 {
      assert OutputRun(f, r, s, 0, 0) == [];
    } else {
      Distribute(r, n - 1, 1);
      OutputIsSqueezed(f, r, f(s), n - 1);
      FirstBlockOut(f, r, s, (n - 1) * r);
      BitsOfConcat(s[..r], OutputRun(f, r, f(s), 0, (n - 1) * r));
      StateOfBits(s);
      BitsOfPrefix(s, r);
    }
  }

  lemma BitsOfPrefix(data: seq<Byte>, n: nat)
    requires n <= |data|
    ensures BitsOf(data[..n]) == BitsOf(data)[..8 * n]
  {
    hide Bit;
  }

  /** Output cut to m bytes is the squeezed bit string cut to 8 m bits. */
  lemma CutOutput(f: State -> State, r: nat, bits: seq<bool>, m: nat, n: nat)
    requires 0 < r <= STATE_BYTES && |bits| == 8 * STATE_BYTES && m <= n * r
    ensures 8 * m <= n * (8 * r)
    ensures BitsOf(OutputRun(f, r, StateOf(bits), 0, m)) == SqueezeBlocks(f, 8 * r, bits, n)[..8 * m]
  {
    hide BitsOf, StateOf, SqueezedByte;
    OutputIsSqueezed(f, r, StateOf(bits), n);
    BitsOfState(bits);
    assert n * (8 * r) == 8 * (n * r);
    BitsOfPrefix(OutputRun(f, r, StateOf(bits), 0, n * r), m);
    assert OutputRun(f, r, StateOf(bits), 0, n * r)[..m] == OutputRun(f, r, StateOf(bits), 0, m);
  }

  // ---------------------------------------------------------------- delimited last bits

  /** Place of the delimiter, the highest 1 of a positive number. */
  function Delimiter(d: nat): (n: nat)
    requires d > 0
    ensures Pow2(n) <= d < 2 * Pow2(n)
  {
    if d == 1 then 0 else 1 + Delimiter(d / 2)
  }

  lemma {:induction false} DelimiterUnique(d: nat, n: nat)
    requires Pow2(n) <= d < 2 * Pow2(n)
    ensures Delimiter(d) == n
    decreases n
  {
    if n > 0 {
      DelimiterUnique(d / 2, n - 1);
    }
  }

  lemma {:induction false} DelimiterBit(d: nat)
    requires d > 0
    ensures Bit(d, Delimiter(d))
  {
    if d > 1 {
      DelimiterBit(d / 2);
    }
  }

  lemma SmallerExponent(a: nat, b: nat)
    requires Pow2(a) < Pow2(b)
    ensures a < b
  {
    hide Pow2;
    if b <= a {
      Pow2Monotone(b, a);
    }
  }

  lemma BytePowers()
    ensures Pow2(7) == 128 && Pow2(8) == 256
  {
  }

  lemma DelimiterPlace(d: Byte)
    requires d > 0
    ensures Delimiter(d) < 8 && (d < 0x80 <==> Delimiter(d) < 7)
  {
    var n := Delimiter(d);
    BytePowers();
    assert Pow2(n + 1) == 2 * Pow2(n);
    hide *;
    SmallerExponent(n, 8);
    if d < 0x80 {
      SmallerExponent(n, 7);
    } else {
      SmallerExponent(7, n + 1);
    }
  }

  lemma NoBitAfterDelimiter(d: Byte, k: nat)
    requires d > 0 && Delimiter(d) < k
    ensures !Bit(d, k)
  {
    var n := Delimiter(d);
    assert Pow2(n + 1) == 2 * Pow2(n);
    hide *;
    NoBitAbove(d, n + 1, k);
  }

  lemma DelimiterOfByte(d: Byte)
    requires d > 0
    ensures Delimiter(d) < 8 && (d < 0x80 <==> Delimiter(d) < 7)
    ensures Bit(d, Delimiter(d)) && forall k :: Delimiter(d) < k ==> !Bit(d, k)
  {
    hide *;
    DelimiterPlace(d);
    DelimiterBit(d);
    forall k | Delimiter(d) < k ensures !Bit(d, k) {
      NoBitAfterDelimiter(d, k);
    }
  }

  /** The 0 to 7 bits in front of the delimiter. */
  function SuffixBits(d: nat): (s: seq<bool>)
    requires d > 0
    ensures |s| == Delimiter(d)
  {
    LowBits(d, Delimiter(d))
  }

  lemma TopBits(k: nat)
    requires k < 8
    ensures Bit(0x80, k) <==> k == 7
  {
    assert !Bit(0x80, 0) && !Bit(0x80, 1) && !Bit(0x80, 2) && !Bit(0x80, 3);
    assert !Bit(0x80, 4) && !Bit(0x80, 5) && !Bit(0x80, 6) && Bit(0x80, 7);
  }

  lemma TopFlips(d: Byte, k: nat)
    requires k < 8 && 0 < d < 0x80
    ensures Bit(XorByte(d, 0x80), k) == (Bit(d, k) || k == 7)
  {
    BitOfXor(d, 0x80, k);
    TopBits(k);
    DelimiterOfByte(d);
  }

  /** Bit by bit, the tail is the suffix, the delimiter, zeros, and one last 1. */
  lemma TailBits(d: Byte, index: nat, r: nat)
    requires d != 0 && index < r
    ensures Delimiter(d) + 2 <= 8 * |PadTail(d, index, r)|
    ensures var tail := BitsOf(PadTail(d, index, r));
      tail == SuffixBits(d) + [true] + Falses(|tail| - Delimiter(d) - 2) + [true]
  {
    hide Bit, Delimiter;
    var tail, n := PadTail(d, index, r), Delimiter(d);
    var last := |tail| - 1;
    DelimiterOfByte(d);
    if index == r - 1 && d < 0x80 {
      forall k | 0 <= k < 8 ensures BitsOf(tail)[k] == (Bit(d, k) || k == 7) { TopFlips(d, k); }
    } else {
      assert last > 0 && tail[0] == d && tail[last] == 0x80;
      forall k | 8 <= k < 8 * |tail|
        ensures BitsOf(tail)[k] == (k == 8 * |tail| - 1)
      {
        ZeroBits(k % 8);
        TopBits(k % 8);
        assert tail[k / 8] == if k / 8 == last then 0x80 else 0;
      }
    }
  }

  lemma TailLength(d: Byte, index: nat, r: nat, q: nat)
    requires d != 0 && index < r
    ensures 0 <= 8 * |PadTail(d, index, r)| - Delimiter(d) - 2 < 8 * r
    ensures exists n: nat :: r * q + index + |PadTail(d, index, r)| == n * r
  {
    DelimiterOfByte(d);
    var tail := PadTail(d, index, r);
    hide Bit, Delimiter, PadTail;
    BlocksOn(r, q);
    var n := if |tail| == r - index then q + 1 else q + 2;
    assert r * q + index + |tail| == n * r;
  }

  lemma BlocksOn(r: nat, q: nat)
    ensures (q + 1) * r == r * q + r && (q + 2) * r == r * q + 2 * r
  {
    Distribute(r, q, 1);
    Distribute(r, q, 2);
  }

  /** The padded bit string is the bits of the padded bytes, a whole number of blocks. */
  lemma PaddedBits(m: seq<Byte>, d: Byte, r: nat, q: nat, index: nat) returns (blocks: nat)
    requires d != 0 && index < r && |m| == r * q + index
    ensures var msg := BitsOf(m) + SuffixBits(d);
      msg + Pad101(8 * r, |msg|) == BitsOf(m + PadTail(d, index, r))
    ensures |m + PadTail(d, index, r)| == blocks * r
  {
    hide BitsOf, Bit, Delimiter, PadTail;
    var tail, n := PadTail(d, index, r), Delimiter(d);
    var msg := BitsOf(m) + SuffixBits(d);
    TailLength(d, index, r, q);
    blocks :| r * q + index + |PadTail(d, index, r)| == blocks * r;
    var zeros: nat := 8 * |tail| - n - 2;
    ZerosAreMod(|msg|, 8 * r, blocks, zeros);
    TailBits(d, index, r);
    BitsOfConcat(m, tail);
    assert SuffixBits(d) + [true] + Falses(zeros) + [true] == SuffixBits(d) + Pad101(8 * r, |msg|);
  }

  lemma ZerosAreMod(len: int, rate: int, blocks: int, zeros: int)
    requires rate > 0 && len + 2 + zeros == blocks * rate && 0 <= zeros < rate
    ensures (-len - 2) % rate == zeros
  {
    assert -len - 2 == rate * (-blocks) + zeros;
    DivModUnique(-len - 2, rate, -blocks, zeros);
  }

  /** Every absorbed byte moves the index on by one, modulo the rate. */
  lemma {:induction false} AbsorbIndex(f: State -> State, r: nat, s: State, m: seq<Byte>) returns (q: nat)
    requires 0 < r <= STATE_BYTES
    ensures |m| == r * q + AbsorbBytes(f, r, Cursor(s, 0), m).index
    decreases |m|
  {
    q := 0;
    if m != [] {
      q := AbsorbIndex(f, r, s, m[..|m| - 1]);
      Distribute(r, q, 1);
      if AbsorbBytes(f, r, Cursor(s, 0), m).index == 0 {
        q := q + 1;
      }
    }
  }

  const ZERO_STATE: State := seq(STATE_BYTES, i => 0)

  lemma ZeroStateBits()
    ensures BitsOf(ZERO_STATE) == Falses(8 * STATE_BYTES)
  {
    hide Bit;
    forall k | 0 <= k < 8 * STATE_BYTES ensures !BitsOf(ZERO_STATE)[k] { ZeroBits(k % 8); }
  }

  /** Absorbing bytes and a delimited last byte leaves the state that the sponge over bits
      reaches on the same bits with pad10*1 behind them. */
  lemma PaddedState(f: State -> State, r: nat, m: seq<Byte>, d: Byte)
    requires 0 < r <= STATE_BYTES && d != 0
    ensures var c := AbsorbBytes(f, r, Cursor(ZERO_STATE, 0), m);
      BitsOf(AbsorbBytes(f, r, c, PadTail(d, c.index, r)).state)
        == SpongeState(f, 8 * r, BitsOf(m) + SuffixBits(d))
  {
    hide BitsOf, AbsorbBytes, AbsorbBlocks, PadTail, Pad101, SuffixBits;
    var c := AbsorbBytes(f, r, Cursor(ZERO_STATE, 0), m);
    var q := AbsorbIndex(f, r, ZERO_STATE, m);
    var tail := PadTail(d, c.index, r);
    var blocks := PaddedBits(m, d, r, q, c.index);
    AbsorbConcat(f, r, Cursor(ZERO_STATE, 0), m, tail);
    AbsorbBytesIsAbsorbBlocks(f, r, ZERO_STATE, m + tail, blocks);
    ZeroStateBits();
    DivModUnique(8 * |m + tail|, 8 * r, blocks, 0);
  }

  // ---------------------------------------------------------------- a partial last byte

  /** The last k data bits with the suffix byte moved up behind them. The places do not overlap,
      so the source's bitwise or is a sum. */
  function Merged(last: nat, d: nat, k: nat): nat {
    last + Pow2(k) * d
  }

  lemma {:induction false} MergedBits(last: nat, d: nat, k: nat, i: nat)
    requires last < Pow2(k)
    ensures Bit(Merged(last, d, k), i) == if i < k then Bit(last, i) else Bit(d, i - k)
    decreases k
  {
    if k > 0 {
      assert Pow2(k) * d == 2 * (Pow2(k - 1) * d);
      assert Merged(last, d, k) / 2 == Merged(last / 2, d, k - 1);
      if i > 0 {
        MergedBits(last / 2, d, k - 1, i - 1);
      }
    }
  }

  lemma MergedRange(last: nat, d: nat, k: nat)
    requires last < Pow2(k) && d > 0
    ensures var n := k + Delimiter(d); Pow2(n) <= Merged(last, d, k) < 2 * Pow2(n)
  {
    var p, t := Pow2(k), Pow2(Delimiter(d));
    Pow2Sum(k, Delimiter(d));
    MulMonotone(p, t, d);
    MulMonotone(p, d + 1, 2 * t);
    Distribute(p, d, 1);
    assert p * (2 * t) == 2 * (p * t);
  }

  lemma {:induction false} Pow2Monotone(a: nat, b: nat)
    requires a <= b
    ensures Pow2(a) <= Pow2(b)
  {
    Pow2Sum(a, b - a);
    MulMonotone(Pow2(a), 1, Pow2(b - a));
  }

  /** Merging the last bits of the data with the suffix byte loses nothing: whether or not the
      sum spills into a second byte, the bits in front of the new delimiter are the data bits
      and then the old suffix bits. */
  lemma MergedSuffix(last: Byte, d: Byte, k: nat)
    requires 0 < k < 8 && d > 0 && last < Pow2(k)
    ensures var w, bits := Merged(last, d, k), LowBits(last, k) + SuffixBits(d);
      0 < w < 0x1_0000
      && if w / 256 == 0 then SuffixBits(w) == bits
         else BitsOf([w % 256]) + SuffixBits(w / 256) == bits
  {
    hide Bit, Merged, LowBits, BitsOf;
    var w, n := Merged(last, d, k), k + Delimiter(d);
    MergedRange(last, d, k);
    DelimiterOfByte(d);
    Pow2Monotone(n, 14);
    assert Pow2(14) == 16384;
    MergedLow(last, d, k);
    DelimiterUnique(w, n);
    if w / 256 != 0 {
      SpilledSuffix(w, n);
    }
  }

  lemma MergedLow(last: nat, d: nat, k: nat)
    requires last < Pow2(k) && d > 0
    ensures LowBits(Merged(last, d, k), k + Delimiter(d)) == LowBits(last, k) + SuffixBits(d)
  {
    hide Bit, Merged;
    forall i | 0 <= i < k + Delimiter(d)
      ensures Bit(Merged(last, d, k), i) == if i < k then Bit(last, i) else Bit(d, i - k)
    {
      MergedBits(last, d, k, i);
    }
  }

  /** A sum of more than eight bits is absorbed as one byte and a shorter suffix. */
  lemma SpilledSuffix(w: nat, n: nat)
    requires 256 <= w < 0x1_0000 && Pow2(n) <= w < 2 * Pow2(n)
    ensures BitsOf([w % 256]) + SuffixBits(w / 256) == LowBits(w, n)
  {
    hide Bit, Delimiter;
    SpilledDelimiter(w, n);
    forall i | 0 <= i < 8 ensures Bit(w % 256, i) == Bit(w, i) { LowByteBit(w, i); }
    forall i | 0 <= i < n - 8 ensures Bit(w / 256, i) == Bit(w, i + 8) { HighByteBit(w, i); }
    hide Pow2;
    assert |LowBits(w, n)| == n == |BitsOf([w % 256])| + |SuffixBits(w / 256)|;
  }

  lemma LowByteBit(w: nat, i: nat)
    requires i < 8
    ensures Bit(w % 256, i) == Bit(w, i)
  {
    hide Bit;
    assert Pow2(8) == 256;
    BitOfRemainder(w, 8, i);
  }

  lemma HighByteBit(w: nat, i: nat)
    ensures Bit(w / 256, i) == Bit(w, i + 8)
  {
    hide Bit;
    assert Pow2(8) == 256;
    BitOfQuotient(w, 8, i);
  }

  lemma SpilledDelimiter(w: nat, n: nat)
    requires 256 <= w < 0x1_0000 && Pow2(n) <= w < 2 * Pow2(n)
    ensures n >= 8 && Delimiter(w / 256) == n - 8
  {
    assert Pow2(8) == 256;
    hide Delimiter;
    if n < 8 {
      Pow2Monotone(n + 1, 8);
      assert false;
    }
    Pow2Sum(8, n - 8);
    HighByteBounds(w, Pow2(n - 8));
    hide Pow2;
    DelimiterUnique(w / 256, n - 8);
  }

  lemma HighByteBounds(w: nat, p: nat)
    requires 256 * p <= w < 2 * (256 * p)
    ensures p <= w / 256 < 2 * p
  {
  }

  // ---------------------------------------------------------------- the hash instance

  const SUCCESS: nat := 0
  const FAIL: nat := 1

  class Hash {
    const sponge: Instance
    var fixedOutputLength: nat
    var delimitedSuffix: Byte
    ghost var absorbed: seq<Byte>

    /** The absorbed bytes are in a sponge that still takes input. */
    ghost predicate Absorbing()
      reads this, sponge, sponge.state
    {
      && sponge.Valid() && !sponge.squeezing && sponge.byteIOIndex < sponge.rate / 8
      && sponge.Place() == AbsorbBytes(sponge.f, sponge.rate / 8, Cursor(ZERO_STATE, 0), absorbed)
      && delimitedSuffix != 0
    }

    /** The message bits hashed so far and the suffix still to come: whole bytes are in the
        sponge, the rest waits in the delimited suffix byte. */
    ghost predicate Holds(msg: seq<bool>, suffix: seq<bool>)
      reads this, sponge, sponge.state
    {
      && Absorbing()
      && BitsOf(absorbed) + SuffixBits(delimitedSuffix) == msg + suffix
    }

    constructor (f: State -> State)
      ensures fresh(sponge) && fresh(sponge.state) && sponge.f == f
      ensures sponge.state.Length == STATE_BYTES
    {
      sponge := new Instance(f);
      fixedOutputLength, delimitedSuffix, absorbed := 0, 1, [];
    }

    method Initialize(rate: nat, capacity: nat, hashbitlen: nat, suffix: Byte) returns (ret: nat)
      requires sponge.state.Length == STATE_BYTES && rate < UINT_LIMIT && capacity < UINT_LIMIT
      modifies this, sponge, sponge.state
      ensures ret == SUCCESS <==> suffix != 0 && rate + capacity == 1600 && rate > 0 && rate % 8 == 0
      ensures ret == SUCCESS ==> Holds([], SuffixBits(suffix)) && sponge.rate == rate
      ensures ret == SUCCESS ==> fixedOutputLength == hashbitlen && delimitedSuffix == suffix
    {
      if suffix == 0 {
        return FAIL;
      }
      ret := sponge.Initialize(rate, capacity);
      if ret != SUCCESS {
        return;
      }
      fixedOutputLength, delimitedSuffix, absorbed := hashbitlen, suffix, [];
    }

    method AbsorbWhole(data: seq<Byte>) returns (ret: nat)
      requires Absorbing()
      requires sponge.byteIOIndex == 0 || ChunkFits(|data|, sponge.byteIOIndex, sponge.rate / 8)
      modifies `absorbed, sponge`byteIOIndex, sponge.state
      ensures ret == SUCCESS && Absorbing() && absorbed == old(absorbed) + data
    {
      hide AbsorbBytes;
      ret := sponge.Absorb(data);
      AbsorbConcat(sponge.f, sponge.rate / 8, Cursor(ZERO_STATE, 0), absorbed, data);
      absorbed := absorbed + data;
    }

    /** Put the last k bits in front of the suffix, absorbing one more byte if they spill. */
    method MergeLast(last: Byte, k: nat, ghost msg: seq<bool>, ghost suffix: seq<bool>) returns (ret: nat)
      requires Absorbing() && 0 < k < 8 && last < Pow2(k)
      requires BitsOf(absorbed) == msg && SuffixBits(delimitedSuffix) == suffix
      modifies `absorbed, `delimitedSuffix, sponge`byteIOIndex, sponge.state
      ensures ret == SUCCESS && Holds(msg + LowBits(last, k), suffix)
    {
      hide AbsorbBytes, BitsOf, SuffixBits, LowBits, Merged;
      ret := SUCCESS;
      var delimitedLastBytes := Merged(last, delimitedSuffix, k);
      MergedSuffix(last, delimitedSuffix, k);
      ghost var bits := LowBits(last, k);
      assert (msg + bits) + suffix == msg + (bits + suffix);
      if delimitedLastBytes / 256 == 0 {
        delimitedSuffix := delimitedLastBytes;
      } else {
        var oneByte := [delimitedLastBytes % 256];
        BitsOfConcat(absorbed, oneByte);
        ret := AbsorbWhole(oneByte);
        delimitedSuffix := delimitedLastBytes / 256;
        assert BitsOf(absorbed) + SuffixBits(delimitedSuffix)
          == msg + (BitsOf(oneByte) + SuffixBits(delimitedSuffix));
      }
    }

    /** Hash databitlen bits of data. All calls but the last take whole bytes, and the bits of a
        partial last byte are its lowest. */
    method Update(data: seq<Byte>, databitlen: nat, ghost msg: seq<bool>, ghost suffix: seq<bool>) returns (ret: nat)
      requires Holds(msg, suffix) && |msg| % 8 == 0 && |suffix| < 8
      requires databitlen <= 8 * |data|
      requires databitlen % 8 != 0 ==> data[databitlen / 8] < Pow2(databitlen % 8)
      requires sponge.byteIOIndex == 0 || ChunkFits(databitlen / 8, sponge.byteIOIndex, sponge.rate / 8)
      modifies `absorbed, `delimitedSuffix, sponge`byteIOIndex, sponge.state
      ensures ret == SUCCESS && Holds(msg + BitsOf(data)[..databitlen], suffix)
    {
      hide AbsorbBytes, BitsOf, SuffixBits, LowBits, Merged, ChunkFits, Pow2;
      var bytes, k := databitlen / 8, databitlen % 8;
      ghost var head := BitsOf(data[..bytes]);
      WholeBytes(absorbed, delimitedSuffix, msg, suffix);
      BitsOfConcat(absorbed, data[..bytes]);
      DataBits(data, bytes, k);
      ret := AbsorbWhole(data[..bytes]);
      assert BitsOf(absorbed) == msg + head;
      if k != 0 {
        Reassociate(msg, head, LowBits(data[bytes], k));
        ret := MergeLast(data[bytes], k, msg + head, suffix);
      }
    }

    /** Pad and squeeze the fixed output length: the output of the bit-level sponge on the
        message and its suffix. */
    method Final(ghost msg: seq<bool>, ghost suffix: seq<bool>) returns (ret: nat, hashval: seq<Byte>)
      requires Holds(msg, suffix) && ChunkFits(fixedOutputLength / 8, 0, sponge.rate / 8)
      modifies sponge`byteIOIndex, sponge`squeezing, sponge.state
      ensures ret == SUCCESS && sponge.squeezing && sponge.Valid()
      ensures var r := sponge.rate / 8;
        hashval == OutputRun(sponge.f, r, StateOf(SpongeState(sponge.f, 8 * r, msg + suffix)), 0, fixedOutputLength / 8)
    {
      hide AbsorbBytes, BitsOf, SuffixBits, OutputRun, SpongeState, PadTail, StateOf;
      var r := sponge.rate / 8;
      PaddedState(sponge.f, r, absorbed, delimitedSuffix);
      ret := sponge.AbsorbLastFewBits(delimitedSuffix);
      if ret == SUCCESS {
        ghost var start: State := sponge.state[..];
        StateOfBits(start);
        hashval := sponge.Squeeze(fixedOutputLength / 8, start, 0);
      } else {
        hashval := [];
      }
    }
  }

  /** Message bits in whole bytes and a suffix below eight bits can only split in one way. */
  lemma WholeBytes(m: seq<Byte>, d: Byte, msg: seq<bool>, suffix: seq<bool>)
    requires d != 0 && BitsOf(m) + SuffixBits(d) == msg + suffix && |msg| % 8 == 0 && |suffix| < 8
    ensures BitsOf(m) == msg && SuffixBits(d) == suffix
  {
    hide *;
    DelimiterOfByte(d);
    assert |BitsOf(m)| + |SuffixBits(d)| == |BitsOf(m) + SuffixBits(d)| == |msg| + |suffix|;
    SameEights(|m|, |SuffixBits(d)|, |msg|, |suffix|);
    SameSplit(BitsOf(m), SuffixBits(d), msg, suffix);
  }

  lemma SameEights(x: nat, y: nat, p: nat, q: nat)
    requires 8 * x + y == p + q && p % 8 == 0 && y < 8 && q < 8
    ensures 8 * x == p
  {
  }

  lemma SameSplit<T>(a: seq<T>, b: seq<T>, c: seq<T>, d: seq<T>)
    requires a + b == c + d && |a| == |c|
    ensures a == c && b == d
  {
    assert a == (a + b)[..|a|] && b == (a + b)[|a|..];
    assert c == (c + d)[..|a|] && d == (c + d)[|a|..];
  }

  lemma DataBits(data: seq<Byte>, bytes: nat, k: nat)
    requires 8 * bytes + k <= 8 * |data| && k < 8
    ensures BitsOf(data[..bytes]) + (if k == 0 then [] else LowBits(data[bytes], k)) == BitsOf(data)[..8 * bytes + k]
  {
    hide Bit;
  }
}
