/** The Keccak sponge: absorbing and squeezing through a whole-block lane, a whole-lane path and
    a partial-lane path, all equal to a sponge that handles one byte at a time. The permutation
    is a parameter. */
module KeccakSponge {
  import opened Words

  const STATE_BYTES: nat := 200
  const LANE_BYTES: nat := 8

  type State = s: seq<Byte> | |s| == STATE_BYTES witness seq(STATE_BYTES, i => 0)

  // ---------------------------------------------------------------- reference sponge

  /** A sponge between two bytes: its state and the place of the next byte. */
  datatype Cursor = Cursor(state: State, index: nat)

  function AbsorbByte(f: State -> State, r: nat, c: Cursor, b: Byte): (d: Cursor)
    requires c.index < r <= STATE_BYTES
    ensures d.index < r
  {
    var s := c.state[c.index := XorByte(c.state[c.index], b)];
    if c.index + 1 == r then Cursor(f(s), 0) else Cursor(s, c.index + 1)
  }

  function AbsorbBytes(f: State -> State, r: nat, c: Cursor, data: seq<Byte>): (d: Cursor)
    requires c.index < r <= STATE_BYTES
    ensures d.index < r
  {
    if data == [] then c
    else AbsorbByte(f, r, AbsorbBytes(f, r, c, data[..|data| - 1]), data[|data| - 1])
  }

  lemma {:induction false} AbsorbConcat(f: State -> State, r: nat, c: Cursor, a: seq<Byte>, b: seq<Byte>)
    requires c.index < r <= STATE_BYTES
    ensures AbsorbBytes(f, r, c, a + b) == AbsorbBytes(f, r, AbsorbBytes(f, r, c, a), b)
    decreases |b|
  {
    if b == [] {
      assert a + b == a;
    } else {
      var last := |b| - 1;
      assert (a + b)[..|a + b| - 1] == a + b[..last];
      AbsorbConcat(f, r, c, a, b[..last]);
    }
  }

  /** The state with data exclusive-ored in from byte off on. */
  function XorAt(s: State, off: nat, data: seq<Byte>): State
    requires off + |data| <= STATE_BYTES
  {
    seq(STATE_BYTES, k requires 0 <= k < STATE_BYTES =>
      if off <= k < off + |data| then XorByte(s[k], data[k - off]) else s[k])
  }

  lemma XorAtConcat(s: State, off: nat, a: seq<Byte>, b: seq<Byte>)
    requires off + |a| + |b| <= STATE_BYTES
    ensures XorAt(XorAt(s, off, a), off + |a|, b) == XorAt(s, off, a + b)
  {
  }

  lemma XorAtNothing(s: State, off: nat)
    requires off <= STATE_BYTES
    ensures XorAt(s, off, []) == s
  {
  }

  /** Exclusive-oring the same bytes in twice restores the state. */
  lemma XorAtTwice(s: State, off: nat, data: seq<Byte>)
    requires off + |data| <= STATE_BYTES
    ensures XorAt(XorAt(s, off, data), off, data) == s
  {
    hide XorByte;
    forall k | 0 <= k < STATE_BYTES && off <= k < off + |data|
      ensures XorByte(XorByte(s[k], data[k - off]), data[k - off]) == s[k]
    {
      XorByteCancels(s[k], data[k - off]);
    }
  }

  lemma XorByteCancels(a: Byte, b: Byte)
    ensures XorByte(XorByte(a, b), b) == a
  {
    XorBitsCancels(a, b);
  }

  /** Bytes that stay inside the block only change the state; the byte that completes the block
      runs the permutation. */
  lemma {:induction false} AbsorbRun(f: State -> State, r: nat, c: Cursor, data: seq<Byte>)
    requires c.index < r <= STATE_BYTES && c.index + |data| <= r
    ensures AbsorbBytes(f, r, c, data) ==
      var s := XorAt(c.state, c.index, data);
      if c.index + |data| == r then Cursor(f(s), 0) else Cursor(s, c.index + |data|)
    decreases |data|
  {
    hide XorAt;
    if data == [] {
      XorAtNothing(c.state, c.index);
    } else {
      var last := |data| - 1;
      AbsorbRun(f, r, c, data[..last]);
      XorAtConcat(c.state, c.index, data[..last], [data[last]]);
      assert data == data[..last] + [data[last]];
      XorAtOne(XorAt(c.state, c.index, data[..last]), c.index + last, data[last]);
    }
  }

  lemma XorAtOne(s: State, i: nat, b: Byte)
    requires i < STATE_BYTES
    ensures s[i := XorByte(s[i], b)] == XorAt(s, i, [b])
  {
  }

  // ---------------------------------------------------------------- narrowing

  /** Bytes the normal lane takes, computed in 32 bits as the source does. */
  function Chunk(left: nat, index: nat, r: nat): (p: nat)
    requires index < r <= STATE_BYTES
  {
    var p := left % UINT_LIMIT;
    if (p + index) % UINT_LIMIT > r then r - index else p
  }

  predicate ChunkFits(left: nat, index: nat, r: nat) {
    left + index <= r || (left + index) % UINT_LIMIT >= r
  }

  /** The 32-bit chunk is the intended one exactly when ChunkFits holds. */
  lemma ChunkExact(left: nat, index: nat, r: nat)
    requires index < r <= STATE_BYTES
    ensures Chunk(left, index, r) == (if left + index <= r then left else r - index)
      <==> ChunkFits(left, index, r)
  {
    var p := left % UINT_LIMIT;
    assert (p + index) % UINT_LIMIT == (left + index) % UINT_LIMIT;
  }

  /** Otherwise the normal lane either runs past the block or, one chunk later, takes nothing
      while input is left, which repeats for ever. */
  lemma ChunkFails(left: nat, index: nat, r: nat)
    requires index < r <= STATE_BYTES && !ChunkFits(left, index, r)
    ensures var p := Chunk(left, index, r);
      p > r - index || (p < left && index + p < r && Chunk(left - p, index + p, r) == 0)
  {
    var p := left % UINT_LIMIT;
    assert (p + index) % UINT_LIMIT == (left + index) % UINT_LIMIT;
    assert (left - p) % UINT_LIMIT == 0;
  }

  /** With all but one of 2^32 bytes left at place 5 of a block of 136, the sum wraps, and the chunk
      runs far past the block. */
  lemma ChunkOverruns()
    ensures !ChunkFits(0xFFFF_FFFF, 5, 136) && Chunk(0xFFFF_FFFF, 5, 136) == 0xFFFF_FFFF
  {
    assert (0xFFFF_FFFF + 5) % UINT_LIMIT == 4;
  }

  // ---------------------------------------------------------------- the sponge instance

  class Instance {
    const f: State -> State
    const state: array<Byte>
    var rate: nat
    var byteIOIndex: nat
    var squeezing: bool

    ghost predicate Valid()
      reads this
    {
      && state.Length == STATE_BYTES
      && 0 < rate <= 1600 && rate % 8 == 0 && byteIOIndex <= rate / 8
    }

    ghost function Place(): (c: Cursor)
      requires Valid()
      reads this, state
    {
      Cursor(state[..], byteIOIndex)
    }

    constructor (f: State -> State)
      ensures this.f == f && fresh(state) && state.Length == STATE_BYTES
    {
      this.f := f;
      state := new Byte[STATE_BYTES](i => 0);
      rate, byteIOIndex, squeezing := 1600, 0, false;
    }

    /** Set up for a rate and capacity of 1600 bits together; 1 reports bad parameters. */
    method Initialize(rate: nat, capacity: nat) returns (ret: nat)
      requires state.Length == STATE_BYTES && rate < UINT_LIMIT && capacity < UINT_LIMIT
      modifies this, state
      ensures ret == 0 <==> rate + capacity == 1600 && rate > 0 && rate % 8 == 0
      ensures ret == 0 ==> Valid() && this.rate == rate && !squeezing
      ensures ret == 0 ==> Place() == Cursor(seq(STATE_BYTES, i => 0), 0)
    {
      if (rate + capacity) % UINT_LIMIT != 1600 {
        return 1;
      }
      if rate <= 0 || rate > 1600 || rate % 8 != 0 {
        return 1;
      }
      forall i | 0 <= i < STATE_BYTES { state[i] := 0; }
      this.rate, byteIOIndex, squeezing := rate, 0, false;
      return 0;
    }

    method XorBytesInLane(lane: nat, data: seq<Byte>, offset: nat)
      requires state.Length == STATE_BYTES
      requires lane * LANE_BYTES + offset + |data| <= STATE_BYTES && offset + |data| <= LANE_BYTES
      modifies state
      ensures state[..] == XorAt(old(state[..]), lane * LANE_BYTES + offset, data)
    {
      var at := lane * LANE_BYTES + offset;
      for i := 0 to |data|
        invariant forall k :: 0 <= k < STATE_BYTES ==>
          state[k] == if at <= k < at + i then XorByte(old(state[k]), data[k - at]) else old(state[k])
      {
        state[at + i] := XorByte(state[at + i], data[i]);
      }
    }

    method XorLanes(data: seq<Byte>, laneCount: nat)
      requires state.Length == STATE_BYTES
      requires laneCount * LANE_BYTES <= STATE_BYTES && laneCount * LANE_BYTES <= |data|
      modifies state
      ensures state[..] == XorAt(old(state[..]), 0, data[..laneCount * LANE_BYTES])
    {
      for i := 0 to laneCount * LANE_BYTES
        invariant forall k :: 0 <= k < STATE_BYTES ==>
          state[k] == if 0 <= k < i then XorByte(old(state[k]), data[k]) else old(state[k])
      {
        state[i] := XorByte(state[i], data[i]);
      }
    }

    method Permute()
      requires state.Length == STATE_BYTES
      modifies state
      ensures state[..] == f(old(state[..]))
    {
      var t := f(state[..]);
      forall i | 0 <= i < STATE_BYTES { state[i] := t[i]; }
    }

    /** Lanes first when the chunk starts a block, then the bytes of partial lanes. */
    method AbsorbChunk(data: seq<Byte>)
      requires Valid() && byteIOIndex + |data| <= rate / 8
      modifies `byteIOIndex, state
      ensures Valid()
      ensures byteIOIndex == old(byteIOIndex) + |data|
      ensures state[..] == XorAt(old(state[..]), old(byteIOIndex), data)
    {
      hide XorAt;
      ghost var s0, start := state[..], byteIOIndex;
      var done := 0;
      XorAtNothing(s0, start);
      assert data[..0] == [];
      if byteIOIndex == 0 && |data| >= LANE_BYTES {
        XorLanes(data, |data| / LANE_BYTES);
        done := |data| / LANE_BYTES * LANE_BYTES;
        byteIOIndex := byteIOIndex + done;
      }
      while done < |data|
        invariant Valid() && done <= |data| && byteIOIndex == start + done
        invariant state[..] == XorAt(s0, start, data[..done])
      {
        var offsetInLane := byteIOIndex % LANE_BYTES;
        var bytesInLane := LANE_BYTES - offsetInLane;
        if bytesInLane > |data| - done {
          bytesInLane := |data| - done;
        }
        XorBytesInLane(byteIOIndex / LANE_BYTES, data[done..done + bytesInLane], offsetInLane);
        XorAtConcat(s0, start, data[..done], data[done..done + bytesInLane]);
        assert data[..done] + data[done..done + bytesInLane] == data[..done + bytesInLane];
        byteIOIndex := byteIOIndex + bytesInLane;
        done := done + bytesInLane;
      }
      assert data[..done] == data;
    }

    /** One whole block of the fast lane: the odd bytes behind the last whole lane first. */
    method AbsorbBlock(data: seq<Byte>)
      requires Valid() && byteIOIndex == 0 && |data| == rate / 8
      modifies state
      ensures Place() == AbsorbBytes(f, rate / 8, old(Place()), data)
    {
      hide XorAt;
      var r := rate / 8;
      var lanes := r / LANE_BYTES;
      ghost var s0 := state[..];
      XorAtNothing(s0, r);
      assert data[r..] == [] && data[..r] == data;
      if r % LANE_BYTES > 0 {
        XorBytesInLane(lanes, data[lanes * LANE_BYTES..], 0);
      }
      XorAtSwap(s0, data, lanes * LANE_BYTES);
      XorLanes(data, lanes);
      Permute();
      AbsorbRun(f, r, Cursor(s0, 0), data);
    }

    /** Absorb data; 1 reports that squeezing has begun. The normal lane narrows the number of
        bytes left to 32 bits, so a partly filled block needs ChunkFits. */
    method Absorb(data: seq<Byte>) returns (ret: nat)
      requires Valid() && (!squeezing ==> byteIOIndex < rate / 8)
      requires byteIOIndex == 0 || ChunkFits(|data|, byteIOIndex, rate / 8)
      modifies `byteIOIndex, state
      ensures Valid() && ret == (if squeezing then 1 else 0)
      ensures squeezing ==> Place() == old(Place())
      ensures !squeezing ==> Place() == AbsorbBytes(f, rate / 8, old(Place()), data)
    {
      hide AbsorbBytes, XorAt;
      if squeezing {
        return 1;
      }
      var r := rate / 8;
      var i := 0;
      ghost var c := Place();
      assert data[..0] == [];
      AbsorbNothing(f, r, c);
      while i < |data|
        invariant Valid() && byteIOIndex < r && i <= |data|
        invariant Place() == AbsorbBytes(f, r, c, data[..i])
        invariant i == 0 ==> byteIOIndex == old(byteIOIndex)
        invariant 0 < i < |data| ==> byteIOIndex == 0
        decreases |data| - i
      {
        if byteIOIndex == 0 && |data| >= i + r {
          var j := |data| - i;
          while j >= r
            invariant Valid() && byteIOIndex == 0 && 0 <= j <= |data| - i
            invariant Place() == AbsorbBytes(f, r, c, data[..|data| - j])
          {
            var at := |data| - j;
            AbsorbBlock(data[at..at + r]);
            AbsorbConcat(f, r, c, data[..at], data[at..at + r]);
            assert data[..at] + data[at..at + r] == data[..at + r];
            j := j - r;
          }
          i := |data| - j;
        } else {
          ChunkExact(|data| - i, byteIOIndex, r);
          var partialBlock := Chunk(|data| - i, byteIOIndex, r);
          ghost var before := Place();
          AbsorbChunk(data[i..i + partialBlock]);
          if byteIOIndex == r {
            Permute();
            byteIOIndex := 0;
          }
          AbsorbRun(f, r, before, data[i..i + partialBlock]);
          AbsorbConcat(f, r, c, data[..i], data[i..i + partialBlock]);
          assert data[..i] + data[i..i + partialBlock] == data[..i + partialBlock];
          i := i + partialBlock;
        }
      }
      assert data[..|data|] == data;
      return 0;
    }

    /** Flip the top bit of a byte: bit positions run through the lanes from the lowest up. */
    method ComplementBit(position: nat)
      requires state.Length == STATE_BYTES && position < 1600 && position % 8 == 7
      modifies state
      ensures state[..] == XorAt(old(state[..]), position / 8, [0x80])
    {
      ghost var s := state[..];
      state[position / 8] := XorByte(state[position / 8], 0x80);
      XorAtOne(s, position / 8, 0x80);
    }

    /** Absorb the last 0 to 7 bits, delimited by a 1, and the padding; 1 reports a zero
        delimiter or a sponge that already squeezes. */
    method AbsorbLastFewBits(delimitedData: Byte) returns (ret: nat)
      requires Valid() && (!squeezing ==> byteIOIndex < rate / 8)
      modifies `byteIOIndex, `squeezing, state
      ensures Valid() && ret == (if delimitedData == 0 || old(squeezing) then 1 else 0)
      ensures ret == 1 ==> Place() == old(Place()) && squeezing == old(squeezing)
      ensures ret == 0 ==> squeezing && byteIOIndex == 0
      ensures ret == 0 ==>
        Place() == AbsorbBytes(f, rate / 8, old(Place()), PadTail(delimitedData, old(byteIOIndex), rate / 8))
    {
      hide XorAt, AbsorbBytes, PadTail;
      if delimitedData == 0 || squeezing {
        return 1;
      }
      var r := rate / 8;
      ghost var c := Place();
      XorBytesInLane(byteIOIndex / LANE_BYTES, [delimitedData], byteIOIndex % LANE_BYTES);
      if delimitedData >= 0x80 && byteIOIndex == r - 1 {
        Permute();
      }
      ComplementBit(rate - 1);
      Permute();
      PadAbsorbed(f, r, c, delimitedData);
      byteIOIndex, squeezing := 0, true;
      return 0;
    }

    method ExtractLanes(laneCount: nat) returns (data: seq<Byte>)
      requires state.Length == STATE_BYTES && laneCount * LANE_BYTES <= STATE_BYTES
      ensures data == state[..laneCount * LANE_BYTES]
    {
      data := state[..laneCount * LANE_BYTES];
    }

    method ExtractBytesInLane(lane: nat, offset: nat, length: nat) returns (data: seq<Byte>)
      requires state.Length == STATE_BYTES
      requires lane * LANE_BYTES + offset + length <= STATE_BYTES && offset + length <= LANE_BYTES
      ensures data == state[lane * LANE_BYTES + offset..lane * LANE_BYTES + offset + length]
    {
      data := state[lane * LANE_BYTES + offset..lane * LANE_BYTES + offset + length];
    }

    /** Part of a block: lanes first when it starts the block, then bytes of partial lanes. */
    method SqueezeChunk(n: nat) returns (data: seq<Byte>)
      requires Valid() && byteIOIndex + n <= rate / 8
      modifies `byteIOIndex
      ensures Valid() && byteIOIndex == old(byteIOIndex) + n
      ensures data == state[old(byteIOIndex)..byteIOIndex]
    {
      ghost var start := byteIOIndex;
      var left := n;
      data := [];
      if byteIOIndex == 0 && left >= LANE_BYTES {
        data := ExtractLanes(left / LANE_BYTES);
        byteIOIndex := byteIOIndex + left / LANE_BYTES * LANE_BYTES;
        left := left - left / LANE_BYTES * LANE_BYTES;
      }
      while left > 0
        invariant Valid() && 0 <= left <= n && byteIOIndex + left == start + n
        invariant data == state[start..byteIOIndex]
      {
        var offsetInLane := byteIOIndex % LANE_BYTES;
        var bytesInLane := LANE_BYTES - offsetInLane;
        if bytesInLane > left {
          bytesInLane := left;
        }
        var part := ExtractBytesInLane(byteIOIndex / LANE_BYTES, offsetInLane, bytesInLane);
        data := data + part;
        byteIOIndex := byteIOIndex + bytesInLane;
        left := left - bytesInLane;
      }
    }

    /** One whole block of the fast lane: permute, whole lanes, then the odd bytes. */
    method SqueezeBlock() returns (data: seq<Byte>)
      requires Valid() && byteIOIndex == rate / 8
      modifies state
      ensures state[..] == f(old(state[..])) && data == state[..rate / 8]
    {
      var r := rate / 8;
      var lanes := r / LANE_BYTES;
      Permute();
      data := ExtractLanes(lanes);
      if r % LANE_BYTES > 0 {
        var part := ExtractBytesInLane(lanes, 0, r % LANE_BYTES);
        data := data + part;
      }
    }

    /** Fast lane: whole blocks while at least one is left to deliver. */
    method SqueezeBlocks(left: nat, ghost start: State, ghost t: nat) returns (data: seq<Byte>, rest: nat)
      requires Valid() && Squeezed(f, rate / 8, start, t) == Place() && byteIOIndex == rate / 8
      modifies state
      ensures Valid() && rest < rate / 8 && rest <= left
      ensures data == OutputRun(f, rate / 8, start, t, left - rest)
      ensures Squeezed(f, rate / 8, start, t + (left - rest)) == Place()
    {
      hide Squeezed, OutputRun, Turned;
      var r := rate / 8;
      data, rest := [], left;
      assert OutputRun(f, r, start, t, 0) == [];
      while rest >= r
        invariant Valid() && byteIOIndex == r && rest <= left
        invariant data == OutputRun(f, r, start, t, left - rest)
        invariant Squeezed(f, r, start, t + (left - rest)) == Place()
      {
        ghost var done := left - rest;
        SqueezeTurn(f, r, start, t + done);
        SqueezeRun(f, r, start, t + done, r);
        JoinOutput(f, r, start, t, done, r);
        var block := SqueezeBlock();
        data, rest := data + block, rest - r;
      }
    }

    /** Normal lane: catch up on the permutation and deliver what is left of one block. */
    method SqueezePart(left: nat, ghost start: State, ghost t: nat) returns (data: seq<Byte>)
      requires Valid() && Squeezed(f, rate / 8, start, t) == Place() && 0 < left
      requires byteIOIndex == rate / 8 ==> left < rate / 8
      requires byteIOIndex == rate / 8 || ChunkFits(left, byteIOIndex, rate / 8)
      modifies `byteIOIndex, state
      ensures Valid() && 0 < |data| <= left
      ensures data == OutputRun(f, rate / 8, start, t, |data|)
      ensures Squeezed(f, rate / 8, start, t + |data|) == Place()
      ensures |data| < left ==> byteIOIndex == rate / 8
    {
      hide Squeezed, OutputRun, Turned;
      var r := rate / 8;
      ChunkExact(left, if byteIOIndex == r then 0 else byteIOIndex, r);
      SqueezeTurn(f, r, start, t);
      if byteIOIndex == r {
        Permute();
        byteIOIndex := 0;
      }
      var partialBlock := Chunk(left, byteIOIndex, r);
      SqueezeRun(f, r, start, t, partialBlock);
      data := SqueezeChunk(partialBlock);
    }

    /** Squeeze n bytes. The ghost arguments name the state squeezing began with and the number
        of bytes squeezed since: however the output is cut into calls, byte k of it is byte
        k mod r of the start permuted k / r times, and no block is skipped or repeated. */
    method SqueezeMore(n: nat, ghost start: State, ghost t: nat) returns (data: seq<Byte>)
      requires Valid() && Squeezed(f, rate / 8, start, t) == Place()
      requires byteIOIndex == rate / 8 || ChunkFits(n, byteIOIndex, rate / 8)
      modifies `byteIOIndex, state
      ensures Valid()
      ensures data == OutputRun(f, rate / 8, start, t, n)
      ensures Squeezed(f, rate / 8, start, t + n) == Place()
    {
      hide Squeezed, OutputRun;
      var r := rate / 8;
      data := [];
      var i := 0;
      assert OutputRun(f, r, start, t, 0) == [];
      while i < n
        invariant Valid() && i <= n
        invariant Squeezed(f, r, start, t + i) == Place()
        invariant i == 0 ==> byteIOIndex == old(byteIOIndex)
        invariant 0 < i < n ==> byteIOIndex == r
        invariant data == OutputRun(f, r, start, t, i)
        decreases n - i
      {
        var part;
        if byteIOIndex == r && n >= i + r {
          var j;
          part, j := SqueezeBlocks(n - i, start, t + i);
          JoinOutput(f, r, start, t, i, n - i - j);
          i := n - j;
        } else {
          part := SqueezePart(n - i, start, t + i);
          JoinOutput(f, r, start, t, i, |part|);
          i := i + |part|;
        }
        data := data + part;
      }
    }

    /** Squeeze n bytes, first closing the input with an empty last byte if it is still open. */
    method Squeeze(n: nat, ghost start: State, ghost t: nat) returns (data: seq<Byte>)
      requires Valid() && (!squeezing ==> byteIOIndex < rate / 8)
      requires squeezing ==> Squeezed(f, rate / 8, start, t) == Place()
      requires !squeezing ==> t == 0
      requires !squeezing ==>
        start == AbsorbBytes(f, rate / 8, Place(), PadTail(0x01, byteIOIndex, rate / 8)).state
      requires (squeezing && byteIOIndex == rate / 8)
        || ChunkFits(n, if squeezing then byteIOIndex else 0, rate / 8)
      modifies `byteIOIndex, `squeezing, state
      ensures Valid() && squeezing
      ensures data == OutputRun(f, rate / 8, start, t, n)
      ensures Squeezed(f, rate / 8, start, t + n) == Place()
    {
      hide AbsorbBytes, PadTail;
      if !squeezing {
        var _ := AbsorbLastFewBits(0x01);
      }
      data := SqueezeMore(n, start, t);
    }
  }

  lemma JoinOutput(f: State -> State, r: nat, start: State, t: nat, a: nat, b: nat)
    requires 0 < r <= STATE_BYTES
    ensures OutputRun(f, r, start, t, a) + OutputRun(f, r, start, t + a, b) == OutputRun(f, r, start, t, a + b)
  {
    hide SqueezedByte;
  }

  lemma AbsorbNothing(f: State -> State, r: nat, c: Cursor)
    requires c.index < r <= STATE_BYTES
    ensures AbsorbBytes(f, r, c, []) == c
  {
  }

  /** The two parts of a block may be exclusive-ored in either order. */
  lemma XorAtSwap(s: State, data: seq<Byte>, cut: nat)
    requires cut <= |data| <= STATE_BYTES
    ensures XorAt(XorAt(s, cut, data[cut..]), 0, data[..cut]) == XorAt(s, 0, data)
  {
  }

  /** The bytes that finish the input at place index: the delimited last bits, zeros, and the top
      bit of the last byte of a block, in a block of its own if that bit is taken. */
  function PadTail(d: Byte, index: nat, r: nat): (tail: seq<Byte>)
    requires index < r
    ensures |tail| == r - index || (d >= 0x80 && index == r - 1 && |tail| == r + 1)
  {
    if index == r - 1 && d >= 0x80 then [d] + Zeros(r - 1) + [0x80]
    else if index == r - 1 then [XorByte(d, 0x80)]
    else [d] + Zeros(r - 2 - index) + [0x80]
  }

  lemma XorAtZeros(s: State, off: nat, n: nat)
    requires off + n <= STATE_BYTES
    ensures XorAt(s, off, Zeros(n)) == s
  {
    forall k | 0 <= k < STATE_BYTES ensures XorAt(s, off, Zeros(n))[k] == s[k] { XorBitsZero(s[k]); }
  }

  /** Exclusive-or with zeros and then one byte only touches the last place. */
  lemma XorAtLast(s: State, off: nat, n: nat, b: Byte)
    requires off + n < STATE_BYTES
    ensures XorAt(s, off, Zeros(n) + [b]) == XorAt(s, off + n, [b])
  {
    XorAtZeros(s, off, n);
    XorAtConcat(s, off, Zeros(n), [b]);
  }

  lemma XorTwice(s: State, i: nat, a: Byte, b: Byte)
    requires i < STATE_BYTES
    ensures XorAt(XorAt(s, i, [a]), i, [b]) == XorAt(s, i, [XorByte(a, b)])
  {
    XorBitsAssociative(s[i], a, b);
  }

  lemma PadAbsorbed(f: State -> State, r: nat, c: Cursor, d: Byte)
    requires c.index < r <= STATE_BYTES
    ensures var s1 := XorAt(c.state, c.index, [d]);
      var s2 := if d >= 0x80 && c.index == r - 1 then f(s1) else s1;
      AbsorbBytes(f, r, c, PadTail(d, c.index, r)) == Cursor(f(XorAt(s2, r - 1, [0x80])), 0)
  {
    hide AbsorbBytes, XorAt;
    var s1 := XorAt(c.state, c.index, [d]);
    if c.index == r - 1 && d >= 0x80 {
      var more := Zeros(r - 1) + [0x80];
      assert PadTail(d, c.index, r) == [d] + more;
      AbsorbConcat(f, r, c, [d], more);
      AbsorbRun(f, r, c, [d]);
      AbsorbRun(f, r, Cursor(f(s1), 0), more);
      XorAtLast(f(s1), 0, r - 1, 0x80);
    } else if c.index == r - 1 {
      AbsorbRun(f, r, c, [XorByte(d, 0x80)]);
      XorTwice(c.state, r - 1, d, 0x80);
    } else {
      var more := Zeros(r - 2 - c.index) + [0x80];
      assert PadTail(d, c.index, r) == [d] + more;
      AbsorbRun(f, r, c, [d] + more);
      XorAtConcat(c.state, c.index, [d], more);
      XorAtLast(s1, c.index + 1, r - 2 - c.index, 0x80);
    }
  }

  // ---------------------------------------------------------------- squeezing

  function Iterate(f: State -> State, s: State, n: nat): State {
    if n == 0 then s else f(Iterate(f, s, n - 1))
  }

  /** Byte k of the output: the permutation applied k / r times, then byte k mod r. */
  function SqueezedByte(f: State -> State, r: nat, start: State, k: nat): Byte
    requires 0 < r <= STATE_BYTES
  {
    Iterate(f, start, k / r)[k % r]
  }

  /** The output bytes t .. t + n - 1. */
  function OutputRun(f: State -> State, r: nat, start: State, t: nat, n: nat): (data: seq<Byte>)
    requires 0 < r <= STATE_BYTES
    ensures |data| == n
  {
    seq<Byte>(n, k requires 0 <= k < n => SqueezedByte(f, r, start, t + k))
  }

  /** The sponge after t bytes of output: permuted as late as possible, so a block that was just
      used up stays in place with the index at its end. */
  function Squeezed(f: State -> State, r: nat, start: State, t: nat): (c: Cursor)
    requires 0 < r <= STATE_BYTES
    ensures c.index <= r && (t > 0 ==> c.index > 0)
  {
    if t == 0 then Cursor(start, 0)
    else Cursor(Iterate(f, start, (t - 1) / r), (t - 1) % r + 1)
  }

  /** The sponge after t bytes of output, the permutation caught up. */
  function Turned(f: State -> State, r: nat, start: State, t: nat): (c: Cursor)
    requires 0 < r <= STATE_BYTES
    ensures c.index < r
  {
    Cursor(Iterate(f, start, t / r), t % r)
  }

  /** Only a used-up block lags behind, by one permutation. */
  lemma SqueezeTurn(f: State -> State, r: nat, start: State, t: nat)
    requires 0 < r <= STATE_BYTES
    ensures var c := Squeezed(f, r, start, t);
      Turned(f, r, start, t) == if c.index == r then Cursor(f(c.state), 0) else c
  {
    if t > 0 {
      var q, m := (t - 1) / r, (t - 1) % r;
      if m + 1 == r {
        Distribute(r, q, 1);
        DivModUnique(t, r, q + 1, 0);
      } else {
        DivModUnique(t, r, q, m + 1);
      }
    } else {
      DivModUnique(0, r, 0, 0);
    }
  }

  /** Reading n bytes of the current block in a row. */
  lemma SqueezeRun(f: State -> State, r: nat, start: State, t: nat, n: nat)
    requires 0 < r <= STATE_BYTES && 0 < n && Turned(f, r, start, t).index + n <= r
    ensures var c := Turned(f, r, start, t);
      && Squeezed(f, r, start, t + n) == Cursor(c.state, c.index + n)
      && OutputRun(f, r, start, t, n) == c.state[c.index..c.index + n]
  {
    var c, run := Turned(f, r, start, t), OutputRun(f, r, start, t, n);
    SamePlace(f, r, start, t, n - 1);
    forall k | 0 <= k < n
      ensures run[k] == c.state[c.index + k]
    {
      SamePlace(f, r, start, t, k);
    }
  }

  lemma SamePlace(f: State -> State, r: nat, start: State, t: nat, k: nat)
    requires 0 < r <= STATE_BYTES && Turned(f, r, start, t).index + k < r
    ensures (t + k) / r == t / r && (t + k) % r == t % r + k
  {
    DivModUnique(t + k, r, t / r, t % r + k);
  }
}
