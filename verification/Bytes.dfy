/** Integers as bytes on the wire and on disk: four bytes high to low, and eight bytes as two such
    groups with the low group first. Reading past the end yields zero. */
module Bytes {
  import opened Words

  type Uint = x: int | 0 <= x < UINT_LIMIT
  type Text = seq<Byte>

  function Uint2Bytes(x: Uint): (b: seq<Byte>)
    ensures |b| == 4
  {
    [x / 0x100_0000, x / 0x1_0000 % 0x100, x / 0x100 % 0x100, x % 0x100]
  }

  function Bytes2Uint(b: seq<Byte>, offset: nat): (x: Uint) {
    if |b| < offset + 4 then 0
    else Join(b[offset], b[offset + 1], b[offset + 2], b[offset + 3])
  }

  function Join(a: int, b: int, c: int, d: int): int {
    a * 0x100_0000 + b * 0x1_0000 + c * 0x100 + d
  }

  function Uint2Bytes64(x: Word): (b: seq<Byte>)
    ensures |b| == 8
  {
    Uint2Bytes(x % UINT_LIMIT) + Uint2Bytes(x / UINT_LIMIT)
  }

  function Bytes2Uint64(b: seq<Byte>, offset: nat): (x: Word) {
    Bytes2Uint(b, offset) + Bytes2Uint(b, offset + 4) * UINT_LIMIT
  }

  lemma DivTwice(x: nat, q: nat)
    requires q > 0
    ensures x / (q * 0x100) == x / q / 0x100
  {
    var y := x / q;
    assert x == q * y + x % q && y == 0x100 * (y / 0x100) + y % 0x100;
    var low := q * (y % 0x100) + x % q;
    assert q * y == q * 0x100 * (y / 0x100) + q * (y % 0x100) by {
      Distribute(q, 0x100 * (y / 0x100), y % 0x100);
      assert q * (0x100 * (y / 0x100)) == q * 0x100 * (y / 0x100);
    }
    MulMonotone(q, y % 0x100, 0xFF);
    DivModUnique(x, q * 0x100, y / 0x100, low);
  }

  lemma JoinDigits(x: Uint)
    ensures Join(x / 0x100_0000, x / 0x1_0000 % 0x100, x / 0x100 % 0x100, x % 0x100) == x
  {
    DivTwice(x, 0x100);
    DivTwice(x, 0x1_0000);
    var a, b := x / 0x100, x / 0x1_0000;
    assert x == 0x100 * a + x % 0x100;
    assert a == 0x100 * b + a % 0x100;
    assert b == 0x100 * (x / 0x100_0000) + b % 0x100;
  }

  lemma DigitsOfJoin(a: Byte, b: Byte, c: Byte, d: Byte)
    ensures var x := Join(a, b, c, d);
            x / 0x100_0000 == a && x / 0x1_0000 % 0x100 == b && x / 0x100 % 0x100 == c && x % 0x100 == d
  {
    var x := Join(a, b, c, d);
    DivModUnique(x, 0x100_0000, a, Join(0, b, c, d));
    DivModUnique(x, 0x1_0000, Join(0, 0, a, b), Join(0, 0, c, d));
    DivModUnique(x, 0x100, Join(0, a, b, c), d);
    DivModUnique(Join(0, 0, a, b), 0x100, a, b);
    DivModUnique(Join(0, a, b, c), 0x100, Join(0, 0, a, b), c);
  }

  /** A number written at some place in a stream is read back from that place. */
  lemma UintRoundTrip(b: seq<Byte>, offset: nat, x: Uint)
    requires offset + 4 <= |b| && b[offset..offset + 4] == Uint2Bytes(x)
    ensures Bytes2Uint(b, offset) == x
  {
    var s := b[offset..offset + 4];
    JoinDigits(x);
    hide Join;
    assert s[0] == b[offset] && s[1] == b[offset + 1] && s[2] == b[offset + 2] && s[3] == b[offset + 3];
  }

  lemma Uint64RoundTrip(b: seq<Byte>, offset: nat, x: Word)
    requires offset + 8 <= |b| && b[offset..offset + 8] == Uint2Bytes64(x)
    ensures Bytes2Uint64(b, offset) == x
  {
    hide Uint2Bytes, Bytes2Uint;
    var s := b[offset..offset + 8];
    assert b[offset..offset + 4] == s[..4] == Uint2Bytes(x % UINT_LIMIT);
    assert b[offset + 4..offset + 4 + 4] == s[4..] == Uint2Bytes(x / UINT_LIMIT);
    UintRoundTrip(b, offset, x % UINT_LIMIT);
    UintRoundTrip(b, offset + 4, x / UINT_LIMIT);
  }

  /** Four bytes are the bytes of the number they encode. */
  lemma BytesRoundTrip(b: seq<Byte>)
    requires |b| == 4
    ensures Uint2Bytes(Bytes2Uint(b, 0)) == b
  {
    DigitsOfJoin(b[0], b[1], b[2], b[3]);
    hide Join;
    var x := Bytes2Uint(b, 0);
    assert x == Join(b[0], b[1], b[2], b[3]);
    assert b == [b[0], b[1], b[2], b[3]];
  }

  lemma Bytes64RoundTrip(b: seq<Byte>)
    requires |b| == 8
    ensures Uint2Bytes64(Bytes2Uint64(b, 0)) == b
  {
    hide Uint2Bytes, Bytes2Uint;
    assert Bytes2Uint(b, 0) == Bytes2Uint(b[..4], 0) && Bytes2Uint(b, 4) == Bytes2Uint(b[4..], 0) by {
      HalvesRead(b);
    }
    BytesRoundTrip(b[..4]);
    BytesRoundTrip(b[4..]);
    DivModUnique(Bytes2Uint64(b, 0), UINT_LIMIT, Bytes2Uint(b, 4), Bytes2Uint(b, 0));
    assert b == b[..4] + b[4..];
  }

  lemma HalvesRead(b: seq<Byte>)
    requires |b| == 8
    ensures Bytes2Uint(b, 0) == Bytes2Uint(b[..4], 0) && Bytes2Uint(b, 4) == Bytes2Uint(b[4..], 0)
  {
  }

  /** The bytes of a number by weight: the high byte comes first. */
  lemma HighByteFirst(x: Uint)
    ensures var b: seq<int> := Uint2Bytes(x); b[0] * 0x100_0000 + b[1] * 0x1_0000 + b[2] * 0x100 + b[3] == x
  {
    JoinDigits(x);
  }

  /** Eight bytes are two such groups, and the low group comes first. */
  lemma LowHalfFirst(x: Word)
    ensures var b: seq<int> := Uint2Bytes64(x);
      (b[0] * 0x100_0000 + b[1] * 0x1_0000 + b[2] * 0x100 + b[3])
      + UINT_LIMIT * (b[4] * 0x100_0000 + b[5] * 0x1_0000 + b[6] * 0x100 + b[7]) == x
  {
    hide Uint2Bytes;
    HighByteFirst(x % UINT_LIMIT);
    HighByteFirst(x / UINT_LIMIT);
  }

  lemma BytesOf1234()
    ensures Uint2Bytes(0x01020304) == [1, 2, 3, 4] && Bytes2Uint([9, 1, 2, 3, 4], 1) == 0x01020304
    ensures Uint2Bytes64(0x05060708_01020304) == [1, 2, 3, 4, 5, 6, 7, 8]
  {
    assert 0x05060708_01020304 % UINT_LIMIT == 0x01020304 && 0x05060708_01020304 / UINT_LIMIT == 0x05060708;
  }
}
