/** Arbitrary-precision integers as bytes in the signed MPI format: a four-byte size, then the
    magnitude high byte first, its top bit telling the sign. */
module BigNum {
  import opened Bytes
  import opened Database
  import opened Radix
  import opened Words

  function Magnitude(n: int): nat {
    if n < 0 then -n else n
  }

  function Sign(n: int): nat {
    if n < 0 then 0x80 else 0
  }

  /** The magnitude's bytes, low first, with the sign in the top bit and a byte added where the
      magnitude occupies that bit. */
  function Signed(n: int): seq<nat> {
    var m := Digits(Magnitude(n), 0x100);
    if m == [] then []
    else if m[|m| - 1] >= 0x80 then m + [Sign(n)]
    else m[..|m| - 1] + [m[|m| - 1] + Sign(n)]
  }

  function Unsigned(b: seq<nat>): seq<nat>
    requires b != []
  {
    var top := b[|b| - 1];
    if top >= 0x80 then b[..|b| - 1] + [top - 0x80] else b
  }

  function ValueOfSigned(b: seq<nat>): int {
    if b == [] then 0
    else
      var magnitude: int := Value(Unsigned(b), 0x100);
      if b[|b| - 1] >= 0x80 then -magnitude else magnitude
  }

  lemma SignedAreBytes(n: int)
    ensures AreDigits(Signed(n), 0x100)
  {
    DigitsAreTrimmed(Magnitude(n), 0x100);
  }

  function AsBytes(d: seq<nat>): (b: seq<Byte>)
    requires forall i :: 0 <= i < |d| ==> d[i] < 0x100
    ensures b == d
  {
    seq<Byte>(|d|, i requires 0 <= i < |d| && d[i] < 0x100 => d[i])
  }

  /** BN_bn2mpi. */
  function ToMpi(n: int): (b: seq<Byte>)
    requires |Signed(n)| < UINT_LIMIT
  {
    SignedAreBytes(n);
    Uint2Bytes(|Signed(n)|) + AsBytes(Reverse(Signed(n)))
  }

  /** BN_mpi2bn: the size must match. */
  function FromMpi(b: seq<Byte>): Option<int> {
    if |b| < 4 || Bytes2Uint(b, 0) + 4 != |b| then None
    else Some(ValueOfSigned(Reverse(b[4..])))
  }

  lemma NothingIsZero(n: int)
    requires Magnitude(n) == Value([], 0x100)
    ensures ValueOfSigned([]) == n
  {
  }

  lemma SignedBytesAre(n: int)
    ensures var m := Digits(Magnitude(n), 0x100);
            Signed(n) == if m == [] then []
                         else if m[|m| - 1] >= 0x80 then m + [Sign(n)]
                         else m[..|m| - 1] + [m[|m| - 1] + Sign(n)]
  {
  }

  lemma TopSplit(m: seq<nat>)
    requires m != []
    ensures m == m[..|m| - 1] + [m[|m| - 1]]
  {
  }

  /** Reading the signed bytes of an integer gives it back. */
  lemma SignedRoundTrip(n: int)
    ensures ValueOfSigned(Signed(n)) == n
  {
    hide *;
    var m := Digits(Magnitude(n), 0x100);
    ValueOfDigits(Magnitude(n), 0x100);
    SignedBytesAre(n);
    if m == [] {
      NothingIsZero(n);
    } else if m[|m| - 1] >= 0x80 {
      SignBehind(m, n);
    } else {
      TopSplit(m);
      SignInside(m[..|m| - 1], m[|m| - 1], n);
    }
  }

  lemma SignBehind(m: seq<nat>, n: int)
    requires m != [] && m[|m| - 1] >= 0x80 && Value(m, 0x100) == Magnitude(n)
    ensures ValueOfSigned(m + [Sign(n)]) == n
  {
    hide Value;
    TopZero(m, 0x100);
    assert Unsigned(m + [Sign(n)]) == m + [0];
  }

  lemma SignInside(front: seq<nat>, top: nat, n: int)
    requires top < 0x80 && Value(front + [top], 0x100) == Magnitude(n)
    ensures ValueOfSigned(front + [top + Sign(n)]) == n
  {
    hide Value;
    var s := front + [top + Sign(n)];
    assert s[|s| - 1] == top + Sign(n) && s[..|s| - 1] == front;
  }

  /** No redundant sign byte, and no negative zero. */
  predicate Minimal(b: seq<nat>) {
    b == [] || b[|b| - 1] % 0x80 != 0 || (|b| >= 2 && b[|b| - 2] >= 0x80)
  }

  lemma {:induction false} SignedIsMinimal(n: int)
    ensures Minimal(Signed(n))
  {
    DigitsAreTrimmed(Magnitude(n), 0x100);
  }

  /** Bytes are the signed bytes of the integer they encode exactly when they are minimal. */
  lemma SignedOfValue(b: seq<nat>)
    requires AreDigits(b, 0x100)
    ensures Signed(ValueOfSigned(b)) == b <==> Minimal(b)
  {
    SignedIsMinimal(ValueOfSigned(b));
    if b != [] && Minimal(b) {
      MinimalIsSigned(b, ValueOfSigned(b));
    }
  }

  lemma MinimalIsSigned(b: seq<nat>, n: int)
    requires AreDigits(b, 0x100) && b != [] && Minimal(b) && n == ValueOfSigned(b)
    ensures Signed(n) == b
  {
    var u := Unsigned(b);
    var front := b[..|b| - 1];
    assert u == front + [u[|u| - 1]] && b == front + [b[|b| - 1]];
    if u[|u| - 1] == 0 {
      TopZero(front, 0x100);
      MagnitudeIs(front, n, b[|b| - 1] >= 0x80);
    } else {
      MagnitudeIs(u, n, b[|b| - 1] >= 0x80);
      assert u[..|u| - 1] == front;
    }
  }

  lemma MagnitudeIs(m: seq<nat>, n: int, negative: bool)
    requires AreDigits(m, 0x100) && m != [] && Trimmed(m)
    requires n == if negative then -(Value(m, 0x100) as int) else Value(m, 0x100)
    ensures Digits(Magnitude(n), 0x100) == m && Sign(n) == if negative then 0x80 else 0
  {
    DigitsOfValue(m, 0x100);
    ValuePositive(m, 0x100);
  }

  // ---------------------------------------------------------------- byte vectors, low byte first

  method SetVch(v: seq<Byte>) returns (n: Option<int>)
    ensures n == VchValue(v)
  {
    var buffer := Uint2Bytes(|v| % UINT_LIMIT);
    buffer := buffer + Reverse(v);
    n := FromMpi(buffer);
  }

  function VchValue(v: seq<Byte>): Option<int> {
    FromMpi(Uint2Bytes(|v| % UINT_LIMIT) + Reverse(v))
  }

  function GetVch(n: int): (v: seq<Byte>)
    requires |Signed(n)| < UINT_LIMIT
  {
    var b := ToMpi(n);
    if |b| <= 4 then [] else Reverse(b[4..])
  }

  lemma MpiRead(payload: seq<Byte>)
    requires |payload| < UINT_LIMIT
    ensures FromMpi(Uint2Bytes(|payload|) + payload) == Some(ValueOfSigned(Reverse(payload)))
  {
    hide Uint2Bytes, Bytes2Uint, ValueOfSigned;
    var b := Uint2Bytes(|payload|) + payload;
    assert b[0..0 + 4] == Uint2Bytes(|payload|);
    UintRoundTrip(b, 0, |payload|);
    assert b[4..] == payload;
  }

  lemma VchIs(v: seq<Byte>)
    requires |v| < UINT_LIMIT
    ensures VchValue(v) == Some(ValueOfSigned(v))
  {
    hide ValueOfSigned, FromMpi, Uint2Bytes;
    MpiRead(Reverse(v));
    ReverseTwice(v);
    assert |v| % UINT_LIMIT == |v|;
  }

  lemma GetVchIs(n: int)
    requires |Signed(n)| < UINT_LIMIT
    ensures GetVch(n) == Signed(n)
  {
    hide Signed;
    var b := ToMpi(n);
    SignedAreBytes(n);
    assert b[4..] == Reverse(Signed(n));
    assert Reverse(Reverse(Signed(n))) == Signed(n);
  }

  /** Every integer survives the trip through its byte vector, sign included. */
  lemma VchRoundTrip(n: int)
    requires |Signed(n)| < UINT_LIMIT
    ensures VchValue(GetVch(n)) == Some(n)
  {
    GetVchIs(n);
    VchIs(GetVch(n));
    SignedRoundTrip(n);
  }

  /** A byte vector survives the trip through its integer exactly when it is minimal. */
  lemma IntegerRoundTrip(v: seq<Byte>)
    requires |v| < UINT_LIMIT && |Signed(ValueOfSigned(v))| < UINT_LIMIT
    ensures VchValue(v) == Some(ValueOfSigned(v))
    ensures GetVch(ValueOfSigned(v)) == v <==> Minimal(v)
  {
    VchIs(v);
    GetVchIs(ValueOfSigned(v));
    SignedOfValue(v);
  }

  /** A single zero byte reads as zero, which is written without any byte. */
  lemma SignByteIsDropped()
    ensures VchValue([0]) == Some(0) && GetVch(0) == []
  {
    assert AreDigits([0], 0x100);
    VchIs([0]);
    GetVchIs(0);
  }

  // ---------------------------------------------------------------- 1024-bit values in memory, low byte first

  /** The magnitude high byte first, a zero byte in front where its top bit is set. */
  method SetUint1024(memory: seq<Byte>) returns (n: Option<int>)
    requires |memory| == 128
    ensures n == Some(Value(memory, 0x100))
  {
    var payload: seq<Byte> := [];
    var leading := true;
    var i := |memory|;
    assert memory[..i] == memory;
    while i > 0
      invariant 0 <= i <= |memory| && |payload| <= |memory| - i + 1
      invariant leading ==> payload == [] && Value(memory[..i], 0x100) == Value(memory, 0x100)
      invariant !leading ==> payload != [] && payload[0] < 0x80
      invariant !leading ==> Value(memory[..i] + Reverse(payload), 0x100) == Value(memory, 0x100)
    {
      i := i - 1;
      var c := memory[i];
      assert memory[..i + 1] == memory[..i] + [c];
      if leading {
        if c == 0 {
          TopZero(memory[..i], 0x100);
          continue;
        }
        First(memory[..i], c);
        if c >= 0x80 {
          payload := payload + [0];
        }
        leading := false;
        payload := payload + [c];
        assert payload == if c >= 0x80 then [0, c] else [c];
        assert memory[..i] + [c] == memory[..i + 1];
      } else {
        Appended(memory[..i], c, payload);
        payload := payload + [c];
      }
    }
    assert memory[..0] + Reverse(payload) == Reverse(payload);
    n := FromMpi(Uint2Bytes(|payload|) + payload);
    MpiRead(payload);
  }

  lemma Appended(front: seq<Byte>, c: Byte, payload: seq<Byte>)
    ensures Value(front + Reverse(payload + [c]), 0x100) == Value(front + [c] + Reverse(payload), 0x100)
  {
    assert front + Reverse(payload + [c]) == front + [c] + Reverse(payload);
  }

  lemma First(front: seq<Byte>, c: Byte)
    ensures Value(front + Reverse([c]), 0x100) == Value(front + [c], 0x100)
    ensures Value(front + Reverse([0, c]), 0x100) == Value(front + [c], 0x100)
  {
    assert Reverse([c]) == [c];
    assert front + Reverse([0, c]) == front + [c] + [0];
    TopZero(front + [c], 0x100);
  }

  /** The size is in front, and the payload is the signed bytes high byte first. */
  lemma MpiBytes(n: int, k: nat)
    requires |Signed(n)| < UINT_LIMIT
    ensures |ToMpi(n)| == 4 + |Signed(n)|
    ensures k < |Signed(n)| ==> ToMpi(n)[|ToMpi(n)| - 1 - k] == Signed(n)[k]
  {
    SignedAreBytes(n);
    hide Uint2Bytes, Signed;
  }

  /** Without the sign bit the signed bytes are the digits of the magnitude, and perhaps a zero. */
  lemma SignDropped(n: int, k: nat)
    requires k < |Signed(n)|
    ensures var d, s := Digits(Magnitude(n), 0x100), Signed(n);
            (if k == |s| - 1 then s[k] % 0x80 else s[k]) == if k < |d| then d[k] else 0
  {
    DigitsAreTrimmed(Magnitude(n), 0x100);
  }

  lemma SignedCovers(n: int)
    ensures |Digits(Magnitude(n), 0x100)| <= |Signed(n)|
  {
  }

  /** The low 128 bytes of the magnitude; the sign is dropped. */
  method GetUint1024(n: int) returns (memory: seq<Byte>)
    requires |Signed(n)| < UINT_LIMIT
    ensures |memory| == 128
    ensures forall i :: 0 <= i < 128 ==>
              memory[i] == if i < |Digits(Magnitude(n), 0x100)| then Digits(Magnitude(n), 0x100)[i] else 0
  {
    hide *;
    var b := ToMpi(n);
    ghost var d := Digits(Magnitude(n), 0x100);
    MpiBytes(n, 0);
    SignedCovers(n);
    if |b| > 4 {
      b := b[4 := b[4] % 0x80];
    }
    memory := Repeat(0, 128);
    var i, j := 0, |b| - 1;
    while i < 128 && j >= 4
      invariant 0 <= i <= 128 && 3 <= j == |b| - 1 - i && |memory| == 128
      invariant forall k :: 0 <= k < 128 ==> memory[k] == if k < i && k < |d| then d[k] else 0
    {
      MpiBytes(n, i);
      SignDropped(n, i);
      memory := memory[i := b[j]];
      i, j := i + 1, j - 1;
    }
  }

  lemma SmallMagnitudes()
    ensures Signed(-1) == [0x81] && Signed(128) == [0x80, 0] && Signed(-300) == [0x2C, 0x81] && Signed(0) == []
  {
    assert Digits(1, 0x100) == [1] && Digits(128, 0x100) == [128] && Digits(0, 0x100) == [];
    assert Digits(300, 0x100) == [0x2C] + Digits(1, 0x100);
  }

  lemma VchIsSigned(n: int)
    requires |Signed(n)| < UINT_LIMIT
    ensures GetVch(n) == Signed(n)
  {
    hide Signed, Uint2Bytes;
    SignedAreBytes(n);
    var b := AsBytes(Reverse(Signed(n)));
    assert ToMpi(n)[4..] == b;
    assert Reverse(b) == Signed(n);
  }

  /** Low byte first, the sign in the top bit of the last byte, which a magnitude that needs that
      bit pushes one byte further. */
  lemma SmallIntegers()
    ensures GetVch(-1) == [0x81] && GetVch(128) == [0x80, 0] && GetVch(-300) == [0x2C, 0x81] && GetVch(0) == []
  {
    SmallMagnitudes();
    hide Signed, GetVch;
    VchIsSigned(-1);
    VchIsSigned(128);
    VchIsSigned(-300);
    VchIsSigned(0);
  }
}
