/** Unsigned 64-bit words as integers: addition wraps, exclusive-or and rotation are written
    out bit by bit, and words travel as eight little-endian bytes. */
module Words {
  const WORD_LIMIT: int := 0x1_0000_0000_0000_0000
  const TOP_BIT: int := 0x8000_0000_0000_0000

  const UINT_LIMIT: int := 0x1_0000_0000

  type Word = x: int | 0 <= x < WORD_LIMIT
  type Byte = x: int | 0 <= x < 256

  function Pow2(k: nat): (r: nat)
    ensures r >= 1
  {
    if k == 0 then 1 else 2 * Pow2(k - 1)
  }

  lemma {:induction false} Pow2Sum(a: nat, b: nat)
    ensures Pow2(a + b) == Pow2(a) * Pow2(b)
  {
    if a > 0 {
      Pow2Sum(a - 1, b);
    }
  }

  lemma Pow2Word()
    ensures Pow2(64) == WORD_LIMIT
  {
    assert Pow2(8) == 256;
    Pow2Sum(8, 8);
    Pow2Sum(16, 16);
    Pow2Sum(32, 32);
  }

  function Add(a: Word, b: Word): Word {
    if a + b < WORD_LIMIT then a + b else a + b - WORD_LIMIT
  }

  function Sub(a: Word, b: Word): Word {
    if b <= a then a - b else a - b + WORD_LIMIT
  }

  /** Exclusive-or of two naturals, lowest bit first. */
  function XorBits(a: nat, b: nat): nat
    decreases a + b
  {
    if a == 0 && b == 0 then 0
    else 2 * XorBits(a / 2, b / 2) + if a % 2 == b % 2 then 0 else 1
  }

  lemma {:induction false} XorBitsBound(a: nat, b: nat, k: nat)
    requires a < Pow2(k) && b < Pow2(k)
    ensures XorBits(a, b) < Pow2(k)
    decreases k
  {
    if k > 0 && !(a == 0 && b == 0) {
      XorBitsBound(a / 2, b / 2, k - 1);
    }
  }

  lemma {:induction false} XorBitsCancels(a: nat, b: nat)
    ensures XorBits(XorBits(a, b), b) == a
    decreases a + b
  {
    if a != 0 || b != 0 {
      var rest := XorBits(a / 2, b / 2);
      XorBitsCancels(a / 2, b / 2);
      XorBitsStep(XorBits(a, b), b, rest);
    }
  }

  lemma XorBitsStep(x: nat, b: nat, rest: nat)
    requires x / 2 == rest
    ensures XorBits(x, b) == 2 * XorBits(rest, b / 2) + if x % 2 == b % 2 then 0 else 1
  {
  }

  lemma {:induction false} XorBitsZero(a: nat)
    ensures XorBits(a, 0) == a
  {
    if a != 0 {
      XorBitsZero(a / 2);
    }
  }

  lemma {:induction false} XorBitsAssociative(a: nat, b: nat, c: nat)
    ensures XorBits(XorBits(a, b), c) == XorBits(a, XorBits(b, c))
    decreases a + b + c
  {
    if a + b == 0 {
      XorBitsZeroLeft(c);
      XorBitsZeroLeft(XorBits(b, c));
    } else if b + c == 0 {
      XorBitsZero(XorBits(a, b));
      XorBitsZero(a);
    } else {
      XorBitsAssociative(a / 2, b / 2, c / 2);
      XorBitsHalf(a, b);
      XorBitsHalf(b, c);
      XorBitsHalf(XorBits(a, b), c);
      XorBitsHalf(a, XorBits(b, c));
    }
  }

  lemma XorBitsHalf(a: nat, b: nat)
    ensures XorBits(a, b) == 2 * XorBits(a / 2, b / 2) + if a % 2 == b % 2 then 0 else 1
    ensures XorBits(a, b) / 2 == XorBits(a / 2, b / 2)
    ensures XorBits(a, b) % 2 == if a % 2 == b % 2 then 0 else 1
  {
  }

  lemma {:induction false} XorBitsZeroLeft(a: nat)
    ensures XorBits(0, a) == a
  {
    if a != 0 {
      XorBitsZeroLeft(a / 2);
    }
  }

  function XorByte(a: Byte, b: Byte): Byte {
    assert Pow2(8) == 256;
    XorBitsBound(a, b, 8);
    XorBits(a, b)
  }

  function Xor(a: Word, b: Word): Word {
    Pow2Word();
    XorBitsBound(a, b, 64);
    XorBits(a, b)
  }

  lemma XorCancels(a: Word, b: Word)
    ensures Xor(Xor(a, b), b) == a
  {
    XorBitsCancels(a, b);
  }

  /** Rotation to the left by one place: the top bit comes round to the bottom. */
  function RotL1(x: Word): Word {
    if x < TOP_BIT then 2 * x else 2 * (x - TOP_BIT) + 1
  }

  function RotR1(x: Word): Word {
    if x % 2 == 0 then x / 2 else x / 2 + TOP_BIT
  }

  function RotL(x: Word, n: nat): Word {
    if n == 0 then x else RotL1(RotL(x, n - 1))
  }

  function RotR(x: Word, n: nat): Word
    decreases n
  {
    if n == 0 then x else RotR(RotR1(x), n - 1)
  }

  lemma {:induction false} RotateBack(x: Word, n: nat)
    ensures RotR(RotL(x, n), n) == x
  {
    if n > 0 {
      RotateBack(x, n - 1);
    }
  }

  lemma {:induction false} RotateForth(x: Word, n: nat)
    ensures RotL(RotR(x, n), n) == x
    decreases n
  {
    if n > 0 {
      RotateForth(RotR1(x), n - 1);
    }
  }

  lemma MulAtLeast(d: nat, t: nat)
    requires t >= 1
    ensures d * t >= d
  {
  }

  /** Quotient and remainder are the only numbers that fit. */
  lemma DivModUnique(x: int, d: int, quot: int, rem: int)
    requires d > 0 && x == d * quot + rem && 0 <= rem < d
    ensures x / d == quot && x % d == rem
  {
    var q, r := x / d, x % d;
    assert d * q - d * quot == rem - r;
    assert d * (q - quot) == d * q - d * quot;
    if q - quot >= 1 {
      MulAtLeast(d, q - quot);
    } else if q - quot <= -1 {
      assert d * (quot - q) == d * quot - d * q;
      MulAtLeast(d, quot - q);
    }
  }

  /** Rotation is the shift form (x << n) | (x >> (64 - n)): the low 64 - n bits move up by n
      places and the high n bits fill the places they leave. */
  lemma {:induction false} RotLShifts(x: Word, n: nat)
    requires n <= 64
    ensures RotL(x, n) == Pow2(n) * (x % Pow2(64 - n)) + x / Pow2(64 - n)
  {
    Pow2Word();
    if n > 0 {
      RotLShifts(x, n - 1);
      var q, r := Pow2(64 - n), Pow2(n - 1);
      assert q * r == TOP_BIT by {
        Pow2Sum(64 - n, n - 1);
        Pow2Sum(63, 1);
      }
      assert Pow2(64 - (n - 1)) == 2 * q;
      RotL1Shifts(x, q, r, RotL(x, n - 1));
      assert Pow2(n) == 2 * r;
    }
  }

  lemma RotL1Shifts(x: Word, q: nat, r: nat, z: Word)
    requires q > 0 && q * r == TOP_BIT
    requires z == r * (x % (2 * q)) + x / (2 * q)
    ensures RotL1(z) == 2 * r * (x % q) + x / q
  {
    var a, b, c := x / (2 * q), x / q % 2, x % q;
    SplitAt(x, q);
    HighPart(x, q, r);
    RotL1Sum(q, r, a, b, c, z);
  }

  lemma RotL1Sum(q: nat, r: nat, a: nat, b: nat, c: nat, z: Word)
    requires q * r == TOP_BIT && a < r && b < 2 && c < q
    requires z == r * (q * b + c) + a
    ensures RotL1(z) == 2 * r * c + (2 * a + b)
  {
    RotL1Parts(q, r, b, c);
  }

  lemma RotL1Parts(q: nat, r: nat, b: nat, c: nat)
    requires q * r == TOP_BIT && b < 2 && c < q
    ensures r * (q * b + c) == b * TOP_BIT + r * c
    ensures r * c + r <= TOP_BIT
    ensures 2 * r * c == 2 * (r * c)
  {
    Distribute(r, q * b, c);
    assert b == 0 || b == 1;
    Distribute(r, c, 1);
    MulMonotone(r, c + 1, q);
  }

  lemma QuotientIsNat(x: nat, g: nat)
    requires g > 0
    ensures 0 <= x / g && x == g * (x / g) + x % g && 0 <= x % g < g
  {
    var q := x / g;
    assert x == g * q + x % g;
    if q < 0 {
      MulMonotone(g, q, -1);
      assert false;
    }
  }

  lemma Distribute(r: int, a: int, b: int)
    ensures r * (a + b) == r * a + r * b
  {
  }

  lemma MulMonotone(r: nat, a: int, b: int)
    requires a <= b
    ensures r * a <= r * b
  {
  }

  lemma HighPart(x: Word, q: nat, r: nat)
    requires q > 0 && q * r == TOP_BIT
    ensures x / (2 * q) < r
  {
  }

  lemma SplitAt(x: nat, q: nat)
    requires q > 0
    ensures x / q == 2 * (x / (2 * q)) + x / q % 2
    ensures x % (2 * q) == q * (x / q % 2) + x % q
  {
    var a, b, c := x / q / 2, x / q % 2, x % q;
    assert x == q * (2 * a + b) + c;
    assert q * (2 * a + b) == 2 * q * a + q * b;
    assert q * b + c < 2 * q by { assert b == 0 || b == 1; }
    DivModUnique(x, 2 * q, a, q * b + c);
  }

  // ---------------------------------------------------------------- little-endian bytes

  /** Value of little-endian bytes. */
  function ValueOf(b: seq<Byte>): nat {
    if b == [] then 0 else b[0] + 0x100 * ValueOf(b[1..])
  }

  /** The k low bytes of w, lowest first. */
  function LowBytes(w: nat, k: nat): (b: seq<Byte>)
    ensures |b| == k
  {
    if k == 0 then [] else [w % 0x100] + LowBytes(w / 0x100, k - 1)
  }

  lemma {:induction false} ValueBound(b: seq<Byte>)
    ensures ValueOf(b) < Pow2(8 * |b|)
  {
    if b != [] {
      ValueBound(b[1..]);
      assert Pow2(8) == 0x100;
      Pow2Sum(8, 8 * |b[1..]|);
    }
  }

  lemma {:induction false} ValueOfLowBytes(w: nat, k: nat)
    requires w < Pow2(8 * k)
    ensures ValueOf(LowBytes(w, k)) == w
    decreases k
  {
    if k > 0 {
      assert Pow2(8) == 0x100;
      Pow2Sum(8, 8 * (k - 1));
      ValueOfLowBytes(w / 0x100, k - 1);
      assert LowBytes(w, k)[1..] == LowBytes(w / 0x100, k - 1);
    }
  }

  lemma {:induction false} LowBytesOfValue(b: seq<Byte>)
    ensures LowBytes(ValueOf(b), |b|) == b
  {
    if b != [] {
      LowBytesOfValue(b[1..]);
      DivModUnique(b[0] + 0x100 * ValueOf(b[1..]), 0x100, ValueOf(b[1..]), b[0]);
      hide ValueOf;
    }
  }

  function LoadWord(b: seq<Byte>): Word
    requires |b| == 8
  {
    ValueBound(b);
    Pow2Word();
    ValueOf(b)
  }

  function StoreWord(w: Word): (b: seq<Byte>)
    ensures |b| == 8
  {
    LowBytes(w, 8)
  }

  /** A stored word loads back, and a loaded word stores back. */
  lemma LoadStore(w: Word, b: seq<Byte>)
    requires |b| == 8
    ensures LoadWord(StoreWord(w)) == w && StoreWord(LoadWord(b)) == b
  {
    Pow2Word();
    ValueOfLowBytes(w, 8);
    LowBytesOfValue(b);
  }

  /** Wrapping early or late is the same. */
  lemma WrapOnce(s: nat, t: nat)
    ensures (s % WORD_LIMIT + t) % WORD_LIMIT == (s + t) % WORD_LIMIT
  {
    var q, r := s / WORD_LIMIT, s % WORD_LIMIT;
    var u, v := (r + t) / WORD_LIMIT, (r + t) % WORD_LIMIT;
    DivModUnique(s + t, WORD_LIMIT, q + u, v);
  }

  lemma AddWraps(s: nat, x: Word)
    ensures Add(s % WORD_LIMIT, x) == (s + x) % WORD_LIMIT
  {
    var q, r := s / WORD_LIMIT, s % WORD_LIMIT;
    if r + x < WORD_LIMIT {
      DivModUnique(s + x, WORD_LIMIT, q, r + x);
    } else {
      DivModUnique(s + x, WORD_LIMIT, q + 1, r + x - WORD_LIMIT);
    }
  }

  // ---------------------------------------------------------------- shared helpers

  function Min(a: nat, b: nat): nat {
    if a < b then a else b
  }

  lemma MinIs(a: nat, b: nat)
    ensures Min(a, b) == if a < b then a else b
  {
  }

  function Repeat<T>(x: T, n: nat): (r: seq<T>)
    ensures |r| == n && forall i :: 0 <= i < n ==> r[i] == x
  {
    seq(n, _ => x)
  }

  function Zeros(n: nat): (z: seq<Byte>)
    ensures |z| == n
  {
    Repeat(0, n)
  }

  lemma Reassociate<T>(a: seq<T>, b: seq<T>, c: seq<T>)
    ensures a + (b + c) == a + b + c
  {
  }
}
