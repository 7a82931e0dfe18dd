/** Single bits of numbers: what exclusive-or, conjunction, complement, rotation, quotients and
    remainders by powers of two do to them. */
module Bits {
  import opened Words

  /** Bit i of a number, the lowest being bit 0. */
  function Bit(b: nat, i: nat): bool {
    if i == 0 then b % 2 == 1 else Bit(b / 2, i - 1)
  }

  lemma {:induction false} BitOfXor(a: nat, b: nat, i: nat)
    ensures Bit(XorBits(a, b), i) == (Bit(a, i) != Bit(b, i))
    decreases i
  {
    XorBitsHalf(a, b);
    if i > 0 {
      BitOfXor(a / 2, b / 2, i - 1);
    }
  }

  lemma BitOfXorWord(a: Word, b: Word, z: nat)
    ensures Bit(Xor(a, b), z) == (Bit(a, z) != Bit(b, z))
  {
    BitOfXor(a, b, z);
  }

  lemma {:induction false} NoBitAbove(d: nat, n: nat, k: nat)
    requires d < Pow2(n) && n <= k
    ensures !Bit(d, k)
    decreases k
  {
    if k > 0 {
      NoBitAbove(d / 2, if n == 0 then 0 else n - 1, k - 1);
    }
  }

  lemma {:induction false} ZeroBits(k: nat)
    ensures !Bit(0, k)
  {
    if k > 0 {
      ZeroBits(k - 1);
    }
  }

  lemma {:induction false} BitOfQuotient(w: nat, m: nat, i: nat)
    ensures (QuotientIsNat(w, Pow2(m)); Bit(w / Pow2(m), i)) == Bit(w, i + m)
    decreases m
  {
    QuotientIsNat(w, Pow2(m));
    if m > 0 {
      BitOfQuotient(w / 2, m - 1, i);
      HalfQuotient(w, Pow2(m - 1));
    }
  }

  lemma HalfQuotient(w: nat, p: nat)
    requires p > 0
    ensures w / (2 * p) == w / 2 / p
  {
    var q, r := w / 2 / p, w / 2 % p;
    assert w == 2 * (p * q + r) + w % 2;
    assert 2 * (p * q) == 2 * p * q;
    DivModUnique(w, 2 * p, q, 2 * r + w % 2);
  }

  lemma {:induction false} BitOfRemainder(w: nat, m: nat, i: nat)
    requires i < m
    ensures Bit(w % Pow2(m), i) == Bit(w, i)
    decreases m
  {
    HalfRemainder(w, Pow2(m - 1));
    if i > 0 {
      BitOfRemainder(w / 2, m - 1, i - 1);
    }
  }

  lemma HalfRemainder(w: nat, p: nat)
    requires p > 0
    ensures w % (2 * p) / 2 == w / 2 % p && w % (2 * p) % 2 == w % 2
  {
    var q, r := w / 2 / p, w / 2 % p;
    assert w == 2 * (p * q + r) + w % 2;
    assert 2 * (p * q) == 2 * p * q;
    DivModUnique(w, 2 * p, q, 2 * r + w % 2);
  }

  /** The low k bits determine a number below 2^k. */
  lemma {:induction false} SameBits(a: nat, b: nat, k: nat)
    requires a < Pow2(k) && b < Pow2(k)
    requires forall i: nat :: i < k ==> Bit(a, i) == Bit(b, i)
    ensures a == b
    decreases k
  {
    if k > 0 {
      assert Bit(a, 0) == Bit(b, 0);
      forall i: nat | i < k - 1
        ensures Bit(a / 2, i) == Bit(b / 2, i)
      {
        assert Bit(a, i + 1) == Bit(b, i + 1);
      }
      SameBits(a / 2, b / 2, k - 1);
    }
  }

  lemma SameWord(a: Word, b: Word)
    requires forall i: nat :: i < 64 ==> Bit(a, i) == Bit(b, i)
    ensures a == b
  {
    hide *;
    Pow2Word();
    SameBits(a, b, 64);
  }

  /** Conjunction of two naturals, lowest bit first. */
  function AndBits(a: nat, b: nat): (r: nat)
    ensures r <= a
    decreases a + b
  {
    if a == 0 && b == 0 then 0
    else 2 * AndBits(a / 2, b / 2) + if a % 2 == 1 && b % 2 == 1 then 1 else 0
  }

  lemma {:induction false} BitOfAnd(a: nat, b: nat, i: nat)
    ensures Bit(AndBits(a, b), i) == (Bit(a, i) && Bit(b, i))
    decreases i
  {
    if a == 0 && b == 0 {
      ZeroBits(i);
    } else if i > 0 {
      BitOfAnd(a / 2, b / 2, i - 1);
    }
  }

  function And(a: Word, b: Word): Word {
    AndBits(a, b)
  }

  function Not(a: Word): Word {
    WORD_LIMIT - 1 - a
  }

  lemma {:induction false} BitOfComplement(a: nat, k: nat, i: nat)
    requires a < Pow2(k) && i < k
    ensures Bit(Pow2(k) - 1 - a, i) == !Bit(a, i)
    decreases i
  {
    assert Pow2(k) == 2 * Pow2(k - 1);
    hide Pow2;
    HalfComplement(Pow2(k - 1), a);
    if i > 0 {
      BitOfComplement(a / 2, k - 1, i - 1);
    }
  }

  lemma HalfComplement(p: nat, a: nat)
    requires a < 2 * p
    ensures a / 2 < p && (2 * p - 1 - a) / 2 == p - 1 - a / 2
    ensures (2 * p - 1 - a) % 2 != a % 2
  {
  }

  lemma BitOfNot(a: Word, i: nat)
    requires i < 64
    ensures Bit(Not(a), i) == !Bit(a, i)
  {
    Pow2Word();
    BitOfComplement(a, 64, i);
  }

  lemma {:induction false} TopBitOff(a: nat, k: nat, i: nat)
    requires a < 2 * Pow2(k)
    ensures Bit(a, k) == (a >= Pow2(k))
    ensures a >= Pow2(k) && i < k ==> Bit(a - Pow2(k), i) == Bit(a, i)
    decreases k
  {
    if k > 0 {
      TopBitOff(a / 2, k - 1, if i > 0 then i - 1 else 0);
      if a >= Pow2(k) {
        assert (a - Pow2(k)) / 2 == a / 2 - Pow2(k - 1);
      }
    }
  }

  /** Taking away 2^k where bit k is set clears that bit alone. */
  lemma {:induction false} BitTakenOff(a: nat, k: nat, i: nat)
    requires Bit(a, k)
    ensures a >= Pow2(k)
    ensures Bit(a - Pow2(k), i) == (i != k && Bit(a, i))
    decreases k
  {
    if k > 0 {
      BitTakenOff(a / 2, k - 1, if i > 0 then i - 1 else k);
      assert (a - Pow2(k)) / 2 == a / 2 - Pow2(k - 1) && (a - Pow2(k)) % 2 == a % 2;
    } else {
      assert (a - 1) / 2 == a / 2;
    }
  }

  /** Adding 2^k where bit k is clear sets that bit alone. */
  lemma {:induction false} BitPutOn(a: nat, k: nat, i: nat)
    requires !Bit(a, k)
    ensures Bit(a + Pow2(k), i) == (i == k || Bit(a, i))
    decreases k
  {
    if k > 0 {
      BitPutOn(a / 2, k - 1, if i > 0 then i - 1 else k);
      assert (a + Pow2(k)) / 2 == a / 2 + Pow2(k - 1) && (a + Pow2(k)) % 2 == a % 2;
    } else {
      assert (a + 1) / 2 == a / 2;
    }
  }

  lemma BitOfRotL1(x: Word, i: nat)
    requires i < 64
    ensures Bit(RotL1(x), i) == Bit(x, (i + 63) % 64)
  {
    TopPower();
    TopBitOff(x, 63, if i > 0 then i - 1 else 0);
    hide Pow2;
    RotatedHalf(x);
    if i > 0 {
      DivModUnique(i + 63, 64, 1, i - 1);
    }
  }

  lemma TopPower()
    ensures Pow2(63) == TOP_BIT
  {
    Pow2Word();
    assert Pow2(64) == 2 * Pow2(63);
  }

  lemma RotatedHalf(x: Word)
    ensures RotL1(x) / 2 == if x < TOP_BIT then x else x - TOP_BIT
    ensures RotL1(x) % 2 == if x < TOP_BIT then 0 else 1
  {
  }

  /** Rotation moves bit (i - n) mod 64 to place i. */
  lemma {:induction false} BitOfRotL(x: Word, n: nat, i: nat)
    requires i < 64 && n <= 64
    ensures Bit(RotL(x, n), i) == Bit(x, (i + 64 - n) % 64)
    decreases n
  {
    hide Bit;
    if n > 0 {
      BitOfRotL1(RotL(x, n - 1), i);
      BitOfRotL(x, n - 1, (i + 63) % 64);
    }
  }

  lemma {:induction false} XorRemainder(a: nat, b: nat, k: nat)
    ensures XorBits(a, b) % Pow2(k) == XorBits(a % Pow2(k), b % Pow2(k))
    decreases k
  {
    if k > 0 {
      var p := Pow2(k - 1);
      XorRemainder(a / 2, b / 2, k - 1);
      HalfRemainder(a, p);
      HalfRemainder(b, p);
      HalfRemainder(XorBits(a, b), p);
      XorBitsHalf(a, b);
      XorBitsHalf(a % (2 * p), b % (2 * p));
    }
  }
}
