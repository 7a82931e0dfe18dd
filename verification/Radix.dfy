/** Digits in any base, lowest first, with no zero at the top. */
module Radix {
  import opened Words

  function Value(d: seq<nat>, base: nat): nat {
    if d == [] then 0 else d[0] + base * Value(d[1..], base)
  }

  function Digits(n: nat, base: nat): (d: seq<nat>)
    requires base >= 2
    ensures n > 0 ==> |d| > 0
    decreases n
  {
    if n == 0 then []
    else
      Shrinks(n, base);
      [n % base] + Digits(n / base, base)
  }

  lemma Shrinks(n: nat, base: nat)
    requires n > 0 && base >= 2
    ensures 0 <= n / base < n && 0 <= n % base < base && n == base * (n / base) + n % base
  {
    var q, r := n / base, n % base;
    assert n == base * q + r;
    if q < 0 {
      MulMonotone(base, q, -1);
      assert false;
    }
    if q >= 1 {
      Distribute(q, 2, base - 2);
      MulMonotone(q, 0, base - 2);
    }
  }

  ghost predicate AreDigits(d: seq<nat>, base: nat) {
    forall i :: 0 <= i < |d| ==> d[i] < base
  }

  /** No zero at the top. */
  predicate Trimmed(d: seq<nat>) {
    d == [] || d[|d| - 1] != 0
  }

  lemma {:induction false} DigitsAreTrimmed(n: nat, base: nat)
    requires base >= 2
    ensures AreDigits(Digits(n, base), base) && Trimmed(Digits(n, base))
    decreases n
  {
    if n > 0 {
      Shrinks(n, base);
      DigitsAreTrimmed(n / base, base);
      if n / base == 0 {
        assert base * (n / base) == 0;
        assert Digits(n, base) == [n % base];
      }
    }
  }

  lemma {:induction false} ValueOfDigits(n: nat, base: nat)
    requires base >= 2
    ensures Value(Digits(n, base), base) == n
    decreases n
  {
    if n > 0 {
      Shrinks(n, base);
      ValueOfDigits(n / base, base);
      assert Digits(n, base)[1..] == Digits(n / base, base);
    }
  }

  lemma {:induction false} ValuePositive(d: seq<nat>, base: nat)
    requires base >= 2 && d != [] && Trimmed(d)
    ensures Value(d, base) > 0
    decreases |d|
  {
    if |d| > 1 {
      ValuePositive(d[1..], base);
      MulMonotone(base, 1, Value(d[1..], base));
    } else {
      assert d[1..] == [];
      assert base * Value(d[1..], base) == 0;
    }
  }

  /** Digits without a zero at the top are the digits of their value. */
  lemma {:induction false} DigitsOfValue(d: seq<nat>, base: nat)
    requires base >= 2 && AreDigits(d, base) && Trimmed(d)
    ensures Digits(Value(d, base), base) == d
    decreases |d|
  {
    if d != [] {
      var rest := d[1..];
      assert AreDigits(rest, base) by {
        assert forall i :: 0 <= i < |rest| ==> rest[i] == d[i + 1];
      }
      assert Trimmed(rest);
      DigitsOfValue(rest, base);
      ValuePositive(d, base);
      DivModUnique(Value(d, base), base, Value(rest, base), d[0]);
      assert d == [d[0]] + rest;
    }
  }

  /** Zeros at the top add nothing. */
  lemma {:induction false} TopZero(d: seq<nat>, base: nat)
    ensures Value(d + [0], base) == Value(d, base)
    decreases |d|
  {
    if d == [] {
      assert Value([0][1..], base) == 0;
      assert [] + [0] == [0];
    } else {
      assert (d + [0])[1..] == d[1..] + [0];
      TopZero(d[1..], base);
    }
  }

  function Power(base: nat, k: nat): (r: nat)
    ensures base > 0 ==> r > 0
  {
    if k == 0 then 1 else base * Power(base, k - 1)
  }

  lemma {:induction false} ValueBelowPower(d: seq<nat>, base: nat)
    requires base >= 1 && AreDigits(d, base)
    ensures Value(d, base) < Power(base, |d|)
    decreases |d|
  {
    if d != [] {
      assert forall i :: 0 <= i < |d[1..]| ==> d[1..][i] == d[i + 1];
      ValueBelowPower(d[1..], base);
      MulMonotone(base, Value(d[1..], base) + 1, Power(base, |d| - 1));
      Distribute(base, Value(d[1..], base), 1);
    }
  }

  lemma {:induction false} PowerGrows(a: nat, b: nat, k: nat)
    requires a <= b
    ensures Power(a, k) <= Power(b, k)
  {
    if k > 0 {
      PowerGrows(a, b, k - 1);
      MulMonotone(a, Power(a, k - 1), Power(b, k - 1));
      MulMonotone(Power(b, k - 1), a, b);
    }
  }

  lemma {:induction false} FewDigits(n: nat, base: nat, k: nat)
    requires base >= 2 && n < Power(base, k)
    ensures |Digits(n, base)| <= k
    decreases k
  {
    if n > 0 {
      Shrinks(n, base);
      assert k > 0;
      if n / base >= Power(base, k - 1) {
        MulMonotone(base, Power(base, k - 1), n / base);
        assert false;
      }
      FewDigits(n / base, base, k - 1);
    }
  }

  lemma {:induction false} PowerSum(base: nat, j: nat, k: nat)
    ensures Power(base, j + k) == Power(base, j) * Power(base, k)
  {
    if j > 0 {
      PowerSum(base, j - 1, k);
      MulAssociative(base, Power(base, j - 1), Power(base, k));
    }
  }

  lemma MulAssociative(a: int, b: int, c: int)
    ensures a * (b * c) == a * b * c
  {
  }

  /** One more digit on top. */
  lemma {:induction false} ValueSnoc(d: seq<nat>, x: nat, base: nat)
    ensures Value(d + [x], base) == Value(d, base) + Power(base, |d|) * x
    decreases |d|
  {
    if d == [] {
      assert d + [x] == [x] && [x][1..] == [];
      assert base * 0 == 0;
    } else {
      assert (d + [x])[1..] == d[1..] + [x];
      ValueSnoc(d[1..], x, base);
      Distribute(base, Value(d[1..], base), Power(base, |d| - 1) * x);
      MulAssociative(base, Power(base, |d| - 1), x);
    }
  }

  /** Low digits and high digits. */
  lemma {:induction false} ValueSplit(d: seq<nat>, k: nat, base: nat)
    requires k <= |d|
    ensures Value(d, base) == Value(d[..k], base) + Power(base, k) * Value(d[k..], base)
    decreases k
  {
    if k == 0 {
      assert d[..0] == [] && d[0..] == d;
    } else {
      assert d[..k][1..] == d[1..][..k - 1] && d[1..][k - 1..] == d[k..];
      ValueSplit(d[1..], k - 1, base);
      Distribute(base, Value(d[1..][..k - 1], base), Power(base, k - 1) * Value(d[k..], base));
      MulAssociative(base, Power(base, k - 1), Value(d[k..], base));
    }
  }

  function Reverse<T>(s: seq<T>): (r: seq<T>)
    ensures |r| == |s| && forall i :: 0 <= i < |s| ==> r[i] == s[|s| - 1 - i]
  {
    seq(|s|, i requires 0 <= i < |s| => s[|s| - 1 - i])
  }

  lemma ReverseTwice<T>(s: seq<T>)
    ensures Reverse(Reverse(s)) == s
  {
  }

  lemma ReverseSum<T>(a: seq<T>, b: seq<T>)
    ensures Reverse(a + b) == Reverse(b) + Reverse(a)
  {
  }
}
