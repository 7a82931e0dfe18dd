/** Prime clusters: the small-prime sieve, the two differently shaped scans that measure how many
    primes follow a start within gaps of twelve, and the fractional rating of what follows. */
module PrimeCluster {
  import opened Radix
  import opened Words

  const SIEVE_SIZE: nat := 80
  const FRACTION_SCALE: nat := 0x100_0000

  // ---------------------------------------------------------------- primes and the sieve

  ghost predicate IsPrime(p: nat) {
    p >= 2 && forall d :: 2 <= d < p ==> p % d != 0
  }

  ghost predicate IsProduct(x: nat) {
    exists a: nat, b: nat :: 2 <= a && 2 <= b && a * b == x
  }

  lemma PrimeIsNoProduct(x: nat)
    requires x >= 2
    ensures IsPrime(x) <==> !IsProduct(x)
  {
    if IsProduct(x) {
      var a: nat, b: nat :| 2 <= a && 2 <= b && a * b == x;
      ProperDivisor(x, a, b);
    }
    if !IsPrime(x) {
      var d :| 2 <= d < x && x % d == 0;
      HasCofactor(x, d);
    }
  }

  lemma ProperDivisor(x: nat, a: nat, b: nat)
    requires 2 <= a && 2 <= b && a * b == x
    ensures a < x && x % a == 0
  {
    DivModUnique(x, a, b, 0);
    Larger(a, b);
  }

  lemma HasCofactor(x: nat, d: nat)
    requires 2 <= d < x && x % d == 0
    ensures IsProduct(x)
  {
    var q := x / d;
    assert x == d * q;
    CofactorAtLeastTwo(d, q);
    assert 2 <= d && 2 <= q && d * q == x;
  }

  lemma CofactorAtLeastTwo(d: nat, q: int)
    requires 2 <= d < d * q
    ensures q >= 2
  {
    if q <= 1 {
      MulMonotone(d, q, 1);
      assert false;
    }
  }

  lemma Larger(a: nat, b: nat)
    requires a >= 1 && b >= 2
    ensures a * b > a
  {
    assert a * b == a + a * (b - 1);
  }

  /** Marked so far: products of a first factor below i, or of i itself with a second factor below c. */
  ghost predicate Marked(x: nat, i: nat, c: nat) {
    exists a: nat, b: nat :: 2 <= a && 2 <= b && a * b == x && (a < i || (a == i && b < c))
  }

  lemma MarkNext(x: nat, i: nat, c: nat)
    requires 2 <= i && 2 <= c
    ensures Marked(x, i, c + 1) <==> Marked(x, i, c) || x == c * i
  {
    if Marked(x, i, c + 1) {
      var a: nat, b: nat :| 2 <= a && 2 <= b && a * b == x && (a < i || (a == i && b < c + 1));
      if !(a < i || (a == i && b < c)) { assert a == i && b == c; }
    }
    if x == c * i {
      assert i * c == x;
    }
  }

  lemma RowDone(x: nat, i: nat, c: nat, n: nat)
    requires 2 <= i && 2 <= c && c * i >= n && x < n
    ensures Marked(x, i + 1, 2) <==> Marked(x, i, c)
  {
    if Marked(x, i + 1, 2) {
      var a: nat, b: nat :| 2 <= a && 2 <= b && a * b == x && (a < i + 1 || (a == i + 1 && b < 2));
      if a == i && b >= c {
        MulMonotone(i, c, b);
        assert false;
      }
    }
  }

  ghost predicate MarksAre(marks: seq<bool>, i: nat, c: nat) {
    forall x: nat :: x < |marks| ==> (marks[x] <==> Marked(x, i, c))
  }

  lemma NothingMarked(marks: seq<bool>)
    requires forall x: nat :: x < |marks| ==> !marks[x]
    ensures MarksAre(marks, 2, 2)
  {
  }

  lemma MarkRow(marks: seq<bool>, i: nat, c: nat)
    requires 2 <= i && 2 <= c && c * i < |marks| && MarksAre(marks, i, c)
    ensures MarksAre(marks[c * i := true], i, c + 1)
  {
    var after := marks[c * i := true];
    forall x: nat | x < |after|
      ensures after[x] <==> Marked(x, i, c + 1)
    {
      MarkNext(x, i, c);
    }
  }

  lemma CloseRow(marks: seq<bool>, i: nat, c: nat)
    requires 2 <= i && 2 <= c && c * i >= |marks| && MarksAre(marks, i, c)
    ensures MarksAre(marks, i + 1, 2)
  {
    forall x: nat | x < |marks|
      ensures marks[x] <==> Marked(x, i + 1, 2)
    {
      RowDone(x, i, c, |marks|);
    }
  }

  /** The prime sieve lists exactly the primes below its size, in ascending order. The bound keeps
      the 32-bit product of the inner loop from wrapping. */
  method Eratosthenes(n: nat) returns (primes: seq<nat>)
    requires n <= 0x8000_0000
    ensures forall x: nat :: x in primes <==> x < n && IsPrime(x)
    ensures forall i, j :: 0 <= i < j < |primes| ==> primes[i] < primes[j]
  {
    hide Marked, IsPrime, MarksAre;
    var table := new bool[n](_ => false);
    var index := 2;
    NothingMarked(table[..]);
    while index < n
      invariant 2 <= index
      invariant MarksAre(table[..], index, 2)
    {
      var composite := 2;
      while composite * index < n
        invariant 2 <= composite
        invariant MarksAre(table[..], index, composite)
        decreases n - composite * index
      {
        assert composite * index < 0x1_0000_0000;
        MarkRow(table[..], index, composite);
        ghost var marks := table[..];
        table[composite * index] := true;
        assert table[..] == marks[composite * index := true];
        Distribute(index, composite, 1);
        composite := composite + 1;
      }
      CloseRow(table[..], index, composite);
      index := index + 1;
    }
    primes := Unmarked(table, index);
  }

  /** Above 2^31 the marking loop of index 2^31 never ends: in 32 bits its products are all below the
      size. */
  lemma LargerSievesRunOn(n: nat, composite: nat)
    requires n > 0x8000_0000
    ensures composite * 0x8000_0000 % 0x1_0000_0000 < n
  {
    var half := composite / 2;
    assert composite * 0x8000_0000 == 0x1_0000_0000 * half + composite % 2 * 0x8000_0000;
    DivModUnique(composite * 0x8000_0000, 0x1_0000_0000, half, composite % 2 * 0x8000_0000);
  }

  lemma MarkedAll(x: nat, i: nat)
    requires 2 <= x && x < i
    ensures Marked(x, i, 2) <==> !IsPrime(x)
  {
    PrimeIsNoProduct(x);
    if IsProduct(x) {
      var a: nat, b: nat :| 2 <= a && 2 <= b && a * b == x;
      Larger(a, b);
      assert a < i;
    }
  }

  method Unmarked(table: array<bool>, done: nat) returns (primes: seq<nat>)
    requires table.Length <= done
    requires MarksAre(table[..], done, 2)
    ensures forall x: nat :: x in primes <==> x < table.Length && IsPrime(x)
    ensures forall i, j :: 0 <= i < j < |primes| ==> primes[i] < primes[j]
  {
    primes := [];
    var index: nat := 2;
    while index < table.Length
      invariant 2 <= index
      invariant forall x: nat :: x in primes <==> x < index && x < table.Length && IsPrime(x)
      invariant forall i :: 0 <= i < |primes| ==> primes[i] < index
      invariant forall i, j :: 0 <= i < j < |primes| ==> primes[i] < primes[j]
    {
      MarkedAll(index, done);
      assert table[..][index] == table[index];
      if !table[index] {
        primes := primes + [index];
      }
      index := index + 1;
    }
  }

  ghost predicate IsSieve(sieve: seq<nat>) {
    forall x: nat :: x in sieve <==> x < SIEVE_SIZE && IsPrime(x)
  }

  method InitializePrimes() returns (sieve: seq<nat>)
    ensures IsSieve(sieve)
    ensures forall i, j :: 0 <= i < j < |sieve| ==> sieve[i] < sieve[j]
  {
    sieve := Eratosthenes(SIEVE_SIZE);
  }

  // ---------------------------------------------------------------- the tests

  /** The remainder of a to the n - 1 modulo n; a zero modulus is an error that leaves zero. */
  function FermatTest(n: nat, a: nat): (r: nat)
    ensures n > 0 ==> r < n
  {
    if n == 0 then 0 else Power(a, n - 1) % n
  }

  ghost predicate NoSmallDivisor(z: nat) {
    forall q: nat :: q < SIEVE_SIZE && IsPrime(q) ==> z % q != 0
  }

  ghost predicate Passes(z: nat) {
    NoSmallDivisor(z) && FermatTest(z, 2) == 1
  }

  ghost function SieveTest(): nat -> bool {
    (z: nat) => Passes(z)
  }

  method DivisorCheck(sieve: seq<nat>, z: nat) returns (ok: bool)
    requires IsSieve(sieve)
    ensures ok <==> NoSmallDivisor(z)
  {
    var index := 0;
    while index < |sieve|
      invariant 0 <= index <= |sieve|
      invariant forall i :: 0 <= i < index ==> sieve[i] > 0 && z % sieve[i] != 0
    {
      assert sieve[index] in sieve;
      if z % sieve[index] == 0 {
        return false;
      }
      index := index + 1;
    }
    ok := true;
  }

  method GmpPrimeTest(sieve: seq<nat>, z: nat) returns (ok: bool)
    requires IsSieve(sieve)
    ensures ok <==> Passes(z)
  {
    var divisor := DivisorCheck(sieve, z);
    if !divisor {
      return false;
    }
    ok := FermatTest(z, 2) == 1;
  }

  ghost predicate FullyPasses(millerRabin: (nat, int) -> bool, checks: int, z: nat) {
    && (1 <= checks ==> z % 2 != 0)
    && (2 <= checks ==> z % 3 != 0)
    && (3 <= checks ==> z % 5 != 0)
    && (4 <= checks ==> z % 7 != 0)
    && millerRabin(z, checks)
    && forall a :: 2 <= a < 2 + checks ==> FermatTest(z, a) == 1
  }

  ghost function FullTest(millerRabin: (nat, int) -> bool, checks: int): nat -> bool {
    (z: nat) => FullyPasses(millerRabin, checks, z)
  }

  method PrimeCheck(millerRabin: (nat, int) -> bool, z: nat, checks: int) returns (ok: bool)
    ensures ok <==> FullyPasses(millerRabin, checks, z)
  {
    var primes := [2, 3, 5, 7];
    var index := 0;
    while index < if checks < 4 then checks else 4
      invariant 0 <= index <= 4
      invariant forall i :: 0 <= i < index ==> z % primes[i] != 0
    {
      if z % primes[index] == 0 {
        return false;
      }
      index := index + 1;
    }
    assert forall i :: 0 <= i < 4 && i < checks ==> z % primes[i] != 0;
    assert primes[0] == 2 && primes[1] == 3 && primes[2] == 5 && primes[3] == 7;
    if !millerRabin(z, checks) {
      return false;
    }
    var n := 2;
    while n < 2 + checks
      invariant 2 <= n
      invariant forall a :: 2 <= a < n ==> FermatTest(z, a) == 1
    {
      if FermatTest(z, n) != 1 {
        return false;
      }
      n := n + 1;
    }
    ok := true;
  }

  // ---------------------------------------------------------------- what a cluster is

  /** The six candidates after position i all fail. */
  ghost predicate Run(test: nat -> bool, p: nat, i: nat) {
    && !test(p + 2 * i + 2) && !test(p + 2 * i + 4) && !test(p + 2 * i + 6)
    && !test(p + 2 * i + 8) && !test(p + 2 * i + 10) && !test(p + 2 * i + 12)
  }

  /** Position k, the number p + 2k, is the last member of the cluster: the first position that six
      failures follow. */
  ghost predicate EndsAt(test: nat -> bool, p: nat, k: nat) {
    Run(test, p, k) && forall i: nat :: i < k ==> !Run(test, p, i)
  }

  ghost predicate Stops(test: nat -> bool, p: nat) {
    exists k: nat :: EndsAt(test, p, k)
  }

  ghost function End(test: nat -> bool, p: nat): (k: nat)
    requires Stops(test, p)
    ensures EndsAt(test, p, k)
  {
    var k: nat :| EndsAt(test, p, k);
    k
  }

  lemma EndUnique(test: nat -> bool, p: nat, k: nat)
    requires EndsAt(test, p, k)
    ensures Stops(test, p) && End(test, p) == k
  {
  }

  lemma {:induction false} RunStops(test: nat -> bool, p: nat, i: nat, done: nat)
    requires Run(test, p, i) && done <= i
    requires forall j: nat :: j < done ==> !Run(test, p, j)
    ensures Stops(test, p) && End(test, p) <= i
    decreases i - done
  {
    if Run(test, p, done) {
      EndUnique(test, p, done);
    } else {
      RunStops(test, p, i, done + 1);
    }
  }

  ghost function Members(test: nat -> bool, p: nat, k: nat): (n: nat)
    ensures n <= k
  {
    if k == 0 then 0 else Members(test, p, k - 1) + if test(p + 2 * k) then 1 else 0
  }

  ghost function Positions(test: nat -> bool, p: nat, k: nat): set<nat> {
    set i: nat | 1 <= i <= k && test(p + 2 * i)
  }

  /** The count is that of the positions after the start that pass. */
  lemma {:induction false} MembersCount(test: nat -> bool, p: nat, k: nat)
    ensures Members(test, p, k) == |Positions(test, p, k)|
  {
    if k == 0 {
      assert Positions(test, p, 0) == {};
    } else {
      MembersCount(test, p, k - 1);
      PositionsNext(test, p, k);
      hide Positions;
    }
  }

  lemma PositionsNext(test: nat -> bool, p: nat, k: nat)
    requires k > 0
    ensures k !in Positions(test, p, k - 1)
    ensures Positions(test, p, k) == Positions(test, p, k - 1) + if test(p + 2 * k) then {k} else {}
  {
    forall i: nat
      ensures i in Positions(test, p, k) <==> i in Positions(test, p, k - 1) || (i == k && test(p + 2 * k))
    {
    }
  }

  /** The nearest member after position i. */
  ghost function NextMember(test: nat -> bool, p: nat, i: nat): (j: nat)
    requires !Run(test, p, i)
    ensures i < j <= i + 6 && test(p + 2 * j)
    ensures forall x: nat :: i < x < j ==> !test(p + 2 * x)
  {
    if test(p + 2 * (i + 1)) then i + 1
    else if test(p + 2 * (i + 2)) then i + 2
    else if test(p + 2 * (i + 3)) then i + 3
    else if test(p + 2 * (i + 4)) then i + 4
    else if test(p + 2 * (i + 5)) then i + 5
    else
      assert p + 2 * (i + 6) == p + 2 * i + 12 && p + 2 * (i + 5) == p + 2 * i + 10;
      assert p + 2 * (i + 4) == p + 2 * i + 8 && p + 2 * (i + 3) == p + 2 * i + 6;
      assert p + 2 * (i + 2) == p + 2 * i + 4 && p + 2 * (i + 1) == p + 2 * i + 2;
      i + 6
  }

  /** The last member passes, unless it is the start, and every earlier position has a member
      among the six that follow: a cluster is a chain with gaps of at most twelve. */
  lemma ClusterShape(test: nat -> bool, p: nat, k: nat)
    requires EndsAt(test, p, k)
    ensures k == 0 || test(p + 2 * k)
    ensures forall i: nat :: i < k ==> !Run(test, p, i) && NextMember(test, p, i) <= k
  {
    if k > 0 {
      assert !Run(test, p, k - 1);
    }
    forall i: nat | i < k
      ensures !Run(test, p, i) && NextMember(test, p, i) <= k
    {
      var d := NextMember(test, p, i) - k;
      assert test(p + 2 * k + 2 * d);
      assert d !in {1, 2, 3, 4, 5, 6};
    }
  }

  // ---------------------------------------------------------------- rating

  function GetFractionalDifficulty(composite: nat): (r: nat)
    requires composite > 0
  {
    (composite - FermatTest(composite, 2)) * FRACTION_SCALE / composite
  }

  function Fraction(composite: nat): (r: real)
    requires composite > 0
  {
    var v := GetFractionalDifficulty(composite);
    if v == 0 || 1000000 > v then 0.0 else 1000000.0 / v as real
  }

  lemma FractionRange(composite: nat)
    requires composite > 0
    ensures GetFractionalDifficulty(composite) <= FRACTION_SCALE
    ensures Fraction(composite) == 0.0 || 1000000.0 / 16777216.0 <= Fraction(composite) <= 1.0
  {
    var gap := composite - FermatTest(composite, 2);
    assert gap * FRACTION_SCALE <= FRACTION_SCALE * composite;
    var v := GetFractionalDifficulty(composite);
    QuotientBound(gap * FRACTION_SCALE, composite, FRACTION_SCALE);
    if 1000000 <= v {
      assert 1000000.0 <= v as real <= 16777216.0;
      Reciprocal(v as real);
    }
  }

  /** The scaled value is the complement of the Fermat remainder over the number, cut to the
      2^24 steps below it, and the fraction is a million over it as long as it is a million. */
  lemma FractionIs(c: nat)
    requires c > 0
    ensures var v := GetFractionalDifficulty(c);
      && c * v <= (c - Power(2, c - 1) % c) * 0x100_0000 < c * v + c
      && (v >= 1000000 ==> Fraction(c) * v as real == 1000000.0)
      && (v < 1000000 ==> Fraction(c) == 0.0)
  {
    hide Power;
    var x, v := (c - Power(2, c - 1) % c) * 0x100_0000, GetFractionalDifficulty(c);
    assert x == c * v + x % c;
    hide FermatTest, GetFractionalDifficulty;
    if v >= 1000000 {
      WholeOver(v as real);
    }
  }

  lemma WholeOver(v: real)
    requires v > 0.0
    ensures 1000000.0 / v * v == 1000000.0
  {
  }

  lemma QuotientBound(x: nat, d: nat, b: nat)
    requires d > 0 && x <= b * d
    ensures x / d <= b
  {
    var q := x / d;
    assert x == d * q + x % d;
    if q > b {
      Distribute(d, b, q - b);
      MulAtLeast(d, q - b);
      assert false;
    }
  }

  lemma Reciprocal(v: real)
    requires 1000000.0 <= v <= 16777216.0
    ensures 1000000.0 / 16777216.0 <= 1000000.0 / v <= 1.0
  {
    var f := 1000000.0 / v;
    assert f * v == 1000000.0;
    assert f > 0.0;
    assert f * v <= f * 16777216.0;
    assert f * 1000000.0 <= f * v;
  }

  /** Cluster size plus the rating of the number fourteen after the last member. */
  ghost function Rating(test: nat -> bool, p: nat): real
    requires Stops(test, p)
  {
    var k := End(test, p);
    (1 + Members(test, p, k)) as real + Fraction(p + 2 * k + 14)
  }

  // ---------------------------------------------------------------- the scans

  /** k candidates are tested; the last member so far is at position l. */
  ghost predicate Scanning(test: nat -> bool, p: nat, k: nat, l: nat) {
    && l <= k <= l + 6
    && (forall x: nat :: l < x <= k ==> !test(p + 2 * x))
    && forall i: nat :: i < l ==> !Run(test, p, i)
  }

  lemma ScanStep(test: nat -> bool, p: nat, k: nat, l: nat)
    requires Scanning(test, p, k, l) && k < l + 6
    ensures Scanning(test, p, k + 1, if test(p + 2 * (k + 1)) then k + 1 else l)
  {
    if test(p + 2 * (k + 1)) {
      forall i: nat | i < k + 1
        ensures !Run(test, p, i)
      {
        if i >= l {
          var d := k + 1 - i;
          assert d in {1, 2, 3, 4, 5, 6};
          assert p + 2 * (k + 1) == p + 2 * i + 2 * d;
        }
      }
    }
  }

  lemma ScanStarts(test: nat -> bool, p: nat)
    ensures Scanning(test, p, 0, 0)
  {
  }

  lemma ScanEnds(test: nat -> bool, p: nat, l: nat)
    requires Scanning(test, p, l + 6, l)
    ensures Stops(test, p) && End(test, p) == l
  {
    assert !test(p + 2 * (l + 1)) && !test(p + 2 * (l + 2)) && !test(p + 2 * (l + 3));
    assert !test(p + 2 * (l + 4)) && !test(p + 2 * (l + 5)) && !test(p + 2 * (l + 6));
    EndUnique(test, p, l);
  }

  lemma ScanBounded(test: nat -> bool, p: nat, k: nat, l: nat)
    requires Scanning(test, p, k, l) && Stops(test, p)
    ensures l <= End(test, p)
  {
  }

  // ---------------------------------------------------------------- why the scans stop

  lemma RemainderOfProduct(x: nat, y: nat, q: nat)
    requires q > 0 && x % q == 1
    ensures (x * y) % q == y % q
  {
    var u, v := x / q, y / q;
    assert x == q * u + x % q;
    assert q != 1;
    assert x == q * u + 1 && y == q * v + y % q;
    assert x * y == q * (u * y) + y;
    assert x * y == q * (u * y + v) + y % q;
    DivModUnique(x * y, q, u * y + v, y % q);
  }

  /** Powers repeat: with 2 to the o equal to 1 modulo q, exponents count modulo o. */
  lemma {:induction false} PowerPeriod(q: nat, o: nat, t: nat, s: nat)
    requires q > 0 && o > 0 && Power(2, o) % q == 1
    ensures Power(2, o * t + s) % q == Power(2, s) % q
    decreases t
  {
    hide *;
    if t == 0 {
      assert o * t + s == s;
    } else {
      MulMonotone(o, 0, t - 1);
      Distribute(o, t - 1, 1);
      assert o * t + s == o + (o * (t - 1) + s);
      OnePeriod(q, o, o * (t - 1) + s);
      PowerPeriod(q, o, t - 1, s);
    }
  }

  lemma OnePeriod(q: nat, o: nat, e: nat)
    requires q > 0 && Power(2, o) % q == 1
    ensures Power(2, o + e) % q == Power(2, e) % q
  {
    hide *;
    PowerSum(2, o, e);
    RemainderOfProduct(Power(2, o), Power(2, e), q);
  }

  lemma RemainderOfMultiple(x: nat, n: nat, q: nat)
    requires q > 1 && n > 0 && n % q == 0 && x % n == 1
    ensures x % q == 1
  {
    var u, v := x / n, n / q;
    assert x == n * u + 1 && n == q * v + n % q;
    assert n * u == q * (v * u);
    DivModUnique(x, q, v * u, 1);
  }

  /** A number divisible by q fails base 2 unless one less than it is a multiple of the order of 2. */
  lemma FermatFails(n: nat, q: nat, o: nat, t: nat, s: nat)
    requires n > 0 && q > 1 && n % q == 0 && o > 0 && Power(2, o) % q == 1
    requires n - 1 == o * t + s && Power(2, s) % q != 1
    ensures FermatTest(n, 2) != 1
  {
    if FermatTest(n, 2) == 1 {
      RemainderOfMultiple(Power(2, n - 1), n, q);
      PowerPeriod(q, o, t, s);
      assert false;
    }
  }

  lemma FermatNeedsOdd(n: nat)
    requires FermatTest(n, 2) == 1
    ensures n % 2 == 1
  {
    if n % 2 == 0 {
      assert Power(2, n - 1) == 2 * Power(2, n - 2);
      RemainderOfMultiple(Power(2, n - 1), n, 2);
      assert false;
    }
  }

  lemma PassesIsOdd(n: nat)
    requires Passes(n)
    ensures n % 2 == 1
  {
    FermatNeedsOdd(n);
  }

  lemma FullyPassesIsOdd(millerRabin: (nat, int) -> bool, checks: int, n: nat)
    requires FullyPasses(millerRabin, checks, n) && checks >= 1
    ensures n % 2 == 1
  {
  }

  lemma SmallPrimes()
    ensures IsPrime(3) && IsPrime(5) && IsPrime(7) && IsPrime(11)
  {
    assert 11 % 2 == 1 && 11 % 3 == 2 && 11 % 4 == 3 && 11 % 5 == 1 && 11 % 6 == 5;
    assert 11 % 7 == 4 && 11 % 8 == 3 && 11 % 9 == 2 && 11 % 10 == 1;
  }

  /** From an odd start, some position within 1154 is followed by numbers that are 115, 117, ..., 125
      modulo 2310, each of which 3, 5, 7 or 11 divides. */
  lemma SieveStops(p: nat)
    requires p % 2 == 1
    ensures Stops(SieveTest(), p) && End(SieveTest(), p) <= 1154
  {
    hide Passes, SieveTest;
    var i := Reach(p, 2310, 113);
    SieveRun(p + 2 * i);
    SieveTestIs();
    RunStops(SieveTest(), p, i, 0);
  }

  lemma SieveTestIs()
    ensures forall z: nat :: SieveTest()(z) == Passes(z)
  {
  }

  /** Positions step by two, so any odd residue is met within half the even modulus. */
  lemma Reach(p: nat, m: nat, r: nat) returns (i: nat)
    requires p % 2 == 1 && r % 2 == 1 && m % 2 == 0 && r < m
    ensures i < m / 2 && (p + 2 * i) % m == r
  {
    var a := p % m;
    var q := p / m;
    assert p == m * q + a;
    EvenPart(p, m, q, a);
    var t := if a <= r then r - a else r + m - a;
    EvenGap(m, a, r, t);
    i := t / 2;
    if a <= r {
      DivModUnique(p + t, m, q, r);
    } else {
      Distribute(m, q, 1);
      DivModUnique(p + t, m, q + 1, r);
    }
  }

  lemma EvenPart(p: nat, m: nat, q: int, a: nat)
    requires p % 2 == 1 && m % 2 == 0 && p == m * q + a
    ensures a % 2 == 1
  {
    var h := m / 2 * q;
    assert m * q == 2 * h by { assert m == 2 * (m / 2); }
    assert a == p - 2 * h;
  }

  lemma EvenGap(m: nat, a: nat, r: nat, t: nat)
    requires m % 2 == 0 && a % 2 == 1 && r % 2 == 1 && a < m && r < m
    requires t == if a <= r then r - a else r + m - a
    ensures 2 * (t / 2) == t && t / 2 < m / 2
  {
  }

  lemma Divisible(w: nat)
    requires w % 2310 == 113
    ensures (w + 2) % 5 == 0 && (w + 4) % 3 == 0 && (w + 6) % 7 == 0
    ensures (w + 8) % 11 == 0 && (w + 10) % 3 == 0 && (w + 12) % 5 == 0
  {
  }

  lemma SieveSize()
    ensures SIEVE_SIZE > 11
  {
  }

  lemma FailsDivisor(z: nat, q: nat)
    requires q < SIEVE_SIZE && IsPrime(q) && z % q == 0
    ensures !Passes(z)
  {
    hide IsPrime, FermatTest;
  }

  lemma SieveRun(w: nat)
    requires w % 2310 == 113
    ensures !Passes(w + 2) && !Passes(w + 4) && !Passes(w + 6)
    ensures !Passes(w + 8) && !Passes(w + 10) && !Passes(w + 12)
  {
    SmallPrimes();
    Divisible(w);
    hide *;
    assert SIEVE_SIZE > 11 by { SieveSize(); }
    FailsDivisor(w + 2, 5);
    FailsDivisor(w + 4, 3);
    FailsDivisor(w + 6, 7);
    FailsDivisor(w + 8, 11);
    FailsDivisor(w + 10, 3);
    FailsDivisor(w + 12, 5);
  }

  /** A recurring run of six numbers that all fail base 2, whatever the primality of the rest. */
  lemma FermatRun(w: nat)
    requires w % 6126120 == 26603
    ensures FermatTest(w + 2, 2) != 1 && FermatTest(w + 4, 2) != 1 && FermatTest(w + 6, 2) != 1
    ensures FermatTest(w + 8, 2) != 1 && FermatTest(w + 10, 2) != 1 && FermatTest(w + 12, 2) != 1
  {
    var t := w / 6126120;
    assert w == 6126120 * t + 26603;
    PowersOfTwo();
    RunDivides(w, t);
    hide FermatTest, Power;
    FermatFails(w + 2, 17, 8, 765765 * t + 3325, 4);
    FermatFails(w + 4, 7, 3, 2042040 * t + 8868, 2);
    FermatFails(w + 6, 11, 10, 612612 * t + 2660, 8);
    FermatFails(w + 8, 13, 12, 510510 * t + 2217, 6);
    FermatFails(w + 10, 9, 6, 1021020 * t + 4435, 2);
    FermatFails(w + 12, 5, 4, 1531530 * t + 6653, 2);
  }

  lemma RunDivides(w: nat, t: nat)
    requires w == 6126120 * t + 26603
    ensures (w + 2) % 17 == 0 && (w + 4) % 7 == 0 && (w + 6) % 11 == 0
    ensures (w + 8) % 13 == 0 && (w + 10) % 9 == 0 && (w + 12) % 5 == 0
  {
    DivModUnique(w + 2, 17, 360360 * t + 1565, 0);
    DivModUnique(w + 4, 7, 875160 * t + 3801, 0);
    DivModUnique(w + 6, 11, 556920 * t + 2419, 0);
    DivModUnique(w + 8, 13, 471240 * t + 2047, 0);
    DivModUnique(w + 10, 9, 680680 * t + 2957, 0);
    DivModUnique(w + 12, 5, 1225224 * t + 5323, 0);
  }

  lemma PowersOfTwo()
    ensures Power(2, 2) == 4 && Power(2, 3) == 8 && Power(2, 4) == 16 && Power(2, 6) == 64
    ensures Power(2, 8) == 256 && Power(2, 10) == 1024 && Power(2, 12) == 4096
  {
    assert Power(2, 3) == 8;
    assert Power(2, 6) == 64;
    assert Power(2, 9) == 512;
  }

  /** With at least one check every scan stops, whatever Miller-Rabin answers. */
  lemma FullStops(millerRabin: (nat, int) -> bool, checks: int, p: nat)
    requires checks >= 1 && p % 2 == 1
    ensures Stops(FullTest(millerRabin, checks), p)
    ensures End(FullTest(millerRabin, checks), p) < 3063060
  {
    var i := Reach(p, 6126120, 26603);
    FermatRun(p + 2 * i);
    hide FermatTest;
    assert Run(FullTest(millerRabin, checks), p, i);
    RunStops(FullTest(millerRabin, checks), p, i, 0);
  }

  // ---------------------------------------------------------------- both shapes, any test

  /** The gap counter, for any test whatever: counts the members and leaves off six candidates past
      the last one. Without an end to the cluster neither loop stops. */
  method GapCount(test: nat -> bool, p: nat) returns (clusterSize: nat, offset: nat)
    requires Stops(test, p)
    ensures clusterSize == 1 + Members(test, p, End(test, p)) && offset == 2 * End(test, p) + 12
  {
    hide Run, Scanning, EndsAt;
    ScanStarts(test, p);
    var primeGap := 2;
    clusterSize, offset := 1, 0;
    ghost var k: nat, l: nat := 0, 0;
    while primeGap <= 12
      invariant l <= k <= l + 6 && Scanning(test, p, k, l)
      invariant offset == 2 * k && primeGap == 2 + 2 * (k - l)
      invariant clusterSize == 1 + Members(test, p, k)
      invariant Members(test, p, k) == Members(test, p, l)
      decreases End(test, p) + 6 - k
    {
      ScanStep(test, p, k, l);
      offset := offset + 2;
      k := k + 1;
      if !test(p + offset) {
        primeGap := primeGap + 2;
        ScanBounded(test, p, k, l);
        continue;
      }
      l := k;
      ScanBounded(test, p, k, l);
      clusterSize := clusterSize + 1;
      primeGap := 2;
    }
    ScanEnds(test, p, l);
  }

  /** The window scan, for any test whatever: the same members, and it leaves off one candidate on. */
  method WindowCount(test: nat -> bool, p: nat) returns (clusterSize: nat, next: nat)
    requires Stops(test, p)
    ensures clusterSize == 1 + Members(test, p, End(test, p)) && next == p + 2 * End(test, p) + 14
  {
    hide Run, Scanning, EndsAt;
    ScanStarts(test, p);
    var lastPrime := p;
    next, clusterSize := p + 2, 1;
    ghost var k: nat, l: nat := 0, 0;
    while next <= lastPrime + 12
      invariant l <= k <= l + 6 && Scanning(test, p, k, l)
      invariant next == p + 2 * k + 2 && lastPrime == p + 2 * l
      invariant clusterSize == 1 + Members(test, p, k)
      invariant Members(test, p, k) == Members(test, p, l)
      decreases End(test, p) + 6 - k
    {
      ScanStep(test, p, k, l);
      ScanBounded(test, p, k, l);
      k := k + 1;
      if test(next) {
        lastPrime := next;
        clusterSize := clusterSize + 1;
        l := k;
      }
      next := next + 2;
    }
    ScanEnds(test, p, l);
  }

  // ---------------------------------------------------------------- the three measurements

  method GmpVerification(sieve: seq<nat>, prime: nat) returns (r: real)
    requires IsSieve(sieve)
    ensures !Passes(prime) ==> r == 0.0
    ensures Passes(prime) ==> Stops(SieveTest(), prime) && r == Rating(SieveTest(), prime)
  {
    hide Passes, FullyPasses, NoSmallDivisor, IsPrime, FermatTest, Power, Run, Scanning, EndsAt, Fraction;
    SieveTestIs();
    var z := prime;
    var ok := GmpPrimeTest(sieve, z);
    if !ok {
      return 0.0;
    }
    PassesIsOdd(prime);
    SieveStops(prime);
    ScanStarts(SieveTest(), prime);
    var clusterSize, primeGap, offset := 1, 2, 0;
    ghost var k: nat, l: nat := 0, 0;
    while primeGap <= 12
      invariant l <= k <= l + 6 && Scanning(SieveTest(), prime, k, l)
      invariant offset == 2 * k && z == prime + offset && primeGap == 2 + 2 * (k - l)
      invariant clusterSize == 1 + Members(SieveTest(), prime, k)
      invariant Members(SieveTest(), prime, k) == Members(SieveTest(), prime, l)
      invariant offset <= 2320
      decreases End(SieveTest(), prime) + 6 - k
    {
      ScanStep(SieveTest(), prime, k, l);
      z := z + 2;
      offset := offset + 2;
      ok := GmpPrimeTest(sieve, z);
      k := k + 1;
      if !ok {
        primeGap := primeGap + 2;
        ScanBounded(SieveTest(), prime, k, l);
        continue;
      }
      l := k;
      ScanBounded(SieveTest(), prime, k, l);
      clusterSize := clusterSize + 1;
      primeGap := 2;
    }
    ScanEnds(SieveTest(), prime, l);
    r := clusterSize as real + Fraction(prime + offset + 2);
  }

  method CheckPrimeDifficulty(sieve: seq<nat>, prime: nat) returns (r: real)
    requires IsSieve(sieve)
    ensures FermatTest(prime, 2) != 1 ==> r == 0.0
    ensures FermatTest(prime, 2) == 1 ==> Stops(SieveTest(), prime) && r == Rating(SieveTest(), prime)
  {
    hide NoSmallDivisor, IsPrime, FermatTest, Power, Run, Scanning, EndsAt, Fraction;
    SieveTestIs();
    if FermatTest(prime, 2) != 1 {
      return 0.0;
    }
    FermatNeedsOdd(prime);
    SieveStops(prime);
    ScanStarts(SieveTest(), prime);
    var lastPrime, next, clusterSize := prime, prime + 2, 1;
    ghost var k: nat, l: nat := 0, 0;
    while next <= lastPrime + 12
      invariant l <= k <= l + 6 && Scanning(SieveTest(), prime, k, l)
      invariant next == prime + 2 * k + 2 && lastPrime == prime + 2 * l
      invariant clusterSize == 1 + Members(SieveTest(), prime, k)
      invariant Members(SieveTest(), prime, k) == Members(SieveTest(), prime, l)
      decreases End(SieveTest(), prime) + 6 - k
    {
      ScanStep(SieveTest(), prime, k, l);
      ScanBounded(SieveTest(), prime, k, l);
      k := k + 1;
      var divisor := DivisorCheck(sieve, next);
      if divisor && FermatTest(next, 2) == 1 {
        lastPrime := next;
        clusterSize := clusterSize + 1;
        l := k;
      }
      next := next + 2;
    }
    ScanEnds(SieveTest(), prime, l);
    r := clusterSize as real + Fraction(next);
  }

  method VerifyPrimeDifficulty(millerRabin: (nat, int) -> bool, prime: nat, checks: int) returns (r: real)
    requires checks >= 1 || !FullyPasses(millerRabin, checks, prime) || Stops(FullTest(millerRabin, checks), prime)
    ensures !FullyPasses(millerRabin, checks, prime) ==> r == 0.0
    ensures FullyPasses(millerRabin, checks, prime) ==>
              Stops(FullTest(millerRabin, checks), prime) && r == Rating(FullTest(millerRabin, checks), prime)
  {
    hide Passes, FullyPasses, NoSmallDivisor, IsPrime, FermatTest, Power, Run, Scanning, EndsAt, Fraction;
    var ok := PrimeCheck(millerRabin, prime, checks);
    if !ok {
      return 0.0;
    }
    ghost var test := FullTest(millerRabin, checks);
    assert forall z: nat :: test(z) == FullyPasses(millerRabin, checks, z);
    if checks >= 1 {
      FullyPassesIsOdd(millerRabin, checks, prime);
      FullStops(millerRabin, checks, prime);
    }
    ScanStarts(test, prime);
    var lastPrime, next, clusterSize := prime, prime + 2, 1;
    ghost var k: nat, l: nat := 0, 0;
    while next <= lastPrime + 12
      invariant l <= k <= l + 6 && Scanning(test, prime, k, l)
      invariant next == prime + 2 * k + 2 && lastPrime == prime + 2 * l
      invariant clusterSize == 1 + Members(test, prime, k)
      invariant Members(test, prime, k) == Members(test, prime, l)
      decreases End(test, prime) + 6 - k
    {
      ScanStep(test, prime, k, l);
      ScanBounded(test, prime, k, l);
      k := k + 1;
      ok := PrimeCheck(millerRabin, next, checks);
      if ok {
        lastPrime := next;
        clusterSize := clusterSize + 1;
        l := k;
      }
      next := next + 2;
    }
    ScanEnds(test, prime, l);
    r := clusterSize as real + Fraction(next);
  }

  /** What the gap counter and the window scan measure is the same number, except for a start that a
      sieve prime divides and base 2 accepts: there one answers zero and the other at least one. */
  lemma MeasurementsAgree(p: nat, gap: real, window: real)
    requires !Passes(p) ==> gap == 0.0
    requires Passes(p) ==> Stops(SieveTest(), p) && gap == Rating(SieveTest(), p)
    requires FermatTest(p, 2) != 1 ==> window == 0.0
    requires FermatTest(p, 2) == 1 ==> Stops(SieveTest(), p) && window == Rating(SieveTest(), p)
    ensures gap == window <==> NoSmallDivisor(p) || FermatTest(p, 2) != 1
  {
    if FermatTest(p, 2) == 1 {
      RatingRange(SieveTest(), p);
    }
  }

  lemma RatingRange(test: nat -> bool, p: nat)
    requires Stops(test, p)
    ensures var size := 1 + Members(test, p, End(test, p));
            size as real <= Rating(test, p) <= (size + 1) as real
  {
    FractionRange(p + 2 * End(test, p) + 14);
  }

  /** Three is such a start. */
  lemma ThreeIsMeasuredTwice()
    ensures !Passes(3) && FermatTest(3, 2) == 1
  {
    SmallPrimes();
    assert 3 % 3 == 0;
    assert Power(2, 2) == 4;
  }

  lemma OneTwentySevenPasses()
    ensures FermatTest(127, 2) == 1
  {
    assert Power(2, 3) == 8;
    assert Power(2, 7) == 128;
    PowerPeriod(127, 7, 18, 0);
    assert Power(2, 126) % 127 == Power(2, 0) % 127;
  }

  /** The rated number is never tested, and it need not be composite: after 113 it is 127. */
  lemma RatedNumberCanPass()
    ensures Stops(SieveTest(), 113) && End(SieveTest(), 113) == 0
    ensures FermatTest(113 + 14, 2) == 1
  {
    SmallPrimes();
    SieveRun(113);
    SieveTestIs();
    hide Passes, SieveTest;
    RunStops(SieveTest(), 113, 0, 0);
    OneTwentySevenPasses();
  }

  /** 113 passes both tests: no number below 80 divides it, and 2 has order 28 modulo 113. */
  lemma OneThirteenPasses()
    ensures Passes(113)
  {
    forall q: nat | q < SIEVE_SIZE && IsPrime(q)
      ensures 113 % q != 0
    {
      var m := 113 / q;
      assert 113 == q * m + 113 % q;
      if 113 % q == 0 {
        NoFactorOf113(q, m);
      }
    }
    assert Power(2, 7) == 128;
    PowerSum(2, 7, 7);
    PowerSum(2, 14, 14);
    assert Power(2, 28) == 0x1000_0000;
    PowerPeriod(113, 28, 4, 0);
    assert Power(2, 112) % 113 == Power(2, 0) % 113;
  }

  lemma NoFactorOf113(q: nat, m: nat)
    requires 2 <= q < 80
    ensures q * m != 113
  {
    if m > 10 && q > 10 {
      MulMonotone(q, 11, m);
      assert q * m >= 11 * q;
    } else if m <= 10 {
      assert m in {0, 1, 2, 3, 4, 5, 6, 7, 8, 9, 10};
    } else {
      assert q in {2, 3, 4, 5, 6, 7, 8, 9, 10};
    }
  }

  /** The rating of 113 is 1 for the start and a million over 126/127 of 2^24, cut. */
  lemma RatingOf113()
    ensures Passes(113) && Stops(SieveTest(), 113)
    ensures Rating(SieveTest(), 113) == 1.0 + 1000000.0 / 16645111.0
  {
    OneThirteenPasses();
    RatedNumberCanPass();
    hide FermatTest, SieveTest, Stops, End, Passes;
    assert GetFractionalDifficulty(127) == 16645111;
    assert Members(SieveTest(), 113, 0) == 0;
  }
}
