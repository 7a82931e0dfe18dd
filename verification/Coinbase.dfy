/** The payout transaction of a round: outputs by address, filled towards a maximum. Amounts are
    64-bit and wrap; what a call returns is narrowed to a 32-bit int, as the pool declares it. */
module Coinbase {
  import opened Bytes
  import opened Words

  // ---------------------------------------------------------------- totals of maps

  ghost function Total<K>(m: map<K, nat>): nat {
    if m == map[] then 0
    else
      var k :| k in m;
      m[k] + Total(m - {k})
  }

  lemma {:induction false} TotalRemove<K>(m: map<K, nat>, k: K)
    requires k in m
    ensures Total(m) == m[k] + Total(m - {k})
    decreases |m|
  {
    var j :| j in m && Total(m) == m[j] + Total(m - {j});
    if j != k {
      TotalRemove(m - {j}, k);
      TotalRemove(m - {k}, j);
      assert m - {j} - {k} == m - {k} - {j};
    }
  }

  function At<K>(m: map<K, nat>, k: K): nat {
    if k in m then m[k] else 0
  }

  lemma TotalUpdate<K>(m: map<K, nat>, k: K, v: nat)
    ensures Total(m[k := v]) == Total(m) - At(m, k) + v
  {
    TotalRemove(m[k := v], k);
    assert m[k := v] - {k} == m - {k};
    if k in m {
      TotalRemove(m, k);
    } else {
      assert m - {k} == m;
    }
  }

  /** Totals add entry by entry. */
  lemma {:induction false} TotalSum<K>(a: map<K, nat>, b: map<K, nat>, c: map<K, nat>)
    requires a.Keys == b.Keys == c.Keys
    requires forall k :: k in a ==> c[k] == a[k] + b[k]
    ensures Total(c) == Total(a) + Total(b)
    decreases |a|
  {
    if a == map[] {
      assert b == map[] && c == map[];
    } else {
      var k :| k in a;
      TotalRemove(a, k);
      TotalRemove(b, k);
      TotalRemove(c, k);
      TotalSum(a - {k}, b - {k}, c - {k});
    }
  }

  // ---------------------------------------------------------------- the transaction

  datatype Payout = Payout(currentValue: Word, outputs: map<Text, Word>, maxValue: Word, poolFee: Word)

  /** Conversion of a 64-bit value to a signed 32-bit one. */
  function ToInt(x: int): (r: int)
    ensures -0x8000_0000 <= r < 0x8000_0000
  {
    var low := x % UINT_LIMIT;
    if low < 0x8000_0000 then low else low - UINT_LIMIT
  }

  lemma SmallIsKept(x: int)
    requires -0x8000_0000 <= x < 0x8000_0000
    ensures ToInt(x) == x
  {
    if x < 0 {
      DivModUnique(x, UINT_LIMIT, -1, x + UINT_LIMIT);
    }
  }

  function OutputAdded(c: Payout, address: Text, value: Word): Payout {
    var was := if address in c.outputs then c.outputs[address] else 0;
    c.(outputs := c.outputs[address := Add(was, value)], currentValue := Add(c.currentValue, value))
  }

  /** The transaction after an attempt to add an output, and the int handed back: what is left to
      fill, or, negative, by how much the output was too large. */
  function Attempt(c: Payout, address: Text, value: Word): (Payout, int) {
    if Add(value, c.currentValue) > c.maxValue then (c, ToInt(c.maxValue - Add(value, c.currentValue)))
    else
      var d := OutputAdded(c, address, value);
      (d, ToInt(d.maxValue - d.currentValue))
  }

  class Coinbase {
    var currentValue: Word
    var outputs: map<Text, Word>
    var maxValue: Word
    var poolFee: Word

    constructor ()
      ensures Value() == Payout(0, map[], 0, 0)
    {
      currentValue, outputs, maxValue, poolFee := 0, map[], 0, 0;
    }

    function Value(): Payout
      reads this
    {
      Payout(currentValue, outputs, maxValue, poolFee)
    }

    method AddOutput(address: Text, value: Word)
      modifies this
      ensures Value() == OutputAdded(old(Value()), address, value)
    {
      if address !in outputs {
        outputs := outputs[address := 0];
      }
      outputs := outputs[address := Add(outputs[address], value)];
      currentValue := Add(currentValue, value);
    }

    method AddTransaction(address: Text, value: Word) returns (left: int)
      modifies this
      ensures (Value(), left) == Attempt(old(Value()), address, value)
    {
      if Add(value, currentValue) > maxValue {
        return ToInt(maxValue - Add(value, currentValue));
      }
      AddOutput(address, value);
      left := ToInt(maxValue - currentValue);
    }

    method GetRemainder() returns (left: int)
      ensures left == ToInt(maxValue - currentValue)
    {
      left := ToInt(maxValue - currentValue);
    }

    method IsComplete() returns (complete: bool)
      ensures complete <==> currentValue == maxValue
    {
      complete := currentValue == maxValue;
    }

    method Reset(max: Word)
      modifies this
      ensures Value() == Payout(0, map[], max, old(poolFee))
    {
      maxValue := max;
      currentValue := 0;
      outputs := map[];
    }
  }

  ghost predicate Distinct(order: seq<Text>) {
    forall i, j :: 0 <= i < j < |order| ==> order[i] != order[j]
  }

  lemma TotalBounds<K>(m: map<K, nat>, k: K)
    requires k in m
    ensures m[k] <= Total(m)
  {
    TotalRemove(m, k);
  }

  // ---------------------------------------------------------------- single attempts

  /** The outputs add up to the value so far, and stay within the maximum. */
  ghost predicate Sound(c: Payout) {
    c.currentValue <= c.maxValue && Total<Text>(c.outputs) == c.currentValue
  }

  /** The int handed back is what is left, or what is lacking, exactly when that number is an int. */
  lemma AttemptExact(c: Payout, address: Text, value: Word)
    requires c.currentValue <= c.maxValue && c.currentValue + value < WORD_LIMIT
    ensures var difference := c.maxValue - c.currentValue - value;
            Attempt(c, address, value).1 == difference <==> -0x8000_0000 <= difference < 0x8000_0000
  {
    var difference := c.maxValue - c.currentValue - value;
    if -0x8000_0000 <= difference < 0x8000_0000 {
      SmallIsKept(difference);
    }
  }

  /** An output that fits is added, whatever becomes of the int handed back. */
  lemma AttemptFits(c: Payout, address: Text, value: Word)
    requires Sound(c) && c.currentValue + value <= c.maxValue
    ensures var d := Attempt(c, address, value);
            && Sound(d.0) && d.1 == ToInt(c.maxValue - c.currentValue - value)
            && d.0.currentValue == c.currentValue + value && d.0.maxValue == c.maxValue && d.0.poolFee == c.poolFee
            && d.0.outputs.Keys == c.outputs.Keys + {address}
            && d.0.outputs[address] == At<Text>(c.outputs, address) + value
            && forall k :: k in c.outputs && k != address ==> d.0.outputs[k] == c.outputs[k]
  {
    if address in c.outputs {
      TotalBounds<Text>(c.outputs, address);
    }
    TotalUpdate<Text>(c.outputs, address, At<Text>(c.outputs, address) + value);
  }

  /** An output that does not fit changes nothing. */
  lemma AttemptTooLarge(c: Payout, address: Text, value: Word)
    requires c.currentValue <= c.maxValue < c.currentValue + value < WORD_LIMIT
    ensures Attempt(c, address, value) == (c, ToInt(c.maxValue - c.currentValue - value))
  {
  }

  lemma SoundBound(c: Payout)
    requires Sound(c)
    ensures c.currentValue <= c.maxValue
  {
  }

  lemma SoundTotal(c: Payout)
    ensures Sound(c) ==> Total<Text>(c.outputs) == c.currentValue
  {
  }

  /** Narrowing takes off a multiple of two to the 32. */
  lemma NarrowingShifts(x: int) returns (k: int)
    ensures ToInt(x) == x + UINT_LIMIT * k
  {
    k := if x % UINT_LIMIT < 0x8000_0000 then -(x / UINT_LIMIT) else -(x / UINT_LIMIT) - 1;
  }
}
