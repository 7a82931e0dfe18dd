/** The sponge's 200 state bytes are the permutation's 25 lanes: Keccak-f on the lanes is the
    permutation of the sponge. */
module KeccakBytes {
  import opened Words
  import opened Bits
  import opened KeccakSponge
  import opened KeccakHash
  import KeccakF

  /** Keccak-f[1600] of the standard on the bits of the state bytes. */
  function KeccakPermutation(s: State): State {
    StateOf(KeccakF.Rounds(BitsOf(s), 24))
  }

  /** The state bytes as 25 little-endian lanes. */
  function LanesOf(s: State): KeccakF.Lanes {
    seq<Word>(25, i requires 0 <= i < 25 => LoadWord(s[8 * i..8 * i + 8]))
  }

  function LaneBytes(lanes: KeccakF.Lanes): State {
    seq<Byte>(STATE_BYTES, k requires 0 <= k < STATE_BYTES => StoreWord(lanes[k / 8])[k % 8])
  }

  lemma LanesOfBytes(lanes: KeccakF.Lanes)
    ensures LanesOf(LaneBytes(lanes)) == lanes
  {
    hide StoreWord, LoadWord;
    forall i | 0 <= i < 25
      ensures LanesOf(LaneBytes(lanes))[i] == lanes[i]
    {
      assert LaneBytes(lanes)[8 * i..8 * i + 8] == StoreWord(lanes[i]);
      LoadStore(lanes[i], StoreWord(lanes[i]));
    }
  }

  lemma {:induction false} BitOfValue(b: seq<Byte>, z: nat)
    requires z < 8 * |b|
    ensures Bit(ValueOf(b), z) == Bit(b[z / 8], z % 8)
  {
    hide Bit;
    assert Pow2(8) == 256;
    MergedBits(b[0], ValueOf(b[1..]), 8, z);
    if z >= 8 {
      BitOfValue(b[1..], z - 8);
    }
  }

  /** Bit z of lane 5y + x is bit 64 (5y + x) + z of the state string. */
  lemma WhichByte(i: nat, z: nat)
    ensures (64 * i + z) / 8 == 8 * i + z / 8 && (64 * i + z) % 8 == z % 8
  {
    DivModUnique(64 * i + z, 8, 8 * i + z / 8, z % 8);
  }

  lemma SpotIs(a: KeccakF.Cube, x: nat, y: nat, z: nat)
    requires x < 5 && y < 5 && z < 64
    ensures KeccakF.At(a, x, y, z) == a[64 * (5 * y + x) + z]
  {
  }

  lemma LaneBit(s: State, i: nat, z: nat)
    requires i < 25 && z < 64
    ensures Bit(LanesOf(s)[i], z) == BitsOf(s)[64 * i + z]
  {
    hide Bit, ValueOf;
    BitOfValue(s[8 * i..8 * i + 8], z);
    WhichByte(i, z);
  }

  lemma LanesAgree(s: State)
    ensures KeccakF.Agrees(LanesOf(s), BitsOf(s))
  {
    hide Bit, BitsOf, LanesOf, KeccakF.At;
    forall x: nat, y: nat, z: nat | x < 5 && y < 5 && z < 64
      ensures KeccakF.At(BitsOf(s), x, y, z) == Bit(LanesOf(s)[5 * y + x], z)
    {
      LaneBit(s, 5 * y + x, z);
      SpotIs(BitsOf(s), x, y, z);
    }
  }

  lemma AgreesIsEqual(lanes: KeccakF.Lanes, a: KeccakF.Cube, b: KeccakF.Cube)
    requires KeccakF.Agrees(lanes, a) && KeccakF.Agrees(lanes, b)
    ensures a == b
  {
    hide Bit;
    forall k | 0 <= k < 1600
      ensures a[k] == b[k]
    {
      var x, y, z := k / 64 % 5, k / 320, k % 64;
      assert KeccakF.At(a, x, y, z) == KeccakF.At(b, x, y, z);
      assert KeccakF.Spot(x, y, z) == k;
    }
  }

  /** Running the in-place lane code on the state bytes is Keccak-f on their bits. */
  method PermuteBytes(s: State) returns (t: State)
    ensures t == KeccakPermutation(s)
  {
    hide LanesOf, LaneBytes, KeccakF.Agrees, KeccakF.Rounds, BitsOf, StateOf;
    var lanes := LanesOf(s);
    var state := new Word[25](i requires 0 <= i < 25 => lanes[i]);
    assert state[..] == lanes;
    LanesAgree(s);
    KeccakF.StatePermute(state, BitsOf(s));
    t := LaneBytes(state[..]);
    LanesOfBytes(state[..]);
    LanesAgree(t);
    AgreesIsEqual(state[..], BitsOf(t), KeccakF.Rounds(BitsOf(s), 24));
    StateOfBits(t);
  }
}
