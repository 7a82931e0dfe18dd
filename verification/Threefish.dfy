/** The Threefish block cipher as the Skein specification (section 3.3) writes it: mix every
    pair of words, permute the words, and add a subkey before every fourth round. The three
    variants carry the rotation constants and the round counts of the pool's sources. */
module Threefish {
  import opened Words
  import opened Bits

  const PARITY: Word := 0x5555_5555_5555_5555

  datatype Variant = Variant(words: nat, rounds: nat, pi: seq<nat>, rot: seq<seq<nat>>)
  {
    ghost predicate Valid() {
      && 4 <= words <= 16 && words % 2 == 0
      && rounds % 8 == 0
      && IsIndexMap(pi, words)
      && Compose(Compose(Compose(pi, pi), pi), pi) == Identity(words)
      && |rot| == 8
      && forall d :: 0 <= d < 8 ==> 2 * |rot[d]| == words
    }
  }

  ghost predicate IsIndexMap(p: seq<nat>, n: nat) {
    |p| == n && forall i :: 0 <= i < n ==> p[i] < n
  }

  function Identity(n: nat): (p: seq<nat>)
    ensures IsIndexMap(p, n)
  {
    seq(n, i => i)
  }

  /** Look up p at every place q names. */
  function Compose(p: seq<nat>, q: seq<nat>): (r: seq<nat>)
    requires IsIndexMap(p, |p|) && IsIndexMap(q, |p|)
    ensures IsIndexMap(r, |p|)
  {
    seq(|q|, i requires 0 <= i < |q| => p[q[i]])
  }

  /** The words of x in the order p names them. */
  function Permute(x: seq<Word>, p: seq<nat>): (y: seq<Word>)
    requires IsIndexMap(p, |x|)
    ensures |y| == |x|
  {
    seq(|p|, i requires 0 <= i < |p| => x[p[i]])
  }

  lemma PermuteCompose(x: seq<Word>, p: seq<nat>, q: seq<nat>)
    requires IsIndexMap(p, |x|) && IsIndexMap(q, |x|)
    ensures Permute(Permute(x, p), q) == Permute(x, Compose(p, q))
  {
  }

  // ---------------------------------------------------------------- the round

  /** MIX of the specification: add, rotate the second word, exclusive-or. */
  function Mix(a: Word, b: Word, n: nat): (Word, Word) {
    (Add(a, b), Xor(RotL(b, n), Add(a, b)))
  }

  function Unmix(a: Word, b: Word, n: nat): (Word, Word) {
    (Sub(a, RotR(Xor(b, a), n)), RotR(Xor(b, a), n))
  }

  lemma MixUnmix(a: Word, b: Word, n: nat)
    ensures var m := Mix(a, b, n); Unmix(m.0, m.1, n) == (a, b)
    ensures var u := Unmix(a, b, n); Mix(u.0, u.1, n) == (a, b)
  {
    RotateBack(b, n);
    RotateForth(Xor(b, a), n);
    XorCancels(RotL(b, n), Add(a, b));
    XorCancels(b, a);
  }

  /** Apply a two-word operation to the words 2j and 2j + 1 for every j. */
  function MixAll(x: seq<Word>, row: seq<nat>): (y: seq<Word>)
    requires |x| == 2 * |row|
    ensures |y| == |x|
  {
    seq(|x|, i requires 0 <= i < |x| =>
      if i % 2 == 0 then Mix(x[i], x[i + 1], row[i / 2]).0 else Mix(x[i - 1], x[i], row[i / 2]).1)
  }

  function UnmixAll(x: seq<Word>, row: seq<nat>): (y: seq<Word>)
    requires |x| == 2 * |row|
    ensures |y| == |x|
  {
    seq(|x|, i requires 0 <= i < |x| =>
      if i % 2 == 0 then Unmix(x[i], x[i + 1], row[i / 2]).0 else Unmix(x[i - 1], x[i], row[i / 2]).1)
  }

  lemma MixUnmixAll(x: seq<Word>, row: seq<nat>)
    requires |x| == 2 * |row|
    ensures UnmixAll(MixAll(x, row), row) == x
    ensures MixAll(UnmixAll(x, row), row) == x
  {
    hide MixAll, UnmixAll;
    forall i | 0 <= i < |x|
      ensures UnmixAll(MixAll(x, row), row)[i] == x[i] && MixAll(UnmixAll(x, row), row)[i] == x[i]
    {
      MixUnmixPair(x, row, i / 2);
      assert i == 2 * (i / 2) || i == 2 * (i / 2) + 1;
    }
  }

  lemma MixUnmixPair(x: seq<Word>, row: seq<nat>, j: nat)
    requires |x| == 2 * |row| && j < |row|
    ensures UnmixAll(MixAll(x, row), row)[2 * j..2 * j + 2] == x[2 * j..2 * j + 2]
    ensures MixAll(UnmixAll(x, row), row)[2 * j..2 * j + 2] == x[2 * j..2 * j + 2]
  {
    hide Mix, Unmix, MixAll, UnmixAll;
    var a, b := x[2 * j], x[2 * j + 1];
    MixUnmix(a, b, row[j]);
    MixAt(x, row, j);
    UnmixAt(x, row, j);
    MixAt(UnmixAll(x, row), row, j);
    UnmixAt(MixAll(x, row), row, j);
  }

  lemma MixAt(x: seq<Word>, row: seq<nat>, j: nat)
    requires |x| == 2 * |row| && j < |row|
    ensures MixAll(x, row)[2 * j] == Mix(x[2 * j], x[2 * j + 1], row[j]).0
    ensures MixAll(x, row)[2 * j + 1] == Mix(x[2 * j], x[2 * j + 1], row[j]).1
  {
    hide Mix;
    var e := 2 * j;
    assert e % 2 == 0 && e / 2 == j && (e + 1) % 2 == 1 && (e + 1) / 2 == j;
  }

  lemma UnmixAt(x: seq<Word>, row: seq<nat>, j: nat)
    requires |x| == 2 * |row| && j < |row|
    ensures UnmixAll(x, row)[2 * j] == Unmix(x[2 * j], x[2 * j + 1], row[j]).0
    ensures UnmixAll(x, row)[2 * j + 1] == Unmix(x[2 * j], x[2 * j + 1], row[j]).1
  {
    hide Unmix;
    var e := 2 * j;
    assert e % 2 == 0 && e / 2 == j && (e + 1) % 2 == 1 && (e + 1) / 2 == j;
  }

  function Round(v: Variant, x: seq<Word>, row: seq<nat>): (y: seq<Word>)
    requires v.Valid() && |x| == v.words == 2 * |row|
    ensures |y| == v.words
  {
    Permute(MixAll(x, row), v.pi)
  }

  /** The word permutation has order four, so three more applications undo one. */
  function Unround(v: Variant, x: seq<Word>, row: seq<nat>): (y: seq<Word>)
    requires v.Valid() && |x| == v.words == 2 * |row|
    ensures |y| == v.words
  {
    UnmixAll(Permute(Permute(Permute(x, v.pi), v.pi), v.pi), row)
  }

  lemma FourPermutes(v: Variant, x: seq<Word>)
    requires v.Valid() && |x| == v.words
    ensures Permute(Permute(Permute(Permute(x, v.pi), v.pi), v.pi), v.pi) == x
  {
    var p2 := Compose(v.pi, v.pi);
    PermuteCompose(x, v.pi, v.pi);
    PermuteCompose(x, p2, v.pi);
    PermuteCompose(x, Compose(p2, v.pi), v.pi);
  }

  lemma RoundUnround(v: Variant, x: seq<Word>, row: seq<nat>)
    requires v.Valid() && |x| == v.words == 2 * |row|
    ensures Unround(v, Round(v, x, row), row) == x
    ensures Round(v, Unround(v, x, row), row) == x
  {
    FourPermutes(v, MixAll(x, row));
    FourPermutes(v, x);
    MixUnmixAll(x, row);
    MixUnmixAll(Permute(Permute(Permute(x, v.pi), v.pi), v.pi), row);
  }

  lemma AddIs(a: Word, b: Word)
    ensures Add(a, b) == (a + b) % WORD_LIMIT
  {
    AddWraps(a, b);
  }

  /** MIX in plain arithmetic: the first word of a pair becomes the sum, and the second differs
      from that sum in bit z exactly when its own rotated bit is set. */
  lemma MixedPair(x: seq<Word>, row: seq<nat>, j: nat, z: nat)
    requires |x| == 2 * |row| && j < |row| && row[j] < 64 && z < 64
    ensures MixAll(x, row)[2 * j] == (x[2 * j] + x[2 * j + 1]) % WORD_LIMIT
    ensures Bit(MixAll(x, row)[2 * j + 1], z) ==
      (Bit(x[2 * j + 1], (z + 64 - row[j]) % 64) != Bit((x[2 * j] + x[2 * j + 1]) % WORD_LIMIT, z))
  {
    hide Bit, RotL, Xor, Add, MixAll;
    var a, b := x[2 * j], x[2 * j + 1];
    MixAt(x, row, j);
    AddIs(a, b);
    BitOfXorWord(RotL(b, row[j]), Add(a, b), z);
    BitOfRotL(b, row[j], z);
  }

  /** A round in plain arithmetic: word i comes mixed from place pi[i]. */
  lemma RoundWord(v: Variant, x: seq<Word>, row: seq<nat>, i: nat, z: nat)
    requires v.Valid() && |x| == v.words == 2 * |row| && i < v.words && z < 64
    requires forall j :: 0 <= j < |row| ==> row[j] < 64
    ensures var p := v.pi[i]; var y := Round(v, x, row)[i];
      if p % 2 == 0 then y == (x[p] + x[p + 1]) % WORD_LIMIT
      else Bit(y, z) == (Bit(x[p], (z + 64 - row[p / 2]) % 64) != Bit((x[p - 1] + x[p]) % WORD_LIMIT, z))
  {
    hide Bit, MixAll;
    var p := v.pi[i];
    assert Round(v, x, row)[i] == MixAll(x, row)[p];
    hide Round, Variant.Valid;
    MixedPair(x, row, p / 2, z);
    assert p == 2 * (p / 2) + p % 2;
  }

  // ---------------------------------------------------------------- the key schedule

  /** Extended key: the key words followed by their exclusive-or with the parity constant. */
  function ExtendKey(x: seq<Word>): (k: seq<Word>)
    ensures |k| == |x| + 1
  {
    x + [Xor(XorFold(x), PARITY)]
  }

  /** Exclusive-or of all words, accumulated from the first to the last. */
  function XorFold(x: seq<Word>): Word {
    if |x| == 0 then 0
    else if |x| == 1 then x[0]
    else Xor(XorFold(x[..|x| - 1]), x[|x| - 1])
  }

  function ExtendTweak(t0: Word, t1: Word): (t: seq<Word>)
    ensures |t| == 3
  {
    [t0, t1, Xor(t0, t1)]
  }

  /** How many of the words have bit i set. */
  function SetBits(words: seq<Word>, i: nat): nat {
    if words == [] then 0
    else SetBits(words[..|words| - 1], i) + if Bit(words[|words| - 1], i) then 1 else 0
  }

  lemma {:induction false} BitOfFold(x: seq<Word>, i: nat)
    ensures Bit(XorFold(x), i) == (SetBits(x, i) % 2 == 1)
  {
    if x == [] {
      ZeroBits(i);
    } else {
      BitOfFold(x[..|x| - 1], i);
      BitOfXor(XorFold(x[..|x| - 1]), x[|x| - 1], i);
      hide Bit;
      assert |x| == 1 ==> SetBits(x[..0], i) == 0;
    }
  }

  /** A third of 4^m - 1 has exactly the even ones of its low 2m bits set. */
  lemma {:induction false} BitOfThird(b: nat, m: nat, i: nat)
    requires 3 * b + 1 == Pow2(2 * m) && i < 2 * m
    ensures Bit(b, i) == (i % 2 == 0)
    decreases m
  {
    assert Pow2(2 * m) == 2 * Pow2(2 * m - 1) == 4 * Pow2(2 * (m - 1));
    hide Pow2;
    Quarter(b, Pow2(2 * (m - 1)));
    if i >= 2 {
      BitOfThird(b / 2 / 2, m - 1, i - 2);
    }
  }

  lemma Quarter(b: nat, p: nat)
    requires 3 * b + 1 == 4 * p
    ensures b % 2 == 1 && b / 2 % 2 == 0 && 3 * (b / 2 / 2) + 1 == p
  {
    var q, r := b / 4, b % 4;
    assert b == 4 * q + r && r == 1;
    assert b / 2 == 2 * q && b / 2 / 2 == q;
  }

  lemma ParityBit(i: nat)
    requires i < 64
    ensures Bit(PARITY, i) == (i % 2 == 0)
  {
    hide Pow2;
    Pow2Word();
    BitOfThird(PARITY, 32, i);
  }

  /** The extended key is the key and one word more, such that an odd number of its words has a
      bit set exactly for the even bits: all words together exclusive-or to 0101...0101. */
  lemma KeyParity(x: seq<Word>, i: nat)
    requires i < 64
    ensures |ExtendKey(x)| == |x| + 1 && ExtendKey(x)[..|x|] == x
    ensures (SetBits(ExtendKey(x), i) % 2 == 1) == (i % 2 == 0)
  {
    var k := ExtendKey(x);
    BitOfFold(x, i);
    BitOfXor(XorFold(x), PARITY, i);
    ParityBit(i);
    hide Bit;
    assert k[..|k| - 1] == x;
  }

  /** The third tweak word makes the number of tweak words with a bit set even for every bit. */
  lemma TweakParity(t0: Word, t1: Word, i: nat)
    ensures ExtendTweak(t0, t1)[..2] == [t0, t1]
    ensures SetBits(ExtendTweak(t0, t1), i) % 2 == 0
  {
    var t := ExtendTweak(t0, t1);
    BitOfXor(t0, t1, i);
    hide Bit;
    assert t[..2] == [t0, t1] && [t0, t1][..1] == [t0] && [t0][..0] == [];
    assert SetBits(t, i) == SetBits(t[..2], i) + if Bit(t[2], i) then 1 else 0;
    assert SetBits([t0, t1], i) == SetBits([t0], i) + if Bit(t1, i) then 1 else 0;
  }

  /** Word i of subkey s: key words rotate by one place per subkey, tweak words likewise, and
      the last word counts the subkeys. */
  function SubkeyWord(k: seq<Word>, t: seq<Word>, s: nat, i: nat): Word
    requires |k| >= 5 && |t| == 3 && i < |k| - 1 && s < WORD_LIMIT
  {
    var word := k[(s + i) % |k|];
    if i == |k| - 4 then Add(word, t[s % 3])
    else if i == |k| - 3 then Add(word, t[(s + 1) % 3])
    else if i == |k| - 2 then Add(word, s)
    else word
  }

  function Subkey(k: seq<Word>, t: seq<Word>, s: nat): (r: seq<Word>)
    requires |k| >= 5 && |t| == 3 && s < WORD_LIMIT
    ensures |r| == |k| - 1
  {
    seq(|k| - 1, i requires 0 <= i < |k| - 1 => SubkeyWord(k, t, s, i))
  }

  /** The subkeys of the 1024-bit variant, word by word. */
  lemma SubkeyOf1024(k: seq<Word>, t: seq<Word>, s: nat)
    requires |k| == 17 && |t| == 3 && s < WORD_LIMIT
    ensures forall i :: 0 <= i < 13 ==> Subkey(k, t, s)[i] == k[(s + i) % 17]
    ensures Subkey(k, t, s)[13] == (k[(s + 13) % 17] + t[s % 3]) % WORD_LIMIT
    ensures Subkey(k, t, s)[14] == (k[(s + 14) % 17] + t[(s + 1) % 3]) % WORD_LIMIT
    ensures Subkey(k, t, s)[15] == (k[(s + 15) % 17] + s) % WORD_LIMIT
  {
    hide Add;
    AddIs(k[(s + 13) % 17], t[s % 3]);
    AddIs(k[(s + 14) % 17], t[(s + 1) % 3]);
    AddIs(k[(s + 15) % 17], s);
  }

  function AddWords(x: seq<Word>, y: seq<Word>): (z: seq<Word>)
    requires |x| == |y|
    ensures |z| == |x|
  {
    seq(|x|, i requires 0 <= i < |x| => Add(x[i], y[i]))
  }

  function SubWords(x: seq<Word>, y: seq<Word>): (z: seq<Word>)
    requires |x| == |y|
    ensures |z| == |x|
  {
    seq(|x|, i requires 0 <= i < |x| => Sub(x[i], y[i]))
  }

  lemma AddSubWords(x: seq<Word>, y: seq<Word>)
    requires |x| == |y|
    ensures SubWords(AddWords(x, y), y) == x && AddWords(SubWords(x, y), y) == x
  {
  }

  // ---------------------------------------------------------------- the cipher

  ghost predicate CipherArgs(v: Variant, k: seq<Word>, t: seq<Word>, x: seq<Word>) {
    v.Valid() && |k| == v.words + 1 && |t| == 3 && |x| == v.words
  }

  /** Round d of the cipher, with the subkey that goes before it when 4 divides d. */
  function KeyedRound(v: Variant, k: seq<Word>, t: seq<Word>, x: seq<Word>, d: nat): (y: seq<Word>)
    requires CipherArgs(v, k, t, x) && d < WORD_LIMIT
    ensures |y| == v.words
  {
    Round(v, if d % 4 == 0 then AddWords(x, Subkey(k, t, d / 4)) else x, v.rot[d % 8])
  }

  function UnkeyedRound(v: Variant, k: seq<Word>, t: seq<Word>, y: seq<Word>, d: nat): (x: seq<Word>)
    requires CipherArgs(v, k, t, y) && d < WORD_LIMIT
    ensures |x| == v.words
  {
    var e := Unround(v, y, v.rot[d % 8]);
    if d % 4 == 0 then SubWords(e, Subkey(k, t, d / 4)) else e
  }

  lemma KeyedRoundInverse(v: Variant, k: seq<Word>, t: seq<Word>, x: seq<Word>, d: nat)
    requires CipherArgs(v, k, t, x) && d < WORD_LIMIT
    ensures UnkeyedRound(v, k, t, KeyedRound(v, k, t, x, d), d) == x
    ensures KeyedRound(v, k, t, UnkeyedRound(v, k, t, x, d), d) == x
  {
    var row, key := v.rot[d % 8], Subkey(k, t, d / 4);
    RoundUnround(v, if d % 4 == 0 then AddWords(x, key) else x, row);
    AddSubWords(x, key);
    RoundUnround(v, x, row);
    AddSubWords(Unround(v, x, row), key);
  }

  /** The state after d rounds. */
  function Rounds(v: Variant, k: seq<Word>, t: seq<Word>, x: seq<Word>, d: nat): (y: seq<Word>)
    requires CipherArgs(v, k, t, x) && d < WORD_LIMIT
    ensures |y| == v.words
  {
    if d == 0 then x else KeyedRound(v, k, t, Rounds(v, k, t, x, d - 1), d - 1)
  }

  function Unrounds(v: Variant, k: seq<Word>, t: seq<Word>, y: seq<Word>, d: nat): (x: seq<Word>)
    requires CipherArgs(v, k, t, y) && d < WORD_LIMIT
    ensures |x| == v.words
    decreases d
  {
    if d == 0 then y else Unrounds(v, k, t, UnkeyedRound(v, k, t, y, d - 1), d - 1)
  }

  function Encrypt(v: Variant, k: seq<Word>, t: seq<Word>, x: seq<Word>): (y: seq<Word>)
    requires CipherArgs(v, k, t, x) && v.rounds < WORD_LIMIT
    ensures |y| == v.words
  {
    AddWords(Rounds(v, k, t, x, v.rounds), Subkey(k, t, v.rounds / 4))
  }

  function Decrypt(v: Variant, k: seq<Word>, t: seq<Word>, y: seq<Word>): (x: seq<Word>)
    requires CipherArgs(v, k, t, y) && v.rounds < WORD_LIMIT
    ensures |x| == v.words
  {
    Unrounds(v, k, t, SubWords(y, Subkey(k, t, v.rounds / 4)), v.rounds)
  }

  lemma {:induction false} RoundsUnrounds(v: Variant, k: seq<Word>, t: seq<Word>, x: seq<Word>, d: nat)
    requires CipherArgs(v, k, t, x) && d < WORD_LIMIT
    ensures Unrounds(v, k, t, Rounds(v, k, t, x, d), d) == x
    decreases d
  {
    hide KeyedRound, UnkeyedRound, Variant.Valid;
    if d > 0 {
      KeyedRoundInverse(v, k, t, Rounds(v, k, t, x, d - 1), d - 1);
      RoundsUnrounds(v, k, t, x, d - 1);
    }
  }

  lemma {:induction false} UnroundsRounds(v: Variant, k: seq<Word>, t: seq<Word>, y: seq<Word>, d: nat)
    requires CipherArgs(v, k, t, y) && d < WORD_LIMIT
    ensures Rounds(v, k, t, Unrounds(v, k, t, y, d), d) == y
    decreases d
  {
    hide KeyedRound, UnkeyedRound, Variant.Valid;
    if d > 0 {
      KeyedRoundInverse(v, k, t, y, d - 1);
      UnroundsRounds(v, k, t, UnkeyedRound(v, k, t, y, d - 1), d - 1);
    }
  }

  /** For every key and tweak the cipher is a bijection on blocks, with Decrypt its inverse. */
  lemma EncryptIsBijective(v: Variant, k: seq<Word>, t: seq<Word>, x: seq<Word>)
    requires CipherArgs(v, k, t, x) && v.rounds < WORD_LIMIT
    ensures Decrypt(v, k, t, Encrypt(v, k, t, x)) == x
    ensures Encrypt(v, k, t, Decrypt(v, k, t, x)) == x
  {
    var key := Subkey(k, t, v.rounds / 4);
    AddSubWords(Rounds(v, k, t, x, v.rounds), key);
    RoundsUnrounds(v, k, t, x, v.rounds);
    AddSubWords(x, key);
    UnroundsRounds(v, k, t, SubWords(x, key), v.rounds);
  }

  // ---------------------------------------------------------------- the three variants

  const T256 := Variant(4, 72, [0, 3, 2, 1],
    [[5, 56], [36, 28], [13, 46], [58, 44], [26, 20], [53, 35], [11, 42], [59, 50]])

  const T512 := Variant(8, 72, [2, 1, 4, 7, 6, 5, 0, 3],
    [[38, 30, 50, 53], [48, 20, 43, 31], [34, 14, 15, 27], [26, 12, 58, 7],
     [33, 49, 8, 42], [39, 27, 41, 14], [29, 26, 11, 9], [33, 51, 39, 35]])

  const T1024 := Variant(16, 80, [0, 9, 2, 13, 6, 11, 4, 15, 10, 7, 12, 3, 14, 5, 8, 1],
    [[55, 43, 37, 40, 16, 22, 38, 12], [25, 25, 46, 13, 14, 13, 52, 57],
     [33, 8, 18, 57, 21, 12, 32, 54], [34, 43, 25, 60, 44, 9, 59, 34],
     [28, 7, 47, 48, 51, 9, 35, 41], [17, 6, 18, 25, 43, 42, 40, 15],
     [58, 7, 32, 45, 19, 18, 2, 56], [47, 49, 27, 58, 37, 48, 53, 56]])

  lemma FourthPower(pi: seq<nat>)
    requires IsIndexMap(pi, |pi|)
    requires forall i :: 0 <= i < |pi| ==> pi[pi[pi[pi[i]]]] == i
    ensures Compose(Compose(Compose(pi, pi), pi), pi) == Identity(|pi|)
  {
  }

  lemma T256IsValid()
    ensures T256.Valid()
  {
    hide Compose;
    var pi := T256.pi;
    forall i | 0 <= i < 4
      ensures pi[pi[pi[pi[i]]]] == i
    {
    }
    FourthPower(pi);
  }

  lemma T512IsValid()
    ensures T512.Valid()
  {
    hide Compose;
    var pi := T512.pi;
    forall i | 0 <= i < 8
      ensures pi[pi[pi[pi[i]]]] == i
    {
    }
    FourthPower(pi);
  }

  lemma T1024IsValid()
    ensures T1024.Valid()
  {
    hide Compose;
    T1024Maps();
    T1024Permutes();
    FourthPower(T1024.pi);
  }

  lemma T1024Maps()
    ensures IsIndexMap(T1024.pi, 16)
  {
  }

  lemma T1024Permutes()
    ensures IsIndexMap(T1024.pi, 16)
    ensures var pi := T1024.pi;
            forall i :: 0 <= i < 16 ==> pi[pi[pi[pi[i]]]] == i
  {
    T1024Maps();
    hide IsIndexMap;
    var pi := T1024.pi;
    assert pi[0] == 0 && pi[2] == 2 && pi[4] == 6 && pi[6] == 4;
    assert pi[1] == 9 && pi[9] == 7 && pi[7] == 15 && pi[15] == 1;
    assert pi[3] == 13 && pi[13] == 5 && pi[5] == 11 && pi[11] == 3;
    assert pi[8] == 10 && pi[10] == 12 && pi[12] == 14 && pi[14] == 8;
  }

  /** The register orders of the four round lines are the powers of the word permutation. */
  lemma RegisterOrders()
    ensures Compose(T256.pi, T256.pi) == [0, 1, 2, 3] && Compose(Compose(T256.pi, T256.pi), T256.pi) == [0, 3, 2, 1]
    ensures Compose(T512.pi, T512.pi) == [4, 1, 6, 3, 0, 5, 2, 7]
    ensures Compose(Compose(T512.pi, T512.pi), T512.pi) == [6, 1, 0, 7, 2, 5, 4, 3]
  {
    assert Compose(T256.pi, T256.pi) == [0, 1, 2, 3];
    assert Compose(T512.pi, T512.pi) == [4, 1, 6, 3, 0, 5, 2, 7];
  }

  const SQUARED: seq<nat> := [0, 7, 2, 5, 4, 3, 6, 1, 12, 15, 14, 13, 8, 11, 10, 9]
  const CUBED: seq<nat> := [0, 15, 2, 11, 6, 13, 4, 9, 14, 1, 8, 5, 10, 3, 12, 7]

  lemma Composed(p: seq<nat>, q: seq<nat>, r: seq<nat>)
    requires IsIndexMap(p, |p|) && IsIndexMap(q, |p|) && |r| == |q|
    requires forall i :: 0 <= i < |q| ==> p[q[i]] == r[i]
    ensures Compose(p, q) == r
  {
  }

  lemma RegisterOrders1024()
    ensures Compose(T1024.pi, T1024.pi) == SQUARED
    ensures Compose(Compose(T1024.pi, T1024.pi), T1024.pi) == CUBED
  {
    T1024Maps();
    Squared();
    Cubed();
  }

  lemma SquaredLow()
    ensures var q := T1024.pi;
            && q[q[0]] == SQUARED[0] && q[q[1]] == SQUARED[1] && q[q[2]] == SQUARED[2] && q[q[3]] == SQUARED[3]
            && q[q[4]] == SQUARED[4] && q[q[5]] == SQUARED[5] && q[q[6]] == SQUARED[6] && q[q[7]] == SQUARED[7]
  {
  }

  lemma SquaredHigh()
    ensures var q := T1024.pi;
            && q[q[8]] == SQUARED[8] && q[q[9]] == SQUARED[9] && q[q[10]] == SQUARED[10] && q[q[11]] == SQUARED[11]
            && q[q[12]] == SQUARED[12] && q[q[13]] == SQUARED[13] && q[q[14]] == SQUARED[14] && q[q[15]] == SQUARED[15]
  {
  }

  lemma Squared()
    ensures Compose(T1024.pi, T1024.pi) == SQUARED
  {
    T1024Maps();
    SquaredLow();
    SquaredHigh();
    hide Compose, IsIndexMap;
    Composed(T1024.pi, T1024.pi, SQUARED);
  }

  lemma SquaredMaps()
    ensures IsIndexMap(SQUARED, 16)
  {
  }

  lemma CubedLow()
    ensures var q := T1024.pi;
            && SQUARED[q[0]] == CUBED[0] && SQUARED[q[1]] == CUBED[1] && SQUARED[q[2]] == CUBED[2] && SQUARED[q[3]] == CUBED[3]
            && SQUARED[q[4]] == CUBED[4] && SQUARED[q[5]] == CUBED[5] && SQUARED[q[6]] == CUBED[6] && SQUARED[q[7]] == CUBED[7]
  {
  }

  lemma CubedHigh()
    ensures var q := T1024.pi;
            && SQUARED[q[8]] == CUBED[8] && SQUARED[q[9]] == CUBED[9] && SQUARED[q[10]] == CUBED[10] && SQUARED[q[11]] == CUBED[11]
            && SQUARED[q[12]] == CUBED[12] && SQUARED[q[13]] == CUBED[13] && SQUARED[q[14]] == CUBED[14] && SQUARED[q[15]] == CUBED[15]
  {
  }

  lemma Cubed()
    ensures IsIndexMap(SQUARED, 16) && Compose(SQUARED, T1024.pi) == CUBED
  {
    T1024Maps();
    SquaredMaps();
    CubedLow();
    CubedHigh();
    hide Compose, IsIndexMap;
    Composed(SQUARED, T1024.pi, CUBED);
  }
}
