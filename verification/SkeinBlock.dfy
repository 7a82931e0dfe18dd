/** The Skein block functions: rounds that rename registers instead of moving words, and key
    schedules kept in one buffer that holds the tweak words in front of the key words. The
    1024-bit function slides both along the buffer; the smaller ones index it cyclically. */
module SkeinBlock {
  import opened Bits
  import opened Words
  import opened Threefish

  const FLAG_FIRST: Word := 0x4000_0000_0000_0000
  const FLAG_FINAL: Word := 0x8000_0000_0000_0000
  const KEY_BASE: nat := 3

  // ---------------------------------------------------------------- bytes and words

  function LoadWords(b: seq<Byte>, n: nat): (w: seq<Word>)
    requires |b| == 8 * n
    ensures |w| == n
  {
    seq(n, i requires 0 <= i < n => LoadWord(b[8 * i..8 * i + 8]))
  }

  // ---------------------------------------------------------------- chaining

  /** Chaining words and tweak of a hash in progress. */
  datatype Chain = Chain(x: seq<Word>, t0: Word, t1: Word)

  function ClearFirst(t1: Word): Word {
    if t1 / FLAG_FIRST % 2 == 1 then t1 - FLAG_FIRST else t1
  }

  function XorWords(x: seq<Word>, y: seq<Word>): (z: seq<Word>)
    requires |x| == |y|
    ensures |z| == |x|
  {
    seq(|x|, i requires 0 <= i < |x| => Xor(x[i], y[i]))
  }

  ghost predicate ValidChain(v: Variant, c: Chain) {
    v.Valid() && v.rounds < 1000 && |c.x| == v.words
  }

  /** One block of UBI (section 3.4 of the Skein specification): count the bytes, encrypt the
      block under the chaining words, feed the block forward, and clear the first-block flag. */
  function BlockStep(v: Variant, c: Chain, w: seq<Word>, add: Word): (r: Chain)
    requires ValidChain(v, c) && |w| == v.words
    ensures ValidChain(v, r)
  {
    var t0 := Add(c.t0, add);
    Chain(XorWords(Encrypt(v, ExtendKey(c.x), ExtendTweak(t0, c.t1), w), w), t0, ClearFirst(c.t1))
  }

  /** The first n blocks of msg, each counted as add bytes. */
  function Blocks(v: Variant, c: Chain, msg: seq<Byte>, n: nat, add: Word): (r: Chain)
    requires ValidChain(v, c) && n * (8 * v.words) <= |msg|
    ensures ValidChain(v, r)
  {
    if n == 0 then c
    else
      BlockStep(v, Blocks(v, c, msg, n - 1, add), BlockWords(v, msg, n - 1), add)
  }

  function BlockWords(v: Variant, msg: seq<Byte>, i: nat): (w: seq<Word>)
    requires (i + 1) * (8 * v.words) <= |msg|
    ensures |w| == v.words
  {
    LoadWords(msg[i * (8 * v.words)..i * (8 * v.words) + 8 * v.words], v.words)
  }

  lemma XorWordsCancel(x: seq<Word>, y: seq<Word>)
    requires |x| == |y|
    ensures XorWords(XorWords(x, y), y) == x
  {
    hide Xor;
    forall i | 0 <= i < |x|
      ensures Xor(Xor(x[i], y[i]), y[i]) == x[i]
    {
      XorCancels(x[i], y[i]);
    }
  }

  /** The block w can be got back from the chaining words around it: taken off the words after it,
      it decrypts under the words before it and the tweak (t0, t1). */
  ghost predicate Recovers(v: Variant, before: seq<Word>, t0: Word, t1: Word, after: seq<Word>, w: seq<Word>) {
    && v.Valid() && v.rounds < 1000 && |before| == |after| == |w| == v.words
    && Decrypt(v, ExtendKey(before), ExtendTweak(t0, t1), XorWords(after, w)) == w
  }

  /** A step can be undone under the tweak that has counted its block. */
  lemma StepDecrypts(v: Variant, c: Chain, w: seq<Word>, add: Word)
    requires ValidChain(v, c) && |w| == v.words
    ensures Recovers(v, c.x, (c.t0 + add) % WORD_LIMIT, c.t1, BlockStep(v, c, w, add).x, w)
  {
    hide Add, Encrypt, Decrypt, ExtendKey, ExtendTweak, XorWords, ClearFirst;
    AddIs(c.t0, add);
    var k, t := ExtendKey(c.x), ExtendTweak(Add(c.t0, add), c.t1);
    XorWordsCancel(Encrypt(v, k, t, w), w);
    EncryptIsBijective(v, k, t, w);
  }

  /** Clearing the first-block flag clears bit 62 and leaves the other bits. */
  lemma ClearFirstBits(t1: Word, i: nat)
    ensures Bit(ClearFirst(t1), i) == (i != 62 && Bit(t1, i))
  {
    TopPower();
    assert Pow2(63) == 2 * Pow2(62);
    hide Pow2;
    BitOfQuotient(t1, 62, 0);
    if Bit(t1, 62) {
      BitTakenOff(t1, 62, i);
    }
  }

  // ---------------------------------------------------------------- renamed rounds

  ghost predicate IsPermutation(p: seq<nat>, n: nat) {
    && IsIndexMap(p, n)
    && forall i, j :: 0 <= i < j < n ==> p[i] != p[j]
  }

  /** The MIX lines of one round macro: registers p[2j] and p[2j + 1] are mixed in place. Read
      through p, the registers afterwards hold every pair mixed. */
  method RoundMacro(x: array<Word>, p: seq<nat>, row: seq<nat>)
    requires x.Length == 2 * |row| && IsPermutation(p, x.Length)
    modifies x
    ensures Permute(x[..], p) == MixAll(Permute(old(x[..]), p), row)
  {
    ghost var before := Permute(x[..], p);
    hide Mix, MixAll;
    for j := 0 to |row|
      invariant forall i :: 0 <= i < 2 * j ==> x[p[i]] == MixAll(before, row)[i]
      invariant forall i :: 2 * j <= i < x.Length ==> x[p[i]] == before[i]
    {
      MixPair(x, p, row, j, before);
    }
  }

  /** One pair: the registers that hold words 2j and 2j + 1, and no others. */
  method MixPair(x: array<Word>, p: seq<nat>, row: seq<nat>, j: nat, ghost before: seq<Word>)
    requires x.Length == 2 * |row| == |before| && IsPermutation(p, x.Length) && j < |row|
    requires x[p[2 * j]] == before[2 * j] && x[p[2 * j + 1]] == before[2 * j + 1]
    modifies x
    ensures x[p[2 * j]] == MixAll(before, row)[2 * j] && x[p[2 * j + 1]] == MixAll(before, row)[2 * j + 1]
    ensures forall i :: 0 <= i < x.Length && i != 2 * j && i != 2 * j + 1 ==> x[p[i]] == old(x[p[i]])
  {
    hide Mix, MixAll;
    var a, b := p[2 * j], p[2 * j + 1];
    MixAt(before, row, j);
    MixRegisters(x, a, b, row[j]);
  }

  method MixRegisters(x: array<Word>, a: nat, b: nat, n: nat)
    requires a < x.Length && b < x.Length && a != b
    modifies x
    ensures (x[a], x[b]) == Mix(old(x[a]), old(x[b]), n)
    ensures forall i :: 0 <= i < x.Length && i != a && i != b ==> x[i] == old(x[i])
  {
    x[a] := Add(x[a], x[b]);
    x[b] := RotL(x[b], n);
    x[b] := Xor(x[b], x[a]);
  }

  ghost function FourRounds(v: Variant, x: seq<Word>, base: nat): (y: seq<Word>)
    requires v.Valid() && |x| == v.words && base + 4 <= 8
    ensures |y| == v.words
  {
    Round(v, Round(v, Round(v, Round(v, x, v.rot[base]), v.rot[base + 1]), v.rot[base + 2]), v.rot[base + 3])
  }

  lemma PowersArePermutations(v: Variant)
    requires v.Valid()
    ensures var p2 := Compose(v.pi, v.pi);
      IsPermutation(v.pi, v.words) && IsPermutation(p2, v.words)
      && IsPermutation(Compose(p2, v.pi), v.words) && IsPermutation(Identity(v.words), v.words)
  {
    var p2 := Compose(v.pi, v.pi);
    var p3 := Compose(p2, v.pi);
    forall i, j | 0 <= i < j < v.words
      ensures v.pi[i] != v.pi[j] && p2[i] != p2[j] && p3[i] != p3[j]
    {
      assert Compose(p3, v.pi)[i] == i && Compose(p3, v.pi)[j] == j;
      assert v.pi[p3[i]] == i && v.pi[p3[j]] == j;
    }
  }

  /** Four rounds under the renamings id, pi, pi^2, pi^3. The next renaming would be pi^4, the
      identity, so the registers are back in order and hold four rounds of the cipher. */
  method FourRoundMacros(v: Variant, x: array<Word>, base: nat)
    requires v.Valid() && x.Length == v.words && base + 4 <= 8
    modifies x
    ensures x[..] == FourRounds(v, old(x[..]), base)
  {
    hide MixAll;
    PowersArePermutations(v);
    var p2 := Compose(v.pi, v.pi);
    var p3 := Compose(p2, v.pi);
    ghost var x0 := x[..];
    RoundMacro(x, Identity(v.words), v.rot[base]);
    assert Permute(x0, Identity(v.words)) == x0;
    PermuteCompose(x[..], Identity(v.words), v.pi);
    assert Compose(Identity(v.words), v.pi) == v.pi;
    assert Permute(x[..], v.pi) == Round(v, x0, v.rot[base]);
    RoundMacro(x, v.pi, v.rot[base + 1]);
    PermuteCompose(x[..], v.pi, v.pi);
    RoundMacro(x, p2, v.rot[base + 2]);
    PermuteCompose(x[..], p2, v.pi);
    RoundMacro(x, p3, v.rot[base + 3]);
    PermuteCompose(x[..], p3, v.pi);
    assert Permute(x[..], Identity(v.words)) == x[..];
  }

  // ---------------------------------------------------------------- key injection

  /** The state once subkey s has been added. */
  ghost function Keyed(v: Variant, k: seq<Word>, t: seq<Word>, x: seq<Word>, s: nat): (y: seq<Word>)
    requires CipherArgs(v, k, t, x) && 4 * s < WORD_LIMIT
    ensures |y| == v.words
  {
    AddWords(Rounds(v, k, t, x, 4 * s), Subkey(k, t, s))
  }

  lemma NextKeyed(v: Variant, k: seq<Word>, t: seq<Word>, x: seq<Word>, s: nat)
    requires CipherArgs(v, k, t, x) && 4 * s + 4 < WORD_LIMIT
    ensures Keyed(v, k, t, x, s + 1) ==
      AddWords(FourRounds(v, Keyed(v, k, t, x, s), 4 * (s % 2)), Subkey(k, t, s + 1))
  {
    hide Round, Subkey, AddWords, Variant.Valid, KeyedRound;
    var d, base := 4 * s, 4 * (s % 2);
    var x0 := Rounds(v, k, t, x, d);
    RoundOf(v, k, t, x0, d);
    RoundOf(v, k, t, Rounds(v, k, t, x, d + 1), d + 1);
    RoundOf(v, k, t, Rounds(v, k, t, x, d + 2), d + 2);
    RoundOf(v, k, t, Rounds(v, k, t, x, d + 3), d + 3);
  }

  lemma FirstKeyed(v: Variant, k: seq<Word>, t: seq<Word>, x: seq<Word>)
    requires CipherArgs(v, k, t, x)
    ensures Keyed(v, k, t, x, 0) == AddWords(x, Subkey(k, t, 0))
  {
    hide Subkey, AddWords;
  }

  lemma LastKeyed(v: Variant, k: seq<Word>, t: seq<Word>, x: seq<Word>)
    requires CipherArgs(v, k, t, x) && v.rounds < WORD_LIMIT
    ensures Keyed(v, k, t, x, v.rounds / 4) == Encrypt(v, k, t, x)
  {
    WholeGroups(v);
    hide Rounds, Subkey, AddWords, Variant.Valid;
  }

  lemma WholeGroups(v: Variant)
    requires v.Valid()
    ensures 4 * (v.rounds / 4) == v.rounds
  {
  }

  lemma RoundOf(v: Variant, k: seq<Word>, t: seq<Word>, x: seq<Word>, d: nat)
    requires CipherArgs(v, k, t, x) && d < WORD_LIMIT
    ensures KeyedRound(v, k, t, x, d) ==
      Round(v, if d % 4 == 0 then AddWords(x, Subkey(k, t, d / 4)) else x, v.rot[4 * (d / 4 % 2) + d % 4])
  {
    hide Round, Subkey, AddWords;
    assert d % 8 == 4 * (d / 4 % 2) + d % 4;
  }

  /** What the overlaid buffer holds just before subkey s >= 1 is injected: three tweak words at
      s - 1, s, s + 1 and, directly behind them, the key words of subkey s - 1 and s. */
  ghost predicate Window(kw: seq<Word>, k: seq<Word>, t: seq<Word>, s: nat)
    requires |k| >= 5 && |t| == 3
  {
    && 1 <= s && s + |k| + 2 <= |kw|
    && kw[s - 1] == t[(s - 1) % 3] && kw[s] == t[s % 3] && kw[s + 1] == t[(s + 1) % 3]
    && forall m :: s + 2 <= m < s + 2 + |k| ==> kw[m] == k[(m - KEY_BASE) % |k|]
  }

  /** Injection s reads exactly the words of subkey s. */
  lemma WindowReadsSubkey(kw: seq<Word>, k: seq<Word>, t: seq<Word>, s: nat, i: nat)
    requires |k| >= 5 && |t| == 3 && Window(kw, k, t, s) && i < |k| - 1 && s < WORD_LIMIT
    ensures SubkeyWord(k, t, s, i) ==
      if i == |k| - 4 then Add(kw[KEY_BASE + s + i], kw[s])
      else if i == |k| - 3 then Add(kw[KEY_BASE + s + i], kw[s + 1])
      else if i == |k| - 2 then Add(kw[KEY_BASE + s + i], s)
      else kw[KEY_BASE + s + i]
  {
    assert kw[KEY_BASE + s + i] == k[(KEY_BASE + s + i - KEY_BASE) % |k|];
  }

  lemma WindowStarts(kw: seq<Word>, k: seq<Word>, t: seq<Word>)
    requires |k| >= 5 && |t| == 3 && |kw| >= |k| + 3 && kw[..|k| + 3] == t + k
    ensures Window(kw, k, t, 1)
  {
    forall m | 0 <= m < |k| + 3
      ensures kw[m] == if m < 3 then t[m] else k[m - KEY_BASE]
    {
      assert kw[m] == kw[..|k| + 3][m] == (t + k)[m];
    }
    forall m | 3 <= m < 3 + |k|
      ensures kw[m] == k[(m - KEY_BASE) % |k|]
    {
      DivModUnique(m - KEY_BASE, |k|, 0, m - KEY_BASE);
    }
  }

  /** The two copies after injection s move the window on by one place: the key word they
      overwrite with a tweak word is the one just copied to the far end. */
  lemma WindowSlides(kw: seq<Word>, k: seq<Word>, t: seq<Word>, s: nat)
    requires |k| >= 5 && |t| == 3 && Window(kw, k, t, s) && s + |k| + 3 <= |kw|
    ensures Window(kw[s + |k| + 2 := kw[s + 2]][s + 2 := kw[s - 1]], k, t, s + 1)
  {
    var n := |k|;
    var after := kw[s + n + 2 := kw[s + 2]][s + 2 := kw[s - 1]];
    assert (s + 2) % 3 == (s - 1) % 3;
    assert (s + (n - 1)) % n == (s - 1) % n by {
      DivModUnique(s + (n - 1), n, (s - 1) / n + 1, (s - 1) % n);
    }
    forall m | s + 3 <= m < s + 3 + n
      ensures after[m] == k[(m - KEY_BASE) % n]
    {
      assert m == s + n + 2 || after[m] == kw[m];
    }
  }

  /** Looping form of the injection macro, with the key words at ks = kw + 3 and the tweak words
      at ts = kw + 0 of the same buffer. */
  method InjectLooping(v: Variant, kw: array<Word>, x: array<Word>, s: nat,
                       ghost k: seq<Word>, ghost t: seq<Word>)
    requires x.Length == v.words && CipherArgs(v, k, t, x[..]) && kw != x && s < WORD_LIMIT
    requires Window(kw[..], k, t, s) && s + v.words + 4 <= kw.Length
    modifies kw, x
    ensures x[..] == AddWords(old(x[..]), Subkey(k, t, s))
    ensures Window(kw[..], k, t, s + 1)
    ensures forall i :: 0 <= i < s + 2 ==> kw[i] == old(kw[i])
  {
    var n := v.words;
    ghost var before := x[..];
    for i := 0 to n
      invariant forall j :: 0 <= j < i ==> x[j] == Add(before[j], SubkeyWord(k, t, s, j))
      invariant forall j :: i <= j < n ==> x[j] == before[j]
      invariant kw[..] == old(kw[..])
    {
      WindowReadsSubkey(kw[..], k, t, s, i);
      var add := kw[KEY_BASE + s + i];
      if i == n - 3 {
        add := Add(add, kw[s]);
      } else if i == n - 2 {
        add := Add(add, kw[s + 1]);
      } else if i == n - 1 {
        add := Add(add, s);
      }
      x[i] := Add(x[i], add);
    }
    WindowSlides(kw[..], k, t, s);
    kw[KEY_BASE + s + n] := kw[KEY_BASE + s - 1];
    kw[s + 2] := kw[s - 1];
  }

  /** Unrolled form: the buffer stays put and is indexed modulo its key and tweak lengths. */
  method InjectUnrolled(v: Variant, kw: array<Word>, x: array<Word>, s: nat,
                        ghost k: seq<Word>, ghost t: seq<Word>)
    requires x.Length == v.words && CipherArgs(v, k, t, x[..]) && kw != x && s < WORD_LIMIT
    requires kw[..] == t + k
    modifies x
    ensures x[..] == AddWords(old(x[..]), Subkey(k, t, s))
  {
    var n := v.words;
    ghost var before := x[..];
    for i := 0 to n
      invariant forall j :: 0 <= j < i ==> x[j] == Add(before[j], SubkeyWord(k, t, s, j))
      invariant forall j :: i <= j < n ==> x[j] == before[j]
    {
      var at := (s + i) % (n + 1);
      assert kw[..][KEY_BASE + at] == k[at];
      var add := kw[KEY_BASE + at];
      if i == n - 3 {
        assert kw[..][s % 3] == t[s % 3];
        add := Add(add, kw[s % 3]);
      } else if i == n - 2 {
        assert kw[..][(s + 1) % 3] == t[(s + 1) % 3];
        add := Add(add, kw[(s + 1) % 3]);
      } else if i == n - 1 {
        add := Add(add, s);
      }
      x[i] := Add(x[i], add);
    }
  }

  // ---------------------------------------------------------------- process block

  /** The hash context of one variant: header, chaining words, and the block buffer. */
  class Context {
    const v: Variant
    var hashBitLen: nat
    var bCnt: nat
    var t0: Word
    var t1: Word
    const x: array<Word>
    const b: array<Byte>

    ghost predicate Valid()
      reads this
    {
      && v.Valid() && v.rounds < 1000
      && x.Length == v.words && b.Length == 8 * v.words && bCnt <= b.Length
      && x as object != b
    }

    ghost function Chained(): (c: Chain)
      requires Valid()
      reads this, x
      ensures ValidChain(v, c)
    {
      Chain(x[..], t0, t1)
    }

    constructor (v: Variant)
      requires v.Valid() && v.rounds < 1000
      ensures Valid() && this.v == v && fresh(x) && fresh(b)
    {
      this.v := v;
      hashBitLen, bCnt, t0, t1 := 0, 0, 0, 0;
      x := new Word[v.words](i => 0);
      b := new Byte[8 * v.words](i => 0);
    }
  }

  /** Key and tweak words go into the buffer, tweak words first. */
  method LoadSchedule(ctx: Context, kw: array<Word>)
    requires ctx.Valid() && kw.Length >= ctx.v.words + 4 && kw != ctx.x
    requires kw[0] == ctx.t0 && kw[1] == ctx.t1
    modifies kw
    ensures kw[..ctx.v.words + 4] == ExtendTweak(ctx.t0, ctx.t1) + ExtendKey(ctx.x[..])
    ensures kw[0] == ctx.t0 && kw[1] == ctx.t1 && kw[KEY_BASE..KEY_BASE + ctx.v.words] == ctx.x[..]
    ensures forall i :: 0 <= i < 64 ==> (SetBits(kw[KEY_BASE..KEY_BASE + ctx.v.words + 1], i) % 2 == 1) == (i % 2 == 0)
    ensures forall i :: 0 <= i < 64 ==> SetBits(kw[..KEY_BASE], i) % 2 == 0
  {
    hide SetBits, ExtendKey, ExtendTweak, Xor;
    var n := ctx.v.words;
    for i := 0 to n
      invariant forall j :: 0 <= j < i ==> kw[KEY_BASE + j] == ctx.x[j]
      invariant kw[0] == ctx.t0 && kw[1] == ctx.t1
    {
      kw[KEY_BASE + i] := ctx.x[i];
    }
    assert kw[KEY_BASE..KEY_BASE + n] == ctx.x[..];
    var parity := kw[KEY_BASE];
    assert kw[KEY_BASE..KEY_BASE + 1] == [parity];
    for i := 1 to n
      invariant parity == XorFold(kw[KEY_BASE..KEY_BASE + i])
    {
      var upTo := kw[KEY_BASE..KEY_BASE + i + 1];
      assert upTo[..i] == kw[KEY_BASE..KEY_BASE + i];
      parity := Xor(parity, kw[KEY_BASE + i]);
    }
    kw[KEY_BASE + n] := Xor(parity, PARITY);
    kw[2] := Xor(kw[0], kw[1]);
    ScheduleIs(ctx.x[..], ctx.t0, ctx.t1, parity, kw[..]);
    ScheduleParity(kw[..], ctx.x[..], ctx.t0, ctx.t1);
  }

  lemma ScheduleIs(x: seq<Word>, t0: Word, t1: Word, parity: Word, kw: seq<Word>)
    requires |kw| >= |x| + 4 && kw[0] == t0 && kw[1] == t1 && kw[2] == Xor(t0, t1)
    requires kw[KEY_BASE..KEY_BASE + |x|] == x && parity == XorFold(x) && kw[KEY_BASE + |x|] == Xor(parity, PARITY)
    ensures kw[..|x| + 4] == ExtendTweak(t0, t1) + ExtendKey(x)
  {
    hide Xor, XorFold;
    ThreeAndRest(kw, kw[0], kw[1], kw[2], x, kw[KEY_BASE + |x|]);
  }

  lemma ThreeAndRest<T>(kw: seq<T>, a: T, b: T, c: T, x: seq<T>, d: T)
    requires |kw| >= |x| + 4 && kw[0] == a && kw[1] == b && kw[2] == c
    requires kw[3..3 + |x|] == x && kw[3 + |x|] == d
    ensures kw[..|x| + 4] == [a, b, c] + (x + [d])
  {
    assert kw[3..|x| + 4] == x + [d];
  }

  /** Tweak and key words in one buffer keep their parities. */
  lemma ScheduleParity(kw: seq<Word>, x: seq<Word>, t0: Word, t1: Word)
    requires |kw| >= |x| + 4 && kw[..|x| + 4] == ExtendTweak(t0, t1) + ExtendKey(x)
    ensures kw[KEY_BASE..KEY_BASE + |x|] == x
    ensures forall i :: 0 <= i < 64 ==> (SetBits(kw[KEY_BASE..KEY_BASE + |x| + 1], i) % 2 == 1) == (i % 2 == 0)
    ensures forall i :: 0 <= i < 64 ==> SetBits(kw[..KEY_BASE], i) % 2 == 0
  {
    hide SetBits, ExtendKey, ExtendTweak;
    var key := kw[KEY_BASE..KEY_BASE + |x| + 1];
    assert key == kw[..|x| + 4][KEY_BASE..] == ExtendKey(x);
    assert kw[..KEY_BASE] == kw[..|x| + 4][..KEY_BASE] == ExtendTweak(t0, t1);
    KeyParity(x, 0);
    assert kw[KEY_BASE..KEY_BASE + |x|] == key[..|x|];
    forall i | 0 <= i < 64
      ensures (SetBits(key, i) % 2 == 1) == (i % 2 == 0) && SetBits(kw[..KEY_BASE], i) % 2 == 0
    {
      KeyParity(x, i);
      TweakParity(t0, t1, i);
    }
  }

  /** First injection: the block words plus subkey 0. */
  method InjectFirst(v: Variant, kw: array<Word>, x: array<Word>, w: seq<Word>,
                     ghost k: seq<Word>, ghost t: seq<Word>)
    requires x.Length == v.words && CipherArgs(v, k, t, w) && kw != x
    requires kw.Length >= v.words + 4 && kw[..v.words + 4] == t + k
    modifies x
    ensures x[..] == AddWords(w, Subkey(k, t, 0))
  {
    hide Add, SubkeyWord;
    var n := v.words;
    for i := 0 to n
      invariant forall j :: 0 <= j < i ==> x[j] == Add(w[j], SubkeyWord(k, t, 0, j))
    {
      SubkeyZero(k, t, w[i], i);
      assert kw[KEY_BASE + i] == (t + k)[KEY_BASE + i] == k[i];
      assert kw[0] == (t + k)[0] && kw[1] == (t + k)[1];
      x[i] := Add(w[i], kw[KEY_BASE + i]);
      if i == n - 3 {
        x[i] := Add(x[i], kw[0]);
      } else if i == n - 2 {
        x[i] := Add(x[i], kw[1]);
      }
    }
  }

  lemma SubkeyZero(k: seq<Word>, t: seq<Word>, w: Word, i: nat)
    requires |k| >= 5 && |t| == 3 && i < |k| - 1
    ensures Add(w, SubkeyWord(k, t, 0, i)) ==
      if i == |k| - 4 then Add(Add(w, k[i]), t[0])
      else if i == |k| - 3 then Add(Add(w, k[i]), t[1])
      else Add(w, k[i])
  {
    assert (0 + i) % |k| == i;
  }

  method FeedForward(ctx: Context, x: array<Word>, w: seq<Word>)
    requires ctx.Valid() && x != ctx.x && x.Length == |w| == ctx.v.words
    modifies ctx.x
    ensures ctx.x[..] == XorWords(x[..], w)
  {
    for i := 0 to x.Length
      invariant forall j :: 0 <= j < i ==> ctx.x[j] == Xor(x[j], w[j])
    {
      ctx.x[i] := Xor(x[i], w[i]);
    }
  }

  /** Looping form: the schedule buffer is long enough for the window to slide one place per
      injection, and the first two tweak words survive the slide for the next block. */
  method EncryptLooping(v: Variant, kw: array<Word>, x: array<Word>,
                        ghost k: seq<Word>, ghost t: seq<Word>, ghost w: seq<Word>)
    requires CipherArgs(v, k, t, w) && v.rounds < 1000 && kw != x && x.Length == v.words
    requires kw.Length == v.words + 4 + v.rounds / 8 * 2 && kw[..v.words + 4] == t + k
    requires x[..] == Keyed(v, k, t, w, 0)
    modifies kw, x
    ensures x[..] == Encrypt(v, k, t, w)
    ensures kw[0] == old(kw[0]) && kw[1] == old(kw[1])
  {
    hide Keyed, FourRounds, Subkey, AddWords, Encrypt, Window;
    WindowStarts(kw[..], k, t);
    LastKeyed(v, k, t, w);
    var r := 1;
    while r <= v.rounds / 8 * 2
      invariant 1 <= r <= v.rounds / 8 * 2 + 1 && r % 2 == 1
      invariant x[..] == Keyed(v, k, t, w, r - 1)
      invariant Window(kw[..], k, t, r)
      invariant kw[0] == old(kw[0]) && kw[1] == old(kw[1])
    {
      EightRounds(v, kw, x, r, k, t, w);
      r := r + 2;
    }
    assert r - 1 == v.rounds / 4;
  }

  /** Eight rounds and the two injections between them, starting at injection r. */
  method EightRounds(v: Variant, kw: array<Word>, x: array<Word>, r: nat,
                     ghost k: seq<Word>, ghost t: seq<Word>, ghost w: seq<Word>)
    requires CipherArgs(v, k, t, w) && kw != x && x.Length == v.words && r % 2 == 1 && r < 1000
    requires Window(kw[..], k, t, r) && r + v.words + 5 <= kw.Length
    requires x[..] == Keyed(v, k, t, w, r - 1)
    modifies kw, x
    ensures x[..] == Keyed(v, k, t, w, r + 1)
    ensures Window(kw[..], k, t, r + 2)
    ensures kw[0] == old(kw[0]) && kw[1] == old(kw[1])
  {
    hide Keyed, Window, Variant.Valid;
    FourRoundsInject(v, kw, x, r, 0, k, t, w);
    FourRoundsInject(v, kw, x, r + 1, 4, k, t, w);
  }

  /** Four rounds and the injection that follows them. */
  method FourRoundsInject(v: Variant, kw: array<Word>, x: array<Word>, r: nat, base: nat,
                          ghost k: seq<Word>, ghost t: seq<Word>, ghost w: seq<Word>)
    requires CipherArgs(v, k, t, w) && kw != x && x.Length == v.words && 1 <= r <= 1000 && base == 4 * ((r - 1) % 2)
    requires Window(kw[..], k, t, r) && r + v.words + 4 <= kw.Length
    requires x[..] == Keyed(v, k, t, w, r - 1)
    modifies kw, x
    ensures x[..] == Keyed(v, k, t, w, r)
    ensures Window(kw[..], k, t, r + 1)
    ensures kw[0] == old(kw[0]) && kw[1] == old(kw[1])
  {
    hide Keyed, FourRounds, Subkey, AddWords, Window;
    NextKeyed(v, k, t, w, r - 1);
    FourRoundMacros(v, x, base);
    InjectLooping(v, kw, x, r, k, t);
  }

  method EncryptUnrolled(v: Variant, kw: array<Word>, x: array<Word>,
                         ghost k: seq<Word>, ghost t: seq<Word>, ghost w: seq<Word>)
    requires CipherArgs(v, k, t, w) && v.rounds < 1000 && kw != x && x.Length == v.words
    requires kw[..] == t + k
    requires x[..] == Keyed(v, k, t, w, 0)
    modifies x
    ensures x[..] == Encrypt(v, k, t, w)
  {
    hide Keyed, FourRounds, Subkey, AddWords, Encrypt;
    LastKeyed(v, k, t, w);
    for r := 0 to v.rounds / 8
      invariant x[..] == Keyed(v, k, t, w, 2 * r)
    {
      NextKeyed(v, k, t, w, 2 * r);
      FourRoundMacros(v, x, 0);
      InjectUnrolled(v, kw, x, 2 * r + 1, k, t);
      NextKeyed(v, k, t, w, 2 * r + 1);
      FourRoundMacros(v, x, 4);
      InjectUnrolled(v, kw, x, 2 * r + 2, k, t);
    }
  }

  /** The first injection and all rounds, in either form. */
  method Encipher(v: Variant, kw: array<Word>, x: array<Word>, w: seq<Word>, looping: bool,
                  ghost k: seq<Word>, ghost t: seq<Word>)
    requires CipherArgs(v, k, t, w) && v.rounds < 1000 && kw != x && x.Length == v.words
    requires kw.Length == v.words + 4 + (if looping then v.rounds / 8 * 2 else 0) && kw[..v.words + 4] == t + k
    modifies kw, x
    ensures x[..] == Encrypt(v, k, t, w)
    ensures kw[0] == old(kw[0]) && kw[1] == old(kw[1])
  {
    hide Encrypt, Keyed;
    InjectFirst(v, kw, x, w, k, t);
    FirstKeyed(v, k, t, w);
    if looping {
      EncryptLooping(v, kw, x, k, t, w);
    } else {
      assert kw[..] == t + k;
      EncryptUnrolled(v, kw, x, k, t, w);
    }
  }

  /** One turn of the block function's loop: the tweak words stay in the first two places of the
      schedule buffer from one block to the next. */
  method ProcessOne(ctx: Context, kw: array<Word>, x: array<Word>, w: seq<Word>, add: Word, looping: bool)
    requires ctx.Valid() && kw != x && ctx.x != kw && ctx.x != x && x.Length == |w| == ctx.v.words
    requires kw.Length == ctx.v.words + 4 + if looping then ctx.v.rounds / 8 * 2 else 0
    requires kw[0] == ctx.t0 && kw[1] == ctx.t1
    modifies ctx`t0, ctx`t1, ctx.x, kw, x
    ensures ctx.Valid() && kw[0] == ctx.t0 && kw[1] == ctx.t1
    ensures ctx.Chained() == BlockStep(ctx.v, old(ctx.Chained()), w, add)
  {
    hide BlockStep, Encrypt, ExtendKey, ExtendTweak, XorWords, ClearFirst;
    ghost var c := ctx.Chained();
    kw[0] := Add(kw[0], add);
    ctx.t0 := kw[0];
    LoadSchedule(ctx, kw);
    ghost var k, t := ExtendKey(ctx.x[..]), ExtendTweak(ctx.t0, ctx.t1);
    Encipher(ctx.v, kw, x, w, looping, k, t);
    FeedForward(ctx, x, w);
    kw[1] := ClearFirst(kw[1]);
    ctx.t1 := kw[1];
    StepIs(ctx.v, c, w, add, ctx.Chained());
  }

  /** The block function: the context afterwards is the chain after blkCnt blocks, whichever
      form of the key schedule ran. */
  method ProcessBlock(ctx: Context, blk: seq<Byte>, blkCnt: nat, byteCntAdd: Word, looping: bool)
    requires ctx.Valid() && 0 < blkCnt && blkCnt * (8 * ctx.v.words) <= |blk|
    modifies ctx`t0, ctx`t1, ctx.x
    ensures ctx.Valid()
    ensures ctx.Chained() == Blocks(ctx.v, old(ctx.Chained()), blk, blkCnt, byteCntAdd)
  {
    hide BlockStep, BlockWords, Blocks;
    var v, n := ctx.v, ctx.v.words;
    var kw := new Word[if looping then n + 4 + v.rounds / 8 * 2 else n + 4];
    var x := new Word[n];
    kw[0], kw[1] := ctx.t0, ctx.t1;
    ghost var start := ctx.Chained();
    assert Blocks(v, start, blk, 0, byteCntAdd) == start by { NoBlocks(v, start, blk, byteCntAdd); }
    var done := 0;
    while done < blkCnt
      invariant 0 <= done <= blkCnt
      invariant ctx.Valid() && ctx.bCnt == old(ctx.bCnt)
      invariant kw[0] == ctx.t0 && kw[1] == ctx.t1
      invariant ctx.Chained() == Blocks(v, start, blk, done, byteCntAdd)
    {
      assert (done + 1) * (8 * n) <= |blk| by { MulMonotone(8 * n, done + 1, blkCnt); }
      ProcessOne(ctx, kw, x, BlockWords(v, blk, done), byteCntAdd, looping);
      BlocksNext(v, start, blk, done, byteCntAdd);
      done := done + 1;
    }
  }

  lemma StepIs(v: Variant, c: Chain, w: seq<Word>, add: Word, r: Chain)
    requires ValidChain(v, c) && |w| == v.words && |r.x| == v.words
    requires r.t0 == Add(c.t0, add) && r.t1 == ClearFirst(c.t1)
    requires r.x == XorWords(Encrypt(v, ExtendKey(c.x), ExtendTweak(r.t0, c.t1), w), w)
    ensures r == BlockStep(v, c, w, add)
  {
  }

  lemma NoBlocks(v: Variant, c: Chain, msg: seq<Byte>, add: Word)
    requires ValidChain(v, c)
    ensures Blocks(v, c, msg, 0, add) == c
  {
  }

  lemma BlocksNext(v: Variant, c: Chain, msg: seq<Byte>, n: nat, add: Word)
    requires ValidChain(v, c) && n * (8 * v.words) <= |msg| && (n + 1) * (8 * v.words) <= |msg|
    ensures Blocks(v, c, msg, n + 1, add) == BlockStep(v, Blocks(v, c, msg, n, add), BlockWords(v, msg, n), add)
  {
    hide BlockStep, BlockWords;
  }
}
