/** Base-58 text: bytes as digits of an alphabet without look-alikes, leading zeros kept one for one,
    with a checksum variant for addresses. */
module Base58 {
  import opened Ascii
  import opened BigNum
  import opened Database
  import opened Radix
  import opened Words

  /** Letters and digits without 0, I, O and l. */
  function Alphabet(): string {
    "123456789" + "ABCDEFGH" + "JKLMN" + "PQRSTUVWXYZ" + "abcdefghijk" + "mnopqrstuvwxyz"
  }

  // ---------------------------------------------------------------- characters

  /** Position of a character in the alphabet, 58 when it is not there. */
  function DigitOf(c: char): (d: nat)
    ensures d <= 58
  {
    if '1' <= c <= '9' then c as int - '1' as int
    else if 'A' <= c <= 'H' then 9 + c as int - 'A' as int
    else if 'J' <= c <= 'N' then 17 + c as int - 'J' as int
    else if 'P' <= c <= 'Z' then 22 + c as int - 'P' as int
    else if 'a' <= c <= 'k' then 33 + c as int - 'a' as int
    else if 'm' <= c <= 'z' then 44 + c as int - 'm' as int
    else 58
  }

  function CharOf(d: nat): char
    requires d < 58
  {
    if d < 9 then ('1' as int + d) as char
    else if d < 17 then ('A' as int + d - 9) as char
    else if d < 22 then ('J' as int + d - 17) as char
    else if d < 33 then ('P' as int + d - 22) as char
    else if d < 44 then ('a' as int + d - 33) as char
    else ('m' as int + d - 44) as char
  }

  lemma DigitOfChar(d: nat)
    requires d < 58
    ensures DigitOf(CharOf(d)) == d && !IsSpace(CharOf(d)) && CharOf(d) != '\0'
    ensures CharOf(d) == '1' <==> d == 0
  {
  }

  lemma CharOfDigit(c: char)
    requires DigitOf(c) < 58
    ensures CharOf(DigitOf(c)) == c
  {
  }

  /** The digit table is the alphabet. */
  lemma AlphabetIs()
    ensures |Alphabet()| == 58 && forall d :: 0 <= d < 58 ==> Alphabet()[d] == CharOf(d)
  {
    Rising("123456789", '1');
    Rising("ABCDEFGH", 'A');
    Rising("JKLMN", 'J');
    Rising("PQRSTUVWXYZ", 'P');
    Rising("abcdefghijk", 'a');
    Rising("mnopqrstuvwxyz", 'm');
  }

  lemma {:induction false} Rising(s: string, first: char)
    requires forall i :: 0 < i < |s| ==> s[i] as int == s[i - 1] as int + 1
    requires s != [] ==> s[0] == first
    ensures forall i :: 0 <= i < |s| ==> s[i] as int == first as int + i
    decreases |s|
  {
    if |s| > 1 {
      var front := s[..|s| - 1];
      assert forall i :: 0 <= i < |front| ==> front[i] == s[i];
      Rising(front, first);
      assert s[|s| - 1] as int == s[|s| - 2] as int + 1;
      assert front[|front| - 1] as int == first as int + |front| - 1;
    }
  }

  // ---------------------------------------------------------------- leading runs

  function Lead<T(==)>(s: seq<T>, x: T): (n: nat)
    ensures n <= |s| && (n < |s| ==> s[n] != x) && forall i :: 0 <= i < n ==> s[i] == x
  {
    if s == [] || s[0] != x then 0
    else
      var m := Lead(s[1..], x);
      assert forall i :: 1 <= i < m + 1 ==> s[i] == s[1..][i - 1];
      m + 1
  }

  lemma LeadUnique<T>(n: nat, x: T, rest: seq<T>)
    requires rest == [] || rest[0] != x
    ensures Lead(Repeat(x, n) + rest, x) == n
  {
    var s := Repeat(x, n) + rest;
    assert forall i :: 0 <= i < n ==> s[i] == x;
    assert rest != [] ==> s[n] == rest[0];
  }

  lemma LeadSplit<T>(s: seq<T>, x: T)
    ensures s == Repeat(x, Lead(s, x)) + s[Lead(s, x)..]
  {
  }

  lemma {:induction false} ZerosOnTop(d: seq<nat>, n: nat, base: nat)
    ensures Value(d + Repeat(0, n), base) == Value(d, base)
    decreases n
  {
    if n == 0 {
      assert d + Repeat(0, 0) == d;
    } else {
      assert d + Repeat(0, n) == d + Repeat(0, n - 1) + [0];
      TopZero(d + Repeat(0, n - 1), base);
      ZerosOnTop(d, n - 1, base);
    }
  }

  // ---------------------------------------------------------------- what encoding and decoding mean

  function Chars(d: seq<nat>): (s: string)
    requires forall i :: 0 <= i < |d| ==> d[i] < 58
    ensures |s| == |d| && forall i :: 0 <= i < |d| ==> s[i] == CharOf(d[i])
  {
    seq(|d|, i requires 0 <= i < |d| && d[i] < 58 => CharOf(d[i]))
  }

  function Indices(s: string): (d: seq<nat>)
    ensures |d| == |s| && forall i :: 0 <= i < |s| ==> d[i] == DigitOf(s[i])
  {
    seq(|s|, i requires 0 <= i < |s| => DigitOf(s[i]))
  }

  /** The number a byte string stands for, first byte highest. */
  function Number(b: seq<Byte>): nat {
    Value(Reverse(b), 0x100)
  }

  /** Zeros in front, then the digits of a number, highest first. */
  function Numeral(z: nat, n: nat): string {
    DigitsAreTrimmed(n, 58);
    Repeat('1', z) + Reverse(Chars(Digits(n, 58)))
  }

  /** The same in base 256. */
  function Octets(z: nat, n: nat): seq<Byte> {
    DigitsAreTrimmed(n, 0x100);
    Repeat(0, z) + AsBytes(Reverse(Digits(n, 0x100)))
  }

  function Encoded(b: seq<Byte>): string {
    Numeral(Lead(b, 0), Number(b))
  }

  ghost predicate Alphabetic(s: string) {
    forall i :: 0 <= i < |s| ==> DigitOf(s[i]) < 58
  }

  function AlphabetRun(s: string): (n: nat)
    ensures n <= |s| && (n < |s| ==> DigitOf(s[n]) == 58) && forall i :: 0 <= i < n ==> DigitOf(s[i]) < 58
  {
    if s == [] || DigitOf(s[0]) == 58 then 0
    else
      var m := AlphabetRun(s[1..]);
      assert forall i :: 1 <= i < m + 1 ==> s[i] == s[1..][i - 1];
      m + 1
  }

  /** The bytes a run of digits stands for. */
  function BytesOf(s: string): seq<Byte> {
    Octets(Lead(s, '1'), Count(s))
  }

  /** The number a run of digits stands for, first digit highest. */
  function Count(s: string): nat {
    Value(Reverse(Indices(s)), 58)
  }

  /** Blanks, digits, blanks; nothing else. */
  function Decoded(text: string): Option<seq<Byte>> {
    var s := SpacesSkipped(text);
    var n := AlphabetRun(s);
    if SpacesSkipped(s[n..]) != [] then None else Some(BytesOf(s[..n]))
  }

  // ---------------------------------------------------------------- the two directions

  lemma CharsAre(d: seq<nat>)
    requires AreDigits(d, 58) && Trimmed(d)
    ensures Alphabetic(Reverse(Chars(d))) && Indices(Reverse(Chars(d))) == Reverse(d)
    ensures Reverse(Chars(d)) == [] || Reverse(Chars(d))[0] != '1'
  {
    forall i | 0 <= i < |d|
      ensures DigitOf(CharOf(d[i])) == d[i] && (CharOf(d[i]) == '1' <==> d[i] == 0)
    {
      DigitOfChar(d[i]);
    }
    assert d != [] ==> Reverse(Chars(d))[0] == CharOf(d[|d| - 1]);
  }

  lemma CountWithZeros(z: nat, s: string)
    ensures Count(Repeat('1', z) + s) == Count(s)
  {
    assert DigitOf('1') == 0;
    assert Reverse(Indices(Repeat('1', z) + s)) == Reverse(Indices(s)) + Repeat(0, z);
    ZerosOnTop(Reverse(Indices(s)), z, 58);
  }

  /** A numeral tells its zeros and its number. */
  lemma NumeralRead(z: nat, n: nat)
    ensures var s := Numeral(z, n);
            Alphabetic(s) && Lead(s, '1') == z && Count(s) == n
  {
    var d := Digits(n, 58);
    DigitsAreTrimmed(n, 58);
    CharsAre(d);
    var digits := Reverse(Chars(d));
    hide Chars, Lead;
    LeadUnique(z, '1', digits);
    CountWithZeros(z, digits);
    ReverseTwice(d);
    ValueOfDigits(n, 58);
    assert DigitOf('1') == 0;
  }

  lemma OctetsRead(z: nat, n: nat)
    ensures var b := Octets(z, n);
            Lead(b, 0) == z && Number(b) == n
  {
    var e := Digits(n, 0x100);
    DigitsAreTrimmed(n, 0x100);
    var digits := AsBytes(Reverse(e));
    assert digits != [] ==> digits[0] == e[|e| - 1];
    hide Lead, Digits;
    LeadUnique<Byte>(z, 0, digits);
    var b := Octets(z, n);
    assert b == Repeat(0, z) + digits;
    assert Reverse(b) == e + Repeat(0, z);
    ZerosOnTop(e, z, 0x100);
    ValueOfDigits(n, 0x100);
  }

  /** Bytes are determined by their leading zeros and their number. */
  lemma OctetsOf(b: seq<Byte>)
    ensures Octets(Lead(b, 0), Number(b)) == b
  {
    var z := Lead(b, 0);
    LeadSplit(b, 0);
    var rest := b[z..];
    var d: seq<nat> := Reverse(rest);
    hide Lead;
    assert Reverse(b) == d + Repeat(0, z);
    ZerosOnTop(d, z, 0x100);
    DigitsOfValue(d, 0x100);
    assert Reverse(d) == rest;
  }

  /** And texts by their leading ones and theirs. */
  lemma NumeralOf(s: string)
    requires Alphabetic(s)
    ensures Numeral(Lead(s, '1'), Count(s)) == s
  {
    var z := Lead(s, '1');
    LeadSplit(s, '1');
    var rest := s[z..];
    var d := Reverse(Indices(rest));
    assert Alphabetic(rest) && (rest == "" || rest[0] != '1');
    hide *;
    CountWithZeros(z, rest);
    TrimmedIndices(rest);
    CountIs(rest);
    DigitsOfValue(d, 58);
    CharsOf(rest);
    NumeralIs(z, Count(s), d);
  }

  lemma CountIs(s: string)
    ensures Count(s) == Value(Reverse(Indices(s)), 58)
  {
  }

  /** A text that does not start with a one stands for digits without a zero at the top. */
  lemma TrimmedIndices(s: string)
    requires Alphabetic(s) && (s == "" || s[0] != '1')
    ensures AreDigits(Reverse(Indices(s)), 58) && Trimmed(Reverse(Indices(s)))
  {
    if s != "" {
      CharOfDigit(s[0]);
      DigitOfChar(DigitOf(s[0]));
    }
  }

  lemma NumeralIs(z: nat, n: nat, d: seq<nat>)
    requires Digits(n, 58) == d
    ensures AreDigits(d, 58) && Numeral(z, n) == Repeat('1', z) + Reverse(Chars(d))
  {
    DigitsAreTrimmed(n, 58);
  }

  lemma CharsOf(s: string)
    requires Alphabetic(s)
    ensures Reverse(Chars(Reverse(Indices(s)))) == s
  {
    forall i | 0 <= i < |s|
      ensures CharOf(DigitOf(s[i])) == s[i]
    {
      CharOfDigit(s[i]);
    }
  }

  lemma BytesOfEncoded(b: seq<Byte>)
    ensures Alphabetic(Encoded(b)) && BytesOf(Encoded(b)) == b
  {
    hide Numeral, Octets, Lead, Number, Count;
    NumeralRead(Lead(b, 0), Number(b));
    OctetsOf(b);
  }

  lemma EncodedBytesOf(s: string)
    requires Alphabetic(s)
    ensures Encoded(BytesOf(s)) == s
  {
    hide Numeral, Octets, Lead, Number, Count;
    OctetsRead(Lead(s, '1'), Count(s));
    NumeralOf(s);
  }

  lemma NoSpaceInAlphabet(s: string)
    requires Alphabetic(s)
    ensures SpacesSkipped(s) == s && AlphabetRun(s) == |s|
  {
    if s != [] {
      CharOfDigit(s[0]);
      DigitOfChar(DigitOf(s[0]));
    }
  }

  /** Every byte string, leading zeros included, is decoded from its encoding. */
  lemma DecodeOfEncode(b: seq<Byte>)
    ensures Decoded(Encoded(b)) == Some(b)
  {
    var s := Encoded(b);
    BytesOfEncoded(b);
    NoSpaceInAlphabet(s);
    assert s[..|s|] == s;
  }

  /** Every text over the alphabet is the encoding of what it decodes to. */
  lemma EncodeOfDecode(s: string)
    requires Alphabetic(s)
    ensures Decoded(s).Some? && Encoded(Decoded(s).value) == s
  {
    NoSpaceInAlphabet(s);
    assert s[..|s|] == s;
    EncodedBytesOf(s);
  }

  /** What is accepted: digits with blanks around them, and the blanks do not matter. */
  lemma BlanksAround(before: string, s: string, after: string)
    requires Blank(before) && Blank(after) && Alphabetic(s) && s != []
    ensures Decoded(before + s + after) == Decoded(s) == Some(BytesOf(s))
  {
    NoSpaceInAlphabet(s);
    assert before + s + after == before + (s + after);
    CharOfDigit(s[0]);
    DigitOfChar(DigitOf(s[0]));
    SkipBlank(before, s + after);
    RunStops(s, after);
    SkipBlank(after, []);
    assert after + [] == after && (s + after)[|s|..] == after && (s + after)[..|s|] == s;
    assert s[..|s|] == s;
  }

  lemma SpaceIsNoDigit(c: char)
    ensures IsSpace(c) ==> DigitOf(c) == 58
  {
  }

  lemma {:induction false} RunStops(s: string, after: string)
    requires Alphabetic(s) && Blank(after)
    ensures AlphabetRun(s + after) == |s|
    decreases |s|
  {
    hide DigitOf, IsSpace;
    if s == [] {
      assert s + after == after;
      if after != [] {
        SpaceIsNoDigit(after[0]);
      }
    } else {
      assert (s + after)[1..] == s[1..] + after;
      RunStops(s[1..], after);
    }
  }

  /** Nothing else is accepted. */
  lemma AcceptedOnly(text: string)
    requires Decoded(text).Some?
    ensures exists before, s, after ::
              Blank(before) && Alphabetic(s) && Blank(after) && text == before + s + after && Decoded(text) == Some(BytesOf(s))
  {
    hide BytesOf, SpacesSkipped, AlphabetRun;
    var t := SpacesSkipped(text);
    var n := AlphabetRun(t);
    SkippedSplit(text);
    var before :| Blank(before) && text == before + t;
    SkippedSplit(t[n..]);
    var after :| Blank(after) && t[n..] == after + [];
    var s := t[..n];
    assert Alphabetic(s);
    hide Blank, Alphabetic;
    assert after + [] == after;
    assert t == s + after;
    assert text == before + s + after;
  }

  /** Bytes and digits weigh more the further they stand in front. */
  lemma NextByte(b: seq<Byte>, x: Byte)
    ensures Number(b + [x]) == 0x100 * Number(b) + x
  {
    assert Reverse(b + [x])[0] == x && Reverse(b + [x])[1..] == Reverse(b);
  }

  lemma NextDigit(s: string, c: char)
    ensures Count(s + [c]) == 58 * Count(s) + DigitOf(c)
  {
    assert Reverse(Indices(s + [c]))[0] == DigitOf(c) && Reverse(Indices(s + [c]))[1..] == Reverse(Indices(s));
  }

  lemma NumberOfThree()
    ensures Number([0, 1, 0]) == 256
  {
    NextByte([0, 1], 0);
    NextByte([0], 1);
    NextByte([], 0);
    assert [0, 1, 0] == [0, 1] + [0] && [0, 1] == [0] + [1] && [] + [0] == [0];
    assert Number([]) == 0 by { assert Reverse<nat>([]) == []; }
  }

  lemma DigitsOf256()
    ensures Digits(256, 58) == [24, 4]
  {
    assert Digits(4, 58) == [4];
    assert Digits(256, 58) == [24] + Digits(4, 58);
  }

  lemma LeadOfThree()
    ensures Lead([0, 1, 0], 0) == 1
  {
    assert [0, 1, 0] == Repeat(0, 1) + [1, 0];
    LeadUnique(1, 0, [1, 0]);
  }

  lemma CharsOf256()
    ensures Repeat('1', 1) + Reverse(Chars([24, 4])) == "15R"
  {
    assert Chars([24, 4]) == ['R', '5'];
  }

  /** 0, 1, 0 is a leading zero and 256 = 4 * 58 + 24, the digits 5 and R. */
  lemma ThreeBytes()
    ensures Encoded([0, 1, 0]) == "15R"
  {
    NumberOfThree();
    DigitsOf256();
    LeadOfThree();
    CharsOf256();
    hide Number, Digits, Lead, Reverse, Repeat, Chars;
  }
}
