/** The base-58 routines as the pool runs them, and addresses: a version byte and data, written with
    a four-byte checksum and read back. */
module Address {
  import opened Ascii
  import opened Base58
  import opened BigNum
  import opened Database
  import opened Radix
  import opened Words

  // ---------------------------------------------------------------- encoding

  lemma {:induction false} NumberOfVch(b: seq<Byte>)
    ensures ValueOfSigned(Reverse(b) + [0]) == Number(b)
  {
    TopZero(Reverse(b), 0x100);
  }

  /** The digits of a number as characters, lowest first. */
  function LowFirst(n: nat): string {
    DigitsAreTrimmed(n, 58);
    Chars(Digits(n, 58))
  }

  lemma NextDigit(n: nat)
    requires n > 0
    ensures 0 <= n / 58 < n && 0 <= n % 58 < 58
    ensures LowFirst(n) == [CharOf(n % 58)] + LowFirst(n / 58)
  {
    Shrinks(n, 58);
    DigitsAreTrimmed(n, 58);
    DigitsAreTrimmed(n / 58, 58);
  }

  lemma NoDigits()
    ensures LowFirst(0) == []
  {
  }

  lemma AlphabetAt(d: nat)
    requires d < 58
    ensures |Alphabet()| == 58 && Alphabet()[d] == CharOf(d)
  {
    AlphabetIs();
  }

  lemma NumeralOfText(z: nat, n: nat)
    ensures Numeral(z, n) == Reverse(LowFirst(n) + Repeat('1', z))
  {
    DigitsAreTrimmed(n, 58);
    ReverseSum(LowFirst(n), Repeat('1', z));
    assert Reverse(Repeat('1', z)) == Repeat('1', z);
  }

  method EncodeBase58(b: seq<Byte>) returns (text: string)
    requires |b| + 1 < UINT_LIMIT
    ensures text == Encoded(b)
  {
    var tmp := Reverse(b) + [0];
    var value := SetVch(tmp);
    assert value == Some(Number(b)) by {
      VchIs(tmp);
      NumberOfVch(b);
    }
    hide *;
    var bn: nat := value.value;
    text := NumberText(bn);
    AlphabetAt(0);
    var p := 0;
    while p < |b| && b[p] == 0
      invariant 0 <= p <= Lead(b, 0)
      invariant text == LowFirst(bn) + Repeat('1', p)
    {
      assert Repeat('1', p + 1) == Repeat('1', p) + ['1'];
      text := text + [Alphabet()[0]];
      p := p + 1;
    }
    assert p == Lead(b, 0);
    NumeralOfText(p, bn);
    EncodedIs(b);
    text := Reverse(text);
  }

  lemma EncodedIs(b: seq<Byte>)
    ensures Encoded(b) == Numeral(Lead(b, 0), Number(b))
  {
  }

  method NumberText(n: nat) returns (text: string)
    ensures text == LowFirst(n)
  {
    hide *;
    text := "";
    var bn := n;
    while bn > 0
      invariant text + LowFirst(bn) == LowFirst(n)
    {
      NextDigit(bn);
      var dv, rem := bn / 58, bn % 58;
      AlphabetAt(rem);
      assert text + ([CharOf(rem)] + LowFirst(dv)) == text + [CharOf(rem)] + LowFirst(dv);
      bn := dv;
      text := text + [Alphabet()[rem]];
    }
    NoDigits();
  }

  // ---------------------------------------------------------------- decoding

  /** strchr in the alphabet: the position of a character, or the alphabet's length. */
  method StrChr(c: char) returns (d: nat)
    ensures d == DigitOf(c)
  {
    AlphabetIs();
    hide Alphabet, CharOf, DigitOf;
    d := 0;
    while d < |Alphabet()|
      invariant 0 <= d <= 58 && forall j :: 0 <= j < d ==> Alphabet()[j] != c
    {
      if Alphabet()[d] == c {
        DigitOfChar(d);
        return;
      }
      d := d + 1;
    }
    if DigitOf(c) < 58 {
      CharOfDigit(c);
    }
  }

  method SkipSpaces(s: string, start: nat) returns (p: nat)
    requires start <= |s|
    ensures start <= p <= |s| && s[p..] == SpacesSkipped(s[start..])
  {
    p := start;
    while p < |s| && IsSpace(s[p])
      invariant start <= p <= |s|
      invariant SpacesSkipped(s[p..]) == SpacesSkipped(s[start..])
    {
      assert s[p..][0] == s[p] && s[p..][1..] == s[p + 1..];
      p := p + 1;
    }
    assert s[p..] != [] ==> s[p..][0] == s[p];
  }

  lemma CountNext(s: string, k: nat)
    requires k < |s|
    ensures Count(s[..k + 1]) == Count(s[..k]) * 58 + DigitOf(s[k])
  {
    var t := s[..k];
    assert s[..k + 1] == t + [s[k]];
    assert Reverse(Indices(t + [s[k]])) == [DigitOf(s[k])] + Reverse(Indices(t));
    assert ([DigitOf(s[k])] + Reverse(Indices(t)))[1..] == Reverse(Indices(t));
  }

  /** Base 58 has fewer values than base 256 has for as many digits. */
  lemma CountFits(s: string)
    requires Alphabetic(s)
    ensures |Digits(Count(s), 0x100)| <= |s|
  {
    var d := Reverse(Indices(s));
    ValueBelowPower(d, 58);
    PowerGrows(58, 0x100, |d|);
    FewDigits(Count(s), 0x100, |d|);
  }

  lemma SignedLength(n: nat)
    ensures |Signed(n)| <= |Digits(n, 0x100)| + 1
  {
  }

  /** Dropping the sign byte of a nonnegative integer leaves its digits. */
  method UnsignedVch(bn: nat) returns (tmp: seq<Byte>)
    requires |Signed(bn)| < UINT_LIMIT
    ensures tmp == Digits(bn, 0x100)
  {
    GetVchIs(bn);
    tmp := GetVch(bn);
    ghost var m := Digits(bn, 0x100);
    SignedIs(bn);
    DigitsAreTrimmed(bn, 0x100);
    hide *;
    TrimSign(m, tmp);
    if |tmp| >= 2 && tmp[|tmp| - 1] == 0 && tmp[|tmp| - 2] >= 0x80 {
      tmp := tmp[..|tmp| - 1];
    }
  }

  lemma SignedIs(n: nat)
    ensures var m := Digits(n, 0x100);
            Signed(n) == if m == [] then [] else if m[|m| - 1] >= 0x80 then m + [0] else m
  {
    var m := Digits(n, 0x100);
    hide Digits;
    assert Magnitude(n) == n && Sign(n) == 0;
    assert m != [] ==> m == m[..|m| - 1] + [m[|m| - 1] + 0];
  }

  lemma TrimSign(m: seq<nat>, v: seq<nat>)
    requires Trimmed(m) && v == if m == [] then [] else if m[|m| - 1] >= 0x80 then m + [0] else m
    ensures m == if |v| >= 2 && v[|v| - 1] == 0 && v[|v| - 2] >= 0x80 then v[..|v| - 1] else v
  {
  }

  method DecodeBase58(text: string) returns (ok: bool, bytes: seq<Byte>)
    requires '\0' !in text && |text| + 1 < UINT_LIMIT
    ensures ok <==> Decoded(text).Some?
    ensures bytes == if ok then Decoded(text).value else []
  {
    bytes := [];
    var start := SkipSpaces(text, 0);
    assert text[0..] == text;
    var s := text[start..];
    var bn, p := 0, 0;
    assert Count(s[..0]) == 0;
    while p < |s|
      invariant 0 <= p <= AlphabetRun(s) && bn == Count(s[..p])
    {
      var d := StrChr(s[p]);
      if d == |Alphabet()| {
        assert p == AlphabetRun(s);
        var q := SkipSpaces(s, p);
        if q < |s| {
          return false, [];
        }
        break;
      }
      CountNext(s, p);
      bn := bn * 58;
      bn := bn + d;
      p := p + 1;
    }
    var run := s[..p];
    assert p == AlphabetRun(s) && SpacesSkipped(s[p..]) == [];
    CountFits(run);
    SignedLength(bn);
    var tmp := UnsignedVch(bn);
    var zeros := LeadingOnes(s, p);
    bytes := Repeat(0, zeros) + Reverse(tmp);
    ok := true;
    OctetsAre(zeros, bn, tmp);
  }

  lemma OctetsAre(z: nat, n: nat, tmp: seq<Byte>)
    requires tmp == Digits(n, 0x100)
    ensures Octets(z, n) == Repeat(0, z) + Reverse(tmp)
  {
    DigitsAreTrimmed(n, 0x100);
  }

  /** Leading ones of the text are leading ones of its run of digits. */
  method LeadingOnes(s: string, run: nat) returns (zeros: nat)
    requires run == AlphabetRun(s)
    ensures zeros == Lead(s[..run], '1')
  {
    zeros := 0;
    assert DigitOf('1') == 0;
    while zeros < |s| && s[zeros] == '1'
      invariant 0 <= zeros <= Lead(s[..run], '1')
    {
      assert zeros < run;
      assert s[..run][zeros] == s[zeros];
      zeros := zeros + 1;
    }
    assert zeros < run ==> s[..run][zeros] == s[zeros];
  }

  // ---------------------------------------------------------------- checksums

  type Checksum = c: seq<Byte> | |c| == 4 witness [0, 0, 0, 0]

  method EncodeBase58Check(hash: seq<Byte> -> Checksum, b: seq<Byte>) returns (text: string)
    requires |b| + 5 < UINT_LIMIT
    ensures text == Encoded(b + hash(b))
  {
    text := EncodeBase58(b + hash(b));
  }

  /** The bytes of a text whose last four are the checksum of the rest. */
  function Checked(hash: seq<Byte> -> Checksum, text: string): Option<seq<Byte>> {
    var d := Decoded(text);
    if d.None? || |d.value| < 4 then None
    else
      var n := |d.value| - 4;
      if d.value[n..] != hash(d.value[..n]) then None else Some(d.value[..n])
  }

  method DecodeBase58Check(hash: seq<Byte> -> Checksum, text: string) returns (ok: bool, bytes: seq<Byte>)
    requires '\0' !in text && |text| + 1 < UINT_LIMIT
    ensures ok <==> Checked(hash, text).Some?
    ensures bytes == if ok then Checked(hash, text).value else []
  {
    hide Decoded;
    ok, bytes := DecodeBase58(text);
    if !ok {
      return false, bytes;
    }
    if |bytes| < 4 {
      return false, [];
    }
    var n := |bytes| - 4;
    if hash(bytes[..n]) != bytes[n..] {
      return false, [];
    }
    bytes := bytes[..n];
  }

  /** A text is accepted as the bytes b exactly when it reads as b with its checksum. */
  lemma CheckedMeans(hash: seq<Byte> -> Checksum, text: string, b: seq<Byte>)
    ensures Checked(hash, text) == Some(b) <==> Decoded(text) == Some(b + hash(b))
  {
    hide Decoded;
    if Decoded(text) == Some(b + hash(b)) {
      assert (b + hash(b))[..|b|] == b && (b + hash(b))[|b|..] == hash(b);
    }
    if Checked(hash, text) == Some(b) {
      var v := Decoded(text).value;
      assert v == v[..|v| - 4] + v[|v| - 4..];
    }
  }

  class Base58Data {
    var version: Byte
    var data: seq<Byte>

    constructor ()
      ensures version == 0 && data == []
    {
      version, data := 0, [];
    }

    /** An address is read exactly when the text passes the checksum with at least a version byte;
        otherwise the object is emptied. */
    method SetString(hash: seq<Byte> -> Checksum, text: string) returns (ok: bool)
      requires '\0' !in text && |text| + 1 < UINT_LIMIT
      modifies this
      ensures ok <==> Checked(hash, text).Some? && Checked(hash, text).value != []
      ensures ok ==> [version] + data == Checked(hash, text).value
      ensures !ok ==> version == 0 && data == []
    {
      hide Checked;
      var _, bytes := DecodeBase58Check(hash, text);
      if bytes == [] {
        data := [];
        version := 0;
        return false;
      }
      version := bytes[0];
      data := bytes[1..];
      ok := true;
    }

    method ToString(hash: seq<Byte> -> Checksum) returns (text: string)
      requires |data| + 6 < UINT_LIMIT
      ensures text == Encoded([version] + data + hash([version] + data))
    {
      text := EncodeBase58Check(hash, [version] + data);
    }

    /** Writing an address and reading the text, even into another object, gives the address. */
    method Reread(hash: seq<Byte> -> Checksum, other: Base58Data) returns (ok: bool)
      requires |data| + 6 < UINT_LIMIT && other != this
      requires |Encoded([version] + data + hash([version] + data))| + 1 < UINT_LIMIT
      modifies other
      ensures ok && other.version == version && other.data == data
    {
      var text := ToString(hash);
      TextIsAddress(hash, [version] + data);
      hide Checked, Encoded;
      ok := other.SetString(hash, text);
      assert ([other.version] + other.data)[0] == ([version] + data)[0];
      assert ([other.version] + other.data)[1..] == ([version] + data)[1..];
    }
  }

  /** The text of an address reads as that address, under any checksum. */
  lemma TextIsAddress(hash: seq<Byte> -> Checksum, b: seq<Byte>)
    ensures var text := Encoded(b + hash(b));
            Checked(hash, text) == Some(b) && '\0' !in text
  {
    DecodeOfEncode(b + hash(b));
    CheckedMeans(hash, Encoded(b + hash(b)), b);
    BytesOfEncoded(b + hash(b));
    NoNul(Encoded(b + hash(b)));
  }

  lemma NoNul(s: string)
    requires Alphabetic(s)
    ensures '\0' !in s
  {
    assert DigitOf('\0') == 58;
  }

  /** And a text over the alphabet that reads as an address is the text of that address. */
  lemma AddressIsText(hash: seq<Byte> -> Checksum, text: string)
    requires Alphabetic(text) && Checked(hash, text).Some?
    ensures var b := Checked(hash, text).value;
            Encoded(b + hash(b)) == text
  {
    hide Checked;
    CheckedMeans(hash, text, Checked(hash, text).value);
    EncodeOfDecode(text);
  }
}
