/** JSON strings: what the writer escapes and how the reader takes the escapes back out. Characters
    are bytes, 0 to 255. */
module JsonText {
  import opened Words

  ghost predicate ByteText(s: string) {
    forall i :: 0 <= i < |s| ==> s[i] as int < 0x100
  }

  // ---------------------------------------------------------------- writing

  function HexChar(n: nat): char
    requires n < 16
  {
    if n < 10 then ('0' as int + n) as char else ('A' as int + n - 10) as char
  }

  function NonPrintable(c: nat): (s: string)
    requires c < 0x1_0000
    ensures |s| == 6
  {
    ['\\', 'u', HexChar(c / 0x1000 % 16), HexChar(c / 0x100 % 16), HexChar(c / 0x10 % 16), HexChar(c % 16)]
  }

  /** The two-character escape of a character that always has one, or nothing. */
  function ShortEscape(c: char): string {
    if c == '"' then "\\\"" else if c == '\\' then "\\\\" else if c as int == 8 then "\\b" else if c as int == 12 then "\\f"
    else if c == '\n' then "\\n" else if c == '\r' then "\\r" else if c == '\t' then "\\t" else ""
  }

  function EscapedChar(printable: char -> bool, c: char): string
    requires c as int < 0x100
  {
    if ShortEscape(c) != "" then ShortEscape(c)
    else if printable(c) then [c]
    else NonPrintable(c as int)
  }

  function Escaped(printable: char -> bool, s: string): string
    requires ByteText(s)
  {
    if s == "" then "" else EscapedChar(printable, s[0]) + Escaped(printable, s[1..])
  }

  lemma {:induction false} EscapedSnoc(printable: char -> bool, s: string, c: char)
    requires ByteText(s) && c as int < 0x100
    ensures ByteText(s + [c])
    ensures Escaped(printable, s + [c]) == Escaped(printable, s) + EscapedChar(printable, c)
    decreases |s|
  {
    hide EscapedChar;
    if s == "" {
      assert s + [c] == [c];
      assert [c][1..] == "";
      assert Escaped(printable, [c]) == EscapedChar(printable, c) + Escaped(printable, "");
    } else {
      assert (s + [c])[0] == s[0] && (s + [c])[1..] == s[1..] + [c];
      EscapedSnoc(printable, s[1..], c);
    }
  }

  method AddEscChars(printable: char -> bool, s: string) returns (result: string)
    requires ByteText(s)
    ensures result == Escaped(printable, s)
  {
    result := "";
    var i := 0;
    while i < |s|
      invariant 0 <= i <= |s|
      invariant result == Escaped(printable, s[..i])
    {
      var c := s[i];
      EscapedSnoc(printable, s[..i], c);
      assert s[..i + 1] == s[..i] + [c];
      i := i + 1;
      if ShortEscape(c) != "" {
        result := result + ShortEscape(c);
        continue;
      }
      if printable(c) {
        result := result + [c];
      } else {
        result := result + NonPrintable(c as int);
      }
    }
    assert s[..i] == s;
  }

  // ---------------------------------------------------------------- reading

  function HexToNum(c: char): (n: nat)
    ensures n < 16
  {
    if '0' <= c <= '9' then c as int - '0' as int
    else if 'a' <= c <= 'f' then c as int - 'a' as int + 10
    else if 'A' <= c <= 'F' then c as int - 'A' as int + 10
    else 0
  }

  lemma HexRoundTrip(n: nat)
    requires n < 16
    ensures HexToNum(HexChar(n)) == n
  {
  }

  /** What an escape adds and how many characters after the backslash it uses; t starts after the
      backslash. Digits missing at the end leave the letter used up and nothing added. */
  function TakenEscape(t: string): (r: (string, nat))
    requires t != ""
    ensures 1 <= r.1 <= |t|
  {
    match t[0]
    case 't' => ("\t", 1)
    case 'b' => ([8 as char], 1)
    case 'f' => ([12 as char], 1)
    case 'n' => ("\n", 1)
    case 'r' => ("\r", 1)
    case '\\' => ("\\", 1)
    case '/' => ("/", 1)
    case '"' => ("\"", 1)
    case 'x' =>
      if |t| >= 3 then ([(HexToNum(t[1]) * 16 + HexToNum(t[2])) as char], 3) else ("", 1)
    case 'u' =>
      if |t| >= 5 then
        ([((HexToNum(t[1]) * 0x1000 + HexToNum(t[2]) * 0x100 + HexToNum(t[3]) * 0x10 + HexToNum(t[4])) % 0x100) as char], 5)
      else ("", 1)
    case _ => ("", 1)
  }

  /** Everything but the last character is looked at for a backslash. */
  function Unescaped(t: string): string
    decreases |t|
  {
    if |t| < 2 then t
    else if t[0] == '\\' then
      var (piece, used) := TakenEscape(t[1..]);
      piece + Unescaped(t[1 + used..])
    else [t[0]] + Unescaped(t[1..])
  }

  method AppendEscChar(s: string, i: nat) returns (piece: string, last: nat)
    requires i < |s|
    ensures i <= last < |s|
    ensures (piece, last + 1 - i) == TakenEscape(s[i..])
  {
    hide HexToNum;
    last := i;
    var t := s[i..];
    match s[i]
    case 't' => piece := "\t";
    case 'b' => piece := [8 as char];
    case 'f' => piece := [12 as char];
    case 'n' => piece := "\n";
    case 'r' => piece := "\r";
    case '\\' => piece := "\\";
    case '/' => piece := "/";
    case '"' => piece := "\"";
    case 'x' =>
      piece := "";
      if |s| - i >= 3 {
        piece := [(HexToNum(s[i + 1]) * 16 + HexToNum(s[i + 2])) as char];
        last := i + 2;
      }
    case 'u' =>
      piece := "";
      if |s| - i >= 5 {
        piece := [((HexToNum(s[i + 1]) * 0x1000 + HexToNum(s[i + 2]) * 0x100 + HexToNum(s[i + 3]) * 0x10 + HexToNum(s[i + 4])) % 0x100) as char];
        last := i + 4;
      }
    case _ => piece := "";
  }

  lemma UnescapedHead(t: string)
    requires |t| >= 2
    ensures Unescaped(t) == if t[0] == '\\' then TakenEscape(t[1..]).0 + Unescaped(t[1 + TakenEscape(t[1..]).1..])
                            else [t[0]] + Unescaped(t[1..])
  {
  }

  lemma UnescapedShort(t: string)
    requires |t| < 2
    ensures Unescaped(t) == t
  {
  }

  lemma UnescapedRun(s: string, from: nat, i: nat)
    requires from <= i < |s| - 1 && s[i] != '\\' && Unescaped(s[from..]) == s[from..i] + Unescaped(s[i..])
    ensures Unescaped(s[from..]) == s[from..i + 1] + Unescaped(s[i + 1..])
  {
    hide *;
    UnescapedHead(s[i..]);
    assert s[i..][0] == s[i] && s[i..][1..] == s[i + 1..];
    assert s[from..i + 1] == s[from..i] + [s[i]];
    Reassociate(s[from..i], [s[i]], Unescaped(s[i + 1..]));
  }

  lemma UnescapedSkip(s: string, i: nat, piece: string, last: nat)
    requires i < last < |s| && i + 1 < |s| && s[i] == '\\' && (piece, last - i) == TakenEscape(s[i + 1..])
    ensures Unescaped(s[i..]) == piece + Unescaped(s[last + 1..])
  {
    UnescapedHead(s[i..]);
    hide Unescaped, TakenEscape;
    assert s[i..][1..] == s[i + 1..];
    assert s[i..][1 + (last - i)..] == s[last + 1..];
  }

  /** Runs without a backslash are copied in one piece. */
  method SubstituteEscChars(s: string) returns (result: string)
    ensures result == Unescaped(s)
  {
    hide *;
    if |s| < 2 {
      UnescapedShort(s);
      return s;
    }
    result := "";
    var start, i := 0, 0;
    assert s[0..] == s && s[0..0] == "";
    while i < |s| - 1
      invariant 0 <= start <= i <= |s|
      invariant result + Unescaped(s[start..]) == Unescaped(s)
      invariant Unescaped(s[start..]) == s[start..i] + Unescaped(s[i..])
      decreases |s| - i
    {
      if s[i] == '\\' {
        ghost var before := result;
        result := result + s[start..i];
        var piece, last := AppendEscChar(s, i + 1);
        UnescapedSkip(s, i, piece, last);
        assert before + (s[start..i] + (piece + Unescaped(s[last + 1..]))) == before + s[start..i] + piece + Unescaped(s[last + 1..]);
        result := result + piece;
        start := last + 1;
        i := last + 1;
        assert s[start..i] == "";
      } else {
        UnescapedRun(s, start, i);
        i := i + 1;
      }
    }
    UnescapedShort(s[i..]);
    assert s[start..] == s[start..i] + s[i..];
    result := result + s[start..];
  }

  // ---------------------------------------------------------------- the round trip

  lemma UnescapeOne(printable: char -> bool, c: char, rest: string)
    requires c as int < 0x100
    ensures Unescaped(EscapedChar(printable, c) + rest) == [c] + Unescaped(rest)
  {
    var t := EscapedChar(printable, c) + rest;
    if ShortEscape(c) != "" {
      UnescapeShort(c, rest);
    } else if printable(c) {
      assert t == [c] + rest && t[1..] == rest;
    } else {
      UnescapeHex(c as int, rest);
    }
  }

  lemma UnescapeShort(c: char, rest: string)
    requires ShortEscape(c) != ""
    ensures Unescaped(ShortEscape(c) + rest) == [c] + Unescaped(rest)
  {
    var t := ShortEscape(c) + rest;
    assert t[0] == '\\' && t[1..][0] == ShortEscape(c)[1] && t[2..] == rest;
    assert TakenEscape(t[1..]) == ([c], 1);
  }

  lemma HexDigits(c: nat)
    requires c < 0x100
    ensures c / 0x1000 % 16 == 0 && c / 0x100 % 16 == 0 && c / 0x10 % 16 == c / 0x10
    ensures (c / 0x10) * 0x10 + c % 16 == c
  {
  }

  lemma UnescapeHex(c: nat, rest: string)
    requires c < 0x100
    ensures Unescaped(NonPrintable(c) + rest) == [c as char] + Unescaped(rest)
  {
    var t := NonPrintable(c) + rest;
    HexDigits(c);
    HexRoundTrip(0);
    HexRoundTrip(c / 0x10);
    HexRoundTrip(c % 16);
    hide HexToNum, HexChar;
    var u := t[1..];
    assert u[0] == 'u' && u[1] == u[2] == HexChar(0) && u[3] == HexChar(c / 0x10) && u[4] == HexChar(c % 16);
    assert TakenEscape(u) == ([c as char], 5);
    assert t[1 + 5..] == rest;
  }

  /** Whatever counts as printable, a string escaped and unescaped is the same string. */
  lemma {:induction false} EscapeRoundTrip(printable: char -> bool, s: string)
    requires ByteText(s)
    ensures Unescaped(Escaped(printable, s)) == s
    decreases |s|
  {
    if s != "" {
      hide EscapedChar, Unescaped;
      EscapeRoundTrip(printable, s[1..]);
      UnescapeOne(printable, s[0], Escaped(printable, s[1..]));
      assert s == [s[0]] + s[1..];
    } else {
      assert Unescaped("") == "";
    }
  }

  /** Quote, backslash and control characters that have one take a short escape, printable
      characters stand for themselves, and the others become four hexadecimal digits. */
  lemma EscapesAre(printable: char -> bool)
    requires printable('a') && !printable(31 as char) && !printable(233 as char)
    ensures EscapedChar(printable, '"') == "\\\"" && EscapedChar(printable, '\\') == "\\\\"
    ensures EscapedChar(printable, 8 as char) == "\\b" && EscapedChar(printable, 12 as char) == "\\f"
    ensures EscapedChar(printable, 10 as char) == "\\n" && EscapedChar(printable, 13 as char) == "\\r"
    ensures EscapedChar(printable, 9 as char) == "\\t" && EscapedChar(printable, 'a') == "a"
    ensures EscapedChar(printable, 31 as char) == "\\u001F" && EscapedChar(printable, 233 as char) == "\\u00E9"
  {
    assert HexChar(0) == '0' && HexChar(1) == '1' && HexChar(15) == 'F' && HexChar(14) == 'E' && HexChar(9) == '9';
  }
}
