/** JSON values and the text the generator writes for them, compact or indented. */
module JsonValue {
  import opened JsonText
  import opened Radix
  import opened Words

  /** Real numbers are not part of this model. */
  datatype Value = Obj(members: seq<Member>) | Arr(elements: seq<Value>) | Str(text: string) | Bool(b: bool) | Int(n: int) | Null

  datatype Member = Member(name: string, value: Value)

  const INT_MIN: int := -0x8000_0000_0000_0000
  const INT_MAX: int := 0x7FFF_FFFF_FFFF_FFFF

  /** Strings of bytes, and integers that a signed or an unsigned 64-bit word holds. */
  ghost predicate Valid(v: Value) {
    match v
    case Obj(ms) => forall i :: 0 <= i < |ms| ==> ByteText(ms[i].name) && Valid(ms[i].value)
    case Arr(xs) => forall i :: 0 <= i < |xs| ==> Valid(xs[i])
    case Str(s) => ByteText(s)
    case Int(n) => INT_MIN <= n < WORD_LIMIT
    case _ => true
  }

  datatype Style = Style(printable: char -> bool, pretty: bool)

  // ---------------------------------------------------------------- the text of a value

  function Quoted(style: Style, s: string): string
    requires ByteText(s)
  {
    "\"" + Escaped(style.printable, s) + "\""
  }

  function DigitChar(d: nat): char
    requires d < 10
  {
    ('0' as int + d) as char
  }

  function DecimalChars(d: seq<nat>): (s: string)
    requires forall i :: 0 <= i < |d| ==> d[i] < 10
    ensures |s| == |d| && forall i :: 0 <= i < |d| ==> s[i] == DigitChar(d[i])
  {
    seq(|d|, i requires 0 <= i < |d| && d[i] < 10 => DigitChar(d[i]))
  }

  function Unsigned(n: nat): string {
    DigitsAreTrimmed(n, 10);
    if n == 0 then "0" else DecimalChars(Reverse(Digits(n, 10)))
  }

  function Decimal(n: int): string {
    if n < 0 then "-" + Unsigned(-n) else Unsigned(n)
  }

  function NewLine(style: Style): string {
    if style.pretty then "\n" else ""
  }

  function Space(style: Style): string {
    if style.pretty then " " else ""
  }

  function Indent(style: Style, level: nat): string {
    if !style.pretty || level == 0 then "" else Indent(style, level - 1) + "    "
  }

  function Printed(style: Style, level: nat, v: Value): string
    requires Valid(v)
    decreases v, 0
  {
    match v
    case Obj(ms) => "{" + NewLine(style) + MembersText(style, level + 1, ms) + Indent(style, level) + "}"
    case Arr(xs) => "[" + NewLine(style) + ElementsText(style, level + 1, xs) + Indent(style, level) + "]"
    case Str(s) => Quoted(style, s)
    case Bool(b) => if b then "true" else "false"
    case Int(n) => Decimal(n)
    case Null => "null"
  }

  function Separator(more: bool): string {
    if more then "," else ""
  }

  /** One element on its line. */
  function ElementText(style: Style, level: nat, x: Value, more: bool): string
    requires Valid(x)
    decreases x, 1
  {
    Indent(style, level) + Printed(style, level, x) + Separator(more) + NewLine(style)
  }

  function ElementsText(style: Style, level: nat, xs: seq<Value>): string
    requires forall i :: 0 <= i < |xs| ==> Valid(xs[i])
    decreases xs
  {
    if xs == [] then "" else ElementText(style, level, xs[0], |xs| > 1) + ElementsText(style, level, xs[1..])
  }

  function PairText(style: Style, level: nat, m: Member): string
    requires ByteText(m.name) && Valid(m.value)
    decreases m, 0
  {
    Quoted(style, m.name) + Space(style) + (":" + Space(style)) + Printed(style, level, m.value)
  }

  /** One name and value on its line. */
  function MemberText(style: Style, level: nat, m: Member, more: bool): string
    requires ByteText(m.name) && Valid(m.value)
    decreases m, 1
  {
    Indent(style, level) + PairText(style, level, m) + Separator(more) + NewLine(style)
  }

  function MembersText(style: Style, level: nat, ms: seq<Member>): string
    requires forall i :: 0 <= i < |ms| ==> ByteText(ms[i].name) && Valid(ms[i].value)
    decreases ms
  {
    if ms == [] then "" else MemberText(style, level, ms[0], |ms| > 1) + MembersText(style, level, ms[1..])
  }

  // ---------------------------------------------------------------- the generator

  class Generator {
    const style: Style
    var os: string
    var indentationLevel: nat

    constructor (style: Style)
      ensures this.style == style && os == "" && indentationLevel == 0
    {
      this.style := style;
      os := "";
      indentationLevel := 0;
    }

    method PutIndent()
      modifies this`os
      ensures os == old(os) + Indent(style, indentationLevel)
    {
      if !style.pretty {
        return;
      }
      var i := 0;
      while i < indentationLevel
        invariant 0 <= i <= indentationLevel
        invariant os == old(os) + Indent(style, i)
      {
        os := os + "    ";
        i := i + 1;
      }
    }

    method PutString(s: string)
      requires ByteText(s)
      modifies this`os
      ensures os == old(os) + Quoted(style, s)
    {
      var escaped := AddEscChars(style.printable, s);
      os := os + "\"" + escaped + "\"";
    }

    method PutPair(m: Member)
      requires ByteText(m.name) && Valid(m.value)
      modifies this
      ensures os == old(os) + PairText(style, old(indentationLevel), m) && indentationLevel == old(indentationLevel)
      decreases m, 0
    {
      hide Quoted, Printed, Valid, Space;
      PutString(m.name);
      os := os + Space(style);
      os := os + (":" + Space(style));
      Output(m.value);
    }

    method PutMember(m: Member, more: bool)
      requires ByteText(m.name) && Valid(m.value)
      modifies this
      ensures os == old(os) + MemberText(style, old(indentationLevel), m, more) && indentationLevel == old(indentationLevel)
      decreases m, 1
    {
      hide PairText, Valid, Indent;
      PutIndent();
      PutPair(m);
      if more {
        os := os + ",";
      }
      os := os + NewLine(style);
    }

    method PutElement(x: Value, more: bool)
      requires Valid(x)
      modifies this
      ensures os == old(os) + ElementText(style, old(indentationLevel), x, more) && indentationLevel == old(indentationLevel)
      decreases x, 1
    {
      hide Printed, Valid, Indent;
      PutIndent();
      Output(x);
      if more {
        os := os + ",";
      }
      os := os + NewLine(style);
    }

    method Output(v: Value)
      requires Valid(v)
      modifies this
      ensures os == old(os) + Printed(style, old(indentationLevel), v) && indentationLevel == old(indentationLevel)
      decreases v, 0
    {
      hide ElementsText, MembersText, Quoted, Decimal;
      match v
      case Obj(ms) =>
        os := os + "{" + NewLine(style);
        indentationLevel := indentationLevel + 1;
        PutMembers(ms);
        indentationLevel := indentationLevel - 1;
        PutIndent();
        os := os + "}";
      case Arr(xs) =>
        os := os + "[" + NewLine(style);
        indentationLevel := indentationLevel + 1;
        PutElements(xs);
        indentationLevel := indentationLevel - 1;
        PutIndent();
        os := os + "]";
      case Str(s) =>
        PutString(s);
      case Bool(b) =>
        os := os + if b then "true" else "false";
      case Int(n) =>
        os := os + Decimal(n);
      case Null =>
        os := os + "null";
    }

    method PutElements(xs: seq<Value>)
      requires forall i :: 0 <= i < |xs| ==> Valid(xs[i])
      modifies this
      ensures os == old(os) + ElementsText(style, old(indentationLevel), xs) && indentationLevel == old(indentationLevel)
      decreases xs
    {
      hide ElementText, Valid;
      var i := 0;
      assert xs[0..] == xs;
      while i < |xs|
        invariant 0 <= i <= |xs| && indentationLevel == old(indentationLevel)
        invariant os + ElementsText(style, indentationLevel, xs[i..]) == old(os) + ElementsText(style, indentationLevel, xs)
      {
        assert xs[i..][0] == xs[i] && xs[i..][1..] == xs[i + 1..];
        PutElement(xs[i], i + 1 < |xs|);
        i := i + 1;
      }
    }

    method PutMembers(ms: seq<Member>)
      requires forall i :: 0 <= i < |ms| ==> ByteText(ms[i].name) && Valid(ms[i].value)
      modifies this
      ensures os == old(os) + MembersText(style, old(indentationLevel), ms) && indentationLevel == old(indentationLevel)
      decreases ms
    {
      hide MemberText, Valid;
      var i := 0;
      assert ms[0..] == ms;
      while i < |ms|
        invariant 0 <= i <= |ms| && indentationLevel == old(indentationLevel)
        invariant os + MembersText(style, indentationLevel, ms[i..]) == old(os) + MembersText(style, indentationLevel, ms)
      {
        assert ms[i..][0] == ms[i] && ms[i..][1..] == ms[i + 1..];
        PutMember(ms[i], i + 1 < |ms|);
        i := i + 1;
      }
    }
  }

  method WriteString(style: Style, v: Value) returns (text: string)
    requires Valid(v)
    ensures text == Printed(style, 0, v)
  {
    var g := new Generator(style);
    g.Output(v);
    text := g.os;
  }

  // ---------------------------------------------------------------- two values in text

  function TwoElements(): (v: Value)
    ensures Valid(v)
  {
    Arr([Int(-12), Null])
  }

  function OneMember(): (v: Value)
    ensures Valid(v)
  {
    Obj([Member("a", Null)])
  }

  lemma MinusTwelve()
    ensures Decimal(-12) == "-12"
  {
    assert Digits(1, 10) == [1];
    assert Digits(12, 10) == [2] + Digits(1, 10);
    assert Reverse([2, 1]) == [1, 2];
    assert DigitChar(1) == '1' && DigitChar(2) == '2';
  }

  lemma NameA(style: Style)
    requires style.printable('a')
    ensures ByteText("a") && Quoted(style, "a") == "\"a\""
  {
    assert "a"[1..] == "";
    assert Escaped(style.printable, "a") == EscapedChar(style.printable, 'a') + "";
  }

  lemma ArrayText(style: Style)
    ensures Printed(style, 0, TwoElements()) == "[" + NewLine(style)
      + (Indent(style, 1) + "-12" + "," + NewLine(style) + (Indent(style, 1) + "null" + "" + NewLine(style))) + "" + "]"
  {
    hide NewLine, Decimal;
    MinusTwelve();
    var xs := [Int(-12), Null];
    assert xs[1..] == [Null] && xs[1..][1..] == [];
    assert Indent(style, 0) == "";
    hide Indent;
    assert ElementsText(style, 1, xs[1..]) == Indent(style, 1) + "null" + "" + NewLine(style);
    assert ElementsText(style, 1, xs) == ElementText(style, 1, xs[0], true) + ElementsText(style, 1, xs[1..]);
    assert Printed(style, 1, Int(-12)) == "-12";
  }

  lemma ObjectText(style: Style)
    requires style.printable('a')
    ensures Printed(style, 0, OneMember()) == "{" + NewLine(style)
      + (Indent(style, 1) + ("\"a\"" + Space(style) + (":" + Space(style)) + "null") + "" + NewLine(style)) + "" + "}"
  {
    NameA(style);
    assert Indent(style, 0) == "";
    hide NewLine, Space, Quoted, Indent;
    var ms := [Member("a", Null)];
    assert ms[1..] == [];
    assert MembersText(style, 1, ms) == MemberText(style, 1, ms[0], false) + "";
  }

  lemma CompactIs(printable: char -> bool)
    ensures var style := Style(printable, false);
            NewLine(style) == "" && Space(style) == "" && Indent(style, 1) == ""
  {
  }

  lemma PrettyIs(printable: char -> bool)
    ensures var style := Style(printable, true);
            NewLine(style) == "\n" && Space(style) == " " && Indent(style, 1) == "    "
  {
  }

  /** On one line without spaces, or indented by four with a blank on each side of the colon. */
  lemma TextsAre(printable: char -> bool)
    requires printable('a')
    ensures Printed(Style(printable, false), 0, TwoElements()) == "[-12,null]"
    ensures Printed(Style(printable, true), 0, TwoElements()) == "[\n    -12,\n    null\n]"
    ensures Printed(Style(printable, false), 0, OneMember()) == "{\"a\":null}"
    ensures Printed(Style(printable, true), 0, OneMember()) == "{\n    \"a\" : null\n}"
  {
    hide *;
    CompactArray(printable);
    PrettyArray(printable);
    CompactObject(printable);
    PrettyObject(printable);
  }

  lemma CompactArray(printable: char -> bool)
    ensures Printed(Style(printable, false), 0, TwoElements()) == "[-12,null]"
  {
    hide *;
    ArrayText(Style(printable, false));
    CompactIs(printable);
  }

  lemma PrettyArray(printable: char -> bool)
    ensures Printed(Style(printable, true), 0, TwoElements()) == "[\n    -12,\n    null\n]"
  {
    hide *;
    ArrayText(Style(printable, true));
    PrettyIs(printable);
  }

  lemma CompactObject(printable: char -> bool)
    requires printable('a')
    ensures Printed(Style(printable, false), 0, OneMember()) == "{\"a\":null}"
  {
    hide *;
    ObjectText(Style(printable, false));
    CompactIs(printable);
  }

  lemma PrettyObject(printable: char -> bool)
    requires printable('a')
    ensures Printed(Style(printable, true), 0, OneMember()) == "{\n    \"a\" : null\n}"
  {
    hide *;
    ObjectText(Style(printable, true));
    PrettyIs(printable);
  }
}
