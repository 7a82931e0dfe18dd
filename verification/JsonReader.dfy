/** The JSON grammar as a recursive-descent reader that emits builder actions, and the round trip
    through the generator's text. */
module JsonReader {
  import opened Ascii
  import opened Database
  import opened JsonBuilder
  import opened JsonText
  import opened JsonValue
  import Radix
  import opened Words

  /** A rule matches and leaves the rest of the text, or does not match, or reports an error. A real
      number, which is not part of this model, is reported as such. */
  datatype Outcome = Match(events: seq<Event>, rest: string) | NoMatch | Throw(reason: string)

  // ---------------------------------------------------------------- strings and numbers

  /** Where the closing quote is; a backslash takes the next character with it. */
  function Closing(t: string): (k: Option<nat>)
    ensures k.Some? ==> k.value < |t|
    decreases |t|
  {
    if t == "" then None
    else if t[0] == '"' then Some(0)
    else
      var n := if t[0] == '\\' then 2 else 1;
      if |t| < n then None
      else
        match Closing(t[n..])
        case None => None
        case Some(k) => Some(n + k)
  }

  /** The text between the quotes, and what follows them. */
  function StringToken(t: string): (r: Option<(string, string)>)
    ensures r.Some? ==> |r.value.1| + 2 <= |t|
  {
    if t == "" || t[0] != '"' then None
    else
      match Closing(t[1..])
      case None => None
      case Some(k) => Some((Unescaped(t[1..1 + k]), t[k + 2..]))
  }

  predicate IsDigit(c: char) {
    '0' <= c <= '9'
  }

  function DigitRun(t: string): (n: nat)
    ensures n <= |t| && (forall i :: 0 <= i < n ==> IsDigit(t[i])) && (n < |t| ==> !IsDigit(t[n]))
  {
    if t == "" || !IsDigit(t[0]) then 0
    else
      var m := DigitRun(t[1..]);
      assert forall i :: 1 <= i < m + 1 ==> t[i] == t[1..][i - 1];
      m + 1
  }

  function DigitValues(t: string): (d: seq<nat>)
    requires forall i :: 0 <= i < |t| ==> IsDigit(t[i])
    ensures |d| == |t| && forall i :: 0 <= i < |t| ==> d[i] == t[i] as int - '0' as int
  {
    seq<nat>(|t|, i requires 0 <= i < |t| && IsDigit(t[i]) => t[i] as int - '0' as int)
  }

  function DecimalValue(t: string): nat
    requires forall i :: 0 <= i < |t| ==> IsDigit(t[i])
  {
    Radix.Value(Radix.Reverse(DigitValues(t)), 10)
  }

  predicate IsSign(c: char) {
    c == '+' || c == '-'
  }

  /** After n digits: a dot with a digit on some side of it, or an exponent. */
  predicate LooksReal(u: string, n: nat)
    requires n <= |u|
  {
    var w := u[n..];
    || (w != "" && w[0] == '.' && (n > 0 || (|w| > 1 && IsDigit(w[1]))))
    || (n > 0 && |w| > 1 && (w[0] == 'e' || w[0] == 'E') && (IsDigit(w[1]) || (|w| > 2 && IsSign(w[1]) && IsDigit(w[2]))))
  }

  function ParseNumber(t: string): (o: Outcome)
    requires t != ""
    ensures o.Match? ==> |o.rest| < |t|
  {
    var signed := IsSign(t[0]);
    var u := if signed then t[1..] else t;
    var n := DigitRun(u);
    if LooksReal(u, n) then Throw("real number")
    else if n == 0 then NoMatch
    else
      var magnitude: int := DecimalValue(u[..n]);
      var v := if t[0] == '-' then -magnitude else magnitude;
      if INT_MIN <= v <= INT_MAX || (!signed && v < WORD_LIMIT) then Match([NewValue(Int(v))], u[n..]) else NoMatch
  }

  // ---------------------------------------------------------------- the grammar

  function ParseWord(t: string, word: string, v: Value): (o: Outcome)
    requires word != ""
    ensures o.Match? ==> |o.rest| < |t|
  {
    if word <= t then Match([NewValue(v)], t[|word|..]) else NoMatch
  }

  function ParseValue(s: string): (o: Outcome)
    ensures o.Match? ==> |o.rest| < |s|
    decreases |s|, 2
  {
    var t := SpacesSkipped(s);
    if t == "" then NoMatch
    else if t[0] == '"' then
      match StringToken(t)
      case None => NoMatch
      case Some(r) => Match([NewValue(Str(r.0))], r.1)
    else if IsDigit(t[0]) || IsSign(t[0]) || t[0] == '.' then ParseNumber(t)
    else if t[0] == '{' then ParseObject(t)
    else if t[0] == '[' then ParseArray(t)
    else if t[0] == 't' then ParseWord(t, "true", Bool(true))
    else if t[0] == 'f' then ParseWord(t, "false", Bool(false))
    else ParseWord(t, "null", Null)
  }

  /** Optional contents, then the closing character or an error. */
  function Close(open: Event, inner: Outcome, start: string, close: char, end: Event, reason: string): (o: Outcome)
    requires inner.Match? ==> |inner.rest| <= |start|
    ensures o.Match? ==> |o.rest| < |start|
  {
    if inner.Throw? then inner
    else
      var events := if inner.Match? then inner.events else [];
      var u := SpacesSkipped(if inner.Match? then inner.rest else start);
      if u != "" && u[0] == close then Match([open] + events + [end], u[1..]) else Throw(reason)
  }

  function ParseArray(t: string): (o: Outcome)
    requires t != "" && t[0] == '['
    ensures o.Match? ==> |o.rest| < |t|
    decreases |t|, 1
  {
    Close(BeginArr, ParseElements(t[1..]), t[1..], ']', EndArr, "not an array")
  }

  function ParseElements(s: string): (o: Outcome)
    ensures o.Match? ==> |o.rest| <= |s|
    decreases |s|, 3
  {
    match ParseValue(s)
    case Match(events, rest) => Then(events, MoreElements(rest))
    case other => other
  }

  function Then(events: seq<Event>, next: Outcome): Outcome {
    if next.Match? then Match(events + next.events, next.rest) else next
  }

  function MoreElements(s: string): (o: Outcome)
    ensures !o.NoMatch? && (o.Match? ==> |o.rest| <= |s|)
    decreases |s|, 3
  {
    var u := SpacesSkipped(s);
    if u == "" || u[0] != ',' then Match([], s)
    else
      match ParseValue(u[1..])
      case Match(events, rest) => Then(events, MoreElements(rest))
      case NoMatch => Match([], s)
      case Throw(r) => Throw(r)
  }

  function ParseObject(t: string): (o: Outcome)
    requires t != "" && t[0] == '{'
    ensures o.Match? ==> |o.rest| < |t|
    decreases |t|, 1
  {
    Close(BeginObj, ParseMembers(t[1..]), t[1..], '}', EndObj, "not an object")
  }

  function ParseMembers(s: string): (o: Outcome)
    ensures o.Match? ==> |o.rest| <= |s|
    decreases |s|, 3
  {
    match ParsePair(s)
    case Match(events, rest) => Then(events, MoreMembers(rest))
    case other => other
  }

  function ParsePair(s: string): (o: Outcome)
    ensures o.Match? ==> |o.rest| < |s|
    decreases |s|, 2
  {
    match StringToken(SpacesSkipped(s))
    case None => NoMatch
    case Some(r) =>
      var u := SpacesSkipped(r.1);
      if u == "" || u[0] != ':' then Throw("no colon in pair")
      else
        match ParseValue(u[1..])
        case Match(events, rest) => Match([NewName(r.0)] + events, rest)
        case NoMatch => Throw("not a value")
        case Throw(e) => Throw(e)
  }

  function MoreMembers(s: string): (o: Outcome)
    ensures !o.NoMatch? && (o.Match? ==> |o.rest| <= |s|)
    decreases |s|, 3
  {
    var u := SpacesSkipped(s);
    if u == "" || u[0] != ',' then Match([], s)
    else
      match ParsePair(u[1..])
      case Match(events, rest) => Then(events, MoreMembers(rest))
      case NoMatch => Match([], s)
      case Throw(r) => Throw(r)
  }

  /** The value a text starts with, if it reads as one; what follows it is ignored. */
  function Read(text: string): Option<Value> {
    match ParseValue(text)
    case Match(events, _) =>
      if Run(EMPTY, events).Some? then Some(Run(EMPTY, events).value.root) else None
    case _ => None
  }

  method ReadString(text: string) returns (ok: bool, value: Value)
    ensures ok <==> Read(text).Some?
    ensures ok ==> value == Read(text).value
  {
    value := Null;
    var o := ParseValue(text);
    if !o.Match? {
      return false, value;
    }
    var actions := new SemanticActions();
    var i := 0;
    assert o.events[0..] == o.events;
    while i < |o.events|
      invariant 0 <= i <= |o.events|
      invariant Run(actions.State(), o.events[i..]) == Run(EMPTY, o.events)
    {
      assert o.events[i..][0] == o.events[i] && o.events[i..][1..] == o.events[i + 1..];
      if Act(actions.State(), o.events[i]).None? {
        return false, value;
      }
      actions.Perform(o.events[i]);
      i := i + 1;
    }
    ok, value := true, actions.root;
  }

  // ---------------------------------------------------------------- tokens of printed text

  lemma {:induction false} ClosingSkips(piece: string, rest: string)
    requires forall i :: 0 <= i < |piece| ==> piece[i] != '"' && piece[i] != '\\'
    ensures Closing(piece + rest) == match Closing(rest) case None => None case Some(k) => Some(|piece| + k)
    decreases |piece|
  {
    if piece == "" {
      assert piece + rest == rest;
    } else {
      assert (piece + rest)[1..] == piece[1..] + rest;
      ClosingSkips(piece[1..], rest);
    }
  }

  lemma ClosingEscape(c: char, rest: string)
    ensures Closing(['\\', c] + rest) == match Closing(rest) case None => None case Some(k) => Some(2 + k)
  {
    assert (['\\', c] + rest)[2..] == rest;
  }

  /** No escaped character ends a string. */
  lemma ClosingOne(printable: char -> bool, c: char, rest: string)
    requires c as int < 0x100
    ensures Closing(EscapedChar(printable, c) + rest)
            == match Closing(rest) case None => None case Some(k) => Some(|EscapedChar(printable, c)| + k)
  {
    if ShortEscape(c) != "" {
      assert ShortEscape(c) == ['\\', ShortEscape(c)[1]];
      ClosingEscape(ShortEscape(c)[1], rest);
    } else if printable(c) {
      ClosingSkips([c], rest);
    } else {
      var s := NonPrintable(c as int);
      assert s == ['\\', 'u'] + s[2..];
      assert s + rest == ['\\', 'u'] + (s[2..] + rest);
      ClosingEscape('u', s[2..] + rest);
      ClosingSkips(s[2..], rest);
    }
  }

  lemma QuoteCloses(printable: char -> bool, rest: string)
    ensures Closing("\"" + rest) == Some(0) && Escaped(printable, "") == ""
  {
  }

  lemma {:induction false} ClosingEscaped(printable: char -> bool, s: string, rest: string)
    requires ByteText(s)
    ensures Closing(Escaped(printable, s) + "\"" + rest) == Some(|Escaped(printable, s)|)
    decreases |s|
  {
    hide *;
    if s == "" {
      QuoteCloses(printable, rest);
      assert "" + "\"" + rest == "\"" + rest;
    } else {
      EscapedHead(printable, s);
      var first, others := EscapedChar(printable, s[0]), Escaped(printable, s[1..]);
      ClosingEscaped(printable, s[1..], rest);
      ClosingOne(printable, s[0], others + "\"" + rest);
      assert (first + others) + "\"" + rest == first + (others + "\"" + rest);
    }
  }

  lemma EscapedHead(printable: char -> bool, s: string)
    requires ByteText(s) && s != ""
    ensures s[0] as int < 0x100 && ByteText(s[1..])
    ensures Escaped(printable, s) == EscapedChar(printable, s[0]) + Escaped(printable, s[1..])
  {
  }

  lemma QuotedToken(style: Style, s: string, rest: string)
    requires ByteText(s)
    ensures StringToken(Quoted(style, s) + rest) == Some((s, rest))
  {
    hide Closing, Escaped, Unescaped;
    var e := Escaped(style.printable, s);
    var t := Quoted(style, s) + rest;
    assert t[1..] == e + "\"" + rest;
    ClosingEscaped(style.printable, s, rest);
    assert t[1..1 + |e|] == e && t[|e| + 2..] == rest;
    EscapeRoundTrip(style.printable, s);
  }

  /** What may follow a printed value: nothing a number could go on with. */
  predicate Ends(tail: string) {
    tail == "" || tail[0] in {',', ']', '}', '\n', ' '}
  }

  lemma {:induction false} RunOfDigits(s: string, tail: string)
    requires Ends(tail) && forall i :: 0 <= i < |s| ==> IsDigit(s[i])
    ensures DigitRun(s + tail) == |s|
    decreases |s|
  {
    if s == "" {
      assert s + tail == tail;
    } else {
      assert (s + tail)[1..] == s[1..] + tail;
      RunOfDigits(s[1..], tail);
    }
  }

  lemma ZeroText()
    ensures DecimalValue("0") == 0
  {
    assert Radix.Reverse(DigitValues("0")) == [0];
    assert Radix.Value([0], 10) == 0 + 10 * Radix.Value([0][1..], 10);
  }

  lemma UnsignedText(n: nat)
    ensures var s := Unsigned(n);
            s != "" && (forall i :: 0 <= i < |s| ==> IsDigit(s[i])) && DecimalValue(s) == n
  {
    var d := Radix.Digits(n, 10);
    Radix.DigitsAreTrimmed(n, 10);
    Radix.ValueOfDigits(n, 10);
    if n == 0 {
      ZeroText();
    } else {
      hide Radix.Digits, Radix.Value;
      DigitsText(d);
    }
  }

  lemma DigitsText(d: seq<nat>)
    requires forall i :: 0 <= i < |d| ==> d[i] < 10
    ensures var s := DecimalChars(Radix.Reverse(d));
            (forall i :: 0 <= i < |s| ==> IsDigit(s[i])) && Radix.Reverse(DigitValues(s)) == d
  {
    var s := DecimalChars(Radix.Reverse(d));
    assert forall i :: 0 <= i < |s| ==> s[i] == DigitChar(d[|d| - 1 - i]);
  }

  lemma DecimalNumber(n: int, tail: string)
    requires INT_MIN <= n < WORD_LIMIT && Ends(tail)
    ensures ParseNumber(Decimal(n) + tail) == Match([NewValue(Int(n))], tail)
    ensures IsDigit(Decimal(n)[0]) || IsSign(Decimal(n)[0])
  {
    var magnitude: nat := if n < 0 then -n else n;
    var s := Unsigned(magnitude);
    UnsignedText(magnitude);
    RunOfDigits(s, tail);
    hide Unsigned, DigitRun, DecimalValue;
    NumberRead(n, s, tail);
  }

  lemma NumberRead(n: int, s: string, tail: string)
    requires INT_MIN <= n < WORD_LIMIT && Ends(tail)
    requires s != "" && DigitRun(s + tail) == |s| && forall i :: 0 <= i < |s| ==> IsDigit(s[i])
    requires DecimalValue(s) == if n < 0 then -n else n
    ensures ParseNumber((if n < 0 then "-" + s else s) + tail) == Match([NewValue(Int(n))], tail)
  {
    hide DigitRun, DecimalValue;
    var u := s + tail;
    assert u[..|s|] == s && u[|s|..] == tail;
    assert !LooksReal(u, |s|);
    if n < 0 {
      var t := "-" + s + tail;
      assert t[0] == '-' && t[1..] == u;
    } else {
      assert IsDigit(u[0]);
    }
  }

  // ---------------------------------------------------------------- reading printed text

  lemma SkipsBlank(w: string, s: string)
    requires Blank(w) && s != "" && !IsSpace(s[0])
    ensures SpacesSkipped(w + s) == s && SpacesSkipped(s) == s
  {
    SkipBlank(w, s);
  }

  lemma {:induction false} IndentIsBlank(style: Style, level: nat)
    ensures Blank(Indent(style, level)) && Blank(NewLine(style)) && Blank(Space(style))
    ensures Blank(NewLine(style) + Indent(style, level))
    ensures !style.pretty ==> NewLine(style) + Indent(style, level) == ""
  {
    if level > 0 {
      IndentIsBlank(style, level - 1);
    }
  }

  /** What a printed value starts with decides the rule that reads it. */
  lemma FirstChar(style: Style, level: nat, v: Value)
    requires Valid(v)
    ensures Printed(style, level, v) != "" && !IsSpace(Printed(style, level, v)[0])
  {
    if v.Int? {
      DecimalNumber(v.n, "");
      assert Decimal(v.n) + "" == Decimal(v.n);
    }
    hide ElementsText, MembersText, Escaped, Decimal;
  }

  /** What follows an element: a comma when more come, then the others and the end. */
  function Following(style: Style, level: nat, xs: seq<Value>, end: string): string
    requires forall i :: 0 <= i < |xs| ==> Valid(xs[i])
  {
    Separator(|xs| > 0) + NewLine(style) + ElementsText(style, level, xs) + end
  }

  function FollowingMembers(style: Style, level: nat, ms: seq<Member>, end: string): string
    requires forall i :: 0 <= i < |ms| ==> ByteText(ms[i].name) && Valid(ms[i].value)
  {
    Separator(|ms| > 0) + NewLine(style) + MembersText(style, level, ms) + end
  }

  /** The end of a container, however it is indented. */
  predicate Closes(style: Style, end: string) {
    Ends(NewLine(style) + end) && SpacesSkipped(NewLine(style) + end) != ""
    && SpacesSkipped(NewLine(style) + end)[0] in {']', '}'}
  }

  lemma ClosingText(style: Style, level: nat, c: char, tail: string)
    requires c == ']' || c == '}'
    ensures var end := Indent(style, level) + [c] + tail;
            Closes(style, end) && SpacesSkipped(NewLine(style) + end) == [c] + tail
  {
    var w := NewLine(style) + Indent(style, level);
    IndentIsBlank(style, level);
    assert NewLine(style) + (Indent(style, level) + [c] + tail) == w + ([c] + tail);
    SkipsBlank(w, [c] + tail);
    if !style.pretty {
      assert w + ([c] + tail) == [c] + tail;
    }
  }

  lemma FollowingEnds(style: Style, level: nat, xs: seq<Value>, end: string)
    requires Closes(style, end) && forall i :: 0 <= i < |xs| ==> Valid(xs[i])
    ensures Ends(Following(style, level, xs, end))
    ensures xs == [] ==> Following(style, level, xs, end) == NewLine(style) + end
  {
    if xs == [] {
      assert Following(style, level, xs, end) == NewLine(style) + end;
    }
  }

  lemma FollowingMembersEnds(style: Style, level: nat, ms: seq<Member>, end: string)
    requires Closes(style, end) && forall i :: 0 <= i < |ms| ==> ByteText(ms[i].name) && Valid(ms[i].value)
    ensures Ends(FollowingMembers(style, level, ms, end))
    ensures ms == [] ==> FollowingMembers(style, level, ms, end) == NewLine(style) + end
  {
    if ms == [] {
      assert FollowingMembers(style, level, ms, end) == NewLine(style) + end;
    }
  }

  lemma ElementsUnfold(style: Style, level: nat, xs: seq<Value>, end: string)
    requires xs != [] && forall i :: 0 <= i < |xs| ==> Valid(xs[i])
    ensures NewLine(style) + ElementsText(style, level, xs) + end
            == (NewLine(style) + Indent(style, level)) + (Printed(style, level, xs[0]) + Following(style, level, xs[1..], end))
  {
    hide *;
    ElementsHead(style, level, xs);
    FollowingIs(style, level, xs[1..], end);
    Regroup(NewLine(style), Indent(style, level), Printed(style, level, xs[0]), Separator(|xs| > 1),
            ElementsText(style, level, xs[1..]), end);
  }

  lemma Regroup(a: string, b: string, c: string, d: string, rest: string, end: string)
    ensures a + (b + c + d + a + rest) + end == (a + b) + (c + (d + a + rest + end))
  {
  }

  lemma ElementsHead(style: Style, level: nat, xs: seq<Value>)
    requires xs != [] && forall i :: 0 <= i < |xs| ==> Valid(xs[i])
    ensures forall i :: 0 <= i < |xs[1..]| ==> Valid(xs[1..][i])
    ensures |xs[1..]| > 0 <==> |xs| > 1
    ensures ElementsText(style, level, xs)
            == Indent(style, level) + Printed(style, level, xs[0]) + Separator(|xs| > 1) + NewLine(style)
               + ElementsText(style, level, xs[1..])
  {
    hide Printed, Valid, Indent;
    assert forall i :: 0 <= i < |xs[1..]| ==> xs[1..][i] == xs[i + 1];
  }

  lemma FollowingIs(style: Style, level: nat, xs: seq<Value>, end: string)
    requires forall i :: 0 <= i < |xs| ==> Valid(xs[i])
    ensures Following(style, level, xs, end) == Separator(|xs| > 0) + NewLine(style) + ElementsText(style, level, xs) + end
  {
  }

  lemma MembersHead(style: Style, level: nat, ms: seq<Member>)
    requires ms != [] && forall i :: 0 <= i < |ms| ==> ByteText(ms[i].name) && Valid(ms[i].value)
    ensures forall i :: 0 <= i < |ms[1..]| ==> ByteText(ms[1..][i].name) && Valid(ms[1..][i].value)
    ensures |ms[1..]| > 0 <==> |ms| > 1
    ensures MembersText(style, level, ms)
            == Indent(style, level) + PairText(style, level, ms[0]) + Separator(|ms| > 1) + NewLine(style)
               + MembersText(style, level, ms[1..])
  {
    hide PairText, Valid, Indent;
    assert forall i :: 0 <= i < |ms[1..]| ==> ms[1..][i] == ms[i + 1];
  }

  lemma FollowingMembersIs(style: Style, level: nat, ms: seq<Member>, end: string)
    requires forall i :: 0 <= i < |ms| ==> ByteText(ms[i].name) && Valid(ms[i].value)
    ensures FollowingMembers(style, level, ms, end)
            == Separator(|ms| > 0) + NewLine(style) + MembersText(style, level, ms) + end
  {
  }

  lemma MembersUnfold(style: Style, level: nat, ms: seq<Member>, end: string)
    requires ms != [] && forall i :: 0 <= i < |ms| ==> ByteText(ms[i].name) && Valid(ms[i].value)
    ensures NewLine(style) + MembersText(style, level, ms) + end
            == (NewLine(style) + Indent(style, level)) + (PairText(style, level, ms[0]) + FollowingMembers(style, level, ms[1..], end))
  {
    hide *;
    MembersHead(style, level, ms);
    FollowingMembersIs(style, level, ms[1..], end);
    Regroup(NewLine(style), Indent(style, level), PairText(style, level, ms[0]), Separator(|ms| > 1),
            MembersText(style, level, ms[1..]), end);
  }

  // ---------------------------------------------------------------- rules on text whose first token is known

  lemma ValueAt(w: string, t: string)
    requires Blank(w) && t != "" && !IsSpace(t[0])
    ensures t[0] == '{' ==> ParseValue(w + t) == ParseObject(t)
    ensures t[0] == '[' ==> ParseValue(w + t) == ParseArray(t)
    ensures t[0] == 't' ==> ParseValue(w + t) == ParseWord(t, "true", Bool(true))
    ensures t[0] == 'f' ==> ParseValue(w + t) == ParseWord(t, "false", Bool(false))
    ensures t[0] == 'n' ==> ParseValue(w + t) == ParseWord(t, "null", Null)
    ensures IsDigit(t[0]) || IsSign(t[0]) ==> ParseValue(w + t) == ParseNumber(t)
    ensures t[0] == '"' && StringToken(t).Some? ==>
              ParseValue(w + t) == Match([NewValue(Str(StringToken(t).value.0))], StringToken(t).value.1)
    ensures t[0] in {']', '}'} ==> ParseValue(w + t) == NoMatch
  {
    SkipsBlank(w, t);
    hide ParseObject, ParseArray, ParseNumber, StringToken, SpacesSkipped;
  }

  lemma WordRead(word: string, v: Value, tail: string)
    requires word != ""
    ensures ParseWord(word + tail, word, v) == Match([NewValue(v)], tail)
  {
  }

  /** A scalar reads back from its text. */
  lemma ScalarRead(style: Style, level: nat, v: Value, w: string, tail: string)
    requires Valid(v) && !IsContainer(v) && Ends(tail) && Blank(w)
    ensures ParseValue(w + (Printed(style, level, v) + tail)) == Match(Events(v), tail)
  {
    var t := Printed(style, level, v) + tail;
    FirstChar(style, level, v);
    ValueAt(w, t);
    hide ParseValue, ParseNumber, ParseWord, StringToken, Quoted, Decimal, Blank, SpacesSkipped;
    match v {
      case Str(s) =>
        QuotedToken(style, s, tail);
        assert t == Quoted(style, s) + tail;
        QuoteFirst(style, s);
      case Bool(b) => WordRead(if b then "true" else "false", v, tail);
      case Int(n) => DecimalNumber(n, tail);
      case Null => WordRead("null", v, tail);
    }
  }

  lemma QuoteFirst(style: Style, s: string)
    requires ByteText(s)
    ensures Quoted(style, s) != "" && Quoted(style, s)[0] == '"'
  {
  }

  /** Once the contents and the white space before the closing character are read, a container is. */
  lemma Closed(open: Event, inner: Outcome, start: string, close: char, end: Event, reason: string, events: seq<Event>, after: string, tail: string)
    requires inner.Match? ==> |inner.rest| <= |start| && inner == Match(events, after)
    requires inner.NoMatch? ==> start == after && events == []
    requires !inner.Throw? && SpacesSkipped(after) == [close] + tail
    ensures Close(open, inner, start, close, end, reason) == Match([open] + events + [end], tail)
  {
    hide SpacesSkipped;
    assert ([close] + tail)[1..] == tail;
  }

  /** A comma and more elements read as the elements do. */
  lemma CommaThen(t: string)
    requires ParseElements(t).Match?
    ensures MoreElements("," + t) == ParseElements(t)
  {
    assert ("," + t)[1..] == t;
    hide ParseValue;
  }

  lemma CommaThenMembers(t: string)
    requires ParseMembers(t).Match?
    ensures MoreMembers("," + t) == ParseMembers(t)
  {
    assert ("," + t)[1..] == t;
    hide ParsePair;
  }

  lemma NoMore(s: string)
    requires SpacesSkipped(s) != "" && SpacesSkipped(s)[0] in {']', '}'}
    ensures MoreElements(s) == Match([], s) && MoreMembers(s) == Match([], s)
    ensures ParseElements(s) == NoMatch && ParseMembers(s) == NoMatch
  {
    var t := SpacesSkipped(s);
    SkippedSplit(s);
    var w :| Blank(w) && s == w + t;
    ValueAt(w, t);
    hide ParseValue, SpacesSkipped;
  }

  // ---------------------------------------------------------------- every value reads back

  lemma {:induction false} ValueRead(style: Style, level: nat, v: Value, w: string, tail: string)
    requires Valid(v) && Ends(tail) && Blank(w)
    ensures ParseValue(w + (Printed(style, level, v) + tail)) == Match(Events(v), tail)
    decreases v, 0
  {
    match v {
      case Obj(ms) =>
        ClosingText(style, level, '}', tail);
        MembersRead(style, level + 1, ms, Indent(style, level) + ['}'] + tail);
        ObjectRead(style, level, ms, w, tail);
      case Arr(xs) =>
        ClosingText(style, level, ']', tail);
        ElementsRead(style, level + 1, xs, Indent(style, level) + [']'] + tail);
        ArrayRead(style, level, xs, w, tail);
      case _ => ScalarRead(style, level, v, w, tail);
    }
  }

  /** The contents of an array: what they read as, and where that leaves off. */
  ghost predicate ElementsReadAs(style: Style, level: nat, xs: seq<Value>, end: string)
    requires forall i :: 0 <= i < |xs| ==> Valid(xs[i])
  {
    var t := NewLine(style) + ElementsText(style, level, xs) + end;
    ParseElements(t) == if xs == [] then NoMatch else Match(ElementEvents(xs), NewLine(style) + end)
  }

  ghost predicate MembersReadAs(style: Style, level: nat, ms: seq<Member>, end: string)
    requires forall i :: 0 <= i < |ms| ==> ByteText(ms[i].name) && Valid(ms[i].value)
  {
    var t := NewLine(style) + MembersText(style, level, ms) + end;
    ParseMembers(t) == if ms == [] then NoMatch else Match(MemberEvents(ms), NewLine(style) + end)
  }

  lemma ArrayRead(style: Style, level: nat, xs: seq<Value>, w: string, tail: string)
    requires Valid(Arr(xs)) && Blank(w)
    requires ElementsReadAs(style, level + 1, xs, Indent(style, level) + [']'] + tail)
    ensures ParseValue(w + (Printed(style, level, Arr(xs)) + tail)) == Match(Events(Arr(xs)), tail)
  {
    var end := Indent(style, level) + [']'] + tail;
    var body := NewLine(style) + ElementsText(style, level + 1, xs) + end;
    var t := Printed(style, level, Arr(xs)) + tail;
    hide ElementsText, ElementEvents, ParseElements, Indent, ParseValue, Close;
    assert t == "[" + body by {
      Bracket("[", NewLine(style), ElementsText(style, level + 1, xs), Indent(style, level), "]", tail);
    }
    assert t[1..] == body;
    ValueAt(w, t);
    ClosingText(style, level, ']', tail);
    assert xs == [] ==> body == NewLine(style) + end by { NoElements(style, level + 1); }
    assert xs == [] ==> ElementEvents(xs) == [] by { NoElements(style, level + 1); }
    Closed(BeginArr, ParseElements(body), body, ']', EndArr, "not an array", ElementEvents(xs), NewLine(style) + end, tail);
  }

  lemma NoElements(style: Style, level: nat)
    ensures ElementsText(style, level, []) == "" && ElementEvents([]) == []
    ensures MembersText(style, level, []) == "" && MemberEvents([]) == []
  {
  }

  lemma Bracket(open: string, a: string, b: string, c: string, close: string, tail: string)
    ensures open + a + b + c + close + tail == open + (a + b + (c + close + tail))
  {
  }

  lemma ObjectRead(style: Style, level: nat, ms: seq<Member>, w: string, tail: string)
    requires Valid(Obj(ms)) && Blank(w)
    requires MembersReadAs(style, level + 1, ms, Indent(style, level) + ['}'] + tail)
    ensures ParseValue(w + (Printed(style, level, Obj(ms)) + tail)) == Match(Events(Obj(ms)), tail)
  {
    var end := Indent(style, level) + ['}'] + tail;
    var body := NewLine(style) + MembersText(style, level + 1, ms) + end;
    var t := Printed(style, level, Obj(ms)) + tail;
    hide MembersText, MemberEvents, ParseMembers, Indent, ParseValue, Close;
    assert t == "{" + body by {
      Bracket("{", NewLine(style), MembersText(style, level + 1, ms), Indent(style, level), "}", tail);
    }
    assert t[1..] == body;
    ValueAt(w, t);
    ClosingText(style, level, '}', tail);
    assert ms == [] ==> body == NewLine(style) + end by { NoElements(style, level + 1); }
    assert ms == [] ==> MemberEvents(ms) == [] by { NoElements(style, level + 1); }
    Closed(BeginObj, ParseMembers(body), body, '}', EndObj, "not an object", MemberEvents(ms), NewLine(style) + end, tail);
  }

  lemma {:induction false} ElementsRead(style: Style, level: nat, xs: seq<Value>, end: string)
    requires Closes(style, end) && forall i :: 0 <= i < |xs| ==> Valid(xs[i])
    ensures ElementsReadAs(style, level, xs, end)
    decreases xs, 1
  {
    var t := NewLine(style) + ElementsText(style, level, xs) + end;
    if xs == [] {
      NoElements(style, level);
      assert t == NewLine(style) + end;
      NoMore(t);
    } else {
      hide *;
      ElementsUnfold(style, level, xs, end);
      IndentIsBlank(style, level);
      ElementsHead(style, level, xs);
      FollowingEnds(style, level, xs[1..], end);
      ValueRead(style, level, xs[0], NewLine(style) + Indent(style, level), Following(style, level, xs[1..], end));
      MoreRead(style, level, xs[1..], end);
      ElementsAre(style, level, xs, end);
    }
  }

  lemma ElementsAre(style: Style, level: nat, xs: seq<Value>, end: string)
    requires xs != [] && forall i :: 0 <= i < |xs| ==> Valid(xs[i])
    requires forall i :: 0 <= i < |xs[1..]| ==> Valid(xs[1..][i])
    requires var t := NewLine(style) + ElementsText(style, level, xs) + end;
             ParseValue(t) == Match(Events(xs[0]), Following(style, level, xs[1..], end))
    requires MoreElements(Following(style, level, xs[1..], end)) == Match(ElementEvents(xs[1..]), NewLine(style) + end)
    ensures ElementsReadAs(style, level, xs, end)
  {
    hide ParseValue, MoreElements, Following, ElementsText, Events, Valid;
  }

  lemma {:induction false} MoreRead(style: Style, level: nat, xs: seq<Value>, end: string)
    requires Closes(style, end) && forall i :: 0 <= i < |xs| ==> Valid(xs[i])
    ensures MoreElements(Following(style, level, xs, end)) == Match(ElementEvents(xs), NewLine(style) + end)
    decreases xs, 2
  {
    if xs == [] {
      FollowingEnds(style, level, xs, end);
      NoElements(style, level);
      NoMore(NewLine(style) + end);
    } else {
      ElementsRead(style, level, xs, end);
      var t := NewLine(style) + ElementsText(style, level, xs) + end;
      hide ParseElements, MoreElements, ElementsText, ElementEvents, Valid, Closes;
      assert Following(style, level, xs, end) == "," + t;
      CommaThen(t);
    }
  }

  lemma {:induction false} MembersRead(style: Style, level: nat, ms: seq<Member>, end: string)
    requires Closes(style, end) && forall i :: 0 <= i < |ms| ==> ByteText(ms[i].name) && Valid(ms[i].value)
    ensures MembersReadAs(style, level, ms, end)
    decreases ms, 1
  {
    var t := NewLine(style) + MembersText(style, level, ms) + end;
    if ms == [] {
      NoElements(style, level);
      assert t == NewLine(style) + end;
      NoMore(t);
    } else {
      hide *;
      MembersUnfold(style, level, ms, end);
      IndentIsBlank(style, level);
      MembersHead(style, level, ms);
      FollowingMembersEnds(style, level, ms[1..], end);
      PairRead(style, level, ms[0], NewLine(style) + Indent(style, level), FollowingMembers(style, level, ms[1..], end));
      MoreMembersRead(style, level, ms[1..], end);
      MembersAre(style, level, ms, end);
    }
  }

  lemma MembersAre(style: Style, level: nat, ms: seq<Member>, end: string)
    requires ms != [] && forall i :: 0 <= i < |ms| ==> ByteText(ms[i].name) && Valid(ms[i].value)
    requires forall i :: 0 <= i < |ms[1..]| ==> ByteText(ms[1..][i].name) && Valid(ms[1..][i].value)
    requires var t := NewLine(style) + MembersText(style, level, ms) + end;
             ParsePair(t) == Match([NewName(ms[0].name)] + Events(ms[0].value), FollowingMembers(style, level, ms[1..], end))
    requires MoreMembers(FollowingMembers(style, level, ms[1..], end)) == Match(MemberEvents(ms[1..]), NewLine(style) + end)
    ensures MembersReadAs(style, level, ms, end)
  {
    hide ParsePair, MoreMembers, FollowingMembers, MembersText, Events, Valid;
  }

  lemma {:induction false} MoreMembersRead(style: Style, level: nat, ms: seq<Member>, end: string)
    requires Closes(style, end) && forall i :: 0 <= i < |ms| ==> ByteText(ms[i].name) && Valid(ms[i].value)
    ensures MoreMembers(FollowingMembers(style, level, ms, end)) == Match(MemberEvents(ms), NewLine(style) + end)
    decreases ms, 2
  {
    if ms == [] {
      FollowingMembersEnds(style, level, ms, end);
      NoElements(style, level);
      NoMore(NewLine(style) + end);
    } else {
      MembersRead(style, level, ms, end);
      var t := NewLine(style) + MembersText(style, level, ms) + end;
      hide ParseMembers, MoreMembers, MembersText, MemberEvents, Valid, Closes;
      assert FollowingMembers(style, level, ms, end) == "," + t;
      CommaThenMembers(t);
    }
  }

  lemma {:induction false} PairRead(style: Style, level: nat, m: Member, w: string, tail: string)
    requires ByteText(m.name) && Valid(m.value) && Ends(tail) && Blank(w)
    ensures ParsePair(w + (PairText(style, level, m) + tail)) == Match([NewName(m.name)] + Events(m.value), tail)
    decreases m, 0
  {
    hide *;
    IndentIsBlank(style, level);
    ValueRead(style, level, m.value, Space(style), tail);
    PairIs(style, level, m, w, tail);
  }

  lemma PairIs(style: Style, level: nat, m: Member, w: string, tail: string)
    requires ByteText(m.name) && Valid(m.value) && Blank(w) && Blank(Space(style))
    requires ParseValue(Space(style) + (Printed(style, level, m.value) + tail)) == Match(Events(m.value), tail)
    ensures ParsePair(w + (PairText(style, level, m) + tail)) == Match([NewName(m.name)] + Events(m.value), tail)
  {
    var q, sp, value := Quoted(style, m.name), Space(style), Printed(style, level, m.value);
    var rest := sp + (value + tail);
    hide *;
    PairTextIs(style, level, m);
    Regrouped(q, sp, value, tail);
    QuoteFirst(style, m.name);
    QuotedToken(style, m.name, sp + (":" + rest));
    TokensRead(w, q, m.name, sp, rest, Events(m.value), tail);
  }

  /** A string, a colon and a value, with blanks before each of the first two. */
  lemma TokensRead(w: string, q: string, name: string, sp: string, rest: string, events: seq<Event>, tail: string)
    requires Blank(w) && Blank(sp) && q != "" && q[0] == '"'
    requires StringToken(q + (sp + (":" + rest))) == Some((name, sp + (":" + rest)))
    requires ParseValue(rest) == Match(events, tail)
    ensures ParsePair(w + (q + (sp + (":" + rest)))) == Match([NewName(name)] + events, tail)
  {
    hide *;
    ColonIsNoSpace();
    var colon := ":" + rest;
    var after := sp + colon;
    var t := q + after;
    SkipsBlank(w, t);
    SkipsBlank(sp, colon);
    PairParsed(w + t, t, name, after, rest, events, tail);
  }

  lemma ColonIsNoSpace()
    ensures !IsSpace(':') && !IsSpace('"')
  {
  }

  lemma PairTextIs(style: Style, level: nat, m: Member)
    requires ByteText(m.name) && Valid(m.value)
    ensures PairText(style, level, m)
            == Quoted(style, m.name) + Space(style) + (":" + Space(style)) + Printed(style, level, m.value)
  {
    hide Quoted, Printed, Space, Valid;
  }

  lemma PairParsed(s: string, t: string, name: string, after: string, rest: string, events: seq<Event>, tail: string)
    requires SpacesSkipped(s) == t && StringToken(t) == Some((name, after))
    requires SpacesSkipped(after) == ":" + rest && ParseValue(rest) == Match(events, tail)
    ensures ParsePair(s) == Match([NewName(name)] + events, tail)
  {
    hide SpacesSkipped, StringToken, ParseValue;
    assert (":" + rest)[1..] == rest;
  }

  lemma Regrouped(q: string, sp: string, v: string, tail: string)
    ensures q + sp + (":" + sp) + v + tail == q + (sp + (":" + (sp + (v + tail))))
  {
  }

  /** Every value, written compactly or indented and whatever counts as printable, reads back as
      itself: integers with their sign and size, strings byte for byte, members and elements in order. */
  lemma WriteThenRead(style: Style, v: Value)
    requires Valid(v)
    ensures Read(Printed(style, 0, v)) == Some(v)
  {
    var text := Printed(style, 0, v);
    ValueRead(style, 0, v, "", "");
    hide Printed, ParseValue, Run, Events;
    assert "" + (text + "") == text;
    BuildsValue(v);
  }
}
