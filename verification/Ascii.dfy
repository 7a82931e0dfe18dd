/** White space in text. */
module Ascii {
  predicate IsSpace(c: char) {
    c == ' ' || '\t' <= c <= '\r'
  }

  function SpacesSkipped(s: string): (r: string)
    ensures |r| <= |s| && (r != [] ==> !IsSpace(r[0]))
  {
    if s == [] || !IsSpace(s[0]) then s else SpacesSkipped(s[1..])
  }

  ghost predicate Blank(s: string) {
    forall i :: 0 <= i < |s| ==> IsSpace(s[i])
  }

  lemma {:induction false} SkipBlank(w: string, s: string)
    requires Blank(w) && (s == [] || !IsSpace(s[0]))
    ensures SpacesSkipped(w + s) == s
    decreases |w|
  {
    if w == [] {
      assert w + s == s;
    } else {
      assert (w + s)[1..] == w[1..] + s;
      SkipBlank(w[1..], s);
    }
  }

  lemma {:induction false} SkippedSplit(s: string)
    ensures exists w :: Blank(w) && s == w + SpacesSkipped(s)
    decreases |s|
  {
    if s == [] || !IsSpace(s[0]) {
      assert Blank([]) && s == [] + SpacesSkipped(s);
    } else {
      SkippedSplit(s[1..]);
      var w :| Blank(w) && s[1..] == w + SpacesSkipped(s[1..]);
      assert Blank([s[0]] + w) && s == [s[0]] + w + SpacesSkipped(s);
    }
  }
}
