/**
 grep's matcher against the language its patterns denote.

 A C string is the sequence of its characters before the terminating NUL.
 */
module Grep {

  // ----- regular languages

  datatype Regex = Empty | Char(c: char) | Any | Star(r: Regex) | Cat(first: Regex, rest: Regex)

  /** The language of a regular expression. */
  ghost predicate In(r: Regex, w: string)
    decreases r, |w|
  {
    match r
    case Empty => w == []
    case Char(c) => w == [c]
    case Any => |w| == 1
    case Star(s) => w == [] || exists k :: 0 < k <= |w| && In(s, w[..k]) && In(r, w[k..])
    case Cat(s, t) => exists k :: 0 <= k <= |w| && In(s, w[..k]) && In(t, w[k..])
  }

  // ----- patterns

  /** A pattern after any '^': its expression, and whether a '$' ends it. */
  datatype Pattern = Pattern(r: Regex, end: bool)

  function One(c: char): Regex {
    if c == '.' then Any else Char(c)
  }

  /** c* is a star even of '^', '$' or '*'; '$' anchors only as the last character; a leading '*' stands for itself. */
  function Parse(re: string): Pattern {
    if re == "" then Pattern(Empty, false)
    else if |re| >= 2 && re[1] == '*' then
      var p := Parse(re[2..]); Pattern(Cat(Star(One(re[0])), p.r), p.end)
    else if re == "$" then Pattern(Empty, true)
    else
      var p := Parse(re[1..]); Pattern(Cat(One(re[0]), p.r), p.end)
  }

  /** Some beginning of text is in the pattern's language; all of text, if the pattern ends in '$'. */
  ghost predicate Here(re: string, text: string) {
    exists j :: 0 <= j <= |text| && (Parse(re).end ==> j == |text|) && In(Parse(re).r, text[..j])
  }

  /** Some substring of text is in the pattern's language, at the start with '^', at the end with '$'. */
  ghost predicate Matches(re: string, text: string) {
    if re != "" && re[0] == '^' then Found(Parse(re[1..]), text, 0)
    else exists i :: 0 <= i <= |text| && Found(Parse(re), text, i)
  }

  ghost predicate Found(p: Pattern, text: string, i: nat)
    requires i <= |text|
  {
    exists j :: i <= j <= |text| && (p.end ==> j == |text|) && In(p.r, text[i..j])
  }

  lemma FoundIsHere(re: string, text: string, i: nat)
    requires i <= |text|
    ensures Found(Parse(re), text, i) <==> Here(re, text[i..])
  {
    var p := Parse(re);
    forall j: nat | i <= j <= |text|
      ensures text[i..j] == text[i..][..j - i]
    {
    }
    if Here(re, text[i..]) {
      var j :| 0 <= j <= |text| - i && (p.end ==> j == |text| - i) && In(p.r, text[i..][..j]);
      assert In(p.r, text[i..i + j]);
    }
  }

  predicate Fits(c: char, x: char) {
    c == '.' || c == x
  }

  predicate AllFit(c: char, w: string) {
    forall k :: 0 <= k < |w| ==> Fits(c, w[k])
  }

  lemma OneIs(c: char, w: string)
    ensures In(One(c), w) <==> |w| == 1 && Fits(c, w[0])
  {
  }

  /** The star of a single character. */
  lemma {:induction false} StarIs(c: char, w: string)
    ensures In(Star(One(c)), w) <==> AllFit(c, w)
    decreases |w|
  {
    if w != [] {
      OneIs(c, w[..1]);
      StarIs(c, w[1..]);
      if AllFit(c, w) {
        assert In(One(c), w[..1]) && In(Star(One(c)), w[1..]);
      }
      if In(Star(One(c)), w) {
        var k :| 0 < k <= |w| && In(One(c), w[..k]) && In(Star(One(c)), w[k..]);
        OneIs(c, w[..k]);
        assert k == 1;
        assert w[0] == w[..1][0];
        forall l | 0 <= l < |w|
          ensures Fits(c, w[l])
        {
          if l > 0 {
            assert w[l] == w[1..][l - 1];
          }
        }
      }
    }
  }

  /** matchhere's case of an ordinary character. */
  lemma HereOne(re: string, text: string)
    requires re != "" && !(|re| >= 2 && re[1] == '*') && re != "$"
    ensures Here(re, text) <==> text != "" && Fits(re[0], text[0]) && Here(re[1..], text[1..])
  {
    var c, p := re[0], Parse(re[1..]);
    if Here(re, text) {
      var j :| 0 <= j <= |text| && (p.end ==> j == |text|) && In(Cat(One(c), p.r), text[..j]);
      var k :| 0 <= k <= j && In(One(c), text[..j][..k]) && In(p.r, text[..j][k..]);
      OneIs(c, text[..j][..k]);
      assert k == 1 && text[..j][1..] == text[1..][..j - 1];
    }
    if text != "" && Fits(c, text[0]) && Here(re[1..], text[1..]) {
      var j :| 0 <= j <= |text| - 1 && (p.end ==> j == |text| - 1) && In(p.r, text[1..][..j]);
      var w := text[..j + 1];
      OneIs(c, w[..1]);
      assert w[1..] == text[1..][..j];
      assert In(One(c), w[..1]) && In(p.r, w[1..]);
      assert In(Cat(One(c), p.r), w);
    }
  }

  /** k characters that fit c, then re. */
  ghost predicate StarHere(c: char, re: string, text: string, k: nat) {
    k <= |text| && AllFit(c, text[..k]) && Here(re, text[k..])
  }

  /** matchhere's case of a star. */
  lemma HereStar(re: string, text: string)
    requires |re| >= 2 && re[1] == '*'
    ensures Here(re, text) <==> exists k :: StarHere(re[0], re[2..], text, k)
  {
    var c, p := re[0], Parse(re[2..]);
    if Here(re, text) {
      var j :| 0 <= j <= |text| && (p.end ==> j == |text|) && In(Cat(Star(One(c)), p.r), text[..j]);
      var k :| 0 <= k <= j && In(Star(One(c)), text[..j][..k]) && In(p.r, text[..j][k..]);
      StarIs(c, text[..j][..k]);
      assert text[..j][..k] == text[..k] && text[..j][k..] == text[k..][..j - k];
      assert StarHere(c, re[2..], text, k);
    }
    if k: nat :| StarHere(c, re[2..], text, k) {
      var j :| 0 <= j <= |text| - k && (p.end ==> j == |text| - k) && In(p.r, text[k..][..j]);
      var w := text[..k + j];
      assert w[..k] == text[..k] && w[k..] == text[k..][..j];
      StarIs(c, w[..k]);
      assert In(Star(One(c)), w[..k]) && In(p.r, w[k..]);
      assert In(Cat(Star(One(c)), p.r), w);
    }
  }

  // ----- the matcher

  /** match: 1 exactly if some substring is in the pattern's language. */
  method Match(re: string, text: string) returns (found: bool)
    ensures found <==> Matches(re, text)
  {
    if re != "" && re[0] == '^' {
      FoundIsHere(re[1..], text, 0);
      found := MatchHere(re[1..], text);
      assert text[0..] == text;
      return;
    }
    var i := 0;
    while i <= |text|
      invariant i <= |text| + 1
      invariant forall l: nat :: l < i && l <= |text| ==> !Found(Parse(re), text, l)
    {
      FoundIsHere(re, text, i);
      found := MatchHere(re, text[i..]);
      if found {
        return true;
      }
      i := i + 1;
    }
    found := false;
  }

  /** matchhere: the pattern at the beginning of text. */
  method MatchHere(re: string, text: string) returns (found: bool)
    ensures found <==> Here(re, text)
    decreases 2 * |re|, |text|
  {
    if re == "" {
      assert In(Empty, text[..0]);
      return true;
    }
    if |re| >= 2 && re[1] == '*' {
      HereStar(re, text);
      found := MatchStar(re[0], re[2..], text);
      return;
    }
    if re == "$" {
      assert text[..|text|] == text;
      return text == "";
    }
    HereOne(re, text);
    if text != "" && (re[0] == '.' || re[0] == text[0]) {
      found := MatchHere(re[1..], text[1..]);
      return;
    }
    return false;
  }

  /** matchstar: c* and then the pattern at the beginning of text. */
  method MatchStar(c: char, re: string, text: string) returns (found: bool)
    ensures found <==> exists k :: StarHere(c, re, text, k)
    decreases 2 * |re| + 1, |text|
  {
    var i := 0;
    while true
      invariant i <= |text| && AllFit(c, text[..i])
      invariant forall k: nat :: k < i ==> !StarHere(c, re, text, k)
      decreases |text| - i
    {
      found := MatchHere(re, text[i..]);
      if found {
        assert StarHere(c, re, text, i);
        return true;
      }
      if !(i < |text| && (text[i] == c || c == '.')) {
        break;
      }
      i := i + 1;
    }
    forall k: nat | k > i
      ensures !StarHere(c, re, text, k)
    {
      assert k <= |text| ==> text[..k][i] == text[i];
    }
    found := false;
  }

  predicate Plain(re: string) {
    forall k :: 0 <= k < |re| ==> re[k] !in {'^', '$', '.', '*'}
  }

  /** A plain word, with or without '$' behind it, stands for itself; the '$' anchors it. */
  lemma {:induction false} PlainLanguage(re: string, tail: string, w: string)
    requires Plain(re) && (tail == "" || tail == "$")
    ensures Parse(re + tail).end == (tail == "$") && (In(Parse(re + tail).r, w) <==> w == re)
    decreases |re|
  {
    if re == "" {
      assert re + tail == tail;
    } else {
      var c, p := re[0], Parse(re[1..] + tail);
      assert (re + tail)[1..] == re[1..] + tail;
      assert Parse(re + tail) == Pattern(Cat(One(c), p.r), p.end);
      forall k | 0 <= k <= |w|
        ensures In(One(c), w[..k]) && In(p.r, w[k..]) <==> k == 1 && w == re
      {
        PlainLanguage(re[1..], tail, w[k..]);
        OneIs(c, w[..k]);
        assert w == w[..k] + w[k..] && re == re[..1] + re[1..];
      }
      PlainLanguage(re[1..], tail, w);
      if w == re {
        assert In(One(c), w[..1]) && In(p.r, w[1..]);
      }
    }
  }

  lemma PlainFound(re: string, tail: string, text: string, i: nat)
    requires Plain(re) && (tail == "" || tail == "$") && i <= |text|
    ensures Found(Parse(re + tail), text, i) <==>
            i + |re| <= |text| && text[i..i + |re|] == re && (tail == "$" ==> i + |re| == |text|)
  {
    var p := Parse(re + tail);
    PlainLanguage(re, tail, re);
    forall j | i <= j <= |text|
      ensures In(p.r, text[i..j]) <==> text[i..j] == re
    {
      PlainLanguage(re, tail, text[i..j]);
    }
    if i + |re| <= |text| && text[i..i + |re|] == re && (tail == "$" ==> i + |re| == |text|) {
      assert In(p.r, text[i..i + |re|]);
    }
  }

  /** Without special characters, a pattern matches exactly the texts that contain it. */
  lemma PlainPattern(re: string, text: string)
    requires Plain(re)
    ensures Matches(re, text) <==> exists i, j :: 0 <= i <= j <= |text| && text[i..j] == re
  {
    assert re + "" == re;
    forall i | 0 <= i <= |text|
      ensures Found(Parse(re), text, i) <==> i + |re| <= |text| && text[i..i + |re|] == re
    {
      PlainFound(re, "", text, i);
    }
    if i, j :| 0 <= i <= j <= |text| && text[i..j] == re {
      assert Found(Parse(re), text, i);
    }
  }

  /** '$' after a plain pattern anchors it to the end of the text, '^' before it to the beginning, and both to the whole text. */
  lemma AnchoredPattern(re: string, text: string)
    requires Plain(re)
    ensures Matches(re + "$", text) <==> |re| <= |text| && text[|text| - |re|..] == re
    ensures Matches("^" + re, text) <==> re <= text
    ensures Matches("^" + (re + "$"), text) <==> text == re
  {
    forall i | 0 <= i <= |text|
      ensures Found(Parse(re + "$"), text, i) <==> i + |re| == |text| && text[i..] == re
    {
      PlainFound(re, "$", text, i);
    }
    if |re| <= |text| && text[|text| - |re|..] == re {
      assert Found(Parse(re + "$"), text, |text| - |re|);
    }
    assert re != "" ==> (re + "$")[0] == re[0];
    PlainFound(re, "", text, 0);
    assert re + "" == re && ("^" + re)[1..] == re && ("^" + (re + "$"))[1..] == re + "$";
    assert text[0..] == text;
  }
}
