/** Byte strings. Each `char` stands for one byte, so that chunk boundaries may fall
    anywhere; the trimming functions recognise the UTF-8 encoding of white space. */
module Text {

  predicate AsciiSpace(c: char)
  {
    c == ' ' || '\t' <= c <= '\r'
  }

  /** U+0085 and U+00A0. */
  predicate TwoByteSpace(a: char, b: char)
  {
    a == '\U{C2}' && (b == '\U{85}' || b == '\U{A0}')
  }

  /** U+1680, U+2000 to U+200A, U+2028, U+2029, U+202F, U+205F and U+3000. */
  predicate ThreeByteSpace(a: char, b: char, c: char)
  {
    || (a == '\U{E1}' && b == '\U{9A}' && c == '\U{80}')
    || (a == '\U{E2}' && b == '\U{80}'
        && ('\U{80}' <= c <= '\U{8A}' || c == '\U{A8}' || c == '\U{A9}' || c == '\U{AF}'))
    || (a == '\U{E2}' && b == '\U{81}' && c == '\U{9F}')
    || (a == '\U{E3}' && b == '\U{80}' && c == '\U{80}')
  }

  /** The width of the white space character that starts `s`, or 0. */
  function LeadingSpace(s: string): (w: nat)
    ensures w <= |s|
  {
    if |s| >= 1 && AsciiSpace(s[0]) then 1
    else if |s| >= 2 && TwoByteSpace(s[0], s[1]) then 2
    else if |s| >= 3 && ThreeByteSpace(s[0], s[1], s[2]) then 3
    else 0
  }

  /** The width of the white space character that ends `s`, or 0. */
  function TrailingSpace(s: string): (w: nat)
    ensures w <= |s|
  {
    var n := |s|;
    if n >= 1 && AsciiSpace(s[n - 1]) then 1
    else if n >= 2 && TwoByteSpace(s[n - 2], s[n - 1]) then 2
    else if n >= 3 && ThreeByteSpace(s[n - 3], s[n - 2], s[n - 1]) then 3
    else 0
  }

  function TrimLeft(s: string): string
  {
    if LeadingSpace(s) == 0 then s else TrimLeft(s[LeadingSpace(s)..])
  }

  function TrimRight(s: string): string
  {
    if TrailingSpace(s) == 0 then s else TrimRight(s[..|s| - TrailingSpace(s)])
  }

  function TrimSpace(s: string): string
  {
    TrimRight(TrimLeft(s))
  }

  predicate Trimmed(s: string)
  {
    LeadingSpace(s) == 0 && TrailingSpace(s) == 0
  }

  predicate Contains(s: string, c: char)
  {
    exists i :: 0 <= i < |s| && s[i] == c
  }

  /** The first position of `c`, or the length of `s`. */
  function IndexOf(s: string, c: char): (i: nat)
    ensures i <= |s|
    ensures i < |s| ==> s[i] == c
    ensures forall j | 0 <= j < i :: s[j] != c
  {
    if s == "" || s[0] == c then 0 else 1 + IndexOf(s[1..], c)
  }

  lemma IndexAfter(a: string, c: char, b: string)
    requires !Contains(a, c)
    ensures IndexOf(a + [c] + b, c) == |a|
  {
    var s := a + [c] + b;
    assert s[|a|] == c;
    assert forall j | 0 <= j < |a| :: s[j] == a[j];
  }

  lemma {:induction false} TrimLeftIsSuffix(s: string)
    ensures LeadingSpace(TrimLeft(s)) == 0
    ensures |TrimLeft(s)| <= |s| && TrimLeft(s) == s[|s| - |TrimLeft(s)|..]
  {
    if LeadingSpace(s) != 0 {
      TrimLeftIsSuffix(s[LeadingSpace(s)..]);
    }
  }

  lemma {:induction false} TrimRightIsPrefix(s: string)
    ensures TrailingSpace(TrimRight(s)) == 0
    ensures |TrimRight(s)| <= |s| && TrimRight(s) == s[..|TrimRight(s)|]
    ensures LeadingSpace(s) == 0 ==> LeadingSpace(TrimRight(s)) == 0
  {
    var w := TrailingSpace(s);
    if w != 0 {
      var t := s[..|s| - w];
      if LeadingSpace(s) == 0 {
        assert LeadingSpace(t) == 0;
      }
      TrimRightIsPrefix(t);
    }
  }

  /** TrimSpace returns a trimmed part of its argument, and a trimmed string as it is. */
  lemma TrimSpaceTrims(s: string)
    ensures Trimmed(TrimSpace(s))
    ensures Trimmed(s) ==> TrimSpace(s) == s
    ensures forall c | Contains(TrimSpace(s), c) :: Contains(s, c)
  {
    TrimLeftIsSuffix(s);
    TrimRightIsPrefix(TrimLeft(s));
    var l := TrimLeft(s);
    var t := TrimRight(l);
    forall c | Contains(t, c)
      ensures Contains(s, c)
    {
      var i :| 0 <= i < |t| && t[i] == c;
      assert l[i] == c && s[|s| - |l| + i] == c;
    }
  }

  /** One white space character in UTF-8. */
  predicate Space(x: string)
  {
    || x in {" ", "\t", "\n", "\U{0B}", "\U{0C}", "\r", "\U{C2}\U{85}", "\U{C2}\U{A0}", "\U{E1}\U{9A}\U{80}",
             "\U{E2}\U{80}\U{A8}", "\U{E2}\U{80}\U{A9}", "\U{E2}\U{80}\U{AF}", "\U{E2}\U{81}\U{9F}", "\U{E3}\U{80}\U{80}"}
    || (|x| == 3 && x[0] == '\U{E2}' && x[1] == '\U{80}' && '\U{80}' <= x[2] <= '\U{8A}')
  }

  function Spaces(xs: seq<string>): string
  {
    if xs == [] then "" else xs[0] + Spaces(xs[1..])
  }

  predicate AllSpace(xs: seq<string>)
  {
    forall x | x in xs :: Space(x)
  }

  /** At either end of a string, a white space character is recognised as a whole. */
  lemma SpaceAtEnds(x: string, s: string)
    requires Space(x)
    ensures LeadingSpace(x + s) == |x| && TrailingSpace(s + x) == |x|
    ensures !('\U{80}' <= x[0] <= '\U{BF}')
  {
    var l, r := x + s, s + x;
    assert forall i | 0 <= i < |x| :: l[i] == x[i] && r[|s| + i] == x[i];
  }

  lemma {:induction false} TrimLeftSpaces(xs: seq<string>, s: string)
    requires AllSpace(xs)
    ensures TrimLeft(Spaces(xs) + s) == TrimLeft(s)
    decreases |xs|
  {
    if xs == [] {
      assert "" + s == s;
    } else {
      var rest := Spaces(xs[1..]) + s;
      assert xs[0] in xs && Spaces(xs) + s == xs[0] + rest;
      SpaceAtEnds(xs[0], rest);
      TrimLeftSpaces(xs[1..], s);
      assert (xs[0] + rest)[|xs[0]|..] == rest;
    }
  }

  lemma {:induction false} SpacesSnoc(xs: seq<string>, x: string)
    ensures Spaces(xs + [x]) == Spaces(xs) + x
    decreases |xs|
  {
    if xs == [] {
      assert Spaces([x]) == x + Spaces([]);
    } else {
      assert (xs + [x])[1..] == xs[1..] + [x];
      SpacesSnoc(xs[1..], x);
    }
  }

  lemma {:induction false} TrimRightSpaces(s: string, xs: seq<string>)
    requires AllSpace(xs)
    ensures TrimRight(s + Spaces(xs)) == TrimRight(s)
    decreases |xs|
  {
    if xs == [] {
      assert s + "" == s;
    } else {
      var shorter, x := xs[..|xs| - 1], xs[|xs| - 1];
      assert x in xs && xs == shorter + [x];
      SpacesSnoc(shorter, x);
      var before := s + Spaces(shorter);
      assert s + Spaces(xs) == before + x;
      SpaceAtEnds(x, before);
      TrimRightSpaces(s, shorter);
      assert (before + x)[..|before|] == before;
    }
  }

  /** What starts without a white space character does so in front of white space too. */
  lemma NoSpaceFormed(t: string, xs: seq<string>)
    requires t != "" && LeadingSpace(t) == 0 && AllSpace(xs)
    ensures LeadingSpace(t + Spaces(xs)) == 0
  {
    if xs != [] {
      SpaceAtEnds(xs[0], Spaces(xs[1..]));
      assert xs[0] in xs && Spaces(xs)[0] == xs[0][0];
    }
    var s := t + Spaces(xs);
    assert forall i | 0 <= i < |t| :: s[i] == t[i];
    assert |s| > |t| ==> s[|t|] == Spaces(xs)[0];
  }

  lemma TrimBlank(r: seq<string>)
    requires AllSpace(r)
    ensures TrimSpace(Spaces(r)) == ""
  {
    TrimLeftSpaces(r, "");
    assert Spaces(r) + "" == Spaces(r);
    assert TrimLeft("") == "" && TrimRight("") == "";
  }

  lemma TrimBehind(t: string, r: seq<string>)
    requires t != "" && AllSpace(r) && Trimmed(t)
    ensures TrimSpace(t + Spaces(r)) == t
  {
    NoSpaceFormed(t, r);
    assert TrimLeft(t + Spaces(r)) == t + Spaces(r);
    TrimRightSpaces(t, r);
  }

  /** TrimSpace takes away exactly the white space around a trimmed string. */
  lemma TrimAround(l: seq<string>, t: string, r: seq<string>)
    requires AllSpace(l) && AllSpace(r) && Trimmed(t)
    ensures TrimSpace(Spaces(l) + t + Spaces(r)) == t
  {
    Regroup(Spaces(l), t, Spaces(r));
    TrimLeftSpaces(l, t + Spaces(r));
    if t == "" {
      TrimBlank(r);
      assert t + Spaces(r) == Spaces(r);
    } else {
      TrimBehind(t, r);
    }
  }

  // ---------------------------------------------------------------------- lines

  const LF := '\n'

  /** The LF-terminated lines of `s`, without their LF. An unterminated tail is not a line. */
  function CompleteLines(s: string): seq<string>
    decreases |s|
  {
    var i := IndexOf(s, LF);
    if i == |s| then [] else [s[..i]] + CompleteLines(s[i + 1..])
  }

  /** What follows the last LF. */
  function Tail(s: string): string
    decreases |s|
  {
    var i := IndexOf(s, LF);
    if i == |s| then s else Tail(s[i + 1..])
  }

  /** strings.Split at LF: the complete lines and what follows them. */
  function SplitLines(s: string): seq<string>
  {
    CompleteLines(s) + [Tail(s)]
  }

  lemma FirstLine(line: string, rest: string)
    requires !Contains(line, LF)
    ensures CompleteLines(line + [LF] + rest) == [line] + CompleteLines(rest)
    ensures Tail(line + [LF] + rest) == Tail(rest)
  {
    var s := line + [LF] + rest;
    IndexAfter(line, LF, rest);
    assert s[..|line|] == line && s[|line| + 1..] == rest;
  }

  /** Splitting a stream anywhere: the second part continues the first one's tail. */
  lemma {:induction false} LinesOfConcat(a: string, b: string)
    ensures CompleteLines(a + b) == CompleteLines(a) + CompleteLines(Tail(a) + b)
    ensures Tail(a + b) == Tail(Tail(a) + b)
    decreases |a|
  {
    var i := IndexOf(a, LF);
    if i < |a| {
      var line, rest := a[..i], a[i + 1..];
      LinesOfConcat(rest, b);
      FirstLine(line, rest + b);
      SplitAt(a, b, i);
      Regroup([line], CompleteLines(rest), CompleteLines(Tail(rest) + b));
    }
  }

  lemma SplitAt(a: string, b: string, i: nat)
    requires i < |a|
    ensures a + b == a[..i] + [a[i]] + (a[i + 1..] + b)
  {
  }

  lemma Regroup<T>(a: seq<T>, b: seq<T>, c: seq<T>)
    ensures a + (b + c) == a + b + c
  {
  }
}
