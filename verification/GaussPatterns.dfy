/** The patterns of the timestamp test, read from the characters of the statement, match
    exactly the layouts the dates are proved about. */
module GaussPatterns {
  import opened Text
  import opened GaussText
  import opened GaussDates
  import opened CharClass

  // ----- reading a pattern -----

  /** Where the bracket that opens a class is closed. */
  function ClosedAt(p: string): (i: nat)
    ensures i <= |p|
  {
    if p == [] || p[0] == ']' then 0 else 1 + ClosedAt(p[1..])
  }

  /** The class a pattern begins with, and what follows it: a bracketed one, or a single
      character. */
  function FirstClass(p: string): (r: (string, string))
    requires p != []
    ensures |r.1| < |p|
  {
    if p[0] == '[' && ClosedAt(p) < |p| then (p[1..ClosedAt(p)], p[ClosedAt(p) + 1..]) else ([p[0]], p[1..])
  }

  /** A count in braces, once if there is none. */
  function FirstCount(p: string): (r: (nat, string))
    ensures |r.1| <= |p|
  {
    if |p| >= 3 && p[0] == '{' && Digit(p[1]) && p[2] == '}' then (Ord(p[1]), p[3..]) else (1, p)
  }

  /** The whole text matches the pattern between `^` and `$`. */
  predicate PatternMatches(p: string, s: string)
    decreases |p|
  {
    if p == [] then s == []
    else
      var (class_, after) := FirstClass(p);
      var (n, rest) := FirstCount(after);
      n <= |s| && (forall i :: 0 <= i < n ==> InClass(class_, s[i])) && PatternMatches(rest, s[n..])
  }

  // ----- the pieces of the patterns -----

  /** What follows is no count. */
  predicate NoCount(rest: string) {
    rest == [] || rest[0] != '{'
  }

  /** One step of matching. */
  lemma Opened(p: string, class_: string, after: string, n: nat, rest: string, s: string)
    requires p != [] && FirstClass(p) == (class_, after) && FirstCount(after) == (n, rest)
    ensures PatternMatches(p, s) <==>
            n <= |s| && (forall i :: 0 <= i < n ==> InClass(class_, s[i])) && PatternMatches(rest, s[n..])
  {
    hide FirstClass, FirstCount, InClass;
  }

  lemma DigitCount(d: char, rest: string, after: string)
    requires Digit(d) && after == "{" + [d] + "}" + rest
    ensures FirstCount(after) == (Ord(d), rest)
  {
    assert after[0] == '{' && after[1] == d && after[2] == '}' && after[3..] == rest;
  }

  lemma DigitRun(w: Word, d: char, rest: string, s: string)
    requires Digit(d) && Spelled(w) == "[0-9]" + ("{" + [d] + "}")
    ensures PatternMatches(Spelled(w) + rest, s) <==>
            Ord(d) <= |s| && (forall i :: 0 <= i < Ord(d) ==> Digit(s[i])) && PatternMatches(rest, s[Ord(d)..])
  {
    hide Spelled, PatternMatches, FirstClass, FirstCount, InClass, Digit, Ord;
    var p, after := Spelled(w) + rest, "{" + [d] + "}" + rest;
    assert p == "[0-9]" + after;
    DigitClass(p, after);
    DigitCount(d, rest, after);
    Opened(p, "0-9", after, Ord(d), rest, s);
    DigitsAre();
  }

  lemma Digits4(rest: string, s: string)
    ensures PatternMatches(Spelled(D4) + rest, s) <==>
            |s| >= 4 && (forall i :: 0 <= i < 4 ==> Digit(s[i])) && PatternMatches(rest, s[4..])
  {
    DigitRun(D4, '4', rest, s);
    hide PatternMatches, Spelled;
  }

  lemma Digits2(rest: string, s: string)
    ensures PatternMatches(Spelled(D2) + rest, s) <==>
            |s| >= 2 && Digit(s[0]) && Digit(s[1]) && PatternMatches(rest, s[2..])
  {
    DigitRun(D2, '2', rest, s);
    hide PatternMatches, Spelled;
  }

  lemma DigitClass(p: string, after: string)
    requires p == "[0-9]" + after
    ensures FirstClass(p) == ("0-9", after)
  {
    assert p[0] == '[' && p[1] == '0' && p[2] == '-' && p[3] == '9' && p[4] == ']';
    assert p[1..][0] == '0' && p[2..][0] == '-' && p[3..][0] == '9' && p[4..][0] == ']';
    assert ClosedAt(p[4..]) == 0;
    assert ClosedAt(p[3..]) == 1 by { assert p[3..][1..] == p[4..]; }
    assert ClosedAt(p[2..]) == 2 by { assert p[2..][1..] == p[3..]; }
    assert ClosedAt(p[1..]) == 3 by { assert p[1..][1..] == p[2..]; }
    assert p[1..4] == "0-9" && p[5..] == after;
  }

  lemma DigitsAre()
    ensures forall c :: InClass("0-9", c) <==> Digit(c)
  {
    assert "0-9"[3..] == [];
  }

  lemma Separator(w: Word, rest: string, s: string)
    requires (w == DASH || w == COLON) && NoCount(rest)
    ensures PatternMatches(Spelled(w) + rest, s) <==>
            |s| >= 1 && s[0] == Spelled(w)[0] && PatternMatches(rest, s[1..])
  {
    var c := Spelled(w)[0];
    var p := Spelled(w) + rest;
    assert Spelled(w) == [c] && c != '[';
    assert p[0] == c && p[1..] == rest;
    assert FirstClass(p) == ([c], rest);
    assert FirstCount(rest) == (1, rest);
    assert forall d :: InClass([c], d) <==> d == c by {
      assert [c][1..] == [];
    }
    hide FirstClass, FirstCount, InClass, Spelled;
  }

  lemma TOrBlank(rest: string, s: string)
    requires NoCount(rest)
    ensures PatternMatches(Spelled(T_OR_BLANK) + rest, s) <==>
            |s| >= 1 && (s[0] == 'T' || s[0] == ' ') && PatternMatches(rest, s[1..])
  {
    var p := "[T ]" + rest;
    assert Spelled(T_OR_BLANK) + rest == p;
    assert p[1..][0] == 'T' && p[2..][0] == ' ' && p[3..][0] == ']';
    assert ClosedAt(p[3..]) == 0;
    assert ClosedAt(p[2..]) == 1 by { assert p[2..][1..] == p[3..]; }
    assert ClosedAt(p[1..]) == 2 by { assert p[1..][1..] == p[2..]; }
    assert p[1..3] == "T " && p[4..] == rest;
    assert FirstClass(p) == ("T ", rest);
    assert FirstCount(rest) == (1, rest);
    assert forall d :: InClass("T ", d) <==> d == 'T' || d == ' ' by {
      assert "T "[1..] == " " && " "[1..] == [];
    }
    hide FirstClass, FirstCount, InClass, Spelled;
  }

  // ----- the patterns -----

  /** The text of a pattern. */
  function Shape(ws: seq<Word>): string {
    if ws == [] then [] else Spelled(ws[0]) + Shape(ws[1..])
  }

  predicate ShapeWords(ws: seq<Word>) {
    forall i :: 0 <= i < |ws| ==> ws[i] in {D4, D2, DASH, COLON, T_OR_BLANK}
  }

  /** What a piece of a pattern stands for in a layout. */
  function Layout(w: Word): string {
    match w
    case D4 => "9999"
    case D2 => "99"
    case DASH => "-"
    case COLON => ":"
    case T_OR_BLANK => "T"
    case _ => ""
  }

  function Layouts(ws: seq<Word>): string {
    if ws == [] then [] else Layout(ws[0]) + Layouts(ws[1..])
  }

  lemma {:induction false} ShapeOpens(ws: seq<Word>)
    requires ShapeWords(ws)
    ensures NoCount(Shape(ws))
  {
    if ws == [] {
    } else {
      assert ws[0] in {D4, D2, DASH, COLON, T_OR_BLANK};
      assert |Spelled(ws[0])| > 0 && Spelled(ws[0])[0] != '{';
      assert Shape(ws)[0] == Spelled(ws[0])[0];
    }
  }

  /** A pattern matches exactly the texts of its layout. */
  lemma {:induction false} ShapeFits(ws: seq<Word>, s: string)
    requires ShapeWords(ws)
    ensures PatternMatches(Shape(ws), s) <==> Fits(Layouts(ws), s)
    decreases |ws|
  {
    if ws == [] {
    } else {
      assert ShapeWords(ws[1..]);
      var n := |Layout(ws[0])|;
      assert ws[0] in {D4, D2, DASH, COLON, T_OR_BLANK};
      ShapeOpens(ws[1..]);
      FitsParts(Layout(ws[0]), Layouts(ws[1..]), s);
      if n <= |s| {
        ShapeFits(ws[1..], s[n..]);
      }
      PieceFits(ws[0], Shape(ws[1..]), s);
      hide PatternMatches, Fits, Layout, Spelled;
    }
  }

  lemma FitsParts(a: string, b: string, s: string)
    ensures Fits(a + b, s) <==> |a| <= |s| && Fits(a, s[..|a|]) && Fits(b, s[|a|..])
  {
    if |a| <= |s| {
      assert s == s[..|a|] + s[|a|..];
      forall i | 0 <= i < |a| ensures (a + b)[i] == a[i] && s[i] == s[..|a|][i] {
      }
      forall i | 0 <= i < |b| ensures (a + b)[|a| + i] == b[i] && (|a| + i < |s| ==> s[|a| + i] == s[|a|..][i]) {
      }
      if Fits(a, s[..|a|]) && Fits(b, s[|a|..]) {
        forall i | |a| <= i < |s| ensures (a + b)[i] == b[i - |a|] && s[i] == s[|a|..][i - |a|] {
        }
      }
    }
  }

  lemma LayoutPieces(s: string)
    ensures Fits("9999", s) <==> |s| == 4 && forall i :: 0 <= i < 4 ==> Digit(s[i])
    ensures Fits("99", s) <==> |s| == 2 && Digit(s[0]) && Digit(s[1])
    ensures Fits("-", s) <==> s == "-"
    ensures Fits(":", s) <==> s == ":"
    ensures Fits("T", s) <==> s == "T" || s == " "
  {
    hide Digit;
  }

  lemma PieceFits(w: Word, rest: string, s: string)
    requires w in {D4, D2, DASH, COLON, T_OR_BLANK} && NoCount(rest)
    ensures var n := |Layout(w)|;
      PatternMatches(Spelled(w) + rest, s) <==> n <= |s| && Fits(Layout(w), s[..n]) && PatternMatches(rest, s[n..])
  {
    var n := |Layout(w)|;
    if n <= |s| {
      LayoutPieces(s[..n]);
      assert forall i :: 0 <= i < n ==> s[..n][i] == s[i];
      assert n == 1 ==> s[..n] == [s[0]];
    }
    assert "-" == ['-'] && ":" == [':'] && "T" == ['T'] && " " == [' '];
    assert Spelled(DASH) == "-" && Spelled(COLON) == ":";
    hide PatternMatches, Fits, Spelled, Digit;
    match w
    case D4 => Digits4(rest, s);
    case D2 => Digits2(rest, s);
    case DASH => Separator(DASH, rest, s);
    case COLON => Separator(COLON, rest, s);
    case T_OR_BLANK => TOrBlank(rest, s);
  }

  /** The five patterns of the statement match exactly the five layouts. */
  lemma PatternsFit(s: string)
    ensures PatternMatches(Shape([D4, DASH, D2]), s) <==> Fits(MONTH, s)
    ensures PatternMatches(Shape(DATE), s) <==> Fits(DAY, s)
    ensures PatternMatches(Shape(DATE + [T_OR_BLANK, D2]), s) <==> Fits(HOUR, s)
    ensures PatternMatches(Shape(DATE + [T_OR_BLANK, D2, COLON, D2]), s) <==> Fits(MINUTE, s)
    ensures PatternMatches(Shape(DATE + [T_OR_BLANK, D2, COLON, D2, COLON, D2]), s) <==> Fits(SECOND, s)
  {
    LayoutsAre();
    assert ShapeWords([D4, DASH, D2]) && ShapeWords(DATE + [T_OR_BLANK, D2, COLON, D2, COLON, D2]);
    hide PatternMatches, Shape, Fits, Layouts, MONTH, DAY, HOUR, MINUTE, SECOND;
    ShapeFits([D4, DASH, D2], s);
    ShapeFits(DATE, s);
    ShapeFits(DATE + [T_OR_BLANK, D2], s);
    ShapeFits(DATE + [T_OR_BLANK, D2, COLON, D2], s);
    ShapeFits(DATE + [T_OR_BLANK, D2, COLON, D2, COLON, D2], s);
  }

  lemma {:induction false} LayoutsConcat(a: seq<Word>, b: seq<Word>)
    ensures Layouts(a + b) == Layouts(a) + Layouts(b)
  {
    if a == [] {
      assert a + b == b;
    } else {
      assert (a + b)[1..] == a[1..] + b;
      LayoutsConcat(a[1..], b);
    }
  }

  lemma OneLayout(w: Word)
    ensures Layouts([w]) == Layout(w)
  {
    assert [w][1..] == [];
  }

  lemma LayoutTexts()
    ensures MONTH == "9999" + "-" + "99" && DAY == MONTH + ("-" + "99") && HOUR == DAY + ("T" + "99")
    ensures MINUTE == HOUR + (":" + "99") && SECOND == MINUTE + (":" + "99")
  {
  }

  lemma LayoutsAre()
    ensures Layouts([D4, DASH, D2]) == MONTH && Layouts(DATE) == DAY && Layouts(DATE + [T_OR_BLANK, D2]) == HOUR
    ensures Layouts(DATE + [T_OR_BLANK, D2, COLON, D2]) == MINUTE
    ensures Layouts(DATE + [T_OR_BLANK, D2, COLON, D2, COLON, D2]) == SECOND
  {
    LayoutTexts();
    var month, day, hour, more: seq<Word> := [D4, DASH, D2], [DASH, D2], [T_OR_BLANK, D2], [COLON, D2];
    TwoLayouts(DASH, D2);
    TwoLayouts(T_OR_BLANK, D2);
    TwoLayouts(COLON, D2);
    OneLayout(D4);
    LayoutsConcat([D4], day);
    assert month == [D4] + day && DATE == month + day;
    assert DATE + hour + more == DATE + [T_OR_BLANK, D2, COLON, D2];
    assert DATE + hour + more + more == DATE + [T_OR_BLANK, D2, COLON, D2, COLON, D2];
    hide Layouts, MONTH, DAY, HOUR, MINUTE, SECOND, DATE;
    LayoutsConcat(month, day);
    LayoutsConcat(DATE, hour);
    LayoutsConcat(DATE + hour, more);
    LayoutsConcat(DATE + hour + more, more);
  }

  lemma TwoLayouts(v: Word, w: Word)
    ensures Layouts([v, w]) == Layout(v) + Layout(w)
  {
    OneLayout(w);
    assert [v, w][1..] == [w];
  }
}
