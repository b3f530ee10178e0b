/** The JSON text of a list of plain texts, as a database renders it, and which texts can
    be found in it. */
module ListText {
  import opened Text

  /** A character that JSON writes as itself. */
  predicate PlainChar(c: char) {
    c != '"' && c != '\\' && c >= ' '
  }

  predicate PlainText(s: string) {
    forall i :: 0 <= i < |s| ==> PlainChar(s[i])
  }

  predicate AllPlain(xs: seq<string>) {
    forall i :: 0 <= i < |xs| ==> PlainText(xs[i])
  }

  /** What follows the closing quote of an item. */
  function Rest(xs: seq<string>): string {
    if xs == [] then "]" else ", \"" + (xs[0] + ("\"" + Rest(xs[1..])))
  }

  /** `["a", "b"]`. */
  function Listed(xs: seq<string>): string {
    if xs == [] then "[]" else "[\"" + (xs[0] + ("\"" + Rest(xs[1..])))
  }

  /** The text is longer than any of its items. */
  lemma {:induction false} RestLonger(xs: seq<string>)
    ensures |Rest(xs)| >= 1 && forall i :: 0 <= i < |xs| ==> |xs[i]| < |Rest(xs)|
  {
    if xs == [] {
    } else {
      RestLonger(xs[1..]);
      assert forall i :: 1 <= i < |xs| ==> xs[i] == xs[1..][i - 1];
    }
  }

  lemma ListedLonger(xs: seq<string>)
    ensures forall i :: 0 <= i < |xs| ==> |xs[i]| + 2 <= |Listed(xs)|
  {
    if xs == [] {
    } else {
      RestLonger(xs[1..]);
      assert forall i :: 1 <= i < |xs| ==> xs[i] == xs[1..][i - 1];
    }
  }

  // ----- reading such a text -----

  /** Where one can be in it: before it, behind the bracket, in an item, behind it, behind
      a comma, before the next item, at the end. */
  datatype Place = Start | Opened | Inside | After | Comma | Gap | End

  function Next(q: Place, c: char): Option<Place> {
    match q
    case Start => if c == '[' then Some(Opened) else None
    case Opened => if c == '"' then Some(Inside) else if c == ']' then Some(End) else None
    case Inside => if c == '"' then Some(After) else if PlainChar(c) then Some(Inside) else None
    case After => if c == ',' then Some(Comma) else if c == ']' then Some(End) else None
    case Comma => if c == ' ' then Some(Gap) else None
    case Gap => if c == '"' then Some(Inside) else None
    case End => None
  }

  function Walk(q: Place, s: string): Option<Place>
    decreases |s|
  {
    if s == [] then Some(q)
    else
      var r := Next(q, s[0]);
      if r.None? then None else Walk(r.value, s[1..])
  }

  lemma {:induction false} WalkConcat(q: Place, a: string, b: string)
    ensures Walk(q, a + b) == var r := Walk(q, a); if r.None? then None else Walk(r.value, b)
    decreases |a|
  {
    hide Next;
    if a == [] {
      assert a + b == b;
    } else {
      assert (a + b)[1..] == a[1..] + b;
      var r := Next(q, a[0]);
      if r.Some? {
        WalkConcat(r.value, a[1..], b);
      }
    }
  }

  lemma WalkOne(q: Place, c: char, s: string)
    ensures Walk(q, [c] + s) == var r := Next(q, c); if r.None? then None else Walk(r.value, s)
  {
    assert ([c] + s)[1..] == s;
  }

  lemma {:induction false} WalkItem(x: string)
    requires PlainText(x)
    ensures Walk(Inside, x) == Some(Inside)
  {
    if x == [] {
    } else {
      assert forall i :: 0 <= i < |x| - 1 ==> x[1..][i] == x[i + 1];
      WalkItem(x[1..]);
    }
  }

  lemma WalkQuote(q: Place, x: string, rest: string)
    requires PlainText(x) && (q.Gap? || q.Opened?)
    ensures Walk(q, "\"" + (x + ("\"" + rest))) == Walk(After, rest)
  {
    WalkOne(q, '"', x + ("\"" + rest));
    WalkItem(x);
    hide Walk;
    WalkConcat(Inside, x, "\"" + rest);
    WalkOne(Inside, '"', rest);
  }

  lemma {:induction false} WalkRest(xs: seq<string>)
    requires AllPlain(xs)
    ensures Walk(After, Rest(xs)) == Some(End)
  {
    if xs == [] {
      assert "]"[1..] == [];
    } else {
      assert AllPlain(xs[1..]);
      WalkRest(xs[1..]);
      hide Walk;
      var t := "\"" + (xs[0] + ("\"" + Rest(xs[1..])));
      WalkQuote(Gap, xs[0], Rest(xs[1..]));
      WalkOne(Comma, ' ', t);
      WalkOne(After, ',', " " + t);
      assert Rest(xs) == "," + (" " + t);
    }
  }

  /** Every list is such a text. */
  lemma WalkListed(xs: seq<string>)
    requires AllPlain(xs)
    ensures Walk(Start, Listed(xs)) == Some(End)
  {
    if xs == [] {
      assert "[]"[1..] == "]" && "]"[1..] == [];
    } else {
      assert AllPlain(xs[1..]);
      WalkRest(xs[1..]);
      hide Walk;
      var t := "\"" + (xs[0] + ("\"" + Rest(xs[1..])));
      WalkQuote(Opened, xs[0], Rest(xs[1..]));
      WalkOne(Start, '[', t);
      assert Listed(xs) == "[" + t;
    }
  }

  /** The items of such a text; `item` is the one being read. */
  function Items(q: Place, s: string, item: string): seq<string>
    decreases |s|
  {
    if s == [] then []
    else if q.Inside? && s[0] == '"' then [item] + Items(After, s[1..], [])
    else
      var r := Next(q, s[0]);
      if r.None? then [] else Items(r.value, s[1..], if q.Inside? then item + [s[0]] else [])
  }

  /** What is left to read, in terms of the items left. */
  function Ahead(q: Place, item: string, xs: seq<string>): string {
    match q
    case Start => Listed(xs)
    case Opened => if xs == [] then "]" else "\"" + (xs[0] + ("\"" + Rest(xs[1..])))
    case Inside => if xs == [] || !(item <= xs[0]) then "" else xs[0][|item|..] + ("\"" + Rest(xs[1..]))
    case After => Rest(xs)
    case Comma => if xs == [] then "" else " \"" + (xs[0] + ("\"" + Rest(xs[1..])))
    case Gap => if xs == [] then "" else "\"" + (xs[0] + ("\"" + Rest(xs[1..])))
    case End => ""
  }

  /** A text that can be read to its end is the text of its items. */
  lemma {:induction false} ItemsAre(q: Place, s: string, item: string)
    requires Walk(q, s) == Some(End) && PlainText(item) && (!q.Inside? ==> item == [])
    ensures var xs := Items(q, s, item);
      && AllPlain(xs) && s == Ahead(q, item, xs)
      && (q.Inside? ==> xs != [] && item <= xs[0]) && (q.Comma? || q.Gap? ==> xs != []) && (q.End? ==> xs == [])
    decreases |s|
  {
    if s == [] {
    } else {
      var c, t := s[0], s[1..];
      var q' := Next(q, c).value;
      var item' := if q.Inside? && c != '"' then item + [c] else [];
      assert PlainText(item');
      ItemsAre(q', t, item');
      var ys := Items(q', t, item');
      assert s == [c] + t;
      AheadStep(q, c, item, ys);
      hide Ahead, PlainChar;
      if q.Inside? && c == '"' {
        assert AllPlain([item] + ys);
      }
    }
  }

  lemma AheadStep(q: Place, c: char, item: string, ys: seq<string>)
    requires Next(q, c).Some? && (!q.Inside? ==> item == [])
    requires var q' := Next(q, c).value; var item' := if q.Inside? && c != '"' then item + [c] else [];
      && (q'.Inside? ==> ys != [] && item' <= ys[0]) && (q'.Comma? || q'.Gap? ==> ys != [])
      && (q'.End? ==> ys == [])
    ensures var q' := Next(q, c).value; var item' := if q.Inside? && c != '"' then item + [c] else [];
      var xs := if q.Inside? && c == '"' then [item] + ys else ys;
      Ahead(q, item, xs) == [c] + Ahead(q', item', ys)
  {
    hide PlainChar;
    if q.After? {
      assert ys == [] || Rest(ys) == "," + (" \"" + (ys[0] + ("\"" + Rest(ys[1..]))));
    } else if q.Inside? && c == '"' {
      hide Rest;
      assert ([item] + ys)[1..] == ys;
      assert item[|item|..] == [];
    } else if q.Inside? {
      hide Rest;
      ItemStep(c, item, ys[0]);
    } else {
      hide Rest;
      if c == '"' {
        assert ys[0][0..] == ys[0];
      }
    }
  }

  lemma ItemStep(c: char, item: string, x: string)
    requires item + [c] <= x
    ensures x[|item|..] == [c] + x[|item| + 1..]
  {
    assert (item + [c])[|item|] == c;
    assert x[..|item| + 1][|item|] == x[|item|];
  }

  /** The texts of lists of plain texts are exactly the ones that can be read to the end. */
  lemma ListedIff(s: string)
    ensures (exists xs :: AllPlain(xs) && Listed(xs) == s) <==> Walk(Start, s) == Some(End)
  {
    if xs :| AllPlain(xs) && Listed(xs) == s {
      WalkListed(xs);
    }
    if Walk(Start, s) == Some(End) {
      ItemsAre(Start, s, []);
      assert Listed(Items(Start, s, [])) == s;
    }
  }

  // ----- what can be found in it -----

  /** A text that leads to a place, and one that leads from there to the end. */
  function Lead(q: Place): string {
    match q
    case Start => ""
    case Opened => "["
    case Inside => "[\""
    case After => "[\"\""
    case Comma => "[\"\","
    case Gap => "[\"\", "
    case End => "[]"
  }

  function Trail(q: Place): string {
    match q
    case Start => "[]"
    case Opened => "]"
    case Inside => "\"]"
    case After => "]"
    case Comma => " \"\"]"
    case Gap => "\"\"]"
    case End => ""
  }

  lemma LeadIs(q: Place)
    ensures Walk(Start, Lead(q)) == Some(q)
  {
    match q
    case Start =>
    case Opened => assert "["[1..] == [];
    case Inside =>
      WalkOne(Start, '[', "\"");
      assert "\""[1..] == [];
    case After =>
      WalkOne(Start, '[', "\"\"");
      WalkOne(Opened, '"', "\"");
      assert "\""[1..] == [];
    case Comma =>
      WalkOne(Start, '[', "\"\",");
      WalkOne(Opened, '"', "\",");
      WalkOne(Inside, '"', ",");
      assert ","[1..] == [];
    case Gap =>
      WalkOne(Start, '[', "\"\", ");
      WalkOne(Opened, '"', "\", ");
      WalkOne(Inside, '"', ", ");
      WalkOne(After, ',', " ");
      assert " "[1..] == [];
    case End =>
      WalkOne(Start, '[', "]");
      assert "]"[1..] == [];
  }

  lemma TrailIs(q: Place)
    ensures Walk(q, Trail(q)) == Some(End)
  {
    match q
    case Start =>
      WalkOne(Start, '[', "]");
      assert "]"[1..] == [];
    case Opened => assert "]"[1..] == [];
    case Inside =>
      WalkOne(Inside, '"', "]");
      assert "]"[1..] == [];
    case After => assert "]"[1..] == [];
    case Comma =>
      WalkOne(Comma, ' ', "\"\"]");
      WalkOne(Gap, '"', "\"]");
      WalkOne(Inside, '"', "]");
      assert "]"[1..] == [];
    case Gap =>
      WalkOne(Gap, '"', "\"]");
      WalkOne(Inside, '"', "]");
      assert "]"[1..] == [];
    case End =>
  }

  /** s can be read from that place. */
  predicate ReadableFrom(q: Place, s: string) {
    Walk(q, s).Some?
  }

  /** It can be read from somewhere. */
  predicate Readable(s: string) {
    || ReadableFrom(Start, s) || ReadableFrom(Opened, s) || ReadableFrom(Inside, s) || ReadableFrom(After, s)
    || ReadableFrom(Comma, s) || ReadableFrom(Gap, s) || ReadableFrom(End, s)
  }

  /** It can be read up to the end. */
  predicate Ending(s: string) {
    || Walk(Start, s) == Some(End) || Walk(Opened, s) == Some(End) || Walk(Inside, s) == Some(End)
    || Walk(After, s) == Some(End) || Walk(Comma, s) == Some(End) || Walk(Gap, s) == Some(End)
    || Walk(End, s) == Some(End)
  }

  /** Between two texts it makes the text of a list. */
  lemma Completed(q: Place, s: string) returns (xs: seq<string>)
    requires Walk(q, s).Some?
    ensures AllPlain(xs) && Listed(xs) == Lead(q) + s + Trail(Walk(q, s).value)
  {
    var q' := Walk(q, s).value;
    LeadIs(q);
    TrailIs(q');
    hide Walk;
    WalkConcat(Start, Lead(q), s);
    WalkConcat(Start, Lead(q) + s, Trail(q'));
    var w := Lead(q) + s + Trail(q');
    ItemsAre(Start, w, []);
    xs := Items(Start, w, []);
  }

  /** A list begins with s if and only if s can be read from the start. */
  lemma BeginsIff(s: string)
    ensures (exists xs :: AllPlain(xs) && s <= Listed(xs)) <==> ReadableFrom(Start, s)
  {
    hide Walk, Listed;
    if xs :| AllPlain(xs) && s <= Listed(xs) {
      WalkListed(xs);
      assert Listed(xs) == s + Listed(xs)[|s|..];
      WalkConcat(Start, s, Listed(xs)[|s|..]);
    }
    if ReadableFrom(Start, s) {
      var xs := Completed(Start, s);
      assert s <= Listed(xs);
    }
  }

  /** A list ends with s if and only if s can be read up to the end. */
  lemma EndsIff(s: string)
    ensures (exists xs :: AllPlain(xs) && EndsWith(Listed(xs), s)) <==> Ending(s)
  {
    hide Walk, Listed;
    if xs :| AllPlain(xs) && EndsWith(Listed(xs), s) {
      WalkListed(xs);
      var w := Listed(xs);
      var a := w[..|w| - |s|];
      assert w == a + s;
      WalkConcat(Start, a, s);
      EndingFrom(Walk(Start, a).value, s);
    }
    if Ending(s) {
      var q: Place :| Walk(q, s) == Some(End);
      var xs := Completed(q, s);
      assert Listed(xs) == Lead(q) + s by {
        assert Trail(End) == "";
        assert Lead(q) + s + "" == Lead(q) + s;
      }
      assert (Lead(q) + s)[|Lead(q)|..] == s;
    }
  }

  lemma EndingFrom(q: Place, s: string)
    requires Walk(q, s) == Some(End)
    ensures Ending(s)
  {
    hide Walk;
  }

  lemma ReadableAt(q: Place, s: string)
    requires ReadableFrom(q, s)
    ensures Readable(s)
  {
    hide Walk, ReadableFrom;
  }

  /** s is punctuation, or holds a quote and can be read: it can be found across the items
      of a list without being in any. */
  predicate Spills(s: string) {
    Punctuation(s) || ('"' in s && Readable(s))
  }

  predicate Punctuation(s: string) {
    s == "[" || s == "]" || s == "[]" || s == "," || s == " " || s == ", "
  }

  lemma OccursSplit(s: string, a: string, b: string)
    requires '"' !in s && Occurs(s, a + ("\"" + b))
    ensures Occurs(s, a) || Occurs(s, b)
  {
    var w := a + ("\"" + b);
    var i :| 0 <= i <= |w| - |s| && w[i..][..|s|] == s;
    if i + |s| <= |a| {
      assert a[i..][..|s|] == w[i..][..|s|];
    } else if i > |a| {
      var j := i - |a| - 1;
      assert b[j..][..|s|] == w[i..][..|s|];
    } else {
      NoQuoteAt(s, w, i, |a| - i);
    }
  }

  lemma NoQuoteAt(s: string, w: string, i: nat, k: nat)
    requires i + |s| <= |w| && w[i..][..|s|] == s && '"' !in s && k < |s|
    ensures w[i + k] != '"'
  {
    assert w[i..][..|s|][k] == w[i + k];
  }

  /** Some item of the list contains s. */
  ghost predicate InSome(s: string, xs: seq<string>) {
    exists i :: 0 <= i < |xs| && Occurs(s, xs[i])
  }

  lemma InTail(s: string, xs: seq<string>)
    requires xs != [] && (Occurs(s, xs[0]) || InSome(s, xs[1..]))
    ensures InSome(s, xs)
  {
    hide Occurs;
    if !Occurs(s, xs[0]) {
      var i :| 0 <= i < |xs[1..]| && Occurs(s, xs[1..][i]);
      assert xs[i + 1] == xs[1..][i];
    }
  }

  lemma ShortOne(s: string, c: char)
    requires Occurs(s, [c]) && s != []
    ensures s == [c]
  {
  }

  lemma ShortTwo(s: string, c: char, d: char)
    requires Occurs(s, [c, d]) && s != []
    ensures s == [c] || s == [d] || s == [c, d]
  {
    var t := [c, d];
    var i :| 0 <= i <= |t| - |s| && t[i..][..|s|] == s;
    assert |s| == 1 ==> s == [t[i]];
    assert |s| == 2 ==> s == t;
  }

  lemma {:induction false} InRest(s: string, xs: seq<string>)
    requires s != [] && '"' !in s && Occurs(s, Rest(xs))
    ensures Punctuation(s) || InSome(s, xs)
  {
    hide Occurs;
    if xs == [] {
      ShortOne(s, ']');
    } else {
      var t := xs[0] + ("\"" + Rest(xs[1..]));
      assert Rest(xs) == ", " + ("\"" + t);
      OccursSplit(s, ", ", t);
      if Occurs(s, ", ") {
        ShortTwo(s, ',', ' ');
      } else {
        OccursSplit(s, xs[0], Rest(xs[1..]));
        if !Occurs(s, xs[0]) {
          InRest(s, xs[1..]);
        }
        if !Punctuation(s) {
          InTail(s, xs);
        }
      }
    }
  }

  /** Found in the text of a list, a text is found in an item, or it spills. */
  lemma FoundInside(s: string, xs: seq<string>)
    requires s != [] && AllPlain(xs) && Occurs(s, Listed(xs))
    ensures Spills(s) || InSome(s, xs)
  {
    if '"' in s {
      FoundReads(s, xs);
    } else if xs == [] {
      ShortTwo(s, '[', ']');
    } else {
      var t := xs[0] + ("\"" + Rest(xs[1..]));
      assert Listed(xs) == "[" + ("\"" + t);
      hide Occurs, Rest, Listed;
      OccursSplit(s, "[", t);
      if Occurs(s, "[") {
        ShortOne(s, '[');
      } else {
        OccursSplit(s, xs[0], Rest(xs[1..]));
        if !Occurs(s, xs[0]) {
          InRest(s, xs[1..]);
        }
        if !Punctuation(s) {
          InTail(s, xs);
        }
      }
    }
  }

  /** A text that spills is found in the text of a list none of whose items contains it. */
  lemma SpillsAcross(s: string) returns (xs: seq<string>)
    requires Spills(s)
    ensures AllPlain(xs) && Occurs(s, Listed(xs)) && !InSome(s, xs)
    ensures '"' in s || forall i :: 0 <= i < |xs| ==> xs[i] == []
  {
    if '"' in s {
      var q: Place :| ReadableFrom(q, s);
      xs := Across(s, q);
      hide Walk, Readable, ReadableFrom, Listed;
      forall i | 0 <= i < |xs| ensures !Occurs(s, xs[i]) {
        QuoteNotPlain(s, xs[i]);
      }
    } else if s == "[" || s == "]" || s == "[]" {
      xs := [];
      var at := if s == "]" then 1 else 0;
      assert "[]"[at..][..|s|] == s;
    } else {
      xs := ["", ""];
      assert Listed(xs) == "[\"\", \"\"]" by {
        assert xs[1..] == [""] && [""][1..] == [];
      }
      var at := if s == " " then 4 else 3;
      assert "[\"\", \"\"]"[at..][..|s|] == s;
    }
  }

  lemma Across(s: string, q: Place) returns (xs: seq<string>)
    requires ReadableFrom(q, s)
    ensures AllPlain(xs) && Occurs(s, Listed(xs))
  {
    xs := Completed(q, s);
    hide Walk, Listed, Lead, Trail;
    assert Listed(xs)[|Lead(q)|..][..|s|] == s;
  }

  lemma QuoteNotPlain(s: string, x: string)
    requires '"' in s && PlainText(x)
    ensures !Occurs(s, x)
  {
    var k :| 0 <= k < |s| && s[k] == '"';
    forall i | 0 <= i <= |x| - |s| ensures x[i..][..|s|] != s {
      assert x[i..][..|s|][k] == x[i + k];
    }
  }

  lemma OccursInPart(s: string, a: string, x: string, b: string)
    requires Occurs(s, x)
    ensures Occurs(s, a + (x + b))
  {
    var i :| 0 <= i <= |x| - |s| && x[i..][..|s|] == s;
    assert (a + (x + b))[|a| + i..][..|s|] == x[i..][..|s|];
  }

  lemma Regroup(a: string, x: string, r: string)
    ensures a + (x + ("\"" + r)) == (a + x + "\"") + (r + "")
  {
  }

  lemma {:induction false} ItemInRest(s: string, xs: seq<string>)
    requires InSome(s, xs)
    ensures Occurs(s, Rest(xs))
  {
    hide Occurs;
    var i :| 0 <= i < |xs| && Occurs(s, xs[i]);
    var r := Rest(xs[1..]);
    assert Rest(xs) == ", \"" + (xs[0] + ("\"" + r));
    if i == 0 {
      OccursInPart(s, ", \"", xs[0], "\"" + r);
    } else {
      assert xs[i] == xs[1..][i - 1];
      ItemInRest(s, xs[1..]);
      hide Rest;
      OccursInPart(s, ", \"" + xs[0] + "\"", r, "");
      Regroup(", \"", xs[0], r);
    }
  }

  /** What an item contains is found in the text of the list. */
  lemma ItemFound(s: string, xs: seq<string>)
    requires InSome(s, xs)
    ensures Occurs(s, Listed(xs))
  {
    hide Occurs, Rest;
    var i :| 0 <= i < |xs| && Occurs(s, xs[i]);
    var r := Rest(xs[1..]);
    assert Listed(xs) == "[\"" + (xs[0] + ("\"" + r));
    hide Listed;
    if i == 0 {
      OccursInPart(s, "[\"", xs[0], "\"" + r);
    } else {
      assert xs[i] == xs[1..][i - 1];
      ItemInRest(s, xs[1..]);
      OccursInPart(s, "[\"" + xs[0] + "\"", r, "");
      Regroup("[\"", xs[0], r);
    }
  }

  /** A text is found in the text of some list if and only if it can be read from
      somewhere. */
  lemma FoundIff(s: string)
    ensures (exists xs :: AllPlain(xs) && Occurs(s, Listed(xs))) <==> Readable(s)
  {
    if xs :| AllPlain(xs) && Occurs(s, Listed(xs)) {
      FoundReads(s, xs);
    }
    if Readable(s) {
      var q: Place :| ReadableFrom(q, s);
      var xs := Across(s, q);
    }
  }

  lemma FoundReads(s: string, xs: seq<string>)
    requires AllPlain(xs) && Occurs(s, Listed(xs))
    ensures Readable(s)
  {
    var w := Listed(xs);
    var i :| 0 <= i <= |w| - |s| && w[i..][..|s|] == s;
    WalkListed(xs);
    hide Walk, Readable, Listed;
    var a, b := w[..i], w[i..][|s|..];
    assert w == a + (s + b);
    WalkConcat(Start, a, s + b);
    WalkConcat(Walk(Start, a).value, s, b);
    ReadableAt(Walk(Start, a).value, s);
  }

  // ----- the items of a list are read back -----

  lemma {:induction false} ItemRead(x: string, item: string, rest: string)
    requires PlainText(x)
    ensures Items(Inside, x + ("\"" + rest), item) == [item + x] + Items(After, rest, [])
    decreases |x|
  {
    if x == [] {
      assert x + ("\"" + rest) == "\"" + rest && ("\"" + rest)[1..] == rest && item + x == item;
    } else {
      var s := x + ("\"" + rest);
      assert s[0] == x[0] && s[1..] == x[1..] + ("\"" + rest);
      ItemRead(x[1..], item + [x[0]], rest);
      assert item + [x[0]] + x[1..] == item + x;
    }
  }

  lemma ItemsOne(q: Place, c: char, s: string)
    requires !q.Inside? && Next(q, c).Some?
    ensures Items(q, [c] + s, []) == Items(Next(q, c).value, s, [])
  {
    assert ([c] + s)[1..] == s;
  }

  lemma {:induction false} RestRead(xs: seq<string>)
    requires AllPlain(xs)
    ensures Items(After, Rest(xs), []) == xs
  {
    if xs == [] {
      assert "]"[1..] == [];
    } else {
      assert AllPlain(xs[1..]);
      RestRead(xs[1..]);
      hide Items;
      var t := xs[0] + ("\"" + Rest(xs[1..]));
      assert Rest(xs) == "," + (" " + ("\"" + t));
      ItemsOne(After, ',', " " + ("\"" + t));
      ItemsOne(Comma, ' ', "\"" + t);
      ItemsOne(Gap, '"', t);
      ItemRead(xs[0], [], Rest(xs[1..]));
      assert [] + xs[0] == xs[0] && [xs[0]] + xs[1..] == xs;
    }
  }

  /** Different lists have different texts. */
  lemma ListedRead(xs: seq<string>)
    requires AllPlain(xs)
    ensures Items(Start, Listed(xs), []) == xs
  {
    if xs == [] {
      assert "[]"[1..] == "]" && "]"[1..] == [];
    } else {
      assert AllPlain(xs[1..]);
      RestRead(xs[1..]);
      hide Items;
      var t := xs[0] + ("\"" + Rest(xs[1..]));
      assert Listed(xs) == "[" + ("\"" + t);
      ItemsOne(Start, '[', "\"" + t);
      ItemsOne(Opened, '"', t);
      ItemRead(xs[0], [], Rest(xs[1..]));
      assert [] + xs[0] == xs[0] && [xs[0]] + xs[1..] == xs;
    }
  }
}
