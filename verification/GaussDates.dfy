/** Timestamps in range filters: the client expands the bound, the server expands
    the stored text, and both are compared. */
module GaussDates {
  import opened Text
  import opened Python
  import opened SqlSyntax

  /** The digits of the server's patterns. */
  predicate Digit(c: char) {
    '0' <= c <= '9'
  }

  /** The digits of the client's pattern: `\d` takes every decimal digit of Unicode,
      and `int` reads it. */
  datatype Digits = Digits(value: char -> Option<nat>) {
    ghost predicate Sane() {
      && (forall c :: value(c).Some? ==> value(c).value < 10)
      && (forall c :: Digit(c) ==> value(c) == Some(Ord(c)))
      && (forall c :: c in {'-', ':', ' ', 'T'} ==> value(c).None?)
    }

    predicate Has(c: char) {
      value(c).Some?
    }
  }

  function Ord(c: char): nat
    requires Digit(c)
  {
    (c - '0') as nat
  }

  function Chr(n: nat): char
    requires n < 10
  {
    '0' + n as char
  }

  // ----- the calendar -----

  function DaysIn(y: nat, m: nat): nat {
    if m == 2 then (if (y % 4 == 0 && y % 100 != 0) || y % 400 == 0 then 29 else 28)
    else if m in {4, 6, 9, 11} then 30 else 31
  }

  datatype Stamp = Stamp(year: nat, month: nat, day: nat, hour: nat, minute: nat, second: nat) {
    /** What the `datetime` constructor accepts. */
    predicate Valid() {
      && 1 <= year <= 9999 && 1 <= month <= 12 && 1 <= day <= DaysIn(year, month)
      && hour < 24 && minute < 60 && second < 60
    }
  }

  function DaysBeforeMonth(y: nat, m: nat): nat {
    if m <= 1 then 0 else DaysBeforeMonth(y, m - 1) + DaysIn(y, m - 1)
  }

  function DaysBeforeYear(y: nat): nat {
    if y <= 1 then 0 else DaysBeforeYear(y - 1) + DaysBeforeMonth(y - 1, 13)
  }

  /** Seconds since the start of year 1: the reference notion of "earlier". */
  function Seconds(t: Stamp): nat {
    var days := DaysBeforeYear(t.year) + DaysBeforeMonth(t.year, t.month) + t.day;
    ((days * 24 + t.hour) * 60 + t.minute) * 60 + t.second
  }

  // ----- the client -----

  function Two(n: nat): string
    requires n < 100
  {
    [Chr(n / 10), Chr(n % 10)]
  }

  /** `%Y`: the year in decimal, which is not padded to four digits. */
  function YearText(y: nat): string
    requires y <= 9999
  {
    if y >= 1000 then Two(y / 100) + Two(y % 100)
    else if y >= 100 then [Chr(y / 100)] + Two(y % 100)
    else if y >= 10 then Two(y)
    else [Chr(y)]
  }

  /** `strftime("%Y-%m-%d %H:%M:%S")`. */
  function Format(t: Stamp): string
    requires t.Valid()
  {
    YearText(t.year) + ("-" + Two(t.month)) + ("-" + Two(t.day)) +
    (" " + Two(t.hour)) + (":" + Two(t.minute)) + (":" + Two(t.second))
  }

  predicate Group(u: Digits, s: string, i: nat, seps: set<char>) {
    |s| >= i + 3 && s[i] in seps && u.Has(s[i + 1]) && u.Has(s[i + 2])
  }

  predicate Year(u: Digits, s: string) {
    |s| >= 4 && u.Has(s[0]) && u.Has(s[1]) && u.Has(s[2]) && u.Has(s[3])
  }

  /** `int` of two digits. */
  function Int2(u: Digits, a: char, b: char): nat
    requires u.Has(a) && u.Has(b)
  {
    10 * u.value(a).value + u.value(b).value
  }

  /** The prefix pattern: each further group is optional, but only in order, and
      the whole text must be used up. */
  function ReadPrefix(u: Digits, s: string): Option<Stamp> {
    if !Year(u, s) || !Group(u, s, 4, {'-'}) then None
    else
      var y, mo := 100 * Int2(u, s[0], s[1]) + Int2(u, s[2], s[3]), Int2(u, s[5], s[6]);
      if |s| == 7 then Some(Stamp(y, mo, 1, 0, 0, 0))
      else if !Group(u, s, 7, {'-'}) then None
      else
        var d := Int2(u, s[8], s[9]);
        if |s| == 10 then Some(Stamp(y, mo, d, 0, 0, 0))
        else if !Group(u, s, 10, {'T', ' '}) then None
        else
          var h := Int2(u, s[11], s[12]);
          if |s| == 13 then Some(Stamp(y, mo, d, h, 0, 0))
          else if !Group(u, s, 13, {':'}) then None
          else
            var mi := Int2(u, s[14], s[15]);
            if |s| == 16 then Some(Stamp(y, mo, d, h, mi, 0))
            else if !Group(u, s, 16, {':'}) || |s| != 19 then None
            else Some(Stamp(y, mo, d, h, mi, Int2(u, s[17], s[18])))
  }

  /** `normalize_datetime_prefix`. */
  function Normalize(u: Digits, s: string): Option<string> {
    var t := ReadPrefix(u, s);
    if t.Some? && t.value.Valid() then Some(Format(t.value)) else None
  }

  // ----- the server -----

  /** Layout of a CASE branch: 9 stands for a digit, T for T or blank. */
  predicate Fits(layout: string, s: string) {
    |s| == |layout| &&
    forall i :: 0 <= i < |s| ==>
      if layout[i] == '9' then Digit(s[i]) else if layout[i] == 'T' then s[i] in {'T', ' '} else s[i] == layout[i]
  }

  const MONTH := "9999-99"
  const DAY := "9999-99-99"
  const HOUR := "9999-99-99T99"
  const MINUTE := "9999-99-99T99:99"
  const SECOND := "9999-99-99T99:99:99"

  /** The text handed to `to_timestamp`; None when no CASE branch applies. */
  function ServerExpand(s: string): Option<string> {
    if Fits(MONTH, s) then Some(s + "-01 00:00:00")
    else if Fits(DAY, s) then Some(s + " 00:00:00")
    else if Fits(HOUR, s) then Some(Replace(s, 'T', " ") + ":00:00")
    else if Fits(MINUTE, s) then Some(Replace(s, 'T', " ") + ":00")
    else if Fits(SECOND, s) then Some(Replace(s, 'T', " "))
    else None
  }

  // ----- the shapes agree -----

  predicate FitsSome(s: string) {
    Fits(MONTH, s) || Fits(DAY, s) || Fits(HOUR, s) || Fits(MINUTE, s) || Fits(SECOND, s)
  }

  /** Only ASCII characters among its digits. */
  predicate AsciiDigits(u: Digits, s: string) {
    forall i :: 0 <= i < |s| && u.Has(s[i]) ==> Digit(s[i])
  }

  /** The five CASE branches take exactly what the client reads and is written in
      ASCII digits. */
  lemma ShapesAgreeIff(u: Digits, s: string)
    requires u.Sane()
    ensures FitsSome(s) <==> ReadPrefix(u, s).Some? && AsciiDigits(u, s)
    ensures FitsSome(s) <==> ServerExpand(s).Some?
  {
    if ReadPrefix(u, s).Some? && AsciiDigits(u, s) {
      ReadFits(u, s);
    }
    if FitsSome(s) {
      FitsRead(u, s);
    }
  }

  lemma ReadFits(u: Digits, s: string)
    requires u.Sane() && ReadPrefix(u, s).Some? && AsciiDigits(u, s)
    ensures FitsSome(s)
  {
    hide Int2;
  }

  lemma FitsRead(u: Digits, s: string)
    requires u.Sane() && FitsSome(s)
    ensures ReadPrefix(u, s).Some? && AsciiDigits(u, s)
  {
    hide Int2;
  }

  // ----- the expansions agree -----

  lemma TwoDigits(u: Digits, a: char, b: char)
    requires u.Sane() && Digit(a) && Digit(b)
    ensures Int2(u, a, b) < 100 && Two(Int2(u, a, b)) == [a, b]
  {
  }

  /** The year as read and written again: unchanged exactly from 1000 on. */
  lemma YearRoundTrip(u: Digits, a: char, b: char, c: char, d: char)
    requires u.Sane() && Digit(a) && Digit(b) && Digit(c) && Digit(d)
    ensures var y := 100 * Int2(u, a, b) + Int2(u, c, d);
            y <= 9999 && (YearText(y) == [a, b, c, d] <==> y >= 1000)
  {
    TwoDigits(u, a, b);
    TwoDigits(u, c, d);
    var y := 100 * Int2(u, a, b) + Int2(u, c, d);
    assert y / 100 == Int2(u, a, b) && y % 100 == Int2(u, c, d);
    assert y < 1000 ==> |YearText(y)| < 4;
  }

  lemma {:induction false} NoT(s: string)
    requires 'T' !in s
    ensures Replace(s, 'T', " ") == s
  {
    if s == [] {
    } else {
      NoT(s[1..]);
    }
  }

  /** The group at position i, written with the given separator, or its default. */
  function Piece(s: string, i: nat, sep: char, default: string): string
    requires |s| <= i || |s| >= i + 3
  {
    if |s| > i then [sep, s[i + 1], s[i + 2]] else default
  }

  /** The date part of a prefix, with the day defaulted. */
  function DatePart(s: string): string
    requires |s| in {7, 10, 13, 16, 19}
  {
    s[..4] + Piece(s, 4, '-', "") + Piece(s, 7, '-', "-01")
  }

  /** A matched prefix at full width: T becomes a blank, and what is missing
      becomes its default. */
  function Wide(s: string): string
    requires |s| in {7, 10, 13, 16, 19}
  {
    DatePart(s) + Piece(s, 10, ' ', " 00") + Piece(s, 13, ':', ":00") + Piece(s, 16, ':', ":00")
  }

  lemma WithoutT(s: string)
    requires |s| >= 13 && FitsSome(s)
    ensures Replace(s, 'T', " ") == s[10 := ' ']
  {
    hide FitsSome, Fits, Replace;
    WithoutTParts(s);
    var a, b := s[..10], s[11..];
    assert s == a + [s[10]] + b && s[10 := ' '] == a + " " + b;
    ReplaceOne(a, s[10], b);
  }

  lemma ReplaceOne(a: string, c: char, b: string)
    requires 'T' !in a && 'T' !in b && c in {'T', ' '}
    ensures Replace(a + [c] + b, 'T', " ") == a + " " + b
  {
    ReplaceConcat(a + [c], b, 'T', " ");
    ReplaceConcat(a, [c], 'T', " ");
    NoT(a);
    NoT(b);
    assert Replace([c], 'T', " ") == " " by {
      assert [c][1..] == [];
    }
  }

  lemma WithoutTParts(s: string)
    requires |s| >= 13 && FitsSome(s)
    ensures 'T' !in s[..10] && 'T' !in s[11..] && s[10] in {'T', ' '}
  {
    PrefixLength(s);
    assert forall i :: 0 <= i < |s| && i != 10 ==> s[i] != 'T';
  }

  lemma PrefixLength(s: string)
    requires FitsSome(s)
    ensures |s| in {7, 10, 13, 16, 19}
    ensures s[4] == '-' && (|s| > 7 ==> s[7] == '-') && (|s| > 13 ==> s[13] == ':') && (|s| > 16 ==> s[16] == ':')
  {
  }

  /** What completes a prefix of n characters. */
  function Rest(n: nat): string {
    if n == 7 then "-01 00:00:00" else if n == 10 then " 00:00:00" else if n == 13 then ":00:00"
    else if n == 16 then ":00" else ""
  }

  lemma CompletedDate(s: string)
    requires |s| in {7, 10, 13, 16, 19}
    requires s[4] == '-' && (|s| > 7 ==> s[7] == '-')
    ensures DatePart(s) == if |s| == 7 then s + "-01" else s[..10]
  {
  }

  lemma Completed(s: string)
    requires |s| in {7, 10, 13, 16, 19}
    requires s[4] == '-' && (|s| > 7 ==> s[7] == '-') && (|s| > 13 ==> s[13] == ':') && (|s| > 16 ==> s[16] == ':')
    ensures (if |s| >= 13 then s[10 := ' '] else s) + Rest(|s|) == Wide(s)
  {
    hide Piece, DatePart, Rest;
    CompletedDate(s);
    RestParts();
    assert Wide(s) == DatePart(s) + Piece(s, 10, ' ', " 00") + Piece(s, 13, ':', ":00") + Piece(s, 16, ':', ":00");
    hide Wide;
    if |s| <= 10 {
      CompletedShort(s);
    } else {
      CompletedLong(s);
    }
  }

  lemma CompletedShort(s: string)
    requires |s| in {7, 10} && DatePart(s) == if |s| == 7 then s + "-01" else s[..10]
    ensures s + Rest(|s|)
            == DatePart(s) + Piece(s, 10, ' ', " 00") + Piece(s, 13, ':', ":00") + Piece(s, 16, ':', ":00")
  {
    hide DatePart;
    var date := DatePart(s);
    assert Rest(7) == "-01" + (" 00" + ":00" + ":00") && Rest(10) == " 00" + ":00" + ":00";
    assert date + (" 00" + ":00" + ":00") == date + " 00" + ":00" + ":00";
  }

  lemma CompletedLong(s: string)
    requires |s| in {13, 16, 19} && DatePart(s) == s[..10]
    requires (|s| > 13 ==> s[13] == ':') && (|s| > 16 ==> s[16] == ':')
    ensures s[10 := ' '] + Rest(|s|) ==
            DatePart(s) + Piece(s, 10, ' ', " 00") + Piece(s, 13, ':', ":00") + Piece(s, 16, ':', ":00")
  {
    hide DatePart, Rest;
    RestParts();
    var date, r := DatePart(s), s[10 := ' '];
    assert s[11..] == [s[11], s[12]] + s[13..];
    assert |s| > 13 ==> s[13..] == [':', s[14], s[15]] + s[16..];
    assert |s| > 16 ==> s[16..] == [':', s[17], s[18]];
    CompletedTime(date, s[11], s[12], s[13..], Rest(|s|), Piece(s, 13, ':', ":00"), Piece(s, 16, ':', ":00"));
    assert r == date + [' '] + ([s[11], s[12]] + s[13..]);
  }

  lemma RestParts()
    ensures Rest(13) == ":00" + ":00" && Rest(16) == ":00" && Rest(19) == ""
  {
  }

  lemma CompletedTime(date: string, a: char, b: char, tail: string, rest: string, p: string, q: string)
    requires tail + rest == p + q
    ensures date + [' '] + ([a, b] + tail) + rest == date + [' ', a, b] + p + q
  {
    assert date + [' '] + ([a, b] + tail) + rest == date + [' ', a, b] + (tail + rest);
  }

  lemma ServerText(s: string)
    requires FitsSome(s)
    ensures |s| in {7, 10, 13, 16, 19} && ServerExpand(s) == Some(Wide(s))
  {
    PrefixLength(s);
    BranchByLength(s);
    if |s| >= 13 {
      WithoutT(s);
    }
    hide Wide, Replace, FitsSome, Fits;
    Completed(s);
    if |s| == 19 {
      assert s[10 := ' '] + "" == s[10 := ' '];
    }
  }

  /** Which branch applies follows from the length of the text. */
  lemma BranchByLength(s: string)
    requires FitsSome(s)
    ensures |s| == 7 ==> ServerExpand(s) == Some(s + "-01 00:00:00")
    ensures |s| == 10 ==> ServerExpand(s) == Some(s + " 00:00:00")
    ensures |s| == 13 ==> ServerExpand(s) == Some(Replace(s, 'T', " ") + ":00:00")
    ensures |s| == 16 ==> ServerExpand(s) == Some(Replace(s, 'T', " ") + ":00")
    ensures |s| == 19 ==> ServerExpand(s) == Some(Replace(s, 'T', " "))
  {
    hide Replace;
  }

  lemma FieldPiece(u: Digits, s: string, i: nat, sep: char, default: string, value: nat)
    requires u.Sane()
    requires |s| <= i || (|s| >= i + 3 && Digit(s[i + 1]) && Digit(s[i + 2]) && value == Int2(u, s[i + 1], s[i + 2]))
    requires value < 100 && (|s| <= i ==> [sep] + Two(value) == default)
    ensures [sep] + Two(value) == Piece(s, i, sep, default)
  {
    if |s| > i {
      TwoDigits(u, s[i + 1], s[i + 2]);
    }
  }

  lemma ClientFields(u: Digits, s: string)
    requires u.Sane() && AsciiDigits(u, s)
    requires ReadPrefix(u, s).Some? && ReadPrefix(u, s).value.Valid() && |s| in {7, 10, 13, 16, 19}
    ensures var t := ReadPrefix(u, s).value;
            && "-" + Two(t.month) == Piece(s, 4, '-', "") && "-" + Two(t.day) == Piece(s, 7, '-', "-01")
            && " " + Two(t.hour) == Piece(s, 10, ' ', " 00") && ":" + Two(t.minute) == Piece(s, 13, ':', ":00")
            && ":" + Two(t.second) == Piece(s, 16, ':', ":00")
  {
    hide Piece, DaysIn;
    var t := ReadPrefix(u, s).value;
    assert Two(1) == "01" && Two(0) == "00";
    hide Two;
    FieldPiece(u, s, 4, '-', "", t.month);
    FieldPiece(u, s, 7, '-', "-01", t.day);
    FieldPiece(u, s, 10, ' ', " 00", t.hour);
    FieldPiece(u, s, 13, ':', ":00", t.minute);
    FieldPiece(u, s, 16, ':', ":00", t.second);
  }

  /** Writing the fields that were read gives the same groups back. */
  lemma ClientText(u: Digits, s: string)
    requires u.Sane() && AsciiDigits(u, s)
    requires ReadPrefix(u, s).Some? && ReadPrefix(u, s).value.Valid() && |s| in {7, 10, 13, 16, 19}
    ensures Format(ReadPrefix(u, s).value) == YearText(ReadPrefix(u, s).value.year) + Wide(s)[4..]
  {
    var t := ReadPrefix(u, s).value;
    ClientFields(u, s);
    hide Piece, Two, YearText, ReadPrefix;
    var p1, p2, p3, p4, p5 := Piece(s, 4, '-', ""), Piece(s, 7, '-', "-01"), Piece(s, 10, ' ', " 00"),
                              Piece(s, 13, ':', ":00"), Piece(s, 16, ':', ":00");
    assert Format(t) == YearText(t.year) + p1 + p2 + p3 + p4 + p5;
    assert Wide(s) == s[..4] + p1 + p2 + p3 + p4 + p5;
    Regroup(YearText(t.year), p1, p2, p3, p4, p5);
    Regroup(s[..4], p1, p2, p3, p4, p5);
    var rest := p1 + p2 + p3 + p4 + p5;
    assert (s[..4] + rest)[4..] == rest;
  }

  lemma Regroup(a: string, p1: string, p2: string, p3: string, p4: string, p5: string)
    ensures a + p1 + p2 + p3 + p4 + p5 == a + (p1 + p2 + p3 + p4 + p5)
  {
    assert a + p1 + p2 == a + (p1 + p2);
    assert a + (p1 + p2) + p3 == a + (p1 + p2 + p3);
    assert a + (p1 + p2 + p3) + p4 == a + (p1 + p2 + p3 + p4);
    assert a + (p1 + p2 + p3 + p4) + p5 == a + (p1 + p2 + p3 + p4 + p5);
  }

  lemma WideStart(s: string)
    requires |s| in {7, 10, 13, 16, 19}
    ensures |Wide(s)| >= 4 && Wide(s)[..4] == [s[0], s[1], s[2], s[3]]
  {
    hide Piece;
    var p1, p2, p3, p4, p5 := Piece(s, 4, '-', ""), Piece(s, 7, '-', "-01"), Piece(s, 10, ' ', " 00"),
                              Piece(s, 13, ':', ":00"), Piece(s, 16, ':', ":00");
    Regroup(s[..4], p1, p2, p3, p4, p5);
    assert (s[..4] + (p1 + p2 + p3 + p4 + p5))[..4] == s[..4] == [s[0], s[1], s[2], s[3]];
  }

  /** Client and server expand a text the client accepts to the same timestamp text
      exactly when its digits are ASCII and its year needs no padding. */
  lemma ExpansionsAgreeIff(u: Digits, s: string)
    requires u.Sane() && Normalize(u, s).Some?
    ensures ServerExpand(s) == Normalize(u, s) <==> AsciiDigits(u, s) && ReadPrefix(u, s).value.year >= 1000
  {
    ShapesAgreeIff(u, s);
    hide ServerExpand;
    if AsciiDigits(u, s) {
      hide Wide, Format, YearText, FitsSome;
      ServerText(s);
      ClientText(u, s);
      YearDigits(u, s);
      YearRoundTrip(u, s[0], s[1], s[2], s[3]);
      var y, w := ReadPrefix(u, s).value.year, Wide(s);
      WideStart(s);
      assert w == w[..4] + w[4..];
      hide ReadPrefix, Int2, Digit, AsciiDigits;
      if YearText(y) + w[4..] == w {
        assert |YearText(y)| == 4;
        assert YearText(y) == (YearText(y) + w[4..])[..4];
      }
    }
  }

  lemma YearDigits(u: Digits, s: string)
    requires u.Sane() && AsciiDigits(u, s) && ReadPrefix(u, s).Some?
    ensures |s| >= 4 && Digit(s[0]) && Digit(s[1]) && Digit(s[2]) && Digit(s[3])
    ensures ReadPrefix(u, s).value.year == 100 * Int2(u, s[0], s[1]) + Int2(u, s[2], s[3])
  {
  }

  /** Year and month in full-width digits. */
  const FULL_WIDTH := "\U{FF12}\U{FF10}\U{FF12}\U{FF14}-\U{FF10}\U{FF11}"

  /** The client reads them; no CASE branch does. */
  lemma FullWidthDiffers(u: Digits)
    requires u.Sane()
    requires u.value('\U{FF10}') == Some(0) && u.value('\U{FF11}') == Some(1)
    requires u.value('\U{FF12}') == Some(2) && u.value('\U{FF14}') == Some(4)
    ensures Normalize(u, FULL_WIDTH) == Some(Format(Stamp(2024, 1, 1, 0, 0, 0)))
    ensures ServerExpand(FULL_WIDTH) == None
  {
    var s := FULL_WIDTH;
    assert |s| == 7 && s[4] == '-';
    assert ReadPrefix(u, s) == Some(Stamp(2024, 1, 1, 0, 0, 0));
    assert !Digit(s[0]);
  }

  // ----- text order is time order -----

  /** Python's and SQL's order on strings. */
  predicate Before(a: string, b: string) {
    if b == [] then false
    else if a == [] then true
    else if a[0] != b[0] then a[0] < b[0]
    else Before(a[1..], b[1..])
  }

  /** The comparisons in that order. */
  predicate TextCompare(cmp: Cmp, a: string, b: string) {
    match cmp case GT => Before(b, a) case LT => Before(a, b) case GE => !Before(a, b) case LE => !Before(b, a)
  }

  lemma {:induction false} BeforeConcat(a: string, b: string, x: string, y: string)
    requires |a| == |b|
    ensures Before(a + x, b + y) <==> Before(a, b) || (a == b && Before(x, y))
  {
    if a == [] {
      assert a + x == x && b + y == y;
    } else {
      BeforeConcat(a[1..], b[1..], x, y);
      assert (a + x)[1..] == a[1..] + x && (b + y)[1..] == b[1..] + y;
      assert a == [a[0]] + a[1..] && b == [b[0]] + b[1..];
    }
  }

  lemma BeforeSame(s: string)
    ensures !Before(s, s)
  {
    if s == [] {
    } else {
      BeforeSame(s[1..]);
    }
  }

  lemma TwoOrder(m: nat, n: nat)
    requires m < 100 && n < 100
    ensures Before(Two(m), Two(n)) <==> m < n
    ensures Two(m) == Two(n) <==> m == n
  {
    var a, b, c, d := [Chr(m / 10)], [Chr(m % 10)], [Chr(n / 10)], [Chr(n % 10)];
    assert Two(m) == a + b && Two(n) == c + d;
    BeforeConcat(a, c, b, d);
    OneOrder(m / 10, n / 10);
    OneOrder(m % 10, n % 10);
    hide Before, Two, Chr;
    assert (a + b)[..1] == a && (a + b)[1..] == b && (c + d)[..1] == c && (c + d)[1..] == d;
  }

  lemma OneOrder(m: nat, n: nat)
    requires m < 10 && n < 10
    ensures Before([Chr(m)], [Chr(n)]) <==> m < n
    ensures [Chr(m)] == [Chr(n)] <==> m == n
  {
    assert [Chr(m)][1..] == [] && [Chr(n)][1..] == [];
    assert [Chr(m)][0] == Chr(m) && [Chr(n)][0] == Chr(n);
  }

  lemma YearOrder(m: nat, n: nat)
    requires 1000 <= m <= 9999 && 1000 <= n <= 9999
    ensures |YearText(m)| == |YearText(n)| == 4
    ensures Before(YearText(m), YearText(n)) <==> m < n
    ensures YearText(m) == YearText(n) <==> m == n
  {
    var a, b, c, d := m / 100, m % 100, n / 100, n % 100;
    assert YearText(m) == Two(a) + Two(b) && YearText(n) == Two(c) + Two(d);
    hide Before, YearText;
    BeforeConcat(Two(a), Two(c), Two(b), Two(d));
    TwoOrder(a, c);
    TwoOrder(b, d);
    hide Two;
    TwoLength(a);
    TwoLength(c);
    assert (Two(a) + Two(b))[..2] == Two(a) && (Two(a) + Two(b))[2..] == Two(b);
    assert (Two(c) + Two(d))[..2] == Two(c) && (Two(c) + Two(d))[2..] == Two(d);
  }

  /** Earlier, field by field. */
  predicate Earlier(a: Stamp, b: Stamp) {
    a.year < b.year || (a.year == b.year &&
    (a.month < b.month || (a.month == b.month &&
    (a.day < b.day || (a.day == b.day &&
    (a.hour < b.hour || (a.hour == b.hour &&
    (a.minute < b.minute || (a.minute == b.minute && a.second < b.second)))))))))
  }

  /** A separator and a two-digit field in front of texts that are already ordered. */
  lemma FieldOrder(sep: string, m: nat, n: nat, x: string, y: string)
    requires m < 100 && n < 100
    ensures Before(sep + Two(m) + x, sep + Two(n) + y) <==> m < n || (m == n && Before(x, y))
  {
    hide Two, Before;
    BeforeConcat(sep, sep, Two(m) + x, Two(n) + y);
    assert sep + Two(m) + x == sep + (Two(m) + x) && sep + Two(n) + y == sep + (Two(n) + y);
    BeforeSame(sep);
    TwoLength(m);
    TwoLength(n);
    BeforeConcat(Two(m), Two(n), x, y);
    TwoOrder(m, n);
  }

  lemma TwoLength(m: nat)
    requires m < 100
    ensures |Two(m)| == 2
  {
  }

  function Tail2(t: Stamp): string requires t.Valid() { ":" + Two(t.second) + "" }
  function Tail3(t: Stamp): string requires t.Valid() { ":" + Two(t.minute) + Tail2(t) }
  function Tail4(t: Stamp): string requires t.Valid() { " " + Two(t.hour) + Tail3(t) }
  function Tail5(t: Stamp): string requires t.Valid() { "-" + Two(t.day) + Tail4(t) }
  function Tail6(t: Stamp): string requires t.Valid() { "-" + Two(t.month) + Tail5(t) }

  lemma TextOrder(a: Stamp, b: Stamp)
    requires a.Valid() && b.Valid() && a.year >= 1000 && b.year >= 1000
    ensures Before(Format(a), Format(b)) <==> Earlier(a, b)
  {
    hide Before, Two, YearText;
    assert Format(a) == YearText(a.year) + Tail6(a) && Format(b) == YearText(b.year) + Tail6(b);
    YearOrder(a.year, b.year);
    BeforeConcat(YearText(a.year), YearText(b.year), Tail6(a), Tail6(b));
    FieldOrder("-", a.month, b.month, Tail5(a), Tail5(b));
    FieldOrder("-", a.day, b.day, Tail4(a), Tail4(b));
    FieldOrder(" ", a.hour, b.hour, Tail3(a), Tail3(b));
    FieldOrder(":", a.minute, b.minute, Tail2(a), Tail2(b));
    FieldOrder(":", a.second, b.second, "", "");
    BeforeSame("");
  }

  lemma {:induction false} MonthsAdd(y: nat, m: nat, n: nat)
    requires 1 <= m < n
    ensures DaysBeforeMonth(y, m) + DaysIn(y, m) <= DaysBeforeMonth(y, n)
    decreases n
  {
    if m >= n - 1 {
    } else {
      MonthsAdd(y, m, n - 1);
    }
  }

  lemma {:induction false} YearsAdd(y: nat, z: nat)
    requires 1 <= y < z
    ensures DaysBeforeYear(y) + DaysBeforeMonth(y, 13) <= DaysBeforeYear(z)
    decreases z
  {
    hide DaysBeforeMonth;
    if y >= z - 1 {
    } else {
      YearsAdd(y, z - 1);
    }
  }

  function DayNumber(t: Stamp): nat {
    DaysBeforeYear(t.year) + DaysBeforeMonth(t.year, t.month) + t.day
  }

  lemma DayOrder(a: Stamp, b: Stamp)
    requires a.Valid() && b.Valid()
    requires a.year < b.year || (a.year == b.year && (a.month < b.month || (a.month == b.month && a.day < b.day)))
    ensures DayNumber(a) < DayNumber(b)
  {
    hide DaysIn, DaysBeforeMonth, DaysBeforeYear;
    if a.year < b.year {
      YearsAdd(a.year, b.year);
      MonthsAdd(a.year, a.month, 13);
    } else if a.month < b.month {
      MonthsAdd(a.year, a.month, b.month);
    }
  }

  lemma SecondsMonotone(a: Stamp, b: Stamp)
    requires a.Valid() && b.Valid() && Earlier(a, b)
    ensures Seconds(a) < Seconds(b)
  {
    hide DaysIn, DaysBeforeMonth, DaysBeforeYear;
    assert Seconds(a) == ((DayNumber(a) * 24 + a.hour) * 60 + a.minute) * 60 + a.second;
    assert Seconds(b) == ((DayNumber(b) * 24 + b.hour) * 60 + b.minute) * 60 + b.second;
    if a.year < b.year || (a.year == b.year && (a.month < b.month || (a.month == b.month && a.day < b.day))) {
      DayOrder(a, b);
    }
  }

  /** On the normalized fixed-width texts, string order is chronological order. */
  lemma OrderIsChronological(a: Stamp, b: Stamp)
    requires a.Valid() && b.Valid() && a.year >= 1000 && b.year >= 1000
    ensures Before(Format(a), Format(b)) <==> Seconds(a) < Seconds(b)
  {
    TextOrder(a, b);
    hide Before, Format, Seconds, DaysIn;
    if Earlier(a, b) {
      SecondsMonotone(a, b);
    } else if Earlier(b, a) {
      SecondsMonotone(b, a);
    } else {
      assert a == b;
    }
  }

  // ----- moments -----

  /** `to_timestamp(text, 'YYYY-MM-DD HH24:MI:SS')`, as seconds since year 1; None when
      it raises.  Only texts with a four-digit year are pinned down. */
  type Clock = string -> Option<int>

  /** The text with the year padded to four digits, as the server builds it. */
  function Padded(t: Stamp): string
    requires t.Valid()
  {
    Two(t.year / 100) + Two(t.year % 100) + Tail6(t)
  }

  ghost predicate Reads(clock: Clock) {
    forall t: Stamp {:trigger Padded(t)} :: t.Valid() ==> clock(Padded(t)) == Some(Seconds(t))
  }

  lemma PaddedFields(t: Stamp)
    requires t.Valid()
    ensures var p := Padded(t);
      && |p| == 19 && p[..2] == Two(t.year / 100) && p[2..4] == Two(t.year % 100) && p[5..7] == Two(t.month)
      && p[8..10] == Two(t.day) && p[11..13] == Two(t.hour) && p[14..16] == Two(t.minute) && p[17..] == Two(t.second)
  {
    TwoLength(t.year / 100);
    TwoLength(t.year % 100);
    TwoLength(t.month);
    TwoLength(t.day);
    TwoLength(t.hour);
    TwoLength(t.minute);
    TwoLength(t.second);
    hide Two;
  }

  lemma TwoDiffer(m: nat, n: nat)
    requires m < 100 && n < 100 && Two(m) == Two(n)
    ensures m == n
  {
    assert Two(m)[0] == Chr(m / 10) && Two(m)[1] == Chr(m % 10);
    assert Two(n)[0] == Chr(n / 10) && Two(n)[1] == Chr(n % 10);
  }

  lemma PaddedOnce(a: Stamp, b: Stamp)
    requires a.Valid() && b.Valid() && Padded(a) == Padded(b)
    ensures a == b
  {
    PaddedFields(a);
    PaddedFields(b);
    hide Padded, Two;
    TwoDiffer(a.year / 100, b.year / 100);
    TwoDiffer(a.year % 100, b.year % 100);
    TwoDiffer(a.month, b.month);
    TwoDiffer(a.day, b.day);
    TwoDiffer(a.hour, b.hour);
    TwoDiffer(a.minute, b.minute);
    TwoDiffer(a.second, b.second);
  }

  ghost function PaddedClock(s: string): Option<int> {
    if t: Stamp :| t.Valid() && Padded(t) == s then Some(Seconds(t)) else None
  }

  /** Such a clock exists: no two moments have the same padded text. */
  lemma ClockReads()
    ensures Reads((s: string) => PaddedClock(s))
  {
    hide Padded, Seconds;
    forall t: Stamp | t.Valid() ensures PaddedClock(Padded(t)) == Some(Seconds(t)) {
      forall u: Stamp | u.Valid() && Padded(u) == Padded(t) ensures u == t {
        PaddedOnce(u, t);
      }
    }
  }

  /** From year 1000 on the client writes the padded text. */
  lemma FormatIsPadded(t: Stamp)
    requires t.Valid()
    ensures Format(t) == Padded(t) <==> t.year >= 1000
  {
    hide Two;
    assert Format(t) == YearText(t.year) + Tail6(t);
    TwoLength(t.year / 100);
    TwoLength(t.year % 100);
    hide Tail6;
    assert t.year < 1000 ==> |YearText(t.year)| < 4 by {
      if t.year < 1000 && t.year >= 100 { TwoLength(t.year % 100); }
      if t.year < 100 && t.year >= 10 { TwoLength(t.year); }
    }
    if t.year < 1000 {
      assert |Format(t)| < |Padded(t)|;
    }
  }

  /** What the server reads of a stored text is its moment, whatever the year. */
  lemma ServerMoment(u: Digits, clock: Clock, s: string)
    requires u.Sane() && Reads(clock) && AsciiDigits(u, s)
    requires ReadPrefix(u, s).Some? && ReadPrefix(u, s).value.Valid()
    ensures ServerExpand(s).Some? && clock(ServerExpand(s).value) == Some(Seconds(ReadPrefix(u, s).value))
  {
    var t := ReadPrefix(u, s).value;
    ShapesAgreeIff(u, s);
    ServerText(s);
    ClientText(u, s);
    YearDigits(u, s);
    TwoDigits(u, s[0], s[1]);
    TwoDigits(u, s[2], s[3]);
    hide ServerExpand, FitsSome, AsciiDigits, ReadPrefix, Seconds, Wide, YearText;
    WideStart(s);
    assert t.year / 100 == Int2(u, s[0], s[1]) && t.year % 100 == Int2(u, s[2], s[3]);
    TailText(s, t);
    assert Wide(s) == Wide(s)[..4] + Wide(s)[4..];
    assert [s[0], s[1]] + [s[2], s[3]] == [s[0], s[1], s[2], s[3]];
    assert Wide(s) == Padded(t);
  }

  lemma TailText(s: string, t: Stamp)
    requires t.Valid() && |s| in {7, 10, 13, 16, 19}
    requires |Wide(s)| >= 4 && Format(t) == YearText(t.year) + Wide(s)[4..]
    ensures Wide(s)[4..] == Tail6(t)
  {
    hide Two, Wide, YearText;
    assert Format(t) == YearText(t.year) + Tail6(t);
    var y := |YearText(t.year)|;
    assert Format(t)[y..] == Wide(s)[4..] && Format(t)[y..] == Tail6(t);
  }

  predicate Compare(cmp: Cmp, a: int, b: int) {
    match cmp case GT => a > b case LT => a < b case GE => a >= b case LE => a <= b
  }

  /** `CASE ... END op to_timestamp(bound)`: unknown when no branch applies. */
  function TimeTest(clock: Clock, stored: string, cmp: Cmp, bound: string): Tri {
    var a, b := ServerExpand(stored), clock(bound);
    if a.None? || clock(a.value).None? || b.None? then Null else Of(Compare(cmp, clock(a.value).value, b.value))
  }

  /** All four comparisons compare moments in time: true exactly of the stored texts in
      ASCII digits whose moment is so related to the bound's.  The bound must be read
      back by the server, as it is from year 1000 on. */
  lemma TimeTestIsChronological(u: Digits, clock: Clock, stored: string, cmp: Cmp, bound: string)
    requires u.Sane() && Reads(clock)
    requires ReadPrefix(u, stored).Some? ==> ReadPrefix(u, stored).value.Valid()
    requires Normalize(u, bound).Some?
    requires var b := ReadPrefix(u, bound).value; b.year >= 1000 || clock(Format(b)) == Some(Seconds(b))
    ensures TimeTest(clock, stored, cmp, Normalize(u, bound).value) == True <==>
            && ReadPrefix(u, stored).Some? && AsciiDigits(u, stored)
            && Compare(cmp, Seconds(ReadPrefix(u, stored).value), Seconds(ReadPrefix(u, bound).value))
  {
    var b := ReadPrefix(u, bound).value;
    FormatIsPadded(b);
    ShapesAgreeIff(u, stored);
    if ReadPrefix(u, stored).Some? && AsciiDigits(u, stored) {
      ServerMoment(u, clock, stored);
    }
    hide ServerExpand, FitsSome, AsciiDigits, ReadPrefix, Seconds, Format, Padded;
  }
}
