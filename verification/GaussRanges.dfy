/** Range filters on dates: texts in memory, moments in GaussDB. */
module GaussRanges {
  import opened Text
  import opened Python
  import opened MetaFilter
  import opened Coercion
  import opened SqlSyntax
  import opened GaussFilter
  import opened GaussProofs
  import opened GaussMemory
  import opened TextDocs
  import opened GaussDates
  import GaussStatement

  /** A date as both sides take it: ten characters, ASCII digits, valid, padded year. */
  predicate PlainDate(u: Digits, s: string) {
    && |s| == 10 && ReadPrefix(u, s).Some? && AsciiDigits(u, s)
    && ReadPrefix(u, s).value.Valid() && ReadPrefix(u, s).value.year >= 1000
  }

  function Moment(u: Digits, s: string): nat
    requires ReadPrefix(u, s).Some?
  {
    Seconds(ReadPrefix(u, s).value)
  }

  /** The runtime takes ASCII digits for digits and not for blanks, and orders texts; the
      statement's dates are those of the client and of the server's clock. */
  ghost predicate Dated(h: Host, e: Engine, rd: Reading, u: Digits, clock: Clock) {
    && u.Sane() && Reads(clock)
    && (forall c: char {:trigger h.digit(c)} :: Digit(c) ==> h.digit(c) && !h.space(c))
    && (forall c, a, b :: h.order(c, PStr(a), PStr(b)) == Some(TextCompare(c, a, b)))
    && (forall s :: rd.stamp(s) == GaussDates.Normalize(u, s))
    && (forall s, c, b :: e.time(s, c, b) == TimeTest(clock, s, c, b))
  }

  lemma DateText(u: Digits, s: string)
    requires u.Sane() && PlainDate(u, s)
    ensures GaussDates.Normalize(u, s) == Some(Format(ReadPrefix(u, s).value))
    ensures Format(ReadPrefix(u, s).value) == s + " 00:00:00"
  {
    ExpansionsAgreeIff(u, s);
    ShapesAgreeIff(u, s);
    BranchByLength(s);
    hide ReadPrefix, ServerExpand, FitsSome, AsciiDigits, Format;
  }

  /** On dates the order of texts is the order of moments. */
  lemma DatesCompare(u: Digits, cmp: Cmp, a: string, b: string)
    requires u.Sane() && PlainDate(u, a) && PlainDate(u, b)
    ensures TextCompare(cmp, a, b) <==> Compare(cmp, Moment(u, a), Moment(u, b))
  {
    DateText(u, a);
    DateText(u, b);
    var x, y := ReadPrefix(u, a).value, ReadPrefix(u, b).value;
    OrderIsChronological(x, y);
    OrderIsChronological(y, x);
    hide ReadPrefix, AsciiDigits, Format, Seconds, Before;
    BeforeConcat(a, b, " 00:00:00", " 00:00:00");
    BeforeConcat(b, a, " 00:00:00", " 00:00:00");
    BeforeSame(" 00:00:00");
  }

  /** A timestamp in ASCII digits begins and ends with one. */
  lemma StampEnds(u: Digits, s: string)
    requires u.Sane() && ReadPrefix(u, s).Some? && AsciiDigits(u, s)
    ensures |s| in {7, 10, 13, 16, 19} && Digit(s[0]) && Digit(s[|s| - 1])
  {
  }

  lemma StampTrim(h: Host, e: Engine, rd: Reading, u: Digits, clock: Clock, s: string)
    requires Dated(h, e, rd, u, clock) && ReadPrefix(u, s).Some? && AsciiDigits(u, s)
    ensures h.Trim(s) == s
  {
    StampEnds(u, s);
    assert h.digit(s[0]) && h.digit(s[|s| - 1]);
    hide ReadPrefix, AsciiDigits;
  }

  lemma DateChars(u: Digits, s: string)
    requires u.Sane() && PlainDate(u, s)
    ensures s[4] == '-' && s[7] == '-' && forall i :: 0 <= i < 10 && i != 4 && i != 7 ==> Digit(s[i])
  {
  }

  lemma DateIsDate(h: Host, e: Engine, rd: Reading, u: Digits, clock: Clock, s: string)
    requires Dated(h, e, rd, u, clock) && PlainDate(u, s)
    ensures h.Trim(s) == s && h.IsDate(s)
  {
    StampTrim(h, e, rd, u, clock, s);
    DateChars(u, s);
    assert forall i :: 0 <= i < 10 && i != 4 && i != 7 ==> h.digit(s[i]);
    hide PlainDate;
  }

  /** With a date as the bound, all four comparisons agree on every document that stores a
      date. */
  lemma RangeOnDates(h: Host, e: Engine, rd: Reading, u: Digits, clock: Clock, k: string, cmp: Cmp,
                     bound: string, t: string)
    requires Dated(h, e, rd, u, clock) && ValidKey(k) && PlainDate(u, bound) && PlainDate(u, t)
    ensures Agrees(h, e, rd, Filter(k, Range(cmp), PStr(bound)), One(t))
  {
    var f := Filter(k, Range(cmp), PStr(bound));
    DateIsDate(h, e, rd, u, clock, bound);
    DateIsDate(h, e, rd, u, clock, t);
    DateText(u, bound);
    DatesCompare(u, cmp, t, bound);
    OneInMemory(h, f, t);
    hide PlainDate, Host.Trim, Host.IsDate, Asks, InMemory;
    RangeAsks(h, e, rd, u, clock, k, cmp, bound, t);
    DatesMatch(h, e, rd, u, clock, cmp, bound, t);
    hide Matched, Dated;
  }

  lemma DatesMatch(h: Host, e: Engine, rd: Reading, u: Digits, clock: Clock, cmp: Cmp, bound: string, t: string)
    requires Dated(h, e, rd, u, clock) && h.Trim(t) == t && h.IsDate(t) && h.Trim(bound) == bound && h.IsDate(bound)
    ensures Matched(h, Range(cmp), t, PStr(bound)) <==> TextCompare(cmp, t, bound)
  {
    hide Host.Trim, Host.IsDate, TextCompare;
  }

  lemma RangeAsks(h: Host, e: Engine, rd: Reading, u: Digits, clock: Clock, k: string, cmp: Cmp,
                  bound: string, t: string)
    requires Dated(h, e, rd, u, clock) && ValidKey(k) && h.Trim(bound) == bound && PlainDate(u, bound)
    requires ReadPrefix(u, t).Some? && ReadPrefix(u, t).value.Valid() && AsciiDigits(u, t)
    ensures Asks(h, e, rd, Holding(One(t)), Filter(k, Range(cmp), PStr(bound))) <==>
            Compare(cmp, Moment(u, t), Moment(u, bound))
  {
    DateText(u, bound);
    var b := ReadPrefix(u, bound).value;
    assert b.year >= 1000;
    hide ReadPrefix, AsciiDigits, Format, Seconds, Asks, TimeTest, GaussDates.Normalize, Reads, Host.Trim, PlainDate,
         ValidKey, Compare, TextCompare, Digit;
    var d := Holding(One(t));
    assert TextAt(e, d, k) == Some(t);
    assert h.Str(PStr(bound)) == bound;
    GaussStatement.RangeSelectsMoments(h, e, rd, d, Filter(k, Range(cmp), PStr(bound)), cmp, u, clock);
    hide Dated;
  }

  /** A stored timestamp of another shape (a month, or one with a time) is compared by the
      statement and skipped in memory: they agree if and only if the comparison fails. */
  lemma RangeOnStampsIff(h: Host, e: Engine, rd: Reading, u: Digits, clock: Clock, k: string, cmp: Cmp,
                         bound: string, t: string)
    requires Dated(h, e, rd, u, clock) && ValidKey(k) && PlainDate(u, bound)
    requires ReadPrefix(u, t).Some? && ReadPrefix(u, t).value.Valid() && AsciiDigits(u, t) && |t| != 10
    ensures Agrees(h, e, rd, Filter(k, Range(cmp), PStr(bound)), One(t)) <==>
            !Compare(cmp, Moment(u, t), Moment(u, bound))
  {
    DateIsDate(h, e, rd, u, clock, bound);
    StampTrim(h, e, rd, u, clock, t);
    OneInMemory(h, Filter(k, Range(cmp), PStr(bound)), t);
    assert !h.IsDate(t);
    hide PlainDate, Host.Trim, Host.IsDate, Asks, InMemory, ReadPrefix, AsciiDigits, Seconds, ValidKey, Compare;
    RangeAsks(h, e, rd, u, clock, k, cmp, bound, t);
    SkippedBucket(h, cmp, t, bound);
    hide Matched, Dated;
  }

  lemma SkippedBucket(h: Host, cmp: Cmp, t: string, bound: string)
    requires h.Trim(bound) == bound && h.IsDate(bound) && !h.IsDate(h.Trim(t))
    ensures !Matched(h, Range(cmp), t, PStr(bound))
  {
    hide Host.Trim, Host.IsDate;
  }

  /** Such runtimes, engines and clocks exist. */
  lemma SomeDated() returns (h: Host, e: Engine, rd: Reading, u: Digits, clock: Clock)
    ensures Dated(h, e, rd, u, clock)
  {
    u := Digits((c: char) => if '0' <= c <= '9' then Some(c as int - '0' as int) else None);
    clock := (s: string) => PaddedClock(s);
    ClockReads();
    h := Host((c: char) => c, (c: char) => c == ' ', (c: char) => '0' <= c <= '9',
              (s: string) => None, (v: PyVal) => "", (v: PyVal, s: string) => None, (v: PyVal) => true,
              (c: Cmp, v: PyVal, w: PyVal) => if v.PStr? && w.PStr? then Some(TextCompare(c, v.s, w.s)) else None);
    e := Engine((c: char) => c, (v: Json) => "", (v: PyVal) => JNull,
                (s: string, c: Cmp, b: string) => TimeTest(clock, s, c, b),
                (s: string) => false, (s: string, c: Cmp, b: PyVal) => false);
    rd := Reading((s: string) => GaussDates.Normalize(u, s), (s: string) => None);
    hide GaussDates.Normalize, TimeTest, Reads;
  }
}
