/** Infinity filters on lists, on dates and on documents without a value: when they select
    what `meta_filter` selects. */
module InfinityLists {
  import opened Text
  import opened Python
  import opened MetaFilter
  import opened Coercion
  import opened SqlSyntax
  import opened InfinityFilter
  import opened InfinityMemory
  import opened TextDocs
  import Es = EsPushdown
  import GaussDates

  // ----- membership -----

  lemma DecodedNotEmpty(db: Database, s: string)
    requires s != [] && Decoded(db, s).Some?
    ensures Decoded(db, s).value != []
  {
    var t := s + "\"";
    assert t[0] == s[0] && |t[1..]| == |s|;
  }

  lemma PieceAsked(h: Host, db: Database, m: PyVal)
    requires h.Sane() && Es.CleanPiece(h, m)
    ensures Asked(h, db, m) != Some("")
  {
    var n := h.Trim(h.Lower(m.s));
    TrimLower(h, m.s);
    SameLength(h, m.s);
    hide Decoded, Host.Trim, Host.Lower;
    assert |n| > 0;
    if Decoded(db, n).Some? {
      DecodedNotEmpty(db, n);
    }
  }

  /** `in` with a plain text is a substring test in memory and a list test here: no such
      filter agrees on every text. */
  lemma InTextNever(h: Host, db: Database, k: string, s: string)
    requires h.Sane() && ValidKey(k)
    requires var p := h.eval(s); p.None? || !(p.value.PList? || p.value.PTuple?)
    ensures !OnTexts(h, db, Filter(k, In, PStr(s)))
  {
    var f, ms := Filter(k, In, PStr(s)), SplitCommas(h, s, []);
    Es.EmptyTextIsEverywhere(h, s);
    OneInMemory(h, f, "");
    Es.SplitIsClean(h, s, []);
    assert Coercion.RawMembers(h, PStr(s)) == Coercion.RawMembers(h, PList(ms)) == ms;
    assert Es.AllText(ms) by {
      assert forall i :: 0 <= i < |ms| ==> Es.CleanPiece(h, ms[i]);
    }
    hide SplitCommas, Matched, InMemory;
    if ms != [] {
      MembersPick(h, db, k, ms, One(""));
      TextPicks(h, db, k, s, ms, One(""));
      forall i | 0 <= i < |ms| ensures Asked(h, db, ms[i]) != Some("") {
        assert Es.CleanPiece(h, ms[i]);
        PieceAsked(h, db, ms[i]);
      }
      hide Picks, Translate, Asked, Es.CleanPiece;
    }
    assert !Agrees(h, db, f, One(""));
  }

  /** A text that is split asks as the list of its pieces does. */
  lemma TextPicks(h: Host, db: Database, k: string, s: string, ms: seq<PyVal>, st: Stored)
    requires ms != [] && Coercion.RawMembers(h, PStr(s)) == ms && Translate(h, Filter(k, In, PList(ms))).Ok?
    ensures Translate(h, Filter(k, In, PStr(s))).Ok?
    ensures Picks(h, db, Filter(k, In, PStr(s)), st) <==> Picks(h, db, Filter(k, In, PList(ms)), st)
    ensures Translate(h, Filter(k, NotIn, PStr(s))) == Translate(h, Filter(k, NotIn, PList(ms)))
    ensures Translate(h, Filter(k, NotIn, PStr(s))).Ok? ==>
            (Picks(h, db, Filter(k, NotIn, PStr(s)), st) <==> Picks(h, db, Filter(k, NotIn, PList(ms)), st))
  {
    assert Coercion.RawMembers(h, PList(ms)) == ms;
    hide Coercion.RawMembers, NormalMembers, Membership, HasMembers, OrAll, About;
    assert CsvOrList(h, PStr(s)) == CsvOrList(h, PList(ms));
  }

  /** The database decodes no text of the member. */
  predicate Lost(h: Host, db: Database, m: PyVal) {
    var c := CoerceRange(h, NormalMember(h, m));
    c.Ok? && !IsNumber(c.value) && Decoded(db, h.Str(c.value)).None?
  }

  ghost predicate SomeLost(h: Host, db: Database, ms: seq<PyVal>) {
    exists i :: 0 <= i < |ms| && Lost(h, db, ms[i])
  }

  lemma MemberFails(h: Host, db: Database, k: string, m: PyVal, st: Stored)
    requires m.PStr? && (st.One? || st.Many?)
    ensures CoerceRange(h, NormalMember(h, m)).Ok?
    ensures Has(h, About(db, st), k, CoerceRange(h, NormalMember(h, m)).value) == False <==>
            !Lost(h, db, m) && !(Asked(h, db, m).Some? && HasText(st, Asked(h, db, m).value))
  {
    var v := CoerceRange(h, NormalMember(h, m)).value;
    if !IsNumber(v) {
      HoldsIs(db, st, h.Str(v));
    }
    hide Decoded, Holds, ReadJson, Host.Trim, Host.Lower;
  }

  lemma NotMembersPick(h: Host, db: Database, k: string, ms: seq<PyVal>, st: Stored)
    requires ValidKey(k) && ms != [] && Es.AllText(ms) && (st.One? || st.Many?)
    ensures Translate(h, Filter(k, NotIn, PList(ms))).Ok?
    ensures Picks(h, db, Filter(k, NotIn, PList(ms)), st) <==> !SomeLost(h, db, ms) && !AskedSome(h, db, ms, st)
  {
    TextMembers(h, ms);
    ListIntended(h, db, k, ms, st);
    hide CoerceRange, Has, Asked, HasText, NormalMember, About, OrAll, Intended, Translate, ValidKey, Es.AllText, Lost;
    var vs := HasMembers(h, About(db, st), k, NormalMembers(h, ms));
    forall i | 0 <= i < |ms|
      ensures vs[i] == False <==>
              !Lost(h, db, ms[i]) && !(Asked(h, db, ms[i]).Some? && HasText(st, Asked(h, db, ms[i]).value))
    {
      MemberFails(h, db, k, ms[i], st);
    }
    hide HasMembers, NormalMembers;
    OrAllTrue(vs);
    if forall i :: 0 <= i < |vs| ==> vs[i] == False {
      forall i | 0 <= i < |ms|
        ensures !Lost(h, db, ms[i]) && !(Asked(h, db, ms[i]).Some? && HasText(st, Asked(h, db, ms[i]).value))
      {
        assert vs[i] == False;
      }
    }
  }

  /** Nor does `not in` with a plain text agree on every text. */
  lemma NotInTextNever(h: Host, db: Database, k: string, s: string)
    requires h.Sane() && ValidKey(k)
    requires var p := h.eval(s); p.None? || !(p.value.PList? || p.value.PTuple?)
    ensures !OnTexts(h, db, Filter(k, NotIn, PStr(s)))
  {
    var f, ms, t := Filter(k, NotIn, PStr(s)), SplitCommas(h, s, []), s + "a";
    NotInTextInMemory(h, s);
    OneInMemory(h, f, "");
    OneInMemory(h, f, t);
    Es.SplitIsClean(h, s, []);
    assert Coercion.RawMembers(h, PStr(s)) == Coercion.RawMembers(h, PList(ms)) == ms;
    assert Es.AllText(ms) by {
      assert forall i :: 0 <= i < |ms| ==> Es.CleanPiece(h, ms[i]);
    }
    hide SplitCommas, Matched, InMemory;
    if ms != [] {
      MembersPick(h, db, k, ms, One(""));
      NotMembersPick(h, db, k, ms, One(""));
      NotMembersPick(h, db, k, ms, One(t));
      TextPicks(h, db, k, s, ms, One(""));
      TextPicks(h, db, k, s, ms, One(t));
      forall i | 0 <= i < |ms| ensures Asked(h, db, ms[i]) != Some("") {
        assert Es.CleanPiece(h, ms[i]);
        PieceAsked(h, db, ms[i]);
      }
      hide Picks, Translate, Asked, Es.CleanPiece, SomeLost;
    }
    assert !Agrees(h, db, f, One("")) || !Agrees(h, db, f, One(t));
  }

  lemma NotInAsksSame(h: Host, db: Database, k: string, ms: seq<PyVal>)
    requires ValidKey(k) && ms != [] && Es.AllText(ms)
    ensures OnTexts(h, db, Filter(k, NotIn, PList(ms))) <==> !SomeLost(h, db, ms) && SameTexts(h, db, ms)
  {
    var f := Filter(k, NotIn, PList(ms));
    forall t
      ensures Agrees(h, db, f, One(t)) <==>
              (!SomeLost(h, db, ms) && !Among(h, db, ms, t) <==> !Es.AmongLower(h, ms, false, t))
    {
      NotMembersPick(h, db, k, ms, One(t));
      OneInMemory(h, f, t);
      Es.InListInMemory(h, ms, t);
      hide Picks, InMemory, Matched, Translate, Asked, Es.AmongLower, SomeLost;
    }
    var y := Filler(ms);
    FillerNotAmong(h, ms, y);
    hide Agrees, Among, Es.AmongLower, SomeLost;
    assert SomeLost(h, db, ms) ==> !Agrees(h, db, f, One(y));
  }

  lemma PlainsNotLost(h: Host, db: Database, ms: seq<PyVal>)
    requires Es.AllText(ms) && AllPlain(h, ms)
    ensures !SomeLost(h, db, ms)
  {
    forall i | 0 <= i < |ms| ensures !Lost(h, db, ms[i]) {
      assert Plain(h, ms[i].s);
      PlainAsked(h, db, ms[i]);
      hide Decoded, Plain;
    }
    hide Lost;
  }

  /** List `not in` agrees on every text under the same condition on its members as `in`:
      then none of them is lost in decoding, which would make it select nothing. */
  lemma NotInOnTextsIff(h: Host, db: Database, k: string, ms: seq<PyVal>)
    requires h.Sane() && ValidKey(k) && ms != [] && Es.AllText(ms)
    ensures OnTexts(h, db, Filter(k, NotIn, PList(ms))) <==> AllPlain(h, ms)
  {
    hide OnTexts, SameTexts, AllPlain, SomeLost, Host.Sane;
    NotInAsksSame(h, db, k, ms);
    SameTextsIff(h, db, ms);
    if AllPlain(h, ms) {
      PlainsNotLost(h, db, ms);
    }
  }

  ghost predicate SomeAsked(h: Host, db: Database, ms: seq<PyVal>, xs: seq<string>) {
    exists i :: 0 <= i < |xs| && Among(h, db, ms, xs[i])
  }

  lemma ManyAsked(h: Host, db: Database, ms: seq<PyVal>, xs: seq<string>)
    ensures AskedSome(h, db, ms, Many(xs)) <==> SomeAsked(h, db, ms, xs)
  {
    hide Asked;
    if AskedSome(h, db, ms, Many(xs)) {
      var i :| 0 <= i < |ms| && Asked(h, db, ms[i]).Some? && HasText(Many(xs), Asked(h, db, ms[i]).value);
      var j :| 0 <= j < |xs| && xs[j] == Asked(h, db, ms[i]).value;
      assert Among(h, db, ms, xs[j]);
    }
    if SomeAsked(h, db, ms, xs) {
      var j :| 0 <= j < |xs| && Among(h, db, ms, xs[j]);
      var i :| 0 <= i < |ms| && Asked(h, db, ms[i]) == Some(xs[j]);
      assert HasText(Many(xs), Asked(h, db, ms[i]).value);
    }
  }

  lemma InOnList(h: Host, db: Database, k: string, ms: seq<PyVal>, xs: seq<string>)
    requires ValidKey(k) && ms != [] && Es.AllText(ms)
    ensures Agrees(h, db, Filter(k, In, PList(ms)), Many(xs)) <==>
            (SomeAsked(h, db, ms, xs) <==> SomeAmong(h, ms, xs))
  {
    MembersPick(h, db, k, ms, Many(xs));
    ManyAsked(h, db, ms, xs);
    ManyInMemoryMembers(h, k, ms, xs);
    hide Picks, InMemory, Translate, AskedSome, SomeAsked, SomeAmong, ValidKey, Es.AllText;
  }

  lemma InListsAskSame(h: Host, db: Database, k: string, ms: seq<PyVal>)
    requires ValidKey(k) && ms != [] && Es.AllText(ms)
    ensures OnLists(h, db, Filter(k, In, PList(ms))) <==> SameTexts(h, db, ms)
  {
    var f := Filter(k, In, PList(ms));
    hide Among, Es.AmongLower, Agrees, ValidKey, Es.AllText;
    if OnLists(h, db, f) {
      forall t ensures Among(h, db, ms, t) <==> Es.AmongLower(h, ms, false, t) {
        var xs := [t];
        InOnList(h, db, k, ms, xs);
        assert xs[0] == t;
      }
    }
    if SameTexts(h, db, ms) {
      forall xs ensures Agrees(h, db, f, Many(xs)) {
        InOnList(h, db, k, ms, xs);
      }
    }
  }

  /** List `in` agrees on all lists under the same condition as on texts. */
  lemma InOnListsIff(h: Host, db: Database, k: string, ms: seq<PyVal>)
    requires h.Sane() && ValidKey(k) && ms != [] && Es.AllText(ms)
    ensures OnLists(h, db, Filter(k, In, PList(ms))) <==> AllPlain(h, ms)
  {
    hide OnLists, SameTexts, AllPlain, Host.Sane;
    InListsAskSame(h, db, k, ms);
    SameTextsIff(h, db, ms);
  }

  /** `not in` never does: it wants no member asked for, memory some that is not. */
  lemma NotInNeverOnLists(h: Host, db: Database, k: string, ms: seq<PyVal>)
    requires ValidKey(k) && ms != [] && Es.AllText(ms)
    ensures !OnLists(h, db, Filter(k, NotIn, PList(ms)))
  {
    var f := Filter(k, NotIn, PList(ms));
    var y := Filler(ms);
    FillerNotAmong(h, ms, y);
    var xs := NotInApart(h, db, ms, y);
    NotMembersPick(h, db, k, ms, Many(xs));
    ManyInMemoryMembers(h, k, ms, xs);
    hide Picks, InMemory, Translate, AskedSome, SomeLost, Es.AmongLower;
    assert !Agrees(h, db, f, Many(xs));
  }

  lemma NotInApart(h: Host, db: Database, ms: seq<PyVal>, y: string) returns (xs: seq<string>)
    requires Es.AllText(ms) && !Es.AmongLower(h, ms, false, y)
    ensures (!SomeLost(h, db, ms) && !AskedSome(h, db, ms, Many(xs))) !=
            exists i :: 0 <= i < |xs| && !Es.AmongLower(h, ms, false, xs[i])
  {
    hide Asked, Es.AmongLower, Lost;
    if SomeLost(h, db, ms) {
      xs := [y];
      assert xs[0] == y;
    } else if i :| 0 <= i < |ms| && Asked(h, db, ms[i]).Some? {
      xs := [Asked(h, db, ms[i]).value, y];
      assert xs[1] == y && HasText(Many(xs), xs[0]);
    } else {
      xs := [];
    }
  }

  // ----- contains -----

  /** On lists `contains` agrees under the condition it has on texts. */
  lemma ContainsOnListsIff(h: Host, db: Database, k: string, value: PyVal)
    requires h.Sane() && Translate(h, Filter(k, Contains, value)).Ok?
    ensures OnLists(h, db, Filter(k, Contains, value)) <==>
            !value.PStr? && (Decoded(db, h.Str(value)).None? || !CoerceRange(h, value).value.PStr?)
  {
    var f, s := Filter(k, Contains, value), h.Str(value);
    forall xs
      ensures Agrees(h, db, f, Many(xs)) <==>
              (CoerceRange(h, value).value.PStr? && Decoded(db, s).Some? && Decoded(db, s).value in xs <==>
               value.PStr? && SomeContains(h, xs, s))
    {
      ContainsPicks(h, db, k, value, Many(xs));
      ManyInMemoryContains(h, k, value, xs);
      hide Picks, InMemory, Decoded, Translate, SomeContains, CoerceRange;
    }
    LongerContains(h, s);
    DecodedShorter(db, s);
    hide Agrees, Decoded, Occurs, CoerceRange, Host.Lower, Translate;
    assert [s + "a"][0] == s + "a";
    assert value.PStr? ==> !Agrees(h, db, f, Many([s + "a"]));
    if !value.PStr? && Decoded(db, s).Some? {
      var c := Decoded(db, s).value;
      assert Agrees(h, db, f, Many([c])) <==> !CoerceRange(h, value).value.PStr?;
    }
  }

  // ----- extraction -----

  lemma TwoInMemory(h: Host, f: Filter, s: string, t: string)
    ensures InMemory(h, f, Many([s, t])) <==> Matched(h, f.op, s, f.value) || Matched(h, f.op, t, f.value)
  {
    hide Matched;
    var xs := [s, t];
    assert Flat(Many(xs))[0] == s && Flat(Many(xs))[1] == t;
  }

  /** Whatever is extracted of a list, `start with` does not agree on all lists for two
      texts of which neither begins the other: one list has members for both. */
  lemma NoListExtraction(h: Host, db: Database, k: string, s: string, t: string)
    requires h.Sane() && ValidKey(k)
    requires !(s <= t) && !(t <= s)
    ensures !(OnLists(h, db, Filter(k, StartWith, PStr(s))) && OnLists(h, db, Filter(k, StartWith, PStr(t))))
  {
    var xs := [s, t];
    AffixPicks(h, db, k, PStr(s), Many(xs));
    AffixPicks(h, db, k, PStr(t), Many(xs));
    TwoInMemory(h, Filter(k, StartWith, PStr(s)), s, t);
    TwoInMemory(h, Filter(k, StartWith, PStr(t)), s, t);
    Es.AffixInMemory(h, PStr(s), s);
    Es.AffixInMemory(h, PStr(t), t);
    hide InMemory, Matched, Picks, Translate, Host.Lower;
    var x := db.extract(Many(xs));
    assert !Agrees(h, db, Filter(k, StartWith, PStr(s)), Many(xs)) ||
           !Agrees(h, db, Filter(k, StartWith, PStr(t)), Many(xs));
  }

  /** Nor do both `empty` and `not empty`. */
  lemma NoEmptyExtraction(h: Host, db: Database, k: string, v: PyVal)
    requires ValidKey(k)
    ensures !(OnLists(h, db, Filter(k, Empty, v)) && OnLists(h, db, Filter(k, NotEmpty, v)))
  {
    var xs := ["", "a"];
    OppositeEmptiness(h, "", v);
    OppositeEmptiness(h, "a", v);
    hide Matched;
    var f, g := Filter(k, Empty, v), Filter(k, NotEmpty, v);
    TwoInMemory(h, f, "", "a");
    TwoInMemory(h, g, "", "a");
    hide InMemory;
    assert !Agrees(h, db, f, Many(xs)) || !Agrees(h, db, g, Many(xs));
  }

  // ----- documents without a value -----

  /** Where nothing is extracted, no filter selects the document, and none does in memory. */
  lemma NoValueAgrees(h: Host, db: Database, f: Filter, st: Stored)
    requires Translate(h, f).Ok? && (st.Absent? || st.NullValue?)
    requires db.extract(st).None? && forall op, n :: db.number(st, op, n) == Null
    ensures Agrees(h, db, f, st)
  {
    NoneInMemory(h, f, st);
    if f.op.In? || f.op.NotIn? {
      NoMembers(h, db, f, st);
      hide InMemory, Translate, CsvOrList, HasMembers, OrAll, About;
    } else {
      forall v ensures Has(h, About(db, st), f.key, v) == Null {
        HasNothing(h, db, st, f.key, v);
      }
      hide InMemory, Translate, Has, CoerceRange, CoerceScalar, EndsWith, Holds;
    }
  }

  lemma HasNothing(h: Host, db: Database, st: Stored, k: string, v: PyVal)
    requires st.Absent? || st.NullValue?
    ensures Has(h, About(db, st), k, v) == Null
  {
    hide ReadJson, Host.Str;
  }

  lemma NoMembers(h: Host, db: Database, f: Filter, st: Stored)
    requires Translate(h, f).Ok? && (f.op.In? || f.op.NotIn?) && (st.Absent? || st.NullValue?)
    ensures OrAll(HasMembers(h, About(db, st), f.key, CsvOrList(h, f.value).value)) == Null
  {
    assert CsvOrList(h, f.value).Ok? && |CsvOrList(h, f.value).value| > 0 by { hide Membership; }
    hide Translate, CsvOrList, About, Has, OrAll, CoerceRange;
    var ms := CsvOrList(h, f.value).value;
    var vs := HasMembers(h, About(db, st), f.key, ms);
    forall i | 0 <= i < |vs| ensures vs[i] == Null {
      if CoerceRange(h, ms[i]).Ok? {
        HasNothing(h, db, st, f.key, CoerceRange(h, ms[i]).value);
      }
    }
    OrAllTrue(vs);
    hide HasMembers;
    assert vs[0] != False;
  }

  // ----- ranges -----

  /** The bound is a date, and the database reads it as the text it is. */
  predicate DateBound(h: Host, s: string) {
    h.Trim(s) == s && h.IsDate(s) && !(h.eval(s).Some? && IsNumber(h.eval(s).value))
  }

  lemma RangePicks(h: Host, db: Database, k: string, cmp: Cmp, bound: string, t: string)
    requires ValidKey(k) && DateBound(h, bound) && Plainly(db)
    ensures Translate(h, Filter(k, Range(cmp), PStr(bound))).Ok?
    ensures Picks(h, db, Filter(k, Range(cmp), PStr(bound)), One(t)) <==> db.order(cmp, t, bound)
  {
    assert db.extract(One(t)) == Some(t);
    hide Plainly, Host.Trim, Host.IsDate, Holds;
  }

  lemma DatesInMemory(h: Host, cmp: Cmp, bound: string, t: string)
    requires DateBound(h, bound)
    ensures Matched(h, Range(cmp), t, PStr(bound)) <==>
            h.IsDate(h.Trim(t)) && h.order(cmp, PStr(h.Trim(t)), PStr(bound)) == Some(true)
  {
    hide Host.Trim, Host.IsDate;
  }

  lemma RangeAgrees(h: Host, db: Database, k: string, cmp: Cmp, bound: string, t: string)
    requires ValidKey(k) && DateBound(h, bound) && Plainly(db)
    ensures Agrees(h, db, Filter(k, Range(cmp), PStr(bound)), One(t)) <==>
            (db.order(cmp, t, bound) <==>
             h.IsDate(h.Trim(t)) && h.order(cmp, PStr(h.Trim(t)), PStr(bound)) == Some(true))
  {
    RangePicks(h, db, k, cmp, bound, t);
    DatesInMemory(h, cmp, bound, t);
    OneInMemory(h, Filter(k, Range(cmp), PStr(bound)), t);
    hide Picks, InMemory, Matched, DateBound, Plainly, Host.Trim, Host.IsDate, Translate;
  }

  /** Where texts are extracted as they are and both sides order them by their characters,
      a range bounded by a date agrees on every stored date; on a date with blanks around
      it, exactly if the blanks do not change the comparison; and on any text that is no
      date, which memory skips, exactly if it is not so ordered against the bound. */
  lemma RangeOnTextIff(h: Host, db: Database, k: string, cmp: Cmp, bound: string, t: string)
    requires ValidKey(k) && DateBound(h, bound) && Plainly(db)
    requires forall a, b :: db.order(cmp, a, b) <==> GaussDates.TextCompare(cmp, a, b)
    requires forall a, b :: h.order(cmp, PStr(a), PStr(b)) == Some(GaussDates.TextCompare(cmp, a, b))
    ensures var agree, u := Agrees(h, db, Filter(k, Range(cmp), PStr(bound)), One(t)), h.Trim(t);
      && (h.IsDate(u) && u == t ==> agree)
      && (h.IsDate(u) ==>
           (agree <==> (GaussDates.TextCompare(cmp, t, bound) <==> GaussDates.TextCompare(cmp, u, bound))))
      && (!h.IsDate(u) ==> (agree <==> !GaussDates.TextCompare(cmp, t, bound)))
  {
    RangeAgrees(h, db, k, cmp, bound, t);
    hide Agrees, DateBound, Plainly, Host.Trim, Host.IsDate, GaussDates.TextCompare;
  }

  /** So ranges bounded by dates do not agree on all texts, if texts are ordered by their
      characters. */
  lemma RangeNeverOnTexts(h: Host, db: Database, k: string, cmp: Cmp, bound: string)
    requires ValidKey(k) && DateBound(h, bound) && Plainly(db)
    requires forall a, b :: db.order(cmp, a, b) <==> GaussDates.TextCompare(cmp, a, b)
    ensures !OnTexts(h, db, Filter(k, Range(cmp), PStr(bound)))
  {
    var f, t := Filter(k, Range(cmp), PStr(bound)), if cmp.LT? || cmp.LE? then "" else bound + [bound[9]];
    RangePicks(h, db, k, cmp, bound, t);
    DatesInMemory(h, cmp, bound, t);
    OneInMemory(h, f, t);
    NotADate(h, bound, t);
    assert GaussDates.TextCompare(cmp, t, bound) by {
      GaussDates.BeforeSame(bound);
      GaussDates.BeforeSame("");
      assert bound + [] == bound;
      GaussDates.BeforeConcat(bound, bound, [], [bound[9]]);
      GaussDates.BeforeConcat(bound, bound, [bound[9]], []);
    }
    hide Picks, InMemory, Matched, DateBound, Plainly, Host.Trim, Host.IsDate, Translate, GaussDates.TextCompare;
    assert !Agrees(h, db, f, One(t));
  }

  lemma NotADate(h: Host, bound: string, t: string)
    requires DateBound(h, bound) && (t == "" || t == bound + [bound[9]])
    ensures !h.IsDate(h.Trim(t))
  {
    var l := TrimLeft(h.space, bound);
    TrimLeftIsSuffix(h.space, bound);
    TrimRightIsPrefix(h.space, l);
    assert bound == TrimRight(h.space, l) <= l;
    assert l == bound && !h.space(bound[0]) && !h.space(bound[9]);
    assert |t| > 0 ==> t[0] == bound[0] && t[|t| - 1] == bound[9];
    assert h.Trim(t) == t;
  }
}
