/** When the GaussDB statement selects the documents `meta_filter` selects. */
module GaussMemory {
  import opened Text
  import opened Python
  import opened MetaFilter
  import opened Coercion
  import opened SqlSyntax
  import opened GaussFilter
  import opened GaussProofs
  import opened TextDocs
  import Es = EsPushdown
  import ServerPath
  import Patterns
  import ListText

  // ----- documents of texts -----

  function Items(xs: seq<string>): (r: seq<Json>)
    ensures |r| == |xs|
  {
    seq(|xs|, i requires 0 <= i < |xs| => JText(xs[i]))
  }

  function Value(st: Stored): Option<Json> {
    match st
    case Absent => None
    case NullValue => Some(JNull)
    case One(t) => Some(JText(t))
    case Many(xs) => Some(JArray(Items(xs)))
  }

  function Holding(st: Stored): GaussFilter.Document {
    (k: string) => Value(st)
  }

  /** The bound statement and the in-memory filter say the same of the document. */
  ghost predicate Agrees(h: Host, e: Engine, rd: Reading, f: Filter, st: Stored) {
    Asks(h, e, rd, Holding(st), f) <==> InMemory(h, f, st)
  }

  ghost predicate OnTexts(h: Host, e: Engine, rd: Reading, f: Filter) {
    forall t :: Agrees(h, e, rd, f, One(t))
  }

  /** On all lists of texts that JSON writes as they are. */
  ghost predicate OnLists(h: Host, e: Engine, rd: Reading, f: Filter) {
    forall xs :: ListText.AllPlain(xs) ==> Agrees(h, e, rd, f, Many(xs))
  }

  /** Both sides fold case alike, folding keeps what JSON writes as itself, and the
      database renders lists, and parses numbers and booleans, as JSON. */
  ghost predicate Alike(h: Host, e: Engine) {
    && h.Sane() && (forall c :: e.lower(c) == h.lower(c))
    && (forall c :: ListText.PlainChar(h.lower(c)) <==> ListText.PlainChar(c))
    && (forall c: char {:trigger h.lower(c)} :: c in "[], \"" ==> h.lower(c) == c)
    && (forall xs :: ListText.AllPlain(xs) ==> e.render(JArray(Items(xs))) == ListText.Listed(xs))
    && (forall r: real :: e.parse(PNum(r)).JNum?) && (forall b: bool :: e.parse(PBool(b)).JBool?)
  }

  // ----- folding the text of a list -----

  function LowerAll(h: Host, xs: seq<string>): (r: seq<string>)
    ensures |r| == |xs|
  {
    seq(|xs|, i requires 0 <= i < |xs| => h.Lower(xs[i]))
  }

  lemma LowerConcat(h: Host, a: string, b: string)
    ensures h.Lower(a + b) == h.Lower(a) + h.Lower(b)
  {
  }

  lemma LowerPlain(h: Host, e: Engine, s: string)
    requires Alike(h, e)
    ensures ListText.PlainText(h.Lower(s)) <==> ListText.PlainText(s)
  {
    forall i | 0 <= i < |s| ensures ListText.PlainChar(h.Lower(s)[i]) <==> ListText.PlainChar(s[i]) {
    }
  }

  lemma LowerMarks(h: Host, e: Engine)
    requires Alike(h, e)
    ensures h.Lower("[]") == "[]" && h.Lower("]") == "]" && h.Lower("[\"") == "[\"" && h.Lower("\"") == "\""
    ensures h.Lower(", \"") == ", \""
  {
    var s := "[], \"";
    assert s[0] == '[' && s[1] == ']' && s[2] == ',' && s[3] == ' ' && s[4] == '"';
    assert h.lower('[') == '[' && h.lower(']') == ']' && h.lower(',') == ',' && h.lower(' ') == ' ';
    assert h.lower('"') == '"';
  }

  lemma {:induction false} LowerRest(h: Host, e: Engine, xs: seq<string>)
    requires Alike(h, e)
    ensures h.Lower(ListText.Rest(xs)) == ListText.Rest(LowerAll(h, xs))
  {
    LowerMarks(h, e);
    if xs == [] {
    } else {
      LowerRest(h, e, xs[1..]);
      hide Alike, Host.Lower;
      var r := ListText.Rest(xs[1..]);
      LowerConcat(h, "\"", r);
      LowerConcat(h, xs[0], "\"" + r);
      LowerConcat(h, ", \"", xs[0] + ("\"" + r));
      assert LowerAll(h, xs)[1..] == LowerAll(h, xs[1..]);
    }
  }

  lemma LowerListed(h: Host, e: Engine, xs: seq<string>)
    requires Alike(h, e)
    ensures h.Lower(ListText.Listed(xs)) == ListText.Listed(LowerAll(h, xs))
  {
    LowerMarks(h, e);
    if xs == [] {
    } else {
      LowerRest(h, e, xs[1..]);
      hide Alike, Host.Lower;
      var r := ListText.Rest(xs[1..]);
      LowerConcat(h, "\"", r);
      LowerConcat(h, xs[0], "\"" + r);
      LowerConcat(h, "[\"", xs[0] + ("\"" + r));
      assert LowerAll(h, xs)[1..] == LowerAll(h, xs[1..]);
    }
  }

  lemma LowerAllPlain(h: Host, e: Engine, xs: seq<string>)
    requires Alike(h, e) && ListText.AllPlain(xs)
    ensures ListText.AllPlain(LowerAll(h, xs))
  {
    hide Alike;
    forall i | 0 <= i < |xs| ensures ListText.PlainText(LowerAll(h, xs)[i]) {
      LowerPlain(h, e, xs[i]);
    }
  }

  // ----- what the statement says of such a document -----

  /** The lower-cased text of the value. */
  function LowerText(h: Host, st: Stored): Option<string> {
    match st
    case One(t) => Some(h.Lower(t))
    case Many(xs) => Some(ListText.Listed(LowerAll(h, xs)))
    case _ => None
  }

  lemma TextOf(h: Host, e: Engine, k: string, st: Stored)
    requires Alike(h, e) && (st.Many? ==> ListText.AllPlain(st.xs))
    ensures TextAt(e, Holding(st), k).Some? <==> LowerText(h, st).Some?
    ensures TextAt(e, Holding(st), k).Some? ==>
              MapChars(e.lower, TextAt(e, Holding(st), k).value) == LowerText(h, st).value
  {
    if TextAt(e, Holding(st), k).Some? {
      var t := TextAt(e, Holding(st), k).value;
      assert MapChars(e.lower, t) == h.Lower(t);
      if st.Many? {
        LowerListed(h, e, st.xs);
      }
    }
  }

  predicate Listing(st: Stored, s: string) {
    match st
    case One(t) => t == s
    case Many(xs) => s in xs
    case _ => false
  }

  lemma StringsIn(st: Stored, s: string)
    ensures Value(st).Some? && StringIn(Value(st).value, s) <==> Listing(st, s)
  {
    if st.Many? {
      assert forall i :: 0 <= i < |st.xs| ==> Items(st.xs)[i] == JText(st.xs[i]);
    }
  }

  /** Equality with a text, as the statement tests it. */
  predicate Equals(h: Host, st: Stored, s: string) {
    if s == [] then st == One("") else LowerText(h, st) == Some(h.Lower(s)) || Listing(st, h.Lower(s))
  }

  predicate Contained(h: Host, st: Stored, s: string) {
    (LowerText(h, st).Some? && Occurs(h.Lower(s), LowerText(h, st).value)) || Listing(st, h.Lower(s))
  }

  lemma EqualsIs(h: Host, e: Engine, k: string, st: Stored, s: string)
    requires Alike(h, e) && (st.Many? ==> ListText.AllPlain(st.xs))
    ensures SelectsEqual(h, e, Holding(st), k, PStr(s)) <==> Equals(h, st, s)
  {
    TextOf(h, e, k, st);
    StringsIn(st, h.Lower(s));
    hide Alike, LowerText, TextAt, StringIn, Listing;
  }

  lemma ContainedIs(h: Host, e: Engine, k: string, st: Stored, s: string)
    requires Alike(h, e) && (st.Many? ==> ListText.AllPlain(st.xs))
    ensures SelectsContains(h, e, Holding(st), k, s) <==> Contained(h, st, s)
  {
    TextOf(h, e, k, st);
    StringsIn(st, h.Lower(s));
    hide Alike, LowerText, TextAt, StringIn, Listing, Occurs;
  }

  lemma AffixIs(h: Host, e: Engine, k: string, st: Stored, s: string)
    requires Alike(h, e) && (st.Many? ==> ListText.AllPlain(st.xs))
    ensures Texts(e, Holding(st), k, t => h.Lower(s) <= t) <==>
            LowerText(h, st).Some? && h.Lower(s) <= LowerText(h, st).value
    ensures Texts(e, Holding(st), k, t => EndsWith(t, h.Lower(s))) <==>
            LowerText(h, st).Some? && EndsWith(LowerText(h, st).value, h.Lower(s))
  {
    TextOf(h, e, k, st);
    hide Alike, LowerText, TextAt, EndsWith;
  }

  // ----- every operator, as asked -----

  /** The text stays a text: it does not read as a number, a boolean or None. */
  predicate Kept(h: Host, s: string) {
    CoerceScalar(h, PStr(s)) == Ok(PStr(s))
  }

  /** The document can be described: lists hold plain texts. */
  predicate Known(st: Stored) {
    st.Many? ==> ListText.AllPlain(st.xs)
  }

  lemma EqualAsks(h: Host, e: Engine, rd: Reading, k: string, s: string, st: Stored)
    requires Alike(h, e) && ValidKey(k) && Kept(h, s) && Known(st)
    ensures Asks(h, e, rd, Holding(st), Filter(k, Eq, PStr(s))) <==> Equals(h, st, s)
    ensures Asks(h, e, rd, Holding(st), Filter(k, Ne, PStr(s))) <==> !st.Absent? && !Equals(h, st, s)
  {
    EqualsIs(h, e, k, st, s);
    hide Alike, Asks, SelectsEqual, Equals, EqualPiece, Negate, Known;
    AsksSelects(h, e, rd, Holding(st), Filter(k, Eq, PStr(s)));
    AsksSelects(h, e, rd, Holding(st), Filter(k, Ne, PStr(s)));
  }

  lemma ContainsAsks(h: Host, e: Engine, rd: Reading, k: string, value: PyVal, st: Stored)
    requires Alike(h, e) && ValidKey(k) && CoerceString(h, value).Ok? && Known(st)
    ensures Asks(h, e, rd, Holding(st), Filter(k, Contains, value)) <==> Contained(h, st, h.Str(value))
    ensures Asks(h, e, rd, Holding(st), Filter(k, NotContains, value)) <==>
            !st.Absent? && !Contained(h, st, h.Str(value))
  {
    ContainedIs(h, e, k, st, h.Str(value));
    ContainsSelects(h, e, rd, k, value, st);
    hide Alike, Asks, SelectsContains, Contained, Known, Selects, Translate;
    AsksSelects(h, e, rd, Holding(st), Filter(k, Contains, value));
    AsksSelects(h, e, rd, Holding(st), Filter(k, NotContains, value));
  }

  lemma ContainsSelects(h: Host, e: Engine, rd: Reading, k: string, value: PyVal, st: Stored)
    requires ValidKey(k) && CoerceString(h, value).Ok?
    ensures Translate(h, rd, Filter(k, Contains, value)).Ok? && Translate(h, rd, Filter(k, NotContains, value)).Ok?
    ensures Selects(h, e, rd, Holding(st), Filter(k, Contains, value)) <==>
            SelectsContains(h, e, Holding(st), k, h.Str(value))
    ensures Selects(h, e, rd, Holding(st), Filter(k, NotContains, value)) <==>
            !st.Absent? && !SelectsContains(h, e, Holding(st), k, h.Str(value))
  {
    hide SelectsContains, ContainsPiece, Negate;
  }

  lemma AffixAsks(h: Host, e: Engine, rd: Reading, k: string, value: PyVal, st: Stored)
    requires Alike(h, e) && ValidKey(k) && CoerceString(h, value).Ok? && Known(st)
    ensures Asks(h, e, rd, Holding(st), Filter(k, StartWith, value)) <==>
            LowerText(h, st).Some? && h.Lower(h.Str(value)) <= LowerText(h, st).value
    ensures Asks(h, e, rd, Holding(st), Filter(k, EndWith, value)) <==>
            LowerText(h, st).Some? && EndsWith(LowerText(h, st).value, h.Lower(h.Str(value)))
  {
    AffixIs(h, e, k, st, h.Str(value));
    AffixSelects(h, e, rd, k, value, st);
    hide Alike, Asks, LowerText, EndsWith, Known, Selects, Translate, Texts;
    AsksSelects(h, e, rd, Holding(st), Filter(k, StartWith, value));
    AsksSelects(h, e, rd, Holding(st), Filter(k, EndWith, value));
  }

  lemma AffixSelects(h: Host, e: Engine, rd: Reading, k: string, value: PyVal, st: Stored)
    requires ValidKey(k) && CoerceString(h, value).Ok?
    ensures Translate(h, rd, Filter(k, StartWith, value)).Ok? && Translate(h, rd, Filter(k, EndWith, value)).Ok?
    ensures Selects(h, e, rd, Holding(st), Filter(k, StartWith, value)) <==>
            Texts(e, Holding(st), k, t => h.Lower(h.Str(value)) <= t)
    ensures Selects(h, e, rd, Holding(st), Filter(k, EndWith, value)) <==>
            Texts(e, Holding(st), k, t => EndsWith(t, h.Lower(h.Str(value))))
  {
    hide Texts, EndsWith, Host.Lower;
  }

  lemma {:induction false} MembersCoerced(h: Host, ms: seq<PyVal>)
    requires Es.AllText(ms)
    ensures CoerceMembers(h, ms).Ok? && |CoerceMembers(h, ms).value| == |ms|
    ensures forall i :: 0 <= i < |ms| ==>
              CoerceScalar(h, ms[i]).Ok? && CoerceMembers(h, ms).value[i] == CoerceScalar(h, ms[i]).value
  {
    hide CoerceScalar;
    if ms == [] {
    } else {
      TextCoerces(h, ms[0]);
      MembersCoerced(h, ms[1..]);
      assert forall i :: 1 <= i < |ms| ==> ms[i] == ms[1..][i - 1];
    }
  }

  lemma TextCoerces(h: Host, v: PyVal)
    requires v.PStr?
    ensures CoerceScalar(h, v).Ok?
    ensures var c := CoerceScalar(h, v).value; if Kept(h, v.s) then c == v else c.PNum? || c.PBool? || c.PNone?
  {
  }

  /** Some member that stays a text is equal to the value. */
  ghost predicate EqualsSome(h: Host, st: Stored, ms: seq<PyVal>)
    requires Es.AllText(ms)
  {
    exists i :: 0 <= i < |ms| && Kept(h, ms[i].s) && Equals(h, st, ms[i].s)
  }

  lemma MemberIs(h: Host, e: Engine, k: string, st: Stored, v: PyVal)
    requires Alike(h, e) && v.PStr? && Known(st) && !st.NullValue?
    ensures SelectsEqual(h, e, Holding(st), k, CoerceScalar(h, v).value) <==> Kept(h, v.s) && Equals(h, st, v.s)
  {
    TextCoerces(h, v);
    if Kept(h, v.s) {
      EqualsIs(h, e, k, st, v.s);
    } else {
      NumberNowhere(h, e, k, st, CoerceScalar(h, v).value);
    }
    hide Alike, CoerceScalar, Kept, SelectsEqual, Equals;
  }

  lemma NumberNowhere(h: Host, e: Engine, k: string, st: Stored, v: PyVal)
    requires Alike(h, e) && (v.PNum? || v.PBool? || v.PNone?) && !st.NullValue?
    ensures !SelectsEqual(h, e, Holding(st), k, v)
  {
    if v.PNum? { assert e.parse(PNum(v.r)).JNum?; }
    if v.PBool? { assert e.parse(PBool(v.b)).JBool?; }
    if st.Many? {
      assert forall j :: 0 <= j < |st.xs| ==> Items(st.xs)[j].JText?;
    }
  }

  lemma MembersAsk(h: Host, e: Engine, rd: Reading, k: string, ms: seq<PyVal>, st: Stored)
    requires Alike(h, e) && ValidKey(k) && ms != [] && Es.AllText(ms) && Known(st) && !st.NullValue?
    ensures Asks(h, e, rd, Holding(st), Filter(k, In, PList(ms))) <==> EqualsSome(h, st, ms)
    ensures Asks(h, e, rd, Holding(st), Filter(k, NotIn, PList(ms))) <==> !st.Absent? && !EqualsSome(h, st, ms)
  {
    MembersCoerced(h, ms);
    var vs := CoerceMembers(h, ms).value;
    forall i | 0 <= i < |ms|
      ensures SelectsEqual(h, e, Holding(st), k, vs[i]) <==> Kept(h, ms[i].s) && Equals(h, st, ms[i].s)
    {
      MemberIs(h, e, k, st, ms[i]);
    }
    hide Alike, Asks, SelectsEqual, Equals, MemberFragments, MemberParams, Join, Kept, CoerceMembers, Known,
         CoerceScalar;
    MembersSelect(h, e, rd, k, ms, vs, st);
    AsksSelects(h, e, rd, Holding(st), Filter(k, In, PList(ms)));
    AsksSelects(h, e, rd, Holding(st), Filter(k, NotIn, PList(ms)));
    hide Selects;
  }

  lemma MembersSelect(h: Host, e: Engine, rd: Reading, k: string, ms: seq<PyVal>, vs: seq<PyVal>, st: Stored)
    requires ValidKey(k) && ms != [] && Es.AllText(ms) && CoerceMembers(h, ms) == Ok(vs) && |vs| == |ms|
    requires forall i :: 0 <= i < |ms| ==>
      (SelectsEqual(h, e, Holding(st), k, vs[i]) <==> Kept(h, ms[i].s) && Equals(h, st, ms[i].s))
    ensures Translate(h, rd, Filter(k, In, PList(ms))).Ok? && Translate(h, rd, Filter(k, NotIn, PList(ms))).Ok?
    ensures Selects(h, e, rd, Holding(st), Filter(k, In, PList(ms))) <==> EqualsSome(h, st, ms)
    ensures Selects(h, e, rd, Holding(st), Filter(k, NotIn, PList(ms))) <==> !st.Absent? && !EqualsSome(h, st, ms)
  {
    hide SelectsEqual, Equals, MemberFragments, MemberParams, Join, Kept, CoerceMembers;
  }

  lemma EmptyAsks(h: Host, e: Engine, rd: Reading, k: string, v: PyVal, st: Stored)
    requires ValidKey(k)
    ensures Asks(h, e, rd, Holding(st), Filter(k, Empty, v)) <==>
            st.Absent? || st.NullValue? || st == One("") || st == Many([])
    ensures Asks(h, e, rd, Holding(st), Filter(k, NotEmpty, v)) <==>
            (st.One? && st.t != "") || (st.Many? && st.xs != [])
  {
    if st.Many? {
      assert |Items(st.xs)| == |st.xs|;
    }
    hide Asks, EmptySql, NotEmptySql;
    AsksSelects(h, e, rd, Holding(st), Filter(k, Empty, v));
    AsksSelects(h, e, rd, Holding(st), Filter(k, NotEmpty, v));
  }

  // ----- documents with one text -----

  /** `=` and `≠` with a plain text agree on every text. */
  lemma EqualOnTexts(h: Host, e: Engine, rd: Reading, k: string, s: string)
    requires Alike(h, e) && ValidKey(k) && h.PlainText(s)
    ensures OnTexts(h, e, rd, Filter(k, Eq, PStr(s))) && OnTexts(h, e, rd, Filter(k, Ne, PStr(s)))
  {
    forall t
      ensures Agrees(h, e, rd, Filter(k, Eq, PStr(s)), One(t)) && Agrees(h, e, rd, Filter(k, Ne, PStr(s)), One(t))
    {
      EqualAsks(h, e, rd, k, s, One(t));
      OneInMemory(h, Filter(k, Eq, PStr(s)), t);
      OneInMemory(h, Filter(k, Ne, PStr(s)), t);
      Es.EqualInMemory(h, s, t);
      OneEquals(h, e, t, s);
      hide Alike, Asks, InMemory, Matched, Equals, Host.PlainText;
    }
  }

  lemma OneEquals(h: Host, e: Engine, t: string, s: string)
    requires Alike(h, e)
    ensures Equals(h, One(t), s) <==> h.Lower(t) == h.Lower(s)
  {
    LowerTwice(h, s);
    assert |h.Lower(t)| == |t| && |h.Lower(s)| == |s|;
  }

  lemma OneContains(h: Host, e: Engine, t: string, s: string)
    requires Alike(h, e)
    ensures Contained(h, One(t), s) <==> Occurs(h.Lower(s), h.Lower(t))
  {
    LowerTwice(h, s);
    Es.OccursInItself(h.Lower(s));
  }

  /** `contains` and `not contains` agree on every text if and only if the value is a
      text. */
  lemma ContainsOnTextsIff(h: Host, e: Engine, rd: Reading, k: string, value: PyVal)
    requires Alike(h, e) && ValidKey(k) && CoerceString(h, value).Ok?
    ensures OnTexts(h, e, rd, Filter(k, Contains, value)) <==> value.PStr?
    ensures OnTexts(h, e, rd, Filter(k, NotContains, value)) <==> value.PStr?
  {
    var f, g, s := Filter(k, Contains, value), Filter(k, NotContains, value), h.Str(value);
    forall t
      ensures Agrees(h, e, rd, f, One(t)) <==> (Occurs(h.Lower(s), h.Lower(t)) ==> value.PStr?)
      ensures Agrees(h, e, rd, g, One(t)) <==> (!Occurs(h.Lower(s), h.Lower(t)) ==> value.PStr?)
    {
      ContainsAsks(h, e, rd, k, value, One(t));
      OneInMemory(h, f, t);
      OneInMemory(h, g, t);
      Es.ContainsInMemory(h, value, t);
      OneContains(h, e, t, s);
      hide Alike, Asks, InMemory, Matched, Contained, Occurs;
    }
    Es.OccursInItself(h.Lower(s));
    assert |h.Lower(s)| > 0;
    assert !Occurs(h.Lower(s), h.Lower(""));
    hide Agrees, Occurs;
    assert Agrees(h, e, rd, f, One(s)) <==> value.PStr?;
    assert Agrees(h, e, rd, g, One("")) <==> value.PStr?;
  }

  /** `start with` and `end with` agree on every text, for every value they accept. */
  lemma AffixOnTexts(h: Host, e: Engine, rd: Reading, k: string, value: PyVal)
    requires Alike(h, e) && ValidKey(k) && CoerceString(h, value).Ok?
    ensures OnTexts(h, e, rd, Filter(k, StartWith, value)) && OnTexts(h, e, rd, Filter(k, EndWith, value))
  {
    forall t
      ensures Agrees(h, e, rd, Filter(k, StartWith, value), One(t))
      ensures Agrees(h, e, rd, Filter(k, EndWith, value), One(t))
    {
      AffixAsks(h, e, rd, k, value, One(t));
      OneInMemory(h, Filter(k, StartWith, value), t);
      OneInMemory(h, Filter(k, EndWith, value), t);
      Es.AffixInMemory(h, value, t);
      hide Alike, Asks, InMemory, Matched, EndsWith;
    }
  }

  /** `empty` and `not empty` agree on every text. */
  lemma EmptyOnTexts(h: Host, e: Engine, rd: Reading, k: string, v: PyVal)
    requires ValidKey(k)
    ensures OnTexts(h, e, rd, Filter(k, Empty, v)) && OnTexts(h, e, rd, Filter(k, NotEmpty, v))
  {
    forall t
      ensures Agrees(h, e, rd, Filter(k, Empty, v), One(t)) && Agrees(h, e, rd, Filter(k, NotEmpty, v), One(t))
    {
      EmptyAsks(h, e, rd, k, v, One(t));
      OneInMemory(h, Filter(k, Empty, v), t);
      OneInMemory(h, Filter(k, NotEmpty, v), t);
      OppositeEmptiness(h, t, v);
      hide Asks, InMemory, Matched;
    }
  }

  /** Every member has a member that stays a text and differs from it at most in case. */
  ghost predicate Covered(h: Host, ms: seq<PyVal>)
    requires Es.AllText(ms)
  {
    forall i :: 0 <= i < |ms| ==> HasTwin(h, ms, ms[i].s)
  }

  ghost predicate HasTwin(h: Host, ms: seq<PyVal>, s: string)
    requires Es.AllText(ms)
  {
    exists j :: 0 <= j < |ms| && KeptTwin(h, s, ms[j].s)
  }

  predicate KeptTwin(h: Host, s: string, t: string) {
    Kept(h, t) && h.Lower(t) == h.Lower(s)
  }

  lemma OneEqualsSome(h: Host, e: Engine, t: string, ms: seq<PyVal>)
    requires Alike(h, e) && Es.AllText(ms)
    ensures EqualsSome(h, One(t), ms) <==> HasTwin(h, ms, t)
  {
    forall i | 0 <= i < |ms| ensures Equals(h, One(t), ms[i].s) <==> h.Lower(t) == h.Lower(ms[i].s) {
      OneEquals(h, e, t, ms[i].s);
    }
    hide Alike, Equals, Kept, Host.Lower;
    if HasTwin(h, ms, t) {
      var j :| 0 <= j < |ms| && KeptTwin(h, t, ms[j].s);
      assert Kept(h, ms[j].s) && Equals(h, One(t), ms[j].s);
    }
    if EqualsSome(h, One(t), ms) {
      var j :| 0 <= j < |ms| && Kept(h, ms[j].s) && Equals(h, One(t), ms[j].s);
      assert KeptTwin(h, t, ms[j].s);
    }
  }

  /** List `in` and `not in` agree on every text if and only if no member is lost: one that
      reads as a number, a boolean or None is compared as such. */
  lemma InOnTextsIff(h: Host, e: Engine, rd: Reading, k: string, ms: seq<PyVal>)
    requires Alike(h, e) && ValidKey(k) && ms != [] && Es.AllText(ms)
    ensures OnTexts(h, e, rd, Filter(k, In, PList(ms))) <==> Covered(h, ms)
    ensures OnTexts(h, e, rd, Filter(k, NotIn, PList(ms))) <==> Covered(h, ms)
  {
    var f, g := Filter(k, In, PList(ms)), Filter(k, NotIn, PList(ms));
    forall t
      ensures Agrees(h, e, rd, f, One(t)) <==> (Es.AmongLower(h, ms, false, t) <==> EqualsSome(h, One(t), ms))
      ensures Agrees(h, e, rd, g, One(t)) <==> (Es.AmongLower(h, ms, false, t) <==> EqualsSome(h, One(t), ms))
    {
      MembersAsk(h, e, rd, k, ms, One(t));
      OneInMemory(h, f, t);
      OneInMemory(h, g, t);
      Es.InListInMemory(h, ms, t);
      hide Alike, Asks, InMemory, Matched, EqualsSome, Es.AmongLower;
    }
    hide Agrees;
    CoveredIff(h, e, ms);
  }

  lemma CoveredIff(h: Host, e: Engine, ms: seq<PyVal>)
    requires Alike(h, e) && Es.AllText(ms)
    ensures Covered(h, ms) <==> forall t :: Es.AmongLower(h, ms, false, t) <==> EqualsSome(h, One(t), ms)
  {
    hide Alike, EqualsSome, Covered, Es.AmongLower;
    if Covered(h, ms) {
      forall t ensures Es.AmongLower(h, ms, false, t) <==> EqualsSome(h, One(t), ms) {
        EqualsAmong(h, e, ms, t);
        if Es.AmongLower(h, ms, false, t) {
          CoveredEquals(h, e, ms, t);
        }
      }
    }
    if forall t :: Es.AmongLower(h, ms, false, t) <==> EqualsSome(h, One(t), ms) {
      forall i | 0 <= i < |ms| ensures HasTwin(h, ms, ms[i].s) {
        MemberAmong(h, ms, i);
        OneEqualsSome(h, e, ms[i].s, ms);
      }
      hide HasTwin;
      AllCovered(h, ms);
    }
  }

  lemma EqualsAmong(h: Host, e: Engine, ms: seq<PyVal>, t: string)
    requires Alike(h, e) && Es.AllText(ms)
    ensures EqualsSome(h, One(t), ms) ==> Es.AmongLower(h, ms, false, t)
  {
    OneEqualsSome(h, e, t, ms);
    hide Alike, EqualsSome, Kept, Host.Lower;
  }

  lemma CoveredEquals(h: Host, e: Engine, ms: seq<PyVal>, t: string)
    requires Alike(h, e) && Es.AllText(ms) && Covered(h, ms) && Es.AmongLower(h, ms, false, t)
    ensures EqualsSome(h, One(t), ms)
  {
    OneEqualsSome(h, e, t, ms);
    hide Alike, EqualsSome, Kept, Host.Lower, HasTwin;
    var i :| 0 <= i < |ms| && h.Lower(t) == h.Lower(ms[i].s);
    assert HasTwin(h, ms, ms[i].s);
    TwinOf(h, ms, t, ms[i].s);
  }

  lemma TwinOf(h: Host, ms: seq<PyVal>, t: string, s: string)
    requires Es.AllText(ms) && HasTwin(h, ms, s) && h.Lower(t) == h.Lower(s)
    ensures HasTwin(h, ms, t)
  {
    hide Kept, Host.Lower;
    var j :| 0 <= j < |ms| && KeptTwin(h, s, ms[j].s);
    assert KeptTwin(h, t, ms[j].s);
  }

  lemma MemberAmong(h: Host, ms: seq<PyVal>, i: nat)
    requires Es.AllText(ms) && i < |ms|
    ensures Es.AmongLower(h, ms, false, ms[i].s)
  {
  }

  lemma AllCovered(h: Host, ms: seq<PyVal>)
    requires Es.AllText(ms)
    requires forall i :: 0 <= i < |ms| ==> HasTwin(h, ms, ms[i].s)
    ensures Covered(h, ms)
  {
    hide HasTwin;
  }

  /** `in` and `not in` with a plain text are substring tests in memory and list tests
      here: no such filter agrees on every text. */
  lemma InTextNever(h: Host, e: Engine, rd: Reading, k: string, s: string)
    requires Alike(h, e) && ValidKey(k)
    requires var p := h.eval(h.Trim(s)); p.None? || !(p.value.PList? || p.value.PTuple?)
    ensures !OnTexts(h, e, rd, Filter(k, In, PStr(s))) && !OnTexts(h, e, rd, Filter(k, NotIn, PStr(s)))
  {
    var f, g, ms := Filter(k, In, PStr(s)), Filter(k, NotIn, PStr(s)), SplitCommas(h, s, []);
    Es.EmptyTextIsEverywhere(h, s);
    NotInTextInMemory(h, s);
    OneInMemory(h, f, "");
    OneInMemory(h, g, "");
    OneInMemory(h, g, s + "a");
    Es.SplitIsClean(h, s, []);
    assert GaussFilter.RawMembers(h, PStr(s)) == ms;
    assert Es.AllText(ms) by {
      assert forall i :: 0 <= i < |ms| ==> Es.CleanPiece(h, ms[i]);
    }
    hide SplitCommas, Matched, InMemory;
    if ms == [] {
      NothingAsked(h, e, rd, k, s);
    } else {
      MembersAsk(h, e, rd, k, ms, One(""));
      TextAsks(h, e, rd, k, s, ms, One(""));
      forall i | 0 <= i < |ms| ensures !Equals(h, One(""), ms[i].s) {
        assert Es.CleanPiece(h, ms[i]);
        OneEquals(h, e, "", ms[i].s);
        assert |h.Lower(ms[i].s)| > 0;
      }
    }
    hide Asks;
    assert !Agrees(h, e, rd, f, One(""));
    assert !Agrees(h, e, rd, g, One("")) || !Agrees(h, e, rd, g, One(s + "a"));
  }

  lemma NothingAsked(h: Host, e: Engine, rd: Reading, k: string, s: string)
    requires GaussFilter.RawMembers(h, PStr(s)) == []
    ensures forall st :: !Asks(h, e, rd, Holding(st), Filter(k, In, PStr(s)))
    ensures forall st :: !Asks(h, e, rd, Holding(st), Filter(k, NotIn, PStr(s)))
  {
    hide GaussFilter.RawMembers;
  }

  /** A text that is split asks as the list of its pieces does. */
  lemma TextAsks(h: Host, e: Engine, rd: Reading, k: string, s: string, ms: seq<PyVal>, st: Stored)
    requires GaussFilter.RawMembers(h, PStr(s)) == ms
    ensures Asks(h, e, rd, Holding(st), Filter(k, In, PStr(s))) <==>
            Asks(h, e, rd, Holding(st), Filter(k, In, PList(ms)))
    ensures Asks(h, e, rd, Holding(st), Filter(k, NotIn, PStr(s))) <==>
            Asks(h, e, rd, Holding(st), Filter(k, NotIn, PList(ms)))
  {
    hide GaussFilter.RawMembers, CoerceMembers, MemberFragments, MemberParams, Join, Answer;
    assert GaussFilter.RawMembers(h, PList(ms)) == ms by {
      ListMembers(h, ms);
    }
    assert Translate(h, rd, Filter(k, In, PStr(s))) == Translate(h, rd, Filter(k, In, PList(ms)));
    assert Translate(h, rd, Filter(k, NotIn, PStr(s))) == Translate(h, rd, Filter(k, NotIn, PList(ms)));
  }

  lemma ListMembers(h: Host, ms: seq<PyVal>)
    ensures GaussFilter.RawMembers(h, PList(ms)) == ms
  {
  }

  // ----- documents without a value -----

  /** A document without the key is selected by `empty` only, and in memory by nothing. */
  lemma AbsentAgreesIff(h: Host, e: Engine, rd: Reading, f: Filter)
    requires Translate(h, rd, f).Ok?
    ensures Agrees(h, e, rd, f, Absent) <==> !f.op.Empty?
  {
    NoneInMemory(h, f, Absent);
    AsksSelects(h, e, rd, Holding(Absent), f);
    if !f.op.Empty? {
      SelectsOnlyPresent(h, e, rd, Holding(Absent), f);
    }
    hide Asks, InMemory;
  }

  /** The requests about texts: a condition on the filter alone. */
  ghost predicate AboutTexts(h: Host, f: Filter) {
    ValidKey(f.key) &&
    match f.op
    case Eq => f.value.PStr? && h.PlainText(f.value.s)
    case Ne => f.value.PStr? && h.PlainText(f.value.s)
    case Contains => f.value.PStr? && f.value.s != []
    case NotContains => f.value.PStr? && f.value.s != []
    case StartWith => CoerceString(h, f.value).Ok?
    case EndWith => CoerceString(h, f.value).Ok?
    case In => f.value.PList? && f.value.items != [] && AllKept(h, f.value.items)
    case NotIn => f.value.PList? && f.value.items != [] && AllKept(h, f.value.items)
    case Empty => true
    case NotEmpty => true
    case _ => false
  }

  predicate AllKept(h: Host, ms: seq<PyVal>) {
    forall i :: 0 <= i < |ms| ==> ms[i].PStr? && Kept(h, ms[i].s)
  }

  lemma KeptIsCovered(h: Host, ms: seq<PyVal>)
    requires AllKept(h, ms)
    ensures Es.AllText(ms) && Covered(h, ms)
  {
    hide Kept;
    forall i | 0 <= i < |ms| ensures HasTwin(h, ms, ms[i].s) {
      assert KeptTwin(h, ms[i].s, ms[i].s);
    }
  }

  lemma AboutTextsTranslates(h: Host, rd: Reading, f: Filter)
    requires AboutTexts(h, f)
    ensures Translate(h, rd, f).Ok?
  {
    if f.op.In? || f.op.NotIn? {
      KeptIsCovered(h, f.value.items);
      MembersCoerced(h, f.value.items);
      ListMembers(h, f.value.items);
      hide Kept, CoerceMembers, GaussFilter.RawMembers, Covered, AllKept;
    } else {
      hide AllKept, Covered, MembershipValues;
    }
  }

  /** The negative operators and `empty` select documents that store null; in memory null
      is no value. */
  lemma NullAgreesIff(h: Host, e: Engine, rd: Reading, f: Filter)
    requires AboutTexts(h, f)
    ensures Agrees(h, e, rd, f, NullValue) <==> !f.op.Empty? && !Es.Negative(f.op)
  {
    AboutTextsTranslates(h, rd, f);
    NoneInMemory(h, f, NullValue);
    AsksSelects(h, e, rd, Holding(NullValue), f);
    hide Asks, InMemory;
    NullSelects(h, e, rd, f);
    hide Selects, Translate, AboutTexts;
  }

  lemma NullSelects(h: Host, e: Engine, rd: Reading, f: Filter)
    requires AboutTexts(h, f) && Translate(h, rd, f).Ok?
    ensures Selects(h, e, rd, Holding(NullValue), f) <==> f.op.Empty? || Es.Negative(f.op)
  {
    if f.op.In? || f.op.NotIn? {
      NullMembers(h, e, rd, f.key, f.value.items);
      hide Translate, Selects, AboutTexts;
    } else {
      hide Patterns.Escape, MembershipValues, AllKept;
    }
  }

  lemma NullMembers(h: Host, e: Engine, rd: Reading, k: string, ms: seq<PyVal>)
    requires ValidKey(k) && ms != [] && AllKept(h, ms)
    ensures Translate(h, rd, Filter(k, In, PList(ms))).Ok? && Translate(h, rd, Filter(k, NotIn, PList(ms))).Ok?
    ensures !Selects(h, e, rd, Holding(NullValue), Filter(k, In, PList(ms)))
    ensures Selects(h, e, rd, Holding(NullValue), Filter(k, NotIn, PList(ms)))
  {
    KeptIsCovered(h, ms);
    MembersCoerced(h, ms);
    var vs := CoerceMembers(h, ms).value;
    hide CoerceScalar, CoerceMembers, Covered;
    forall i | 0 <= i < |ms|
      ensures !SelectsEqual(h, e, Holding(NullValue), k, vs[i]) && !Equals(h, NullValue, ms[i].s)
    {
      assert ms[i] == PStr(ms[i].s) && vs[i] == ms[i];
      NullMember(h, e, k, ms[i]);
    }
    hide SelectsEqual, Equals, Kept, AllKept, Translate, Selects;
    MembersSelect(h, e, rd, k, ms, vs, NullValue);
  }

  lemma NullMember(h: Host, e: Engine, k: string, v: PyVal)
    requires v.PStr?
    ensures !SelectsEqual(h, e, Holding(NullValue), k, v) && !Equals(h, NullValue, v.s)
  {
  }

  // ----- whole requests -----

  /** A request about texts agrees on every text. */
  lemma AboutTextsAgrees(h: Host, e: Engine, rd: Reading, f: Filter)
    requires Alike(h, e) && AboutTexts(h, f)
    ensures OnTexts(h, e, rd, f)
  {
    hide Alike, OnTexts;
    match f.op
    case Eq => EqualOnTexts(h, e, rd, f.key, f.value.s);
    case Ne => EqualOnTexts(h, e, rd, f.key, f.value.s);
    case Contains => ContainsOnTextsIff(h, e, rd, f.key, f.value);
    case NotContains => ContainsOnTextsIff(h, e, rd, f.key, f.value);
    case StartWith => AffixOnTexts(h, e, rd, f.key, f.value);
    case EndWith => AffixOnTexts(h, e, rd, f.key, f.value);
    case In =>
      KeptIsCovered(h, f.value.items);
      InOnTextsIff(h, e, rd, f.key, f.value.items);
    case NotIn =>
      KeptIsCovered(h, f.value.items);
      InOnTextsIff(h, e, rd, f.key, f.value.items);
    case Empty => EmptyOnTexts(h, e, rd, f.key, f.value);
    case NotEmpty => EmptyOnTexts(h, e, rd, f.key, f.value);
  }

  /** A document that stores what `doc` says under every key. */
  function StoredDocument(doc: string -> Stored): GaussFilter.Document {
    (k: string) => Value(doc(k))
  }

  lemma SelectsByKey(h: Host, e: Engine, rd: Reading, doc: string -> Stored, f: Filter)
    requires Translate(h, rd, f).Ok?
    ensures Selects(h, e, rd, StoredDocument(doc), f) <==> Selects(h, e, rd, Holding(doc(f.key)), f)
  {
    hide Translate;
    var d, d' := StoredDocument(doc), Holding(doc(f.key));
    assert d(f.key) == d'(f.key);
    SameSelects(h, e, rd, d, d', f);
  }

  /** Agreement composes: where every filter of a request agrees on what the document
      stores under its key, the bound statement selects the document exactly when all, or
      some, filters take it in memory. */
  lemma PlanComposes(h: Host, e: Engine, rd: Reading, doc: string -> Stored, fs: seq<Filter>, logic: string,
                     ps: seq<Piece>)
    requires fs != [] && forall i :: 0 <= i < |fs| ==> Agrees(h, e, rd, fs[i], doc(fs[i].key))
    requires |ps| == |fs| && forall i :: 0 <= i < |fs| ==> Translate(h, rd, fs[i]) == Ok(ps[i])
    ensures Answer(e, StoredDocument(doc), Predicate(ps, logic)) <==>
            if logic == "and" then forall i :: 0 <= i < |fs| ==> InMemory(h, fs[i], doc(fs[i].key))
            else exists i :: 0 <= i < |fs| && InMemory(h, fs[i], doc(fs[i].key))
  {
    hide Translate, InMemory, Answer, Predicate, Selects, StoredDocument, Asks, Holding;
    PlanSelects(h, e, rd, StoredDocument(doc), fs, logic, ps);
    forall i | 0 <= i < |fs|
      ensures Selects(h, e, rd, StoredDocument(doc), fs[i]) <==> InMemory(h, fs[i], doc(fs[i].key))
    {
      AsksSelects(h, e, rd, Holding(doc(fs[i].key)), fs[i]);
      SelectsByKey(h, e, rd, doc, fs[i]);
    }
  }

  /** So push-down to GaussDB agrees with memory for every document that stores single
      texts, every non-empty request about texts and either logic. */
  lemma PlanAgrees(h: Host, e: Engine, rd: Reading, doc: string -> Stored, fs: seq<Filter>, logic: string,
                   ps: seq<Piece>)
    requires Alike(h, e) && fs != []
    requires forall i :: 0 <= i < |fs| ==> AboutTexts(h, fs[i]) && doc(fs[i].key).One?
    requires |ps| == |fs| && forall i :: 0 <= i < |fs| ==> Translate(h, rd, fs[i]) == Ok(ps[i])
    ensures Answer(e, StoredDocument(doc), Predicate(ps, logic)) <==>
            if logic == "and" then forall i :: 0 <= i < |fs| ==> Matched(h, fs[i].op, doc(fs[i].key).t, fs[i].value)
            else exists i :: 0 <= i < |fs| && Matched(h, fs[i].op, doc(fs[i].key).t, fs[i].value)
  {
    hide Translate, AboutTexts, Alike, Matched, Answer, Predicate, Asks, InMemory, StoredDocument;
    forall i | 0 <= i < |fs|
      ensures Agrees(h, e, rd, fs[i], doc(fs[i].key))
      ensures InMemory(h, fs[i], doc(fs[i].key)) <==> Matched(h, fs[i].op, doc(fs[i].key).t, fs[i].value)
    {
      AboutTextsAgrees(h, e, rd, fs[i]);
      assert Agrees(h, e, rd, fs[i], One(doc(fs[i].key).t));
      OneInMemory(h, fs[i], doc(fs[i].key).t);
    }
    PlanComposes(h, e, rd, doc, fs, logic, ps);
  }

  // ----- keys with dots -----

  /** `#>` on the stored metadata: the first segment is looked up, deeper ones in its
      value; a path with a NULL in it leads nowhere. */
  function PathAt(deep: (Json, seq<string>) -> Option<Json>, fields: map<string, Json>, k: string): Option<Json> {
    var segs := SplitDots(k, []);
    if !ServerPath.Leads(k) || segs[0] !in fields then None
    else if |segs| == 1 then Some(fields[segs[0]])
    else deep(fields[segs[0]], segs[1..])
  }

  /** The statement looks where memory looks, which takes keys whole, if and only if the
      key has no dot and is not `null` in any case. */
  lemma SameKeyIff(deep: (Json, seq<string>) -> Option<Json>, k: string)
    ensures (forall fields :: PathAt(deep, fields, k) == if k in fields then Some(fields[k]) else None) <==>
            '.' !in k && !ServerPath.NullWord(k)
  {
    SplitIsExact(k, []);
    ServerPath.LeadsIff(k);
    assert [] + k == k;
    hide ServerPath.Leads, ServerPath.NullWord;
    var fields: map<string, Json> := map[k := JNull];
    if '.' in k {
      assert SplitDots(k, [])[0] != k;
      assert PathAt(deep, fields, k) == None;
    } else {
      NoDots(k, []);
      assert SplitDots(k, []) == [k];
      assert ServerPath.HasNullWord(k) <==> ServerPath.NullWord(k);
      assert ServerPath.NullWord(k) ==> PathAt(deep, fields, k) == None;
    }
  }

  /** Such runtimes and engines exist. */
  lemma SomeAlike() returns (h: Host, e: Engine)
    ensures Alike(h, e)
  {
    h := Host((c: char) => c, (c: char) => c == ' ', (c: char) => '0' <= c <= '9',
              (s: string) => None, (v: PyVal) => "",
              (v: PyVal, s: string) => None, (v: PyVal) => true, (c: Cmp, v: PyVal, w: PyVal) => None);
    e := Engine((c: char) => c, (v: Json) => if v.JArray? then ListText.Listed(TextsOf(v.items)) else "",
                (v: PyVal) => if v.PBool? then JBool(v.b) else JNum(0.0),
                (s: string, c: Cmp, b: string) => Null, (s: string) => false, (s: string, c: Cmp, b: PyVal) => false);
    forall xs ensures TextsOf(Items(xs)) == xs {
      ItemTexts(xs);
    }
  }

  function TextsOf(items: seq<Json>): seq<string> {
    if items == [] then [] else [if items[0].JText? then items[0].s else ""] + TextsOf(items[1..])
  }

  lemma {:induction false} ItemTexts(xs: seq<string>)
    ensures TextsOf(Items(xs)) == xs
  {
    if xs == [] {
    } else {
      assert Items(xs)[1..] == Items(xs[1..]);
      ItemTexts(xs[1..]);
    }
  }
}
