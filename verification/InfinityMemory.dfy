/** When an Infinity filter selects the documents `meta_filter` selects. */
module InfinityMemory {
  import opened Text
  import opened Python
  import opened MetaFilter
  import opened Coercion
  import opened SqlSyntax
  import opened InfinityFilter
  import opened TextDocs
  import Es = EsPushdown

  // ----- what the database answers -----

  /** How the database decodes JSON escapes, which text it extracts of a value, and how it
      orders texts and compares what it extracts as a number. */
  datatype Database = Database(
    unescape: string -> Option<char>,
    extract: Stored -> Option<string>,
    order: (Cmp, string, string) -> bool,
    number: (Stored, SqlCmp, PyVal) -> Tri)

  /** JSON_CONTAINS with the JSON text of a string: the value is that string or has it as a
      member, case included; unknown without a value or when the JSON is malformed. */
  function Holds(db: Database, st: Stored, json: string): Tri {
    if json == [] || json[0] != '"' then Null
    else
      var r := ReadJson(db.unescape, json[1..]);
      if r.None? || r.value.1 != [] then Null
      else
        match st
        case One(t) => Of(t == r.value.0)
        case Many(xs) => Of(r.value.0 in xs)
        case _ => Null
  }

  /** The answers about a document of texts: numbers are not among its values. */
  function About(db: Database, st: Stored): Answers {
    Answers((k, json) => Holds(db, st, json), (k, n) => if st.One? || st.Many? then False else Null,
            k => db.extract(st),
            (op: SqlCmp, s, t) => if op.EQ? then s == t else if op.NE? then s != t else db.order(op.cmp, s, t),
            (k, op, n) => db.number(st, op, n))
  }

  predicate Picks(h: Host, db: Database, f: Filter, st: Stored)
    requires Translate(h, f).Ok?
  {
    Intended(h, About(db, st), f) == True
  }

  ghost predicate Agrees(h: Host, db: Database, f: Filter, st: Stored) {
    Translate(h, f).Ok? && (Picks(h, db, f, st) <==> InMemory(h, f, st))
  }

  ghost predicate OnTexts(h: Host, db: Database, f: Filter) {
    forall t :: Agrees(h, db, f, One(t))
  }

  ghost predicate OnLists(h: Host, db: Database, f: Filter) {
    forall xs :: Agrees(h, db, f, Many(xs))
  }

  /** What the database decodes of the text written between JSON quotes. */
  function Decoded(db: Database, s: string): Option<string> {
    var r := ReadJson(db.unescape, s + "\"");
    if r.None? || r.value.1 != [] then None else Some(r.value.0)
  }

  lemma DecodedIff(db: Database, s: string)
    ensures Decoded(db, s) == Some(s) <==> JsonClean(s)
  {
    JsonQuotingExactIff(db.unescape, s);
  }

  predicate HasText(st: Stored, s: string) {
    match st
    case One(t) => t == s
    case Many(xs) => s in xs
    case _ => false
  }

  lemma HoldsIs(db: Database, st: Stored, s: string)
    ensures Holds(db, st, "\"" + s + "\"") ==
            if Decoded(db, s).None? || st.Absent? || st.NullValue? then Null
            else Of(HasText(st, Decoded(db, s).value))
  {
    assert ("\"" + s + "\"")[1..] == s + "\"";
  }

  // ----- equality -----

  lemma EqualPicks(h: Host, db: Database, k: string, s: string, st: Stored)
    requires ValidKey(k) && h.PlainText(s)
    ensures Translate(h, Filter(k, Eq, PStr(s))).Ok? && Translate(h, Filter(k, Ne, PStr(s))).Ok?
    ensures Picks(h, db, Filter(k, Eq, PStr(s)), st) <==>
            Decoded(db, s).Some? && HasText(st, Decoded(db, s).value)
    ensures Picks(h, db, Filter(k, Ne, PStr(s)), st) <==>
            Decoded(db, s).Some? && (st.One? || st.Many?) && !HasText(st, Decoded(db, s).value)
  {
    HoldsIs(db, st, s);
    hide Decoded, Holds, ReadJson;
  }

  /** The text is the only one that memory takes for it, and the database reads it back. */
  ghost predicate Literal(h: Host, s: string) {
    JsonClean(s) && Caseless(h, s)
  }

  /** Memory takes t for s. */
  predicate Alike(h: Host, s: string, t: string) {
    h.Lower(t) == h.Lower(s)
  }

  lemma LiteralIff(h: Host, db: Database, s: string)
    requires h.Sane()
    ensures Literal(h, s) <==> forall t :: Decoded(db, s) == Some(t) <==> Alike(h, s, t)
  {
    DecodedIff(db, s);
    hide Decoded, JsonClean;
    if Literal(h, s) {
      forall t ensures t == s <==> Alike(h, s, t) {
        if Alike(h, s, t) {
          CaselessOnly(h, s, t);
        }
      }
    }
    if forall t :: Decoded(db, s) == Some(t) <==> Alike(h, s, t) {
      assert Alike(h, s, s);
      if !Caseless(h, s) {
        var x := Variant(h, s);
        OnlyOne(h, db, s, x);
      }
    }
  }

  lemma OnlyOne(h: Host, db: Database, s: string, x: string)
    requires Decoded(db, s) == Some(s) && h.Lower(x) == h.Lower(s)
    requires forall t :: Decoded(db, s) == Some(t) <==> Alike(h, s, t)
    ensures x == s
  {
    hide Decoded;
    assert Alike(h, s, x);
  }

  /** A text with case is taken for another one. */
  lemma Variant(h: Host, s: string) returns (x: string)
    requires h.Sane() && !Caseless(h, s)
    ensures h.Lower(x) == h.Lower(s) && Alike(h, s, x) && x != s
  {
    var i, c: char :| 0 <= i < |s| && h.lower(c) == h.lower(s[i]) && c != h.lower(s[i]);
    if c == s[i] {
      x := h.Lower(s);
      LowerTwice(h, s);
      assert x[i] == h.lower(s[i]);
    } else {
      x := s[i := c];
      forall j | 0 <= j < |s| ensures h.Lower(x)[j] == h.Lower(s)[j] {
      }
      assert x[i] == c;
    }
  }

  /** `=` and `≠` with a plain text agree on every text if and only if the text has no case
      and JSON writes it as it is: JSON_CONTAINS compares case, memory does not. */
  lemma EqualOnTextsIff(h: Host, db: Database, k: string, s: string)
    requires h.Sane() && ValidKey(k) && h.PlainText(s)
    ensures OnTexts(h, db, Filter(k, Eq, PStr(s))) <==> Literal(h, s)
    ensures OnTexts(h, db, Filter(k, Ne, PStr(s))) <==> Literal(h, s)
  {
    var f, g, c := Filter(k, Eq, PStr(s)), Filter(k, Ne, PStr(s)), Decoded(db, s);
    forall t
      ensures Agrees(h, db, f, One(t)) <==> (c == Some(t) <==> Alike(h, s, t))
      ensures Agrees(h, db, g, One(t)) <==> (c.Some? && c != Some(t) <==> !Alike(h, s, t))
    {
      EqualPicks(h, db, k, s, One(t));
      OneInMemory(h, f, t);
      OneInMemory(h, g, t);
      Es.EqualInMemory(h, s, t);
      hide Picks, InMemory, Matched, Decoded, Translate, Host.PlainText;
    }
    LiteralIff(h, db, s);
    AlikeOrNot(h, s);
    hide Agrees, Decoded, Literal, Host.PlainText, Alike;
  }

  lemma AlikeOrNot(h: Host, s: string)
    ensures Alike(h, s, s) && !Alike(h, s, s + "a")
  {
    SameLength(h, s);
    SameLength(h, s + "a");
  }

  ghost predicate SomeAlike(h: Host, s: string, xs: seq<string>) {
    exists i :: 0 <= i < |xs| && Alike(h, s, xs[i])
  }

  ghost predicate SomeOther(h: Host, s: string, xs: seq<string>) {
    exists i :: 0 <= i < |xs| && !Alike(h, s, xs[i])
  }

  lemma ManyEqual(h: Host, k: string, s: string, xs: seq<string>)
    requires h.PlainText(s)
    ensures InMemory(h, Filter(k, Eq, PStr(s)), Many(xs)) <==> SomeAlike(h, s, xs)
    ensures InMemory(h, Filter(k, Ne, PStr(s)), Many(xs)) <==> SomeOther(h, s, xs)
  {
    forall i | 0 <= i < |xs|
      ensures Matched(h, Eq, xs[i], PStr(s)) <==> Alike(h, s, xs[i])
      ensures Matched(h, Ne, xs[i], PStr(s)) <==> !Alike(h, s, xs[i])
    {
      Es.EqualInMemory(h, s, xs[i]);
    }
    hide Matched, Alike, Host.PlainText;
    assert Flat(Many(xs)) == xs;
    if SomeAlike(h, s, xs) {
      var i :| 0 <= i < |xs| && Alike(h, s, xs[i]);
      assert Matched(h, Eq, Flat(Many(xs))[i], PStr(s));
    }
    if SomeOther(h, s, xs) {
      var i :| 0 <= i < |xs| && !Alike(h, s, xs[i]);
      assert Matched(h, Ne, Flat(Many(xs))[i], PStr(s));
    }
  }

  lemma EqualOnList(h: Host, db: Database, k: string, s: string, xs: seq<string>)
    requires ValidKey(k) && h.PlainText(s)
    ensures var c := Decoded(db, s);
      && (Agrees(h, db, Filter(k, Eq, PStr(s)), Many(xs)) <==> (c.Some? && c.value in xs <==> SomeAlike(h, s, xs)))
      && (Agrees(h, db, Filter(k, Ne, PStr(s)), Many(xs)) <==> (c.Some? && c.value !in xs <==> SomeOther(h, s, xs)))
  {
    EqualPicks(h, db, k, s, Many(xs));
    ManyEqual(h, k, s, xs);
    hide Picks, InMemory, Decoded, Translate, Host.PlainText, SomeAlike, SomeOther;
  }

  /** The same condition holds for `=` on lists, since members are compared whole. */
  lemma EqualOnListsIff(h: Host, db: Database, k: string, s: string)
    requires h.Sane() && ValidKey(k) && h.PlainText(s)
    ensures OnLists(h, db, Filter(k, Eq, PStr(s))) <==> Literal(h, s)
  {
    var f, c := Filter(k, Eq, PStr(s)), Decoded(db, s);
    forall xs ensures Agrees(h, db, f, Many(xs)) <==> (c.Some? && c.value in xs <==> SomeAlike(h, s, xs)) {
      EqualOnList(h, db, k, s, xs);
    }
    LiteralIff(h, db, s);
    hide Agrees, Decoded, Literal, Host.PlainText, Alike;
    if OnLists(h, db, f) {
      forall t ensures c == Some(t) <==> Alike(h, s, t) {
        assert [t][0] == t;
        assert Agrees(h, db, f, Many([t]));
      }
    }
    if Literal(h, s) {
      forall xs ensures c.Some? && c.value in xs <==> SomeAlike(h, s, xs) {
        if c.Some? && c.value in xs {
          var i :| 0 <= i < |xs| && xs[i] == c.value;
          assert Alike(h, s, xs[i]);
        }
      }
    }
  }

  /** `≠` does not agree on all lists. */
  lemma NotEqualNeverOnLists(h: Host, db: Database, k: string, s: string)
    requires ValidKey(k) && h.PlainText(s)
    ensures !OnLists(h, db, Filter(k, Ne, PStr(s)))
  {
    var c, y := Decoded(db, s), s + "a";
    var ys := if c.Some? then [c.value, y] else [y];
    EqualOnList(h, db, k, s, ys);
    AlikeOrNot(h, s);
    hide Agrees, Decoded, Host.PlainText, Alike;
    assert ys[|ys| - 1] == y;
    assert !Agrees(h, db, Filter(k, Ne, PStr(s)), Many(ys));
  }

  // ----- contains -----

  lemma DecodedShorter(db: Database, s: string)
    ensures Decoded(db, s).Some? ==> |Decoded(db, s).value| <= |s|
  {
    if Decoded(db, s).Some? {
      JsonLength(db.unescape, s + "\"");
    }
  }

  lemma ContainsPicks(h: Host, db: Database, k: string, value: PyVal, st: Stored)
    requires Translate(h, Filter(k, Contains, value)).Ok?
    ensures Picks(h, db, Filter(k, Contains, value), st) <==>
            && CoerceRange(h, value).value.PStr?
            && Decoded(db, h.Str(value)).Some? && HasText(st, Decoded(db, h.Str(value)).value)
  {
    HoldsIs(db, st, h.Str(value));
    hide Decoded, Holds, ReadJson;
  }

  lemma NotContainsPicks(h: Host, db: Database, k: string, value: PyVal, st: Stored)
    requires Translate(h, Filter(k, NotContains, value)).Ok?
    ensures Picks(h, db, Filter(k, NotContains, value), st) <==>
            && Decoded(db, h.Str(value)).Some? && (st.One? || st.Many?)
            && !HasText(st, Decoded(db, h.Str(value)).value)
  {
    HoldsIs(db, st, h.Str(value));
    hide Decoded, Holds, ReadJson;
  }

  /** `contains` asks for a whole member where memory looks for a part: no text value agrees
      on every text, and any other value only if it selects nothing. */
  lemma ContainsOnTextsIff(h: Host, db: Database, k: string, value: PyVal)
    requires h.Sane() && Translate(h, Filter(k, Contains, value)).Ok?
    ensures OnTexts(h, db, Filter(k, Contains, value)) <==>
            !value.PStr? && (Decoded(db, h.Str(value)).None? || !CoerceRange(h, value).value.PStr?)
  {
    var f, s := Filter(k, Contains, value), h.Str(value);
    forall t
      ensures Agrees(h, db, f, One(t)) <==>
              (CoerceRange(h, value).value.PStr? && Decoded(db, s) == Some(t) <==>
               value.PStr? && Occurs(h.Lower(s), h.Lower(t)))
    {
      ContainsPicks(h, db, k, value, One(t));
      OneInMemory(h, f, t);
      Es.ContainsInMemory(h, value, t);
      hide Picks, InMemory, Matched, Decoded, Translate, Occurs, CoerceRange, Host.Lower;
    }
    LongerContains(h, s);
    DecodedShorter(db, s);
    hide Agrees, Decoded, Occurs, CoerceRange, Host.Lower, Translate;
    assert value.PStr? ==> !Agrees(h, db, f, One(s + "a"));
    if !value.PStr? && Decoded(db, s).Some? {
      var c := Decoded(db, s).value;
      assert Agrees(h, db, f, One(c)) <==> !CoerceRange(h, value).value.PStr?;
    }
  }

  lemma LongerContains(h: Host, s: string)
    ensures Occurs(h.Lower(s), h.Lower(s + "a"))
  {
    assert h.Lower(s + "a")[0..][..|s|] == h.Lower(s);
  }

  /** So it is with `not contains`. */
  lemma NotContainsOnTextsIff(h: Host, db: Database, k: string, value: PyVal)
    requires h.Sane() && Translate(h, Filter(k, NotContains, value)).Ok?
    ensures OnTexts(h, db, Filter(k, NotContains, value)) <==> !value.PStr? && Decoded(db, h.Str(value)).None?
  {
    var f, s := Filter(k, NotContains, value), h.Str(value);
    forall t
      ensures Agrees(h, db, f, One(t)) <==>
              (Decoded(db, s).Some? && Decoded(db, s).value != t <==>
               value.PStr? && !Occurs(h.Lower(s), h.Lower(t)))
    {
      NotContainsPicks(h, db, k, value, One(t));
      OneInMemory(h, f, t);
      Es.ContainsInMemory(h, value, t);
      hide Picks, InMemory, Matched, Decoded, Translate, Occurs, Host.Lower;
    }
    LongerContains(h, s);
    DecodedShorter(db, s);
    SameLength(h, s);
    SameLength(h, "");
    assert s != [];
    assert !Occurs(h.Lower(s), h.Lower(""));
    hide Agrees, Decoded, Occurs, Host.Lower, Translate;
    if Decoded(db, s).Some? {
      assert !Agrees(h, db, f, One(s + "a"));
    } else {
      assert Agrees(h, db, f, One("")) <==> !value.PStr?;
    }
  }

  // ----- prefixes, suffixes and emptiness -----

  lemma AffixPicks(h: Host, db: Database, k: string, value: PyVal, st: Stored)
    requires ValidKey(k) && CoerceText(h, value).Ok?
    ensures Translate(h, Filter(k, StartWith, value)).Ok? && Translate(h, Filter(k, EndWith, value)).Ok?
    ensures Picks(h, db, Filter(k, StartWith, value), st) <==>
            db.extract(st).Some? && h.Str(value) <= db.extract(st).value
    ensures Picks(h, db, Filter(k, EndWith, value), st) <==>
            db.extract(st).Some? && EndsWith(db.extract(st).value, h.Str(value))
  {
    hide EndsWith, Holds;
  }

  /** `empty` asks for the extracted text `""`, the affix operators for the text itself: no
      extraction makes both agree. */
  lemma NoExtraction(h: Host, db: Database, k: string, v: PyVal)
    requires h.Sane() && ValidKey(k)
    ensures !(OnTexts(h, db, Filter(k, Empty, v)) && OnTexts(h, db, Filter(k, StartWith, PStr("\""))))
  {
    var f, g := Filter(k, Empty, v), Filter(k, StartWith, PStr("\""));
    AffixPicks(h, db, k, PStr("\""), One(""));
    OneInMemory(h, f, "");
    OneInMemory(h, g, "");
    OppositeEmptiness(h, "", v);
    Es.AffixInMemory(h, PStr("\""), "");
    SameLength(h, "\"");
    SameLength(h, "");
    hide Matched, InMemory, Host.Lower;
    var x := db.extract(One(""));
    assert Agrees(h, db, f, One("")) ==> x == Some("\"\"");
    assert x == Some("\"\"") ==> "\"" <= x.value;
    assert x == Some("\"\"") ==> !Agrees(h, db, g, One(""));
  }

  /** The extracted text is the text itself. */
  ghost predicate Plainly(db: Database) {
    forall t :: db.extract(One(t)) == Some(t)
  }

  /** Extracted as they are, texts agree on `start with` and `end with` if and only if the
      value has no case, and never on `empty` and `not empty`. */
  lemma PlainlyIff(h: Host, db: Database, k: string, value: PyVal)
    requires h.Sane() && ValidKey(k) && CoerceText(h, value).Ok? && Plainly(db)
    ensures OnTexts(h, db, Filter(k, StartWith, value)) <==> Caseless(h, h.Str(value))
    ensures OnTexts(h, db, Filter(k, EndWith, value)) <==> Caseless(h, h.Str(value))
    ensures !OnTexts(h, db, Filter(k, Empty, value)) && !OnTexts(h, db, Filter(k, NotEmpty, value))
  {
    var f, g, s := Filter(k, StartWith, value), Filter(k, EndWith, value), h.Str(value);
    forall t
      ensures Agrees(h, db, f, One(t)) <==> (s <= t <==> h.Lower(s) <= h.Lower(t))
      ensures Agrees(h, db, g, One(t)) <==> (EndsWith(t, s) <==> EndsWith(h.Lower(t), h.Lower(s)))
    {
      AffixPlainly(h, db, k, value, t);
    }
    if Caseless(h, s) {
      forall t
        ensures s <= t <==> h.Lower(s) <= h.Lower(t)
        ensures EndsWith(t, s) <==> EndsWith(h.Lower(t), h.Lower(s))
      {
        CaselessAffix(h, s, t);
      }
    } else {
      var x := Variant(h, s);
      SameLength(h, s);
      SameLength(h, x);
      hide Agrees, Host.Lower, Caseless, CoerceText;
      assert EndsWith(h.Lower(x), h.Lower(s)) && !EndsWith(x, s);
      assert !Agrees(h, db, f, One(x)) && !Agrees(h, db, g, One(x));
    }
    BlankPlainly(h, db, k, value);
    hide Agrees, CoerceText;
  }

  lemma AffixPlainly(h: Host, db: Database, k: string, value: PyVal, t: string)
    requires h.Sane() && ValidKey(k) && CoerceText(h, value).Ok? && Plainly(db)
    ensures var s := h.Str(value);
      && (Agrees(h, db, Filter(k, StartWith, value), One(t)) <==> (s <= t <==> h.Lower(s) <= h.Lower(t)))
      && (Agrees(h, db, Filter(k, EndWith, value), One(t)) <==> (EndsWith(t, s) <==> EndsWith(h.Lower(t), h.Lower(s))))
  {
    AffixPicks(h, db, k, value, One(t));
    OneInMemory(h, Filter(k, StartWith, value), t);
    OneInMemory(h, Filter(k, EndWith, value), t);
    Es.AffixInMemory(h, value, t);
    assert db.extract(One(t)) == Some(t);
    hide Matched, InMemory, EndsWith, Host.Lower, Picks, Translate, CoerceText, Plainly;
  }

  lemma BlankPlainly(h: Host, db: Database, k: string, v: PyVal)
    requires ValidKey(k) && Plainly(db)
    ensures !Agrees(h, db, Filter(k, Empty, v), One("")) && !Agrees(h, db, Filter(k, NotEmpty, v), One(""))
  {
    OneInMemory(h, Filter(k, Empty, v), "");
    OneInMemory(h, Filter(k, NotEmpty, v), "");
    OppositeEmptiness(h, "", v);
    assert db.extract(One("")) == Some("");
    hide Matched, InMemory, Plainly;
  }

  lemma CaselessAffix(h: Host, s: string, t: string)
    requires Caseless(h, s)
    ensures s <= t <==> h.Lower(s) <= h.Lower(t)
    ensures EndsWith(t, s) <==> EndsWith(h.Lower(t), h.Lower(s))
  {
    SameLength(h, s);
    SameLength(h, t);
    if |s| <= |t| {
      PartIff(h, s, t, 0);
      PartIff(h, s, t, |t| - |s|);
      hide Host.Lower;
      assert t[|t| - |s|..|t|] == t[|t| - |s|..] && h.Lower(t)[|t| - |s|..|t|] == h.Lower(t)[|t| - |s|..];
      assert t[0..|s|] == t[..|s|] && h.Lower(t)[0..|s|] == h.Lower(t)[..|s|];
    }
  }

  lemma PartIff(h: Host, s: string, t: string, i: nat)
    requires Caseless(h, s) && i + |s| <= |t|
    ensures |h.Lower(t)| == |t|
    ensures t[i..i + |s|] == s <==> h.Lower(t)[i..i + |s|] == h.Lower(s)
  {
    var a := t[i..i + |s|];
    assert h.Lower(a) == h.Lower(t)[i..i + |s|];
    if h.Lower(a) == h.Lower(s) {
      CaselessOnly(h, s, a);
    }
  }

  /** Extracted in JSON quotes, they agree on `empty` and `not empty`; then a plain value
      does not on `start with`. */
  lemma QuotedAgrees(h: Host, db: Database, k: string, v: PyVal, s: string)
    requires h.Sane() && ValidKey(k) && s != [] && s[0] != '"'
    requires forall t :: db.extract(One(t)).Some? && (db.extract(One(t)).value == "\"\"" <==> t == "")
    requires db.extract(One(s)) == Some("\"" + s + "\"")
    ensures OnTexts(h, db, Filter(k, Empty, v)) && OnTexts(h, db, Filter(k, NotEmpty, v))
    ensures !OnTexts(h, db, Filter(k, StartWith, PStr(s)))
  {
    forall t
      ensures Agrees(h, db, Filter(k, Empty, v), One(t)) && Agrees(h, db, Filter(k, NotEmpty, v), One(t))
    {
      QuotedBlank(h, db, k, v, t);
    }
    QuotedStart(h, db, k, s);
    hide Agrees;
  }

  lemma QuotedBlank(h: Host, db: Database, k: string, v: PyVal, t: string)
    requires ValidKey(k) && db.extract(One(t)).Some? && (db.extract(One(t)).value == "\"\"" <==> t == "")
    ensures Agrees(h, db, Filter(k, Empty, v), One(t)) && Agrees(h, db, Filter(k, NotEmpty, v), One(t))
  {
    OneInMemory(h, Filter(k, Empty, v), t);
    OneInMemory(h, Filter(k, NotEmpty, v), t);
    OppositeEmptiness(h, t, v);
    hide Matched, InMemory;
  }

  lemma QuotedStart(h: Host, db: Database, k: string, s: string)
    requires h.Sane() && ValidKey(k) && s != [] && s[0] != '"' && db.extract(One(s)) == Some("\"" + s + "\"")
    ensures !Agrees(h, db, Filter(k, StartWith, PStr(s)), One(s))
  {
    var g := Filter(k, StartWith, PStr(s));
    AffixPicks(h, db, k, PStr(s), One(s));
    OneInMemory(h, g, s);
    Es.AffixInMemory(h, PStr(s), s);
    hide Matched, InMemory, Host.Lower, Picks, Translate;
    assert ("\"" + s + "\"")[0] == '"';
  }

  // ----- membership -----

  /** The text asked for a member, after trimming and lower-casing; numbers are none. */
  function Asked(h: Host, db: Database, m: PyVal): Option<string> {
    var c := CoerceRange(h, NormalMember(h, m));
    if c.Unsupported? || IsNumber(c.value) then None else Decoded(db, h.Str(c.value))
  }

  ghost predicate AskedSome(h: Host, db: Database, ms: seq<PyVal>, st: Stored) {
    exists i :: 0 <= i < |ms| && Asked(h, db, ms[i]).Some? && HasText(st, Asked(h, db, ms[i]).value)
  }

  lemma MemberHolds(h: Host, db: Database, k: string, m: PyVal, st: Stored)
    requires m.PStr?
    ensures CoerceRange(h, NormalMember(h, m)).Ok?
    ensures Has(h, About(db, st), k, CoerceRange(h, NormalMember(h, m)).value) == True <==>
            Asked(h, db, m).Some? && HasText(st, Asked(h, db, m).value)
  {
    var v := CoerceRange(h, NormalMember(h, m)).value;
    if !IsNumber(v) {
      HoldsIs(db, st, h.Str(v));
    }
    hide Decoded, Holds, ReadJson, Host.Trim, Host.Lower;
  }

  lemma ListTranslates(h: Host, k: string, v: PyVal)
    requires ValidKey(k) && CsvOrList(h, v).Ok? && !NoneMember(h, CsvOrList(h, v).value)
    ensures Translate(h, Filter(k, In, v)).Ok? && Translate(h, Filter(k, NotIn, v)).Ok?
  {
    hide CsvOrList, NoneMember, Conditions, Fragments, Part, Join, ValidKey;
  }

  lemma ListMembers(h: Host, ms: seq<PyVal>)
    requires ms != [] && forall i :: 0 <= i < |ms| ==> CoerceRange(h, NormalMember(h, ms[i])).Ok?
    ensures CsvOrList(h, PList(ms)) == Ok(NormalMembers(h, ms)) && !NoneMember(h, NormalMembers(h, ms))
  {
    hide CoerceRange, NormalMember;
    assert Coercion.RawMembers(h, PList(ms)) == ms;
  }

  lemma MembershipIntended(h: Host, d: Answers, k: string, v: PyVal, ns: seq<PyVal>)
    requires CsvOrList(h, v) == Ok(ns)
    requires Translate(h, Filter(k, In, v)).Ok? && Translate(h, Filter(k, NotIn, v)).Ok?
    ensures Intended(h, d, Filter(k, In, v)) == OrAll(HasMembers(h, d, k, ns))
    ensures Intended(h, d, Filter(k, NotIn, v)) == Not3(OrAll(HasMembers(h, d, k, ns)))
  {
    hide Translate, CsvOrList, HasMembers, OrAll, Not3, Has, CoerceRange, CoerceScalar, EndsWith;
  }

  /** What the membership operators mean, in terms of the members as they are asked for. */
  lemma ListIntended(h: Host, db: Database, k: string, ms: seq<PyVal>, st: Stored)
    requires ValidKey(k) && ms != []
    requires forall i :: 0 <= i < |ms| ==> CoerceRange(h, NormalMember(h, ms[i])).Ok?
    ensures var ns, d := NormalMembers(h, ms), About(db, st);
      && Translate(h, Filter(k, In, PList(ms))).Ok? && Translate(h, Filter(k, NotIn, PList(ms))).Ok?
      && Intended(h, d, Filter(k, In, PList(ms))) == OrAll(HasMembers(h, d, k, ns))
      && Intended(h, d, Filter(k, NotIn, PList(ms))) == Not3(OrAll(HasMembers(h, d, k, ns)))
  {
    hide CoerceRange, HasMembers, NormalMember, NormalMembers, About, OrAll, Not3, CsvOrList, Translate, ValidKey,
         NoneMember, Intended;
    ListMembers(h, ms);
    ListTranslates(h, k, PList(ms));
    MembershipIntended(h, About(db, st), k, PList(ms), NormalMembers(h, ms));
  }

  lemma TextMembers(h: Host, ms: seq<PyVal>)
    requires Es.AllText(ms)
    ensures forall i :: 0 <= i < |ms| ==> ms[i].PStr? && CoerceRange(h, NormalMember(h, ms[i])).Ok?
  {
    forall i | 0 <= i < |ms| ensures ms[i].PStr? && CoerceRange(h, NormalMember(h, ms[i])).Ok? {
      assert NormalMember(h, ms[i]).PStr?;
    }
  }

  lemma MembersPick(h: Host, db: Database, k: string, ms: seq<PyVal>, st: Stored)
    requires ValidKey(k) && ms != [] && Es.AllText(ms)
    ensures Translate(h, Filter(k, In, PList(ms))).Ok?
    ensures Picks(h, db, Filter(k, In, PList(ms)), st) <==> AskedSome(h, db, ms, st)
  {
    TextMembers(h, ms);
    ListIntended(h, db, k, ms, st);
    hide CoerceRange, Has, Asked, HasText, NormalMember, About, OrAll, Intended, Translate, ValidKey, Es.AllText;
    var vs := HasMembers(h, About(db, st), k, NormalMembers(h, ms));
    forall i | 0 <= i < |ms|
      ensures vs[i] == True <==> Asked(h, db, ms[i]).Some? && HasText(st, Asked(h, db, ms[i]).value)
    {
      MemberHolds(h, db, k, ms[i], st);
    }
    hide HasMembers, NormalMembers;
    OrAllTrue(vs);
    if AskedSome(h, db, ms, st) {
      var i :| 0 <= i < |ms| && Asked(h, db, ms[i]).Some? && HasText(st, Asked(h, db, ms[i]).value);
      assert vs[i] == True;
    }
  }

  /** The texts asked for are exactly those memory takes for a member. */
  ghost predicate SameTexts(h: Host, db: Database, ms: seq<PyVal>)
    requires Es.AllText(ms)
  {
    forall t :: Among(h, db, ms, t) <==> Es.AmongLower(h, ms, false, t)
  }

  ghost predicate Among(h: Host, db: Database, ms: seq<PyVal>, t: string) {
    exists i :: 0 <= i < |ms| && Asked(h, db, ms[i]) == Some(t)
  }

  lemma InAsksSame(h: Host, db: Database, k: string, ms: seq<PyVal>)
    requires ValidKey(k) && ms != [] && Es.AllText(ms)
    ensures OnTexts(h, db, Filter(k, In, PList(ms))) <==> SameTexts(h, db, ms)
  {
    var f := Filter(k, In, PList(ms));
    forall t ensures Agrees(h, db, f, One(t)) <==> (Among(h, db, ms, t) <==> Es.AmongLower(h, ms, false, t)) {
      MembersPick(h, db, k, ms, One(t));
      OneInMemory(h, f, t);
      Es.InListInMemory(h, ms, t);
      hide Picks, InMemory, Matched, Translate, Asked, Es.AmongLower;
    }
    hide Agrees, Among, Es.AmongLower;
  }

  /** A member that asks for itself and is taken for nothing else: it has no case, JSON
      writes it as it is, it has no blanks around it and reads as no number. */
  ghost predicate Plain(h: Host, s: string) {
    Literal(h, s) && h.Trim(s) == s && CoerceRange(h, PStr(s)) == Ok(PStr(s))
  }

  ghost predicate AllPlain(h: Host, ms: seq<PyVal>)
    requires Es.AllText(ms)
  {
    forall i :: 0 <= i < |ms| ==> Plain(h, ms[i].s)
  }

  lemma PlainOnly(h: Host, s: string, t: string)
    requires Plain(h, s) && h.Lower(t) == h.Lower(s)
    ensures t == s
  {
    CaselessOnly(h, s, t);
  }

  lemma PlainAsked(h: Host, db: Database, m: PyVal)
    requires m.PStr? && Plain(h, m.s)
    ensures Asked(h, db, m) == Some(m.s)
  {
    CaselessOnly(h, m.s, m.s);
    DecodedIff(db, m.s);
    assert NormalMember(h, m) == m;
    hide Decoded, JsonClean, Host.Trim, Host.Lower, Caseless, CoerceRange;
  }

  lemma PlainsAskSame(h: Host, db: Database, ms: seq<PyVal>)
    requires Es.AllText(ms) && AllPlain(h, ms)
    ensures SameTexts(h, db, ms)
  {
    forall i | 0 <= i < |ms| ensures Asked(h, db, ms[i]) == Some(ms[i].s) {
      assert Plain(h, ms[i].s);
      PlainAsked(h, db, ms[i]);
    }
    hide Plain, Asked;
    forall t ensures Among(h, db, ms, t) <==> Es.AmongLower(h, ms, false, t) {
      if Es.AmongLower(h, ms, false, t) {
        var i :| 0 <= i < |ms| && h.Lower(t) == h.Lower(ms[i].s);
        assert Plain(h, ms[i].s);
        PlainOnly(h, ms[i].s, t);
        assert Asked(h, db, ms[i]) == Some(t);
      }
    }
  }

  /** A text that is written by JSON as it is, has no blanks around it, is in lower case
      and reads as no number. */
  predicate Settled(h: Host, t: string) {
    JsonClean(t) && h.Trim(t) == t && h.Lower(t) == t && CoerceRange(h, PStr(t)) == Ok(PStr(t))
  }

  lemma DecodedWhole(db: Database, s: string)
    requires Decoded(db, s).Some? && |Decoded(db, s).value| >= |s|
    ensures Decoded(db, s) == Some(s) && JsonClean(s)
  {
    JsonLength(db.unescape, s + "\"");
    var c := Decoded(db, s).value;
    assert c + "\"" + [] == c + "\"";
    assert (c + "\"")[..|c|] == c && (s + "\"")[..|s|] == s;
  }

  /** Trimming and decoding only shorten: a text asked for of a member that is no longer
      is the member in lower case. */
  lemma AskedWhole(h: Host, db: Database, m: PyVal, t: string)
    requires h.Sane() && m.PStr? && Asked(h, db, m) == Some(t) && |m.s| <= |t|
    ensures t == h.Lower(m.s) && Settled(h, t)
  {
    var l := h.Lower(m.s);
    var n := h.Trim(l);
    SameLength(h, m.s);
    StripShorter(h.space, l);
    StripTwice(h.space, l);
    LowerTwice(h, m.s);
    DecodedShorter(db, n);
    hide Decoded, Host.Trim, Host.Lower, Host.Sane, JsonClean, Strip;
    assert CoerceRange(h, PStr(n)) == Ok(PStr(n)) && Decoded(db, n) == Some(t);
    assert |n| <= |l| by { assert n == Strip(h.space, l); }
    DecodedWhole(db, n);
    assert n == l by { assert n == Strip(h.space, l); }
  }

  /** If the longer members are plain, a text that memory takes for this one is asked for
      of a member that is no longer. */
  lemma TwinSettled(h: Host, db: Database, ms: seq<PyVal>, i: nat, t: string)
    requires h.Sane() && Es.AllText(ms) && SameTexts(h, db, ms) && i < |ms| && Alike(h, ms[i].s, t)
    requires forall j :: 0 <= j < |ms| && |ms[j].s| > |ms[i].s| ==> Plain(h, ms[j].s)
    ensures Settled(h, t)
  {
    SameLength(h, t);
    SameLength(h, ms[i].s);
    assert Es.AmongLower(h, ms, false, t);
    assert Among(h, db, ms, t);
    hide Asked, Plain, Settled, Host.Lower, SameTexts, Es.AmongLower;
    var j :| 0 <= j < |ms| && Asked(h, db, ms[j]) == Some(t);
    if |ms[j].s| > |ms[i].s| {
      PlainAsked(h, db, ms[j]);
    } else {
      AskedWhole(h, db, ms[j], t);
    }
  }

  lemma {:induction false} MemberPlain(h: Host, db: Database, ms: seq<PyVal>, i: nat, y: string)
    requires h.Sane() && Es.AllText(ms) && SameTexts(h, db, ms) && i < |ms| && Longer(y, ms)
    ensures Plain(h, ms[i].s)
    decreases |y| - |ms[i].s|
  {
    var s := ms[i].s;
    hide SameTexts, Host.Sane, Alike, Plain;
    forall j | 0 <= j < |ms| && |ms[j].s| > |s| ensures Plain(h, ms[j].s) {
      MemberPlain(h, db, ms, j, y);
    }
    forall t | Alike(h, s, t) ensures Settled(h, t) {
      TwinSettled(h, db, ms, i, t);
    }
    hide Longer, Settled;
    OnlySettled(h, s);
  }

  lemma OnlySettled(h: Host, s: string)
    requires h.Sane() && forall t :: Alike(h, s, t) ==> Settled(h, t)
    ensures Plain(h, s)
  {
    assert Alike(h, s, s);
    hide JsonClean, Host.Trim, CoerceRange, Host.Lower, Caseless;
    assert Settled(h, s);
    if !Caseless(h, s) {
      var x := Variant(h, s);
    }
  }

  lemma SameTextsIff(h: Host, db: Database, ms: seq<PyVal>)
    requires h.Sane() && Es.AllText(ms)
    ensures SameTexts(h, db, ms) <==> AllPlain(h, ms)
  {
    hide SameTexts, Plain, Host.Sane;
    if AllPlain(h, ms) {
      PlainsAskSame(h, db, ms);
    }
    if SameTexts(h, db, ms) {
      var y := Filler(ms);
      forall i | 0 <= i < |ms| ensures Plain(h, ms[i].s) {
        MemberPlain(h, db, ms, i, y);
      }
    }
  }

  /** List `in` agrees on every text if and only if every member has no case, no blanks
      around it, reads as no number, and is written by JSON as it is. */
  lemma InOnTextsIff(h: Host, db: Database, k: string, ms: seq<PyVal>)
    requires h.Sane() && ValidKey(k) && ms != [] && Es.AllText(ms)
    ensures OnTexts(h, db, Filter(k, In, PList(ms))) <==> AllPlain(h, ms)
  {
    hide OnTexts, SameTexts, AllPlain, Host.Sane;
    InAsksSame(h, db, k, ms);
    SameTextsIff(h, db, ms);
  }

  /** So no list agrees that has a member with an upper-case letter. */
  lemma CasedMemberDiffers(h: Host, db: Database, k: string, ms: seq<PyVal>, i: nat)
    requires h.Sane() && ValidKey(k) && Es.AllText(ms) && i < |ms| && ms[i].s != h.Lower(ms[i].s)
    ensures !OnTexts(h, db, Filter(k, In, PList(ms)))
  {
    if AllPlain(h, ms) {
      assert Plain(h, ms[i].s);
      CaselessOnly(h, ms[i].s, ms[i].s);
    }
    hide OnTexts, AllPlain, Host.Sane;
    InOnTextsIff(h, db, k, ms);
  }

  // ----- whole requests -----

  /** The answers about a document that stores what `doc` says under every key. */
  function AboutAll(db: Database, doc: string -> Stored): Answers {
    Answers((k, json) => Holds(db, doc(k), json),
            (k, n) => if doc(k).One? || doc(k).Many? then False else Null,
            k => db.extract(doc(k)),
            (op: SqlCmp, s, t) => if op.EQ? then s == t else if op.NE? then s != t else db.order(op.cmp, s, t),
            (k, op, n) => db.number(doc(k), op, n))
  }

  lemma SameMembers(h: Host, db: Database, doc: string -> Stored, k: string, ms: seq<PyVal>)
    ensures HasMembers(h, AboutAll(db, doc), k, ms) == HasMembers(h, About(db, doc(k)), k, ms)
  {
    hide Holds, CoerceRange;
  }

  lemma SameIntended(h: Host, db: Database, doc: string -> Stored, f: Filter)
    requires Translate(h, f).Ok?
    ensures Intended(h, AboutAll(db, doc), f) == Intended(h, About(db, doc(f.key)), f)
  {
    if f.op.In? || f.op.NotIn? {
      SameMembers(h, db, doc, f.key, CsvOrList(h, f.value).value);
    }
    hide Holds, CoerceRange, CoerceScalar, CsvOrList, HasMembers, OrAll, Conditions, EndsWith;
  }

  /** Agreement composes: where every filter of a request agrees on what the document
      stores under its key, the predicate is true of the document exactly when all, or
      some, filters take it in memory. */
  lemma RequestComposes(h: Host, db: Database, doc: string -> Stored, fs: seq<Filter>, logic: string,
                        fragments: seq<Sql>)
    requires fs != [] && forall i :: 0 <= i < |fs| ==> Agrees(h, db, fs[i], doc(fs[i].key))
    requires |fragments| == |fs| && forall i :: 0 <= i < |fs| ==> Translate(h, fs[i]) == Ok(fragments[i])
    ensures var val := (p: Pred) => Val(AboutAll(db, doc), p);
            Evaluate(val, Build(fragments, logic)) == Value(True) <==>
            if logic == "and" then forall i :: 0 <= i < |fs| ==> InMemory(h, fs[i], doc(fs[i].key))
            else exists i :: 0 <= i < |fs| && InMemory(h, fs[i], doc(fs[i].key))
  {
    hide Translate, InMemory, Intended, Build, Evaluate, Val, AboutAll, About;
    var d := AboutAll(db, doc);
    BuildMeans(h, d, fs, logic, fragments);
    var vs := IntendedAll(h, d, fs);
    forall i | 0 <= i < |fs| ensures vs[i] == True <==> InMemory(h, fs[i], doc(fs[i].key)) {
      SameIntended(h, db, doc, fs[i]);
    }
    AndAllTrue(vs);
    OrAllTrue(vs);
    hide AndAll, OrAll;
  }
}
