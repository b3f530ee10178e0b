/** When the Elasticsearch query selects the documents `meta_filter` selects. */
module EsPushdown {
  import opened Text
  import opened Python
  import opened MetaFilter
  import opened Patterns
  import opened Coercion
  import opened EsFilter

  /** The engine identifies two characters exactly when `str.lower` does. */
  ghost predicate SameFold(h: Host, e: Engine) {
    forall c, d :: e.fold(c) == e.fold(d) <==> h.lower(c) == h.lower(d)
  }

  /** What the in-memory filter says of a document with these values. */
  ghost predicate InMemory(h: Host, f: Filter, vs: seq<string>) {
    exists i :: 0 <= i < |vs| && Matched(h, f.op, vs[i], f.value)
  }

  ghost predicate AgreesOn(h: Host, e: Engine, f: Filter, d: Doc)
    requires Translate(h, f).Ok?
  {
    Holds(e, Translate(h, f).value, d) <==> InMemory(h, f, Values(d, Meta(f.key)))
  }

  /** The filter can be translated and means the same on every document. */
  ghost predicate Agrees(h: Host, e: Engine, f: Filter) {
    Translate(h, f).Ok? && forall d: Doc :: AgreesOn(h, e, f, d)
  }

  // ----- folding -----

  lemma FoldEqual(h: Host, e: Engine, a: string, b: string)
    requires SameFold(h, e)
    ensures MapChars(e.fold, a) == MapChars(e.fold, b) <==> h.Lower(a) == h.Lower(b)
  {
    var fa, fb, la, lb := MapChars(e.fold, a), MapChars(e.fold, b), h.Lower(a), h.Lower(b);
    if |a| == |b| {
      assert forall i :: 0 <= i < |a| ==> (fa[i] == fb[i] <==> la[i] == lb[i]);
      assert fa == fb <==> forall i :: 0 <= i < |a| ==> fa[i] == fb[i];
      assert la == lb <==> forall i :: 0 <= i < |a| ==> la[i] == lb[i];
    }
  }

  lemma FoldBlock(h: Host, e: Engine, t: string, s: string, i: nat)
    requires SameFold(h, e) && i + |t| <= |s|
    ensures MapChars(e.fold, s)[i..][..|t|] == MapChars(e.fold, t) <==> h.Lower(s)[i..][..|t|] == h.Lower(t)
  {
    FoldEqual(h, e, s[i..][..|t|], t);
    FoldSlice(e.fold, s, i, |t|);
    FoldSlice(h.lower, s, i, |t|);
  }

  lemma FoldOccurs(h: Host, e: Engine, t: string, s: string)
    requires SameFold(h, e)
    ensures Occurs(MapChars(e.fold, t), MapChars(e.fold, s)) <==> Occurs(h.Lower(t), h.Lower(s))
  {
    forall i | 0 <= i <= |s| - |t|
      ensures MapChars(e.fold, s)[i..][..|t|] == MapChars(e.fold, t) <==> h.Lower(s)[i..][..|t|] == h.Lower(t)
    {
      FoldBlock(h, e, t, s, i);
    }
  }

  lemma FoldEnds(h: Host, e: Engine, t: string, s: string)
    requires SameFold(h, e)
    ensures MapChars(e.fold, t) <= MapChars(e.fold, s) <==> h.Lower(t) <= h.Lower(s)
    ensures EndsWith(MapChars(e.fold, s), MapChars(e.fold, t)) <==> EndsWith(h.Lower(s), h.Lower(t))
  {
    if |t| <= |s| {
      FoldBlock(h, e, t, s, 0);
      assert MapChars(e.fold, s)[0..] == MapChars(e.fold, s);
      assert h.Lower(s)[0..] == h.Lower(s);
      var i := |s| - |t|;
      FoldBlock(h, e, t, s, i);
      assert MapChars(e.fold, s)[i..][..|t|] == MapChars(e.fold, s)[i..];
      assert h.Lower(s)[i..][..|t|] == h.Lower(s)[i..];
    }
  }

  // ----- value level -----

  /** The clause that decides the operator or, for a negative one, its opposite. */
  ghost function Decider(h: Host, f: Filter): Query
    requires Translate(h, f).Ok?
  {
    var t := Translate(h, f).value;
    if t.mustNot != [] then t.mustNot[0] else t.must[0]
  }

  /** A clause about one key: a leaf, or a disjunction of leaves. */
  predicate AboutKey(q: Query, k: string) {
    if q.Bool? then
      && q.must == [] && q.mustNot == [] && q.filter == [] && q.should != []
      && forall i :: 0 <= i < |q.should| ==> !q.should[i].Bool? && q.should[i].field in {Meta(k), Keyword(k)}
    else q.field in {Meta(k), Keyword(k)}
  }

  ghost predicate ValueAccepts(e: Engine, q: Query, v: string) {
    if q.Bool? then exists i :: 0 <= i < |q.should| && !q.should[i].Bool? && LeafAccepts(e, q.should[i], v)
    else LeafAccepts(e, q, v)
  }

  ghost predicate SomeValue(e: Engine, q: Query, vs: seq<string>) {
    exists i :: 0 <= i < |vs| && ValueAccepts(e, q, vs[i])
  }

  lemma KeyClause(e: Engine, q: Query, k: string, d: Doc)
    requires AboutKey(q, k)
    ensures Accepts(e, q, d) <==> SomeValue(e, q, Values(d, Meta(k)))
  {
    var vs := Values(d, Meta(k));
    if q.Bool? {
      forall i | 0 <= i < |q.should|
        ensures Accepts(e, q.should[i], d) <==> exists j :: 0 <= j < |vs| && LeafAccepts(e, q.should[i], vs[j])
      {
        assert Values(d, q.should[i].field) == vs;
      }
    } else {
      assert Values(d, q.field) == vs;
    }
  }

  predicate Positive(op: Op) {
    op.Eq? || op.In? || op.Contains? || op.StartWith? || op.EndWith?
  }

  predicate Negative(op: Op) {
    op.Ne? || op.NotIn? || op.NotContains?
  }

  lemma DeciderAboutKey(h: Host, f: Filter)
    requires Translate(h, f).Ok? && (Positive(f.op) || Negative(f.op))
    ensures AboutKey(Decider(h, f), f.key)
    ensures Positive(f.op) ==> Translate(h, f).value == Translated([Decider(h, f)], [])
    ensures Negative(f.op) ==> Translate(h, f).value == Translated([Exists(Meta(f.key))], [Decider(h, f)])
  {
  }

  lemma HoldsSingle(e: Engine, q: Query, d: Doc)
    ensures Holds(e, Translated([q], []), d) <==> Accepts(e, q, d)
  {
    hide Accepts;
    assert Translated([q], []).must[0] == q;
  }

  lemma HoldsPair(e: Engine, q: Query, n: Query, d: Doc)
    ensures Holds(e, Translated([q], [n]), d) <==> Accepts(e, q, d) && !Accepts(e, n, d)
  {
    hide Accepts;
    var t := Translated([q], [n]);
    assert t.must[0] == q && t.mustNot[0] == n;
  }

  /** Document meaning of a translated positive or negative operator. */
  lemma HoldsMeaning(h: Host, e: Engine, f: Filter, d: Doc)
    requires Translate(h, f).Ok?
    ensures Positive(f.op) ==>
              (Holds(e, Translate(h, f).value, d) <==> SomeValue(e, Decider(h, f), Values(d, Meta(f.key))))
    ensures Negative(f.op) ==>
              (Holds(e, Translate(h, f).value, d) <==>
               Values(d, Meta(f.key)) != [] && !SomeValue(e, Decider(h, f), Values(d, Meta(f.key))))
  {
    if Positive(f.op) || Negative(f.op) {
      DeciderAboutKey(h, f);
      hide Translate, Decider, Accepts, Holds;
      KeyClause(e, Decider(h, f), f.key, d);
      HoldsSingle(e, Decider(h, f), d);
      HoldsPair(e, Exists(Meta(f.key)), Decider(h, f), d);
      PresenceClauses(e, f.key, d);
    }
  }

  /** A positive operator agrees on all documents exactly when it agrees on all values. */
  lemma PositiveAgreesIffValues(h: Host, e: Engine, f: Filter)
    requires Translate(h, f).Ok? && Positive(f.op)
    ensures Agrees(h, e, f) <==> forall v :: ValueAccepts(e, Decider(h, f), v) <==> Matched(h, f.op, v, f.value)
  {
    forall d: Doc
      ensures Holds(e, Translate(h, f).value, d) <==> SomeValue(e, Decider(h, f), Values(d, Meta(f.key)))
    {
      HoldsMeaning(h, e, f, d);
    }
    if Agrees(h, e, f) {
      forall v
        ensures ValueAccepts(e, Decider(h, f), v) <==> Matched(h, f.op, v, f.value)
      {
        var d := Doc("", map[f.key := [v]]);
        assert AgreesOn(h, e, f, d);
        assert Values(d, Meta(f.key)) == [v];
        assert [v][0] == v;
      }
    }
  }

  // ----- the operators one by one -----

  /** The clause each operator compiles to, on the values it accepts. */
  lemma TranslateEqual(h: Host, k: string, s: string)
    requires k != [] && h.PlainText(s)
    ensures var q := TermFold(Keyword(k), h.Lower(h.Trim(s)));
            && Translate(h, Filter(k, Eq, PStr(s))) == Coercion.Ok(Translated([q], []))
            && Translate(h, Filter(k, Ne, PStr(s))) == Coercion.Ok(Translated([Exists(Meta(k))], [q]))
  {
  }

  lemma TranslateContains(h: Host, k: string, value: PyVal)
    requires k != [] && CoerceText(h, value).Ok?
    ensures var q := Containing(k, h.Str(value));
            && Translate(h, Filter(k, Contains, value)) == Coercion.Ok(Translated([q], []))
            && Translate(h, Filter(k, NotContains, value)) == Coercion.Ok(Translated([Exists(Meta(k))], [q]))
  {
  }

  lemma TranslateAffix(h: Host, k: string, value: PyVal)
    requires k != [] && CoerceText(h, value).Ok?
    ensures var t := h.Str(value);
            && Translate(h, Filter(k, StartWith, value)) == Coercion.Ok(Translated([Prefix(Keyword(k), t)], []))
            && Translate(h, Filter(k, EndWith, value)) ==
               Coercion.Ok(Translated([Wildcard(Keyword(k), "*" + Escape(WILDCARD, t))], []))
  {
  }

  lemma TranslateIn(h: Host, k: string, value: PyVal)
    requires k != [] && CsvOrList(h, value).Ok?
    ensures var q := TermsStringOrNumeric(k, CsvOrList(h, value).value);
            && Translate(h, Filter(k, In, value)) == Coercion.Ok(Translated([q], []))
            && Translate(h, Filter(k, NotIn, value)) == Coercion.Ok(Translated([Exists(Meta(k))], [q]))
  {
  }

  lemma EqualInMemory(h: Host, s: string, v: string)
    requires h.PlainText(s)
    ensures Matched(h, Eq, v, PStr(s)) <==> h.Lower(v) == h.Lower(s)
    ensures Matched(h, Ne, v, PStr(s)) <==> h.Lower(v) != h.Lower(s)
  {
  }

  lemma EqualInQuery(h: Host, e: Engine, k: string, s: string, v: string)
    requires h.Sane() && SameFold(h, e)
    ensures LeafAccepts(e, TermFold(Keyword(k), h.Lower(h.Trim(s))), v) <==> h.Lower(v) == h.Lower(h.Trim(s))
  {
    FoldEqual(h, e, v, h.Lower(h.Trim(s)));
    LowerTwice(h, h.Trim(s));
  }

  /** `=` on plain text keeps its meaning exactly when the text has no blanks around it. */
  lemma EqualAgreesIff(h: Host, e: Engine, k: string, s: string)
    requires h.Sane() && SameFold(h, e) && k != [] && h.PlainText(s)
    ensures Agrees(h, e, Filter(k, Eq, PStr(s))) <==> h.Trim(s) == s
  {
    var f := Filter(k, Eq, PStr(s));
    TranslateEqual(h, k, s);
    PositiveAgreesIffValues(h, e, f);
    forall v
      ensures ValueAccepts(e, Decider(h, f), v) <==> h.Lower(v) == h.Lower(h.Trim(s))
      ensures Matched(h, Eq, v, PStr(s)) <==> h.Lower(v) == h.Lower(s)
    {
      EqualInMemory(h, s, v);
      EqualInQuery(h, e, k, s, v);
    }
    if h.Lower(s) == h.Lower(h.Trim(s)) {
      StripShorter(h.space, s);
      assert |h.Lower(s)| == |s|;
    } else {
      assert !ValueAccepts(e, Decider(h, f), s);
    }
  }

  lemma ContainsInQuery(h: Host, e: Engine, k: string, t: string, v: string)
    requires SameFold(h, e)
    ensures LeafAccepts(e, Containing(k, t), v) <==> Occurs(h.Lower(t), h.Lower(v))
  {
    ContainsExact(WILDCARD, e.fold, t, v);
    FoldOccurs(h, e, t, v);
    assert "*" + Escape(WILDCARD, t) + "*" == [WILDCARD.many] + Escape(WILDCARD, t) + [WILDCARD.many];
  }

  lemma ContainsInMemory(h: Host, value: PyVal, v: string)
    ensures Matched(h, Contains, v, value) <==> value.PStr? && Occurs(h.Lower(value.s), h.Lower(v))
    ensures Matched(h, NotContains, v, value) <==> value.PStr? && !Occurs(h.Lower(value.s), h.Lower(v))
  {
  }

  lemma OccursInItself(t: string)
    ensures Occurs(t, t)
  {
    assert t[0..][..|t|] == t;
  }

  /** `contains` keeps its meaning exactly when the value is a string. */
  lemma ContainsAgreesIff(h: Host, e: Engine, k: string, value: PyVal)
    requires h.Sane() && SameFold(h, e) && k != [] && CoerceText(h, value).Ok?
    ensures Agrees(h, e, Filter(k, Contains, value)) <==> value.PStr?
  {
    var f, t := Filter(k, Contains, value), h.Str(value);
    TranslateContains(h, k, value);
    PositiveAgreesIffValues(h, e, f);
    forall v
      ensures ValueAccepts(e, Decider(h, f), v) <==> Occurs(h.Lower(t), h.Lower(v))
      ensures Matched(h, Contains, v, value) <==> value.PStr? && Occurs(h.Lower(t), h.Lower(v))
    {
      ContainsInQuery(h, e, k, t, v);
      ContainsInMemory(h, value, v);
    }
    OccursInItself(h.Lower(t));
  }

  lemma AffixInMemory(h: Host, value: PyVal, v: string)
    requires h.Sane() && !value.PList?
    ensures Matched(h, StartWith, v, value) <==> h.Lower(h.Str(value)) <= h.Lower(v)
    ensures Matched(h, EndWith, v, value) <==> EndsWith(h.Lower(v), h.Lower(h.Str(value)))
  {
    hide EndsWith, Operands, Member, PyEq;
    LowerTwice(h, v);
    if value.PStr? {
      LowerTwice(h, value.s);
    }
  }

  lemma EndInQuery(h: Host, e: Engine, k: string, t: string, v: string)
    requires SameFold(h, e)
    ensures LeafAccepts(e, Wildcard(Keyword(k), "*" + Escape(WILDCARD, t)), v) <==> EndsWith(h.Lower(v), h.Lower(t))
  {
    FoldEnds(h, e, t, v);
    SuffixExact(WILDCARD, e.fold, t, v);
    assert "*" + Escape(WILDCARD, t) == [WILDCARD.many] + Escape(WILDCARD, t);
  }

  /** `start with` and `end with` keep their meaning on everything they accept. */
  lemma AffixAgrees(h: Host, e: Engine, k: string, value: PyVal)
    requires h.Sane() && SameFold(h, e) && k != [] && CoerceText(h, value).Ok?
    ensures Agrees(h, e, Filter(k, StartWith, value))
    ensures Agrees(h, e, Filter(k, EndWith, value))
  {
    TranslateAffix(h, k, value);
    hide Translate, Matched;
    forall v
      ensures ValueAccepts(e, Decider(h, Filter(k, StartWith, value)), v) <==> Matched(h, StartWith, v, value)
      ensures ValueAccepts(e, Decider(h, Filter(k, EndWith, value)), v) <==> Matched(h, EndWith, v, value)
    {
      AffixInMemory(h, value, v);
      FoldEnds(h, e, h.Str(value), v);
      EndInQuery(h, e, k, h.Str(value), v);
    }
    PositiveAgreesIffValues(h, e, Filter(k, StartWith, value));
    PositiveAgreesIffValues(h, e, Filter(k, EndWith, value));
  }

  predicate AllText(ms: seq<PyVal>) {
    forall i :: 0 <= i < |ms| ==> ms[i].PStr?
  }

  /** Some member, with `g` applied to it, is v up to case. */
  ghost predicate AmongLower(h: Host, ms: seq<PyVal>, trim: bool, v: string)
    requires AllText(ms)
  {
    exists i :: 0 <= i < |ms| && h.Lower(v) == h.Lower(if trim then h.Trim(ms[i].s) else ms[i].s)
  }

  lemma InListInMemory(h: Host, ms: seq<PyVal>, v: string)
    requires AllText(ms)
    ensures Matched(h, In, v, PList(ms)) <==> AmongLower(h, ms, false, v)
    ensures Matched(h, NotIn, v, PList(ms)) <==> !AmongLower(h, ms, false, v)
  {
    var low := Normalize(h, PList(ms));
    assert forall i :: 0 <= i < |ms| ==> low.items[i] == PStr(h.Lower(ms[i].s));
    assert Prepared(h, In, v, PList(ms)) == Prepared(h, NotIn, v, PList(ms)) == Some((PStr(h.Lower(v)), low));
    forall i | 0 <= i < |ms|
      ensures PyEq(PStr(h.Lower(v)), low.items[i]) <==> h.Lower(v) == h.Lower(ms[i].s)
    {
    }
  }

  lemma InListInQuery(h: Host, e: Engine, k: string, ms: seq<PyVal>, v: string)
    requires h.Sane() && SameFold(h, e) && ms != [] && AllText(ms)
    ensures ValueAccepts(e, TermsStringOrNumeric(k, NormalMembers(h, ms)), v) <==> AmongLower(h, ms, true, v)
  {
    var norm := NormalMembers(h, ms);
    assert norm[0].PStr?;
    var q := TermsStringOrNumeric(k, norm);
    forall i | 0 <= i < |ms|
      ensures q.should[i] == TermFold(Keyword(k), h.Lower(h.Trim(ms[i].s)))
      ensures LeafAccepts(e, q.should[i], v) <==> h.Lower(v) == h.Lower(h.Trim(ms[i].s))
    {
      TrimLower(h, ms[i].s);
      EqualInQuery(h, e, k, ms[i].s, v);
    }
  }

  /** The lower-cased members, trimmed or as given. */
  function Listed(h: Host, ms: seq<PyVal>, trim: bool): set<string>
    requires AllText(ms)
  {
    set i | 0 <= i < |ms| :: h.Lower(if trim then h.Trim(ms[i].s) else ms[i].s)
  }

  lemma ListedAlike(h: Host, ms: seq<PyVal>)
    requires AllText(ms)
    ensures Listed(h, ms, true) == Listed(h, ms, false) <==>
            forall v :: AmongLower(h, ms, true, v) <==> AmongLower(h, ms, false, v)
  {
    if forall v :: AmongLower(h, ms, true, v) <==> AmongLower(h, ms, false, v) {
      forall i | 0 <= i < |ms|
        ensures h.Lower(h.Trim(ms[i].s)) in Listed(h, ms, false)
        ensures h.Lower(ms[i].s) in Listed(h, ms, true)
      {
        assert AmongLower(h, ms, true, h.Trim(ms[i].s));
        assert AmongLower(h, ms, false, ms[i].s);
      }
    } else {
      var v :| !(AmongLower(h, ms, true, v) <==> AmongLower(h, ms, false, v));
      assert forall trim :: AmongLower(h, ms, trim, v) <==> h.Lower(v) in Listed(h, ms, trim);
    }
  }

  /** `in` over a list of strings keeps its meaning exactly when trimming the
      members does not change which texts, up to case, are listed. */
  lemma InListAgreesIff(h: Host, e: Engine, k: string, ms: seq<PyVal>)
    requires h.Sane() && SameFold(h, e) && k != [] && ms != [] && AllText(ms)
    ensures Agrees(h, e, Filter(k, In, PList(ms))) <==> Listed(h, ms, true) == Listed(h, ms, false)
  {
    ListedAlike(h, ms);
    var f := Filter(k, In, PList(ms));
    TranslateIn(h, k, PList(ms));
    PositiveAgreesIffValues(h, e, f);
    forall v
      ensures ValueAccepts(e, Decider(h, f), v) <==> AmongLower(h, ms, true, v)
      ensures Matched(h, In, v, PList(ms)) <==> AmongLower(h, ms, false, v)
    {
      InListInMemory(h, ms, v);
      InListInQuery(h, e, k, ms, v);
    }
  }

  predicate CleanPiece(h: Host, m: PyVal) {
    m.PStr? && m.s != [] && h.Trim(m.s) == m.s
  }

  /** The pieces of a comma-separated text are trimmed and never blank. */
  lemma {:induction false} SplitIsClean(h: Host, s: string, piece: string)
    ensures forall i :: 0 <= i < |SplitCommas(h, s, piece)| ==> CleanPiece(h, SplitCommas(h, s, piece)[i])
    decreases |s|
  {
    if s == [] || s[0] == ',' {
      StripTwice(h.space, piece);
      hide Strip;
      if s != [] {
        SplitIsClean(h, s[1..], []);
      }
    } else {
      SplitIsClean(h, s[1..], piece + [s[0]]);
    }
  }

  /** `in` with a plain text is a substring test in memory and a list test in the
      query: no such filter keeps its meaning. */
  lemma InTextNeverAgrees(h: Host, e: Engine, k: string, s: string)
    requires h.Sane() && SameFold(h, e) && k != []
    requires h.eval(s).None? || !(h.eval(s).value.PList? || h.eval(s).value.PTuple?)
    ensures !Agrees(h, e, Filter(k, In, PStr(s)))
  {
    var f := Filter(k, In, PStr(s));
    if Translate(h, f).Ok? {
      var raw := SplitCommas(h, s, []);
      assert RawMembers(h, PStr(s)) == raw && raw != [];
      TranslateIn(h, k, PStr(s));
      PositiveAgreesIffValues(h, e, f);
      EmptyTextIsEverywhere(h, s);
      SplitIsClean(h, s, []);
      InListInQuery(h, e, k, raw, "");
      forall i | 0 <= i < |raw|
        ensures h.Lower("") != h.Lower(h.Trim(raw[i].s))
      {
        assert CleanPiece(h, raw[i]);
        assert |h.Lower(raw[i].s)| > 0;
      }
    }
  }

  lemma EmptyTextIsEverywhere(h: Host, s: string)
    ensures Matched(h, In, "", PStr(s))
  {
    assert h.Lower(s)[0..][..0] == h.Lower("");
  }

  // ----- negative operators -----

  /** One value satisfies the underlying positive test and another does not. */
  ghost predicate Mixed(e: Engine, q: Query, vs: seq<string>) {
    && (exists i :: 0 <= i < |vs| && ValueAccepts(e, q, vs[i]))
    && (exists i :: 0 <= i < |vs| && !ValueAccepts(e, q, vs[i]))
  }

  /** In memory the negative operator is, value by value, the opposite test. */
  ghost predicate Complements(h: Host, e: Engine, f: Filter)
    requires Translate(h, f).Ok?
  {
    forall v :: Matched(h, f.op, v, f.value) <==> !ValueAccepts(e, Decider(h, f), v)
  }

  /** The query never selects more than the in-memory filter, and the two differ
      exactly on the documents whose values are mixed. */
  lemma NegativeExact(h: Host, e: Engine, f: Filter, d: Doc)
    requires Translate(h, f).Ok? && Negative(f.op) && Complements(h, e, f)
    ensures Holds(e, Translate(h, f).value, d) ==> InMemory(h, f, Values(d, Meta(f.key)))
    ensures AgreesOn(h, e, f, d) <==> !Mixed(e, Decider(h, f), Values(d, Meta(f.key)))
  {
    var vs := Values(d, Meta(f.key));
    HoldsMeaning(h, e, f, d);
    if vs != [] {
      assert Matched(h, f.op, vs[0], f.value) <==> !ValueAccepts(e, Decider(h, f), vs[0]);
    }
  }

  /** On trimmed plain text `≠` complements `=`. */
  lemma NotEqualComplements(h: Host, e: Engine, k: string, s: string)
    requires h.Sane() && SameFold(h, e) && k != [] && h.PlainText(s) && h.Trim(s) == s
    ensures Translate(h, Filter(k, Ne, PStr(s))).Ok? && Complements(h, e, Filter(k, Ne, PStr(s)))
  {
    TranslateEqual(h, k, s);
    forall v
      ensures Matched(h, Ne, v, PStr(s)) <==> !ValueAccepts(e, Decider(h, Filter(k, Ne, PStr(s))), v)
    {
      EqualInMemory(h, s, v);
      EqualInQuery(h, e, k, s, v);
    }
  }

  lemma NotInComplements(h: Host, e: Engine, k: string, ms: seq<PyVal>)
    requires h.Sane() && SameFold(h, e) && k != [] && ms != [] && AllText(ms)
    requires forall i :: 0 <= i < |ms| ==> h.Trim(ms[i].s) == ms[i].s
    ensures Translate(h, Filter(k, NotIn, PList(ms))).Ok? && Complements(h, e, Filter(k, NotIn, PList(ms)))
  {
    TranslateIn(h, k, PList(ms));
    forall v
      ensures Matched(h, NotIn, v, PList(ms)) <==> !ValueAccepts(e, Decider(h, Filter(k, NotIn, PList(ms))), v)
    {
      InListInMemory(h, ms, v);
      InListInQuery(h, e, k, ms, v);
      assert AmongLower(h, ms, true, v) <==> AmongLower(h, ms, false, v);
    }
  }

  lemma NotContainsComplements(h: Host, e: Engine, k: string, t: string)
    requires SameFold(h, e) && k != [] && t != []
    ensures Translate(h, Filter(k, NotContains, PStr(t))).Ok? && Complements(h, e, Filter(k, NotContains, PStr(t)))
  {
    TranslateContains(h, k, PStr(t));
    forall v
      ensures Matched(h, NotContains, v, PStr(t)) <==> !ValueAccepts(e, Decider(h, Filter(k, NotContains, PStr(t))), v)
    {
      ContainsInQuery(h, e, k, t, v);
      ContainsInMemory(h, PStr(t), v);
    }
  }

  /** `not contains` passes the routing check, yet on a two-valued document it
      answers differently from memory, for every text. */
  lemma NotContainsDiffers(h: Host, e: Engine, k: string, t: string)
    requires h.Sane() && SameFold(h, e) && k != [] && t != []
    ensures var f := Filter(k, NotContains, PStr(t));
            PushdownSupported([f]) && Translate(h, f).Ok? && !AgreesOn(h, e, f, Doc("", map[k := [t, ""]]))
  {
    var f, d := Filter(k, NotContains, PStr(t)), Doc("", map[k := [t, ""]]);
    NotContainsComplements(h, e, k, t);
    NegativeExact(h, e, f, d);
    OccursInItself(h.Lower(t));
    ContainsInMemory(h, PStr(t), t);
    ContainsInMemory(h, PStr(t), "");
    var vs := Values(d, Meta(k));
    assert vs == [t, ""];
    assert !ValueAccepts(e, Decider(h, f), vs[1]);
    assert ValueAccepts(e, Decider(h, f), vs[0]);
  }

  /** A refused operator is refused for a reason: `≠` loses documents. */
  lemma NotEqualLosesDocuments(h: Host, e: Engine, k: string, s: string, other: string)
    requires h.Sane() && SameFold(h, e) && k != [] && h.PlainText(s) && h.Trim(s) == s
    requires h.Lower(other) != h.Lower(s)
    ensures var f := Filter(k, Ne, PStr(s)); var d := Doc("", map[k := [s, other]]);
            && !PushdownSupported([f]) && Translate(h, f).Ok?
            && InMemory(h, f, Values(d, Meta(k))) && !Holds(e, Translate(h, f).value, d)
  {
    var f, d := Filter(k, Ne, PStr(s)), Doc("", map[k := [s, other]]);
    NotEqualComplements(h, e, k, s);
    NegativeExact(h, e, f, d);
    EqualInMemory(h, s, s);
    EqualInMemory(h, s, other);
    var vs := Values(d, Meta(k));
    assert vs == [s, other];
    assert !ValueAccepts(e, Decider(h, f), vs[1]);
    assert ValueAccepts(e, Decider(h, f), vs[0]);
    assert [f][0] == f;
  }

  // ----- empty and not empty -----

  lemma EmptyInMemory(h: Host, v: string, value: PyVal)
    ensures Matched(h, Empty, v, value) <==> v == ""
    ensures Matched(h, NotEmpty, v, value) <==> v != ""
  {
  }

  lemma PresenceClauses(e: Engine, k: string, d: Doc)
    ensures Accepts(e, Exists(Meta(k)), d) <==> Values(d, Meta(k)) != []
    ensures Accepts(e, Term(Keyword(k), ""), d) <==> "" in Values(d, Meta(k))
  {
    var has, blank, vs := Exists(Meta(k)), Term(Keyword(k), ""), Values(d, Meta(k));
    if vs != [] {
      assert LeafAccepts(e, has, vs[0]);
    }
    assert Values(d, blank.field) == vs;
    assert forall i :: 0 <= i < |vs| ==> (LeafAccepts(e, blank, vs[i]) <==> vs[i] == "");
  }

  /** The two clauses of `not empty`, and the nested disjunction of `empty`. */
  lemma EmptyInQuery(h: Host, e: Engine, k: string, value: PyVal, d: Doc)
    requires k != []
    ensures Translate(h, Filter(k, Empty, value)).Ok? && Translate(h, Filter(k, NotEmpty, value)).Ok?
    ensures Holds(e, Translate(h, Filter(k, Empty, value)).value, d) <==>
            Values(d, Meta(k)) == [] || "" in Values(d, Meta(k))
    ensures Holds(e, Translate(h, Filter(k, NotEmpty, value)).value, d) <==>
            Values(d, Meta(k)) != [] && "" !in Values(d, Meta(k))
  {
    TranslateEmpty(h, k, value);
    hide Translate;
    PresenceClauses(e, k, d);
    EmptyClause(e, k, d);
    HoldsSingle(e, EmptyQuery(k), d);
    HoldsPair(e, Exists(Meta(k)), Term(Keyword(k), ""), d);
  }

  function EmptyQuery(k: string): Query {
    Bool([], [], [Bool([], [Exists(Meta(k))], [], []), Term(Keyword(k), "")], [])
  }

  lemma TranslateEmpty(h: Host, k: string, value: PyVal)
    requires k != []
    ensures Translate(h, Filter(k, Empty, value)) == Coercion.Ok(Translated([EmptyQuery(k)], []))
    ensures Translate(h, Filter(k, NotEmpty, value)) ==
            Coercion.Ok(Translated([Exists(Meta(k))], [Term(Keyword(k), "")]))
  {
  }

  lemma EmptyClause(e: Engine, k: string, d: Doc)
    ensures Accepts(e, EmptyQuery(k), d) <==> !Accepts(e, Exists(Meta(k)), d) || Accepts(e, Term(Keyword(k), ""), d)
  {
    var q := EmptyQuery(k);
    assert q.should[0].mustNot[0] == Exists(Meta(k));
    assert q.should[1] == Term(Keyword(k), "");
    assert Accepts(e, q.should[0], d) <==> !Accepts(e, Exists(Meta(k)), d);
  }

  /** `empty` and `not empty` agree exactly on documents that have a value and
      whose values are not a mixture of blank and non-blank. */
  lemma EmptyExact(h: Host, e: Engine, k: string, value: PyVal, d: Doc)
    requires k != []
    ensures Translate(h, Filter(k, Empty, value)).Ok? && Translate(h, Filter(k, NotEmpty, value)).Ok?
    ensures AgreesOn(h, e, Filter(k, Empty, value), d) <==> Values(d, Meta(k)) != []
    ensures var vs := Values(d, Meta(k));
            AgreesOn(h, e, Filter(k, NotEmpty, value), d) <==> !("" in vs && exists i :: 0 <= i < |vs| && vs[i] != "")
  {
    EmptyInQuery(h, e, k, value, d);
    hide Holds, Translate, Matched;
    var vs := Values(d, Meta(k));
    forall i | 0 <= i < |vs|
      ensures Matched(h, Empty, vs[i], value) <==> vs[i] == ""
      ensures Matched(h, NotEmpty, vs[i], value) <==> vs[i] != ""
    {
      EmptyInMemory(h, vs[i], value);
    }
    assert InMemory(h, Filter(k, NotEmpty, value), vs) <==> exists i :: 0 <= i < |vs| && vs[i] != "";
    if vs != [] && "" !in vs {
      assert vs[0] != "";
    }
  }

  // ----- the main theorem -----

  /** The filters whose push-down is exact: a condition on the request alone. */
  predicate Exact(h: Host, f: Filter) {
    f.key != [] &&
    match f.op
    case Eq => f.value.PStr? && h.PlainText(f.value.s) && h.Trim(f.value.s) == f.value.s
    case Contains => f.value.PStr? && f.value.s != []
    case StartWith => CoerceText(h, f.value).Ok?
    case EndWith => CoerceText(h, f.value).Ok?
    case In =>
      f.value.PList? && f.value.items != [] && AllText(f.value.items) &&
      forall i :: 0 <= i < |f.value.items| ==> h.Trim(f.value.items[i].s) == f.value.items[i].s
    case _ => false
  }

  lemma ExactAgrees(h: Host, e: Engine, f: Filter)
    requires h.Sane() && SameFold(h, e) && Exact(h, f)
    ensures Agrees(h, e, f)
  {
    match f.op
    case Eq => EqualAgreesIff(h, e, f.key, f.value.s);
    case Contains => ContainsAgreesIff(h, e, f.key, f.value);
    case StartWith => AffixAgrees(h, e, f.key, f.value);
    case EndWith => AffixAgrees(h, e, f.key, f.value);
    case In =>
      assert Listed(h, f.value.items, true) == Listed(h, f.value.items, false);
      InListAgreesIff(h, e, f.key, f.value.items);
  }

  /** The index says of a document what the document itself says. */
  lemma HitIsInMemory(h: Host, metas: Index, store: Store, kbs: set<string>, f: Filter, d: DocId)
    requires IsIndex(metas, store, kbs)
    ensures Hit(h, metas, f, d) <==>
            d in store && store[d].kb in kbs && InMemory(h, f, Values(store[d], Meta(f.key)))
  {
    if Hit(h, metas, f, d) {
      var v :| v in metas[f.key] && d in metas[f.key][v] && Matched(h, f.op, v, f.value);
      assert Indexed(metas, f.key, v, d);
    }
    if d in store && store[d].kb in kbs && InMemory(h, f, Values(store[d], Meta(f.key))) {
      var vs := Values(store[d], Meta(f.key));
      var i :| 0 <= i < |vs| && Matched(h, f.op, vs[i], f.value);
      assert Carries(store, kbs, d, f.key, vs[i]);
      assert Indexed(metas, f.key, vs[i], d);
    }
  }

  /** Push-down refines the in-memory evaluator: for every store, every scope,
      every non-empty list of exact filters and either logic, the composed query
      selects the documents `meta_filter` returns on the inverted index. */
  lemma PushdownRefines(h: Host, e: Engine, store: Store, kbs: seq<string>, metas: Index,
                        fs: seq<Filter>, logic: string, ts: seq<Translated>, d: DocId)
    requires h.Sane() && SameFold(h, e) && KnownLogic(logic) && fs != []
    requires IsIndex(metas, store, (set kb | kb in kbs))
    requires forall i :: 0 <= i < |fs| ==> Exact(h, fs[i])
    requires |ts| == |fs| && forall i :: 0 <= i < |fs| ==> Translate(h, fs[i]) == Coercion.Ok(ts[i])
    ensures d in store && Accepts(e, ToQuery(ts, logic, kbs), store[d]) <==> Selected(h, metas, fs, logic, d)
  {
    forall i | 0 <= i < |fs|
      ensures ts[i].must != []
      ensures Hit(h, metas, fs[i], d) <==> d in store && store[d].kb in kbs && Holds(e, ts[i], store[d])
    {
      TranslateNonEmpty(h, fs[i]);
      ExactAgrees(h, e, fs[i]);
      HitIsInMemory(h, metas, store, (set kb | kb in kbs), fs[i], d);
      if d in store {
        assert AgreesOn(h, e, fs[i], store[d]);
      }
    }
    if d in store {
      QueryMeaning(e, ts, logic, kbs, store[d]);
    }
    SelectedMeaning(h, metas, fs, logic, ts, e, store, kbs, d);
  }

  lemma SelectedMeaning(h: Host, metas: Index, fs: seq<Filter>, logic: string, ts: seq<Translated>,
                        e: Engine, store: Store, kbs: seq<string>, d: DocId)
    requires KnownLogic(logic) && fs != [] && |ts| == |fs|
    requires forall i :: 0 <= i < |fs| ==>
               (Hit(h, metas, fs[i], d) <==> d in store && store[d].kb in kbs && Holds(e, ts[i], store[d]))
    ensures Selected(h, metas, fs, logic, d) <==>
            d in store && store[d].kb in kbs && Composed(e, ts, logic, store[d])
  {
    assert Hit(h, metas, fs[0], d) ==> d in store && store[d].kb in kbs;
  }

  /** The two end-to-end paths side by side: build the index and run the loops, or
      translate and ask the engine. */
  method FilterBothWays(h: Host, e: Engine, store: Store, kbs: seq<string>, fs: seq<Filter>, logic: string)
    returns (inMemory: set<DocId>, pushed: set<DocId>)
    requires h.Sane() && SameFold(h, e) && KnownLogic(logic) && fs != []
    requires forall i :: 0 <= i < |fs| ==> Exact(h, fs[i])
    ensures inMemory == pushed
    ensures forall d :: d in pushed ==> d in store && store[d].kb in kbs
  {
    var metas := Flatten(store, (set kb | kb in kbs));
    inMemory := Run(h, metas, fs, logic);
    forall i | 0 <= i < |fs|
      ensures Translate(h, fs[i]).Ok?
    {
      ExactAgrees(h, e, fs[i]);
    }
    var plan := PlanPushdown(h, fs, logic);
    var query := ToQuery(plan.value, logic, kbs);
    pushed := set d | d in store && Accepts(e, query, store[d]);
    forall d
      ensures d in pushed <==> d in inMemory
      ensures d in pushed ==> store[d].kb in kbs
    {
      PushdownRefines(h, e, store, kbs, metas, fs, logic, plan.value, d);
      forall i | 0 <= i < |fs|
        ensures plan.value[i].must != []
      {
        TranslateNonEmpty(h, fs[i]);
      }
      if d in store {
        QueryMeaning(e, plan.value, logic, kbs, store[d]);
      }
    }
  }

  /** Same folding is not only sufficient: one-character prefixes need it. */
  lemma FoldIsNecessary(h: Host, e: Engine)
    requires h.Sane()
    ensures (forall c: char :: Agrees(h, e, Filter("k", StartWith, PStr([c])))) <==> SameFold(h, e)
  {
    if SameFold(h, e) {
      forall c: char
        ensures Agrees(h, e, Filter("k", StartWith, PStr([c])))
      {
        AffixAgrees(h, e, "k", PStr([c]));
      }
    }
    if forall c: char :: Agrees(h, e, Filter("k", StartWith, PStr([c]))) {
      forall c, d: char
        ensures e.fold(c) == e.fold(d) <==> h.lower(c) == h.lower(d)
      {
        var f := Filter("k", StartWith, PStr([c]));
        assert Agrees(h, e, f);
        TranslateAffix(h, "k", PStr([c]));
        PositiveAgreesIffValues(h, e, f);
        assert ValueAccepts(e, Decider(h, f), [d]) <==> Matched(h, StartWith, [d], PStr([c]));
        assert ValueAccepts(e, Decider(h, f), [d]) <==> e.fold(c) == e.fold(d) by {
          assert MapChars(e.fold, [c])[0] == e.fold(c);
          assert MapChars(e.fold, [d])[0] == e.fold(d);
        }
        AffixInMemory(h, PStr([c]), [d]);
        assert h.Lower([c])[0] == h.lower(c) && h.Lower([d])[0] == h.lower(d);
      }
    }
  }
}
