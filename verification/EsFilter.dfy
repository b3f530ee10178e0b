/** Elasticsearch push-down: the bool-query language, the translator of one
    filter, and the composed query body. */
module EsFilter {
  import opened Text
  import opened Python
  import opened MetaFilter
  import opened Patterns
  import opened Coercion

  // ----- target language -----

  /** `kb_id`, `meta_fields.<key>` and its `.keyword` sub-field. */
  datatype Field = KbId | Meta(key: string) | Keyword(key: string)

  datatype Query =
    | Term(field: Field, text: string)                       // exact
    | TermFold(field: Field, text: string)                   // case_insensitive
    | TermValue(field: Field, value: PyVal)                  // number or boolean
    | TermsValue(field: Field, members: seq<PyVal>)
    | TermsText(field: Field, texts: seq<string>)
    | Exists(field: Field)
    | Wildcard(field: Field, pattern: string)                // case_insensitive
    | Prefix(field: Field, text: string)                     // case_insensitive
    | RangeOf(field: Field, cmp: Cmp, value: PyVal)
    | Bool(must: seq<Query>, mustNot: seq<Query>, should: seq<Query>, filter: seq<Query>)
      // `minimum_should_match` is 1 wherever `should` is present

  /** The engine: its case folding, and how it compares a number (or a range
      bound) with an indexed text, which depends on the index mapping. */
  datatype Engine = Engine(
    fold: char -> char,
    numeric: (PyVal, string) -> bool,
    range: (Cmp, PyVal, string) -> bool)

  function Values(d: Doc, field: Field): seq<string> {
    match field
    case KbId => [d.kb]
    case Meta(k) => if k in d.meta then d.meta[k] else []
    case Keyword(k) => if k in d.meta then d.meta[k] else []
  }

  /** A leaf looks at every value of its field and needs one of them. */
  predicate LeafAccepts(e: Engine, q: Query, v: string)
    requires !q.Bool?
  {
    match q
    case Term(_, t) => v == t
    case TermFold(_, t) => MapChars(e.fold, v) == MapChars(e.fold, t)
    case TermValue(_, n) => e.numeric(n, v)
    case TermsValue(_, ns) => exists i :: 0 <= i < |ns| && e.numeric(ns[i], v)
    case TermsText(_, ts) => v in ts
    case Exists(_) => true
    case Wildcard(_, p) => Matches(WILDCARD, e.fold, p, v)
    case Prefix(_, t) => MapChars(e.fold, t) <= MapChars(e.fold, v)
    case RangeOf(_, c, b) => e.range(c, b, v)
  }

  predicate Accepts(e: Engine, q: Query, d: Doc) {
    match q
    case Bool(must, mustNot, should, filter) =>
      && (forall i :: 0 <= i < |must| ==> Accepts(e, must[i], d))
      && (forall i :: 0 <= i < |filter| ==> Accepts(e, filter[i], d))
      && (forall i :: 0 <= i < |mustNot| ==> !Accepts(e, mustNot[i], d))
      && (should != [] ==> exists i :: 0 <= i < |should| && Accepts(e, should[i], d))
    case _ => exists i :: 0 <= i < |Values(d, q.field)| && LeafAccepts(e, q, Values(d, q.field)[i])
  }

  // ----- coercions -----

  function CoerceScalar(h: Host, v: PyVal): Result<PyVal> {
    if v.PNone? then Unsupported("scalar comparison value is None")
    else if v.PList? || v.PDict? then Unsupported("scalar comparison value is non-scalar")
    else
      var s := h.Trim(h.Str(v));
      if h.IsDate(s) then Ok(PStr(s))
      else
        var parsed := if h.eval(s).Some? then h.eval(s).value else PStr(s);
        if parsed.PStr? then Ok(PStr(h.Lower(parsed.s)))
        else if parsed.PNum? || parsed.PBool? then Ok(parsed)
        else Ok(PStr(h.Lower(s)))
  }

  function CoerceRange(h: Host, v: PyVal): Result<PyVal> {
    if v.PNone? then Unsupported("range comparison value is None")
    else
      var s := h.Trim(h.Str(v));
      if h.IsDate(s) then Ok(PStr(s))
      else if h.eval(s).Some? && (h.eval(s).value.PNum? || h.eval(s).value.PBool?) then Ok(h.eval(s).value)
      else Ok(PStr(s))
  }

  // ----- translating one filter -----

  /** One filter as clauses that must hold and clauses that must not. */
  datatype Translated = Translated(must: seq<Query>, mustNot: seq<Query>)

  ghost predicate Holds(e: Engine, t: Translated, d: Doc) {
    && (forall i :: 0 <= i < |t.must| ==> Accepts(e, t.must[i], d))
    && (forall i :: 0 <= i < |t.mustNot| ==> !Accepts(e, t.mustNot[i], d))
  }

  function TermOrMatch(key: string, v: PyVal): Query {
    if v.PStr? then TermFold(Keyword(key), v.s) else TermValue(Meta(key), v)
  }

  function TermsStringOrNumeric(key: string, ms: seq<PyVal>): Query {
    if forall i :: 0 <= i < |ms| ==> !ms[i].PStr? then TermsValue(Meta(key), ms)
    else Bool([], [], seq(|ms|, i requires 0 <= i < |ms| => TermOrMatch(key, ms[i])), [])
  }

  function Containing(key: string, text: string): Query {
    Wildcard(Keyword(key), "*" + Escape(WILDCARD, text) + "*")
  }

  function Translate(h: Host, f: Filter): Result<Translated> {
    var k := f.key;
    if k == [] then Unsupported("filter is missing a string key")
    else
      match f.op
      case Unknown(_) => Unsupported("unknown operator")
      case Empty =>
        Ok(Translated([Bool([], [], [Bool([], [Exists(Meta(k))], [], []), Term(Keyword(k), "")], [])], []))
      case NotEmpty => Ok(Translated([Exists(Meta(k))], [Term(Keyword(k), "")]))
      case Eq =>
        var c := CoerceScalar(h, f.value);
        if c.Ok? then Ok(Translated([TermOrMatch(k, c.value)], [])) else Unsupported(c.reason)
      case Ne =>
        var c := CoerceScalar(h, f.value);
        if c.Ok? then Ok(Translated([Exists(Meta(k))], [TermOrMatch(k, c.value)])) else Unsupported(c.reason)
      case Range(op) =>
        var c := CoerceRange(h, f.value);
        if c.Ok? then Ok(Translated([Exists(Meta(k)), RangeOf(Meta(k), op, c.value)], [])) else Unsupported(c.reason)
      case In =>
        var c := CsvOrList(h, f.value);
        if c.Ok? then Ok(Translated([TermsStringOrNumeric(k, c.value)], [])) else Unsupported(c.reason)
      case NotIn =>
        var c := CsvOrList(h, f.value);
        if c.Ok? then Ok(Translated([Exists(Meta(k))], [TermsStringOrNumeric(k, c.value)])) else Unsupported(c.reason)
      case Contains =>
        var c := CoerceText(h, f.value);
        if c.Ok? then Ok(Translated([Containing(k, c.value)], [])) else Unsupported(c.reason)
      case NotContains =>
        var c := CoerceText(h, f.value);
        if c.Ok? then Ok(Translated([Exists(Meta(k))], [Containing(k, c.value)])) else Unsupported(c.reason)
      case StartWith =>
        var c := CoerceText(h, f.value);
        if c.Ok? then Ok(Translated([Prefix(Keyword(k), c.value)], [])) else Unsupported(c.reason)
      case EndWith =>
        var c := CoerceText(h, f.value);
        if c.Ok? then Ok(Translated([Wildcard(Keyword(k), "*" + Escape(WILDCARD, c.value))], []))
        else Unsupported(c.reason)
  }

  // ----- composing the query -----

  function ToClauses(t: Translated): seq<Query> {
    if t.must == [] && t.mustNot == [] then []
    else if t.mustNot == [] then
      if |t.must| == 1 then t.must else [Bool(t.must, [], [], [])]
    else [Bool(t.must, t.mustNot, [], [])]
  }

  function Flat(ts: seq<Translated>): seq<Query> {
    if ts == [] then [] else ToClauses(ts[0]) + Flat(ts[1..])
  }

  function ToQuery(ts: seq<Translated>, logic: string, kbs: seq<string>): Query {
    var kb := TermsText(KbId, kbs);
    if ts == [] then Bool([], [], [], [kb])
    else if logic == "or" then Bool([], [], [], [kb, Bool([], [], Flat(ts), [])])
    else Bool([], [], [], [kb, Bool(Flat(ts), [], [], [])])
  }

  predicate KnownLogic(logic: string) {
    logic == "and" || logic == "or"
  }

  /** `plan_pushdown`: fails as soon as one filter cannot be expressed. */
  method PlanPushdown(h: Host, fs: seq<Filter>, logic: string) returns (r: Result<seq<Translated>>)
    ensures r.Ok? <==> logic in {"and", "or"} && forall i :: 0 <= i < |fs| ==> Translate(h, fs[i]).Ok?
    ensures r.Ok? ==> |r.value| == |fs| && forall i :: 0 <= i < |fs| ==> Translate(h, fs[i]) == Ok(r.value[i])
  {
    if !KnownLogic(logic) {
      return Unsupported("unknown logic");
    }
    var plan: seq<Translated> := [];
    for n := 0 to |fs|
      invariant |plan| == n
      invariant forall i :: 0 <= i < n ==> Translate(h, fs[i]) == Ok(plan[i])
    {
      var t := Translate(h, fs[n]);
      if t.Unsupported? {
        return Unsupported(t.reason);
      }
      plan := plan + [t.value];
    }
    r := Ok(plan);
  }

  predicate UnsafeNegative(op: Op) {
    op.Ne? || op.NotIn?
  }

  /** `is_pushdown_supported`: the cheap routing check. */
  predicate PushdownSupported(fs: seq<Filter>) {
    forall i :: 0 <= i < |fs| ==> !fs[i].op.Unknown? && !UnsafeNegative(fs[i].op) && fs[i].key != []
  }

  // ----- what the composed query means -----

  lemma TranslateNonEmpty(h: Host, f: Filter)
    requires Translate(h, f).Ok?
    ensures Translate(h, f).value.must != []
  {
  }

  /** Every filter contributes one clause that stands or falls as a whole, so an
      OR parent cannot match on half of it. */
  lemma ClausesAtomic(e: Engine, t: Translated, d: Doc)
    requires t.must != []
    ensures |ToClauses(t)| == 1
    ensures Accepts(e, ToClauses(t)[0], d) <==> Holds(e, t, d)
  {
    var c := ToClauses(t)[0];
    if t.mustNot == [] && |t.must| == 1 {
      assert c == t.must[0];
    } else {
      assert c.Bool? && c.must == t.must && c.mustNot == t.mustNot && c.should == [] && c.filter == [];
    }
  }

  lemma {:induction false} FlatIsPointwise(ts: seq<Translated>)
    requires forall i :: 0 <= i < |ts| ==> ts[i].must != []
    ensures |Flat(ts)| == |ts|
    ensures forall i :: 0 <= i < |ts| ==> [Flat(ts)[i]] == ToClauses(ts[i])
  {
    if ts == [] {
    } else {
      FlatIsPointwise(ts[1..]);
      assert |ToClauses(ts[0])| == 1;
      forall i | 0 <= i < |ts|
        ensures [Flat(ts)[i]] == ToClauses(ts[i])
      {
        if i > 0 {
          assert Flat(ts)[i] == Flat(ts[1..])[i - 1];
          assert ts[i] == ts[1..][i - 1];
        }
      }
    }
  }

  lemma ScopeMeaning(e: Engine, kbs: seq<string>, d: Doc)
    ensures Accepts(e, TermsText(KbId, kbs), d) <==> d.kb in kbs
  {
    assert Values(d, KbId)[0] == d.kb;
  }

  lemma FilterPair(e: Engine, a: Query, b: Query, d: Doc)
    ensures Accepts(e, Bool([], [], [], [a, b]), d) <==> Accepts(e, a, d) && Accepts(e, b, d)
  {
    var q := Bool([], [], [], [a, b]);
    assert q.filter[0] == a && q.filter[1] == b;
  }

  ghost predicate Composed(e: Engine, ts: seq<Translated>, logic: string, d: Doc) {
    if logic == "or" then exists i :: 0 <= i < |ts| && Holds(e, ts[i], d)
    else forall i :: 0 <= i < |ts| ==> Holds(e, ts[i], d)
  }

  lemma BoolMust(e: Engine, cs: seq<Query>, d: Doc)
    ensures Accepts(e, Bool(cs, [], [], []), d) <==> forall i :: 0 <= i < |cs| ==> Accepts(e, cs[i], d)
  {
    hide LeafAccepts;
    assert Bool(cs, [], [], []).must == cs;
  }

  lemma BoolShould(e: Engine, cs: seq<Query>, d: Doc)
    requires cs != []
    ensures Accepts(e, Bool([], [], cs, []), d) <==> exists i :: 0 <= i < |cs| && Accepts(e, cs[i], d)
  {
    hide LeafAccepts;
    assert Bool([], [], cs, []).should == cs;
  }

  lemma InnerMeaning(e: Engine, ts: seq<Translated>, logic: string, d: Doc)
    requires ts != []
    requires forall i :: 0 <= i < |ts| ==> ts[i].must != []
    ensures Accepts(e, if logic == "or" then Bool([], [], Flat(ts), []) else Bool(Flat(ts), [], [], []), d) <==>
            Composed(e, ts, logic, d)
  {
    hide Accepts, Holds, Flat, ToClauses;
    FlatIsPointwise(ts);
    forall i | 0 <= i < |ts|
      ensures Accepts(e, Flat(ts)[i], d) <==> Holds(e, ts[i], d)
    {
      ClausesAtomic(e, ts[i], d);
      assert Flat(ts)[i] == ToClauses(ts[i])[0];
    }
    BoolMust(e, Flat(ts), d);
    BoolShould(e, Flat(ts), d);
  }

  /** The query body selects a document exactly when it is in scope and the
      conjunction or disjunction of the filters holds of it. */
  lemma QueryMeaning(e: Engine, ts: seq<Translated>, logic: string, kbs: seq<string>, d: Doc)
    requires forall i :: 0 <= i < |ts| ==> ts[i].must != []
    ensures Accepts(e, ToQuery(ts, logic, kbs), d) <==> d.kb in kbs && (ts == [] || Composed(e, ts, logic, d))
  {
    var kb := TermsText(KbId, kbs);
    ScopeMeaning(e, kbs, d);
    if ts == [] {
      assert ToQuery(ts, logic, kbs).filter[0] == kb;
    } else {
      InnerMeaning(e, ts, logic, d);
      FilterPair(e, kb, if logic == "or" then Bool([], [], Flat(ts), []) else Bool(Flat(ts), [], [], []), d);
    }
  }
}
