/** What an Elasticsearch clause makes of the value it is given: a date, a literal, or any
    other text. */
module EsValues {
  import opened Text
  import opened Python
  import opened MetaFilter
  import opened Coercion
  import opened EsFilter
  import opened EsPushdown

  /** Some value of the key passes the test. */
  ghost predicate SomePasses(d: Doc, k: string, test: string -> bool) {
    exists i :: 0 <= i < |Values(d, Meta(k))| && test(Values(d, Meta(k))[i])
  }

  /** `=` accepts the documents with a passing value, `≠` those with values none of which
      passes. */
  ghost predicate Decides(h: Host, e: Engine, k: string, value: PyVal, test: string -> bool) {
    var f, g := Filter(k, Eq, value), Filter(k, Ne, value);
    && Translate(h, f).Ok? && Translate(h, g).Ok?
    && forall d ::
         && (Holds(e, Translate(h, f).value, d) <==> SomePasses(d, k, test))
         && (Holds(e, Translate(h, g).value, d) <==> Values(d, Meta(k)) != [] && !SomePasses(d, k, test))
  }

  lemma ByDecider(h: Host, e: Engine, k: string, value: PyVal, test: string -> bool)
    requires Translate(h, Filter(k, Eq, value)).Ok? && Translate(h, Filter(k, Ne, value)).Ok?
    requires Decider(h, Filter(k, Eq, value)) == Decider(h, Filter(k, Ne, value))
    requires forall v :: ValueAccepts(e, Decider(h, Filter(k, Eq, value)), v) <==> test(v)
    ensures Decides(h, e, k, value, test)
  {
    forall d: Doc
      ensures Holds(e, Translate(h, Filter(k, Eq, value)).value, d) <==> SomePasses(d, k, test)
      ensures Holds(e, Translate(h, Filter(k, Ne, value)).value, d) <==>
              Values(d, Meta(k)) != [] && !SomePasses(d, k, test)
    {
      HoldsMeaning(h, e, Filter(k, Eq, value), d);
      HoldsMeaning(h, e, Filter(k, Ne, value), d);
      hide Translate, Holds, Decider, ValueAccepts;
    }
  }

  /** A date is compared as it is, a literal text and any other text up to case; blanks
      around the value do not count. */
  lemma EqualText(h: Host, e: Engine, k: string, value: PyVal, t: string)
    requires h.Sane() && SameFold(h, e) && k != []
    requires !value.PNone? && !value.PList? && !value.PDict?
    requires var s := h.Trim(h.Str(value));
      if h.IsDate(s) then t == s
      else if h.eval(s).Some? && h.eval(s).value.PStr? then t == h.eval(s).value.s
      else t == s && (h.eval(s).Some? ==> !h.eval(s).value.PNum? && !h.eval(s).value.PBool?)
    ensures Decides(h, e, k, value, v => h.Lower(v) == h.Lower(t))
  {
    var q := Decider(h, Filter(k, Eq, value));
    forall v ensures ValueAccepts(e, q, v) <==> h.Lower(v) == h.Lower(t) {
      FoldEqual(h, e, v, t);
      FoldEqual(h, e, v, h.Lower(t));
      LowerTwice(h, t);
      hide Host.Lower, Host.Trim, Host.IsDate;
    }
    hide ValueAccepts, Host.Lower, Host.Trim, Host.IsDate;
    ByDecider(h, e, k, value, v => h.Lower(v) == h.Lower(t));
  }

  /** A literal number or boolean is compared as such, by the engine. */
  lemma EqualNumber(h: Host, e: Engine, k: string, value: PyVal, n: PyVal)
    requires k != [] && !value.PNone? && !value.PList? && !value.PDict? && (n.PNum? || n.PBool?)
    requires !h.IsDate(h.Trim(h.Str(value))) && h.eval(h.Trim(h.Str(value))) == Some(n)
    ensures Decides(h, e, k, value, v => e.numeric(n, v))
  {
    var q := Decider(h, Filter(k, Eq, value));
    hide Host.Trim, Host.IsDate;
    forall v ensures ValueAccepts(e, q, v) <==> e.numeric(n, v) {
    }
    ByDecider(h, e, k, value, v => e.numeric(n, v));
  }

  /** None and containers are refused. */
  lemma EqualRefused(h: Host, k: string, value: PyVal)
    requires k != []
    ensures Translate(h, Filter(k, Eq, value)).Unsupported? <==> value.PNone? || value.PList? || value.PDict?
    ensures Translate(h, Filter(k, Ne, value)).Unsupported? <==> value.PNone? || value.PList? || value.PDict?
    ensures Translate(h, Filter(k, Range(GT), value)).Unsupported? <==> value.PNone?
  {
    hide Host.Trim, Host.IsDate, Host.Lower;
  }

  /** What a range is bounded by: a date or another text as it is, without the blanks
      around it, a number or boolean as such. */
  lemma RangeBound(h: Host, e: Engine, k: string, cmp: Cmp, value: PyVal, d: Doc)
    requires k != [] && !value.PNone?
    ensures var s, f := h.Trim(h.Str(value)), Filter(k, Range(cmp), value);
      var number := !h.IsDate(s) && h.eval(s).Some? && (h.eval(s).value.PNum? || h.eval(s).value.PBool?);
      var bound := if number then h.eval(s).value else PStr(s);
      && Translate(h, f).Ok?
      && (Holds(e, Translate(h, f).value, d) <==> SomePasses(d, k, v => e.range(cmp, bound, v)))
  {
    var f := Filter(k, Range(cmp), value);
    var bound := CoerceRange(h, value).value;
    var q := RangeOf(Meta(k), cmp, bound);
    assert Translate(h, f) == Ok(Translated([Exists(Meta(k)), q], []));
    hide Host.Trim, Host.IsDate, Translate;
    var t := Translate(h, f).value;
    assert Holds(e, t, d) <==> Accepts(e, t.must[0], d) && Accepts(e, t.must[1], d);
    assert Accepts(e, q, d) <==> SomePasses(d, k, v => e.range(cmp, bound, v));
    PresenceClauses(e, k, d);
  }

  /** A list of texts and numbers accepts a value that equals a text up to case and blanks
      around it, or one of the numbers. */
  lemma MixedList(h: Host, e: Engine, k: string, ms: seq<PyVal>, d: Doc)
    requires h.Sane() && SameFold(h, e) && k != [] && ms != []
    ensures var f := Filter(k, In, PList(ms));
      && Translate(h, f).Ok?
      && (Holds(e, Translate(h, f).value, d) <==>
          exists i :: 0 <= i < |Values(d, Meta(k))| && MemberPasses(h, e, ms, Values(d, Meta(k))[i]))
  {
    var f, ns := Filter(k, In, PList(ms)), NormalMembers(h, ms);
    TranslateIn(h, k, PList(ms));
    HoldsMeaning(h, e, f, d);
    var q := TermsStringOrNumeric(k, ns);
    forall v ensures ValueAccepts(e, q, v) <==> MemberPasses(h, e, ms, v) {
      MixedValue(h, e, k, ms, v);
    }
    hide Translate, Holds, ValueAccepts, TermsStringOrNumeric, MemberPasses;
  }

  ghost predicate MemberPasses(h: Host, e: Engine, ms: seq<PyVal>, v: string) {
    exists i :: 0 <= i < |ms| && OnePasses(h, e, ms[i], v)
  }

  predicate OnePasses(h: Host, e: Engine, m: PyVal, v: string) {
    if m.PStr? then h.Lower(v) == h.Lower(h.Trim(m.s)) else e.numeric(m, v)
  }

  lemma MixedValue(h: Host, e: Engine, k: string, ms: seq<PyVal>, v: string)
    requires h.Sane() && SameFold(h, e) && ms != []
    ensures ValueAccepts(e, TermsStringOrNumeric(k, NormalMembers(h, ms)), v) <==> MemberPasses(h, e, ms, v)
  {
    var ns := NormalMembers(h, ms);
    var q := TermsStringOrNumeric(k, ns);
    forall i | 0 <= i < |ms| ensures LeafAccepts(e, TermOrMatch(k, ns[i]), v) <==> OnePasses(h, e, ms[i], v) {
      if ms[i].PStr? {
        TrimLower(h, ms[i].s);
        EqualInQuery(h, e, k, ms[i].s, v);
      }
      hide Host.Lower, Host.Trim;
    }
    hide OnePasses, NormalMembers;
    if q.Bool? {
      assert forall i :: 0 <= i < |ms| ==> q.should[i] == TermOrMatch(k, ns[i]);
    } else {
      assert forall i :: 0 <= i < |ms| ==> TermOrMatch(k, ns[i]) == TermValue(Meta(k), ns[i]);
    }
    hide LeafAccepts, TermOrMatch;
  }

  /** The cheap routing check asks whether the operator can be expressed for some value, and
      is safe when a document has several. */
  lemma SupportedIff(h: Host, k: string, op: Op, v: PyVal)
    ensures PushdownSupported([Filter(k, op, v)]) <==>
            !UnsafeNegative(op) && exists w :: Translate(h, Filter(k, op, w)).Ok?
  {
    var f := Filter(k, op, v);
    assert PushdownSupported([f]) <==> !f.op.Unknown? && !UnsafeNegative(f.op) && f.key != [] by {
      assert [f][0] == f;
    }
    if !op.Unknown? && k != [] {
      if op.In? || op.NotIn? {
        ListTranslates(h, k, op);
      } else {
        assert Translate(h, Filter(k, op, PStr("a"))).Ok?;
      }
    }
  }

  lemma ListTranslates(h: Host, k: string, op: Op)
    requires k != [] && (op.In? || op.NotIn?)
    ensures exists w :: Translate(h, Filter(k, op, w)).Ok?
  {
    assert Translate(h, Filter(k, op, PList([PStr("a")]))).Ok?;
  }
}
