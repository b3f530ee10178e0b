/** What an Infinity filter makes of the value it is given: a number, or the text it is. */
module InfinityValues {
  import opened Text
  import opened Python
  import opened MetaFilter
  import opened Coercion
  import opened SqlSyntax
  import opened InfinityFilter

  /** The value, or the text of it without the blanks around it, is a literal number or
      boolean. */
  predicate ReadsAs(h: Host, value: PyVal, n: PyVal) {
    h.eval(h.Trim(h.Str(value))) == Some(n) && (n.PNum? || n.PBool?)
  }

  predicate NoNumber(h: Host, value: PyVal) {
    var parsed := h.eval(h.Trim(h.Str(value)));
    parsed.Some? ==> !parsed.value.PNum? && !parsed.value.PBool?
  }

  /** The value of the predicate of the filter. */
  ghost predicate HasValue(h: Host, d: Answers, f: Filter, v: Tri) {
    && Translate(h, f).Ok?
    && Evaluate((p: Pred) => Val(d, p), Translate(h, f).value) == Value(v)
  }

  lemma MeansValue(h: Host, d: Answers, f: Filter)
    requires Translate(h, f).Ok?
    ensures HasValue(h, d, f, Intended(h, d, f))
  {
    var val := (p: Pred) => Val(d, p);
    FilterMeans(h, d, f);
    hide Translate, Intended, Val;
    AndIsOr(val, Translate(h, f).value, Intended(h, d, f));
    OrEvaluates(val, Translate(h, f).value, Intended(h, d, f));
  }

  /** `=` and `≠` ask for a number where the value reads as one. */
  lemma EqualNumber(h: Host, d: Answers, k: string, value: PyVal, n: PyVal)
    requires ValidKey(k) && ReadsAs(h, value, n) && !value.PNone? && !value.PList? && !value.PDict?
    ensures HasValue(h, d, Filter(k, Eq, value), d.number(k, n))
    ensures HasValue(h, d, Filter(k, Ne, value), Not3(d.number(k, n)))
  {
    MeansValue(h, d, Filter(k, Eq, value));
    MeansValue(h, d, Filter(k, Ne, value));
    hide Val, Evaluate, Host.Trim;
  }

  /** Otherwise for the text as it stands, blanks and case included, in JSON quotes. */
  lemma EqualText(h: Host, d: Answers, k: string, value: PyVal)
    requires ValidKey(k) && NoNumber(h, value) && !value.PNone? && !value.PList? && !value.PDict?
    ensures HasValue(h, d, Filter(k, Eq, value), d.json(k, "\"" + h.Str(value) + "\""))
    ensures HasValue(h, d, Filter(k, Ne, value), Not3(d.json(k, "\"" + h.Str(value) + "\"")))
  {
    MeansValue(h, d, Filter(k, Eq, value));
    MeansValue(h, d, Filter(k, Ne, value));
    hide Val, Evaluate, Host.Trim;
  }

  /** Ranges compare numbers where the bound reads as one, and extracted texts otherwise. */
  lemma RangeBound(h: Host, d: Answers, k: string, cmp: Cmp, value: PyVal, n: PyVal)
    requires ValidKey(k) && !value.PNone?
    ensures ReadsAs(h, value, n) ==> HasValue(h, d, Filter(k, Range(cmp), value), d.compareNumber(k, Order(cmp), n))
    ensures NoNumber(h, value) ==>
              HasValue(h, d, Filter(k, Range(cmp), value),
                       if d.text(k).None? then Null
                       else Of(d.compareText(Order(cmp), d.text(k).value, h.Str(value))))
  {
    MeansValue(h, d, Filter(k, Range(cmp), value));
    hide Val, Evaluate, Host.Trim;
  }

  /** `contains` asks for a number where the value reads as one, `not contains` never. */
  lemma ContainsNumber(h: Host, d: Answers, k: string, value: PyVal, n: PyVal)
    requires ValidKey(k) && ReadsAs(h, value, n) && Translate(h, Filter(k, Contains, value)).Ok?
    ensures HasValue(h, d, Filter(k, Contains, value), d.number(k, n))
    ensures Translate(h, Filter(k, NotContains, value)).Ok? ==>
              HasValue(h, d, Filter(k, NotContains, value), Not3(d.json(k, "\"" + h.Str(value) + "\"")))
  {
    MeansValue(h, d, Filter(k, Contains, value));
    if Translate(h, Filter(k, NotContains, value)).Ok? {
      MeansValue(h, d, Filter(k, NotContains, value));
    }
    hide Val, Evaluate, Host.Trim;
  }

  /** Which values are refused. */
  lemma Refused(h: Host, k: string, value: PyVal)
    requires ValidKey(k)
    ensures Translate(h, Filter(k, Eq, value)).Unsupported? <==> value.PNone? || value.PList? || value.PDict?
    ensures Translate(h, Filter(k, Range(GT), value)).Unsupported? <==> value.PNone?
    ensures value.PStr? ==>
              (Translate(h, Filter(k, Contains, value)).Unsupported? <==> value.s == []) &&
              (Translate(h, Filter(k, NotContains, value)).Unsupported? <==> value.s == []) &&
              (Translate(h, Filter(k, StartWith, value)).Unsupported? <==> value.s == [])
    ensures value.PNum? || value.PBool? ==> Translate(h, Filter(k, Contains, value)).Ok?
    ensures value.PNone? || value == PList([]) || value == PTuple([]) ==>
              Translate(h, Filter(k, Contains, value)).Unsupported?
  {
    hide Host.Trim, Containing, ArgOf;
  }

  /** Keys are identifiers; one final newline is let through. */
  lemma KeysAccepted(k: string)
    requires k != [] && k[|k| - 1] != '\n'
    ensures ValidKey(k) <==>
            !('0' <= k[0] <= '9') &&
            forall i :: 0 <= i < |k| ==>
              'a' <= k[i] <= 'z' || 'A' <= k[i] <= 'Z' || '0' <= k[i] <= '9' || k[i] == '_'
  {
  }
}
