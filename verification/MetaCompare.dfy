/** What the comparisons of the in-memory filter compare: dates as texts, literals as the
    values they stand for, and anything else as lower-cased texts. */
module MetaCompare {
  import opened Text
  import opened Python
  import opened MetaFilter

  /** The stored value on the left, the filter's on the right. */
  predicate Related(h: Host, op: Op, a: PyVal, b: PyVal)
    requires Comparison(op)
  {
    match op
    case Eq => PyEq(a, b)
    case Ne => !PyEq(a, b)
    case Range(c) => h.order(c, a, b) == Some(true)
  }

  /** A value as it is compared: texts lose their case. */
  function Caseless(h: Host, v: PyVal): PyVal {
    if v.PStr? then PStr(h.Lower(v.s)) else v
  }

  /** A date is compared with dates only, blanks around both dropped. */
  lemma DatesCompared(h: Host, op: Op, bucket: string, value: PyVal)
    requires Comparison(op) && h.IsDate(h.Trim(h.Str(value)))
    ensures Matched(h, op, bucket, value) <==>
            h.IsDate(h.Trim(bucket)) && Related(h, op, PStr(h.Trim(bucket)), PStr(h.Trim(h.Str(value))))
  {
    hide PyEq, Host.IsDate, Host.Trim;
  }

  /** If both texts are literals, the values they stand for are compared. */
  lemma LiteralsCompared(h: Host, op: Op, bucket: string, s: string, a: PyVal, b: PyVal)
    requires Comparison(op) && !h.IsDate(h.Trim(s)) && h.eval(bucket) == Some(a) && h.eval(s) == Some(b)
    ensures Matched(h, op, bucket, PStr(s)) <==> Related(h, op, Caseless(h, a), Caseless(h, b))
    ensures !a.PStr? && !b.PStr? ==> (Matched(h, op, bucket, PStr(s)) <==> Related(h, op, a, b))
  {
    hide PyEq, Host.IsDate, Host.Trim, Host.Lower;
  }

  /** If one of them is no literal, or the value is no text, the stored text is compared as
      a text. */
  lemma TextsCompared(h: Host, op: Op, bucket: string, value: PyVal)
    requires Comparison(op) && !h.IsDate(h.Trim(h.Str(value)))
    requires value.PStr? ==> h.eval(bucket).None? || h.eval(value.s).None?
    ensures Matched(h, op, bucket, value) <==> Related(h, op, PStr(h.Lower(bucket)), Caseless(h, value))
  {
    hide PyEq, Host.IsDate, Host.Trim, Host.Lower;
  }

  /** The filter compares a stored value as meant. */
  ghost predicate Passes(h: Host, op: Op, v: string, s: string)
    requires Comparison(op)
  {
    if h.IsDate(h.Trim(s)) then h.IsDate(h.Trim(v)) && Related(h, op, PStr(h.Trim(v)), PStr(h.Trim(s)))
    else if h.eval(v).Some? && h.eval(s).Some? then
      Related(h, op, Caseless(h, h.eval(v).value), Caseless(h, h.eval(s).value))
    else Related(h, op, PStr(h.Lower(v)), PStr(h.Lower(s)))
  }

  /** So a request for one comparison with a text returns exactly the documents in scope
      that have a value under the key that compares so. */
  lemma ComparisonSelects(h: Host, store: Store, kbs: set<string>, metas: Index, k: string, op: Op, s: string,
                          logic: string, d: DocId)
    requires IsIndex(metas, store, kbs) && Comparison(op)
    ensures Selected(h, metas, [Filter(k, op, PStr(s))], logic, d) <==>
            d in store && store[d].kb in kbs && k in store[d].meta &&
            exists v :: v in store[d].meta[k] && Passes(h, op, v, s)
  {
    var f := Filter(k, op, PStr(s));
    forall v ensures Matched(h, op, v, PStr(s)) <==> Passes(h, op, v, s) {
      if h.IsDate(h.Trim(s)) {
        DatesCompared(h, op, v, PStr(s));
      } else if h.eval(v).Some? && h.eval(s).Some? {
        LiteralsCompared(h, op, v, s, h.eval(v).value, h.eval(s).value);
      } else {
        TextsCompared(h, op, v, PStr(s));
      }
    }
    hide Matched, Passes;
    assert Selected(h, metas, [f], logic, d) <==> Hit(h, metas, f, d) by {
      assert [f][0] == f;
    }
    forall v ensures Indexed(metas, k, v, d) <==> Carries(store, kbs, d, k, v) {
    }
    if Hit(h, metas, f, d) {
      var v :| v in metas[k] && d in metas[k][v] && Matched(h, op, v, PStr(s));
      assert Indexed(metas, k, v, d);
    }
    if d in store && store[d].kb in kbs && k in store[d].meta {
      if v :| v in store[d].meta[k] && Passes(h, op, v, s) {
        assert Carries(store, kbs, d, k, v);
        assert Indexed(metas, k, v, d);
      }
    }
  }

  /** For a number as the value, a document passes with any stored number so related,
      however it is written, and never through the order of texts. */
  lemma NumbersCompared(h: Host, c: Cmp, bucket: string, s: string, x: real, y: real)
    requires !h.IsDate(h.Trim(s)) && h.eval(bucket) == Some(PNum(x)) && h.eval(s) == Some(PNum(y))
    ensures Matched(h, Range(c), bucket, PStr(s)) <==> h.order(c, PNum(x), PNum(y)) == Some(true)
    ensures Matched(h, Eq, bucket, PStr(s)) <==> x == y
    ensures Matched(h, Ne, bucket, PStr(s)) <==> x != y
  {
    LiteralsCompared(h, Range(c), bucket, s, PNum(x), PNum(y));
    LiteralsCompared(h, Eq, bucket, s, PNum(x), PNum(y));
    LiteralsCompared(h, Ne, bucket, s, PNum(x), PNum(y));
    hide Matched;
  }

  // ----- membership -----

  /** `in` a list finds a stored value that equals a text of the list up to case; `in` a
      tuple, whose texts keep their case, one that is in the tuple in lower case.  Numbers
      and other items are never equal to a text. */
  lemma MembersFound(h: Host, bucket: string, items: seq<PyVal>)
    ensures Matched(h, In, bucket, PList(items)) <==>
            exists i :: 0 <= i < |items| && items[i].PStr? && h.Lower(items[i].s) == h.Lower(bucket)
    ensures Matched(h, In, bucket, PTuple(items)) <==>
            exists i :: 0 <= i < |items| && items[i] == PStr(h.Lower(bucket))
  {
    var x := PStr(h.Lower(bucket));
    var low := Normalize(h, PList(items));
    forall i | 0 <= i < |items|
      ensures PyEq(x, low.items[i]) <==> items[i].PStr? && h.Lower(items[i].s) == h.Lower(bucket)
      ensures PyEq(x, items[i]) <==> items[i] == x
    {
    }
    assert |low.items| == |items|;
    hide Host.Lower;
  }

  /** `in` a text finds a stored value that is a part of it, up to case; an opaque container
      answers for itself, and any other value contains nothing, not even negated. */
  lemma ContainersAsked(h: Host, bucket: string, value: PyVal)
    ensures value.PStr? ==> (Matched(h, In, bucket, value) <==> Occurs(h.Lower(bucket), h.Lower(value.s)))
    ensures value.PDict? || value.POther? ==>
              (Matched(h, In, bucket, value) <==> h.has(value, h.Lower(bucket)) == Some(true)) &&
              (Matched(h, NotIn, bucket, value) <==> h.has(value, h.Lower(bucket)) == Some(false))
    ensures value.PNone? || value.PBool? || value.PNum? ==>
              !Matched(h, In, bucket, value) && !Matched(h, NotIn, bucket, value)
  {
    hide Host.Lower, Occurs, PyEq;
  }

  /** An operator nobody knows matches nothing. */
  lemma UnknownMatchesNothing(h: Host, name: string, bucket: string, value: PyVal)
    ensures !Matched(h, Unknown(name), bucket, value)
  {
  }

  // ----- Python -----

  /** `==` is an equivalence; booleans equal the numbers one and zero, and nothing else
      crosses kinds. */
  lemma {:induction false} EqualIsEquivalence(a: PyVal, b: PyVal, c: PyVal)
    ensures PyEq(a, a)
    ensures PyEq(a, b) ==> PyEq(b, a)
    ensures PyEq(a, b) && PyEq(b, c) ==> PyEq(a, c)
    decreases a
  {
    if (a.PList? && b.PList? && c.PList?) || (a.PTuple? && b.PTuple? && c.PTuple?) {
      ItemsEqual(a.items, b.items, c.items);
    } else if a.PList? || a.PTuple? {
      forall i | 0 <= i < |a.items| ensures PyEq(a.items[i], a.items[i]) {
        EqualIsEquivalence(a.items[i], a.items[i], a.items[i]);
      }
      if (a.PList? && b.PList?) || (a.PTuple? && b.PTuple?) {
        ItemsEqual(a.items, b.items, b.items);
      }
    }
  }

  lemma {:induction false} ItemsEqual(xs: seq<PyVal>, ys: seq<PyVal>, zs: seq<PyVal>)
    ensures forall i :: 0 <= i < |xs| ==> PyEq(xs[i], xs[i])
    ensures forall i :: 0 <= i < |xs| && i < |ys| && PyEq(xs[i], ys[i]) ==> PyEq(ys[i], xs[i])
    ensures forall i :: 0 <= i < |xs| && i < |ys| && i < |zs| && PyEq(xs[i], ys[i]) && PyEq(ys[i], zs[i]) ==>
              PyEq(xs[i], zs[i])
    decreases xs
  {
    forall i | 0 <= i < |xs| ensures PyEq(xs[i], xs[i]) {
      EqualIsEquivalence(xs[i], xs[i], xs[i]);
    }
    forall i | 0 <= i < |xs| && i < |ys| && PyEq(xs[i], ys[i]) ensures PyEq(ys[i], xs[i]) {
      EqualIsEquivalence(xs[i], ys[i], ys[i]);
    }
    forall i | 0 <= i < |xs| && i < |ys| && i < |zs| && PyEq(xs[i], ys[i]) && PyEq(ys[i], zs[i])
      ensures PyEq(xs[i], zs[i])
    {
      EqualIsEquivalence(xs[i], ys[i], zs[i]);
    }
  }

  lemma KindsApart(a: PyVal, b: PyVal, x: real)
    ensures PyEq(PBool(true), PNum(x)) <==> x == 1.0
    ensures PyEq(PBool(false), PNum(x)) <==> x == 0.0
    ensures !PyEq(PBool(true), PBool(false))
    ensures PyEq(a, b) && !a.PBool? && !b.PBool? ==>
              (a.PStr? <==> b.PStr?) && (a.PNum? <==> b.PNum?) && (a.PList? <==> b.PList?) &&
              (a.PTuple? <==> b.PTuple?) && (a.PNone? <==> b.PNone?) && (a.PDict? <==> b.PDict?)
  {
  }

  /** The date test: ten characters, two hyphens and eight digits. */
  lemma DatesAre(h: Host, s: string)
    ensures h.IsDate(s) <==> exists y: string, m: string, d: string :: DateParts(h, s, y, m, d)
  {
    if h.IsDate(s) {
      DateCut(h, s);
    }
    if y: string, m: string, d: string :| DateParts(h, s, y, m, d) {
      forall i | 0 <= i < 10 && i != 4 && i != 7 ensures h.digit(s[i]) {
        assert s[i] == (y + m + d)[if i < 4 then i else if i < 7 then i - 1 else i - 2];
      }
    }
  }

  predicate DateParts(h: Host, s: string, y: string, m: string, d: string) {
    && |y| == 4 && |m| == 2 && |d| == 2 && s == y + "-" + m + "-" + d
    && forall c :: c in y + m + d ==> h.digit(c)
  }

  lemma DateCut(h: Host, s: string)
    requires h.IsDate(s)
    ensures DateParts(h, s, s[..4], s[5..7], s[8..])
  {
    var y, m, d := s[..4], s[5..7], s[8..];
    assert s == y + "-" + m + "-" + d;
    forall c | c in y + m + d ensures h.digit(c) {
      var i :| 0 <= i < 8 && (y + m + d)[i] == c;
      if i < 4 {
        assert c == s[i];
      } else if i < 6 {
        assert c == s[i + 1];
      } else {
        assert c == s[i + 2];
      }
    }
  }
}
