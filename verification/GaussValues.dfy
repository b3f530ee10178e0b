/** What a GaussDB filter makes of the value it is given: a literal, a timestamp, a decimal,
    or the text it is. */
module GaussValues {
  import opened Text
  import opened Python
  import opened MetaFilter
  import opened Coercion
  import opened SqlSyntax
  import opened GaussFilter
  import opened GaussProofs
  import Patterns

  /** The statement's `=` and `≠` on the value. */
  ghost predicate Decides(h: Host, e: Engine, rd: Reading, k: string, value: PyVal, test: Json -> bool) {
    forall d: Document ::
      && (Asks(h, e, rd, d, Filter(k, Eq, value)) <==> d(k).Some? && test(d(k).value))
      && (Asks(h, e, rd, d, Filter(k, Ne, value)) <==> d(k).Some? && !test(d(k).value))
  }

  lemma BySelection(h: Host, e: Engine, rd: Reading, k: string, value: PyVal, test: Json -> bool)
    requires ValidKey(k) && CoerceScalar(h, value).Ok?
    requires forall d: Document ::
               SelectsEqual(h, e, d, k, CoerceScalar(h, value).value) <==> d(k).Some? && test(d(k).value)
    ensures Decides(h, e, rd, k, value, test)
  {
    forall d: Document
      ensures Asks(h, e, rd, d, Filter(k, Eq, value)) <==> d(k).Some? && test(d(k).value)
      ensures Asks(h, e, rd, d, Filter(k, Ne, value)) <==> d(k).Some? && !test(d(k).value)
    {
      hide SelectsEqual, CoerceScalar, ValidKey, Asks, EqualPiece, Negate;
      AsksSelects(h, e, rd, d, Filter(k, Eq, value));
      AsksSelects(h, e, rd, d, Filter(k, Ne, value));
    }
  }

  /** A number or boolean, or a text that is a literal of one once trimmed, is looked for as
      JSON: it is the stored value or an item of it. */
  lemma EqualNumber(h: Host, e: Engine, rd: Reading, k: string, value: PyVal, n: PyVal)
    requires ValidKey(k) && (n.PNum? || n.PBool?)
    requires value == n || (value.PStr? && h.Trim(value.s) != [] && h.eval(h.Trim(value.s)) == Some(n))
    ensures Decides(h, e, rd, k, value, v => v == e.parse(n) || (v.JArray? && e.parse(n) in v.items))
  {
    hide Host.Trim, ValidKey;
    BySelection(h, e, rd, k, value, v => v == e.parse(n) || (v.JArray? && e.parse(n) in v.items));
  }

  /** None, or a text that is its literal, is JSON null. */
  lemma EqualNone(h: Host, e: Engine, rd: Reading, k: string, value: PyVal)
    requires ValidKey(k)
    requires value.PNone? || (value.PStr? && h.Trim(value.s) != [] && h.eval(h.Trim(value.s)) == Some(PNone))
    ensures Decides(h, e, rd, k, value, v => v == JNull)
  {
    hide Host.Trim, ValidKey;
    BySelection(h, e, rd, k, value, v => v == JNull);
  }

  /** Any other text is compared as it stands, blanks included, up to case; the empty text
      only equals itself. */
  lemma EqualText(h: Host, e: Engine, rd: Reading, k: string, s: string)
    requires ValidKey(k)
    requires h.Trim(s) == [] || h.eval(h.Trim(s)).None? ||
             (var p := h.eval(h.Trim(s)).value; !p.PNum? && !p.PBool? && !p.PNone?)
    ensures s == [] ==> Decides(h, e, rd, k, PStr(s), v => v == JText(""))
    ensures s != [] ==> Decides(h, e, rd, k, PStr(s), v => EqualsText(h, e, v, s))
  {
    hide Host.Trim, ValidKey;
    if s == [] {
      BySelection(h, e, rd, k, PStr(s), v => v == JText(""));
    } else {
      forall d: Document ensures SelectsEqual(h, e, d, k, PStr(s)) <==> d(k).Some? && EqualsText(h, e, d(k).value, s) {
        hide Host.Lower;
      }
      BySelection(h, e, rd, k, PStr(s), v => EqualsText(h, e, v, s));
    }
  }

  /** The text of the value is s up to case, or the value has s, in lower case, as an item
      or a key. */
  predicate EqualsText(h: Host, e: Engine, v: Json, s: string) {
    || (v.JText? && MapChars(e.lower, v.s) == h.Lower(s))
    || (!v.JText? && !v.JNull? && MapChars(e.lower, e.render(v)) == h.Lower(s))
    || v == JText(h.Lower(s)) || (v.JArray? && JText(h.Lower(s)) in v.items) || (v.JObject? && h.Lower(s) in v.fields)
  }

  /** Containers are refused; a range refuses None, booleans, and texts that are neither
      timestamp nor number. */
  lemma Refused(h: Host, rd: Reading, k: string, value: PyVal)
    requires ValidKey(k)
    ensures Translate(h, rd, Filter(k, Eq, value)).Unsupported? <==> value.PList? || value.PTuple? || value.PDict?
    ensures value.PNone? || value.PBool? ==> Translate(h, rd, Filter(k, Range(GT), value)).Unsupported?
    ensures value.PStr? ==>
              (Translate(h, rd, Filter(k, Range(GT), value)).Unsupported? <==>
               var t := h.Trim(value.s);
               rd.stamp(t).None? && rd.decimal(t).None? && !(h.eval(t).Some? && h.eval(t).value.PNum?))
  {
    hide Host.Trim, ValidKey;
  }

  predicate TextOp(op: Op) {
    op.Contains? || op.NotContains? || op.StartWith? || op.EndWith?
  }

  /** The operators about parts of texts refuse None, containers and what is written as the
      empty text. */
  lemma TextsRefused(h: Host, rd: Reading, k: string, op: Op, value: PyVal)
    requires ValidKey(k) && TextOp(op)
    ensures Translate(h, rd, Filter(k, op, value)).Unsupported? <==>
            value.PNone? || value.PList? || value.PTuple? || value.PDict? || h.Str(value) == []
  {
    hide ValidKey, Translate, CoerceString;
    RefusedAsText(h, rd, k, op, value);
    TextCoerced(h, value);
  }

  lemma RefusedAsText(h: Host, rd: Reading, k: string, op: Op, value: PyVal)
    requires ValidKey(k) && TextOp(op)
    ensures Translate(h, rd, Filter(k, op, value)).Unsupported? <==> CoerceString(h, value).Unsupported?
  {
    hide ValidKey, ContainsPiece, Negate, Patterns.Escape, CoerceString;
  }

  lemma TextCoerced(h: Host, value: PyVal)
    ensures CoerceString(h, value).Unsupported? <==>
            value.PNone? || value.PList? || value.PTuple? || value.PDict? || h.Str(value) == []
  {
  }

  /** A number bounds a range as it is. */
  lemma NumberBound(h: Host, e: Engine, rd: Reading, k: string, cmp: Cmp, value: PyVal, d: Document)
    requires ValidKey(k) && value.PNum?
    ensures var x := TextAt(e, d, k);
      Asks(h, e, rd, d, Filter(k, Range(cmp), value)) <==>
      x.Some? && e.numeric(x.value) && e.number(x.value, cmp, value)
  {
    hide ValidKey, TextAt, Asks;
    AsksSelects(h, e, rd, d, Filter(k, Range(cmp), value));
  }

  /** What a range is bounded by: a timestamp if the text is one, else the number it is a
      literal of, else the decimal it is. */
  lemma RangeBound(h: Host, e: Engine, rd: Reading, k: string, cmp: Cmp, s: string, d: Document)
    requires ValidKey(k)
    ensures var f, t, x := Filter(k, Range(cmp), PStr(s)), h.Trim(s), TextAt(e, d, k);
      && (rd.stamp(t).Some? ==>
            (Asks(h, e, rd, d, f) <==> x.Some? && e.time(x.value, cmp, rd.stamp(t).value) == True))
      && (rd.stamp(t).None? && h.eval(t).Some? && h.eval(t).value.PNum? ==>
            (Asks(h, e, rd, d, f) <==> x.Some? && e.numeric(x.value) && e.number(x.value, cmp, h.eval(t).value)))
      && (rd.stamp(t).None? && rd.decimal(t).Some? && !(h.eval(t).Some? && h.eval(t).value.PNum?) ==>
            (Asks(h, e, rd, d, f) <==> x.Some? && e.numeric(x.value) && e.number(x.value, cmp, rd.decimal(t).value)))
  {
    var f := Filter(k, Range(cmp), PStr(s));
    hide Host.Trim, ValidKey, TextAt, Asks;
    if Translate(h, rd, f).Ok? {
      AsksSelects(h, e, rd, d, f);
    }
  }

  /** Keys are dotted paths without empty segments and without NUL. */
  lemma KeysAccepted(k: string)
    ensures ValidKey(k) <==>
            forall i :: 0 <= i < |SplitDots(k, [])| ==> SplitDots(k, [])[i] != [] && '\0' !in SplitDots(k, [])[i]
  {
    KeyFrom(k, []);
    assert [] + k == k;
    hide ValidKey;
  }

  predicate GoodSegments(segs: seq<string>) {
    forall i :: 0 <= i < |segs| ==> segs[i] != [] && '\0' !in segs[i]
  }

  /** The same for what is left of a key behind the segment being read. */
  lemma {:induction false} KeyFrom(k: string, seg: string)
    requires '.' !in seg
    ensures GoodSegments(SplitDots(k, seg)) <==> ValidKey(seg + k)
    decreases |k|
  {
    if k == [] {
      assert seg + k == seg;
      assert SplitDots(k, seg) == [seg];
      GoodHead(seg, []);
      KeyOne(seg);
      hide ValidKey, GoodSegments;
    } else if k[0] == '.' {
      KeyFrom(k[1..], []);
      assert [] + k[1..] == k[1..];
      KeyParts(seg, k[1..]);
      assert seg + ['.'] + k[1..] == seg + k;
      GoodHead(seg, SplitDots(k[1..], []));
      hide ValidKey, GoodSegments;
    } else {
      KeyFrom(k[1..], seg + [k[0]]);
      assert seg + [k[0]] + k[1..] == seg + k;
    }
  }

  lemma KeyOne(seg: string)
    requires '.' !in seg
    ensures ValidKey(seg) <==> seg != [] && '\0' !in seg
  {
    assert forall i :: 0 <= i < |seg| ==> seg[i] in seg;
  }

  lemma GoodHead(seg: string, rest: seq<string>)
    ensures GoodSegments([seg] + rest) <==> GoodSegments([seg]) && GoodSegments(rest)
    ensures GoodSegments([seg]) <==> seg != [] && '\0' !in seg
  {
    var all := [seg] + rest;
    assert all[0] == seg && forall i :: 0 < i < |all| ==> all[i] == rest[i - 1];
    if GoodSegments(all) {
      forall i | 0 <= i < |rest| ensures rest[i] != [] && '\0' !in rest[i] {
        assert rest[i] == all[i + 1];
      }
    }
    assert [seg][0] == seg;
  }

  lemma KeyParts(seg: string, rest: string)
    requires '.' !in seg
    ensures ValidKey(seg + ['.'] + rest) <==> seg != [] && '\0' !in seg && ValidKey(rest)
  {
    var k, n := seg + ['.'] + rest, |seg|;
    assert k[n] == '.' && |k| == n + 1 + |rest|;
    assert forall i :: 0 <= i < n ==> k[i] == seg[i];
    assert forall i :: 0 <= i < |rest| ==> k[n + 1 + i] == rest[i];
    if ValidKey(k) {
      assert seg != [];
      assert rest != [];
      assert rest[0] == k[n + 1] && k[n + 1] != '.';
      forall i | 0 < i < |rest| ensures !(rest[i - 1] == '.' && rest[i] == '.') {
        assert rest[i - 1] == k[n + i] && rest[i] == k[n + 1 + i];
      }
    }
    if seg != [] && '\0' !in seg && ValidKey(rest) {
      forall i | 0 < i < |k| ensures !(k[i - 1] == '.' && k[i] == '.') {
        if i > n + 1 {
          assert k[i - 1] == rest[i - n - 2] && k[i] == rest[i - n - 1];
        }
      }
      forall i | 0 <= i < |k| ensures k[i] != '\0' {
        if i > n { assert k[i] == rest[i - n - 1]; }
      }
    }
  }
}
