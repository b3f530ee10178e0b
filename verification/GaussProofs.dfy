/** What the GaussDB predicates select, and that their parameters line up. */
module GaussProofs {
  import opened Text
  import opened Python
  import opened MetaFilter
  import opened Patterns
  import opened Coercion
  import opened SqlSyntax
  import opened GaussFilter

  // ----- the predicates with their values written in -----

  function EqualInline(h: Host, k: string, v: PyVal): Sql {
    if v.PNone? then [Atom(KeyExists(k)), AND, Atom(IsBlank(k, NullJson))]
    else if v.PStr? then
      if v.s == [] then [Atom(IsBlank(k, EmptyText))]
      else
        [Atom(LowerEquals(k, Inline(TextVal(h.Lower(v.s))))), OR, Atom(JsonExists(k, Inline(TextVal(h.Lower(v.s)))))]
    else [Atom(JsonHolds(k, Inline(JsonVal(v))))]
  }

  function ContainsInline(h: Host, k: string, t: string): Sql {
    [Atom(JsonExists(k, Inline(TextVal(h.Lower(t))))), OR,
     Atom(LowerLike(k, Inline(TextVal("%" + Escape(LIKE, h.Lower(t)) + "%"))))]
  }

  function NegateInline(k: string, s: Sql): Sql {
    [Atom(KeyExists(k)), AND] + NotTrueSql(s)
  }

  function MembersInline(h: Host, k: string, vs: seq<PyVal>, negate: bool): (r: seq<Sql>)
    ensures |r| == |vs|
  {
    seq(|vs|, i requires 0 <= i < |vs| =>
      if negate then NotTrueSql(EqualInline(h, k, vs[i])) else Paren(EqualInline(h, k, vs[i])))
  }

  function InlineSql(h: Host, rd: Reading, f: Filter): Sql
    requires Translate(h, rd, f).Ok?
  {
    var k := f.key;
    match f.op
    case Empty => EmptySql(k)
    case NotEmpty => NotEmptySql(k)
    case Eq => EqualInline(h, k, CoerceScalar(h, f.value).value)
    case Ne => NegateInline(k, EqualInline(h, k, CoerceScalar(h, f.value).value))
    case Range(op) =>
      var v := CoerceRange(h, rd, f.value).value;
      [Atom(if v.TextVal? then TimeCompare(k, op, Inline(v)) else NumberCompare(k, op, Inline(v)))]
    case In => Join(OR, MembersInline(h, k, MembershipValues(h, f.value).value, false))
    case NotIn =>
      [Atom(KeyExists(k)), AND] + Join(AND, MembersInline(h, k, MembershipValues(h, f.value).value, true))
    case Contains => ContainsInline(h, k, h.Str(f.value))
    case NotContains => NegateInline(k, ContainsInline(h, k, h.Str(f.value)))
    case StartWith => [Atom(LowerLike(k, Inline(TextVal(Escape(LIKE, h.Lower(h.Str(f.value))) + "%"))))]
    case EndWith => [Atom(LowerLike(k, Inline(TextVal("%" + Escape(LIKE, h.Lower(h.Str(f.value)))))))]
  }

  // ----- alignment -----

  /** Texts without any placeholder align with no parameters. */
  lemma {:induction false} NoHoles(s: Sql)
    requires forall i :: 0 <= i < |s| ==> !HoleToken(s[i])
    ensures LinesUp(Piece(s, []), s)
  {
    if s == [] {
    } else {
      NoHoles(s[1..]);
      assert [s[0]] + s[1..] == s;
    }
  }

  lemma PairLinesUp(p: Pred, q: Pred, u: SqlVal, w: SqlVal)
    requires HasHole(p) && HasHole(q)
    ensures LinesUp(Piece([Atom(p), OR, Atom(q)], [u, w]), [Atom(Put(p, u)), OR, Atom(Put(q, w))])
  {
    hide LinesUp, HasHole, Put;
    LinesUpHole(p, u);
    LinesUpToken(OR);
    LinesUpHole(q, w);
    LinesUpConcat(Piece([OR], []), [OR], Piece([Atom(q)], [w]), [Atom(Put(q, w))]);
    LinesUpConcat(Piece([Atom(p)], [u]), [Atom(Put(p, u))],
                  Piece([OR] + [Atom(q)], [] + [w]), [OR] + [Atom(Put(q, w))]);
    assert [Atom(p)] + ([OR] + [Atom(q)]) == [Atom(p), OR, Atom(q)];
    assert [u] + ([] + [w]) == [u, w];
    assert [Atom(Put(p, u))] + ([OR] + [Atom(Put(q, w))]) == [Atom(Put(p, u)), OR, Atom(Put(q, w))];
  }

  lemma EqualLinesUp(h: Host, k: string, v: PyVal)
    ensures LinesUp(EqualPiece(h, k, v), EqualInline(h, k, v))
  {
    hide LinesUp;
    if v.PNone? || (v.PStr? && v.s == []) {
      NoHoles(EqualPiece(h, k, v).sql);
    } else if v.PStr? {
      var low := TextVal(h.Lower(v.s));
      PairLinesUp(LowerEquals(k, Hole), JsonExists(k, Hole), low, low);
    } else {
      LinesUpHole(JsonHolds(k, Hole), JsonVal(v));
    }
  }

  lemma ContainsLinesUp(h: Host, k: string, t: string)
    ensures LinesUp(ContainsPiece(h, k, t), ContainsInline(h, k, t))
  {
    hide LinesUp, Escape;
    PairLinesUp(JsonExists(k, Hole), LowerLike(k, Hole),
                TextVal(h.Lower(t)), TextVal("%" + Escape(LIKE, h.Lower(t)) + "%"));
  }

  lemma WrappedLinesUp(p: Piece, s: Sql)
    requires LinesUp(p, s)
    ensures LinesUp(Piece(Paren(p.sql), p.params), Paren(s))
    ensures LinesUp(Piece(NotTrueSql(p.sql), p.params), NotTrueSql(s))
  {
    hide LinesUp;
    NoHoles([LP]);
    NoHoles([RP]);
    NoHoles([RP, ISNOTTRUE]);
    LinesUpAround([LP], p, s, [RP]);
    LinesUpAround([LP], p, s, [RP, ISNOTTRUE]);
    assert forall x: Sql :: [LP] + x + [RP, ISNOTTRUE] == NotTrueSql(x);
  }

  lemma PrefixedLinesUp(pre: Sql, p: Piece, s: Sql)
    requires forall i :: 0 <= i < |pre| ==> !HoleToken(pre[i])
    requires LinesUp(p, s)
    ensures LinesUp(Piece(pre + p.sql, p.params), pre + s)
  {
    hide LinesUp;
    NoHoles(pre);
    LinesUpConcat(Piece(pre, []), pre, p, s);
    assert [] + p.params == p.params;
  }

  /** Joined pieces consume their parameter lists one after the other. */
  lemma {:induction false} JoinLinesUp(sep: Token<Pred>, ps: seq<Piece>, xs: seq<Sql>, ys: seq<Sql>)
    requires !HoleToken(sep) && |ps| == |xs| == |ys|
    requires forall i :: 0 <= i < |ps| ==> xs[i] == ps[i].sql && LinesUp(ps[i], ys[i])
    ensures LinesUp(Piece(Join(sep, xs), AllParams(ps)), Join(sep, ys))
  {
    hide LinesUp;
    if ps == [] {
      NoHoles([]);
    } else if |ps| == 1 {
      assert ps[1..] == [];
      assert AllParams(ps) == ps[0].params;
    } else {
      JoinLinesUp(sep, ps[1..], xs[1..], ys[1..]);
      var rest := Piece(Join(sep, xs[1..]), AllParams(ps[1..]));
      PrefixedLinesUp([sep], rest, Join(sep, ys[1..]));
      LinesUpConcat(ps[0], ys[0], Piece([sep] + rest.sql, rest.params), [sep] + Join(sep, ys[1..]));
      assert xs[0] + [sep] + rest.sql == xs[0] + ([sep] + rest.sql);
      assert ys[0] + [sep] + Join(sep, ys[1..]) == ys[0] + ([sep] + Join(sep, ys[1..]));
    }
  }

  lemma {:induction false} MemberParamsAll(h: Host, k: string, vs: seq<PyVal>, ps: seq<Piece>)
    requires |ps| == |vs|
    requires forall i :: 0 <= i < |vs| ==> ps[i].params == EqualPiece(h, k, vs[i]).params
    ensures AllParams(ps) == MemberParams(h, k, vs)
  {
    hide EqualPiece;
    if vs == [] {
    } else {
      MemberParamsAll(h, k, vs[1..], ps[1..]);
    }
  }

  lemma MembersLineUp(h: Host, k: string, vs: seq<PyVal>, negate: bool)
    ensures var sep := if negate then AND else OR;
            LinesUp(Piece(Join(sep, MemberFragments(h, k, vs, negate)), MemberParams(h, k, vs)),
                    Join(sep, MembersInline(h, k, vs, negate)))
  {
    hide LinesUp, EqualPiece, EqualInline, Join;
    var xs, ys := MemberFragments(h, k, vs, negate), MembersInline(h, k, vs, negate);
    var ps := seq(|vs|, i requires 0 <= i < |vs| => Piece(xs[i], EqualPiece(h, k, vs[i]).params));
    forall i | 0 <= i < |vs|
      ensures LinesUp(ps[i], ys[i])
    {
      EqualLinesUp(h, k, vs[i]);
      WrappedLinesUp(EqualPiece(h, k, vs[i]), EqualInline(h, k, vs[i]));
    }
    JoinLinesUp(if negate then AND else OR, ps, xs, ys);
    MemberParamsAll(h, k, vs, ps);
  }

  lemma {:induction false} NoParams(ps: seq<Piece>)
    requires forall i :: 0 <= i < |ps| ==> ps[i].params == []
    ensures AllParams(ps) == []
  {
    if ps == [] {
    } else {
      NoParams(ps[1..]);
    }
  }

  lemma JoinNoHoles(sep: Token<Pred>, xs: seq<Sql>)
    requires !HoleToken(sep)
    requires forall i :: 0 <= i < |xs| ==> LinesUp(Piece(xs[i], []), xs[i])
    ensures LinesUp(Piece(Join(sep, xs), []), Join(sep, xs))
  {
    hide LinesUp, Join;
    var ps := seq(|xs|, i requires 0 <= i < |xs| => Piece(xs[i], []));
    NoParams(ps);
    JoinLinesUp(sep, ps, xs, xs);
  }

  lemma EmptyLinesUp(k: string)
    ensures LinesUp(Piece(EmptySql(k), []), EmptySql(k))
    ensures LinesUp(Piece(NotEmptySql(k), []), NotEmptySql(k))
  {
    hide LinesUp, Join;
    var xs, ys := Leaves([KeyMissing(k)] + Blanks(k)), NotTrueLeaves(Blanks(k));
    forall i | 0 <= i < |xs|
      ensures LinesUp(Piece(xs[i], []), xs[i])
    {
      NoHoles(xs[i]);
    }
    forall i | 0 <= i < |ys|
      ensures LinesUp(Piece(ys[i], []), ys[i])
    {
      NoHoles(ys[i]);
    }
    JoinNoHoles(OR, xs);
    JoinNoHoles(AND, ys);
    PrefixedLinesUp([Atom(KeyExists(k)), AND], Piece(Join(AND, ys), []), Join(AND, ys));
  }

  lemma FilterLinesUp(h: Host, rd: Reading, f: Filter)
    requires Translate(h, rd, f).Ok?
    ensures LinesUp(Translate(h, rd, f).value, InlineSql(h, rd, f))
  {
    hide LinesUp, EqualPiece, EqualInline, ContainsPiece, ContainsInline, Escape, MembershipValues, Join;
    var k := f.key;
    match f.op
    case Empty => EmptyLinesUp(k);
    case NotEmpty => EmptyLinesUp(k);
    case Eq => EqualLinesUp(h, k, CoerceScalar(h, f.value).value);
    case Ne =>
      var v := CoerceScalar(h, f.value).value;
      EqualLinesUp(h, k, v);
      NegatedLinesUp(k, EqualPiece(h, k, v), EqualInline(h, k, v));
    case Range(op) =>
      var v := CoerceRange(h, rd, f.value).value;
      LinesUpHole(TimeCompare(k, op, Hole), v);
      LinesUpHole(NumberCompare(k, op, Hole), v);
    case In => MembersLineUp(h, k, MembershipValues(h, f.value).value, false);
    case NotIn =>
      var vs := MembershipValues(h, f.value).value;
      MembersLineUp(h, k, vs, true);
      PrefixedLinesUp([Atom(KeyExists(k)), AND],
                      Piece(Join(AND, MemberFragments(h, k, vs, true)), MemberParams(h, k, vs)),
                      Join(AND, MembersInline(h, k, vs, true)));
    case Contains => ContainsLinesUp(h, k, h.Str(f.value));
    case NotContains =>
      ContainsLinesUp(h, k, h.Str(f.value));
      NegatedLinesUp(k, ContainsPiece(h, k, h.Str(f.value)), ContainsInline(h, k, h.Str(f.value)));
    case StartWith => LinesUpHole(LowerLike(k, Hole), TextVal(Escape(LIKE, h.Lower(h.Str(f.value))) + "%"));
    case EndWith => LinesUpHole(LowerLike(k, Hole), TextVal("%" + Escape(LIKE, h.Lower(h.Str(f.value)))));
  }

  lemma NegatedLinesUp(k: string, p: Piece, s: Sql)
    requires LinesUp(p, s)
    ensures LinesUp(Negate(k, p), NegateInline(k, s))
  {
    hide LinesUp;
    WrappedLinesUp(p, s);
    PrefixedLinesUp([Atom(KeyExists(k)), AND], Piece(NotTrueSql(p.sql), p.params), NotTrueSql(s));
  }

  function PlanInline(h: Host, rd: Reading, fs: seq<Filter>, logic: string): Sql
    requires forall i :: 0 <= i < |fs| ==> Translate(h, rd, fs[i]).Ok?
  {
    if fs == [] then [Atom(OneIsOne)]
    else Join(Joiner(logic), seq(|fs|, i requires 0 <= i < |fs| => Paren(InlineSql(h, rd, fs[i]))))
  }

  /** Positional parameters line up: the composed predicate has as many
      placeholders as parameters, and filling them left to right gives the
      predicate with every filter's own values written in. */
  lemma PlanLinesUp(h: Host, rd: Reading, fs: seq<Filter>, logic: string, ps: seq<Piece>)
    requires |ps| == |fs| && forall i :: 0 <= i < |fs| ==> Translate(h, rd, fs[i]) == Ok(ps[i])
    ensures LinesUp(Predicate(ps, logic), PlanInline(h, rd, fs, logic))
  {
    hide LinesUp, Translate, InlineSql, Join;
    if fs == [] {
      NoHoles([Atom(OneIsOne)]);
    } else {
      var wrapped := seq(|ps|, i requires 0 <= i < |ps| => Piece(Paren(ps[i].sql), ps[i].params));
      var ys := seq(|fs|, i requires 0 <= i < |fs| => Paren(InlineSql(h, rd, fs[i])));
      forall i | 0 <= i < |fs|
        ensures LinesUp(wrapped[i], ys[i])
      {
        FilterLinesUp(h, rd, fs[i]);
        WrappedLinesUp(ps[i], InlineSql(h, rd, fs[i]));
      }
      JoinLinesUp(Joiner(logic), wrapped, Parens(ps), ys);
      SameParams(wrapped, ps);
    }
  }

  lemma {:induction false} SameParams(xs: seq<Piece>, ys: seq<Piece>)
    requires |xs| == |ys| && forall i :: 0 <= i < |xs| ==> xs[i].params == ys[i].params
    ensures AllParams(xs) == AllParams(ys)
  {
    if xs == [] {
    } else {
      SameParams(xs[1..], ys[1..]);
    }
  }

  // ----- what a filter selects -----

  predicate Texts(e: Engine, d: Document, k: string, test: string -> bool) {
    TextAt(e, d, k).Some? && test(MapChars(e.lower, TextAt(e, d, k).value))
  }

  predicate SelectsEqual(h: Host, e: Engine, d: Document, k: string, v: PyVal) {
    if v.PNone? then d(k) == Some(JNull)
    else if v.PStr? then
      if v.s == [] then d(k) == Some(JText(""))
      else Texts(e, d, k, t => t == h.Lower(v.s)) || (d(k).Some? && StringIn(d(k).value, h.Lower(v.s)))
    else d(k).Some? && ScalarIn(d(k).value, e.parse(v))
  }

  predicate SelectsContains(h: Host, e: Engine, d: Document, k: string, text: string) {
    Texts(e, d, k, t => Occurs(h.Lower(text), t)) || (d(k).Some? && StringIn(d(k).value, h.Lower(text)))
  }

  predicate BlankValue(v: Json) {
    v == JNull || v == JText("") || v == JArray([]) || v == JObject(map[])
  }

  /** Which documents each operator is meant to select. */
  predicate Selects(h: Host, e: Engine, rd: Reading, d: Document, f: Filter)
    requires Translate(h, rd, f).Ok?
  {
    var k := f.key;
    match f.op
    case Empty => d(k).None? || BlankValue(d(k).value)
    case NotEmpty => d(k).Some? && !BlankValue(d(k).value)
    case Eq => SelectsEqual(h, e, d, k, CoerceScalar(h, f.value).value)
    case Ne => d(k).Some? && !SelectsEqual(h, e, d, k, CoerceScalar(h, f.value).value)
    case Range(op) =>
      var v := CoerceRange(h, rd, f.value).value;
      TextAt(e, d, k).Some? &&
      var t := TextAt(e, d, k).value;
      if v.TextVal? then e.time(t, op, v.s) == True else e.numeric(t) && v.NumVal? && e.number(t, op, v.v)
    case In =>
      var vs := MembershipValues(h, f.value).value;
      exists i :: 0 <= i < |vs| && SelectsEqual(h, e, d, k, vs[i])
    case NotIn =>
      var vs := MembershipValues(h, f.value).value;
      d(k).Some? && forall i :: 0 <= i < |vs| ==> !SelectsEqual(h, e, d, k, vs[i])
    case Contains => SelectsContains(h, e, d, k, h.Str(f.value))
    case NotContains => d(k).Some? && !SelectsContains(h, e, d, k, h.Str(f.value))
    case StartWith => Texts(e, d, k, t => h.Lower(h.Str(f.value)) <= t)
    case EndWith => Texts(e, d, k, t => EndsWith(t, h.Lower(h.Str(f.value))))
  }

  // ----- the predicates read back -----

  function Valuation(e: Engine, d: Document): Pred -> Tri {
    (p: Pred) => Val(e, d, p)
  }

  /** The text is a predicate that is true exactly when b holds. */
  ghost predicate TrueIff(e: Engine, d: Document, s: Sql, b: bool) {
    exists v :: IsOr(Valuation(e, d), s, v) && (v == True <==> b)
  }

  ghost predicate ConjunctIff(e: Engine, d: Document, s: Sql, b: bool) {
    exists v :: IsAnd(Valuation(e, d), s, v) && (v == True <==> b)
  }

  lemma LeafIff(e: Engine, d: Document, p: Pred)
    ensures ConjunctIff(e, d, [Atom(p)], Val(e, d, p) == True)
    ensures TrueIff(e, d, [Atom(p)], Val(e, d, p) == True)
  {
    hide IsAnd, IsOr, Val;
    LeafMeans(Valuation(e, d), p);
  }

  lemma ConjunctIsPredicate(e: Engine, d: Document, s: Sql, b: bool)
    requires ConjunctIff(e, d, s, b)
    ensures TrueIff(e, d, s, b)
  {
    hide IsAnd, IsOr, Val;
    var val := Valuation(e, d);
    var v :| IsAnd(val, s, v) && (v == True <==> b);
    AndIsOr(val, s, v);
  }

  lemma EitherIff(e: Engine, d: Document, s: Sql, b: bool, t: Sql, c: bool)
    requires TrueIff(e, d, s, b) && TrueIff(e, d, t, c)
    ensures TrueIff(e, d, s + [OR] + t, b || c)
  {
    hide IsAnd, IsOr, Val;
    var val := Valuation(e, d);
    var v :| IsOr(val, s, v) && (v == True <==> b);
    var w :| IsOr(val, t, w) && (w == True <==> c);
    OrOr(val, s, v, t, w);
  }

  lemma BothIff(e: Engine, d: Document, s: Sql, b: bool, t: Sql, c: bool)
    requires ConjunctIff(e, d, s, b) && ConjunctIff(e, d, t, c)
    ensures ConjunctIff(e, d, s + [AND] + t, b && c)
  {
    hide IsAnd, IsOr, Val;
    var val := Valuation(e, d);
    var v :| IsAnd(val, s, v) && (v == True <==> b);
    var w :| IsAnd(val, t, w) && (w == True <==> c);
    AndAnd(val, s, v, t, w);
  }

  /** IS NOT TRUE turns "not true" (false or unknown) into true. */
  lemma WrappedIff(e: Engine, d: Document, s: Sql, b: bool)
    requires TrueIff(e, d, s, b)
    ensures ConjunctIff(e, d, Paren(s), b) && ConjunctIff(e, d, NotTrueSql(s), !b)
  {
    hide IsAnd, IsOr, Val;
    var val := Valuation(e, d);
    var v :| IsOr(val, s, v) && (v == True <==> b);
    ParenMeans(val, s, v);
    assert IsAnd(val, Paren(s), v);
    assert IsAnd(val, NotTrueSql(s), NotTrue(v));
  }

  lemma {:induction false} JoinIff(e: Engine, d: Document, xs: seq<Sql>, bs: seq<bool>)
    requires |xs| == |bs| > 0 && forall i :: 0 <= i < |xs| ==> ConjunctIff(e, d, xs[i], bs[i])
    ensures ConjunctIff(e, d, Join(AND, xs), forall i :: 0 <= i < |bs| ==> bs[i])
    ensures TrueIff(e, d, Join(OR, xs), exists i :: 0 <= i < |bs| && bs[i])
  {
    hide ConjunctIff, TrueIff;
    ConjunctIsPredicate(e, d, xs[0], bs[0]);
    if |xs| > 1 {
      JoinIff(e, d, xs[1..], bs[1..]);
      var all, some := forall i :: 0 <= i < |bs[1..]| ==> bs[1..][i], exists i :: 0 <= i < |bs[1..]| && bs[1..][i];
      BothIff(e, d, xs[0], bs[0], Join(AND, xs[1..]), all);
      EitherIff(e, d, xs[0], bs[0], Join(OR, xs[1..]), some);
      assert (bs[0] && all) <==> forall i :: 0 <= i < |bs| ==> bs[i] by {
        assert forall i :: 1 <= i < |bs| ==> bs[i] == bs[1..][i - 1];
      }
      assert (bs[0] || some) <==> exists i :: 0 <= i < |bs| && bs[i] by {
        if i :| 0 <= i < |bs| && bs[i] {
          assert i > 0 ==> bs[1..][i - 1];
        }
        if i :| 0 <= i < |bs[1..]| && bs[1..][i] {
          assert bs[i + 1];
        }
      }
    } else {
      assert bs[0] <==> forall i :: 0 <= i < |bs| ==> bs[i];
      assert bs[0] <==> exists i :: 0 <= i < |bs| && bs[i];
    }
  }

  // ----- every operator -----

  lemma EqualIff(h: Host, e: Engine, d: Document, k: string, v: PyVal)
    ensures TrueIff(e, d, EqualInline(h, k, v), SelectsEqual(h, e, d, k, v))
  {
    hide TrueIff, ConjunctIff;
    if v.PNone? {
      var a, b := KeyExists(k), IsBlank(k, NullJson);
      LeafIff(e, d, a);
      LeafIff(e, d, b);
      BothIff(e, d, [Atom(a)], Val(e, d, a) == True, [Atom(b)], Val(e, d, b) == True);
      assert [Atom(a)] + [AND] + [Atom(b)] == EqualInline(h, k, v);
      ConjunctIsPredicate(e, d, EqualInline(h, k, v), SelectsEqual(h, e, d, k, v));
    } else if v.PStr? && v.s == [] {
      LeafIff(e, d, IsBlank(k, EmptyText));
    } else if v.PStr? {
      var low := Inline(TextVal(h.Lower(v.s)));
      var a, b := LowerEquals(k, low), JsonExists(k, low);
      LeafIff(e, d, a);
      LeafIff(e, d, b);
      EitherIff(e, d, [Atom(a)], Val(e, d, a) == True, [Atom(b)], Val(e, d, b) == True);
      assert [Atom(a)] + [OR] + [Atom(b)] == EqualInline(h, k, v);
    } else {
      LeafIff(e, d, JsonHolds(k, Inline(JsonVal(v))));
    }
  }

  /** The three LIKE patterns mean substring, prefix and suffix of the lowered text. */
  lemma LikeIff(h: Host, e: Engine, d: Document, k: string, text: string)
    ensures var t := h.Lower(text);
            && (Val(e, d, LowerLike(k, Inline(TextVal("%" + Escape(LIKE, t) + "%")))) == True <==>
                Texts(e, d, k, s => Occurs(t, s)))
            && (Val(e, d, LowerLike(k, Inline(TextVal(Escape(LIKE, t) + "%")))) == True <==>
                Texts(e, d, k, s => t <= s))
            && (Val(e, d, LowerLike(k, Inline(TextVal("%" + Escape(LIKE, t))))) == True <==>
                Texts(e, d, k, s => EndsWith(s, t)))
  {
    hide Matches, Escape, Occurs, EndsWith;
    var t, id := h.Lower(text), (c: char) => c;
    var s := if TextAt(e, d, k).Some? then MapChars(e.lower, TextAt(e, d, k).value) else "";
    ContainsExact(LIKE, id, t, s);
    PrefixExact(LIKE, id, t, s);
    SuffixExact(LIKE, id, t, s);
    assert MapChars(id, t) == t && MapChars(id, s) == s;
  }

  lemma ContainsIff(h: Host, e: Engine, d: Document, k: string, text: string)
    ensures TrueIff(e, d, ContainsInline(h, k, text), SelectsContains(h, e, d, k, text))
  {
    hide TrueIff, ConjunctIff, Escape;
    var a := JsonExists(k, Inline(TextVal(h.Lower(text))));
    var b := LowerLike(k, Inline(TextVal("%" + Escape(LIKE, h.Lower(text)) + "%")));
    LeafIff(e, d, a);
    LeafIff(e, d, b);
    LikeIff(h, e, d, k, text);
    EitherIff(e, d, [Atom(a)], Val(e, d, a) == True, [Atom(b)], Val(e, d, b) == True);
    assert [Atom(a)] + [OR] + [Atom(b)] == ContainsInline(h, k, text);
  }

  /** `key exists AND (p) IS NOT TRUE` selects what has the key and misses p. */
  lemma NegateIff(e: Engine, d: Document, k: string, s: Sql, b: bool)
    requires TrueIff(e, d, s, b)
    ensures TrueIff(e, d, NegateInline(k, s), d(k).Some? && !b)
  {
    hide TrueIff, ConjunctIff;
    LeafIff(e, d, KeyExists(k));
    WrappedIff(e, d, s, b);
    BothIff(e, d, [Atom(KeyExists(k))], Val(e, d, KeyExists(k)) == True, NotTrueSql(s), !b);
    assert [Atom(KeyExists(k))] + [AND] + NotTrueSql(s) == NegateInline(k, s);
    ConjunctIsPredicate(e, d, NegateInline(k, s), d(k).Some? && !b);
  }

  lemma MembersIff(h: Host, e: Engine, d: Document, k: string, vs: seq<PyVal>)
    requires vs != []
    ensures TrueIff(e, d, Join(OR, MembersInline(h, k, vs, false)),
                    exists i :: 0 <= i < |vs| && SelectsEqual(h, e, d, k, vs[i]))
    ensures TrueIff(e, d, [Atom(KeyExists(k)), AND] + Join(AND, MembersInline(h, k, vs, true)),
                    d(k).Some? && forall i :: 0 <= i < |vs| ==> !SelectsEqual(h, e, d, k, vs[i]))
  {
    hide TrueIff, ConjunctIff, EqualInline, SelectsEqual, Join;
    var bs := seq(|vs|, i requires 0 <= i < |vs| => SelectsEqual(h, e, d, k, vs[i]));
    var nbs := seq(|vs|, i requires 0 <= i < |vs| => !SelectsEqual(h, e, d, k, vs[i]));
    var xs, ys := MembersInline(h, k, vs, false), MembersInline(h, k, vs, true);
    forall i | 0 <= i < |vs|
      ensures ConjunctIff(e, d, xs[i], bs[i]) && ConjunctIff(e, d, ys[i], nbs[i])
    {
      EqualIff(h, e, d, k, vs[i]);
      WrappedIff(e, d, EqualInline(h, k, vs[i]), bs[i]);
    }
    JoinIff(e, d, xs, bs);
    var some, any := exists i :: 0 <= i < |bs| && bs[i], exists i :: 0 <= i < |vs| && SelectsEqual(h, e, d, k, vs[i]);
    assert some == any by {
      if some {
        var i :| 0 <= i < |bs| && bs[i];
        assert SelectsEqual(h, e, d, k, vs[i]);
      }
      if any {
        var i :| 0 <= i < |vs| && SelectsEqual(h, e, d, k, vs[i]);
        assert bs[i];
      }
    }
    JoinIff(e, d, ys, nbs);
    var none := forall i :: 0 <= i < |nbs| ==> nbs[i];
    assert none == !any by {
      if any {
        var i :| 0 <= i < |vs| && SelectsEqual(h, e, d, k, vs[i]);
        assert !nbs[i];
      }
    }
    LeafIff(e, d, KeyExists(k));
    BothIff(e, d, [Atom(KeyExists(k))], Val(e, d, KeyExists(k)) == True, Join(AND, ys), none);
    assert [Atom(KeyExists(k))] + [AND] + Join(AND, ys) == [Atom(KeyExists(k)), AND] + Join(AND, ys);
    ConjunctIsPredicate(e, d, [Atom(KeyExists(k)), AND] + Join(AND, ys), d(k).Some? && none);
  }

  lemma LeavesIff(e: Engine, d: Document, ps: seq<Pred>)
    requires ps != []
    ensures TrueIff(e, d, Join(OR, Leaves(ps)), exists i :: 0 <= i < |ps| && Val(e, d, ps[i]) == True)
    ensures ConjunctIff(e, d, Join(AND, NotTrueLeaves(ps)), forall i :: 0 <= i < |ps| ==> Val(e, d, ps[i]) != True)
  {
    hide TrueIff, ConjunctIff, Val, Join;
    var bs := seq(|ps|, i requires 0 <= i < |ps| => Val(e, d, ps[i]) == True);
    var nbs := seq(|ps|, i requires 0 <= i < |ps| => Val(e, d, ps[i]) != True);
    forall i | 0 <= i < |ps|
      ensures ConjunctIff(e, d, Leaves(ps)[i], bs[i]) && ConjunctIff(e, d, NotTrueLeaves(ps)[i], nbs[i])
    {
      LeafIff(e, d, ps[i]);
      WrappedIff(e, d, [Atom(ps[i])], bs[i]);
    }
    JoinIff(e, d, Leaves(ps), bs);
    JoinIff(e, d, NotTrueLeaves(ps), nbs);
    assert forall i :: 0 <= i < |ps| ==> bs[i] == (Val(e, d, ps[i]) == True) && nbs[i] == (Val(e, d, ps[i]) != True);
    var some, any := exists i :: 0 <= i < |bs| && bs[i], exists i :: 0 <= i < |ps| && Val(e, d, ps[i]) == True;
    assert some == any by {
      if some {
        var i :| 0 <= i < |bs| && bs[i];
        assert Val(e, d, ps[i]) == True;
      }
      if any {
        var i :| 0 <= i < |ps| && Val(e, d, ps[i]) == True;
        assert bs[i];
      }
    }
    assert (forall i :: 0 <= i < |nbs| ==> nbs[i]) == (forall i :: 0 <= i < |ps| ==> Val(e, d, ps[i]) != True) by {
      if any {
        var i :| 0 <= i < |ps| && Val(e, d, ps[i]) == True;
        assert !nbs[i];
      }
    }
  }

  lemma BlankTests(e: Engine, d: Document, k: string)
    ensures (exists i :: 0 <= i < 4 && Val(e, d, Blanks(k)[i]) == True) <==> d(k).Some? && BlankValue(d(k).value)
  {
    var ps := Blanks(k);
    assert Val(e, d, ps[0]) == if d(k).None? then Null else Of(d(k).value == JNull);
    assert Val(e, d, ps[1]) == if d(k).None? then Null else Of(d(k).value == JText(""));
    assert Val(e, d, ps[2]) == if d(k).None? then Null else Of(d(k).value == JArray([]));
    assert Val(e, d, ps[3]) == if d(k).None? then Null else Of(d(k).value == JObject(map[]));
  }

  lemma MissingOrBlank(e: Engine, d: Document, k: string)
    ensures var qs := [KeyMissing(k)] + Blanks(k);
            (exists i :: 0 <= i < |qs| && Val(e, d, qs[i]) == True) <==>
            d(k).None? || (d(k).Some? && BlankValue(d(k).value))
  {
    var ps, qs := Blanks(k), [KeyMissing(k)] + Blanks(k);
    BlankTests(e, d, k);
    assert Val(e, d, qs[0]) == Of(d(k).None?);
    hide Val, Blanks, BlankValue;
    if i :| 0 <= i < |qs| && Val(e, d, qs[i]) == True {
      assert i > 0 ==> qs[i] == ps[i - 1];
    }
    if i :| 0 <= i < 4 && Val(e, d, ps[i]) == True {
      assert qs[i + 1] == ps[i];
    }
  }

  lemma EmptyIff(e: Engine, d: Document, k: string)
    ensures TrueIff(e, d, EmptySql(k), d(k).None? || BlankValue(d(k).value))
    ensures TrueIff(e, d, NotEmptySql(k), d(k).Some? && !BlankValue(d(k).value))
  {
    hide TrueIff, ConjunctIff, Join, Leaves, NotTrueLeaves, BlankValue, Val;
    var ps, qs := Blanks(k), [KeyMissing(k)] + Blanks(k);
    BlankTests(e, d, k);
    MissingOrBlank(e, d, k);
    LeavesIff(e, d, ps);
    LeavesIff(e, d, qs);
    var blank := d(k).Some? && BlankValue(d(k).value);
    LeafIff(e, d, KeyExists(k));
    KeyExistsValue(e, d, k);
    BothIff(e, d, [Atom(KeyExists(k))], Val(e, d, KeyExists(k)) == True, Join(AND, NotTrueLeaves(ps)), !blank);
    assert [Atom(KeyExists(k))] + [AND] + Join(AND, NotTrueLeaves(ps)) == NotEmptySql(k);
    ConjunctIsPredicate(e, d, NotEmptySql(k), d(k).Some? && !blank);
  }

  lemma KeyExistsValue(e: Engine, d: Document, k: string)
    ensures Val(e, d, KeyExists(k)) == Of(d(k).Some?)
  {
  }

  lemma {:induction false} CoercedMembers(h: Host, ms: seq<PyVal>)
    requires CoerceMembers(h, ms).Ok?
    ensures |CoerceMembers(h, ms).value| == |ms|
  {
    if ms == [] {
    } else {
      CoercedMembers(h, ms[1..]);
    }
  }

  /** Every filter, with its values written in, is true exactly of the documents
      it is meant to select. */
  lemma FilterIff(h: Host, e: Engine, rd: Reading, d: Document, f: Filter)
    requires Translate(h, rd, f).Ok?
    ensures TrueIff(e, d, InlineSql(h, rd, f), Selects(h, e, rd, d, f))
  {
    hide TrueIff, ConjunctIff, EqualInline, ContainsInline, SelectsEqual, SelectsContains, Escape, Join, CoerceScalar;
    var k := f.key;
    match f.op
    case Empty => EmptyIff(e, d, k);
    case NotEmpty => EmptyIff(e, d, k);
    case Eq => EqualIff(h, e, d, k, CoerceScalar(h, f.value).value);
    case Ne =>
      var v := CoerceScalar(h, f.value).value;
      EqualIff(h, e, d, k, v);
      NegateIff(e, d, k, EqualInline(h, k, v), SelectsEqual(h, e, d, k, v));
    case Range(op) =>
      var v := CoerceRange(h, rd, f.value).value;
      LeafIff(e, d, if v.TextVal? then TimeCompare(k, op, Inline(v)) else NumberCompare(k, op, Inline(v)));
    case In =>
      CoercedMembers(h, GaussFilter.RawMembers(h, f.value));
      MembersIff(h, e, d, k, MembershipValues(h, f.value).value);
    case NotIn =>
      CoercedMembers(h, GaussFilter.RawMembers(h, f.value));
      MembersIff(h, e, d, k, MembershipValues(h, f.value).value);
    case Contains => ContainsIff(h, e, d, k, h.Str(f.value));
    case NotContains =>
      ContainsIff(h, e, d, k, h.Str(f.value));
      NegateIff(e, d, k, ContainsInline(h, k, h.Str(f.value)), SelectsContains(h, e, d, k, h.Str(f.value)));
    case StartWith =>
      LikeIff(h, e, d, k, h.Str(f.value));
      LeafIff(e, d, LowerLike(k, Inline(TextVal(Escape(LIKE, h.Lower(h.Str(f.value))) + "%"))));
    case EndWith =>
      LikeIff(h, e, d, k, h.Str(f.value));
      LeafIff(e, d, LowerLike(k, Inline(TextVal("%" + Escape(LIKE, h.Lower(h.Str(f.value)))))));
  }

  // ----- the whole predicate -----

  /** The database's answer: the statement with its bound parameters is true. */
  ghost predicate Answer(e: Engine, d: Document, p: Piece) {
    Evaluate(Valuation(e, d), Fill(p.sql, p.params)) == Value(True)
  }

  lemma TrueIffAnswers(e: Engine, d: Document, p: Piece, s: Sql, b: bool)
    requires LinesUp(p, s) && TrueIff(e, d, s, b)
    ensures Answer(e, d, p) <==> b
    ensures Evaluate(Valuation(e, d), Fill(p.sql, p.params)) != Malformed
  {
    hide IsOr, Evaluate;
    var v :| IsOr(Valuation(e, d), s, v) && (v == True <==> b);
    OrEvaluates(Valuation(e, d), s, v);
  }

  /** Push-down to GaussDB, end to end: for every document, every list of filters
      it accepts and either logic, the bound statement reads back as a predicate
      and is true exactly of the documents selected by all, or by some, filters. */
  lemma PlanSelects(h: Host, e: Engine, rd: Reading, d: Document, fs: seq<Filter>, logic: string, ps: seq<Piece>)
    requires |ps| == |fs| && forall i :: 0 <= i < |fs| ==> Translate(h, rd, fs[i]) == Ok(ps[i])
    ensures Answer(e, d, Predicate(ps, logic)) <==>
            fs == [] || if logic == "and" then forall i :: 0 <= i < |fs| ==> Selects(h, e, rd, d, fs[i])
                        else exists i :: 0 <= i < |fs| && Selects(h, e, rd, d, fs[i])
    ensures Evaluate(Valuation(e, d), Fill(Predicate(ps, logic).sql, Predicate(ps, logic).params)) != Malformed
  {
    hide TrueIff, ConjunctIff, Translate, Selects, InlineSql, Join, LinesUp, Answer, Evaluate;
    PlanLinesUp(h, rd, fs, logic, ps);
    var s, p := PlanInline(h, rd, fs, logic), Predicate(ps, logic);
    if fs == [] {
      LeafIff(e, d, OneIsOne);
      TrueIffAnswers(e, d, p, s, true);
    } else {
      var xs := seq(|fs|, i requires 0 <= i < |fs| => Paren(InlineSql(h, rd, fs[i])));
      var bs := seq(|fs|, i requires 0 <= i < |fs| => Selects(h, e, rd, d, fs[i]));
      forall i | 0 <= i < |fs|
        ensures ConjunctIff(e, d, xs[i], bs[i])
      {
        FilterIff(h, e, rd, d, fs[i]);
        WrappedIff(e, d, InlineSql(h, rd, fs[i]), bs[i]);
      }
      JoinIff(e, d, xs, bs);
      var all, some := forall i :: 0 <= i < |bs| ==> bs[i], exists i :: 0 <= i < |bs| && bs[i];
      assert forall i :: 0 <= i < |fs| ==> bs[i] == Selects(h, e, rd, d, fs[i]);
      assert all == forall i :: 0 <= i < |fs| ==> Selects(h, e, rd, d, fs[i]) by {
        forall i | 0 <= i < |fs| && all
          ensures Selects(h, e, rd, d, fs[i])
        {
          assert bs[i];
        }
      }
      assert some == exists i :: 0 <= i < |fs| && Selects(h, e, rd, d, fs[i]) by {
        if some {
          var i :| 0 <= i < |bs| && bs[i];
          assert Selects(h, e, rd, d, fs[i]);
        }
        if i :| 0 <= i < |fs| && Selects(h, e, rd, d, fs[i]) {
          assert bs[i];
        }
      }
      if logic == "and" {
        ConjunctIsPredicate(e, d, Join(AND, xs), all);
        TrueIffAnswers(e, d, p, s, all);
      } else {
        TrueIffAnswers(e, d, p, s, some);
      }
    }
  }

  // ----- negation is a complement -----

  /** The statement one filter sends. */
  ghost predicate Asks(h: Host, e: Engine, rd: Reading, d: Document, f: Filter) {
    Translate(h, rd, f).Ok? && Answer(e, d, Translate(h, rd, f).value)
  }

  lemma AsksSelects(h: Host, e: Engine, rd: Reading, d: Document, f: Filter)
    requires Translate(h, rd, f).Ok?
    ensures Asks(h, e, rd, d, f) <==> Selects(h, e, rd, d, f)
  {
    hide TrueIff, LinesUp, Translate, InlineSql, Selects;
    FilterLinesUp(h, rd, f);
    FilterIff(h, e, rd, d, f);
    TrueIffAnswers(e, d, Translate(h, rd, f).value, InlineSql(h, rd, f), Selects(h, e, rd, d, f));
  }

  function Opposite(op: Op): Op {
    match op
    case Eq => Ne
    case In => NotIn
    case Contains => NotContains
    case _ => op
  }

  predicate ExactlyOne(a: bool, b: bool, c: bool) {
    (a && !b && !c) || (!a && b && !c) || (!a && !b && c)
  }

  /** For every document (missing path, JSON null, scalar, array, object) and every
      accepted value, exactly one of "path missing", the positive and the negative
      operator selects it. */
  lemma NegationIsComplement(h: Host, e: Engine, rd: Reading, d: Document, k: string, op: Op, value: PyVal)
    requires op.Eq? || op.In? || op.Contains?
    requires Translate(h, rd, Filter(k, op, value)).Ok?
    ensures Translate(h, rd, Filter(k, Opposite(op), value)).Ok?
    ensures ExactlyOne(d(k).None?, Asks(h, e, rd, d, Filter(k, op, value)),
                       Asks(h, e, rd, d, Filter(k, Opposite(op), value)))
  {
    AsksSelects(h, e, rd, d, Filter(k, op, value));
    AsksSelects(h, e, rd, d, Filter(k, Opposite(op), value));
    hide Asks;
    SelectsOnlyPresent(h, e, rd, d, Filter(k, op, value));
  }

  lemma SelectsOnlyPresent(h: Host, e: Engine, rd: Reading, d: Document, f: Filter)
    requires Translate(h, rd, f).Ok? && !f.op.Empty?
    ensures Selects(h, e, rd, d, f) ==> d(f.key).Some?
  {
  }

  /** A filter sees only what stands under its key. */
  lemma SameSelects(h: Host, e: Engine, rd: Reading, d: Document, d': Document, f: Filter)
    requires Translate(h, rd, f).Ok? && d(f.key) == d'(f.key)
    ensures Selects(h, e, rd, d, f) <==> Selects(h, e, rd, d', f)
  {
    var k := f.key;
    assert TextAt(e, d, k) == TextAt(e, d', k);
    forall v ensures SelectsEqual(h, e, d, k, v) <==> SelectsEqual(h, e, d', k, v) {
    }
    hide TextAt, SelectsEqual, Translate, MembershipValues, StringIn, BlankValue;
  }

  /** `empty` and `not empty` split all documents, and neither is ever unknown. */
  lemma EmptyPartitions(h: Host, e: Engine, rd: Reading, d: Document, k: string, v: PyVal, w: PyVal)
    requires ValidKey(k)
    ensures Asks(h, e, rd, d, Filter(k, Empty, v)) <==> !Asks(h, e, rd, d, Filter(k, NotEmpty, w))
    ensures Evaluate(Valuation(e, d), EmptySql(k)) in {Value(True), Value(False)}
    ensures Evaluate(Valuation(e, d), NotEmptySql(k)) in {Value(True), Value(False)}
  {
    AsksSelects(h, e, rd, d, Filter(k, Empty, v));
    AsksSelects(h, e, rd, d, Filter(k, NotEmpty, w));
    EmptyDefinite(e, d, k);
  }

  lemma EmptyDefinite(e: Engine, d: Document, k: string)
    ensures Evaluate(Valuation(e, d), EmptySql(k)) in {Value(True), Value(False)}
    ensures Evaluate(Valuation(e, d), NotEmptySql(k)) in {Value(True), Value(False)}
  {
    hide IsAnd, IsOr, Evaluate, Join, Val;
    var val := Valuation(e, d);
    var ps, qs := Blanks(k), [KeyMissing(k)] + Blanks(k);
    var xs, vs := Leaves(qs), seq(5, i requires 0 <= i < 5 => val(qs[i]));
    var ys, ws := NotTrueLeaves(ps), seq(4, i requires 0 <= i < 4 => NotTrue(val(ps[i])));
    forall i | 0 <= i < 5
      ensures IsOr(val, xs[i], vs[i])
    {
      LeafMeans(val, qs[i]);
    }
    forall i | 0 <= i < 4
      ensures IsAnd(val, ys[i], ws[i])
    {
      LeafMeans(val, ps[i]);
      ParenMeans(val, [Atom(ps[i])], val(ps[i]));
    }
    JoinOr(val, xs, vs);
    OrEvaluates(val, EmptySql(k), OrAll(vs));
    JoinAnd(val, ys, ws);
    LeafMeans(val, KeyExists(k));
    AndAnd(val, [Atom(KeyExists(k))], val(KeyExists(k)), Join(AND, ys), AndAll(ws));
    assert [Atom(KeyExists(k))] + [AND] + Join(AND, ys) == NotEmptySql(k);
    var v := And3(val(KeyExists(k)), AndAll(ws));
    AndIsOr(val, NotEmptySql(k), v);
    OrEvaluates(val, NotEmptySql(k), v);
    KeyExistsValue(e, d, k);
    OrAllTrue(vs);
    AndAllTrue(ws);
    TestsKnown(e, d, k);
    if d(k).None? {
      assert vs[0] == True;
    }
  }

  /** Only a missing path makes a test unknown, and then the first one is true. */
  lemma TestsKnown(e: Engine, d: Document, k: string)
    ensures var qs := [KeyMissing(k)] + Blanks(k);
            && (d(k).None? ==> Val(e, d, qs[0]) == True)
            && (d(k).Some? ==> forall i :: 0 <= i < 5 ==> Val(e, d, qs[i]) != Null)
  {
  }
}
