/** The whole GaussDB statement: what the driver makes of the keys written into it, and
    range filters as comparisons of moments. */
module GaussStatement {
  import opened Text
  import opened Python
  import opened MetaFilter
  import opened Coercion
  import opened SqlSyntax
  import opened GaussFilter
  import opened GaussProofs
  import opened GaussText
  import JsonPath
  import Patterns
  import GaussDates

  // ----- percent signs come from keys only -----

  lemma {:induction false} SqlBitsConcat(a: Sql, b: Sql)
    ensures SqlBits(a + b) == SqlBits(a) + SqlBits(b)
  {
    hide TokenParts, Bits, PathBits, KeyOf;
    if a == [] {
      assert a + b == b;
    } else {
      assert (a + b)[1..] == a[1..] + b;
      SqlBitsConcat(a[1..], b);
      var head := Bits(TokenParts(a[0]), PathBits(KeyOf(a[0])));
      assert SqlBits(a + b) == head + SqlBits(a[1..] + b) && SqlBits(a) == head + SqlBits(a[1..]);
      hide SqlBits;
      assert head + (SqlBits(a[1..]) + SqlBits(b)) == (head + SqlBits(a[1..])) + SqlBits(b);
    }
  }

  /** The text holds a percent sign exactly when the key does. */
  ghost predicate Carries(s: Sql, k: string) {
    Percent(SqlBits(s)) <==> '%' in k
  }

  lemma TokenHolds(t: Token<Pred>)
    ensures Percent(SqlBits([t])) <==> '%' in KeyOf(t)
  {
    WritesPath(t);
    PathHolds(KeyOf(t));
    PartsHold(TokenParts(t), PathBits(KeyOf(t)));
    assert [t][1..] == [];
    hide TokenParts, PathBits, Bits, Percent;
    assert SqlBits([t]) == Bits(TokenParts(t), PathBits(KeyOf(t)));
  }

  lemma ConcatCarries(a: Sql, b: Sql)
    ensures Percent(SqlBits(a + b)) <==> Percent(SqlBits(a)) || Percent(SqlBits(b))
  {
    SqlBitsConcat(a, b);
    ConcatHolds(SqlBits(a), SqlBits(b));
  }

  lemma AtomCarries(p: Pred)
    requires !p.OneIsOne?
    ensures Carries([Atom(p)], p.key)
  {
    TokenHolds(Atom(p));
  }

  lemma BetweenCarries(a: Sql, t: Token<Pred>, b: Sql, k: string)
    requires !t.Atom? && Carries(a, k) && Carries(b, k)
    ensures Carries(a + [t] + b, k)
  {
    TokenHolds(t);
    ConcatCarries(a, [t]);
    ConcatCarries(a + [t], b);
  }

  lemma WrappedCarries(s: Sql)
    ensures Percent(SqlBits(Paren(s))) <==> Percent(SqlBits(s))
    ensures Percent(SqlBits(NotTrueSql(s))) <==> Percent(SqlBits(s))
  {
    TokenHolds(LP);
    TokenHolds(RP);
    TokenHolds(ISNOTTRUE);
    hide SqlBits, Percent;
    ConcatCarries([LP], s);
    ConcatCarries([LP] + s, [RP]);
    ConcatCarries(Paren(s), [ISNOTTRUE]);
  }

  lemma {:induction false} JoinHolds(sep: Token<Pred>, xs: seq<Sql>)
    requires !sep.Atom? && xs != []
    ensures Percent(SqlBits(Join(sep, xs))) <==> exists i :: 0 <= i < |xs| && Percent(SqlBits(xs[i]))
  {
    hide SqlBits, Percent;
    if |xs| == 1 {
      assert Join(sep, xs) == xs[0];
    } else {
      TokenHolds(sep);
      JoinHolds(sep, xs[1..]);
      ConcatCarries(xs[0], [sep]);
      ConcatCarries(xs[0] + [sep], Join(sep, xs[1..]));
      hide Join;
      if i :| 0 < i < |xs| && Percent(SqlBits(xs[i])) {
        assert xs[1..][i - 1] == xs[i];
      }
      if i :| 0 <= i < |xs[1..]| && Percent(SqlBits(xs[1..][i])) {
        assert xs[i + 1] == xs[1..][i];
      }
    }
  }

  lemma JoinCarries(sep: Token<Pred>, xs: seq<Sql>, k: string)
    requires !sep.Atom? && xs != [] && forall i :: 0 <= i < |xs| ==> Carries(xs[i], k)
    ensures Carries(Join(sep, xs), k)
  {
    JoinHolds(sep, xs);
    hide SqlBits, Percent, Join;
    assert Carries(xs[0], k);
  }

  lemma PairCarries(p: Pred, t: Token<Pred>, q: Pred, k: string)
    requires !t.Atom? && !p.OneIsOne? && !q.OneIsOne? && p.key == k == q.key
    ensures Carries([Atom(p), t, Atom(q)], k)
  {
    hide Carries;
    AtomCarries(p);
    AtomCarries(q);
    BetweenCarries([Atom(p)], t, [Atom(q)], k);
    assert [Atom(p)] + [t] + [Atom(q)] == [Atom(p), t, Atom(q)];
  }

  lemma EqualCarries(h: Host, k: string, v: PyVal)
    ensures Carries(EqualPiece(h, k, v).sql, k)
  {
    hide Carries;
    if v.PNone? {
      PairCarries(KeyExists(k), AND, IsBlank(k, NullJson), k);
    } else if v.PStr? && v.s == [] {
      AtomCarries(IsBlank(k, EmptyText));
    } else if v.PStr? {
      PairCarries(LowerEquals(k, Hole), OR, JsonExists(k, Hole), k);
    } else {
      AtomCarries(JsonHolds(k, Hole));
    }
  }

  lemma ContainsCarries(h: Host, k: string, text: string)
    ensures Carries(ContainsPiece(h, k, text).sql, k)
  {
    hide Carries;
    PairCarries(JsonExists(k, Hole), OR, LowerLike(k, Hole), k);
  }

  lemma NegateCarries(k: string, p: Piece)
    requires Carries(p.sql, k)
    ensures Carries(Negate(k, p).sql, k)
  {
    hide SqlBits, Percent;
    AtomCarries(KeyExists(k));
    WrappedCarries(p.sql);
    BetweenCarries([Atom(KeyExists(k))], AND, NotTrueSql(p.sql), k);
    hide Carries, NotTrueSql;
    assert [Atom(KeyExists(k)), AND] + NotTrueSql(p.sql) == [Atom(KeyExists(k))] + [AND] + NotTrueSql(p.sql);
  }

  lemma MembersCarry(h: Host, k: string, vs: seq<PyVal>, negate: bool)
    requires vs != []
    ensures Carries(Join(if negate then AND else OR, MemberFragments(h, k, vs, negate)), k)
    ensures Carries([Atom(KeyExists(k)), AND] + Join(AND, MemberFragments(h, k, vs, true)), k)
  {
    hide SqlBits, Percent, EqualPiece, Join;
    forall neg: bool, i | 0 <= i < |vs| ensures Carries(MemberFragments(h, k, vs, neg)[i], k) {
      EqualCarries(h, k, vs[i]);
      WrappedCarries(EqualPiece(h, k, vs[i]).sql);
    }
    JoinCarries(if negate then AND else OR, MemberFragments(h, k, vs, negate), k);
    JoinCarries(AND, MemberFragments(h, k, vs, true), k);
    AtomCarries(KeyExists(k));
    var s := Join(AND, MemberFragments(h, k, vs, true));
    BetweenCarries([Atom(KeyExists(k))], AND, s, k);
    assert [Atom(KeyExists(k)), AND] + s == [Atom(KeyExists(k))] + [AND] + s;
  }

  lemma LeavesCarry(ps: seq<Pred>, k: string)
    requires ps != [] && forall i :: 0 <= i < |ps| ==> !ps[i].OneIsOne? && ps[i].key == k
    ensures Carries(Join(OR, Leaves(ps)), k) && Carries(Join(AND, NotTrueLeaves(ps)), k)
  {
    hide SqlBits, Percent, Join;
    forall i | 0 <= i < |ps| ensures Carries(Leaves(ps)[i], k) && Carries(NotTrueLeaves(ps)[i], k) {
      AtomCarries(ps[i]);
      WrappedCarries([Atom(ps[i])]);
    }
    JoinCarries(OR, Leaves(ps), k);
    JoinCarries(AND, NotTrueLeaves(ps), k);
  }

  lemma EmptyCarries(k: string)
    ensures Carries(EmptySql(k), k) && Carries(NotEmptySql(k), k)
  {
    hide Carries, Join, Leaves, NotTrueLeaves;
    LeavesCarry([KeyMissing(k)] + Blanks(k), k);
    LeavesCarry(Blanks(k), k);
    AtomCarries(KeyExists(k));
    var s := Join(AND, NotTrueLeaves(Blanks(k)));
    BetweenCarries([Atom(KeyExists(k))], AND, s, k);
    assert [Atom(KeyExists(k)), AND] + s == [Atom(KeyExists(k))] + [AND] + s;
  }

  lemma MembersSome(h: Host, v: PyVal)
    requires MembershipValues(h, v).Ok?
    ensures MembershipValues(h, v).value != []
  {
    CoercedMembers(h, GaussFilter.RawMembers(h, v));
  }

  /** The text of one filter holds a percent sign exactly when its key does. */
  lemma FilterCarries(h: Host, rd: Reading, f: Filter)
    requires Translate(h, rd, f).Ok?
    ensures Carries(Translate(h, rd, f).value.sql, f.key)
  {
    hide Carries, EqualPiece, ContainsPiece, Negate, MemberFragments, MembershipValues, EmptySql, NotEmptySql, Join;
    var k := f.key;
    match f.op
    case Empty => EmptyCarries(k);
    case NotEmpty => EmptyCarries(k);
    case Eq => EqualCarries(h, k, GaussFilter.CoerceScalar(h, f.value).value);
    case Ne =>
      EqualCarries(h, k, GaussFilter.CoerceScalar(h, f.value).value);
      NegateCarries(k, EqualPiece(h, k, GaussFilter.CoerceScalar(h, f.value).value));
    case Range(op) =>
      AtomCarries(TimeCompare(k, op, Hole));
      AtomCarries(NumberCompare(k, op, Hole));
    case In =>
      MembersSome(h, f.value);
      MembersCarry(h, k, MembershipValues(h, f.value).value, false);
    case NotIn =>
      MembersSome(h, f.value);
      MembersCarry(h, k, MembershipValues(h, f.value).value, true);
    case Contains => ContainsCarries(h, k, CoerceString(h, f.value).value);
    case NotContains =>
      ContainsCarries(h, k, CoerceString(h, f.value).value);
      NegateCarries(k, ContainsPiece(h, k, CoerceString(h, f.value).value));
    case StartWith => AtomCarries(LowerLike(k, Hole));
    case EndWith => AtomCarries(LowerLike(k, Hole));
  }

  /** So does the text of the whole predicate, for some filter. */
  lemma PlanHolds(h: Host, rd: Reading, fs: seq<Filter>, logic: string, ps: seq<Piece>)
    requires |ps| == |fs| && forall i :: 0 <= i < |fs| ==> Translate(h, rd, fs[i]) == Ok(ps[i])
    ensures Percent(SqlBits(Predicate(ps, logic).sql)) <==> exists i :: 0 <= i < |fs| && '%' in fs[i].key
  {
    hide SqlBits, Percent, Translate, Join;
    if fs == [] {
      TokenHolds(Atom(OneIsOne));
    } else {
      forall i | 0 <= i < |fs| ensures Percent(SqlBits(Parens(ps)[i])) <==> '%' in fs[i].key {
        FilterCarries(h, rd, fs[i]);
        WrappedCarries(ps[i].sql);
      }
      JoinHolds(Joiner(logic), Parens(ps));
    }
  }

  // ----- the statement -----

  lemma {:induction false} KbPlacesClean(n: nat)
    ensures !Percent(KbPlaces(n))
  {
    if n <= 1 {
    } else {
      KbPlacesClean(n - 1);
      CharsHold(", ");
    }
  }

  lemma HeadClean(table: string, n: nat)
    requires '%' !in table
    ensures !Percent(Head(table, n))
  {
    KbPlacesClean(n);
    CharsHold("SELECT id FROM ");
    CharsHold(table);
    CharsHold(" WHERE kb_id IN (");
    hide Percent, KbPlaces, Chars;
    var a, b := Chars("SELECT id FROM "), Chars(" WHERE kb_id IN (");
    ConcatHolds(a, Chars(table));
    ConcatHolds(a + Chars(table), b);
    ConcatHolds(a + Chars(table) + b, KbPlaces(n));
  }

  lemma StatementHolds(table: string, n: nat, s: Sql)
    requires '%' !in table
    ensures Percent(Statement(table, n, s)) <==> Percent(SqlBits(s))
  {
    HeadClean(table, n);
    CharsHold(") AND (");
    CharsHold(") ORDER BY id LIMIT ");
    NoPercent();
    hide Percent, Chars, Head, SqlBits;
    var a, b, c := Head(table, n), Chars(") AND ("), Chars(") ORDER BY id LIMIT ");
    ConcatHolds(a, b);
    ConcatHolds(a + b, SqlBits(s));
    ConcatHolds(a + b + SqlBits(s), c);
    ConcatHolds(a + b + SqlBits(s) + c, [Param]);
  }

  /** The driver reads the statement as it is meant (its text and the places of its
      parameters) if and only if no key holds a percent sign. */
  lemma StatementReadsIff(dr: Driver, h: Host, rd: Reading, table: string, n: nat, fs: seq<Filter>, logic: string,
                          ps: seq<Piece>)
    requires dr.Sane() && '%' !in table
    requires |ps| == |fs| && forall i :: 0 <= i < |fs| ==> Translate(h, rd, fs[i]) == Ok(ps[i])
    ensures var st := Statement(table, n, Predicate(ps, logic).sql);
      ReadText(dr, Written(st)) == Some(st) <==> forall i :: 0 <= i < |fs| ==> '%' !in fs[i].key
  {
    hide Statement, Predicate, Translate;
    PlanHolds(h, rd, fs, logic, ps);
    StatementHolds(table, n, Predicate(ps, logic).sql);
    ReadsAsMeantIff(dr, Statement(table, n, Predicate(ps, logic).sql));
  }

  // ----- how many parameters it takes -----

  function Params(bits: seq<Bit>): nat {
    if bits == [] then 0 else (if bits[0].Param? then 1 else 0) + Params(bits[1..])
  }

  lemma {:induction false} ParamsConcat(a: seq<Bit>, b: seq<Bit>)
    ensures Params(a + b) == Params(a) + Params(b)
  {
    if a == [] {
      assert a + b == b;
    } else {
      assert (a + b)[1..] == a[1..] + b;
      ParamsConcat(a[1..], b);
    }
  }

  lemma {:induction false} CharsTakeNone(s: string)
    ensures Params(Chars(s)) == 0
  {
    if s == [] {
    } else {
      assert Chars(s)[1..] == Chars(s[1..]);
      CharsTakeNone(s[1..]);
    }
  }

  function PlaceCount(xs: seq<Part>): nat {
    if xs == [] then 0 else (if xs[0].Place? then 1 else 0) + PlaceCount(xs[1..])
  }

  lemma {:induction false} PartsTake(xs: seq<Part>, path: seq<Bit>)
    requires Params(path) == 0
    ensures Params(Bits(xs, path)) == PlaceCount(xs)
  {
    if xs == [] {
    } else {
      PartsTake(xs[1..], path);
      ParamsConcat(PartBits(xs[0], path), Bits(xs[1..], path));
      if xs[0].Fixed? {
        CharsTakeNone(Spelled(xs[0].w));
      }
      assert [Param][1..] == [];
    }
  }

  lemma {:induction false} PlaceConcat(a: seq<Part>, b: seq<Part>)
    ensures PlaceCount(a + b) == PlaceCount(a) + PlaceCount(b)
  {
    if a == [] {
      assert a + b == b;
    } else {
      assert (a + b)[1..] == a[1..] + b;
      PlaceConcat(a[1..], b);
    }
  }

  lemma {:induction false} OnePlace(xs: seq<Part>, i: nat)
    requires i < |xs| && forall j :: 0 <= j < |xs| && j != i ==> !xs[j].Place?
    ensures PlaceCount(xs) == if xs[i].Place? then 1 else 0
  {
    if i == 0 {
      NoPlace(xs[1..]);
    } else {
      OnePlace(xs[1..], i - 1);
    }
  }

  lemma {:induction false} NoPlace(xs: seq<Part>)
    requires forall j :: 0 <= j < |xs| ==> !xs[j].Place?
    ensures PlaceCount(xs) == 0
  {
    if xs == [] {
    } else {
      NoPlace(xs[1..]);
    }
  }

  lemma BranchPlaces(shape: seq<Word>, replaced: bool, rest: seq<Word>)
    ensures forall j :: 0 <= j < |Branch(shape, replaced, rest)| ==> !Branch(shape, replaced, rest)[j].Place?
  {
  }

  lemma DatetimePlaces()
    ensures forall j :: 0 <= j < |DatetimeParts()| ==> !DatetimeParts()[j].Place?
  {
    BranchPlaces([D4, DASH, D2], false, [PLUS, FIRST_DAY, HOUR_0, ZEROS, ZEROS, QUOTE]);
    BranchPlaces(DATE, false, [PLUS, HOUR_0, ZEROS, ZEROS, QUOTE]);
    BranchPlaces(DATE + [T_OR_BLANK, D2], true, [PLUS, ZEROS, ZEROS, QUOTE]);
    BranchPlaces(DATE + [T_OR_BLANK, D2, COLON, D2], true, [PLUS, ZEROS, QUOTE]);
    BranchPlaces(DATE + [T_OR_BLANK, D2, COLON, D2, COLON, D2], true, []);
    hide Branch;
  }

  lemma PredPlaces(p: Pred)
    ensures PlaceCount(PredParts(p)) == if HasHole(p) then 1 else 0
  {
    hide PlaceCount, DatetimeParts;
    var xs := PredParts(p);
    match p
    case LowerEquals(_, a) => OnePlace(xs, 4);
    case JsonExists(_, a) => OnePlace(xs, 4);
    case JsonHolds(_, a) => OnePlace(xs, 3);
    case LowerLike(_, a) => OnePlace(xs, 4);
    case TimeCompare(_, c, a) =>
      DatetimePlaces();
      OnePlace(xs, |DatetimeParts()| + 2);
    case NumberCompare(_, c, a) => OnePlace(xs, 12);
    case _ => NoPlace(xs);
  }

  lemma TokenPlaces(t: Token<Pred>)
    ensures PlaceCount(TokenParts(t)) == if HoleToken(t) then 1 else 0
  {
    hide PlaceCount, PredParts;
    if t.Atom? {
      PredPlaces(t.a);
    } else {
      NoPlace(TokenParts(t));
    }
  }

  lemma {:induction false} SqlTakes(s: Sql)
    ensures Params(SqlBits(s)) == Holes(s)
  {
    hide TokenParts, Bits, PathBits;
    if s == [] {
    } else {
      var path := PathBits(KeyOf(s[0]));
      PathTakesNone(KeyOf(s[0]));
      TokenPlaces(s[0]);
      PartsTake(TokenParts(s[0]), path);
      ParamsConcat(Bits(TokenParts(s[0]), path), SqlBits(s[1..]));
      SqlTakes(s[1..]);
    }
  }

  lemma PathTakesNone(k: string)
    ensures Params(PathBits(k)) == 0
  {
    CharsTakeNone(JsonPath.PathLiteral(k));
  }

  lemma {:induction false} KbPlacesTake(n: nat)
    ensures Params(KbPlaces(n)) == n
  {
    if n <= 1 {
      assert [Param][1..] == [];
    } else {
      KbPlacesTake(n - 1);
      CharsTakeNone(", ");
      ParamsConcat([Param] + Chars(", "), KbPlaces(n - 1));
      ParamsConcat([Param], Chars(", "));
      assert [Param][1..] == [];
    }
  }

  lemma EnclosedTakes(table: string, n: nat, bits: seq<Bit>)
    ensures Params(Enclosed(table, n, bits)) == n + Params(bits) + 1
  {
    KbPlacesTake(n);
    CharsTakeNone("SELECT id FROM ");
    CharsTakeNone(table);
    CharsTakeNone(" WHERE kb_id IN (");
    CharsTakeNone(") AND (");
    CharsTakeNone(") ORDER BY id LIMIT ");
    hide Chars, KbPlaces, Params;
    OneTaken();
    var a, b, c, d, e := Chars("SELECT id FROM "), Chars(table), Chars(" WHERE kb_id IN ("), Chars(") AND ("),
                         Chars(") ORDER BY id LIMIT ");
    ParamsConcat(a, b);
    ParamsConcat(a + b, c);
    ParamsConcat(a + b + c, KbPlaces(n));
    ParamsConcat(Head(table, n), d);
    ParamsConcat(Head(table, n) + d, bits);
    ParamsConcat(Head(table, n) + d + bits, e);
    ParamsConcat(Head(table, n) + d + bits + e, [Param]);
  }

  /** The statement takes the knowledge bases, the filter parameters and the limit: as
      many as are passed. */
  lemma StatementTakes(h: Host, rd: Reading, table: string, n: nat, fs: seq<Filter>, logic: string, ps: seq<Piece>)
    requires |ps| == |fs| && forall i :: 0 <= i < |fs| ==> Translate(h, rd, fs[i]) == Ok(ps[i])
    ensures Params(Statement(table, n, Predicate(ps, logic).sql)) == n + |Predicate(ps, logic).params| + 1
  {
    PlanLinesUp(h, rd, fs, logic, ps);
    SqlTakes(Predicate(ps, logic).sql);
    EnclosedTakes(table, n, SqlBits(Predicate(ps, logic).sql));
    hide Predicate, Params, Enclosed, SqlBits, Translate;
  }

  lemma OneTaken()
    ensures Params([Param]) == 1
  {
    assert [Param][1..] == [];
  }

  // ----- what becomes of a key with a percent sign -----

  /** However the statement goes on, s is read as these bits. */
  ghost predicate ReadsInto(dr: Driver, s: string, bits: seq<Bit>) {
    forall rest: string {:trigger s + rest} :: ReadText(dr, s + rest) == Before(bits, ReadText(dr, rest))
  }

  lemma IntoConcat(dr: Driver, s: string, a: seq<Bit>, t: string, b: seq<Bit>)
    requires ReadsInto(dr, s, a) && ReadsInto(dr, t, b)
    ensures ReadsInto(dr, s + t, a + b)
  {
    hide ReadText;
    forall rest: string ensures ReadText(dr, s + t + rest) == Before(a + b, ReadText(dr, rest)) {
      assert s + t + rest == s + (t + rest);
      assert ReadText(dr, s + (t + rest)) == Before(a, ReadText(dr, t + rest));
      assert ReadText(dr, t + rest) == Before(b, ReadText(dr, rest));
      if ReadText(dr, rest).Some? {
        assert a + (b + ReadText(dr, rest).value) == a + b + ReadText(dr, rest).value;
      }
    }
  }

  lemma {:induction false} CleanInto(dr: Driver, bits: seq<Bit>)
    requires dr.Sane() && !Percent(bits)
    ensures ReadsInto(dr, Written(bits), bits)
  {
    if bits == [] {
      EmptyInto(dr);
    } else {
      assert bits == [bits[0]] + bits[1..];
      CleanInto(dr, bits[1..]);
      BitInto(dr, bits[0]);
      hide ReadsInto;
      IntoConcat(dr, if bits[0].Param? then "%s" else [bits[0].c], [bits[0]], Written(bits[1..]), bits[1..]);
    }
  }

  lemma EmptyInto(dr: Driver)
    ensures ReadsInto(dr, [], [])
  {
    hide ReadText;
    forall rest: string ensures ReadText(dr, [] + rest) == Before([], ReadText(dr, rest)) {
      assert [] + rest == rest;
      if ReadText(dr, rest).Some? {
        assert [] + ReadText(dr, rest).value == ReadText(dr, rest).value;
      }
    }
  }

  lemma BitInto(dr: Driver, b: Bit)
    requires dr.Sane() && b != Ch('%')
    ensures ReadsInto(dr, if b.Param? then "%s" else [b.c], [b])
  {
    var s := if b.Param? then "%s" else [b.c];
    forall rest: string ensures ReadText(dr, s + rest) == Before([b], ReadText(dr, rest)) {
      var t := s + rest;
      if b.Param? {
        assert t[0] == '%' && t[1] == 's' && t[1..][0] == 's' && t[2..] == rest;
      } else {
        assert t[0] == b.c && t[1..] == rest;
      }
    }
  }

  /** A doubled percent sign is read as one. */
  lemma DoubledInto(dr: Driver)
    ensures ReadsInto(dr, "%%", [Ch('%')])
  {
    forall rest: string ensures ReadText(dr, "%%" + rest) == Before([Ch('%')], ReadText(dr, rest)) {
      var t := "%%" + rest;
      assert t[0] == '%' && t[1] == '%' && t[2..] == rest;
    }
  }

  lemma {:induction false} WrittenChars(s: string)
    ensures Written(Chars(s)) == s
  {
    if s == [] {
    } else {
      assert Chars(s)[1..] == Chars(s[1..]);
      WrittenChars(s[1..]);
    }
  }

  lemma {:induction false} WrittenConcat(a: seq<Bit>, b: seq<Bit>)
    ensures Written(a + b) == Written(a) + Written(b)
  {
    if a == [] {
      assert a + b == b;
    } else {
      assert (a + b)[1..] == a[1..] + b;
      WrittenConcat(a[1..], b);
    }
  }

  /** If a path is read as another one, so is every text that it is written in. */
  lemma {:induction false} PartsInto(dr: Driver, xs: seq<Part>, path: seq<Bit>, read: seq<Bit>)
    requires dr.Sane() && ReadsInto(dr, Written(path), read)
    ensures ReadsInto(dr, Written(Bits(xs, path)), Bits(xs, read))
  {
    if xs == [] {
      EmptyInto(dr);
    } else {
      PartsInto(dr, xs[1..], path, read);
      if xs[0].Fixed? {
        SpelledClean(xs[0].w);
        CharsHold(Spelled(xs[0].w));
        CleanInto(dr, Chars(Spelled(xs[0].w)));
      } else if xs[0].Place? {
        NoPercent();
        CleanInto(dr, [Param]);
      }
      WrittenConcat(PartBits(xs[0], path), Bits(xs[1..], path));
      hide ReadsInto, Written, Chars;
      IntoConcat(dr, Written(PartBits(xs[0], path)), PartBits(xs[0], read),
                 Written(Bits(xs[1..], path)), Bits(xs[1..], read));
    }
  }

  /** The predicate with the path of its key given as bits. */
  function ReadBits(s: Sql, path: seq<Bit>): seq<Bit> {
    if s == [] then [] else Bits(TokenParts(s[0]), if s[0].Atom? then path else []) + ReadBits(s[1..], path)
  }

  ghost predicate AllAbout(s: Sql, k: string) {
    forall i :: 0 <= i < |s| && s[i].Atom? ==> !s[i].a.OneIsOne? && s[i].a.key == k
  }

  /** A predicate about a key whose path is read as other bits. */
  lemma {:induction false} SqlInto(dr: Driver, s: Sql, k: string, read: seq<Bit>)
    requires dr.Sane() && AllAbout(s, k) && ReadsInto(dr, JsonPath.PathLiteral(k), read)
    ensures ReadsInto(dr, Written(SqlBits(s)), ReadBits(s, read))
  {
    hide TokenParts, ReadText;
    if s == [] {
      EmptyInto(dr);
    } else {
      SqlInto(dr, s[1..], k, read);
      WritesPath(s[0]);
      WrittenChars(JsonPath.PathLiteral(k));
      var x := Bits(TokenParts(s[0]), PathBits(KeyOf(s[0])));
      var y := Bits(TokenParts(s[0]), if s[0].Atom? then read else []);
      if s[0].Atom? {
        PartsInto(dr, TokenParts(s[0]), PathBits(k), read);
      } else {
        NoPathIn(TokenParts(s[0]), PathBits(KeyOf(s[0])), []);
        CleanInto(dr, []);
        NoPercent();
        PartsInto(dr, TokenParts(s[0]), [], []);
      }
      WrittenConcat(x, SqlBits(s[1..]));
      hide ReadsInto, Written, Bits, SqlBits;
      IntoConcat(dr, Written(x), y, Written(SqlBits(s[1..])), ReadBits(s[1..], read));
      assert SqlBits(s) == x + SqlBits(s[1..]) by {
        SqlBitsHead(s);
      }
    }
  }

  lemma SqlBitsHead(s: Sql)
    requires s != []
    ensures SqlBits(s) == Bits(TokenParts(s[0]), PathBits(KeyOf(s[0]))) + SqlBits(s[1..])
  {
  }

  lemma {:induction false} NoPathIn(xs: seq<Part>, path: seq<Bit>, other: seq<Bit>)
    requires Path !in xs
    ensures Bits(xs, path) == Bits(xs, other)
  {
    if xs == [] {
    } else {
      assert xs[0] in xs && forall x :: x in xs[1..] ==> x in xs;
      NoPathIn(xs[1..], path, other);
    }
  }

  /** A key of one segment that has to be quoted and needs no escapes. */
  predicate Bare(k: string) {
    !JsonPath.PlainSegment(k) && forall i :: 0 <= i < |k| ==> k[i] !in {'.', '\'', '"', '\\'}
  }

  lemma BarePath(k: string)
    requires Bare(k)
    ensures JsonPath.PathLiteral(k) == "'{\"" + k + "\"}'"
  {
    BareBody(k);
    var body := "{" + ("\"" + k + "\"") + "}";
    assert '\'' !in body by {
      assert forall i :: 0 <= i < |k| ==> k[i] != '\'';
    }
    ReplaceNothing(body, '\'', "''");
    hide SplitDots, Replace, JsonPath.Body, JsonPath.PlainSegment, Bare;
    assert JsonPath.PathLiteral(k) == "'" + body + "'";
    BareJoin(k);
  }

  lemma BareJoin(k: string)
    ensures "'" + ("{" + ("\"" + k + "\"") + "}") + "'" == "'{\"" + k + "\"}'"
  {
  }

  lemma BareBody(k: string)
    requires Bare(k)
    ensures JsonPath.Body(SplitDots(k, [])) == "\"" + k + "\""
  {
    NoDots(k, []);
    assert [] + k == k;
    ReplaceNothing(k, '\\', "\\\\");
    ReplaceNothing(k, '"', "\\\"");
    hide SplitDots, Replace;
    assert JsonPath.Encode(k) == "\"" + k + "\"";
    assert JsonPath.Body([k]) == JsonPath.Encode([k][0]);
  }

  /** A predicate that is read as other bits, in the statement around it. */
  lemma EnclosedInto(dr: Driver, table: string, n: nat, bits: seq<Bit>, read: seq<Bit>)
    requires dr.Sane() && '%' !in table && ReadsInto(dr, Written(bits), read)
    ensures ReadText(dr, Written(Enclosed(table, n, bits))) == Some(Enclosed(table, n, read))
  {
    HeadClean(table, n);
    CharsHold(") AND (");
    CharsHold(") ORDER BY id LIMIT ");
    NoPercent();
    hide ReadsInto, Chars, Head, Written, Percent, ReadText, Enclosed;
    var pre, post := Head(table, n) + Chars(") AND ("), Chars(") ORDER BY id LIMIT ") + [Param];
    ConcatHolds(Head(table, n), Chars(") AND ("));
    ConcatHolds(Chars(") ORDER BY id LIMIT "), [Param]);
    CleanInto(dr, pre);
    CleanInto(dr, post);
    IntoConcat(dr, Written(pre), pre, Written(bits), read);
    IntoConcat(dr, Written(pre) + Written(bits), pre + read, Written(post), post);
    WrittenConcat(pre, bits);
    WrittenConcat(pre + bits, post);
    EnclosedParts(table, n, bits);
    EnclosedParts(table, n, read);
    WholeText(dr, Written(Enclosed(table, n, bits)), Enclosed(table, n, read));
  }

  lemma EnclosedParts(table: string, n: nat, bits: seq<Bit>)
    ensures Enclosed(table, n, bits) ==
            (Head(table, n) + Chars(") AND (")) + bits + (Chars(") ORDER BY id LIMIT ") + [Param])
  {
    hide Head, Chars;
  }

  /** The predicate of a request with one filter. */
  function OnePlan(p: Piece, logic: string): Sql {
    Predicate([p], logic).sql
  }

  lemma OnePlanIs(p: Piece, logic: string)
    ensures OnePlan(p, logic) == Paren(p.sql)
  {
    assert Parens([p]) == [Paren(p.sql)];
  }

  /** The statement of a `contains` filter on key `a%%b` is, to the driver, the one on key
      `a%b`: another path is looked up, and nothing is reported. */
  lemma DoubledPercentMisreads(dr: Driver, h: Host, rd: Reading, table: string, n: nat, logic: string, value: PyVal)
    requires dr.Sane() && '%' !in table && CoerceString(h, value).Ok?
    ensures Translate(h, rd, Filter("a%%b", Contains, value)).Ok?
    ensures Translate(h, rd, Filter("a%b", Contains, value)).Ok?
    ensures var asked := Translate(h, rd, Filter("a%%b", Contains, value)).value;
      var other := Translate(h, rd, Filter("a%b", Contains, value)).value;
      && asked.params == other.params
      && ReadText(dr, Written(Statement(table, n, OnePlan(asked, logic)))) ==
         Some(Statement(table, n, OnePlan(other, logic)))
  {
    assert ValidKey("a%%b") && ValidKey("a%b");
    DoubledPath(dr);
    hide ValidKey, ReadText, Translate;
    ContainsMisreads(dr, h, rd, table, n, logic, "a%%b", "a%b", value);
  }

  /** A `contains` filter on k, in parentheses. */
  function ContainsSql(k: string): Sql {
    Paren([Atom(JsonExists(k, Hole)), OR, Atom(LowerLike(k, Hole))])
  }

  lemma ContainsMisreads(dr: Driver, h: Host, rd: Reading, table: string, n: nat, logic: string,
                         k: string, k': string, value: PyVal)
    requires dr.Sane() && '%' !in table && CoerceString(h, value).Ok? && ValidKey(k) && ValidKey(k')
    requires ReadsInto(dr, JsonPath.PathLiteral(k), PathBits(k'))
    ensures Translate(h, rd, Filter(k, Contains, value)).Ok? && Translate(h, rd, Filter(k', Contains, value)).Ok?
    ensures var asked := Translate(h, rd, Filter(k, Contains, value)).value;
      var other := Translate(h, rd, Filter(k', Contains, value)).value;
      && asked.params == other.params
      && ReadText(dr, Written(Statement(table, n, OnePlan(asked, logic)))) ==
         Some(Statement(table, n, OnePlan(other, logic)))
  {
    var asked, other := ContainsSql(k), ContainsSql(k');
    hide Translate, ReadText, TokenParts, SqlBits, ReadBits, ReadsInto, PathBits, JsonPath.PathLiteral, ValidKey,
         OnePlan, Enclosed;
    ContainsText(h, rd, k, value);
    ContainsText(h, rd, k', value);
    OnePlanIs(Translate(h, rd, Filter(k, Contains, value)).value, logic);
    OnePlanIs(Translate(h, rd, Filter(k', Contains, value)).value, logic);
    SqlInto(dr, asked, k, PathBits(k'));
    ContainsParts(k, k');
    SameParts(other, asked, k');
    EnclosedInto(dr, table, n, SqlBits(asked), ReadBits(asked, PathBits(k')));
  }

  lemma ContainsText(h: Host, rd: Reading, k: string, value: PyVal)
    requires CoerceString(h, value).Ok? && ValidKey(k)
    ensures Translate(h, rd, Filter(k, Contains, value)).Ok?
    ensures Translate(h, rd, Filter(k, Contains, value)).value == ContainsPiece(h, k, h.Str(value))
    ensures Paren(Translate(h, rd, Filter(k, Contains, value)).value.sql) == ContainsSql(k)
    ensures ContainsPiece(h, k, h.Str(value)).params == ContainsPiece(h, "", h.Str(value)).params
  {
    hide Patterns.Escape, ValidKey;
  }

  lemma ContainsParts(k: string, k': string)
    ensures TokenParts(Atom(JsonExists(k, Hole))) == TokenParts(Atom(JsonExists(k', Hole)))
    ensures TokenParts(Atom(LowerLike(k, Hole))) == TokenParts(Atom(LowerLike(k', Hole)))
  {
  }

  lemma WholeText(dr: Driver, s: string, bits: seq<Bit>)
    requires ReadsInto(dr, s, bits)
    ensures ReadText(dr, s) == Some(bits)
  {
    assert s + [] == s;
    assert ReadText(dr, []) == Some([]);
    hide ReadText;
    assert ReadText(dr, s + []) == Before(bits, ReadText(dr, []));
    assert bits + [] == bits;
  }

  /** Two predicates that differ in their key only. */
  lemma {:induction false} SameParts(s: Sql, t: Sql, k: string)
    requires AllAbout(s, k) && |s| == |t|
    requires forall i :: 0 <= i < |s| ==> TokenParts(s[i]) == TokenParts(t[i]) && (s[i].Atom? <==> t[i].Atom?)
    ensures SqlBits(s) == ReadBits(t, PathBits(k))
  {
    hide TokenParts, PathBits;
    if s == [] {
    } else {
      assert TokenParts(s[0]) == TokenParts(t[0]);
      SameParts(s[1..], t[1..], k);
      if !s[0].Atom? {
        WritesPath(s[0]);
        NoPathIn(TokenParts(s[0]), PathBits(KeyOf(s[0])), []);
      }
    }
  }

  lemma DoubledPath(dr: Driver)
    requires dr.Sane()
    ensures ReadsInto(dr, JsonPath.PathLiteral("a%%b"), PathBits("a%b"))
  {
    var pre, post := "'{\"a", "b\"}'";
    DoubledText();
    hide ReadText, ReadsInto;
    CharsHold(pre);
    CharsHold(post);
    CleanInto(dr, Chars(pre));
    CleanInto(dr, Chars(post));
    WrittenChars(pre);
    WrittenChars(post);
    DoubledInto(dr);
    IntoConcat(dr, pre, Chars(pre), "%%", [Ch('%')]);
    IntoConcat(dr, pre + "%%", Chars(pre) + [Ch('%')], post, Chars(post));
  }

  lemma DoubledText()
    ensures JsonPath.PathLiteral("a%%b") == "'{\"a" + "%%" + "b\"}'"
    ensures PathBits("a%b") == Chars("'{\"a") + [Ch('%')] + Chars("b\"}'")
  {
    assert "a%%b"[1] == '%' && "a%b"[1] == '%';
    BarePath("a%%b");
    BarePath("a%b");
    hide JsonPath.PathLiteral;
    assert JsonPath.PathLiteral("a%b") == "'{\"a" + "%" + "b\"}'";
    assert PathBits("a%b") == Chars("'{\"a" + "%" + "b\"}'");
  }

  // ----- a key that adds a place -----

  lemma {:induction false} PartsTakeMore(xs: seq<Part>, path: seq<Bit>)
    ensures Params(Bits(xs, path)) >= PlaceCount(xs) + if Path in xs then Params(path) else 0
  {
    hide Chars, Spelled;
    if xs == [] {
    } else {
      PartsTakeMore(xs[1..], path);
      ParamsConcat(PartBits(xs[0], path), Bits(xs[1..], path));
      assert [Param][1..] == [];
      assert Path in xs <==> xs[0] == Path || Path in xs[1..] by {
        assert xs == [xs[0]] + xs[1..];
      }
    }
  }

  lemma {:induction false} ReadTakes(s: Sql, path: seq<Bit>)
    ensures Params(ReadBits(s, path)) >= Holes(s)
  {
    hide TokenParts, Bits;
    if s == [] {
    } else {
      var x := if s[0].Atom? then path else [];
      TokenPlaces(s[0]);
      PartsTakeMore(TokenParts(s[0]), x);
      ParamsConcat(Bits(TokenParts(s[0]), x), ReadBits(s[1..], path));
      ReadTakes(s[1..], path);
    }
  }

  lemma {:induction false} ReadTakesMore(s: Sql, i: nat, path: seq<Bit>)
    requires i < |s| && s[i].Atom? && Path in TokenParts(s[i]) && Params(path) > 0
    ensures Params(ReadBits(s, path)) > Holes(s)
  {
    hide TokenParts, Bits;
    var x := if s[0].Atom? then path else [];
    TokenPlaces(s[0]);
    PartsTakeMore(TokenParts(s[0]), x);
    ParamsConcat(Bits(TokenParts(s[0]), x), ReadBits(s[1..], path));
    if i == 0 {
      ReadTakes(s[1..], path);
    } else {
      ReadTakesMore(s[1..], i - 1, path);
    }
  }

  /** The statement of a `contains` filter on key `a%sb` makes the driver look for more
      parameters than it comes with. */
  lemma ConversionTakesMore(dr: Driver, h: Host, rd: Reading, table: string, n: nat, logic: string, value: PyVal)
    requires dr.Sane() && '%' !in table && CoerceString(h, value).Ok?
    ensures var p := Translate(h, rd, Filter("a%sb", Contains, value));
      && p.Ok?
      && var r := ReadText(dr, Written(Statement(table, n, OnePlan(p.value, logic))));
         r.Some? && Params(r.value) > n + |p.value.params| + 1
  {
    var read := Chars("'{\"a") + [Param] + Chars("b\"}'");
    assert ValidKey("a%sb");
    ConversionPath(dr);
    hide ReadText, SqlBits, ReadsInto, JsonPath.PathLiteral, ValidKey, Translate;
    ParamsConcat(Chars("'{\"a"), [Param]);
    ParamsConcat(Chars("'{\"a") + [Param], Chars("b\"}'"));
    OneTaken();
    hide Params, Chars;
    ContainsTakesMore(dr, h, rd, table, n, logic, "a%sb", read, value);
  }

  lemma ContainsTakesMore(dr: Driver, h: Host, rd: Reading, table: string, n: nat, logic: string,
                          k: string, read: seq<Bit>, value: PyVal)
    requires dr.Sane() && '%' !in table && CoerceString(h, value).Ok? && ValidKey(k)
    requires ReadsInto(dr, JsonPath.PathLiteral(k), read) && Params(read) > 0
    ensures var p := Translate(h, rd, Filter(k, Contains, value));
      && p.Ok?
      && var r := ReadText(dr, Written(Statement(table, n, OnePlan(p.value, logic))));
         r.Some? && Params(r.value) > n + |p.value.params| + 1
  {
    hide ReadText, TokenParts, SqlBits, ReadBits, ReadsInto, JsonPath.PathLiteral, ValidKey, Params, Translate,
         OnePlan, Enclosed;
    ContainsText(h, rd, k, value);
    var p := Translate(h, rd, Filter(k, Contains, value)).value;
    OnePlanIs(p, logic);
    var asked := ContainsSql(k);
    SqlInto(dr, asked, k, read);
    EnclosedInto(dr, table, n, SqlBits(asked), ReadBits(asked, read));
    EnclosedTakes(table, n, ReadBits(asked, read));
    ExistsPath(k);
    ReadTakesMore(asked, 1, read);
    FilterLinesUp(h, rd, Filter(k, Contains, value));
    WrappedLinesUp(p, InlineSql(h, rd, Filter(k, Contains, value)));
    assert Holes(asked) == |p.params|;
  }

  lemma ExistsPath(k: string)
    ensures Path in TokenParts(Atom(JsonExists(k, Hole)))
  {
    assert TokenParts(Atom(JsonExists(k, Hole)))[2] == Path;
  }

  lemma ConversionPath(dr: Driver)
    requires dr.Sane()
    ensures ReadsInto(dr, JsonPath.PathLiteral("a%sb"), Chars("'{\"a") + [Param] + Chars("b\"}'"))
  {
    var pre, post := "'{\"a", "b\"}'";
    assert JsonPath.PathLiteral("a%sb") == pre + "%s" + post by {
      assert "a%sb"[1] == '%';
      BarePath("a%sb");
    }
    hide ReadText, ReadsInto, JsonPath.PathLiteral;
    CharsHold(pre);
    CharsHold(post);
    CleanInto(dr, Chars(pre));
    CleanInto(dr, Chars(post));
    WrittenChars(pre);
    WrittenChars(post);
    BitInto(dr, Param);
    IntoConcat(dr, pre, Chars(pre), "%s", [Param]);
    IntoConcat(dr, pre + "%s", Chars(pre) + [Param], post, Chars(post));
  }

  // ----- range filters -----

  /** A range filter on a timestamp selects, with each of the four operators, exactly the
      documents whose stored text is a timestamp in ASCII digits standing in that relation
      to the bound as a moment in time. */
  lemma RangeSelectsMoments(h: Host, e: Engine, rd: Reading, d: Document, f: Filter, cmp: Cmp,
                            u: GaussDates.Digits, clock: GaussDates.Clock)
    requires u.Sane() && GaussDates.Reads(clock)
    requires forall s :: rd.stamp(s) == GaussDates.Normalize(u, s)
    requires forall s, c, b :: e.time(s, c, b) == GaussDates.TimeTest(clock, s, c, b)
    requires f.op == Range(cmp) && ValidKey(f.key) && !f.value.PNone? && !f.value.PBool? && !f.value.PNum?
    requires var bound := h.Trim(h.Str(f.value));
      && GaussDates.Normalize(u, bound).Some?
      && var b := GaussDates.ReadPrefix(u, bound).value;
         b.year >= 1000 || clock(GaussDates.Format(b)) == Some(GaussDates.Seconds(b))
    requires TextAt(e, d, f.key).Some? ==>
      var stored := TextAt(e, d, f.key).value;
      GaussDates.ReadPrefix(u, stored).Some? ==> GaussDates.ReadPrefix(u, stored).value.Valid()
    ensures Asks(h, e, rd, d, f) <==>
      && TextAt(e, d, f.key).Some?
      && var stored, bound := TextAt(e, d, f.key).value, h.Trim(h.Str(f.value));
         && GaussDates.ReadPrefix(u, stored).Some? && GaussDates.AsciiDigits(u, stored)
         && GaussDates.Compare(cmp, GaussDates.Seconds(GaussDates.ReadPrefix(u, stored).value),
                               GaussDates.Seconds(GaussDates.ReadPrefix(u, bound).value))
  {
    var bound := h.Trim(h.Str(f.value));
    assert GaussFilter.CoerceRange(h, rd, f.value) == Ok(TextVal(GaussDates.Normalize(u, bound).value));
    assert Translate(h, rd, f).Ok?;
    AsksSelects(h, e, rd, d, f);
    hide Asks, Translate, GaussDates.Normalize, GaussDates.ReadPrefix, GaussDates.Seconds, GaussDates.TimeTest;
    if TextAt(e, d, f.key).Some? {
      GaussDates.TimeTestIsChronological(u, clock, TextAt(e, d, f.key).value, cmp, bound);
    }
  }
}
