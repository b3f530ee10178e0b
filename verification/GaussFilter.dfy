/** GaussDB push-down: filters become JSONB predicates with positional parameters,
    evaluated in three-valued logic. */
module GaussFilter {
  import opened Text
  import opened Python
  import opened MetaFilter
  import opened Patterns
  import opened Coercion
  import opened SqlSyntax

  // ----- documents and the engine -----

  datatype Json =
    | JNull
    | JBool(b: bool)
    | JNum(r: real)
    | JText(s: string)
    | JArray(items: seq<Json>)
    | JObject(fields: map<string, Json>)

  /** `#>` on the metadata column: the value at a dotted path, if there is one. */
  type Document = string -> Option<Json>

  /** `lower()`, the text form of non-string JSON, JSON parsing of a parameter, and
      the comparisons of timestamps and numbers. */
  datatype Engine = Engine(
    lower: char -> char,
    render: Json -> string,
    parse: PyVal -> Json,
    time: (string, Cmp, string) -> Tri,
    numeric: string -> bool,
    number: (string, Cmp, PyVal) -> bool)

  /** `#>>`: SQL NULL for a missing path and for JSON null. */
  function TextAt(e: Engine, d: Document, k: string): Option<string> {
    match d(k)
    case None => None
    case Some(JNull) => None
    case Some(JText(s)) => Some(s)
    case Some(v) => Some(e.render(v))
  }

  /** `jsonb_exists`: a string as array element, object key or scalar. */
  predicate StringIn(v: Json, s: string) {
    match v
    case JText(t) => t == s
    case JArray(xs) => JText(s) in xs
    case JObject(m) => s in m
    case _ => false
  }

  /** `@>` with a scalar on the right. */
  predicate ScalarIn(v: Json, p: Json) {
    v == p || (v.JArray? && p in v.items)
  }

  // ----- predicates -----

  datatype SqlVal = TextVal(s: string) | JsonVal(v: PyVal) | NumVal(v: PyVal)

  /** A `%s` placeholder, or the value that belongs there. */
  datatype Arg = Hole | Inline(v: SqlVal)

  datatype Blank = NullJson | EmptyText | EmptyArray | EmptyObject

  datatype Pred =
    | OneIsOne
    | KeyExists(key: string)                       // (v) IS NOT NULL
    | KeyMissing(key: string)                      // (v) IS NULL
    | IsBlank(key: string, blank: Blank)           // v = '...'::jsonb
    | LowerEquals(key: string, arg: Arg)           // lower(t) = %s
    | JsonExists(key: string, arg: Arg)            // jsonb_exists(v, %s)
    | JsonHolds(key: string, arg: Arg)             // v @> %s::jsonb
    | LowerLike(key: string, arg: Arg)             // lower(t) LIKE %s ESCAPE '\'
    | TimeCompare(key: string, cmp: Cmp, arg: Arg)
    | NumberCompare(key: string, cmp: Cmp, arg: Arg)

  type Sql = seq<Token<Pred>>

  function BlankJson(b: Blank): Json {
    match b
    case NullJson => JNull
    case EmptyText => JText("")
    case EmptyArray => JArray([])
    case EmptyObject => JObject(map[])
  }

  /** Three-valued value of one comparison; an unfilled placeholder is unknown. */
  function Val(e: Engine, d: Document, p: Pred): Tri {
    match p
    case OneIsOne => True
    case KeyExists(k) => Of(d(k).Some?)
    case KeyMissing(k) => Of(d(k).None?)
    case IsBlank(k, b) => if d(k).None? then Null else Of(d(k).value == BlankJson(b))
    case LowerEquals(k, a) =>
      if !Filled(a) || TextAt(e, d, k).None? then Null
      else Of(MapChars(e.lower, TextAt(e, d, k).value) == a.v.s)
    case JsonExists(k, a) => if !Filled(a) || d(k).None? then Null else Of(StringIn(d(k).value, a.v.s))
    case JsonHolds(k, a) =>
      if a.Hole? || !a.v.JsonVal? || d(k).None? then Null else Of(ScalarIn(d(k).value, e.parse(a.v.v)))
    case LowerLike(k, a) =>
      if !Filled(a) || TextAt(e, d, k).None? then Null
      else Of(Matches(LIKE, (c: char) => c, a.v.s, MapChars(e.lower, TextAt(e, d, k).value)))
    case TimeCompare(k, c, a) =>
      if !Filled(a) || TextAt(e, d, k).None? then Null else e.time(TextAt(e, d, k).value, c, a.v.s)
    case NumberCompare(k, c, a) =>
      if TextAt(e, d, k).None? || !e.numeric(TextAt(e, d, k).value) then False
      else if a.Hole? || !a.v.NumVal? then Null
      else Of(e.number(TextAt(e, d, k).value, c, a.v.v))
  }

  predicate Filled(a: Arg) {
    a.Inline? && a.v.TextVal?
  }

  // ----- positional parameters -----

  predicate HasHole(p: Pred) {
    match p
    case LowerEquals(_, a) => a.Hole?
    case JsonExists(_, a) => a.Hole?
    case JsonHolds(_, a) => a.Hole?
    case LowerLike(_, a) => a.Hole?
    case TimeCompare(_, _, a) => a.Hole?
    case NumberCompare(_, _, a) => a.Hole?
    case _ => false
  }

  function Put(p: Pred, v: SqlVal): Pred {
    match p
    case LowerEquals(k, _) => LowerEquals(k, Inline(v))
    case JsonExists(k, _) => JsonExists(k, Inline(v))
    case JsonHolds(k, _) => JsonHolds(k, Inline(v))
    case LowerLike(k, _) => LowerLike(k, Inline(v))
    case TimeCompare(k, c, _) => TimeCompare(k, c, Inline(v))
    case NumberCompare(k, c, _) => NumberCompare(k, c, Inline(v))
    case _ => p
  }

  predicate HoleToken(t: Token<Pred>) {
    t.Atom? && HasHole(t.a)
  }

  function Holes(s: Sql): nat {
    if s == [] then 0 else (if HoleToken(s[0]) then 1 else 0) + Holes(s[1..])
  }

  /** The driver: the k-th parameter goes into the k-th placeholder, left to right. */
  function Fill(s: Sql, params: seq<SqlVal>): Sql {
    if s == [] then []
    else if HoleToken(s[0]) && params != [] then [Atom(Put(s[0].a, params[0]))] + Fill(s[1..], params[1..])
    else [s[0]] + Fill(s[1..], params)
  }

  /** A predicate with its parameter list. */
  datatype Piece = Piece(sql: Sql, params: seq<SqlVal>)

  /** As many placeholders as parameters, and filling them gives `inline`. */
  predicate LinesUp(p: Piece, inline: Sql) {
    Holes(p.sql) == |p.params| && Fill(p.sql, p.params) == inline
  }

  lemma {:induction false} FillConcat(a: Sql, p: seq<SqlVal>, b: Sql, q: seq<SqlVal>)
    requires Holes(a) == |p|
    ensures Fill(a + b, p + q) == Fill(a, p) + Fill(b, q)
    ensures Holes(a + b) == Holes(a) + Holes(b)
  {
    if a == [] {
      assert a + b == b && p + q == q;
    } else {
      assert (a + b)[1..] == a[1..] + b;
      if HoleToken(a[0]) {
        assert (p + q)[1..] == p[1..] + q;
        FillConcat(a[1..], p[1..], b, q);
      } else {
        FillConcat(a[1..], p, b, q);
      }
    }
  }

  lemma LinesUpConcat(x: Piece, i: Sql, y: Piece, j: Sql)
    requires LinesUp(x, i) && LinesUp(y, j)
    ensures LinesUp(Piece(x.sql + y.sql, x.params + y.params), i + j)
  {
    FillConcat(x.sql, x.params, y.sql, y.params);
  }

  /** A token without a placeholder around or between aligned pieces. */
  lemma LinesUpToken(t: Token<Pred>)
    requires !HoleToken(t)
    ensures LinesUp(Piece([t], []), [t])
  {
    assert [t][1..] == [];
    assert Fill([], []) == [];
    assert Holes([]) == 0;
  }

  lemma LinesUpHole(p: Pred, v: SqlVal)
    requires HasHole(p)
    ensures LinesUp(Piece([Atom(p)], [v]), [Atom(Put(p, v))])
  {
    assert [Atom(p)][1..] == [];
    assert [v][1..] == [];
    assert Fill([], []) == [];
    assert Holes([]) == 0;
  }

  lemma LinesUpAround(pre: Sql, x: Piece, i: Sql, post: Sql)
    requires LinesUp(x, i)
    requires LinesUp(Piece(pre, []), pre) && LinesUp(Piece(post, []), post)
    ensures LinesUp(Piece(pre + x.sql + post, x.params), pre + i + post)
  {
    LinesUpConcat(Piece(pre, []), pre, x, i);
    assert [] + x.params == x.params;
    LinesUpConcat(Piece(pre + x.sql, x.params), pre + i, Piece(post, []), post);
    assert x.params + [] == x.params;
  }

  // ----- coercions -----

  function CoerceScalar(h: Host, v: PyVal): Result<PyVal> {
    if v.PList? || v.PDict? || v.PTuple? then Unsupported("scalar comparison value is non-scalar")
    else if v.PStr? && h.Trim(v.s) != [] && h.eval(h.Trim(v.s)).Some? then
      var parsed := h.eval(h.Trim(v.s)).value;
      Ok(if parsed.PNum? || parsed.PBool? || parsed.PNone? then parsed else v)
    else Ok(v)
  }

  function CoerceString(h: Host, v: PyVal): Result<string> {
    if v.PNone? || v.PList? || v.PDict? || v.PTuple? then Unsupported("string operator value must be a scalar")
    else if h.Str(v) == [] then Unsupported("string operator value is empty")
    else Ok(h.Str(v))
  }

  /** The members before coercion; the literal is read from the trimmed text. */
  function RawMembers(h: Host, v: PyVal): seq<PyVal> {
    match v
    case PList(xs) => xs
    case PTuple(xs) => xs
    case PStr(s) =>
      var parsed := h.eval(h.Trim(s));
      if parsed.Some? && (parsed.value.PList? || parsed.value.PTuple?) then parsed.value.items
      else SplitCommas(h, s, [])
    case _ => [v]
  }

  function CoerceMembers(h: Host, ms: seq<PyVal>): Result<seq<PyVal>> {
    if ms == [] then Ok([])
    else
      var c, rest := CoerceScalar(h, ms[0]), CoerceMembers(h, ms[1..]);
      if c.Unsupported? then Unsupported(c.reason)
      else if rest.Unsupported? then rest
      else Ok([c.value] + rest.value)
  }

  function MembershipValues(h: Host, v: PyVal): Result<seq<PyVal>> {
    if v.PNone? then Unsupported("membership value is None")
    else if RawMembers(h, v) == [] then Unsupported("membership value resolved to empty list")
    else CoerceMembers(h, RawMembers(h, v))
  }

  /** How a text is read as a timestamp (defined in GaussDates) and as a plain
      decimal number when literal evaluation refuses it. */
  datatype Reading = Reading(stamp: string -> Option<string>, decimal: string -> Option<PyVal>)

  function CoerceRange(h: Host, rd: Reading, v: PyVal): Result<SqlVal> {
    if v.PNone? then Unsupported("range comparison value is None")
    else if v.PBool? then Unsupported("range comparison value is boolean")
    else if v.PNum? then Ok(NumVal(v))
    else
      var text := h.Trim(h.Str(v));
      if rd.stamp(text).Some? then Ok(TextVal(rd.stamp(text).value))
      else if h.eval(text).Some? && h.eval(text).value.PNum? then Ok(NumVal(h.eval(text).value))
      else if rd.decimal(text).Some? then Ok(NumVal(rd.decimal(text).value))
      else Unsupported("unsupported range comparison value")
  }

  predicate ValidKey(k: string) {
    && k != [] && k[0] != '.' && k[|k| - 1] != '.'
    && (forall i :: 0 <= i < |k| ==> k[i] != '\0')
    && (forall i :: 0 < i < |k| ==> !(k[i - 1] == '.' && k[i] == '.'))
  }

  // ----- translating, with placeholders -----

  function Paren(s: Sql): Sql {
    [LP] + s + [RP]
  }

  /** `(sql) IS NOT TRUE`. */
  function NotTrueSql(s: Sql): Sql {
    Paren(s) + [ISNOTTRUE]
  }

  function EqualPiece(h: Host, k: string, v: PyVal): Piece {
    if v.PNone? then Piece([Atom(KeyExists(k)), AND, Atom(IsBlank(k, NullJson))], [])
    else if v.PStr? then
      if v.s == [] then Piece([Atom(IsBlank(k, EmptyText))], [])
      else
        var low := TextVal(h.Lower(v.s));
        Piece([Atom(LowerEquals(k, Hole)), OR, Atom(JsonExists(k, Hole))], [low, low])
    else Piece([Atom(JsonHolds(k, Hole))], [JsonVal(v)])
  }

  function ContainsPiece(h: Host, k: string, text: string): Piece {
    Piece([Atom(JsonExists(k, Hole)), OR, Atom(LowerLike(k, Hole))],
          [TextVal(h.Lower(text)), TextVal("%" + Escape(LIKE, h.Lower(text)) + "%")])
  }

  function Negate(k: string, p: Piece): Piece {
    Piece([Atom(KeyExists(k)), AND] + NotTrueSql(p.sql), p.params)
  }

  function MemberFragments(h: Host, k: string, vs: seq<PyVal>, negate: bool): (r: seq<Sql>)
    ensures |r| == |vs|
  {
    seq(|vs|, i requires 0 <= i < |vs| =>
      var sql := EqualPiece(h, k, vs[i]).sql;
      if negate then NotTrueSql(sql) else Paren(sql))
  }

  function MemberParams(h: Host, k: string, vs: seq<PyVal>): seq<SqlVal> {
    if vs == [] then [] else EqualPiece(h, k, vs[0]).params + MemberParams(h, k, vs[1..])
  }

  /** `_membership_predicates`: fragments and parameters grow side by side. */
  method MembershipLoop(h: Host, k: string, vs: seq<PyVal>) returns (fragments: seq<Sql>, params: seq<SqlVal>)
    ensures |fragments| == |vs| && forall i :: 0 <= i < |vs| ==> fragments[i] == EqualPiece(h, k, vs[i]).sql
    ensures params == MemberParams(h, k, vs)
  {
    hide EqualPiece;
    fragments, params := [], [];
    for n := 0 to |vs|
      invariant |fragments| == n && forall i :: 0 <= i < n ==> fragments[i] == EqualPiece(h, k, vs[i]).sql
      invariant params == MemberParams(h, k, vs[..n])
    {
      var p := EqualPiece(h, k, vs[n]);
      assert vs[..n + 1] == vs[..n] + [vs[n]];
      MemberParamsAppend(h, k, vs[..n], vs[n]);
      fragments := fragments + [p.sql];
      params := params + p.params;
    }
    assert vs[..|vs|] == vs;
  }

  lemma {:induction false} MemberParamsAppend(h: Host, k: string, vs: seq<PyVal>, v: PyVal)
    ensures MemberParams(h, k, vs + [v]) == MemberParams(h, k, vs) + EqualPiece(h, k, v).params
  {
    hide EqualPiece;
    if vs == [] {
      assert vs + [v] == [v];
      assert [v][1..] == [];
    } else {
      assert (vs + [v])[1..] == vs[1..] + [v];
      MemberParamsAppend(h, k, vs[1..], v);
    }
  }

  function Blanks(k: string): seq<Pred> {
    [IsBlank(k, NullJson), IsBlank(k, EmptyText), IsBlank(k, EmptyArray), IsBlank(k, EmptyObject)]
  }

  function Leaves(ps: seq<Pred>): (r: seq<Sql>)
    ensures |r| == |ps|
  {
    seq(|ps|, i requires 0 <= i < |ps| => [Atom(ps[i])])
  }

  function NotTrueLeaves(ps: seq<Pred>): (r: seq<Sql>)
    ensures |r| == |ps|
  {
    seq(|ps|, i requires 0 <= i < |ps| => NotTrueSql([Atom(ps[i])]))
  }

  function EmptySql(k: string): Sql {
    Join(OR, Leaves([KeyMissing(k)] + Blanks(k)))
  }

  function NotEmptySql(k: string): Sql {
    [Atom(KeyExists(k)), AND] + Join(AND, NotTrueLeaves(Blanks(k)))
  }

  function Translate(h: Host, rd: Reading, f: Filter): Result<Piece> {
    var k := f.key;
    if !ValidKey(k) then Unsupported("invalid metadata key")
    else
      match f.op
      case Unknown(_) => Unsupported("unsupported metadata filter operator")
      case Empty => Ok(Piece(EmptySql(k), []))
      case NotEmpty => Ok(Piece(NotEmptySql(k), []))
      case Eq =>
        var c := CoerceScalar(h, f.value);
        if c.Ok? then Ok(EqualPiece(h, k, c.value)) else Unsupported(c.reason)
      case Ne =>
        var c := CoerceScalar(h, f.value);
        if c.Ok? then Ok(Negate(k, EqualPiece(h, k, c.value))) else Unsupported(c.reason)
      case Range(op) =>
        var c := CoerceRange(h, rd, f.value);
        if c.Unsupported? then Unsupported(c.reason)
        else if c.value.TextVal? then Ok(Piece([Atom(TimeCompare(k, op, Hole))], [c.value]))
        else Ok(Piece([Atom(NumberCompare(k, op, Hole))], [c.value]))
      case In =>
        var c := MembershipValues(h, f.value);
        if c.Ok? then Ok(Piece(Join(OR, MemberFragments(h, k, c.value, false)), MemberParams(h, k, c.value)))
        else Unsupported(c.reason)
      case NotIn =>
        var c := MembershipValues(h, f.value);
        if c.Ok? then
          Ok(Piece([Atom(KeyExists(k)), AND] + Join(AND, MemberFragments(h, k, c.value, true)),
                   MemberParams(h, k, c.value)))
        else Unsupported(c.reason)
      case Contains =>
        var c := CoerceString(h, f.value);
        if c.Ok? then Ok(ContainsPiece(h, k, c.value)) else Unsupported(c.reason)
      case NotContains =>
        var c := CoerceString(h, f.value);
        if c.Ok? then Ok(Negate(k, ContainsPiece(h, k, c.value))) else Unsupported(c.reason)
      case StartWith =>
        var c := CoerceString(h, f.value);
        if c.Ok? then Ok(Piece([Atom(LowerLike(k, Hole))], [TextVal(Escape(LIKE, h.Lower(c.value)) + "%")]))
        else Unsupported(c.reason)
      case EndWith =>
        var c := CoerceString(h, f.value);
        if c.Ok? then Ok(Piece([Atom(LowerLike(k, Hole))], [TextVal("%" + Escape(LIKE, h.Lower(c.value)))]))
        else Unsupported(c.reason)
  }

  function Joiner(logic: string): Token<Pred> {
    if logic == "and" then AND else OR
  }

  function AllParams(ps: seq<Piece>): seq<SqlVal> {
    if ps == [] then [] else ps[0].params + AllParams(ps[1..])
  }

  function Parens(ps: seq<Piece>): (r: seq<Sql>)
    ensures |r| == |ps|
  {
    seq(|ps|, i requires 0 <= i < |ps| => Paren(ps[i].sql))
  }

  /** `to_predicate`. */
  function Predicate(ps: seq<Piece>, logic: string): Piece {
    if ps == [] then Piece([Atom(OneIsOne)], []) else Piece(Join(Joiner(logic), Parens(ps)), AllParams(ps))
  }

  lemma {:induction false} AllParamsAppend(ps: seq<Piece>, p: Piece)
    ensures AllParams(ps + [p]) == AllParams(ps) + p.params
  {
    if ps == [] {
      assert ps + [p] == [p];
      assert [p][1..] == [];
    } else {
      assert (ps + [p])[1..] == ps[1..] + [p];
      AllParamsAppend(ps[1..], p);
    }
  }

  /** `to_predicate` as written: the parameter lists are concatenated in a loop. */
  method ToPredicate(ps: seq<Piece>, logic: string) returns (r: Piece)
    ensures r == Predicate(ps, logic)
  {
    if ps == [] {
      return Piece([Atom(OneIsOne)], []);
    }
    var sql := Join(Joiner(logic), Parens(ps));
    var params: seq<SqlVal> := [];
    for n := 0 to |ps|
      invariant params == AllParams(ps[..n])
    {
      assert ps[..n + 1] == ps[..n] + [ps[n]];
      AllParamsAppend(ps[..n], ps[n]);
      params := params + ps[n].params;
    }
    assert ps[..|ps|] == ps;
    r := Piece(sql, params);
  }
}
