/** Infinity push-down: filters become SQL text, with values quoted inside JSON
    paths, string literals and LIKE patterns. */
module InfinityFilter {
  import opened Text
  import opened Python
  import opened MetaFilter
  import opened Patterns
  import opened Coercion
  import opened SqlSyntax
  import opened SqlText

  // ----- quoting -----

  /** `LIKE '{escaped}%'` and `LIKE '%{escaped}'`: the two escapes compose, so the
      pattern read back means "starts with t" and "ends with t". */
  lemma LayeredLike(t: string, rest: string, s: string)
    requires rest == [] || rest[0] != '\''
    ensures ReadLiteral("'" + EscapeSql(Escape(LIKE, t)) + "%'" + rest) == Some((Escape(LIKE, t) + "%", rest))
    ensures ReadLiteral("'%" + EscapeSql(Escape(LIKE, t)) + "'" + rest) == Some(("%" + Escape(LIKE, t), rest))
    ensures Matches(LIKE, (c: char) => c, Escape(LIKE, t) + "%", s) <==> t <= s
    ensures Matches(LIKE, (c: char) => c, "%" + Escape(LIKE, t), s) <==> EndsWith(s, t)
  {
    hide Matches, Replace, Escape, ReadLiteral;
    var e := Escape(LIKE, t);
    var id := (c: char) => c;
    LiteralParts("", e, "%");
    LiteralParts("%", e, "");
    assert "" + e + "%" == e + "%" && "%" + e + "" == "%" + e;
    LiteralReadsBack(e + "%", rest);
    LiteralReadsBack("%" + e, rest);
    assert "'" + EscapeSql(e) + "%'" == Literal(e + "%");
    assert "'%" + EscapeSql(e) + "'" == Literal("%" + e);
    PrefixExact(LIKE, id, t, s);
    SuffixExact(LIKE, id, t, s);
    assert MapChars(id, t) == t && MapChars(id, s) == s;
  }

  // ----- the JSON string inside the literal -----

  /** A JSON reader from just after the opening quote; `unescape` decodes what
      follows a backslash (one character, or `u` and four digits). */
  function ReadJson(unescape: string -> Option<char>, s: string): Option<(string, string)> {
    if s == [] then None
    else if s[0] == '"' then Some(([], s[1..]))
    else
      var n := if s[0] != '\\' then 1 else if |s| > 1 && s[1] == 'u' then 6 else 2;
      if |s| < n then None
      else
        var c := if n == 1 then (if s[0] < ' ' then None else Some(s[0])) else unescape(s[1..n]);
        var r := ReadJson(unescape, s[n..]);
        if c.None? || r.None? then None else Some(([c.value] + r.value.0, r.value.1))
  }

  predicate JsonClean(s: string) {
    forall i :: 0 <= i < |s| ==> s[i] != '"' && s[i] != '\\' && s[i] >= ' '
  }

  /** Reading never lengthens, and keeps the length only when nothing was escaped and the
      text is read as it stands. */
  lemma {:induction false} JsonLength(unescape: string -> Option<char>, s: string)
    requires ReadJson(unescape, s).Some?
    ensures var (c, rest) := ReadJson(unescape, s).value;
            && |c| + 1 + |rest| <= |s|
            && (|c| + 1 + |rest| == |s| ==> JsonClean(c) && s == c + "\"" + rest)
  {
    if s[0] == '"' {
      assert s == [] + "\"" + s[1..];
    } else {
      var n := if s[0] != '\\' then 1 else if |s| > 1 && s[1] == 'u' then 6 else 2;
      JsonLength(unescape, s[n..]);
      assert s == s[..n] + s[n..];
    }
  }

  lemma {:induction false} CleanReadsBack(unescape: string -> Option<char>, s: string)
    requires JsonClean(s)
    ensures ReadJson(unescape, s + "\"") == Some((s, ""))
  {
    if s != [] {
      CleanReadsBack(unescape, s[1..]);
      assert (s + "\"")[1..] == s[1..] + "\"";
      assert [s[0]] + s[1..] == s;
    } else {
      assert (s + "\"")[1..] == "";
    }
  }

  /** The text of `=` and `in` is put between JSON quotes unescaped: the database
      reads the same text back exactly when it has no quote, backslash or control
      character. */
  lemma JsonQuotingExactIff(unescape: string -> Option<char>, s: string)
    ensures ReadJson(unescape, s + "\"") == Some((s, "")) <==> JsonClean(s)
  {
    if JsonClean(s) {
      CleanReadsBack(unescape, s);
    }
    if ReadJson(unescape, s + "\"") == Some((s, "")) {
      JsonLength(unescape, s + "\"");
    }
  }

  // ----- predicates -----

  datatype SqlCmp = EQ | NE | Order(cmp: Cmp)

  /** A number, or a string literal exactly as it stands in the text. */
  datatype Arg = Num(n: PyVal) | Raw(text: string)

  datatype Pred =
    | JsonContains(key: string, arg: Arg)
    | ExtractText(key: string, op: SqlCmp, raw: string)
    | ExtractNumber(key: string, op: SqlCmp, n: PyVal)
    | Like(key: string, raw: string)
    | OneIsOne

  type Sql = seq<Token<Pred>>

  /** What one document answers: JSON_CONTAINS with a JSON text or a number, the
      extracted string, and comparisons of extracted values. */
  datatype Answers = Answers(
    json: (string, string) -> Tri,
    number: (string, PyVal) -> Tri,
    text: string -> Option<string>,
    compareText: (SqlCmp, string, string) -> bool,
    compareNumber: (string, SqlCmp, PyVal) -> Tri)

  function Val(d: Answers, p: Pred): Tri {
    match p
    case OneIsOne => True
    case JsonContains(k, Num(n)) => d.number(k, n)
    case JsonContains(k, Raw(raw)) =>
      var r := ReadLiteral(raw);
      if r.Some? && r.value.1 == [] then d.json(k, r.value.0) else Null
    case ExtractText(k, op, raw) =>
      var r := ReadLiteral(raw);
      if r.Some? && r.value.1 == [] && d.text(k).Some? then Of(d.compareText(op, d.text(k).value, r.value.0)) else Null
    case ExtractNumber(k, op, n) => d.compareNumber(k, op, n)
    case Like(k, raw) =>
      var r := ReadLiteral(raw);
      if r.Some? && r.value.1 == [] && d.text(k).Some?
      then Of(Matches(LIKE, (c: char) => c, r.value.0, d.text(k).value)) else Null
  }

  // ----- coercions -----

  function IsNumber(v: PyVal): bool {
    v.PNum? || v.PBool?
  }

  function CoerceScalar(h: Host, v: PyVal): Result<PyVal> {
    if v.PNone? then Unsupported("scalar comparison value is None")
    else if v.PList? || v.PDict? then Unsupported("scalar comparison value is non-scalar")
    else
      var parsed := h.eval(h.Trim(h.Str(v)));
      if parsed.Some? && IsNumber(parsed.value) then Ok(parsed.value) else Ok(PStr(h.Str(v)))
  }

  function CoerceRange(h: Host, v: PyVal): Result<PyVal> {
    if v.PNone? then Unsupported("range comparison value is None")
    else
      var parsed := h.eval(h.Trim(h.Str(v)));
      if parsed.Some? && IsNumber(parsed.value) then Ok(parsed.value) else Ok(PStr(h.Str(v)))
  }

  predicate Letter(c: char) {
    'a' <= c <= 'z' || 'A' <= c <= 'Z' || c == '_'
  }

  predicate Identifier(k: string) {
    k != [] && Letter(k[0]) && forall i :: 0 <= i < |k| ==> Letter(k[i]) || '0' <= k[i] <= '9'
  }

  /** The key pattern ends in `$`, which also matches before a final newline. */
  predicate ValidKey(k: string) {
    Identifier(k) || (k != [] && k[|k| - 1] == '\n' && Identifier(k[..|k| - 1]))
  }

  // ----- translating -----

  /** `'"..."'`: a JSON string inside a SQL literal. */
  function JsonText(s: string): Arg {
    Raw("'\"" + EscapeSql(s) + "\"'")
  }

  function ArgOf(h: Host, v: PyVal): Arg {
    if IsNumber(v) then Num(v) else JsonText(h.Str(v))
  }

  function Containing(k: string, a: Arg): Sql {
    [Atom(JsonContains(k, a))]
  }

  function Negated(s: Sql): Sql {
    [NOT] + s
  }

  function Paren(s: Sql): Sql {
    [LP] + s + [RP]
  }

  /** Members whose coerced form is text, respectively a number, in list order. */
  function Part(h: Host, ms: seq<PyVal>, numbers: bool): seq<PyVal> {
    if ms == [] then []
    else
      var c := CoerceRange(h, ms[0]);
      (if c.Ok? && IsNumber(c.value) == numbers then [c.value] else []) + Part(h, ms[1..], numbers)
  }

  function Fragment(h: Host, k: string, v: PyVal, negate: bool): Sql {
    if negate then Negated(Containing(k, ArgOf(h, v))) else Containing(k, ArgOf(h, v))
  }

  function Fragments(h: Host, k: string, vs: seq<PyVal>, negate: bool): seq<Sql> {
    seq(|vs|, i requires 0 <= i < |vs| => Fragment(h, k, vs[i], negate))
  }

  function Conditions(texts: seq<Sql>, numbers: seq<Sql>, negate: bool): seq<Sql> {
    var sep := if negate then AND else OR;
    (if texts == [] then [] else [Paren(Join(sep, texts))]) +
    (if numbers == [] then [] else [Paren(Join(sep, numbers))])
  }

  predicate NoneMember(h: Host, ms: seq<PyVal>) {
    exists i :: 0 <= i < |ms| && CoerceRange(h, ms[i]).Unsupported?
  }

  function Membership(h: Host, k: string, ms: seq<PyVal>, negate: bool): Result<Sql> {
    if NoneMember(h, ms) then Unsupported("range comparison value is None")
    else
      var texts, numbers := Fragments(h, k, Part(h, ms, false), negate), Fragments(h, k, Part(h, ms, true), negate);
      var cs := Conditions(texts, numbers, negate);
      Ok(if negate then Join(AND, cs) else Paren(Join(OR, cs)))
  }

  /** `_translate_in` and `_translate_not_in` after the member list is known: one
      pass that files every member under strings or numbers. */
  method MembershipLoop(h: Host, k: string, ms: seq<PyVal>, negate: bool) returns (r: Result<Sql>)
    ensures r == Membership(h, k, ms, negate)
  {
    hide CoerceRange, Conditions, Fragment, Join;
    var texts: seq<Sql>, numbers: seq<Sql> := [], [];
    for n := 0 to |ms|
      invariant forall i :: 0 <= i < n ==> CoerceRange(h, ms[i]).Ok?
      invariant texts == Fragments(h, k, Part(h, ms[..n], false), negate)
      invariant numbers == Fragments(h, k, Part(h, ms[..n], true), negate)
    {
      var c := CoerceRange(h, ms[n]);
      if c.Unsupported? {
        return Unsupported("range comparison value is None");
      }
      assert ms[..n + 1] == ms[..n] + [ms[n]];
      PartAppend(h, ms[..n], ms[n], false);
      PartAppend(h, ms[..n], ms[n], true);
      if IsNumber(c.value) {
        numbers := numbers + [Fragment(h, k, c.value, negate)];
      } else {
        texts := texts + [Fragment(h, k, c.value, negate)];
      }
    }
    assert ms[..|ms|] == ms;
    var cs := Conditions(texts, numbers, negate);
    r := Ok(if negate then Join(AND, cs) else Paren(Join(OR, cs)));
  }

  lemma {:induction false} PartAppend(h: Host, ms: seq<PyVal>, m: PyVal, numbers: bool)
    ensures Part(h, ms + [m], numbers) == Part(h, ms, numbers) + Part(h, [m], numbers)
  {
    hide CoerceRange;
    if ms == [] {
      assert ms + [m] == [m];
    } else {
      assert (ms + [m])[1..] == ms[1..] + [m];
      PartAppend(h, ms[1..], m, numbers);
    }
  }

  function Translate(h: Host, f: Filter): Result<Sql> {
    var k := f.key;
    if !ValidKey(k) then Unsupported("invalid key format")
    else
      match f.op
      case Unknown(_) => Unsupported("unknown operator")
      case Empty => Ok([Atom(ExtractText(k, EQ, "'\"\"'"))])
      case NotEmpty => Ok([Atom(ExtractText(k, NE, "'\"\"'"))])
      case Eq =>
        var c := CoerceScalar(h, f.value);
        if c.Ok? then Ok(Containing(k, ArgOf(h, c.value))) else Unsupported(c.reason)
      case Ne =>
        var c := CoerceScalar(h, f.value);
        if c.Ok? then Ok(Negated(Containing(k, ArgOf(h, c.value)))) else Unsupported(c.reason)
      case Range(op) =>
        var c := CoerceRange(h, f.value);
        if c.Unsupported? then Unsupported(c.reason)
        else if IsNumber(c.value) then Ok([Atom(ExtractNumber(k, Order(op), c.value))])
        else Ok([Atom(ExtractText(k, Order(op), Literal(h.Str(c.value))))])
      case In =>
        var c := CsvOrList(h, f.value);
        if c.Ok? then Membership(h, k, c.value, false) else Unsupported(c.reason)
      case NotIn =>
        var c := CsvOrList(h, f.value);
        if c.Ok? then Membership(h, k, c.value, true) else Unsupported(c.reason)
      case Contains =>
        if !Truth(h, f.value) && Number(f.value) != Some(0.0) then Unsupported("contains value is empty")
        else
          var c := CoerceRange(h, f.value);
          if c.Ok? then Ok(Containing(k, ArgOf(h, c.value))) else Unsupported(c.reason)
      case NotContains =>
        var c := CoerceText(h, f.value);
        if c.Ok? then Ok(Negated(Containing(k, JsonText(c.value)))) else Unsupported(c.reason)
      case StartWith =>
        var c := CoerceText(h, f.value);
        if c.Ok? then Ok([Atom(Like(k, "'" + EscapeSql(Escape(LIKE, c.value)) + "%'"))]) else Unsupported(c.reason)
      case EndWith =>
        var c := CoerceText(h, f.value);
        if c.Ok? then Ok([Atom(Like(k, "'%" + EscapeSql(Escape(LIKE, c.value)) + "'"))]) else Unsupported(c.reason)
  }

  /** `build_infinity_filter` once every filter has been translated. */
  function Build(fragments: seq<Sql>, logic: string): Sql {
    if fragments == [] then [Atom(OneIsOne)]
    else Paren(Join(if logic == "and" then AND else OR, fragments))
  }

  // ----- what the filters mean -----

  /** Does the document contain this value?  Text is looked up as a JSON string. */
  function Has(h: Host, d: Answers, k: string, v: PyVal): Tri {
    if IsNumber(v) then d.number(k, v) else d.json(k, "\"" + h.Str(v) + "\"")
  }

  function HasMembers(h: Host, d: Answers, k: string, ms: seq<PyVal>): (r: seq<Tri>)
    ensures |r| == |ms|
  {
    seq(|ms|, i requires 0 <= i < |ms| =>
      if CoerceRange(h, ms[i]).Ok? then Has(h, d, k, CoerceRange(h, ms[i]).value) else Null)
  }

  function CompareText(d: Answers, k: string, op: SqlCmp, s: string): Tri {
    if d.text(k).None? then Null else Of(d.compareText(op, d.text(k).value, s))
  }

  /** The meaning of one filter, without any reference to SQL text. */
  function Intended(h: Host, d: Answers, f: Filter): Tri
    requires Translate(h, f).Ok?
  {
    var k := f.key;
    match f.op
    case Empty => CompareText(d, k, EQ, "\"\"")
    case NotEmpty => CompareText(d, k, NE, "\"\"")
    case Eq => Has(h, d, k, CoerceScalar(h, f.value).value)
    case Ne => Not3(Has(h, d, k, CoerceScalar(h, f.value).value))
    case Range(op) =>
      var v := CoerceRange(h, f.value).value;
      if IsNumber(v) then d.compareNumber(k, Order(op), v) else CompareText(d, k, Order(op), h.Str(v))
    case In => OrAll(HasMembers(h, d, k, CsvOrList(h, f.value).value))
    case NotIn => Not3(OrAll(HasMembers(h, d, k, CsvOrList(h, f.value).value)))
    case Contains => Has(h, d, k, CoerceRange(h, f.value).value)
    case NotContains => Not3(Has(h, d, k, PStr(h.Str(f.value))))
    case StartWith => if d.text(k).None? then Null else Of(h.Str(f.value) <= d.text(k).value)
    case EndWith => if d.text(k).None? then Null else Of(EndsWith(d.text(k).value, h.Str(f.value)))
  }

  lemma JsonTextReadsBack(s: string)
    ensures ReadLiteral(JsonText(s).text) == Some(("\"" + s + "\"", ""))
  {
    LiteralParts("\"", s, "\"");
    LiteralReadsBack("\"" + s + "\"", "");
    assert JsonText(s).text == Literal("\"" + s + "\"");
    assert JsonText(s).text + "" == JsonText(s).text;
  }

  lemma ContainingMeans(h: Host, d: Answers, k: string, v: PyVal)
    ensures var val := (p: Pred) => Val(d, p);
            IsAnd(val, Containing(k, ArgOf(h, v)), Has(h, d, k, v))
    ensures var val := (p: Pred) => Val(d, p);
            IsAnd(val, Negated(Containing(k, ArgOf(h, v))), Not3(Has(h, d, k, v)))
  {
    var val := (p: Pred) => Val(d, p);
    var p := JsonContains(k, ArgOf(h, v));
    assert Val(d, p) == Has(h, d, k, v) by {
      JsonTextReadsBack(h.Str(v));
    }
    assert val(p) == Has(h, d, k, v);
    hide IsAnd;
    SqlSyntax.LeafMeans(val, p);
    assert [NOT] + [Atom(p)] == [NOT, Atom(p)];
  }

  lemma PredMeans(d: Answers, p: Pred)
    ensures var val := (q: Pred) => Val(d, q); IsAnd(val, [Atom(p)], Val(d, p))
  {
    hide IsAnd, Val;
    SqlSyntax.LeafMeans((q: Pred) => Val(d, q), p);
  }

  // ----- membership lists -----

  function Hits(h: Host, d: Answers, k: string, vs: seq<PyVal>): (r: seq<Tri>)
    ensures |r| == |vs|
  {
    seq(|vs|, i requires 0 <= i < |vs| => Has(h, d, k, vs[i]))
  }

  function Flip(vs: seq<Tri>): (r: seq<Tri>)
    ensures |r| == |vs|
  {
    seq(|vs|, i requires 0 <= i < |vs| => Not3(vs[i]))
  }

  lemma {:induction false} DeMorgan(vs: seq<Tri>)
    ensures AndAll(Flip(vs)) == Not3(OrAll(vs))
  {
    if vs == [] {
    } else {
      assert Flip(vs)[1..] == Flip(vs[1..]);
      DeMorgan(vs[1..]);
    }
  }

  lemma PartStep(h: Host, d: Answers, k: string, ms: seq<PyVal>, numbers: bool)
    requires ms != [] && CoerceRange(h, ms[0]).Ok?
    ensures var v, rest := CoerceRange(h, ms[0]).value, OrAll(Hits(h, d, k, Part(h, ms[1..], numbers)));
            OrAll(Hits(h, d, k, Part(h, ms, numbers))) ==
            if IsNumber(v) == numbers then Or3(Has(h, d, k, v), rest) else rest
  {
    hide Has, CoerceRange;
    var v, rest := CoerceRange(h, ms[0]).value, Part(h, ms[1..], numbers);
    if IsNumber(v) == numbers {
      assert Part(h, ms, numbers) == [v] + rest;
      assert Hits(h, d, k, [v] + rest)[1..] == Hits(h, d, k, rest);
    } else {
      assert Part(h, ms, numbers) == [] + rest == rest;
    }
  }

  /** Regrouping the members into strings and numbers changes nothing. */
  lemma {:induction false} PartitionOr(h: Host, d: Answers, k: string, ms: seq<PyVal>)
    requires !NoneMember(h, ms)
    ensures Or3(OrAll(Hits(h, d, k, Part(h, ms, false))), OrAll(Hits(h, d, k, Part(h, ms, true)))) ==
            OrAll(HasMembers(h, d, k, ms))
  {
    hide Has, CoerceRange, Hits, Part;
    if ms == [] {
      PartOfNothing(h);
      NoHits(h, d, k);
    } else {
      assert forall i :: 0 <= i < |ms[1..]| ==> ms[1..][i] == ms[i + 1];
      PartitionOr(h, d, k, ms[1..]);
      PartStep(h, d, k, ms, false);
      PartStep(h, d, k, ms, true);
      assert HasMembers(h, d, k, ms)[1..] == HasMembers(h, d, k, ms[1..]);
    }
  }

  lemma PartOfNothing(h: Host)
    ensures Part(h, [], false) == [] && Part(h, [], true) == []
  {
  }

  /** A non-empty member list fills at least one group. */
  lemma {:induction false} SomePart(h: Host, ms: seq<PyVal>)
    requires !NoneMember(h, ms) && ms != []
    ensures Part(h, ms, false) != [] || Part(h, ms, true) != []
  {
    hide CoerceRange;
    var c := CoerceRange(h, ms[0]);
    assert c.Ok?;
    assert IsNumber(c.value) == true || IsNumber(c.value) == false;
  }

  function Signed(negate: bool, v: Tri): Tri {
    if negate then Not3(v) else v
  }

  /** One parenthesised group of members. */
  lemma GroupMeans(h: Host, d: Answers, k: string, vs: seq<PyVal>, negate: bool)
    requires vs != []
    ensures var val := (p: Pred) => Val(d, p);
            IsAnd(val, Paren(Join(if negate then AND else OR, Fragments(h, k, vs, negate))),
                  Signed(negate, OrAll(Hits(h, d, k, vs))))
  {
    hide IsAnd, IsOr, IsUnary, IsPrimary, Has, Val, Join, ArgOf;
    var val := (p: Pred) => Val(d, p);
    var xs := Fragments(h, k, vs, negate);
    var ts := if negate then Flip(Hits(h, d, k, vs)) else Hits(h, d, k, vs);
    forall i | 0 <= i < |xs|
      ensures IsAnd(val, xs[i], ts[i]) && IsOr(val, xs[i], ts[i])
    {
      ContainingMeans(h, d, k, vs[i]);
      AndIsOr(val, xs[i], ts[i]);
    }
    var v := Signed(negate, OrAll(Hits(h, d, k, vs)));
    if negate {
      JoinAnd(val, xs, ts);
      DeMorgan(Hits(h, d, k, vs));
      AndIsOr(val, Join(AND, xs), v);
    } else {
      JoinOr(val, xs, ts);
    }
    ParenMeans(val, Join(if negate then AND else OR, xs), v);
  }

  /** `in` is the disjunction over the members, and `not in`, although written as
      an unparenthesised conjunction of two groups, is its exact negation. */
  lemma MembershipMeans(h: Host, d: Answers, k: string, ms: seq<PyVal>, negate: bool)
    requires Membership(h, k, ms, negate).Ok? && ms != []
    ensures var val := (p: Pred) => Val(d, p);
            IsAnd(val, Membership(h, k, ms, negate).value, Signed(negate, OrAll(HasMembers(h, d, k, ms))))
  {
    hide IsAnd, IsOr, HasMembers, Val, Fragments, Hits, CoerceRange, Part, Join, OrAll, AndAll;
    var val := (p: Pred) => Val(d, p);
    var texts, numbers := Part(h, ms, false), Part(h, ms, true);
    PartitionOr(h, d, k, ms);
    SomePart(h, ms);
    var sep := if negate then AND else OR;
    var a, b := Paren(Join(sep, Fragments(h, k, texts, negate))), Paren(Join(sep, Fragments(h, k, numbers, negate)));
    var u, w := Signed(negate, OrAll(Hits(h, d, k, texts))), Signed(negate, OrAll(Hits(h, d, k, numbers)));
    if texts != [] {
      GroupMeans(h, d, k, texts, negate);
    }
    if numbers != [] {
      GroupMeans(h, d, k, numbers, negate);
    }
    var cs := (if texts == [] then [] else [a]) + (if numbers == [] then [] else [b]);
    var vs := (if texts == [] then [] else [u]) + (if numbers == [] then [] else [w]);
    GroupCount(h, k, texts, negate);
    GroupCount(h, k, numbers, negate);
    assert Conditions(Fragments(h, k, texts, negate), Fragments(h, k, numbers, negate), negate) == cs;
    NoHits(h, d, k);
    forall i | 0 <= i < |cs|
      ensures IsOr(val, cs[i], vs[i])
    {
      AndIsOr(val, cs[i], vs[i]);
    }
    TwoOrOne(vs, texts == [], numbers == [], u, w);
    if negate {
      JoinAnd(val, cs, vs);
    } else {
      JoinOr(val, cs, vs);
      ParenMeans(val, Join(OR, cs), OrAll(vs));
    }
  }

  lemma NoHits(h: Host, d: Answers, k: string)
    ensures OrAll(Hits(h, d, k, [])) == False
  {
  }

  lemma GroupCount(h: Host, k: string, vs: seq<PyVal>, negate: bool)
    ensures Fragments(h, k, vs, negate) == [] <==> vs == []
  {
    assert |Fragments(h, k, vs, negate)| == |vs|;
  }

  lemma TwoOrOne(vs: seq<Tri>, noText: bool, noNumber: bool, u: Tri, w: Tri)
    requires vs == (if noText then [] else [u]) + (if noNumber then [] else [w])
    ensures !noText && !noNumber ==> AndAll(vs) == And3(u, w) && OrAll(vs) == Or3(u, w)
    ensures noText && !noNumber ==> AndAll(vs) == OrAll(vs) == w
    ensures !noText && noNumber ==> AndAll(vs) == OrAll(vs) == u
  {
    AllOfOne(u);
    AllOfOne(w);
    if !noText && !noNumber {
      assert vs == [u, w];
      assert [u, w][1..] == [w];
    } else {
      assert [u] + [] == [u];
    }
  }

  lemma AllOfOne(v: Tri)
    ensures AndAll([v]) == v && OrAll([v]) == v
  {
    assert [v][1..] == [];
  }

  // ----- every filter, and the whole predicate -----

  lemma CsvNonEmpty(h: Host, v: PyVal)
    requires CsvOrList(h, v).Ok?
    ensures CsvOrList(h, v).value != []
  {
    assert |NormalMembers(h, RawMembers(h, v))| == |RawMembers(h, v)|;
  }

  lemma AffixMeans(h: Host, d: Answers, k: string, t: string)
    ensures Val(d, Like(k, "'" + EscapeSql(Escape(LIKE, t)) + "%'")) ==
            if d.text(k).None? then Null else Of(t <= d.text(k).value)
    ensures Val(d, Like(k, "'%" + EscapeSql(Escape(LIKE, t)) + "'")) ==
            if d.text(k).None? then Null else Of(EndsWith(d.text(k).value, t))
  {
    hide Matches, Escape, ReadBody, EscapeSql;
    var s := if d.text(k).Some? then d.text(k).value else "";
    LayeredLike(t, "", s);
    var a, b := "'" + EscapeSql(Escape(LIKE, t)) + "%'", "'%" + EscapeSql(Escape(LIKE, t)) + "'";
    assert a + "" == a && b + "" == b;
  }

  lemma CompareMeans(d: Answers, k: string, op: SqlCmp, s: string)
    ensures Val(d, ExtractText(k, op, Literal(s))) == CompareText(d, k, op, s)
  {
    LiteralReadsBack(s, "");
    assert Literal(s) + "" == Literal(s);
  }

  /** Every translated filter, wherever it is spliced in, has its intended value. */
  lemma FilterMeans(h: Host, d: Answers, f: Filter)
    requires Translate(h, f).Ok?
    ensures var val := (p: Pred) => Val(d, p); IsAnd(val, Translate(h, f).value, Intended(h, d, f))
  {
    hide IsAnd, Val, Has, CompareText, Membership, HasMembers, CsvOrList, EscapeSql, Escape, ReadLiteral;
    var val := (p: Pred) => Val(d, p);
    var k, s := f.key, Translate(h, f).value;
    match f.op
    case Empty =>
      CompareMeans(d, k, EQ, "\"\"");
      BlankLiteral();
      PredMeans(d, s[0].a);
    case NotEmpty =>
      CompareMeans(d, k, NE, "\"\"");
      BlankLiteral();
      PredMeans(d, s[0].a);
    case Eq => ContainingMeans(h, d, k, CoerceScalar(h, f.value).value);
    case Ne => ContainingMeans(h, d, k, CoerceScalar(h, f.value).value);
    case Range(op) =>
      var v := CoerceRange(h, f.value).value;
      CompareMeans(d, k, Order(op), h.Str(v));
      NumberMeans(d, k, Order(op), v);
      PredMeans(d, s[0].a);
    case In =>
      CsvNonEmpty(h, f.value);
      MembershipMeans(h, d, k, CsvOrList(h, f.value).value, false);
    case NotIn =>
      CsvNonEmpty(h, f.value);
      MembershipMeans(h, d, k, CsvOrList(h, f.value).value, true);
    case Contains => ContainingMeans(h, d, k, CoerceRange(h, f.value).value);
    case NotContains => ContainingMeans(h, d, k, PStr(h.Str(f.value)));
    case StartWith =>
      AffixMeans(h, d, k, h.Str(f.value));
      PredMeans(d, s[0].a);
    case EndWith =>
      AffixMeans(h, d, k, h.Str(f.value));
      PredMeans(d, s[0].a);
  }

  lemma BlankLiteral()
    ensures Literal("\"\"") == "'\"\"'"
  {
    ReplaceNothing("\"\"", '\'', "''");
  }

  lemma NumberMeans(d: Answers, k: string, op: SqlCmp, v: PyVal)
    ensures Val(d, ExtractNumber(k, op, v)) == d.compareNumber(k, op, v)
  {
  }

  function IntendedAll(h: Host, d: Answers, fs: seq<Filter>): (r: seq<Tri>)
    requires forall i :: 0 <= i < |fs| ==> Translate(h, fs[i]).Ok?
    ensures |r| == |fs|
  {
    seq(|fs|, i requires 0 <= i < |fs| => Intended(h, d, fs[i]))
  }

  /** Rendering is precedence-correct: the text of the whole request reads back as
      the conjunction or disjunction of what the filters mean. */
  lemma BuildMeans(h: Host, d: Answers, fs: seq<Filter>, logic: string, fragments: seq<Sql>)
    requires |fragments| == |fs|
    requires forall i :: 0 <= i < |fs| ==> Translate(h, fs[i]) == Ok(fragments[i])
    ensures var val := (p: Pred) => Val(d, p);
            Evaluate(val, Build(fragments, logic)) ==
            Value(if fs == [] || logic == "and" then AndAll(IntendedAll(h, d, fs)) else OrAll(IntendedAll(h, d, fs)))
  {
    hide IsAnd, IsOr, Val, Translate, Intended, Evaluate;
    var val := (p: Pred) => Val(d, p);
    if fs == [] {
      PredMeans(d, OneIsOne);
      AlwaysTrue(d);
      AndIsOr(val, [Atom(OneIsOne)], True);
      OrEvaluates(val, [Atom(OneIsOne)], True);
    } else {
      var vs := IntendedAll(h, d, fs);
      forall i | 0 <= i < |fs|
        ensures IsAnd(val, fragments[i], vs[i]) && IsOr(val, fragments[i], vs[i])
      {
        FilterMeans(h, d, fs[i]);
        AndIsOr(val, fragments[i], vs[i]);
      }
      var sep := if logic == "and" then AND else OR;
      var v := if logic == "and" then AndAll(vs) else OrAll(vs);
      if logic == "and" {
        JoinAnd(val, fragments, vs);
        AndIsOr(val, Join(AND, fragments), v);
      } else {
        JoinOr(val, fragments, vs);
      }
      ParenMeans(val, Join(sep, fragments), v);
      AndIsOr(val, Paren(Join(sep, fragments)), v);
      OrEvaluates(val, Paren(Join(sep, fragments)), v);
    }
  }

  lemma AlwaysTrue(d: Answers)
    ensures Val(d, OneIsOne) == True
  {
  }

  /** `contains` and `not contains` exclude each other on every document exactly
      when the value does not read as a number: only `contains` coerces it. */
  lemma NotContainsComplementIff(h: Host, k: string, value: PyVal)
    requires Translate(h, Filter(k, Contains, value)).Ok? && Translate(h, Filter(k, NotContains, value)).Ok?
    ensures (forall d: Answers ::
               Intended(h, d, Filter(k, NotContains, value)) == Not3(Intended(h, d, Filter(k, Contains, value)))) <==>
            CoerceRange(h, value).value.PStr?
  {
    var c := CoerceRange(h, value).value;
    if IsNumber(c) {
      var d := Answers((k', t) => True, (k', n) => False, k' => None, (op, s, t) => false, (k', op, n) => False);
      assert Intended(h, d, Filter(k, Contains, value)) == False;
      assert Intended(h, d, Filter(k, NotContains, value)) == False;
    }
  }
}
