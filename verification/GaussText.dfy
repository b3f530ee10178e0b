/** The GaussDB statement as the driver reads it: the characters that are sent, and the
    `%s` marks in them. */
module GaussText {
  import opened Text
  import opened Python
  import opened MetaFilter
  import opened Coercion
  import opened SqlSyntax
  import opened GaussFilter
  import JsonPath

  /** A character of the statement, or a place for a parameter. */
  datatype Bit = Ch(c: char) | Param

  function Chars(s: string): (r: seq<Bit>)
    ensures |r| == |s| && forall i :: 0 <= i < |s| ==> r[i] == Ch(s[i])
  {
    seq(|s|, i requires 0 <= i < |s| => Ch(s[i]))
  }

  /** The text given to the driver: a place for a parameter is written `%s`. */
  function Written(bits: seq<Bit>): string {
    if bits == [] then [] else (if bits[0].Param? then "%s" else [bits[0].c]) + Written(bits[1..])
  }

  /** How many characters a conversion takes after its `%`; 0 when the driver refuses. */
  datatype Driver = Driver(conversion: string -> nat) {
    ghost predicate Sane() {
      forall s: string :: s != [] && s[0] == 's' ==> conversion(s) == 1
    }
  }

  /** `cur.execute(sql, params)` reading the text: a doubled `%` is a `%`, any other one
      starts a conversion that takes a parameter. */
  function ReadText(dr: Driver, s: string): Option<seq<Bit>>
    decreases |s|
  {
    if s == [] then Some([])
    else if s[0] != '%' then Before([Ch(s[0])], ReadText(dr, s[1..]))
    else if |s| > 1 && s[1] == '%' then Before([Ch('%')], ReadText(dr, s[2..]))
    else
      var n := dr.conversion(s[1..]);
      if n == 0 || n >= |s| then None else Before([Param], ReadText(dr, s[1 + n..]))
  }

  function Before(x: seq<Bit>, r: Option<seq<Bit>>): Option<seq<Bit>> {
    if r.None? then None else Some(x + r.value)
  }

  /** Characters a reading must have used up. */
  function Cost(bits: seq<Bit>): nat {
    if bits == [] then 0 else (if bits[0].Param? || bits[0] == Ch('%') then 2 else 1) + Cost(bits[1..])
  }

  lemma {:induction false} CostIsPaid(dr: Driver, s: string)
    requires ReadText(dr, s).Some?
    ensures Cost(ReadText(dr, s).value) <= |s|
    decreases |s|
  {
    if s == [] {
    } else {
      var n := if s[0] != '%' then 1 else if |s| > 1 && s[1] == '%' then 2 else 1 + dr.conversion(s[1..]);
      CostIsPaid(dr, s[n..]);
      assert ReadText(dr, s).value[1..] == ReadText(dr, s[n..]).value;
    }
  }

  lemma {:induction false} WrittenCost(bits: seq<Bit>)
    ensures |Written(bits)| <= Cost(bits)
    ensures |Written(bits)| == Cost(bits) <==> Ch('%') !in bits
  {
    if bits == [] {
    } else {
      WrittenCost(bits[1..]);
      assert bits == [bits[0]] + bits[1..];
    }
  }

  lemma {:induction false} CleanReads(dr: Driver, bits: seq<Bit>)
    requires dr.Sane() && Ch('%') !in bits
    ensures ReadText(dr, Written(bits)) == Some(bits)
  {
    if bits == [] {
    } else {
      var t, rest := Written(bits), Written(bits[1..]);
      assert bits == [bits[0]] + bits[1..];
      CleanReads(dr, bits[1..]);
      if bits[0].Param? {
        assert t[0] == '%' && t[1] == 's' && t[1..][0] == 's' && t[2..] == rest;
      } else {
        assert t[0] == bits[0].c && t[1..] == rest;
      }
    }
  }

  /** The driver reads a statement as it is meant exactly when it holds no `%` of its
      own. */
  lemma ReadsAsMeantIff(dr: Driver, bits: seq<Bit>)
    requires dr.Sane()
    ensures ReadText(dr, Written(bits)) == Some(bits) <==> Ch('%') !in bits
  {
    if Ch('%') !in bits {
      CleanReads(dr, bits);
    }
    WrittenCost(bits);
    if ReadText(dr, Written(bits)) == Some(bits) {
      CostIsPaid(dr, Written(bits));
    }
  }

  // ----- the text of a statement -----

  /** The fixed texts of a predicate, in pieces. */
  datatype Word =
    | VALUE | TEXT | CASE_WHEN | WHEN | MATCHES | THEN | STAMP | REPLACE | D4 | D2 | DASH | T_OR_BLANK
    | COLON | BY_BLANK | PLUS | FIRST_DAY | HOUR_0 | ZEROS | QUOTE | YMD | HMS | END | IF_NUMBER
    | FRACTION | THEN_OPEN | AS_NUMBER | PRECISION | OTHERWISE | OPEN | NOT_NULL | IS_NULL | LOWER
    | LOWER_IS | EXISTS | COMMA | CLOSE | HOLDS | AS_JSON | LIKES | ESCAPES | TAUTOLOGY | AND_TEXT
    | OR_TEXT | NOT_TEXT | NOT_TRUE | NOTHING | MORE | LESS | AT_LEAST | AT_MOST | IS_NULL_JSON
    | IS_NO_TEXT | IS_NO_ARRAY | IS_NO_OBJECT

  function Spelled(w: Word): string {
    match w
    case VALUE => "meta_fields #> "
    case TEXT => "meta_fields #>> "
    case OPEN => "("
    case LOWER => "lower("
    case LOWER_IS => ") = "
    case EXISTS => "jsonb_exists("
    case COMMA => ", "
    case CLOSE => ")"
    case HOLDS => " @> "
    case AS_JSON => "::jsonb"
    case LIKES => ") LIKE "
    case ESCAPES => " ESCAPE '\\'"
    case STAMP => "to_timestamp("
    case REPLACE => "replace("
    case _ => SpelledLogic(w)
  }

  /** Connectives, comparisons and blank tests. */
  function SpelledLogic(w: Word): string {
    match w
    case NOT_NULL => ") IS NOT NULL"
    case IS_NULL => ") IS NULL"
    case TAUTOLOGY => "1=1"
    case AND_TEXT => " AND "
    case OR_TEXT => " OR "
    case NOT_TEXT => "NOT "
    case NOT_TRUE => " IS NOT TRUE"
    case NOTHING => ""
    case MORE => "> "
    case LESS => "< "
    case AT_LEAST => ">= "
    case AT_MOST => "<= "
    case IS_NULL_JSON => " = 'null'::jsonb"
    case IS_NO_TEXT => " = '\"\"'::jsonb"
    case IS_NO_ARRAY => " = '[]'::jsonb"
    case IS_NO_OBJECT => " = '{}'::jsonb"
    case YMD => ", 'YYYY-MM-DD"
    case HMS => " HH24:MI:SS')"
    case _ => SpelledStamp(w)
  }

  /** The timestamp and number tests, but for their patterns. */
  function SpelledStamp(w: Word): string {
    match w
    case AS_NUMBER => ")::DOUBLE "
    case PRECISION => "PRECISION "
    case OTHERWISE => " ELSE FALSE END"
    case CASE_WHEN => "CASE WHEN "
    case WHEN => " WHEN "
    case BY_BLANK => ", 'T', ' ')"
    case END => " END "
    case THEN_OPEN => " THEN ("
    case _ => SpelledShape(w)
  }

  /** The pieces of their patterns and of the completed timestamps. */
  function SpelledShape(w: Word): string {
    match w
    case MATCHES => " ~ '^"
    case THEN => "$' THEN "
    case D4 => "[0-9]{4}"
    case D2 => "[0-9]{2}"
    case DASH => "-"
    case T_OR_BLANK => "[T ]"
    case COLON => ":"
    case PLUS => " || '"
    case FIRST_DAY => "-01"
    case HOUR_0 => " 00"
    case ZEROS => ":00"
    case QUOTE => "'"
    case IF_NUMBER => "-?[0-9]+"
    case FRACTION => "(\\.[0-9]+)?$'"
    case _ => ""
  }

  /** A statement is fixed text, the path of the key, and places for parameters. */
  datatype Part = Fixed(w: Word) | Path | Place

  function PartBits(x: Part, path: seq<Bit>): seq<Bit> {
    match x case Fixed(w) => Chars(Spelled(w)) case Path => path case Place => [Param]
  }

  function Bits(xs: seq<Part>, path: seq<Bit>): seq<Bit> {
    if xs == [] then [] else PartBits(xs[0], path) + Bits(xs[1..], path)
  }

  function OpText(cmp: Cmp): Word {
    match cmp case GT => MORE case LT => LESS case GE => AT_LEAST case LE => AT_MOST
  }

  function BlankText(b: Blank): Word {
    match b
    case NullJson => IS_NULL_JSON
    case EmptyText => IS_NO_TEXT
    case EmptyArray => IS_NO_ARRAY
    case EmptyObject => IS_NO_OBJECT
  }

  function ArgPart(a: Arg): Part {
    if a.Hole? then Place else Fixed(NOTHING)
  }

  function Fixeds(ss: seq<Word>): (r: seq<Part>)
    ensures |r| == |ss| && forall i :: 0 <= i < |ss| ==> r[i] == Fixed(ss[i])
  {
    seq(|ss|, i requires 0 <= i < |ss| => Fixed(ss[i]))
  }

  /** WHEN text ~ '^shape$' THEN to_timestamp(text || 'rest', format), where the text may
      have its T replaced. */
  function Branch(shape: seq<Word>, replaced: bool, rest: seq<Word>): seq<Part> {
    [Fixed(TEXT), Path] + Fixeds([MATCHES] + shape + [THEN, STAMP] + (if replaced then [REPLACE] else [])) +
    [Fixed(TEXT), Path] + Fixeds((if replaced then [BY_BLANK] else []) + rest + [YMD, HMS])
  }

  const DATE: seq<Word> := [D4, DASH, D2, DASH, D2]

  /** `_datetime_expr`, branch by branch. */
  function DatetimeParts(): seq<Part> {
    [Fixed(CASE_WHEN)] + Branch([D4, DASH, D2], false, [PLUS, FIRST_DAY, HOUR_0, ZEROS, ZEROS, QUOTE]) +
    [Fixed(WHEN)] + Branch(DATE, false, [PLUS, HOUR_0, ZEROS, ZEROS, QUOTE]) +
    [Fixed(WHEN)] + Branch(DATE + [T_OR_BLANK, D2], true, [PLUS, ZEROS, ZEROS, QUOTE]) +
    [Fixed(WHEN)] + Branch(DATE + [T_OR_BLANK, D2, COLON, D2], true, [PLUS, ZEROS, QUOTE]) +
    [Fixed(WHEN)] + Branch(DATE + [T_OR_BLANK, D2, COLON, D2, COLON, D2], true, []) + [Fixed(END)]
  }

  function PredParts(p: Pred): seq<Part> {
    match p
    case OneIsOne => [Fixed(TAUTOLOGY)]
    case KeyExists(_) => [Fixed(OPEN), Fixed(VALUE), Path, Fixed(NOT_NULL)]
    case KeyMissing(_) => [Fixed(OPEN), Fixed(VALUE), Path, Fixed(IS_NULL)]
    case IsBlank(_, b) => [Fixed(VALUE), Path, Fixed(BlankText(b))]
    case LowerEquals(_, a) => [Fixed(LOWER), Fixed(TEXT), Path, Fixed(LOWER_IS), ArgPart(a)]
    case JsonExists(_, a) => [Fixed(EXISTS), Fixed(VALUE), Path, Fixed(COMMA), ArgPart(a), Fixed(CLOSE)]
    case JsonHolds(_, a) => [Fixed(VALUE), Path, Fixed(HOLDS), ArgPart(a), Fixed(AS_JSON)]
    case LowerLike(_, a) => [Fixed(LOWER), Fixed(TEXT), Path, Fixed(LIKES), ArgPart(a), Fixed(ESCAPES)]
    case TimeCompare(_, c, a) =>
      DatetimeParts() + [Fixed(OpText(c)), Fixed(STAMP), ArgPart(a), Fixed(YMD), Fixed(HMS)]
    case NumberCompare(_, c, a) =>
      [Fixed(CASE_WHEN), Fixed(TEXT), Path, Fixed(MATCHES), Fixed(IF_NUMBER), Fixed(FRACTION), Fixed(THEN_OPEN),
       Fixed(TEXT), Path, Fixed(AS_NUMBER), Fixed(PRECISION), Fixed(OpText(c)), ArgPart(a), Fixed(OTHERWISE)]
  }

  function TokenParts(t: Token<Pred>): seq<Part> {
    match t
    case LP => [Fixed(OPEN)]
    case RP => [Fixed(CLOSE)]
    case AND => [Fixed(AND_TEXT)]
    case OR => [Fixed(OR_TEXT)]
    case NOT => [Fixed(NOT_TEXT)]
    case ISNOTTRUE => [Fixed(NOT_TRUE)]
    case Atom(p) => PredParts(p)
  }

  function KeyOf(t: Token<Pred>): string {
    if t.Atom? && !t.a.OneIsOne? then t.a.key else ""
  }

  function PathBits(k: string): seq<Bit> {
    Chars(JsonPath.PathLiteral(k))
  }

  function SqlBits(s: Sql): seq<Bit> {
    if s == [] then [] else Bits(TokenParts(s[0]), PathBits(KeyOf(s[0]))) + SqlBits(s[1..])
  }

  function KbPlaces(n: nat): seq<Bit> {
    if n == 0 then [] else if n == 1 then [Param] else [Param] + Chars(", ") + KbPlaces(n - 1)
  }

  function Head(table: string, n: nat): seq<Bit> {
    Chars("SELECT id FROM ") + Chars(table) + Chars(" WHERE kb_id IN (") + KbPlaces(n)
  }

  function Enclosed(table: string, n: nat, bits: seq<Bit>): seq<Bit> {
    Head(table, n) + Chars(") AND (") + bits + Chars(") ORDER BY id LIMIT ") + [Param]
  }

  /** The statement of `fetch_metadata_doc_ids`, for n knowledge bases. */
  function Statement(table: string, n: nat, s: Sql): seq<Bit> {
    Enclosed(table, n, SqlBits(s))
  }

  // ----- where a percent sign can come from -----

  predicate Percent(bits: seq<Bit>) {
    Ch('%') in bits
  }

  lemma ConcatHolds(a: seq<Bit>, b: seq<Bit>)
    ensures Percent(a + b) <==> Percent(a) || Percent(b)
  {
  }

  lemma CharsHold(s: string)
    ensures Percent(Chars(s)) <==> '%' in s
  {
    if '%' in s {
      var i :| 0 <= i < |s| && s[i] == '%';
      assert Chars(s)[i] == Ch('%');
    }
  }

  /** No fixed text holds a percent sign. */
  lemma SpelledClean(w: Word)
    ensures '%' !in Spelled(w)
  {
    LogicClean(w);
    hide SpelledLogic;
  }

  lemma LogicClean(w: Word)
    ensures '%' !in SpelledLogic(w)
  {
    StampClean(w);
    hide SpelledStamp;
  }

  lemma StampClean(w: Word)
    ensures '%' !in SpelledStamp(w)
  {
    ShapeClean(w);
    hide SpelledShape;
  }

  lemma ShapeClean(w: Word)
    ensures '%' !in SpelledShape(w)
  {
  }

  lemma {:induction false} PartsHold(xs: seq<Part>, path: seq<Bit>)
    ensures Percent(Bits(xs, path)) <==> Path in xs && Percent(path)
  {
    if xs == [] {
    } else {
      assert xs == [xs[0]] + xs[1..];
      PartsHold(xs[1..], path);
      if xs[0].Fixed? {
        SpelledClean(xs[0].w);
        CharsHold(Spelled(xs[0].w));
      }
      hide Percent;
      ConcatHolds(PartBits(xs[0], path), Bits(xs[1..], path));
      assert !Percent([Param]) by {
        NoPercent();
      }
    }
  }

  lemma NoPercent()
    ensures !Percent([Param]) && !Percent([])
  {
  }

  /** Exactly the comparisons of a key write its path. */
  lemma WritesPath(t: Token<Pred>)
    ensures Path in TokenParts(t) <==> t.Atom? && !t.a.OneIsOne?
  {
    if t.Atom? {
      hide DatetimeParts, OpText, BlankText;
      var xs := PredParts(t.a);
      match t.a
      case OneIsOne =>
      case IsBlank(_, _) => assert xs[1] == Path;
      case JsonHolds(_, _) => assert xs[1] == Path;
      case TimeCompare(_, _, _) =>
        DatetimePath();
        assert xs[2] == Path;
      case _ => assert xs[2] == Path;
    }
  }

  lemma DatetimePath()
    ensures |DatetimeParts()| > 2 && DatetimeParts()[2] == Path
  {
    assert Branch([D4, DASH, D2], false, [PLUS, FIRST_DAY, HOUR_0, ZEROS, ZEROS, QUOTE])[1] == Path;
  }

  lemma PathHolds(k: string)
    ensures Percent(PathBits(k)) <==> '%' in k
  {
    JsonPath.LiteralHolds(k, '%');
    CharsHold(JsonPath.PathLiteral(k));
  }
}
