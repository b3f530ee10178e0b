/** The characters of every comparison, as they stand in the statement. */
module GaussSpelling {
  import opened Text
  import opened Python
  import opened SqlSyntax
  import opened GaussFilter
  import opened GaussText
  import GaussPatterns

  function TextOf(p: Pred): seq<Bit> {
    Bits(PredParts(p), PathBits(KeyOf(Atom(p))))
  }

  lemma {:induction false} BitsConcat(xs: seq<Part>, ys: seq<Part>, path: seq<Bit>)
    ensures Bits(xs + ys, path) == Bits(xs, path) + Bits(ys, path)
  {
    if xs == [] {
      assert xs + ys == ys;
    } else {
      assert (xs + ys)[1..] == xs[1..] + ys;
      BitsConcat(xs[1..], ys, path);
    }
  }

  lemma OnePart(x: Part, path: seq<Bit>)
    ensures Bits([x], path) == PartBits(x, path)
  {
    assert [x][1..] == [];
  }

  lemma {:induction false} CharsConcat(a: string, b: string)
    ensures Chars(a + b) == Chars(a) + Chars(b)
  {
    assert |Chars(a + b)| == |Chars(a) + Chars(b)|;
  }

  lemma {:induction false} FixedText(ws: seq<Word>, path: seq<Bit>)
    ensures Bits(Fixeds(ws), path) == Chars(GaussPatterns.Shape(ws))
  {
    if ws == [] {
      assert Chars("") == [];
    } else {
      assert Fixeds(ws)[1..] == Fixeds(ws[1..]);
      FixedText(ws[1..], path);
      CharsConcat(Spelled(ws[0]), GaussPatterns.Shape(ws[1..]));
      hide Spelled;
    }
  }

  /** `a`, the path of the key, and `b`. */
  function Around(a: string, path: seq<Bit>, b: string): seq<Bit> {
    Chars(a) + path + Chars(b)
  }

  lemma AroundIs(a: Word, path: seq<Bit>, b: Word)
    ensures Bits([Fixed(a), Path, Fixed(b)], path) == Around(Spelled(a), path, Spelled(b))
  {
    assert [Fixed(a), Path, Fixed(b)] == [Fixed(a)] + [Path] + [Fixed(b)];
    BitsConcat([Fixed(a)] + [Path], [Fixed(b)], path);
    BitsConcat([Fixed(a)], [Path], path);
    OnePart(Fixed(a), path);
    OnePart(Path, path);
    OnePart(Fixed(b), path);
    hide Bits, Spelled;
  }

  lemma ColumnsSpelled()
    ensures Spelled(VALUE) == "meta_fields #> " && Spelled(TEXT) == "meta_fields #>> " && Spelled(OPEN) == "("
  {
    hide SpelledLogic;
  }

  lemma FunctionsSpelled()
    ensures Spelled(LOWER) == "lower(" && Spelled(LOWER_IS) == ") = " && Spelled(EXISTS) == "jsonb_exists("
  {
    hide SpelledLogic;
  }

  lemma MarksSpelled()
    ensures Spelled(COMMA) == ", " && Spelled(CLOSE) == ")"
  {
    hide SpelledLogic;
  }

  lemma OperatorsSpelled()
    ensures Spelled(HOLDS) == " @> " && Spelled(AS_JSON) == "::jsonb"
  {
    hide SpelledLogic;
  }

  lemma LikesSpelled()
    ensures Spelled(LIKES) == ") LIKE " && Spelled(ESCAPES) == " ESCAPE '\\'"
  {
    hide SpelledLogic;
  }

  lemma BlanksAreLogic(w: Word)
    requires w in {NOT_NULL, IS_NULL, IS_NULL_JSON, IS_NO_TEXT, IS_NO_ARRAY, IS_NO_OBJECT, YMD, HMS}
    ensures Spelled(w) == SpelledLogic(w)
  {
    hide SpelledLogic;
  }

  lemma PresenceSpelled()
    ensures Spelled(NOT_NULL) == ") IS NOT NULL" && Spelled(IS_NULL) == ") IS NULL"
  {
    BlanksAreLogic(NOT_NULL);
    BlanksAreLogic(IS_NULL);
    hide Spelled, SpelledStamp;
  }

  lemma BlanksSpelled()
    ensures Spelled(IS_NULL_JSON) == " = 'null'::jsonb" && Spelled(IS_NO_TEXT) == " = '\"\"'::jsonb"
  {
    BlanksAreLogic(IS_NULL_JSON);
    BlanksAreLogic(IS_NO_TEXT);
    hide Spelled, SpelledStamp;
  }

  lemma EmptiesSpelled()
    ensures Spelled(IS_NO_ARRAY) == " = '[]'::jsonb" && Spelled(IS_NO_OBJECT) == " = '{}'::jsonb"
  {
    BlanksAreLogic(IS_NO_ARRAY);
    BlanksAreLogic(IS_NO_OBJECT);
    hide Spelled, SpelledStamp;
  }

  lemma FormatSpelled()
    ensures Spelled(YMD) == ", 'YYYY-MM-DD" && Spelled(HMS) == " HH24:MI:SS')"
  {
    BlanksAreLogic(YMD);
    BlanksAreLogic(HMS);
    hide Spelled, SpelledStamp;
  }

  lemma ShapesAreLast(w: Word)
    requires w in {MATCHES, THEN, FIRST_DAY, HOUR_0, ZEROS, QUOTE, PLUS}
    ensures Spelled(w) == SpelledShape(w)
  {
    hide SpelledShape;
  }

  lemma MatchSpelled()
    ensures Spelled(MATCHES) == " ~ '^" && Spelled(THEN) == "$' THEN "
  {
    ShapesAreLast(MATCHES);
    ShapesAreLast(THEN);
    hide Spelled;
  }

  lemma StampSpelled()
    ensures Spelled(STAMP) == "to_timestamp(" && Spelled(REPLACE) == "replace("
  {
    hide SpelledLogic;
  }

  lemma ByBlankSpelled()
    ensures Spelled(BY_BLANK) == ", 'T', ' ')"
  {
    ByBlankIsStamp();
    hide Spelled, SpelledShape;
  }

  lemma ByBlankIsStamp()
    ensures Spelled(BY_BLANK) == SpelledStamp(BY_BLANK)
  {
    hide SpelledStamp;
  }

  lemma CompletionWords()
    ensures Spelled(QUOTE) == "'" && Spelled(ZEROS) == ":00" && Spelled(HOUR_0) == " 00"
    ensures Spelled(FIRST_DAY) == "-01" && Spelled(PLUS) == " || '"
  {
    ShapesAreLast(QUOTE);
    ShapesAreLast(ZEROS);
    ShapesAreLast(HOUR_0);
    ShapesAreLast(FIRST_DAY);
    ShapesAreLast(PLUS);
    hide Spelled;
  }

  /** Presence, emptiness and the tests of texts and JSON, with their places. */
  lemma TestsSpelled(k: string)
    ensures var p := PathBits(k);
      && TextOf(KeyExists(k)) == Chars("(") + Around("meta_fields #> ", p, ") IS NOT NULL")
      && TextOf(KeyMissing(k)) == Chars("(") + Around("meta_fields #> ", p, ") IS NULL")
      && TextOf(IsBlank(k, NullJson)) == Around("meta_fields #> ", p, " = 'null'::jsonb")
      && TextOf(IsBlank(k, EmptyText)) == Around("meta_fields #> ", p, " = '\"\"'::jsonb")
      && TextOf(IsBlank(k, EmptyArray)) == Around("meta_fields #> ", p, " = '[]'::jsonb")
      && TextOf(IsBlank(k, EmptyObject)) == Around("meta_fields #> ", p, " = '{}'::jsonb")
  {
    var p := PathBits(k);
    ColumnsSpelled();
    PresenceSpelled();
    BlanksSpelled();
    EmptiesSpelled();
    hide Spelled;
    OpenedIs(VALUE, p, NOT_NULL);
    OpenedIs(VALUE, p, IS_NULL);
    AroundIs(VALUE, p, IS_NULL_JSON);
    AroundIs(VALUE, p, IS_NO_TEXT);
    AroundIs(VALUE, p, IS_NO_ARRAY);
    AroundIs(VALUE, p, IS_NO_OBJECT);
    hide Bits, Around, PathBits;
  }

  lemma OpenedIs(a: Word, path: seq<Bit>, b: Word)
    ensures Bits([Fixed(OPEN), Fixed(a), Path, Fixed(b)], path) ==
            Chars(Spelled(OPEN)) + Around(Spelled(a), path, Spelled(b))
  {
    assert [Fixed(OPEN), Fixed(a), Path, Fixed(b)] == [Fixed(OPEN)] + [Fixed(a), Path, Fixed(b)];
    BitsConcat([Fixed(OPEN)], [Fixed(a), Path, Fixed(b)], path);
    OnePart(Fixed(OPEN), path);
    AroundIs(a, path, b);
    hide Bits, Spelled;
  }

  /** Tests of the text, in lower case. */
  lemma LowerSpelled(k: string)
    ensures var p := PathBits(k);
      && TextOf(LowerEquals(k, Hole)) == Chars("lower(") + Around("meta_fields #>> ", p, ") = ") + [Param] + Chars("")
      && TextOf(LowerLike(k, Hole)) ==
           Chars("lower(") + Around("meta_fields #>> ", p, ") LIKE ") + [Param] + Chars(" ESCAPE '\\'")
  {
    var p := PathBits(k);
    ColumnsSpelled();
    FunctionsSpelled();
    LikesSpelled();
    hide Spelled;
    OneShape(LOWER);
    OneShape(ESCAPES);
    assert PredParts(LowerEquals(k, Hole)) ==
           Fixeds([LOWER]) + [Fixed(TEXT), Path, Fixed(LOWER_IS)] + [Place] + Fixeds([]);
    assert PredParts(LowerLike(k, Hole)) ==
           Fixeds([LOWER]) + [Fixed(TEXT), Path, Fixed(LIKES)] + [Place] + Fixeds([ESCAPES]);
    hide Bits, Around, PathBits, Fixeds, PredParts, Chars, GaussPatterns.Shape;
    PlaceIs([LOWER], TEXT, p, LOWER_IS, []);
    PlaceIs([LOWER], TEXT, p, LIKES, [ESCAPES]);
  }

  /** Tests of the JSON value. */
  lemma JsonSpelled(k: string)
    ensures var p := PathBits(k);
      && TextOf(JsonExists(k, Hole)) ==
           Chars("jsonb_exists(") + Around("meta_fields #> ", p, ", ") + [Param] + Chars(")")
      && TextOf(JsonHolds(k, Hole)) == Chars("") + Around("meta_fields #> ", p, " @> ") + [Param] + Chars("::jsonb")
  {
    var p := PathBits(k);
    ColumnsSpelled();
    FunctionsSpelled();
    MarksSpelled();
    OperatorsSpelled();
    hide Spelled;
    OneShape(EXISTS);
    OneShape(CLOSE);
    OneShape(AS_JSON);
    assert PredParts(JsonExists(k, Hole)) ==
           Fixeds([EXISTS]) + [Fixed(VALUE), Path, Fixed(COMMA)] + [Place] + Fixeds([CLOSE]);
    assert PredParts(JsonHolds(k, Hole)) ==
           Fixeds([]) + [Fixed(VALUE), Path, Fixed(HOLDS)] + [Place] + Fixeds([AS_JSON]);
    hide Bits, Around, PathBits, Fixeds, PredParts, Chars, GaussPatterns.Shape;
    PlaceIs([EXISTS], VALUE, p, COMMA, [CLOSE]);
    PlaceIs([], VALUE, p, HOLDS, [AS_JSON]);
  }

  lemma OneShape(w: Word)
    ensures GaussPatterns.Shape([w]) == Spelled(w) && GaussPatterns.Shape([]) == ""
  {
    assert [w][1..] == [];
    hide Spelled;
  }

  lemma PlaceIs(pre: seq<Word>, a: Word, path: seq<Bit>, b: Word, post: seq<Word>)
    ensures Bits(Fixeds(pre) + [Fixed(a), Path, Fixed(b)] + [Place] + Fixeds(post), path) ==
            Chars(GaussPatterns.Shape(pre)) + Around(Spelled(a), path, Spelled(b)) + [Param] +
            Chars(GaussPatterns.Shape(post))
  {
    BitsConcat(Fixeds(pre) + [Fixed(a), Path, Fixed(b)] + [Place], Fixeds(post), path);
    BitsConcat(Fixeds(pre) + [Fixed(a), Path, Fixed(b)], [Place], path);
    BitsConcat(Fixeds(pre), [Fixed(a), Path, Fixed(b)], path);
    FixedText(pre, path);
    FixedText(post, path);
    AroundIs(a, path, b);
    OnePart(Place, path);
    hide Bits, Spelled, Around, Fixeds, GaussPatterns.Shape;
  }

  // ----- the timestamp test -----

  /** WHEN and THEN of one branch, for a pattern, what is done to the text, and the format. */
  lemma BranchSpelled(shape: seq<Word>, replaced: bool, rest: seq<Word>, path: seq<Bit>)
    ensures Bits(Branch(shape, replaced, rest), path) ==
            Around("meta_fields #>> ", path, " ~ '^" + GaussPatterns.Shape(shape) + "$' THEN to_timestamp(" +
                                             (if replaced then "replace(" else "")) +
            Around("meta_fields #>> ", path, (if replaced then ", 'T', ' ')" else "") + GaussPatterns.Shape(rest) +
                                             ", 'YYYY-MM-DD HH24:MI:SS')")
  {
    var before, after := BeforeWords(shape, replaced), AfterWords(replaced, rest);
    TextAnd(before, path);
    TextAnd(after, path);
    BranchParts(shape, replaced, rest);
    BeforeSpelled(shape, replaced);
    AfterSpelled(replaced, rest);
    hide Fixeds, Branch, Around, Bits, GaussPatterns.Shape, BeforeWords, AfterWords;
    BitsConcat([Fixed(TEXT), Path] + Fixeds(before), [Fixed(TEXT), Path] + Fixeds(after), path);
  }

  function BeforeWords(shape: seq<Word>, replaced: bool): seq<Word> {
    [MATCHES] + shape + [THEN, STAMP] + (if replaced then [REPLACE] else [])
  }

  function AfterWords(replaced: bool, rest: seq<Word>): seq<Word> {
    (if replaced then [BY_BLANK] else []) + rest + [YMD, HMS]
  }

  lemma BranchParts(shape: seq<Word>, replaced: bool, rest: seq<Word>)
    ensures Branch(shape, replaced, rest) ==
            ([Fixed(TEXT), Path] + Fixeds(BeforeWords(shape, replaced))) +
            ([Fixed(TEXT), Path] + Fixeds(AfterWords(replaced, rest)))
  {
    hide Fixeds;
    var a, b := Fixeds(BeforeWords(shape, replaced)), Fixeds(AfterWords(replaced, rest));
    assert [Fixed(TEXT), Path] + a + [Fixed(TEXT), Path] + b == ([Fixed(TEXT), Path] + a) + ([Fixed(TEXT), Path] + b);
  }

  lemma TextAnd(ws: seq<Word>, path: seq<Bit>)
    ensures Bits([Fixed(TEXT), Path] + Fixeds(ws), path) ==
            Around("meta_fields #>> ", path, GaussPatterns.Shape(ws))
  {
    ColumnsSpelled();
    hide Spelled, Fixeds;
    assert [Fixed(TEXT), Path] == [Fixed(TEXT)] + [Path];
    BitsConcat([Fixed(TEXT), Path], Fixeds(ws), path);
    BitsConcat([Fixed(TEXT)], [Path], path);
    OnePart(Fixed(TEXT), path);
    OnePart(Path, path);
    FixedText(ws, path);
    hide Bits, GaussPatterns.Shape;
  }

  lemma {:induction false} ShapeConcat(a: seq<Word>, b: seq<Word>)
    ensures GaussPatterns.Shape(a + b) == GaussPatterns.Shape(a) + GaussPatterns.Shape(b)
  {
    hide Spelled;
    if a == [] {
      assert a + b == b;
    } else {
      assert (a + b)[1..] == a[1..] + b;
      ShapeConcat(a[1..], b);
    }
  }

  lemma BeforeSpelled(shape: seq<Word>, replaced: bool)
    ensures GaussPatterns.Shape(BeforeWords(shape, replaced)) ==
            " ~ '^" + GaussPatterns.Shape(shape) + "$' THEN to_timestamp(" + (if replaced then "replace(" else "")
  {
    var last := if replaced then [REPLACE] else [];
    MatchSpelled();
    StampSpelled();
    hide Spelled;
    assert "$' THEN " + "to_timestamp(" == "$' THEN to_timestamp(";
    OneShape(MATCHES);
    OneShape(REPLACE);
    OneShape(THEN);
    OneShape(STAMP);
    assert [THEN, STAMP] == [THEN] + [STAMP];
    ShapeConcat([THEN], [STAMP]);
    hide GaussPatterns.Shape;
    ShapeConcat([MATCHES] + shape + [THEN, STAMP], last);
    ShapeConcat([MATCHES] + shape, [THEN, STAMP]);
    ShapeConcat([MATCHES], shape);
  }

  lemma AfterSpelled(replaced: bool, rest: seq<Word>)
    ensures GaussPatterns.Shape(AfterWords(replaced, rest)) ==
            (if replaced then ", 'T', ' ')" else "") + GaussPatterns.Shape(rest) + ", 'YYYY-MM-DD HH24:MI:SS')"
  {
    var first := if replaced then [BY_BLANK] else [];
    ByBlankSpelled();
    FormatSpelled();
    hide Spelled;
    assert ", 'YYYY-MM-DD" + " HH24:MI:SS')" == ", 'YYYY-MM-DD HH24:MI:SS')";
    OneShape(BY_BLANK);
    OneShape(YMD);
    OneShape(HMS);
    assert [YMD, HMS] == [YMD] + [HMS];
    ShapeConcat([YMD], [HMS]);
    hide GaussPatterns.Shape;
    ShapeConcat(first + rest, [YMD, HMS]);
    ShapeConcat(first, rest);
  }

  /** What completes the shorter texts, as an SQL concatenation with a literal. */
  lemma CompletionsSpelled()
    ensures GaussPatterns.Shape([PLUS, ZEROS, QUOTE]) == " || ':00'"
    ensures GaussPatterns.Shape([PLUS, ZEROS, ZEROS, QUOTE]) == " || ':00:00'"
  {
    CompletionWords();
    OneShape(QUOTE);
    hide Spelled;
    NextShape(ZEROS, [QUOTE], [ZEROS, QUOTE]);
    NextShape(ZEROS, [ZEROS, QUOTE], [ZEROS, ZEROS, QUOTE]);
    NextShape(PLUS, [ZEROS, QUOTE], [PLUS, ZEROS, QUOTE]);
    NextShape(PLUS, [ZEROS, ZEROS, QUOTE], [PLUS, ZEROS, ZEROS, QUOTE]);
    hide GaussPatterns.Shape;
  }

  lemma DayCompleted()
    ensures GaussPatterns.Shape([HOUR_0, ZEROS, ZEROS, QUOTE]) == " 00:00:00'"
    ensures GaussPatterns.Shape([PLUS, HOUR_0, ZEROS, ZEROS, QUOTE]) == " || ' 00:00:00'"
  {
    CompletionWords();
    CompletionsSpelled();
    OneShape(QUOTE);
    hide Spelled;
    NextShape(ZEROS, [QUOTE], [ZEROS, QUOTE]);
    NextShape(ZEROS, [ZEROS, QUOTE], [ZEROS, ZEROS, QUOTE]);
    NextShape(HOUR_0, [ZEROS, ZEROS, QUOTE], [HOUR_0, ZEROS, ZEROS, QUOTE]);
    NextShape(PLUS, [HOUR_0, ZEROS, ZEROS, QUOTE], [PLUS, HOUR_0, ZEROS, ZEROS, QUOTE]);
    hide GaussPatterns.Shape;
  }

  lemma MonthCompleted()
    ensures GaussPatterns.Shape([PLUS, FIRST_DAY, HOUR_0, ZEROS, ZEROS, QUOTE]) == " || '-01 00:00:00'"
  {
    assert " || '" + ("-01" + " 00:00:00'") == " || '-01 00:00:00'";
    CompletionWords();
    DayCompleted();
    hide Spelled;
    NextShape(FIRST_DAY, [HOUR_0, ZEROS, ZEROS, QUOTE], [FIRST_DAY, HOUR_0, ZEROS, ZEROS, QUOTE]);
    NextShape(PLUS, [FIRST_DAY, HOUR_0, ZEROS, ZEROS, QUOTE], [PLUS, FIRST_DAY, HOUR_0, ZEROS, ZEROS, QUOTE]);
    hide GaussPatterns.Shape;
  }

  /** The words around the branches, and those of the number test. */
  lemma CasesSpelled()
    ensures Spelled(CASE_WHEN) == "CASE WHEN " && Spelled(WHEN) == " WHEN " && Spelled(END) == " END "
  {
    StampsAre(CASE_WHEN);
    StampsAre(WHEN);
    StampsAre(END);
    hide Spelled, SpelledShape;
  }

  lemma NumbersSpelled()
    ensures Spelled(THEN_OPEN) == " THEN (" && Spelled(AS_NUMBER) == ")::DOUBLE " && Spelled(PRECISION) == "PRECISION "
    ensures Spelled(OTHERWISE) == " ELSE FALSE END"
  {
    StampsAre(THEN_OPEN);
    StampsAre(AS_NUMBER);
    StampsAre(PRECISION);
    StampsAre(OTHERWISE);
    hide Spelled, SpelledShape;
  }

  lemma NumberPatternSpelled()
    ensures Spelled(IF_NUMBER) == "-?[0-9]+" && Spelled(FRACTION) == "(\\.[0-9]+)?$'"
  {
    NumberWords(IF_NUMBER);
    NumberWords(FRACTION);
    hide Spelled;
  }

  lemma NumberWords(w: Word)
    requires w == IF_NUMBER || w == FRACTION
    ensures Spelled(w) == SpelledShape(w)
  {
    hide SpelledShape;
  }

  lemma ComparisonsSpelled()
    ensures Spelled(OpText(GT)) == "> " && Spelled(OpText(LT)) == "< "
  {
    LogicWords(MORE);
    LogicWords(LESS);
    hide Spelled, SpelledStamp;
  }

  lemma BoundsSpelled()
    ensures Spelled(OpText(GE)) == ">= " && Spelled(OpText(LE)) == "<= "
  {
    LogicWords(AT_LEAST);
    LogicWords(AT_MOST);
    hide Spelled, SpelledStamp;
  }

  lemma ConnectivesSpelled()
    ensures Spelled(AND_TEXT) == " AND " && Spelled(OR_TEXT) == " OR " && Spelled(NOT_TRUE) == " IS NOT TRUE"
  {
    LogicWords(AND_TEXT);
    LogicWords(OR_TEXT);
    LogicWords(NOT_TRUE);
    hide Spelled, SpelledStamp;
  }

  lemma LogicWords(w: Word)
    requires w in {MORE, LESS, AT_LEAST, AT_MOST, AND_TEXT, OR_TEXT, NOT_TRUE}
    ensures Spelled(w) == SpelledLogic(w)
  {
    hide SpelledLogic;
  }

  lemma StampsAre(w: Word)
    requires w in {CASE_WHEN, WHEN, END, THEN_OPEN, AS_NUMBER, PRECISION, OTHERWISE}
    ensures Spelled(w) == SpelledStamp(w)
  {
    hide SpelledStamp;
  }

  lemma NextShape(w: Word, ws: seq<Word>, all: seq<Word>)
    requires all == [w] + ws
    ensures GaussPatterns.Shape(all) == Spelled(w) + GaussPatterns.Shape(ws)
  {
    assert all[1..] == ws;
    hide Spelled;
  }
}
