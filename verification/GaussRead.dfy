/** The GaussDB predicate read back from its characters. */
module GaussRead {
  import opened Text
  import opened Python
  import opened MetaFilter
  import opened Coercion
  import opened SqlSyntax
  import opened SqlText
  import opened GaussFilter
  import opened GaussProofs
  import opened GaussText
  import opened GaussStatement
  import JsonPath
  import ServerPath

  // ----- the reader -----

  /** The characters up to the next place for a parameter. */
  function TextRun(bits: seq<Bit>): (s: string)
    ensures |s| <= |bits|
  {
    if bits == [] || bits[0].Param? then [] else [bits[0].c] + TextRun(bits[1..])
  }

  function TakeText(t: string, bits: seq<Bit>): Option<seq<Bit>> {
    if |t| <= |bits| && bits[..|t|] == Chars(t) then Some(bits[|t|..]) else None
  }

  /** A JSON path literal and the key it stands for. */
  function TakePath(bits: seq<Bit>): Option<(string, seq<Bit>)> {
    var s := TextRun(bits);
    var r := ReadLiteral(s);
    if r.None? || |r.value.0| < 2 || r.value.0[0] != '{' || r.value.0[|r.value.0| - 1] != '}' then None
    else if |r.value.1| > |s| then None
    else
      var segs := JsonPath.Parse(r.value.0[1..|r.value.0| - 1], false, false, []);
      if segs.None? then None else Some((Dotted(segs.value), bits[|s| - |r.value.1|..]))
  }

  /** The parts of one comparison or connective; the paths in it must be of one key. */
  function TakeParts(xs: seq<Part>, key: Option<string>, bits: seq<Bit>): Option<(Option<string>, seq<Bit>)>
    decreases |xs|
  {
    if xs == [] then Some((key, bits))
    else
      match xs[0]
      case Fixed(w) =>
        var r := TakeText(Spelled(w), bits);
        if r.None? then None else TakeParts(xs[1..], key, r.value)
      case Path =>
        var r := TakePath(bits);
        if r.None? || (key.Some? && key.value != r.value.0) then None
        else TakeParts(xs[1..], Some(r.value.0), r.value.1)
      case Place => if bits == [] || !bits[0].Param? then None else TakeParts(xs[1..], key, bits[1..])
  }

  /** What can stand in a predicate; the longer forms are tried before the parenthesis
      they begin with. */
  const FORMS: seq<Token<Pred>> := [
    Atom(KeyExists("")), Atom(KeyMissing("")), LP, RP, AND, OR, NOT, ISNOTTRUE, Atom(OneIsOne),
    Atom(IsBlank("", NullJson)), Atom(IsBlank("", EmptyText)), Atom(IsBlank("", EmptyArray)),
    Atom(IsBlank("", EmptyObject)), Atom(JsonHolds("", Hole)), Atom(JsonExists("", Hole)),
    Atom(LowerEquals("", Hole)), Atom(LowerLike("", Hole)),
    Atom(TimeCompare("", GT, Hole)), Atom(TimeCompare("", LT, Hole)),
    Atom(TimeCompare("", GE, Hole)), Atom(TimeCompare("", LE, Hole)),
    Atom(NumberCompare("", GT, Hole)), Atom(NumberCompare("", LT, Hole)),
    Atom(NumberCompare("", GE, Hole)), Atom(NumberCompare("", LE, Hole))]

  function WithKey(t: Token<Pred>, k: string): Token<Pred> {
    if !t.Atom? then t
    else
      match t.a
      case OneIsOne => t
      case KeyExists(_) => Atom(KeyExists(k))
      case KeyMissing(_) => Atom(KeyMissing(k))
      case IsBlank(_, b) => Atom(IsBlank(k, b))
      case LowerEquals(_, a) => Atom(LowerEquals(k, a))
      case JsonExists(_, a) => Atom(JsonExists(k, a))
      case JsonHolds(_, a) => Atom(JsonHolds(k, a))
      case LowerLike(_, a) => Atom(LowerLike(k, a))
      case TimeCompare(_, c, a) => Atom(TimeCompare(k, c, a))
      case NumberCompare(_, c, a) => Atom(NumberCompare(k, c, a))
  }

  function KeyRead(key: Option<string>): string {
    if key.Some? then key.value else ""
  }

  function FirstForm(forms: seq<Token<Pred>>, bits: seq<Bit>): Option<(Token<Pred>, seq<Bit>)> {
    if forms == [] then None
    else
      var r := TakeParts(TokenParts(forms[0]), None, bits);
      if r.Some? then Some((WithKey(forms[0], KeyRead(r.value.0)), r.value.1)) else FirstForm(forms[1..], bits)
  }

  /** The tokens of a predicate, from its characters and places. */
  function ReadTokens(bits: seq<Bit>): Option<Sql>
    decreases |bits|
  {
    if bits == [] then Some([])
    else
      var r := FirstForm(FORMS, bits);
      if r.None? || |r.value.1| >= |bits| then None
      else
        var more := ReadTokens(r.value.1);
        if more.None? then None else Some([r.value.0] + more.value)
  }

  // ----- one part after the other -----

  lemma {:induction false} RunOfChars(s: string, t: seq<Bit>)
    ensures TextRun(Chars(s) + t) == s + TextRun(t)
  {
    if s == [] {
      assert Chars(s) + t == t;
    } else {
      assert (Chars(s) + t)[0] == Ch(s[0]);
      assert (Chars(s) + t)[1..] == Chars(s[1..]) + t;
      RunOfChars(s[1..], t);
      assert [s[0]] + (s[1..] + TextRun(t)) == s + TextRun(t);
    }
  }

  lemma TextTaken(s: string, t: seq<Bit>)
    ensures TakeText(s, Chars(s) + t) == Some(t)
  {
    assert (Chars(s) + t)[..|s|] == Chars(s) && (Chars(s) + t)[|s|..] == t;
  }

  lemma PathTaken(k: string, t: seq<Bit>)
    requires t == [] || t[0] != Ch('\'')
    ensures TakePath(PathBits(k) + t) == Some((k, t))
  {
    var lit := JsonPath.PathLiteral(k);
    RunOfChars(lit, t);
    JsonPath.PathReadsBack(k, TextRun(t));
    SplitIsExact(k, []);
    assert [] + k == k;
    var body := JsonPath.Body(SplitDots(k, []));
    assert ("{" + body + "}")[1..|"{" + body + "}"| - 1] == body;
    hide JsonPath.PathLiteral, JsonPath.Body, SplitDots, Dotted, JsonPath.Parse, ReadLiteral, TextRun;
    assert (PathBits(k) + t)[|lit|..] == t;
  }

  /** These words do not go on with a quote. */
  predicate Opener(w: Word) {
    w.HOLDS? || w.COMMA? || w.LOWER_IS? || w.LIKES? || LogicOpener(w) || StampOpener(w)
  }

  predicate LogicOpener(w: Word) {
    w.NOT_NULL? || w.IS_NULL? || w.IS_NULL_JSON? || w.IS_NO_TEXT? || w.IS_NO_ARRAY? || w.IS_NO_OBJECT? || w.YMD?
  }

  predicate StampOpener(w: Word) {
    w.MATCHES? || w.BY_BLANK? || w.PLUS? || w.AS_NUMBER?
  }

  lemma OpenerHead(w: Word)
    requires Opener(w)
    ensures |Spelled(w)| > 0 && Spelled(w)[0] != '\''
  {
    if LogicOpener(w) || StampOpener(w) {
      OpensWithLogic(w);
      if LogicOpener(w) {
        LogicHead(w);
      } else {
        LogicOpensWithStamp(w);
        StampHead(w);
      }
    } else {
      PlainHead(w);
    }
    hide Spelled;
  }

  lemma OpensWithLogic(w: Word)
    requires LogicOpener(w) || StampOpener(w)
    ensures Spelled(w) == SpelledLogic(w)
  {
    hide SpelledLogic;
  }

  lemma LogicOpensWithStamp(w: Word)
    requires StampOpener(w)
    ensures SpelledLogic(w) == SpelledStamp(w)
  {
    hide SpelledStamp;
  }

  lemma PlainHead(w: Word)
    requires w.HOLDS? || w.COMMA? || w.LOWER_IS? || w.LIKES?
    ensures |Spelled(w)| > 0 && Spelled(w)[0] != '\''
  {
    hide SpelledLogic;
  }

  lemma LogicHead(w: Word)
    requires LogicOpener(w)
    ensures |SpelledLogic(w)| > 0 && SpelledLogic(w)[0] != '\''
  {
    hide SpelledStamp;
  }

  lemma StampHead(w: Word)
    requires StampOpener(w)
    ensures |SpelledStamp(w)| > 0 && SpelledStamp(w)[0] != '\''
  {
  }

  /** Every path is followed by such a word. */
  ghost predicate Followed(xs: seq<Part>) {
    forall i :: 0 <= i < |xs| && xs[i] == Path ==> i + 1 < |xs| && xs[i + 1].Fixed? && Opener(xs[i + 1].w)
  }

  lemma FollowedTail(xs: seq<Part>)
    requires Followed(xs) && xs != []
    ensures Followed(xs[1..])
    ensures xs[0] == Path ==> |xs| > 1 && xs[1].Fixed? && Opener(xs[1].w)
  {
    assert forall i :: 0 <= i < |xs| - 1 ==> xs[1..][i] == xs[i + 1];
  }

  /** The first part is taken off. */
  lemma PartTaken(xs: seq<Part>, key: Option<string>, k: string, ys: seq<Part>, rest: seq<Bit>)
    requires xs != [] && ys != [] && xs[0] == ys[0] && Followed(ys) && (key.Some? ==> key.value == k)
    ensures TakeParts(xs, key, Bits(ys, PathBits(k)) + rest) ==
            TakeParts(xs[1..], if xs[0] == Path then Some(k) else key, Bits(ys[1..], PathBits(k)) + rest)
  {
    var t := Bits(ys[1..], PathBits(k)) + rest;
    BitsHead(ys, PathBits(k), rest);
    hide Spelled, PathBits, TakePath, TakeText, Bits, Chars;
    if xs[0].Path? {
      FollowedTail(ys);
      NextOpens(ys[1..], k, rest);
      PathTaken(k, t);
    } else if xs[0].Fixed? {
      TextTaken(Spelled(xs[0].w), t);
    } else {
      assert ([Param] + t)[1..] == t;
    }
    hide Followed;
  }

  lemma BitsHead(ys: seq<Part>, path: seq<Bit>, rest: seq<Bit>)
    requires ys != []
    ensures Bits(ys, path) + rest == PartBits(ys[0], path) + (Bits(ys[1..], path) + rest)
  {
    hide Spelled, Chars;
  }

  lemma NextOpens(ys: seq<Part>, k: string, rest: seq<Bit>)
    requires ys != [] && ys[0].Fixed? && Opener(ys[0].w)
    ensures Bits(ys, PathBits(k)) + rest != [] && (Bits(ys, PathBits(k)) + rest)[0] != Ch('\'')
  {
    OpenerHead(ys[0].w);
    hide Spelled, PathBits;
    var s := Spelled(ys[0].w);
    assert Bits(ys, PathBits(k)) == Chars(s) + Bits(ys[1..], PathBits(k));
    assert Chars(s)[0] == Ch(s[0]);
  }

  lemma {:induction false} PartsTaken(xs: seq<Part>, key: Option<string>, k: string, rest: seq<Bit>)
    requires Followed(xs) && (key.Some? ==> key.value == k)
    ensures TakeParts(xs, key, Bits(xs, PathBits(k)) + rest) == Some((if Path in xs then Some(k) else key, rest))
  {
    hide TakeText, TakePath, PathBits;
    if xs == [] {
      assert [] + rest == rest;
    } else {
      FollowedTail(xs);
      PartTaken(xs, key, k, xs, rest);
      hide Followed, TakeParts, Bits;
      PartsTaken(xs[1..], if xs[0] == Path then Some(k) else key, k, rest);
      assert xs == [xs[0]] + xs[1..];
    }
  }

  /** The two lists agree up to part n, where two fixed texts differ at character p. */
  predicate Clash(xs: seq<Part>, ys: seq<Part>, n: nat, p: nat) {
    && n < |xs| && n < |ys| && xs[..n] == ys[..n] && xs[n].Fixed? && ys[n].Fixed?
    && p < |Spelled(xs[n].w)| && p < |Spelled(ys[n].w)| && Spelled(xs[n].w)[p] != Spelled(ys[n].w)[p]
  }

  lemma {:induction false} ClashFails(xs: seq<Part>, ys: seq<Part>, n: nat, p: nat, key: Option<string>, k: string,
                                      rest: seq<Bit>)
    requires Clash(xs, ys, n, p) && Followed(ys) && (key.Some? ==> key.value == k)
    ensures TakeParts(xs, key, Bits(ys, PathBits(k)) + rest) == None
    decreases n
  {
    hide TakePath, PathBits, Spelled;
    if n == 0 {
      var bits := Bits(ys, PathBits(k)) + rest;
      var u := Spelled(xs[0].w);
      assert bits[p] == Ch(Spelled(ys[0].w)[p]);
      assert |u| <= |bits| ==> bits[..|u|][p] == bits[p];
      assert Chars(u)[p] == Ch(u[p]);
    } else {
      assert xs[0] == xs[..n][0] == ys[..n][0] == ys[0];
      FollowedTail(ys);
      PartTaken(xs, key, k, ys, rest);
      assert xs[1..][..n - 1] == xs[..n][1..] && ys[1..][..n - 1] == ys[..n][1..];
      hide Followed, TakeParts, Bits;
      ClashFails(xs[1..], ys[1..], n - 1, p, if xs[0] == Path then Some(k) else key, k, rest);
    }
  }

  // ----- no form is mistaken for another -----

  /** A token as the translator writes it: values are places. */
  predicate Plain(t: Token<Pred>) {
    t.Atom? ==>
      match t.a
      case LowerEquals(_, a) => a.Hole?
      case JsonExists(_, a) => a.Hole?
      case JsonHolds(_, a) => a.Hole?
      case LowerLike(_, a) => a.Hole?
      case TimeCompare(_, _, a) => a.Hole?
      case NumberCompare(_, _, a) => a.Hole?
      case _ => true
  }

  function HeadWord(t: Token<Pred>): Word {
    match t
    case LP => OPEN
    case RP => CLOSE
    case AND => AND_TEXT
    case OR => OR_TEXT
    case NOT => NOT_TEXT
    case ISNOTTRUE => NOT_TRUE
    case Atom(p) =>
      match p
      case OneIsOne => TAUTOLOGY
      case KeyExists(_) => OPEN
      case KeyMissing(_) => OPEN
      case IsBlank(_, _) => VALUE
      case JsonHolds(_, _) => VALUE
      case LowerEquals(_, _) => LOWER
      case LowerLike(_, _) => LOWER
      case JsonExists(_, _) => EXISTS
      case _ => CASE_WHEN
  }

  lemma StartsWithHead(t: Token<Pred>)
    ensures TokenParts(t) != [] && TokenParts(t)[0] == Fixed(HeadWord(t))
  {
    hide Branch, Spelled;
  }

  /** What a form begins with, but for a blank. */
  function Mark(w: Word): Option<char> {
    match w
    case OPEN => Some('(')
    case CLOSE => Some(')')
    case AND_TEXT => Some('A')
    case OR_TEXT => Some('O')
    case NOT_TEXT => Some('N')
    case NOT_TRUE => Some('I')
    case TAUTOLOGY => Some('1')
    case VALUE => Some('m')
    case LOWER => Some('l')
    case EXISTS => Some('j')
    case CASE_WHEN => Some('C')
    case _ => None
  }

  predicate Spaced(w: Word) {
    w.AND_TEXT? || w.OR_TEXT? || w.NOT_TRUE?
  }

  /** w begins with its mark. */
  predicate Marked(w: Word, s: string) {
    if Spaced(w) then |s| > 1 && s[0] == ' ' && Some(s[1]) == Mark(w) else |s| > 0 && Some(s[0]) == Mark(w)
  }

  lemma HeadMark(w: Word)
    requires Mark(w).Some?
    ensures Marked(w, Spelled(w))
  {
    LogicMark(w);
    StampMark();
    hide SpelledLogic;
  }

  lemma LogicMark(w: Word)
    ensures Spaced(w) || w.NOT_TEXT? || w.TAUTOLOGY? ==> Marked(w, SpelledLogic(w))
    ensures w.CASE_WHEN? ==> SpelledLogic(w) == SpelledStamp(w)
  {
    hide SpelledStamp;
  }

  lemma StampMark()
    ensures Marked(CASE_WHEN, SpelledStamp(CASE_WHEN))
  {
    hide SpelledShape;
  }

  /** Different head words differ in their first or, after a blank, second character. */
  lemma HeadsDiffer(u: Word, v: Word) returns (p: nat)
    requires Mark(u).Some? && Mark(v).Some? && Mark(u) != Mark(v)
    ensures p < |Spelled(u)| && p < |Spelled(v)| && Spelled(u)[p] != Spelled(v)[p]
  {
    HeadMark(u);
    HeadMark(v);
    hide Spelled;
    p := if Spaced(u) && Spaced(v) then 1 else 0;
  }

  lemma NullWords()
    ensures |Spelled(NOT_NULL)| > 6 && Spelled(NOT_NULL)[6] == 'O'
    ensures |Spelled(IS_NULL)| > 6 && Spelled(IS_NULL)[6] == 'U'
  {
    hide SpelledStamp;
  }

  function BlankMark(b: Blank): char {
    match b case NullJson => 'n' case EmptyText => '"' case EmptyArray => '[' case EmptyObject => '{'
  }

  lemma BlankWord(b: Blank)
    ensures |Spelled(BlankText(b))| > 4 && Spelled(BlankText(b))[1] == '=' && Spelled(BlankText(b))[4] == BlankMark(b)
  {
    hide SpelledStamp;
  }

  lemma PlainWords()
    ensures |Spelled(HOLDS)| > 1 && Spelled(HOLDS)[1] == '@'
    ensures |Spelled(LOWER_IS)| > 2 && Spelled(LOWER_IS)[2] == '='
    ensures |Spelled(LIKES)| > 2 && Spelled(LIKES)[2] == 'L'
  {
    hide SpelledLogic;
  }

  lemma ShapeWords()
    ensures |Spelled(D4)| > 0 && Spelled(D4)[0] == '['
    ensures |Spelled(IF_NUMBER)| > 0 && Spelled(IF_NUMBER)[0] == '-'
  {
    assert Spelled(D4) == SpelledShape(D4) && Spelled(IF_NUMBER) == SpelledShape(IF_NUMBER) by {
      hide SpelledShape;
    }
    hide Spelled;
  }

  lemma OpWord(c: Cmp)
    ensures |Spelled(OpText(c))| > 1
    ensures Spelled(OpText(c))[0] == if c.GT? || c.GE? then '>' else '<'
    ensures Spelled(OpText(c))[1] == if c.GT? || c.LT? then ' ' else '='
  {
    hide SpelledStamp;
  }

  /** Any two forms clash, but for a parenthesis and a test that begins with it. */
  lemma Apart(c: Token<Pred>, t: Token<Pred>) returns (n: nat, p: nat)
    requires Plain(c) && Plain(t) && WithKey(c, "") != WithKey(t, "")
    requires c.LP? || t.LP? ==> HeadWord(c) != HeadWord(t)
    ensures Clash(TokenParts(c), TokenParts(t), n, p)
  {
    hide TokenParts, Clash;
    if HeadWord(c) != HeadWord(t) {
      n := 0;
      p := HeadsApart(c, t);
    } else {
      SameHead(c, t);
      AtomParts(c.a);
      AtomParts(t.a);
      hide WithKey, HeadWord, Plain;
      n, p := AtomsApart(c.a, t.a);
    }
  }

  lemma HeadsApart(c: Token<Pred>, t: Token<Pred>) returns (p: nat)
    requires HeadWord(c) != HeadWord(t)
    ensures Clash(TokenParts(c), TokenParts(t), 0, p)
  {
    StartsWithHead(c);
    StartsWithHead(t);
    HeadsMarked(c, t);
    hide HeadWord, TokenParts;
    p := HeadsDiffer(HeadWord(c), HeadWord(t));
    hide Spelled;
    assert TokenParts(c)[..0] == TokenParts(t)[..0];
  }

  lemma HeadsMarked(c: Token<Pred>, t: Token<Pred>)
    ensures Mark(HeadWord(c)).Some? && Mark(HeadWord(t)).Some?
    ensures Mark(HeadWord(c)) == Mark(HeadWord(t)) ==> HeadWord(c) == HeadWord(t)
  {
  }

  lemma SameHead(c: Token<Pred>, t: Token<Pred>)
    requires HeadWord(c) == HeadWord(t) && !c.LP? && !t.LP? && WithKey(c, "") != WithKey(t, "")
    ensures c.Atom? && t.Atom?
  {
  }

  lemma AtomsApart(c: Pred, t: Pred) returns (n: nat, p: nat)
    requires Plain(Atom(c)) && Plain(Atom(t)) && WithKey(Atom(c), "") != WithKey(Atom(t), "")
    requires HeadWord(Atom(c)) == HeadWord(Atom(t))
    ensures Clash(PredParts(c), PredParts(t), n, p)
  {
    hide PredParts, Clash;
    var w := HeadWord(Atom(c));
    if w.OPEN? {
      n, p := 3, 6;
      OpenApart(c, t);
    } else if w.VALUE? {
      n, p := 2, if c.IsBlank? && t.IsBlank? then 4 else 1;
      ValueApart(c, t);
    } else if w.LOWER? {
      n, p := 3, 2;
      LowerApart(c, t);
    } else {
      n, p := CasesApart(c, t);
    }
  }

  lemma AtomParts(q: Pred)
    ensures TokenParts(Atom(q)) == PredParts(q)
  {
  }

  lemma OpenApart(c: Pred, t: Pred)
    requires (c.KeyExists? && t.KeyMissing?) || (c.KeyMissing? && t.KeyExists?)
    ensures Clash(PredParts(c), PredParts(t), 3, 6)
  {
    NullWords();
    hide Spelled;
    assert PredParts(c)[..3] == PredParts(t)[..3] == [Fixed(OPEN), Fixed(VALUE), Path];
  }

  lemma ValueApart(c: Pred, t: Pred)
    requires (c.IsBlank? || (c.JsonHolds? && c.arg.Hole?)) && (t.IsBlank? || (t.JsonHolds? && t.arg.Hole?))
    requires c.IsBlank? && t.IsBlank? ==> c.blank != t.blank
    requires c.IsBlank? || t.IsBlank?
    ensures Clash(PredParts(c), PredParts(t), 2, if c.IsBlank? && t.IsBlank? then 4 else 1)
  {
    if c.IsBlank? { BlankWord(c.blank); }
    if t.IsBlank? { BlankWord(t.blank); }
    PlainWords();
    hide Spelled, BlankText;
    assert PredParts(c)[..2] == PredParts(t)[..2] == [Fixed(VALUE), Path];
  }

  lemma LowerApart(c: Pred, t: Pred)
    requires (c.LowerEquals? && t.LowerLike?) || (c.LowerLike? && t.LowerEquals?)
    ensures Clash(PredParts(c), PredParts(t), 3, 2)
  {
    PlainWords();
    hide Spelled;
    assert PredParts(c)[..3] == PredParts(t)[..3] == [Fixed(LOWER), Fixed(TEXT), Path];
  }

  lemma DatetimeStart()
    ensures |DatetimeParts()| > 4 && DatetimeParts()[4] == Fixed(D4)
    ensures DatetimeParts()[..4] == [Fixed(CASE_WHEN), Fixed(TEXT), Path, Fixed(MATCHES)]
  {
    var b := Branch([D4, DASH, D2], false, [PLUS, FIRST_DAY, HOUR_0, ZEROS, ZEROS, QUOTE]);
    assert b[0] == Fixed(TEXT) && b[1] == Path && b[2] == Fixed(MATCHES) && b[3] == Fixed(D4);
    hide Branch;
  }

  lemma CasesApart(c: Pred, t: Pred) returns (n: nat, p: nat)
    requires Plain(Atom(c)) && Plain(Atom(t)) && WithKey(Atom(c), "") != WithKey(Atom(t), "")
    requires (c.TimeCompare? || c.NumberCompare?) && (t.TimeCompare? || t.NumberCompare?)
    ensures Clash(PredParts(c), PredParts(t), n, p)
  {
    hide Spelled, OpText, DatetimeParts;
    if c.TimeCompare? != t.TimeCompare? {
      n, p := 4, 0;
      hide PredParts;
      KindsApart(c, t);
    } else {
      OpWord(c.cmp);
      OpWord(t.cmp);
      p := if Spelled(OpText(c.cmp))[0] == Spelled(OpText(t.cmp))[0] then 1 else 0;
      n := if c.TimeCompare? then |DatetimeParts()| else 11;
      assert PredParts(c)[..n] == PredParts(t)[..n];
    }
  }

  lemma KindsApart(c: Pred, t: Pred)
    requires (c.TimeCompare? && t.NumberCompare?) || (c.NumberCompare? && t.TimeCompare?)
    ensures Clash(PredParts(c), PredParts(t), 4, 0)
  {
    DatetimeStart();
    ShapeWords();
    hide Spelled, OpText, DatetimeParts;
    assert PredParts(c)[..4] == PredParts(t)[..4] == [Fixed(CASE_WHEN), Fixed(TEXT), Path, Fixed(MATCHES)];
  }

  // ----- every path is followed by an opener -----

  lemma FollowedConcat(xs: seq<Part>, ys: seq<Part>)
    requires Followed(xs) && Followed(ys)
    ensures Followed(xs + ys)
  {
    hide Opener;
    var zs := xs + ys;
    forall i | 0 <= i < |zs| && zs[i] == Path ensures i + 1 < |zs| && zs[i + 1].Fixed? && Opener(zs[i + 1].w) {
      if i < |xs| {
        assert xs[i] == Path && zs[i + 1] == xs[i + 1];
      } else {
        assert ys[i - |xs|] == Path && zs[i + 1] == ys[i + 1 - |xs|];
      }
    }
  }

  lemma BranchFollowed(shape: seq<Word>, replaced: bool, rest: seq<Word>)
    requires !replaced && rest != [] ==> Opener(rest[0])
    ensures Followed(Branch(shape, replaced, rest))
  {
    var a := Fixeds([MATCHES] + shape + [THEN, STAMP] + (if replaced then [REPLACE] else []));
    var b := Fixeds((if replaced then [BY_BLANK] else []) + rest + [YMD, HMS]);
    assert a[0] == Fixed(MATCHES) && b[0].Fixed? && Opener(b[0].w);
    assert forall i :: 0 <= i < |a| ==> a[i].Fixed?;
    assert forall i :: 0 <= i < |b| ==> b[i].Fixed?;
    var x := [Fixed(TEXT), Path] + a;
    var y := [Fixed(TEXT), Path] + b;
    assert x[2] == a[0] && y[2] == b[0];
    assert Followed(x) && Followed(y);
    hide Followed;
    FollowedConcat(x, y);
    assert Branch(shape, replaced, rest) == x + y;
  }

  lemma FixedFollowed(w: Word)
    ensures Followed([Fixed(w)])
  {
  }

  lemma DatetimeFollowed()
    ensures Followed(DatetimeParts())
  {
    var a := [Fixed(CASE_WHEN)];
    var b := Branch([D4, DASH, D2], false, [PLUS, FIRST_DAY, HOUR_0, ZEROS, ZEROS, QUOTE]);
    var w := [Fixed(WHEN)];
    var c := Branch(DATE, false, [PLUS, HOUR_0, ZEROS, ZEROS, QUOTE]);
    var d := Branch(DATE + [T_OR_BLANK, D2], true, [PLUS, ZEROS, ZEROS, QUOTE]);
    var e := Branch(DATE + [T_OR_BLANK, D2, COLON, D2], true, [PLUS, ZEROS, QUOTE]);
    var f := Branch(DATE + [T_OR_BLANK, D2, COLON, D2, COLON, D2], true, []);
    BranchFollowed([D4, DASH, D2], false, [PLUS, FIRST_DAY, HOUR_0, ZEROS, ZEROS, QUOTE]);
    BranchFollowed(DATE, false, [PLUS, HOUR_0, ZEROS, ZEROS, QUOTE]);
    BranchFollowed(DATE + [T_OR_BLANK, D2], true, [PLUS, ZEROS, ZEROS, QUOTE]);
    BranchFollowed(DATE + [T_OR_BLANK, D2, COLON, D2], true, [PLUS, ZEROS, QUOTE]);
    BranchFollowed(DATE + [T_OR_BLANK, D2, COLON, D2, COLON, D2], true, []);
    FixedFollowed(CASE_WHEN);
    FixedFollowed(WHEN);
    FixedFollowed(END);
    hide Branch, Followed;
    FollowedConcat(a, b);
    FollowedConcat(a + b, w);
    FollowedConcat(a + b + w, c);
    FollowedConcat(a + b + w + c, w);
    FollowedConcat(a + b + w + c + w, d);
    FollowedConcat(a + b + w + c + w + d, w);
    FollowedConcat(a + b + w + c + w + d + w, e);
    FollowedConcat(a + b + w + c + w + d + w + e, w);
    FollowedConcat(a + b + w + c + w + d + w + e + w, f);
    FollowedConcat(a + b + w + c + w + d + w + e + w + f, [Fixed(END)]);
  }

  lemma TokenFollowed(t: Token<Pred>)
    ensures Followed(TokenParts(t))
  {
    if t.Atom? {
      AtomParts(t.a);
      hide TokenParts;
      if t.a.TimeCompare? {
        TimeFollowed(t.a);
      } else {
        OtherFollowed(t.a);
      }
    }
  }

  lemma TimeFollowed(q: Pred)
    requires q.TimeCompare?
    ensures Followed(PredParts(q))
  {
    DatetimeFollowed();
    hide DatetimeParts;
    var ys := [Fixed(OpText(q.cmp)), Fixed(STAMP), ArgPart(q.arg), Fixed(YMD), Fixed(HMS)];
    assert Followed(ys);
    FollowedConcat(DatetimeParts(), ys);
  }

  lemma OtherFollowed(q: Pred)
    requires !q.TimeCompare?
    ensures Followed(PredParts(q))
  {
    hide DatetimeParts, OpText, Spelled;
  }

  // ----- reading one token -----

  function TokenBits(t: Token<Pred>): seq<Bit> {
    Bits(TokenParts(t), PathBits(KeyOf(t)))
  }

  ghost predicate AllPlain(s: Sql) {
    forall i :: 0 <= i < |s| ==> Plain(s[i])
  }

  lemma FormFails(c: Token<Pred>, t: Token<Pred>, rest: seq<Bit>)
    requires Plain(c) && Plain(t) && WithKey(c, "") != WithKey(t, "")
    requires c.LP? || t.LP? ==> HeadWord(c) != HeadWord(t)
    ensures TakeParts(TokenParts(c), None, TokenBits(t) + rest) == None
  {
    var n, p := Apart(c, t);
    TokenFollowed(t);
    hide TokenParts, Clash, Followed, TakeParts;
    ClashFails(TokenParts(c), TokenParts(t), n, p, None, KeyOf(t), rest);
  }

  /** A parenthesis is not taken for a test of the key, whatever it encloses. */
  lemma OpenFails(c: Pred, s: Sql)
    requires (c.KeyExists? || c.KeyMissing?) && AllPlain(s)
    ensures TakeParts(PredParts(c), None, TokenBits(LP) + SqlBits(s)) == None
  {
    var last := if c.KeyExists? then NOT_NULL else IS_NULL;
    var xs := [Fixed(VALUE), Path, Fixed(last)];
    hide SqlBits, TakeText, TakePath, Spelled, PathBits;
    assert TokenBits(LP) + SqlBits(s) == Chars(Spelled(OPEN)) + SqlBits(s) by {
      assert [Fixed(OPEN)][1..] == [];
    }
    TextTaken(Spelled(OPEN), SqlBits(s));
    assert PredParts(c)[1..] == xs;
    hide PredParts, TokenBits;
    assert TakeParts(PredParts(c), None, TokenBits(LP) + SqlBits(s)) == TakeParts(xs, None, SqlBits(s));
    if s == [] {
      NothingTaken(xs);
    } else {
      SqlBitsHead(s);
      ValueFails(xs, last, s[0], SqlBits(s[1..]));
    }
  }

  lemma NothingTaken(xs: seq<Part>)
    requires xs != [] && xs[0] == Fixed(VALUE)
    ensures TakeParts(xs, None, SqlBits([])) == None
  {
    HeadMark(VALUE);
    hide Spelled;
  }

  lemma ValueFails(xs: seq<Part>, last: Word, t: Token<Pred>, rest: seq<Bit>)
    requires xs == [Fixed(VALUE), Path, Fixed(last)] && (last.NOT_NULL? || last.IS_NULL?) && Plain(t)
    ensures TakeParts(xs, None, Bits(TokenParts(t), PathBits(KeyOf(t))) + rest) == None
  {
    TokenFollowed(t);
    hide Followed, TakeParts, PathBits, Bits;
    if HeadWord(t).VALUE? {
      NullApart(xs, last, t);
      hide TokenParts, Clash;
      ClashFails(xs, TokenParts(t), 2, 1, None, KeyOf(t), rest);
    } else {
      StartsWithHead(t);
      HeadsMarked(Atom(IsBlank("", NullJson)), t);
      hide HeadWord, TokenParts;
      var p := HeadsDiffer(VALUE, HeadWord(t));
      hide Spelled;
      assert xs[..0] == TokenParts(t)[..0];
      ClashFails(xs, TokenParts(t), 0, p, None, KeyOf(t), rest);
    }
  }

  lemma NullApart(xs: seq<Part>, last: Word, t: Token<Pred>)
    requires xs == [Fixed(VALUE), Path, Fixed(last)] && (last.NOT_NULL? || last.IS_NULL?)
    requires Plain(t) && HeadWord(t).VALUE?
    ensures Clash(xs, TokenParts(t), 2, 1)
  {
    NullHead(last);
    PlainWords();
    if t.a.IsBlank? {
      BlankWord(t.a.blank);
    }
    AtomParts(t.a);
    hide Spelled, BlankText, TokenParts;
    assert PredParts(t.a)[..2] == xs[..2] == [Fixed(VALUE), Path];
  }

  lemma NullHead(w: Word)
    requires w.NOT_NULL? || w.IS_NULL?
    ensures |Spelled(w)| > 1 && Spelled(w)[1] == ' '
  {
    hide SpelledStamp;
  }

  // ----- the first form that fits -----

  function FormIndex(t: Token<Pred>): nat {
    match t
    case LP => 2
    case RP => 3
    case AND => 4
    case OR => 5
    case NOT => 6
    case ISNOTTRUE => 7
    case Atom(q) =>
      match q
      case KeyExists(_) => 0
      case KeyMissing(_) => 1
      case OneIsOne => 8
      case IsBlank(_, b) => 9 + BlankIndex(b)
      case JsonHolds(_, _) => 13
      case JsonExists(_, _) => 14
      case LowerEquals(_, _) => 15
      case LowerLike(_, _) => 16
      case TimeCompare(_, c, _) => 17 + CmpIndex(c)
      case NumberCompare(_, c, _) => 21 + CmpIndex(c)
  }

  function BlankIndex(b: Blank): nat {
    match b case NullJson => 0 case EmptyText => 1 case EmptyArray => 2 case EmptyObject => 3
  }

  function CmpIndex(c: Cmp): nat {
    match c case GT => 0 case LT => 1 case GE => 2 case LE => 3
  }

  lemma FormAt(t: Token<Pred>)
    requires Plain(t)
    ensures FormIndex(t) < |FORMS| && FORMS[FormIndex(t)] == WithKey(t, "")
  {
  }

  lemma FormsPlain(i: nat)
    requires i < |FORMS|
    ensures Plain(FORMS[i]) && FormIndex(FORMS[i]) == i && WithKey(FORMS[i], "") == FORMS[i]
  {
  }

  lemma {:induction false} FirstFormAt(forms: seq<Token<Pred>>, i: nat, bits: seq<Bit>)
    requires i < |forms| && forall j :: 0 <= j < i ==> TakeParts(TokenParts(forms[j]), None, bits) == None
    requires TakeParts(TokenParts(forms[i]), None, bits).Some?
    ensures var r := TakeParts(TokenParts(forms[i]), None, bits).value;
            FirstForm(forms, bits) == Some((WithKey(forms[i], KeyRead(r.0)), r.1))
  {
    hide TakeParts, TokenParts, WithKey;
    if i == 0 {
    } else {
      assert forall j :: 0 <= j < i - 1 ==> forms[1..][j] == forms[j + 1];
      FirstFormAt(forms[1..], i - 1, bits);
    }
  }

  lemma SameShape(t: Token<Pred>)
    ensures TokenParts(WithKey(t, "")) == TokenParts(t)
    ensures WithKey(WithKey(t, ""), KeyOf(t)) == t && WithKey(WithKey(t, ""), "") == WithKey(t, "")
  {
    hide DatetimeParts;
  }

  lemma EarlierFails(t: Token<Pred>, j: nat, s: Sql)
    requires Plain(t) && AllPlain(s) && j < |FORMS| && j < FormIndex(t)
    ensures TakeParts(TokenParts(FORMS[j]), None, TokenBits(t) + SqlBits(s)) == None
  {
    FormsPlain(j);
    FormAt(t);
    FormsPlain(FormIndex(t));
    SameShape(t);
    hide FORMS, TakeParts, TokenParts, TokenBits, SqlBits, AllPlain;
    if t.LP? {
      FormsBeforeOpen(j);
      AtomParts(FORMS[j].a);
      OpenFails(FORMS[j].a, s);
    } else {
      assert FORMS[j] != WithKey(t, "");
      if FORMS[j].LP? {
        LaterHead(FORMS[j], t);
      }
      FormFails(FORMS[j], t, SqlBits(s));
    }
  }

  lemma FormsBeforeOpen(j: nat)
    requires j < 2
    ensures FORMS[j].Atom? && (FORMS[j].a.KeyExists? || FORMS[j].a.KeyMissing?)
  {
  }

  lemma LaterHead(c: Token<Pred>, t: Token<Pred>)
    requires FormIndex(c) < FormIndex(t) && c.LP?
    ensures HeadWord(c) != HeadWord(t)
  {
  }

  /** One token is read, and what follows it is left. */
  lemma TokenRead(t: Token<Pred>, s: Sql)
    requires Plain(t) && AllPlain(s)
    ensures FirstForm(FORMS, TokenBits(t) + SqlBits(s)) == Some((t, SqlBits(s)))
    ensures |TokenBits(t)| > 0
  {
    var i, bits := FormIndex(t), TokenBits(t) + SqlBits(s);
    FormAt(t);
    SameShape(t);
    TokenFollowed(t);
    WritesPath(t);
    PartsTaken(TokenParts(t), None, KeyOf(t), SqlBits(s));
    TokenSome(t);
    hide FORMS, TakeParts, TokenParts, SqlBits, AllPlain, Followed, Bits, TokenBits, PathBits, FormIndex, Plain;
    forall j | 0 <= j < i ensures TakeParts(TokenParts(FORMS[j]), None, bits) == None {
      EarlierFails(t, j, s);
    }
    assert bits == Bits(TokenParts(t), PathBits(KeyOf(t))) + SqlBits(s) by {
      TokenBitsAre(t);
    }
    FirstFormAt(FORMS, i, bits);
    hide FirstForm;
    KeyIsRead(t, TakeParts(TokenParts(t), None, bits).value.0);
  }

  lemma TokenBitsAre(t: Token<Pred>)
    ensures TokenBits(t) == Bits(TokenParts(t), PathBits(KeyOf(t)))
  {
  }

  lemma KeyIsRead(t: Token<Pred>, key: Option<string>)
    requires key == if t.Atom? && !t.a.OneIsOne? then Some(KeyOf(t)) else None
    ensures WithKey(WithKey(t, ""), KeyRead(key)) == t
  {
  }

  lemma TokenSome(t: Token<Pred>)
    ensures |TokenBits(t)| > 0
  {
    StartsWithHead(t);
    HeadsMarked(t, t);
    HeadMark(HeadWord(t));
    hide HeadWord, TokenParts, Spelled;
  }

  // ----- the whole predicate -----

  /** The characters of a predicate and the places in them are read back as that
      predicate. */
  lemma {:induction false} TokensReadBack(s: Sql)
    requires AllPlain(s)
    ensures ReadTokens(SqlBits(s)) == Some(s)
    decreases |s|
  {
    hide FORMS, FirstForm, Plain;
    if s == [] {
    } else {
      assert AllPlain(s[1..]) && Plain(s[0]) by {
        assert forall i :: 0 <= i < |s| - 1 ==> s[1..][i] == s[i + 1];
      }
      SqlBitsHead(s);
      TokenBitsAre(s[0]);
      hide SqlBits, TokenBits, AllPlain, ReadTokens;
      TokenRead(s[0], s[1..]);
      TokensReadBack(s[1..]);
      ReadStep(s[0], SqlBits(s), SqlBits(s[1..]), s[1..]);
      assert s == [s[0]] + s[1..];
    }
  }

  lemma ReadStep(t: Token<Pred>, bits: seq<Bit>, rest: seq<Bit>, s: Sql)
    requires FirstForm(FORMS, bits) == Some((t, rest)) && |rest| < |bits| && ReadTokens(rest) == Some(s)
    ensures ReadTokens(bits) == Some([t] + s)
  {
    hide FORMS, FirstForm;
  }

  // ----- every plan is read back -----

  lemma PlainConcat(a: Sql, b: Sql)
    requires AllPlain(a) && AllPlain(b)
    ensures AllPlain(a + b)
  {
    hide Plain;
  }

  lemma PlainOne(t: Token<Pred>)
    requires Plain(t)
    ensures AllPlain([t])
  {
    hide Plain;
  }

  lemma PlainWrapped(s: Sql)
    requires AllPlain(s)
    ensures AllPlain(GaussFilter.Paren(s)) && AllPlain(NotTrueSql(s))
  {
    PlainOne(LP);
    PlainOne(RP);
    PlainOne(ISNOTTRUE);
    hide AllPlain;
    PlainConcat([LP], s);
    PlainConcat([LP] + s, [RP]);
    PlainConcat(GaussFilter.Paren(s), [ISNOTTRUE]);
  }

  lemma {:induction false} PlainJoin(sep: Token<Pred>, xs: seq<Sql>)
    requires Plain(sep) && xs != [] && forall i :: 0 <= i < |xs| ==> AllPlain(xs[i])
    ensures AllPlain(Join(sep, xs))
  {
    hide AllPlain, Plain;
    if |xs| == 1 {
    } else {
      PlainJoin(sep, xs[1..]);
      PlainOne(sep);
      PlainConcat(xs[0], [sep]);
      PlainConcat(xs[0] + [sep], Join(sep, xs[1..]));
    }
  }

  lemma PlainAnd(k: string, s: Sql)
    requires AllPlain(s)
    ensures AllPlain([Atom(KeyExists(k)), AND] + s)
  {
    assert AllPlain([Atom(KeyExists(k)), AND]);
    hide AllPlain;
    PlainConcat([Atom(KeyExists(k)), AND], s);
  }

  lemma PlainEqual(h: Host, k: string, v: PyVal)
    ensures AllPlain(EqualPiece(h, k, v).sql)
  {
  }

  lemma PlainContains(h: Host, k: string, text: string)
    ensures AllPlain(ContainsPiece(h, k, text).sql)
  {
  }

  lemma PlainNegate(k: string, p: Piece)
    requires AllPlain(p.sql)
    ensures AllPlain(Negate(k, p).sql)
  {
    PlainWrapped(p.sql);
    hide AllPlain, NotTrueSql;
    PlainAnd(k, NotTrueSql(p.sql));
  }

  lemma PlainMembers(h: Host, k: string, vs: seq<PyVal>, negate: bool)
    requires vs != []
    ensures AllPlain(Join(if negate then AND else OR, MemberFragments(h, k, vs, negate)))
  {
    hide AllPlain, EqualPiece, NotTrueSql, GaussFilter.Paren;
    var xs := MemberFragments(h, k, vs, negate);
    forall i | 0 <= i < |xs| ensures AllPlain(xs[i]) {
      PlainEqual(h, k, vs[i]);
      PlainWrapped(EqualPiece(h, k, vs[i]).sql);
    }
    PlainJoin(if negate then AND else OR, xs);
  }

  lemma PlainLeaves(ps: seq<Pred>)
    requires ps != [] && forall i :: 0 <= i < |ps| ==> Plain(Atom(ps[i]))
    ensures AllPlain(Join(OR, Leaves(ps))) && AllPlain(Join(AND, NotTrueLeaves(ps)))
  {
    hide AllPlain, NotTrueSql, Plain;
    forall i | 0 <= i < |ps| ensures AllPlain(Leaves(ps)[i]) && AllPlain(NotTrueLeaves(ps)[i]) {
      PlainOne(Atom(ps[i]));
      PlainWrapped([Atom(ps[i])]);
    }
    PlainConnectives();
    PlainJoin(OR, Leaves(ps));
    PlainJoin(AND, NotTrueLeaves(ps));
  }

  lemma PlainConnectives()
    ensures Plain(OR) && Plain(AND)
  {
  }

  lemma PlainEmpty(k: string)
    ensures AllPlain(EmptySql(k)) && AllPlain(NotEmptySql(k))
  {
    hide AllPlain, Join, Leaves, NotTrueLeaves;
    PlainLeaves([KeyMissing(k)] + Blanks(k));
    PlainLeaves(Blanks(k));
    PlainAnd(k, Join(AND, NotTrueLeaves(Blanks(k))));
  }

  /** What the translator writes is plain. */
  lemma FilterPlain(h: Host, rd: Reading, f: Filter)
    requires Translate(h, rd, f).Ok?
    ensures AllPlain(Translate(h, rd, f).value.sql)
  {
    hide AllPlain, EqualPiece, ContainsPiece, Negate, MemberFragments, MembershipValues, EmptySql, NotEmptySql, Join,
         Plain;
    var k := f.key;
    match f.op
    case Empty => PlainEmpty(k);
    case NotEmpty => PlainEmpty(k);
    case Eq => PlainEqual(h, k, GaussFilter.CoerceScalar(h, f.value).value);
    case Ne =>
      PlainEqual(h, k, GaussFilter.CoerceScalar(h, f.value).value);
      PlainNegate(k, EqualPiece(h, k, GaussFilter.CoerceScalar(h, f.value).value));
    case Range(op) => PlainAtoms(k, op);
    case In =>
      MembersSome(h, f.value);
      PlainMembers(h, k, MembershipValues(h, f.value).value, false);
    case NotIn =>
      MembersSome(h, f.value);
      PlainMembers(h, k, MembershipValues(h, f.value).value, true);
      PlainAnd(k, Join(AND, MemberFragments(h, k, MembershipValues(h, f.value).value, true)));
    case Contains => PlainContains(h, k, CoerceString(h, f.value).value);
    case NotContains =>
      PlainContains(h, k, CoerceString(h, f.value).value);
      PlainNegate(k, ContainsPiece(h, k, CoerceString(h, f.value).value));
    case StartWith => PlainAtoms(k, GT);
    case EndWith => PlainAtoms(k, GT);
  }

  lemma PlainAtoms(k: string, op: Cmp)
    ensures AllPlain([Atom(TimeCompare(k, op, Hole))]) && AllPlain([Atom(NumberCompare(k, op, Hole))])
    ensures AllPlain([Atom(LowerLike(k, Hole))]) && AllPlain([Atom(OneIsOne)])
  {
  }

  lemma PlanPlain(h: Host, rd: Reading, fs: seq<Filter>, logic: string, ps: seq<Piece>)
    requires |ps| == |fs| && forall i :: 0 <= i < |fs| ==> Translate(h, rd, fs[i]) == Ok(ps[i])
    ensures AllPlain(Predicate(ps, logic).sql)
  {
    hide AllPlain, Translate, Plain, Join, GaussFilter.Paren;
    if fs == [] {
      PlainAtoms("", GT);
    } else {
      forall i | 0 <= i < |fs| ensures AllPlain(Parens(ps)[i]) {
        FilterPlain(h, rd, fs[i]);
        PlainWrapped(ps[i].sql);
      }
      PlainConnectives();
      PlainJoin(Joiner(logic), Parens(ps));
    }
  }

  /** The characters and places of every plan, keys included, are read back as the plan. */
  lemma PlanReadsBack(h: Host, rd: Reading, fs: seq<Filter>, logic: string, ps: seq<Piece>)
    requires |ps| == |fs| && forall i :: 0 <= i < |fs| ==> Translate(h, rd, fs[i]) == Ok(ps[i])
    ensures ReadTokens(SqlBits(Predicate(ps, logic).sql)) == Some(Predicate(ps, logic).sql)
  {
    PlanPlain(h, rd, fs, logic, ps);
    hide Translate, Predicate, SqlBits, AllPlain, ReadTokens;
    TokensReadBack(Predicate(ps, logic).sql);
  }

  // ----- what the server selects -----

  /** What the server finds under the keys of the document: nothing where the path has a
      NULL in it. */
  function Found(d: Document): Document {
    (k: string) => if ServerPath.Leads(k) then d(k) else None
  }

  /** What a filter selects there: a key with a segment `null` is missing everywhere. */
  ghost predicate SelectsFound(h: Host, e: Engine, rd: Reading, d: Document, f: Filter)
    requires Translate(h, rd, f).Ok?
  {
    if ServerPath.HasNullWord(f.key) then f.op.Empty? else Selects(h, e, rd, d, f)
  }

  lemma FoundSelects(h: Host, e: Engine, rd: Reading, d: Document, f: Filter)
    requires Translate(h, rd, f).Ok?
    ensures Selects(h, e, rd, Found(d), f) <==> SelectsFound(h, e, rd, d, f)
  {
    ServerPath.LeadsIff(f.key);
    hide ServerPath.Leads, ServerPath.HasNullWord, Translate;
    if ServerPath.HasNullWord(f.key) {
      assert Found(d)(f.key) == None;
      if f.op.Empty? {
        MissingIsEmpty(h, e, rd, Found(d), f);
      } else {
        SelectsOnlyPresent(h, e, rd, Found(d), f);
      }
    } else {
      SameSelects(h, e, rd, Found(d), d, f);
    }
    hide Selects;
  }

  lemma MissingIsEmpty(h: Host, e: Engine, rd: Reading, d: Document, f: Filter)
    requires Translate(h, rd, f).Ok? && f.op.Empty? && d(f.key).None?
    ensures Selects(h, e, rd, d, f)
  {
    hide Translate;
  }

  /** From the characters sent to the documents selected: if no key holds a percent sign,
      the driver finds the statement with its places, and what stands in it between the
      scope and the order, read back and filled with the parameters, selects the and/or of
      the filters, those on a key with a segment `null` selecting everything if they are
      `empty` and nothing otherwise. */
  lemma SentSelects(dr: Driver, h: Host, e: Engine, rd: Reading, d: Document, table: string, n: nat,
                    fs: seq<Filter>, logic: string, ps: seq<Piece>)
    requires dr.Sane() && '%' !in table && forall i :: 0 <= i < |fs| ==> '%' !in fs[i].key
    requires |ps| == |fs| && forall i :: 0 <= i < |fs| ==> Translate(h, rd, fs[i]) == Ok(ps[i])
    ensures var plan := Predicate(ps, logic); var bits := SqlBits(plan.sql);
      && ReadText(dr, Written(Statement(table, n, plan.sql))) == Some(Enclosed(table, n, bits))
      && ReadTokens(bits).Some?
      && (Evaluate(Valuation(e, Found(d)), Fill(ReadTokens(bits).value, plan.params)) == Value(True) <==>
          fs == [] || if logic == "and" then forall i :: 0 <= i < |fs| ==> SelectsFound(h, e, rd, d, fs[i])
                      else exists i :: 0 <= i < |fs| && SelectsFound(h, e, rd, d, fs[i]))
  {
    StatementReadsIff(dr, h, rd, table, n, fs, logic, ps);
    PlanReadsBack(h, rd, fs, logic, ps);
    PlanSelects(h, e, rd, Found(d), fs, logic, ps);
    hide Translate, Predicate, SqlBits, ReadTokens, ReadText, Enclosed, Evaluate, Selects, SelectsFound, Fill, Written;
    forall i | 0 <= i < |fs|
      ensures Selects(h, e, rd, Found(d), fs[i]) <==> SelectsFound(h, e, rd, d, fs[i])
    {
      FoundSelects(h, e, rd, d, fs[i]);
    }
  }

  /** The server finds, in every document, what stands under the keys of a request if and
      only if none of them has a segment `null`. */
  lemma FoundIff(fs: seq<Filter>)
    ensures (forall d: Document, i :: 0 <= i < |fs| ==> Found(d)(fs[i].key) == d(fs[i].key)) <==>
            forall i :: 0 <= i < |fs| ==> !ServerPath.HasNullWord(fs[i].key)
  {
    hide ServerPath.Leads, ServerPath.HasNullWord;
    forall i | 0 <= i < |fs| ensures ServerPath.Leads(fs[i].key) <==> !ServerPath.HasNullWord(fs[i].key) {
      ServerPath.LeadsIff(fs[i].key);
    }
    var full: Document := (k: string) => Some(JNull);
    assert forall i :: 0 <= i < |fs| && ServerPath.HasNullWord(fs[i].key) ==> Found(full)(fs[i].key) != full(fs[i].key);
  }
}
