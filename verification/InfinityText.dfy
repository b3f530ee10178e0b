/** The Infinity predicate as characters: rendering it and reading it back. */
module InfinityText {
  import opened Text
  import opened Python
  import opened MetaFilter
  import opened Coercion
  import opened SqlSyntax
  import opened SqlText
  import opened InfinityFilter
  import Patterns

  // ----- rendering -----

  function OpWord(op: SqlCmp): string {
    match op
    case EQ => "="
    case NE => "!="
    case Order(GT) => ">"
    case Order(LT) => "<"
    case Order(GE) => ">="
    case Order(LE) => "<="
  }

  function ArgText(h: Host, a: Arg): string {
    if a.Num? then h.show(a.n) else a.text
  }

  const CONTAINS := "JSON_CONTAINS"
  const EXTRACT_TEXT := "JSON_EXTRACT_STRING"
  const EXTRACT_NUMBER := "JSON_EXTRACT_DOUBLE"
  const COLUMN := "meta_fields"
  const LIKE_WORD := "LIKE"
  const AND_WORD := "AND"
  const OR_WORD := "OR"
  const NOT_WORD := "NOT"
  const TRUE_WORD := "1=1"

  function PathText(k: string): string {
    "'$." + k + "'"
  }

  /** `function(meta_fields, '$.key'`. */
  function CallText(name: string, k: string): string {
    name + ("(" + (COLUMN + ("," + (" " + PathText(k)))))
  }

  function PredText(h: Host, p: Pred): string {
    match p
    case OneIsOne => TRUE_WORD
    case JsonContains(k, a) => CallText(CONTAINS, k) + ("," + (" " + (ArgText(h, a) + ")")))
    case ExtractText(k, op, raw) => CallText(EXTRACT_TEXT, k) + (")" + (" " + (OpWord(op) + (" " + raw))))
    case ExtractNumber(k, op, n) => CallText(EXTRACT_NUMBER, k) + (")" + (" " + (OpWord(op) + (" " + h.show(n)))))
    case Like(k, raw) => CallText(EXTRACT_TEXT, k) + (")" + (" " + (LIKE_WORD + (" " + raw))))
  }

  function TokenText(h: Host, t: Token<Pred>): string {
    match t
    case LP => "("
    case RP => ")"
    case AND => " " + (AND_WORD + " ")
    case OR => " " + (OR_WORD + " ")
    case NOT => NOT_WORD + " "
    case ISNOTTRUE => ""
    case Atom(p) => PredText(h, p)
  }

  /** The characters of the predicate. */
  function Rendered(h: Host, ts: Sql): string {
    if ts == [] then [] else TokenText(h, ts[0]) + Rendered(h, ts[1..])
  }

  // ----- lexing -----

  datatype Lexeme = Word(w: string) | Quoted(content: string) | Sym(c: char)

  predicate SymChar(c: char) {
    c == '(' || c == ')' || c == ','
  }

  predicate WordChar(c: char) {
    !SymChar(c) && c != ' ' && c != '\''
  }

  function WordEnd(s: string): (n: nat)
    ensures n <= |s|
  {
    if s == [] || !WordChar(s[0]) then 0 else 1 + WordEnd(s[1..])
  }

  function Cons(x: Lexeme, r: Option<seq<Lexeme>>): Option<seq<Lexeme>> {
    if r.None? then None else Some([x] + r.value)
  }

  /** Blanks separate, quotes open a literal that ends at its own closing quote. */
  function Lex(s: string): Option<seq<Lexeme>>
    decreases |s|
  {
    if s == [] then Some([])
    else if s[0] == ' ' then Lex(s[1..])
    else if SymChar(s[0]) then Cons(Sym(s[0]), Lex(s[1..]))
    else if s[0] == '\'' then
      var r := ReadLiteral(s);
      if r.None? || |r.value.1| >= |s| then None else Cons(Quoted(r.value.0), Lex(r.value.1))
    else
      var n := WordEnd(s);
      if n == 0 then None else Cons(Word(s[..n]), Lex(s[n..]))
  }

  /** The text does not run on into a word or a literal. */
  predicate Edge(rest: string) {
    rest == [] || SymChar(rest[0]) || rest[0] == ' '
  }

  function Prepend(ls: seq<Lexeme>, r: Option<seq<Lexeme>>): Option<seq<Lexeme>> {
    if r.None? then None else Some(ls + r.value)
  }

  /** Wherever the text is followed by an edge it lexes to ls. */
  ghost predicate Lexes(s: string, ls: seq<Lexeme>) {
    forall rest: string {:trigger s + rest} :: Edge(rest) ==> Lex(s + rest) == Prepend(ls, Lex(rest))
  }

  /** Whatever follows it. */
  ghost predicate Closed(s: string, ls: seq<Lexeme>) {
    forall rest: string {:trigger s + rest} :: Lex(s + rest) == Prepend(ls, Lex(rest))
  }

  lemma ClosedLexes(s: string, ls: seq<Lexeme>)
    requires Closed(s, ls)
    ensures Lexes(s, ls)
  {
    hide Lex;
  }

  lemma PrependTwice(a: seq<Lexeme>, b: seq<Lexeme>, r: Option<seq<Lexeme>>)
    ensures Prepend(a, Prepend(b, r)) == Prepend(a + b, r)
  {
    if r.Some? {
      assert a + (b + r.value) == a + b + r.value;
    }
  }

  lemma ClosedThen(s: string, a: seq<Lexeme>, t: string, b: seq<Lexeme>)
    requires Closed(s, a) && Lexes(t, b)
    ensures Lexes(s + t, a + b)
  {
    hide Lex, Prepend;
    forall rest: string | Edge(rest) ensures Lex(s + t + rest) == Prepend(a + b, Lex(rest)) {
      assert s + t + rest == s + (t + rest);
      assert Lex(s + (t + rest)) == Prepend(a, Lex(t + rest));
      PrependTwice(a, b, Lex(rest));
    }
  }

  lemma ClosedBoth(s: string, a: seq<Lexeme>, t: string, b: seq<Lexeme>)
    requires Closed(s, a) && Closed(t, b)
    ensures Closed(s + t, a + b)
  {
    hide Lex, Prepend;
    forall rest: string ensures Lex(s + t + rest) == Prepend(a + b, Lex(rest)) {
      assert s + t + rest == s + (t + rest);
      assert Lex(s + (t + rest)) == Prepend(a, Lex(t + rest));
      PrependTwice(a, b, Lex(rest));
    }
  }

  /** A text that is followed by an edge inside. */
  lemma EdgeBetween(s: string, a: seq<Lexeme>, t: string, b: seq<Lexeme>)
    requires Lexes(s, a) && Lexes(t, b) && (t == [] || Edge(t))
    ensures Lexes(s + t, a + b)
  {
    hide Lex, Prepend;
    forall rest: string | Edge(rest) ensures Lex(s + t + rest) == Prepend(a + b, Lex(rest)) {
      assert s + t + rest == s + (t + rest);
      assert Edge(t + rest) by {
        if t == [] { assert t + rest == rest; } else { assert (t + rest)[0] == t[0]; }
      }
      assert Lex(s + (t + rest)) == Prepend(a, Lex(t + rest));
      PrependTwice(a, b, Lex(rest));
    }
  }

  lemma EdgeThenClosed(s: string, a: seq<Lexeme>, t: string, b: seq<Lexeme>)
    requires Lexes(s, a) && Closed(t, b) && t != [] && Edge(t)
    ensures Closed(s + t, a + b)
  {
    hide Lex, Prepend;
    forall rest: string ensures Lex(s + t + rest) == Prepend(a + b, Lex(rest)) {
      assert s + t + rest == s + (t + rest);
      assert (t + rest)[0] == t[0];
      assert Lex(s + (t + rest)) == Prepend(a, Lex(t + rest));
      PrependTwice(a, b, Lex(rest));
    }
  }

  lemma BlankClosed()
    ensures Closed(" ", [])
  {
    forall rest: string ensures Lex(" " + rest) == Prepend([], Lex(rest)) {
      assert (" " + rest)[0] == ' ' && (" " + rest)[1..] == rest;
      if Lex(rest).Some? {
        assert [] + Lex(rest).value == Lex(rest).value;
      }
    }
  }

  lemma SymClosed(c: char)
    requires SymChar(c)
    ensures Closed([c], [Sym(c)])
  {
    forall rest: string ensures Lex([c] + rest) == Prepend([Sym(c)], Lex(rest)) {
      assert ([c] + rest)[0] == c && ([c] + rest)[1..] == rest;
    }
  }

  predicate IsWord(w: string) {
    w != [] && forall i :: 0 <= i < |w| ==> WordChar(w[i])
  }

  lemma {:induction false} WordEnds(w: string, rest: string)
    requires forall i :: 0 <= i < |w| ==> WordChar(w[i])
    requires Edge(rest)
    ensures WordEnd(w + rest) == |w|
  {
    if w == [] {
      assert w + rest == rest;
    } else {
      assert (w + rest)[1..] == w[1..] + rest;
      WordEnds(w[1..], rest);
    }
  }

  lemma WordLexes(w: string)
    requires IsWord(w)
    ensures Lexes(w, [Word(w)])
  {
    forall rest: string | Edge(rest) ensures Lex(w + rest) == Prepend([Word(w)], Lex(rest)) {
      WordEnds(w, rest);
      assert (w + rest)[0] == w[0] && (w + rest)[..|w|] == w && (w + rest)[|w|..] == rest;
    }
  }

  lemma LiteralLexes(content: string)
    ensures Lexes(Literal(content), [Quoted(content)])
  {
    hide EscapeSql, ReadBody;
    forall rest: string | Edge(rest) ensures Lex(Literal(content) + rest) == Prepend([Quoted(content)], Lex(rest)) {
      LiteralReadsBack(content, rest);
      assert (Literal(content) + rest)[0] == '\'';
    }
  }

  // ----- a predicate as lexemes -----

  function ArgLexeme(h: Host, a: Arg): Lexeme {
    if a.Num? then Word(h.show(a.n)) else RawLexeme(a.text)
  }

  /** The one lexeme of a text that is a literal. */
  function RawLexeme(raw: string): Lexeme {
    var r := ReadLiteral(raw);
    if r.Some? then Quoted(r.value.0) else Quoted([])
  }

  function CallLexemes(name: string, k: string): seq<Lexeme> {
    [Word(name), Sym('('), Word(COLUMN), Sym(','), Quoted("$." + k)]
  }

  function PredLexemes(h: Host, p: Pred): seq<Lexeme> {
    match p
    case OneIsOne => [Word(TRUE_WORD)]
    case JsonContains(k, a) => CallLexemes(CONTAINS, k) + [Sym(','), ArgLexeme(h, a), Sym(')')]
    case ExtractText(k, op, raw) => CallLexemes(EXTRACT_TEXT, k) + [Sym(')'), Word(OpWord(op)), RawLexeme(raw)]
    case ExtractNumber(k, op, n) => CallLexemes(EXTRACT_NUMBER, k) + [Sym(')'), Word(OpWord(op)), Word(h.show(n))]
    case Like(k, raw) => CallLexemes(EXTRACT_TEXT, k) + [Sym(')'), Word(LIKE_WORD), RawLexeme(raw)]
  }

  function TokenLexemes(h: Host, t: Token<Pred>): seq<Lexeme> {
    match t
    case LP => [Sym('(')]
    case RP => [Sym(')')]
    case AND => [Word(AND_WORD)]
    case OR => [Word(OR_WORD)]
    case NOT => [Word(NOT_WORD)]
    case ISNOTTRUE => []
    case Atom(p) => PredLexemes(h, p)
  }

  function Lexemes(h: Host, ts: Sql): seq<Lexeme> {
    if ts == [] then [] else TokenLexemes(h, ts[0]) + Lexemes(h, ts[1..])
  }

  ghost predicate IsLiteral(raw: string) {
    exists content :: raw == Literal(content)
  }

  /** What the translator writes: keys without quotes, quoted texts as literals, and as
      numbers only some of these. */
  ghost predicate Proper(ns: set<PyVal>, p: Pred) {
    match p
    case OneIsOne => true
    case JsonContains(k, a) => '\'' !in k && (if a.Num? then a.n in ns else IsLiteral(a.text))
    case ExtractText(k, op, raw) => '\'' !in k && IsLiteral(raw)
    case ExtractNumber(k, op, n) => '\'' !in k && n in ns
    case Like(k, raw) => '\'' !in k && IsLiteral(raw)
  }

  /** `str` of these numbers is a word: it holds no blank, quote, comma or parenthesis. */
  ghost predicate Words(h: Host, ns: set<PyVal>) {
    forall v :: v in ns ==> IsWord(h.show(v))
  }

  lemma RawLexes(raw: string)
    requires IsLiteral(raw)
    ensures Lexes(raw, [RawLexeme(raw)])
  {
    var content :| raw == Literal(content);
    LiteralLexes(content);
    LiteralReadsBack(content, []);
    assert Literal(content) + [] == Literal(content);
    hide Lex, EscapeSql, ReadBody;
  }

  lemma ArgLexes(h: Host, ns: set<PyVal>, a: Arg)
    requires Words(h, ns) && (if a.Num? then a.n in ns else IsLiteral(a.text))
    ensures Lexes(ArgText(h, a), [ArgLexeme(h, a)])
  {
    hide Lexes, RawLexeme;
    if a.Num? {
      WordLexes(h.show(a.n));
    } else {
      RawLexes(a.text);
    }
  }

  lemma FixedWords()
    ensures IsWord(CONTAINS) && IsWord(EXTRACT_TEXT) && IsWord(EXTRACT_NUMBER) && IsWord(COLUMN) && IsWord(LIKE_WORD)
    ensures IsWord(AND_WORD) && IsWord(OR_WORD) && IsWord(NOT_WORD) && IsWord(TRUE_WORD)
  {
  }

  lemma OpIsWord(op: SqlCmp)
    ensures IsWord(OpWord(op))
  {
  }

  /** A blank in front. */
  lemma BlankThen(t: string, b: seq<Lexeme>)
    requires Lexes(t, b)
    ensures Lexes(" " + t, b) && Edge(" " + t)
  {
    BlankClosed();
    ClosedThen(" ", [], t, b);
    assert [] + b == b;
    assert (" " + t)[0] == ' ';
  }

  /** A symbol in front. */
  lemma SymThen(c: char, t: string, b: seq<Lexeme>)
    requires SymChar(c) && Lexes(t, b)
    ensures Lexes([c] + t, [Sym(c)] + b) && Edge([c] + t)
  {
    SymClosed(c);
    ClosedThen([c], [Sym(c)], t, b);
    assert ([c] + t)[0] == c;
  }

  /** A word in front of an edge. */
  lemma WordThen(w: string, t: string, b: seq<Lexeme>)
    requires IsWord(w) && Lexes(t, b) && Edge(t)
    ensures Lexes(w + t, [Word(w)] + b)
  {
    WordLexes(w);
    EdgeBetween(w, [Word(w)], t, b);
  }

  lemma CallLexes(name: string, k: string)
    requires IsWord(name) && '\'' !in k
    ensures Lexes(CallText(name, k), CallLexemes(name, k))
  {
    FixedWords();
    KeyLexes(k);
    hide Lexes, IsWord, PathText, COLUMN;
    BlankThen(PathText(k), [Quoted("$." + k)]);
    SymThen(',', " " + PathText(k), [Quoted("$." + k)]);
    WordThen(COLUMN, "," + (" " + PathText(k)), [Sym(',')] + [Quoted("$." + k)]);
    var t := COLUMN + ("," + (" " + PathText(k)));
    var b := [Word(COLUMN)] + ([Sym(',')] + [Quoted("$." + k)]);
    SymThen('(', t, b);
    WordThen(name, "(" + t, [Sym('(')] + b);
    assert [Word(name)] + ([Sym('(')] + b) == CallLexemes(name, k);
  }

  lemma KeyLexes(k: string)
    requires '\'' !in k
    ensures Lexes(PathText(k), [Quoted("$." + k)])
  {
    ReplaceNothing("$." + k, '\'', "''");
    LiteralLexes("$." + k);
    assert PathText(k) == Literal("$." + k);
  }

  /** `)`, a blank, a word, a blank and a last lexeme. */
  lemma TailLexes(w: string, t: string, b: Lexeme)
    requires IsWord(w) && Lexes(t, [b])
    ensures Lexes(")" + (" " + (w + (" " + t))), [Sym(')'), Word(w), b]) && Edge(")" + (" " + (w + (" " + t))))
  {
    hide Lexes, IsWord;
    BlankThen(t, [b]);
    WordThen(w, " " + t, [b]);
    BlankThen(w + (" " + t), [Word(w)] + [b]);
    SymThen(')', " " + (w + (" " + t)), [Word(w)] + [b]);
    assert [Sym(')')] + ([Word(w)] + [b]) == [Sym(')'), Word(w), b];
  }

  /** Every comparison lexes to its own lexemes, however its texts look. */
  lemma PredLexes(h: Host, ns: set<PyVal>, p: Pred)
    requires Words(h, ns) && Proper(ns, p)
    ensures Lexes(PredText(h, p), PredLexemes(h, p))
  {
    FixedWords();
    hide Lexes, IsWord, CallText, CallLexemes, OpWord, ArgText, ArgLexeme, RawLexeme,
         CONTAINS, EXTRACT_TEXT, EXTRACT_NUMBER, LIKE_WORD, TRUE_WORD;
    match p
    case OneIsOne => WordLexes(TRUE_WORD);
    case JsonContains(k, a) =>
      CallLexes(CONTAINS, k);
      ArgLexes(h, ns, a);
      SymAlone(')');
      EdgeBetween(ArgText(h, a), [ArgLexeme(h, a)], ")", [Sym(')')]);
      BlankThen(ArgText(h, a) + ")", [ArgLexeme(h, a)] + [Sym(')')]);
      SymThen(',', " " + (ArgText(h, a) + ")"), [ArgLexeme(h, a)] + [Sym(')')]);
      assert [Sym(',')] + ([ArgLexeme(h, a)] + [Sym(')')]) == [Sym(','), ArgLexeme(h, a), Sym(')')];
      EdgeBetween(CallText(CONTAINS, k), CallLexemes(CONTAINS, k), "," + (" " + (ArgText(h, a) + ")")),
                  [Sym(','), ArgLexeme(h, a), Sym(')')]);
    case ExtractText(k, op, raw) =>
      CallLexes(EXTRACT_TEXT, k);
      OpIsWord(op);
      RawLexes(raw);
      TailLexes(OpWord(op), raw, RawLexeme(raw));
      EdgeBetween(CallText(EXTRACT_TEXT, k), CallLexemes(EXTRACT_TEXT, k), ")" + (" " + (OpWord(op) + (" " + raw))),
                  [Sym(')'), Word(OpWord(op)), RawLexeme(raw)]);
    case ExtractNumber(k, op, n) =>
      CallLexes(EXTRACT_NUMBER, k);
      OpIsWord(op);
      WordLexes(h.show(n));
      TailLexes(OpWord(op), h.show(n), Word(h.show(n)));
      EdgeBetween(CallText(EXTRACT_NUMBER, k), CallLexemes(EXTRACT_NUMBER, k),
                  ")" + (" " + (OpWord(op) + (" " + h.show(n)))), [Sym(')'), Word(OpWord(op)), Word(h.show(n))]);
    case Like(k, raw) =>
      CallLexes(EXTRACT_TEXT, k);
      RawLexes(raw);
      TailLexes(LIKE_WORD, raw, RawLexeme(raw));
      EdgeBetween(CallText(EXTRACT_TEXT, k), CallLexemes(EXTRACT_TEXT, k), ")" + (" " + (LIKE_WORD + (" " + raw))),
                  [Sym(')'), Word(LIKE_WORD), RawLexeme(raw)]);
  }

  lemma SymAlone(c: char)
    requires SymChar(c)
    ensures Lexes([c], [Sym(c)]) && Edge([c])
  {
    SymClosed(c);
    ClosedLexes([c], [Sym(c)]);
  }

  /** Comparisons are separated: none is followed by another one or by NOT. */
  ghost predicate Spaced(ts: Sql) {
    forall i :: 0 <= i < |ts| - 1 && ts[i].Atom? ==> !ts[i + 1].Atom? && !ts[i + 1].NOT? && !ts[i + 1].ISNOTTRUE?
  }

  ghost predicate AllProper(ns: set<PyVal>, ts: Sql) {
    forall i :: 0 <= i < |ts| ==> !ts[i].ISNOTTRUE? && (ts[i].Atom? ==> Proper(ns, ts[i].a))
  }

  lemma ConnectiveClosed(w: string)
    requires IsWord(w)
    ensures Closed(" " + (w + " "), [Word(w)]) && Closed(w + " ", [Word(w)]) && Edge(" " + (w + " "))
  {
    hide Lex;
    BlankClosed();
    WordLexes(w);
    EdgeThenClosed(w, [Word(w)], " ", []);
    assert [Word(w)] + [] == [Word(w)];
    ClosedBoth(" ", [], w + " ", [Word(w)]);
    assert [] + [Word(w)] == [Word(w)];
    assert (" " + (w + " "))[0] == ' ';
  }

  lemma TokenClosed(h: Host, t: Token<Pred>)
    requires !t.Atom? && !t.ISNOTTRUE?
    ensures Closed(TokenText(h, t), TokenLexemes(h, t))
    ensures !t.NOT? ==> TokenText(h, t) != [] && Edge(TokenText(h, t))
  {
    FixedWords();
    hide Closed, IsWord, AND_WORD, OR_WORD, NOT_WORD;
    match t
    case LP => SymClosed('(');
    case RP => SymClosed(')');
    case AND => ConnectiveClosed(AND_WORD);
    case OR => ConnectiveClosed(OR_WORD);
    case NOT => ConnectiveClosed(NOT_WORD);
  }

  lemma EmptyLexes()
    ensures Lexes([], [])
  {
    hide Lex;
    forall rest: string | Edge(rest) ensures Lex([] + rest) == Prepend([], Lex(rest)) {
      assert [] + rest == rest;
      if Lex(rest).Some? {
        assert [] + Lex(rest).value == Lex(rest).value;
      }
    }
  }

  /** No quote, parenthesis or keyword inside a literal moves a boundary. */
  lemma {:induction false} RenderedLexes(h: Host, ns: set<PyVal>, ts: Sql)
    requires Words(h, ns) && Spaced(ts) && AllProper(ns, ts)
    ensures Lexes(Rendered(h, ts), Lexemes(h, ts))
    ensures ts != [] && !ts[0].Atom? && !ts[0].NOT? ==> Rendered(h, ts) != [] && Edge(Rendered(h, ts))
  {
    hide Lexes, Closed, TokenText, TokenLexemes, Proper;
    if ts == [] {
      EmptyLexes();
    } else {
      assert Spaced(ts[1..]) && AllProper(ns, ts[1..]) by {
        assert forall i :: 0 <= i < |ts[1..]| ==> ts[1..][i] == ts[i + 1];
      }
      RenderedLexes(h, ns, ts[1..]);
      var x, a := TokenText(h, ts[0]), TokenLexemes(h, ts[0]);
      var y, b := Rendered(h, ts[1..]), Lexemes(h, ts[1..]);
      if ts[0].Atom? {
        PredLexes(h, ns, ts[0].a);
        AtomText(h, ts[0].a);
        assert ts[1..] != [] ==> ts[1..][0] == ts[1];
        EdgeBetween(x, a, y, b);
      } else {
        TokenClosed(h, ts[0]);
        ClosedThen(x, a, y, b);
        if !ts[0].NOT? {
          assert (x + y)[0] == x[0];
        }
      }
    }
  }

  lemma AtomText(h: Host, p: Pred)
    ensures TokenText(h, Atom(p)) == PredText(h, p) && TokenLexemes(h, Atom(p)) == PredLexemes(h, p)
  {
  }

  // ----- from lexemes back to tokens -----

  function OpOf(w: string): Option<SqlCmp> {
    if w == "=" then Some(EQ)
    else if w == "!=" then Some(NE)
    else if w == ">" then Some(Order(GT))
    else if w == "<" then Some(Order(LT))
    else if w == ">=" then Some(Order(GE))
    else if w == "<=" then Some(Order(LE))
    else None
  }

  predicate IsCall(ls: seq<Lexeme>, name: string) {
    |ls| >= 5 && ls[0] == Word(name) && ls[1] == Sym('(') && ls[2] == Word(COLUMN) && ls[3] == Sym(',')
    && ls[4].Quoted? && |ls[4].content| >= 2
  }

  /** One comparison at the start of the lexemes, and how many it takes. */
  function ReadPred(read: string -> PyVal, ls: seq<Lexeme>): Option<(Pred, nat)> {
    if ls != [] && ls[0] == Word(TRUE_WORD) then Some((OneIsOne, 1))
    else if |ls| < 8 || !ls[4].Quoted? || |ls[4].content| < 2 then None
    else
      var k := ls[4].content[2..];
      if IsCall(ls, CONTAINS) && ls[5] == Sym(',') && !ls[6].Sym? && ls[7] == Sym(')') then
        Some((JsonContains(k, if ls[6].Word? then Num(read(ls[6].w)) else Raw(Literal(ls[6].content))), 8))
      else if ls[5] != Sym(')') || !ls[6].Word? then None
      else if IsCall(ls, EXTRACT_NUMBER) && OpOf(ls[6].w).Some? && ls[7].Word? then
        Some((ExtractNumber(k, OpOf(ls[6].w).value, read(ls[7].w)), 8))
      else if !IsCall(ls, EXTRACT_TEXT) || !ls[7].Quoted? then None
      else if ls[6].w == LIKE_WORD then Some((Like(k, Literal(ls[7].content)), 8))
      else if OpOf(ls[6].w).Some? then Some((ExtractText(k, OpOf(ls[6].w).value, Literal(ls[7].content)), 8))
      else None
  }

  function Tokens(read: string -> PyVal, ls: seq<Lexeme>): Option<Sql>
    decreases |ls|
  {
    if ls == [] then Some([])
    else if ls[0] == Sym('(') then Join1(LP, Tokens(read, ls[1..]))
    else if ls[0] == Sym(')') then Join1(RP, Tokens(read, ls[1..]))
    else if ls[0] == Word(AND_WORD) then Join1(AND, Tokens(read, ls[1..]))
    else if ls[0] == Word(OR_WORD) then Join1(OR, Tokens(read, ls[1..]))
    else if ls[0] == Word(NOT_WORD) then Join1(NOT, Tokens(read, ls[1..]))
    else
      var r := ReadPred(read, ls);
      if r.None? || r.value.1 == 0 || r.value.1 > |ls| then None
      else Join1(Atom(r.value.0), Tokens(read, ls[r.value.1..]))
  }

  function Join1(t: Token<Pred>, r: Option<Sql>): Option<Sql> {
    if r.None? then None else Some([t] + r.value)
  }

  /** What a database makes of the characters. */
  function ReadSql(read: string -> PyVal, s: string): Option<Sql> {
    var ls := Lex(s);
    if ls.None? then None else Tokens(read, ls.value)
  }

  lemma RawBack(raw: string)
    requires IsLiteral(raw)
    ensures RawLexeme(raw).Quoted? && Literal(RawLexeme(raw).content) == raw
  {
    var content :| raw == Literal(content);
    LiteralReadsBack(content, []);
    assert Literal(content) + [] == Literal(content);
    hide ReadBody, EscapeSql;
  }

  lemma OpBack(op: SqlCmp)
    ensures OpOf(OpWord(op)) == Some(op) && OpWord(op) != LIKE_WORD
  {
  }

  predicate Connective(w: string) {
    w == AND_WORD || w == OR_WORD || w == NOT_WORD
  }

  lemma NamesDiffer()
    ensures CONTAINS != EXTRACT_TEXT && CONTAINS != EXTRACT_NUMBER && EXTRACT_TEXT != EXTRACT_NUMBER
    ensures CONTAINS != TRUE_WORD && EXTRACT_TEXT != TRUE_WORD && EXTRACT_NUMBER != TRUE_WORD
    ensures !Connective(CONTAINS) && !Connective(EXTRACT_TEXT) && !Connective(EXTRACT_NUMBER) && !Connective(TRUE_WORD)
    ensures AND_WORD != OR_WORD && AND_WORD != NOT_WORD && OR_WORD != NOT_WORD
  {
    assert CONTAINS[5] == 'C' && EXTRACT_TEXT[5] == 'E' && EXTRACT_NUMBER[5] == 'E';
    assert EXTRACT_TEXT[13] == 'S' && EXTRACT_NUMBER[13] == 'D';
    assert CONTAINS[0] == 'J' && EXTRACT_TEXT[0] == 'J' && EXTRACT_NUMBER[0] == 'J' && TRUE_WORD[0] == '1';
    assert AND_WORD[0] == 'A' && OR_WORD[0] == 'O' && NOT_WORD[0] == 'N';
  }

  lemma KeyBack(k: string)
    ensures ("$." + k)[2..] == k && |"$." + k| >= 2
  {
  }

  /** The number a comparison writes. */
  function NumberOf(p: Pred): Option<PyVal> {
    match p
    case JsonContains(_, Num(n)) => Some(n)
    case ExtractNumber(_, _, n) => Some(n)
    case _ => None
  }

  /** The comparison with its number as the database reads it. */
  function RereadPred(h: Host, read: string -> PyVal, p: Pred): Pred {
    match p
    case JsonContains(k, Num(n)) => JsonContains(k, Num(read(h.show(n))))
    case ExtractNumber(k, op, n) => ExtractNumber(k, op, read(h.show(n)))
    case _ => p
  }

  function Reread(h: Host, read: string -> PyVal, ts: Sql): (r: Sql)
    ensures |r| == |ts|
  {
    seq(|ts|, i requires 0 <= i < |ts| => if ts[i].Atom? then Atom(RereadPred(h, read, ts[i].a)) else ts[i])
  }

  /** The comparison is read back, whatever follows. */
  lemma PredReadsBack(h: Host, read: string -> PyVal, ns: set<PyVal>, p: Pred, rest: seq<Lexeme>)
    requires Proper(ns, p)
    ensures var ls := PredLexemes(h, p);
      ls != [] && ReadPred(read, ls + rest) == Some((RereadPred(h, read, p), |ls|))
      && ls[0].Word? && !Connective(ls[0].w)
  {
    NamesDiffer();
    hide IsLiteral, RawLexeme, Literal, OpWord, OpOf,
         CONTAINS, EXTRACT_TEXT, EXTRACT_NUMBER, LIKE_WORD, TRUE_WORD, COLUMN, Connective;
    match p
    case OneIsOne =>
    case JsonContains(k, a) =>
      KeyBack(k);
      if a.Raw? { RawBack(a.text); }
    case ExtractText(k, op, raw) =>
      KeyBack(k);
      RawBack(raw);
      OpBack(op);
    case ExtractNumber(k, op, n) =>
      KeyBack(k);
      OpBack(op);
    case Like(k, raw) =>
      KeyBack(k);
      RawBack(raw);
  }

  lemma {:induction false} TokensReadBack(h: Host, read: string -> PyVal, ns: set<PyVal>, ts: Sql)
    requires AllProper(ns, ts)
    ensures Tokens(read, Lexemes(h, ts)) == Some(Reread(h, read, ts))
  {
    hide PredLexemes, ReadPred, Proper, RereadPred;
    if ts == [] {
    } else {
      assert AllProper(ns, ts[1..]) by {
        assert forall i :: 0 <= i < |ts[1..]| ==> ts[1..][i] == ts[i + 1];
      }
      TokensReadBack(h, read, ns, ts[1..]);
      assert Reread(h, read, ts) == [Reread(h, read, ts)[0]] + Reread(h, read, ts[1..]);
      var a, b := TokenLexemes(h, ts[0]), Lexemes(h, ts[1..]);
      if ts[0].Atom? {
        PredReadsBack(h, read, ns, ts[0].a, b);
        assert (a + b)[0] == a[0] && (a + b)[|a|..] == b;
      } else {
        NamesDiffer();
        assert (a + b)[0] == a[0] && (a + b)[1..] == b;
      }
      hide AND_WORD, OR_WORD, NOT_WORD, TRUE_WORD;
    }
  }

  /** The characters of a predicate are read back as that predicate, with its numbers as
      the database reads them. */
  lemma RenderedReads(h: Host, read: string -> PyVal, ns: set<PyVal>, ts: Sql)
    requires Words(h, ns) && Spaced(ts) && AllProper(ns, ts)
    ensures ReadSql(read, Rendered(h, ts)) == Some(Reread(h, read, ts))
  {
    RenderedLexes(h, ns, ts);
    TokensReadBack(h, read, ns, ts);
    hide Rendered, Lexemes, Tokens, Words, Spaced, AllProper, Reread;
    var s := Rendered(h, ts);
    assert s + [] == s;
    assert Lex([]) == Some([]);
    hide Lex;
    assert Lex(s + []) == Prepend(Lexemes(h, ts), Lex([]));
    assert Lexemes(h, ts) + [] == Lexemes(h, ts);
  }

  /** The database reads `str` of these numbers as the numbers themselves. */
  ghost predicate Numbers(h: Host, read: string -> PyVal, ns: set<PyVal>) {
    forall v :: v in ns ==> read(h.show(v)) == v
  }

  ghost function NumbersIn(ts: Sql): set<PyVal> {
    set i | 0 <= i < |ts| && ts[i].Atom? && NumberOf(ts[i].a).Some? :: NumberOf(ts[i].a).value
  }

  /** They are read back as that very predicate if and only if every number it writes is
      read back: texts and keys never fail. */
  lemma RenderedReadsBackIff(h: Host, read: string -> PyVal, ns: set<PyVal>, ts: Sql)
    requires Words(h, ns) && Spaced(ts) && AllProper(ns, ts)
    ensures ReadSql(read, Rendered(h, ts)) == Some(ts) <==> Numbers(h, read, NumbersIn(ts))
  {
    RenderedReads(h, read, ns, ts);
    hide ReadSql, Rendered, Words, Spaced, AllProper;
    var r := Reread(h, read, ts);
    forall i | 0 <= i < |ts| && ts[i].Atom?
      ensures var n := NumberOf(ts[i].a); r[i] == ts[i] <==> (n.Some? ==> read(h.show(n.value)) == n.value)
    {
    }
    if Numbers(h, read, NumbersIn(ts)) {
      forall i | 0 <= i < |ts| ensures r[i] == ts[i] {
        assert ts[i].Atom? && NumberOf(ts[i].a).Some? ==> NumberOf(ts[i].a).value in NumbersIn(ts);
      }
      assert r == ts;
    }
  }

  // ----- what the translator writes -----

  /** Fit to be spliced in. */
  ghost predicate Phrase(ns: set<PyVal>, ts: Sql) {
    ts != [] && Spaced(ts) && AllProper(ns, ts)
  }

  /** The numbers a filter writes into the text. */
  function NumbersOf(h: Host, f: Filter): seq<PyVal> {
    match f.op
    case In => if CsvOrList(h, f.value).Ok? then Part(h, CsvOrList(h, f.value).value, true) else []
    case NotIn => if CsvOrList(h, f.value).Ok? then Part(h, CsvOrList(h, f.value).value, true) else []
    case Eq => Numeric(InfinityFilter.CoerceScalar(h, f.value))
    case Ne => Numeric(InfinityFilter.CoerceScalar(h, f.value))
    case Range(_) => Numeric(InfinityFilter.CoerceRange(h, f.value))
    case Contains => Numeric(InfinityFilter.CoerceRange(h, f.value))
    case _ => []
  }

  function Numeric(c: Coercion.Result<PyVal>): seq<PyVal> {
    if c.Ok? && IsNumber(c.value) then [c.value] else []
  }

  lemma {:induction false} PartKind(h: Host, ms: seq<PyVal>, numbers: bool)
    ensures forall i :: 0 <= i < |Part(h, ms, numbers)| ==> IsNumber(Part(h, ms, numbers)[i]) == numbers
  {
    hide CoerceRange;
    if ms == [] {
    } else {
      PartKind(h, ms[1..], numbers);
    }
  }

  lemma AtomPhrase(ns: set<PyVal>, p: Pred)
    requires Proper(ns, p)
    ensures Phrase(ns, [Atom(p)]) && Phrase(ns, [NOT] + [Atom(p)])
  {
    hide Proper;
  }

  lemma BetweenPhrase(ns: set<PyVal>, x: Sql, sep: Token<Pred>, y: Sql)
    requires Phrase(ns, x) && Phrase(ns, y) && (sep.AND? || sep.OR?)
    ensures Phrase(ns, x + [sep] + y)
  {
    hide Proper;
    var ts := x + [sep] + y;
    forall i | 0 <= i < |ts| - 1 && ts[i].Atom?
      ensures !ts[i + 1].Atom? && !ts[i + 1].NOT? && !ts[i + 1].ISNOTTRUE?
    {
      if i < |x| - 1 {
        assert x[i] == ts[i] && x[i + 1] == ts[i + 1];
      } else if i > |x| {
        assert y[i - |x| - 1] == ts[i] && y[i - |x|] == ts[i + 1];
      }
    }
  }

  lemma ParenPhrase(ns: set<PyVal>, x: Sql)
    requires Phrase(ns, x)
    ensures Phrase(ns, Paren(x))
  {
    hide Proper;
    var ts := Paren(x);
    forall i | 0 <= i < |ts| - 1 && ts[i].Atom?
      ensures !ts[i + 1].Atom? && !ts[i + 1].NOT? && !ts[i + 1].ISNOTTRUE?
    {
      assert x[i - 1] == ts[i];
      if i < |x| {
        assert x[i] == ts[i + 1];
      }
    }
  }

  lemma {:induction false} JoinPhrase(ns: set<PyVal>, sep: Token<Pred>, xs: seq<Sql>)
    requires xs != [] && (sep.AND? || sep.OR?) && forall i :: 0 <= i < |xs| ==> Phrase(ns, xs[i])
    ensures Phrase(ns, Join(sep, xs))
  {
    hide Phrase;
    if |xs| == 1 {
    } else {
      JoinPhrase(ns, sep, xs[1..]);
      BetweenPhrase(ns, xs[0], sep, Join(sep, xs[1..]));
    }
  }

  lemma JsonTextIsLiteral(s: string)
    ensures IsLiteral(JsonText(s).text)
  {
    LiteralParts("\"", s, "\"");
    hide EscapeSql;
    assert JsonText(s).text == Literal("\"" + s + "\"");
  }

  lemma ContainingPhrase(ns: set<PyVal>, h: Host, k: string, v: PyVal)
    requires '\'' !in k && (IsNumber(v) ==> v in ns)
    ensures Phrase(ns, Containing(k, ArgOf(h, v))) && Phrase(ns, Negated(Containing(k, ArgOf(h, v))))
  {
    hide IsLiteral;
    JsonTextIsLiteral(h.Str(v));
    AtomPhrase(ns, JsonContains(k, ArgOf(h, v)));
  }

  lemma GroupPhrase(ns: set<PyVal>, h: Host, k: string, vs: seq<PyVal>, negate: bool)
    requires '\'' !in k && vs != [] && forall i :: 0 <= i < |vs| && IsNumber(vs[i]) ==> vs[i] in ns
    ensures Phrase(ns, Paren(Join(if negate then AND else OR, Fragments(h, k, vs, negate))))
  {
    hide Phrase, ArgOf, Join;
    var xs := Fragments(h, k, vs, negate);
    forall i | 0 <= i < |xs| ensures Phrase(ns, xs[i]) {
      ContainingPhrase(ns, h, k, vs[i]);
    }
    assert |xs| == |vs|;
    JoinPhrase(ns, if negate then AND else OR, xs);
    ParenPhrase(ns, Join(if negate then AND else OR, xs));
  }

  lemma MembershipPhrase(ns: set<PyVal>, h: Host, k: string, ms: seq<PyVal>, negate: bool)
    requires '\'' !in k && ms != [] && Membership(h, k, ms, negate).Ok?
    requires forall v :: v in Part(h, ms, true) ==> v in ns
    ensures Phrase(ns, Membership(h, k, ms, negate).value)
  {
    hide Phrase, Fragments, Part, Join, CoerceRange;
    var texts, numbers := Part(h, ms, false), Part(h, ms, true);
    SomePart(h, ms);
    PartKind(h, ms, false);
    GroupCount(h, k, texts, negate);
    GroupCount(h, k, numbers, negate);
    if texts != [] { GroupPhrase(ns, h, k, texts, negate); }
    if numbers != [] { GroupPhrase(ns, h, k, numbers, negate); }
    var cs := Conditions(Fragments(h, k, texts, negate), Fragments(h, k, numbers, negate), negate);
    JoinPhrase(ns, if negate then AND else OR, cs);
    ParenPhrase(ns, Join(if negate then AND else OR, cs));
  }

  lemma KeyHasNoQuote(k: string)
    requires InfinityFilter.ValidKey(k)
    ensures '\'' !in k
  {
  }

  lemma LikeLiteral(t: string)
    ensures IsLiteral("'" + EscapeSql(t) + "%'") && IsLiteral("'%" + EscapeSql(t) + "'")
  {
    LiteralParts("", t, "%");
    LiteralParts("%", t, "");
    hide EscapeSql;
    assert "'" + "" + EscapeSql(t) + "%" + "'" == "'" + EscapeSql(t) + "%'" == Literal("" + t + "%");
    assert "'" + "%" + EscapeSql(t) + "" + "'" == "'%" + EscapeSql(t) + "'" == Literal("%" + t + "");
  }

  lemma FilterPhrase(ns: set<PyVal>, h: Host, f: Filter)
    requires InfinityFilter.Translate(h, f).Ok? && forall v :: v in NumbersOf(h, f) ==> v in ns
    ensures Phrase(ns, InfinityFilter.Translate(h, f).value)
  {
    hide Phrase, Proper, IsLiteral, Membership, CsvOrList, EscapeSql, Patterns.Escape, ArgOf;
    var k := f.key;
    KeyHasNoQuote(k);
    match f.op
    case Empty =>
      BlankProper(ns, k, EQ);
      AtomPhrase(ns, ExtractText(k, EQ, "'\"\"'"));
    case NotEmpty =>
      BlankProper(ns, k, NE);
      AtomPhrase(ns, ExtractText(k, NE, "'\"\"'"));
    case Eq => ContainingPhrase(ns, h, k, InfinityFilter.CoerceScalar(h, f.value).value);
    case Ne => ContainingPhrase(ns, h, k, InfinityFilter.CoerceScalar(h, f.value).value);
    case Range(op) =>
      var v := InfinityFilter.CoerceRange(h, f.value).value;
      RangeProper(ns, h, k, op, v);
      if IsNumber(v) {
        AtomPhrase(ns, ExtractNumber(k, Order(op), v));
      } else {
        AtomPhrase(ns, ExtractText(k, Order(op), Literal(h.Str(v))));
      }
    case In =>
      CsvNonEmpty(h, f.value);
      MembershipPhrase(ns, h, k, CsvOrList(h, f.value).value, false);
    case NotIn =>
      CsvNonEmpty(h, f.value);
      MembershipPhrase(ns, h, k, CsvOrList(h, f.value).value, true);
    case Contains => ContainingPhrase(ns, h, k, InfinityFilter.CoerceRange(h, f.value).value);
    case NotContains =>
      TextProper(ns, k, CoerceText(h, f.value).value);
      AtomPhrase(ns, JsonContains(k, JsonText(CoerceText(h, f.value).value)));
    case StartWith =>
      LikeProper(ns, k, Patterns.Escape(Patterns.LIKE, CoerceText(h, f.value).value));
      AtomPhrase(ns, Like(k, "'" + EscapeSql(Patterns.Escape(Patterns.LIKE, CoerceText(h, f.value).value)) + "%'"));
    case EndWith =>
      LikeProper(ns, k, Patterns.Escape(Patterns.LIKE, CoerceText(h, f.value).value));
      AtomPhrase(ns, Like(k, "'%" + EscapeSql(Patterns.Escape(Patterns.LIKE, CoerceText(h, f.value).value)) + "'"));
  }

  lemma BlankProper(ns: set<PyVal>, k: string, op: SqlCmp)
    requires '\'' !in k
    ensures Proper(ns, ExtractText(k, op, "'\"\"'"))
  {
    BlankLiteral();
  }

  lemma RangeProper(ns: set<PyVal>, h: Host, k: string, op: Cmp, v: PyVal)
    requires '\'' !in k
    ensures v in ns ==> Proper(ns, ExtractNumber(k, Order(op), v))
    ensures Proper(ns, ExtractText(k, Order(op), Literal(h.Str(v))))
  {
  }

  lemma TextProper(ns: set<PyVal>, k: string, t: string)
    requires '\'' !in k
    ensures Proper(ns, JsonContains(k, JsonText(t)))
  {
    JsonTextIsLiteral(t);
  }

  lemma LikeProper(ns: set<PyVal>, k: string, t: string)
    requires '\'' !in k
    ensures Proper(ns, Like(k, "'" + EscapeSql(t) + "%'")) && Proper(ns, Like(k, "'%" + EscapeSql(t) + "'"))
  {
    LikeLiteral(t);
  }

  // ----- the whole request -----

  ghost function RequestNumbers(h: Host, fs: seq<Filter>): set<PyVal> {
    set i, v | 0 <= i < |fs| && v in NumbersOf(h, fs[i]) :: v
  }

  /** The characters sent to Infinity, for every accepted list of filters and either
      logic, are read back (whatever quotes, parentheses or keywords the values hold) as a
      predicate whose value is the conjunction or disjunction of what the filters mean, if
      the few numbers the request writes are read back. */
  lemma TextMeans(h: Host, read: string -> PyVal, d: Answers, fs: seq<Filter>, logic: string, fragments: seq<Sql>)
    requires Words(h, RequestNumbers(h, fs)) && Numbers(h, read, RequestNumbers(h, fs))
    requires |fragments| == |fs|
    requires forall i :: 0 <= i < |fs| ==> InfinityFilter.Translate(h, fs[i]) == Ok(fragments[i])
    ensures ReadSql(read, Rendered(h, Build(fragments, logic))) == Some(Build(fragments, logic))
    ensures var val := (p: Pred) => Val(d, p);
      Evaluate(val, ReadSql(read, Rendered(h, Build(fragments, logic))).value) ==
      Value(if fs == [] || logic == "and" then AndAll(IntendedAll(h, d, fs)) else OrAll(IntendedAll(h, d, fs)))
  {
    BuildMeans(h, d, fs, logic, fragments);
    hide Val, Evaluate, Phrase, ReadSql, Rendered, InfinityFilter.Translate, Join, Numbers, IntendedAll, Words;
    var ns, ts := RequestNumbers(h, fs), Build(fragments, logic);
    BuildPhrase(ns, h, fs, logic, fragments);
    PhraseParts(ns, ts);
    RenderedReadsBackIff(h, read, ns, ts);
    NumbersFit(h, read, ns, ts);
  }

  lemma NumbersFit(h: Host, read: string -> PyVal, ns: set<PyVal>, ts: Sql)
    requires AllProper(ns, ts) && Numbers(h, read, ns)
    ensures Numbers(h, read, NumbersIn(ts))
  {
  }

  lemma PhraseParts(ns: set<PyVal>, ts: Sql)
    requires Phrase(ns, ts)
    ensures Spaced(ts) && AllProper(ns, ts)
  {
  }

  lemma BuildPhrase(ns: set<PyVal>, h: Host, fs: seq<Filter>, logic: string, fragments: seq<Sql>)
    requires |fragments| == |fs|
    requires forall i :: 0 <= i < |fs| ==> InfinityFilter.Translate(h, fs[i]) == Ok(fragments[i])
    requires RequestNumbers(h, fs) <= ns
    ensures Phrase(ns, Build(fragments, logic))
  {
    hide Phrase, InfinityFilter.Translate, Join;
    if fs == [] {
      AtomPhrase(ns, OneIsOne);
    } else {
      forall i | 0 <= i < |fs| ensures Phrase(ns, fragments[i]) {
        FilterPhrase(ns, h, fs[i]);
      }
      JoinPhrase(ns, if logic == "and" then AND else OR, fragments);
      ParenPhrase(ns, Join(if logic == "and" then AND else OR, fragments));
    }
  }

  /** The hypothesis is met: a runtime and a database for the request `age > 18`. */
  lemma RequestWithNumber() returns (h: Host, read: string -> PyVal, f: Filter)
    ensures h.Sane() && f == Filter("age", Range(GT), PStr("18")) && InfinityFilter.Translate(h, f).Ok?
    ensures RequestNumbers(h, [f]) == {PNum(18.0)}
    ensures Words(h, RequestNumbers(h, [f])) && Numbers(h, read, RequestNumbers(h, [f]))
  {
    h := Host((c: char) => c, (c: char) => c == ' ', (c: char) => '0' <= c <= '9',
              (s: string) => if s == "18" then Some(PNum(18.0)) else None, (v: PyVal) => "18",
              (v: PyVal, s: string) => None, (v: PyVal) => true, (c: Cmp, v: PyVal, w: PyVal) => None);
    read := (s: string) => PNum(18.0);
    f := Filter("age", Range(GT), PStr("18"));
    assert InfinityFilter.ValidKey("age");
    assert h.Trim("18") == "18";
    assert NumbersOf(h, f) == [PNum(18.0)];
    assert PNum(18.0) in NumbersOf(h, [f][0]);
    assert forall i, v :: 0 <= i < 1 && v in NumbersOf(h, [f][i]) ==> v == PNum(18.0);
  }

  // ----- the characters, one predicate at a time -----

  /** The call of a function on a key, written with one text on either side of the key. */
  lemma CallSpelled(name: string, k: string)
    ensures CallText(name, k) == name + "(meta_fields, '$." + k + "'"
  {
  }

  lemma Reassociate(a: string, b: string, c: string, d: string, e: string)
    ensures a + (b + (c + (d + e))) == a + (b + c) + d + e
    ensures a + (b + (c + d)) == a + (b + c) + d
  {
  }

  lemma ContainsSpelled(h: Host, k: string, a: Arg)
    ensures PredText(h, JsonContains(k, a)) ==
            "JSON_CONTAINS" + "(meta_fields, '$." + k + "'" + ", " + ArgText(h, a) + ")"
  {
    hide CallText, ArgText;
    CallSpelled(CONTAINS, k);
    Reassociate(CallText(CONTAINS, k), ",", " ", ArgText(h, a), ")");
  }

  /** The operators as they are written. */
  predicate Written(c: SqlCmp, w: string) {
    && (c == EQ <==> w == "=") && (c == NE <==> w == "!=")
    && (c == Order(LT) <==> w == "<") && (c == Order(LE) <==> w == "<=")
    && (c == Order(GT) <==> w == ">") && (c == Order(GE) <==> w == ">=")
  }

  lemma OperatorSpelled(c: SqlCmp, w: string)
    requires Written(c, w)
    ensures OpWord(c) == w
  {
    match c
    case EQ =>
    case NE =>
    case Order(_) =>
  }

  lemma ComparisonSpelled(h: Host, k: string, c: SqlCmp, w: string, raw: string, n: PyVal)
    requires Written(c, w)
    ensures PredText(h, ExtractText(k, c, raw)) ==
            "JSON_EXTRACT_STRING" + "(meta_fields, '$." + k + "'" + ") " + w + (" " + raw)
    ensures PredText(h, ExtractNumber(k, c, n)) ==
            "JSON_EXTRACT_DOUBLE" + "(meta_fields, '$." + k + "'" + ") " + w + (" " + h.show(n))
  {
    hide CallText, OpWord;
    OperatorSpelled(c, w);
    hide Written;
    CallSpelled(EXTRACT_TEXT, k);
    CallSpelled(EXTRACT_NUMBER, k);
    Reassociate(CallText(EXTRACT_TEXT, k), ")", " ", w, " " + raw);
    Reassociate(CallText(EXTRACT_NUMBER, k), ")", " ", w, " " + h.show(n));
  }

  lemma LikeSpelled(h: Host, k: string, raw: string)
    ensures PredText(h, Like(k, raw)) ==
            "JSON_EXTRACT_STRING" + "(meta_fields, '$." + k + "'" + ") " + "LIKE" + (" " + raw)
  {
    hide CallText;
    CallSpelled(EXTRACT_TEXT, k);
    Reassociate(CallText(EXTRACT_TEXT, k), ")", " ", LIKE_WORD, " " + raw);
  }

  lemma ConnectivesSpelled(h: Host)
    ensures PredText(h, OneIsOne) == "1=1"
    ensures TokenText(h, LP) == "(" && TokenText(h, RP) == ")" && TokenText(h, NOT) == "NOT "
    ensures TokenText(h, AND) == " AND " && TokenText(h, OR) == " OR "
  {
  }
}
