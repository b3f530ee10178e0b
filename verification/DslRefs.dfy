/** References `{component@variable}` embedded in text, and the renaming pass over them
    (`VARIABLE_REF_PATTERN` and `rewrite_variable_refs`). */
module DslRefs {
  import opened Text

  predicate Alnum(c: char) {
    'A' <= c <= 'Z' || 'a' <= c <= 'z' || '0' <= c <= '9'
  }

  /** `[A-Za-z0-9:_-]`. */
  predicate IdChar(c: char) {
    Alnum(c) || c == ':' || c == '_' || c == '-'
  }

  /** `[A-Za-z0-9_.-]`. */
  predicate VarChar(c: char) {
    Alnum(c) || c == '_' || c == '.' || c == '-'
  }

  /** `\s` on Unicode text. */
  predicate Blank(c: char) {
    var n := c as int;
    || 9 <= n <= 13 || 28 <= n <= 32 || n == 0x85 || n == 0xA0 || n == 0x1680
    || 0x2000 <= n <= 0x200A || n == 0x2028 || n == 0x2029 || n == 0x202F || n == 0x205F || n == 0x3000
  }

  predicate Open(c: char) { c == '{' }

  predicate Close(c: char) { c == '}' }

  predicate NotOpen(c: char) { c != '{' }

  /** Length of the longest prefix of `s` made of characters satisfying `p`: what a
      greedy `p*` takes. */
  function Span(p: char -> bool, s: string): (n: nat)
    ensures n <= |s|
  {
    if s == [] || !p(s[0]) then 0 else 1 + Span(p, s[1..])
  }

  lemma {:induction false} SpanIsMaximal(p: char -> bool, s: string)
    ensures forall i :: 0 <= i < Span(p, s) ==> p(s[i])
    ensures Span(p, s) < |s| ==> !p(s[Span(p, s)])
  {
    if s == [] || !p(s[0]) {
    } else {
      SpanIsMaximal(p, s[1..]);
    }
  }

  /** A maximal block is found again whatever follows it, as long as what follows does
      not continue it. */
  lemma {:induction false} SpanOfBlock(p: char -> bool, u: string, v: string)
    requires forall i :: 0 <= i < |u| ==> p(u[i])
    requires v == [] || !p(v[0])
    ensures Span(p, u + v) == |u|
  {
    if u == [] {
      assert u + v == v;
    } else {
      assert (u + v)[1..] == u[1..] + v;
      SpanOfBlock(p, u[1..], v);
    }
  }

  /** One reference: `{{ Splitter:a@out }}` is opening braces and blanks, the component,
      `@` with the variable, blanks and closing braces. */
  datatype Ref = Ref(open: string, id: string, variable: string, close: string)

  function Show(r: Ref): string {
    r.open + r.id + r.variable + r.close
  }

  // The pattern after the opening braces, one function per run.  Neighbouring character
  // classes of the pattern are disjoint, so taking every run greedily is the only way
  // to match.

  /** `\s*\}+`. */
  function Closing(t: string): Option<string> {
    var d := Span(Blank, t);
    var e := Span(Close, t[d..]);
    if e == 0 then None else Some(t[..d + e])
  }

  /** `@[A-Za-z0-9_.-]+` and what follows. */
  function Variable(t: string): Option<(string, string)> {
    if t == [] || t[0] != '@' then None
    else
      var c := Span(VarChar, t[1..]);
      if c == 0 then None
      else match Closing(t[1 + c..])
        case None => None
        case Some(close) => Some((t[..1 + c], close))
  }

  /** `[A-Za-z0-9:_-]+` and what follows. */
  function Named(t: string): Option<(string, string, string)> {
    var b := Span(IdChar, t);
    if b == 0 then None
    else match Variable(t[b..])
      case None => None
      case Some(x) => Some((t[..b], x.0, x.1))
  }

  /** `\s*` and what follows. */
  function Body(t: string): Option<(string, string, string, string)> {
    var a := Span(Blank, t);
    match Named(t[a..])
    case None => None
    case Some(x) => Some((t[..a], x.0, x.1, x.2))
  }

  /** The pattern tried at the start of `s`. */
  function MatchAt(s: string): Option<Ref> {
    var k := Span(Open, s);
    if k == 0 then None
    else match Body(s[k..])
      case None => None
      case Some(b) => Some(Ref(s[..k] + b.0, b.1, b.2, b.3))
  }

  ghost predicate IsClosing(x: string) {
    exists u, v :: ClosingRuns(x, u, v)
  }

  predicate ClosingRuns(x: string, u: string, v: string) {
    x == u + v && AllBlank(u) && v != [] && forall i :: 0 <= i < |v| ==> v[i] == '}'
  }

  predicate IsVariable(v: string) {
    |v| > 1 && v[0] == '@' && forall i :: 1 <= i < |v| ==> VarChar(v[i])
  }

  predicate Name(x: string) {
    x != [] && forall i :: 0 <= i < |x| ==> IdChar(x[i])
  }

  predicate AllBlank(w: string) {
    forall i :: 0 <= i < |w| ==> Blank(w[i])
  }

  /** What follows a match does not go on with a closing brace. */
  predicate Ends(rest: string) {
    rest == [] || rest[0] != '}'
  }

  function Flat(b: (string, string, string, string)): string {
    b.0 + (b.1 + (b.2 + b.3))
  }

  /** The runs of the body: blanks, a name, a variable, a closing. */
  ghost predicate IsBody(b: (string, string, string, string)) {
    AllBlank(b.0) && Name(b.1) && IsVariable(b.2) && IsClosing(b.3)
  }

  lemma Assoc(a: string, b: string, c: string)
    ensures a + (b + c) == (a + b) + c
  {
  }

  lemma Regroup(a: string, b: string, c: string, d: string, rest: string)
    ensures (a + (b + (c + d))) + rest == a + (b + (c + (d + rest)))
  {
    Assoc(a, b + (c + d), rest);
    Assoc(b, c + d, rest);
    Assoc(c, d, rest);
  }

  lemma Split(a: string, b: string)
    ensures (a + b)[..|a|] == a && (a + b)[|a|..] == b
  {
  }

  lemma ClosingShape(t: string) returns (rest: string)
    requires Closing(t).Some?
    ensures IsClosing(Closing(t).value) && Ends(rest) && t == Closing(t).value + rest
  {
    var u, v := CutSpan(Blank, t);
    var x, r := CutSpan(Close, v);
    rest := r;
    Assoc(u, x, rest);
    Split(u + x, rest);
    assert ClosingRuns(u + x, u, x);
  }

  lemma CutSpan(p: char -> bool, t: string) returns (u: string, v: string)
    ensures t == u + v && |u| == Span(p, t) && u == t[..|u|] && v == t[|u|..]
    ensures forall i :: 0 <= i < |u| ==> p(u[i])
    ensures v == [] || !p(v[0])
  {
    SpanIsMaximal(p, t);
    u, v := t[..Span(p, t)], t[Span(p, t)..];
  }

  lemma ClosingMatches(x: string, rest: string)
    requires IsClosing(x) && Ends(rest)
    ensures Closing(x + rest) == Some(x)
  {
    var u, v :| ClosingRuns(x, u, v);
    Assoc(u, v, rest);
    assert v[0] == '}';
    SpanOfBlock(Blank, u, v + rest);
    Split(u, v + rest);
    SpanOfBlock(Close, v, rest);
    Split(x, rest);
  }

  lemma VariableShape(t: string) returns (rest: string)
    requires Variable(t).Some?
    ensures var x := Variable(t).value;
      IsVariable(x.0) && IsClosing(x.1) && Ends(rest) && t == x.0 + (x.1 + rest)
  {
    hide Closing, IsClosing;
    var u, v := CutSpan(VarChar, t[1..]);
    assert t == ([t[0]] + u) + v;
    Split([t[0]] + u, v);
    rest := ClosingShape(v);
  }

  lemma VariableMatches(v: string, x: string, rest: string)
    requires IsVariable(v) && IsClosing(x) && Ends(rest)
    ensures Variable(v + (x + rest)) == Some((v, x))
  {
    ClosingMatches(x, rest);
    ClosingStarts(x);
    hide Closing, IsClosing;
    var t := v + (x + rest);
    assert t[1..] == v[1..] + (x + rest);
    SpanOfBlock(VarChar, v[1..], x + rest);
    assert t[|v|..] == x + rest && t[..|v|] == v;
  }

  /** A closing starts with a blank or a closing brace, and has no opening brace. */
  lemma ClosingStarts(x: string)
    requires IsClosing(x)
    ensures x != [] && (Blank(x[0]) || x[0] == '}') && !VarChar(x[0])
    ensures forall i :: 0 <= i < |x| ==> x[i] != '{'
  {
    var u, v :| ClosingRuns(x, u, v);
    if u == [] {
      assert x[0] == v[0];
    } else {
      assert Blank(u[0]);
    }
  }

  lemma NamedShape(t: string) returns (rest: string)
    requires Named(t).Some?
    ensures var x := Named(t).value;
      Name(x.0) && IsVariable(x.1) && IsClosing(x.2) && Ends(rest) && t == x.0 + (x.1 + (x.2 + rest))
  {
    hide Variable, IsVariable, IsClosing;
    var u, v := CutSpan(IdChar, t);
    rest := VariableShape(v);
  }

  lemma NamedMatches(id: string, v: string, x: string, rest: string)
    requires Name(id) && IsVariable(v) && IsClosing(x) && Ends(rest)
    ensures Named(id + (v + (x + rest))) == Some((id, v, x))
  {
    VariableMatches(v, x, rest);
    var t2 := v + (x + rest);
    assert t2[0] == '@';
    hide Variable, IsVariable, IsClosing;
    SpanOfBlock(IdChar, id, t2);
    assert (id + t2)[|id|..] == t2 && (id + t2)[..|id|] == id;
  }

  lemma BodyShape(t: string) returns (rest: string)
    requires Body(t).Some?
    ensures IsBody(Body(t).value) && Ends(rest) && t == Flat(Body(t).value) + rest
  {
    hide Named, IsVariable, IsClosing, Name;
    var u, v := CutSpan(Blank, t);
    rest := NamedShape(v);
    var x := Named(v).value;
    Regroup(u, x.0, x.1, x.2, rest);
  }

  lemma BodyMatches(b: (string, string, string, string), rest: string)
    requires IsBody(b) && Ends(rest)
    ensures Body(Flat(b) + rest) == Some(b)
  {
    NamedMatches(b.1, b.2, b.3, rest);
    var t1 := b.1 + (b.2 + (b.3 + rest));
    assert t1[0] == b.1[0];
    hide Named, IsVariable, IsClosing, Name;
    SpanOfBlock(Blank, b.0, t1);
    Regroup(b.0, b.1, b.2, b.3, rest);
    Split(b.0, t1);
  }

  /** A body is not empty, and has no opening brace. */
  lemma BodyHasNoBrace(b: (string, string, string, string))
    requires IsBody(b)
    ensures Flat(b) != [] && forall i :: 0 <= i < |Flat(b)| ==> Flat(b)[i] != '{'
  {
    ClosingStarts(b.3);
    hide IsClosing;
  }

  predicate AllOpen(o: string) {
    o != [] && forall i :: 0 <= i < |o| ==> o[i] == '{'
  }

  function RefOf(o: string, b: (string, string, string, string)): Ref {
    Ref(o + b.0, b.1, b.2, b.3)
  }

  /** A match is a prefix of the text: braces, then a body, ended. */
  lemma MatchShape(s: string) returns (o: string, b: (string, string, string, string), rest: string)
    requires MatchAt(s).Some?
    ensures AllOpen(o) && IsBody(b) && Ends(rest)
    ensures MatchAt(s) == Some(RefOf(o, b)) && s == o + (Flat(b) + rest) && Show(RefOf(o, b)) == o + Flat(b)
  {
    hide Body, IsBody;
    var k := Span(Open, s);
    SpanIsMaximal(Open, s);
    o, b := s[..k], Body(s[k..]).value;
    rest := BodyShape(s[k..]);
    assert s == s[..k] + s[k..];
  }

  lemma ShowFlat(o: string, b: (string, string, string, string))
    ensures Show(RefOf(o, b)) == o + Flat(b)
  {
  }

  /** Conversely, braces and a body that is ended match. */
  lemma ShapeMatches(o: string, b: (string, string, string, string), rest: string)
    requires AllOpen(o) && IsBody(b) && Ends(rest)
    ensures MatchAt(o + (Flat(b) + rest)) == Some(RefOf(o, b))
  {
    BodyMatches(b, rest);
    BodyHasNoBrace(b);
    hide Body, IsBody, Flat;
    var t := Flat(b) + rest;
    assert t[0] == Flat(b)[0];
    SpanOfBlock(Open, o, t);
    assert (o + t)[|o|..] == t && (o + t)[..|o|] == o;
  }

  // ----- scanning a whole text -----

  datatype Piece = Plain(c: char) | Found(r: Ref)

  /** Leftmost, non-overlapping matches, as `re.sub` visits them. */
  function Scan(s: string): seq<Piece>
    decreases |s|
  {
    if s == [] then []
    else match MatchAt(s)
      case None => [Plain(s[0])] + Scan(s[1..])
      case Some(r) => [Found(r)] + Scan(Rest(s, r))
  }

  function Rest(s: string, r: Ref): string {
    if |Show(r)| <= |s| then s[|Show(r)|..] else []
  }

  function Render(ps: seq<Piece>): string {
    if ps == [] then []
    else (match ps[0] case Plain(c) => [c] case Found(r) => Show(r)) + Render(ps[1..])
  }

  /** `component_id_map.get(x, x)`. */
  function Lookup(m: map<string, string>, x: string): string {
    if x in m then m[x] else x
  }

  function Renamed(m: map<string, string>, r: Ref): Ref {
    r.(id := Lookup(m, r.id))
  }

  function RenamePieces(m: map<string, string>, ps: seq<Piece>): (r: seq<Piece>)
    ensures |r| == |ps|
    ensures forall i :: 0 <= i < |ps| ==> r[i] == RenamePiece(m, ps[i])
  {
    seq(|ps|, i requires 0 <= i < |ps| => RenamePiece(m, ps[i]))
  }

  function RenamePiece(m: map<string, string>, p: Piece): Piece {
    match p
    case Plain(_) => p
    case Found(r) => Found(Renamed(m, r))
  }

  /** `VARIABLE_REF_PATTERN.sub(repl, text)`. */
  function Sub(m: map<string, string>, s: string): string {
    Render(RenamePieces(m, Scan(s)))
  }

  lemma ShowsPrefix(s: string, r: Ref)
    requires MatchAt(s) == Some(r)
    ensures |Show(r)| > 0 && s == Show(r) + Rest(s, r) && Show(r)[0] == '{' && Ends(Rest(s, r))
  {
    var o, b, rest := MatchShape(s);
    hide MatchAt, Flat, IsBody, Show;
    Assoc(o, Flat(b), rest);
    Split(Show(r), rest);
    assert Show(r)[0] == o[0];
  }

  /** Scanning only cuts the text up. */
  lemma {:induction false} ScanLosesNothing(s: string)
    ensures Render(Scan(s)) == s
    decreases |s|
  {
    hide MatchAt, Show;
    if s == [] {
    } else {
      match MatchAt(s)
      case None =>
        ScanLosesNothing(s[1..]);
      case Some(r) =>
        ShowsPrefix(s, r);
        ScanLosesNothing(Rest(s, r));
    }
  }

  /** A renaming that leaves every name it knows alone leaves every text alone. */
  lemma SubByIdentity(m: map<string, string>, s: string)
    requires forall x :: x in m ==> m[x] == x
    ensures Sub(m, s) == s
  {
    ScanLosesNothing(s);
    var ps := Scan(s);
    assert forall i :: 0 <= i < |ps| ==> RenamePiece(m, ps[i]) == ps[i];
    assert RenamePieces(m, ps) == ps;
  }

  // ----- texts that differ in the names they refer to -----

  /** The same piece, up to the name a reference holds. */
  predicate AlikePiece(p: Piece, q: Piece) {
    match p
    case Plain(_) => q == p
    case Found(r) => q.Found? && q.r == r.(id := q.r.id)
  }

  ghost predicate Alike(ps: seq<Piece>, qs: seq<Piece>) {
    |ps| == |qs| && forall i :: 0 <= i < |ps| ==> AlikePiece(ps[i], qs[i])
  }

  /** Every reference names something a reference can name. */
  ghost predicate AllNamed(ps: seq<Piece>) {
    forall i :: 0 <= i < |ps| && ps[i].Found? ==> Name(ps[i].r.id)
  }

  lemma RenamedIsAlike(m: map<string, string>, ps: seq<Piece>)
    ensures Alike(ps, RenamePieces(m, ps))
  {
  }

  lemma AlikeTail(ps: seq<Piece>, qs: seq<Piece>)
    requires Alike(ps, qs) && ps != []
    ensures AlikePiece(ps[0], qs[0]) && Alike(ps[1..], qs[1..])
    ensures AllNamed(qs) ==> AllNamed(qs[1..])
  {
    hide AlikePiece;
    assert AlikePiece(ps[0], qs[0]);
    forall i | 0 <= i < |ps| - 1 ensures AlikePiece(ps[1..][i], qs[1..][i]) {
      assert AlikePiece(ps[i + 1], qs[i + 1]);
    }
  }

  /** How a text alike proceeds along the text. */
  lemma AlikePlain(s: string, qs: seq<Piece>)
    requires s != [] && MatchAt(s).None? && Alike(Scan(s), qs)
    ensures qs != [] && qs[0] == Plain(s[0]) && Alike(Scan(s[1..]), qs[1..]) && (AllNamed(qs) ==> AllNamed(qs[1..]))
    ensures Render(qs) == [s[0]] + Render(qs[1..])
  {
    hide MatchAt, Alike, AllNamed;
    assert Alike(Scan(s), qs) && |Scan(s)| == |qs| by { AlikeSize(Scan(s), qs); }
    AlikeTail(Scan(s), qs);
  }

  lemma AlikeSize(ps: seq<Piece>, qs: seq<Piece>)
    requires Alike(ps, qs)
    ensures |ps| == |qs|
  {
  }

  lemma AlikeFound(s: string, r: Ref, qs: seq<Piece>)
    requires MatchAt(s) == Some(r) && Alike(Scan(s), qs)
    ensures |Show(r)| > 0 && s == Show(r) + Rest(s, r)
    ensures qs != [] && qs[0].Found? && qs[0].r == r.(id := qs[0].r.id)
    ensures Alike(Scan(Rest(s, r)), qs[1..]) && (AllNamed(qs) ==> Name(qs[0].r.id) && AllNamed(qs[1..]))
    ensures Render(qs) == Show(qs[0].r) + Render(qs[1..])
  {
    ShowsPrefix(s, r);
    hide MatchAt, Show, Alike;
    AlikeSize(Scan(s), qs);
    AlikeTail(Scan(s), qs);
  }

  lemma AlikeEmpty(qs: seq<Piece>)
    requires Alike(Scan([]), qs)
    ensures qs == [] && Render(qs) == []
  {
  }

  /** The first character of the text is never changed. */
  lemma AlikeKeepsFirst(s: string, qs: seq<Piece>)
    requires Alike(Scan(s), qs)
    ensures s == [] <==> Render(qs) == []
    ensures s != [] ==> Render(qs)[0] == s[0]
  {
    hide MatchAt, Scan, Render, Alike, IsBody, Flat;
    if s == [] {
      AlikeEmpty(qs);
    } else {
      match MatchAt(s)
      case None => AlikePlain(s, qs);
      case Some(r) =>
        var o, b, rest := MatchShape(s);
        AlikeFound(s, r, qs);
        assert r.open[0] == '{';
    }
  }

  /** Text without an opening brace is copied. */
  lemma {:induction false} AlikeCopies(u: string, v: string, qs: seq<Piece>)
    requires forall i :: 0 <= i < |u| ==> u[i] != '{'
    requires Alike(Scan(u + v), qs)
    ensures |u| <= |qs| && Alike(Scan(v), qs[|u|..])
    ensures Render(qs) == u + Render(qs[|u|..])
  {
    hide Body, Scan, Render, Alike;
    if u == [] {
      assert u + v == v && qs[0..] == qs;
    } else {
      assert Span(Open, u + v) == 0;
      AlikePlain(u + v, qs);
      hide MatchAt, Span;
      assert (u + v)[1..] == u[1..] + v;
      AlikeCopies(u[1..], v, qs[1..]);
      assert qs[1..][|u| - 1..] == qs[|u|..];
    }
  }

  /** How `Sub` proceeds along the text. */
  lemma SubPlain(m: map<string, string>, s: string)
    requires s != [] && MatchAt(s).None?
    ensures Sub(m, s) == [s[0]] + Sub(m, s[1..])
  {
    hide MatchAt;
    RenameHead(m, Scan(s));
  }

  lemma SubFound(m: map<string, string>, s: string, r: Ref)
    requires MatchAt(s) == Some(r)
    ensures |Show(r)| > 0 && s == Show(r) + Rest(s, r)
    ensures Sub(m, s) == Show(Renamed(m, r)) + Sub(m, Rest(s, r))
  {
    ShowsPrefix(s, r);
    hide MatchAt, Show;
    var ps := Scan(s);
    RenameHead(m, ps);
    assert Sub(m, s) == Render(RenamePieces(m, ps));
  }

  lemma RenameHead(m: map<string, string>, ps: seq<Piece>)
    requires ps != []
    ensures RenamePieces(m, ps)[0] == RenamePiece(m, ps[0]) && RenamePieces(m, ps)[1..] == RenamePieces(m, ps[1..])
  {
  }

  lemma SubOfEmpty(m: map<string, string>)
    ensures Sub(m, []) == []
  {
  }

  lemma SubKeepsFirst(m: map<string, string>, s: string)
    ensures s == [] <==> Sub(m, s) == []
    ensures s != [] ==> Sub(m, s)[0] == s[0]
  {
    RenamedIsAlike(m, Scan(s));
    AlikeKeepsFirst(s, RenamePieces(m, Scan(s)));
  }

  lemma {:induction false} SubCopies(m: map<string, string>, u: string, v: string)
    requires forall i :: 0 <= i < |u| ==> u[i] != '{'
    ensures Sub(m, u + v) == u + Sub(m, v)
  {
    hide Body, Sub;
    if u == [] {
      assert u + v == v;
    } else {
      assert Span(Open, u + v) == 0;
      SubPlain(m, u + v);
      hide MatchAt, Sub, Span;
      assert (u + v)[1..] == u[1..] + v;
      SubCopies(m, u[1..], v);
    }
  }

  // ----- they scan alike -----

  /** Whether the pattern's body matches is decided before the next opening brace. */
  lemma BodyIsLocal(u: string, v: string, v': string)
    requires forall i :: 0 <= i < |u| ==> u[i] != '{'
    requires v == [] || v[0] == '{'
    requires v' == [] || v'[0] == '{'
    requires Body(u + v).Some?
    ensures Body(u + v').Some?
  {
    var rest := BodyShape(u + v);
    var b := Body(u + v).value;
    BodyHasNoBrace(b);
    var f := Flat(b);
    hide Body, IsBody, Flat;
    hide Ends;
    WithinBlock(f, rest, u, v);
    var rest' := u[|f|..] + v';
    assert Ends(rest') by {
      EndsStill(u, v, f, rest, v');
    }
    BodyMatches(b, rest');
    Assoc(f, u[|f|..], v');
  }

  lemma EndsStill(u: string, v: string, f: string, rest: string, v': string)
    requires f <= u && u + v == f + rest && Ends(rest)
    requires v' == [] || v'[0] == '{'
    ensures Ends(u[|f|..] + v')
  {
    if |f| < |u| {
      assert rest[0] == (u + v)[|f|] == u[|f|];
    }
  }

  lemma WithinBlock(f: string, rest: string, u: string, v: string)
    requires u + v == f + rest
    requires forall i :: 0 <= i < |f| ==> f[i] != '{'
    requires v == [] || v[0] == '{'
    ensures f <= u && u == f + u[|f|..]
  {
    assert forall i :: 0 <= i < |f| ==> (u + v)[i] == f[i];
    assert v != [] ==> (u + v)[|u|] == v[0];
    assert f == (u + v)[..|f|];
  }

  function Tail(s: string): string {
    s[Span(Open, s)..]
  }

  /** No match can start in the leading braces of a text alike if none did before. */
  lemma {:induction false} NoNewMatch(t: string, qs: seq<Piece>)
    requires Alike(Scan(t), qs) && Body(Tail(t)).None?
    ensures Body(Tail(Render(qs))).None?
  {
    hide Body, Alike;
    if t == [] {
      AlikeEmpty(qs);
    } else if t[0] == '{' {
      assert MatchAt(t).None?;
      AlikePlain(t, qs);
      hide MatchAt, Scan, Render;
      assert Tail(t) == Tail(t[1..]);
      NoNewMatch(t[1..], qs[1..]);
      assert Render(qs)[1..] == Render(qs[1..]);
      assert Tail(Render(qs)) == Tail(Render(qs[1..]));
    } else {
      hide MatchAt, Scan, Render;
      var u, v := CutSpan(NotOpen, t);
      assert Tail(t) == t;
      AlikeCopies(u, v, qs);
      var v' := Render(qs[|u|..]);
      AlikeKeepsFirst(v, qs[|u|..]);
      assert Tail(u + v') == u + v' by {
        assert (u + v')[0] == t[0];
        assert Span(Open, u + v') == 0;
      }
      if Body(u + v').Some? {
        BodyIsLocal(u, v', v);
        assert false;
      }
    }
  }

  /** Writing other names into the references of a text and scanning it again finds
      exactly those references, in the same places. */
  lemma {:induction false} ScanIsStable(s: string, qs: seq<Piece>)
    requires Alike(Scan(s), qs) && AllNamed(qs)
    ensures Scan(Render(qs)) == qs
    decreases |s|
  {
    hide Body, Span, Show, MatchAt, Render, Alike, AllNamed;
    if s == [] {
      AlikeEmpty(qs);
    } else {
      match MatchAt(s)
      case None =>
        AlikePlain(s, qs);
        ScanIsStable(s[1..], qs[1..]);
        PlainStaysPlain(s, qs);
        var t := Render(qs);
        assert t[1..] == Render(qs[1..]);
        assert Scan(t) == [Plain(s[0])] + Scan(t[1..]);
        assert qs == [qs[0]] + qs[1..];
      case Some(r) =>
        AlikeFound(s, r, qs);
        ScanIsStable(Rest(s, r), qs[1..]);
        FoundStaysFound(s, r, qs);
        Split(Show(qs[0].r), Render(qs[1..]));
        assert Scan(Render(qs)) == [Found(qs[0].r)] + Scan(Render(qs[1..]));
        assert qs == [qs[0]] + qs[1..];
    }
  }

  lemma PlainStaysPlain(s: string, qs: seq<Piece>)
    requires s != [] && MatchAt(s).None? && Alike(Scan(s), qs)
    ensures MatchAt(Render(qs)).None?
  {
    hide Body, Alike;
    AlikePlain(s, qs);
    if s[0] == '{' {
      NoNewMatch(s, qs);
    }
  }

  lemma FoundStaysFound(s: string, r: Ref, qs: seq<Piece>)
    requires MatchAt(s) == Some(r) && Alike(Scan(s), qs) && AllNamed(qs)
    ensures qs != [] && qs[0].Found? && MatchAt(Render(qs)) == Some(qs[0].r)
    ensures |Show(qs[0].r)| > 0
  {
    var o, b, rest := MatchShape(s);
    ShowsPrefix(s, r);
    AlikeFound(s, r, qs);
    AlikeKeepsFirst(Rest(s, r), qs[1..]);
    var b' := (b.0, qs[0].r.id, b.2, b.3);
    var tail := Render(qs[1..]);
    hide MatchAt, Render, Scan, Alike, AllNamed, IsClosing, IsVariable, Name, Flat, Show;
    assert IsBody(b') by { assert IsBody(b); }
    ShapeMatches(o, b', tail);
    assert qs[0].r == RefOf(o, b');
    ShowFlat(o, b');
    Assoc(o, Flat(b'), tail);
  }

  /** Every reference found holds a name. */
  lemma {:induction false} ScanNames(s: string)
    ensures AllNamed(Scan(s))
    decreases |s|
  {
    hide MatchAt, Show, Name, IsClosing, IsVariable, Flat;
    if s == [] {
    } else {
      match MatchAt(s)
      case None => ScanNames(s[1..]);
      case Some(r) =>
        ShowsPrefix(s, r);
        ScanNames(Rest(s, r));
        var o, b, rest := MatchShape(s);
    }
  }

  /** The renaming sends names written in the pattern's alphabet to such names. */
  ghost predicate KeepsAlphabet(m: map<string, string>) {
    forall x :: x in m && Name(x) ==> Name(m[x])
  }

  /** Scanning the renamed text finds the old references renamed, in the same places
      and with the same variables, and nothing else. */
  lemma SubIsStable(m: map<string, string>, s: string)
    requires KeepsAlphabet(m)
    ensures Scan(Sub(m, s)) == RenamePieces(m, Scan(s))
  {
    var qs := RenamePieces(m, Scan(s));
    RenamedIsAlike(m, Scan(s));
    ScanNames(s);
    hide Scan, Name;
    assert AllNamed(qs);
    ScanIsStable(s, qs);
  }

  /** The references of a text, in order. */
  function Refs(s: string): seq<Ref> {
    RefsOf(Scan(s))
  }

  function RefsOf(ps: seq<Piece>): seq<Ref> {
    if ps == [] then []
    else (match ps[0] case Plain(_) => [] case Found(r) => [r]) + RefsOf(ps[1..])
  }

  lemma {:induction false} RefsOfRenamed(m: map<string, string>, ps: seq<Piece>)
    ensures |RefsOf(RenamePieces(m, ps))| == |RefsOf(ps)|
    ensures forall i :: 0 <= i < |RefsOf(ps)| ==> RefsOf(RenamePieces(m, ps))[i] == Renamed(m, RefsOf(ps)[i])
  {
    if ps == [] {
    } else {
      RefsOfRenamed(m, ps[1..]);
      assert RenamePieces(m, ps)[1..] == RenamePieces(m, ps[1..]);
    }
  }
}
