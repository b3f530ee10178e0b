/** The boolean skeleton of a SQL predicate: tokens, three-valued logic, and a
    recursive-descent reader with the usual precedence (IS NOT TRUE binds tightest,
    then NOT, then AND, then OR).  Both SQL back ends are read with it. */
module SqlSyntax {

  // ----- three-valued logic -----

  datatype Tri = True | False | Null

  function And3(a: Tri, b: Tri): Tri {
    if a.False? || b.False? then False else if a.True? && b.True? then True else Null
  }

  function Or3(a: Tri, b: Tri): Tri {
    if a.True? || b.True? then True else if a.False? && b.False? then False else Null
  }

  function Not3(a: Tri): Tri {
    match a case True => False case False => True case Null => Null
  }

  function NotTrue(a: Tri): Tri {
    if a.True? then False else True
  }

  function Of(b: bool): Tri {
    if b then True else False
  }

  function AndAll(vs: seq<Tri>): Tri {
    if vs == [] then True else And3(vs[0], AndAll(vs[1..]))
  }

  function OrAll(vs: seq<Tri>): Tri {
    if vs == [] then False else Or3(vs[0], OrAll(vs[1..]))
  }

  lemma {:induction false} AndAllTrue(vs: seq<Tri>)
    ensures AndAll(vs) == True <==> forall i :: 0 <= i < |vs| ==> vs[i] == True
    ensures AndAll(vs) == False <==> exists i :: 0 <= i < |vs| && vs[i] == False
  {
    if vs == [] {
    } else {
      AndAllTrue(vs[1..]);
      assert forall i :: 0 < i < |vs| ==> vs[i] == vs[1..][i - 1];
      if AndAll(vs[1..]) == False {
        var i :| 0 <= i < |vs[1..]| && vs[1..][i] == False;
        assert vs[i + 1] == False;
      }
    }
  }

  lemma {:induction false} OrAllTrue(vs: seq<Tri>)
    ensures OrAll(vs) == True <==> exists i :: 0 <= i < |vs| && vs[i] == True
    ensures OrAll(vs) == False <==> forall i :: 0 <= i < |vs| ==> vs[i] == False
  {
    if vs == [] {
    } else {
      OrAllTrue(vs[1..]);
      assert forall i :: 0 < i < |vs| ==> vs[i] == vs[1..][i - 1];
      if OrAll(vs[1..]) == True {
        var i :| 0 <= i < |vs[1..]| && vs[1..][i] == True;
        assert vs[i + 1] == True;
      }
    }
  }

  // ----- tokens and the reader -----

  datatype Token<A> = LP | RP | AND | OR | NOT | ISNOTTRUE | Atom(a: A)

  datatype Read<A> = Fail | Got(v: Tri, rest: seq<Token<A>>)

  /** Does the token list start with t? */
  ghost predicate At<A>(ts: seq<Token<A>>, t: Token<A>) {
    ts != [] && ts[0] == t
  }

  ghost function ReadOr<A>(val: A -> Tri, ts: seq<Token<A>>): (r: Read<A>)
    ensures r.Got? ==> |r.rest| < |ts|
    decreases |ts|, 3
  {
    var l := ReadAnd(val, ts);
    if l.Got? && At(l.rest, OR) then
      var r := ReadOr(val, l.rest[1..]);
      if r.Fail? then Fail else Got(Or3(l.v, r.v), r.rest)
    else l
  }

  ghost function ReadAnd<A>(val: A -> Tri, ts: seq<Token<A>>): (r: Read<A>)
    ensures r.Got? ==> |r.rest| < |ts|
    decreases |ts|, 2
  {
    var l := ReadUnary(val, ts);
    if l.Got? && At(l.rest, AND) then
      var r := ReadAnd(val, l.rest[1..]);
      if r.Fail? then Fail else Got(And3(l.v, r.v), r.rest)
    else l
  }

  ghost function ReadUnary<A>(val: A -> Tri, ts: seq<Token<A>>): (r: Read<A>)
    ensures r.Got? ==> |r.rest| < |ts|
    decreases |ts|, 1
  {
    if At(ts, NOT) then
      var r := ReadUnary(val, ts[1..]);
      if r.Fail? then Fail else Got(Not3(r.v), r.rest)
    else
      var r := ReadPrimary(val, ts);
      if r.Got? && At(r.rest, ISNOTTRUE) then Got(NotTrue(r.v), r.rest[1..]) else r
  }

  ghost function ReadPrimary<A>(val: A -> Tri, ts: seq<Token<A>>): (r: Read<A>)
    ensures r.Got? ==> |r.rest| < |ts|
    decreases |ts|, 0
  {
    if ts == [] then Fail
    else if ts[0].Atom? then Got(val(ts[0].a), ts[1..])
    else if ts[0].LP? then
      var r := ReadOr(val, ts[1..]);
      if r.Got? && At(r.rest, RP) then Got(r.v, r.rest[1..]) else Fail
    else Fail
  }

  /** The value of a complete predicate; None when the text is not one. */
  datatype Meaning = Malformed | Value(v: Tri)

  ghost function Evaluate<A>(val: A -> Tri, ts: seq<Token<A>>): Meaning {
    var r := ReadOr(val, ts);
    if r.Got? && r.rest == [] then Value(r.v) else Malformed
  }

  // ----- what a fragment means wherever it is spliced in -----

  ghost predicate IsPrimary<A(!new)>(val: A -> Tri, ts: seq<Token<A>>, v: Tri) {
    && !At(ts, NOT)
    && forall rest: seq<Token<A>> {:trigger ts + rest} :: ReadPrimary(val, ts + rest) == Got(v, rest)
  }

  ghost predicate IsUnary<A(!new)>(val: A -> Tri, ts: seq<Token<A>>, v: Tri) {
    forall rest: seq<Token<A>> {:trigger ts + rest} ::
      !At(rest, ISNOTTRUE) ==> ReadUnary(val, ts + rest) == Got(v, rest)
  }

  /** Continue a conjunction whose first part has value v. */
  ghost function ThenAnd<A>(val: A -> Tri, v: Tri, rest: seq<Token<A>>): Read<A> {
    if At(rest, AND) then
      var r := ReadAnd(val, rest[1..]);
      if r.Fail? then Fail else Got(And3(v, r.v), r.rest)
    else Got(v, rest)
  }

  ghost function ThenOr<A>(val: A -> Tri, v: Tri, rest: seq<Token<A>>): Read<A> {
    if At(rest, OR) then
      var r := ReadOr(val, rest[1..]);
      if r.Fail? then Fail else Got(Or3(v, r.v), r.rest)
    else Got(v, rest)
  }

  ghost predicate IsAnd<A(!new)>(val: A -> Tri, ts: seq<Token<A>>, v: Tri) {
    forall rest: seq<Token<A>> {:trigger ts + rest} ::
      !At(rest, ISNOTTRUE) ==> ReadAnd(val, ts + rest) == ThenAnd(val, v, rest)
  }

  ghost predicate IsOr<A(!new)>(val: A -> Tri, ts: seq<Token<A>>, v: Tri) {
    forall rest: seq<Token<A>> {:trigger ts + rest} ::
      !At(rest, ISNOTTRUE) && !At(rest, AND) ==> ReadOr(val, ts + rest) == ThenOr(val, v, rest)
  }

  lemma AtomIsPrimary<A(!new)>(val: A -> Tri, a: A)
    ensures IsPrimary(val, [Atom(a)], val(a))
  {
    forall rest: seq<Token<A>>
      ensures ReadPrimary(val, [Atom(a)] + rest) == Got(val(a), rest)
    {
      assert ([Atom(a)] + rest)[1..] == rest;
    }
  }

  lemma ParenIsPrimary<A(!new)>(val: A -> Tri, ts: seq<Token<A>>, v: Tri)
    requires IsOr(val, ts, v)
    ensures IsPrimary(val, [LP] + ts + [RP], v)
  {
    var p := [LP] + ts + [RP];
    forall rest: seq<Token<A>>
      ensures ReadPrimary(val, p + rest) == Got(v, rest)
    {
      var tail := [RP] + rest;
      assert (p + rest)[1..] == ts + tail;
      assert ReadOr(val, ts + tail) == ThenOr(val, v, tail);
      assert tail[1..] == rest;
    }
  }

  lemma PrimaryIsUnary<A(!new)>(val: A -> Tri, ts: seq<Token<A>>, v: Tri)
    requires IsPrimary(val, ts, v)
    ensures IsUnary(val, ts, v)
    ensures IsUnary(val, ts + [ISNOTTRUE], NotTrue(v))
  {
    PrimaryNonEmpty(val, ts, v);
    forall rest: seq<Token<A>> | !At(rest, ISNOTTRUE)
      ensures ReadUnary(val, ts + rest) == Got(v, rest)
    {
      assert (ts + rest)[0] == ts[0];
    }
    forall rest: seq<Token<A>>
      ensures ReadUnary(val, ts + [ISNOTTRUE] + rest) == Got(NotTrue(v), rest)
    {
      var tail := [ISNOTTRUE] + rest;
      assert ts + [ISNOTTRUE] + rest == ts + tail;
      assert (ts + tail)[0] == ts[0];
      assert tail[1..] == rest;
    }
  }

  lemma PrimaryNonEmpty<A(!new)>(val: A -> Tri, ts: seq<Token<A>>, v: Tri)
    requires IsPrimary(val, ts, v)
    ensures ts != []
  {
    var none: seq<Token<A>> := [];
    assert ReadPrimary(val, ts + none) == Got(v, none);
    assert ts + none == ts;
  }

  lemma NotIsUnary<A(!new)>(val: A -> Tri, ts: seq<Token<A>>, v: Tri)
    requires IsUnary(val, ts, v)
    ensures IsUnary(val, [NOT] + ts, Not3(v))
  {
    forall rest: seq<Token<A>> | !At(rest, ISNOTTRUE)
      ensures ReadUnary(val, [NOT] + ts + rest) == Got(Not3(v), rest)
    {
      assert ([NOT] + ts + rest)[1..] == ts + rest;
    }
  }

  lemma UnaryIsAnd<A(!new)>(val: A -> Tri, ts: seq<Token<A>>, v: Tri)
    requires IsUnary(val, ts, v)
    ensures IsAnd(val, ts, v)
  {
  }

  lemma AndIsOr<A(!new)>(val: A -> Tri, ts: seq<Token<A>>, v: Tri)
    requires IsAnd(val, ts, v)
    ensures IsOr(val, ts, v)
  {
  }

  lemma AndAnd<A(!new)>(val: A -> Tri, x: seq<Token<A>>, v: Tri, y: seq<Token<A>>, w: Tri)
    requires IsAnd(val, x, v) && IsAnd(val, y, w)
    ensures IsAnd(val, x + [AND] + y, And3(v, w))
  {
    hide ReadAnd;
    forall rest: seq<Token<A>> | !At(rest, ISNOTTRUE)
      ensures ReadAnd(val, x + [AND] + y + rest) == ThenAnd(val, And3(v, w), rest)
    {
      var tail := [AND] + (y + rest);
      assert x + [AND] + y + rest == x + tail;
      assert ReadAnd(val, x + tail) == ThenAnd(val, v, tail);
      assert tail[1..] == y + rest;
      assert ReadAnd(val, y + rest) == ThenAnd(val, w, rest);
    }
  }

  lemma OrOr<A(!new)>(val: A -> Tri, x: seq<Token<A>>, v: Tri, y: seq<Token<A>>, w: Tri)
    requires IsOr(val, x, v) && IsOr(val, y, w)
    ensures IsOr(val, x + [OR] + y, Or3(v, w))
  {
    hide ReadOr;
    forall rest: seq<Token<A>> | !At(rest, ISNOTTRUE) && !At(rest, AND)
      ensures ReadOr(val, x + [OR] + y + rest) == ThenOr(val, Or3(v, w), rest)
    {
      var tail := [OR] + (y + rest);
      assert x + [OR] + y + rest == x + tail;
      assert ReadOr(val, x + tail) == ThenOr(val, v, tail);
      assert tail[1..] == y + rest;
      assert ReadOr(val, y + rest) == ThenOr(val, w, rest);
    }
  }

  lemma OrEvaluates<A(!new)>(val: A -> Tri, ts: seq<Token<A>>, v: Tri)
    requires IsOr(val, ts, v)
    ensures Evaluate(val, ts) == Value(v)
  {
    var none: seq<Token<A>> := [];
    assert ts + none == ts;
    assert ReadOr(val, ts + none) == ThenOr(val, v, none);
  }

  /** An atom can be spliced in anywhere. */
  lemma LeafMeans<A(!new)>(val: A -> Tri, a: A)
    ensures IsAnd(val, [Atom(a)], val(a)) && IsOr(val, [Atom(a)], val(a))
    ensures IsAnd(val, [NOT, Atom(a)], Not3(val(a)))
  {
    hide IsAnd, IsOr, IsUnary, IsPrimary;
    AtomIsPrimary(val, a);
    PrimaryIsUnary(val, [Atom(a)], val(a));
    UnaryIsAnd(val, [Atom(a)], val(a));
    AndIsOr(val, [Atom(a)], val(a));
    NotIsUnary(val, [Atom(a)], val(a));
    assert [NOT] + [Atom(a)] == [NOT, Atom(a)];
    UnaryIsAnd(val, [NOT, Atom(a)], Not3(val(a)));
  }

  /** So can anything in parentheses, with or without IS NOT TRUE behind it. */
  lemma ParenMeans<A(!new)>(val: A -> Tri, s: seq<Token<A>>, v: Tri)
    requires IsOr(val, s, v)
    ensures IsAnd(val, [LP] + s + [RP], v) && IsOr(val, [LP] + s + [RP], v)
    ensures IsAnd(val, [LP] + s + [RP] + [ISNOTTRUE], NotTrue(v))
  {
    hide IsAnd, IsOr, IsUnary, IsPrimary;
    var p := [LP] + s + [RP];
    ParenIsPrimary(val, s, v);
    PrimaryIsUnary(val, p, v);
    UnaryIsAnd(val, p, v);
    AndIsOr(val, p, v);
    UnaryIsAnd(val, p + [ISNOTTRUE], NotTrue(v));
  }

  // ----- joining -----

  /** `sep.join(xs)`. */
  function Join<A>(sep: Token<A>, xs: seq<seq<Token<A>>>): seq<Token<A>> {
    if xs == [] then [] else if |xs| == 1 then xs[0] else xs[0] + [sep] + Join(sep, xs[1..])
  }

  /** Joining conjunctions with AND conjoins them, with no parentheses needed. */
  lemma {:induction false} JoinAnd<A(!new)>(val: A -> Tri, xs: seq<seq<Token<A>>>, vs: seq<Tri>)
    requires |xs| == |vs| > 0
    requires forall i :: 0 <= i < |xs| ==> IsAnd(val, xs[i], vs[i])
    ensures IsAnd(val, Join(AND, xs), AndAll(vs))
  {
    hide IsAnd;
    if |xs| == 1 {
      assert vs[1..] == [];
      assert AndAll(vs) == vs[0];
    } else {
      JoinAnd(val, xs[1..], vs[1..]);
      AndAnd(val, xs[0], vs[0], Join(AND, xs[1..]), AndAll(vs[1..]));
    }
  }

  /** Joining with OR is safe for fragments that are at most conjunctions. */
  lemma {:induction false} JoinOr<A(!new)>(val: A -> Tri, xs: seq<seq<Token<A>>>, vs: seq<Tri>)
    requires |xs| == |vs| > 0
    requires forall i :: 0 <= i < |xs| ==> IsOr(val, xs[i], vs[i])
    ensures IsOr(val, Join(OR, xs), OrAll(vs))
  {
    hide IsOr;
    if |xs| == 1 {
      assert vs[1..] == [];
      assert OrAll(vs) == vs[0];
    } else {
      JoinOr(val, xs[1..], vs[1..]);
      OrOr(val, xs[0], vs[0], Join(OR, xs[1..]), OrAll(vs[1..]));
    }
  }
}
