/** `_canonicalize` and `hashable_key`: nested values as set members. */
module Canonical {

  /** Plain hashable values, up to Python equality (so True, 1 and 1.0 are one). */
  datatype Scalar = Text(s: string) | Number(r: real) | Nothing

  /** The hashable Python values the canonical form is built from, with Python's
      equality as structural equality. */
  datatype Hashed = HAtom(s: Scalar) | HTuple(xs: seq<Hashed>) | HFrozen(members: set<Hashed>)

  /** Nested values as Python holds them: dictionaries keep an insertion order, sets
      are listed in some order, and a set may or may not be frozen. */
  datatype Value =
    | Plain(scalar: Scalar)
    | List(xs: seq<Value>)
    | Tuple(xs: seq<Value>)
    | Dict(entries: seq<Entry>)
    | SetOf(frozen: bool, xs: seq<Value>)

  /** A key is any hashable value: a scalar, a tuple or a frozenset of such. */
  datatype Entry = Entry(key: Hashed, value: Value)

  /** `a == b` in Python: lists and tuples by position and never across, dictionaries
      and sets regardless of order, set and frozenset across. */
  predicate PyEq(a: Value, b: Value) {
    match a
    case Plain(s) => b == a
    case List(xs) => b.List? && |xs| == |b.xs| && forall i :: 0 <= i < |xs| ==> PyEq(xs[i], b.xs[i])
    case Tuple(xs) => b.Tuple? && |xs| == |b.xs| && forall i :: 0 <= i < |xs| ==> PyEq(xs[i], b.xs[i])
    case Dict(es) =>
      && b.Dict?
      && (forall i :: 0 <= i < |es| ==> EntryInRight(es[i], b.entries))
      && (forall j :: 0 <= j < |b.entries| ==> EntryInLeft(es, b.entries[j]))
    case SetOf(_, xs) =>
      && b.SetOf?
      && (forall i :: 0 <= i < |xs| ==> InRight(xs[i], b.xs))
      && (forall j :: 0 <= j < |b.xs| ==> InLeft(xs, b.xs[j]))
  }

  predicate InRight(x: Value, ys: seq<Value>) {
    exists j :: 0 <= j < |ys| && PyEq(x, ys[j])
  }

  predicate InLeft(xs: seq<Value>, y: Value) {
    exists i :: 0 <= i < |xs| && PyEq(xs[i], y)
  }

  predicate EntryEq(a: Entry, b: Entry) {
    a.key == b.key && PyEq(a.value, b.value)
  }

  predicate EntryInRight(x: Entry, ys: seq<Entry>) {
    exists j :: 0 <= j < |ys| && EntryEq(x, ys[j])
  }

  predicate EntryInLeft(xs: seq<Entry>, y: Entry) {
    exists i :: 0 <= i < |xs| && EntryEq(xs[i], y)
  }

  function Tagged(tag: string, payload: Hashed): Hashed {
    HTuple([HAtom(Text(tag)), payload])
  }

  function CanonSeq(xs: seq<Value>): (r: seq<Hashed>)
    ensures |r| == |xs|
    ensures forall i :: 0 <= i < |xs| ==> r[i] == Canon(xs[i])
  {
    seq(|xs|, i requires 0 <= i < |xs| => Canon(xs[i]))
  }

  function CanonEntry(e: Entry): Hashed {
    HTuple([e.key, Canon(e.value)])
  }

  function CanonEntries(es: seq<Entry>): (r: seq<Hashed>)
    ensures |r| == |es|
    ensures forall i :: 0 <= i < |es| ==> r[i] == CanonEntry(es[i])
  {
    seq(|es|, i requires 0 <= i < |es| => CanonEntry(es[i]))
  }

  function Members(hs: seq<Hashed>): set<Hashed> {
    set h | h in hs
  }

  /** `_canonicalize`. */
  function Canon(v: Value): Hashed {
    match v
    case Plain(s) => HAtom(s)
    case List(xs) => Tagged("__list__", HTuple(CanonSeq(xs)))
    case Tuple(xs) => Tagged("__tuple__", HTuple(CanonSeq(xs)))
    case Dict(es) => Tagged("__dict__", HFrozen(Members(CanonEntries(es))))
    case SetOf(_, xs) => Tagged("__set__", HFrozen(Members(CanonSeq(xs))))
  }

  // ----- the canonical form is exact -----

  /** Different kinds of value never meet: the tags keep them apart. */
  lemma KindsApart(a: Value, b: Value)
    requires Canon(a) == Canon(b)
    ensures a.Plain? <==> b.Plain?
    ensures a.List? <==> b.List?
    ensures a.Tuple? <==> b.Tuple?
    ensures a.Dict? <==> b.Dict?
    ensures a.SetOf? <==> b.SetOf?
    ensures !a.Plain? ==> Canon(a).xs[1] == Canon(b).xs[1]
  {
    if !a.Plain? && !b.Plain? {
      assert Canon(a).xs[0] == Canon(b).xs[0];
      TagsDiffer();
    }
  }

  lemma TagsDiffer()
    ensures "__list__" != "__tuple__" && "__list__" != "__dict__" && "__list__" != "__set__"
    ensures "__tuple__" != "__dict__" && "__tuple__" != "__set__" && "__dict__" != "__set__"
  {
    assert "__list__"[2] == 'l' && "__tuple__"[2] == 't' && "__dict__"[2] == 'd' && "__set__"[2] == 's';
  }

  /** Two values have the same canonical form if and only if they are equal. */
  lemma {:induction false} CanonExact(a: Value, b: Value)
    ensures Canon(a) == Canon(b) <==> PyEq(a, b)
    decreases a
  {
    if Canon(a) == Canon(b) {
      KindsApart(a, b);
    }
    match a
    case Plain(s) =>
    case List(xs) => SequencesExact(a, b);
    case Tuple(xs) => SequencesExact(a, b);
    case Dict(es) => if b.Dict? { DictsExact(a, b); }
    case SetOf(f, xs) => if b.SetOf? { SetsExact(a, b); }
  }

  lemma {:induction false} SequencesExact(a: Value, b: Value)
    requires a.List? || a.Tuple?
    ensures Canon(a) == Canon(b) <==> PyEq(a, b)
    decreases a, 0
  {
    if Canon(a) == Canon(b) {
      KindsApart(a, b);
    }
    if (a.List? && b.List?) || (a.Tuple? && b.Tuple?) {
      forall i | 0 <= i < |a.xs| && i < |b.xs|
        ensures Canon(a.xs[i]) == Canon(b.xs[i]) <==> PyEq(a.xs[i], b.xs[i])
      {
        CanonExact(a.xs[i], b.xs[i]);
      }
      var ca, cb := CanonSeq(a.xs), CanonSeq(b.xs);
      assert Canon(a) == Canon(b) <==> ca == cb by {
        assert Canon(a).xs[1] == HTuple(ca) && Canon(b).xs[1] == HTuple(cb);
      }
      assert ca == cb <==> |ca| == |cb| && forall i :: 0 <= i < |ca| ==> ca[i] == cb[i];
    }
  }

  predicate Within(hs: seq<Hashed>, gs: seq<Hashed>) {
    forall i :: 0 <= i < |hs| ==> hs[i] in gs
  }

  lemma MembersEqual(hs: seq<Hashed>, gs: seq<Hashed>)
    ensures Members(hs) == Members(gs) <==> Within(hs, gs) && Within(gs, hs)
  {
    if Members(hs) == Members(gs) {
      assert forall i :: 0 <= i < |hs| ==> hs[i] in Members(gs);
      assert forall i :: 0 <= i < |gs| ==> gs[i] in Members(hs);
    }
  }

  lemma {:induction false} SetsExact(a: Value, b: Value)
    requires a.SetOf? && b.SetOf?
    ensures Canon(a) == Canon(b) <==> PyEq(a, b)
    decreases a, 0
  {
    forall i, j | 0 <= i < |a.xs| && 0 <= j < |b.xs|
      ensures Canon(a.xs[i]) == Canon(b.xs[j]) <==> PyEq(a.xs[i], b.xs[j])
    {
      CanonExact(a.xs[i], b.xs[j]);
    }
    SetsAlike(a.xs, b.xs);
    SetsMeet(a, b);
    hide InRight, InLeft, Canon, CanonSeq;
  }

  lemma SetsMeet(a: Value, b: Value)
    requires a.SetOf? && b.SetOf?
    ensures Canon(a) == Canon(b) <==> Within(CanonSeq(a.xs), CanonSeq(b.xs)) && Within(CanonSeq(b.xs), CanonSeq(a.xs))
  {
    assert Canon(a).xs[1] == HFrozen(Members(CanonSeq(a.xs)));
    assert Canon(b).xs[1] == HFrozen(Members(CanonSeq(b.xs)));
    MembersEqual(CanonSeq(a.xs), CanonSeq(b.xs));
  }

  lemma SetsAlike(xs: seq<Value>, ys: seq<Value>)
    requires forall i, j :: 0 <= i < |xs| && 0 <= j < |ys| ==> (Canon(xs[i]) == Canon(ys[j]) <==> PyEq(xs[i], ys[j]))
    ensures (forall i :: 0 <= i < |xs| ==> InRight(xs[i], ys)) <==> Within(CanonSeq(xs), CanonSeq(ys))
    ensures (forall j :: 0 <= j < |ys| ==> InLeft(xs, ys[j])) <==> Within(CanonSeq(ys), CanonSeq(xs))
  {
    hide Canon, PyEq, CanonSeq;
    var cs, ds := CanonSeq(xs), CanonSeq(ys);
    forall i | 0 <= i < |xs|
      ensures InRight(xs[i], ys) <==> cs[i] in ds
    {
      assert cs[i] in ds <==> exists j :: 0 <= j < |ys| && ds[j] == Canon(xs[i]);
    }
    forall j | 0 <= j < |ys|
      ensures InLeft(xs, ys[j]) <==> ds[j] in cs
    {
      assert ds[j] in cs <==> exists i :: 0 <= i < |xs| && cs[i] == Canon(ys[j]);
    }
    hide InRight, InLeft;
  }

  lemma {:induction false} DictsExact(a: Value, b: Value)
    requires a.Dict? && b.Dict?
    ensures Canon(a) == Canon(b) <==> PyEq(a, b)
    decreases a, 1
  {
    hide PyEq, EntryInRight, EntryInLeft, Canon, CanonEntries, EntryEq, CanonEntry, Within;
    forall i, j | 0 <= i < |a.entries| && 0 <= j < |b.entries|
      ensures CanonEntry(a.entries[i]) == CanonEntry(b.entries[j]) <==> EntryEq(a.entries[i], b.entries[j])
    {
      EntryExact(a, b, i, j);
    }
    DictsAlike(a.entries, b.entries);
    DictsMeet(a, b);
    DictsEq(a, b);
  }

  lemma DictsEq(a: Value, b: Value)
    requires a.Dict? && b.Dict?
    ensures PyEq(a, b) <==>
              && (forall i :: 0 <= i < |a.entries| ==> EntryInRight(a.entries[i], b.entries))
              && (forall j :: 0 <= j < |b.entries| ==> EntryInLeft(a.entries, b.entries[j]))
  {
    hide EntryInRight, EntryInLeft;
  }

  lemma {:induction false} EntryExact(a: Value, b: Value, i: nat, j: nat)
    requires a.Dict? && b.Dict? && i < |a.entries| && j < |b.entries|
    ensures CanonEntry(a.entries[i]) == CanonEntry(b.entries[j]) <==> EntryEq(a.entries[i], b.entries[j])
    decreases a, 0
  {
    hide PyEq, Canon;
    CanonExact(a.entries[i].value, b.entries[j].value);
    EntryParts(a.entries[i], b.entries[j]);
  }

  lemma EntryParts(a: Entry, b: Entry)
    ensures CanonEntry(a) == CanonEntry(b) <==> a.key == b.key && Canon(a.value) == Canon(b.value)
  {
    var x, y := CanonEntry(a), CanonEntry(b);
    assert x.xs[0] == a.key && x.xs[1] == Canon(a.value);
    assert y.xs[0] == b.key && y.xs[1] == Canon(b.value);
  }

  lemma DictsMeet(a: Value, b: Value)
    requires a.Dict? && b.Dict?
    ensures Canon(a) == Canon(b) <==>
              Within(CanonEntries(a.entries), CanonEntries(b.entries))
               && Within(CanonEntries(b.entries), CanonEntries(a.entries))
  {
    assert Canon(a).xs[1] == HFrozen(Members(CanonEntries(a.entries)));
    assert Canon(b).xs[1] == HFrozen(Members(CanonEntries(b.entries)));
    MembersEqual(CanonEntries(a.entries), CanonEntries(b.entries));
  }

  lemma DictsAlike(xs: seq<Entry>, ys: seq<Entry>)
    requires forall i, j :: 0 <= i < |xs| && 0 <= j < |ys| ==>
               (CanonEntry(xs[i]) == CanonEntry(ys[j]) <==> EntryEq(xs[i], ys[j]))
    ensures (forall i :: 0 <= i < |xs| ==> EntryInRight(xs[i], ys)) <==> Within(CanonEntries(xs), CanonEntries(ys))
    ensures (forall j :: 0 <= j < |ys| ==> EntryInLeft(xs, ys[j])) <==> Within(CanonEntries(ys), CanonEntries(xs))
  {
    hide CanonEntry, EntryEq, CanonEntries;
    var cs, ds := CanonEntries(xs), CanonEntries(ys);
    forall i | 0 <= i < |xs|
      ensures EntryInRight(xs[i], ys) <==> cs[i] in ds
    {
      assert cs[i] in ds <==> exists j :: 0 <= j < |ys| && ds[j] == CanonEntry(xs[i]);
    }
    forall j | 0 <= j < |ys|
      ensures EntryInLeft(xs, ys[j]) <==> ds[j] in cs
    {
      assert ds[j] in cs <==> exists i :: 0 <= i < |xs| && cs[i] == CanonEntry(ys[j]);
    }
    hide EntryInRight, EntryInLeft;
  }

  /** Hence Python equality on nested values is an equivalence, as deduplication needs. */
  lemma EqualityIsEquivalence(a: Value, b: Value, c: Value)
    ensures PyEq(a, a)
    ensures PyEq(a, b) <==> PyEq(b, a)
    ensures PyEq(a, b) && PyEq(b, c) ==> PyEq(a, c)
  {
    hide Canon, PyEq;
    CanonExact(a, a);
    CanonExact(a, b);
    CanonExact(b, a);
    CanonExact(b, c);
    CanonExact(a, c);
  }

  // ----- hashable_key -----

  /** Does `hash(v)` succeed? */
  predicate Hashable(v: Value) {
    match v
    case Plain(_) => true
    case Tuple(xs) => forall i :: 0 <= i < |xs| ==> Hashable(xs[i])
    case SetOf(frozen, _) => frozen
    case _ => false
  }

  /** The value at a path through tuples. */
  function Inside(v: Value, path: seq<nat>): (r: Value)
    decreases |path|
  {
    if path == [] || !v.Tuple? || path[0] >= |v.xs| then v else Inside(v.xs[path[0]], path[1..])
  }

  /** A value cannot be hashed exactly when, through tuples only, it holds a list, a
      dictionary or a set that is not frozen. */
  lemma {:induction false} HashableIff(v: Value) returns (path: seq<nat>)
    ensures !Hashable(v) ==> var w := Inside(v, path); w.List? || w.Dict? || (w.SetOf? && !w.frozen)
    ensures Hashable(v) ==> forall p {:trigger Inside(v, p)} ::
              var w := Inside(v, p); w.Plain? || w.Tuple? || (w.SetOf? && w.frozen)
    decreases v
  {
    path := [];
    if v.Tuple? {
      if i :| 0 <= i < |v.xs| && !Hashable(v.xs[i]) {
        var rest := HashableIff(v.xs[i]);
        path := [i] + rest;
        assert path[1..] == rest;
      } else {
        forall p ensures var w := Inside(v, p); w.Plain? || w.Tuple? || (w.SetOf? && w.frozen) {
          if p != [] && p[0] < |v.xs| {
            var _ := HashableIff(v.xs[p[0]]);
          }
        }
      }
    }
  }

  datatype Key = Itself(v: Value) | CanonKey(h: Hashed)

  /** `hashable_key`. */
  function KeyOf(v: Value): Key {
    if Hashable(v) then Itself(v) else CanonKey(Canon(v))
  }

  /** Equality of keys: `_CanonKey` only ever equals another `_CanonKey`. */
  predicate KeyEq(a: Key, b: Key) {
    match (a, b)
    case (Itself(x), Itself(y)) => PyEq(x, y)
    case (CanonKey(x), CanonKey(y)) => x == y
    case _ => false
  }

  /** Keys are equal exactly when the values are equal and either both or neither is
      hashable. */
  lemma KeyExact(a: Value, b: Value)
    ensures KeyEq(KeyOf(a), KeyOf(b)) <==> PyEq(a, b) && (Hashable(a) <==> Hashable(b))
  {
    CanonExact(a, b);
  }

  predicate SetFree(v: Value) {
    match v
    case Plain(_) => true
    case List(xs) => forall i :: 0 <= i < |xs| ==> SetFree(xs[i])
    case Tuple(xs) => forall i :: 0 <= i < |xs| ==> SetFree(xs[i])
    case Dict(es) => forall i :: 0 <= i < |es| ==> SetFree(es[i].value)
    case SetOf(_, _) => false
  }

  lemma {:induction false} EqualHashability(a: Value, b: Value)
    requires SetFree(a) && PyEq(a, b)
    ensures Hashable(a) <==> Hashable(b)
  {
    if a.Tuple? {
      forall i | 0 <= i < |a.xs|
        ensures Hashable(a.xs[i]) <==> Hashable(b.xs[i])
      {
        EqualHashability(a.xs[i], b.xs[i]);
      }
    }
  }

  /** On values without sets the key is exact across the hashable/unhashable split. */
  lemma KeyExactOnSetFree(a: Value, b: Value)
    requires SetFree(a)
    ensures KeyEq(KeyOf(a), KeyOf(b)) <==> PyEq(a, b)
  {
    KeyExact(a, b);
    if PyEq(a, b) {
      EqualHashability(a, b);
    }
  }

  /** With sets it is not: a top-level frozenset keeps its own key. */
  lemma FrozensetKeepsItsKey(xs: seq<Value>)
    ensures PyEq(SetOf(true, xs), SetOf(false, xs))
    ensures !KeyEq(KeyOf(SetOf(true, xs)), KeyOf(SetOf(false, xs)))
  {
    forall i | 0 <= i < |xs|
      ensures InRight(xs[i], xs) && InLeft(xs, xs[i])
    {
      EqualityIsEquivalence(xs[i], xs[i], xs[i]);
      assert InRight(xs[i], xs) && InLeft(xs, xs[i]);
    }
  }
}
