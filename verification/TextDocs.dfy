/** Documents that store texts, and what the in-memory filter says of them. */
module TextDocs {
  import opened Text
  import opened Python
  import opened MetaFilter
  import Es = EsPushdown
  import ListText

  /** What a document stores under the key: nothing, null, a text, or a list of texts. */
  datatype Stored = Absent | NullValue | One(t: string) | Many(xs: seq<string>)

  /** The values the inverted index has of it: a list is taken apart, null is skipped. */
  function Flat(st: Stored): seq<string> {
    match st
    case One(t) => [t]
    case Many(xs) => xs
    case _ => []
  }

  ghost predicate InMemory(h: Host, f: Filter, st: Stored) {
    exists i :: 0 <= i < |Flat(st)| && Matched(h, f.op, Flat(st)[i], f.value)
  }

  lemma OneInMemory(h: Host, f: Filter, t: string)
    ensures InMemory(h, f, One(t)) <==> Matched(h, f.op, t, f.value)
  {
    hide Matched;
    assert Flat(One(t))[0] == t;
  }

  lemma NoneInMemory(h: Host, f: Filter, st: Stored)
    requires st.Absent? || st.NullValue?
    ensures !InMemory(h, f, st)
  {
  }

  lemma SameLength(h: Host, s: string)
    ensures |h.Lower(s)| == |s|
  {
  }

  /** s has no case: no other text has the same lower case. */
  ghost predicate Caseless(h: Host, s: string) {
    forall i, c: char :: 0 <= i < |s| && h.lower(c) == h.lower(s[i]) ==> c == h.lower(s[i])
  }

  lemma CaselessOnly(h: Host, s: string, x: string)
    requires Caseless(h, s) && h.Lower(x) == h.Lower(s)
    ensures x == h.Lower(s) == s
  {
    assert |x| == |h.Lower(x)| == |h.Lower(s)| == |s|;
    forall i | 0 <= i < |x| ensures x[i] == h.Lower(s)[i] {
      assert h.Lower(x)[i] == h.lower(x[i]) && h.Lower(s)[i] == h.lower(s[i]);
    }
    forall i | 0 <= i < |s| ensures s[i] == h.Lower(s)[i] {
    }
  }

  // ----- members and items -----

  ghost predicate SomeContains(h: Host, xs: seq<string>, s: string) {
    exists i :: 0 <= i < |xs| && Occurs(h.Lower(s), h.Lower(xs[i]))
  }

  lemma ManyInMemoryContains(h: Host, k: string, value: PyVal, xs: seq<string>)
    ensures InMemory(h, Filter(k, Contains, value), Many(xs)) <==> value.PStr? && SomeContains(h, xs, h.Str(value))
  {
    forall i | 0 <= i < |xs|
      ensures Matched(h, Contains, xs[i], value) <==> value.PStr? && Occurs(h.Lower(h.Str(value)), h.Lower(xs[i]))
    {
      Es.ContainsInMemory(h, value, xs[i]);
    }
    hide Matched, Occurs;
    var f := Filter(k, Contains, value);
    if InMemory(h, f, Many(xs)) {
      var i :| 0 <= i < |xs| && Matched(h, f.op, xs[i], f.value);
      assert Occurs(h.Lower(h.Str(value)), h.Lower(xs[i]));
    }
    if value.PStr? && SomeContains(h, xs, h.Str(value)) {
      var i :| 0 <= i < |xs| && Occurs(h.Lower(h.Str(value)), h.Lower(xs[i]));
      assert Matched(h, f.op, Flat(Many(xs))[i], f.value);
    }
  }

  ghost predicate SomeAmong(h: Host, ms: seq<PyVal>, xs: seq<string>)
    requires Es.AllText(ms)
  {
    exists i :: 0 <= i < |xs| && Es.AmongLower(h, ms, false, xs[i])
  }

  lemma ManyInMemoryMembers(h: Host, k: string, ms: seq<PyVal>, xs: seq<string>)
    requires Es.AllText(ms)
    ensures InMemory(h, Filter(k, In, PList(ms)), Many(xs)) <==> SomeAmong(h, ms, xs)
    ensures InMemory(h, Filter(k, NotIn, PList(ms)), Many(xs)) <==>
            exists i :: 0 <= i < |xs| && !Es.AmongLower(h, ms, false, xs[i])
  {
    var f, g := Filter(k, In, PList(ms)), Filter(k, NotIn, PList(ms));
    forall i | 0 <= i < |xs|
      ensures Matched(h, In, xs[i], PList(ms)) <==> Es.AmongLower(h, ms, false, xs[i])
      ensures Matched(h, NotIn, xs[i], PList(ms)) <==> !Es.AmongLower(h, ms, false, xs[i])
    {
      Es.InListInMemory(h, ms, xs[i]);
    }
    hide Matched, Es.AmongLower, Es.AllText;
    assert Flat(Many(xs)) == xs;
    if SomeAmong(h, ms, xs) {
      var i :| 0 <= i < |xs| && Es.AmongLower(h, ms, false, xs[i]);
      assert Matched(h, f.op, Flat(Many(xs))[i], f.value);
    }
    if i :| 0 <= i < |xs| && !Es.AmongLower(h, ms, false, xs[i]) {
      assert Matched(h, g.op, Flat(Many(xs))[i], g.value);
    }
  }

  /** Longer than every member. */
  ghost predicate Longer(y: string, ms: seq<PyVal>)
    requires Es.AllText(ms)
  {
    forall i :: 0 <= i < |ms| ==> |ms[i].s| < |y|
  }

  /** A plain text that is longer than every member. */
  lemma {:induction false} Filler(ms: seq<PyVal>) returns (y: string)
    requires Es.AllText(ms)
    ensures ListText.PlainText(y) && Longer(y, ms)
  {
    if ms == [] {
      y := [];
    } else {
      var z := Filler(ms[1..]);
      assert forall i :: 1 <= i < |ms| ==> ms[i] == ms[1..][i - 1];
      var a := seq(|ms[0].s| + 1, i => 'a');
      y := z + a;
    }
  }

  lemma FillerNotAmong(h: Host, ms: seq<PyVal>, y: string)
    requires Es.AllText(ms) && Longer(y, ms)
    ensures !Es.AmongLower(h, ms, false, y)
  {
    forall i | 0 <= i < |ms| ensures h.Lower(y) != h.Lower(ms[i].s) {
      SameLength(h, y);
      SameLength(h, ms[i].s);
    }
  }

  /** `not in` with a text takes the texts that are no part of it: longer ones, and never
      the empty one. */
  lemma NotInTextInMemory(h: Host, s: string)
    ensures !Matched(h, NotIn, "", PStr(s)) && Matched(h, NotIn, s + "a", PStr(s))
  {
    Es.EmptyTextIsEverywhere(h, s);
    Opposites(h, "", PStr(s));
    SameLength(h, s + "a");
    SameLength(h, s);
    hide Host.Lower;
  }
}
