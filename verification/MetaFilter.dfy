/** The in-memory metadata filter: `meta_filter` over the inverted index that
    `get_flatted_meta_by_kbs` builds.  This is the reference semantics. */
module MetaFilter {
  import opened Text
  import opened Python

  type DocId = string

  /** A document: its knowledge base and, per metadata key, its values as text. */
  datatype Doc = Doc(kb: string, meta: map<string, seq<string>>)
  type Store = map<DocId, Doc>

  /** key -> value text -> documents carrying that value. */
  type Index = map<string, map<string, seq<DocId>>>

  datatype Op =
    | Eq | Ne | Range(cmp: Cmp) | In | NotIn | Contains | NotContains
    | StartWith | EndWith | Empty | NotEmpty | Unknown(name: string)

  datatype Filter = Filter(key: string, op: Op, value: PyVal)

  // ----- one bucket -----

  /** Strings and the strings inside a list are lower-cased; tuples are not. */
  function Normalize(h: Host, v: PyVal): PyVal {
    match v
    case PStr(s) => PStr(h.Lower(s))
    case PList(xs) => PList(seq(|xs|, i requires 0 <= i < |xs| => LowerIfText(h, xs[i])))
    case _ => v
  }

  function LowerIfText(h: Host, v: PyVal): PyVal {
    if v.PStr? then PStr(h.Lower(v.s)) else v
  }

  /** `x in v` for a text x; None when Python raises. */
  function Member(h: Host, x: string, v: PyVal): Option<bool> {
    match v
    case PStr(s) => Some(Occurs(x, s))
    case PList(xs) => Some(exists i :: 0 <= i < |xs| && PyEq(PStr(x), xs[i]))
    case PTuple(xs) => Some(exists i :: 0 <= i < |xs| && PyEq(PStr(x), xs[i]))
    case PDict(_) => h.has(v, x)
    case POther(_) => h.has(v, x)
    case _ => None
  }

  predicate Comparison(op: Op) {
    op.Eq? || op.Ne? || op.Range?
  }

  /** The operands a comparison sees; None when the bucket is skipped. */
  function Operands(h: Host, input: string, value: PyVal): Option<(PyVal, PyVal)> {
    if h.IsDate(h.Trim(h.Str(value))) then
      if h.IsDate(h.Trim(input)) then Some((PStr(h.Trim(input)), PStr(h.Trim(h.Str(value))))) else None
    else if value.PStr? && h.eval(input).Some? && h.eval(value.s).Some? then
      Some((LowerIfText(h, h.eval(input).value), LowerIfText(h, h.eval(value.s).value)))
    else
      Some((PStr(h.Lower(input)), LowerIfText(h, value)))
  }

  /** The two operands after the in-place rebinding of `input` and `value`. */
  function Prepared(h: Host, op: Op, input: string, value: PyVal): Option<(PyVal, PyVal)> {
    if Comparison(op) then Operands(h, input, value)
    else Some((PStr(h.Lower(input)), Normalize(h, value)))
  }

  /** The operator itself; whatever raises in Python is no match. */
  predicate Decide(h: Host, op: Op, input: PyVal, value: PyVal) {
    var text := h.Str(input);
    match op
    case Eq => PyEq(input, value)
    case Ne => !PyEq(input, value)
    case Range(c) => h.order(c, input, value) == Some(true)
    case In => Member(h, text, value) == Some(true)
    case NotIn => Member(h, text, value) == Some(false)
    case Contains => value.PStr? && Occurs(value.s, text)
    case NotContains => value.PStr? && !Occurs(value.s, text)
    case StartWith => h.Lower(h.Str(value)) <= h.Lower(text)
    case EndWith => EndsWith(h.Lower(text), h.Lower(h.Str(value)))
    case Empty => text == []
    case NotEmpty => text != []
    case Unknown(_) => false
  }

  /** Does one value bucket satisfy the operator? */
  predicate Matched(h: Host, op: Op, input: string, value: PyVal) {
    var o := Prepared(h, op, input, value);
    o.Some? && Decide(h, op, o.value.0, o.value.1)
  }

  /** Is some bucket of the index carrying d satisfied? */
  ghost predicate Hit(h: Host, metas: Index, f: Filter, d: DocId) {
    f.key in metas && exists v :: v in metas[f.key] && d in metas[f.key][v] && Matched(h, f.op, v, f.value)
  }

  /** What the whole filter list selects. */
  ghost predicate Selected(h: Host, metas: Index, fs: seq<Filter>, logic: string, d: DocId) {
    && fs != []
    && if logic == "and" then forall i :: 0 <= i < |fs| ==> Hit(h, metas, fs[i], d)
       else exists i :: 0 <= i < |fs| && Hit(h, metas, fs[i], d)
  }

  // ----- the loops -----

  /** The head of the bucket loop: `input` and `value` are rebound in place, or
      the bucket is skipped. */
  method Prepare(h: Host, op: Op, bucket: string, value: PyVal) returns (operands: Option<(PyVal, PyVal)>)
    ensures operands == Prepared(h, op, bucket, value)
  {
    var input: PyVal, val := PStr(bucket), value;
    if Comparison(op) {
      var inputText, valueText := h.Trim(bucket), h.Trim(h.Str(val));
      if h.IsDate(valueText) {
        if !h.IsDate(inputText) {
          return None;
        }
        input, val := PStr(inputText), PStr(valueText);
      } else {
        if val.PStr? && h.eval(bucket).Some? && h.eval(val.s).Some? {
          input, val := h.eval(bucket).value, h.eval(val.s).value;
        }
        input, val := LowerIfText(h, input), LowerIfText(h, val);
      }
    } else {
      input, val := LowerIfText(h, input), Normalize(h, val);
    }
    operands := Some((input, val));
  }

  /** `s.find(t)`: the first place t occurs at, or -1. */
  method Find(s: string, t: string) returns (at: int)
    ensures at == -1 <==> !Occurs(t, s)
    ensures at != -1 ==> 0 <= at <= |s| - |t| && s[at..][..|t|] == t
    ensures forall i :: 0 <= i < at && i <= |s| - |t| ==> s[i..][..|t|] != t
  {
    at := 0;
    while at <= |s| - |t|
      invariant 0 <= at
      invariant forall i :: 0 <= i < at && i <= |s| - |t| ==> s[i..][..|t|] != t
    {
      if s[at..][..|t|] == t {
        return;
      }
      at := at + 1;
    }
    at := -1;
  }

  /** `x in items`, one member after the other. */
  method FindMember(x: string, items: seq<PyVal>) returns (found: bool)
    ensures found <==> exists i :: 0 <= i < |items| && PyEq(PStr(x), items[i])
  {
    for n := 0 to |items|
      invariant forall i :: 0 <= i < n ==> !PyEq(PStr(x), items[i])
    {
      if PyEq(PStr(x), items[n]) {
        return true;
      }
    }
    found := false;
  }

  /** `x in v`, with its exception. */
  method TestMember(h: Host, x: string, v: PyVal) returns (found: Option<bool>)
    ensures found == Member(h, x, v)
  {
    match v {
      case PStr(s) =>
        var at := Find(s, x);
        found := Some(at != -1);
      case PList(items) =>
        var r := FindMember(x, items);
        found := Some(r);
      case PTuple(items) =>
        var r := FindMember(x, items);
        found := Some(r);
      case PDict(_) => found := h.has(v, x);
      case POther(_) => found := h.has(v, x);
      case _ => found := None;
    }
  }

  /** The operator ladder; an exception leaves `matched` false. */
  method Ladder(h: Host, op: Op, input: PyVal, value: PyVal) returns (matched: bool)
    ensures matched == Decide(h, op, input, value)
  {
    var text := h.Str(input);
    matched := false;
    if op.Contains? || op.NotContains? {
      if value.PStr? {
        var at := Find(text, value.s);
        matched := if op.Contains? then at >= 0 else at == -1;
      }
    } else if op.In? || op.NotIn? {
      var found := TestMember(h, text, value);
      if found.Some? {
        matched := if op.In? then found.value else !found.value;
      }
    } else if op.StartWith? {
      matched := h.Lower(h.Str(value)) <= h.Lower(text);
    } else if op.EndWith? {
      matched := EndsWith(h.Lower(text), h.Lower(h.Str(value)));
    } else if op.Empty? {
      matched := |text| == 0;
    } else if op.NotEmpty? {
      matched := |text| > 0;
    } else if op.Eq? {
      matched := PyEq(input, value);
    } else if op.Ne? {
      matched := !PyEq(input, value);
    } else if op.Range? {
      var ordered := h.order(op.cmp, input, value);
      if ordered.Some? {
        matched := ordered.value;
      }
    }
  }

  /** One round of the bucket loop: prepare the operands, then run the ladder. */
  method TestBucket(h: Host, op: Op, bucket: string, value: PyVal) returns (matched: bool)
    ensures matched == Matched(h, op, bucket, value)
  {
    hide Prepared, Decide;
    var operands := Prepare(h, op, bucket, value);
    matched := false;
    if operands.Some? {
      matched := Ladder(h, op, operands.value.0, operands.value.1);
    }
  }

  // ----- what the operators mean to a caller -----

  /** The buckets a comparison looks at: with a date as the value, only dates. */
  predicate Compared(h: Host, bucket: string, value: PyVal) {
    h.IsDate(h.Trim(h.Str(value))) ==> h.IsDate(h.Trim(bucket))
  }

  /** `x in v` is defined for texts, lists, tuples and the opaque containers that
      answer. */
  predicate Searchable(h: Host, bucket: string, value: PyVal) {
    || value.PStr? || value.PList? || value.PTuple?
    || ((value.PDict? || value.POther?) && h.has(value, h.Lower(bucket)).Some?)
  }

  /** An operator and its negation never both take a bucket, and one of them takes it
      exactly when the pair is defined there: this is where "not" is a complement. */
  lemma Opposites(h: Host, bucket: string, value: PyVal)
    ensures !(Matched(h, Eq, bucket, value) && Matched(h, Ne, bucket, value))
    ensures Matched(h, Eq, bucket, value) || Matched(h, Ne, bucket, value) <==> Compared(h, bucket, value)
    ensures !(Matched(h, In, bucket, value) && Matched(h, NotIn, bucket, value))
    ensures Matched(h, In, bucket, value) || Matched(h, NotIn, bucket, value) <==> Searchable(h, bucket, value)
    ensures !(Matched(h, Contains, bucket, value) && Matched(h, NotContains, bucket, value))
    ensures Matched(h, Contains, bucket, value) || Matched(h, NotContains, bucket, value) <==> value.PStr?
    ensures Matched(h, Empty, bucket, value) <==> bucket == []
    ensures Matched(h, NotEmpty, bucket, value) <==> bucket != []
  {
    hide Matched, Compared, Searchable;
    OppositeComparisons(h, bucket, value);
    OppositeMemberships(h, bucket, value);
    OppositeSearches(h, bucket, value);
    OppositeEmptiness(h, bucket, value);
  }

  lemma OppositeComparisons(h: Host, bucket: string, value: PyVal)
    ensures !(Matched(h, Eq, bucket, value) && Matched(h, Ne, bucket, value))
    ensures Matched(h, Eq, bucket, value) || Matched(h, Ne, bucket, value) <==> Compared(h, bucket, value)
  {
    hide PyEq;
    assert Operands(h, bucket, value).Some? <==> Compared(h, bucket, value);
    hide Operands;
  }

  lemma OppositeMemberships(h: Host, bucket: string, value: PyVal)
    ensures !(Matched(h, In, bucket, value) && Matched(h, NotIn, bucket, value))
    ensures Matched(h, In, bucket, value) || Matched(h, NotIn, bucket, value) <==> Searchable(h, bucket, value)
  {
    hide PyEq, Occurs;
    var x, v := h.Lower(bucket), Normalize(h, value);
    assert Member(h, x, v).Some? <==> Searchable(h, bucket, value);
    hide Member, Normalize, Searchable;
    var m := Member(h, x, v);
    assert m.Some? ==> m == Some(true) || m == Some(false) by {
      if m.Some? {
        assert m == if m.value then Some(true) else Some(false);
      }
    }
  }

  lemma OppositeSearches(h: Host, bucket: string, value: PyVal)
    ensures !(Matched(h, Contains, bucket, value) && Matched(h, NotContains, bucket, value))
    ensures Matched(h, Contains, bucket, value) || Matched(h, NotContains, bucket, value) <==> value.PStr?
  {
    hide PyEq, Occurs;
  }

  lemma OppositeEmptiness(h: Host, bucket: string, value: PyVal)
    ensures Matched(h, Empty, bucket, value) <==> bucket == []
    ensures Matched(h, NotEmpty, bucket, value) <==> bucket != []
  {
    hide Normalize;
    assert |h.Lower(bucket)| == |bucket|;
  }

  /** No operator but the comparisons sees the case of a bucket, nor of a text value. */
  lemma CaseDoesNotMatter(h: Host, op: Op, bucket: string, s: string)
    requires h.Sane() && !Comparison(op)
    ensures Matched(h, op, h.Lower(bucket), PStr(h.Lower(s))) <==> Matched(h, op, bucket, PStr(s))
  {
    hide Decide;
    LowerTwice(h, bucket);
    LowerTwice(h, s);
  }

  /** `filter_out`: the buckets are visited in whatever order the dictionary has. */
  method FilterOut(h: Host, v2docs: map<string, seq<DocId>>, op: Op, value: PyVal) returns (ids: seq<DocId>)
    ensures forall d :: d in ids <==> exists v :: v in v2docs && d in v2docs[v] && Matched(h, op, v, value)
  {
    hide Matched;
    ids := [];
    var todo := v2docs.Keys;
    while todo != {}
      invariant todo <= v2docs.Keys
      invariant forall d :: d in ids <==>
                exists v :: v in v2docs && v !in todo && d in v2docs[v] && Matched(h, op, v, value)
      decreases |todo|
    {
      var v :| v in todo;
      var matched := TestBucket(h, op, v, value);
      if matched {
        ids := ids + v2docs[v];
      }
      todo := todo - {v};
    }
  }

  /** The documents one filter of the list contributes; an unknown key gives none. */
  method Hits(h: Host, metas: Index, f: Filter) returns (hits: set<DocId>)
    ensures forall d :: d in hits <==> Hit(h, metas, f, d)
  {
    var ids: seq<DocId> := [];
    if f.key in metas {
      ids := FilterOut(h, metas[f.key], f.op, f.value);
    }
    hits := set d | d in ids;
  }

  ghost predicate IsSelection(h: Host, metas: Index, fs: seq<Filter>, logic: string, docs: set<DocId>) {
    forall d :: d in docs <==> Selected(h, metas, fs, logic, d)
  }

  function Combine(logic: string, acc: Option<set<DocId>>, hits: set<DocId>): set<DocId> {
    if acc.None? then hits else if logic == "and" then acc.value * hits else acc.value + hits
  }

  /** `meta_filter`, with its early return on an empty conjunction. */
  method Run(h: Host, metas: Index, fs: seq<Filter>, logic: string) returns (docIds: set<DocId>)
    ensures IsSelection(h, metas, fs, logic, docIds)
  {
    hide IsSelection, Hit;
    var acc: Option<set<DocId>> := None;
    var n := 0;
    while n < |fs|
      invariant 0 <= n <= |fs|
      invariant acc.None? <==> n == 0
      invariant acc.Some? ==> IsSelection(h, metas, fs[..n], logic, acc.value)
    {
      var hits := Hits(h, metas, fs[n]);
      SelectionStep(h, metas, fs, logic, n, acc, hits);
      if acc.None? {
        acc := Some(hits);
      } else if logic == "and" {
        acc := Some(acc.value * hits);
        if acc.value == {} {
          SelectionShrinks(h, metas, fs, n + 1);
          return {};
        }
      } else {
        acc := Some(acc.value + hits);
      }
      n := n + 1;
    }
    assert fs[..|fs|] == fs;
    if acc.None? {
      NothingSelected(h, metas, logic);
    }
    docIds := if acc.Some? then acc.value else {};
  }

  lemma NothingSelected(h: Host, metas: Index, logic: string)
    ensures IsSelection(h, metas, [], logic, {})
  {
  }

  /** How one more filter changes the selection. */
  lemma SelectionStep(h: Host, metas: Index, fs: seq<Filter>, logic: string, n: nat,
                      acc: Option<set<DocId>>, hits: set<DocId>)
    requires n < |fs|
    requires acc.None? <==> n == 0
    requires acc.Some? ==> IsSelection(h, metas, fs[..n], logic, acc.value)
    requires forall d :: d in hits <==> Hit(h, metas, fs[n], d)
    ensures IsSelection(h, metas, fs[..n + 1], logic, Combine(logic, acc, hits))
  {
    hide Hit;
    var a, b := fs[..n], fs[..n + 1];
    assert b == a + [fs[n]];
    assert forall i :: 0 <= i < n ==> a[i] == b[i];
    assert b[n] == fs[n];
  }

  /** A conjunction never regains a document: why the early return is sound. */
  lemma SelectionShrinks(h: Host, metas: Index, fs: seq<Filter>, n: nat)
    requires 0 < n <= |fs|
    requires IsSelection(h, metas, fs[..n], "and", {})
    ensures IsSelection(h, metas, fs, "and", {})
  {
    assert forall i :: 0 <= i < n ==> fs[..n][i] == fs[i];
    forall d
      ensures Selected(h, metas, fs, "and", d) ==> Selected(h, metas, fs[..n], "and", d)
    {
    }
  }

  // ----- the inverted index -----

  /** d carries value v under key k and lies in one of the knowledge bases. */
  ghost predicate Carries(store: Store, kbs: set<string>, d: DocId, k: string, v: string) {
    d in store && store[d].kb in kbs && k in store[d].meta && v in store[d].meta[k]
  }

  predicate Indexed(metas: Index, k: string, v: string, d: DocId) {
    k in metas && v in metas[k] && d in metas[k][v]
  }

  ghost predicate IsIndex(metas: Index, store: Store, kbs: set<string>) {
    forall d, k, v :: Indexed(metas, k, v, d) <==> Carries(store, kbs, d, k, v)
  }

  /** The innermost loop of the flattening: one document, one key. */
  method AddValues(metas0: Index, d: DocId, k: string, values: seq<string>) returns (metas: Index)
    ensures forall d', k', v' :: Indexed(metas, k', v', d') <==>
              Indexed(metas0, k', v', d') || (d' == d && k' == k && v' in values)
  {
    metas := metas0;
    if k !in metas {
      metas := metas[k := map[]];
    }
    for n := 0 to |values|
      invariant k in metas
      invariant forall d', k', v' :: Indexed(metas, k', v', d') <==>
                  Indexed(metas0, k', v', d') || (d' == d && k' == k && v' in values[..n])
    {
      var sv, buckets := values[n], metas[k];
      if sv !in buckets {
        buckets := buckets[sv := []];
      }
      ghost var before := metas;
      metas := metas[k := buckets[sv := buckets[sv] + [d]]];
      forall d', k', v'
        ensures Indexed(metas, k', v', d') <==> Indexed(before, k', v', d') || (d' == d && k' == k && v' == sv)
      {
      }
      assert values[..n + 1] == values[..n] + [sv];
    }
    assert values[..|values|] == values;
  }

  /** `get_flatted_meta_by_kbs`: documents of the knowledge bases, keys and values
      in any order. */
  method Flatten(store: Store, kbs: set<string>) returns (metas: Index)
    ensures IsIndex(metas, store, kbs)
  {
    metas := map[];
    var docs := set d | d in store && store[d].kb in kbs;
    ghost var scope := docs;
    while docs != {}
      invariant docs <= scope
      invariant forall d, k, v :: Indexed(metas, k, v, d) <==> d !in docs && Carries(store, kbs, d, k, v)
      decreases |docs|
    {
      var d :| d in docs;
      var keys := store[d].meta.Keys;
      while keys != {}
        invariant keys <= store[d].meta.Keys
        invariant forall d', k, v :: Indexed(metas, k, v, d') <==>
                    Carries(store, kbs, d', k, v) && (d' !in docs || (d' == d && k !in keys))
        decreases |keys|
      {
        var k :| k in keys;
        metas := AddValues(metas, d, k, store[d].meta[k]);
        keys := keys - {k};
      }
      docs := docs - {d};
    }
  }
}
