/** `normalize_chunker_dsl`: legacy component names and ids are renamed throughout an
    agent's JSON description. */
module DslMigration {
  import opened Text
  import opened DslRefs

  /** JSON values.  A dictionary lists its entries in insertion order. */
  datatype Value =
    | Null
    | Atom(n: int)
    | Str(s: string)
    | List(xs: seq<Value>)
    | Dict(entries: seq<Entry>)

  datatype Entry = Entry(key: string, value: Value)

  /** Where a key is first found; the number of entries when it is not. */
  function At(es: seq<Entry>, key: string): (i: nat)
    ensures i <= |es|
  {
    if es == [] || es[0].key == key then 0 else 1 + At(es[1..], key)
  }

  /** `d.get(key)`. */
  function Find(es: seq<Entry>, key: string): Option<Value> {
    if At(es, key) < |es| then Some(es[At(es, key)].value) else None
  }

  /** `d[key] = value`: in place when the key is there, else at the end. */
  function Put(es: seq<Entry>, key: string, value: Value): seq<Entry> {
    if At(es, key) < |es| then es[At(es, key) := Entry(key, value)] else es + [Entry(key, value)]
  }

  lemma {:induction false} AtIsFirst(es: seq<Entry>, key: string)
    ensures forall j :: 0 <= j < At(es, key) ==> es[j].key != key
    ensures At(es, key) < |es| ==> es[At(es, key)].key == key
  {
    if es == [] || es[0].key == key {
    } else {
      AtIsFirst(es[1..], key);
      forall j | 0 <= j < At(es, key) ensures es[j].key != key {
        if j > 0 { assert es[j] == es[1..][j - 1]; }
      }
    }
  }

  lemma {:induction false} AtIsUnique(es: seq<Entry>, key: string, i: nat)
    requires i <= |es|
    requires forall j :: 0 <= j < i ==> es[j].key != key
    requires i < |es| ==> es[i].key == key
    ensures At(es, key) == i
  {
    if i == 0 {
    } else {
      AtIsUnique(es[1..], key, i - 1);
    }
  }

  lemma FindPut(es: seq<Entry>, key: string, value: Value, other: string)
    ensures Find(Put(es, key, value), other) == if other == key then Some(value) else Find(es, other)
  {
    hide At;
    var i, k := At(es, key), At(es, other);
    AtIsFirst(es, key);
    AtIsFirst(es, other);
    var r := Put(es, key, value);
    if other == key || k < |es| {
      AtIsUnique(r, other, k);
    } else {
      AtIsUnique(r, other, |r|);
    }
  }

  lemma PutNew(es: seq<Entry>, key: string, value: Value)
    requires forall j :: 0 <= j < |es| ==> es[j].key != key
    ensures Put(es, key, value) == es + [Entry(key, value)]
  {
    AtIsUnique(es, key, |es|);
  }

  lemma PutSame(es: seq<Entry>, key: string, value: Value)
    requires Find(es, key) == Some(value)
    ensures Put(es, key, value) == es
  {
    AtIsFirst(es, key);
  }

  // ----- the renames -----

  /** COMPONENT_RENAMES, in its order. */
  const COMPONENT_RENAMES: seq<(string, string)> := [
    ("Splitter", "TokenChunker"), ("HierarchicalMerger", "TitleChunker"), ("PDFGenerator", "DocGenerator")]

  /** `COMPONENT_RENAMES.get(name, name)`. */
  function NewName(name: string): string {
    NameFrom(COMPONENT_RENAMES, name)
  }

  function NameFrom(rs: seq<(string, string)>, name: string): string {
    if rs == [] then name else if name == rs[0].0 then rs[0].1 else NameFrom(rs[1..], name)
  }

  /** `NODE_TYPE_RENAMES.get(type, type)`. */
  function NewType(name: string): string {
    if name == "splitterNode" then "chunkerNode" else name
  }

  /** The new id of a component: the first legacy operator prefix is replaced. */
  function Ren(id: string): string {
    RenFrom(COMPONENT_RENAMES, id)
  }

  function RenFrom(rs: seq<(string, string)>, id: string): string {
    if rs == [] then id
    else
      var prefix := rs[0].0 + ":";
      if prefix <= id then rs[0].1 + ":" + id[|prefix|..] else RenFrom(rs[1..], id)
  }

  lemma RenCases(id: string)
    ensures Ren(id) ==
      if "Splitter:" <= id then "TokenChunker:" + id[9..]
      else if "HierarchicalMerger:" <= id then "TitleChunker:" + id[19..]
      else if "PDFGenerator:" <= id then "DocGenerator:" + id[13..]
      else id
  {
    var rs := COMPONENT_RENAMES;
    assert rs[1..][0] == rs[1] && rs[1..][1..] == rs[2..] && rs[2..][0] == rs[2] && rs[2..][1..] == [];
    assert "Splitter" + ":" == "Splitter:" && "HierarchicalMerger" + ":" == "HierarchicalMerger:"
        && "PDFGenerator" + ":" == "PDFGenerator:";
    assert "TokenChunker" + ":" == "TokenChunker:" && "TitleChunker" + ":" == "TitleChunker:"
        && "DocGenerator" + ":" == "DocGenerator:";
    assert RenFrom(rs, id) == if "Splitter:" <= id then "TokenChunker:" + id[9..] else RenFrom(rs[1..], id);
    assert RenFrom(rs[1..], id)
           == if "HierarchicalMerger:" <= id then "TitleChunker:" + id[19..] else RenFrom(rs[2..], id);
    assert RenFrom(rs[2..], id) == if "PDFGenerator:" <= id then "DocGenerator:" + id[13..] else RenFrom([], id);
  }

  /** A new id is never legacy. */
  lemma RenTwice(id: string)
    ensures Ren(Ren(id)) == Ren(id)
  {
    RenCases(id);
    RenCases(Ren(id));
    var r := Ren(id);
    if r != id {
      assert r[0] == 'T' || r[0] == 'D';
      assert "Splitter:"[0] == 'S' && "HierarchicalMerger:"[0] == 'H' && "PDFGenerator:"[0] == 'P';
    }
  }

  /** Renaming stays within the alphabet of reference names, so a reference to a
      renamed component is still a reference. */
  lemma RenKeepsNames(id: string)
    requires Name(id)
    ensures Name(Ren(id))
  {
    RenCases(id);
    assert Name("TokenChunker:") && Name("TitleChunker:") && Name("DocGenerator:");
  }

  lemma NameCases(x: string)
    ensures NewName(x) ==
      if x == "Splitter" then "TokenChunker"
      else if x == "HierarchicalMerger" then "TitleChunker"
      else if x == "PDFGenerator" then "DocGenerator"
      else x
  {
    var rs := COMPONENT_RENAMES;
    assert rs[1..][0] == rs[1] && rs[1..][1..] == rs[2..] && rs[2..][0] == rs[2] && rs[2..][1..] == [];
    assert NameFrom(rs, x) == if x == "Splitter" then "TokenChunker" else NameFrom(rs[1..], x);
    assert NameFrom(rs[1..], x) == if x == "HierarchicalMerger" then "TitleChunker" else NameFrom(rs[2..], x);
    assert NameFrom(rs[2..], x) == if x == "PDFGenerator" then "DocGenerator" else NameFrom([], x);
  }

  lemma NamesTwice(x: string)
    ensures NewName(NewName(x)) == NewName(x) && NewType(NewType(x)) == NewType(x)
  {
    NameCases(x);
    NameCases(NewName(x));
    hide NewName;
    assert "TokenChunker"[0] == 'T' && "TitleChunker"[0] == 'T' && "DocGenerator"[0] == 'D';
    assert "Splitter"[0] == 'S' && "HierarchicalMerger"[0] == 'H' && "PDFGenerator"[0] == 'P';
    assert "chunkerNode"[0] == 'c' && "splitterNode"[0] == 's';
  }

  /** A component's id and its operator name are renamed alike. */
  lemma IdAndNameAgree(op: string, rest: string)
    requires ':' !in op
    ensures Ren(op + ":" + rest) == NewName(op) + ":" + rest
  {
    var rs := COMPONENT_RENAMES;
    assert forall i :: 0 <= i < |rs| ==> ':' !in rs[i].0;
    IdAndNameFrom(rs, op, rest);
  }

  lemma {:induction false} IdAndNameFrom(rs: seq<(string, string)>, op: string, rest: string)
    requires ':' !in op && forall i :: 0 <= i < |rs| ==> ':' !in rs[i].0
    ensures RenFrom(rs, op + ":" + rest) == NameFrom(rs, op) + ":" + rest
  {
    if rs == [] {
    } else {
      var p, id := rs[0].0, op + ":" + rest;
      UpToColon(p, op, rest);
      if p == op {
        assert id[|p + ":"|..] == rest;
      } else {
        IdAndNameFrom(rs[1..], op, rest);
      }
    }
  }

  lemma UpToColon(p: string, op: string, rest: string)
    requires ':' !in p && ':' !in op
    ensures p + ":" <= op + ":" + rest <==> p == op
  {
    var x, id := p + ":", op + ":" + rest;
    assert x[|p|] == ':' && id[|op|] == ':';
    assert |p| < |op| ==> id[|p|] == op[|p|];
    assert |op| < |p| ==> x[|op|] == p[|op|];
    if x <= id {
      assert |p| == |op| by {
        assert id[|p|] == x[|p|];
        assert |op| < |x| ==> x[|op|] == id[|op|];
      }
      assert x[..|p|] == p && id[..|op|] == op;
    }
  }

  /** `component_id_map`. */
  function IdMap(cs: seq<Entry>): map<string, string> {
    map k | k in Keys(cs) :: Ren(k)
  }

  function Keys(cs: seq<Entry>): set<string> {
    set e | e in cs :: e.key
  }

  lemma IdMapKeepsAlphabet(cs: seq<Entry>)
    ensures KeepsAlphabet(IdMap(cs))
  {
    forall x | x in IdMap(cs) && Name(x) ensures Name(IdMap(cs)[x]) {
      RenKeepsNames(x);
    }
  }

  /** `rewrite_variable_refs`. */
  function RewriteText(m: map<string, string>, s: string): string {
    if s in m then m[s] else Sub(m, s)
  }

  /** `rewrite_value`. */
  function RewriteValue(m: map<string, string>, v: Value): (r: Value) {
    match v
    case Str(s) => Str(RewriteText(m, s))
    case List(xs) => List(seq(|xs|, i requires 0 <= i < |xs| => RewriteValue(m, xs[i])))
    case Dict(es) => Dict(seq(|es|, i requires 0 <= i < |es| => Entry(es[i].key, RewriteValue(m, es[i].value))))
    case _ => v
  }

  ghost predicate Identity(m: map<string, string>) {
    forall x :: x in m ==> m[x] == x
  }

  lemma {:induction false} RewriteByIdentity(m: map<string, string>, v: Value)
    requires Identity(m)
    ensures RewriteValue(m, v) == v
  {
    match v
    case Str(s) => SubByIdentity(m, s);
    case List(xs) =>
      forall i | 0 <= i < |xs| ensures RewriteValue(m, xs[i]) == xs[i] {
        RewriteByIdentity(m, xs[i]);
      }
    case Dict(es) =>
      forall i | 0 <= i < |es| ensures RewriteValue(m, es[i].value) == es[i].value {
        RewriteByIdentity(m, es[i].value);
      }
    case _ =>
  }

  // ----- edits at named fields -----

  /** `str.replace`, also for the empty needle, which matches between all characters. */
  function ReplaceAll(s: string, x: string, y: string): string
    decreases |s|
  {
    if x == [] then Weave(s, y)
    else if |s| < |x| then s
    else if x <= s then y + ReplaceAll(s[|x|..], x, y)
    else [s[0]] + ReplaceAll(s[1..], x, y)
  }

  function Weave(s: string, y: string): string {
    if s == [] then y else y + [s[0]] + Weave(s[1..], y)
  }

  lemma {:induction false} ReplaceBySame(s: string, x: string)
    ensures ReplaceAll(s, x, x) == s
    decreases |s|
  {
    if x == [] {
      WeaveNothing(s);
    } else if |s| >= |x| {
      ReplaceBySame(if x <= s then s[|x|..] else s[1..], x);
    }
  }

  lemma {:induction false} WeaveNothing(s: string)
    ensures Weave(s, []) == s
  {
    if s == [] {
    } else {
      WeaveNothing(s[1..]);
    }
  }

  /** What the migration knows while it edits: the id map, and the same pairs sorted
      for the replacement inside edge ids. */
  datatype Context = Context(ids: map<string, string>, replacements: seq<(string, string)>)

  function ReplaceIds(rs: seq<(string, string)>, s: string): string {
    if rs == [] then s else ReplaceIds(rs[1..], ReplaceAll(s, rs[0].0, rs[0].1))
  }

  /** The edits made to a field's value; a value of the wrong kind is left alone. */
  datatype Edit =
    | Rewrite                     // `rewrite_value`
    | MapText                     // one id
    | MapItems                    // a list of ids
    | RenameOperator              // `obj.component_name`
    | RenameLabel                 // a label or name that is still an operator's
    | RenameType                  // a node's type
    | EdgeId                      // ids within an edge's id
    | Each(item: Edit)
    | Fields(plan: seq<Field>)

  /** An edited field; `always` when the key is written even if it was missing. */
  datatype Field = Field(key: string, always: bool, edit: Edit)

  function LookupItem(m: map<string, string>, v: Value): Value {
    if v.Str? then Str(Lookup(m, v.s)) else v
  }

  function Apply(g: Context, e: Edit, v: Value): Value
    decreases e
  {
    match e
    case Rewrite => RewriteValue(g.ids, v)
    case MapText => LookupItem(g.ids, v)
    case MapItems =>
      if v.List? then List(seq(|v.xs|, i requires 0 <= i < |v.xs| => LookupItem(g.ids, v.xs[i]))) else v
    case RenameOperator => if v.Str? then Str(NewName(v.s)) else v
    case RenameLabel => if v.Str? then Str(NewName(v.s)) else v
    case RenameType => if v.Str? then Str(NewType(v.s)) else v
    case EdgeId => if v.Str? then Str(ReplaceIds(g.replacements, v.s)) else v
    case Each(item) =>
      if v.List? then List(seq(|v.xs|, i requires 0 <= i < |v.xs| => Apply(g, item, v.xs[i]))) else v
    case Fields(plan) => if v.Dict? then Dict(ApplyFields(g, plan, v.entries)) else v
  }

  function ApplyFields(g: Context, plan: seq<Field>, es: seq<Entry>): seq<Entry>
    decreases plan
  {
    if plan == [] then es else ApplyFields(g, plan[1..], ApplyField(g, plan[0], es))
  }

  function ApplyField(g: Context, f: Field, es: seq<Entry>): seq<Entry>
    decreases f
  {
    match Find(es, f.key)
    case Some(v) => Put(es, f.key, Apply(g, f.edit, v))
    case None => if f.always then Put(es, f.key, Apply(g, f.edit, Null)) else es
  }

  /** `component_name` is written even when it was missing. */
  const OBJ: Field := Field("obj", false, Fields([Field("component_name", true, RenameOperator)]))

  /** A component, after `rewrite_value`. */
  const COMPONENT: Edit := Fields([
    OBJ,
    Field("downstream", false, MapItems),
    Field("upstream", false, MapItems),
    Field("parent_id", false, MapText)])

  const DATA: Edit := Fields([
    Field("label", false, RenameLabel), Field("name", false, RenameLabel), Field("form", false, Rewrite)])

  const NODE: Edit := Fields([
    Field("id", false, MapText),
    Field("parentId", false, MapText),
    Field("type", false, RenameType),
    Field("data", false, DATA)])

  const EDGE: Edit := Fields([
    Field("source", false, MapText), Field("target", false, MapText), Field("id", false, EdgeId)])

  const GRAPH: Edit := Fields([Field("nodes", false, Each(NODE)), Field("edges", false, Each(EDGE))])

  /** Everything but the components. */
  const DSL: seq<Field> := [
    Field("path", false, MapItems),
    Field("graph", false, GRAPH),
    Field("history", false, Rewrite),
    Field("messages", false, Rewrite),
    Field("reference", false, Rewrite)]

  function NewComponent(g: Context, c: Value): Value {
    Apply(g, COMPONENT, RewriteValue(g.ids, c))
  }

  /** `rewritten_components`: a later component overwrites an earlier one of the same
      new id, in the earlier one's place. */
  function Rebuild(g: Context, cs: seq<Entry>): seq<Entry> {
    if cs == [] then []
    else
      var last := cs[|cs| - 1];
      Put(Rebuild(g, cs[..|cs| - 1]), Lookup(g.ids, last.key), NewComponent(g, last.value))
  }

  /** `sorted(items, key=lambda item: len(item[0]), reverse=True)`, which is stable. */
  function SortByLength(ps: seq<(string, string)>): seq<(string, string)> {
    if ps == [] then [] else Insert(SortByLength(ps[..|ps| - 1]), ps[|ps| - 1])
  }

  function Insert(ps: seq<(string, string)>, p: (string, string)): seq<(string, string)> {
    if ps == [] || |ps[0].0| < |p.0| then [p] + ps else [ps[0]] + Insert(ps[1..], p)
  }

  function ContextOf(cs: seq<Entry>): Context {
    Context(IdMap(cs), SortByLength(seq(|cs|, i requires 0 <= i < |cs| => (cs[i].key, Ren(cs[i].key)))))
  }

  /** `normalize_chunker_dsl`, on the inputs it does not raise on. */
  function Normalize(d: Value): Value {
    if !d.Dict? then d
    else match Find(d.entries, "components")
      case Some(Dict(cs)) =>
        var g := ContextOf(cs);
        Dict(ApplyFields(g, DSL, Put(d.entries, "components", Dict(Rebuild(g, cs)))))
      case _ => d
  }

  // ----- the general facts about edits -----

  ghost predicate DistinctKeys(plan: seq<Field>) {
    forall i, j :: 0 <= i < j < |plan| ==> plan[i].key != plan[j].key
  }

  /** Every plan inside the edit names each field once. */
  ghost predicate WellFormed(e: Edit)
    decreases e
  {
    match e
    case Each(item) => WellFormed(item)
    case Fields(plan) => DistinctKeys(plan) && forall i :: 0 <= i < |plan| ==> WellFormed(plan[i].edit)
    case _ => true
  }

  /** What a plan leaves in a field. */
  function After(g: Context, f: Field, old': Option<Value>): Option<Value> {
    match old'
    case Some(v) => Some(Apply(g, f.edit, v))
    case None => if f.always then Some(Apply(g, f.edit, Null)) else None
  }

  lemma FieldSet(g: Context, f: Field, es: seq<Entry>, other: string)
    ensures Find(ApplyField(g, f, es), other)
            == if other == f.key then After(g, f, Find(es, f.key)) else Find(es, other)
  {
    hide Apply;
    match Find(es, f.key)
    case Some(v) => FindPut(es, f.key, Apply(g, f.edit, v), other);
    case None => if f.always { FindPut(es, f.key, Apply(g, f.edit, Null), other); }
  }

  lemma {:induction false} UnplannedField(g: Context, plan: seq<Field>, es: seq<Entry>, key: string)
    requires forall i :: 0 <= i < |plan| ==> plan[i].key != key
    ensures Find(ApplyFields(g, plan, es), key) == Find(es, key)
  {
    if plan == [] {
    } else {
      FieldSet(g, plan[0], es, key);
      UnplannedField(g, plan[1..], ApplyField(g, plan[0], es), key);
    }
  }

  lemma {:induction false} PlannedField(g: Context, plan: seq<Field>, es: seq<Entry>, k: nat)
    requires DistinctKeys(plan) && k < |plan|
    ensures Find(ApplyFields(g, plan, es), plan[k].key) == After(g, plan[k], Find(es, plan[k].key))
  {
    hide ApplyField, After;
    FieldSet(g, plan[0], es, plan[k].key);
    var next := ApplyField(g, plan[0], es);
    if k == 0 {
      UnplannedField(g, plan[1..], next, plan[0].key);
    } else {
      assert plan[1..][k - 1] == plan[k];
      PlannedField(g, plan[1..], next, k - 1);
    }
  }

  /** A plan whose fields are all in their final form changes nothing. */
  lemma {:induction false} SettledPlan(h: Context, plan: seq<Field>, es: seq<Entry>)
    requires forall i :: 0 <= i < |plan| ==> After(h, plan[i], Find(es, plan[i].key)) == Find(es, plan[i].key)
    ensures ApplyFields(h, plan, es) == es
  {
    if plan == [] {
    } else {
      hide Apply;
      var f := plan[0];
      assert After(h, f, Find(es, f.key)) == Find(es, f.key);
      if Find(es, f.key).Some? {
        PutSame(es, f.key, Find(es, f.key).value);
      }
      assert ApplyField(h, f, es) == es;
      forall i | 0 <= i < |plan[1..]|
        ensures After(h, plan[1..][i], Find(es, plan[1..][i].key)) == Find(es, plan[1..][i].key)
      {
        assert plan[1..][i] == plan[i + 1];
      }
      SettledPlan(h, plan[1..], es);
    }
  }

  /** A context in which nothing is left to rename. */
  ghost predicate Quiet(h: Context) {
    Identity(h.ids) && forall i :: 0 <= i < |h.replacements| ==> h.replacements[i].0 == h.replacements[i].1
  }

  lemma {:induction false} ReplaceQuietly(rs: seq<(string, string)>, s: string)
    requires forall i :: 0 <= i < |rs| ==> rs[i].0 == rs[i].1
    ensures ReplaceIds(rs, s) == s
  {
    if rs == [] {
    } else {
      ReplaceBySame(s, rs[0].0);
      ReplaceQuietly(rs[1..], s);
    }
  }

  /** An edit made once more, with nothing left to rename, changes nothing. */
  lemma {:induction false} ApplyTwice(g: Context, h: Context, e: Edit, v: Value)
    requires Quiet(h) && WellFormed(e)
    ensures Apply(h, e, Apply(g, e, v)) == Apply(g, e, v)
    decreases e, 0
  {
    var r := Apply(g, e, v);
    match e
    case Rewrite => RewriteByIdentity(h.ids, r);
    case MapText =>
    case MapItems =>
    case RenameOperator => if v.Str? { NamesTwice(v.s); }
    case RenameLabel => if v.Str? { NamesTwice(v.s); }
    case RenameType => if v.Str? { NamesTwice(v.s); }
    case EdgeId => if r.Str? { ReplaceQuietly(h.replacements, r.s); }
    case Each(item) => if v.List? { EachTwice(g, h, item, v.xs); }
    case Fields(plan) => if v.Dict? { FieldsTwice(g, h, plan, v.entries); }
  }

  lemma {:induction false} EachTwice(g: Context, h: Context, item: Edit, xs: seq<Value>)
    requires Quiet(h) && WellFormed(item)
    ensures Apply(h, Each(item), Apply(g, Each(item), List(xs))) == Apply(g, Each(item), List(xs))
    decreases item, 1
  {
    var r := Apply(g, Each(item), List(xs));
    forall i | 0 <= i < |xs| ensures Apply(h, item, r.xs[i]) == r.xs[i] {
      ApplyTwice(g, h, item, xs[i]);
    }
  }

  lemma {:induction false} FieldsTwice(g: Context, h: Context, plan: seq<Field>, es: seq<Entry>)
    requires Quiet(h) && DistinctKeys(plan)
    requires forall i :: 0 <= i < |plan| ==> WellFormed(plan[i].edit)
    ensures ApplyFields(h, plan, ApplyFields(g, plan, es)) == ApplyFields(g, plan, es)
    decreases plan, 1
  {
    hide Apply, ApplyFields;
    var r := ApplyFields(g, plan, es);
    forall i | 0 <= i < |plan| ensures After(h, plan[i], Find(r, plan[i].key)) == Find(r, plan[i].key) {
      PlannedField(g, plan, es, i);
      assert WellFormed(plan[i].edit);
      match Find(es, plan[i].key)
      case Some(v) => ApplyTwice(g, h, plan[i].edit, v);
      case None => ApplyTwice(g, h, plan[i].edit, Null);
    }
    SettledPlan(h, plan, r);
  }

  // ----- the rebuilt components -----

  ghost predicate DistinctEntries(es: seq<Entry>) {
    forall i, j :: 0 <= i < j < |es| ==> es[i].key != es[j].key
  }

  lemma PutKeepsDistinct(es: seq<Entry>, key: string, value: Value)
    requires DistinctEntries(es)
    ensures DistinctEntries(Put(es, key, value))
    ensures forall e :: e in Put(es, key, value) ==> e == Entry(key, value) || e in es
  {
    hide At;
    AtIsFirst(es, key);
  }

  /** Nothing in a component is left to rename, by its own fields. */
  ghost predicate SettledComponent(c: Value) {
    forall h :: Quiet(h) ==> NewComponent(h, c) == c
  }

  lemma ComponentSettles(g: Context, c: Value)
    ensures SettledComponent(NewComponent(g, c))
  {
    var r := NewComponent(g, c);
    forall h | Quiet(h) ensures NewComponent(h, r) == r {
      PlansWellFormed();
      RewriteByIdentity(h.ids, r);
      ApplyTwice(g, h, COMPONENT, RewriteValue(g.ids, c));
    }
  }

  lemma PlansWellFormed()
    ensures WellFormed(COMPONENT) && WellFormed(Fields(DSL))
  {
    ComponentPlan();
    NodePlan();
    EdgePlan();
    Different();
    hide NODE, EDGE, COMPONENT;
    GraphKeys();
    assert WellFormed(Each(NODE)) && WellFormed(Each(EDGE));
    assert WellFormed(GRAPH);
  }

  lemma GraphKeys()
    ensures GRAPH.Fields? && DistinctKeys(GRAPH.plan)
  {
    assert "nodes"[0] == 'n' && "edges"[0] == 'e';
  }

  lemma ComponentPlan()
    ensures WellFormed(COMPONENT)
  {
    assert "obj"[0] == 'o' && "downstream"[0] == 'd' && "upstream"[0] == 'u' && "parent_id"[0] == 'p';
    assert DistinctKeys(COMPONENT.plan);
    assert WellFormed(OBJ.edit);
  }

  lemma NodePlan()
    ensures WellFormed(NODE)
  {
    DataPlan();
    assert "id"[0] == 'i' && "parentId"[0] == 'p' && "type"[0] == 't' && "data"[0] == 'd';
    assert DistinctKeys(NODE.plan);
  }

  lemma DataPlan()
    ensures WellFormed(DATA)
  {
    assert "label"[0] == 'l' && "name"[0] == 'n' && "form"[0] == 'f';
    assert DistinctKeys(DATA.plan);
  }

  lemma EdgePlan()
    ensures WellFormed(EDGE)
  {
    assert "source"[0] == 's' && "target"[0] == 't' && "id"[0] == 'i';
    assert DistinctKeys(EDGE.plan);
  }

  lemma Different()
    ensures DistinctKeys(DSL)
    ensures forall i :: 0 <= i < |DSL| ==> DSL[i].key != "components"
  {
    assert "path"[0] == 'p' && "graph"[0] == 'g' && "history"[0] == 'h';
    assert "messages"[0] == 'm' && "reference"[0] == 'r';
    assert "components"[0] == 'c';
  }

  /** Every rebuilt component has a current id and is settled. */
  ghost predicate Rebuilt(es: seq<Entry>) {
    && DistinctEntries(es)
    && forall i :: 0 <= i < |es| ==> Ren(es[i].key) == es[i].key && SettledComponent(es[i].value)
  }

  lemma {:induction false} RebuildIsRebuilt(g: Context, cs: seq<Entry>)
    requires forall i :: 0 <= i < |cs| ==> Lookup(g.ids, cs[i].key) == Ren(cs[i].key)
    ensures Rebuilt(Rebuild(g, cs))
  {
    if cs == [] {
    } else {
      var init, last := cs[..|cs| - 1], cs[|cs| - 1];
      RebuildIsRebuilt(g, init);
      hide NewComponent, Ren, SettledComponent, Put;
      RenTwice(last.key);
      ComponentSettles(g, last.value);
      PutKeepsDistinct(Rebuild(g, init), Ren(last.key), NewComponent(g, last.value));
      var r := Rebuild(g, cs);
      forall i | 0 <= i < |r| ensures Ren(r[i].key) == r[i].key && SettledComponent(r[i].value) {
        assert r[i] in r;
      }
    }
  }

  /** Rebuilding rebuilt components changes nothing. */
  lemma {:induction false} RebuildAgain(h: Context, es: seq<Entry>)
    requires Rebuilt(es) && Quiet(h)
    ensures Rebuild(h, es) == es
  {
    if es == [] {
    } else {
      var init, last := es[..|es| - 1], es[|es| - 1];
      assert NewComponent(h, last.value) == last.value && Lookup(h.ids, last.key) == last.key by {
        assert SettledComponent(last.value);
      }
      hide NewComponent, SettledComponent, Quiet, Ren, Lookup, At, Put;
      RebuildAgain(h, init);
      PutNew(init, last.key, last.value);
      assert es == init + [last];
    }
  }

  lemma RebuiltIsQuiet(es: seq<Entry>)
    requires forall i :: 0 <= i < |es| ==> Ren(es[i].key) == es[i].key
    ensures Quiet(ContextOf(es))
  {
    var ps := seq(|es|, i requires 0 <= i < |es| => (es[i].key, Ren(es[i].key)));
    SortKeepsPairs(ps);
    var rs := SortByLength(ps);
    forall i | 0 <= i < |rs| ensures rs[i].0 == rs[i].1 {
      assert rs[i] in multiset(rs);
      assert rs[i] in ps;
    }
  }

  lemma {:induction false} SortKeepsPairs(ps: seq<(string, string)>)
    ensures multiset(SortByLength(ps)) == multiset(ps)
    ensures LongestFirst(SortByLength(ps))
  {
    if ps == [] {
    } else {
      var init, last := ps[..|ps| - 1], ps[|ps| - 1];
      SortKeepsPairs(init);
      assert SortByLength(ps) == Insert(SortByLength(init), last);
      hide Insert, LongestFirst, SortByLength;
      InsertKeepsPairs(SortByLength(init), last);
      InsertKeepsOrder(SortByLength(init), last);
      assert ps == init + [last];
      assert multiset(ps) == multiset(init) + multiset{last};
    }
  }

  predicate LongestFirst(ps: seq<(string, string)>) {
    forall i, j :: 0 <= i < j < |ps| ==> |ps[i].0| >= |ps[j].0|
  }

  lemma {:induction false} InsertKeepsPairs(ps: seq<(string, string)>, p: (string, string))
    ensures multiset(Insert(ps, p)) == multiset(ps) + multiset{p}
  {
    if ps == [] || |ps[0].0| < |p.0| {
    } else {
      InsertKeepsPairs(ps[1..], p);
      assert ps == [ps[0]] + ps[1..];
    }
  }

  lemma {:induction false} InsertKeepsOrder(ps: seq<(string, string)>, p: (string, string))
    requires LongestFirst(ps)
    ensures LongestFirst(Insert(ps, p))
    ensures Insert(ps, p) != [] && (Insert(ps, p)[0] == p || (ps != [] && Insert(ps, p)[0] == ps[0]))
  {
    if ps == [] || |ps[0].0| < |p.0| {
    } else {
      InsertKeepsOrder(ps[1..], p);
      var r := Insert(ps[1..], p);
      assert |ps[0].0| >= |r[0].0|;
      assert forall j :: 0 <= j < |r| ==> |r[0].0| >= |r[j].0|;
    }
  }

  /** Normalizing twice is normalizing once, for every description, also when renamed
      components collide. */
  lemma NormalizeTwice(d: Value)
    ensures Normalize(Normalize(d)) == Normalize(d)
  {
    if d.Dict? && Find(d.entries, "components").Some? && Find(d.entries, "components").value.Dict? {
      var cs := Find(d.entries, "components").value.entries;
      var g := ContextOf(cs);
      var cs' := Rebuild(g, cs);
      var es := Put(d.entries, "components", Dict(cs'));
      var r := ApplyFields(g, DSL, es);
      hide Apply, ApplyFields, Rebuild, ContextOf, Put, Find;
      Different();
      PlansWellFormed();
      FindPut(d.entries, "components", Dict(cs'), "components");
      UnplannedField(g, DSL, es, "components");
      OldIdsAreKnown(cs);
      RebuildIsRebuilt(g, cs);
      RebuiltIsQuiet(cs');
      var h := ContextOf(cs');
      RebuildAgain(h, cs');
      PutSame(r, "components", Dict(cs'));
      FieldsTwice(g, h, DSL, es);
    }
  }

  lemma OldIdsAreKnown(cs: seq<Entry>)
    ensures forall i :: 0 <= i < |cs| ==> Lookup(ContextOf(cs).ids, cs[i].key) == Ren(cs[i].key)
  {
    forall i | 0 <= i < |cs| ensures cs[i].key in IdMap(cs) {
      assert cs[i] in cs;
    }
  }
}
