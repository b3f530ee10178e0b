/** What the migration makes of each part of the description outside the components, and of
    a component's operator. */
module DslNodes {
  import opened Text
  import opened CharClass
  import opened DslRefs
  import opened DslMigration
  import opened DslGraph

  /** `v.get(key)` of a dictionary; other values have no entries. */
  function Get(v: Value, key: string): Option<Value> {
    if v.Dict? then Find(v.entries, key) else None
  }

  /** The entry holds an id that moved with its component; anything else stayed. */
  predicate IdMoved(m: map<string, string>, was: Option<Value>, now: Option<Value>) {
    if was.Some? && was.value.Str? then now == Some(Str(if was.value.s in m then m[was.value.s] else was.value.s))
    else now == was
  }

  /** The entry holds a built-in operator name that was renamed; anything else stayed. */
  predicate NameMoved(was: Option<Value>, now: Option<Value>) {
    if was.Some? && was.value.Str? then now == Some(Str(NewName(was.value.s))) else now == was
  }

  predicate TypeMoved(was: Option<Value>, now: Option<Value>) {
    if was == Some(Str("splitterNode")) then now == Some(Str("chunkerNode")) else now == was
  }

  /** All references within the entry follow their components. */
  predicate Rewritten(m: map<string, string>, was: Option<Value>, now: Option<Value>) {
    now == if was.Some? then Some(RewriteValue(m, was.value)) else None
  }

  /** All other entries are as they were. */
  ghost predicate OthersStay(keys: seq<string>, was: Value, now: Value) {
    forall key :: key !in keys ==> Get(now, key) == Get(was, key)
  }

  // ----- nodes -----

  ghost predicate DataMoved(m: map<string, string>, was: Value, now: Value) {
    if !was.Dict? then now == was
    else
      && now.Dict?
      && NameMoved(Get(was, "label"), Get(now, "label"))
      && NameMoved(Get(was, "name"), Get(now, "name"))
      && Rewritten(m, Get(was, "form"), Get(now, "form"))
      && OthersStay(["label", "name", "form"], was, now)
  }

  ghost predicate NodeMoved(m: map<string, string>, was: Value, now: Value) {
    if !was.Dict? then now == was
    else
      && now.Dict?
      && IdMoved(m, Get(was, "id"), Get(now, "id"))
      && IdMoved(m, Get(was, "parentId"), Get(now, "parentId"))
      && TypeMoved(Get(was, "type"), Get(now, "type"))
      && (match Get(was, "data")
          case Some(v) => Get(now, "data").Some? && DataMoved(m, v, Get(now, "data").value)
          case None => Get(now, "data").None?)
      && OthersStay(["id", "parentId", "type", "data"], was, now)
  }

  /** One field of a plan and the entries it has no field for. */
  lemma PlanOn(g: Context, plan: seq<Field>, es: seq<Entry>, k: nat)
    requires DistinctKeys(plan) && k < |plan|
    ensures Find(ApplyFields(g, plan, es), plan[k].key) == After(g, plan[k], Find(es, plan[k].key))
  {
    PlannedField(g, plan, es, k);
  }

  ghost predicate SameKeys(plan: seq<Field>, keys: seq<string>) {
    |plan| == |keys| && forall i :: 0 <= i < |plan| ==> plan[i].key == keys[i]
  }

  lemma OthersUnplanned(g: Context, plan: seq<Field>, es: seq<Entry>, keys: seq<string>)
    requires SameKeys(plan, keys)
    ensures OthersStay(keys, Dict(es), Dict(ApplyFields(g, plan, es)))
  {
    forall key | key !in keys
      ensures Get(Dict(ApplyFields(g, plan, es)), key) == Get(Dict(es), key)
    {
      forall i | 0 <= i < |plan| ensures plan[i].key != key {
        assert plan[i].key == keys[i];
      }
      UnplannedField(g, plan, es, key);
    }
  }

  lemma DataFields()
    ensures DATA.Fields? && DistinctKeys(DATA.plan) && SameKeys(DATA.plan, ["label", "name", "form"])
    ensures DATA.plan[0] == Field("label", false, RenameLabel)
    ensures DATA.plan[1] == Field("name", false, RenameLabel)
    ensures DATA.plan[2] == Field("form", false, Rewrite)
  {
    DataPlan();
  }

  lemma DataFollows(g: Context, v: Value)
    ensures DataMoved(g.ids, v, Apply(g, DATA, v))
  {
    DataFields();
    hide DATA, Find, ApplyFields, RewriteValue, NewName, OthersStay;
    if v.Dict? {
      PlanOn(g, DATA.plan, v.entries, 0);
      PlanOn(g, DATA.plan, v.entries, 1);
      PlanOn(g, DATA.plan, v.entries, 2);
      OthersUnplanned(g, DATA.plan, v.entries, ["label", "name", "form"]);
    }
  }

  lemma NodeFields()
    ensures NODE.Fields? && DistinctKeys(NODE.plan) && SameKeys(NODE.plan, ["id", "parentId", "type", "data"])
    ensures NODE.plan[0] == Field("id", false, MapText)
    ensures NODE.plan[1] == Field("parentId", false, MapText)
    ensures NODE.plan[2] == Field("type", false, RenameType)
    ensures NODE.plan[3] == Field("data", false, DATA)
  {
    NodePlan();
  }

  lemma IdField(g: Context, key: string, x: Option<Value>)
    ensures IdMoved(g.ids, x, After(g, Field(key, false, MapText), x))
  {
  }

  lemma TypeField(g: Context, key: string, x: Option<Value>)
    ensures TypeMoved(x, After(g, Field(key, false, RenameType), x))
  {
  }

  lemma OtherField(g: Context, key: string, a: Edit, x: Option<Value>)
    ensures After(g, Field(key, false, a), x) == if x.Some? then Some(Apply(g, a, x.value)) else None
  {
  }

  lemma NodeFollows(g: Context, v: Value)
    ensures NodeMoved(g.ids, v, Apply(g, NODE, v))
  {
    NodeFields();
    if v.Dict? {
      var es, now := v.entries, Apply(g, NODE, v);
      assert now == Dict(ApplyFields(g, NODE.plan, es));
      hide NODE, DATA, Find, ApplyFields, OthersStay, DataMoved, Apply, After, IdMoved, TypeMoved, DistinctKeys;
      IdField(g, "id", Get(v, "id"));
      PlanOn(g, NODE.plan, es, 0);
      IdField(g, "parentId", Get(v, "parentId"));
      PlanOn(g, NODE.plan, es, 1);
      TypeField(g, "type", Get(v, "type"));
      PlanOn(g, NODE.plan, es, 2);
      OtherField(g, "data", DATA, Get(v, "data"));
      PlanOn(g, NODE.plan, es, 3);
      OthersUnplanned(g, NODE.plan, es, ["id", "parentId", "type", "data"]);
      if Find(es, "data").Some? {
        DataFollows(g, Find(es, "data").value);
      }
    }
  }

  // ----- edges -----

  ghost predicate EdgeMoved(g: Context, was: Value, now: Value) {
    if !was.Dict? then now == was
    else
      && now.Dict?
      && IdMoved(g.ids, Get(was, "source"), Get(now, "source"))
      && IdMoved(g.ids, Get(was, "target"), Get(now, "target"))
      && (var id := Get(was, "id");
          Get(now, "id") ==
            if id.Some? && id.value.Str? then Some(Str(ReplaceIds(g.replacements, id.value.s))) else id)
      && OthersStay(["source", "target", "id"], was, now)
  }

  lemma EdgeFields()
    ensures EDGE.Fields? && DistinctKeys(EDGE.plan) && SameKeys(EDGE.plan, ["source", "target", "id"])
    ensures EDGE.plan[0] == Field("source", false, MapText)
    ensures EDGE.plan[1] == Field("target", false, MapText)
    ensures EDGE.plan[2] == Field("id", false, EdgeId)
  {
    EdgePlan();
  }

  lemma EdgeMoves(g: Context, v: Value)
    ensures EdgeMoved(g, v, Apply(g, EDGE, v))
  {
    EdgeFields();
    hide EDGE, Find, ApplyFields, OthersStay, ReplaceIds;
    if v.Dict? {
      PlanOn(g, EDGE.plan, v.entries, 0);
      PlanOn(g, EDGE.plan, v.entries, 1);
      PlanOn(g, EDGE.plan, v.entries, 2);
      OthersUnplanned(g, EDGE.plan, v.entries, ["source", "target", "id"]);
    }
  }

  // ----- the graph -----

  /** The lists correspond item by item. */
  ghost predicate NodesMoved(m: map<string, string>, was: Option<Value>, now: Option<Value>) {
    if was.Some? && was.value.List? then
      && now.Some? && now.value.List? && |now.value.xs| == |was.value.xs|
      && forall i :: 0 <= i < |was.value.xs| ==> NodeMoved(m, was.value.xs[i], now.value.xs[i])
    else now == was
  }

  ghost predicate EdgesMoved(g: Context, was: Option<Value>, now: Option<Value>) {
    if was.Some? && was.value.List? then
      && now.Some? && now.value.List? && |now.value.xs| == |was.value.xs|
      && forall i :: 0 <= i < |was.value.xs| ==> EdgeMoved(g, was.value.xs[i], now.value.xs[i])
    else now == was
  }

  ghost predicate GraphMoved(g: Context, was: Option<Value>, now: Option<Value>) {
    if was.Some? && was.value.Dict? then
      && now.Some? && now.value.Dict?
      && NodesMoved(g.ids, Get(was.value, "nodes"), Get(now.value, "nodes"))
      && EdgesMoved(g, Get(was.value, "edges"), Get(now.value, "edges"))
      && OthersStay(["nodes", "edges"], was.value, now.value)
    else now == was
  }

  lemma GraphFields()
    ensures GRAPH.Fields? && DistinctKeys(GRAPH.plan) && SameKeys(GRAPH.plan, ["nodes", "edges"])
    ensures GRAPH.plan[0] == Field("nodes", false, Each(NODE))
    ensures GRAPH.plan[1] == Field("edges", false, Each(EDGE))
  {
    GraphKeys();
  }

  lemma NodeListFollows(g: Context, v: Value)
    ensures NodesMoved(g.ids, Some(v), Some(Apply(g, Each(NODE), v)))
  {
    hide NodeMoved, NODE;
    if v.List? {
      forall i | 0 <= i < |v.xs| ensures NodeMoved(g.ids, v.xs[i], Apply(g, NODE, v.xs[i])) {
        NodeFollows(g, v.xs[i]);
      }
    }
  }

  lemma EdgeListFollows(g: Context, v: Value)
    ensures EdgesMoved(g, Some(v), Some(Apply(g, Each(EDGE), v)))
  {
    hide EdgeMoved, EDGE;
    if v.List? {
      forall i | 0 <= i < |v.xs| ensures EdgeMoved(g, v.xs[i], Apply(g, EDGE, v.xs[i])) {
        EdgeMoves(g, v.xs[i]);
      }
    }
  }

  lemma GraphFollows(g: Context, v: Value)
    ensures GraphMoved(g, Some(v), Some(Apply(g, GRAPH, v)))
  {
    GraphFields();
    if v.Dict? {
      PlanOn(g, GRAPH.plan, v.entries, 0);
      PlanOn(g, GRAPH.plan, v.entries, 1);
      OthersUnplanned(g, GRAPH.plan, v.entries, ["nodes", "edges"]);
      if Find(v.entries, "nodes").Some? {
        NodeListFollows(g, Find(v.entries, "nodes").value);
      }
      if Find(v.entries, "edges").Some? {
        EdgeListFollows(g, Find(v.entries, "edges").value);
      }
    }
    hide GRAPH, NODE, EDGE, Find, ApplyFields, OthersStay, NodeMoved, EdgeMoved;
  }

  // ----- the whole description -----

  lemma DslFields()
    ensures DistinctKeys(DSL) && SameKeys(DSL, ["path", "graph", "history", "messages", "reference"])
    ensures DSL[1] == Field("graph", false, GRAPH)
    ensures DSL[2] == Field("history", false, Rewrite)
    ensures DSL[3] == Field("messages", false, Rewrite)
    ensures DSL[4] == Field("reference", false, Rewrite)
  {
    Different();
  }

  /** The entries the plan starts from: those of the description, but the components. */
  lemma StartEntries(d: Value, cs: seq<Entry>, key: string)
    requires HasComponents(d, cs) && key != "components"
    ensures var es := Put(d.entries, "components", Dict(Rebuild(ContextOf(cs), cs)));
      && Normalize(d) == Dict(ApplyFields(ContextOf(cs), DSL, es)) && Find(es, key) == Find(d.entries, key)
  {
    FindPut(d.entries, "components", Dict(Rebuild(ContextOf(cs), cs)), key);
    hide Find, Put, Rebuild, ApplyFields, DSL, ContextOf;
  }

  lemma PartFollows(d: Value, cs: seq<Entry>, k: nat)
    requires HasComponents(d, cs) && k < |DSL|
    ensures Get(Normalize(d), DSL[k].key) == After(ContextOf(cs), DSL[k], Get(d, DSL[k].key))
  {
    DslFields();
    Different();
    StartEntries(d, cs, DSL[k].key);
    hide DSL, Find, Put, Rebuild, ApplyFields, ContextOf, Normalize;
    PlanOn(ContextOf(cs), DSL, Put(d.entries, "components", Dict(Rebuild(ContextOf(cs), cs))), k);
  }

  /** Every part of the description but the components and the path: nodes and edges move
      with the components they stand for, forms, history, messages and references are
      rewritten, and nothing else changes. */
  lemma PartsFollow(d: Value, cs: seq<Entry>)
    requires HasComponents(d, cs)
    ensures var n := Normalize(d);
      && n.Dict?
      && GraphMoved(ContextOf(cs), Get(d, "graph"), Get(n, "graph"))
      && Rewritten(IdMap(cs), Get(d, "history"), Get(n, "history"))
      && Rewritten(IdMap(cs), Get(d, "messages"), Get(n, "messages"))
      && Rewritten(IdMap(cs), Get(d, "reference"), Get(n, "reference"))
      && OthersStay(["components", "path", "graph", "history", "messages", "reference"], d, n)
  {
    DslFields();
    PartFollows(d, cs, 1);
    PartFollows(d, cs, 2);
    PartFollows(d, cs, 3);
    PartFollows(d, cs, 4);
    if Get(d, "graph").Some? {
      GraphFollows(ContextOf(cs), Get(d, "graph").value);
    }
    RestStays(d, cs);
    hide DSL, GRAPH, Get, Normalize, GraphMoved, RewriteValue, OthersStay;
  }

  lemma RestStays(d: Value, cs: seq<Entry>)
    requires HasComponents(d, cs)
    ensures Normalize(d).Dict?
    ensures OthersStay(["components", "path", "graph", "history", "messages", "reference"], d, Normalize(d))
  {
    var keys := ["path", "graph", "history", "messages", "reference"];
    var all := ["components"] + keys;
    assert all == ["components", "path", "graph", "history", "messages", "reference"];
    DslFields();
    hide DSL, Find, Put, Rebuild, ApplyFields, ContextOf, Normalize;
    var g := ContextOf(cs);
    var es := Put(d.entries, "components", Dict(Rebuild(g, cs)));
    OthersUnplanned(g, DSL, es, keys);
    StartEntries(d, cs, "path");
    forall key | key !in all ensures Get(Normalize(d), key) == Get(d, key) {
      assert key != "components" && key !in keys;
      StartEntries(d, cs, key);
      assert Get(Dict(ApplyFields(g, DSL, es)), key) == Get(Dict(es), key);
    }
  }

  /** A node's form, in particular: every text in it is rewritten, so that its references
      are to the new ids. */
  lemma FormFollows(d: Value, cs: seq<Entry>, i: nat, form: Value)
    requires HasComponents(d, cs)
    requires i < |Nodes(d)| && Get(Nodes(d)[i], "data").Some?
    requires Get(Get(Nodes(d)[i], "data").value, "form") == Some(form)
    ensures var nodes := Nodes(Normalize(d));
      && |nodes| == |Nodes(d)| && Get(nodes[i], "data").Some?
      && Get(Get(nodes[i], "data").value, "form") == Some(RewriteValue(IdMap(cs), form))
  {
    PartsFollow(d, cs);
    hide Normalize, Find, RewriteValue, OthersStay, ContextOf;
    var graph, graph' := Get(d, "graph"), Get(Normalize(d), "graph");
    assert GraphMoved(ContextOf(cs), graph, graph');
    assert NodesMoved(ContextOf(cs).ids, Get(graph.value, "nodes"), Get(graph'.value, "nodes"));
    assert NodeMoved(ContextOf(cs).ids, Nodes(d)[i], Nodes(Normalize(d))[i]);
    IdsOf(cs);
  }

  lemma IdsOf(cs: seq<Entry>)
    ensures ContextOf(cs).ids == IdMap(cs)
  {
  }

  /** The nodes drawn in the graph of the description. */
  function Nodes(d: Value): seq<Value> {
    match Get(d, "graph")
    case Some(v) => (match Get(v, "nodes") case Some(List(xs)) => xs case _ => [])
    case None => []
  }

  // ----- components -----

  /** The operator of a component is renamed, after its references have been rewritten; a
      missing name is written as null.  Its other entries are only rewritten. */
  ghost predicate OperatorMoved(m: map<string, string>, was: Option<Value>, now: Option<Value>) {
    if was.Some? && was.value.Dict? then
      && now.Some? && now.value.Dict?
      && (match Get(was.value, "component_name")
          case Some(v) => NameMoved(Some(RewriteValue(m, v)), Get(now.value, "component_name"))
          case None => Get(now.value, "component_name") == Some(Null))
      && forall key :: key != "component_name" ==> Rewritten(m, Get(was.value, key), Get(now.value, key))
    else Rewritten(m, was, now)
  }

  ghost predicate ComponentMoved(m: map<string, string>, was: Value, now: Value) {
    if !was.Dict? then now == RewriteValue(m, was)
    else
      && now.Dict?
      && OperatorMoved(m, Get(was, "obj"), Get(now, "obj"))
      && forall key :: key !in ["obj", "downstream", "upstream", "parent_id"] ==>
                         Rewritten(m, Get(was, key), Get(now, key))
  }

  lemma OperatorFollows(g: Context, v: Value)
    ensures OperatorMoved(g.ids, Some(v), Some(Apply(g, OBJ.edit, RewriteValue(g.ids, v))))
  {
    if v.Dict? {
      var es := RewriteValue(g.ids, v).entries;
      var plan := [Field("component_name", true, RenameOperator)];
      assert OBJ.edit == Fields(plan);
      PlanOn(g, plan, es, 0);
      forall key ensures Find(es, key) == match Find(v.entries, key) case None => None
                                            case Some(w) => Some(RewriteValue(g.ids, w))
      {
        FindRewritten(g.ids, v.entries, key);
      }
      OthersUnplanned(g, plan, es, ["component_name"]);
      hide Find, ApplyFields, RewriteValue, NewName;
    }
  }

  /** What becomes of a component, apart from its links: its operator is renamed, and every
      other entry is rewritten. */
  lemma ComponentFollows(g: Context, c: Value)
    ensures ComponentMoved(g.ids, c, NewComponent(g, c))
  {
    ComponentFields();
    ComponentKeys();
    if c.Dict? {
      var es := RewriteValue(g.ids, c).entries;
      forall key ensures Find(es, key) == match Find(c.entries, key) case None => None
                                            case Some(w) => Some(RewriteValue(g.ids, w))
      {
        FindRewritten(g.ids, c.entries, key);
      }
      PlanOn(g, COMPONENT.plan, es, 0);
      OthersUnplanned(g, COMPONENT.plan, es, ["obj", "downstream", "upstream", "parent_id"]);
      if Find(c.entries, "obj").Some? {
        OperatorFollows(g, Find(c.entries, "obj").value);
      }
    }
    hide COMPONENT, OBJ, Find, ApplyFields, RewriteValue, OperatorMoved;
  }

  lemma ComponentKeys()
    ensures SameKeys(COMPONENT.plan, ["obj", "downstream", "upstream", "parent_id"]) && COMPONENT.plan[0] == OBJ
  {
  }

  // ----- ids within an edge's id -----

  /** The replacements are made one after the other, each on the outcome of those before. */
  lemma {:induction false} ReplacedInOrder(rs: seq<(string, string)>, p: (string, string), s: string)
    ensures ReplaceIds([], s) == s
    ensures ReplaceIds(rs + [p], s) == ReplaceAll(ReplaceIds(rs, s), p.0, p.1)
    decreases |rs|
  {
    hide ReplaceAll;
    if rs == [] {
      assert rs + [p] == [p] && [p][1..] == [];
    } else {
      assert (rs + [p])[1..] == rs[1..] + [p];
      ReplacedInOrder(rs[1..], p, ReplaceAll(s, rs[0].0, rs[0].1));
    }
  }

  // ----- `str.replace` -----

  /** `x.join(ps)`. */
  function Between(ps: seq<string>, x: string): string {
    if ps == [] then [] else if |ps| == 1 then ps[0] else ps[0] + x + Between(ps[1..], x)
  }

  predicate OccursAt(s: string, x: string, i: nat) {
    i + |x| <= |s| && s[i..i + |x|] == x
  }

  /** No occurrence begins before the end of a part. */
  ghost predicate Leftmost(ps: seq<string>, x: string) {
    if ps == [] then false
    else if |ps| == 1 then forall i :: 0 <= i <= |ps[0]| ==> !OccursAt(ps[0], x, i)
    else
      && (forall i :: 0 <= i < |ps[0]| ==> !OccursAt(Between(ps, x), x, i))
      && Leftmost(ps[1..], x)
  }

  /** The text is cut at the leftmost occurrences, one after the other, and joined again
      with the replacement. */
  lemma {:induction false} ReplaceJoins(s: string, x: string, y: string) returns (ps: seq<string>)
    requires x != []
    ensures Leftmost(ps, x) && Between(ps, x) == s && Between(ps, y) == ReplaceAll(s, x, y)
    decreases |s|
  {
    hide Leftmost, Between;
    if |s| < |x| {
      ps := [s];
      OneBetween(ps, x);
      OneBetween(ps, y);
      ShortLeftmost(s, x);
    } else if x <= s {
      var rest := ReplaceJoins(s[|x|..], x, y);
      ps := [[]] + rest;
      assert s == x + s[|x|..];
      LeftmostSome(rest, x);
      OpenLeftmost(rest, x);
      OpenBetween(rest, x);
      OpenBetween(rest, y);
    } else {
      var rest := ReplaceJoins(s[1..], x, y);
      LeftmostSome(rest, x);
      ps := [[s[0]] + rest[0]] + rest[1..];
      LongerBetween(rest, x, s[0]);
      LongerBetween(rest, y, s[0]);
      assert s == [s[0]] + s[1..];
      LeftmostLonger(rest, ps, s, x);
    }
  }

  lemma LeftmostSome(ps: seq<string>, x: string)
    requires Leftmost(ps, x)
    ensures ps != []
  {
  }

  lemma ShortLeftmost(s: string, x: string)
    requires |s| < |x|
    ensures Leftmost([s], x)
  {
  }

  lemma OpenLeftmost(rest: seq<string>, x: string)
    requires Leftmost(rest, x)
    ensures Leftmost([[]] + rest, x)
  {
    assert ([[]] + rest)[1..] == rest;
  }

  lemma OpenBetween(rest: seq<string>, x: string)
    requires rest != []
    ensures Between([[]] + rest, x) == x + Between(rest, x)
  {
    assert ([[]] + rest)[1..] == rest;
    assert [] + x == x;
  }

  lemma LongerBetween(rest: seq<string>, x: string, c: char)
    requires rest != []
    ensures Between([[c] + rest[0]] + rest[1..], x) == [c] + Between(rest, x)
  {
    assert ([[c] + rest[0]] + rest[1..])[1..] == rest[1..];
  }

  lemma LeftmostLonger(rest: seq<string>, ps: seq<string>, s: string, x: string)
    requires x != [] && s != [] && Leftmost(rest, x) && rest != [] && Between(rest, x) == s[1..] && !(x <= s)
    requires ps == [[s[0]] + rest[0]] + rest[1..] && Between(ps, x) == s
    ensures Leftmost(ps, x)
  {
    assert ps[1..] == rest[1..] && |ps[0]| == |rest[0]| + 1;
    OccursLater(s, x);
    hide OccursAt, Between;
    if |rest| == 1 {
      OneBetween(ps, x);
      OneBetween(rest, x);
    }
  }

  /** What does not begin a text occurs in it only where it occurs in the rest. */
  lemma OccursLater(s: string, x: string)
    requires s != [] && !(x <= s)
    ensures forall i :: 0 <= i <= |s| && OccursAt(s, x, i) ==> i > 0 && OccursAt(s[1..], x, i - 1)
  {
    assert !OccursAt(s, x, 0);
    forall i | 0 < i <= |s| && OccursAt(s, x, i) ensures OccursAt(s[1..], x, i - 1) {
      var t := s[1..];
      assert s[i..] == t[i - 1..];
      assert s[i..i + |x|] == s[i..][..|x|] && t[i - 1..i - 1 + |x|] == t[i - 1..][..|x|];
    }
  }

  lemma OneBetween(ps: seq<string>, x: string)
    requires |ps| == 1
    ensures Between(ps, x) == ps[0]
  {
  }

  /** The characters of component ids and of variables, as the pattern lists them. */
  lemma IdClass(c: char)
    ensures InClass("A-Za-z0-9:_-", c) <==> IdChar(c)
  {
    hide InClass;
    assert "A-Za-z0-9:_-" == ['A', '-', 'Z'] + "a-z0-9:_-";
    RangeThen('A', 'Z', "a-z0-9:_-", c);
    assert "a-z0-9:_-" == ['a', '-', 'z'] + "0-9:_-";
    RangeThen('a', 'z', "0-9:_-", c);
    assert "0-9:_-" == ['0', '-', '9'] + ":_-";
    RangeThen('0', '9', ":_-", c);
    Unranged(":_-", c);
  }

  lemma VarClass(c: char)
    ensures InClass("A-Za-z0-9_.-", c) <==> VarChar(c)
  {
    hide InClass;
    assert "A-Za-z0-9_.-" == ['A', '-', 'Z'] + "a-z0-9_.-";
    RangeThen('A', 'Z', "a-z0-9_.-", c);
    assert "a-z0-9_.-" == ['a', '-', 'z'] + "0-9_.-";
    RangeThen('a', 'z', "0-9_.-", c);
    assert "0-9_.-" == ['0', '-', '9'] + "_.-";
    RangeThen('0', '9', "_.-", c);
    Unranged("_.-", c);
  }
}
