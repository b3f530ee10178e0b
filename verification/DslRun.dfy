/** The migration as the program runs it: loops that fill and update dictionaries. */
module DslRun {
  import opened Text
  import opened DslRefs
  import opened DslMigration
  import opened DslGraph

  /** `component_id_map` is filled id by id, trying the legacy names in order. */
  method BuildIdMap(cs: seq<Entry>) returns (m: map<string, string>)
    ensures m == IdMap(cs)
  {
    m := map[];
    var i := 0;
    while i < |cs|
      invariant 0 <= i <= |cs|
      invariant m == IdMap(cs[..i])
    {
      var id := cs[i].key;
      var newId := id;
      var j := 0;
      while j < |COMPONENT_RENAMES|
        invariant 0 <= j <= |COMPONENT_RENAMES|
        invariant newId == id
        invariant RenFrom(COMPONENT_RENAMES[j..], id) == Ren(id)
      {
        var prefix := COMPONENT_RENAMES[j].0 + ":";
        if prefix <= id {
          newId := COMPONENT_RENAMES[j].1 + ":" + id[|prefix|..];
          break;
        }
        j := j + 1;
      }
      assert newId == Ren(id);
      m := m[id := newId];
      i := i + 1;
      KeysSnoc(cs, i);
    }
    assert cs[..|cs|] == cs;
  }

  lemma KeysSnoc(cs: seq<Entry>, i: nat)
    requires 0 < i <= |cs|
    ensures Keys(cs[..i]) == Keys(cs[..i - 1]) + {cs[i - 1].key}
  {
    assert cs[..i] == cs[..i - 1] + [cs[i - 1]];
  }

  /** The ids of a list looked up one by one; None when one is not hashable. */
  method LookupAll(m: map<string, string>, xs: seq<Value>) returns (r: Option<seq<Value>>)
    ensures r.Some? <==> Accepts(MapItems, List(xs))
    ensures r.Some? ==> |r.value| == |xs| && forall i :: 0 <= i < |xs| ==> r.value[i] == LookupItem(m, xs[i])
  {
    var ys := [];
    var i := 0;
    while i < |xs|
      invariant 0 <= i <= |xs| == |ys| + (|xs| - i)
      invariant forall k :: 0 <= k < i ==> !Unhashable(xs[k]) && ys[k] == LookupItem(m, xs[k])
    {
      if xs[i].List? || xs[i].Dict? {
        return None;
      }
      ys := ys + [if xs[i].Str? && xs[i].s in m then Str(m[xs[i].s]) else xs[i]];
      i := i + 1;
    }
    return Some(ys);
  }

  /** One field of a dictionary, when its value is of a kind the edit changes. */
  lemma KeptField(g: Context, f: Field, es: seq<Entry>)
    requires Find(es, f.key).None? ==> !f.always
    requires Find(es, f.key).Some? ==> Apply(g, f.edit, Find(es, f.key).value) == Find(es, f.key).value
    ensures ApplyField(g, f, es) == es
  {
    if Find(es, f.key).Some? {
      PutSame(es, f.key, Find(es, f.key).value);
    }
  }

  /** The list under `key` (`downstream`, `upstream`, `path`), when it is a list. */
  method EditList(g: Context, es: seq<Entry>, key: string) returns (r: Option<seq<Entry>>)
    ensures r.Some? <==> (Find(es, key).Some? ==> Accepts(MapItems, Find(es, key).value))
    ensures r.Some? ==> r.value == ApplyField(g, Field(key, false, MapItems), es)
  {
    var v := Find(es, key);
    if v.Some? && v.value.List? {
      var ys := LookupAll(g.ids, v.value.xs);
      if ys.None? {
        return None;
      }
      assert Apply(g, MapItems, v.value) == List(ys.value);
      return Some(Put(es, key, List(ys.value)));
    }
    KeptField(g, Field(key, false, MapItems), es);
    return Some(es);
  }

  /** The id under `key`, when it is text. */
  method EditId(g: Context, es: seq<Entry>, key: string) returns (r: seq<Entry>)
    ensures r == ApplyField(g, Field(key, false, MapText), es)
  {
    r := es;
    var v := Find(es, key);
    if v.Some? && v.value.Str? {
      r := Put(es, key, Str(Lookup(g.ids, v.value.s)));
    } else {
      KeptField(g, Field(key, false, MapText), es);
    }
  }

  lemma FourFields(g: Context, plan: seq<Field>, es: seq<Entry>)
    requires |plan| == 4
    ensures ApplyFields(g, plan, es) ==
      ApplyField(g, plan[3], ApplyField(g, plan[2], ApplyField(g, plan[1], ApplyField(g, plan[0], es))))
  {
    hide ApplyField;
    var p1 := plan[1..];
    var p2 := p1[1..];
    var p3 := p2[1..];
    assert p1[0] == plan[1] && p2[0] == plan[2] && p3[0] == plan[3] && p3[1..] == [];
    var e1 := ApplyField(g, plan[0], es);
    var e2 := ApplyField(g, plan[1], e1);
    var e3 := ApplyField(g, plan[2], e2);
    assert ApplyFields(g, p3, e3) == ApplyFields(g, [], ApplyField(g, plan[3], e3));
    assert ApplyFields(g, plan, es) == ApplyFields(g, p1, e1) == ApplyFields(g, p2, e2) == ApplyFields(g, p3, e3);
  }

  lemma ThreeFields(g: Context, plan: seq<Field>, es: seq<Entry>)
    requires |plan| == 3
    ensures ApplyFields(g, plan, es) == ApplyField(g, plan[2], ApplyField(g, plan[1], ApplyField(g, plan[0], es)))
  {
    hide ApplyField;
    var p1 := plan[1..];
    var p2 := p1[1..];
    assert p1[0] == plan[1] && p2[0] == plan[2] && p2[1..] == [];
    var e1 := ApplyField(g, plan[0], es);
    var e2 := ApplyField(g, plan[1], e1);
    assert ApplyFields(g, p2, e2) == ApplyFields(g, [], ApplyField(g, plan[2], e2));
    assert ApplyFields(g, plan, es) == ApplyFields(g, p1, e1) == ApplyFields(g, p2, e2);
  }

  /** `obj["component_name"]` is always written, even when it was missing. */
  method EditObj(g: Context, es: seq<Entry>) returns (r: Option<seq<Entry>>)
    ensures r.Some? <==> (Find(es, "obj").Some? ==> Accepts(OBJ.edit, Find(es, "obj").value))
    ensures r.Some? ==> r.value == ApplyField(g, OBJ, es)
  {
    var v := Find(es, "obj");
    if v.Some? && v.value.Dict? {
      var o := v.value.entries;
      var found := Find(o, "component_name");
      var name := if found.Some? then found.value else Null;
      var f := OBJ.edit.plan[0];
      assert f == Field("component_name", true, RenameOperator);
      if name.List? || name.Dict? {
        assert !Accepts(f.edit, name);
        return None;
      }
      var newName := if name.Str? then Str(NewName(name.s)) else name;
      assert ApplyFields(g, OBJ.edit.plan, o) == ApplyField(g, f, o);
      return Some(Put(es, "obj", Dict(Put(o, "component_name", newName))));
    }
    KeptField(g, OBJ, es);
    return Some(es);
  }

  /** A component after `rewrite_value`; None when a lookup raises. */
  method EditComponent(g: Context, c: Value) returns (r: Option<Value>)
    ensures r == if Accepts(COMPONENT, c) then Some(Apply(g, COMPONENT, c)) else None
  {
    hide ApplyField, Find, OBJ, Put;
    ComponentFields();
    ObjField();
    if !c.Dict? {
      return Some(c);
    }
    ghost var plan := COMPONENT.plan;
    FourFields(g, plan, c.entries);
    AcceptsFour(c.entries);
    hide COMPONENT;
    var e1 := EditObj(g, c.entries);
    if e1.None? {
      return None;
    }
    FieldSet(g, OBJ, c.entries, "downstream");
    FieldSet(g, OBJ, c.entries, "upstream");
    var e2 := EditList(g, e1.value, "downstream");
    if e2.None? {
      return None;
    }
    FieldSet(g, Field("downstream", false, MapItems), e1.value, "upstream");
    var e3 := EditList(g, e2.value, "upstream");
    if e3.None? {
      return None;
    }
    var e4 := EditId(g, e3.value, "parent_id");
    return Some(Dict(e4));
  }

  lemma ObjField()
    ensures COMPONENT.plan[0] == OBJ && OBJ.key == "obj"
    ensures "obj" != "downstream" && "obj" != "upstream" && "downstream" != "upstream"
  {
    assert "obj"[0] == 'o' && "downstream"[0] == 'd' && "upstream"[0] == 'u';
  }

  lemma AcceptsFour(es: seq<Entry>)
    ensures Accepts(COMPONENT, Dict(es)) <==>
      && (Find(es, "obj").Some? ==> Accepts(OBJ.edit, Find(es, "obj").value))
      && (Find(es, "downstream").Some? ==> Accepts(MapItems, Find(es, "downstream").value))
      && (Find(es, "upstream").Some? ==> Accepts(MapItems, Find(es, "upstream").value))
  {
    hide Find, OBJ, COMPONENT;
    ObjField();
    ComponentFields();
    var plan := COMPONENT.plan;
    assert forall i :: 0 <= i < 4 ==>
             plan[i].edit == (if i == 0 then OBJ.edit else if i == 3 then MapText else MapItems);
    assert plan[0].key == "obj" && plan[1].key == "downstream" && plan[2].key == "upstream";
  }

  /** `rewritten_components`, filled in the order of the old ids. */
  method RebuildComponents(g: Context, cs: seq<Entry>) returns (r: Option<seq<Entry>>)
    ensures r == if AcceptsAll(g.ids, cs) then Some(Rebuild(g, cs)) else None
  {
    hide COMPONENT, Put, Accepts;
    var es := [];
    var i := 0;
    while i < |cs|
      invariant 0 <= i <= |cs|
      invariant es == Rebuild(g, cs[..i])
      invariant AcceptsAll(g.ids, cs[..i])
    {
      var c := EditComponent(g, RewriteValue(g.ids, cs[i].value));
      if c.None? {
        return None;
      }
      assert cs[..i + 1][..i] == cs[..i];
      es := Put(es, Lookup(g.ids, cs[i].key), c.value);
      i := i + 1;
    }
    assert cs[..|cs|] == cs;
    return Some(es);
  }

  /** The ids within an edge's id are replaced one after the other. */
  method ReplaceInEdgeId(rs: seq<(string, string)>, s: string) returns (r: string)
    ensures r == ReplaceIds(rs, s)
  {
    r := s;
    var i := 0;
    while i < |rs|
      invariant 0 <= i <= |rs|
      invariant ReplaceIds(rs[i..], r) == ReplaceIds(rs, s)
    {
      r := ReplaceAll(r, rs[i].0, rs[i].1);
      i := i + 1;
    }
  }

  method EditEdge(g: Context, edge: Value) returns (r: Value)
    ensures r == Apply(g, EDGE, edge)
  {
    hide ApplyField, Find, Put;
    if !edge.Dict? {
      return edge;
    }
    EdgeFields();
    ThreeFields(g, EDGE.plan, edge.entries);
    hide EDGE;
    var es := EditId(g, edge.entries, "source");
    es := EditId(g, es, "target");
    es := EditEdgeId(g, es);
    return Dict(es);
  }

  lemma EdgeFields()
    ensures EDGE.Fields? && |EDGE.plan| == 3
    ensures EDGE.plan[0] == Field("source", false, MapText) && EDGE.plan[1] == Field("target", false, MapText)
    ensures EDGE.plan[2] == Field("id", false, EdgeId)
  {
  }

  method EditEdgeId(g: Context, es: seq<Entry>) returns (r: seq<Entry>)
    ensures r == ApplyField(g, Field("id", false, EdgeId), es)
  {
    r := es;
    var v := Find(es, "id");
    if v.Some? && v.value.Str? {
      var s := ReplaceInEdgeId(g.replacements, v.value.s);
      r := Put(es, "id", Str(s));
    } else {
      KeptField(g, Field("id", false, EdgeId), es);
    }
  }

  lemma EachOne(g: Context, item: Edit, xs: seq<Value>, ys: seq<Value>)
    requires |ys| == |xs| && forall k :: 0 <= k < |xs| ==> ys[k] == Apply(g, item, xs[k])
    ensures List(ys) == Apply(g, Each(item), List(xs))
  {
    var rs := seq(|xs|, i requires 0 <= i < |xs| => Apply(g, item, xs[i]));
    assert Apply(g, Each(item), List(xs)) == List(rs);
    hide Apply;
    assert ys == rs;
  }

  /** `for edge in edges`. */
  method EditEdges(g: Context, edges: seq<Value>) returns (r: seq<Value>)
    ensures List(r) == Apply(g, Each(EDGE), List(edges))
  {
    hide EDGE, Apply;
    r := [];
    var i := 0;
    while i < |edges|
      invariant 0 <= i <= |edges| && |r| == i
      invariant forall k :: 0 <= k < i ==> r[k] == Apply(g, EDGE, edges[k])
    {
      var e := EditEdge(g, edges[i]);
      r := r + [e];
      i := i + 1;
    }
    EachOne(g, EDGE, edges, r);
  }

  /** `for node in nodes`: ids, type, and within `data` the label, name and form. */
  method EditNodes(g: Context, nodes: seq<Value>) returns (r: seq<Value>)
    ensures List(r) == Apply(g, Each(NODE), List(nodes))
  {
    hide NODE, Apply;
    r := [];
    var i := 0;
    while i < |nodes|
      invariant 0 <= i <= |nodes| && |r| == i
      invariant forall k :: 0 <= k < i ==> r[k] == Apply(g, NODE, nodes[k])
    {
      var n := EditNode(g, nodes[i]);
      r := r + [n];
      i := i + 1;
    }
    EachOne(g, NODE, nodes, r);
  }

  lemma NodeFields()
    ensures NODE.Fields? && |NODE.plan| == 4
    ensures NODE.plan[0] == Field("id", false, MapText) && NODE.plan[1] == Field("parentId", false, MapText)
    ensures NODE.plan[2] == Field("type", false, RenameType) && NODE.plan[3] == Field("data", false, DATA)
  {
  }

  method EditNode(g: Context, node: Value) returns (r: Value)
    ensures r == Apply(g, NODE, node)
  {
    hide ApplyField, Find, Put, DATA;
    if !node.Dict? {
      return node;
    }
    NodeFields();
    FourFields(g, NODE.plan, node.entries);
    hide NODE;
    var es := EditId(g, node.entries, "id");
    es := EditId(g, es, "parentId");
    es := EditType(g, es);
    es := EditData(g, es);
    return Dict(es);
  }

  method EditType(g: Context, es: seq<Entry>) returns (r: seq<Entry>)
    ensures r == ApplyField(g, Field("type", false, RenameType), es)
  {
    r := es;
    var v := Find(es, "type");
    if v.Some? && v.value.Str? {
      r := Put(es, "type", Str(NewType(v.value.s)));
    } else {
      KeptField(g, Field("type", false, RenameType), es);
    }
  }

  method EditLabel(g: Context, es: seq<Entry>, key: string) returns (r: seq<Entry>)
    ensures r == ApplyField(g, Field(key, false, RenameLabel), es)
  {
    r := es;
    var v := Find(es, key);
    if v.Some? && v.value.Str? && NewName(v.value.s) != v.value.s {
      r := Put(es, key, Str(NewName(v.value.s)));
    } else {
      KeptField(g, Field(key, false, RenameLabel), es);
    }
  }

  method EditData(g: Context, es: seq<Entry>) returns (r: seq<Entry>)
    ensures r == ApplyField(g, Field("data", false, DATA), es)
  {
    r := es;
    var v := Find(es, "data");
    if v.Some? && v.value.Dict? {
      hide Put;
      ghost var plan := DATA.plan;
      ThreeFields(g, plan, v.value.entries);
      assert plan[0] == Field("label", false, RenameLabel) && plan[1] == Field("name", false, RenameLabel)
          && plan[2] == Field("form", false, Rewrite);
      hide ApplyFields;
      var ds := EditLabel(g, v.value.entries, "label");
      ds := EditLabel(g, ds, "name");
      var form := Find(ds, "form");
      if form.Some? {
        ds := Put(ds, "form", RewriteValue(g.ids, form.value));
      }
      r := Put(es, "data", Dict(ds));
    } else {
      KeptField(g, Field("data", false, DATA), es);
    }
  }

  method EditGraph(g: Context, es: seq<Entry>) returns (r: seq<Entry>)
    ensures r == ApplyField(g, Field("graph", false, GRAPH), es)
  {
    r := es;
    var v := Find(es, "graph");
    if v.Some? && v.value.Dict? {
      hide NODE, EDGE, Put;
      ghost var plan := GRAPH.plan;
      assert plan[0] == Field("nodes", false, Each(NODE)) && plan[1] == Field("edges", false, Each(EDGE));
      assert plan[1..][0] == plan[1] && plan[1..][1..] == [];
      var gs := v.value.entries;
      ghost var e1 := ApplyField(g, plan[0], gs);
      assert ApplyFields(g, plan, gs) == ApplyField(g, plan[1], e1) by {
        hide ApplyField;
        assert ApplyFields(g, plan[1..], e1) == ApplyFields(g, [], ApplyField(g, plan[1], e1));
      }
      hide ApplyFields, Apply;
      gs := EditMembers(g, gs, "nodes", true);
      gs := EditMembers(g, gs, "edges", false);
      r := Put(es, "graph", Dict(gs));
      assert Dict(gs) == Apply(g, GRAPH, v.value) by { GraphEdit(g, v.value.entries); }
    } else {
      KeptField(g, Field("graph", false, GRAPH), es);
    }
  }

  lemma GraphEdit(g: Context, es: seq<Entry>)
    ensures Apply(g, GRAPH, Dict(es)) == Dict(ApplyFields(g, GRAPH.plan, es))
  {
    hide GRAPH, ApplyFields;
    GraphIsFields();
  }

  lemma GraphIsFields()
    ensures GRAPH.Fields?
  {
  }

  method EditMembers(g: Context, es: seq<Entry>, key: string, nodes: bool) returns (r: seq<Entry>)
    ensures r == ApplyField(g, Field(key, false, Each(if nodes then NODE else EDGE)), es)
  {
    hide NODE, EDGE, Put;
    r := es;
    var v := Find(es, key);
    if v.Some? && v.value.List? {
      var ys;
      if nodes {
        ys := EditNodes(g, v.value.xs);
      } else {
        ys := EditEdges(g, v.value.xs);
      }
      hide Apply;
      r := Put(es, key, List(ys));
    } else {
      KeptField(g, Field(key, false, Each(if nodes then NODE else EDGE)), es);
    }
  }

  method EditRewritten(g: Context, es: seq<Entry>, key: string) returns (r: seq<Entry>)
    ensures r == ApplyField(g, Field(key, false, Rewrite), es)
  {
    r := es;
    var v := Find(es, key);
    if v.Some? {
      r := Put(es, key, RewriteValue(g.ids, v.value));
    }
  }

  /** `normalize_chunker_dsl`; None when it raises. */
  method NormalizeChunkerDsl(d: Value) returns (r: Option<Value>)
    ensures r == Migrate(d)
  {
    if !d.Dict? {
      return Some(d);
    }
    var found := Find(d.entries, "components");
    if found.None? || !found.value.Dict? {
      return Some(d);
    }
    var cs := found.value.entries;
    var ids := BuildIdMap(cs);
    var g := ContextOf(cs);
    assert g.ids == ids;
    hide Find, DSL, ContextOf, Put, Accepts, GRAPH, ApplyField;
    DslFields();
    AcceptsDsl(d.entries);
    var rebuilt := RebuildComponents(g, cs);
    if rebuilt.None? {
      return None;
    }
    var es := Put(d.entries, "components", Dict(rebuilt.value));
    FindPut(d.entries, "components", Dict(rebuilt.value), "path");
    FiveFields(g, DSL, es);
    var e1 := EditList(g, es, "path");
    if e1.None? {
      return None;
    }
    var e2 := EditGraph(g, e1.value);
    var e3 := EditRewritten(g, e2, "history");
    var e4 := EditRewritten(g, e3, "messages");
    var e5 := EditRewritten(g, e4, "reference");
    return Some(Dict(e5));
  }

  lemma DslFields()
    ensures |DSL| == 5 && DSL[0] == Field("path", false, MapItems) && DSL[1] == Field("graph", false, GRAPH)
    ensures DSL[2] == Field("history", false, Rewrite) && DSL[3] == Field("messages", false, Rewrite)
    ensures DSL[4] == Field("reference", false, Rewrite)
    ensures "path" != "components"
  {
    assert "path"[0] == 'p' && "components"[0] == 'c';
  }

  /** Only the path can make the description itself raise. */
  lemma AcceptsDsl(es: seq<Entry>)
    ensures Accepts(Fields(DSL), Dict(es)) <==> (Find(es, "path").Some? ==> Accepts(MapItems, Find(es, "path").value))
  {
    hide Find;
    DslFields();
    forall v: Value ensures Accepts(DSL[1].edit, v) {
      GraphAccepts(v);
    }
    hide DSL;
    assert forall i :: 2 <= i < 5 ==> DSL[i].edit == Rewrite;
  }

  lemma GraphAccepts(v: Value)
    ensures Accepts(GRAPH, v)
  {
    hide Find;
    forall w: Value ensures Accepts(NODE, w) && Accepts(EDGE, w) {
      NodeAccepts(w);
    }
    hide NODE, EDGE;
    GraphFields();
    hide GRAPH;
    if v.Dict? {
      forall i | 0 <= i < 2 && Find(v.entries, GRAPH.plan[i].key).Some?
        ensures Accepts(GRAPH.plan[i].edit, Find(v.entries, GRAPH.plan[i].key).value)
      {
        EachAccepts(GRAPH.plan[i].edit.item, Find(v.entries, GRAPH.plan[i].key).value);
      }
    }
  }

  lemma EachAccepts(item: Edit, v: Value)
    requires forall w :: Accepts(item, w)
    ensures Accepts(Each(item), v)
  {
  }

  lemma GraphFields()
    ensures GRAPH.Fields? && |GRAPH.plan| == 2
    ensures GRAPH.plan[0] == Field("nodes", false, Each(NODE)) && GRAPH.plan[1] == Field("edges", false, Each(EDGE))
  {
    hide NODE, EDGE;
  }

  lemma NodeAccepts(w: Value)
    ensures Accepts(NODE, w) && Accepts(EDGE, w)
  {
    hide Find;
    EdgeFields();
    NodeFields();
    forall x: Value ensures Accepts(DATA, x) {
      DataAccepts(x);
    }
    hide NODE, EDGE, DATA;
  }

  lemma DataAccepts(x: Value)
    ensures Accepts(DATA, x)
  {
    hide Find;
  }

  lemma FiveFields(g: Context, plan: seq<Field>, es: seq<Entry>)
    requires |plan| == 5
    ensures ApplyFields(g, plan, es) ==
      ApplyField(g, plan[4], ApplyField(g, plan[3],
        ApplyField(g, plan[2], ApplyField(g, plan[1], ApplyField(g, plan[0], es)))))
  {
    hide ApplyField;
    var tail := plan[1..];
    FourFields(g, tail, ApplyField(g, plan[0], es));
    assert tail[0] == plan[1] && tail[1] == plan[2] && tail[2] == plan[3] && tail[3] == plan[4];
  }
}
