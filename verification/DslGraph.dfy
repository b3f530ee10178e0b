/** What the migration keeps: the component graph, the embedded references, and the
    inputs it accepts. */
module DslGraph {
  import opened Text
  import opened DslRefs
  import opened DslMigration

  // ----- embedded references -----

  /** A reference to a component becomes a reference to the same component under its
      new id, every other reference and every variable stays, and no reference appears
      or disappears. */
  lemma ReferencesFollow(cs: seq<Entry>, s: string)
    requires s !in Keys(cs)
    ensures var t := RewriteText(IdMap(cs), s);
      && |Refs(t)| == |Refs(s)|
      && forall i :: 0 <= i < |Refs(s)| ==>
           && Refs(t)[i].id == (if Refs(s)[i].id in Keys(cs) then Ren(Refs(s)[i].id) else Refs(s)[i].id)
           && Refs(t)[i].variable == Refs(s)[i].variable
  {
    var m := IdMap(cs);
    IdMapKeepsAlphabet(cs);
    SubIsStable(m, s);
    RefsOfRenamed(m, Scan(s));
    hide Scan, RefsOf, RenamePieces, Sub;
  }

  lemma {:induction false} NoBraceNoChange(m: map<string, string>, s: string)
    requires forall i :: 0 <= i < |Sub(m, s)| ==> Sub(m, s)[i] != '{'
    ensures Sub(m, s) == s
    decreases |s|
  {
    hide Sub, MatchAt, Show;
    if s == [] {
      SubOfEmpty(m);
    } else {
      SubKeepsFirst(m, s);
      MatchNeedsBrace(s);
      SubPlain(m, s);
      forall i | 0 <= i < |Sub(m, s[1..])| ensures Sub(m, s[1..])[i] != '{' {
        assert Sub(m, s[1..])[i] == Sub(m, s)[i + 1];
      }
      NoBraceNoChange(m, s[1..]);
    }
  }

  lemma MatchNeedsBrace(s: string)
    ensures s != [] && s[0] != '{' ==> MatchAt(s).None?
  {
    hide Body;
  }

  // ----- undoing the rewriting -----

  /** `old_` is a name that the migration turns into `new_`: a component of that new
      id, or the name itself when no component is called so. */
  predicate RestoredName(cs: seq<Entry>, new_: string, old_: string) {
    if old_ in Keys(cs) then Ren(old_) == new_ else old_ == new_
  }

  predicate RestoredPiece(cs: seq<Entry>, p: Piece, q: Piece) {
    AlikePiece(p, q) && (p.Found? ==> RestoredName(cs, p.r.id, q.r.id))
  }

  /** The text t with some of its references put back. */
  ghost predicate Restores(cs: seq<Entry>, t: string, ps: seq<Piece>) {
    |ps| == |Scan(t)| && forall i :: 0 <= i < |ps| ==> RestoredPiece(cs, Scan(t)[i], ps[i])
  }

  /** x is t with some references to new ids put back to components of those ids, and
      without a reference to a legacy component left. */
  ghost predicate RestoredFrom(cs: seq<Entry>, t: string, x: string) {
    exists ps :: Restores(cs, t, ps) && Render(ps) == x
  }

  lemma RestoredIffRenamed(cs: seq<Entry>, p: Piece, q: Piece)
    ensures RestoredPiece(cs, p, q) <==> RenamePiece(IdMap(cs), q) == p
  {
    hide Ren;
  }

  lemma RestoredIsNamed(cs: seq<Entry>, t: string, ps: seq<Piece>)
    requires Restores(cs, t, ps)
    ensures Alike(Scan(t), ps) && AllNamed(ps)
  {
    ScanNames(t);
    hide Scan, Ren, Name;
    forall i | 0 <= i < |ps| && ps[i].Found? ensures Name(ps[i].r.id) {
      assert RestoredPiece(cs, Scan(t)[i], ps[i]);
      assert Name(Scan(t)[i].r.id);
      if ps[i].r.id in Keys(cs) {
        RenNamesBack(ps[i].r.id);
      }
    }
  }

  lemma RenNamesBack(id: string)
    requires Name(Ren(id))
    ensures Name(id)
  {
    RenCases(id);
    var r := Ren(id);
    assert Name("Splitter:") && Name("HierarchicalMerger:") && Name("PDFGenerator:");
    forall i | 0 <= i < |id| ensures IdChar(id[i]) {
      if "Splitter:" <= id {
        assert i < 9 ==> id[i] == "Splitter:"[i];
        assert i >= 9 ==> id[i] == r[i + 4];
      } else if "HierarchicalMerger:" <= id {
        assert i < 19 ==> id[i] == "HierarchicalMerger:"[i];
        assert i >= 19 ==> id[i] == r[i - 6];
      } else if "PDFGenerator:" <= id {
        assert i < 13 ==> id[i] == "PDFGenerator:"[i];
        assert i >= 13 ==> id[i] == r[i];
      }
    }
  }

  /** A text that is not an id is rewritten into t exactly when it is t with
      references put back. */
  lemma RewritesIntoIff(cs: seq<Entry>, x: string, t: string)
    requires x !in Keys(cs)
    ensures RewriteText(IdMap(cs), x) == t <==> RestoredFrom(cs, t, x)
  {
    var m := IdMap(cs);
    if Sub(m, x) == t {
      IdMapKeepsAlphabet(cs);
      SubIsStable(m, x);
      ScanLosesNothing(x);
      var ps := Scan(x);
      assert |Scan(t)| == |ps|;
      hide Scan, Sub;
      forall i | 0 <= i < |ps| ensures RestoredPiece(cs, Scan(t)[i], ps[i]) {
        RestoredIffRenamed(cs, Scan(t)[i], ps[i]);
      }
      assert Restores(cs, t, ps);
    }
    if ps :| Restores(cs, t, ps) && Render(ps) == x {
      RestoredIsNamed(cs, t, ps);
      ScanIsStable(t, ps);
      ScanLosesNothing(t);
      hide Scan, AllNamed;
      forall i | 0 <= i < |ps| ensures RenamePieces(m, ps)[i] == Scan(t)[i] {
        assert RestoredPiece(cs, Scan(t)[i], ps[i]);
        RestoredIffRenamed(cs, Scan(t)[i], ps[i]);
      }
      assert RenamePieces(m, ps) == Scan(t);
    }
  }

  /** Looking rewritten texts up once more never changes them if and only if every
      legacy id, with any of its references to new ids put back to the components they
      stand for, is again an id. */
  lemma RemapHarmlessIff(cs: seq<Entry>)
    ensures (forall x :: Lookup(IdMap(cs), RewriteText(IdMap(cs), x)) == RewriteText(IdMap(cs), x)) <==>
            (forall k, ps :: k in Keys(cs) && Ren(k) != k && Restores(cs, k, ps) ==> Render(ps) in Keys(cs))
  {
    var m := IdMap(cs);
    hide Ren, Scan, Render, Sub, RewriteText, Restores;
    if forall k, ps :: k in Keys(cs) && Ren(k) != k && Restores(cs, k, ps) ==> Render(ps) in Keys(cs) {
      forall x ensures Lookup(m, RewriteText(m, x)) == RewriteText(m, x) {
        var t := RewriteText(m, x);
        if x in Keys(cs) {
          RenTwice(x);
          RewriteOfId(cs, x);
        } else if t in Keys(cs) && Ren(t) != t {
          RewritesIntoIff(cs, x, t);
          assert false;
        }
      }
    }
    if forall x :: Lookup(m, RewriteText(m, x)) == RewriteText(m, x) {
      forall k, ps | k in Keys(cs) && Ren(k) != k && Restores(cs, k, ps) ensures Render(ps) in Keys(cs) {
        var x := Render(ps);
        assert Lookup(m, RewriteText(m, x)) == RewriteText(m, x);
        if x !in Keys(cs) {
          RewritesIntoIff(cs, x, k);
          assert false;
        }
      }
    }
  }

  lemma RewriteOfId(cs: seq<Entry>, x: string)
    requires x in Keys(cs)
    ensures RewriteText(IdMap(cs), x) == Ren(x)
  {
  }

  /** It never happens when no id holds an opening brace. */
  lemma RemapHarmless(cs: seq<Entry>, x: string)
    requires forall k, i :: k in Keys(cs) && 0 <= i < |k| ==> k[i] != '{'
    ensures var m := IdMap(cs); Lookup(m, RewriteText(m, x)) == RewriteText(m, x)
  {
    var m := IdMap(cs);
    var t := RewriteText(m, x);
    hide Ren;
    RenTwice(x);
    if x !in m && t in m {
      NoBraceNoChange(m, x);
    }
  }

  const LEGACY_PREFIX := "Splitter:"

  /** `{Splitter:a@x}`. */
  const LEGACY_REF := Ref("{", "Splitter:a", "@x", "}")

  /** With such an id it does happen: beside Splitter:a, the text
      `Splitter:{Splitter:a@x}` becomes the legacy id `Splitter:{TokenChunker:a@x}`. */
  lemma RemapHarms()
    ensures var t := LEGACY_PREFIX + Show(LEGACY_REF.(id := Ren(LEGACY_REF.id)));
      var m := IdMap([Entry(LEGACY_REF.id, Null), Entry(t, Null)]);
      RewriteText(m, LEGACY_PREFIX + Show(LEGACY_REF)) == t && Lookup(m, t) != t
  {
    var r := LEGACY_REF;
    var t := LEGACY_PREFIX + Show(r.(id := Ren(r.id)));
    var m := IdMap([Entry(r.id, Null), Entry(t, Null)]);
    assert "Splitter:"[0] == 'S';
    assert forall i :: 0 <= i < |LEGACY_PREFIX| ==> LEGACY_PREFIX[i] != '{';
    ExampleMatches();
    hide LEGACY_PREFIX, LEGACY_REF, IdMap, Sub, Show, MatchAt, Ren, RewriteText;
    ExampleMap(t);
    LongerThanItsId(LEGACY_PREFIX, r, Ren(r.id));
    RewrittenAfterPrefix(m, LEGACY_PREFIX, r);
  }

  lemma ExampleMap(t: string)
    requires LEGACY_PREFIX <= t
    ensures var m := IdMap([Entry(LEGACY_REF.id, Null), Entry(t, Null)]);
      && LEGACY_REF.id in m && m[LEGACY_REF.id] == Ren(LEGACY_REF.id)
      && t in m && m[t] != t
      && forall x :: x in m ==> x == LEGACY_REF.id || x == t
    ensures |Ren(LEGACY_REF.id)| > |LEGACY_REF.id| && LEGACY_PREFIX != []
  {
    var cs := [Entry(LEGACY_REF.id, Null), Entry(t, Null)];
    assert cs[0] in cs && cs[1] in cs;
    hide Ren;
    assert |Ren("Splitter:a")| > |"Splitter:a"| by {
      RenCases("Splitter:a");
    }
    assert Ren(t) != t by {
      RenCases(t);
      assert Ren(t)[0] == 'T';
    }
  }

  lemma LongerThanItsId(p: string, r: Ref, id: string)
    requires |id| > |r.id| && p != []
    ensures p + Show(r) != r.id && p + Show(r) != p + Show(r.(id := id))
  {
    assert |p + Show(r)| > |r.id|;
    assert |p + Show(r)| < |p + Show(r.(id := id))|;
  }

  /** A reference behind a prefix without braces. */
  lemma RewrittenAfterPrefix(m: map<string, string>, p: string, r: Ref)
    requires MatchAt(Show(r)) == Some(r) && p + Show(r) !in m
    requires forall i :: 0 <= i < |p| ==> p[i] != '{'
    ensures RewriteText(m, p + Show(r)) == p + Show(Renamed(m, r))
  {
    var s := Show(r);
    hide MatchAt, Sub, Show;
    assert Rest(s, r) == "";
    SubFound(m, s, r);
    SubOfEmpty(m);
    SubCopies(m, p, s);
  }

  lemma ExampleMatches()
    ensures MatchAt(Show(LEGACY_REF)) == Some(LEGACY_REF)
  {
    var r := LEGACY_REF;
    var b := ("", r.id, r.variable, r.close);
    assert IsBody(b) by {
      assert ClosingRuns("}", "", "}");
    }
    hide IsBody, MatchAt;
    ShapeMatches(r.open, b, "");
    ShowFlat(r.open, b);
    hide Show, Flat;
    assert r.open + "" == r.open;
    assert Flat(b) + "" == Flat(b);
  }

  // ----- the component graph -----

  /** No two components get the same new id. */
  ghost predicate NoCollision(cs: seq<Entry>) {
    forall i, j :: 0 <= i < j < |cs| ==> Ren(cs[i].key) != Ren(cs[j].key)
  }

  /** The last component of a new id is the one kept under it. */
  lemma {:induction false} LastOneWins(g: Context, cs: seq<Entry>, i: nat)
    requires forall j :: 0 <= j < |cs| ==> Lookup(g.ids, cs[j].key) == Ren(cs[j].key)
    requires i < |cs| && forall j :: i < j < |cs| ==> Ren(cs[j].key) != Ren(cs[i].key)
    ensures Find(Rebuild(g, cs), Ren(cs[i].key)) == Some(NewComponent(g, cs[i].value))
  {
    hide NewComponent, Ren, Find, Put, Lookup;
    var init, last := cs[..|cs| - 1], cs[|cs| - 1];
    FindPut(Rebuild(g, init), Ren(last.key), NewComponent(g, last.value), Ren(cs[i].key));
    if i >= |cs| - 1 {
    } else {
      LastOneWins(g, init, i);
    }
  }

  /** Every component survives exactly when no two new ids collide. */
  lemma {:induction false} CountKeptIff(g: Context, cs: seq<Entry>)
    requires forall j :: 0 <= j < |cs| ==> Lookup(g.ids, cs[j].key) == Ren(cs[j].key)
    ensures |Rebuild(g, cs)| <= |cs|
    ensures |Rebuild(g, cs)| == |cs| <==> NoCollision(cs)
  {
    if cs == [] {
    } else {
      hide NewComponent, Ren, Lookup, At;
      var init, last := cs[..|cs| - 1], cs[|cs| - 1];
      CountKeptIff(g, init);
      NewIds(g, init, Ren(last.key));
      hide Put, Rebuild, Keys, NoCollision;
      var r := Rebuild(g, init);
      PutLength(r, Ren(last.key), NewComponent(g, last.value));
      assert Rebuild(g, cs) == Put(r, Ren(last.key), NewComponent(g, last.value)) by {
        RebuildStep(g, cs);
      }
      NoCollisionStep(cs);
    }
  }

  lemma RebuildStep(g: Context, cs: seq<Entry>)
    requires cs != []
    requires Lookup(g.ids, cs[|cs| - 1].key) == Ren(cs[|cs| - 1].key)
    ensures Rebuild(g, cs)
            == Put(Rebuild(g, cs[..|cs| - 1]), Ren(cs[|cs| - 1].key), NewComponent(g, cs[|cs| - 1].value))
  {
  }

  lemma PutLength(es: seq<Entry>, key: string, value: Value)
    ensures |Put(es, key, value)| == |es| + (if key in Keys(es) then 0 else 1)
  {
    hide At;
    AtIsFirst(es, key);
  }

  lemma NoCollisionStep(cs: seq<Entry>)
    requires cs != []
    ensures var n := |cs| - 1;
      NoCollision(cs) <==> NoCollision(cs[..n]) && !exists i :: 0 <= i < n && Ren(cs[..n][i].key) == Ren(cs[n].key)
  {
    hide Ren;
    var n := |cs| - 1;
    assert forall i :: 0 <= i < n ==> cs[..n][i] == cs[i];
  }

  lemma {:induction false} NewIds(g: Context, cs: seq<Entry>, y: string)
    requires forall j :: 0 <= j < |cs| ==> Lookup(g.ids, cs[j].key) == Ren(cs[j].key)
    ensures y in Keys(Rebuild(g, cs)) <==> exists i :: 0 <= i < |cs| && Ren(cs[i].key) == y
  {
    if cs == [] {
    } else {
      hide NewComponent, Ren, Put;
      var init, last := cs[..|cs| - 1], cs[|cs| - 1];
      assert Lookup(g.ids, last.key) == Ren(last.key);
      assert forall j :: 0 <= j < |init| ==> init[j] == cs[j];
      NewIds(g, init, y);
      KeysOfPut(Rebuild(g, init), Ren(last.key), NewComponent(g, last.value));
      assert Rebuild(g, cs) == Put(Rebuild(g, init), Ren(last.key), NewComponent(g, last.value));
      hide Keys, Rebuild, Lookup;
      if i :| 0 <= i < |cs| && Ren(cs[i].key) == y {
        assert i < |init| ==> Ren(init[i].key) == y;
      }
      if i :| 0 <= i < |init| && Ren(init[i].key) == y {
        assert Ren(cs[i].key) == y;
      }
      assert Ren(cs[|cs| - 1].key) == Ren(last.key);
    }
  }

  lemma KeysOfPut(es: seq<Entry>, key: string, value: Value)
    ensures Keys(Put(es, key, value)) == Keys(es) + {key}
  {
    hide At;
    AtIsFirst(es, key);
    var i, r := At(es, key), Put(es, key, value);
    if i < |es| {
      assert r[i].key == key;
      forall j | 0 <= j < |es| ensures es[j].key == r[j].key { }
      assert forall e :: e in es ==> exists j :: 0 <= j < |r| && r[j].key == e.key;
    } else {
      assert r == es + [Entry(key, value)];
    }
  }

  /** The new form of one listed id. */
  function Moved(m: map<string, string>, v: Value): Value {
    LookupItem(m, RewriteValue(m, v))
  }

  lemma MovedId(cs: seq<Entry>, x: string)
    requires x in Keys(cs)
    ensures Moved(IdMap(cs), Str(x)) == Str(Ren(x))
  {
    RenTwice(x);
  }

  lemma FindRewritten(m: map<string, string>, es: seq<Entry>, key: string)
    ensures Find(RewriteValue(m, Dict(es)).entries, key) ==
      match Find(es, key) case None => None case Some(v) => Some(RewriteValue(m, v))
  {
    var r := RewriteValue(m, Dict(es)).entries;
    assert forall i :: 0 <= i < |es| ==> r[i] == Entry(es[i].key, RewriteValue(m, es[i].value));
    hide RewriteValue, At;
    AtIsFirst(es, key);
    AtIsUnique(r, key, At(es, key));
  }

  /** The ids a component lists under `downstream` or `upstream`. */
  function Links(c: Value, key: string): Option<seq<Value>> {
    if !c.Dict? then None
    else match Find(c.entries, key)
      case Some(List(xs)) => Some(xs)
      case _ => None
  }

  lemma MappedItems(g: Context, xs: seq<Value>)
    ensures Apply(g, MapItems, List(xs)).List? && |Apply(g, MapItems, List(xs)).xs| == |xs|
    ensures forall i :: 0 <= i < |xs| ==> Apply(g, MapItems, List(xs)).xs[i] == LookupItem(g.ids, xs[i])
  {
  }

  lemma ComponentFields()
    ensures COMPONENT.Fields? && |COMPONENT.plan| == 4 && DistinctKeys(COMPONENT.plan)
    ensures COMPONENT.plan[1] == Field("downstream", false, MapItems)
    ensures COMPONENT.plan[2] == Field("upstream", false, MapItems)
    ensures COMPONENT.plan[3] == Field("parent_id", false, MapText)
  {
    ComponentPlan();
  }

  /** A field of a new component is the plan's edit of the rewritten field. */
  lemma FieldOfNew(g: Context, es: seq<Entry>, k: nat)
    requires k < 4
    ensures COMPONENT.Fields? && |COMPONENT.plan| == 4
    ensures NewComponent(g, Dict(es)).Dict?
    ensures var f := COMPONENT.plan[k];
      Find(NewComponent(g, Dict(es)).entries, f.key) ==
        After(g, f, match Find(es, f.key) case None => None case Some(v) => Some(RewriteValue(g.ids, v)))
  {
    hide COMPONENT, Find, ApplyFields, After;
    ComponentFields();
    var rs := RewriteValue(g.ids, Dict(es)).entries;
    FindRewritten(g.ids, es, COMPONENT.plan[k].key);
    PlannedField(g, COMPONENT.plan, rs, k);
  }

  /** Links are mapped one by one, in order. */
  lemma LinksMapPointwise(g: Context, c: Value, key: string)
    requires key == "downstream" || key == "upstream"
    requires Links(c, key).Some?
    ensures var xs := Links(c, key).value;
      && Links(NewComponent(g, c), key).Some?
      && |Links(NewComponent(g, c), key).value| == |xs|
      && forall i :: 0 <= i < |xs| ==> Links(NewComponent(g, c), key).value[i] == Moved(g.ids, xs[i])
  {
    var k := if key == "downstream" then 1 else 2;
    var xs := Links(c, key).value;
    var ys := RewriteValue(g.ids, List(xs)).xs;
    assert forall i :: 0 <= i < |xs| ==> ys[i] == RewriteValue(g.ids, xs[i]);
    FieldOfNew(g, c.entries, k);
    ComponentFields();
    MappedItems(g, ys);
    hide RewriteValue, NewComponent, COMPONENT, Find, LookupItem;
  }

  /** The parent link follows its component. */
  lemma ParentFollows(g: Context, es: seq<Entry>, x: string)
    requires Find(es, "parent_id") == Some(Str(x))
    ensures NewComponent(g, Dict(es)).Dict?
    ensures Find(NewComponent(g, Dict(es)).entries, "parent_id") == Some(Moved(g.ids, Str(x)))
  {
    FieldOfNew(g, es, 3);
    ComponentFields();
    hide RewriteValue, NewComponent, COMPONENT, Find;
  }

  /** In the graph of `d`, does component u list v downstream? */
  predicate Lists(d: Value, u: string, v: string) {
    && d.Dict?
    && match Find(d.entries, "components") {
         case Some(Dict(cs)) =>
           (match Find(cs, u)
            case Some(c) => Links(c, "downstream").Some? && Str(v) in Links(c, "downstream").value
            case None => false)
         case _ => false
       }
  }

  ghost predicate HasComponents(d: Value, cs: seq<Entry>) {
    d.Dict? && Find(d.entries, "components") == Some(Dict(cs))
  }

  lemma ComponentsRebuilt(d: Value, cs: seq<Entry>)
    requires HasComponents(d, cs)
    ensures HasComponents(Normalize(d), Rebuild(ContextOf(cs), cs))
  {
    var g := ContextOf(cs);
    var es := Put(d.entries, "components", Dict(Rebuild(g, cs)));
    FindPut(d.entries, "components", Dict(Rebuild(g, cs)), "components");
    Different();
    hide Find, Put, Rebuild, ApplyFields, DSL, ContextOf;
    UnplannedField(g, DSL, es, "components");
  }

  /** A listed name that belongs to no component and is a component's new id, or its
      legacy id, with references put back; and that component itself is not listed. */
  ghost predicate Stray(cs: seq<Entry>, xs: seq<Value>, x: string, k: string) {
    && Str(x) in xs && x !in Keys(cs) && k in Keys(cs) && Str(k) !in xs
    && (RestoredFrom(cs, Ren(k), x) || RestoredFrom(cs, k, x))
  }

  /** Which names without a component are moved onto a component's new id. */
  lemma MovedOntoIff(cs: seq<Entry>, x: string, k: string)
    requires NoCollision(cs) && x !in Keys(cs) && k in Keys(cs)
    ensures Moved(IdMap(cs), Str(x)) == Str(Ren(k)) <==> RestoredFrom(cs, Ren(k), x) || RestoredFrom(cs, k, x)
  {
    var t := RewriteText(IdMap(cs), x);
    RewritesIntoIff(cs, x, Ren(k));
    RewritesIntoIff(cs, x, k);
    RenTwice(k);
    hide RestoredFrom, RewriteText, NoCollision, Ren;
    if t in Keys(cs) && Ren(t) == Ren(k) {
      SameId(cs, t, k);
    }
  }

  /** With ids that hold no opening brace, only the new id itself is. */
  lemma MovedOntoPlain(cs: seq<Entry>, x: string, k: string)
    requires NoCollision(cs) && x !in Keys(cs) && k in Keys(cs)
    requires forall id, i :: id in Keys(cs) && 0 <= i < |id| ==> id[i] != '{'
    ensures Moved(IdMap(cs), Str(x)) == Str(Ren(k)) <==> x == Ren(k)
  {
    var m := IdMap(cs);
    NewIdHasNoBrace(k);
    assert Sub(m, Ren(k) + "") == Ren(k) + Sub(m, "") by {
      SubCopies(m, Ren(k), "");
    }
    SubOfEmpty(m);
    assert Ren(k) + "" == Ren(k);
    RenTwice(k);
    hide Ren, Sub, NoCollision;
    RemapHarmless(cs, x);
    if Moved(m, Str(x)) == Str(Ren(k)) {
      NoBraceNoChange(m, x);
    }
  }

  lemma NewIdHasNoBrace(k: string)
    requires forall i :: 0 <= i < |k| ==> k[i] != '{'
    ensures forall i :: 0 <= i < |Ren(k)| ==> Ren(k)[i] != '{'
  {
    RenCases(k);
  }

  /** Without collisions, a component lists exactly the new ids of the components it
      listed if and only if its list has no stray name. */
  lemma GraphPreservedIff(d: Value, cs: seq<Entry>, u: string)
    requires HasComponents(d, cs) && NoCollision(cs) && u in Keys(cs)
    ensures (forall v :: v in Keys(cs) ==> (Lists(d, u, v) <==> Lists(Normalize(d), Ren(u), Ren(v)))) <==>
            (forall x, k :: !Stray(cs, Listed(cs, u), x, k))
  {
    hide Ren, Lists, Stray, RestoredFrom, Moved, Listed, Normalize;
    forall v | v in Keys(cs)
      ensures Lists(d, u, v) <==> Str(v) in Listed(cs, u)
      ensures Lists(Normalize(d), Ren(u), Ren(v))
              <==> Str(v) in Listed(cs, u) || exists x :: Stray(cs, Listed(cs, u), x, v)
    {
      ListedAfter(d, cs, u, v);
    }
    forall x, k | Stray(cs, Listed(cs, u), x, k) ensures k in Keys(cs) && Str(k) !in Listed(cs, u) {
      StrayParts(cs, Listed(cs, u), x, k);
    }
    if x, k :| Stray(cs, Listed(cs, u), x, k) {
      assert !(Lists(d, u, k) <==> Lists(Normalize(d), Ren(u), Ren(k)));
    }
  }

  lemma StrayParts(cs: seq<Entry>, xs: seq<Value>, x: string, k: string)
    requires Stray(cs, xs, x, k)
    ensures k in Keys(cs) && Str(k) !in xs && Str(x) in xs && x !in Keys(cs)
  {
  }

  /** What a component lists downstream. */
  function Listed(cs: seq<Entry>, u: string): seq<Value> {
    var c := Find(cs, u);
    if c.Some? && Links(c.value, "downstream").Some? then Links(c.value, "downstream").value else []
  }

  /** The lists of u before and after. */
  lemma ListedAfter(d: Value, cs: seq<Entry>, u: string, v: string)
    requires HasComponents(d, cs) && NoCollision(cs) && u in Keys(cs) && v in Keys(cs)
    ensures Lists(d, u, v) <==> Str(v) in Listed(cs, u)
    ensures Lists(Normalize(d), Ren(u), Ren(v))
            <==> Str(v) in Listed(cs, u) || exists x :: Stray(cs, Listed(cs, u), x, v)
  {
    hide Find, Ren, Rebuild, Normalize, Links, Moved, Stray, NoCollision;
    var g := ContextOf(cs);
    assert g.ids == IdMap(cs);
    ComponentsRebuilt(d, cs);
    var c := Survivor(cs, u);
    if Links(c, "downstream").None? {
      NoLinks(g, c);
      forall x ensures !Stray(cs, Listed(cs, u), x, v) {
        if Stray(cs, Listed(cs, u), x, v) {
          StrayParts(cs, Listed(cs, u), x, v);
        }
      }
    } else {
      LinksMapPointwise(g, c, "downstream");
      var xs, ys := Links(c, "downstream").value, Links(NewComponent(g, c), "downstream").value;
      ListedIff(cs, xs, ys, v);
    }
  }

  lemma Survivor(cs: seq<Entry>, u: string) returns (c: Value)
    requires NoCollision(cs) && u in Keys(cs)
    ensures Find(cs, u) == Some(c)
    ensures Find(Rebuild(ContextOf(cs), cs), Ren(u)) == Some(NewComponent(ContextOf(cs), c))
  {
    hide At, Ren, Rebuild, NewComponent, ContextOf;
    AtIsFirst(cs, u);
    var i := At(cs, u);
    c := cs[i].value;
    OldIdsAreKnown(cs);
    LastOneWins(ContextOf(cs), cs, i);
  }

  lemma NoLinks(g: Context, c: Value)
    requires Links(c, "downstream").None?
    ensures Links(NewComponent(g, c), "downstream").None?
  {
    if c.Dict? {
      FieldOfNew(g, c.entries, 1);
      ComponentFields();
      hide NewComponent, COMPONENT, Find;
    }
  }

  lemma ListedIff(cs: seq<Entry>, xs: seq<Value>, ys: seq<Value>, v: string)
    requires NoCollision(cs) && v in Keys(cs)
    requires |ys| == |xs| && forall i :: 0 <= i < |xs| ==> ys[i] == Moved(IdMap(cs), xs[i])
    ensures Str(Ren(v)) in ys <==> Str(v) in xs || exists x :: Stray(cs, xs, x, v)
  {
    hide Ren, Moved, RestoredFrom, NoCollision;
    if Str(v) in xs {
      var i :| 0 <= i < |xs| && xs[i] == Str(v);
      MovedId(cs, v);
      assert ys[i] == Str(Ren(v));
    } else if Str(Ren(v)) in ys {
      var i :| 0 <= i < |ys| && ys[i] == Str(Ren(v));
      MovedIsText(IdMap(cs), xs[i]);
      var x := xs[i].s;
      if x in Keys(cs) {
        MovedId(cs, x);
        SameId(cs, x, v);
      }
      MovedOntoIff(cs, x, v);
      assert Stray(cs, xs, x, v);
    } else {
      forall x ensures !Stray(cs, xs, x, v) {
        if Str(x) in xs && x !in Keys(cs) {
          var i :| 0 <= i < |xs| && xs[i] == Str(x);
          MovedOntoIff(cs, x, v);
          assert ys[i] != Str(Ren(v));
        }
      }
    }
  }

  lemma MovedIsText(m: map<string, string>, v: Value)
    ensures Moved(m, v).Str? <==> v.Str?
  {
  }

  lemma SameId(cs: seq<Entry>, x: string, y: string)
    requires NoCollision(cs) && x in Keys(cs) && y in Keys(cs) && Ren(x) == Ren(y)
    ensures x == y
  {
    hide Ren;
    var e :| e in cs && e.key == x;
    var f :| f in cs && f.key == y;
    var i :| 0 <= i < |cs| && cs[i] == e;
    var j :| 0 <= j < |cs| && cs[j] == f;
    assert i == j;
  }

  /** The migration preserves the graph: when links name components and no two new ids
      collide, u lists v exactly when new u lists new v. */
  lemma GraphPreserved(d: Value, cs: seq<Entry>, u: string, v: string)
    requires HasComponents(d, cs) && NoCollision(cs) && u in Keys(cs) && v in Keys(cs)
    requires forall x :: Str(x) in Listed(cs, u) ==> x in Keys(cs)
    ensures Lists(d, u, v) <==> Lists(Normalize(d), Ren(u), Ren(v))
  {
    ListedAfter(d, cs, u, v);
    hide Ren, Normalize, Listed, Lists, Stray;
    forall x ensures !Stray(cs, Listed(cs, u), x, v) {
      assert Stray(cs, Listed(cs, u), x, v) ==> x !in Keys(cs) && Str(x) in Listed(cs, u) by {
        if Stray(cs, Listed(cs, u), x, v) { StrayParts(cs, Listed(cs, u), x, v); }
      }
    }
  }

  /** With ids that hold no opening brace: u keeps its graph if and only if it lists no
      new id that dangles while leaving its component out. */
  lemma GraphPreservedPlainIff(d: Value, cs: seq<Entry>, u: string)
    requires HasComponents(d, cs) && NoCollision(cs) && u in Keys(cs)
    requires forall id, i :: id in Keys(cs) && 0 <= i < |id| ==> id[i] != '{'
    ensures (forall v :: v in Keys(cs) ==> (Lists(d, u, v) <==> Lists(Normalize(d), Ren(u), Ren(v)))) <==>
            (forall k :: k in Keys(cs) && Ren(k) !in Keys(cs) && Str(Ren(k)) in Listed(cs, u)
                         ==> Str(k) in Listed(cs, u))
  {
    GraphPreservedIff(d, cs, u);
    hide Ren, Normalize, Listed, Lists, RestoredFrom, NoCollision;
    forall x, k | x !in Keys(cs) && k in Keys(cs)
      ensures RestoredFrom(cs, Ren(k), x) || RestoredFrom(cs, k, x) <==> x == Ren(k)
    {
      MovedOntoIff(cs, x, k);
      MovedOntoPlain(cs, x, k);
    }
    forall k | k in Keys(cs) && Ren(k) !in Keys(cs) && Str(Ren(k)) in Listed(cs, u) && Str(k) !in Listed(cs, u)
      ensures Stray(cs, Listed(cs, u), Ren(k), k)
    {
    }
  }

  const DANGLING: seq<Entry> := [
    Entry("Splitter:a", Null), Entry("B", Dict([Entry("downstream", List([Str("TokenChunker:a")]))]))]

  /** B lists a name that no component has, and after the migration lists a component. */
  lemma DanglingJoins()
    ensures var d := Dict([Entry("components", Dict(DANGLING))]);
      !Lists(d, "B", "Splitter:a") && Lists(Normalize(d), Ren("B"), Ren("Splitter:a"))
  {
    var cs := DANGLING;
    var d := Dict([Entry("components", Dict(cs))]);
    DanglingFacts();
    hide DANGLING, Ren, Normalize, Lists, Moved;
    MovedOntoPlain(cs, "TokenChunker:a", "Splitter:a");
    MovedOntoIff(cs, "TokenChunker:a", "Splitter:a");
    ListedAfter(d, cs, "B", "Splitter:a");
    assert Stray(cs, Listed(cs, "B"), "TokenChunker:a", "Splitter:a");
  }

  lemma DanglingFacts()
    ensures var d := Dict([Entry("components", Dict(DANGLING))]); HasComponents(d, DANGLING)
    ensures Keys(DANGLING) == {"Splitter:a", "B"} && NoCollision(DANGLING)
    ensures forall id, i :: id in Keys(DANGLING) && 0 <= i < |id| ==> id[i] != '{'
    ensures Listed(DANGLING, "B") == [Str("TokenChunker:a")]
    ensures "TokenChunker:a" !in Keys(DANGLING) && Ren("Splitter:a") == "TokenChunker:a"
  {
    var cs := DANGLING;
    var es := [Entry("components", Dict(cs))];
    AtIsUnique(es, "components", 0);
    assert "Splitter:a"[0] == 'S' && "TokenChunker:a"[0] == 'T' && "B"[0] == 'B';
    assert cs[0] in cs && cs[1] in cs;
    LegacyRenamed();
    DanglingListed();
    hide Ren, Listed, Find;
  }

  lemma LegacyRenamed()
    ensures Ren("Splitter:a") == "TokenChunker:a" && Ren("B") == "B" && Ren("TokenChunker:a") == "TokenChunker:a"
  {
    RenCases("Splitter:a");
    RenCases("B");
    RenCases("TokenChunker:a");
    assert "TokenChunker:a"[0] == 'T' && "Splitter:"[0] == 'S';
    assert "HierarchicalMerger:"[0] == 'H' && "PDFGenerator:"[0] == 'P';
    hide Ren;
    assert "Splitter:a"[9..] == "a" && "TokenChunker:" + "a" == "TokenChunker:a";
  }

  lemma DanglingListed()
    ensures Listed(DANGLING, "B") == [Str("TokenChunker:a")]
  {
    var cs := DANGLING;
    assert "Splitter:a"[0] == 'S' && "B"[0] == 'B';
    AtIsUnique(cs, "B", 1);
    AtIsUnique(cs[1].value.entries, "downstream", 0);
  }

  /** Two ids that meet after renaming leave one component. */
  lemma CollisionDrops()
    ensures var cs := [Entry("Splitter:a", Null), Entry("TokenChunker:a", Null)];
      |Rebuild(ContextOf(cs), cs)| < |cs|
  {
    var cs := [Entry("Splitter:a", Null), Entry("TokenChunker:a", Null)];
    OldIdsAreKnown(cs);
    CountKeptIff(ContextOf(cs), cs);
    LegacyRenamed();
    assert Ren(cs[0].key) == Ren(cs[1].key);
    hide Rebuild, ContextOf, Ren;
    assert !NoCollision(cs);
  }

  /** The recorded path is mapped one id at a time. */
  lemma PathMapsPointwise(d: Value, cs: seq<Entry>, xs: seq<Value>)
    requires HasComponents(d, cs) && Find(d.entries, "path") == Some(List(xs))
    ensures Normalize(d).Dict?
    ensures var p := Find(Normalize(d).entries, "path");
      && p.Some? && p.value.List? && |p.value.xs| == |xs|
      && forall i :: 0 <= i < |xs| ==> p.value.xs[i] == LookupItem(IdMap(cs), xs[i])
  {
    var g := ContextOf(cs);
    var es := Put(d.entries, "components", Dict(Rebuild(g, cs)));
    FindPut(d.entries, "components", Dict(Rebuild(g, cs)), "path");
    Different();
    assert DSL[0] == Field("path", false, MapItems);
    assert "path"[0] == 'p' && "components"[0] == 'c';
    hide Find, Put, Rebuild, ApplyFields, DSL, LookupItem;
    PlannedField(g, DSL, es, 0);
    MappedItems(g, xs);
  }

  /** The drawn edges join the new ids of the nodes they joined. */
  lemma EdgeFollows(g: Context, es: seq<Entry>, key: string, x: string)
    requires key == "source" || key == "target"
    requires Find(es, key) == Some(Str(x))
    ensures Apply(g, EDGE, Dict(es)).Dict?
    ensures Find(Apply(g, EDGE, Dict(es)).entries, key) == Some(Str(Lookup(g.ids, x)))
  {
    EdgePlan();
    var k := if key == "source" then 0 else 1;
    assert EDGE.plan[k] == Field(key, false, MapText);
    assert DistinctKeys(EDGE.plan);
    PlannedField(g, EDGE.plan, es, k);
    hide Find, ApplyFields, EDGE;
  }

  // ----- inputs the migration raises on -----

  predicate Unhashable(v: Value) { v.List? || v.Dict? }

  /** No unhashable value is looked up in a rename table. */
  predicate Accepts(e: Edit, v: Value)
    decreases e
  {
    match e
    case RenameOperator => !Unhashable(v)
    case MapItems => v.List? ==> forall i :: 0 <= i < |v.xs| ==> !Unhashable(v.xs[i])
    case Each(item) => v.List? ==> forall i :: 0 <= i < |v.xs| ==> Accepts(item, v.xs[i])
    case Fields(plan) =>
      v.Dict? ==> forall i :: 0 <= i < |plan| && Find(v.entries, plan[i].key).Some? ==>
                                Accepts(plan[i].edit, Find(v.entries, plan[i].key).value)
    case _ => true
  }

  predicate AcceptsAll(m: map<string, string>, cs: seq<Entry>) {
    forall i :: 0 <= i < |cs| ==> Accepts(COMPONENT, RewriteValue(m, cs[i].value))
  }

  /** `normalize_chunker_dsl`; None when it raises TypeError. */
  function Migrate(d: Value): Option<Value> {
    if !d.Dict? then Some(d)
    else match Find(d.entries, "components")
      case Some(Dict(cs)) =>
        if AcceptsAll(IdMap(cs), cs) && Accepts(Fields(DSL), d) then Some(Normalize(d)) else None
      case _ => Some(d)
  }

  lemma {:induction false} AcceptedAgain(g: Context, e: Edit, v: Value)
    requires WellFormed(e) && Accepts(e, v)
    ensures Accepts(e, Apply(g, e, v))
    decreases e
  {
    match e
    case Each(item) =>
      if v.List? {
        var r := Apply(g, e, v);
        forall i | 0 <= i < |r.xs| ensures Accepts(item, r.xs[i]) {
          AcceptedAgain(g, item, v.xs[i]);
        }
      }
    case Fields(plan) =>
      if v.Dict? {
        FieldsAcceptedAgain(g, plan, v.entries);
      }
    case _ =>
  }

  lemma {:induction false} FieldsAcceptedAgain(g: Context, plan: seq<Field>, es: seq<Entry>)
    requires WellFormed(Fields(plan)) && Accepts(Fields(plan), Dict(es))
    ensures Accepts(Fields(plan), Dict(ApplyFields(g, plan, es)))
    decreases plan, 1
  {
    hide Apply, ApplyFields, Find;
    var rs := ApplyFields(g, plan, es);
    forall i | 0 <= i < |plan| && Find(rs, plan[i].key).Some?
      ensures Accepts(plan[i].edit, Find(rs, plan[i].key).value)
    {
      PlannedField(g, plan, es, i);
      var old' := Find(es, plan[i].key);
      if old'.Some? {
        assert Accepts(plan[i].edit, old'.value);
        AcceptedAgain(g, plan[i].edit, old'.value);
      } else {
        AcceptedAgain(g, plan[i].edit, Null);
      }
    }
  }

  lemma {:induction false} RebuildAccepted(g: Context, h: Context, cs: seq<Entry>)
    requires AcceptsAll(g.ids, cs) && Quiet(h)
    ensures AcceptsAll(h.ids, Rebuild(g, cs))
  {
    if cs == [] {
    } else {
      var init, last := cs[..|cs| - 1], cs[|cs| - 1];
      RebuildAccepted(g, h, init);
      ComponentPlan();
      hide COMPONENT, Accepts, Lookup, At;
      assert Accepts(COMPONENT, RewriteValue(g.ids, last.value));
      AcceptedAgain(g, COMPONENT, RewriteValue(g.ids, last.value));
      RewriteByIdentity(h.ids, NewComponent(g, last.value));
      hide NewComponent, RewriteValue;
      assert Accepts(COMPONENT, RewriteValue(h.ids, NewComponent(g, last.value)));
    }
  }

  /** A migrated description is accepted again and stays as it is. */
  lemma MigrateTwice(d: Value, n: Value)
    requires Migrate(d) == Some(n)
    ensures Migrate(n) == Some(n)
  {
    if d.Dict? && Find(d.entries, "components").Some? && Find(d.entries, "components").value.Dict? {
      NormalizeTwice(d);
      var cs := Find(d.entries, "components").value.entries;
      MigratedAccepted(d, cs);
    }
  }

  lemma MigratedAccepted(d: Value, cs: seq<Entry>)
    requires HasComponents(d, cs) && AcceptsAll(IdMap(cs), cs) && Accepts(Fields(DSL), d)
    ensures var r := Rebuild(ContextOf(cs), cs);
      HasComponents(Normalize(d), r) && AcceptsAll(IdMap(r), r) && Accepts(Fields(DSL), Normalize(d))
  {
    var g := ContextOf(cs);
    var r := Rebuild(g, cs);
    ComponentsRebuilt(d, cs);
    OldIdsAreKnown(cs);
    RebuildIsRebuilt(g, cs);
    RebuiltIsQuiet(r);
    RebuildAccepted(g, ContextOf(r), cs);
    PlansWellFormed();
    var es := Put(d.entries, "components", Dict(r));
    Different();
    StillAccepted(d.entries, es, Dict(r));
    AcceptedAgain(g, Fields(DSL), Dict(es));
  }

  lemma StillAccepted(es: seq<Entry>, fs: seq<Entry>, v: Value)
    requires Accepts(Fields(DSL), Dict(es)) && fs == Put(es, "components", v)
    ensures Accepts(Fields(DSL), Dict(fs))
  {
    Different();
    forall i | 0 <= i < |DSL| ensures Find(fs, DSL[i].key) == Find(es, DSL[i].key) {
      FindPut(es, "components", v, DSL[i].key);
    }
    hide DSL, Put, Find;
  }
}
