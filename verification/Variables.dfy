/** Nested variables: dotted paths read and written in a heap of dictionaries. */
module Variables {
  import opened Text

  /** What a dictionary holds under a key: some other value, or a reference to a
      further dictionary. */
  datatype Slot<V> = Leaf(v: V) | Dict(ref: nat)

  type Dicts<V> = map<nat, map<string, Slot<V>>>

  /** The dictionaries and the next unused reference. */
  datatype Heap<V> = Heap(dicts: Dicts<V>, next: nat)

  /** Outcome of a read: nothing, a slot, or a walk that goes on inside a value that
      is not a dictionary. */
  datatype Read<V> = Missing | At(slot: Slot<V>) | Inside(v: V, keys: seq<string>)

  /** `get_variable_param_value` below a slot. */
  function Get<V>(dicts: Dicts<V>, slot: Slot<V>, keys: seq<string>): Read<V>
    decreases |keys|
  {
    if keys == [] then At(slot)
    else if slot.Leaf? then Inside(slot.v, keys)
    else if slot.ref in dicts && keys[0] in dicts[slot.ref] then Get(dicts, dicts[slot.ref][keys[0]], keys[1..])
    else Missing
  }

  predicate Descends<V>(dicts: Dicts<V>, cur: nat, key: string)
    requires cur in dicts
  {
    key in dicts[cur] && dicts[cur][key].Dict?
  }

  function Put<V>(dicts: Dicts<V>, cur: nat, key: string, slot: Slot<V>): Dicts<V>
    requires cur in dicts
  {
    dicts[cur := dicts[cur][key := slot]]
  }

  /** Two places hold the same dictionary. */
  ghost predicate SameDict<V>(dicts: Dicts<V>, r: nat, k: string, r': nat, k': string) {
    && r in dicts && k in dicts[r] && dicts[r][k].Dict?
    && r' in dicts && k' in dicts[r'] && dicts[r'][k'] == dicts[r][k]
  }

  /** A heap is a tree when every reference exists, lies one level deeper than the
      dictionary holding it, and is held in one place only. */
  ghost predicate Tree<V(!new)>(h: Heap<V>, depth: map<nat, nat>) {
    && depth.Keys == h.dicts.Keys
    && (forall r :: r in h.dicts ==> r < h.next)
    && (forall r, k :: r in h.dicts && k in h.dicts[r] && h.dicts[r][k].Dict? ==>
          h.dicts[r][k].ref in h.dicts && depth[h.dicts[r][k].ref] == depth[r] + 1)
    && (forall r, k, r', k' :: SameDict(h.dicts, r, k, r', k') ==> r == r' && k == k')
  }

  // ----- the loop, as a function -----

  /** `set_variable_param_value` below a dictionary: descend, creating what is
      missing or not a dictionary, and write the last key. */
  function Set<V(!new)>(h: Heap<V>, cur: nat, keys: seq<string>, value: Slot<V>): Heap<V>
    requires keys != [] && cur in h.dicts && Closed(h)
    decreases |keys|
  {
    if |keys| == 1 then h.(dicts := Put(h.dicts, cur, keys[0], value))
    else if Descends(h.dicts, cur, keys[0]) then Set(h, h.dicts[cur][keys[0]].ref, keys[1..], value)
    else Set(Grow(h, cur, keys[0]), h.next, keys[1..], value)
  }

  function Grow<V>(h: Heap<V>, cur: nat, key: string): Heap<V>
    requires cur in h.dicts
  {
    Heap(Put(h.dicts[h.next := map[]], cur, key, Dict(h.next)), h.next + 1)
  }

  ghost predicate Closed<V(!new)>(h: Heap<V>) {
    && (forall r :: r in h.dicts ==> r < h.next)
    && (forall r, k :: r in h.dicts && k in h.dicts[r] && h.dicts[r][k].Dict? ==> h.dicts[r][k].ref in h.dicts)
  }

  class Store<V(!new)> {
    var heap: Heap<V>

    constructor (heap: Heap<V>)
      ensures this.heap == heap
    {
      this.heap := heap;
    }

    /** One step down, through a new dictionary when there is none to go through. */
    method Descend(cur: nat, key: string) returns (child: nat)
      requires cur in heap.dicts && Closed(heap)
      modifies this
      ensures heap == if Descends(old(heap).dicts, cur, key) then old(heap) else Grow(old(heap), cur, key)
      ensures child in heap.dicts && Closed(heap)
      ensures child == if Descends(old(heap).dicts, cur, key) then old(heap).dicts[cur][key].ref else old(heap).next
    {
      if key !in heap.dicts[cur] || !heap.dicts[cur][key].Dict? {
        var unused := heap.next;
        heap := Heap(Put(heap.dicts[unused := map[]], cur, key, Dict(unused)), unused + 1);
      }
      child := heap.dicts[cur][key].ref;
    }

    /** `set_variable_param_value`: the cursor moves down while the dictionaries it
        passes are changed in place.  The empty path writes nothing. */
    method SetParam(root: nat, path: string, value: Slot<V>) returns (r: Slot<V>)
      requires root in heap.dicts && Closed(heap)
      modifies this
      ensures heap == if path == "" then old(heap) else Set(old(heap), root, SplitDots(path, ""), value)
      ensures r == if path == "" then value else Dict(root)
    {
      if path == "" {
        return value;
      }
      r := Dict(root);
      var keys := SplitDots(path, "");
      var cur, i := root, 0;
      while i < |keys| - 1
        invariant 0 <= i < |keys| && cur in heap.dicts && Closed(heap)
        invariant Set(heap, cur, keys[i..], value) == Set(old(heap), root, keys, value)
      {
        assert keys[i..][0] == keys[i] && keys[i..][1..] == keys[i + 1..];
        cur := Descend(cur, keys[i]);
        i := i + 1;
      }
      assert keys[i..] == [keys[i]];
      heap := heap.(dicts := Put(heap.dicts, cur, keys[i], value));
    }

    /** `get_variable_param_value` as far as dictionaries go: the walk ends at a
        missing key, at a slot, or inside another value. */
    method GetParam(slot: Slot<V>, path: string) returns (r: Read<V>)
      ensures r == if path == "" then At(slot) else Get(heap.dicts, slot, SplitDots(path, ""))
    {
      if path == "" {
        return At(slot);
      }
      var keys := SplitDots(path, "");
      var cur, i := slot, 0;
      assert keys[0..] == keys;
      while i < |keys|
        invariant 0 <= i <= |keys|
        invariant Get(heap.dicts, cur, keys[i..]) == Get(heap.dicts, slot, keys)
      {
        if cur.Leaf? {
          return Inside(cur.v, keys[i..]);
        }
        if cur.ref !in heap.dicts || keys[i] !in heap.dicts[cur.ref] {
          return Missing;
        }
        assert keys[i..][1..] == keys[i + 1..];
        cur := heap.dicts[cur.ref][keys[i]];
        i := i + 1;
      }
      r := At(cur);
    }
  }

  // ----- what a read finds -----

  /** Reading on from where a read of the first keys ended: below a slot; still inside the
      value if that is no dictionary, with the further keys left over; and nowhere if there
      was nothing. */
  lemma {:induction false} GetFurther<V>(dicts: Dicts<V>, slot: Slot<V>, keys: seq<string>, more: seq<string>)
    ensures Get(dicts, slot, keys + more) ==
            match Get(dicts, slot, keys)
            case At(s) => Get(dicts, s, more)
            case Inside(v, left) => Inside(v, left + more)
            case Missing => Missing
    decreases |keys|
  {
    if keys == [] {
      assert keys + more == more;
    } else if slot.Dict? && slot.ref in dicts && keys[0] in dicts[slot.ref] {
      assert (keys + more)[1..] == keys[1..] + more;
      GetFurther(dicts, dicts[slot.ref][keys[0]], keys[1..], more);
    }
  }

  /** One key finds what the dictionary holds under it, nothing in a dictionary without it,
      and only the key itself left over in any other value. */
  lemma GetOne<V>(dicts: Dicts<V>, slot: Slot<V>, key: string)
    ensures slot.Leaf? ==> Get(dicts, slot, [key]) == Inside(slot.v, [key])
    ensures slot.Dict? && slot.ref in dicts && key in dicts[slot.ref] ==>
              Get(dicts, slot, [key]) == At(dicts[slot.ref][key])
    ensures slot.Dict? && (slot.ref !in dicts || key !in dicts[slot.ref]) ==> Get(dicts, slot, [key]) == Missing
  {
    assert [key][1..] == [];
  }

  /** So where a proper part of the path ends at a value that is no dictionary, the read
      stops inside it, with the rest of the path left over. */
  lemma GetStopsAtLeaf<V>(dicts: Dicts<V>, slot: Slot<V>, keys: seq<string>, more: seq<string>, v: V)
    requires more != [] && Get(dicts, slot, keys) == At(Leaf(v))
    ensures Get(dicts, slot, keys + more) == Inside(v, more)
  {
    GetFurther(dicts, slot, keys, more);
  }

  // ----- what a write touches -----

  /** The dictionary reached by following keys through dictionaries only. */
  function Walk<V>(dicts: Dicts<V>, root: nat, keys: seq<string>): Option<nat>
    decreases |keys|
  {
    if root !in dicts then None
    else if keys == [] then Some(root)
    else
      var up := Walk(dicts, root, keys[..|keys| - 1]);
      var key := keys[|keys| - 1];
      if up.Some? && up.value in dicts && Descends(dicts, up.value, key) then Some(dicts[up.value][key].ref) else None
  }

  lemma {:induction false} WalkFromChild<V(!new)>(dicts: Dicts<V>, root: nat, keys: seq<string>)
    requires keys != [] && root in dicts
    ensures Descends(dicts, root, keys[0]) && dicts[root][keys[0]].ref in dicts ==>
              Walk(dicts, root, keys) == Walk(dicts, dicts[root][keys[0]].ref, keys[1..])
    ensures !Descends(dicts, root, keys[0]) ==> Walk(dicts, root, keys).None?
    decreases |keys|
  {
    var init := keys[..|keys| - 1];
    if |keys| == 1 {
      assert init == [] && keys[1..] == [];
    } else {
      WalkFromChild(dicts, root, init);
      assert init[0] == keys[0] && init[1..] == keys[1..][..|keys| - 2];
      assert keys[1..][|keys| - 2] == keys[|keys| - 1];
    }
  }

  /** In a tree a dictionary is reached by one path only. */
  lemma {:induction false} PathsAreUnique<V(!new)>(
      h: Heap<V>, depth: map<nat, nat>, root: nat, a: seq<string>, b: seq<string>)
    requires Tree(h, depth) && root in h.dicts
    requires Walk(h.dicts, root, a).Some? && Walk(h.dicts, root, a) == Walk(h.dicts, root, b)
    ensures a == b
    decreases |a|
  {
    WalkDepth(h, depth, root, a);
    WalkDepth(h, depth, root, b);
    if a == [] {
    } else {
      var a', b' := a[..|a| - 1], b[..|b| - 1];
      var x, y := Walk(h.dicts, root, a').value, Walk(h.dicts, root, b').value;
      WalkDepth(h, depth, root, a');
      WalkDepth(h, depth, root, b');
      assert SameDict(h.dicts, x, a[|a| - 1], y, b[|b| - 1]);
      PathsAreUnique(h, depth, root, a', b');
      assert a == a' + [a[|a| - 1]] && b == b' + [b[|b| - 1]];
    }
  }

  lemma {:induction false} WalkDepth<V(!new)>(h: Heap<V>, depth: map<nat, nat>, root: nat, a: seq<string>)
    requires Tree(h, depth) && root in h.dicts && Walk(h.dicts, root, a).Some?
    ensures Walk(h.dicts, root, a).value in h.dicts
    ensures depth[Walk(h.dicts, root, a).value] == depth[root] + |a|
    decreases |a|
  {
    if a == [] {
    } else {
      WalkDepth(h, depth, root, a[..|a| - 1]);
    }
  }

  /** h' differs from h in one existing dictionary at most, there at one key, and in
      new dictionaries. */
  ghost predicate TouchesOnly<V(!new)>(h: Heap<V>, h': Heap<V>, r: nat, key: string) {
    && h.dicts.Keys <= h'.dicts.Keys
    && (forall x :: x in h.dicts && x != r ==> h'.dicts[x] == h.dicts[x])
    && (r in h.dicts ==> forall k :: k != key ==>
          (k in h'.dicts[r] <==> k in h.dicts[r]) && (k in h.dicts[r] ==> h'.dicts[r][k] == h.dicts[r][k]))
  }

  /** How far the existing dictionaries go along the path. */
  function Existing<V(!new)>(h: Heap<V>, cur: nat, keys: seq<string>): (m: nat)
    requires keys != [] && cur in h.dicts && Closed(h)
    ensures m < |keys|
    decreases |keys|
  {
    if |keys| == 1 || !Descends(h.dicts, cur, keys[0]) then 0
    else 1 + Existing(h, h.dicts[cur][keys[0]].ref, keys[1..])
  }

  lemma {:induction false} ExistingWalk<V(!new)>(h: Heap<V>, cur: nat, keys: seq<string>)
    requires keys != [] && cur in h.dicts && Closed(h)
    ensures var m := Existing(h, cur, keys);
            Walk(h.dicts, cur, keys[..m]).Some? && Walk(h.dicts, cur, keys[..m]).value in h.dicts
    decreases |keys|
  {
    var m := Existing(h, cur, keys);
    if m > 0 {
      ExistingWalk(h, h.dicts[cur][keys[0]].ref, keys[1..]);
      WalkFromChild(h.dicts, cur, keys[..m]);
      assert keys[..m][1..] == keys[1..][..m - 1];
    } else {
      assert keys[..0] == [];
    }
  }

  /** Writing in a new dictionary leaves every old one alone. */
  lemma {:induction false} FreshSet<V(!new)>(h: Heap<V>, cur: nat, keys: seq<string>, value: Slot<V>, old_: Dicts<V>)
    requires keys != [] && cur in h.dicts && Closed(h) && h.dicts[cur] == map[]
    requires cur !in old_ && forall x :: x in old_ ==> x in h.dicts && h.dicts[x] == old_[x]
    ensures forall x :: x in old_ ==>
              x in Set(h, cur, keys, value).dicts && Set(h, cur, keys, value).dicts[x] == old_[x]
    decreases |keys|
  {
    if |keys| == 1 {
    } else {
      FreshSet(Grow(h, cur, keys[0]), h.next, keys[1..], value, old_);
    }
  }

  lemma {:induction false} SetTouches<V(!new)>(h: Heap<V>, cur: nat, keys: seq<string>, value: Slot<V>)
    requires keys != [] && cur in h.dicts && Closed(h)
    ensures var m := Existing(h, cur, keys);
            && Walk(h.dicts, cur, keys[..m]).Some?
            && TouchesOnly(h, Set(h, cur, keys, value), Walk(h.dicts, cur, keys[..m]).value, keys[m])
    decreases |keys|
  {
    ExistingWalk(h, cur, keys);
    var m := Existing(h, cur, keys);
    if m > 0 {
      var c := h.dicts[cur][keys[0]].ref;
      SetTouches(h, c, keys[1..], value);
      WalkFromChild(h.dicts, cur, keys[..m]);
      assert keys[..m][1..] == keys[1..][..m - 1];
    } else {
      assert keys[..0] == [];
      FirstKeyTouched(h, cur, keys, value);
    }
  }

  lemma FirstKeyTouched<V(!new)>(h: Heap<V>, cur: nat, keys: seq<string>, value: Slot<V>)
    requires keys != [] && cur in h.dicts && Closed(h) && Existing(h, cur, keys) == 0
    ensures TouchesOnly(h, Set(h, cur, keys, value), cur, keys[0])
  {
    if |keys| > 1 {
      var g := Grow(h, cur, keys[0]);
      FreshSet(g, h.next, keys[1..], value, g.dicts - {h.next});
    }
  }

  // ----- the laws -----

  /** Reading what was just written gives it back. */
  lemma {:induction false} GetAfterSet<V(!new)>(
      h: Heap<V>, depth: map<nat, nat>, cur: nat, keys: seq<string>, value: Slot<V>)
    requires Tree(h, depth) && cur in h.dicts && keys != []
    ensures Get(Set(h, cur, keys, value).dicts, Dict(cur), keys) == At(value)
    decreases |keys|
  {
    if |keys| == 1 {
      assert keys[1..] == [];
    } else if Descends(h.dicts, cur, keys[0]) {
      var c := h.dicts[cur][keys[0]].ref;
      GetAfterSet(h, depth, c, keys[1..], value);
      SetBelow(h, depth, c, keys[1..], value, cur);
    } else {
      var g := Grow(h, cur, keys[0]);
      GetAfterFresh(g, h.next, keys[1..], value);
      FreshSet(g, h.next, keys[1..], value, g.dicts - {h.next});
    }
  }

  lemma {:induction false} GetAfterFresh<V(!new)>(h: Heap<V>, cur: nat, keys: seq<string>, value: Slot<V>)
    requires keys != [] && cur in h.dicts && Closed(h) && h.dicts[cur] == map[]
    ensures Get(Set(h, cur, keys, value).dicts, Dict(cur), keys) == At(value)
    decreases |keys|
  {
    if |keys| == 1 {
      assert keys[1..] == [];
    } else {
      var g := Grow(h, cur, keys[0]);
      GetAfterFresh(g, h.next, keys[1..], value);
      FreshSet(g, h.next, keys[1..], value, g.dicts - {h.next});
    }
  }

  /** A write below a dictionary leaves everything at or above it alone. */
  lemma SetBelow<V(!new)>(h: Heap<V>, depth: map<nat, nat>, cur: nat, keys: seq<string>, value: Slot<V>, above: nat)
    requires Tree(h, depth) && cur in h.dicts && keys != [] && above in h.dicts && depth[above] < depth[cur]
    ensures above in Set(h, cur, keys, value).dicts && Set(h, cur, keys, value).dicts[above] == h.dicts[above]
  {
    SetTouches(h, cur, keys, value);
    WalkDepth(h, depth, cur, keys[..Existing(h, cur, keys)]);
  }

  /** q parts from p at position i. */
  predicate PartsAt(p: seq<string>, q: seq<string>, i: nat) {
    i < |p| && i < |q| && p[..i] == q[..i] && p[i] != q[i]
  }

  /** Any path that parts from the written one at a point reached through
      dictionaries that already existed reads the same as before. */
  lemma GetUnaffected<V(!new)>(
      h: Heap<V>, depth: map<nat, nat>, root: nat, p: seq<string>, q: seq<string>, i: nat, value: Slot<V>)
    requires Tree(h, depth) && root in h.dicts && PartsAt(p, q, i)
    requires Walk(h.dicts, root, p[..i]).Some?
    ensures Get(Set(h, root, p, value).dicts, Dict(root), q) == Get(h.dicts, Dict(root), q)
  {
    SetTouches(h, root, p, value);
    var m := Existing(h, root, p);
    ExistingReaches(h, root, p, i);
    assert [] + q == q;
    UnaffectedFrom(h, depth, root, p, m, i, [], q, Set(h, root, p, value));
  }

  lemma {:induction false} ExistingReaches<V(!new)>(h: Heap<V>, cur: nat, p: seq<string>, i: nat)
    requires cur in h.dicts && Closed(h) && i < |p| && Walk(h.dicts, cur, p[..i]).Some?
    ensures Existing(h, cur, p) >= i
    decreases |p|
  {
    if i == 0 {
    } else {
      WalkFromChild(h.dicts, cur, p[..i]);
      assert p[..i][1..] == p[1..][..i - 1];
      ExistingReaches(h, h.dicts[cur][p[0]].ref, p[1..], i - 1);
    }
  }

  /** A path that has parted, or will, never takes the one edge that was written. */
  lemma EdgeNotTouched<V(!new)>(h: Heap<V>, depth: map<nat, nat>, root: nat, p: seq<string>, m: nat, i: nat,
                                a: seq<string>, q: seq<string>)
    requires Tree(h, depth) && root in h.dicts && PartsAt(p, a + q, i) && i <= m < |p| && q != []
    requires Walk(h.dicts, root, p[..m]).Some? && Walk(h.dicts, root, a).Some?
    ensures !(Walk(h.dicts, root, a) == Walk(h.dicts, root, p[..m]) && q[0] == p[m])
  {
    hide Walk, Tree;
    assert (a + q)[i] == if i < |a| then a[i] else q[i - |a|];
    if Walk(h.dicts, root, a) == Walk(h.dicts, root, p[..m]) {
      PathsAreUnique(h, depth, root, a, p[..m]);
    }
  }

  lemma {:induction false} UnaffectedFrom<V(!new)>(
      h: Heap<V>, depth: map<nat, nat>, root: nat, p: seq<string>, m: nat, i: nat,
      a: seq<string>, q: seq<string>, h': Heap<V>)
    requires Tree(h, depth) && root in h.dicts && PartsAt(p, a + q, i) && i <= m < |p|
    requires Walk(h.dicts, root, p[..m]).Some? && TouchesOnly(h, h', Walk(h.dicts, root, p[..m]).value, p[m])
    requires Walk(h.dicts, root, a).Some?
    ensures Get(h'.dicts, Dict(Walk(h.dicts, root, a).value), q) == Get(h.dicts, Dict(Walk(h.dicts, root, a).value), q)
    decreases |q|
  {
    WalkDepth(h, depth, root, a);
    if q == [] {
    } else {
      EdgeNotTouched(h, depth, root, p, m, i, a, q);
      hide Tree;
      var cur, key := Walk(h.dicts, root, a).value, q[0];
      assert key in h'.dicts[cur] <==> key in h.dicts[cur];
      if key in h.dicts[cur] {
        assert h'.dicts[cur][key] == h.dicts[cur][key];
        if h.dicts[cur][key].Dict? {
          WalkStep(h.dicts, root, a, key);
          assert a + [key] + q[1..] == a + q;
          UnaffectedFrom(h, depth, root, p, m, i, a + [key], q[1..], h');
        }
      }
    }
  }

  lemma WalkStep<V(!new)>(dicts: Dicts<V>, root: nat, a: seq<string>, key: string)
    requires Walk(dicts, root, a).Some? && Walk(dicts, root, a).value in dicts
    requires Descends(dicts, Walk(dicts, root, a).value, key)
    ensures Walk(dicts, root, a + [key]) == Some(dicts[Walk(dicts, root, a).value][key].ref)
  {
    assert (a + [key])[..|a|] == a;
  }

  predicate ValidSlot<V>(dicts: Dicts<V>, slot: Slot<V>) {
    slot.Dict? ==> slot.ref in dicts
  }

  lemma {:induction false} SetCloses<V(!new)>(h: Heap<V>, cur: nat, keys: seq<string>, value: Slot<V>)
    requires keys != [] && cur in h.dicts && Closed(h) && ValidSlot(h.dicts, value)
    ensures Closed(Set(h, cur, keys, value)) && cur in Set(h, cur, keys, value).dicts
    decreases |keys|
  {
    if |keys| == 1 {
    } else {
      if Descends(h.dicts, cur, keys[0]) {
        SetCloses(h, h.dicts[cur][keys[0]].ref, keys[1..], value);
      } else {
        SetCloses(Grow(h, cur, keys[0]), h.next, keys[1..], value);
      }
      SetTouches(h, cur, keys, value);
    }
  }

  lemma PutTwice<V>(dicts: Dicts<V>, cur: nat, key: string, v: Slot<V>, w: Slot<V>)
    requires cur in dicts
    ensures Put(Put(dicts, cur, key, v), cur, key, w) == Put(dicts, cur, key, w)
  {
    assert dicts[cur][key := v][key := w] == dicts[cur][key := w];
  }

  /** A second write at the same path overrides the first completely. */
  lemma {:induction false} SetTwice<V(!new)>(
      h: Heap<V>, depth: map<nat, nat>, cur: nat, keys: seq<string>, v: Slot<V>, w: Slot<V>)
    requires Tree(h, depth) && cur in h.dicts && keys != [] && ValidSlot(h.dicts, v)
    ensures var h1 := Set(h, cur, keys, v);
            cur in h1.dicts && Closed(h1) && Set(h1, cur, keys, w) == Set(h, cur, keys, w)
    decreases |keys|
  {
    SetCloses(h, cur, keys, v);
    if |keys| == 1 {
      PutTwice(h.dicts, cur, keys[0], v, w);
    } else if Descends(h.dicts, cur, keys[0]) {
      var c := h.dicts[cur][keys[0]].ref;
      SetTwice(h, depth, c, keys[1..], v, w);
      SetBelow(h, depth, c, keys[1..], v, cur);
    } else {
      FreshTwice(h, cur, keys, v, w);
    }
  }

  lemma {:induction false} FreshTwice<V(!new)>(h: Heap<V>, cur: nat, keys: seq<string>, v: Slot<V>, w: Slot<V>)
    requires |keys| > 1 && cur in h.dicts && Closed(h) && !Descends(h.dicts, cur, keys[0]) && ValidSlot(h.dicts, v)
    ensures var h1 := Set(h, cur, keys, v);
            cur in h1.dicts && Closed(h1) && Set(h1, cur, keys, w) == Set(h, cur, keys, w)
    decreases |keys|
  {
    SetCloses(h, cur, keys, v);
    var g := Grow(h, cur, keys[0]);
    SetCloses(g, h.next, keys[1..], v);
    FreshSet(g, h.next, keys[1..], v, g.dicts - {h.next});
    if |keys| > 2 {
      FreshTwice(g, h.next, keys[1..], v, w);
    } else {
      PutTwice(g.dicts, h.next, keys[1], v, w);
    }
  }

  /** The dictionaries of a value: its own one, which nothing holds, and everything below,
      which nothing else holds. */
  ghost predicate IsPart<V(!new)>(h: Heap<V>, w: nat, part: set<nat>) {
    && w in part && part <= h.dicts.Keys
    && forall r: nat, k: string :: r in h.dicts && k in h.dicts[r] && h.dicts[r][k].Dict? ==>
         && h.dicts[r][k].ref != w
         && (h.dicts[r][k].ref in part <==> r in part)
  }

  /** Writing a value keeps the heap a tree, if it is not a dictionary, or one that hangs
      nowhere and does not hold the place it is written to. */
  lemma {:induction false} SetKeepsTree<V(!new)>(
      h: Heap<V>, depth: map<nat, nat>, cur: nat, keys: seq<string>, value: Slot<V>, part: set<nat>)
    returns (depth': map<nat, nat>)
    requires Tree(h, depth) && cur in h.dicts && keys != []
    requires value.Dict? ==> IsPart(h, value.ref, part) && cur !in part
    ensures Tree(Set(h, cur, keys, value), depth') && depth'.Keys >= depth.Keys
    decreases |keys|
  {
    if |keys| == 1 {
      if value.Leaf? {
        depth' := depth;
        PutLeafKeepsTree(h, depth, cur, keys[0], value.v);
      } else {
        depth' := PutPartKeepsTree(h, depth, cur, keys[0], value.ref, part);
      }
    } else if Descends(h.dicts, cur, keys[0]) {
      depth' := SetKeepsTree(h, depth, h.dicts[cur][keys[0]].ref, keys[1..], value, part);
    } else {
      GrowKeepsTree(h, depth, cur, keys[0]);
      if value.Dict? {
        GrowKeepsPart(h, depth, cur, keys[0], value.ref, part);
      }
      hide Tree, IsPart;
      depth' := SetKeepsTree(Grow(h, cur, keys[0]), depth[h.next := depth[cur] + 1], h.next, keys[1..], value, part);
    }
  }

  lemma GrowKeepsPart<V(!new)>(h: Heap<V>, depth: map<nat, nat>, cur: nat, key: string, w: nat, part: set<nat>)
    requires Tree(h, depth) && cur in h.dicts && IsPart(h, w, part) && cur !in part
    ensures IsPart(Grow(h, cur, key), w, part) && h.next !in part
  {
  }

  /** The written part is deepened to its new place. */
  lemma PutPartKeepsTree<V(!new)>(h: Heap<V>, depth: map<nat, nat>, cur: nat, key: string, w: nat, part: set<nat>)
    returns (depth': map<nat, nat>)
    requires Tree(h, depth) && cur in h.dicts && IsPart(h, w, part) && cur !in part
    ensures Tree(h.(dicts := Put(h.dicts, cur, key, Dict(w))), depth') && depth'.Keys == depth.Keys
  {
    depth' := map x | x in depth :: if x in part then depth[x] + depth[cur] + 1 else depth[x] + depth[w];
    var d: Dicts<V> := Put(h.dicts, cur, key, Dict(w));
    forall r: nat, k: string | r in d && k in d[r] && d[r][k].Dict?
      ensures d[r][k].ref in d && depth'[d[r][k].ref] == depth'[r] + 1
    {
      if r == cur && k == key {
        assert d[r][k].ref == w;
      } else {
        assert d[r][k] == h.dicts[r][k];
      }
    }
    forall r, k, r', k' | SameDict(d, r, k, r', k')
      ensures r == r' && k == k'
    {
      if !(r == cur && k == key) && !(r' == cur && k' == key) {
        assert SameDict(h.dicts, r, k, r', k');
      }
    }
  }

  lemma PutLeafKeepsTree<V(!new)>(h: Heap<V>, depth: map<nat, nat>, cur: nat, key: string, v: V)
    requires Tree(h, depth) && cur in h.dicts
    ensures Tree(h.(dicts := Put(h.dicts, cur, key, Leaf(v))), depth)
  {
    var d := Put(h.dicts, cur, key, Leaf(v));
    forall r, k, r', k' | SameDict(d, r, k, r', k')
      ensures r == r' && k == k'
    {
      assert SameDict(h.dicts, r, k, r', k');
    }
  }

  lemma GrowKeepsTree<V(!new)>(h: Heap<V>, depth: map<nat, nat>, cur: nat, key: string)
    requires Tree(h, depth) && cur in h.dicts && !Descends(h.dicts, cur, key)
    ensures Tree(Grow(h, cur, key), depth[h.next := depth[cur] + 1])
  {
    var d := Grow(h, cur, key).dicts;
    forall r, k, r', k' | SameDict(d, r, k, r', k')
      ensures r == r' && k == k'
    {
      if !(r == cur && k == key) && !(r' == cur && k' == key) {
        assert SameDict(h.dicts, r, k, r', k');
      }
    }
  }

  // ----- when a dictionary may be written -----

  ghost predicate Reaches<V(!new)>(dicts: Dicts<V>, w: nat, x: nat) {
    exists p :: Walk(dicts, w, p) == Some(x)
  }

  ghost function Below<V(!new)>(h: Heap<V>, w: nat): set<nat> {
    set x | x in h.dicts && Reaches(h.dicts, w, x)
  }

  lemma BelowStep<V(!new)>(h: Heap<V>, depth: map<nat, nat>, w: nat, r: nat, k: string)
    requires Tree(h, depth) && w in h.dicts && r in h.dicts && Descends(h.dicts, r, k) && h.dicts[r][k].ref != w
    ensures h.dicts[r][k].ref in Below(h, w) <==> r in Below(h, w)
  {
    var c := h.dicts[r][k].ref;
    if p :| r in Below(h, w) && Walk(h.dicts, w, p) == Some(r) {
      assert (p + [k])[..|p + [k]| - 1] == p && (p + [k])[|p|] == k;
      assert Walk(h.dicts, w, p + [k]) == Some(c);
    }
    if q :| c in Below(h, w) && Walk(h.dicts, w, q) == Some(c) {
      var up, k' := q[..|q| - 1], q[|q| - 1];
      var r' := Walk(h.dicts, w, up).value;
      assert SameDict(h.dicts, r, k, r', k');
    }
  }

  /** In the written heap, what lies above the place is not deeper than it. */
  lemma {:induction false} AboveIsHigher<V(!new)>(
      h: Heap<V>, depth: map<nat, nat>, cur: nat, key: string, w: nat, depth': map<nat, nat>,
      start: nat, p: seq<string>)
    requires Tree(h, depth) && cur in h.dicts && start in h.dicts
    requires Tree(h.(dicts := Put(h.dicts, cur, key, Dict(w))), depth')
    requires Walk(h.dicts, start, p) == Some(cur)
    ensures depth'[start] <= depth'[cur]
    decreases |p|
  {
    if p == [] || start == cur {
    } else {
      WalkFromChild(h.dicts, start, p);
      var d: Dicts<V> := Put(h.dicts, cur, key, Dict(w));
      assert d[start] == h.dicts[start];
      AboveIsHigher(h, depth, cur, key, w, depth', h.dicts[start][p[0]].ref, p[1..]);
    }
  }

  lemma PutNeedsPart<V(!new)>(
      h: Heap<V>, depth: map<nat, nat>, cur: nat, key: string, w: nat, depth': map<nat, nat>)
    requires Tree(h, depth) && cur in h.dicts && w in h.dicts
    requires key in h.dicts[cur] ==> h.dicts[cur][key] != Dict(w)
    requires Tree(h.(dicts := Put(h.dicts, cur, key, Dict(w))), depth')
    ensures IsPart(h, w, Below(h, w)) && cur !in Below(h, w)
  {
    var d: Dicts<V> := Put(h.dicts, cur, key, Dict(w));
    assert Walk(h.dicts, w, []) == Some(w);
    assert d[cur][key] == Dict(w);
    forall r: nat, k: string | r in h.dicts && k in h.dicts[r] && h.dicts[r][k].Dict?
      ensures h.dicts[r][k].ref != w && (h.dicts[r][k].ref in Below(h, w) <==> r in Below(h, w))
    {
      if h.dicts[r][k] == Dict(w) {
        assert SameDict(d, r, k, cur, key);
      }
      BelowStep(h, depth, w, r, k);
    }
    if p :| cur in Below(h, w) && Walk(h.dicts, w, p) == Some(cur) {
      AboveIsHigher(h, depth, cur, key, w, depth', w, p);
    }
  }

  ghost predicate Movable<V(!new)>(h: Heap<V>, w: nat, cur: nat) {
    exists part :: IsPart(h, w, part) && cur !in part
  }

  ghost predicate IsTree<V(!new)>(h: Heap<V>) {
    exists depth :: Tree(h, depth)
  }

  lemma PutKeepsTreeIff<V(!new)>(h: Heap<V>, depth: map<nat, nat>, cur: nat, key: string, w: nat)
    requires Tree(h, depth) && cur in h.dicts && w in h.dicts
    ensures IsTree(h.(dicts := Put(h.dicts, cur, key, Dict(w)))) <==>
            Get(h.dicts, Dict(cur), [key]) == At(Dict(w)) || Movable(h, w, cur)
  {
    var h' := h.(dicts := Put(h.dicts, cur, key, Dict(w)));
    assert [key][1..] == [];
    hide Tree, IsPart;
    if key in h.dicts[cur] && h.dicts[cur][key] == Dict(w) {
      assert h.dicts[cur][key := Dict(w)] == h.dicts[cur];
      assert h'.dicts == h.dicts;
      assert Tree(h', depth);
    } else {
      if depth' :| Tree(h', depth') {
        PutNeedsPart(h, depth, cur, key, w, depth');
      }
      if part :| IsPart(h, w, part) && cur !in part {
        var depth' := PutPartKeepsTree(h, depth, cur, key, w, part);
      }
    }
  }

  lemma GrowMovable<V(!new)>(h: Heap<V>, depth: map<nat, nat>, cur: nat, key: string, w: nat)
    requires Tree(h, depth) && cur in h.dicts && w in h.dicts && !Descends(h.dicts, cur, key)
    ensures Movable(Grow(h, cur, key), w, h.next) <==> Movable(h, w, cur)
  {
    var g := Grow(h, cur, key);
    if part :| IsPart(h, w, part) && cur !in part {
      GrowKeepsPart(h, depth, cur, key, w, part);
    }
    if part :| IsPart(g, w, part) && h.next !in part {
      assert g.dicts[cur][key] == Dict(h.next);
      forall r: nat, k: string | r in h.dicts && k in h.dicts[r] && h.dicts[r][k].Dict?
        ensures h.dicts[r][k].ref != w && (h.dicts[r][k].ref in part <==> r in part)
      {
        assert g.dicts[r][k] == h.dicts[r][k];
      }
      assert IsPart(h, w, part);
    }
  }

  /** Writing a dictionary keeps the heap a tree if and only if it already stands there, or
      hangs nowhere and does not hold the place it is written to. */
  lemma {:induction false} SetKeepsTreeIff<V(!new)>(
      h: Heap<V>, depth: map<nat, nat>, cur: nat, keys: seq<string>, w: nat)
    requires Tree(h, depth) && cur in h.dicts && keys != [] && w in h.dicts
    ensures IsTree(Set(h, cur, keys, Dict(w))) <==>
            Get(h.dicts, Dict(cur), keys) == At(Dict(w)) || Movable(h, w, cur)
    decreases |keys|
  {
    if |keys| == 1 {
      assert keys == [keys[0]];
      PutKeepsTreeIff(h, depth, cur, keys[0], w);
    } else if Descends(h.dicts, cur, keys[0]) {
      var child := h.dicts[cur][keys[0]].ref;
      SetKeepsTreeIff(h, depth, child, keys[1..], w);
      assert Movable(h, w, cur) <==> Movable(h, w, child) by {
        if part :| IsPart(h, w, part) && cur !in part {
          assert child !in part;
        }
        if part :| IsPart(h, w, part) && child !in part {
          assert cur !in part;
        }
      }
    } else {
      GrowKeepsTree(h, depth, cur, keys[0]);
      GrowMovable(h, depth, cur, keys[0], w);
      SetKeepsTreeIff(Grow(h, cur, keys[0]), depth[h.next := depth[cur] + 1], h.next, keys[1..], w);
    }
  }
}
