/** What running one position of the path adds to the path and tells the client. */
module CanvasRouting {
  import opened Canvas

  // ----- what is appended -----

  /** The id at j directly repeats the one before it, or the end of the path. */
  predicate Repeats(path: seq<string>, ids: seq<string>, j: nat)
    requires j < |ids|
  {
    if j > 0 then ids[j] == ids[j - 1] else path != [] && ids[0] == path[|path| - 1]
  }

  /** The first n ids in their order, each unless it would directly repeat the one before
      it. */
  function Kept(path: seq<string>, ids: seq<string>, n: nat): seq<string>
    requires n <= |ids|
  {
    if n == 0 then [] else Kept(path, ids, n - 1) + if Repeats(path, ids, n - 1) then [] else [ids[n - 1]]
  }

  /** Behind the old path stand the ids so kept. */
  predicate Queued(path: seq<string>, ids: seq<string>, after: seq<string>) {
    after == path + Kept(path, ids, |ids|)
  }

  lemma {:induction false} ExtendOne(path: seq<string>, ids: seq<string>, id: string)
    ensures ExtendPath(path, ids + [id]) == AppendPath(ExtendPath(path, ids), id)
    ensures ids != [] ==> var r := ExtendPath(path, ids); r != [] && r[|r| - 1] == ids[|ids| - 1]
    decreases |ids|
  {
    if ids == [] {
      assert [] + [id] == [id] && [id][1..] == [];
    } else {
      assert (ids + [id])[1..] == ids[1..] + [id];
      ExtendOne(AppendPath(path, ids[0]), ids[1..], id);
    }
  }

  lemma {:induction false} ExtendKeeps(path: seq<string>, ids: seq<string>, n: nat)
    requires n <= |ids|
    ensures ExtendPath(path, ids[..n]) == path + Kept(path, ids, n)
  {
    if n == 0 {
    } else {
      ExtendKeeps(path, ids, n - 1);
      ExtendOne(path, ids[..n - 1], ids[n - 1]);
      assert ids[..n] == ids[..n - 1] + [ids[n - 1]];
    }
  }

  lemma Extended(path: seq<string>, ids: seq<string>)
    ensures Queued(path, ids, ExtendPath(path, ids))
  {
    ExtendKeeps(path, ids, |ids|);
    assert ids[..|ids|] == ids;
  }

  lemma Appended(path: seq<string>, id: string)
    ensures Queued(path, [id], AppendPath(path, id))
  {
    Extended(path, [id]);
    assert ExtendPath(path, [id]) == ExtendPath(AppendPath(path, id), [id][1..]);
  }

  /** The component goes on to what follows it: it decides nothing and ends nothing. */
  predicate GoesOn(g: Graph, c: Component, o: Outcome)
    requires g.WellFormed() && c in g.components.Values
  {
    match c.kind
    case Categorize => false
    case Switch => false
    case Iteration => false
    case Loop => false
    case IterationItem => !o.ended
    case LoopItem => !o.ended
    case ExitLoop => g.Kind(c.parent.value) != Loop
    case _ => true
  }

  /** What one position adds to the path.  An error with a `goto` adds its targets as they
      are, and nothing else.  Otherwise: a branching component adds the branches it chose,
      a container its first child, an item that has ended and a loop exit what follows the
      container, a child that nothing follows the first child again, and any other component
      what follows it. */
  lemma NextInPath(g: Graph, p: Progress, id: string, o: Outcome)
    requires g.WellFormed() && g.Known(id)
    ensures var c, path := g.components[id], After(g, p, id, o).path;
      if o.error != "" && o.goto != [] then path == p.path + o.goto
      else
        && (c.kind in {Categorize, Switch} ==> Queued(p.path, o.next, path))
        && (c.kind in {Iteration, Loop} ==> Queued(p.path, [c.start], path))
        && (c.kind in {IterationItem, LoopItem} && o.ended ==>
              Queued(p.path, g.components[c.parent.value].downstream, path))
        && (c.kind == ExitLoop && g.Kind(c.parent.value) == Loop ==>
              Queued(p.path, g.components[c.parent.value].downstream, path))
        && (GoesOn(g, c, o) && (c.downstream != [] || c.parent.None?) ==> Queued(p.path, c.downstream, path))
        && (GoesOn(g, c, o) && c.downstream == [] && c.parent.Some? ==>
              Queued(p.path, [g.components[c.parent.value].start], path))
  {
    var c := g.components[id];
    MessageGrows(p, c, o);
    var p3 := AfterFinish(AfterError(AfterMessage(p, c, o), o), c, id, o);
    hide AfterMessage;
    if o.error != "" && o.goto != [] {
    } else {
      assert p3.path == p.path;
      hide AfterError, AfterFinish, Queued, ExtendPath, AppendPath;
      RoutedIs(g, p.path, c, o);
    }
  }

  lemma RoutedIs(g: Graph, path: seq<string>, c: Component, o: Outcome)
    requires g.WellFormed() && c in g.components.Values
    ensures var r := Routed(g, path, c, o);
      && (c.kind in {Categorize, Switch} ==> Queued(path, o.next, r))
      && (c.kind in {Iteration, Loop} ==> Queued(path, [c.start], r))
      && (c.kind in {IterationItem, LoopItem} && o.ended ==>
            Queued(path, g.components[c.parent.value].downstream, r))
      && (c.kind == ExitLoop && g.Kind(c.parent.value) == Loop ==>
            Queued(path, g.components[c.parent.value].downstream, r))
      && (GoesOn(g, c, o) && (c.downstream != [] || c.parent.None?) ==> Queued(path, c.downstream, r))
      && (GoesOn(g, c, o) && c.downstream == [] && c.parent.Some? ==>
            Queued(path, [g.components[c.parent.value].start], r))
  {
    hide Queued, ExtendPath, AppendPath;
    Extended(path, o.next);
    Extended(path, c.downstream);
    Appended(path, c.start);
    if c.parent.Some? {
      Extended(path, g.components[c.parent.value].downstream);
      Appended(path, g.components[c.parent.value].start);
    }
  }

  // ----- what the client is told -----

  /** The components reported as finished. */
  function FinishedIds(events: seq<Event>): multiset<string> {
    if events == [] then multiset{}
    else
      (if events[0].NodeFinished? then multiset{events[0].id} else multiset{}) + FinishedIds(events[1..])
  }

  lemma {:induction false} FinishedConcat(a: seq<Event>, b: seq<Event>)
    ensures FinishedIds(a + b) == FinishedIds(a) + FinishedIds(b)
  {
    if a == [] {
      assert a + b == b;
    } else {
      assert (a + b)[1..] == a[1..] + b;
      FinishedConcat(a[1..], b);
    }
  }

  lemma {:induction false} NoneFinished(events: seq<Event>)
    requires forall i :: 0 <= i < |events| ==> !events[i].NodeFinished?
    ensures FinishedIds(events) == multiset{}
  {
    if events == [] {
    } else {
      NoneFinished(events[1..]);
    }
  }

  lemma {:induction false} AllFinished(ids: seq<string>)
    ensures FinishedIds(FinishedEvents(ids)) == multiset(ids)
  {
    if ids == [] {
    } else {
      assert FinishedEvents(ids)[1..] == FinishedEvents(ids[1..]);
      AllFinished(ids[1..]);
      assert ids == [ids[0]] + ids[1..];
    }
  }

  /** What has been reported, with the streams that are still open. */
  function Accounted(p: Progress): multiset<string> {
    FinishedIds(p.events) + multiset(p.partials)
  }

  lemma MessageAccounts(p: Progress, c: Component, o: Outcome)
    ensures Accounted(AfterMessage(p, c, o)) == Accounted(p)
  {
    if c.kind == Message {
      SettledPrefixBound(p.partials, o.settled);
      var n := SettledPrefix(p.partials, o.settled);
      var chunks := Chunks(if o.streaming then o.chunks else 1);
      assert AfterMessage(p, c, o).partials == p.partials[n..];
      assert AfterMessage(p, c, o).events == p.events + (chunks + [MessageEnd]) + FinishedEvents(p.partials[..n]);
      hide AfterMessage, SettledPrefix;
      assert forall i :: 0 <= i < |chunks + [MessageEnd]| ==> !(chunks + [MessageEnd])[i].NodeFinished?;
      hide Chunks;
      StreamsFinished(p.events, chunks + [MessageEnd], p.partials, n);
    }
  }

  lemma StreamsFinished(events: seq<Event>, sent: seq<Event>, partials: seq<string>, n: nat)
    requires n <= |partials| && forall i :: 0 <= i < |sent| ==> !sent[i].NodeFinished?
    ensures FinishedIds(events + sent + FinishedEvents(partials[..n])) + multiset(partials[n..]) ==
            FinishedIds(events) + multiset(partials)
  {
    NoneFinished(sent);
    AllFinished(partials[..n]);
    FinishedConcat(events + sent, FinishedEvents(partials[..n]));
    FinishedConcat(events, sent);
    hide FinishedIds, FinishedEvents;
    assert partials == partials[..n] + partials[n..];
  }

  lemma ErrorAccounts(p: Progress, o: Outcome)
    ensures Accounted(AfterError(p, o)) == Accounted(p)
  {
    FinishedConcat(p.events, [MessageChunk, MessageEnd]);
    NoneFinished([MessageChunk, MessageEnd]);
  }

  lemma FinishAccounts(p: Progress, c: Component, id: string, o: Outcome)
    ensures Accounted(AfterFinish(p, c, id, o)) ==
            Accounted(p) + if c.kind in {Iteration, Loop} then multiset{} else multiset{id}
  {
    OneFinished(p.events, id);
    hide FinishedIds;
  }

  lemma OneFinished(events: seq<Event>, id: string)
    ensures FinishedIds(events + [NodeFinished(id)]) == FinishedIds(events) + multiset{id}
  {
    FinishedConcat(events, [NodeFinished(id)]);
    assert [NodeFinished(id)][1..] == [];
  }

  lemma RoutingAccounts(g: Graph, p: Progress, c: Component, o: Outcome)
    requires g.WellFormed() && c in g.components.Values
    ensures Accounted(AfterRouting(g, p, c, o)) ==
            Accounted(p) +
            if c.kind in {IterationItem, LoopItem} && o.ended then multiset{c.parent.value} else multiset{}
  {
    if c.kind in {IterationItem, LoopItem} {
      OneFinished(p.events, c.parent.value);
    }
    hide Routed, FinishedIds, Graph.WellFormed;
  }

  /** Whose end one position brings about: its own component's, unless that is a container,
      and its container's if it is an item that has ended. */
  function Ended(g: Graph, id: string, o: Outcome): multiset<string>
    requires g.WellFormed() && g.Known(id)
  {
    var c := g.components[id];
    (if c.kind in {Iteration, Loop} then multiset{} else multiset{id}) +
    (if c.kind in {IterationItem, LoopItem} && o.ended then multiset{c.parent.value} else multiset{})
  }

  /** Every end is accounted for once: reported, or still open as a stream. */
  lemma EndsAccounted(g: Graph, p: Progress, id: string, o: Outcome)
    requires g.WellFormed() && g.Known(id)
    ensures Accounted(After(g, p, id, o)) == Accounted(p) + Ended(g, id, o)
  {
    var c := g.components[id];
    var p1 := AfterMessage(p, c, o);
    var p2 := AfterError(p1, o);
    var p3 := AfterFinish(p2, c, id, o);
    MessageAccounts(p, c, o);
    ErrorAccounts(p1, o);
    FinishAccounts(p2, c, id, o);
    RoutingAccounts(g, p3, c, o);
    hide AfterMessage, AfterError, AfterFinish, AfterRouting, Accounted;
  }

  function EndedAll(g: Graph, ids: seq<string>, i: nat, oracle: nat -> Outcome): multiset<string>
    requires g.WellFormed() && AllKnown(g, ids)
    decreases |ids|
  {
    if ids == [] then multiset{}
    else
      assert AllKnown(g, ids[1..]);
      Ended(g, ids[0], oracle(i)) + EndedAll(g, ids[1..], i + 1, oracle)
  }

  /** So it is for a whole batch. */
  lemma {:induction false} BatchAccounted(g: Graph, p: Progress, i: nat, until: nat, oracle: nat -> Outcome)
    requires g.WellFormed() && i <= until <= |p.path| && AllKnown(g, p.path[i..until])
    ensures Accounted(AfterAll(g, p, i, until, oracle)) ==
            Accounted(p) + EndedAll(g, p.path[i..until], i, oracle)
    decreases until - i
  {
    hide After, Accounted, Ended;
    if i == until {
    } else {
      assert p.path[i] == p.path[i..until][0];
      var q := After(g, p, p.path[i], oracle(i));
      AfterGrows(g, p, p.path[i], oracle(i));
      assert q.path[i + 1..until] == p.path[i..until][1..];
      EndsAccounted(g, p, p.path[i], oracle(i));
      BatchAccounted(g, q, i + 1, until, oracle);
    }
  }

  /** Which streams are still open: in their order, without the leading ones that have been
      read by the time a message is sent, and with the component itself if its content is
      a stream that nobody reads here and there was no error. */
  lemma OpenStreams(g: Graph, p: Progress, id: string, o: Outcome) returns (n: nat)
    requires g.WellFormed() && g.Known(id)
    ensures var c, q := g.components[id], After(g, p, id, o);
      && n <= |p.partials|
      && q.partials == p.partials[n..] +
           (if o.streaming && c.kind !in {Message, Iteration, Loop} && q.error == "" then [id] else [])
      && (forall i :: 0 <= i < n ==> p.partials[i] in o.settled)
      && (if c.kind == Message then n < |p.partials| ==> p.partials[n] !in o.settled else n == 0)
  {
    var c := g.components[id];
    n := if c.kind == Message then SettledPrefix(p.partials, o.settled) else 0;
    SettledIs(p.partials, o.settled);
    hide Routed;
  }

  lemma {:induction false} SettledIs(partials: seq<string>, settled: set<string>)
    ensures var n := SettledPrefix(partials, settled);
      && n <= |partials| && (forall i :: 0 <= i < n ==> partials[i] in settled)
      && (n < |partials| ==> partials[n] !in settled)
  {
    if partials == [] || partials[0] !in settled {
    } else {
      SettledIs(partials[1..], settled);
      var n := SettledPrefix(partials[1..], settled);
      assert forall i :: 1 <= i < n + 1 ==> partials[i] == partials[1..][i - 1];
    }
  }

  /** The run fails with the error of a component that neither says where to go nor has a
      default; a default is sent as a message instead. */
  lemma ErrorsKept(g: Graph, p: Progress, id: string, o: Outcome)
    requires g.WellFormed() && g.Known(id)
    ensures After(g, p, id, o).error == if o.error != "" && o.goto == [] && !o.hasDefault then o.error else p.error
    ensures Sent(After(g, p, id, o).events, MessageEnd) == Sent(p.events, MessageEnd) +
            (if g.Kind(id) == Message then 1 else 0) +
            (if o.error != "" && o.goto == [] && o.hasDefault then 1 else 0)
    ensures Sent(After(g, p, id, o).events, MessageChunk) == Sent(p.events, MessageChunk) +
            (if g.Kind(id) != Message then 0 else if o.streaming then o.chunks else 1) +
            (if o.error != "" && o.goto == [] && o.hasDefault then 1 else 0)
  {
    var c := g.components[id];
    var p1 := AfterMessage(p, c, o);
    var p2 := AfterError(p1, o);
    var p3 := AfterFinish(p2, c, id, o);
    MessageSends(p, c, o, MessageEnd);
    MessageSends(p, c, o, MessageChunk);
    DefaultSent(p1, o);
    hide AfterMessage, AfterError;
    assert Sent(p3.events, MessageEnd) == Sent(p2.events, MessageEnd);
    assert Sent(p3.events, MessageChunk) == Sent(p2.events, MessageChunk);
    hide AfterFinish;
    RoutingSends(g, p3, c, o);
    hide AfterRouting;
  }

  lemma DefaultSent(p: Progress, o: Outcome)
    ensures var q, n := AfterError(p, o), if o.error != "" && o.goto == [] && o.hasDefault then 1 else 0;
      && Sent(q.events, MessageEnd) == Sent(p.events, MessageEnd) + n
      && Sent(q.events, MessageChunk) == Sent(p.events, MessageChunk) + n
      && q.error == if o.error != "" && o.goto == [] && !o.hasDefault then o.error else p.error
  {
  }

  lemma RoutingSends(g: Graph, p: Progress, c: Component, o: Outcome)
    requires g.WellFormed() && c in g.components.Values
    ensures var q := AfterRouting(g, p, c, o);
      && q.error == p.error && Sent(q.events, MessageEnd) == Sent(p.events, MessageEnd)
      && Sent(q.events, MessageChunk) == Sent(p.events, MessageChunk)
  {
    hide Routed;
  }

  function Sent(events: seq<Event>, e: Event): nat {
    multiset(events)[e]
  }

  lemma MessageSends(p: Progress, c: Component, o: Outcome, e: Event)
    requires e == MessageEnd || e == MessageChunk
    ensures Sent(AfterMessage(p, c, o).events, e) == Sent(p.events, e) +
            if c.kind != Message then 0 else if e == MessageEnd then 1 else if o.streaming then o.chunks else 1
  {
    SettledPrefixBound(p.partials, o.settled);
    var n := SettledPrefix(p.partials, o.settled);
    var k := if o.streaming then o.chunks else 1;
    SentSame(Chunks(k), MessageChunk, e);
    var done := FinishedEvents(p.partials[..n]);
    assert forall i :: 0 <= i < |done| ==> done[i].NodeFinished?;
    NotSent(done, e);
  }

  lemma {:induction false} SentSame(events: seq<Event>, x: Event, e: Event)
    requires forall i :: 0 <= i < |events| ==> events[i] == x
    ensures Sent(events, e) == if e == x then |events| else 0
  {
    if events == [] {
    } else {
      SentSame(events[1..], x, e);
      assert events == [events[0]] + events[1..];
    }
  }

  lemma {:induction false} NotSent(events: seq<Event>, e: Event)
    requires forall i :: 0 <= i < |events| ==> events[i] != e
    ensures Sent(events, e) == 0
  {
    if events == [] {
    } else {
      NotSent(events[1..], e);
      assert events == [events[0]] + events[1..];
    }
  }
}
