/** The agent canvas: a path of component ids that is run in batches, pruned and
    grown in place, suspended for user input, and cut back on error. */
module Canvas {
  import opened Text

  datatype Kind =
    | Begin | UserFillUp | Message | Iteration | Loop | IterationItem | LoopItem
    | Categorize | Switch | ExitLoop | Other

  /** A component: the components its inputs refer to, what follows it, its parent
      if it is nested, and the first child if it is a container. */
  datatype Component = Component(
    kind: Kind, refs: seq<string>, downstream: seq<string>, parent: Option<string>, start: string)

  datatype Graph = Graph(components: map<string, Component>, lower: char -> char) {
    predicate Known(id: string) {
      id in components
    }

    function Kind(id: string): Kind
      requires Known(id)
    {
      components[id].kind
    }

    /** `id.lower().find("userfillup") >= 0`. */
    predicate FillUpName(id: string) {
      Occurs("userfillup", MapChars(lower, id))
    }

    /** Nested components name an existing parent, and the entry point is a Begin. */
    predicate WellFormed() {
      && Known("begin") && Kind("begin") == Begin
      && (forall id :: id in components ==>
            && (components[id].parent.Some? ==> Known(components[id].parent.value))
            && (components[id].kind in {IterationItem, LoopItem, ExitLoop} ==> components[id].parent.Some?))
    }
  }

  // ----- pruning a batch -----

  predicate AllKnown(g: Graph, ids: seq<string>) {
    forall i :: 0 <= i < |ids| ==> g.Known(ids[i])
  }

  predicate Always(g: Graph, id: string)
    requires g.Known(id)
  {
    g.Kind(id) in {Begin, UserFillUp}
  }

  predicate RefsIn(refs: seq<string>, ids: seq<string>) {
    forall j :: 0 <= j < |refs| ==> refs[j] in ids
  }

  /** An entry stays when it is an entry point, when every component it refers to
      is already ahead of it, or when the path resumes from a UserFillUp. */
  predicate Keep(g: Graph, ahead: seq<string>, id: string)
    requires g.Known(id)
  {
    || Always(g, id)
    || RefsIn(g.components[id].refs, ahead)
    || g.FillUpName(if ahead != [] then ahead[0] else id)
  }

  /** The path after pruning `pending` behind `ahead`: one greedy pass. */
  function Pruned(g: Graph, ahead: seq<string>, pending: seq<string>): seq<string>
    requires AllKnown(g, pending)
    decreases |pending|
  {
    if pending == [] then ahead
    else if Keep(g, ahead, pending[0]) then Pruned(g, ahead + [pending[0]], pending[1..])
    else Pruned(g, ahead, pending[1..])
  }

  /** The entries of xs whose mark is set, in order. */
  function Marked(xs: seq<string>, marks: seq<bool>): seq<string>
    requires |xs| == |marks|
  {
    if xs == [] then [] else (if marks[0] then [xs[0]] else []) + Marked(xs[1..], marks[1..])
  }

  /** Marks that follow the rule "kept if and only if allowed by the old prefix and
      the entries kept so far". */
  ghost predicate FollowsRule(g: Graph, ahead: seq<string>, pending: seq<string>, marks: seq<bool>)
    requires AllKnown(g, pending) && |marks| == |pending|
  {
    forall i :: 0 <= i < |pending| ==>
      (marks[i] <==> Keep(g, ahead + Marked(pending[..i], marks[..i]), pending[i]))
  }

  /** The greedy pass is the only outcome the rule allows. */
  lemma {:induction false} PrunedIsTheRule(g: Graph, ahead: seq<string>, pending: seq<string>, marks: seq<bool>)
    requires AllKnown(g, pending) && |marks| == |pending|
    requires FollowsRule(g, ahead, pending, marks)
    ensures Pruned(g, ahead, pending) == ahead + Marked(pending, marks)
    decreases |pending|
  {
    hide Keep;
    if pending == [] {
      assert ahead + Marked(pending, marks) == ahead;
    } else {
      assert ahead + Marked(pending[..0], marks[..0]) == ahead;
      var next := if marks[0] then ahead + [pending[0]] else ahead;
      forall i | 0 <= i < |pending[1..]|
        ensures marks[1..][i] <==> Keep(g, next + Marked(pending[1..][..i], marks[1..][..i]), pending[1..][i])
      {
        assert pending[..i + 1][1..] == pending[1..][..i] && marks[..i + 1][1..] == marks[1..][..i];
        assert ahead + Marked(pending[..i + 1], marks[..i + 1]) == next + Marked(pending[1..][..i], marks[1..][..i]);
        assert marks[i + 1] <==> Keep(g, ahead + Marked(pending[..i + 1], marks[..i + 1]), pending[i + 1]);
      }
      PrunedIsTheRule(g, next, pending[1..], marks[1..]);
      hide Pruned;
      assert next + Marked(pending[1..], marks[1..]) == ahead + Marked(pending, marks);
    }
  }

  /** And there is always such an outcome. */
  lemma {:induction false} SomeMarksFollow(g: Graph, ahead: seq<string>, pending: seq<string>)
    returns (marks: seq<bool>)
    requires AllKnown(g, pending)
    ensures |marks| == |pending| && FollowsRule(g, ahead, pending, marks)
    decreases |pending|
  {
    hide Keep;
    if pending == [] {
      marks := [];
    } else {
      var keep := Keep(g, ahead, pending[0]);
      var next := if keep then ahead + [pending[0]] else ahead;
      var rest := SomeMarksFollow(g, next, pending[1..]);
      marks := [keep] + rest;
      forall i | 0 <= i < |pending|
        ensures marks[i] <==> Keep(g, ahead + Marked(pending[..i], marks[..i]), pending[i])
      {
        if i == 0 {
          assert ahead + Marked(pending[..0], marks[..0]) == ahead;
        } else {
          assert pending[..i][1..] == pending[1..][..i - 1] && marks[..i][1..] == rest[..i - 1];
          assert ahead + Marked(pending[..i], marks[..i]) == next + Marked(pending[1..][..i - 1], rest[..i - 1]);
          assert pending[i] == pending[1..][i - 1] && marks[i] == rest[i - 1];
        }
      }
    }
  }

  lemma {:induction false} PrunedKeepsPrefix(g: Graph, ahead: seq<string>, pending: seq<string>)
    requires AllKnown(g, pending)
    ensures ahead <= Pruned(g, ahead, pending) && |Pruned(g, ahead, pending)| <= |ahead| + |pending|
    ensures forall i :: |ahead| <= i < |Pruned(g, ahead, pending)| ==>
              && g.Known(Pruned(g, ahead, pending)[i])
              && Keep(g, Pruned(g, ahead, pending)[..i], Pruned(g, ahead, pending)[i])
    decreases |pending|
  {
    hide Keep;
    if pending == [] {
    } else {
      var next := if Keep(g, ahead, pending[0]) then ahead + [pending[0]] else ahead;
      PrunedKeepsPrefix(g, next, pending[1..]);
      var r := Pruned(g, next, pending[1..]);
      if Keep(g, ahead, pending[0]) {
        assert r[..|ahead|] == ahead && r[|ahead|] == pending[0];
      }
    }
  }

  // ----- after a batch -----

  datatype Event =
    | WorkflowStarted | NodeStarted(id: string) | NodeFinished(id: string)
    | MessageChunk | MessageEnd | UserInputs | WorkflowFinished

  predicate Terminal(e: Event) {
    e.UserInputs? || e.WorkflowFinished?
  }

  /** What running a component produced: its error and handler, its routing
      decision, whether its content is a stream, and which earlier streams have
      been consumed by now. */
  datatype Outcome = Outcome(
    error: string, goto: seq<string>, hasDefault: bool, ended: bool, next: seq<string>,
    streaming: bool, chunks: nat, settled: set<string>)

  datatype Progress = Progress(path: seq<string>, error: string, partials: seq<string>, events: seq<Event>)

  /** `_append_path`: no immediate repetition. */
  function AppendPath(path: seq<string>, id: string): seq<string> {
    if path != [] && path[|path| - 1] == id then path else path + [id]
  }

  function ExtendPath(path: seq<string>, ids: seq<string>): seq<string>
    decreases |ids|
  {
    if ids == [] then path else ExtendPath(AppendPath(path, ids[0]), ids[1..])
  }

  function Chunks(n: nat): seq<Event> {
    seq(n, i => MessageChunk)
  }

  function SettledPrefix(partials: seq<string>, settled: set<string>): nat {
    if partials != [] && partials[0] in settled then 1 + SettledPrefix(partials[1..], settled) else 0
  }

  lemma SettledPrefixBound(partials: seq<string>, settled: set<string>)
    ensures SettledPrefix(partials, settled) <= |partials|
  {
  }

  function FinishedEvents(ids: seq<string>): seq<Event> {
    seq(|ids|, i requires 0 <= i < |ids| => NodeFinished(ids[i]))
  }

  function AfterMessage(p: Progress, c: Component, o: Outcome): Progress {
    if c.kind != Message then p
    else
      SettledPrefixBound(p.partials, o.settled);
      var n := SettledPrefix(p.partials, o.settled);
      p.(events :=
           p.events + Chunks(if o.streaming then o.chunks else 1) + [MessageEnd] + FinishedEvents(p.partials[..n]),
         partials := p.partials[n..])
  }

  function AfterError(p: Progress, o: Outcome): Progress {
    if o.error == "" then p
    else if o.goto != [] then p.(path := p.path + o.goto)
    else if o.hasDefault then p.(events := p.events + [MessageChunk, MessageEnd])
    else p.(error := o.error)
  }

  function AfterFinish(p: Progress, c: Component, id: string, o: Outcome): Progress {
    if c.kind in {Iteration, Loop} then p
    else if o.streaming && c.kind != Message && p.error == "" then p.(partials := p.partials + [id])
    else p.(events := p.events + [NodeFinished(id)])
  }

  function Routed(g: Graph, path: seq<string>, c: Component, o: Outcome): seq<string>
    requires g.WellFormed() && c in g.components.Values
  {
    if c.kind in {IterationItem, LoopItem} && o.ended then ExtendPath(path, g.components[c.parent.value].downstream)
    else if c.kind in {Categorize, Switch} then ExtendPath(path, o.next)
    else if c.kind in {Iteration, Loop} then AppendPath(path, c.start)
    else if c.kind == ExitLoop && g.Kind(c.parent.value) == Loop then
      ExtendPath(path, g.components[c.parent.value].downstream)
    else if c.downstream == [] && c.parent.Some? then AppendPath(path, g.components[c.parent.value].start)
    else ExtendPath(path, c.downstream)
  }

  function AfterRouting(g: Graph, p: Progress, c: Component, o: Outcome): Progress
    requires g.WellFormed() && c in g.components.Values
  {
    var otherBranch := o.error != "" && o.goto != [];
    var closes := c.kind in {IterationItem, LoopItem} && o.ended;
    var q := if closes then p.(events := p.events + [NodeFinished(c.parent.value)]) else p;
    if otherBranch then q else q.(path := Routed(g, q.path, c, o))
  }

  /** Post-processing of one invoked position. */
  function After(g: Graph, p: Progress, id: string, o: Outcome): Progress
    requires g.WellFormed() && g.Known(id)
  {
    var c := g.components[id];
    AfterRouting(g, AfterFinish(AfterError(AfterMessage(p, c, o), o), c, id, o), c, o)
  }

  /** Post-processing of positions i up to `until`. */
  function AfterAll(g: Graph, p: Progress, i: nat, until: nat, oracle: nat -> Outcome): Progress
    requires g.WellFormed() && i <= until <= |p.path| && AllKnown(g, p.path[i..until])
    decreases until - i
  {
    if i == until then p
    else
      assert p.path[i] == p.path[i..until][0];
      var q := After(g, p, p.path[i], oracle(i));
      AfterGrows(g, p, p.path[i], oracle(i));
      assert q.path[i + 1..until] == p.path[i..until][1..];
      AfterAll(g, q, i + 1, until, oracle)
  }

  ghost predicate QuietSuffix(old_: seq<Event>, new_: seq<Event>) {
    old_ <= new_ && forall i :: |old_| <= i < |new_| ==> !Terminal(new_[i])
  }

  lemma {:induction false} ExtendGrows(path: seq<string>, ids: seq<string>)
    ensures path <= ExtendPath(path, ids)
    decreases |ids|
  {
    if ids == [] {
    } else {
      ExtendGrows(AppendPath(path, ids[0]), ids[1..]);
    }
  }

  /** One position only adds to the path and to the events, emits nothing terminal,
      and never clears an error. */
  lemma AfterGrows(g: Graph, p: Progress, id: string, o: Outcome)
    requires g.WellFormed() && g.Known(id)
    ensures p.path <= After(g, p, id, o).path
    ensures QuietSuffix(p.events, After(g, p, id, o).events)
    ensures p.error != "" ==> After(g, p, id, o).error != ""
  {
    hide AfterMessage, AfterError, AfterFinish, AfterRouting, QuietSuffix;
    var c := g.components[id];
    var p1 := AfterMessage(p, c, o);
    var p2 := AfterError(p1, o);
    var p3 := AfterFinish(p2, c, id, o);
    MessageGrows(p, c, o);
    ErrorGrows(p1, c, id, o);
    RoutingGrows(g, p3, c, o);
    QuietTransitive(p.events, p1.events, p3.events);
    QuietTransitive(p.events, p3.events, AfterRouting(g, p3, c, o).events);
  }

  lemma QuietTransitive(a: seq<Event>, b: seq<Event>, c: seq<Event>)
    requires QuietSuffix(a, b) && QuietSuffix(b, c)
    ensures QuietSuffix(a, c)
  {
  }

  lemma MessageGrows(p: Progress, c: Component, o: Outcome)
    ensures var q := AfterMessage(p, c, o);
            q.path == p.path && q.error == p.error && QuietSuffix(p.events, q.events)
  {
    SettledPrefixBound(p.partials, o.settled);
  }

  lemma ErrorGrows(p: Progress, c: Component, id: string, o: Outcome)
    ensures var q := AfterFinish(AfterError(p, o), c, id, o);
            p.path <= q.path && QuietSuffix(p.events, q.events) && (p.error != "" ==> q.error != "")
  {
  }

  lemma RoutingGrows(g: Graph, p: Progress, c: Component, o: Outcome)
    requires g.WellFormed() && c in g.components.Values
    ensures var q := AfterRouting(g, p, c, o);
            p.path <= q.path && q.error == p.error && QuietSuffix(p.events, q.events)
  {
    hide Routed;
    RoutedGrows(g, p.path, c, o);
  }

  lemma RoutedGrows(g: Graph, path: seq<string>, c: Component, o: Outcome)
    requires g.WellFormed() && c in g.components.Values
    ensures path <= Routed(g, path, c, o)
  {
    ExtendGrows(path, c.downstream);
    ExtendGrows(path, o.next);
    if c.parent.Some? {
      ExtendGrows(path, g.components[c.parent.value].downstream);
    }
  }

  lemma {:induction false} AfterAllGrows(g: Graph, p: Progress, i: nat, until: nat, oracle: nat -> Outcome)
    requires g.WellFormed() && i <= until <= |p.path| && AllKnown(g, p.path[i..until])
    ensures p.path <= AfterAll(g, p, i, until, oracle).path
    ensures QuietSuffix(p.events, AfterAll(g, p, i, until, oracle).events)
    ensures p.error != "" ==> AfterAll(g, p, i, until, oracle).error != ""
    decreases until - i
  {
    hide After;
    if i >= until {
    } else {
      assert p.path[i] == p.path[i..until][0];
      var q := After(g, p, p.path[i], oracle(i));
      AfterGrows(g, p, p.path[i], oracle(i));
      assert q.path[i + 1..until] == p.path[i..until][1..];
      AfterAllGrows(g, q, i + 1, until, oracle);
    }
  }
}
