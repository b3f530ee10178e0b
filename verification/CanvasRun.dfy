/** Whole runs of the canvas: the main loop as a step function, the in-place
    implementation that follows it, and what holds in every run. */
module CanvasRun {
  import opened Text
  import opened Canvas

  datatype Status = Running | Finished | Failed | Suspended | Crashed

  datatype State = State(
    path: seq<string>, idx: nat, error: string, partials: seq<string>, events: seq<Event>,
    invoked: seq<string>, status: Status)

  /** What one pass of the loop meets: the outcome at every position, and whether a
      pending UserFillUp still lacks inputs. */
  datatype Input = Input(oracle: nat -> Outcome, unsatisfied: bool)

  function StartedEvents(g: Graph, ids: seq<string>): seq<Event> {
    if ids == [] || !g.Known(ids[0]) then [] else [NodeStarted(ids[0])] + StartedEvents(g, ids[1..])
  }

  predicate IsFillUp(g: Graph, id: string) {
    g.Known(id) && g.Kind(id) == UserFillUp
  }

  predicate HasFillUp(g: Graph, ids: seq<string>) {
    exists i :: 0 <= i < |ids| && IsFillUp(g, ids[i])
  }

  /** The known entries that are, or are not, UserFillUp, in order. */
  function Select(g: Graph, ids: seq<string>, fillUp: bool): seq<string> {
    if ids == [] then []
    else (if g.Known(ids[0]) && IsFillUp(g, ids[0]) == fillUp then [ids[0]] else []) + Select(g, ids[1..], fillUp)
  }

  function SuspendedPath(g: Graph, pending: seq<string>): seq<string> {
    Select(g, pending, true) + Select(g, pending, false)
  }

  predicate Canceled(error: string) {
    Occurs("Task has been canceled", error)
  }

  /** The path after the batch of one pass has been pruned. */
  function Batch(g: Graph, s: State): (r: seq<string>)
    requires s.idx <= |s.path| && AllKnown(g, s.path[s.idx..])
    ensures s.idx <= |r| && r[..s.idx] == s.path[..s.idx] && AllKnown(g, r[s.idx..|r|])
  {
    PrunedKeepsPrefix(g, s.path[..s.idx], s.path[s.idx..]);
    var r := Pruned(g, s.path[..s.idx], s.path[s.idx..]);
    assert AllKnown(g, r[s.idx..|r|]) by {
      hide Keep, Pruned;
      assert forall i :: 0 <= i < |r| - s.idx ==> r[s.idx..|r|][i] == r[s.idx + i];
    }
    r
  }

  function Announced(g: Graph, s: State): seq<Event>
    requires s.idx <= |s.path|
  {
    s.events + StartedEvents(g, s.path[s.idx..])
  }

  /** Path, error and events after the post-processing of one pass. */
  function Processed(g: Graph, s: State, input: Input): (p: Progress)
    requires g.WellFormed() && s.idx <= |s.path| && AllKnown(g, s.path[s.idx..])
    ensures Batch(g, s) <= p.path && QuietSuffix(Announced(g, s), p.events)
  {
    var batch := Batch(g, s);
    AfterAllGrows(g, Progress(batch, "", s.partials, Announced(g, s)), s.idx, |batch|, input.oracle);
    AfterAll(g, Progress(batch, "", s.partials, Announced(g, s)), s.idx, |batch|, input.oracle)
  }

  /** One pass of `while idx < len(self.path)`, or what follows the loop. */
  function Step(g: Graph, s: State, input: Input): (r: State)
    requires g.WellFormed() && s.idx <= |s.path|
    ensures r.idx <= |r.path|
  {
    if s.status != Running then s
    else if s.idx == |s.path| then s.(status := Finished, events := s.events + [WorkflowFinished])
    else if !AllKnown(g, s.path[s.idx..]) then s.(status := Crashed, events := Announced(g, s))
    else
      var batch, p := Batch(g, s), Processed(g, s, input);
      var invoked, pending := s.invoked + batch[s.idx..], p.path[|batch|..];
      if p.error != "" then
        State(p.path[..s.idx], s.idx, p.error, p.partials,
              p.events + (if Canceled(p.error) then [WorkflowFinished] else []), invoked, Failed)
      else if HasFillUp(g, pending) && input.unsatisfied then
        State(SuspendedPath(g, pending), 0, "", p.partials, p.events + [UserInputs], invoked, Suspended)
      else State(p.path, |batch|, "", p.partials, p.events, invoked, Running)
  }

  function Run(g: Graph, s: State, inputs: seq<Input>): State
    requires g.WellFormed() && s.idx <= |s.path|
    decreases |inputs|
  {
    if inputs == [] then s
    else
      Run(g, Step(g, s, inputs[0]), inputs[1..])
  }

  // ----- the implementation -----

  /** The runner's mutable state. */
  class Runner {
    const g: Graph
    var path: seq<string>
    var idx: nat
    var error: string
    var partials: seq<string>
    var events: seq<Event>
    var invoked: seq<string>
    var status: Status

    constructor (g: Graph, saved: seq<string>)
      requires g.WellFormed()
      ensures this.g == g && Abs() == Start(g, saved)
    {
      this.g := g;
      var resume := saved != [] && g.FillUpName(saved[0]);
      path := if resume then saved else saved + ["begin"];
      idx := if resume then 0 else |saved|;
      error, partials, invoked := "", [], [];
      events := if resume then [] else [WorkflowStarted];
      status := Running;
    }

    ghost function Abs(): State
      reads this
    {
      State(path, idx, error, partials, events, invoked, status)
    }

    /** The scan over the inputs of the entry at i, up to the first reference that
        is not ahead of it. */
    method CanRun(i: nat) returns (run: bool)
      requires i < |path| && g.Known(path[i])
      ensures run <==> Keep(g, path[..i], path[i])
    {
      hide Graph.FillUpName;
      var c := g.components[path[i]];
      run := true;
      if c.kind !in {Begin, UserFillUp} {
        var j := 0;
        while j < |c.refs| && run
          invariant 0 <= j <= |c.refs|
          invariant run <==> g.FillUpName(path[0]) || forall k :: 0 <= k < j ==> c.refs[k] in path[..i]
          decreases |c.refs| - j
        {
          if c.refs[j] !in path[..i] && !g.FillUpName(path[0]) {
            run := false;
          }
          j := j + 1;
        }
      }
      assert i > 0 ==> path[..i][0] == path[0];
    }

    /** `_run_batch`: entries that cannot run yet are popped while scanning. */
    method RunBatch()
      requires idx <= |path| && AllKnown(g, path[idx..])
      modifies this`path, this`invoked
      ensures path == Pruned(g, old(path)[..idx], old(path)[idx..])
      ensures idx <= |path| && invoked == old(invoked) + path[idx..]
    {
      var i, t := idx, |path|;
      ghost var before := path;
      while i < t
        invariant idx <= i <= t == |path|
        invariant path[..idx] == before[..idx]
        invariant AllKnown(g, path[i..])
        invariant Pruned(g, path[..i], path[i..]) == Pruned(g, before[..idx], before[idx..])
        invariant invoked == old(invoked) + path[idx..i]
        decreases t - i
      {
        assert path[i] == path[i..][0];
        var run := CanRun(i);
        hide Keep;
        if run {
          assert path[..i + 1] == path[..i] + [path[i]] && path[i + 1..] == path[i..][1..];
          assert path[idx..i + 1] == path[idx..i] + [path[i]];
          invoked := invoked + [path[i]];
          i := i + 1;
        } else {
          ghost var was := path;
          path := path[..i] + path[i + 1..];
          assert path[..i] == was[..i] && path[i..] == was[i..][1..];
          assert path[idx..i] == was[idx..i];
          t := t - 1;
        }
      }
      assert path[i..] == [] && path[..i] == path;
    }

    /** The post-processing loop over the batch; the path may grow behind it. */
    method PostProcess(oracle: nat -> Outcome)
      requires g.WellFormed() && idx <= |path| && AllKnown(g, path[idx..|path|])
      modifies this`path, this`error, this`partials, this`events
      ensures Progress(path, error, partials, events) ==
              AfterAll(g, Progress(old(path), old(error), old(partials), old(events)), idx, |old(path)|, oracle)
    {
      hide After;
      var until := |path|;
      ghost var goal := AfterAll(g, Progress(path, error, partials, events), idx, until, oracle);
      var i := idx;
      while i < until
        invariant idx <= i <= until <= |path| && AllKnown(g, path[i..until])
        invariant AfterAll(g, Progress(path, error, partials, events), i, until, oracle) == goal
      {
        assert path[i] == path[i..until][0];
        var p := Progress(path, error, partials, events);
        var q := After(g, p, path[i], oracle(i));
        AfterGrows(g, p, path[i], oracle(i));
        assert q.path[i + 1..until] == p.path[i..until][1..];
        path, error, partials, events := q.path, q.error, q.partials, q.events;
        i := i + 1;
      }
    }

    /** One pass of the main loop, or its end. */
    method Iterate(input: Input)
      requires g.WellFormed() && idx <= |path| && status == Running && error == ""
      modifies this
      ensures Abs() == Step(g, old(Abs()), input)
    {
      hide Pruned, AfterAll, After, Canceled, Select;
      ghost var s := Abs();
      if idx == |path| {
        status := Finished;
        events := events + [WorkflowFinished];
        return;
      }
      events := events + StartedEvents(g, path[idx..]);
      if !AllKnown(g, path[idx..]) {
        status := Crashed;
        return;
      }
      RunBatch();
      assert path == Batch(g, s);
      var until := |path|;
      PostProcess(input.oracle);
      assert Progress(path, error, partials, events) == Processed(g, s, input);
      if error != "" {
        path := path[..idx];
        status := Failed;
        events := events + (if Canceled(error) then [WorkflowFinished] else []);
        return;
      }
      if HasFillUp(g, path[until..]) && input.unsatisfied {
        path := SuspendedPath(g, path[until..]);
        idx := 0;
        events := events + [UserInputs];
        status := Suspended;
      } else {
        idx := until;
      }
    }
  }

  /** How a run begins: a path that starts at a UserFillUp is resumed as it is, any
      other one continues with the entry point. */
  function Start(g: Graph, saved: seq<string>): State {
    if saved != [] && g.FillUpName(saved[0]) then State(saved, 0, "", [], [], [], Running)
    else State(saved + ["begin"], |saved|, "", [], [WorkflowStarted], [], Running)
  }

  // ----- one pass -----

  /** A pass never touches the committed part of the path.  An error leaves exactly
      that part, normal completion drops nothing, and a suspension leaves the known
      pending entries. */
  lemma StepPath(g: Graph, s: State, input: Input)
    requires g.WellFormed() && s.idx <= |s.path| && s.status == Running
    ensures var r := Step(g, s, input);
            match r.status
            case Running => s.idx <= r.idx <= |r.path| && r.path[..s.idx] == s.path[..s.idx]
            case Finished => r.path == s.path && s.idx == |s.path|
            case Failed => r.path == s.path[..s.idx] && r.error != ""
            case Crashed => r.path == s.path && !AllKnown(g, s.path[s.idx..])
            case Suspended =>
              && s.idx < |s.path| && AllKnown(g, s.path[s.idx..])
              && var grown, until := Processed(g, s, input).path, |Batch(g, s)|;
                 && s.idx <= until <= |grown| && grown[..s.idx] == s.path[..s.idx]
                 && HasFillUp(g, grown[until..]) && r.path == SuspendedPath(g, grown[until..])
  {
    hide Canceled, SuspendedPath, HasFillUp, StartedEvents, QuietSuffix;
    if s.idx < |s.path| && AllKnown(g, s.path[s.idx..]) {
      var batch, p := Batch(g, s), Processed(g, s, input);
      assert p.path[..s.idx] == batch[..s.idx] == s.path[..s.idx];
      var pending := p.path[|batch|..];
    }
  }

  // ----- suspension is a stable partition -----

  predicate Wanted(g: Graph, id: string, fillUp: bool) {
    g.Known(id) && IsFillUp(g, id) == fillUp
  }

  lemma {:induction false} SelectCounts(g: Graph, ids: seq<string>, b: bool, id: string)
    ensures multiset(Select(g, ids, b))[id] == if Wanted(g, id, b) then multiset(ids)[id] else 0
  {
    if ids == [] {
    } else {
      SelectCounts(g, ids[1..], b, id);
      assert ids == [ids[0]] + ids[1..];
      assert Select(g, ids, b) == (if Wanted(g, ids[0], b) then [ids[0]] else []) + Select(g, ids[1..], b);
      hide Select, Wanted;
      assert multiset(ids)[id] == multiset([ids[0]])[id] + multiset(ids[1..])[id];
    }
  }

  lemma SelectKinds(g: Graph, ids: seq<string>, b: bool)
    ensures forall i :: 0 <= i < |Select(g, ids, b)| ==> Wanted(g, Select(g, ids, b)[i], b)
  {
    forall i | 0 <= i < |Select(g, ids, b)|
      ensures Wanted(g, Select(g, ids, b)[i], b)
    {
      SelectCounts(g, ids, b, Select(g, ids, b)[i]);
      assert Select(g, ids, b)[i] in multiset(Select(g, ids, b));
    }
  }

  /** xs is obtained from ys by leaving entries out. */
  ghost predicate SubSequence(xs: seq<string>, ys: seq<string>) {
    xs == [] || (ys != [] && ((xs[0] == ys[0] && SubSequence(xs[1..], ys[1..])) || SubSequence(xs, ys[1..])))
  }

  lemma {:induction false} SelectInOrder(g: Graph, ids: seq<string>, b: bool)
    ensures SubSequence(Select(g, ids, b), ids)
  {
    if ids == [] {
    } else {
      SelectInOrder(g, ids[1..], b);
      if g.Known(ids[0]) && IsFillUp(g, ids[0]) == b {
        assert Select(g, ids, b)[1..] == Select(g, ids[1..], b);
      } else {
        assert Select(g, ids, b) == Select(g, ids[1..], b);
      }
    }
  }

  /** The suspended path holds exactly the known pending entries, the UserFillUps
      first, both groups in their old order. */
  lemma SuspensionIsStablePartition(g: Graph, pending: seq<string>)
    requires HasFillUp(g, pending)
    ensures var p := SuspendedPath(g, pending); var n := |Select(g, pending, true)|;
            && (forall id :: multiset(p)[id] == if g.Known(id) then multiset(pending)[id] else 0)
            && 0 < n <= |p|
            && (forall i :: 0 <= i < n ==> IsFillUp(g, p[i]))
            && (forall i :: n <= i < |p| ==> !IsFillUp(g, p[i]))
            && SubSequence(p[..n], pending) && SubSequence(p[n..], pending)
  {
    hide Select, SubSequence, IsFillUp;
    var a, b := Select(g, pending, true), Select(g, pending, false);
    SelectInOrder(g, pending, true);
    SelectInOrder(g, pending, false);
    SelectKinds(g, pending, true);
    SelectKinds(g, pending, false);
    var p := a + b;
    assert p[..|a|] == a && p[|a|..] == b;
    forall id
      ensures multiset(p)[id] == if g.Known(id) then multiset(pending)[id] else 0
    {
      SelectCounts(g, pending, true, id);
      SelectCounts(g, pending, false, id);
      assert multiset(p) == multiset(a) + multiset(b);
    }
    FillUpSelected(g, pending);
    forall i | 0 <= i < |p|
      ensures IsFillUp(g, p[i]) == (i < |a|)
    {
      if i < |a| {
        assert Wanted(g, a[i], true);
      } else {
        assert Wanted(g, b[i - |a|], false);
      }
    }
  }

  /** A later run resumes the suspended path, instead of starting over behind it, if and
      only if the id of the first pending UserFillUp says so: its kind does not count. */
  lemma ResumedIff(g: Graph, pending: seq<string>, i: nat)
    requires i < |pending| && IsFillUp(g, pending[i]) && forall j :: 0 <= j < i ==> !IsFillUp(g, pending[j])
    ensures var p := SuspendedPath(g, pending);
            && p != [] && p[0] == pending[i]
            && (Start(g, p).path == p <==> g.FillUpName(pending[i]))
            && (!g.FillUpName(pending[i]) ==> Start(g, p).path == p + ["begin"] && Start(g, p).idx == |p|)
  {
    FirstSelected(g, pending, i);
    var p := SuspendedPath(g, pending);
    assert |p + ["begin"]| == |p| + 1;
    hide Graph.FillUpName, Select, IsFillUp;
  }

  lemma {:induction false} FirstSelected(g: Graph, ids: seq<string>, i: nat)
    requires i < |ids| && IsFillUp(g, ids[i]) && forall j :: 0 <= j < i ==> !IsFillUp(g, ids[j])
    ensures Select(g, ids, true) != [] && Select(g, ids, true)[0] == ids[i]
  {
    if i == 0 {
    } else {
      FirstSelected(g, ids[1..], i - 1);
    }
  }

  lemma FillUpSelected(g: Graph, pending: seq<string>)
    requires HasFillUp(g, pending)
    ensures Select(g, pending, true) != []
  {
    var i :| 0 <= i < |pending| && IsFillUp(g, pending[i]);
    SelectCounts(g, pending, true, pending[i]);
    assert pending[i] in multiset(pending);
  }

  // ----- events -----

  /** A terminal event can only be the last one, and only once the run is over. */
  ghost predicate EndsOnce(s: State) {
    forall i :: 0 <= i < |s.events| && Terminal(s.events[i]) ==> i == |s.events| - 1 && s.status != Running
  }

  lemma {:induction false} StartedQuiet(g: Graph, ids: seq<string>)
    ensures forall i :: 0 <= i < |StartedEvents(g, ids)| ==> !Terminal(StartedEvents(g, ids)[i])
  {
    if ids == [] || !g.Known(ids[0]) {
    } else {
      StartedQuiet(g, ids[1..]);
    }
  }

  lemma StepEndsOnce(g: Graph, s: State, input: Input)
    requires g.WellFormed() && s.idx <= |s.path| && EndsOnce(s)
    ensures EndsOnce(Step(g, s, input))
  {
    hide Canceled, SuspendedPath, HasFillUp, StartedEvents;
    if s.status == Running && s.idx < |s.path| {
      StartedQuiet(g, s.path[s.idx..]);
      assert forall i :: 0 <= i < |Announced(g, s)| ==> !Terminal(Announced(g, s)[i]);
      if AllKnown(g, s.path[s.idx..]) {
        QuietStays(Announced(g, s), Processed(g, s, input).events);
      }
    }
  }

  lemma QuietStays(a: seq<Event>, b: seq<Event>)
    requires QuietSuffix(a, b) && forall i :: 0 <= i < |a| ==> !Terminal(a[i])
    ensures forall i :: 0 <= i < |b| ==> !Terminal(b[i])
  {
    forall i | 0 <= i < |b|
      ensures !Terminal(b[i])
    {
      if i < |a| {
        assert b[i] == a[i];
      }
    }
  }

  /** In every run at most one of `workflow_finished` and `user_inputs` is emitted,
      and nothing after it. */
  lemma {:induction false} RunEndsOnce(g: Graph, s: State, inputs: seq<Input>)
    requires g.WellFormed() && s.idx <= |s.path| && EndsOnce(s)
    ensures EndsOnce(Run(g, s, inputs))
    decreases |inputs|
  {
    hide EndsOnce, Step;
    if inputs == [] {
    } else {
      StepEndsOnce(g, s, inputs[0]);
      RunEndsOnce(g, Step(g, s, inputs[0]), inputs[1..]);
    }
  }

  // ----- references come first -----

  /** Every component invoked after `prefix` found its references ahead of it. */
  ghost predicate Ordered(g: Graph, prefix: seq<string>, invoked: seq<string>) {
    forall i :: 0 <= i < |invoked| ==>
      g.Known(invoked[i]) && (Always(g, invoked[i]) || RefsIn(g.components[invoked[i]].refs, prefix + invoked[..i]))
  }

  /** The run's log against its path: while running, the committed path is the old
      prefix followed by everything invoked, once each and in order; so it is at the end,
      and on an error what had been committed before is left. */
  ghost predicate Committed(prefix: seq<string>, s: State) {
    && (s.status == Running ==> s.idx <= |s.path| && s.path[..s.idx] == prefix + s.invoked)
    && (s.status == Finished ==> s.path == prefix + s.invoked)
    && (s.status == Failed ==> s.path <= prefix + s.invoked)
  }

  lemma Continued(prefix: seq<string>, invoked: seq<string>, batch: seq<string>, i: nat)
    requires i <= |batch| && batch[..i] == prefix + invoked
    ensures prefix + (invoked + batch[i..]) == batch
  {
    assert batch == batch[..i] + batch[i..];
  }

  lemma BatchCommitted(g: Graph, prefix: seq<string>, s: State, input: Input)
    requires g.WellFormed() && s.status == Running && s.idx < |s.path| && AllKnown(g, s.path[s.idx..])
    requires Committed(prefix, s)
    ensures Committed(prefix, Step(g, s, input))
  {
    var batch := Batch(g, s);
    assert batch[..s.idx] == s.path[..s.idx];
    hide Step, Batch, AllKnown, Processed, SuspendedPath, HasFillUp, Graph.WellFormed, Pruned;
    StepInvoked(g, s, input);
    StepPath(g, s, input);
    Continued(prefix, s.invoked, batch, s.idx);
  }

  lemma StepCommitted(g: Graph, prefix: seq<string>, s: State, input: Input)
    requires g.WellFormed() && s.idx <= |s.path| && Committed(prefix, s)
    ensures Committed(prefix, Step(g, s, input))
  {
    if s.status == Running && s.idx < |s.path| && AllKnown(g, s.path[s.idx..]) {
      BatchCommitted(g, prefix, s, input);
    } else if s.status == Running && s.idx == |s.path| {
      assert s.path[..s.idx] == s.path;
    }
  }

  lemma {:induction false} RunCommitted(g: Graph, prefix: seq<string>, s: State, inputs: seq<Input>)
    requires g.WellFormed() && s.idx <= |s.path| && Committed(prefix, s)
    ensures Committed(prefix, Run(g, s, inputs))
    decreases |inputs|
  {
    hide Committed, Step;
    if inputs == [] {
    } else {
      StepCommitted(g, prefix, s, inputs[0]);
      RunCommitted(g, prefix, Step(g, s, inputs[0]), inputs[1..]);
    }
  }

  /** In every run, resumed or not: what has been invoked is the committed part of the
      path, after the saved part that is not run again. */
  lemma EveryRunCommits(g: Graph, saved: seq<string>, inputs: seq<Input>)
    requires g.WellFormed()
    ensures var resumed := saved != [] && g.FillUpName(saved[0]);
      Committed(if resumed then [] else saved, Run(g, Start(g, saved), inputs))
  {
    var resumed := saved != [] && g.FillUpName(saved[0]);
    var s, prefix := Start(g, saved), if resumed then [] else saved;
    assert s.path[..s.idx] == prefix + [];
    RunCommitted(g, prefix, s, inputs);
  }

  /** In a run that is not resumed, moreover, every reference came first. */
  ghost predicate Logged(g: Graph, prefix: seq<string>, s: State) {
    && Ordered(g, prefix, s.invoked)
    && (s.status == Running ==> s.idx <= |s.path| && s.path[..s.idx] == prefix + s.invoked)
    && (s.status == Finished ==> s.path == prefix + s.invoked)
    && (s.status == Running && s.idx == 0 ==> s.path == ["begin"])
    && (prefix + s.invoked != [] ==> !g.FillUpName((prefix + s.invoked)[0]))
  }

  lemma BeginIsNoFillUp(g: Graph)
    ensures !g.FillUpName("begin")
  {
  }

  lemma BatchOrdered(g: Graph, ahead: seq<string>, pending: seq<string>)
    requires AllKnown(g, pending)
    requires ahead != [] ==> !g.FillUpName(ahead[0])
    requires ahead == [] ==> pending == ["begin"] && g.WellFormed()
    ensures var r := Pruned(g, ahead, pending);
            && ahead <= r && (r != [] ==> !g.FillUpName(r[0]))
            && forall i :: |ahead| <= i < |r| ==>
                 g.Known(r[i]) && (Always(g, r[i]) || RefsIn(g.components[r[i]].refs, r[..i]))
  {
    PrunedKeepsPrefix(g, ahead, pending);
    var r := Pruned(g, ahead, pending);
    if ahead == [] {
      BeginIsNoFillUp(g);
      BeginStays(g);
    } else {
      assert r[0] == ahead[0];
      forall i | |ahead| <= i < |r|
        ensures g.Known(r[i]) && (Always(g, r[i]) || RefsIn(g.components[r[i]].refs, r[..i]))
      {
        assert r[..i][0] == ahead[0];
        assert Keep(g, r[..i], r[i]);
      }
    }
  }

  lemma OrderedExtends(g: Graph, prefix: seq<string>, xs: seq<string>, ys: seq<string>)
    requires Ordered(g, prefix, xs)
    requires var r := prefix + xs + ys;
             forall i :: |prefix + xs| <= i < |r| ==>
               g.Known(r[i]) && (Always(g, r[i]) || RefsIn(g.components[r[i]].refs, r[..i]))
    ensures Ordered(g, prefix, xs + ys)
  {
    hide RefsIn;
    var r, zs := prefix + xs + ys, xs + ys;
    forall i | 0 <= i < |zs|
      ensures g.Known(zs[i]) && (Always(g, zs[i]) || RefsIn(g.components[zs[i]].refs, prefix + zs[..i]))
    {
      if i < |xs| {
        assert zs[i] == xs[i] && zs[..i] == xs[..i];
      } else {
        var k := |prefix| + i;
        assert r[k] == zs[i] && r[..k] == prefix + zs[..i];
      }
    }
  }

  lemma StepInvoked(g: Graph, s: State, input: Input)
    requires g.WellFormed() && s.idx <= |s.path| && s.status == Running
    requires s.idx < |s.path| && AllKnown(g, s.path[s.idx..])
    ensures var batch, r := Batch(g, s), Step(g, s, input);
            && batch == Pruned(g, s.path[..s.idx], s.path[s.idx..])
            && r.invoked == s.invoked + batch[s.idx..]
            && r.status in {Running, Failed, Suspended}
            && (r.status == Running ==> r.idx == |batch| <= |r.path| && r.path[..r.idx] == batch)
  {
    hide Pruned, Canceled, SuspendedPath, HasFillUp, StartedEvents, QuietSuffix;
  }

  lemma StepLogged(g: Graph, prefix: seq<string>, s: State, input: Input)
    requires g.WellFormed() && s.idx <= |s.path| && Logged(g, prefix, s)
    ensures Logged(g, prefix, Step(g, s, input))
  {
    hide Ordered, Pruned, RefsIn, AllKnown, Graph.FillUpName;
    if s.status == Running && s.idx < |s.path| && AllKnown(g, s.path[s.idx..]) {
      var batch, r := Batch(g, s), Step(g, s, input);
      StepInvoked(g, s, input);
      assert s.idx == 0 ==> s.path[s.idx..] == s.path;
      BatchOrdered(g, s.path[..s.idx], s.path[s.idx..]);
      hide Step, Batch;
      if s.idx == 0 {
        BeginStays(g);
        assert s.path[..0] == [];
      }
      LogExtends(g, prefix, s, batch, r);
    } else if s.status == Running && s.idx == |s.path| {
      assert s.path[..s.idx] == s.path;
    }
  }

  lemma LogExtends(g: Graph, prefix: seq<string>, s: State, batch: seq<string>, r: State)
    requires Ordered(g, prefix, s.invoked) && s.idx <= |batch|
    requires s.idx <= |s.path| && s.path[..s.idx] == batch[..s.idx] == prefix + s.invoked
    requires batch != [] && !g.FillUpName(batch[0])
    requires forall i :: s.idx <= i < |batch| ==>
               g.Known(batch[i]) && (Always(g, batch[i]) || RefsIn(g.components[batch[i]].refs, batch[..i]))
    requires r.invoked == s.invoked + batch[s.idx..] && r.status in {Running, Failed, Suspended}
    requires r.status == Running ==> r.idx == |batch| <= |r.path| && r.path[..r.idx] == batch
    ensures Logged(g, prefix, r)
  {
    hide Ordered, RefsIn, Graph.FillUpName;
    assert batch == batch[..s.idx] + batch[s.idx..];
    assert prefix + r.invoked == prefix + s.invoked + batch[s.idx..] == batch;
    OrderedExtends(g, prefix, s.invoked, batch[s.idx..]);
  }

  lemma BeginStays(g: Graph)
    requires g.WellFormed()
    ensures AllKnown(g, ["begin"]) && Pruned(g, [], ["begin"]) == ["begin"]
  {
    assert ["begin"][0] == "begin" && ["begin"][1..] == [] && [] + ["begin"] == ["begin"];
    assert Always(g, "begin");
  }

  lemma {:induction false} RunLogged(g: Graph, prefix: seq<string>, s: State, inputs: seq<Input>)
    requires g.WellFormed() && s.idx <= |s.path| && Logged(g, prefix, s)
    ensures Logged(g, prefix, Run(g, s, inputs))
    decreases |inputs|
  {
    hide Logged, Step;
    if inputs == [] {
    } else {
      StepLogged(g, prefix, s, inputs[0]);
      RunLogged(g, prefix, Step(g, s, inputs[0]), inputs[1..]);
    }
  }

  /** In every run that is not resumed from a UserFillUp, at every moment: each
      invoked component's references occur strictly earlier, in the saved path or
      among the components invoked before it; and while the run goes on, as after it
      finishes, the committed path is the saved path followed by exactly the invoked
      components, each once and in order. */
  lemma FreshRunsAreOrdered(g: Graph, saved: seq<string>, inputs: seq<Input>)
    requires g.WellFormed() && (saved == [] || !g.FillUpName(saved[0]))
    ensures var s := Run(g, Start(g, saved), inputs);
            && Ordered(g, saved, s.invoked)
            && (s.status == Running ==> s.idx <= |s.path| && s.path[..s.idx] == saved + s.invoked)
            && (s.status == Finished ==> s.path == saved + s.invoked)
            && EndsOnce(s)
  {
    var s := Start(g, saved);
    assert s.path[..s.idx] == saved + [];
    assert saved + [] == saved;
    RunLogged(g, saved, s, inputs);
    RunEndsOnce(g, s, inputs);
  }

  // ----- references within one batch -----

  /** Nothing the entry refers to is still to be run. */
  predicate Ready(g: Graph, ahead: seq<string>, id: string)
    requires g.Known(id)
  {
    Always(g, id) || RefsIn(g.components[id].refs, ahead)
  }

  function ReadyOnes(g: Graph, ahead: seq<string>, ids: seq<string>): seq<string>
    requires AllKnown(g, ids)
  {
    if ids == [] then []
    else
      var n := |ids| - 1;
      ReadyOnes(g, ahead, ids[..n]) + (if Ready(g, ahead, ids[n]) then [ids[n]] else [])
  }

  /** The j-th pending entry is not ready, but waits only for ready entries before it. */
  predicate WaitsForBatch(g: Graph, ahead: seq<string>, pending: seq<string>, j: nat)
    requires AllKnown(g, pending) && j < |pending|
  {
    && !Ready(g, ahead, pending[j])
    && RefsIn(g.components[pending[j]].refs, ahead + ReadyOnes(g, ahead, pending[..j]))
  }

  lemma RefsWiden(refs: seq<string>, a: seq<string>, b: seq<string>)
    requires RefsIn(refs, a) && forall x :: x in a ==> x in b
    ensures RefsIn(refs, b)
  {
  }

  lemma {:induction false} ReadyOnesAreReady(g: Graph, ahead: seq<string>, ids: seq<string>)
    requires AllKnown(g, ids)
    ensures forall x :: x in ReadyOnes(g, ahead, ids) ==> g.Known(x) && Ready(g, ahead, x)
  {
    hide Ready;
    if ids == [] {
    } else {
      var n := |ids| - 1;
      ReadyOnesAreReady(g, ahead, ids[..n]);
      assert g.Known(ids[n]);
    }
  }

  /** If no entry waits for its batch, pruning keeps the ready entries and no others. */
  lemma {:induction false} NoneWaits(g: Graph, ahead: seq<string>, pending: seq<string>, j: nat)
    requires AllKnown(g, pending) && j <= |pending|
    requires ahead != [] && !g.FillUpName(ahead[0])
    requires forall i :: 0 <= i < |pending| ==> !WaitsForBatch(g, ahead, pending, i)
    ensures Pruned(g, ahead + ReadyOnes(g, ahead, pending[..j]), pending[j..]) == ahead + ReadyOnes(g, ahead, pending)
    decreases |pending| - j
  {
    if j == |pending| {
      assert pending[..j] == pending && pending[j..] == [];
    } else {
      var acc, id := ahead + ReadyOnes(g, ahead, pending[..j]), pending[j];
      assert pending[..j + 1][..j] == pending[..j];
      assert !WaitsForBatch(g, ahead, pending, j);
      hide RefsIn, Graph.FillUpName, WaitsForBatch;
      if RefsIn(g.components[id].refs, ahead) {
        RefsWiden(g.components[id].refs, ahead, acc);
      }
      assert Keep(g, acc, id) <==> Ready(g, ahead, id) by {
        NotWaiting(g, ahead, pending, j);
        assert acc[0] == ahead[0];
      }
      NoneWaits(g, ahead, pending, j + 1);
      hide Keep, Ready;
      var next := if Keep(g, acc, id) then acc + [id] else acc;
      var before, after := ReadyOnes(g, ahead, pending[..j]), ReadyOnes(g, ahead, pending[..j + 1]);
      assert pending[..j + 1][j] == id;
      assert after == before + (if Ready(g, ahead, id) then [id] else []);
      assert next == ahead + after by {
        assert acc + [id] == ahead + (before + [id]);
        assert before + [] == before;
      }
      assert pending[j..][0] == id && pending[j..][1..] == pending[j + 1..];
      assert Pruned(g, acc, pending[j..]) == Pruned(g, next, pending[j + 1..]);
    }
  }

  lemma NotWaiting(g: Graph, ahead: seq<string>, pending: seq<string>, j: nat)
    requires AllKnown(g, pending) && j < |pending| && !WaitsForBatch(g, ahead, pending, j)
    ensures RefsIn(g.components[pending[j]].refs, ahead + ReadyOnes(g, ahead, pending[..j])) ==>
              Ready(g, ahead, pending[j])
  {
  }

  lemma {:induction false} PrunedSplit(g: Graph, ahead: seq<string>, xs: seq<string>, ys: seq<string>)
    requires AllKnown(g, xs) && AllKnown(g, ys)
    ensures AllKnown(g, xs + ys) && Pruned(g, ahead, xs + ys) == Pruned(g, Pruned(g, ahead, xs), ys)
    decreases |xs|
  {
    hide Keep;
    if xs == [] {
      assert xs + ys == ys;
    } else {
      assert (xs + ys)[0] == xs[0] && (xs + ys)[1..] == xs[1..] + ys;
      PrunedSplit(g, if Keep(g, ahead, xs[0]) then ahead + [xs[0]] else ahead, xs[1..], ys);
    }
  }

  lemma PrunedOne(g: Graph, acc: seq<string>, id: string)
    requires g.Known(id)
    ensures Pruned(g, acc, [id]) == if Keep(g, acc, id) then acc + [id] else acc
  {
    hide Keep;
    assert [id][1..] == [];
  }

  /** What is ahead stays, and ready entries are kept. */
  lemma {:induction false} ReadyInPruned(g: Graph, ahead: seq<string>, xs: seq<string>)
    requires AllKnown(g, xs)
    ensures forall x :: x in ahead + ReadyOnes(g, ahead, xs) ==> x in Pruned(g, ahead, xs)
    ensures ahead <= Pruned(g, ahead, xs)
  {
    PrunedKeepsPrefix(g, ahead, xs);
    if xs == [] {
    } else {
      var n := |xs| - 1;
      var init, id := xs[..n], xs[n];
      assert xs == init + [id];
      ReadyInPruned(g, ahead, init);
      PrunedSplit(g, ahead, init, [id]);
      var acc := Pruned(g, ahead, init);
      PrunedOne(g, acc, id);
      hide Pruned;
      if Ready(g, ahead, id) {
        assert RefsIn(g.components[id].refs, ahead) ==> RefsIn(g.components[id].refs, acc);
        assert Keep(g, acc, id);
      }
    }
  }

  /** In a run that is not resumed, the references of everything a batch invokes lie in
      earlier batches if and only if no pending entry waits only for ready entries of the
      same batch: such an entry is started together with what it refers to. */
  lemma EarlierBatchesIff(g: Graph, ahead: seq<string>, pending: seq<string>)
    requires AllKnown(g, pending) && ahead != [] && !g.FillUpName(ahead[0])
    ensures var r := Pruned(g, ahead, pending);
      (forall i :: |ahead| <= i < |r| ==> g.Known(r[i]) && Ready(g, ahead, r[i])) <==>
      (forall j :: 0 <= j < |pending| ==> !WaitsForBatch(g, ahead, pending, j))
  {
    hide Ready, Graph.FillUpName, RefsIn;
    var r := Pruned(g, ahead, pending);
    if forall j :: 0 <= j < |pending| ==> !WaitsForBatch(g, ahead, pending, j) {
      assert pending[..0] == [] && ahead + [] == ahead && pending[0..] == pending;
      NoneWaits(g, ahead, pending, 0);
      ReadyOnesAreReady(g, ahead, pending);
      forall i | |ahead| <= i < |r| ensures g.Known(r[i]) && Ready(g, ahead, r[i]) {
        assert r[i] in ReadyOnes(g, ahead, pending);
      }
    }
    if j :| 0 <= j < |pending| && WaitsForBatch(g, ahead, pending, j) {
      WaitingKept(g, ahead, pending, j);
    }
  }

  lemma WaitingKept(g: Graph, ahead: seq<string>, pending: seq<string>, j: nat)
    requires AllKnown(g, pending) && j < |pending| && WaitsForBatch(g, ahead, pending, j)
    ensures var r := Pruned(g, ahead, pending);
      exists i :: |ahead| <= i < |r| && r[i] == pending[j] && !Ready(g, ahead, r[i])
  {
    var xs, ys, id := pending[..j], pending[j..], pending[j];
    assert pending == xs + ys && ys[0] == id && ys[1..] == pending[j + 1..];
    PrunedSplit(g, ahead, xs, ys);
    ReadyInPruned(g, ahead, xs);
    var acc := Pruned(g, ahead, xs);
    RefsWiden(g.components[id].refs, ahead + ReadyOnes(g, ahead, xs), acc);
    PrunedKeepsPrefix(g, acc + [id], ys[1..]);
    assert Keep(g, acc, id);
    var r := Pruned(g, acc + [id], ys[1..]);
    assert r == Pruned(g, ahead, pending);
    assert r[|acc|] == id;
  }

  /** Begin, then a component and one that refers to it, both pending. */
  lemma BatchWaits(lower: char -> char)
    ensures var begin := Component(Begin, [], ["a", "b"], None, "");
      var a := Component(Other, [], [], None, "");
      var b := Component(Other, ["a"], [], None, "");
      var g := Graph(map["begin" := begin, "a" := a, "b" := b], lower);
      && g.WellFormed() && !g.FillUpName("begin")
      && Pruned(g, ["begin"], ["a", "b"]) == ["begin", "a", "b"] && !Ready(g, ["begin"], "b")
  {
    var begin := Component(Begin, [], ["a", "b"], None, "");
    var a, b := Component(Other, [], [], None, ""), Component(Other, ["a"], [], None, "");
    var g := Graph(map["begin" := begin, "a" := a, "b" := b], lower);
    BeginIsNoFillUp(g);
    assert "begin" != "a" && "begin" != "b" && "a" != "b" by {
      assert "begin"[0] == 'b' && "a"[0] == 'a' && |"begin"| == 5;
    }
    hide Graph.FillUpName;
    assert Keep(g, ["begin"], "a");
    assert Keep(g, ["begin", "a"], "b") by {
      assert ["begin", "a"][1] == "a";
    }
    assert ["a", "b"][1..] == ["b"] && ["b"][1..] == [];
    assert ["begin"] + ["a"] == ["begin", "a"] && ["begin", "a"] + ["b"] == ["begin", "a", "b"];
  }
}
