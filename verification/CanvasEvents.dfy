/** What whole passes and whole runs of the canvas keep and what they tell the client. */
module CanvasEvents {
  import opened Text
  import opened Canvas
  import opened CanvasRun
  import opened CanvasRouting

  // ----- what pruning keeps -----

  /** `userfillup` stands somewhere in the id, in whatever case. */
  ghost predicate NamesFillUp(g: Graph, id: string) {
    exists a: string, b: string, c: string :: id == a + b + c && MapChars(g.lower, b) == "userfillup"
  }

  lemma NamesFillUpIff(g: Graph, id: string)
    ensures g.FillUpName(id) <==> NamesFillUp(g, id)
  {
    var w, t := MapChars(g.lower, id), "userfillup";
    if g.FillUpName(id) {
      var i :| 0 <= i <= |w| - |t| && w[i..][..|t|] == t;
      var a, b, c := id[..i], id[i..i + |t|], id[i + |t|..];
      assert id == a + b + c;
      assert MapChars(g.lower, b) == w[i..][..|t|];
    }
    if a: string, b: string, c: string :| id == a + b + c && MapChars(g.lower, b) == t {
      assert w[|a|..][..|t|] == MapChars(g.lower, b);
    }
  }

  /** An entry may be started behind these: it is an entry point, every component it refers
      to is among them, or the path they begin was resumed at a UserFillUp. */
  ghost predicate MayStart(g: Graph, ahead: seq<string>, id: string)
    requires g.Known(id)
  {
    || g.Kind(id) == Begin || g.Kind(id) == UserFillUp
    || (forall j :: 0 <= j < |g.components[id].refs| ==> g.components[id].refs[j] in ahead)
    || NamesFillUp(g, (ahead + [id])[0])
  }

  lemma MayStartIff(g: Graph, ahead: seq<string>, id: string)
    requires g.Known(id)
    ensures Keep(g, ahead, id) <==> MayStart(g, ahead, id)
  {
    NamesFillUpIff(g, if ahead != [] then ahead[0] else id);
    hide NamesFillUp, Graph.FillUpName;
  }

  /** Pruning keeps exactly the entries that may be started behind the path so far and the
      entries kept before them. */
  lemma KeptIff(g: Graph, ahead: seq<string>, pending: seq<string>) returns (marks: seq<bool>)
    requires AllKnown(g, pending)
    ensures |marks| == |pending| && Pruned(g, ahead, pending) == ahead + Marked(pending, marks)
    ensures forall i :: 0 <= i < |pending| ==>
              (marks[i] <==> MayStart(g, ahead + Marked(pending[..i], marks[..i]), pending[i]))
  {
    marks := SomeMarksFollow(g, ahead, pending);
    PrunedIsTheRule(g, ahead, pending, marks);
    hide Keep, MayStart, Pruned, Marked;
    forall i | 0 <= i < |pending|
      ensures marks[i] <==> MayStart(g, ahead + Marked(pending[..i], marks[..i]), pending[i])
    {
      MayStartIff(g, ahead + Marked(pending[..i], marks[..i]), pending[i]);
    }
  }

  /** Nothing is pruned from a path that was resumed. */
  lemma {:induction false} ResumedKeepsAll(g: Graph, ahead: seq<string>, pending: seq<string>)
    requires AllKnown(g, pending) && ahead + pending != [] && NamesFillUp(g, (ahead + pending)[0])
    ensures Pruned(g, ahead, pending) == ahead + pending
    decreases |pending|
  {
    if pending == [] {
      assert ahead + pending == ahead;
    } else {
      assert (ahead + [pending[0]])[0] == (ahead + pending)[0];
      MayStartIff(g, ahead, pending[0]);
      var next := ahead + [pending[0]];
      assert next + pending[1..] == ahead + pending;
      hide Keep, NamesFillUp;
      ResumedKeepsAll(g, next, pending[1..]);
    }
  }

  // ----- what one pass tells -----

  /** Every pending entry is announced, in order. */
  lemma {:induction false} AllAnnounced(g: Graph, ids: seq<string>)
    requires AllKnown(g, ids)
    ensures |StartedEvents(g, ids)| == |ids|
    ensures forall i :: 0 <= i < |ids| ==> StartedEvents(g, ids)[i] == NodeStarted(ids[i])
  {
    if ids == [] {
    } else {
      assert AllKnown(g, ids[1..]);
      AllAnnounced(g, ids[1..]);
      assert forall i :: 0 < i < |ids| ==> ids[i] == ids[1..][i - 1];
    }
  }

  /** An unknown entry crashes the run behind the announcements before it. */
  lemma {:induction false} AnnouncedUpTo(g: Graph, ids: seq<string>, n: nat)
    requires n < |ids| && !g.Known(ids[n]) && forall i :: 0 <= i < n ==> g.Known(ids[i])
    ensures |StartedEvents(g, ids)| == n
    ensures forall i :: 0 <= i < n ==> StartedEvents(g, ids)[i] == NodeStarted(ids[i])
  {
    if n == 0 {
    } else {
      AnnouncedUpTo(g, ids[1..], n - 1);
      assert forall i :: 0 < i < |ids| ==> ids[i] == ids[1..][i - 1];
    }
  }

  /** The pass ends the run in this event, if it does. */
  ghost predicate Closing(s: State, r: State) {
    match r.status
    case Finished => r.events == s.events + [WorkflowFinished]
    case Failed => (r.events != [] && r.events[|r.events| - 1] == WorkflowFinished <==> CanceledText(r.error))
    case Suspended => r.events != [] && r.events[|r.events| - 1] == UserInputs
    case _ => true
  }

  ghost predicate CanceledText(error: string) {
    exists a: string, c: string :: error == a + "Task has been canceled" + c
  }

  lemma CanceledIff(error: string)
    ensures Canceled(error) <==> CanceledText(error)
  {
    var t := "Task has been canceled";
    if Canceled(error) {
      var i :| 0 <= i <= |error| - |t| && error[i..][..|t|] == t;
      assert error == error[..i] + t + error[i + |t|..];
    }
    if a: string, c: string :| error == a + t + c {
      assert error[|a|..][..|t|] == t;
    }
  }

  /** How a pass goes on: nothing left finishes the run, an unknown entry crashes it, an
      error fails it, a UserFillUp among the entries added that still lacks inputs suspends
      it, and otherwise the batch is committed.  Finishing, suspending and being canceled
      are told last, anything else ends without a word. */
  lemma PassEnds(g: Graph, s: State, input: Input)
    requires g.WellFormed() && s.idx <= |s.path| && s.status == Running
    requires forall i :: 0 <= i < |s.events| ==> !Terminal(s.events[i])
    ensures var r := Step(g, s, input);
      && Closing(s, r)
      && (r.status == Finished <==> s.idx == |s.path|)
      && (r.status == Crashed <==> s.idx < |s.path| && !AllKnown(g, s.path[s.idx..]))
      && (r.status == Failed ==> r.error != "")
      && (r.status == Suspended ==> input.unsatisfied)
      && (r.status == Running && input.unsatisfied ==>
            forall i :: r.idx <= i < |r.path| && g.Known(r.path[i]) ==> g.Kind(r.path[i]) != UserFillUp)
  {
    if s.idx < |s.path| && AllKnown(g, s.path[s.idx..]) {
      BatchEnds(g, s, input);
    }
    hide AllKnown, CanceledText;
  }

  lemma BatchEnds(g: Graph, s: State, input: Input)
    requires g.WellFormed() && s.idx < |s.path| && s.status == Running && AllKnown(g, s.path[s.idx..])
    requires forall i :: 0 <= i < |s.events| ==> !Terminal(s.events[i])
    ensures var r := Step(g, s, input);
      && Closing(s, r)
      && r.status in {Failed, Suspended, Running}
      && (r.status == Failed ==> r.error != "")
      && (r.status == Suspended ==> input.unsatisfied)
      && (r.status == Running && input.unsatisfied ==>
            forall i :: r.idx <= i < |r.path| && g.Known(r.path[i]) ==> g.Kind(r.path[i]) != UserFillUp)
  {
    var r, p, n := Step(g, s, input), Processed(g, s, input), |Batch(g, s)|;
    StartedQuiet(g, s.path[s.idx..]);
    QuietStays(Announced(g, s), p.events);
    CanceledIff(p.error);
    if !HasFillUp(g, p.path[n..]) {
      NoFillUpPending(g, p.path, n);
    }
    hide SuspendedPath, StartedEvents, Canceled, CanceledText, HasFillUp, Processed, Batch, AllKnown, Graph.WellFormed;
  }

  lemma NoFillUpPending(g: Graph, path: seq<string>, n: nat)
    requires n <= |path| && !HasFillUp(g, path[n..])
    ensures forall i :: n <= i < |path| && g.Known(path[i]) ==> g.Kind(path[i]) != UserFillUp
  {
    forall i | n <= i < |path| && g.Known(path[i]) ensures g.Kind(path[i]) != UserFillUp {
      assert path[n..][i - n] == path[i];
    }
  }

  function Told(s: State): multiset<string> {
    FinishedIds(s.events) + multiset(s.partials)
  }

  lemma StartedFinishNothing(g: Graph, ids: seq<string>)
    ensures FinishedIds(StartedEvents(g, ids)) == multiset{}
  {
    AreStarts(g, ids);
    NoneFinished(StartedEvents(g, ids));
  }

  lemma {:induction false} AreStarts(g: Graph, ids: seq<string>)
    ensures forall i :: 0 <= i < |StartedEvents(g, ids)| ==> StartedEvents(g, ids)[i].NodeStarted?
  {
    if ids == [] || !g.Known(ids[0]) {
    } else {
      AreStarts(g, ids[1..]);
    }
  }

  /** The ends that the invoked batch of a pass brings about. */
  function BatchEnded(g: Graph, s: State, input: Input): multiset<string>
    requires g.WellFormed() && s.idx <= |s.path| && AllKnown(g, s.path[s.idx..])
  {
    var batch := Batch(g, s);
    EndedAll(g, batch[s.idx..|batch|], s.idx, input.oracle)
  }

  lemma ProcessedAccounted(g: Graph, s: State, input: Input)
    requires g.WellFormed() && s.idx <= |s.path| && AllKnown(g, s.path[s.idx..])
    ensures Accounted(Processed(g, s, input)) == Told(s) + BatchEnded(g, s, input)
  {
    var batch := Batch(g, s);
    var begun := Progress(batch, "", s.partials, Announced(g, s));
    BatchAccounted(g, begun, s.idx, |batch|, input.oracle);
    FinishedConcat(s.events, StartedEvents(g, s.path[s.idx..]));
    StartedFinishNothing(g, s.path[s.idx..]);
    assert Accounted(begun) == Told(s);
    hide FinishedIds, EndedAll, Batch, AfterAll, StartedEvents, Accounted, Told;
  }

  lemma PassLeaves(g: Graph, s: State, input: Input)
    requires g.WellFormed() && s.idx < |s.path| && s.status == Running && AllKnown(g, s.path[s.idx..])
    ensures var r, p := Step(g, s, input), Processed(g, s, input);
      && r.partials == p.partials
      && (r.events == p.events || r.events == p.events + [WorkflowFinished] || r.events == p.events + [UserInputs])
  {
    var p := Processed(g, s, input);
    assert p.events + [] == p.events;
    hide Batch, Processed, SuspendedPath, HasFillUp, Canceled, AllKnown, Graph.WellFormed;
  }

  /** Over a pass, exactly these are added to the ends reported or still open. */
  lemma PassAccounted(g: Graph, s: State, input: Input)
    requires g.WellFormed() && s.idx < |s.path| && s.status == Running && AllKnown(g, s.path[s.idx..])
    ensures Told(Step(g, s, input)) == Told(s) + BatchEnded(g, s, input)
  {
    hide FinishedIds, BatchEnded, Batch, Processed, AllKnown, Graph.WellFormed, Step;
    var p := Processed(g, s, input);
    ProcessedAccounted(g, s, input);
    PassLeaves(g, s, input);
    FinishedConcat(p.events, [WorkflowFinished]);
    FinishedConcat(p.events, [UserInputs]);
    NoneFinished([WorkflowFinished]);
    NoneFinished([UserInputs]);
  }

  // ----- how a run begins -----

  /** A run that is not resumed says so first; it starts at the entry point, behind what was
      saved.  A resumed one starts with everything saved, and says nothing. */
  lemma RunBegins(g: Graph, saved: seq<string>)
    ensures var s := Start(g, saved);
      && s.idx <= |s.path| && s.invoked == [] && s.status == Running
      && (saved != [] && NamesFillUp(g, saved[0]) ==>
            s.path[..s.idx] == [] && s.path[s.idx..] == saved && s.events == [])
      && (!(saved != [] && NamesFillUp(g, saved[0])) ==>
            s.path[..s.idx] == saved && s.path[s.idx..] == ["begin"] && s.events == [WorkflowStarted])
  {
    if saved != [] {
      NamesFillUpIff(g, saved[0]);
    }
    hide Graph.FillUpName, NamesFillUp;
  }
}
