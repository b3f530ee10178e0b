/** What callers of an MCP session can be told: results need a session, and time-outs of the
    worker's wait change nothing. */
module McpOutcomes {
  import opened Text
  import opened McpSession

  /** No result can come any more, or ever: the worker has no session. */
  predicate Sessionless(s: State) {
    !s.worker.Holding? && !(s.worker.Waiting? && s.worker.live)
  }

  predicate NoResult(rs: seq<Reply>) {
    forall i :: 0 <= i < |rs| ==> rs[i].kind != Result
  }

  lemma StepSessionless(s: State, a: Action)
    requires Enabled(s, a) && Sessionless(s) && a != Connect(true)
    ensures Sessionless(Next(s, a))
    ensures s.replies <= Next(s, a).replies && NoResult(Next(s, a).replies[|s.replies|..])
    ensures !s.worker.Starting? ==> !Next(s, a).worker.Starting?
  {
  }

  /** Without a session nothing but errors and cancellations is put, in every run. */
  lemma {:induction false} OnlyErrors(s: State, actions: seq<Action>, t: State)
    requires Run(s, actions, t) && Sessionless(s) && Connect(true) !in actions
    ensures s.replies <= t.replies && NoResult(t.replies[|s.replies|..]) && Sessionless(t)
    decreases |actions|
  {
    if actions == [] {
    } else {
      var n := Next(s, actions[0]);
      StepSessionless(s, actions[0]);
      OnlyErrors(n, actions[1..], t);
      hide Next, Run, Sessionless;
      assert t.replies[|s.replies|..] == n.replies[|s.replies|..] + t.replies[|n.replies|..];
    }
  }

  lemma {:induction false} NoConnect(s: State, actions: seq<Action>, t: State)
    requires Run(s, actions, t) && !s.worker.Starting?
    ensures Connect(true) !in actions
    decreases |actions|
  {
    if actions == [] {
    } else {
      NoConnect(Next(s, actions[0]), actions[1..], t);
    }
  }

  /** A result needs a session: in a run in which no connection succeeds, none is put. */
  lemma ResultsNeedSession(actions: seq<Action>, t: State)
    requires Run(Init(), actions, t) && Connect(true) !in actions
    ensures NoResult(t.replies)
  {
    OnlyErrors(Init(), actions, t);
    assert t.replies[0..] == t.replies;
  }

  /** A worker that was cancelled never puts a result again. */
  lemma CancelledForGood(s: State, actions: seq<Action>, t: State)
    requires Run(s, actions, t) && s.worker.Broken?
    ensures s.replies <= t.replies && NoResult(t.replies[|s.replies|..])
  {
    NoConnect(s, actions, t);
    OnlyErrors(s, actions, t);
  }

  /** With a session, the answer to a request says whether the task succeeded; without one
      it is an error.  Nothing else is put meanwhile. */
  lemma TakenIsAnswered(s: State, ok: bool)
    requires Enabled(s, Take) && !s.closed
    ensures var r, t := s.queue[0], Next(s, Take);
      if s.worker.live then
        && Enabled(t, Answer(ok)) && t.replies == s.replies
        && Next(t, Answer(ok)).replies == s.replies + [Reply(r.channel, r.task, if ok then Result else Error)]
        && Next(t, Answer(ok)).worker == s.worker
      else t.replies == s.replies + [Reply(r.channel, r.task, Error)] && t.worker == s.worker
  {
  }

  /** A time-out of the worker's wait changes nothing unless the session is closed. */
  lemma TimeoutsHarmless(s: State)
    requires Enabled(s, TimeOut)
    ensures Next(s, TimeOut) == if s.closed then s.(worker := Stopped) else s
  {
  }

  /** After a successful connection, as long as it is neither cancelled nor closed, the
      worker keeps its session. */
  lemma {:induction false} SessionKept(s: State, actions: seq<Action>, t: State)
    requires Run(s, actions, t) && Cancel !in actions && Close !in actions && !s.closed
    requires s.worker.Holding? || s.worker == Waiting(true)
    ensures !t.closed && (t.worker.Holding? || t.worker == Waiting(true))
    decreases |actions|
  {
    if actions == [] {
    } else {
      SessionKept(Next(s, actions[0]), actions[1..], t);
    }
  }

  lemma ConnectedWaits(s: State, ok: bool)
    requires Enabled(s, Connect(ok)) && !s.closed
    ensures Next(s, Connect(ok)) == s.(worker := Waiting(ok))
  {
  }
}
