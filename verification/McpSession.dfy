/** The request/reply queue of an MCP session on one event loop: callers put requests
    with a result queue of their own, a worker serves them, and closing drains what the
    worker has not taken. */
module McpSession {
  import opened Text

  /** A request carries the number of its own result queue. */
  datatype Request = Request(channel: nat, task: string)

  datatype Kind = Result | Error | Cancelled

  /** What was put, for which task, on which result queue. */
  datatype Reply = Reply(channel: nat, task: string, kind: Kind)

  /** The worker connects, waits for a request (with a session, or only to report an
      error), holds a request, has been cancelled, or has left its loop. */
  datatype Worker = Starting | Waiting(live: bool) | Holding(r: Request) | Broken | Stopped

  datatype State = State(
    closed: bool, queue: seq<Request>, worker: Worker,
    accepted: seq<Request>,   // every request so far, in order
    replies: seq<Reply>,      // every put on a result queue so far, in order
    taken: nat,               // how many requests the worker has taken
    lost: Option<nat>,        // the request the worker held when it was cancelled
    late: bool)               // has the worker answered after the close?

  function Init(): State {
    State(false, [], Starting, [], [], 0, None, false)
  }

  /** Everything between two suspensions of the event loop is one action.  The queues
      are unbounded, so putting never suspends. */
  datatype Action =
    | Call(task: string)
    | Connect(ok: bool)
    | Take
    | Answer(ok: bool)
    | TimeOut
    | Cancel
    | Recover
    | Close

  predicate Enabled(s: State, a: Action) {
    match a
    case Call(_) => true
    case Connect(_) => s.worker.Starting?
    case Take => s.worker.Waiting? && s.queue != []
    case Answer(_) => s.worker.Holding?
    case TimeOut => s.worker.Waiting?
    case Cancel => s.worker.Starting? || s.worker.Waiting? || s.worker.Holding?
    case Recover => s.worker.Broken?
    case Close => true
  }

  /** `while not self._close`: the worker goes on waiting unless the session is closed. */
  function LoopHead(s: State, live: bool): Worker {
    if s.closed then Stopped else Waiting(live)
  }

  function Drain(queue: seq<Request>): (r: seq<Reply>)
    ensures |r| == |queue|
    ensures forall i :: 0 <= i < |queue| ==> r[i] == Reply(queue[i].channel, queue[i].task, Cancelled)
  {
    seq(|queue|, i requires 0 <= i < |queue| => Reply(queue[i].channel, queue[i].task, Cancelled))
  }

  function Next(s: State, a: Action): State
    requires Enabled(s, a)
  {
    match a
    case Call(task) =>
      if s.closed then s
      else
        var r := Request(|s.accepted|, task);
        s.(queue := s.queue + [r], accepted := s.accepted + [r])
    case Connect(ok) => s.(worker := LoopHead(s, ok))
    case Take =>
      var r := s.queue[0];
      var t := s.(queue := s.queue[1..], taken := s.taken + 1);
      if s.worker.live then t.(worker := Holding(r))
      else t.(worker := LoopHead(s, false), replies := s.replies + [Reply(r.channel, r.task, Error)])
    case Answer(ok) =>
      var r := s.worker.r;
      s.(worker := LoopHead(s, true), late := s.closed,
         replies := s.replies + [Reply(r.channel, r.task, if ok then Result else Error)])
    case TimeOut => s.(worker := LoopHead(s, s.worker.live))
    case Cancel => s.(worker := Broken, lost := if s.worker.Holding? then Some(s.worker.r.channel) else s.lost)
    case Recover => s.(worker := LoopHead(s, false))
    case Close =>
      if s.closed then s
      else s.(closed := true, queue := [], replies := s.replies + Drain(s.queue))
  }

  ghost predicate Run(s: State, actions: seq<Action>, t: State)
    decreases |actions|
  {
    if actions == [] then t == s
    else Enabled(s, actions[0]) && Run(Next(s, actions[0]), actions[1..], t)
  }

  // ----- the shape of every reachable state -----

  /** The numbers from a up to b. */
  function Upto(a: nat, b: nat): (r: seq<nat>)
    ensures |r| == if a < b then b - a else 0
    ensures forall i :: 0 <= i < |r| ==> r[i] == a + i
  {
    if a < b then seq(b - a, i requires 0 <= i => a + i) else []
  }

  function Channels(rs: seq<Reply>): (r: seq<nat>)
    ensures |r| == |rs|
    ensures forall i :: 0 <= i < |rs| ==> r[i] == rs[i].channel
  {
    seq(|rs|, i requires 0 <= i < |rs| => rs[i].channel)
  }

  /** The taken request that has not been answered, if there is one. */
  function Gap(s: State): Option<nat> {
    if s.worker.Holding? then Some(s.worker.r.channel) else s.lost
  }

  /** How many requests are out of the queue. */
  function Out(s: State): nat {
    if s.closed then |s.accepted| else s.taken
  }

  /** The result queues that have been written, in order. */
  function Answered(s: State): seq<nat> {
    match Gap(s)
    case Some(g) => Upto(0, g) + Upto(g + 1, Out(s))
    case None =>
      if s.late && s.taken > 0 then Upto(0, s.taken - 1) + Upto(s.taken, Out(s)) + [s.taken - 1]
      else Upto(0, Out(s))
  }

  ghost predicate Tracked(s: State) {
    && (forall k :: 0 <= k < |s.accepted| ==> s.accepted[k].channel == k)
    && s.taken <= |s.accepted|
    && s.queue == (if s.closed then [] else s.accepted[s.taken..])
    && (s.worker.Holding? ==> s.taken > 0 && s.worker.r == s.accepted[s.taken - 1])
    && (s.lost.Some? ==> s.lost.value < s.taken && !s.worker.Holding? && !(s.worker.Waiting? && s.worker.live)
                         && !s.worker.Starting?)
    && (s.late ==> s.closed && s.taken > 0 && s.lost.None? && s.worker.Stopped?)
    && (s.worker.Stopped? ==> s.closed)
  }

  ghost predicate Faithful(s: State) {
    forall i :: 0 <= i < |s.replies| ==> Fits(s, s.replies[i])
  }

  ghost predicate Invariant(s: State) {
    Tracked(s) && Faithful(s) && Channels(s.replies) == Answered(s)
  }

  lemma InitInvariant()
    ensures Invariant(Init())
  {
  }

  lemma TailOf(rs: seq<Request>, t: nat, r: Request)
    requires t <= |rs|
    ensures (rs + [r])[t..] == rs[t..] + [r]
    ensures t < |rs| ==> rs[t..][1..] == rs[t + 1..] && rs[t..][0] == rs[t]
  {
  }

  lemma StepTracked(s: State, a: Action)
    requires Tracked(s) && Enabled(s, a)
    ensures Tracked(Next(s, a))
  {
    match a
    case Call(task) => CallTracked(s, task);
    case Take => TakeTracked(s);
    case _ =>
  }

  lemma CallTracked(s: State, task: string)
    requires Tracked(s)
    ensures Tracked(Next(s, Call(task)))
  {
    var t, r := Next(s, Call(task)), Request(|s.accepted|, task);
    TailOf(s.accepted, s.taken, r);
    assert t == s || (t.accepted == s.accepted + [r] && t == s.(queue := s.queue + [r], accepted := s.accepted + [r]));
    hide Next;
    if t != s {
      assert forall k :: 0 <= k < |s.accepted| ==> t.accepted[k] == s.accepted[k];
      assert t.accepted[|s.accepted|] == r;
    }
  }

  lemma TakeTracked(s: State)
    requires Tracked(s) && Enabled(s, Take)
    ensures Tracked(Next(s, Take))
  {
    TailOf(s.accepted, s.taken, s.queue[0]);
  }

  /** The replies an action puts. */
  function Puts(s: State, a: Action): seq<Reply>
    requires Enabled(s, a)
  {
    match a
    case Take => if s.worker.live then [] else [Reply(s.queue[0].channel, s.queue[0].task, Error)]
    case Answer(ok) => [Reply(s.worker.r.channel, s.worker.r.task, if ok then Result else Error)]
    case Close => if s.closed then [] else Drain(s.queue)
    case _ => []
  }

  lemma NextPuts(s: State, a: Action)
    requires Enabled(s, a)
    ensures Next(s, a).replies == s.replies + Puts(s, a)
  {
  }

  lemma StepFaithful(s: State, a: Action)
    requires Invariant(s) && Enabled(s, a)
    ensures Faithful(Next(s, a))
  {
    NextPuts(s, a);
    BeforeTaken(s);
    PutsFit(s, a);
    var t := Next(s, a);
    var ps := Puts(s, a);
    hide Next, Puts, Answered, Fits;
    forall i | 0 <= i < |t.replies| ensures Fits(t, t.replies[i]) {
      if i < |s.replies| {
        assert t.replies[i] == s.replies[i];
        StillFits(s, a, s.replies[i]);
      } else {
        assert t.replies[i] == ps[i - |s.replies|];
      }
    }
  }

  /** The reply is about the request that owns the result queue, and a cancellation
      exactly when the worker never took it. */
  predicate Fits(s: State, r: Reply) {
    && r.channel < |s.accepted|
    && r.task == s.accepted[r.channel].task
    && (r.kind.Cancelled? <==> r.channel >= s.taken)
  }

  lemma StillFits(s: State, a: Action, r: Reply)
    requires Enabled(s, a) && Tracked(s) && Fits(s, r) && (!s.closed ==> r.channel < s.taken)
    ensures Fits(Next(s, a), r)
  {
  }

  lemma PutsFit(s: State, a: Action)
    requires Tracked(s) && Enabled(s, a)
    ensures forall i :: 0 <= i < |Puts(s, a)| ==> Fits(Next(s, a), Puts(s, a)[i])
  {
  }

  /** Before the close only taken requests are answered. */
  lemma BeforeTaken(s: State)
    requires Invariant(s)
    ensures forall i :: 0 <= i < |s.replies| && !s.closed ==> s.replies[i].channel < s.taken
  {
    forall i | 0 <= i < |s.replies| && !s.closed ensures s.replies[i].channel < s.taken {
      assert s.replies[i].channel == Channels(s.replies)[i] == Answered(s)[i];
    }
  }

  lemma UptoJoin(a: nat, b: nat, c: nat)
    requires a <= b <= c
    ensures Upto(a, b) + Upto(b, c) == Upto(a, c) && Upto(b, b + 1) == [b]
  {
  }

  lemma StepAnswered(s: State, a: Action)
    requires Invariant(s) && Enabled(s, a)
    ensures Answered(Next(s, a)) == Answered(s) + Channels(Puts(s, a))
  {
    hide Answered, Next, Puts, Upto, Invariant;
    match a
    case Close => CloseAnswered(s);
    case Take => TakeAnswered(s);
    case Answer(ok) => AnswerAnswered(s, ok);
    case _ => NothingPut(s, a);
  }

  lemma NothingPut(s: State, a: Action)
    requires Invariant(s) && Enabled(s, a) && !a.Close? && !a.Take? && !a.Answer?
    ensures Answered(Next(s, a)) == Answered(s) + Channels(Puts(s, a))
  {
    assert Channels(Puts(s, a)) == [];
    var t := Next(s, a);
    assert Gap(t) == Gap(s) && Out(t) == Out(s) && t.late == s.late && t.taken == s.taken;
    hide Upto, Channels, Faithful, Invariant, Tracked, Next, Gap, Out, Puts;
  }

  lemma CloseAnswered(s: State)
    requires Invariant(s)
    ensures Answered(Next(s, Close)) == Answered(s) + Channels(Puts(s, Close))
  {
    CloseFacts(s);
    var t, n := Next(s, Close), |s.accepted|;
    hide Upto, Channels, Drain, Faithful, Tracked, Next, Gap, Out, Puts, Invariant;
    if !s.closed {
      match Gap(s)
      case Some(g) =>
        UptoJoin(g + 1, s.taken, n);
        Assoc(Upto(0, g), Upto(g + 1, s.taken), Upto(s.taken, n));
      case None => UptoJoin(0, s.taken, n);
    }
  }

  lemma CloseFacts(s: State)
    requires Invariant(s)
    ensures var t, n := Next(s, Close), |s.accepted|;
      if s.closed then t == s && Channels(Puts(s, Close)) == []
      else
        && Gap(t) == Gap(s) && Out(t) == n && Out(s) == s.taken <= n && !s.late && !t.late
        && (Gap(s).Some? ==> Gap(s).value < s.taken)
        && Channels(Puts(s, Close)) == Upto(s.taken, n)
  {
    hide Answered, Faithful;
    if !s.closed {
      DrainChannels(s);
    }
  }

  lemma DrainChannels(s: State)
    requires Tracked(s) && !s.closed
    ensures Channels(Drain(s.queue)) == Upto(s.taken, |s.accepted|)
  {
    var c, u := Channels(Drain(s.queue)), Upto(s.taken, |s.accepted|);
    forall i | 0 <= i < |c| ensures c[i] == u[i] {
      assert s.queue[i] == s.accepted[s.taken + i];
    }
  }

  lemma TakeAnswered(s: State)
    requires Invariant(s) && Enabled(s, Take)
    ensures Answered(Next(s, Take)) == Answered(s) + Channels(Puts(s, Take))
  {
    var t := s.taken;
    assert s.queue[0] == s.accepted[t];
    if s.worker.live {
      assert Channels(Puts(s, Take)) == [];
      assert Upto(t + 1, t + 1) == [];
    } else {
      assert Channels(Puts(s, Take)) == [t];
      hide Upto, Channels;
      match s.lost
      case Some(g) =>
        UptoJoin(g + 1, t, t + 1);
        Assoc(Upto(0, g), Upto(g + 1, t), [t]);
      case None => UptoJoin(0, t, t + 1);
    }
  }

  lemma AnswerAnswered(s: State, ok: bool)
    requires Invariant(s) && Enabled(s, Answer(ok))
    ensures Answered(Next(s, Answer(ok))) == Answered(s) + Channels(Puts(s, Answer(ok)))
  {
    var g := s.taken - 1;
    assert Channels(Puts(s, Answer(ok))) == [g];
    if !s.closed {
      assert Upto(g + 1, s.taken) == [];
      UptoJoin(0, g, g + 1);
    }
    hide Upto, Channels;
  }

  lemma Assoc(a: seq<nat>, b: seq<nat>, c: seq<nat>)
    ensures a + (b + c) == (a + b) + c
  {
  }

  lemma StepInvariant(s: State, a: Action)
    requires Invariant(s) && Enabled(s, a)
    ensures Invariant(Next(s, a))
  {
    StepTracked(s, a);
    StepFaithful(s, a);
    StepAnswered(s, a);
    NextPuts(s, a);
    hide Next, Puts, Answered, Tracked, Faithful, Channels;
    ChannelsConcat(s.replies, Puts(s, a));
  }

  lemma ChannelsConcat(a: seq<Reply>, b: seq<Reply>)
    ensures Channels(a + b) == Channels(a) + Channels(b)
  {
  }

  lemma {:induction false} RunInvariant(s: State, actions: seq<Action>, t: State)
    requires Invariant(s) && Run(s, actions, t)
    ensures Invariant(t)
    decreases |actions|
  {
    if actions == [] {
    } else {
      hide Invariant, Next;
      StepInvariant(s, actions[0]);
      RunInvariant(Next(s, actions[0]), actions[1..], t);
    }
  }

  // ----- what holds in every run -----

  predicate IsAnswered(s: State, k: nat) {
    exists i :: 0 <= i < |s.replies| && s.replies[i].channel == k
  }

  predicate IsQueued(s: State, k: nat) {
    exists i :: 0 <= i < |s.queue| && s.queue[i].channel == k
  }

  predicate IsHeld(s: State, k: nat) {
    s.worker.Holding? && s.worker.r.channel == k
  }

  /** What a result queue has been given. */
  function OnChannel(rs: seq<Reply>, k: nat): seq<Reply> {
    if rs == [] then []
    else (if rs[0].channel == k then [rs[0]] else []) + OnChannel(rs[1..], k)
  }

  lemma {:induction false} OneOnChannel(rs: seq<Reply>, k: nat)
    requires forall i, j :: 0 <= i < j < |rs| ==> rs[i].channel != rs[j].channel
    ensures |OnChannel(rs, k)| <= 1
    ensures OnChannel(rs, k) == [] <==> forall i :: 0 <= i < |rs| ==> rs[i].channel != k
    ensures forall r :: r in OnChannel(rs, k) ==> r in rs && r.channel == k
  {
    if rs == [] {
    } else {
      OneOnChannel(rs[1..], k);
    }
  }

  lemma AnsweredOnce(s: State)
    requires Invariant(s)
    ensures forall i, j :: 0 <= i < j < |s.replies| ==> s.replies[i].channel != s.replies[j].channel
  {
    forall i, j | 0 <= i < j < |s.replies| ensures s.replies[i].channel != s.replies[j].channel {
      assert s.replies[i].channel == Answered(s)[i] && s.replies[j].channel == Answered(s)[j];
    }
  }

  /** In every run, each result queue gets at most one reply, about its own request, and
      a cancellation only if the worker never took that request. */
  lemma AtMostOneReply(actions: seq<Action>, s: State, k: nat)
    requires Run(Init(), actions, s) && k < |s.accepted|
    ensures |OnChannel(s.replies, k)| <= 1
    ensures forall r :: r in OnChannel(s.replies, k) ==>
              r.channel == k && r.task == s.accepted[k].task && (r.kind.Cancelled? <==> k >= s.taken)
  {
    InitInvariant();
    RunInvariant(Init(), actions, s);
    AnsweredOnce(s);
    OneOnChannel(s.replies, k);
  }

  /** In every run, each accepted request is in exactly one place: answered, queued,
      held by the worker, or lost with it. */
  lemma OnePlace(actions: seq<Action>, s: State, k: nat)
    requires Run(Init(), actions, s) && k < |s.accepted|
    ensures (if IsAnswered(s, k) then 1 else 0) + (if IsQueued(s, k) then 1 else 0)
            + (if IsHeld(s, k) then 1 else 0) + (if s.lost == Some(k) then 1 else 0) == 1
  {
    InitInvariant();
    RunInvariant(Init(), actions, s);
    AnsweredIff(s, k);
    QueuedIff(s, k);
  }

  lemma AnsweredIff(s: State, k: nat)
    requires Invariant(s) && k < |s.accepted|
    ensures IsAnswered(s, k) <==> k < Out(s) && Gap(s) != Some(k)
  {
    var c := Answered(s);
    assert IsAnswered(s, k) <==> k in c by {
      hide Answered, Tracked, Faithful;
      assert forall i :: 0 <= i < |c| ==> c[i] == s.replies[i].channel;
    }
    hide Upto, IsAnswered, Faithful, Channels;
    match Gap(s)
    case Some(g) =>
      UptoHolds(0, g, k);
      UptoHolds(g + 1, Out(s), k);
    case None =>
      if s.late {
        UptoHolds(0, s.taken - 1, k);
        UptoHolds(s.taken, Out(s), k);
      } else {
        UptoHolds(0, Out(s), k);
      }
  }

  lemma UptoHolds(a: nat, b: nat, k: nat)
    ensures k in Upto(a, b) <==> a <= k < b
  {
    if a <= k < b {
      assert Upto(a, b)[k - a] == k;
    }
  }

  lemma QueuedIff(s: State, k: nat)
    requires Tracked(s) && k < |s.accepted|
    ensures IsQueued(s, k) <==> !s.closed && k >= s.taken
  {
    if !s.closed && k >= s.taken {
      assert s.queue[k - s.taken].channel == k;
    }
  }

  /** Once closed, always closed, and nothing more is accepted. */
  lemma {:induction false} NothingAfterClose(s: State, actions: seq<Action>, t: State)
    requires s.closed && s.queue == [] && Run(s, actions, t)
    ensures t.closed && t.queue == [] && t.accepted == s.accepted
    decreases |actions|
  {
    if actions == [] {
    } else {
      NothingAfterClose(Next(s, actions[0]), actions[1..], t);
    }
  }

  /** After the close, every accepted request is answered, except at most one: the one
      the worker had taken last when it was answered to no more, or is still holding. */
  lemma AfterClose(actions: seq<Action>, s: State)
    requires Run(Init(), actions, s) && s.closed
    ensures s.queue == []
    ensures forall k :: 0 <= k < |s.accepted| ==> (!IsAnswered(s, k) <==> IsHeld(s, k) || s.lost == Some(k))
    ensures forall j, k :: 0 <= j < |s.accepted| && 0 <= k < |s.accepted| && !IsAnswered(s, j) && !IsAnswered(s, k) ==>
              j == k < s.taken
  {
    InitInvariant();
    RunInvariant(Init(), actions, s);
    forall k | 0 <= k < |s.accepted| ensures IsAnswered(s, k) <==> Gap(s) != Some(k) {
      AnsweredIff(s, k);
    }
  }

  predicate Ordered(rs: seq<Reply>) {
    forall i, j :: 0 <= i < j < |rs| ==> rs[i].channel < rs[j].channel
  }

  /** Replies follow the order of acceptance exactly when the worker did not answer,
      after the close, a request that was followed by drained ones. */
  lemma OrderIff(actions: seq<Action>, s: State)
    requires Run(Init(), actions, s)
    ensures Ordered(s.replies) <==> !(s.late && s.taken < |s.accepted|)
  {
    InitInvariant();
    RunInvariant(Init(), actions, s);
    var c := Answered(s);
    assert |c| == |s.replies| && forall i :: 0 <= i < |c| ==> c[i] == s.replies[i].channel;
    hide Channels, Faithful, Run;
    if s.late && s.taken < |s.accepted| {
      assert c[|c| - 1] == s.taken - 1 && c[|c| - 2] == |s.accepted| - 1;
      assert s.replies[|c| - 2].channel > s.replies[|c| - 1].channel;
    }
  }

  /** Before the close they always do. */
  lemma OrderedBeforeClose(actions: seq<Action>, s: State)
    requires Run(Init(), actions, s) && !s.closed
    ensures Ordered(s.replies)
  {
    OrderIff(actions, s);
    InitInvariant();
    RunInvariant(Init(), actions, s);
  }

  /** And such a late answer does happen. */
  lemma LateAnswer(first: string, second: string) returns (actions: seq<Action>, s: State)
    ensures Run(Init(), actions, s)
    ensures Channels(s.replies) == [1, 0] && s.replies[1].kind.Result?
  {
    var s1 := Next(Init(), Connect(true));
    var s2 := Next(s1, Call(first));
    var s3 := Next(s2, Take);
    var s4 := Next(s3, Call(second));
    var s5 := Next(s4, Close);
    s := Next(s5, Answer(true));
    assert Channels(s.replies) == [1, 0];
    assert Enabled(s5, Answer(true)) && Enabled(s2, Take) && Enabled(Init(), Connect(true));
    hide Next, Run, Enabled, Channels;
    RunNone(s);
    AlwaysEnabled(s4, Close);
    AlwaysEnabled(s3, Call(second));
    AlwaysEnabled(s1, Call(first));
    actions := [Connect(true), Call(first), Take, Call(second), Close, Answer(true)];
    RunStep(s5, Answer(true), [], s);
    RunStep(s4, Close, [Answer(true)], s);
    RunStep(s3, Call(second), [Close, Answer(true)], s);
    RunStep(s2, Take, [Call(second), Close, Answer(true)], s);
    RunStep(s1, Call(first), [Take, Call(second), Close, Answer(true)], s);
    RunStep(Init(), Connect(true), [Call(first), Take, Call(second), Close, Answer(true)], s);
  }

  lemma RunNone(s: State)
    ensures Run(s, [], s)
  {
  }

  /** Callers are never held up. */
  lemma AlwaysEnabled(s: State, a: Action)
    requires a.Call? || a.Close?
    ensures Enabled(s, a)
  {
  }

  lemma RunStep(s: State, a: Action, rest: seq<Action>, t: State)
    requires Enabled(s, a) && Run(Next(s, a), rest, t)
    ensures Run(s, [a] + rest, t)
  {
    assert ([a] + rest)[1..] == rest;
  }

  /** A worker that is left alone answers everything it has not lost. */
  lemma {:induction false} LeftAlone(s: State) returns (actions: seq<Action>, t: State)
    requires Invariant(s) && !s.closed && (s.worker.Waiting? || s.worker.Holding?)
    ensures Run(s, actions, t) && t.accepted == s.accepted
    ensures forall k :: 0 <= k < |t.accepted| ==> (IsAnswered(t, k) <==> s.lost != Some(k))
    decreases |s.queue|, if s.worker.Holding? then 1 else 0
  {
    if s.worker.Waiting? && s.queue == [] {
      actions, t := [], s;
      forall k | 0 <= k < |t.accepted| ensures IsAnswered(t, k) <==> s.lost != Some(k) {
        AnsweredIff(t, k);
      }
    } else {
      var a := if s.worker.Holding? then Answer(true) else Take;
      StepInvariant(s, a);
      var rest;
      rest, t := LeftAlone(Next(s, a));
      actions := [a] + rest;
      RunStep(s, a, rest, t);
    }
  }

  // ----- the session object -----

  /** The fields of a session agree with its history: every result queue holds the
      replies put on it. */
  ghost predicate Consistent(closed: bool, queue: seq<Request>, channels: seq<seq<Reply>>, s: State) {
    && closed == s.closed && queue == s.queue
    && |channels| == |s.accepted|
    && Invariant(s)
    && forall k :: 0 <= k < |channels| ==> channels[k] == OnChannel(s.replies, k)
  }

  lemma CallConsistent(closed: bool, queue: seq<Request>, channels: seq<seq<Reply>>, s: State, task: string)
    requires Consistent(closed, queue, channels, s)
    ensures if closed then Next(s, Call(task)) == s
            else Consistent(closed, queue + [Request(|channels|, task)], channels + [[]], Next(s, Call(task)))
  {
    hide Invariant, OnChannel;
    if !closed {
      StepInvariant(s, Call(task));
      NewChannelIsEmpty(s);
    }
  }

  lemma NewChannelIsEmpty(s: State)
    requires Invariant(s)
    ensures OnChannel(s.replies, |s.accepted|) == []
  {
    hide OnChannel, Tracked, Answered, Channels;
    forall i | 0 <= i < |s.replies| ensures s.replies[i].channel < |s.accepted| {
      assert Fits(s, s.replies[i]);
    }
    NoReplyYet(s.replies, |s.accepted|, |s.accepted|);
  }

  function Added(channels: seq<seq<Reply>>, r: Reply): seq<seq<Reply>>
    requires r.channel < |channels|
  {
    channels[r.channel := channels[r.channel] + [r]]
  }

  lemma TakeConsistent(closed: bool, queue: seq<Request>, channels: seq<seq<Reply>>, s: State)
    requires Consistent(closed, queue, channels, s) && Enabled(s, Take)
    ensures queue[0].channel < |channels|
    ensures var reply := Reply(queue[0].channel, queue[0].task, Error);
      Consistent(closed, queue[1..], if s.worker.live then channels else Added(channels, reply), Next(s, Take))
  {
    StepInvariant(s, Take);
    QueueIsAccepted(s);
    PutOnChannel(s.replies, Reply(queue[0].channel, queue[0].task, Error));
    hide Invariant, OnChannel;
  }

  lemma AnswerConsistent(closed: bool, queue: seq<Request>, channels: seq<seq<Reply>>, s: State, ok: bool)
    requires Consistent(closed, queue, channels, s) && Enabled(s, Answer(ok))
    ensures s.worker.r.channel < |channels|
    ensures var r := s.worker.r;
      Consistent(closed, queue, Added(channels, Reply(r.channel, r.task, if ok then Result else Error)),
                 Next(s, Answer(ok)))
  {
    StepInvariant(s, Answer(ok));
    var r := s.worker.r;
    PutOnChannel(s.replies, Reply(r.channel, r.task, if ok then Result else Error));
    hide OnChannel;
  }

  lemma CloseConsistent(queue: seq<Request>, channels: seq<seq<Reply>>, s: State, after: seq<seq<Reply>>)
    requires Consistent(false, queue, channels, s)
    requires |after| == |channels|
    requires forall k :: 0 <= k < |after| ==> after[k] == channels[k] + OnChannel(Drain(queue), k)
    ensures Consistent(true, [], after, Next(s, Close))
  {
    StepInvariant(s, Close);
    hide Invariant, OnChannel;
    forall k | 0 <= k < |after| ensures after[k] == OnChannel(s.replies + Drain(queue), k) {
      OnChannelConcat(s.replies, Drain(queue), k);
    }
  }

  lemma {:induction false} OnChannelConcat(a: seq<Reply>, b: seq<Reply>, k: nat)
    ensures OnChannel(a + b, k) == OnChannel(a, k) + OnChannel(b, k)
  {
    if a == [] {
      assert a + b == b;
    } else {
      OnChannelConcat(a[1..], b, k);
      assert (a + b)[1..] == a[1..] + b;
      var head := if a[0].channel == k then [a[0]] else [];
      assert OnChannel(a + b, k) == head + OnChannel(a[1..] + b, k) && OnChannel(a, k) == head + OnChannel(a[1..], k);
      hide OnChannel;
      assert head + (OnChannel(a[1..], k) + OnChannel(b, k)) == (head + OnChannel(a[1..], k)) + OnChannel(b, k);
    }
  }

  lemma QueueIsAccepted(s: State)
    requires Invariant(s)
    ensures forall i :: 0 <= i < |s.queue| ==> s.queue[i].channel < |s.accepted|
  {
  }

  /** Taking the first request off the queue moves its cancellation from what is still
      to be put to what has been put. */
  lemma DrainStep(queue: seq<Request>, channels: seq<seq<Reply>>, k: nat)
    requires queue != [] && queue[0].channel < |channels| && k < |channels|
    ensures var reply := Reply(queue[0].channel, queue[0].task, Cancelled);
      Added(channels, reply)[k] + OnChannel(Drain(queue[1..]), k) == channels[k] + OnChannel(Drain(queue), k)
  {
    assert Drain(queue)[1..] == Drain(queue[1..]);
    hide Drain;
  }

  /** The session's fields; `channels` are the result queues handed out so far. */
  class Session {
    var closed: bool
    var queue: seq<Request>
    var channels: seq<seq<Reply>>
    ghost var history: State

    ghost predicate Valid()
      reads this
    {
      Consistent(closed, queue, channels, history)
    }

    constructor ()
      ensures Valid() && history == Init()
    {
      closed, queue, channels := false, [], [];
      history := Init();
    }

    /** `result_queue.put(r)`. */
    method Put(r: Reply)
      requires r.channel < |channels|
      modifies this`channels
      ensures channels == Added(old(channels), r)
    {
      channels := channels[r.channel := channels[r.channel] + [r]];
    }

    /** `_call_mcp_server` up to waiting for the reply; None when it raises. */
    method CallServer(task: string) returns (channel: Option<nat>)
      requires Valid()
      modifies this
      ensures Valid() && history == Next(old(history), Call(task))
      ensures channel == if old(closed) then None else Some(|old(channels)|)
    {
      hide Consistent, Next;
      CallConsistent(closed, queue, channels, history, task);
      if closed {
        return None;
      }
      channel := Some(|channels|);
      queue := queue + [Request(|channels|, task)];
      channels := channels + [[]];
      history := Next(history, Call(task));
    }

    /** The worker gets a request; without a session it puts an error at once. */
    method TakeTask(live: bool) returns (r: Request)
      requires Valid() && history.worker == Waiting(live) && queue != []
      modifies this
      ensures Valid() && history == Next(old(history), Take) && r == old(queue[0])
    {
      assert queue == history.queue;
      hide Consistent, Next;
      TakeConsistent(closed, queue, channels, history);
      r := queue[0];
      queue := queue[1..];
      if !live {
        Put(Reply(r.channel, r.task, Error));
      }
      history := Next(history, Take);
    }

    /** The worker puts the outcome of the request it holds. */
    method PutOutcome(r: Request, ok: bool)
      requires Valid() && history.worker == Holding(r)
      modifies this
      ensures Valid() && history == Next(old(history), Answer(ok))
    {
      hide Consistent, Next;
      AnswerConsistent(closed, queue, channels, history, ok);
      Put(Reply(r.channel, r.task, if ok then Result else Error));
      history := Next(history, Answer(ok));
    }

    /** `close`: the flag, then everything still queued is answered as cancelled. */
    method CloseSession()
      requires Valid()
      modifies this
      ensures Valid() && history == Next(old(history), Close)
    {
      if closed {
        return;
      }
      closed := true;
      QueueIsAccepted(history);
      hide Next, Invariant;
      ghost var before := channels;
      DrainQueue();
      CloseConsistent(history.queue, before, history, channels);
      history := Next(history, Close);
    }

    /** `while not self._queue.empty()`. */
    method DrainQueue()
      requires forall i :: 0 <= i < |queue| ==> queue[i].channel < |channels|
      modifies this`queue, this`channels
      ensures queue == [] && |channels| == old(|channels|)
      ensures forall k :: 0 <= k < |channels| ==> channels[k] == old(channels)[k] + OnChannel(Drain(old(queue)), k)
    {
      hide Drain, OnChannel;
      ghost var after :=
        seq(|channels|, k requires 0 <= k < |old(channels)| => old(channels)[k] + OnChannel(Drain(old(queue)), k));
      while queue != []
        invariant |channels| == |after|
        invariant forall i :: 0 <= i < |queue| ==> queue[i].channel < |channels|
        invariant forall k :: 0 <= k < |channels| ==> channels[k] + OnChannel(Drain(queue), k) == after[k]
        decreases |queue|
      {
        forall k | 0 <= k < |channels| {
          DrainStep(queue, channels, k);
        }
        var r := queue[0];
        Put(Reply(r.channel, r.task, Cancelled));
        queue := queue[1..];
      }
      forall k | 0 <= k < |channels| ensures OnChannel(Drain([]), k) == [] {
        NoReplyYet(Drain([]), 0, k);
      }
    }
  }

  /** One more put changes one result queue. */
  lemma {:induction false} PutOnChannel(rs: seq<Reply>, r: Reply)
    ensures forall k :: OnChannel(rs + [r], k) == OnChannel(rs, k) + (if r.channel == k then [r] else [])
  {
    if rs == [] {
      assert rs + [r] == [r];
    } else {
      PutOnChannel(rs[1..], r);
      assert (rs + [r])[1..] == rs[1..] + [r];
    }
  }

  lemma {:induction false} NoReplyYet(rs: seq<Reply>, n: nat, k: nat)
    requires k >= n && forall i :: 0 <= i < |rs| ==> rs[i].channel < n
    ensures OnChannel(rs, k) == []
  {
    if rs == [] {
    } else {
      NoReplyYet(rs[1..], n, k);
    }
  }
}
