/** The text-to-speech pipeline of a streamed message: a producer that schedules
    sentences, a bounded queue, two workers, and a drain that restores the order. */
module TtsPipeline {
  import opened Text

  /** A numbered sentence, and what became of it: audio, nothing, or a failure. */
  datatype Item = Item(n: nat, text: string)
  datatype Sound = Audio(of: string) | Silence | Failure
  datatype Done = Done(n: nat, sound: Sound)

  /** A worker waits, synthesizes, or has put its result and not yet reported the
      task as done. */
  datatype Worker = Idle | Busy(item: Item) | Reporting

  /** The producer streams, waits in `join`, has been let through, or is finished. */
  datatype Phase = Streaming | Joining | Joined | Closed

  datatype State = State(
    queue: seq<Item>, workers: seq<Worker>, results: seq<Done>, completed: map<nat, Sound>,
    next: nat, scheduled: nat, unfinished: nat, phase: Phase,
    texts: seq<string>,        // every sentence scheduled so far
    made: map<nat, Sound>,     // what the workers made of each sentence
    emitted: seq<Done>)        // every audio event emitted so far

  const CAPACITY: nat := 4

  function Init(): State {
    State([], [Idle, Idle], [], map[], 0, 0, 0, Streaming, [], map[], [])
  }

  // ----- the drain -----

  /** First loop of the drain: everything in the results queue is filed by number. */
  function Collect(results: seq<Done>, completed: map<nat, Sound>): map<nat, Sound> {
    if results == [] then completed else Collect(results[1..], completed[results[0].n := results[0].sound])
  }

  datatype Drained = Drained(completed: map<nat, Sound>, next: nat, events: seq<Done>)

  /** Second loop: consecutive numbers are taken off and their audio is emitted. */
  function Release(completed: map<nat, Sound>, next: nat): Drained
    decreases |completed|
  {
    if next !in completed then Drained(completed, next, [])
    else
      var r := Release(completed - {next}, next + 1);
      r.(events := (if completed[next].Audio? then [Done(next, completed[next])] else []) + r.events)
  }

  function Drain(s: State): State {
    var r := Release(Collect(s.results, s.completed), s.next);
    s.(results := [], completed := r.completed, next := r.next, emitted := s.emitted + r.events)
  }

  method CollectLoop(results0: seq<Done>, completed0: map<nat, Sound>) returns (completed: map<nat, Sound>)
    ensures completed == Collect(results0, completed0)
  {
    var results := results0;
    completed := completed0;
    while results != []
      invariant Collect(results, completed) == Collect(results0, completed0)
      decreases |results|
    {
      completed := completed[results[0].n := results[0].sound];
      results := results[1..];
    }
  }

  method ReleaseLoop(completed0: map<nat, Sound>, next0: nat) returns (r: Drained)
    ensures r == Release(completed0, next0)
  {
    var completed: map<nat, Sound>, next: nat, events: seq<Done> := completed0, next0, [];
    while next in completed
      invariant Release(completed0, next0) ==
                Release(completed, next).(events := events + Release(completed, next).events)
      decreases |completed|
    {
      var sound := completed[next];
      ghost var rest := Release(completed - {next}, next + 1).events;
      if sound.Audio? {
        assert events + ([Done(next, sound)] + rest) == events + [Done(next, sound)] + rest;
        events := events + [Done(next, sound)];
      } else {
        assert [] + rest == rest;
      }
      completed, next := completed - {next}, next + 1;
    }
    r := Drained(completed, next, events);
  }

  /** `_drain_ready_tts`. */
  method DrainReady(s: State) returns (r: State, events: seq<Done>)
    ensures r == Drain(s) && r.emitted == s.emitted + events
  {
    var completed := CollectLoop(s.results, s.completed);
    var d := ReleaseLoop(completed, s.next);
    events := d.events;
    r := s.(results := [], completed := d.completed, next := d.next, emitted := s.emitted + events);
  }

  // ----- the interleaved steps -----

  datatype Action =
    | Schedule(text: string)
    | Take(w: nat)
    | Finish(w: nat, sound: Sound)
    | TaskDone(w: nat)
    | DrainNow
    | StartJoin
    | JoinReturns
    | LastDrain

  predicate WorkerStep(a: Action) {
    a.Take? || a.Finish? || a.TaskDone?
  }

  /** Can this party move now?  Scheduling waits while the queue is full, and a
      worker's audio is made from the sentence it holds. */
  predicate Enabled(s: State, a: Action) {
    match a
    case Schedule(text) => s.phase.Streaming? && text != "" && |s.queue| < CAPACITY
    case Take(w) => w < |s.workers| && s.workers[w].Idle? && s.queue != []
    case Finish(w, sound) =>
      w < |s.workers| && s.workers[w].Busy? && (sound.Audio? ==> sound.of == s.workers[w].item.text)
    case TaskDone(w) => w < |s.workers| && s.workers[w].Reporting?
    case DrainNow => s.phase.Streaming?
    case StartJoin => s.phase.Streaming?
    case JoinReturns => s.phase.Joining? && s.unfinished == 0
    case LastDrain => s.phase.Joined?
  }

  function Next(s: State, a: Action): State
    requires Enabled(s, a)
  {
    match a
    case Schedule(text) =>
      s.(queue := s.queue + [Item(s.scheduled, text)], scheduled := s.scheduled + 1,
         unfinished := s.unfinished + 1, texts := s.texts + [text])
    case Take(w) => s.(queue := s.queue[1..], workers := s.workers[w := Busy(s.queue[0])])
    case Finish(w, sound) =>
      s.(results := s.results + [Done(s.workers[w].item.n, sound)], workers := s.workers[w := Reporting],
         made := s.made[s.workers[w].item.n := sound])
    case TaskDone(w) =>
      s.(workers := s.workers[w := Idle], unfinished := if s.unfinished > 0 then s.unfinished - 1 else 0)
    case DrainNow => Drain(s)
    case StartJoin => s.(phase := Joining)
    case JoinReturns => s.(phase := Joined)
    case LastDrain => Drain(s).(phase := Closed)
  }

  ghost predicate Run(s: State, actions: seq<Action>, t: State)
    decreases |actions|
  {
    if actions == [] then s == t
    else Enabled(s, actions[0]) && Run(Next(s, actions[0]), actions[1..], t)
  }

  // ----- where a sentence number is -----

  function InQueue(queue: seq<Item>, n: nat): nat {
    if queue == [] then 0 else (if queue[0].n == n then 1 else 0) + InQueue(queue[1..], n)
  }

  function HeldBy(w: Worker, n: nat): nat {
    if w.Busy? && w.item.n == n then 1 else 0
  }

  function InWorkers(workers: seq<Worker>, n: nat): nat {
    if workers == [] then 0 else HeldBy(workers[0], n) + InWorkers(workers[1..], n)
  }

  function InResults(results: seq<Done>, n: nat): nat {
    if results == [] then 0 else (if results[0].n == n then 1 else 0) + InResults(results[1..], n)
  }

  /** In how many places is number n: queued, being synthesized, in the results
      queue, filed, or already passed by the drain? */
  function Places(s: State, n: nat): nat {
    InQueue(s.queue, n) + InWorkers(s.workers, n) + InResults(s.results, n) +
    (if n in s.completed then 1 else 0) + (if n < s.next then 1 else 0)
  }

  /** Each scheduled number is in exactly one place, once; no other is anywhere. */
  ghost predicate Conserved(s: State) {
    forall n: nat :: Places(s, n) == if n < s.scheduled then 1 else 0
  }

  lemma {:induction false} QueueAppend(queue: seq<Item>, x: Item, n: nat)
    ensures InQueue(queue + [x], n) == InQueue(queue, n) + (if x.n == n then 1 else 0)
  {
    if queue == [] {
      assert queue + [x] == [x];
      assert [x][1..] == [];
    } else {
      assert (queue + [x])[1..] == queue[1..] + [x];
      QueueAppend(queue[1..], x, n);
    }
  }

  lemma {:induction false} ResultsAppend(results: seq<Done>, x: Done, n: nat)
    ensures InResults(results + [x], n) == InResults(results, n) + (if x.n == n then 1 else 0)
  {
    if results == [] {
      assert results + [x] == [x];
      assert [x][1..] == [];
    } else {
      assert (results + [x])[1..] == results[1..] + [x];
      ResultsAppend(results[1..], x, n);
    }
  }

  lemma {:induction false} WorkersUpdate(workers: seq<Worker>, w: nat, x: Worker, n: nat)
    requires w < |workers|
    ensures InWorkers(workers[w := x], n) + HeldBy(workers[w], n) == InWorkers(workers, n) + HeldBy(x, n)
  {
    if w == 0 {
      assert workers[w := x][1..] == workers[1..];
    } else {
      assert workers[w := x][1..] == workers[1..][w - 1 := x];
      WorkersUpdate(workers[1..], w - 1, x, n);
    }
  }

  lemma {:induction false} CollectFiles(results: seq<Done>, completed: map<nat, Sound>, n: nat)
    ensures n in Collect(results, completed) <==> InResults(results, n) > 0 || n in completed
  {
    if results == [] {
    } else {
      CollectFiles(results[1..], completed[results[0].n := results[0].sound], n);
    }
  }

  /** The drain stops at the first number that is missing, and takes off exactly
      the run of numbers before it. */
  lemma {:induction false} ReleaseTakes(completed: map<nat, Sound>, next: nat)
    ensures var r := Release(completed, next);
            && r.next >= next && r.next !in r.completed
            && (forall n: nat :: next <= n < r.next ==> n in completed)
            && (forall n: nat :: n in r.completed <==> n in completed && !(next <= n < r.next))
    decreases |completed|
  {
    if next !in completed {
    } else {
      ReleaseTakes(completed - {next}, next + 1);
      var r := Release(completed - {next}, next + 1);
      assert Release(completed, next).completed == r.completed && Release(completed, next).next == r.next;
      hide Release;
      forall n: nat
        ensures n in r.completed <==> n in completed && !(next <= n < r.next)
        ensures next <= n < r.next ==> n in completed
      {
        assert next + 1 <= n < r.next ==> n in completed - {next};
      }
    }
  }

  lemma DrainConserves(s: State)
    requires Conserved(s)
    ensures Conserved(Drain(s)) && Drain(s).next >= s.next && Drain(s).next !in Drain(s).completed
  {
    ReleaseTakes(Collect(s.results, s.completed), s.next);
    var d := Drain(s);
    hide Release, Collect, InQueue, InWorkers;
    forall n: nat
      ensures Places(d, n) == if n < d.scheduled then 1 else 0
    {
      CollectFiles(s.results, s.completed, n);
      assert Places(s, n) == if n < s.scheduled then 1 else 0;
    }
  }

  lemma StepConserves(s: State, a: Action)
    requires Enabled(s, a) && Conserved(s)
    ensures Conserved(Next(s, a))
  {
    if a.DrainNow? || a.LastDrain? {
      DrainConserves(s);
      assert a.LastDrain? ==> forall n: nat :: Places(Next(s, a), n) == Places(Drain(s), n);
    } else {
      var t := Next(s, a);
      forall n: nat
        ensures Places(t, n) == if n < t.scheduled then 1 else 0
      {
        assert Places(s, n) == if n < s.scheduled then 1 else 0;
        match a
        case Schedule(text) => QueueAppend(s.queue, Item(s.scheduled, text), n);
        case Take(w) => WorkersUpdate(s.workers, w, Busy(s.queue[0]), n);
        case Finish(w, sound) =>
          WorkersUpdate(s.workers, w, Reporting, n);
          ResultsAppend(s.results, Done(s.workers[w].item.n, sound), n);
        case TaskDone(w) => WorkersUpdate(s.workers, w, Idle, n);
        case _ =>
      }
    }
  }

  // ----- what is said about a sentence is about that sentence -----

  /** A result for n is what was made of sentence n, and audio is of its text. */
  predicate SoundFits(s: State, n: nat, sound: Sound) {
    n < |s.texts| && n in s.made && s.made[n] == sound && (sound.Audio? ==> sound.of == s.texts[n])
  }

  ghost predicate Faithful(s: State) {
    && s.scheduled == |s.texts|
    && (forall i :: 0 <= i < |s.queue| ==> s.queue[i].n < |s.texts| && s.queue[i].text == s.texts[s.queue[i].n])
    && (forall w :: 0 <= w < |s.workers| && s.workers[w].Busy? ==>
          s.workers[w].item.n < |s.texts| && s.workers[w].item.text == s.texts[s.workers[w].item.n])
    && (forall i :: 0 <= i < |s.results| ==> SoundFits(s, s.results[i].n, s.results[i].sound))
    && (forall n :: n in s.completed ==> SoundFits(s, n, s.completed[n]))
    && (forall n :: n in s.made ==> InResults(s.results, n) > 0 || n in s.completed || n < s.next)
  }

  predicate Heard(events: seq<Done>, n: nat) {
    exists i :: 0 <= i < |events| && events[i].n == n
  }

  /** Audio is emitted in strictly increasing sentence order, below `next`, each
      event with the audio of its own sentence, and no audio below `next` is lost. */
  ghost predicate InOrder(s: State) {
    && (forall i :: 0 <= i < |s.emitted| ==> s.emitted[i].n < s.next)
    && (forall i, j :: 0 <= i < j < |s.emitted| ==> s.emitted[i].n < s.emitted[j].n)
    && (forall i :: 0 <= i < |s.emitted| ==>
          s.emitted[i].n < |s.texts| && s.emitted[i].sound == Audio(s.texts[s.emitted[i].n]))
    && (forall n: nat :: n < s.next ==> n in s.made && (s.made[n].Audio? <==> Heard(s.emitted, n)))
  }

  lemma {:induction false} CollectFits(results: seq<Done>, completed: map<nat, Sound>, s: State)
    requires forall i :: 0 <= i < |results| ==> SoundFits(s, results[i].n, results[i].sound)
    requires forall n :: n in completed ==> SoundFits(s, n, completed[n])
    ensures forall n :: n in Collect(results, completed) ==> SoundFits(s, n, Collect(results, completed)[n])
  {
    hide SoundFits;
    if results == [] {
    } else {
      CollectFits(results[1..], completed[results[0].n := results[0].sound], s);
    }
  }

  lemma {:induction false} ReleaseInOrder(completed: map<nat, Sound>, next: nat, s: State)
    requires forall n :: n in completed ==> SoundFits(s, n, completed[n])
    ensures var r := Release(completed, next);
            && (forall n :: n in r.completed ==> n in completed && r.completed[n] == completed[n])
            && (forall i :: 0 <= i < |r.events| ==> next <= r.events[i].n < r.next)
            && (forall i, j :: 0 <= i < j < |r.events| ==> r.events[i].n < r.events[j].n)
            && (forall i :: 0 <= i < |r.events| ==>
                  r.events[i].n < |s.texts| && r.events[i].sound == Audio(s.texts[r.events[i].n]))
    decreases |completed|
  {
    if next !in completed {
    } else {
      ReleaseInOrder(completed - {next}, next + 1, s);
      ReleaseTakes(completed - {next}, next + 1);
      var t := Release(completed - {next}, next + 1);
      var head := if completed[next].Audio? then [Done(next, completed[next])] else [];
      assert Release(completed, next).events == head + t.events;
    }
  }

  lemma {:induction false} ReleaseHeard(completed: map<nat, Sound>, next: nat, n: nat)
    requires next <= n < Release(completed, next).next
    ensures n in completed && (completed[n].Audio? <==> Heard(Release(completed, next).events, n))
    decreases |completed|
  {
    var t := Release(completed - {next}, next + 1);
    var head := if completed[next].Audio? then [Done(next, completed[next])] else [];
    var events := head + t.events;
    assert Release(completed, next).events == events;
    if n > next {
      ReleaseHeard(completed - {next}, next + 1, n);
      HeardConcat(head, t.events, n);
      assert !Heard(head, n);
    } else {
      EventsFrom(completed - {next}, next + 1);
      HeardConcat(head, t.events, n);
      assert !Heard(t.events, n);
      if completed[n].Audio? {
        assert head[0].n == n;
      }
    }
  }

  lemma {:induction false} EventsFrom(completed: map<nat, Sound>, next: nat)
    ensures forall i :: 0 <= i < |Release(completed, next).events| ==> Release(completed, next).events[i].n >= next
    decreases |completed|
  {
    if next !in completed {
    } else {
      EventsFrom(completed - {next}, next + 1);
    }
  }

  lemma HeardConcat(a: seq<Done>, b: seq<Done>, n: nat)
    ensures Heard(a + b, n) <==> Heard(a, n) || Heard(b, n)
  {
    if i :| 0 <= i < |a| && a[i].n == n {
      assert (a + b)[i] == a[i];
    }
    if i :| 0 <= i < |b| && b[i].n == n {
      assert (a + b)[|a| + i] == b[i];
    }
  }

  lemma DrainHeard(s: State, n: nat)
    requires Faithful(s) && InOrder(s) && n < Drain(s).next
    ensures n in s.made && (s.made[n].Audio? <==> Heard(Drain(s).emitted, n))
  {
    var c := Collect(s.results, s.completed);
    CollectFits(s.results, s.completed, s);
    var r := Release(c, s.next);
    HeardConcat(s.emitted, r.events, n);
    if n >= s.next {
      ReleaseHeard(c, s.next, n);
      assert SoundFits(s, n, c[n]);
      assert !Heard(s.emitted, n);
    } else {
      EventsFrom(c, s.next);
      assert !Heard(r.events, n);
    }
  }

  lemma DrainInOrder(s: State)
    requires Faithful(s) && InOrder(s)
    ensures InOrder(Drain(s))
  {
    var c := Collect(s.results, s.completed);
    CollectFits(s.results, s.completed, s);
    ReleaseInOrder(c, s.next, s);
    ReleaseTakes(c, s.next);
    var r, d := Release(c, s.next), Drain(s);
    assert d.emitted == s.emitted + r.events && d.next == r.next && d.made == s.made && d.texts == s.texts;
    hide Release, Collect, Heard, SoundFits;
    forall n: nat | n < d.next
      ensures n in d.made && (d.made[n].Audio? <==> Heard(d.emitted, n))
    {
      DrainHeard(s, n);
    }
    hide Drain;
    forall i, j | 0 <= i < j < |d.emitted|
      ensures d.emitted[i].n < d.emitted[j].n
    {
      if i >= |s.emitted| {
        assert d.emitted[i] == r.events[i - |s.emitted|] && d.emitted[j] == r.events[j - |s.emitted|];
      }
    }
  }

  lemma DrainFaithful(s: State)
    requires Faithful(s)
    ensures Faithful(Drain(s))
  {
    var c := Collect(s.results, s.completed);
    CollectFits(s.results, s.completed, s);
    ReleaseInOrder(c, s.next, s);
    ReleaseTakes(c, s.next);
    var r, d := Release(c, s.next), Drain(s);
    hide Release, Collect;
    forall n | n in d.made
      ensures n in d.completed || n < d.next
    {
      CollectFiles(s.results, s.completed, n);
    }
  }

  lemma {:induction false} HeldIsCounted(workers: seq<Worker>, w: nat)
    requires w < |workers| && workers[w].Busy?
    ensures InWorkers(workers, workers[w].item.n) > 0
  {
    if w == 0 {
    } else {
      HeldIsCounted(workers[1..], w - 1);
    }
  }

  /** A worker finishes a number nobody has finished before. */
  lemma FinishFaithful(s: State, w: nat, sound: Sound)
    requires Enabled(s, Finish(w, sound)) && Conserved(s) && Faithful(s) && InOrder(s)
    ensures Faithful(Next(s, Finish(w, sound))) && InOrder(Next(s, Finish(w, sound)))
  {
    var n := s.workers[w].item.n;
    HeldIsCounted(s.workers, w);
    assert Places(s, n) == if n < s.scheduled then 1 else 0;
    assert n !in s.made;
    var t := Next(s, Finish(w, sound));
    forall m | m in t.made
      ensures InResults(t.results, m) > 0 || m in t.completed || m < t.next
    {
      ResultsAppend(s.results, Done(n, sound), m);
    }
    forall i | 0 <= i < |t.results|
      ensures SoundFits(t, t.results[i].n, t.results[i].sound)
    {
      if i < |s.results| {
        assert SoundFits(s, s.results[i].n, s.results[i].sound);
      }
    }
    forall m | m in t.completed
      ensures SoundFits(t, m, t.completed[m])
    {
      assert SoundFits(s, m, s.completed[m]);
    }
  }

  lemma StepFaithful(s: State, a: Action)
    requires Enabled(s, a) && Conserved(s) && Faithful(s) && InOrder(s)
    ensures Faithful(Next(s, a)) && InOrder(Next(s, a))
  {
    match a
    case DrainNow =>
      DrainFaithful(s);
      DrainInOrder(s);
    case LastDrain =>
      DrainFaithful(s);
      DrainInOrder(s);
      SamePhaseless(Drain(s), Next(s, a));
    case Finish(w, sound) => FinishFaithful(s, w, sound);
    case Schedule(text) => ScheduleFaithful(s, text);
    case _ => SameTexts(s, a);
  }

  lemma SamePhaseless(s: State, t: State)
    requires t == s.(phase := t.phase) && Faithful(s) && InOrder(s)
    ensures Faithful(t) && InOrder(t)
  {
    assert forall n, x :: SoundFits(t, n, x) == SoundFits(s, n, x);
  }

  lemma ScheduleFaithful(s: State, text: string)
    requires Enabled(s, Schedule(text)) && Faithful(s) && InOrder(s)
    ensures Faithful(Next(s, Schedule(text))) && InOrder(Next(s, Schedule(text)))
  {
    var t := Next(s, Schedule(text));
    assert forall n, x :: SoundFits(s, n, x) ==> SoundFits(t, n, x);
  }

  lemma SameTexts(s: State, a: Action)
    requires Enabled(s, a) && Faithful(s) && InOrder(s)
    requires a.Take? || a.TaskDone? || a.StartJoin? || a.JoinReturns?
    ensures Faithful(Next(s, a)) && InOrder(Next(s, a))
  {
    var t := Next(s, a);
    assert forall n, x :: SoundFits(t, n, x) == SoundFits(s, n, x);
  }

  // ----- counting tasks -----

  function Owed(workers: seq<Worker>): nat {
    if workers == [] then 0 else (if workers[0].Idle? then 0 else 1) + Owed(workers[1..])
  }

  /** `unfinished_tasks` of the queue: queued, or taken and not reported done. */
  ghost predicate Counted(s: State) {
    s.unfinished == |s.queue| + Owed(s.workers) && |s.workers| == 2
  }

  lemma {:induction false} OwedUpdate(workers: seq<Worker>, w: nat, x: Worker)
    requires w < |workers|
    ensures Owed(workers[w := x]) + (if workers[w].Idle? then 0 else 1) == Owed(workers) + (if x.Idle? then 0 else 1)
  {
    if w == 0 {
      assert workers[w := x][1..] == workers[1..];
    } else {
      assert workers[w := x][1..] == workers[1..][w - 1 := x];
      OwedUpdate(workers[1..], w - 1, x);
    }
  }

  lemma StepCounted(s: State, a: Action)
    requires Enabled(s, a) && Counted(s)
    ensures Counted(Next(s, a))
  {
    match a
    case Take(w) => OwedUpdate(s.workers, w, Busy(s.queue[0]));
    case Finish(w, sound) => OwedUpdate(s.workers, w, Reporting);
    case TaskDone(w) => OwedUpdate(s.workers, w, Idle);
    case _ =>
  }

  /** Once `join` has returned nothing is queued or being worked on. */
  ghost predicate Settled(s: State) {
    s.phase in {Joined, Closed} ==> s.unfinished == 0
  }

  // ----- every run -----

  ghost predicate Invariant(s: State) {
    Conserved(s) && Faithful(s) && InOrder(s) && Counted(s) && Settled(s)
    && (s.phase.Closed? ==> s.results == [] && s.completed == map[] && s.next == s.scheduled)
    && |s.queue| <= CAPACITY
  }

  lemma {:induction false} NothingOwed(workers: seq<Worker>)
    requires Owed(workers) == 0
    ensures forall n: nat :: InWorkers(workers, n) == 0
    ensures forall w :: 0 <= w < |workers| ==> workers[w].Idle?
  {
    if workers == [] {
    } else {
      NothingOwed(workers[1..]);
      assert forall w :: 1 <= w < |workers| ==> workers[w] == workers[1..][w - 1];
    }
  }

  /** After `join`, one drain leaves nothing behind. */
  lemma LastDrainEmpties(s: State)
    requires Conserved(s) && Counted(s) && s.unfinished == 0
    ensures Drain(s).next == s.scheduled && Drain(s).completed == map[] && Drain(s).results == []
  {
    DrainConserves(s);
    NothingOwed(s.workers);
    var d := Drain(s);
    assert d.queue == [] && d.workers == s.workers && d.results == [] && d.scheduled == s.scheduled;
    hide Drain, InWorkers;
    forall n: nat
      ensures (if n in d.completed then 1 else 0) + (if n < d.next then 1 else 0) == if n < s.scheduled then 1 else 0
    {
      assert Places(d, n) == if n < d.scheduled then 1 else 0;
    }
    if d.next > 0 {
      assert d.next - 1 in d.completed || d.next - 1 < s.scheduled;
    }
    assert d.next in d.completed || d.next >= s.scheduled;
    assert d.next == s.scheduled;
    assert forall n: nat :: n !in d.completed;
  }

  lemma StepInvariant(s: State, a: Action)
    requires Enabled(s, a) && Invariant(s)
    ensures Invariant(Next(s, a))
  {
    hide Conserved, Faithful, InOrder, Counted;
    StepConserves(s, a);
    StepFaithful(s, a);
    StepCounted(s, a);
    if a.LastDrain? {
      LastDrainEmpties(s);
    }
    if s.phase.Joined? || s.phase.Closed? {
      IdleWhenSettled(s, a);
    }
  }

  /** With nothing unfinished no worker can move. */
  lemma IdleWhenSettled(s: State, a: Action)
    requires Counted(s) && s.unfinished == 0
    ensures WorkerStep(a) ==> !Enabled(s, a)
  {
    NothingOwed(s.workers);
  }

  lemma {:induction false} RunInvariant(s: State, actions: seq<Action>, t: State)
    requires Invariant(s) && Run(s, actions, t)
    ensures Invariant(t)
    decreases |actions|
  {
    hide Invariant;
    if actions == [] {
    } else {
      StepInvariant(s, actions[0]);
      RunInvariant(Next(s, actions[0]), actions[1..], t);
    }
  }

  lemma InitInvariant()
    ensures Invariant(Init())
  {
    assert Owed([Idle, Idle]) == 0 by {
      assert [Idle, Idle][1..] == [Idle] && [Idle][1..] == [];
    }
    NothingOwed([Idle, Idle]);
  }

  /** In every interleaving of producer, workers and drain: a number below the
      schedule counter is in exactly one place and any other number in none; audio
      has come out in strictly increasing order, each number at most once, each with
      the audio of its own sentence and none of it lost; and when the stream is closed every scheduled
      sentence has been passed. */
  lemma EveryInterleaving(actions: seq<Action>, t: State, n: nat)
    requires Run(Init(), actions, t)
    ensures Places(t, n) == if n < |t.texts| then 1 else 0
    ensures InOrder(t)
    ensures t.phase.Closed? ==> t.next == t.scheduled == |t.texts| && t.queue == [] && t.results == []
  {
    InitInvariant();
    RunInvariant(Init(), actions, t);
  }

  // ----- progress -----

  /** Work left for the workers: three moves for a queued sentence, two for one
      being synthesized, one for a result not yet reported. */
  function WorkerLoad(workers: seq<Worker>): nat {
    if workers == [] then 0
    else (match workers[0] case Idle => 0 case Busy(_) => 2 case Reporting => 1) + WorkerLoad(workers[1..])
  }

  function Load(s: State): nat {
    3 * |s.queue| + WorkerLoad(s.workers)
  }

  function LoadOf(w: Worker): nat {
    match w case Idle => 0 case Busy(_) => 2 case Reporting => 1
  }

  lemma {:induction false} LoadUpdate(workers: seq<Worker>, w: nat, x: Worker)
    requires w < |workers|
    ensures WorkerLoad(workers[w := x]) + LoadOf(workers[w]) == WorkerLoad(workers) + LoadOf(x)
  {
    if w == 0 {
      assert workers[w := x][1..] == workers[1..];
    } else {
      assert workers[w := x][1..] == workers[1..][w - 1 := x];
      LoadUpdate(workers[1..], w - 1, x);
    }
  }

  lemma {:induction false} LoadMeansOwed(workers: seq<Worker>)
    ensures WorkerLoad(workers) == 0 <==> Owed(workers) == 0
  {
    if workers == [] {
    } else {
      LoadMeansOwed(workers[1..]);
    }
  }

  /** Every worker move takes exactly one unit of work off. */
  lemma WorkerStepProgress(s: State, a: Action)
    requires Enabled(s, a) && WorkerStep(a)
    ensures Load(Next(s, a)) == Load(s) - 1
  {
    match a
    case Take(w) => LoadUpdate(s.workers, w, Busy(s.queue[0]));
    case Finish(w, sound) => LoadUpdate(s.workers, w, Reporting);
    case TaskDone(w) => LoadUpdate(s.workers, w, Idle);
  }

  /** As long as a task is unfinished some worker can move: a full queue, or a
      producer waiting in `join`, never blocks all parties. */
  lemma SomeWorkerCanMove(s: State) returns (a: Action)
    requires Invariant(s) && s.unfinished > 0
    ensures WorkerStep(a) && Enabled(s, a)
  {
    if s.workers[0].Busy? {
      a := Finish(0, Silence);
    } else if s.workers[0].Reporting? {
      a := TaskDone(0);
    } else if s.queue != [] {
      a := Take(0);
    } else if s.workers[1].Busy? {
      a := Finish(1, Silence);
    } else {
      a := TaskDone(1);
      assert s.workers[1..][1..] == [];
      assert Owed(s.workers[1..]) == (if s.workers[1].Idle? then 0 else 1) by {
        assert s.workers[1..][0] == s.workers[1];
      }
    }
  }

  /** So the producer is never stuck: from any reachable state, after at most
      `Load(s)` worker moves `join` can return. */
  lemma {:induction false} JoinIsReached(s: State) returns (actions: seq<Action>, t: State)
    requires Invariant(s)
    ensures Run(s, actions, t) && t.unfinished == 0 && |actions| == Load(s)
    ensures t.phase == s.phase && forall i :: 0 <= i < |actions| ==> WorkerStep(actions[i])
    decreases Load(s)
  {
    hide Places, Conserved, Faithful, InOrder, Drain, WorkerLoad, Owed;
    LoadMeansOwed(s.workers);
    if s.unfinished == 0 {
      actions, t := [], s;
    } else {
      var a := SomeWorkerCanMove(s);
      WorkerStepProgress(s, a);
      StepInvariant(s, a);
      var rest, u := JoinIsReached(Next(s, a));
      actions, t := [a] + rest, u;
      assert actions[1..] == rest;
    }
  }
}
