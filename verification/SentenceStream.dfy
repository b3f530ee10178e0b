/** Cutting a streamed answer into sentences for speech, while the text itself is
    passed on unchanged. */
module SentenceStream {
  import opened Text
  import CharClass

  // ----- the sentence pattern -----

  /** Characters that end a sentence on their own, and closers that go with them. */
  predicate Stop(c: char) {
    c in {'\U{3002}', '\U{FF01}', '\U{FF1F}', '!', '?', '\U{FF1B}', ';', '\n'}
  }

  predicate Closer(c: char) {
    c in {'\U{201D}', '\U{2019}', '"', '\U{300F}', '\U{300D}', '\U{3011}', '\U{300B}', '\U{FF09}', ')'}
  }

  /** The classes as the pattern lists them. */
  lemma StopsRead(c: char)
    ensures Stop(c) <==> CharClass.InClass("\U{3002}\U{FF01}\U{FF1F}!?\U{FF1B};\n", c)
  {
    CharClass.Unranged("\U{3002}\U{FF01}\U{FF1F}!?\U{FF1B};\n", c);
    hide CharClass.InClass;
  }

  lemma ClosersRead(c: char)
    ensures Closer(c) <==> CharClass.InClass("\U{201D}\U{2019}\"\U{300F}\U{300D}\U{3011}\U{300B}\U{FF09})", c)
  {
    CharClass.Unranged("\U{201D}\U{2019}\"\U{300F}\U{300D}\U{3011}\U{300B}\U{FF09})", c);
    hide CharClass.InClass;
  }

  function Closers(b: string, p: nat): nat
    decreases |b| - p
  {
    if p < |b| && Closer(b[p]) then 1 + Closers(b, p + 1) else 0
  }

  /** Where a match that starts at p ends: a stop with its closers, or nothing at
      all right after `.`, `!` or `?` in front of a blank or the end. */
  function MatchAt(space: char -> bool, b: string, p: nat): Option<nat>
    requires p <= |b|
  {
    if p < |b| && Stop(b[p]) then Some(p + 1 + Closers(b, p + 1))
    else if p > 0 && b[p - 1] in {'.', '!', '?'} && (p == |b| || space(b[p])) then Some(p)
    else None
  }

  /** `sentence_end.search(b).end()`: the first position with a match. */
  function SearchFrom(space: char -> bool, b: string, p: nat): Option<nat>
    requires p <= |b|
    decreases |b| - p
  {
    if MatchAt(space, b, p).Some? then MatchAt(space, b, p)
    else if p == |b| then None
    else SearchFrom(space, b, p + 1)
  }

  lemma {:induction false} ClosersInside(b: string, p: nat)
    requires p <= |b|
    ensures p + Closers(b, p) <= |b|
    decreases |b| - p
  {
    if p >= |b| || !Closer(b[p]) {
    } else {
      ClosersInside(b, p + 1);
    }
  }

  /** Even a zero-width match ends behind the start of the buffer, so cutting there
      always shortens it. */
  lemma {:induction false} SearchProgress(space: char -> bool, b: string, p: nat)
    requires p <= |b| && SearchFrom(space, b, p).Some?
    ensures 0 < SearchFrom(space, b, p).value <= |b|
    decreases |b| - p
  {
    if MatchAt(space, b, p).Some? {
      if p < |b| && Stop(b[p]) {
        ClosersInside(b, p + 1);
      }
    } else {
      SearchProgress(space, b, p + 1);
    }
  }

  // ----- cutting a buffer -----

  datatype Cut = Cut(sentences: seq<string>, rest: string)

  function CutAll(space: char -> bool, b: string): Cut
    decreases |b|
  {
    var e := SearchFrom(space, b, 0);
    if e.None? then Cut([], b)
    else
      SearchProgress(space, b, 0);
      var c := CutAll(space, b[e.value..]);
      Cut([b[..e.value]] + c.sentences, c.rest)
  }

  function Concat(parts: seq<string>): string {
    if parts == [] then [] else parts[0] + Concat(parts[1..])
  }

  lemma {:induction false} ConcatAppend(parts: seq<string>, more: seq<string>)
    ensures Concat(parts + more) == Concat(parts) + Concat(more)
  {
    if parts == [] {
      assert parts + more == more;
    } else {
      assert (parts + more)[1..] == parts[1..] + more;
      ConcatAppend(parts[1..], more);
    }
  }

  lemma ConcatOne(part: string)
    ensures Concat([part]) == part
  {
    assert [part][1..] == [];
  }

  /** Cutting loses nothing, yields no empty sentence, and leaves a rest in which no
      sentence ends. */
  lemma {:induction false} CutLosesNothing(space: char -> bool, b: string)
    ensures var c := CutAll(space, b);
            && Concat(c.sentences) + c.rest == b
            && (forall i :: 0 <= i < |c.sentences| ==> c.sentences[i] != [])
            && SearchFrom(space, c.rest, 0).None?
    decreases |b|
  {
    hide SearchFrom, MatchAt;
    var e := SearchFrom(space, b, 0);
    if e.None? {
    } else {
      SearchProgress(space, b, 0);
      CutLosesNothing(space, b[e.value..]);
      var c := CutAll(space, b[e.value..]);
      assert ([b[..e.value]] + c.sentences)[1..] == c.sentences;
      assert Concat([b[..e.value]] + c.sentences) + c.rest == b[..e.value] + (Concat(c.sentences) + c.rest);
      assert b == b[..e.value] + b[e.value..];
    }
  }

  lemma CutConserves(space: char -> bool, scheduled: seq<string>, buffer: string, m: string)
    ensures var c := CutAll(space, buffer + m);
            Concat(scheduled + c.sentences) + c.rest == Concat(scheduled) + buffer + m
  {
    hide CutAll, Concat;
    var c := CutAll(space, buffer + m);
    CutLosesNothing(space, buffer + m);
    ConcatAppend(scheduled, c.sentences);
    assert Concat(scheduled) + Concat(c.sentences) + c.rest == Concat(scheduled) + (Concat(c.sentences) + c.rest);
  }

  // ----- where sentences end -----

  /** The first e characters end in a stop and all the closers that come next. */
  ghost predicate StopEnd(b: string, e: nat)
    requires e <= |b|
  {
    && (exists p :: 0 <= p < e && Stop(b[p]) && forall q :: p < q < e ==> Closer(b[q]))
    && (e < |b| ==> !Closer(b[e]))
  }

  /** They end in a full stop, in front of a blank that is no stop itself, or of nothing.
      (Exclamation and question marks are stops.) */
  predicate DotEnd(space: char -> bool, b: string, e: nat)
    requires e <= |b|
  {
    e > 0 && b[e - 1] == '.' && (e < |b| ==> space(b[e]) && !Stop(b[e]))
  }

  ghost predicate Ends(space: char -> bool, b: string, e: nat)
    requires e <= |b|
  {
    StopEnd(b, e) || DotEnd(space, b, e)
  }

  /** The first sentence of b has e characters. */
  ghost predicate FirstEnd(space: char -> bool, b: string, e: nat)
    requires e <= |b|
  {
    Ends(space, b, e) && forall i :: 0 <= i < e ==> !Ends(space, b, i)
  }

  ghost predicate NoEnd(space: char -> bool, b: string) {
    forall e :: 0 <= e <= |b| ==> !Ends(space, b, e)
  }

  /** Each sentence is the first of what remains, and no sentence ends in the rest. */
  ghost predicate Sentences(space: char -> bool, b: string, sentences: seq<string>, rest: string) {
    if sentences == [] then b == rest && NoEnd(space, rest)
    else
      var e := |sentences[0]|;
      && e <= |b| && b[..e] == sentences[0] && FirstEnd(space, b, e)
      && Sentences(space, b[e..], sentences[1..], rest)
  }

  lemma {:induction false} ClosersAre(b: string, p: nat)
    requires p <= |b|
    ensures var e := p + Closers(b, p);
      && e <= |b| && (forall q :: p <= q < e ==> Closer(b[q])) && (e < |b| ==> !Closer(b[e]))
    decreases |b| - p
  {
    if p >= |b| || !Closer(b[p]) {
    } else {
      ClosersAre(b, p + 1);
    }
  }

  /** A match from p on ends a sentence there; a sentence that ends anywhere has a match
      that starts no later. */
  lemma MatchEnds(space: char -> bool, b: string, p: nat)
    requires p <= |b| && MatchAt(space, b, p).Some? && (p > 0 ==> !MatchAt(space, b, p - 1).Some?)
    ensures p <= MatchAt(space, b, p).value <= |b| && Ends(space, b, MatchAt(space, b, p).value)
  {
    if p < |b| && Stop(b[p]) {
      ClosersAre(b, p + 1);
    }
  }

  lemma EndMatches(space: char -> bool, b: string, e: nat) returns (p: nat)
    requires e <= |b| && Ends(space, b, e)
    ensures p <= e && MatchAt(space, b, p).Some?
    ensures (p < |b| && Stop(b[p]) && p < e && MatchAt(space, b, p) == Some(e)) ||
            (p == e && MatchAt(space, b, p) == Some(e))
  {
    if StopEnd(b, e) {
      p :| 0 <= p < e && Stop(b[p]) && forall q :: p < q < e ==> Closer(b[q]);
      ClosersAre(b, p + 1);
    } else {
      p := e;
    }
  }

  lemma NoEarlierEnd(space: char -> bool, b: string, p: nat, e: nat)
    requires p <= |b| && MatchAt(space, b, p).Some? && forall i :: 0 <= i < p ==> MatchAt(space, b, i).None?
    requires e <= |b| && e < MatchAt(space, b, p).value
    ensures !Ends(space, b, e)
  {
    if p < |b| && Stop(b[p]) {
      ClosersAre(b, p + 1);
    }
    if Ends(space, b, e) {
      var q := EndMatches(space, b, e);
    }
  }

  /** The search finds the first place where a sentence ends. */
  lemma {:induction false} SearchIsFirst(space: char -> bool, b: string, p: nat)
    requires p <= |b| && forall i :: 0 <= i < p ==> MatchAt(space, b, i).None?
    ensures var r := SearchFrom(space, b, p);
      if r.Some? then r.value <= |b| && FirstEnd(space, b, r.value) else NoEnd(space, b)
    decreases |b| - p
  {
    hide MatchAt, Ends;
    if MatchAt(space, b, p).Some? {
      MatchEnds(space, b, p);
      var f := MatchAt(space, b, p).value;
      forall e | 0 <= e < f ensures !Ends(space, b, e) {
        NoEarlierEnd(space, b, p, e);
      }
    } else if p == |b| {
      forall e | 0 <= e <= |b| ensures !Ends(space, b, e) {
        if Ends(space, b, e) {
          var q := EndMatches(space, b, e);
        }
      }
    } else {
      SearchIsFirst(space, b, p + 1);
    }
  }

  /** Cutting gives the sentences of the buffer. */
  lemma {:induction false} CutGivesSentences(space: char -> bool, b: string)
    ensures Sentences(space, b, CutAll(space, b).sentences, CutAll(space, b).rest)
    decreases |b|
  {
    hide SearchFrom, FirstEnd, NoEnd;
    SearchIsFirst(space, b, 0);
    var e := SearchFrom(space, b, 0);
    if e.None? {
    } else {
      SearchProgress(space, b, 0);
      CutGivesSentences(space, b[e.value..]);
      var c := CutAll(space, b[e.value..]);
      var all := [b[..e.value]] + c.sentences;
      assert all[1..] == c.sentences && all[0] == b[..e.value];
    }
  }

  /** There is no other way to cut it into sentences. */
  lemma {:induction false} OnlyOneCut(space: char -> bool, b: string, ss: seq<string>, r: string,
                                      ss': seq<string>, r': string)
    requires Sentences(space, b, ss, r) && Sentences(space, b, ss', r')
    ensures ss == ss' && r == r'
    decreases |ss|
  {
    hide Ends;
    if ss == [] || ss' == [] {
    } else {
      var e, e' := |ss[0]|, |ss'[0]|;
      assert FirstEnd(space, b, e) && FirstEnd(space, b, e');
      assert e == e';
      OnlyOneCut(space, b[e..], ss[1..], r, ss'[1..], r');
      assert ss == [ss[0]] + ss[1..] && ss' == [ss'[0]] + ss'[1..];
    }
  }

  // ----- a whole stream -----

  const OPEN := "<think>"
  const CLOSE := "</think>"

  predicate Marker(m: string) {
    m == OPEN || m == CLOSE
  }

  /** What a listener should hear: the chunks outside think sections. */
  function Spoken(chunks: seq<string>, thinking: bool): string {
    if chunks == [] then []
    else if chunks[0] == OPEN then Spoken(chunks[1..], true)
    else if chunks[0] == CLOSE then Spoken(chunks[1..], false)
    else (if thinking then [] else chunks[0]) + Spoken(chunks[1..], thinking)
  }

  /** What a reader should see: every chunk that is not a marker. */
  function Written(chunks: seq<string>): string {
    if chunks == [] then [] else (if Marker(chunks[0]) then [] else chunks[0]) + Written(chunks[1..])
  }

  /** Thinking or not after these chunks. */
  function Thinking(chunks: seq<string>): bool {
    if chunks == [] then false
    else
      var last := chunks[|chunks| - 1];
      if last == OPEN then true else if last == CLOSE then false else Thinking(chunks[..|chunks| - 1])
  }

  lemma {:induction false} SpokenAppend(chunks: seq<string>, m: string, thinking: bool, prefix: seq<string>)
    requires thinking == Thinking(prefix)
    ensures Spoken(chunks + [m], thinking) ==
            Spoken(chunks, thinking) + (if Marker(m) || Thinking(prefix + chunks) then [] else m)
    decreases |chunks|
  {
    if chunks == [] {
      assert chunks + [m] == [m] && [m][1..] == [] && prefix + chunks == prefix;
    } else {
      var c := chunks[0];
      assert (chunks + [m])[1..] == chunks[1..] + [m];
      assert (prefix + [c])[..|prefix|] == prefix;
      assert prefix + chunks == prefix + [c] + chunks[1..];
      SpokenAppend(chunks[1..], m, if c == OPEN then true else if c == CLOSE then false else thinking, prefix + [c]);
    }
  }

  lemma {:induction false} WrittenAppend(chunks: seq<string>, m: string)
    ensures Written(chunks + [m]) == Written(chunks) + (if Marker(m) then [] else m)
  {
    if chunks == [] {
      assert chunks + [m] == [m] && [m][1..] == [];
    } else {
      assert (chunks + [m])[1..] == chunks[1..] + [m];
      WrittenAppend(chunks[1..], m);
    }
  }

  /** The stream handler's local state; `scheduled` and `shown` record what it sends
      to speech and to the client. */
  class Handler {
    const space: char -> bool
    const speech: bool
    var content: string
    var buffer: string
    var thinking: bool
    var scheduled: seq<string>
    var shown: seq<string>

    constructor (space: char -> bool, speech: bool)
      ensures content == "" && buffer == "" && !thinking && scheduled == [] && shown == []
      ensures this.space == space && this.speech == speech
    {
      this.space, this.speech := space, speech;
      content, buffer, thinking, scheduled, shown := "", "", false, [], [];
    }

    /** After these chunks: nothing is lost, repeated or moved. */
    ghost predicate Valid(chunks: seq<string>)
      reads this
    {
      && thinking == Thinking(chunks)
      && content == Written(chunks) == Concat(shown)
      && (speech ==> Concat(scheduled) + buffer == Spoken(chunks, false))
      && (!speech ==> scheduled == [])
    }

    /** `_schedule_tts`: only with a speech model and a non-empty text. */
    method Schedule(text: string)
      modifies this`scheduled
      ensures scheduled == if speech && text != "" then old(scheduled) + [text] else old(scheduled)
    {
      if speech && text != "" {
        scheduled := scheduled + [text];
      }
    }

    /** The inner loop: sentences leave the buffer one by one. */
    method CutBuffer()
      modifies this`buffer, this`scheduled
      ensures buffer == CutAll(space, old(buffer)).rest
      ensures scheduled == if speech then old(scheduled) + CutAll(space, old(buffer)).sentences else old(scheduled)
      ensures speech ==> old(scheduled) <= scheduled &&
                         Sentences(space, old(buffer), scheduled[|old(scheduled)|..], buffer)
    {
      CutGivesSentences(space, buffer);
      hide Sentences;
      ghost var done: seq<string> := [];
      ghost var start := buffer;
      while true
        invariant CutAll(space, start) == Cut(done + CutAll(space, buffer).sentences, CutAll(space, buffer).rest)
        invariant scheduled == if speech then old(scheduled) + done else old(scheduled)
        decreases |buffer|
      {
        var e := SearchFrom(space, buffer, 0);
        if e.None? {
          assert done + [] == done;
          break;
        }
        SearchProgress(space, buffer, 0);
        var sentence := buffer[..e.value];
        ghost var c := CutAll(space, buffer[e.value..]).sentences;
        assert done + ([sentence] + c) == done + [sentence] + c;
        buffer := buffer[e.value..];
        assert old(scheduled) + done + [sentence] == old(scheduled) + (done + [sentence]);
        done := done + [sentence];
        Schedule(sentence);
      }
    }

    /** `_process_stream`.  A think section begins behind a flush; only text outside of
        one is spoken, sentence by sentence. */
    method Process(m: string, ghost chunks: seq<string>)
      requires Valid(chunks)
      modifies this
      ensures Valid(chunks + [m])
      ensures speech && m == OPEN ==>
                buffer == "" && scheduled == old(scheduled) + if old(buffer) == "" then [] else [old(buffer)]
      ensures m == CLOSE || m == "" || (old(thinking) && m != OPEN) ==>
                buffer == old(buffer) && scheduled == old(scheduled)
      ensures speech && m != "" && !Marker(m) && !old(thinking) ==>
                old(scheduled) <= scheduled &&
                Sentences(space, old(buffer) + m, scheduled[|old(scheduled)|..], buffer)
    {
      hide Spoken, Written, CutAll, Concat, SearchFrom, Sentences;
      WrittenAppend(chunks, m);
      SpokenAppend(chunks, m, false, []);
      assert [] + chunks == chunks;
      assert (chunks + [m])[..|chunks|] == chunks;
      if m == "" {
        return;
      }
      if m == OPEN {
        ConcatAppend(scheduled, [buffer]);
        ConcatOne(buffer);
        Schedule(buffer);
        thinking, buffer := true, "";
      } else if m == CLOSE {
        thinking := false;
      } else {
        content := content + m;
        ConcatAppend(shown, [m]);
        ConcatOne(m);
        shown := shown + [m];
        if !thinking {
          CutConserves(space, scheduled, buffer, m);
          buffer := buffer + m;
          CutBuffer();
        }
      }
    }

    /** `_stream_events` without the audio: process every chunk, then flush. */
    method Stream(chunks: seq<string>)
      requires Valid([])
      modifies this
      ensures content == Written(chunks) == Concat(shown)
      ensures speech ==> Concat(scheduled) == Spoken(chunks, false)
      ensures buffer == ""
    {
      hide Spoken, Written, Concat, Sentences;
      for n := 0 to |chunks|
        invariant Valid(chunks[..n])
      {
        assert chunks[..n + 1] == chunks[..n] + [chunks[n]];
        Process(chunks[n], chunks[..n]);
      }
      assert chunks[..|chunks|] == chunks;
      ConcatAppend(scheduled, [buffer]);
      ConcatOne(buffer);
      if buffer != "" {
        Schedule(buffer);
        buffer := "";
      }
    }
  }
}
