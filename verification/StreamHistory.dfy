/** The history of a stream request: every chunk of data reaches every stream there was when it arrived, exactly once;
    completions wait for all of that; and completions that were held are handed on in order. */
module StreamHistory {
  import opened StreamGate
  import opened Occurrences

  // ---- Every chunk reaches every stream --------------------------------------------------------------

  /** For every received chunk, how many streams had been added before, read off the run. */
  function Arrivals(run: seq<Action>, streams: nat): seq<nat> {
    if run == [] then []
    else if run[0].AddStream? then Arrivals(run[1..], streams + 1)
    else if run[0].Receive? then [streams] + Arrivals(run[1..], streams)
    else Arrivals(run[1..], streams)
  }

  lemma StepArrives(s: State, a: Action)
    requires Enabled(s, a)
    ensures |Step(s, a).streams| == |s.streams| + (if a.AddStream? then 1 else 0)
    ensures Step(s, a).arrivals == if a.Receive? then s.arrivals + [|s.streams|] else s.arrivals
  {}

  lemma {:induction false} RunArrives(s: State, run: seq<Action>)
    requires Legal(s, run)
    ensures Exec(s, run).arrivals == s.arrivals + Arrivals(run, |s.streams|)
    decreases |run|
  {
    hide Step, Enabled;
    if run == [] {
      assert s.arrivals + [] == s.arrivals;
    } else {
      var first := if run[0].Receive? then [|s.streams|] else [];
      var others := Arrivals(run[1..], |Step(s, run[0]).streams|);
      StepArrives(s, run[0]);
      RunArrives(Step(s, run[0]), run[1..]);
      assert s.arrivals + first + others == s.arrivals + (first + others);
    }
  }

  /** A chunk of data and a stream, both counted from zero. */
  type Pair = (nat, nat)

  /** Chunk and stream of each call. */
  function Pairs(q: seq<Invocation>): (r: seq<Pair>)
    ensures |r| == |q|
    ensures forall i :: 0 <= i < |q| ==> r[i] == (q[i].chunk, q[i].stream)
  {
    seq(|q|, i requires 0 <= i < |q| => (q[i].chunk, q[i].stream))
  }

  /** The chunk has arrived, and the stream was there. */
  predicate Due(arrivals: seq<nat>, pair: Pair) {
    pair.0 < |arrivals| && pair.1 < arrivals[pair.0]
  }

  /** A parser call is under way or finished exactly once for every stream that was there when the chunk arrived, and
      never for any other. */
  predicate PairKept(s: State, pair: Pair) {
    Count(Pairs(s.invocations), pair) + Count(s.finished, pair) == if Due(s.arrivals, pair) then 1 else 0
  }

  lemma {:induction false} NewCalls(streams: seq<Parser>, chunk: nat, pair: Pair)
    ensures Count(Pairs(Invocations(streams, chunk)), pair) == if pair.0 == chunk && pair.1 < |streams| then 1 else 0
    decreases |streams|
  {
    var all := Pairs(Invocations(streams, chunk));
    if streams != [] {
      var n := |streams| - 1;
      NewCalls(streams[..n], chunk, pair);
      assert all == Pairs(Invocations(streams[..n], chunk)) + [(chunk, n)];
      CountSnoc(Pairs(Invocations(streams[..n], chunk)), (chunk, n), pair);
    } else {
      assert all == [];
    }
  }

  lemma ReceivePairs(s: State, pair: Pair)
    requires PairKept(s, pair)
    ensures PairKept(ReceiveData(s), pair)
  {
    hide Invocations, Pairs, Count;
    var added := Invocations(s.streams, |s.arrivals|);
    PairsAppend(s.invocations, added);
    CountAppend(Pairs(s.invocations), Pairs(added), pair);
    NewCalls(s.streams, |s.arrivals|, pair);
  }

  lemma PairsAppend(q: seq<Invocation>, t: seq<Invocation>)
    ensures Pairs(q + t) == Pairs(q) + Pairs(t)
  {}

  lemma FinishPairs(s: State, k: nat, pair: Pair)
    requires PairKept(s, pair) && Enabled(s, Finish(k))
    ensures PairKept(Step(s, Finish(k)), pair)
  {
    hide Count;
    var v := s.invocations[k];
    assert Pairs(Without(s.invocations, k)) == Without(Pairs(s.invocations), k);
    CountWithout(Pairs(s.invocations), k, pair);
    CountSnoc(s.finished, (v.chunk, v.stream), pair);
  }

  lemma StepPairs(s: State, a: Action, pair: Pair)
    requires PairKept(s, pair) && Enabled(s, a)
    ensures PairKept(Step(s, a), pair)
  {
    hide ReceiveData, UpdateAndComplete, Count;
    match a
    case Receive => ReceivePairs(s, pair);
    case Finish(k) => FinishPairs(s, k, pair);
    case Advance(k) => assert Pairs(s.invocations[k := Next(s.invocations[k])]) == Pairs(s.invocations);
    case _ =>
  }

  lemma {:induction false} RunPairs(s: State, run: seq<Action>, pair: Pair)
    requires PairKept(s, pair) && Legal(s, run)
    ensures PairKept(Exec(s, run), pair)
    decreases |run|
  {
    hide PairKept, Step, Enabled;
    if run != [] {
      StepPairs(s, run[0], pair);
      RunPairs(Step(s, run[0]), run[1..], pair);
    }
  }

  lemma Reached(run: seq<Action>, pair: Pair)
    requires Legal(Init, run)
    ensures PairKept(Exec(Init, run), pair) && Exec(Init, run).arrivals == Arrivals(run, 0)
  {
    hide Exec, Legal;
    assert PairKept(Init, pair);
    RunPairs(Init, run, pair);
    RunArrives(Init, run);
    assert [] + Arrivals(run, 0) == Arrivals(run, 0);
  }

  /** In every run, each received chunk is given exactly once to each stream added before it arrived, and to no other;
      and once no call is under way, each has been handled exactly once. */
  lemma EveryChunkHandled(run: seq<Action>, chunk: nat, stream: nat)
    requires Legal(Init, run)
    ensures var s, due := Exec(Init, run), if Due(Arrivals(run, 0), (chunk, stream)) then 1 else 0;
      && Count(Pairs(s.invocations), (chunk, stream)) + Count(s.finished, (chunk, stream)) == due
      && (s.invocations == [] ==> Count(s.finished, (chunk, stream)) == due)
  {
    hide Exec, Legal, Due;
    Reached(run, (chunk, stream));
  }

  lemma ReleaseWhenIdle(s: State, a: Action, e: Event)
    requires Gate(s) && Enabled(s, a)
    ensures TimesReleased(Step(s, a).releases, e) > TimesReleased(s.releases, e) ==> Step(s, a).invocations == []
  {
    hide TimesReleased, Released, ReleasedIdle, Invocations;
  }

  /** When a step releases a completion, every stream has finished with every chunk that has arrived. */
  lemma ReleasedAfterAllChunks(run: seq<Action>, a: Action, e: Event, chunk: nat, stream: nat)
    requires Legal(Init, run) && Enabled(Exec(Init, run), a)
    ensures var s, s' := Exec(Init, run), Step(Exec(Init, run), a);
      TimesReleased(s'.releases, e) > TimesReleased(s.releases, e) && Due(Arrivals(run, 0), (chunk, stream)) ==>
        Count(s'.finished, (chunk, stream)) == 1
  {
    hide Exec, Legal, Step, Enabled, Gate, Kept, TimesReleased, NonePresented;
    var s, pair := Exec(Init, run), (chunk, stream);
    Initially(e);
    RunKeeps(Init, run, e);
    Reached(run, pair);
    StepPairs(s, a, pair);
    StepArrives(s, a);
    ReleaseWhenIdle(s, a, e);
  }

  /** A handler that wants the raw data gets them directly; any other is called only after the serialization queue and
      then the underlying queue have had the data. Each stage is entered from the one before. */
  lemma StagesInOrder(s: State, k: nat)
    requires Enabled(s, Advance(k))
    ensures var v, v' := s.invocations[k], Step(s, Advance(k)).invocations[k];
      && v'.parser == v.parser && v'.chunk == v.chunk && v'.stream == v.stream
      && (v'.stage == Serializing ==> v.parser == Serialized && v.stage == Dispatched)
      && (v'.stage == Parsed ==> v.stage == Serializing)
      && (v'.stage == Handling ==> v.stage == Parsed || (v.parser == Passthrough && v.stage == Dispatched))
      && v'.stage != Dispatched
  {}

  // ---- Every completion is handed on ----------------------------------------------------------------

  /** The completions registered during the run. */
  function Completions(run: seq<Action>): seq<Event> {
    if run == [] then []
    else (if run[0].AddCompletion? then [run[0].event] else []) + Completions(run[1..])
  }

  lemma StepRegisters(s: State, a: Action)
    requires Enabled(s, a)
    ensures Step(s, a).registered == s.registered + (if a.AddCompletion? then [a.event] else [])
  {}

  lemma {:induction false} RunRegisters(s: State, run: seq<Action>)
    requires Legal(s, run)
    ensures Exec(s, run).registered == s.registered + Completions(run)
    decreases |run|
  {
    hide Step, Enabled;
    if run == [] {
      assert s.registered + [] == s.registered;
    } else {
      var first := if run[0].AddCompletion? then [run[0].event] else [];
      StepRegisters(s, run[0]);
      RunRegisters(Step(s, run[0]), run[1..]);
      assert s.registered + first + Completions(run[1..]) == s.registered + (first + Completions(run[1..]));
    }
  }

  /** Once every parser call has finished, every serializer has presented its completion and the released batches have
      been worked off, every completion registered during the run, and no other, was handed on exactly once. */
  lemma EveryCompletionHandedOn(run: seq<Action>, e: Event)
    requires Legal(Init, run)
    requires var s := Exec(Init, run); s.invocations == [] && s.awaiting == [] && s.batches == []
    ensures Count(Exec(Init, run).enqueued, e) == if e in Completions(run) then 1 else 0
  {
    hide Exec, Legal;
    RunRegisters(Init, run);
    assert [] + Completions(run) == Completions(run);
    AllReleasedWhenQuiet(run, e);
  }

  // ---- Held completions stay in order -----------------------------------------------------------------

  /** The events of `q` that are among the given ones, in their order. */
  function Only(q: seq<Event>, among: seq<Event>): seq<Event> {
    if q == [] then []
    else Only(q[..|q| - 1], among) + (if q[|q| - 1] in among then [q[|q| - 1]] else [])
  }

  function Flat(q: seq<seq<Event>>): seq<Event> {
    if q == [] then [] else q[0] + Flat(q[1..])
  }

  /** The completions that were held are, in the order in which they were presented: handed on, released, still held. */
  predicate InOrder(s: State) {
    Only(s.enqueued, s.everHeld) + Flat(s.batches) + s.held == s.everHeld
  }

  lemma {:induction false} OnlyAppend(q: seq<Event>, t: seq<Event>, among: seq<Event>)
    ensures Only(q + t, among) == Only(q, among) + Only(t, among)
    decreases |t|
  {
    if t == [] {
      assert q + t == q;
    } else {
      var n := |t| - 1;
      OnlyAppend(q, t[..n], among);
      assert (q + t)[..|q| + n] == q + t[..n];
    }
  }

  lemma {:induction false} OnlyAll(q: seq<Event>, among: seq<Event>)
    requires forall i :: 0 <= i < |q| ==> q[i] in among
    ensures Only(q, among) == q
    decreases |q|
  {
    if q != [] {
      OnlyAll(q[..|q| - 1], among);
      assert q == q[..|q| - 1] + [q[|q| - 1]];
    }
  }

  lemma {:induction false} OnlyMore(q: seq<Event>, among: seq<Event>, e: Event)
    requires e !in q
    ensures Only(q, among + [e]) == Only(q, among)
    decreases |q|
  {
    if q != [] { OnlyMore(q[..|q| - 1], among, e); }
  }

  lemma {:induction false} OnlyFrom(q: seq<Event>, among: seq<Event>)
    ensures forall x :: x in Only(q, among) ==> x in q
    decreases |q|
  {
    if q != [] { OnlyFrom(q[..|q| - 1], among); }
  }

  lemma {:induction false} FlatSnoc(q: seq<seq<Event>>, b: seq<Event>)
    ensures Flat(q + [b]) == Flat(q) + b
  {
    if q == [] {
      assert q + [b] == [b] && [b][1..] == [] && b + [] == b;
    } else {
      FlatSnoc(q[1..], b);
      assert (q + [b])[1..] == q[1..] + [b];
    }
  }

  lemma {:induction false} FlatCount(q: seq<seq<Event>>, e: Event)
    ensures Count(Flat(q), e) == InBatches(q, e)
  {
    if q != [] {
      FlatCount(q[1..], e);
      CountAppend(q[0], Flat(q[1..]), e);
    }
  }

  /** An event that has yet to be presented is neither handed on, released nor held, and was never held. */
  lemma NotYetHeld(s: State, k: nat)
    requires InOrder(s) && k < |s.awaiting| && Kept(s, s.awaiting[k])
    ensures s.awaiting[k] !in s.enqueued && s.awaiting[k] !in s.everHeld
  {
    var e := s.awaiting[k];
    CountWithout(s.awaiting, k, e);
    FlatCount(s.batches, e);
    OnlyFrom(s.enqueued, s.everHeld);
    assert e !in Flat(s.batches) by { assert Count(Flat(s.batches), e) == 0; }
  }

  lemma PresentInOrder(s: State, k: nat)
    requires InOrder(s) && k < |s.awaiting| && Kept(s, s.awaiting[k])
    ensures InOrder(PresentEvent(s.(awaiting := Without(s.awaiting, k)), s.awaiting[k]))
  {
    hide Kept, Without, Only, Flat;
    var e := s.awaiting[k];
    NotYetHeld(s, k);
    OnlyMore(s.enqueued, s.everHeld, e);
    OnlyAppend(s.enqueued, [e], s.everHeld);
    OnlyNone(e, s.everHeld);
    assert Only(s.enqueued, s.everHeld) + [] == Only(s.enqueued, s.everHeld);
  }

  lemma OnlyNone(e: Event, among: seq<Event>)
    requires e !in among
    ensures Only([e], among) == []
  {}

  lemma BatchInOrder(s: State)
    requires InOrder(s) && s.batches != []
    ensures InOrder(Step(s, RunBatch))
  {
    hide Only, Flat;
    var b, front := s.batches[0], Only(s.enqueued, s.everHeld);
    var others := Flat(s.batches[1..]);
    assert Flat(s.batches) == b + others by { FlatFirst(s.batches); }
    MiddleOf(front, b, others, s.held);
    OnlyAppend(s.enqueued, b, s.everHeld);
    OnlyAll(b, s.everHeld);
  }

  lemma FlatFirst(q: seq<seq<Event>>)
    requires q != []
    ensures Flat(q) == q[0] + Flat(q[1..])
  {}

  lemma MiddleOf(front: seq<Event>, b: seq<Event>, others: seq<Event>, held: seq<Event>)
    ensures front + (b + others) + held == (front + b) + others + held
    ensures forall i :: 0 <= i < |b| ==> b[i] in front + (b + others) + held
  {
    forall i | 0 <= i < |b| ensures b[i] in front + (b + others) + held {
      assert (front + (b + others) + held)[|front| + i] == b[i];
    }
  }

  lemma StepInOrder(s: State, a: Action)
    requires InOrder(s) && Enabled(s, a) && (a.Present? ==> Kept(s, s.awaiting[a.k]))
    ensures InOrder(Step(s, a))
  {
    hide Kept, PresentEvent, Only, Flat;
    match a
    case Present(k) => PresentInOrder(s, k);
    case RunBatch => BatchInOrder(s);
    case Finish(k) =>
      FlatSnoc(s.batches, s.held);
      var front := Only(s.enqueued, s.everHeld);
      assert front + (Flat(s.batches) + s.held) + [] == front + Flat(s.batches) + s.held;
    case _ =>
  }

  lemma {:induction false} RunInOrder(s: State, run: seq<Action>)
    requires Gate(s) && (forall e: Event :: Kept(s, e)) && InOrder(s) && Legal(s, run)
    ensures InOrder(Exec(s, run))
    decreases |run|
  {
    hide Gate, Kept, InOrder, Step;
    if run != [] {
      StepInOrder(s, run[0]);
      StepKeeps(s, run[0], 0);
      forall e: Event ensures Kept(Step(s, run[0]), e) { StepKeeps(s, run[0], e); }
      RunInOrder(Step(s, run[0]), run[1..]);
    }
  }

  /** In every run, the completions that were held are handed on in the order in which they were presented, none left
      out; and once nothing is held or released any more, all of them have been. */
  lemma HeldInOrder(run: seq<Action>)
    requires Legal(Init, run)
    ensures var s := Exec(Init, run);
      && Only(s.enqueued, s.everHeld) <= s.everHeld
      && (s.held == [] && s.batches == [] ==> Only(s.enqueued, s.everHeld) == s.everHeld)
  {
    hide Exec, Legal, Gate, Kept, NonePresented;
    Initially(0);
    forall e: Event ensures Kept(Init, e) { Initially(e); }
    assert InOrder(Init);
    RunInOrder(Init, run);
    var s := Exec(Init, run);
    assert Only(s.enqueued, s.everHeld) + Flat(s.batches) + s.held
      == Only(s.enqueued, s.everHeld) + (Flat(s.batches) + s.held);
  }
}
