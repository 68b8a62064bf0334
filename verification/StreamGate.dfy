/** The completion gate of Alamofire's DataStreamRequest: completion events are held back while parsers are
    still at work on received data. One step per critical section or dispatched block, in any interleaving. */
module StreamGate {
  import opened Occurrences

  /** A completion closure of one `responseStream` call. */
  type Event = nat

  datatype Parser = Passthrough | Serialized

  /** Where one call of a parser is: in the block `didReceive` dispatched, on the serialization queue, back on the
      underlying queue, or on the handler's queue. */
  datatype Stage = Dispatched | Serializing | Parsed | Handling

  /** One call of a parser: the chunk of data, counted in the order of arrival, and the stream it belongs to. */
  datatype Invocation = Invocation(parser: Parser, chunk: nat, stream: nat, stage: Stage)

  /** `StreamMutableState`; the parser calls not finished yet; completions their serializer has not presented yet
      (`awaiting`), released to the underlying queue (`batches`), and handed to their handler's queue (`enqueued`).
      The rest is history: registered completions; releases, each with the number of parser calls unfinished at that
      moment; for every chunk how many streams there were when it arrived; the finished parser calls; and the
      completions that were held, in the order in which they were presented. */
  datatype State = State(
    streams: seq<Parser>, numberOfExecutingStreams: int, held: seq<Event>,
    invocations: seq<Invocation>, awaiting: seq<Event>, batches: seq<seq<Event>>, enqueued: seq<Event>,
    registered: seq<Event>, releases: seq<(Event, nat)>,
    arrivals: seq<nat>, finished: seq<(nat, nat)>, everHeld: seq<Event>)

  const Init := State([], 0, [], [], [], [], [], [], [], [], [], [])

  function Invocations(streams: seq<Parser>, chunk: nat): (r: seq<Invocation>)
    ensures |r| == |streams|
    ensures forall i :: 0 <= i < |r| ==> r[i] == Invocation(streams[i], chunk, i, Dispatched)
  {
    seq(|streams|, i requires 0 <= i < |streams| => Invocation(streams[i], chunk, i, Dispatched))
  }

  /** The next stage before the last one, which is left by `Finish`. */
  function Next(v: Invocation): Invocation {
    if v.stage == Dispatched then v.(stage := if v.parser == Passthrough then Handling else Serializing)
    else if v.stage == Serializing then v.(stage := Parsed)
    else v.(stage := Handling)
  }

  function Released(events: seq<Event>, unfinished: nat): seq<(Event, nat)> {
    if events == [] then [] else [(events[0], unfinished)] + Released(events[1..], unfinished)
  }

  datatype Action =
    | AddStream(parser: Parser)
    | AddCompletion(event: Event)
    | Receive
    | Advance(k: nat)
    | Finish(k: nat)
    | Present(k: nat)
    | RunBatch

  predicate Enabled(s: State, a: Action) {
    match a
    case AddStream(_) => true
    case AddCompletion(e) => e !in s.registered
    case Receive => true
    case Advance(k) => k < |s.invocations| && s.invocations[k].stage != Handling
    case Finish(k) => k < |s.invocations| && s.invocations[k].stage == Handling
    case Present(k) => k < |s.awaiting|
    case RunBatch => s.batches != []
  }

  /** `updateAndCompleteIfPossible` */
  function UpdateAndComplete(s: State): State {
    var s' := s.(numberOfExecutingStreams := s.numberOfExecutingStreams - 1);
    if s'.numberOfExecutingStreams != 0 || s'.held == [] then s'
    else s'.(batches := s'.batches + [s'.held], held := [],
             releases := s'.releases + Released(s'.held, |s'.invocations|))
  }

  /** The critical section of `appendStreamCompletion`. */
  function PresentEvent(s: State, e: Event): State {
    if s.numberOfExecutingStreams != 0 then s.(held := s.held + [e], everHeld := s.everHeld + [e])
    else s.(enqueued := s.enqueued + [e], releases := s.releases + [(e, |s.invocations|)])
  }

  /** `didReceive` */
  function ReceiveData(s: State): State {
    s.(numberOfExecutingStreams := s.numberOfExecutingStreams + |s.streams|,
       invocations := s.invocations + Invocations(s.streams, |s.arrivals|),
       arrivals := s.arrivals + [|s.streams|])
  }

  function Step(s: State, a: Action): State
    requires Enabled(s, a)
  {
    match a
    case AddStream(p) => s.(streams := s.streams + [p])
    case AddCompletion(e) => s.(awaiting := s.awaiting + [e], registered := s.registered + [e])
    case Receive => ReceiveData(s)
    case Advance(k) => s.(invocations := s.invocations[k := Next(s.invocations[k])])
    case Finish(k) =>
      var v := s.invocations[k];
      UpdateAndComplete(s.(invocations := Without(s.invocations, k), finished := s.finished + [(v.chunk, v.stream)]))
    case Present(k) => PresentEvent(s.(awaiting := Without(s.awaiting, k)), s.awaiting[k])
    case RunBatch => s.(batches := s.batches[1..], enqueued := s.enqueued + s.batches[0])
  }

  predicate Legal(s: State, run: seq<Action>)
    decreases |run|
  {
    run == [] || (Enabled(s, run[0]) && Legal(Step(s, run[0]), run[1..]))
  }

  function Exec(s: State, run: seq<Action>): State
    requires Legal(s, run)
    decreases |run|
  {
    if run == [] then s else Exec(Step(s, run[0]), run[1..])
  }

  // ---- What every step keeps ----------------------------------------------------------------------------

  function InBatches(q: seq<seq<Event>>, e: Event): nat {
    if q == [] then 0 else Count(q[0], e) + InBatches(q[1..], e)
  }

  function TimesReleased(r: seq<(Event, nat)>, e: Event): nat {
    if r == [] then 0 else (if r[0].0 == e then 1 else 0) + TimesReleased(r[1..], e)
  }

  /** Every release found no parser at work. */
  predicate ReleasedIdle(r: seq<(Event, nat)>) {
    forall i :: 0 <= i < |r| ==> r[i].1 == 0
  }

  /** The counter counts the unfinished parser calls, events are held only while there are some, and releases
      happened only while there were none. */
  predicate Gate(s: State) {
    && s.numberOfExecutingStreams == |s.invocations|
    && (s.held != [] ==> s.numberOfExecutingStreams > 0)
    && ReleasedIdle(s.releases)
  }

  /** A registered event is in one place, and it was released exactly when it is past the gate. */
  predicate Kept(s: State, e: Event) {
    && Count(s.registered, e) <= 1
    && Count(s.registered, e) ==
       Count(s.awaiting, e) + Count(s.held, e) + InBatches(s.batches, e) + Count(s.enqueued, e)
    && TimesReleased(s.releases, e) == InBatches(s.batches, e) + Count(s.enqueued, e)
  }

  lemma {:induction false} BatchesSnoc(q: seq<seq<Event>>, b: seq<Event>, e: Event)
    ensures InBatches(q + [b], e) == InBatches(q, e) + Count(b, e)
  {
    if q == [] {
      assert [] + [b] == [b];
    } else {
      BatchesSnoc(q[1..], b, e);
      assert (q + [b])[1..] == q[1..] + [b];
    }
  }

  lemma {:induction false} ReleasesAppend(r: seq<(Event, nat)>, t: seq<(Event, nat)>, e: Event)
    ensures TimesReleased(r + t, e) == TimesReleased(r, e) + TimesReleased(t, e)
  {
    if r == [] {
      assert r + t == t;
    } else {
      ReleasesAppend(r[1..], t, e);
      assert (r + t)[1..] == r[1..] + t;
    }
  }

  lemma {:induction false} ReleasedEvents(events: seq<Event>, unfinished: nat, e: Event)
    ensures TimesReleased(Released(events, unfinished), e) == Count(events, e)
    ensures unfinished == 0 ==> ReleasedIdle(Released(events, unfinished))
  {
    if events != [] {
      CountFirst(events, e);
      ReleasedEvents(events[1..], unfinished, e);
    }
  }

  lemma FinishKeeps(s: State, k: nat, e: Event)
    requires Gate(s) && Kept(s, e) && k < |s.invocations|
    ensures var v := s.invocations[k];
      var s' :=
        UpdateAndComplete(s.(invocations := Without(s.invocations, k), finished := s.finished + [(v.chunk, v.stream)]));
      Gate(s') && Kept(s', e)
  {
    var left := |s.invocations| - 1;
    BatchesSnoc(s.batches, s.held, e);
    ReleasedEvents(s.held, left, e);
    ReleasesAppend(s.releases, Released(s.held, left), e);
  }

  lemma PresentKeeps(s: State, k: nat, e: Event)
    requires Gate(s) && Kept(s, e) && k < |s.awaiting|
    ensures var s' := PresentEvent(s.(awaiting := Without(s.awaiting, k)), s.awaiting[k]); Gate(s') && Kept(s', e)
  {
    var x := s.awaiting[k];
    CountWithout(s.awaiting, k, e);
    CountSnoc(s.held, x, e);
    CountSnoc(s.enqueued, x, e);
    ReleasesAppend(s.releases, [(x, 0)], e);
  }

  lemma StepKeeps(s: State, a: Action, e: Event)
    requires Gate(s) && Kept(s, e) && Enabled(s, a)
    ensures Gate(Step(s, a)) && Kept(Step(s, a), e)
  {
    match a
    case AddStream(_) =>
    case AddCompletion(x) =>
      CountSnoc(s.awaiting, x, e);
      CountSnoc(s.registered, x, e);
    case Receive =>
    case Advance(_) =>
    case Finish(k) => FinishKeeps(s, k, e);
    case Present(k) => PresentKeeps(s, k, e);
    case RunBatch => CountAppend(s.enqueued, s.batches[0], e);
  }

  lemma {:induction false} RunKeeps(s: State, run: seq<Action>, e: Event)
    requires Gate(s) && Kept(s, e) && Legal(s, run)
    ensures Gate(Exec(s, run)) && Kept(Exec(s, run), e)
    decreases |run|
  {
    hide Gate, Kept, Step, Enabled;
    if run != [] {
      StepKeeps(s, run[0], e);
      RunKeeps(Step(s, run[0]), run[1..], e);
    }
  }

  lemma Initially(e: Event)
    ensures Gate(Init) && Kept(Init, e) && NonePresented(Init)
  {}

  /** In every interleaving: the counter is the number of unfinished parser calls; events are held only while it is
      positive; an event is released at most once, and only when no parser call was unfinished. */
  lemma CompletionGate(run: seq<Action>, e: Event)
    requires Legal(Init, run)
    ensures var s := Exec(Init, run);
      && s.numberOfExecutingStreams == |s.invocations|
      && (s.held != [] ==> s.numberOfExecutingStreams > 0)
      && TimesReleased(s.releases, e) <= 1
      && (forall i :: 0 <= i < |s.releases| ==> s.releases[i].1 == 0)
      && (e in s.enqueued ==> TimesReleased(s.releases, e) == 1)
  {
    hide Exec, Legal;
    RunKeeps(Init, run, e);
  }

  /** No completion is forgotten: once every parser call has finished, every serializer has presented its event
      and the released batches have been worked off, each registered event was handed on exactly once. */
  lemma AllReleasedWhenQuiet(run: seq<Action>, e: Event)
    requires Legal(Init, run)
    requires var s := Exec(Init, run); s.invocations == [] && s.awaiting == [] && s.batches == []
    ensures var s := Exec(Init, run); Count(s.enqueued, e) == if e in s.registered then 1 else 0
  {
    hide Exec, Legal;
    RunKeeps(Init, run, e);
  }

  // ---- Data before completion ----------------------------------------------------------------------------

  /** Nothing is past the gate while a parser is at work. */
  predicate DataFirst(s: State) {
    s.batches != [] || s.enqueued != [] ==> s.invocations == []
  }

  predicate NonePresented(s: State) {
    s.held == [] && s.batches == [] && s.enqueued == []
  }

  predicate NoReceive(run: seq<Action>) {
    forall i :: 0 <= i < |run| ==> !run[i].Receive?
  }

  /** No data is received once a serializer has presented its completion. */
  predicate ReceivesFirst(run: seq<Action>)
    decreases |run|
  {
    run == [] || (if run[0].Present? then NoReceive(run[1..]) else ReceivesFirst(run[1..]))
  }

  lemma StepDataFirst(s: State, a: Action)
    requires Gate(s) && Enabled(s, a)
    ensures !a.Receive? && DataFirst(s) ==> DataFirst(Step(s, a))
    ensures !a.Present? && NonePresented(s) ==> NonePresented(Step(s, a))
  {
    hide ReleasedIdle, Invocations;
  }

  lemma {:induction false} RunDataFirst(s: State, run: seq<Action>)
    requires Gate(s) && Kept(s, 0) && Legal(s, run)
    requires (DataFirst(s) && NoReceive(run)) || (NonePresented(s) && ReceivesFirst(run))
    ensures DataFirst(Exec(s, run))
    decreases |run|
  {
    hide Gate, Step, Enabled, Kept;
    if run != [] {
      StepKeeps(s, run[0], 0);
      StepDataFirst(s, run[0]);
      assert NoReceive(run) ==> NoReceive(run[1..]);
      RunDataFirst(Step(s, run[0]), run[1..]);
    }
  }

  /** When no data follows a presented completion, no completion reaches its handler before every parser call on
      all received data has finished. */
  lemma CompletionAfterAllData(run: seq<Action>)
    requires Legal(Init, run) && ReceivesFirst(run)
    ensures Exec(Init, run).enqueued != [] ==> Exec(Init, run).invocations == []
  {
    hide Exec, Legal, ReceivesFirst, NoReceive, Gate, Kept, NonePresented;
    Initially(0);
    RunDataFirst(Init, run);
  }
}
