/** The stream request as an object: its critical sections and dispatched blocks, performed in place. */
module DataStreamRequest {
  import opened StreamGate
  import opened Occurrences

  ghost predicate Safe(s: State) {
    Gate(s) && forall e: Event :: Kept(s, e)
  }

  lemma StepSafe(s: State, a: Action)
    requires Safe(s) && Enabled(s, a)
    ensures Safe(Step(s, a))
  {
    hide Gate, Kept, Step, Enabled;
    StepKeeps(s, a, 0);
    forall e: Event ensures Kept(Step(s, a), e) { StepKeeps(s, a, e); }
  }

  class DataStreamRequest {
    var streams: seq<Parser>
    var numberOfExecutingStreams: int
    var enqueuedCompletionEvents: seq<Event>
    /** Work on the dispatch queues. */
    var invocations: seq<Invocation>
    var serializers: seq<Event>
    var batches: seq<seq<Event>>
    var handlerQueue: seq<Event>
    /** History. */
    ghost var registered: seq<Event>
    ghost var releases: seq<(Event, nat)>
    ghost var arrivals: seq<nat>
    ghost var finished: seq<(nat, nat)>
    ghost var everHeld: seq<Event>

    ghost function Abs(): State
      reads this
    {
      State(streams, numberOfExecutingStreams, enqueuedCompletionEvents, invocations, serializers, batches,
            handlerQueue, registered, releases, arrivals, finished, everHeld)
    }

    constructor ()
      ensures Abs() == Init && Safe(Abs())
    {
      streams, numberOfExecutingStreams, enqueuedCompletionEvents := [], 0, [];
      invocations, serializers, batches, handlerQueue := [], [], [], [];
      registered, releases, arrivals, finished, everHeld := [], [], [], [], [];
    }

    /** `responseStream` adds a parser... */
    method AppendStream(parser: Parser)
      requires Safe(Abs())
      modifies this
      ensures Abs() == Step(old(Abs()), AddStream(parser)) && Safe(Abs())
    {
      StepSafe(Abs(), AddStream(parser));
      streams := streams + [parser];
    }

    /** ... and a serializer that will present the completion event. */
    method AppendStreamCompletion(event: Event)
      requires Safe(Abs()) && event !in registered
      modifies this
      ensures Abs() == Step(old(Abs()), AddCompletion(event)) && Safe(Abs())
    {
      StepSafe(Abs(), AddCompletion(event));
      serializers := serializers + [event];
      registered := registered + [event];
    }

    /** `didReceive`; the data are named by their place in the order of arrival. */
    method DidReceive(chunk: nat)
      requires Safe(Abs()) && chunk == |arrivals|
      modifies this
      ensures Abs() == Step(old(Abs()), Receive) && Safe(Abs())
    {
      StepSafe(Abs(), Receive);
      numberOfExecutingStreams := numberOfExecutingStreams + |streams|;
      var localStreams := streams;
      for i := 0 to |localStreams|
        modifies this`invocations
        invariant invocations == old(invocations) + Invocations(localStreams, |arrivals|)[..i]
      {
        invocations := invocations + [Invocation(localStreams[i], chunk, i, Dispatched)];
      }
      arrivals := arrivals + [|streams|];
          }

    /** A parser call moves on to its next queue. */
    method AdvanceParser(k: nat)
      requires Safe(Abs()) && k < |invocations| && invocations[k].stage != Handling
      modifies this
      ensures Abs() == Step(old(Abs()), Advance(k)) && Safe(Abs())
    {
      StepSafe(Abs(), Advance(k));
      var v := invocations[k];
      var stage := match v.stage
        case Dispatched => if v.parser == Passthrough then Handling else Serializing
        case Serializing => Parsed
        case _ => Handling;
      invocations := invocations[k := v.(stage := stage)];
    }

    /** The handler has run: `updateAndCompleteIfPossible`. */
    method UpdateAndCompleteIfPossible(k: nat)
      requires Safe(Abs()) && k < |invocations| && invocations[k].stage == Handling
      modifies this
      ensures Abs() == Step(old(Abs()), Finish(k)) && Safe(Abs())
    {
      StepSafe(Abs(), Finish(k));
      var v := invocations[k];
      invocations := Without(invocations, k);
      finished := finished + [(v.chunk, v.stream)];
      numberOfExecutingStreams := numberOfExecutingStreams - 1;
      if numberOfExecutingStreams != 0 || enqueuedCompletionEvents == [] { return; }
      var completionEvents := enqueuedCompletionEvents;
      batches := batches + [completionEvents];
      releases := releases + Released(completionEvents, |invocations|);
      enqueuedCompletionEvents := [];
    }

    /** A serializer presents its completion event to the gate. */
    method ResponseSerializerDidComplete(k: nat)
      requires Safe(Abs()) && k < |serializers|
      modifies this
      ensures Abs() == Step(old(Abs()), Present(k)) && Safe(Abs())
    {
      StepSafe(Abs(), Present(k));
      var event := serializers[k];
      serializers := Without(serializers, k);
      if numberOfExecutingStreams != 0 {
        enqueuedCompletionEvents := enqueuedCompletionEvents + [event];
        everHeld := everHeld + [event];
        return;
      }
      handlerQueue := handlerQueue + [event];
      releases := releases + [(event, |invocations|)];
    }

    /** The underlying queue works off a batch of released events, one after the other. */
    method RunCompletionEvents()
      requires Safe(Abs()) && batches != []
      modifies this
      ensures Abs() == Step(old(Abs()), RunBatch) && Safe(Abs())
    {
      StepSafe(Abs(), RunBatch);
      var completionEvents := batches[0];
      batches := batches[1..];
      ghost var before := handlerQueue;
      for i := 0 to |completionEvents|
        modifies this`handlerQueue
        invariant handlerQueue == before + completionEvents[..i]
      {
        handlerQueue := handlerQueue + [completionEvents[i]];
      }
      assert completionEvents[..|completionEvents|] == completionEvents;
    }
  }
}
