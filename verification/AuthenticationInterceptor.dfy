/** The interceptor as an object: each method is one critical section on `MutableState` together with the
    completion calls that follow it, performed in place and proved equal to the step of the protocol. */
module Authentication {
  import opened Bits
  import opened Interceptor
  import opened Occurrences

  /** What every step keeps: one refresh at a time, every completion in one place, and the rate limit. */
  ghost predicate Safe(s: State) {
    && OneRefresh(s)
    && (forall id: Id :: Kept(s, id))
    && Limited(s)
  }

  lemma StepSafe(s: State, a: Action)
    requires Safe(s) && Enabled(s, a)
    ensures Safe(Step(s, a))
  {
    hide OneRefresh, Kept, Limited, Step, Enabled;
    StepLimited(s, a);
    StepKeeps(s, a, 0);
    forall id: Id ensures Kept(Step(s, a), id) { StepKeeps(s, a, id); }
  }

  class AuthenticationInterceptor {
    var credential: Option<Credential>
    var isRefreshing: bool
    var refreshTimestamps: seq<real>
    const refreshWindow: Option<RefreshWindow>
    var adaptOperations: seq<Id>
    var requestsToRetry: seq<Id>
    /** The serial dispatch queue, the refreshes not answered yet, and retry calls waiting for the lock. */
    var queue: seq<Block>
    var inFlight: nat
    var retrying: seq<RetryCall>
    /** History. */
    ghost var submitted: seq<Id>
    ghost var calls: seq<(Id, Outcome)>

    ghost function Abs(): State
      reads this
    {
      State(credential, isRefreshing, refreshTimestamps, refreshWindow, adaptOperations, requestsToRetry,
            queue, inFlight, retrying, submitted, calls)
    }

    constructor (credential: Option<Credential>, refreshWindow: Option<RefreshWindow>)
      ensures Abs() == Init(credential, refreshWindow) && Safe(Abs())
    {
      this.credential, this.refreshWindow := credential, refreshWindow;
      isRefreshing, refreshTimestamps := false, [];
      adaptOperations, requestsToRetry := [], [];
      queue, inFlight, retrying, submitted, calls := [], 0, [], [], [];
    }

    /** The setter of the public `credential` property. */
    method SetCredential(newCredential: Option<Credential>)
      requires Safe(Abs())
      modifies this
      ensures Abs() == Step(old(Abs()), Action.SetCredential(newCredential)) && Safe(Abs())
    {
      StepSafe(Abs(), Action.SetCredential(newCredential));
      credential := newCredential;
    }

    method IsRefreshExcessive(now: real) returns (excessive: bool)
      ensures excessive == Excessive(Abs(), now)
    {
      if refreshWindow.None? { return false; }
      var refreshWindowMin := now - refreshWindow.value.interval;
      var attempts := 0;
      for i := 0 to |refreshTimestamps|
        invariant attempts == CountSince(refreshTimestamps[..i], refreshWindowMin)
      {
        assert refreshTimestamps[..i + 1][..i] == refreshTimestamps[..i];
        if refreshWindowMin <= refreshTimestamps[i] { attempts := attempts + 1; }
      }
      assert refreshTimestamps[..|refreshTimestamps|] == refreshTimestamps;
      excessive := attempts >= refreshWindow.value.maximumAttempts;
    }

    method HandleRefreshFailure(error: Error)
      modifies this
      ensures Abs() == HandleFailure(old(Abs()), error)
      ensures adaptOperations == requestsToRetry == [] && !isRefreshing
      ensures queue == old(queue) + [ReleaseFailure(error, old(adaptOperations), old(requestsToRetry))]
      ensures forall id: Id :: Located(Abs(), id) == old(Located(Abs(), id))
    {
      var adapts, retries := adaptOperations, requestsToRetry;
      adaptOperations, requestsToRetry := [], [];
      isRefreshing := false;
      queue := queue + [ReleaseFailure(error, adapts, retries)];
      forall id: Id { BlocksSnoc(old(queue), ReleaseFailure(error, adapts, retries), id); }
    }

    method HandleRefreshSuccess(newCredential: Credential)
      modifies this
      ensures Abs() == HandleSuccess(old(Abs()), newCredential)
      ensures adaptOperations == requestsToRetry == [] && !isRefreshing && credential == Some(newCredential)
      ensures queue == old(queue) + [ReleaseSuccess(old(adaptOperations), old(requestsToRetry))]
      ensures forall id: Id :: Located(Abs(), id) == old(Located(Abs(), id))
    {
      credential := Some(newCredential);
      var adapts, retries := adaptOperations, requestsToRetry;
      adaptOperations, requestsToRetry := [], [];
      isRefreshing := false;
      queue := queue + [ReleaseSuccess(adapts, retries)];
      forall id: Id { BlocksSnoc(old(queue), ReleaseSuccess(adapts, retries), id); }
    }

    method RefreshInsideLock(stale: Credential, checkedAt: real, startedAt: real)
      modifies this
      ensures Abs() == Refresh(old(Abs()), stale, checkedAt, startedAt)
      ensures isRefreshing == !old(Excessive(Abs(), checkedAt))
      ensures isRefreshing ==> refreshTimestamps == old(refreshTimestamps) + [startedAt]
      ensures !isRefreshing ==> adaptOperations == requestsToRetry == [] && refreshTimestamps == old(refreshTimestamps)
      ensures forall id: Id :: Located(Abs(), id) == old(Located(Abs(), id))
    {
      var excessive := IsRefreshExcessive(checkedAt);
      if excessive {
        HandleRefreshFailure(ExcessiveRefresh);
        return;
      }
      refreshTimestamps := refreshTimestamps + [startedAt];
      isRefreshing := true;
      queue := queue + [StartRefresh(stale)];
      forall id: Id { BlocksSnoc(old(queue), StartRefresh(stale), id); }
    }

    /** The completion closure is called. */
    method Complete(id: Id, outcome: Outcome)
      modifies this
      ensures Abs() == Call(old(Abs()), id, outcome)
    {
      calls := calls + [(id, outcome)];
    }

    method AdaptOperation(id: Id, requiresRefresh: bool, checkedAt: real, startedAt: real)
      modifies this
      ensures Abs() == AdaptStep(old(Abs()), id, requiresRefresh, checkedAt, startedAt)
    {
      if isRefreshing {
        adaptOperations := adaptOperations + [id];
      } else if credential.None? {
        Complete(id, AdaptFailed(MissingCredential));
      } else if requiresRefresh {
        adaptOperations := adaptOperations + [id];
        RefreshInsideLock(credential.value, checkedAt, startedAt);
      } else {
        Complete(id, Adapted(credential.value));
      }
    }

    method Adapt(id: Id, requiresRefresh: bool, checkedAt: real, startedAt: real)
      requires Safe(Abs()) && id !in submitted && checkedAt <= startedAt
      modifies this
      ensures Abs() == Step(old(Abs()), Action.Adapt(id, requiresRefresh, checkedAt, startedAt)) && Safe(Abs())
    {
      StepSafe(Abs(), Action.Adapt(id, requiresRefresh, checkedAt, startedAt));
      submitted := submitted + [id];
      AdaptOperation(id, requiresRefresh, checkedAt, startedAt);
    }

    /** `retry` up to the lock. */
    method Retry(id: Id, answered: bool, authError: bool, current: bool)
      requires Safe(Abs()) && id !in submitted
      modifies this
      ensures Abs() == Step(old(Abs()), Action.Retry(id, answered, authError, current)) && Safe(Abs())
    {
      StepSafe(Abs(), Action.Retry(id, answered, authError, current));
      submitted := submitted + [id];
      if !answered || !authError {
        Complete(id, DoNotRetry);
      } else if credential.None? {
        Complete(id, DoNotRetryWith(MissingCredential));
      } else if !current {
        Complete(id, RetryNow);
      } else {
        retrying := retrying + [RetryCall(id, credential.value)];
      }
    }

    /** `retry` inside the lock, for any of the calls that wait for it. */
    method RetryInsideLock(k: nat, checkedAt: real, startedAt: real)
      requires Safe(Abs()) && k < |retrying| && checkedAt <= startedAt
      modifies this
      ensures Abs() == Step(old(Abs()), RetryLock(k, checkedAt, startedAt)) && Safe(Abs())
    {
      StepSafe(Abs(), RetryLock(k, checkedAt, startedAt));
      var call := retrying[k];
      retrying := Without(retrying, k);
      requestsToRetry := requestsToRetry + [call.id];
      if !isRefreshing { RefreshInsideLock(call.credential, checkedAt, startedAt); }
    }

    /** The serial queue does the next piece of work of its front block. */
    method RunNext(requiresRefresh: bool, checkedAt: real, startedAt: real)
      requires Safe(Abs()) && queue != [] && checkedAt <= startedAt
      modifies this
      ensures Abs() == Step(old(Abs()), Run(requiresRefresh, checkedAt, startedAt)) && Safe(Abs())
    {
      StepSafe(Abs(), Run(requiresRefresh, checkedAt, startedAt));
      var others := queue[1..];
      match queue[0]
      case StartRefresh(_) =>
        queue, inFlight := others, inFlight + 1;
      case ReleaseSuccess(adapts, retries) =>
        if adapts != [] {
          queue := [ReleaseSuccess(adapts[1..], retries)] + others;
          AdaptOperation(adapts[0], requiresRefresh, checkedAt, startedAt);
        } else if retries != [] {
          queue := [ReleaseSuccess([], retries[1..])] + others;
          Complete(retries[0], RetryNow);
        } else {
          queue := others;
        }
      case ReleaseFailure(error, adapts, retries) =>
        if adapts != [] {
          queue := [ReleaseFailure(error, adapts[1..], retries)] + others;
          Complete(adapts[0], AdaptFailed(error));
        } else if retries != [] {
          queue := [ReleaseFailure(error, [], retries[1..])] + others;
          Complete(retries[0], DoNotRetryWith(error));
        } else {
          queue := others;
        }
    }

    /** The authenticator answers a refresh. */
    method RefreshAnswered(newCredential: Option<Credential>, code: int)
      requires Safe(Abs()) && inFlight > 0
      modifies this
      ensures Safe(Abs())
      ensures Abs() ==
        Step(old(Abs()), if newCredential.Some? then RefreshSucceeds(newCredential.value) else RefreshFails(code))
    {
      StepSafe(Abs(), if newCredential.Some? then RefreshSucceeds(newCredential.value) else RefreshFails(code));
      inFlight := inFlight - 1;
      if newCredential.Some? {
        HandleRefreshSuccess(newCredential.value);
      } else {
        HandleRefreshFailure(RefreshFailed(code));
      }
    }
  }
}
