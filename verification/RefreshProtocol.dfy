/** What callers of the interceptor can rely on: which answers they get, that an expired credential is never applied,
    that it is refreshed instead, and that nobody is answered before that refresh has ended. */
module RefreshProtocol {
  import opened Bits
  import opened Interceptor
  import opened Occurrences

  // ---- Submissions are what the run submits ------------------------------------------------------------

  function Submissions(run: seq<Action>): seq<Id> {
    if run == [] then []
    else (if run[0].Adapt? || run[0].Retry? then [run[0].id] else []) + Submissions(run[1..])
  }

  lemma StepSubmits(s: State, a: Action)
    requires Enabled(s, a)
    ensures Step(s, a).submitted == s.submitted + Submissions([a])
  {
    assert [a][1..] == [];
  }

  lemma {:induction false} RunSubmits(s: State, run: seq<Action>)
    requires Legal(s, run)
    ensures Exec(s, run).submitted == s.submitted + Submissions(run)
    decreases |run|
  {
    hide Step, Enabled;
    if run != [] {
      StepSubmits(s, run[0]);
      assert [run[0]][1..] == [];
      RunSubmits(Step(s, run[0]), run[1..]);
    }
  }

  /** Every completion handed in during a run, and no other, is in exactly one place; and once nothing is dispatched
      or in flight it has been called exactly once. */
  lemma EverySubmissionKept(credential: Option<Credential>, window: Option<RefreshWindow>, run: seq<Action>, id: Id)
    requires Legal(Init(credential, window), run)
    ensures var s := Exec(Init(credential, window), run);
      && Located(s, id) == Count(Submissions(run), id) <= 1
      && (s.queue == [] && s.inFlight == 0 && s.retrying == [] ==>
            TimesCalled(s.calls, id) == Count(Submissions(run), id))
  {
    hide Exec, Legal;
    RunSubmits(Init(credential, window), run);
    assert [] + Submissions(run) == Submissions(run);
    Conservation(credential, window, run, id);
    RunKeepsInvariant(Init(credential, window), run, id);
  }

  // ---- Answers ---------------------------------------------------------------------------------------------

  /** `adapt` answers at once exactly when no refresh is in place and there is no credential or a fresh one; it fails in
      the first case and applies the credential in the second. */
  lemma AdaptAnswers(s: State, id: Id, stale: bool, t: real, u: real)
    requires Enabled(s, Adapt(id, stale, t, u))
    ensures Step(s, Adapt(id, stale, t, u)).calls == s.calls +
      (if s.isRefreshing then []
       else if s.credential == None then [(id, AdaptFailed(MissingCredential))]
       else if stale then []
       else [(id, Adapted(s.credential.value))])
  {
    assert s.calls + [] == s.calls;
  }

  /** `retry` answers at once unless the request failed for lack of authentication with the current credential: it then
      waits for the lock with that credential. Other failures are not retried, a missing credential is an error, and a
      request that went out with another credential is retried. */
  lemma RetryAnswers(s: State, id: Id, answered: bool, authError: bool, current: bool)
    requires Enabled(s, Retry(id, answered, authError, current))
    ensures var s', waits := Step(s, Retry(id, answered, authError, current)), answered && authError && current;
      && (!(answered && authError) ==> s'.calls == s.calls + [(id, DoNotRetry)])
      && (answered && authError && s.credential == None ==>
            s'.calls == s.calls + [(id, DoNotRetryWith(MissingCredential))])
      && (answered && authError && s.credential != None && !current ==> s'.calls == s.calls + [(id, RetryNow)])
      && (waits && s.credential != None ==>
            s'.calls == s.calls && s'.retrying == s.retrying + [RetryCall(id, s.credential.value)])
      && (!(waits && s.credential != None) ==> s'.retrying == s.retrying)
  {}

  /** A credential that is set is the one applied from then on. */
  lemma SetCredentialApplies(s: State, c: Credential, id: Id, t: real)
    requires !s.isRefreshing && id !in s.submitted
    ensures var s' := Step(s, SetCredential(Some(c)));
      Step(s', Adapt(id, false, t, t)).calls == s.calls + [(id, Adapted(c))]
  {}

  /** Whatever the step adds to the calls, a credential is applied only if it is the current one, is fresh and no
      refresh is in place. */
  predicate AppliesFresh(s: State, a: Action)
    requires Enabled(s, a)
  {
    && s.calls <= Step(s, a).calls
    && forall k :: |s.calls| <= k < |Step(s, a).calls| && Step(s, a).calls[k].1.Adapted? ==>
         && (a.Adapt? || a.Run?) && !a.stale && !s.isRefreshing
         && s.credential == Some(Step(s, a).calls[k].1.credential)
  }

  lemma StepAppliesFresh(s: State, a: Action)
    requires Enabled(s, a)
    ensures AppliesFresh(s, a)
  {
    hide Excessive;
  }

  /** An expired credential is never applied: this holds of every step of every run. */
  predicate AlwaysFresh(s: State, run: seq<Action>)
    requires Legal(s, run)
    decreases |run|
  {
    run == [] || (AppliesFresh(s, run[0]) && AlwaysFresh(Step(s, run[0]), run[1..]))
  }

  lemma {:induction false} ExpiredNeverApplied(s: State, run: seq<Action>)
    requires Legal(s, run)
    ensures AlwaysFresh(s, run)
    decreases |run|
  {
    hide AppliesFresh, Step, Enabled;
    if run != [] {
      StepAppliesFresh(s, run[0]);
      ExpiredNeverApplied(Step(s, run[0]), run[1..]);
    }
  }

  // ---- Refreshes start when they should ------------------------------------------------------------------

  /** Every refresh so far started at or before `now`. */
  predicate NotBefore(ts: seq<real>, now: real) {
    forall k :: 0 <= k < |ts| ==> ts[k] <= now
  }

  lemma {:induction false} SinceIsWithin(ts: seq<real>, min: real, now: real)
    requires NotBefore(ts, now)
    ensures CountSince(ts, min) == CountWithin(ts, min, now)
  {
    if ts != [] { SinceIsWithin(ts[..|ts| - 1], min, now); }
  }

  /** There is no limit, or the time window that ends now has room for one more refresh. */
  predicate WindowOpen(s: State, now: real) {
    s.window.Some? ==>
      CountWithin(s.timestamps, now - s.window.value.interval, now) < s.window.value.maximumAttempts
  }

  /** No refresh is in place, and one could be started for the credential `c`. */
  predicate IdleWith(s: State, c: Credential) {
    OneRefresh(s) && !s.isRefreshing && s.credential == Some(c)
  }

  /** An expired credential makes `adapt` wait and start exactly one refresh of that credential if the window has room;
      otherwise the operation is put into a block that fails it, and no refresh starts. */
  lemma StaleAdaptRefreshes(s: State, id: Id, c: Credential, t: real, u: real)
    requires IdleWith(s, c) && NotBefore(s.timestamps, t) && Enabled(s, Adapt(id, true, t, u))
    ensures var s' := Step(s, Adapt(id, true, t, u));
      && s'.calls == s.calls && s'.requestsToRetry == []
      && (WindowOpen(s, t) ==>
            && s'.isRefreshing && s'.adaptOperations == [id]
            && s'.queue == s.queue + [StartRefresh(c)] && s'.timestamps == s.timestamps + [u])
      && (!WindowOpen(s, t) ==>
            && !s'.isRefreshing && s'.adaptOperations == []
            && s'.queue == s.queue + [ReleaseFailure(ExcessiveRefresh, [id], [])] && s'.timestamps == s.timestamps)
  {
    if s.window.Some? { SinceIsWithin(s.timestamps, t - s.window.value.interval, t); }
    assert [] + [id] == [id];
  }

  /** A request rejected with the credential that was current when `retry` looked waits, and starts exactly one
      refresh of that credential if none is in place and the window has room. */
  lemma RetryRefreshes(s: State, k: nat, t: real, u: real)
    requires OneRefresh(s) && NotBefore(s.timestamps, t) && Enabled(s, RetryLock(k, t, u))
    ensures var s', call := Step(s, RetryLock(k, t, u)), s.retrying[k];
      && s'.calls == s.calls
      && (s.isRefreshing ==> s'.queue == s.queue && s'.requestsToRetry == s.requestsToRetry + [call.id])
      && (!s.isRefreshing && WindowOpen(s, t) ==>
            && s'.isRefreshing && s'.requestsToRetry == [call.id]
            && s'.queue == s.queue + [StartRefresh(call.credential)] && s'.timestamps == s.timestamps + [u])
      && (!s.isRefreshing && !WindowOpen(s, t) ==>
            && !s'.isRefreshing && s'.requestsToRetry == []
            && s'.queue == s.queue + [ReleaseFailure(ExcessiveRefresh, [], [call.id])])
  {
    hide Without;
    if s.window.Some? { SinceIsWithin(s.timestamps, t - s.window.value.interval, t); }
    assert [] + [s.retrying[k].id] == [s.retrying[k].id];
  }

  // ---- Nobody is answered before the refresh has ended --------------------------------------------------

  /** The authenticator does not answer during the run. */
  predicate Unanswered(run: seq<Action>) {
    forall k :: 0 <= k < |run| ==> !run[k].RefreshSucceeds? && !run[k].RefreshFails?
  }

  lemma StepWaits(s: State, a: Action)
    requires s.isRefreshing && Enabled(s, a) && !a.RefreshSucceeds? && !a.RefreshFails?
    ensures var s' := Step(s, a);
      s'.isRefreshing && s.adaptOperations <= s'.adaptOperations && s.requestsToRetry <= s'.requestsToRetry
  {
    hide Without;
  }

  lemma {:induction false} RunWaits(s: State, run: seq<Action>)
    requires s.isRefreshing && Legal(s, run) && Unanswered(run)
    ensures var s' := Exec(s, run);
      s'.isRefreshing && s.adaptOperations <= s'.adaptOperations && s.requestsToRetry <= s'.requestsToRetry
    decreases |run|
  {
    hide Step, Enabled;
    if run != [] {
      StepWaits(s, run[0]);
      RunWaits(Step(s, run[0]), run[1..]);
    }
  }

  /** A completion that waits for a refresh is not called as long as the authenticator has not answered, in any
      interleaving. */
  lemma WaitsForRefresh(s: State, run: seq<Action>, id: Id)
    requires OneRefresh(s) && Kept(s, id) && s.isRefreshing && (id in s.adaptOperations || id in s.requestsToRetry)
    requires Legal(s, run) && Unanswered(run)
    ensures var s' := Exec(s, run);
      TimesCalled(s'.calls, id) == 0 && (id in s'.adaptOperations || id in s'.requestsToRetry)
  {
    hide Exec, Legal, Unanswered;
    RunWaits(s, run);
    RunKeepsInvariant(s, run, id);
    var s' := Exec(s, run);
    assert id in s'.adaptOperations || id in s'.requestsToRetry;
    assert Count(s'.adaptOperations, id) + Count(s'.requestsToRetry, id) >= 1;
  }
}
