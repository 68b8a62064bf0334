/** Alamofire's AuthenticationInterceptor: requests wait while one credential refresh is in flight, and
    refreshes are rate-limited by a sliding window. The state machine below has one step per critical
    section of the source. */
module Interceptor {
  import opened Bits
  import opened Occurrences

  /** A submitted completion closure. */
  type Id = nat

  type Credential = nat

  datatype Error = MissingCredential | ExcessiveRefresh | RefreshFailed(code: int)

  /** What a completion is called with. */
  datatype Outcome =
    | Adapted(credential: Credential) | AdaptFailed(error: Error)
    | DoNotRetry | RetryNow | DoNotRetryWith(error: Error)

  datatype RefreshWindow = RefreshWindow(interval: real, maximumAttempts: int)

  /** Work dispatched to the interceptor's serial queue. */
  datatype Block =
    | StartRefresh(credential: Credential)
    | ReleaseSuccess(adapts: seq<Id>, retries: seq<Id>)
    | ReleaseFailure(error: Error, adapts: seq<Id>, retries: seq<Id>)

  /** A retry call that has read the credential but not yet entered the lock. */
  datatype RetryCall = RetryCall(id: Id, credential: Credential)

  /** `MutableState`, the serial queue, refreshes the authenticator has not answered yet, retry calls between
      their two critical sections, and a history of submissions and completion calls. */
  datatype State = State(
    credential: Option<Credential>, isRefreshing: bool, timestamps: seq<real>, window: Option<RefreshWindow>,
    adaptOperations: seq<Id>, requestsToRetry: seq<Id>,
    queue: seq<Block>, inFlight: nat, retrying: seq<RetryCall>,
    submitted: seq<Id>, calls: seq<(Id, Outcome)>)

  // ---- The critical sections -------------------------------------------------------------------

  function CountSince(ts: seq<real>, min: real): nat {
    if ts == [] then 0 else CountSince(ts[..|ts| - 1], min) + (if min <= ts[|ts| - 1] then 1 else 0)
  }

  /** `isRefreshExcessive` at time `now` */
  predicate Excessive(s: State, now: real) {
    s.window.Some? && CountSince(s.timestamps, now - s.window.value.interval) >= s.window.value.maximumAttempts
  }

  /** `handleRefreshFailure` */
  function HandleFailure(s: State, error: Error): State {
    s.(adaptOperations := [], requestsToRetry := [], isRefreshing := false,
       queue := s.queue + [ReleaseFailure(error, s.adaptOperations, s.requestsToRetry)])
  }

  /** `handleRefreshSuccess` */
  function HandleSuccess(s: State, credential: Credential): State {
    s.(credential := Some(credential), adaptOperations := [], requestsToRetry := [], isRefreshing := false,
       queue := s.queue + [ReleaseSuccess(s.adaptOperations, s.requestsToRetry)])
  }

  /** `refresh`: the clock is read for the check and again for the timestamp. */
  function Refresh(s: State, credential: Credential, checkedAt: real, startedAt: real): State {
    if Excessive(s, checkedAt) then HandleFailure(s, ExcessiveRefresh)
    else
      s.(timestamps := s.timestamps + [startedAt], isRefreshing := true,
         queue := s.queue + [StartRefresh(credential)])
  }

  function Call(s: State, id: Id, outcome: Outcome): State {
    s.(calls := s.calls + [(id, outcome)])
  }

  /** `adapt`; `stale` is whether the current credential requires a refresh. */
  function AdaptStep(s: State, id: Id, stale: bool, checkedAt: real, startedAt: real): State {
    if s.isRefreshing then s.(adaptOperations := s.adaptOperations + [id])
    else if s.credential.None? then Call(s, id, AdaptFailed(MissingCredential))
    else if stale then
      Refresh(s.(adaptOperations := s.adaptOperations + [id]), s.credential.value, checkedAt, startedAt)
    else Call(s, id, Adapted(s.credential.value))
  }

  /** `retry` up to its lock: the checks that need none, and a read of the credential. */
  function RetryStep(s: State, id: Id, answered: bool, authError: bool, current: bool): State {
    if !answered || !authError then Call(s, id, DoNotRetry)
    else if s.credential.None? then Call(s, id, DoNotRetryWith(MissingCredential))
    else if !current then Call(s, id, RetryNow)
    else s.(retrying := s.retrying + [RetryCall(id, s.credential.value)])
  }

  /** `retry` inside its lock. */
  function RetryLockStep(s: State, k: nat, checkedAt: real, startedAt: real): State
    requires k < |s.retrying|
  {
    var call := s.retrying[k];
    var s' := s.(retrying := Without(s.retrying, k), requestsToRetry := s.requestsToRetry + [call.id]);
    if s'.isRefreshing then s' else Refresh(s', call.credential, checkedAt, startedAt)
  }

  /** The next piece of work of the block at the front of the serial queue. */
  function RunStep(s: State, stale: bool, checkedAt: real, startedAt: real): State
    requires s.queue != []
  {
    var others := s.queue[1..];
    match s.queue[0]
    case StartRefresh(_) => s.(queue := others, inFlight := s.inFlight + 1)
    case ReleaseSuccess(adapts, retries) =>
      if adapts != [] then
        AdaptStep(s.(queue := [ReleaseSuccess(adapts[1..], retries)] + others), adapts[0], stale, checkedAt, startedAt)
      else if retries != [] then
        Call(s.(queue := [ReleaseSuccess([], retries[1..])] + others), retries[0], RetryNow)
      else s.(queue := others)
    case ReleaseFailure(error, adapts, retries) =>
      if adapts != [] then
        Call(s.(queue := [ReleaseFailure(error, adapts[1..], retries)] + others), adapts[0], AdaptFailed(error))
      else if retries != [] then
        Call(s.(queue := [ReleaseFailure(error, [], retries[1..])] + others), retries[0], DoNotRetryWith(error))
      else s.(queue := others)
  }

  // ---- Runs --------------------------------------------------------------------------------------

  datatype Action =
    | Adapt(id: Id, stale: bool, checkedAt: real, startedAt: real)
    | Retry(id: Id, answered: bool, authError: bool, current: bool)
    | RetryLock(k: nat, checkedAt: real, startedAt: real)
    | Run(stale: bool, checkedAt: real, startedAt: real)
    | RefreshSucceeds(credential: Credential)
    | RefreshFails(code: int)
    | SetCredential(newCredential: Option<Credential>)

  /** Each submission brings a new completion, the authenticator answers each refresh once, and the clock
      does not run backwards between its two readings. */
  predicate Enabled(s: State, a: Action) {
    match a
    case Adapt(id, _, t, u) => id !in s.submitted && t <= u
    case Retry(id, _, _, _) => id !in s.submitted
    case RetryLock(k, t, u) => k < |s.retrying| && t <= u
    case Run(_, t, u) => s.queue != [] && t <= u
    case RefreshSucceeds(_) => s.inFlight > 0
    case RefreshFails(_) => s.inFlight > 0
    case SetCredential(_) => true
  }

  function Step(s: State, a: Action): State
    requires Enabled(s, a)
  {
    match a
    case Adapt(id, stale, t, u) => AdaptStep(s.(submitted := s.submitted + [id]), id, stale, t, u)
    case Retry(id, answered, authError, current) =>
      RetryStep(s.(submitted := s.submitted + [id]), id, answered, authError, current)
    case RetryLock(k, t, u) => RetryLockStep(s, k, t, u)
    case Run(stale, t, u) => RunStep(s, stale, t, u)
    case RefreshSucceeds(c) => HandleSuccess(s.(inFlight := s.inFlight - 1), c)
    case RefreshFails(code) => HandleFailure(s.(inFlight := s.inFlight - 1), RefreshFailed(code))
    case SetCredential(c) => s.(credential := c)
  }

  function Init(credential: Option<Credential>, window: Option<RefreshWindow>): State {
    State(credential, false, [], window, [], [], [], 0, [], [], [])
  }

  /** Every action of the run is possible when it is its turn. */
  predicate Legal(s: State, run: seq<Action>)
    decreases |run|
  {
    run == [] || (Enabled(s, run[0]) && Legal(Step(s, run[0]), run[1..]))
  }

  function Exec(s: State, run: seq<Action>): State
    requires Legal(s, run)
    decreases |run|
  {
    if run == [] then s else Exec(Step(s, run[0]), run[1..])
  }

  // ---- Conservation --------------------------------------------------------------------------------

  function InBlock(b: Block, id: Id): nat {
    if b.StartRefresh? then 0 else Count(b.adapts, id) + Count(b.retries, id)
  }

  function InBlocks(q: seq<Block>, id: Id): nat {
    if q == [] then 0 else InBlock(q[0], id) + InBlocks(q[1..], id)
  }

  /** Refreshes dispatched to the queue but not yet handed to the authenticator. */
  function Started(q: seq<Block>): nat {
    if q == [] then 0 else (if q[0].StartRefresh? then 1 else 0) + Started(q[1..])
  }

  function InRetry(q: seq<RetryCall>, id: Id): nat {
    if q == [] then 0 else (if q[0].id == id then 1 else 0) + InRetry(q[1..], id)
  }

  function TimesCalled(calls: seq<(Id, Outcome)>, id: Id): nat {
    if calls == [] then 0 else (if calls[0].0 == id then 1 else 0) + TimesCalled(calls[1..], id)
  }

  /** In how many places a completion is: waiting in the state, in a dispatched block, in a retry call that
      has not entered its lock, or called. */
  function Located(s: State, id: Id): nat {
    Count(s.adaptOperations, id) + Count(s.requestsToRetry, id) + InBlocks(s.queue, id)
      + InRetry(s.retrying, id) + TimesCalled(s.calls, id)
  }

  /** At most one refresh is between its start and its answer; nothing waits when there is none. */
  predicate OneRefresh(s: State) {
    && s.inFlight + Started(s.queue) == (if s.isRefreshing then 1 else 0)
    && (!s.isRefreshing ==> s.adaptOperations == [] && s.requestsToRetry == [])
  }

  /** A completion is in one place if it was submitted, and nowhere otherwise. */
  predicate Kept(s: State, id: Id) {
    Located(s, id) == Count(s.submitted, id) <= 1
  }

  /** The same while the running step holds the completion `held` in its hands. */
  predicate KeptHolding(s: State, held: Id, id: Id) {
    Located(s, id) + (if held == id then 1 else 0) == Count(s.submitted, id) <= 1
  }

  lemma {:induction false} BlocksSnoc(q: seq<Block>, b: Block, id: Id)
    ensures InBlocks(q + [b], id) == InBlocks(q, id) + InBlock(b, id)
    ensures Started(q + [b]) == Started(q) + (if b.StartRefresh? then 1 else 0)
  {
    if q == [] {
      assert [] + [b] == [b];
    } else {
      BlocksSnoc(q[1..], b, id);
      assert (q + [b])[1..] == q[1..] + [b];
    }
  }

  lemma {:induction false} RetrySnoc(q: seq<RetryCall>, c: RetryCall, id: Id)
    ensures InRetry(q + [c], id) == InRetry(q, id) + (if c.id == id then 1 else 0)
  {
    if q == [] {
      assert [] + [c] == [c];
    } else {
      RetrySnoc(q[1..], c, id);
      assert (q + [c])[1..] == q[1..] + [c];
    }
  }

  lemma {:induction false} RetryWithout(q: seq<RetryCall>, k: nat, id: Id)
    requires k < |q|
    ensures InRetry(q, id) == InRetry(Without(q, k), id) + (if q[k].id == id then 1 else 0)
  {
    if k == 0 {
      assert Without(q, 0) == q[1..];
    } else {
      RetryWithout(q[1..], k - 1, id);
      assert Without(q, k)[1..] == Without(q[1..], k - 1);
    }
  }

  lemma {:induction false} CallsSnoc(c: seq<(Id, Outcome)>, x: (Id, Outcome), id: Id)
    ensures TimesCalled(c + [x], id) == TimesCalled(c, id) + (if x.0 == id then 1 else 0)
  {
    if c == [] {
      assert [] + [x] == [x];
    } else {
      CallsSnoc(c[1..], x, id);
      assert (c + [x])[1..] == c[1..] + [x];
    }
  }

  lemma CallKeeps(s: State, held: Id, outcome: Outcome, id: Id)
    requires OneRefresh(s) && KeptHolding(s, held, id)
    ensures OneRefresh(Call(s, held, outcome)) && Kept(Call(s, held, outcome), id)
  {
    CallsSnoc(s.calls, (held, outcome), id);
  }

  /** A refresh that starts or is refused, with completions queued and no other refresh. */
  lemma RefreshKeeps(s: State, credential: Credential, t: real, u: real, id: Id)
    requires !s.isRefreshing && s.inFlight + Started(s.queue) == 0 && Kept(s, id)
    ensures var s' := Refresh(s, credential, t, u); OneRefresh(s') && Kept(s', id)
  {
    BlocksSnoc(s.queue, StartRefresh(credential), id);
    BlocksSnoc(s.queue, ReleaseFailure(ExcessiveRefresh, s.adaptOperations, s.requestsToRetry), id);
  }

  lemma AdaptKeeps(s: State, held: Id, stale: bool, t: real, u: real, id: Id)
    requires OneRefresh(s) && KeptHolding(s, held, id)
    ensures var s' := AdaptStep(s, held, stale, t, u); OneRefresh(s') && Kept(s', id)
  {
    hide Refresh, Call;
    CountSnoc(s.adaptOperations, held, id);
    if !s.isRefreshing {
      if s.credential.None? {
        CallKeeps(s, held, AdaptFailed(MissingCredential), id);
      } else if stale {
        RefreshKeeps(s.(adaptOperations := s.adaptOperations + [held]), s.credential.value, t, u, id);
      } else {
        CallKeeps(s, held, Adapted(s.credential.value), id);
      }
    }
  }

  lemma SubmitKeeps(s: State, x: Id, id: Id)
    requires OneRefresh(s) && Kept(s, id) && x !in s.submitted
    ensures var s' := s.(submitted := s.submitted + [x]); OneRefresh(s') && KeptHolding(s', x, id)
  {
    CountSnoc(s.submitted, x, id);
  }

  lemma RetryKeeps(s: State, held: Id, answered: bool, authError: bool, current: bool, id: Id)
    requires OneRefresh(s) && KeptHolding(s, held, id)
    ensures var s' := RetryStep(s, held, answered, authError, current); OneRefresh(s') && Kept(s', id)
  {
    hide Call;
    if !answered || !authError {
      CallKeeps(s, held, DoNotRetry, id);
    } else if s.credential.None? {
      CallKeeps(s, held, DoNotRetryWith(MissingCredential), id);
    } else if !current {
      CallKeeps(s, held, RetryNow, id);
    } else {
      RetrySnoc(s.retrying, RetryCall(held, s.credential.value), id);
    }
  }

  lemma RetryLockKeeps(s: State, k: nat, t: real, u: real, id: Id)
    requires OneRefresh(s) && Kept(s, id) && k < |s.retrying|
    ensures var s' := RetryLockStep(s, k, t, u); OneRefresh(s') && Kept(s', id)
  {
    hide Refresh, Without;
    var call := s.retrying[k];
    RetryWithout(s.retrying, k, id);
    CountSnoc(s.requestsToRetry, call.id, id);
    var s' := s.(retrying := Without(s.retrying, k), requestsToRetry := s.requestsToRetry + [call.id]);
    if !s.isRefreshing { RefreshKeeps(s', call.credential, t, u, id); }
  }

  /** Taking one completion out of the front block leaves it in hand. */
  lemma FrontReplaced(s: State, b: Block, held: Id, id: Id)
    requires OneRefresh(s) && Kept(s, id) && s.queue != [] && !b.StartRefresh? && !s.queue[0].StartRefresh?
    requires InBlock(s.queue[0], id) == InBlock(b, id) + (if held == id then 1 else 0)
    ensures var s' := s.(queue := [b] + s.queue[1..]); OneRefresh(s') && KeptHolding(s', held, id)
  {
    hide InBlock, Count, InRetry, TimesCalled;
    assert ([b] + s.queue[1..])[1..] == s.queue[1..];
  }

  lemma RunKeeps(s: State, stale: bool, t: real, u: real, id: Id)
    requires OneRefresh(s) && Kept(s, id) && s.queue != []
    ensures var s' := RunStep(s, stale, t, u); OneRefresh(s') && Kept(s', id)
  {
    hide AdaptStep, Call, OneRefresh, Kept, Located, KeptHolding;
    var front, others := s.queue[0], s.queue[1..];
    if front.StartRefresh? || (front.adapts == [] && front.retries == []) {
      PopKeeps(s, id);
    } else if front.adapts != [] {
      CountFirst(front.adapts, id);
      var b := if front.ReleaseSuccess? then ReleaseSuccess(front.adapts[1..], front.retries)
               else ReleaseFailure(front.error, front.adapts[1..], front.retries);
      FrontReplaced(s, b, front.adapts[0], id);
      var s' := s.(queue := [b] + others);
      if front.ReleaseSuccess? {
        AdaptKeeps(s', front.adapts[0], stale, t, u, id);
      } else {
        CallKeeps(s', front.adapts[0], AdaptFailed(front.error), id);
      }
    } else {
      CountFirst(front.retries, id);
      var b := if front.ReleaseSuccess? then ReleaseSuccess([], front.retries[1..])
               else ReleaseFailure(front.error, [], front.retries[1..]);
      FrontReplaced(s, b, front.retries[0], id);
      var outcome := if front.ReleaseSuccess? then RetryNow else DoNotRetryWith(front.error);
      CallKeeps(s.(queue := [b] + others), front.retries[0], outcome, id);
    }
  }

  lemma PopKeeps(s: State, id: Id)
    requires OneRefresh(s) && Kept(s, id) && s.queue != []
    requires s.queue[0].StartRefresh? || (s.queue[0].adapts == [] && s.queue[0].retries == [])
    ensures var s' := s.(queue := s.queue[1..], inFlight := s.inFlight + (if s.queue[0].StartRefresh? then 1 else 0));
      OneRefresh(s') && Kept(s', id)
  {}

  lemma RefreshDoneKeeps(s: State, a: Action, id: Id)
    requires OneRefresh(s) && Kept(s, id) && (a.RefreshSucceeds? || a.RefreshFails?) && Enabled(s, a)
    ensures OneRefresh(Step(s, a)) && Kept(Step(s, a), id)
  {
    if a.RefreshFails? {
      BlocksSnoc(s.queue, ReleaseFailure(RefreshFailed(a.code), s.adaptOperations, s.requestsToRetry), id);
    } else {
      BlocksSnoc(s.queue, ReleaseSuccess(s.adaptOperations, s.requestsToRetry), id);
    }
  }

  lemma StepKeeps(s: State, a: Action, id: Id)
    requires OneRefresh(s) && Kept(s, id) && Enabled(s, a)
    ensures OneRefresh(Step(s, a)) && Kept(Step(s, a), id)
  {
    hide AdaptStep, RetryStep, RetryLockStep, RunStep, HandleSuccess, HandleFailure;
    match a
    case Adapt(x, stale, t, u) =>
      SubmitKeeps(s, x, id);
      AdaptKeeps(s.(submitted := s.submitted + [x]), x, stale, t, u, id);
    case Retry(x, answered, authError, current) =>
      SubmitKeeps(s, x, id);
      RetryKeeps(s.(submitted := s.submitted + [x]), x, answered, authError, current, id);
    case RetryLock(k, t, u) => RetryLockKeeps(s, k, t, u, id);
    case Run(stale, t, u) => RunKeeps(s, stale, t, u, id);
    case RefreshSucceeds(_) => RefreshDoneKeeps(s, a, id);
    case RefreshFails(_) => RefreshDoneKeeps(s, a, id);
    case SetCredential(c) =>
  }

  lemma {:induction false} RunKeepsInvariant(s: State, run: seq<Action>, id: Id)
    requires OneRefresh(s) && Kept(s, id) && Legal(s, run)
    ensures OneRefresh(Exec(s, run)) && Kept(Exec(s, run), id)
    decreases |run|
  {
    hide OneRefresh, Kept, Step, Enabled;
    if run != [] {
      StepKeeps(s, run[0], id);
      RunKeepsInvariant(Step(s, run[0]), run[1..], id);
    }
  }

  /** After any run: every submitted completion is in exactly one place and no other completion anywhere, so
      none has been called twice; at most one refresh is in flight; and nothing waits unless one is. */
  lemma Conservation(credential: Option<Credential>, window: Option<RefreshWindow>, run: seq<Action>, id: Id)
    requires Legal(Init(credential, window), run)
    ensures var s := Exec(Init(credential, window), run);
      && Located(s, id) == (if id in s.submitted then 1 else 0)
      && s.inFlight + Started(s.queue) <= 1
      && (s.inFlight + Started(s.queue) == 0 ==> s.adaptOperations == [] && s.requestsToRetry == [])
  {
    RunKeepsInvariant(Init(credential, window), run, id);
  }

  /** No completion is forgotten: once nothing is dispatched, in flight or half done, every submitted
      completion has been called, exactly once. */
  lemma AllAnsweredWhenQuiet(credential: Option<Credential>, window: Option<RefreshWindow>, run: seq<Action>, id: Id)
    requires Legal(Init(credential, window), run)
    requires var s := Exec(Init(credential, window), run); s.queue == [] && s.inFlight == 0 && s.retrying == []
    ensures var s := Exec(Init(credential, window), run); TimesCalled(s.calls, id) == if id in s.submitted then 1 else 0
  {
    Conservation(credential, window, run, id);
  }

  // ---- The sliding window ----------------------------------------------------------------------------

  /** Refreshes started in the closed interval from `lo` to `hi`. */
  function CountWithin(ts: seq<real>, lo: real, hi: real): nat {
    if ts == [] then 0
    else CountWithin(ts[..|ts| - 1], lo, hi) + (if lo <= ts[|ts| - 1] <= hi then 1 else 0)
  }

  lemma {:induction false} WithinIsSince(ts: seq<real>, lo: real, hi: real, min: real)
    requires min <= lo
    ensures CountWithin(ts, lo, hi) <= CountSince(ts, min)
  {
    if ts != [] { WithinIsSince(ts[..|ts| - 1], lo, hi, min); }
  }

  function Allowed(w: RefreshWindow): int {
    if w.maximumAttempts < 0 then 0 else w.maximumAttempts
  }

  /** The window of the configured length that starts at `lo` is not overfull. */
  predicate WithinLimit(ts: seq<real>, w: RefreshWindow, lo: real) {
    CountWithin(ts, lo, lo + w.interval) <= Allowed(w)
  }

  ghost predicate Limited(s: State) {
    s.window.Some? ==> forall lo: real :: WithinLimit(s.timestamps, s.window.value, lo)
  }

  lemma RefreshLimited(s: State, credential: Credential, t: real, u: real)
    requires Limited(s) && t <= u
    ensures Limited(Refresh(s, credential, t, u)) && Refresh(s, credential, t, u).window == s.window
  {
    var s' := Refresh(s, credential, t, u);
    if s.window.Some? && !Excessive(s, t) {
      var w := s.window.value;
      forall lo: real ensures WithinLimit(s'.timestamps, w, lo) {
        assert s'.timestamps[..|s.timestamps|] == s.timestamps;
        assert WithinLimit(s.timestamps, w, lo);
        if lo <= u <= lo + w.interval {
          WithinIsSince(s.timestamps, lo, lo + w.interval, t - w.interval);
        }
      }
    }
  }

  lemma StepLimited(s: State, a: Action)
    requires Limited(s) && Enabled(s, a)
    ensures Limited(Step(s, a)) && Step(s, a).window == s.window
  {
    hide Limited, Refresh;
    match a
    case Adapt(id, stale, t, u) => AdaptLimited(s.(submitted := s.submitted + [id]), id, stale, t, u);
      SameTimes(s, s.(submitted := s.submitted + [id]));
    case Retry(id, answered, authError, current) => SameTimes(s, Step(s, a));
    case RetryLock(k, t, u) =>
      var s' := s.(retrying := Without(s.retrying, k), requestsToRetry := s.requestsToRetry + [s.retrying[k].id]);
      SameTimes(s, s');
      RefreshLimited(s', s.retrying[k].credential, t, u);
    case Run(stale, t, u) => RunLimited(s, stale, t, u);
    case RefreshSucceeds(_) => SameTimes(s, Step(s, a));
    case RefreshFails(_) => SameTimes(s, Step(s, a));
    case SetCredential(c) => SameTimes(s, Step(s, a));
  }

  lemma SameTimes(s: State, s': State)
    requires s'.timestamps == s.timestamps && s'.window == s.window
    ensures Limited(s) ==> Limited(s')
  {}

  lemma AdaptLimited(s: State, id: Id, stale: bool, t: real, u: real)
    requires t <= u
    ensures Limited(s) ==> Limited(AdaptStep(s, id, stale, t, u)) && AdaptStep(s, id, stale, t, u).window == s.window
  {
    hide Limited, Refresh;
    var s' := s.(adaptOperations := s.adaptOperations + [id]);
    SameTimes(s, s');
    if Limited(s) {
      if !s.isRefreshing && s.credential.Some? && stale { RefreshLimited(s', s.credential.value, t, u); }
      else { SameTimes(s, AdaptStep(s, id, stale, t, u)); }
    }
  }

  lemma RunLimited(s: State, stale: bool, t: real, u: real)
    requires Limited(s) && s.queue != [] && t <= u
    ensures Limited(RunStep(s, stale, t, u)) && RunStep(s, stale, t, u).window == s.window
  {
    hide Limited, AdaptStep;
    if s.queue[0].ReleaseSuccess? && s.queue[0].adapts != [] {
      var b := s.queue[0];
      var s' := s.(queue := [ReleaseSuccess(b.adapts[1..], b.retries)] + s.queue[1..]);
      SameTimes(s, s');
      AdaptLimited(s', b.adapts[0], stale, t, u);
    } else {
      SameTimes(s, RunStep(s, stale, t, u));
    }
  }

  lemma {:induction false} RunKeepsLimited(s: State, run: seq<Action>)
    requires Limited(s) && Legal(s, run)
    ensures Limited(Exec(s, run)) && Exec(s, run).window == s.window
    decreases |run|
  {
    hide Limited, Step, Enabled;
    if run != [] {
      StepLimited(s, run[0]);
      RunKeepsLimited(Step(s, run[0]), run[1..]);
    }
  }

  /** In every run, no time window of the configured length contains more started refreshes than allowed. */
  lemma SlidingWindow(credential: Option<Credential>, w: RefreshWindow, run: seq<Action>, lo: real)
    requires Legal(Init(credential, Some(w)), run)
    ensures CountWithin(Exec(Init(credential, Some(w)), run).timestamps, lo, lo + w.interval) <= Allowed(w)
  {
    RunKeepsLimited(Init(credential, Some(w)), run);
    assert WithinLimit(Exec(Init(credential, Some(w)), run).timestamps, w, lo);
  }

  // ---- What the waiting completions are answered --------------------------------------------------------

  /** The serial queue works for `n` steps without interference, and the credential stays fresh. */
  function Undisturbed(n: nat): seq<Action> {
    if n == 0 then [] else [Run(false, 0.0, 0.0)] + Undisturbed(n - 1)
  }

  function Answers(ids: seq<Id>, outcome: Outcome): seq<(Id, Outcome)> {
    if ids == [] then [] else [(ids[0], outcome)] + Answers(ids[1..], outcome)
  }

  /** Executing one more step of the queue first. */
  lemma RunFirst(s: State, n: nat)
    requires n > 0 && s.queue != [] && Legal(RunStep(s, false, 0.0, 0.0), Undisturbed(n - 1))
    ensures Legal(s, Undisturbed(n)) && Exec(s, Undisturbed(n)) == Exec(RunStep(s, false, 0.0, 0.0), Undisturbed(n - 1))
  {
    hide RunStep;
    var a := Run(false, 0.0, 0.0);
    assert Undisturbed(n)[0] == a && Undisturbed(n)[1..] == Undisturbed(n - 1);
    assert Enabled(s, a) && Step(s, a) == RunStep(s, false, 0.0, 0.0);
  }

  /** The state after a released block has answered `answered`. */
  function After(s: State, answered: seq<(Id, Outcome)>): State
    requires s.queue != []
  {
    s.(queue := s.queue[1..], calls := s.calls + answered)
  }

  lemma {:induction false} EmptyBlock(s: State)
    requires s.queue != [] && !s.queue[0].StartRefresh? && s.queue[0].adapts == s.queue[0].retries == []
    ensures Legal(s, Undisturbed(1)) && Exec(s, Undisturbed(1)) == After(s, [])
  {
    hide After;
    var s' := RunStep(s, false, 0.0, 0.0);
    assert Undisturbed(0) == [] && Legal(s', []) && Exec(s', []) == s';
    RunFirst(s, 1);
    assert After(s, []) == s' by { AfterNone(s); }
  }

  lemma AfterNone(s: State)
    requires s.queue != []
    ensures After(s, []) == s.(queue := s.queue[1..])
  {
    assert s.calls + [] == s.calls;
  }

  /** One completion answered by the front block, and then the rest. */
  lemma AnswerFirst(s: State, b: Block, id: Id, outcome: Outcome, rest: seq<(Id, Outcome)>, n: nat)
    requires n > 0 && s.queue != []
    requires RunStep(s, false, 0.0, 0.0) == Call(s.(queue := [b] + s.queue[1..]), id, outcome)
    requires var s' := RunStep(s, false, 0.0, 0.0);
      Legal(s', Undisturbed(n - 1)) && Exec(s', Undisturbed(n - 1)) == After(s', rest)
    ensures Legal(s, Undisturbed(n)) && Exec(s, Undisturbed(n)) == After(s, [(id, outcome)] + rest)
  {
    hide RunStep, Legal, Exec, Undisturbed;
    RunFirst(s, n);
    assert ([b] + s.queue[1..])[1..] == s.queue[1..];
    assert s.calls + [(id, outcome)] + rest == s.calls + ([(id, outcome)] + rest);
  }

  /** A failed or refused refresh fails everything that waited for it, in the order of arrival. */
  lemma {:induction false} FailureAnswersAll(s: State)
    requires s.queue != [] && s.queue[0].ReleaseFailure?
    ensures var b := s.queue[0];
      var n := |b.adapts| + |b.retries| + 1;
      && Legal(s, Undisturbed(n))
      && Exec(s, Undisturbed(n))
         == After(s, Answers(b.adapts, AdaptFailed(b.error)) + Answers(b.retries, DoNotRetryWith(b.error)))
    decreases |s.queue[0].adapts| + |s.queue[0].retries|
  {
    hide Legal, Exec, Undisturbed, After;
    var b := s.queue[0];
    var n := |b.adapts| + |b.retries| + 1;
    var s' := RunStep(s, false, 0.0, 0.0);
    if b.adapts != [] {
      FailureAnswersAll(s');
      var rest := Answers(b.adapts[1..], AdaptFailed(b.error)) + Answers(b.retries, DoNotRetryWith(b.error));
      AnswerFirst(s, ReleaseFailure(b.error, b.adapts[1..], b.retries), b.adapts[0], AdaptFailed(b.error), rest, n);
      assert [(b.adapts[0], AdaptFailed(b.error))] + rest
        == Answers(b.adapts, AdaptFailed(b.error)) + Answers(b.retries, DoNotRetryWith(b.error));
    } else if b.retries != [] {
      FailureAnswersAll(s');
      var rest := Answers(b.retries[1..], DoNotRetryWith(b.error));
      assert Answers([], AdaptFailed(b.error)) + rest == rest;
      AnswerFirst(s, ReleaseFailure(b.error, [], b.retries[1..]), b.retries[0], DoNotRetryWith(b.error), rest, n);
      assert Answers([], AdaptFailed(b.error)) + Answers(b.retries, DoNotRetryWith(b.error)) ==
        [(b.retries[0], DoNotRetryWith(b.error))] + rest;
    } else {
      assert Answers(b.adapts, AdaptFailed(b.error)) + Answers(b.retries, DoNotRetryWith(b.error)) == [];
      EmptyBlock(s);
    }
  }

  /** After a successful refresh, everything that waited is adapted with the new credential or retried, in the order
      of arrival, as long as that credential stays fresh and nothing interferes. */
  lemma {:induction false} SuccessAnswersAll(s: State)
    requires s.queue != [] && s.queue[0].ReleaseSuccess? && !s.isRefreshing && s.credential.Some?
    ensures var b := s.queue[0];
      var n := |b.adapts| + |b.retries| + 1;
      && Legal(s, Undisturbed(n))
      && Exec(s, Undisturbed(n))
         == After(s, Answers(b.adapts, Adapted(s.credential.value)) + Answers(b.retries, RetryNow))
    decreases |s.queue[0].adapts| + |s.queue[0].retries|
  {
    hide Legal, Exec, Undisturbed, After;
    var b, good := s.queue[0], Adapted(s.credential.value);
    var n := |b.adapts| + |b.retries| + 1;
    var s' := RunStep(s, false, 0.0, 0.0);
    if b.adapts != [] {
      SuccessAnswersAll(s');
      var rest := Answers(b.adapts[1..], good) + Answers(b.retries, RetryNow);
      AnswerFirst(s, ReleaseSuccess(b.adapts[1..], b.retries), b.adapts[0], good, rest, n);
      assert [(b.adapts[0], good)] + rest == Answers(b.adapts, good) + Answers(b.retries, RetryNow);
    } else if b.retries != [] {
      SuccessAnswersAll(s');
      var rest := Answers(b.retries[1..], RetryNow);
      assert Answers([], good) + rest == rest;
      AnswerFirst(s, ReleaseSuccess([], b.retries[1..]), b.retries[0], RetryNow, rest, n);
      assert Answers([], good) + Answers(b.retries, RetryNow) == [(b.retries[0], RetryNow)] + rest;
    } else {
      assert Answers(b.adapts, good) + Answers(b.retries, RetryNow) == [];
      EmptyBlock(s);
    }
  }

  /** From the authenticator's answer to the last completion: with an otherwise idle queue, whatever waits when a
      refresh ends is answered with its result, once each and in the order of arrival. */
  lemma RefreshAnswersWaiting(s: State, credential: Credential, code: int)
    requires s.queue == [] && s.inFlight > 0
    ensures var ok := Step(s, RefreshSucceeds(credential));
      var n := |s.adaptOperations| + |s.requestsToRetry| + 1;
      && Legal(ok, Undisturbed(n))
      && Exec(ok, Undisturbed(n)).calls
         == s.calls + (Answers(s.adaptOperations, Adapted(credential)) + Answers(s.requestsToRetry, RetryNow))
    ensures var failed := Step(s, RefreshFails(code));
      var n := |s.adaptOperations| + |s.requestsToRetry| + 1;
      && Legal(failed, Undisturbed(n))
      && Exec(failed, Undisturbed(n)).calls
         == s.calls + (Answers(s.adaptOperations, AdaptFailed(RefreshFailed(code)))
                       + Answers(s.requestsToRetry, DoNotRetryWith(RefreshFailed(code))))
  {
    hide Legal, Exec, Undisturbed;
    SuccessAnswersAll(Step(s, RefreshSucceeds(credential)));
    FailureAnswersAll(Step(s, RefreshFails(code)));
  }
}
