/** Deleting an account: a fan-out over the user's aquariums and their devices, joined by dispatch groups. Every
    remote answer is one step, and the answers arrive in any order or not at all. */
module DeleteProtocol {
  import opened Bits
  import opened Occurrences

  /** Results given to the caller's completion handler. */
  datatype Report = Success | DeleteUserError | TimedOut

  datatype Removal = Waiting | Succeeded | Failed

  datatype Phase = RemovingDevice | RemovingFromAquarium | RemovingAquariumFromUser | CalledBack

  /** A device chain and what it has removed so far: the device's own record, its entry in the aquarium, and the
      aquarium's entry in the user's record. */
  datatype Device = Device(phase: Phase, removed: bool, unlinked: bool, detached: bool)

  /** An aquarium's transaction: its device list is being fetched, it was given up without calling back, or its
      device chains are under way, with the inner group's count and whether that group has notified. */
  datatype Aquarium = FetchingDevices | Abandoned | Deleting(devices: seq<Device>, group: int, finished: bool)

  datatype Progress = Idle | FetchingAquariums | Fetched | Stopped

  datatype State = State(
    progress: Progress, group: int, index: int, aquariums: seq<Aquarium>,
    user: Removal, auth: Removal, notified: bool, timer: bool, reports: seq<Report>)

  const Init := State(Idle, 0, 0, [], Waiting, Waiting, false, false, [])

  datatype Action =
    | Delete(signedIn: bool, reachable: bool)
    | AquariumsFetched(aquariums: Option<seq<bool>>)
    | DevicesFetched(i: nat, devices: Option<nat>)
    | DeviceAnswer(i: nat, j: nat, ok: bool)
    | AquariumNotified(i: nat)
    | UserAnswer(ok: bool)
    | AuthAnswer(ok: bool)
    | Notified
    | TimerFires

  predicate Enabled(s: State, a: Action) {
    match a
    case Delete(_, _) => s.progress == Idle
    case AquariumsFetched(_) => s.progress == FetchingAquariums
    case DevicesFetched(i, _) => i < |s.aquariums| && s.aquariums[i] == FetchingDevices
    case DeviceAnswer(i, j, _) =>
      && i < |s.aquariums| && s.aquariums[i].Deleting?
      && j < |s.aquariums[i].devices| && s.aquariums[i].devices[j].phase != CalledBack
    case AquariumNotified(i) =>
      i < |s.aquariums| && s.aquariums[i].Deleting? && s.aquariums[i].group == 0 && !s.aquariums[i].finished
    case UserAnswer(_) => s.progress == Fetched && s.user == Waiting
    case AuthAnswer(_) => s.progress == Fetched && s.auth == Waiting
    case Notified => s.progress == Fetched && s.group == 0 && !s.notified
    case TimerFires => s.timer
  }

  /** `delete`: nothing happens without a user; without a network the group is entered and left waiting. */
  function DeleteCall(s: State, signedIn: bool, reachable: bool): State {
    if !signedIn then s.(progress := Stopped)
    else if !reachable then s.(progress := Stopped, group := s.group + 1)
    else s.(progress := FetchingAquariums, group := s.group + 1, timer := true)
  }

  /** A started transaction fetches its devices; one that finds no user returns without calling back. */
  function Launch(started: seq<bool>): (r: seq<Aquarium>)
    ensures |r| == |started|
    ensures forall i :: 0 <= i < |r| ==> r[i] == if started[i] then FetchingDevices else Abandoned
  {
    if started == [] then []
    else
      var last := |started| - 1;
      Launch(started[..last]) + [if started[last] then FetchingDevices else Abandoned]
  }

  function AquariumsAnswer(s: State, aquariums: Option<seq<bool>>): State {
    if aquariums.None? then s.(progress := Stopped)
    else s.(progress := Fetched, aquariums := Launch(aquariums.value), group := s.group + 2)
  }

  const FreshDevice := Device(RemovingDevice, false, false, false)

  function FreshDevices(n: nat): (r: seq<Device>)
    ensures |r| == n && forall j :: 0 <= j < n ==> r[j] == FreshDevice
  {
    if n == 0 then [] else FreshDevices(n - 1) + [FreshDevice]
  }

  function DevicesAnswer(devices: Option<nat>): Aquarium {
    if devices.None? then Abandoned else Deleting(FreshDevices(devices.value), devices.value, false)
  }

  /** The answer to a device chain's pending removal. A failed removal of the device skips the second removal; how the
      second and third are answered makes no difference to how the chain goes on. */
  function Advance(d: Device, ok: bool): Device {
    match d.phase
    case RemovingDevice => d.(phase := if ok then RemovingFromAquarium else RemovingAquariumFromUser, removed := ok)
    case RemovingFromAquarium => d.(phase := RemovingAquariumFromUser, unlinked := ok)
    case _ => d.(phase := CalledBack, detached := ok)
  }

  function AdvanceIn(a: Aquarium, j: nat, ok: bool): Aquarium
    requires a.Deleting? && j < |a.devices|
  {
    var d := Advance(a.devices[j], ok);
    a.(devices := a.devices[j := d], group := if d.phase == CalledBack then a.group - 1 else a.group)
  }

  /** The inner group is empty: one aquarium more is done, and the last one leaves the outer group. */
  function AquariumDone(s: State, i: nat): State
    requires i < |s.aquariums| && s.aquariums[i].Deleting?
  {
    var s' := s.(aquariums := s.aquariums[i := s.aquariums[i].(finished := true)], index := s.index + 1);
    if s'.index == |s'.aquariums| then s'.(group := s'.group - 1) else s'
  }

  function RemovalAnswer(s: State, ok: bool): State {
    if ok then s.(group := s.group - 1) else s.(reports := s.reports + [DeleteUserError])
  }

  function Step(s: State, a: Action): State
    requires Enabled(s, a)
  {
    match a
    case Delete(signedIn, reachable) => DeleteCall(s, signedIn, reachable)
    case AquariumsFetched(aquariums) => AquariumsAnswer(s, aquariums)
    case DevicesFetched(i, devices) => s.(aquariums := s.aquariums[i := DevicesAnswer(devices)])
    case DeviceAnswer(i, j, ok) => s.(aquariums := s.aquariums[i := AdvanceIn(s.aquariums[i], j, ok)])
    case AquariumNotified(i) => AquariumDone(s, i)
    case UserAnswer(ok) => RemovalAnswer(s.(user := if ok then Succeeded else Failed), ok)
    case AuthAnswer(ok) => RemovalAnswer(s.(auth := if ok then Succeeded else Failed), ok)
    case Notified => s.(notified := true, reports := s.reports + [Success])
    case TimerFires => s.(timer := false, reports := s.reports + [TimedOut])
  }

  predicate Legal(s: State, run: seq<Action>)
    decreases |run|
  {
    run == [] || (Enabled(s, run[0]) && Legal(Step(s, run[0]), run[1..]))
  }

  function Exec(s: State, run: seq<Action>): State
    requires Legal(s, run)
    decreases |run|
  {
    if run == [] then s else Exec(Step(s, run[0]), run[1..])
  }

  // ---- What every step keeps -----------------------------------------------------------------------------

  /** Device chains that have not called back. */
  function Unfinished(ds: seq<Device>): nat {
    if ds == [] then 0 else Unfinished(ds[..|ds| - 1]) + (if ds[|ds| - 1].phase == CalledBack then 0 else 1)
  }

  predicate IsFinished(a: Aquarium) {
    a.Deleting? && a.finished
  }

  function Finished(aqs: seq<Aquarium>): nat {
    if aqs == [] then 0 else Finished(aqs[..|aqs| - 1]) + (if IsFinished(aqs[|aqs| - 1]) then 1 else 0)
  }

  /** The inner group counts the device chains that have not called back, and it notifies only when none is left. */
  predicate GroupKept(a: Aquarium) {
    a.Deleting? ==> a.group == Unfinished(a.devices) && (a.finished ==> a.group == 0)
  }

  predicate AllGroupsKept(aqs: seq<Aquarium>) {
    forall i :: 0 <= i < |aqs| ==> GroupKept(aqs[i])
  }

  function Owed(r: Removal): int {
    if r == Succeeded then 0 else 1
  }

  /** The outer group's count: one for the aquariums until the last of at least one is done, and one for each of
      the two removals until it succeeds. */
  predicate Kept(s: State) {
    && AllGroupsKept(s.aquariums)
    && s.index == Finished(s.aquariums)
    && (s.progress == Fetched ==>
          s.group == (if s.aquariums != [] && s.index == |s.aquariums| then 0 else 1) + Owed(s.user) + Owed(s.auth))
    && (s.progress != Fetched ==>
          && s.aquariums == [] && !s.notified && s.user == s.auth == Waiting
          && (if s.progress == FetchingAquariums then s.group == 1 else 0 <= s.group <= 1)
          && (s.progress == Idle ==> s.group == 0))
    && (s.notified ==> s.group == 0)
    && Count(s.reports, Success) == (if s.notified then 1 else 0)
    && Count(s.reports, DeleteUserError) == (if s.user == Failed then 1 else 0) + (if s.auth == Failed then 1 else 0)
    && TimerKept(s)
  }

  /** Once fetching has started, the timer either is still to fire or has reported its timeout. */
  predicate TimerKept(s: State) {
    var due := Count(s.reports, TimedOut) + (if s.timer then 1 else 0);
    match s.progress
    case Idle => due == 0
    case Stopped => due <= 1
    case _ => due == 1
  }

  lemma {:induction false} UnfinishedUpdate(ds: seq<Device>, j: nat, d: Device)
    requires j < |ds|
    ensures Unfinished(ds[j := d]) + (if ds[j].phase == CalledBack then 0 else 1)
         == Unfinished(ds) + (if d.phase == CalledBack then 0 else 1)
  {
    var last := |ds| - 1;
    if j == last {
      assert ds[j := d][..last] == ds[..last];
    } else {
      assert ds[j := d][..last] == ds[..last][j := d];
      UnfinishedUpdate(ds[..last], j, d);
    }
  }

  lemma {:induction false} UnfinishedNone(ds: seq<Device>)
    ensures Unfinished(ds) == 0 <==> forall j :: 0 <= j < |ds| ==> ds[j].phase == CalledBack
  {
    if ds != [] {
      var last := |ds| - 1;
      UnfinishedNone(ds[..last]);
      assert forall j :: 0 <= j < last ==> ds[..last][j] == ds[j];
    }
  }

  lemma {:induction false} UnfinishedFresh(n: nat)
    ensures Unfinished(FreshDevices(n)) == n
  {
    if n > 0 {
      UnfinishedFresh(n - 1);
      assert FreshDevices(n)[..n - 1] == FreshDevices(n - 1);
    }
  }

  lemma {:induction false} FinishedUpdate(aqs: seq<Aquarium>, i: nat, a: Aquarium)
    requires i < |aqs|
    ensures Finished(aqs[i := a]) + (if IsFinished(aqs[i]) then 1 else 0)
         == Finished(aqs) + (if IsFinished(a) then 1 else 0)
  {
    var last := |aqs| - 1;
    if i == last {
      assert aqs[i := a][..last] == aqs[..last];
    } else {
      assert aqs[i := a][..last] == aqs[..last][i := a];
      FinishedUpdate(aqs[..last], i, a);
    }
  }

  lemma {:induction false} FinishedAll(aqs: seq<Aquarium>)
    ensures Finished(aqs) <= |aqs|
    ensures Finished(aqs) == |aqs| <==> forall i :: 0 <= i < |aqs| ==> IsFinished(aqs[i])
  {
    if aqs != [] {
      var last := |aqs| - 1;
      FinishedAll(aqs[..last]);
      assert forall i :: 0 <= i < last ==> aqs[..last][i] == aqs[i];
    }
  }

  lemma {:induction false} FinishedLaunch(started: seq<bool>)
    ensures Finished(Launch(started)) == 0 && AllGroupsKept(Launch(started))
  {
    if started != [] {
      var last := |started| - 1;
      FinishedLaunch(started[..last]);
      assert Launch(started)[..last] == Launch(started[..last]);
    }
  }

  /** Replacing an aquarium that is not done by one that keeps its group and is not done either. */
  lemma ReplaceKeeps(s: State, i: nat, a: Aquarium)
    requires Kept(s) && i < |s.aquariums| && GroupKept(a) && (IsFinished(a) <==> IsFinished(s.aquariums[i]))
    ensures Kept(s.(aquariums := s.aquariums[i := a]))
  {
    hide GroupKept, IsFinished, Owed;
    FinishedUpdate(s.aquariums, i, a);
  }

  lemma DeviceKeeps(a: Aquarium, j: nat, ok: bool)
    requires GroupKept(a) && a.Deleting? && j < |a.devices| && a.devices[j].phase != CalledBack
    ensures GroupKept(AdvanceIn(a, j, ok)) && (IsFinished(AdvanceIn(a, j, ok)) <==> IsFinished(a))
    ensures a.group > 0
  {
    UnfinishedUpdate(a.devices, j, Advance(a.devices[j], ok));
    UnfinishedNone(a.devices);
  }

  lemma AquariumDoneKeeps(s: State, i: nat)
    requires Kept(s) && Enabled(s, AquariumNotified(i))
    ensures Kept(AquariumDone(s, i))
    ensures s.index + 1 == |s.aquariums| ==> s.group > 0
  {
    hide Unfinished;
    var a := s.aquariums[i].(finished := true);
    assert GroupKept(s.aquariums[i]);
    FinishedUpdate(s.aquariums, i, a);
    FinishedAll(s.aquariums[i := a]);
    FinishedAll(s.aquariums);
  }

  lemma RemovalKeeps(s: State, a: Action)
    requires Kept(s) && Enabled(s, a) && (a.UserAnswer? || a.AuthAnswer?)
    ensures Kept(Step(s, a))
    ensures s.group > 0
  {
    hide AllGroupsKept, Finished, Count;
    CountSnoc(s.reports, DeleteUserError, Success);
    CountSnoc(s.reports, DeleteUserError, DeleteUserError);
    CountSnoc(s.reports, DeleteUserError, TimedOut);
  }

  lemma ReportKeeps(s: State, a: Action)
    requires Kept(s) && Enabled(s, a) && (a.Notified? || a.TimerFires?)
    ensures Kept(Step(s, a))
  {
    hide AllGroupsKept, Finished, Count;
    var r := if a.Notified? then Success else TimedOut;
    CountSnoc(s.reports, r, Success);
    CountSnoc(s.reports, r, DeleteUserError);
    CountSnoc(s.reports, r, TimedOut);
  }

  lemma StepKeeps(s: State, a: Action)
    requires Kept(s) && Enabled(s, a)
    ensures Kept(Step(s, a))
  {
    hide GroupKept, AquariumDone, RemovalAnswer, AdvanceIn, Launch, Unfinished, AllGroupsKept;
    match a
    case Delete(_, _) =>
    case AquariumsFetched(aquariums) => if aquariums.Some? { FinishedLaunch(aquariums.value); }
    case DevicesFetched(i, devices) =>
      DevicesKeep(devices);
      ReplaceKeeps(s, i, DevicesAnswer(devices));
    case DeviceAnswer(i, j, ok) =>
      AquariumKept(s, i);
      DeviceKeeps(s.aquariums[i], j, ok);
      ReplaceKeeps(s, i, AdvanceIn(s.aquariums[i], j, ok));
    case AquariumNotified(i) => AquariumDoneKeeps(s, i);
    case UserAnswer(_) => RemovalKeeps(s, a);
    case AuthAnswer(_) => RemovalKeeps(s, a);
    case Notified => ReportKeeps(s, a);
    case TimerFires => ReportKeeps(s, a);
  }

  lemma AquariumKept(s: State, i: nat)
    requires Kept(s) && i < |s.aquariums|
    ensures GroupKept(s.aquariums[i])
  {}

  lemma DevicesKeep(devices: Option<nat>)
    ensures GroupKept(DevicesAnswer(devices)) && !IsFinished(DevicesAnswer(devices))
  {
    if devices.Some? { UnfinishedFresh(devices.value); }
  }

  lemma {:induction false} RunKeeps(s: State, run: seq<Action>)
    requires Kept(s) && Legal(s, run)
    ensures Kept(Exec(s, run))
    decreases |run|
  {
    hide Kept, Step, Enabled;
    if run != [] {
      StepKeeps(s, run[0]);
      RunKeeps(Step(s, run[0]), run[1..]);
    }
  }

  lemma Initially()
    ensures Kept(Init)
  {}

  // ---- The results ---------------------------------------------------------------------------------------

  /** Everything success stands for: both removals succeeded, there was an aquarium, and every device chain of every
      aquarium has called back. */
  predicate AllDone(s: State) {
    && s.user == s.auth == Succeeded
    && s.aquariums != []
    && forall i :: 0 <= i < |s.aquariums| ==> AquariumCalledBack(s.aquariums[i])
  }

  predicate AquariumCalledBack(a: Aquarium) {
    && IsFinished(a)
    && forall j :: 0 <= j < |a.devices| ==> a.devices[j].phase == CalledBack
  }

  /** The outer group is empty exactly when everything is done. */
  lemma GroupEmpty(s: State)
    requires Kept(s) && s.progress == Fetched
    ensures s.group == 0 <==> AllDone(s)
  {
    hide Unfinished, Finished;
    FinishedAll(s.aquariums);
    forall i | 0 <= i < |s.aquariums| && IsFinished(s.aquariums[i]) ensures AquariumCalledBack(s.aquariums[i]) {
      AquariumKept(s, i);
      UnfinishedNone(s.aquariums[i].devices);
    }
  }

  /** In no run is a group left more often than it was entered. */
  lemma NeverOverLeaves(run: seq<Action>)
    requires Legal(Init, run)
    ensures var s := Exec(Init, run);
      s.group >= 0 && forall i :: 0 <= i < |s.aquariums| && s.aquariums[i].Deleting? ==> s.aquariums[i].group >= 0
  {
    hide Exec, Legal;
    Initially();
    RunKeeps(Init, run);
    var s := Exec(Init, run);
    forall i | 0 <= i < |s.aquariums| && s.aquariums[i].Deleting? ensures s.aquariums[i].group >= 0 {
      AquariumKept(s, i);
    }
  }

  /** In every run success is reported at most once, and only when everything it stands for is done. */
  lemma SuccessMeansDone(run: seq<Action>)
    requires Legal(Init, run)
    ensures var s := Exec(Init, run); Count(s.reports, Success) <= 1 && (Success in s.reports ==> AllDone(s))
  {
    hide Exec, Legal, AllDone;
    Initially();
    RunKeeps(Init, run);
    var s := Exec(Init, run);
    if s.notified { GroupEmpty(s); }
  }

  /** A failed removal of the user's record or of the account rules out success, before and after, and each failure
      is reported once. */
  lemma FailedRemovalRulesOutSuccess(run: seq<Action>)
    requires Legal(Init, run)
    ensures var s := Exec(Init, run);
      && (s.user == Failed || s.auth == Failed ==> Success !in s.reports)
      && Count(s.reports, DeleteUserError) == (if s.user == Failed then 1 else 0) + (if s.auth == Failed then 1 else 0)
  {
    hide Exec, Legal;
    Initially();
    RunKeeps(Init, run);
    SuccessMeansDone(run);
  }

  /** Nothing more can happen, except that the timer may still fire. */
  ghost predicate Quiet(s: State) {
    forall a: Action :: Enabled(s, a) ==> a.TimerFires?
  }

  predicate GivenUp(aqs: seq<Aquarium>) {
    exists i :: 0 <= i < |aqs| && aqs[i].Abandoned?
  }

  lemma QuietAquariums(s: State)
    requires Kept(s) && Quiet(s) && !GivenUp(s.aquariums)
    ensures forall i :: 0 <= i < |s.aquariums| ==> IsFinished(s.aquariums[i])
  {
    hide Unfinished, Finished;
    forall i | 0 <= i < |s.aquariums| ensures IsFinished(s.aquariums[i]) {
      AquariumKept(s, i);
      var a := s.aquariums[i];
      assert !a.Abandoned?;
      assert !Enabled(s, DevicesFetched(i, None));
      forall j | 0 <= j < |a.devices| ensures a.devices[j].phase == CalledBack {
        assert !Enabled(s, DeviceAnswer(i, j, true));
      }
      UnfinishedNone(a.devices);
      assert !Enabled(s, AquariumNotified(i));
    }
  }

  /** When every callback has fired, success was reported if and only if the aquariums were fetched and there was
      one, none of their transactions was given up, and both removals succeeded. */
  lemma SuccessExactly(run: seq<Action>)
    requires Legal(Init, run) && Quiet(Exec(Init, run))
    ensures var s := Exec(Init, run);
      Success in s.reports
      <==> s.progress == Fetched && s.aquariums != [] && !GivenUp(s.aquariums) && s.user == s.auth == Succeeded
  {
    hide Exec, Legal, Finished, Quiet, AllGroupsKept;
    Initially();
    RunKeeps(Init, run);
    var s := Exec(Init, run);
    SuccessMeansDone(run);
    QuietNotified(s);
    if s.progress == Fetched && s.aquariums != [] && !GivenUp(s.aquariums) && s.user == s.auth == Succeeded {
      QuietAquariums(s);
      FinishedAll(s.aquariums);
    }
  }

  lemma QuietNotified(s: State)
    requires Quiet(s)
    ensures s.progress == Fetched && s.group == 0 ==> s.notified
  {
    assert !Enabled(s, Notified);
  }

  // ---- What success does not stand for ------------------------------------------------------------------------

  /** The chain has removed its device, or has not tried to; with `all`, this goes for all its removals. */
  predicate SoFarGood(d: Device, all: bool) {
    match d.phase
    case RemovingDevice => true
    case RemovingFromAquarium => d.removed
    case RemovingAquariumFromUser => d.removed && (all ==> d.unlinked)
    case CalledBack => d.removed && (all ==> d.unlinked && d.detached)
  }

  predicate ChainsGood(a: Aquarium, all: bool) {
    a.Deleting? ==> forall j :: 0 <= j < |a.devices| ==> SoFarGood(a.devices[j], all)
  }

  predicate AllGood(aqs: seq<Aquarium>, all: bool) {
    forall i :: 0 <= i < |aqs| ==> ChainsGood(aqs[i], all)
  }

  /** The answer is the failed removal of a device, or with `all` any failed removal of a device chain. */
  predicate FailsIn(s: State, a: Action, all: bool)
    requires Enabled(s, a)
  {
    a.DeviceAnswer? && !a.ok && (all || s.aquariums[a.i].devices[a.j].phase == RemovingDevice)
  }

  /** No such answer arrives during the run. */
  predicate NoneFails(s: State, run: seq<Action>, all: bool)
    requires Legal(s, run)
    decreases |run|
  {
    run == [] || (!FailsIn(s, run[0], all) && NoneFails(Step(s, run[0]), run[1..], all))
  }

  lemma AnswerGood(a: Aquarium, j: nat, ok: bool, all: bool)
    requires a.Deleting? && j < |a.devices| && a.devices[j].phase != CalledBack
    ensures ChainsGood(AdvanceIn(a, j, ok), all)
      <==> ChainsGood(a, all) && (ok || !(all || a.devices[j].phase == RemovingDevice))
  {
    var a', d := AdvanceIn(a, j, ok), Advance(a.devices[j], ok);
    assert a'.devices[j] == d && forall k :: 0 <= k < |a.devices| && k != j ==> a'.devices[k] == a.devices[k];
    assert SoFarGood(d, all) <==>
      SoFarGood(a.devices[j], all) && (ok || !(all || a.devices[j].phase == RemovingDevice));
  }

  lemma ReplaceGood(aqs: seq<Aquarium>, i: nat, a: Aquarium, all: bool)
    requires i < |aqs|
    ensures AllGood(aqs[i := a], all) && ChainsGood(aqs[i], all) ==> AllGood(aqs, all)
    ensures AllGood(aqs, all) && ChainsGood(a, all) ==> AllGood(aqs[i := a], all)
    ensures AllGood(aqs[i := a], all) ==> ChainsGood(a, all)
  {
    hide ChainsGood;
    assert forall k :: 0 <= k < |aqs| && k != i ==> aqs[i := a][k] == aqs[k];
    assert aqs[i := a][i] == a;
  }

  lemma StepGood(s: State, a: Action, all: bool)
    requires Kept(s) && Enabled(s, a)
    ensures AllGood(Step(s, a).aquariums, all) <==> AllGood(s.aquariums, all) && !FailsIn(s, a, all)
  {
    hide Kept, ChainsGood, AdvanceIn, AllGood, Launch;
    match a
    case AquariumsFetched(aquariums) => LaunchGood(s, aquariums, all);
    case DevicesFetched(i, devices) =>
      ReplaceGood(s.aquariums, i, DevicesAnswer(devices), all);
      FetchedGood(devices, all);
    case DeviceAnswer(i, j, ok) =>
      ReplaceGood(s.aquariums, i, AdvanceIn(s.aquariums[i], j, ok), all);
      AnswerGood(s.aquariums[i], j, ok, all);
      GoodAt(s.aquariums, i, all);
    case AquariumNotified(i) =>
      ReplaceGood(s.aquariums, i, s.aquariums[i].(finished := true), all);
      FinishedGood(s.aquariums[i], all);
      GoodAt(s.aquariums, i, all);
    case _ =>
  }

  lemma GoodAt(aqs: seq<Aquarium>, i: nat, all: bool)
    requires i < |aqs|
    ensures AllGood(aqs, all) ==> ChainsGood(aqs[i], all)
  {}

  lemma LaunchGood(s: State, aquariums: Option<seq<bool>>, all: bool)
    requires Kept(s) && s.progress == FetchingAquariums
    ensures AllGood(s.aquariums, all) && AllGood(AquariumsAnswer(s, aquariums).aquariums, all)
  {}

  lemma FetchedGood(devices: Option<nat>, all: bool)
    ensures ChainsGood(DevicesAnswer(devices), all) && ChainsGood(FetchingDevices, all)
  {}

  lemma FinishedGood(a: Aquarium, all: bool)
    requires a.Deleting?
    ensures ChainsGood(a.(finished := true), all) <==> ChainsGood(a, all)
  {}

  lemma {:induction false} RunGood(s: State, run: seq<Action>, all: bool)
    requires Kept(s) && Legal(s, run)
    ensures AllGood(Exec(s, run).aquariums, all) <==> AllGood(s.aquariums, all) && NoneFails(s, run, all)
    decreases |run|
  {
    hide Kept, Step, Enabled, AllGood, FailsIn;
    if run != [] {
      StepKeeps(s, run[0]);
      StepGood(s, run[0], all);
      RunGood(Step(s, run[0]), run[1..], all);
    }
  }

  /** Every device of every aquarium satisfies `removed`, and with `all` nothing of it is left anywhere. */
  predicate DevicesGone(aqs: seq<Aquarium>, all: bool) {
    forall i :: 0 <= i < |aqs| && aqs[i].Deleting? ==> DevicesGoneIn(aqs[i], all)
  }

  predicate DevicesGoneIn(a: Aquarium, all: bool)
    requires a.Deleting?
  {
    forall j :: 0 <= j < |a.devices| ==> Gone(a.devices[j], all)
  }

  predicate Gone(d: Device, all: bool) {
    d.removed && (all ==> d.unlinked && d.detached)
  }

  lemma GoneIsGood(a: Aquarium, all: bool)
    requires AquariumCalledBack(a)
    ensures ChainsGood(a, all) <==> DevicesGoneIn(a, all)
  {}

  /** Success means that the devices are gone exactly when no removal of a device failed; and that all three removals of
      every device chain took place exactly when none of them failed. An aquarium without devices has no chain, and
      nothing is removed for it. */
  lemma SuccessMeansGoneExactly(run: seq<Action>, all: bool)
    requires Legal(Init, run) && Success in Exec(Init, run).reports
    ensures DevicesGone(Exec(Init, run).aquariums, all) <==> NoneFails(Init, run, all)
  {
    hide Exec, Legal, NoneFails, ChainsGood, AquariumCalledBack, DevicesGoneIn;
    Initially();
    RunGood(Init, run, all);
    SuccessMeansDone(run);
    var aqs := Exec(Init, run).aquariums;
    forall i | 0 <= i < |aqs| ensures aqs[i].Deleting? && (ChainsGood(aqs[i], all) <==> DevicesGoneIn(aqs[i], all)) {
      assert AquariumCalledBack(aqs[i]);
      CalledBackDeleting(aqs[i]);
      GoneIsGood(aqs[i], all);
    }
    assert AllGood(Init.aquariums, all);
  }

  lemma CalledBackDeleting(a: Aquarium)
    requires AquariumCalledBack(a)
    ensures a.Deleting?
  {}

  /** After a success the timeout is still to come exactly when it has not been reported yet, and once nothing at all
      can happen any more, both have been reported, once each. */
  lemma TimeoutAfterSuccess(run: seq<Action>)
    requires Legal(Init, run) && Success in Exec(Init, run).reports
    ensures var s := Exec(Init, run);
      && (Enabled(s, TimerFires) <==> TimedOut !in s.reports)
      && Count(s.reports, TimedOut) <= 1
      && ((forall a: Action :: !Enabled(s, a)) ==> Count(s.reports, Success) == Count(s.reports, TimedOut) == 1)
  {
    hide Exec, Legal;
    Initially();
    RunKeeps(Init, run);
    var s := Exec(Init, run);
    assert !Enabled(s, TimerFires) <==> !s.timer;
  }

  /** One aquarium with one device, whose removal fails. */
  const FailedRemovalRun: seq<Action> := [
    Delete(true, true), AquariumsFetched(Some([true])), DevicesFetched(0, Some(1)), UserAnswer(true), AuthAnswer(true),
    DeviceAnswer(0, 0, false), DeviceAnswer(0, 0, true), AquariumNotified(0), Notified, TimerFires]

  lemma Follow(s: State, run: seq<Action>, k: nat)
    requires k < |run| && Enabled(s, run[k]) && Legal(Step(s, run[k]), run[k + 1..])
    ensures Legal(s, run[k..]) && Exec(s, run[k..]) == Exec(Step(s, run[k]), run[k + 1..])
  {
    hide Step, Enabled;
    assert run[k..][0] == run[k] && run[k..][1..] == run[k + 1..];
  }

  lemma NoMore(s: State)
    ensures Legal(s, []) && Exec(s, []) == s
  {}

  function OneAquarium(a: Aquarium): State {
    State(Fetched, 1, 0, [a], Succeeded, Succeeded, false, true, [])
  }

  /** The aquarium is launched and both removals succeed. */
  lemma FailedRemovalStarts()
    ensures var run, s5 := FailedRemovalRun, OneAquarium(Deleting([FreshDevice], 1, false));
      Legal(s5, run[5..]) ==> Legal(Init, run) && Exec(Init, run) == Exec(s5, run[5..])
  {
    hide Exec, Legal;
    var run := FailedRemovalRun;
    var s1 := State(FetchingAquariums, 1, 0, [], Waiting, Waiting, false, true, []);
    var s2 := State(Fetched, 3, 0, [FetchingDevices], Waiting, Waiting, false, true, []);
    assert Step(s1, run[1]) == s2;
    var s3 := s2.(aquariums := [Deleting([FreshDevice], 1, false)]);
    assert FreshDevices(1) == [FreshDevice];
    assert Step(s2, run[2]) == s3;
    var s4 := s3.(user := Succeeded, group := 2);
    assert Step(s3, run[3]) == s4;
    var s5 := OneAquarium(Deleting([FreshDevice], 1, false));
    assert Step(s4, run[4]) == s5;
    assert run[0..] == run;
    if Legal(s5, run[5..]) {
      Follow(s4, run, 4);
      Follow(s3, run, 3);
      Follow(s2, run, 2);
      Follow(s1, run, 1);
      Follow(Init, run, 0);
    }
  }

  /** The device chain calls back although its first removal failed. */
  lemma FailedRemovalEnds()
    ensures var run, s5 := FailedRemovalRun, OneAquarium(Deleting([FreshDevice], 1, false));
      && Legal(s5, run[5..])
      && Exec(s5, run[5..]).aquariums == [Deleting([Device(CalledBack, false, false, true)], 0, true)]
      && Exec(s5, run[5..]).reports == [Success, TimedOut]
  {
    hide Exec, Legal;
    var run := FailedRemovalRun;
    var skipped, gone := Device(RemovingAquariumFromUser, false, false, false), Device(CalledBack, false, false, true);
    var s5 := OneAquarium(Deleting([FreshDevice], 1, false));
    var s6 := OneAquarium(Deleting([skipped], 1, false));
    assert [FreshDevice][0 := skipped] == [skipped];
    assert Step(s5, run[5]) == s6;
    var s7 := OneAquarium(Deleting([gone], 0, false));
    assert [skipped][0 := gone] == [gone];
    assert Step(s6, run[6]) == s7;
    var s8 := OneAquarium(Deleting([gone], 0, true)).(index := 1, group := 0);
    assert Step(s7, run[7]) == s8;
    var s9 := s8.(notified := true, reports := [Success]);
    assert Step(s8, run[8]) == s9;
    var s10 := s9.(timer := false, reports := [Success, TimedOut]);
    assert Step(s9, run[9]) == s10;
    assert run[10..] == [];
    NoMore(s10);
    Follow(s9, run, 9);
    Follow(s8, run, 8);
    Follow(s7, run, 7);
    Follow(s6, run, 6);
    Follow(s5, run, 5);
  }

  /** Success is reported although the device was not removed, and the timer, which nothing stops, then reports a
      failure to the same handler. */
  lemma SuccessDespiteFailedRemoval()
    ensures Legal(Init, FailedRemovalRun)
    ensures var s := Exec(Init, FailedRemovalRun);
      s.aquariums == [Deleting([Device(CalledBack, false, false, true)], 0, true)] && s.reports == [Success, TimedOut]
  {
    hide Exec, Legal;
    FailedRemovalEnds();
    FailedRemovalStarts();
  }

  /** A user without aquariums: everything that was started has succeeded, but the first entry of the group is never
      left, so nothing more can happen but the timeout. */
  lemma NoAquariumsNoSuccess()
    ensures var run := [Delete(true, true), AquariumsFetched(Some([])), UserAnswer(true), AuthAnswer(true)];
      && Legal(Init, run)
      && Exec(Init, run) == State(Fetched, 1, 0, [], Succeeded, Succeeded, false, true, [])
      && Quiet(Exec(Init, run))
  {
    hide Exec, Legal;
    var run := [Delete(true, true), AquariumsFetched(Some([])), UserAnswer(true), AuthAnswer(true)];
    var s1 := State(FetchingAquariums, 1, 0, [], Waiting, Waiting, false, true, []);
    var s2 := State(Fetched, 3, 0, [], Waiting, Waiting, false, true, []);
    assert Step(s1, run[1]) == s2;
    var s3 := s2.(user := Succeeded, group := 2);
    var s4 := s3.(auth := Succeeded, group := 1);
    assert run[4..] == [] && run[0..] == run;
    NoMore(s4);
    Follow(s3, run, 3);
    Follow(s2, run, 2);
    Follow(s1, run, 1);
    Follow(Init, run, 0);
  }
}
