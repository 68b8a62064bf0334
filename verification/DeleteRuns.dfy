/** Account deletion, judged by what the database and the authentication service answered during the run and not by the
    service's own bookkeeping. */
module DeleteRuns {
  import opened Bits
  import opened DeleteProtocol
  import opened Occurrences

  // ---- What the answers leave behind -------------------------------------------------------------------

  lemma StepRemovals(s: State, a: Action)
    requires Enabled(s, a)
    ensures Step(s, a).user == Succeeded <==> s.user == Succeeded || a == UserAnswer(true)
    ensures Step(s, a).user == Failed <==> s.user == Failed || a == UserAnswer(false)
    ensures Step(s, a).auth == Succeeded <==> s.auth == Succeeded || a == AuthAnswer(true)
    ensures Step(s, a).auth == Failed <==> s.auth == Failed || a == AuthAnswer(false)
  {}

  lemma {:induction false} RunRemovals(s: State, run: seq<Action>)
    requires Legal(s, run)
    ensures Exec(s, run).user == Succeeded <==> s.user == Succeeded || UserAnswer(true) in run
    ensures Exec(s, run).user == Failed <==> s.user == Failed || UserAnswer(false) in run
    ensures Exec(s, run).auth == Succeeded <==> s.auth == Succeeded || AuthAnswer(true) in run
    ensures Exec(s, run).auth == Failed <==> s.auth == Failed || AuthAnswer(false) in run
    decreases |run|
  {
    hide Step, Enabled;
    if run != [] {
      StepRemovals(s, run[0]);
      RunRemovals(Step(s, run[0]), run[1..]);
    }
  }

  /** What is known of an aquarium once its devices have been fetched, or it was given up, does not change. */
  predicate Settled(a: Aquarium, devices: Option<nat>) {
    if devices.None? then a == Abandoned else a.Deleting? && |a.devices| == devices.value
  }

  lemma StepSettled(s: State, a: Action, i: nat, devices: Option<nat>)
    requires Enabled(s, a) && s.progress == Fetched && i < |s.aquariums|
    ensures Step(s, a).progress == Fetched && |Step(s, a).aquariums| == |s.aquariums|
    ensures Settled(s.aquariums[i], devices) ==> Settled(Step(s, a).aquariums[i], devices)
    ensures a == DevicesFetched(i, devices) ==> Settled(Step(s, a).aquariums[i], devices)
    ensures s.aquariums[i] == FetchingDevices && (forall d :: a != DevicesFetched(i, d)) ==>
      Step(s, a).aquariums[i] == FetchingDevices
  {
    hide Launch;
  }

  lemma {:induction false} RunSettled(s: State, run: seq<Action>, i: nat, devices: Option<nat>)
    requires Legal(s, run) && s.progress == Fetched && i < |s.aquariums|
    ensures Exec(s, run).progress == Fetched && |Exec(s, run).aquariums| == |s.aquariums|
    ensures Settled(s.aquariums[i], devices) || DevicesFetched(i, devices) in run ==>
      Settled(Exec(s, run).aquariums[i], devices)
    ensures s.aquariums[i] == FetchingDevices && (forall d :: DevicesFetched(i, d) !in run) ==>
      Exec(s, run).aquariums[i] == FetchingDevices
    decreases |run|
  {
    hide Step, Enabled, Settled;
    if run != [] {
      StepSettled(s, run[0], i, devices);
      RunSettled(Step(s, run[0]), run[1..], i, devices);
    }
  }

  lemma StillFetched(s: State, run: seq<Action>)
    requires Legal(s, run) && s.progress == Fetched
    ensures Exec(s, run).progress == Fetched && |Exec(s, run).aquariums| == |s.aquariums|
    decreases |run|
  {
    hide Step, Enabled;
    if run != [] {
      StepFetched(s, run[0]);
      StillFetched(Step(s, run[0]), run[1..]);
    }
  }

  lemma StepFetched(s: State, a: Action)
    requires Enabled(s, a)
    ensures s.progress == Fetched ==> Step(s, a).progress == Fetched && |Step(s, a).aquariums| == |s.aquariums|
    ensures s.progress != Fetched && Step(s, a).progress == Fetched ==> a.AquariumsFetched? && a.aquariums.Some?
    ensures a.AquariumsFetched? && a.aquariums.Some? ==>
      && s.progress != Fetched && Step(s, a).progress == Fetched && |Step(s, a).aquariums| == |a.aquariums.value|
      && (forall i :: 0 <= i < |a.aquariums.value| ==>
            Step(s, a).aquariums[i] == if a.aquariums.value[i] then FetchingDevices else Abandoned)
  {}

  /** The fetched aquariums: as many as were reported, each given up, waiting for its devices, or at work on as many
      device chains as were reported for it. */
  ghost predicate AsFetched(s: State, started: seq<bool>, run: seq<Action>) {
    && s.progress == Fetched && |s.aquariums| == |started|
    && (forall i :: 0 <= i < |started| && !started[i] ==> Settled(s.aquariums[i], None))
    && (forall i: nat, d :: DevicesFetched(i, d) in run ==> i < |started| && Settled(s.aquariums[i], d))
    && (forall i :: 0 <= i < |started| && started[i] && s.aquariums[i] != FetchingDevices ==>
          exists d :: DevicesFetched(i, d) in run)
  }

  lemma {:induction false} RunAsFetched(s: State, run: seq<Action>, started: seq<bool>)
    requires Kept(s) && s.progress != Fetched && Legal(s, run) && AquariumsFetched(Some(started)) in run
    ensures AsFetched(Exec(s, run), started, run)
    decreases |run|
  {
    hide Kept, Step, Settled;
    var a, rest := run[0], run[1..];
    var s' := Step(s, a);
    StepKeeps(s, a);
    StepFetched(s, a);
    if a == AquariumsFetched(Some(started)) {
      OnlyOnce(s', rest, started);
      LaunchedSettled(started);
      StillFetched(s', rest);
      forall i: nat | i < |started| && !started[i] ensures Settled(Exec(s', rest).aquariums[i], None) {
        RunSettled(s', rest, i, None);
      }
      forall i: nat, d | DevicesFetched(i, d) in run ensures i < |started| && Settled(Exec(s', rest).aquariums[i], d) {
        FetchedInRange(s', rest, i, d);
        RunSettled(s', rest, i, d);
      }
      forall i: nat | i < |started| && started[i] && Exec(s', rest).aquariums[i] != FetchingDevices
        ensures exists d :: DevicesFetched(i, d) in run
      {
        RunSettled(s', rest, i, None);
        var d :| DevicesFetched(i, d) in rest;
        assert DevicesFetched(i, d) in run;
      }
    } else {
      assert AquariumsFetched(Some(started)) in rest;
      if s'.progress == Fetched {
        OnlyOnce(s', rest, started);
      } else {
        RunAsFetched(s', rest, started);
        NoDevicesYet(s, a);
        forall i: nat, d | DevicesFetched(i, d) in run ensures DevicesFetched(i, d) in rest {}
        forall i: nat, d | DevicesFetched(i, d) in rest ensures DevicesFetched(i, d) in run {}
      }
    }
  }

  lemma LaunchedSettled(started: seq<bool>)
    ensures Settled(Abandoned, None)
  {}

  lemma NoDevicesYet(s: State, a: Action)
    requires Kept(s) && s.progress != Fetched && Enabled(s, a)
    ensures !a.DevicesFetched?
  {}

  /** The aquariums are fetched once. */
  lemma {:induction false} OnlyOnce(s: State, run: seq<Action>, started: seq<bool>)
    requires Legal(s, run) && s.progress == Fetched
    ensures AquariumsFetched(Some(started)) !in run
    decreases |run|
  {
    hide Step;
    if run != [] {
      StepFetched(s, run[0]);
      OnlyOnce(Step(s, run[0]), run[1..], started);
    }
  }

  lemma {:induction false} FetchedInRange(s: State, run: seq<Action>, i: nat, d: Option<nat>)
    requires Legal(s, run) && s.progress == Fetched && DevicesFetched(i, d) in run
    ensures i < |s.aquariums|
    decreases |run|
  {
    hide Step;
    if run[0] != DevicesFetched(i, d) {
      StepFetched(s, run[0]);
      FetchedInRange(Step(s, run[0]), run[1..], i, d);
    }
  }

  lemma {:induction false} FetchedHow(s: State, run: seq<Action>)
    requires Legal(s, run) && s.progress != Fetched && Exec(s, run).progress == Fetched
    ensures exists started :: AquariumsFetched(Some(started)) in run
    decreases |run|
  {
    hide Step, Enabled;
    StepFetched(s, run[0]);
    if Step(s, run[0]).progress == Fetched {
      assert AquariumsFetched(Some(run[0].aquariums.value)) in run;
    } else {
      FetchedHow(Step(s, run[0]), run[1..]);
      var started :| AquariumsFetched(Some(started)) in run[1..];
      assert AquariumsFetched(Some(started)) in run;
    }
  }

  /** Nothing starts, and the timer is not armed, unless `delete` finds a user and a network. */
  lemma {:induction false} StartedHow(s: State, run: seq<Action>)
    requires Legal(s, run) && s.progress in {Idle, Stopped} && !s.timer
    ensures Exec(s, run).progress in {Idle, Stopped} || Delete(true, true) in run
    ensures TimedOut in Exec(s, run).reports ==> TimedOut in s.reports || Delete(true, true) in run
    decreases |run|
  {
    hide Step;
    if run != [] && run[0] != Delete(true, true) {
      NotStarted(s, run[0]);
      StartedHow(Step(s, run[0]), run[1..]);
    }
  }

  lemma NotStarted(s: State, a: Action)
    requires Enabled(s, a) && s.progress in {Idle, Stopped} && !s.timer && a != Delete(true, true)
    ensures Step(s, a).progress in {Idle, Stopped} && !Step(s, a).timer
    ensures TimedOut in Step(s, a).reports ==> TimedOut in s.reports
  {}

  // ---- The results -------------------------------------------------------------------------------------------

  /** The aquariums were fetched, there was one, and every transaction was started. */
  predicate AllStarted(run: seq<Action>, started: seq<bool>) {
    AquariumsFetched(Some(started)) in run && started != [] && forall i :: 0 <= i < |started| ==> started[i]
  }

  /** The devices of aquarium `i` were fetched during the run. */
  ghost predicate DevicesKnown(run: seq<Action>, i: nat) {
    exists n: nat :: DevicesFetched(i, Some(n)) in run
  }

  /** In every run, success means that `delete` found a user and a network, that both removals were answered with
      success, that the aquariums were fetched and were not none, that every one of them was started and had its
      devices fetched, and that there were exactly as many device chains as devices were fetched, all of which have
      called back. */
  lemma SuccessMeansFetchedDone(run: seq<Action>)
    requires Legal(Init, run) && Success in Exec(Init, run).reports
    ensures Delete(true, true) in run && UserAnswer(true) in run && AuthAnswer(true) in run
    ensures exists started :: AllStarted(run, started) && |Exec(Init, run).aquariums| == |started|
    ensures forall i: nat, d :: DevicesFetched(i, d) in run ==>
      && i < |Exec(Init, run).aquariums| && AquariumCalledBack(Exec(Init, run).aquariums[i])
      && d == Some(|Exec(Init, run).aquariums[i].devices|)
    ensures forall i: nat :: i < |Exec(Init, run).aquariums| ==> DevicesKnown(run, i)
  {
    hide Exec, Legal, AquariumCalledBack;
    var s := Exec(Init, run);
    Initially();
    RunRemovals(Init, run);
    SuccessMeansDone(run);
    RunKeeps(Init, run);
    FetchedWhenDone(s);
    FetchedHow(Init, run);
    StartedHow(Init, run);
    var started :| AquariumsFetched(Some(started)) in run;
    RunAsFetched(Init, run, started);
    forall i | 0 <= i < |started| ensures s.aquariums[i].Deleting? && started[i] {
      assert AquariumCalledBack(s.aquariums[i]);
      CalledBackDeleting(s.aquariums[i]);
    }
    assert AllStarted(run, started);
    forall i: nat | i < |s.aquariums| ensures DevicesKnown(run, i) {
      assert s.aquariums[i].Deleting?;
      var d :| DevicesFetched(i, d) in run;
      assert Settled(s.aquariums[i], d);
      assert DevicesFetched(i, Some(d.value)) in run;
    }
  }

  lemma FetchedWhenDone(s: State)
    requires Kept(s) && AllDone(s)
    ensures s.progress == Fetched
  {}

  /** A failed answer rules out success and is reported, once for each removal. */
  lemma FailedAnswerRulesOutSuccess(run: seq<Action>)
    requires Legal(Init, run)
    ensures UserAnswer(false) in run || AuthAnswer(false) in run ==> Success !in Exec(Init, run).reports
    ensures Count(Exec(Init, run).reports, DeleteUserError)
         == (if UserAnswer(false) in run then 1 else 0) + (if AuthAnswer(false) in run then 1 else 0)
  {
    hide Exec, Legal;
    RunRemovals(Init, run);
    FailedRemovalRulesOutSuccess(run);
  }

  /** When every callback has fired, success was reported if and only if the aquariums were fetched, were not none and
      were all started, no fetching of devices failed, and both removals were answered with success. How the removals
      of devices were answered makes no difference. */
  lemma SuccessExactlyByAnswers(run: seq<Action>)
    requires Legal(Init, run) && Quiet(Exec(Init, run))
    ensures Success in Exec(Init, run).reports <==>
      && (exists started :: AllStarted(run, started))
      && (forall i: nat :: DevicesFetched(i, None) !in run)
      && UserAnswer(true) in run && AuthAnswer(true) in run
  {
    hide Exec, Legal, Quiet, AquariumCalledBack;
    var s := Exec(Init, run);
    if Success in s.reports { SuccessMeansFetchedDone(run); }
    if (exists started :: AllStarted(run, started)) && (forall i: nat :: DevicesFetched(i, None) !in run)
       && UserAnswer(true) in run && AuthAnswer(true) in run {
      var started :| AllStarted(run, started);
      Initially();
      RunRemovals(Init, run);
      RunAsFetched(Init, run, started);
      forall i | 0 <= i < |s.aquariums| ensures !s.aquariums[i].Abandoned? {
        if s.aquariums[i] != FetchingDevices {
          var d :| DevicesFetched(i, d) in run;
          assert Settled(s.aquariums[i], d);
        }
      }
      SuccessExactly(run);
    }
  }

  /** When success is reported and no removal of a device failed, exactly the fetched number of devices of every
      aquarium is gone; with `all`, so is everything else their chains were to remove. */
  lemma FetchedDevicesGone(run: seq<Action>, all: bool, i: nat, n: nat)
    requires Legal(Init, run) && Success in Exec(Init, run).reports && DevicesFetched(i, Some(n)) in run
    ensures var aqs := Exec(Init, run).aquariums;
      && i < |aqs| && aqs[i].Deleting? && |aqs[i].devices| == n
      && (NoneFails(Init, run, all) ==> forall j :: 0 <= j < n ==> Gone(aqs[i].devices[j], all))
  {
    hide Exec, Legal, NoneFails, Gone, AquariumCalledBack;
    SuccessMeansFetchedDone(run);
    SuccessMeansGoneExactly(run, all);
    CalledBackDeleting(Exec(Init, run).aquariums[i]);
  }
}
