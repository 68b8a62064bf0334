/** The deletion service as an object: `delete` and the callbacks it registers, performed in place. */
module FirebaseDeleteService {
  import opened Bits
  import opened DeleteProtocol

  /** `DispatchGroup.leave` traps unless the group has been entered more often than left. */
  function Leave(count: int): int
    requires count > 0
  {
    count - 1
  }

  class FirebaseDeleteService {
    var progress: Progress
    /** The counter and the dispatch group that the callbacks of `delete` capture. */
    var index: int
    var group: int
    var aquariums: seq<Aquarium>
    var user: Removal
    var auth: Removal
    var notified: bool
    var timer: bool
    ghost var reports: seq<Report>

    ghost function Abs(): State
      reads this
    {
      State(progress, group, index, aquariums, user, auth, notified, timer, reports)
    }

    constructor ()
      ensures Abs() == Init && Kept(Abs())
    {
      progress, index, group, aquariums := Idle, 0, 0, [];
      user, auth, notified, timer, reports := Waiting, Waiting, false, false, [];
    }

    method CompletionHandler(report: Report)
      modifies this`reports
      ensures reports == old(reports) + [report]
    {
      reports := reports + [report];
    }

    method DeleteAccount(signedIn: bool, reachable: bool)
      requires Kept(Abs()) && progress == Idle
      modifies this
      ensures Abs() == Step(old(Abs()), Delete(signedIn, reachable)) && Kept(Abs())
    {
      StepKeeps(Abs(), Delete(signedIn, reachable));
      progress := Stopped;
      if !signedIn { return; }
      group := group + 1;
      if reachable {
        timer := true;
        progress := FetchingAquariums;
      }
    }

    /** The callback of `fetchAquariums`; `started` says which transactions still find a signed-in user. */
    method DidFetchAquariums(started: Option<seq<bool>>)
      requires Kept(Abs()) && progress == FetchingAquariums
      modifies this
      ensures Abs() == Step(old(Abs()), AquariumsFetched(started)) && Kept(Abs())
    {
      StepKeeps(Abs(), AquariumsFetched(started));
      if started.None? {
        progress := Stopped;
        return;
      }
      var launched: seq<Aquarium> := [];
      for i := 0 to |started.value|
        invariant launched == Launch(started.value[..i])
      {
        assert started.value[..i + 1][..i] == started.value[..i];
        launched := launched + [if started.value[i] then FetchingDevices else Abandoned];
      }
      assert started.value[..|started.value|] == started.value;
      aquariums := launched;
      group := group + 1;
      group := group + 1;
      progress := Fetched;
    }

    /** The callback of `fetchDevices`. */
    method DidFetchDevices(i: nat, found: Option<nat>)
      requires Kept(Abs()) && i < |aquariums| && aquariums[i] == FetchingDevices
      modifies this
      ensures Abs() == Step(old(Abs()), DevicesFetched(i, found)) && Kept(Abs())
    {
      StepKeeps(Abs(), DevicesFetched(i, found));
      if found.None? {
        aquariums := aquariums[i := Abandoned];
        return;
      }
      var devices, entered := [], 0;
      for j := 0 to found.value
        invariant entered == j && devices == FreshDevices(j)
      {
        entered := entered + 1;
        devices := devices + [FreshDevice];
      }
      aquariums := aquariums[i := Deleting(devices, entered, false)];
    }

    /** A removal of a device chain answers. */
    method DidRemove(i: nat, j: nat, ok: bool)
      requires Kept(Abs()) && Enabled(Abs(), DeviceAnswer(i, j, ok))
      modifies this
      ensures Abs() == Step(old(Abs()), DeviceAnswer(i, j, ok)) && Kept(Abs())
    {
      StepKeeps(Abs(), DeviceAnswer(i, j, ok));
      AquariumKept(Abs(), i);
      DeviceKeeps(aquariums[i], j, ok);
      hide Kept, GroupKept;
      var a := aquariums[i];
      var d := a.devices[j];
      var next, inner := d, a.group;
      if d.phase == RemovingDevice {
        next := d.(phase := if ok then RemovingFromAquarium else RemovingAquariumFromUser, removed := ok);
      } else if d.phase == RemovingFromAquarium {
        next := d.(phase := RemovingAquariumFromUser, unlinked := ok);
      } else {
        next := d.(phase := CalledBack, detached := ok);
        inner := Leave(inner);
      }
      aquariums := aquariums[i := Deleting(a.devices[j := next], inner, a.finished)];
    }

    /** An inner group notifies: the completion of one aquarium's transaction. */
    method DidFinishAquarium(i: nat)
      requires Kept(Abs()) && Enabled(Abs(), AquariumNotified(i))
      modifies this
      ensures Abs() == Step(old(Abs()), AquariumNotified(i)) && Kept(Abs())
    {
      AquariumDoneKeeps(Abs(), i);
      hide Kept;
      aquariums := aquariums[i := aquariums[i].(finished := true)];
      index := index + 1;
      if index == |aquariums| { group := Leave(group); }
    }

    method DidDeleteUserFromUsers(ok: bool)
      requires Kept(Abs()) && progress == Fetched && user == Waiting
      modifies this
      ensures Abs() == Step(old(Abs()), UserAnswer(ok)) && Kept(Abs())
    {
      RemovalKeeps(Abs(), UserAnswer(ok));
      hide Kept;
      user := if ok then Succeeded else Failed;
      if ok { group := Leave(group); } else { CompletionHandler(DeleteUserError); }
    }

    method DidDeleteUserFromAuthentication(ok: bool)
      requires Kept(Abs()) && progress == Fetched && auth == Waiting
      modifies this
      ensures Abs() == Step(old(Abs()), AuthAnswer(ok)) && Kept(Abs())
    {
      RemovalKeeps(Abs(), AuthAnswer(ok));
      hide Kept;
      auth := if ok then Succeeded else Failed;
      if ok { group := Leave(group); } else { CompletionHandler(DeleteUserError); }
    }

    /** The outer group notifies. Success is reported when everything it stands for is done. */
    method GroupNotifies()
      requires Kept(Abs()) && progress == Fetched && group == 0 && !notified
      modifies this
      ensures Abs() == Step(old(Abs()), Notified) && Kept(Abs())
      ensures AllDone(Abs()) && old(Success !in reports)
    {
      StepKeeps(Abs(), Notified);
      GroupEmpty(Abs());
      notified := true;
      CompletionHandler(Success);
    }

    method DidTimerFire()
      requires Kept(Abs()) && timer
      modifies this
      ensures Abs() == Step(old(Abs()), TimerFires) && Kept(Abs())
    {
      StepKeeps(Abs(), TimerFires);
      timer := false;
      CompletionHandler(TimedOut);
    }
  }
}
