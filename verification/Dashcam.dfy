/** The dashcam monitor: cameras and manager, updated in place at every poll. */
module Dashcam {
  import opened DashcamSpec
  import opened Wrappers

  class Camera {
    const storage: bool
    var mountState: Mount
    var wantMount: bool
    var timeout: real
    var mountProcess: bool
    var unmountProcess: bool
    ghost var checked: real

    constructor (storage: bool)
      ensures this.storage == storage
      ensures mountState == NotMounted && !wantMount && !mountProcess && !unmountProcess
    {
      this.storage := storage;
      mountState, wantMount, timeout, mountProcess, unmountProcess := NotMounted, false, 0.0, false, false;
    }

    ghost function Abs(): Cam
      reads this
    {
      Cam(storage, mountState, wantMount, timeout, mountProcess, unmountProcess, checked)
    }

    method Check(e: CamInput)
      modifies this
      ensures Abs() == Checked(old(Abs()), e)
    {
      checked := e.now;
      if mountState == NotMounted {
        if wantMount {
          timeout := e.now + 40.0;
          mountState := Mounting;
        }
      } else if mountState == Mounted {
        if !wantMount {
          timeout := e.now + 15.0;
          mountState := Unmounting;
        }
      }
      if mountState == Mounting {
        CheckMount(e);
      } else if mountState == Unmounting {
        CheckUnmount(e);
      }
    }

    method CheckMount(e: CamInput)
      modifies this
      ensures Abs() == ContinueMount(old(Abs()), e)
    {
      if e.now > timeout {
        wantMount := false;
        mountState := NotMounted;
        return;
      }
      if !mountProcess {
        if e.ready {
          timeout := e.now + 15.0;
          mountProcess := true;
        } else if !wantMount {
          mountState := NotMounted;
        }
      } else if e.mountExit.Some? {
        mountProcess := false;
        if e.mountExit.value == 0 {
          mountState := Mounted;
        } else {
          wantMount := false;
          mountState := NotMounted;
        }
      }
    }

    method CheckUnmount(e: CamInput)
      modifies this
      ensures Abs() == ContinueUnmount(old(Abs()), e)
    {
      if e.now > timeout {
        unmountProcess := false;
        mountState := NotMounted;
        return;
      }
      if unmountProcess {
        if e.unmountExit.None? {
          return;
        }
        if e.unmountExit.value == 0 {
          unmountProcess := false;
          mountState := NotMounted;
          return;
        }
      }
      unmountProcess := true;
    }
  }

  class Manager {
    const cameras: seq<Camera>
    var state: State
    var process: bool
    var timeoutTime: Option<real>
    var hub: bool

    ghost predicate Valid() {
      forall i, j :: 0 <= i < j < |cameras| ==> cameras[i] != cameras[j]
    }

    ghost function Cams(): (r: seq<Cam>)
      reads cameras
      ensures |r| == |cameras|
    {
      seq(|cameras|, i reads cameras requires 0 <= i < |cameras| => cameras[i].Abs())
    }

    ghost function Abs(): Mgr
      reads this, cameras
    {
      Mgr(state, process, timeoutTime, hub, Cams())
    }

    constructor (cameras: seq<Camera>, now: real)
      requires forall i, j :: 0 <= i < j < |cameras| ==> cameras[i] != cameras[j]
      requires forall i :: 0 <= i < |cameras| ==>
        cameras[i].mountState == NotMounted && !cameras[i].wantMount && !cameras[i].mountProcess && !cameras[i].unmountProcess
      ensures Valid() && this.cameras == cameras
      ensures Start(Abs()) && Inv(Abs())
    {
      this.cameras := cameras;
      state, process, timeoutTime, hub := IdleFlash, false, Some(now + 1.9), true;
    }

    /** Sets what every camera wants. */
    method WantAll(wanted: seq<bool>)
      requires Valid() && |wanted| == |cameras|
      modifies cameras
      ensures Cams() == Wanting(old(Cams()), wanted)
    {
      var i := 0;
      while i < |cameras|
        invariant 0 <= i <= |cameras|
        invariant forall k :: 0 <= k < i ==> cameras[k].Abs() == old(cameras[k].Abs()).(want := wanted[k])
        invariant forall k :: i <= k < |cameras| ==> cameras[k].Abs() == old(cameras[k].Abs())
      {
        cameras[i].wantMount := wanted[i];
        i := i + 1;
      }
    }

    /** Checks the cameras one after the other. */
    method CheckCameras(inputs: seq<CamInput>)
      requires Valid() && |inputs| == |cameras|
      modifies cameras
      ensures Cams() == AllChecked(old(Cams()), inputs)
    {
      var i := 0;
      while i < |cameras|
        invariant 0 <= i <= |cameras|
        invariant forall k :: 0 <= k < i ==> cameras[k].Abs() == Checked(old(cameras[k].Abs()), inputs[k])
        invariant forall k :: i <= k < |cameras| ==> cameras[k].Abs() == old(cameras[k].Abs())
      {
        cameras[i].Check(inputs[i]);
        i := i + 1;
      }
    }

    method AllUnmounted() returns (yes: bool)
      ensures yes == AllOff(Cams())
    {
      var i := 0;
      while i < |cameras|
        invariant 0 <= i <= |cameras|
        invariant forall k :: 0 <= k < i ==> Cams()[k].mount == NotMounted
      {
        if cameras[i].mountState != NotMounted {
          assert Cams()[i].mount != NotMounted;
          return false;
        }
        i := i + 1;
      }
      return true;
    }

    /** Nothing is wanted otherwise than before. */
    lemma WantingSame(wanted: seq<bool>)
      requires |wanted| == |cameras| && forall i :: 0 <= i < |cameras| ==> wanted[i] == cameras[i].wantMount
      ensures Wanting(Cams(), wanted) == Cams()
    {
    }

    method SetState(s: State, now: real)
      requires Valid()
      modifies this`state, this`process, this`timeoutTime, this`hub, cameras
      ensures Abs() == Enter(old(Abs()), s, now)
    {
      state := s;
      process := s.RunCopy?;
      hub := HubPower(s);
      var timeout := Timeout(s);
      timeoutTime := if timeout.Some? then Some(now + timeout.value) else None;
      if s.ManualMountExt? {
        WantAll(seq(|cameras|, i requires 0 <= i < |cameras| reads cameras => cameras[i].storage));
      } else if s.WaitUnmount? || s.WaitUnmountExt? {
        WantAll(seq(|cameras|, _ => false));
      } else {
        WantingSame(WantedOnEntry(s, Cams()));
      }
      assert Cams() == Wanting(old(Cams()), WantedOnEntry(s, old(Cams())));
    }

    method IdleTransition(e: Input) returns (next: Option<State>)
      requires Valid() && |e.cams| == |cameras| && (state.Idle? || state.IdleFlash?)
      modifies cameras
      ensures next == NextState(state, old(Cams()), e)
      ensures Cams() == Wanting(old(Cams()), WantedByState(state, next, old(Cams()), e))
    {
      next := None;
      if e.resetHub {
        next := Some(ResetHub);
      } else if e.wantMount {
        next := Some(ManualMountExt);
      } else if e.wantRecord {
        next := Some(Record);
      } else if e.needCheck {
        next := Some(WifiWait);
      } else if e.wantLcopy {
        next := Some(WaitMount(0, true));
        WantAll(seq(|cameras|, _ => true));
        return;
      }
      WantingSame(WantedByState(state, next, Cams(), e));
    }

    method WifiTransition(e: Input) returns (next: Option<State>)
      requires Valid() && |e.cams| == |cameras| && state.WifiWait?
      modifies cameras
      ensures next == NextState(state, old(Cams()), e)
      ensures Cams() == Wanting(old(Cams()), WantedByState(state, next, old(Cams()), e))
    {
      if e.abortAll || e.wantMount || e.wantRecord {
        next := Some(IdleFlash);
      } else if e.wifiUp {
        next := Some(WaitMount(0, false));
        WantAll(seq(|cameras|, i requires 0 <= i < |cameras| reads cameras => !cameras[i].storage || cameras[i].wantMount));
        return;
      } else {
        next := None;
      }
      WantingSame(WantedByState(state, next, Cams(), e));
    }

    method MountTransition(e: Input) returns (next: Option<State>)
      requires state.WaitMount?
      ensures next == NextState(state, Cams(), e)
    {
      if e.wantRecord || e.abortAll {
        return Some(WaitUnmount);
      }
      if state.camera >= |cameras| {
        return Some(WaitUnmount);
      }
      var cam := cameras[state.camera];
      if cam.storage || e.nocopy {
        return Some(WaitMount(state.camera + 1, state.local));
      }
      if cam.mountState == Mounted {
        return Some(RunCopy(state.camera, state.local));
      } else if cam.mountState == NotMounted {
        return Some(WaitUnmount);
      }
      return None;
    }

    method ManualTransition(e: Input) returns (next: Option<State>)
      requires Valid() && |e.cams| == |cameras| && state.ManualMountCam?
      modifies cameras
      ensures next == NextState(state, old(Cams()), e)
      ensures Cams() == Wanting(old(Cams()), WantedByState(state, next, old(Cams()), e))
    {
      if !e.wantMount || e.abortAll {
        next := Some(WaitUnmount);
        WantingSame(WantedByState(state, next, Cams(), e));
      } else {
        next := None;
        WantAll(seq(|cameras|, i requires 0 <= i < |cameras| reads cameras =>
          if cameras[i].storage then e.cams[i].wantExt else e.cams[i].wantCam));
      }
    }

    /** The states that leave the cameras alone. */
    method QuietTransition(e: Input) returns (next: Option<State>)
      requires |e.cams| == |cameras|
      requires !state.Idle? && !state.IdleFlash? && !state.WifiWait? && !state.ManualMountCam?
      ensures next == NextState(state, Cams(), e)
      ensures Cams() == Wanting(Cams(), WantedByState(state, next, Cams(), e))
    {
      next := None;
      match state {
        case Record =>
          if e.abortAll || e.wantMount || !e.wantRecord { next := Some(PoweroffWaitInhibit); }
        case WaitMount(_, _) =>
          next := MountTransition(e);
        case RunCopy(i, local) =>
          if e.wantRecord || e.abortAll { next := Some(WaitUnmount); }
          else if e.copyRestart { next := Some(RunCopy(i, local)); }
        case ManualMountExt =>
          if !e.wantMount || e.abortAll { next := Some(WaitUnmountExt); }
          else if e.wantMountCam { next := Some(ManualMountCam); }
        case WaitUnmount =>
          var off := AllUnmounted();
          if off { next := Some(PoweroffWait); }
        case WaitUnmountExt =>
          var off := AllUnmounted();
          if off { next := Some(IdleFlash); }
        case _ =>
      }
      WantingSame(WantedByState(state, next, Cams(), e));
    }

    method CheckTransition(e: Input) returns (next: Option<State>)
      requires Valid() && |e.cams| == |cameras|
      modifies cameras
      ensures next == NextState(state, old(Cams()), e)
      ensures Cams() == Wanting(old(Cams()), WantedByState(state, next, old(Cams()), e))
    {
      match state {
        case Idle => next := IdleTransition(e);
        case IdleFlash => next := IdleTransition(e);
        case WifiWait => next := WifiTransition(e);
        case ManualMountCam => next := ManualTransition(e);
        case _ => next := QuietTransition(e);
      }
    }

    /** The part of a poll after a finished copy process was dealt with. */
    method CheckCamerasAndState(e: Input)
      requires Valid() && |e.cams| == |cameras|
      modifies this`state, this`process, this`timeoutTime, this`hub, cameras
      ensures Abs() == PollCameras(old(Abs()), e)
    {
      CheckCameras(e.cams);
      var next := CheckTransition(e);
      if next.Some? {
        SetState(next.value, e.entered);
        return;
      }
      if timeoutTime.Some? && e.now > timeoutTime.value {
        var after := AfterTimeout(state);
        if after.Some? {
          SetState(after.value, e.entered);
        }
      }
    }

    /** One poll keeps the invariant: the new state is the specified one, so with
        the hub off no camera is in use, and a camera being copied is mounted. */
    method CheckState(e: Input)
      requires Valid() && |e.cams| == |cameras|
      modifies this`state, this`process, this`timeoutTime, this`hub, cameras
      ensures Abs() == Poll(old(Abs()), e)
      ensures old(Inv(Abs()) && Fresh(Abs(), e)) ==> Inv(Abs()) && Safe(Abs())
    {
      ghost var before := Abs();
      if process && e.copyExit.Some? {
        process := false;
        var next := AfterProcess(state, e.copyExit.value);
        if next.Some? {
          SetState(next.value, e.entered);
        } else {
          CheckCamerasAndState(e);
        }
      } else {
        CheckCamerasAndState(e);
      }
      if Inv(before) && Fresh(before, e) {
        PollKeeps(before, e);
        InvIsSafe(Abs());
      }
    }
  }
}
