/** Dashcam power and mounting: what one poll of the state machine does, and
    what holds over every run of polls. */
module DashcamSpec {
  import opened Wrappers

  // ---- one camera ---------------------------------------------------------------

  datatype Mount = NotMounted | Mounting | Mounted | Unmounting

  /** A camera; `mounting` and `unmounting` say whether a script was started and
      not yet forgotten, `checked` is the time of the last check. */
  datatype Cam = Cam(storage: bool, mount: Mount, want: bool, timeout: real,
                     mounting: bool, unmounting: bool, checked: real)

  /** What a camera check sees: the clock, whether the disk is there, the exit
      codes of the two scripts, and the flags read for this camera. */
  datatype CamInput = CamInput(now: real, ready: bool, mountExit: Option<int>, unmountExit: Option<int>,
                               wantCam: bool, wantExt: bool)

  /** The part of a check that reacts to what is wanted. */
  function Begin(c: Cam, now: real): Cam {
    if c.mount == NotMounted && c.want then c.(mount := Mounting, timeout := now + 40.0)
    else if c.mount == Mounted && !c.want then c.(mount := Unmounting, timeout := now + 15.0)
    else c
  }

  function ContinueMount(c: Cam, e: CamInput): Cam {
    if e.now > c.timeout then c.(want := false, mount := NotMounted)
    else if !c.mounting then
      if e.ready then c.(timeout := e.now + 15.0, mounting := true)
      else if !c.want then c.(mount := NotMounted)
      else c
    else match e.mountExit
      case None => c
      case Some(rc) =>
        if rc == 0 then c.(mounting := false, mount := Mounted)
        else c.(mounting := false, want := false, mount := NotMounted)
  }

  function ContinueUnmount(c: Cam, e: CamInput): Cam {
    if e.now > c.timeout then c.(unmounting := false, mount := NotMounted)
    else if c.unmounting && e.unmountExit == None then c
    else if c.unmounting && e.unmountExit == Some(0) then c.(unmounting := false, mount := NotMounted)
    else c.(unmounting := true)
  }

  /** One check of a camera. */
  function Checked(c: Cam, e: CamInput): Cam {
    var b := Begin(c, e.now).(checked := e.now);
    match b.mount
    case Mounting => ContinueMount(b, e)
    case Unmounting => ContinueUnmount(b, e)
    case _ => b
  }

  // ---- the top-level machine --------------------------------------------------------

  datatype State =
    | Idle
    | IdleFlash
    | ResetHub
    | Record
    | PoweroffWait
    | PoweroffWaitInhibit
    | WifiWait
    | WaitMount(camera: nat, local: bool)
    | RunCopy(camera: nat, local: bool)
    | ManualMountExt
    | ManualMountCam
    | WaitUnmount
    | WaitUnmountExt

  predicate HubPower(s: State) {
    !(s.ResetHub? || s.Record? || s.PoweroffWait?)
  }

  function Timeout(s: State): Option<real> {
    match s
    case IdleFlash => Some(1.9)
    case ResetHub => Some(3.0)
    case PoweroffWait => Some(4.0)
    case PoweroffWaitInhibit => Some(9.0)
    case WifiWait => Some(60.0)
    case _ => None
  }

  /** The state entered when the time is up. */
  function AfterTimeout(s: State): Option<State> {
    match s
    case IdleFlash | ResetHub => Some(Idle)
    case PoweroffWait | PoweroffWaitInhibit | WifiWait => Some(IdleFlash)
    case _ => None
  }

  /** The state after the copy process ended. */
  function AfterProcess(s: State, rc: int): Option<State> {
    match s
    case RunCopy(i, local) => Some(if rc == 0 then WaitMount(i + 1, local) else WaitUnmount)
    case _ => None
  }

  /** What one poll sees: the flags as they are read, exits, clocks. */
  datatype Input = Input(
    cams: seq<CamInput>,
    now: real,               // clock compared with the deadline of the state
    entered: real,           // clock when a new state is entered
    copyExit: Option<int>,
    abortAll: bool, resetHub: bool, wantMount: bool, wantMountCam: bool, wantRecord: bool,
    needCheck: bool, wantLcopy: bool, copyRestart: bool, nocopy: bool, wifiUp: bool)

  datatype Mgr = Mgr(state: State, running: bool, deadline: Option<real>, hub: bool, cams: seq<Cam>)

  /** The cameras with everything wanted that `wanted` says. */
  function Wanting(cams: seq<Cam>, wanted: seq<bool>): (r: seq<Cam>)
    requires |cams| == |wanted|
    ensures |r| == |cams|
  {
    seq(|cams|, i requires 0 <= i < |cams| => cams[i].(want := wanted[i]))
  }

  function AllChecked(cams: seq<Cam>, inputs: seq<CamInput>): (r: seq<Cam>)
    requires |cams| == |inputs|
    ensures |r| == |cams|
  {
    seq(|cams|, i requires 0 <= i < |cams| => Checked(cams[i], inputs[i]))
  }

  /** What the cameras want after a state is entered. */
  function WantedOnEntry(s: State, cams: seq<Cam>): (r: seq<bool>)
    ensures |r| == |cams|
  {
    seq(|cams|, i requires 0 <= i < |cams| =>
      match s
      case ManualMountExt => cams[i].storage
      case WaitUnmount | WaitUnmountExt => false
      case _ => cams[i].want)
  }

  function Enter(m: Mgr, s: State, now: real): Mgr {
    Mgr(s, s.RunCopy?, if Timeout(s).Some? then Some(now + Timeout(s).value) else None, HubPower(s),
        Wanting(m.cams, WantedOnEntry(s, m.cams)))
  }

  predicate AllOff(cams: seq<Cam>) {
    forall i :: 0 <= i < |cams| ==> cams[i].mount == NotMounted
  }

  /** The state to go to next, if any, once the cameras were checked. */
  function NextState(s: State, cams: seq<Cam>, e: Input): Option<State> {
    match s
    case Idle | IdleFlash =>
      if e.resetHub then Some(ResetHub)
      else if e.wantMount then Some(ManualMountExt)
      else if e.wantRecord then Some(Record)
      else if e.needCheck then Some(WifiWait)
      else if e.wantLcopy then Some(WaitMount(0, true))
      else None
    case Record =>
      if e.abortAll || e.wantMount || !e.wantRecord then Some(PoweroffWaitInhibit) else None
    case WifiWait =>
      if e.abortAll || e.wantMount || e.wantRecord then Some(IdleFlash)
      else if e.wifiUp then Some(WaitMount(0, false))
      else None
    case WaitMount(i, local) =>
      if e.wantRecord || e.abortAll || i >= |cams| then Some(WaitUnmount)
      else if cams[i].storage || e.nocopy then Some(WaitMount(i + 1, local))
      else if cams[i].mount == Mounted then Some(RunCopy(i, local))
      else if cams[i].mount == NotMounted then Some(WaitUnmount)
      else None
    case RunCopy(i, local) =>
      if e.wantRecord || e.abortAll then Some(WaitUnmount)
      else if e.copyRestart then Some(RunCopy(i, local))
      else None
    case ManualMountExt =>
      if !e.wantMount || e.abortAll then Some(WaitUnmountExt)
      else if e.wantMountCam then Some(ManualMountCam)
      else None
    case ManualMountCam =>
      if !e.wantMount || e.abortAll then Some(WaitUnmount) else None
    case WaitUnmount =>
      if AllOff(cams) then Some(PoweroffWait) else None
    case WaitUnmountExt =>
      if AllOff(cams) then Some(IdleFlash) else None
    case ResetHub | PoweroffWait | PoweroffWaitInhibit => None
  }

  /** What the state, on the way to `next`, wants of the cameras. */
  function WantedByState(s: State, next: Option<State>, cams: seq<Cam>, e: Input): (r: seq<bool>)
    requires |e.cams| == |cams|
    ensures |r| == |cams|
  {
    seq(|cams|, i requires 0 <= i < |cams| =>
      if (s.Idle? || s.IdleFlash?) && next == Some(WaitMount(0, true)) then true
      else if s.WifiWait? && next == Some(WaitMount(0, false)) && !cams[i].storage then true
      else if s.ManualMountCam? && next == None then (if cams[i].storage then e.cams[i].wantExt else e.cams[i].wantCam)
      else cams[i].want)
  }

  /** A poll after the copy process was dealt with. */
  function PollCameras(m: Mgr, e: Input): Mgr
    requires |e.cams| == |m.cams|
  {
    var cams := AllChecked(m.cams, e.cams);
    var next := NextState(m.state, cams, e);
    var m' := m.(cams := Wanting(cams, WantedByState(m.state, next, cams, e)));
    if next.Some? then Enter(m', next.value, e.entered)
    else if m'.deadline.Some? && e.now > m'.deadline.value && AfterTimeout(m.state).Some?
    then Enter(m', AfterTimeout(m.state).value, e.entered)
    else m'
  }

  /** One poll of the machine. */
  function Poll(m: Mgr, e: Input): Mgr
    requires |e.cams| == |m.cams|
  {
    if m.running && e.copyExit.Some? then
      var m' := m.(running := false);
      var next := AfterProcess(m.state, e.copyExit.value);
      if next.Some? then Enter(m', next.value, e.entered) else PollCameras(m', e)
    else PollCameras(m, e)
  }

  // ---- safety ---------------------------------------------------------------------

  /** Bookkeeping of one camera: a deadline is never far away. */
  predicate CamOk(c: Cam) {
    && (c.mount == Mounting ==> c.timeout <= c.checked + 40.0)
    && (c.mount == Unmounting ==> c.timeout <= c.checked + 15.0)
    && (c.unmounting ==> c.mount == Unmounting)
  }

  predicate Off(c: Cam) {
    c.mount == NotMounted && !c.want
  }

  /** What a state promises of a camera. */
  predicate Fits(s: State, c: Cam) {
    match s
    case Idle | IdleFlash | ResetHub | Record | PoweroffWait | PoweroffWaitInhibit | WifiWait => Off(c)
    case WaitMount(_, _) | RunCopy(_, _) => c.mount != Unmounting && (c.mount != NotMounted ==> c.want)
    case WaitUnmount | WaitUnmountExt => !c.want
    case ManualMountExt | ManualMountCam => true
  }

  predicate CamsFit(s: State, cams: seq<Cam>) {
    forall i :: 0 <= i < |cams| ==> CamOk(cams[i]) && Fits(s, cams[i])
  }

  predicate CopyMounted(s: State, cams: seq<Cam>) {
    s.RunCopy? ==> s.camera < |cams| && cams[s.camera].mount == Mounted && !cams[s.camera].storage
  }

  predicate Inv(m: Mgr) {
    && m.hub == HubPower(m.state)
    && m.running == m.state.RunCopy?
    && CamsFit(m.state, m.cams)
    && CopyMounted(m.state, m.cams)
  }

  /** The inputs of a poll: one per camera, with clocks that do not go back. */
  predicate Fresh(m: Mgr, e: Input) {
    |e.cams| == |m.cams| && forall i :: 0 <= i < |m.cams| ==> e.cams[i].now >= m.cams[i].checked
  }

  lemma CheckKeepsOk(c: Cam, e: CamInput)
    requires CamOk(c) && e.now >= c.checked
    ensures CamOk(Checked(c, e))
  {
  }

  /** A check keeps what every state but the manual ones promises. */
  lemma CheckKeepsFit(s: State, c: Cam, e: CamInput)
    requires CamOk(c) && Fits(s, c) && e.now >= c.checked
    ensures Fits(s, Checked(c, e))
  {
  }

  lemma CheckKeepsMounted(c: Cam, e: CamInput)
    requires c.mount == Mounted && c.want
    ensures Checked(c, e).mount == Mounted && Checked(c, e).storage == c.storage
  {
  }

  lemma ChecksFit(m: Mgr, e: Input)
    requires Inv(m) && Fresh(m, e)
    ensures CamsFit(m.state, AllChecked(m.cams, e.cams)) && CopyMounted(m.state, AllChecked(m.cams, e.cams))
  {
    var cams := AllChecked(m.cams, e.cams);
    forall i | 0 <= i < |cams| ensures CamOk(cams[i]) && Fits(m.state, cams[i]) {
      CheckKeepsOk(m.cams[i], e.cams[i]);
      CheckKeepsFit(m.state, m.cams[i], e.cams[i]);
    }
    if m.state.RunCopy? {
      CheckKeepsMounted(m.cams[m.state.camera], e.cams[m.state.camera]);
    }
  }

  /** Entering a state whose promises the cameras meet already. */
  lemma EnterKeeps(m: Mgr, s: State, now: real)
    requires CopyMounted(s, m.cams)
    requires forall i :: 0 <= i < |m.cams| ==>
      CamOk(m.cams[i]) && (Fits(s, m.cams[i]) || s.WaitUnmount? || s.WaitUnmountExt? || s.ManualMountExt?)
    ensures Inv(Enter(m, s, now))
  {
    var cams := Wanting(m.cams, WantedOnEntry(s, m.cams));
    forall i | 0 <= i < |cams| ensures CamOk(cams[i]) && Fits(s, cams[i]) {
      assert CamOk(m.cams[i]);
    }
  }

  lemma ProcessKeeps(m: Mgr, e: Input)
    requires Inv(m) && Fresh(m, e) && m.running && e.copyExit.Some?
    ensures Inv(Poll(m, e))
  {
    var next := AfterProcess(m.state, e.copyExit.value);
    EnterKeeps(m.(running := false), next.value, e.entered);
  }

  /** The cameras as they stand when the next state is entered. */
  lemma NextFits(s: State, cams: seq<Cam>, e: Input, i: nat)
    requires |e.cams| == |cams| && i < |cams| && CamsFit(s, cams)
    requires var next := NextState(s, cams, e); next.Some?
    ensures var next := NextState(s, cams, e);
            var c := Wanting(cams, WantedByState(s, next, cams, e))[i];
            CamOk(c) && (Fits(next.value, c) || next.value.WaitUnmount? || next.value.WaitUnmountExt? || next.value.ManualMountExt?)
  {
    assert CamOk(cams[i]) && Fits(s, cams[i]);
  }

  lemma StayFits(s: State, cams: seq<Cam>, e: Input, i: nat)
    requires |e.cams| == |cams| && i < |cams| && CamsFit(s, cams)
    requires NextState(s, cams, e) == None
    ensures var c := Wanting(cams, WantedByState(s, None, cams, e))[i];
            CamOk(c) && Fits(s, c) && (!s.ManualMountCam? ==> c == cams[i])
  {
    assert CamOk(cams[i]) && Fits(s, cams[i]);
  }

  lemma NextCopyMounted(s: State, cams: seq<Cam>, e: Input)
    requires |e.cams| == |cams| && CopyMounted(s, cams)
    requires var next := NextState(s, cams, e); next.Some?
    ensures var next := NextState(s, cams, e);
            CopyMounted(next.value, Wanting(cams, WantedByState(s, next, cams, e)))
  {
  }

  lemma CamerasKeep(m: Mgr, e: Input)
    requires Inv(m) && Fresh(m, e)
    ensures Inv(PollCameras(m, e))
  {
    ChecksFit(m, e);
    var cams := AllChecked(m.cams, e.cams);
    var next := NextState(m.state, cams, e);
    var m' := m.(cams := Wanting(cams, WantedByState(m.state, next, cams, e)));
    if next.Some? {
      NextCopyMounted(m.state, cams, e);
      forall i | 0 <= i < |cams|
        ensures CamOk(m'.cams[i]) && (Fits(next.value, m'.cams[i]) || next.value.WaitUnmount? || next.value.WaitUnmountExt? || next.value.ManualMountExt?)
      {
        NextFits(m.state, cams, e, i);
      }
      EnterKeeps(m', next.value, e.entered);
    } else {
      forall i | 0 <= i < |cams|
        ensures CamOk(m'.cams[i]) && Fits(m.state, m'.cams[i]) && (!m.state.ManualMountCam? ==> m'.cams[i] == cams[i])
      {
        StayFits(m.state, cams, e, i);
      }
      if AfterTimeout(m.state).Some? {
        EnterKeeps(m', AfterTimeout(m.state).value, e.entered);
      }
    }
  }

  /** Every poll keeps the invariant. */
  lemma PollKeeps(m: Mgr, e: Input)
    requires Inv(m) && Fresh(m, e)
    ensures Inv(Poll(m, e))
  {
    if m.running && e.copyExit.Some? {
      ProcessKeeps(m, e);
    } else {
      CamerasKeep(m, e);
    }
  }

  // ---- runs -----------------------------------------------------------------------

  /** Power-on: every camera unmounted and unwanted. */
  predicate Start(m: Mgr) {
    && m.state == IdleFlash && m.hub && !m.running
    && forall i :: 0 <= i < |m.cams| ==>
         m.cams[i].mount == NotMounted && !m.cams[i].want && !m.cams[i].mounting && !m.cams[i].unmounting
  }

  predicate Feasible(m: Mgr, es: seq<Input>)
    decreases |es|
  {
    es == [] || (Fresh(m, es[0]) && Feasible(Poll(m, es[0]), es[1..]))
  }

  /** The machine after a run of polls. */
  function After(m: Mgr, es: seq<Input>): Mgr
    requires Feasible(m, es)
    decreases |es|
  {
    if es == [] then m else After(Poll(m, es[0]), es[1..])
  }

  /** No camera is in use while the hub is without power, and what is being copied is mounted. */
  predicate Safe(m: Mgr) {
    && (!m.hub ==> forall i :: 0 <= i < |m.cams| ==> m.cams[i].mount == NotMounted && !m.cams[i].want)
    && (m.state.RunCopy? ==> m.state.camera < |m.cams| && m.cams[m.state.camera].mount == Mounted)
  }

  lemma {:induction false} RunKeeps(m: Mgr, es: seq<Input>)
    requires Inv(m) && Feasible(m, es)
    ensures Inv(After(m, es))
    decreases |es|
  {
    if es != [] {
      PollKeeps(m, es[0]);
      RunKeeps(Poll(m, es[0]), es[1..]);
    }
  }

  lemma InvIsSafe(m: Mgr)
    requires Inv(m)
    ensures Safe(m)
  {
    if !m.hub {
      forall i | 0 <= i < |m.cams| ensures Off(m.cams[i]) {
        assert Fits(m.state, m.cams[i]);
      }
    }
  }

  /** Every run from power-on is safe. */
  lemma RunIsSafe(m: Mgr, es: seq<Input>)
    requires Start(m) && Feasible(m, es)
    ensures Safe(After(m, es))
  {
    RunKeeps(m, es);
    InvIsSafe(After(m, es));
  }

  // ---- unwanted cameras come off ---------------------------------------------------------

  function Later(a: real, b: real): real {
    if a >= b then a else b
  }

  /** The latest check that can find an unwanted camera not yet unmounted, if
      checks are at most `gap` apart. */
  function OffBy(c: Cam, gap: real): real {
    match c.mount
    case NotMounted => c.checked
    case Unmounting => Later(c.timeout, c.checked) + gap
    case Mounted => c.checked + 15.0 + 2.0 * gap
    case Mounting =>
      if c.mounting then Later(c.timeout, c.checked) + 15.0 + 2.0 * gap
      else c.checked + 30.0 + 3.0 * gap
  }

  /** A check brings an unwanted camera no further from being off. */
  lemma SettleStep(c: Cam, e: CamInput, gap: real)
    requires !c.want && c.checked <= e.now <= c.checked + gap
    ensures var d := Checked(c, e);
            && !d.want && d.checked == e.now
            && (d.mount != NotMounted ==> d.checked <= OffBy(d, gap) <= OffBy(c, gap) && c.mount != NotMounted)
  {
  }

  lemma OffByBound(c: Cam, gap: real)
    requires CamOk(c) && gap >= 0.0
    ensures c.checked <= OffBy(c, gap) <= c.checked + 55.0 + 3.0 * gap
  {
  }

  /** Checks of one camera that are at most `gap` apart. */
  predicate Steady(c: Cam, es: seq<CamInput>, gap: real)
    decreases |es|
  {
    es == [] || (c.checked <= es[0].now <= c.checked + gap && Steady(Checked(c, es[0]), es[1..], gap))
  }

  function CheckedBy(c: Cam, es: seq<CamInput>): Cam
    decreases |es|
  {
    if es == [] then c else CheckedBy(Checked(c, es[0]), es[1..])
  }

  /** An unwanted camera is found unmounted by every check later than 55 s and three gaps. */
  lemma {:induction false} UnwantedSettles(c: Cam, es: seq<CamInput>, gap: real)
    requires CamOk(c) && !c.want && gap >= 0.0 && Steady(c, es, gap) && es != []
    requires es[|es| - 1].now > c.checked + 55.0 + 3.0 * gap
    ensures Off(CheckedBy(c, es))
  {
    OffByBound(c, gap);
    SettlesBy(c, es, gap);
  }

  lemma {:induction false} SettlesBy(c: Cam, es: seq<CamInput>, gap: real)
    requires !c.want && gap >= 0.0 && Steady(c, es, gap) && es != []
    requires c.mount != NotMounted ==> es[|es| - 1].now > OffBy(c, gap)
    ensures Off(CheckedBy(c, es))
    decreases |es|
  {
    SettleStep(c, es[0], gap);
    var d := Checked(c, es[0]);
    if |es| == 1 {
      assert CheckedBy(d, es[1..]) == d;
    } else {
      SettlesBy(d, es[1..], gap);
    }
  }

  /** Polls whose camera checks are at most `gap` apart. */
  predicate SteadyPolls(m: Mgr, es: seq<Input>, gap: real)
    requires Feasible(m, es)
    decreases |es|
  {
    es == [] ||
    ((forall i :: 0 <= i < |m.cams| ==> es[0].cams[i].now <= m.cams[i].checked + gap) &&
     SteadyPolls(Poll(m, es[0]), es[1..], gap))
  }

  /** A poll while waiting for the cameras to come off. */
  lemma WaitStep(m: Mgr, e: Input)
    requires Inv(m) && Fresh(m, e) && (m.state.WaitUnmount? || m.state.WaitUnmountExt?)
    ensures var cams := AllChecked(m.cams, e.cams);
            if AllOff(cams) then Poll(m, e).state == AfterUnmount(m.state)
            else Poll(m, e).state == m.state && Poll(m, e).cams == cams
  {
    var cams := AllChecked(m.cams, e.cams);
    assert Wanting(cams, WantedByState(m.state, None, cams, e)) == cams;
  }

  function AfterUnmount(s: State): State {
    if s.WaitUnmountExt? then IdleFlash else PoweroffWait
  }

  /** All cameras are due to be off at the last of the polls. */
  predicate Due(cams: seq<Cam>, last: Input, gap: real) {
    |last.cams| == |cams| &&
    forall i :: 0 <= i < |cams| ==> cams[i].mount != NotMounted ==> last.cams[i].now > OffBy(cams[i], gap)
  }

  lemma DueStep(m: Mgr, e: Input, last: Input, gap: real)
    requires Inv(m) && Fresh(m, e) && (m.state.WaitUnmount? || m.state.WaitUnmountExt?) && gap >= 0.0
    requires forall i :: 0 <= i < |m.cams| ==> e.cams[i].now <= m.cams[i].checked + gap
    requires Due(m.cams, last, gap)
    ensures Due(AllChecked(m.cams, e.cams), last, gap)
    ensures last == e ==> AllOff(AllChecked(m.cams, e.cams))
  {
    var cams := AllChecked(m.cams, e.cams);
    forall i | 0 <= i < |cams| && cams[i].mount != NotMounted
      ensures last.cams[i].now > OffBy(cams[i], gap) && last != e
    {
      assert Fits(m.state, m.cams[i]);
      SettleStep(m.cams[i], e.cams[i], gap);
    }
  }

  /** A wait that the last of the polls ahead must find over. */
  predicate Waiting(m: Mgr, es: seq<Input>, gap: real) {
    && Inv(m) && (m.state.WaitUnmount? || m.state.WaitUnmountExt?) && gap >= 0.0
    && es != [] && Feasible(m, es) && SteadyPolls(m, es, gap)
    && Due(m.cams, es[|es| - 1], gap)
  }

  predicate Reaches(m: Mgr, es: seq<Input>, k: nat, s: State) {
    1 <= k <= |es| && Feasible(m, es[..k]) && After(m, es[..k]).state == s
  }

  lemma WaitGoesOn(m: Mgr, es: seq<Input>, gap: real) returns (over: bool)
    requires Waiting(m, es, gap)
    ensures over ==> Reaches(m, es, 1, AfterUnmount(m.state))
    ensures !over ==> Poll(m, es[0]).state == m.state && Waiting(Poll(m, es[0]), es[1..], gap)
  {
    WaitStep(m, es[0]);
    PollKeeps(m, es[0]);
    DueStep(m, es[0], es[|es| - 1], gap);
    over := AllOff(AllChecked(m.cams, es[0].cams));
    if over { FirstPoll(m, es); }
  }

  lemma {:induction false} LeavesBy(m: Mgr, es: seq<Input>, gap: real) returns (k: nat)
    requires Waiting(m, es, gap)
    ensures Reaches(m, es, k, AfterUnmount(m.state))
    decreases |es|
  {
    var over := WaitGoesOn(m, es, gap);
    if over {
      k := 1;
    } else {
      var j := LeavesBy(Poll(m, es[0]), es[1..], gap);
      k := j + 1;
      LaterPolls(m, es, j, AfterUnmount(m.state));
    }
  }

  lemma FirstPoll(m: Mgr, es: seq<Input>)
    requires es != [] && Feasible(m, es)
    ensures Reaches(m, es, 1, Poll(m, es[0]).state)
  {
    var one := es[..1];
    assert one[1..] == [];
    assert Feasible(Poll(m, es[0]), one[1..]);
  }

  lemma LaterPolls(m: Mgr, es: seq<Input>, j: nat, s: State)
    requires es != [] && Feasible(m, es)
    requires Reaches(Poll(m, es[0]), es[1..], j, s)
    ensures Reaches(m, es, j + 1, s)
  {
    var some := es[..j + 1];
    assert some[1..] == es[1..][..j];
  }

  /** Waiting for the cameras to come off ends: by the first poll that checks
      every camera more than 55 s and three gaps after the wait began. */
  lemma UnmountWaitEnds(m: Mgr, es: seq<Input>, gap: real) returns (k: nat)
    requires Inv(m) && (m.state.WaitUnmount? || m.state.WaitUnmountExt?) && gap >= 0.0
    requires es != [] && Feasible(m, es) && SteadyPolls(m, es, gap)
    requires |es[|es| - 1].cams| == |m.cams|
    requires forall i :: 0 <= i < |m.cams| ==> es[|es| - 1].cams[i].now > m.cams[i].checked + 55.0 + 3.0 * gap
    ensures 1 <= k <= |es| && Feasible(m, es[..k])
    ensures After(m, es[..k]).state == AfterUnmount(m.state)
  {
    forall i | 0 <= i < |m.cams| ensures OffBy(m.cams[i], gap) <= m.cams[i].checked + 55.0 + 3.0 * gap {
      assert CamOk(m.cams[i]);
      OffByBound(m.cams[i], gap);
    }
    k := LeavesBy(m, es, gap);
  }
}
