/** The firmware clock, unwrapped from thirty bits, and the motion times fed from it. */
module FwClock {
  /** The firmware clock counts milliseconds modulo 2^30. */
  const WRAP := 0x40000000

  /** A stored clock value has 32 bits. */
  const STORED := 0x1_0000_0000

  // ---- clock ----------------------------------------------------------------------

  /** The next clock value that shows `fw`. */
  function Unwrap(cur: nat, fw: nat): (r: nat)
    requires fw < WRAP
  {
    var high := cur / WRAP * WRAP;
    if fw < cur % WRAP then high + WRAP + fw else high + fw
  }

  /** The unwrapped clock is the first value not before the current one that
      shows the firmware time. */
  lemma UnwrapIsNext(cur: nat, fw: nat, t: nat)
    requires fw < WRAP
    ensures cur <= Unwrap(cur, fw) < cur + WRAP && Unwrap(cur, fw) % WRAP == fw
    ensures cur <= t && t % WRAP == fw ==> Unwrap(cur, fw) <= t
  {
    var q, r := cur / WRAP, cur % WRAP;
    assert cur == q * WRAP + r;
    ModOf(if fw < r then q + 1 else q, fw);
    if cur <= t && t % WRAP == fw {
      var p := t / WRAP;
      assert t == p * WRAP + fw;
      assert p >= q && (fw < r ==> p > q);
    }
  }

  lemma ModOf(q: int, r: nat)
    requires r < WRAP
    ensures (q * WRAP + r) % WRAP == r
  {
  }

  /** A frame with its firmware time; a rejected one only moves the clock. */
  datatype Frame = Frame(fw: nat, accepted: bool)

  /** The clock, the stored time of the last accepted frame, the clock value that
      stands for, and the time handed to the motion accounts so far. */
  datatype Clock = Clock(cur: nat, last: nat, base: nat, fed: nat)

  predicate Aligned(c: Clock) {
    c.last == c.base % STORED && c.base <= c.cur
  }

  function ClockStep(c: Clock, f: Frame): Clock
    requires f.fw < WRAP
  {
    var cur := Unwrap(c.cur, f.fw);
    if f.accepted then Clock(cur, cur % STORED, cur, c.fed + (f.fw - c.last) % WRAP)
    else c.(cur := cur)
  }

  predicate Frames(run: seq<Frame>) {
    forall i :: 0 <= i < |run| ==> run[i].fw < WRAP
  }

  function ClockRun(c: Clock, run: seq<Frame>): Clock
    requires Frames(run)
    decreases |run|
  {
    if run == [] then c else ClockRun(ClockStep(c, run[0]), run[1..])
  }

  /** Accepted frames follow each other within one turn of the firmware clock. */
  predicate ShortGaps(c: Clock, run: seq<Frame>)
    requires Frames(run)
    decreases |run|
  {
    run == [] ||
    (var d := ClockStep(c, run[0]);
     (run[0].accepted ==> d.cur - c.base < WRAP) && ShortGaps(d, run[1..]))
  }

  /** The time difference of an accepted frame is the growth of the clock since
      the last accepted one, modulo a turn. */
  lemma DifferenceIsGrowth(c: Clock, fw: nat)
    requires Aligned(c) && fw < WRAP
    ensures var cur := Unwrap(c.cur, fw);
            cur >= c.base && (fw - c.last) % WRAP == (cur - c.base) % WRAP
  {
    var cur := Unwrap(c.cur, fw);
    UnwrapIsNext(c.cur, fw, 0);
    var a, b := cur / WRAP, c.base / STORED;
    assert cur == a * WRAP + fw;
    assert c.base == b * STORED + c.last;
    SameMod(fw - c.last, cur - c.base, a - 4 * b);
  }

  lemma SameMod(x: int, y: int, k: int)
    requires y == x + k * WRAP
    ensures x % WRAP == y % WRAP
  {
    var q, r := x / WRAP, x % WRAP;
    assert y == (q + k) * WRAP + r;
    ModOf(q + k, r);
  }

  lemma {:induction false} ClockStaysAligned(c: Clock, run: seq<Frame>)
    requires Aligned(c) && Frames(run)
    ensures Aligned(ClockRun(c, run)) && ClockRun(c, run).cur >= c.cur && ClockRun(c, run).base >= c.base
    decreases |run|
  {
    if run != [] {
      UnwrapIsNext(c.cur, run[0].fw, 0);
      ClockStaysAligned(ClockStep(c, run[0]), run[1..]);
    }
  }

  /** Rejected frames included, the time handed on is the growth of the clock up
      to the last accepted frame, exactly when no gap reaches a turn; otherwise it
      is less by whole turns. */
  lemma {:induction false} FedIsGrowth(c: Clock, run: seq<Frame>)
    requires Aligned(c) && Frames(run)
    ensures var d := ClockRun(c, run);
            && d.fed - c.fed <= d.base - c.base
            && ((d.base - c.base) - (d.fed - c.fed)) % WRAP == 0
            && (d.fed - c.fed == d.base - c.base <==> ShortGaps(c, run))
    decreases |run|
  {
    if run != [] {
      var n := ClockStep(c, run[0]);
      UnwrapIsNext(c.cur, run[0].fw, 0);
      FedIsGrowth(n, run[1..]);
      if run[0].accepted {
        DifferenceIsGrowth(c, run[0].fw);
        var d := ClockRun(n, run[1..]);
        var gap := n.base - c.base;
        var rest := (d.base - n.base) - (d.fed - n.fed);
        assert gap == gap / WRAP * WRAP + gap % WRAP;
        SameMod(rest, rest + gap / WRAP * WRAP, gap / WRAP);
      }
    }
  }

  /** Clocks that have handed on the same time and agree on the last accepted frame go on alike. */
  lemma {:induction false} SameFeed(c: Clock, d: Clock, run: seq<Frame>)
    requires Frames(run) && c.fed == d.fed && c.last % WRAP == d.last % WRAP
    ensures ClockRun(c, run).fed == ClockRun(d, run).fed
    decreases |run|
  {
    if run != [] {
      var c', d' := ClockStep(c, run[0]), ClockStep(d, run[0]);
      if run[0].accepted {
        var fw := run[0].fw;
        DifferenceModulo(fw, c.last, d.last);
        UnwrapIsNext(c.cur, fw, 0);
        UnwrapIsNext(d.cur, fw, 0);
        StoredShows(c'.cur, fw);
        StoredShows(d'.cur, fw);
      }
      SameFeed(c', d', run[1..]);
    }
  }

  lemma DifferenceModulo(fw: nat, a: nat, b: nat)
    requires a % WRAP == b % WRAP
    ensures (fw - a) % WRAP == (fw - b) % WRAP
  {
    var p, q := a / WRAP, b / WRAP;
    SameMod(fw - a, fw - b, p - q);
  }

  /** The stored clock still shows the firmware time. */
  lemma StoredShows(cur: nat, fw: nat)
    requires cur % WRAP == fw
    ensures cur % STORED % WRAP == fw
  {
    var q, r := cur / STORED, cur % STORED;
    assert cur == q * STORED + r;
    SameMod(cur, r, -4 * q);
  }

  /** Resetting the clock changes no time that is handed on afterwards, and the
      next accepted frame aligns it again. */
  lemma ResetChangesNoTime(c: Clock, run: seq<Frame>)
    requires Frames(run)
    ensures ClockRun(c.(cur := 0), run).fed == ClockRun(c, run).fed
    ensures run != [] && run[0].accepted ==> Aligned(ClockStep(c.(cur := 0), run[0]))
  {
    SameFeed(c.(cur := 0), c, run);
  }

  // ---- motion times ------------------------------------------------------------------

  datatype Motion = Parked | Stopped | Stopping | Moving

  const SPEED_MOVING := 720
  const SPEED_STOPPING := 514
  const SPEED_STOPPED := 5

  predicate Halting(m: Motion) {
    m == Stopping || m == Stopped
  }

  /** The state after a frame with this gear and speed. */
  function NextMotion(m: Motion, gear: nat, speed: nat): Motion {
    if gear == 0 then Parked
    else if speed > SPEED_MOVING then Moving
    else if speed < SPEED_STOPPED then Stopped
    else if m == Parked then Stopped
    else if m == Moving && speed < SPEED_STOPPING then Stopping
    else m
  }

  /** A stretch of time between accepted frames, and the state during it. */
  datatype Interval = Interval(during: Motion, time: nat)

  function DriveTime(h: seq<Interval>): nat {
    if h == [] then 0
    else DriveTime(h[..|h| - 1]) + if h[|h| - 1].during == Parked then 0 else h[|h| - 1].time
  }

  /** The time since the vehicle was last moving or parked. */
  function HaltTime(h: seq<Interval>): nat {
    if h == [] || !Halting(h[|h| - 1].during) then 0
    else HaltTime(h[..|h| - 1]) + h[|h| - 1].time
  }

  /** The time of all halts that came to a standstill and are over, if the state is now `now`. */
  function StoppedTime(h: seq<Interval>, now: Motion): nat {
    if h == [] then 0
    else
      var during := h[|h| - 1].during;
      StoppedTime(h[..|h| - 1], during) + if during == Stopped && !Halting(now) then HaltTime(h) else 0
  }

  /** Halts are part of the drive: those that are over and the current one never exceed it. */
  lemma {:induction false} StopsWithinDrive(h: seq<Interval>, now: Motion)
    ensures StoppedTime(h, now) + (if Halting(now) then HaltTime(h) else 0) <= DriveTime(h)
    decreases |h|
  {
    if h != [] {
      StopsWithinDrive(h[..|h| - 1], h[|h| - 1].during);
    }
  }

  /** The three accounts after a history, in a state. */
  predicate Accounts(h: seq<Interval>, now: Motion, total: nat, stop: nat, cur: nat) {
    && total == DriveTime(h)
    && cur == (if Halting(now) then HaltTime(h) else 0)
    && stop == StoppedTime(h, now)
  }

  /** The accounts at the end of the last stretch, before the state changes. */
  predicate AccountsBefore(h: seq<Interval>, total: nat, stop: nat, cur: nat) {
    h != [] &&
    var during := h[|h| - 1].during;
    && total == DriveTime(h)
    && cur == HaltTime(h)
    && stop == StoppedTime(h[..|h| - 1], during)
  }

  lemma CountInterval(h: seq<Interval>, now: Motion, time: nat, total: nat, stop: nat, cur: nat)
    requires Accounts(h, now, total, stop, cur)
    ensures AccountsBefore(h + [Interval(now, time)], total + (if now == Parked then 0 else time), stop,
                           cur + if Halting(now) then time else 0)
  {
    var i := Interval(now, time);
    assert (h + [i])[..|h|] == h;
  }

  /** A change of state closes the halt it ends. */
  lemma ShiftAccounts(h: seq<Interval>, next: Motion, total: nat, stop: nat, cur: nat)
    requires AccountsBefore(h, total, stop, cur)
    ensures Accounts(h, next, total, stop + (if h[|h| - 1].during == Stopped && !Halting(next) then cur else 0),
                     if Halting(next) then cur else 0)
  {
  }

  lemma AccountsBound(h: seq<Interval>, now: Motion, total: nat, stop: nat, cur: nat)
    requires Accounts(h, now, total, stop, cur)
    ensures stop + cur <= total
  {
    StopsWithinDrive(h, now);
  }

  class Monitor {
    var curFwMillis: nat
    var lastFwMillis: nat
    var motionState: Motion
    var totalTime: nat
    var totalStopTime: nat
    var curStopTime: nat
    var lastStopTime: nat
    ghost var history: seq<Interval>
    ghost var base: nat
    ghost var fed: nat

    constructor ()
      ensures Valid() && Aligned(Times()) && history == [] && motionState == Parked
    {
      curFwMillis, lastFwMillis, motionState := 0, 0, Parked;
      totalTime, totalStopTime, curStopTime, lastStopTime := 0, 0, 0, 0;
      history, base, fed := [], 0, 0;
    }

    ghost function Times(): Clock
      reads this
    {
      Clock(curFwMillis, lastFwMillis, base, fed)
    }

    /** The accounts are those of the recorded history. */
    ghost predicate Valid()
      reads this
    {
      Accounts(history, motionState, totalTime, totalStopTime, curStopTime)
    }

    method ClearMotionState()
      modifies this`totalTime, this`totalStopTime, this`curStopTime, this`lastStopTime, this`history
      ensures Valid() && history == [] && totalTime == totalStopTime == curStopTime == 0
    {
      totalTime, totalStopTime, curStopTime, lastStopTime := 0, 0, 0, 0;
      history := [];
    }

    method SetMotionState(state: Motion)
      modifies this`motionState, this`lastStopTime, this`totalStopTime, this`curStopTime
      ensures motionState == state
      ensures totalStopTime == old(totalStopTime) + if old(motionState) == Stopped && state != Stopped then old(curStopTime) else 0
      ensures curStopTime == if state == old(motionState) || Halting(state) then old(curStopTime) else 0
    {
      if motionState == state {
        return;
      }
      if motionState == Stopped {
        lastStopTime := curStopTime;
        totalStopTime := totalStopTime + curStopTime;
      }
      motionState := state;
      if state != Stopped && state != Stopping {
        curStopTime := 0;
      }
    }

    /** Adds the time since the last accepted frame to the accounts. */
    method CountTime(timediff: nat)
      requires Valid()
      modifies this`totalTime, this`curStopTime, this`history
      ensures history == old(history) + [Interval(motionState, timediff)]
      ensures AccountsBefore(history, totalTime, totalStopTime, curStopTime)
      ensures !Halting(motionState) ==> curStopTime == 0
    {
      CountInterval(history, motionState, timediff, totalTime, totalStopTime, curStopTime);
      if motionState != Parked {
        totalTime := totalTime + timediff;
        if motionState == Stopping || motionState == Stopped {
          curStopTime := curStopTime + timediff;
        }
      }
      history := history + [Interval(motionState, timediff)];
    }

    /** The accounts after an accepted frame cover its time difference too. */
    method UpdateMotionState(timediff: nat, gear: nat, speed: nat)
      requires Valid()
      modifies this`motionState, this`totalTime, this`lastStopTime, this`totalStopTime, this`curStopTime, this`history
      ensures Valid()
      ensures motionState == NextMotion(old(motionState), gear, speed)
      ensures history == old(history) + [Interval(old(motionState), timediff)]
      ensures totalStopTime + curStopTime <= totalTime
    {
      CountTime(timediff);
      ShiftAccounts(history, NextMotion(motionState, gear, speed), totalTime, totalStopTime, curStopTime);
      Shift(gear, speed);
      AccountsBound(history, motionState, totalTime, totalStopTime, curStopTime);
    }

    method Shift(gear: nat, speed: nat)
      requires !Halting(motionState) ==> curStopTime == 0
      modifies this`motionState, this`lastStopTime, this`totalStopTime, this`curStopTime
      ensures motionState == NextMotion(old(motionState), gear, speed)
      ensures totalStopTime == old(totalStopTime) + if old(motionState) == Stopped && !Halting(motionState) then old(curStopTime) else 0
      ensures curStopTime == if Halting(motionState) then old(curStopTime) else 0
    {
      if gear == 0 {
        SetMotionState(Parked);
      } else {
        if motionState == Parked {
          SetMotionState(Stopped);
        }
        if speed > SPEED_MOVING {
          SetMotionState(Moving);
        } else if speed < SPEED_STOPPING {
          if motionState == Moving {
            SetMotionState(Stopping);
          }
          if speed < SPEED_STOPPED {
            SetMotionState(Stopped);
          }
        }
      }
    }

    /** A data frame; `accepted` says whether its record was in sequence. */
    method HandleDataFrame(fwMillis: nat, accepted: bool, gear: nat, speed: nat)
      requires Valid() && fwMillis < WRAP
      modifies this
      ensures Valid()
      ensures Times() == ClockStep(old(Times()), Frame(fwMillis, accepted))
      ensures curFwMillis >= old(curFwMillis) && curFwMillis % WRAP == fwMillis
      ensures if accepted
              then history == old(history) + [Interval(old(motionState), (fwMillis - old(lastFwMillis)) % WRAP)]
                && motionState == NextMotion(old(motionState), gear, speed)
                && totalStopTime + curStopTime <= totalTime
              else history == old(history) && motionState == old(motionState)
    {
      UnwrapIsNext(curFwMillis, fwMillis, 0);
      var cfw := curFwMillis;
      if fwMillis < cfw % WRAP {
        cfw := cfw + WRAP;
      }
      curFwMillis := cfw / WRAP * WRAP + fwMillis;
      assert curFwMillis == Unwrap(old(curFwMillis), fwMillis);
      if !accepted {
        return;
      }
      var timediff := (fwMillis - lastFwMillis) % WRAP;
      UpdateMotionState(timediff, gear, speed);
      lastFwMillis := curFwMillis % STORED;
      base := curFwMillis;
      fed := fed + timediff;
    }

    /** The clock starts again when a log is opened; the accounts are untouched. */
    method ResetClock()
      modifies this`curFwMillis
      ensures Times() == old(Times()).(cur := 0) && (old(Valid()) ==> Valid())
    {
      curFwMillis := 0;
    }
  }
}
