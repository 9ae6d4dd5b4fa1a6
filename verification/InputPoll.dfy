/** Rotors and buttons polled from input pins, and the events they send to the
    dispatcher. */
module InputPoll {
  datatype Event =
    | Turn(index: nat, up: bool)
    | Press(index: nat)
    | Release(index: nat, long: bool)
    | LongPress(index: nat)

  // ---- the event byte ------------------------------------------------------------

  const EVT_ROTOR := 0x80
  const EVT_UP := 0x40
  const EVT_LONG := 0x20

  /** The byte sent for an event; the flags and the index share no bits. */
  function Encode(e: Event): nat {
    match e
    case Turn(i, up) => EVT_ROTOR + (if up then EVT_UP else 0) + i
    case Press(i) => i
    case Release(i, long) => EVT_UP + (if long then EVT_LONG else 0) + i
    case LongPress(i) => EVT_LONG + i
  }

  datatype Action = NoAction | Rotate(index: nat, up: bool) | Click(index: nat) | Hold(index: nat)

  /** What the dispatcher does for a received byte. */
  function Dispatch(evt: nat): Action {
    var index := evt % 0x20;
    var rotor := evt / EVT_ROTOR % 2 == 1;
    var release := evt / EVT_UP % 2 == 1;
    var long := evt / EVT_LONG % 2 == 1;
    if rotor then Rotate(index, release)
    else if release then (if long then NoAction else Click(index))
    else if long then Hold(index) else NoAction
  }

  /** The event as the dispatcher understands it. */
  function Meaning(e: Event): Action {
    match e
    case Turn(i, up) => Rotate(i, up)
    case Press(_) => NoAction
    case Release(i, long) => if long then NoAction else Click(i)
    case LongPress(i) => Hold(i)
  }

  lemma EventArrives(e: Event)
    requires e.index < 32
    ensures Encode(e) < 256 && Dispatch(Encode(e)) == Meaning(e)
  {
    var i := e.index;
    match e
    case Turn(_, up) => if up { Flags(i, 6); } else { Flags(i, 4); }
    case Press(_) => Flags(i, 0);
    case Release(_, long) => if long { Flags(i, 3); } else { Flags(i, 2); }
    case LongPress(_) => Flags(i, 1);
  }

  lemma Flags(i: nat, flags: nat)
    requires i < 32 && flags < 8
    ensures var v := 32 * flags + i;
            v % 32 == i && v / 32 == flags && v / 64 == flags / 2 && v / 128 == flags / 4
  {
  }

  // ---- rotors -----------------------------------------------------------------------

  /** Conversion to a signed byte. */
  function Int8(v: int): (r: int)
    ensures -128 <= r < 128
    ensures -128 <= v < 128 ==> r == v
    ensures 128 <= v < 256 ==> r == v - 256
  {
    (v + 128) % 256 - 128
  }

  /** Exclusive or of two numbers, bit by bit. */
  function Xor(a: nat, b: nat): nat {
    if a == 0 && b == 0 then 0
    else (if a % 2 != b % 2 then 1 else 0) + 2 * Xor(a / 2, b / 2)
  }

  /** A pin reads as the given value when it is low. */
  function Pin(high: bool, v: nat): nat {
    if high then 0 else v
  }

  /** The quarter of a detent step at which the pins have these levels. */
  function Quarter(high1: bool, high2: bool): (q: nat)
    ensures q < 4
  {
    if high1 then (if high2 then 0 else 1) else (if high2 then 3 else 2)
  }

  /** The sampled value, a signed byte, in a quarter. */
  function Sampled(q: nat): (v: int)
    requires q < 4
    ensures (v - 64 * q) % 256 == 0
  {
    if q < 2 then 64 * q else 64 * q - 256
  }

  /** The signed byte made of the two pins. */
  method ReadPins(high1: bool, high2: bool) returns (v: int)
    ensures v == Sampled(Quarter(high1, high2))
  {
    var x := Xor(Pin(high1, 0xC0), Pin(high2, 0x40));
    PinsDiffer(high1, high2);
    v := Int8(x);
  }

  lemma PinsDiffer(high1: bool, high2: bool)
    ensures Xor(Pin(high1, 0xC0), Pin(high2, 0x40)) == 64 * Quarter(high1, high2)
  {
    assert Xor(3, 0) == 3 && Xor(0, 1) == 1 && Xor(3, 1) == 2;
    XorShifted(3, 0);
    XorShifted(0, 1);
    XorShifted(3, 1);
  }

  lemma XorShifted(a: nat, b: nat)
    ensures Xor(64 * a, 64 * b) == 64 * Xor(a, b)
  {
    XorTimes8(a, b);
    XorTimes8(8 * a, 8 * b);
  }

  lemma XorTimes8(a: nat, b: nat)
    ensures Xor(8 * a, 8 * b) == 8 * Xor(a, b)
  {
    XorDoubled(a, b);
    XorDoubled(2 * a, 2 * b);
    XorDoubled(4 * a, 4 * b);
  }

  lemma XorDoubled(a: nat, b: nat)
    ensures Xor(2 * a, 2 * b) == 2 * Xor(a, b)
  {
  }

  /** A rotor that was last seen in a quarter, with its count since the last detent. */
  datatype RotorState = RotorState(quarter: nat, count: int)

  predicate RotorOk(r: RotorState) {
    r.quarter < 4 && -128 <= r.count < 128
  }

  /** How far the rotor is taken to have turned from one quarter to another. */
  function Turned(from: nat, to: nat): int {
    if to == (from + 1) % 4 then 1
    else if from == (to + 1) % 4 then -1
    else if from == to then 0
    else -2
  }

  /** The state after a sample in quarter `q`, and the event sent. */
  function RotorStep(index: nat, r: RotorState, q: nat): (RotorState, seq<Event>) {
    var count := Int8(r.count + Turned(r.quarter, q));
    if q != 0 || r.quarter == 0 then (RotorState(q, count), [])
    else (RotorState(0, 0), if count == 4 then [Turn(index, true)] else if count == -4 then [Turn(index, false)] else [])
  }

  class Rotor {
    const index: nat
    var lastval: int
    var count: int
    ghost var quarter: nat

    constructor (index: nat)
      ensures this.index == index && Valid() && Abs() == RotorState(0, 0)
    {
      this.index, lastval, count, quarter := index, 0, 0, 0;
    }

    ghost predicate Valid()
      reads this
    {
      quarter < 4 && lastval == Sampled(quarter) && -128 <= count < 128
    }

    ghost function Abs(): RotorState
      reads this
    {
      RotorState(quarter, count)
    }

    /** One sample of the two pins. */
    method Sample(high1: bool, high2: bool) returns (events: seq<Event>)
      requires Valid()
      modifies this
      ensures Valid() && (Abs(), events) == RotorStep(index, old(Abs()), Quarter(high1, high2))
    {
      var val := ReadPins(high1, high2);
      OffsetIsTurn(quarter, Quarter(high1, high2));
      quarter := Quarter(high1, high2);
      events := [];
      var ofs := Int8(val - lastval);
      if ofs != 0 {
        count := Int8(count + ofs / 64);
        if val == 0 {
          if count == 4 {
            events := [Turn(index, true)];
          } else if count == -4 {
            events := [Turn(index, false)];
          }
          count := 0;
        }
        lastval := val;
      }
    }
  }

  lemma OffsetIsTurn(from: nat, to: nat)
    requires from < 4 && to < 4
    ensures var ofs := Int8(Sampled(to) - Sampled(from));
            (ofs == 0 <==> from == to) && ofs / 64 == Turned(from, to)
  {
    var d := Sampled(to) - Sampled(from);
    assert Int8(d) == if d < -128 then d + 256 else if d >= 128 then d - 256 else d;
  }

  /** The state after seeing a shaft at the given positions, in quarter steps. */
  function RotorRun(index: nat, positions: seq<int>): (RotorState, seq<Event>) {
    if positions == [] then (RotorState(0, 0), [])
    else
      var n := |positions| - 1;
      var before := RotorRun(index, positions[..n]);
      var step := RotorStep(index, before.0, positions[n] % 4);
      (step.0, before.1 + step.1)
  }

  function Detents(events: seq<Event>): int {
    if events == [] then 0
    else
      var n := |events| - 1;
      Detents(events[..n]) + match events[n] case Turn(_, up) => (if up then 1 else -1) case _ => 0
  }

  lemma {:induction false} DetentsAppend(a: seq<Event>, b: seq<Event>)
    requires |b| <= 1
    ensures Detents(a + b) == Detents(a) + Detents(b)
  {
    if b == [] {
      assert a + b == a;
    } else {
      assert (a + b)[..|a|] == a && b[..0] == [];
    }
  }

  function Last(positions: seq<int>): int {
    if positions == [] then 0 else positions[|positions| - 1]
  }

  /** Whatever the samples, the count is the sampled value modulo a full turn of a byte. */
  lemma {:induction false} CountMatchesSample(index: nat, positions: seq<int>)
    ensures var r := RotorRun(index, positions).0;
            RotorOk(r) && r.quarter == Last(positions) % 4 && (64 * r.count - Sampled(r.quarter)) % 256 == 0
  {
    CountMatchesQuarter(index, positions);
    var r := RotorRun(index, positions).0;
    var k := (r.count - r.quarter) / 4;
    assert 64 * r.count - 64 * r.quarter == 256 * k;
  }

  lemma {:induction false} CountMatchesQuarter(index: nat, positions: seq<int>)
    ensures var r := RotorRun(index, positions).0;
            RotorOk(r) && r.quarter == Last(positions) % 4 && (r.count - r.quarter) % 4 == 0
    decreases |positions|
  {
    if positions != [] {
      var n := |positions| - 1;
      CountMatchesQuarter(index, positions[..n]);
      var r := RotorRun(index, positions[..n]).0;
      CountStep(r.count, r.quarter, positions[n] % 4);
    }
  }

  lemma CountStep(count: int, from: nat, to: nat)
    requires from < 4 && to < 4 && (count - from) % 4 == 0 && -128 <= count < 128
    ensures (Int8(count + Turned(from, to)) - to) % 4 == 0
  {
    var c := count + Turned(from, to);
    assert (c - to) % 4 == 0;
    assert Int8(c) == if c < -128 then c + 256 else if c >= 128 then c - 256 else c;
  }

  /** Every turn is accounted for: detents reported plus the count make up the
      position, and the count stays below a full step. */
  predicate Conserved(index: nat, positions: seq<int>) {
    var (r, events) := RotorRun(index, positions);
    4 * Detents(events) + r.count == Last(positions) && -3 <= r.count <= 3
  }

  /** The last position seen that was a detent. */
  function LastDetent(positions: seq<int>): int {
    if positions == [] then 0
    else if Last(positions) % 4 == 0 then Last(positions)
    else LastDetent(positions[..|positions| - 1])
  }

  /** The last sample is at most one quarter forward or two back from the one
      before, and at a detent or within three quarters of the last one seen. */
  predicate InReach(positions: seq<int>) {
    positions == [] ||
    (var front := positions[..|positions| - 1];
     var p := Last(positions);
     -2 <= p - Last(front) <= 1 && (p % 4 == 0 || -3 <= p - LastDetent(front) <= 3))
  }

  lemma TurnedModulo(from: int, to: int)
    ensures -2 <= Turned(from % 4, to % 4) <= 1 && (Turned(from % 4, to % 4) - (to - from)) % 4 == 0
  {
  }

  lemma NearDetent(count: int)
    requires -5 <= count <= 4 && count % 4 == 0
    ensures count == -4 || count == 0 || count == 4
  {
  }

  /** One sample of a rotor whose count is its distance from the detent `d`. */
  lemma SampleInReach(index: nat, r: RotorState, from: int, to: int, d: int)
    requires -3 <= r.count <= 3 && r.count == from - d && d % 4 == 0 && r.quarter == from % 4
    ensures var (t, events) := RotorStep(index, r, to % 4);
            && |events| <= 1
            && ((4 * Detents(events) + t.count == r.count + (to - from) && -3 <= t.count <= 3)
                <==> (-2 <= to - from <= 1 && (to % 4 == 0 || -3 <= to - d <= 3)))
            && (-2 <= to - from <= 1 ==> 4 * Detents(events) == if to % 4 == 0 then to - d else 0)
  {
    var turned := Turned(from % 4, to % 4);
    TurnedModulo(from, to);
    var (t, events) := RotorStep(index, r, to % 4);
    if events != [] {
      assert events[..0] == [];
    }
    if to % 4 == 0 {
      assert (r.count + turned) % 4 == 0;
      NearDetent(r.count + turned);
    }
  }

  /** After conserved samples the next one keeps the accounts exactly if it is in reach. */
  lemma NextConserved(index: nat, positions: seq<int>)
    requires positions != []
    requires var front := positions[..|positions| - 1];
             Conserved(index, front) && 4 * Detents(RotorRun(index, front).1) == LastDetent(front)
    ensures Conserved(index, positions) <==> InReach(positions)
    ensures Conserved(index, positions) ==> 4 * Detents(RotorRun(index, positions).1) == LastDetent(positions)
  {
    var front := positions[..|positions| - 1];
    var (r, events) := RotorRun(index, front);
    var p := Last(positions);
    CountMatchesQuarter(index, front);
    SampleInReach(index, r, Last(front), p, LastDetent(front));
    DetentsAppend(events, RotorStep(index, r, p % 4).1);
  }

  /** The accounts were right after every sample so far. */
  predicate AlwaysConserved(index: nat, positions: seq<int>)
    decreases |positions|
  {
    Conserved(index, positions) && (positions == [] || AlwaysConserved(index, positions[..|positions| - 1]))
  }

  /** Every sample so far was in reach. */
  predicate AlwaysInReach(positions: seq<int>)
    decreases |positions|
  {
    InReach(positions) && (positions == [] || AlwaysInReach(positions[..|positions| - 1]))
  }

  lemma {:induction false} ReportsReachLastDetent(index: nat, positions: seq<int>)
    requires AlwaysConserved(index, positions)
    ensures 4 * Detents(RotorRun(index, positions).1) == LastDetent(positions)
    decreases |positions|
  {
    if positions != [] {
      ReportsReachLastDetent(index, positions[..|positions| - 1]);
      NextConserved(index, positions);
    }
  }

  /** The accounts stay right exactly as long as every sample is in reach. */
  lemma {:induction false} ConservedExactly(index: nat, positions: seq<int>)
    ensures AlwaysConserved(index, positions) <==> AlwaysInReach(positions)
    decreases |positions|
  {
    if positions == [] {
      assert Conserved(index, []);
    } else {
      var front := positions[..|positions| - 1];
      ConservedExactly(index, front);
      if AlwaysConserved(index, front) {
        ReportsReachLastDetent(index, front);
        NextConserved(index, positions);
      }
    }
  }

  /** The shaft was never seen more than a quarter step further. */
  predicate Followed(positions: seq<int>)
    decreases |positions|
  {
    positions == [] ||
    (var front := positions[..|positions| - 1];
     Followed(front) && -1 <= Last(positions) - Last(front) <= 1)
  }

  lemma {:induction false} FollowedStaysInReach(positions: seq<int>)
    requires Followed(positions)
    ensures AlwaysInReach(positions)
    ensures -3 <= Last(positions) - LastDetent(positions) <= 3 && LastDetent(positions) % 4 == 0
    decreases |positions|
  {
    if positions != [] {
      var front := positions[..|positions| - 1];
      FollowedStaysInReach(front);
      WithinReach(LastDetent(front), Last(front), Last(positions));
    }
  }

  lemma WithinReach(d: int, from: int, to: int)
    requires d % 4 == 0 && -3 <= from - d <= 3 && -1 <= to - from <= 1
    ensures to % 4 == 0 || -3 <= to - d <= 3
  {
  }

  /** In particular while no quarter step is missed. */
  lemma TurnsConserved(index: nat, positions: seq<int>)
    requires Followed(positions)
    ensures var (r, events) := RotorRun(index, positions);
            4 * Detents(events) + r.count == Last(positions) && -3 <= r.count <= 3
  {
    FollowedStaysInReach(positions);
    ConservedExactly(index, positions);
    assert Conserved(index, positions);
  }

  /** A half step forward seen at once counts as a half step back: two of them turn the
      wrong way, and the reports no longer add up to the position. */
  lemma MissedQuartersTurnBack(index: nat)
    ensures RotorRun(index, [2, 4]).0 == RotorState(0, 0) && RotorRun(index, [2, 4]).1 == [Turn(index, false)]
    ensures !InReach([2]) && !Conserved(index, [2, 4])
  {
    DetentsAppend([], [Turn(index, false)]);
    assert [] + [Turn(index, false)] == [Turn(index, false)];
    assert [2][..0] == [];
    RotorRunSnoc(index, [], 2);
    RotorRunSnoc(index, [2], 4);
    assert [] + [2] == [2] && [2] + [4] == [2, 4];
    assert RotorStep(index, RotorState(0, 0), 2) == (RotorState(2, -2), []);
    assert RotorStep(index, RotorState(2, -2), 0) == (RotorState(0, 0), [Turn(index, false)]);
  }

  lemma RotorRunSnoc(index: nat, positions: seq<int>, p: int)
    ensures var (r, events) := RotorRun(index, positions);
            var step := RotorStep(index, r, p % 4);
            RotorRun(index, positions + [p]).0 == step.0 && RotorRun(index, positions + [p]).1 == events + step.1
  {
    assert (positions + [p])[..|positions|] == positions;
  }

  // ---- buttons ----------------------------------------------------------------------------

  const LONG_PRESS_TIME := 50

  datatype ButtonState = ButtonState(down: bool, debounce: nat, long: nat)

  /** The pin is sampled, or a tick of five milliseconds passes. */
  datatype Act = Sample(down: bool) | Tick

  /** A settled edge: a press arms the long press, a release ends it. */
  function Settle(index: nat, s: ButtonState): (ButtonState, seq<Event>) {
    if s.debounce == 0 then (s, [])
    else if s.debounce > 1 then (s.(debounce := s.debounce - 1), [])
    else if s.down then (ButtonState(true, 0, LONG_PRESS_TIME), [Press(index)])
    else (ButtonState(false, 0, 0), [Release(index, s.long == 0)])
  }

  function CountDown(index: nat, s: ButtonState): (ButtonState, seq<Event>) {
    if s.long == 0 then (s, [])
    else (s.(long := s.long - 1), if s.long == 1 then [LongPress(index)] else [])
  }

  function ButtonStep(index: nat, s: ButtonState, a: Act): (ButtonState, seq<Event>) {
    match a
    case Sample(down) => (if down == s.down then s else ButtonState(down, 2, s.long), [])
    case Tick =>
      var settled := Settle(index, s);
      var counted := CountDown(index, settled.0);
      (counted.0, settled.1 + counted.1)
  }

  class Button {
    const index: nat
    var lastval: nat
    var debounce: nat
    var longPress: nat

    constructor (index: nat)
      ensures this.index == index && Abs() == ButtonState(false, 0, 0)
    {
      this.index, lastval, debounce, longPress := index, 0, 0, 0;
    }

    ghost function Abs(): ButtonState
      reads this
    {
      ButtonState(lastval != 0, debounce, longPress)
    }

    ghost predicate Valid()
      reads this
    {
      lastval <= 1
    }

    method OnTick() returns (events: seq<Event>)
      requires Valid()
      modifies this
      ensures Valid() && (Abs(), events) == ButtonStep(index, old(Abs()), Tick)
    {
      events := [];
      if debounce != 0 {
        debounce := debounce - 1;
        if debounce == 0 {
          if lastval != 0 {
            longPress := LONG_PRESS_TIME;
            events := [Press(index)];
          } else {
            events := [Release(index, longPress == 0)];
            longPress := 0;
          }
        }
      }
      ghost var settled := events;
      assert (Abs(), settled) == Settle(index, old(Abs()));
      if longPress != 0 {
        longPress := longPress - 1;
        if longPress == 0 {
          events := events + [LongPress(index)];
        }
      }
      assert events == settled + CountDown(index, Settle(index, old(Abs())).0).1;
    }

    method OnSample(high: bool)
      requires Valid()
      modifies this
      ensures Valid() && Abs() == ButtonStep(index, old(Abs()), Sample(!high)).0
    {
      var val := Pin(high, 1);
      if val != lastval {
        debounce := 2;
        lastval := val;
      }
    }
  }

  /** The button after a run of samples and ticks, and all events sent. */
  function ButtonRun(index: nat, s: ButtonState, acts: seq<Act>): (ButtonState, seq<Event>)
  {
    if acts == [] then (s, [])
    else
      var n := |acts| - 1;
      var before := ButtonRun(index, s, acts[..n]);
      var step := ButtonStep(index, before.0, acts[n]);
      (step.0, before.1 + step.1)
  }

  predicate Acts(e: Event) {
    Meaning(e) != NoAction
  }

  /** Actions since the last press. */
  function SincePress(events: seq<Event>): nat {
    if events == [] then 0
    else
      var n := |events| - 1;
      if events[n].Press? then 0 else SincePress(events[..n]) + if Acts(events[n]) then 1 else 0
  }

  lemma SincePressOne(a: seq<Event>, e: Event)
    ensures SincePress(a + [e]) == if e.Press? then 0 else SincePress(a) + if Acts(e) then 1 else 0
  {
    assert (a + [e])[..|a|] == a;
  }

  const Released := ButtonState(false, 0, 0)

  /** An armed long press means that nothing was done since the last press. */
  predicate Idling(s: ButtonState, events: seq<Event>) {
    SincePress(events) <= (if s.long > 0 then 0 else 1)
  }

  lemma TickKeepsIdling(index: nat, s: ButtonState, events: seq<Event>)
    requires Idling(s, events)
    ensures var (t, more) := ButtonStep(index, s, Tick); Idling(t, events + more)
  {
    var settled := Settle(index, s);
    var counted := CountDown(index, settled.0);
    if settled.1 != [] {
      SincePressOne(events, settled.1[0]);
    }
    assert events + [] == events;
    assert Idling(settled.0, events + settled.1);
    if counted.1 != [] {
      SincePressOne(events + settled.1, counted.1[0]);
    }
    assert (events + settled.1) + counted.1 == events + (settled.1 + counted.1);
  }

  lemma {:induction false} StaysIdling(index: nat, acts: seq<Act>)
    ensures var (s, events) := ButtonRun(index, Released, acts); Idling(s, events)
    decreases |acts|
  {
    if acts != [] {
      var n := |acts| - 1;
      StaysIdling(index, acts[..n]);
      var (s, events) := ButtonRun(index, Released, acts[..n]);
      if acts[n].Tick? {
        TickKeepsIdling(index, s, events);
      } else {
        assert events + [] == events;
      }
    }
  }

  predicate PressFree(events: seq<Event>) {
    forall i :: 0 <= i < |events| ==> !events[i].Press?
  }

  function Actions(events: seq<Event>): nat {
    if events == [] then 0
    else Actions(events[..|events| - 1]) + if Acts(events[|events| - 1]) then 1 else 0
  }

  lemma {:induction false} StretchWithinSincePress(events: seq<Event>, i: nat)
    requires i <= |events| && PressFree(events[i..])
    ensures Actions(events[i..]) <= SincePress(events)
    decreases |events|
  {
    var n := |events| - 1;
    if i <= n {
      assert events[i..][..n - i] == events[..n][i..];
      assert events[i..][n - i] == events[n];
      StretchWithinSincePress(events[..n], i);
    }
  }

  lemma OneEventPerStep(index: nat, s: ButtonState, a: Act)
    ensures |ButtonStep(index, s, a).1| <= 1
  {
  }

  /** Between two presses there is at most one action: a click or a hold, never both. */
  lemma {:induction false} OneActionPerPress(index: nat, acts: seq<Act>, i: nat, j: nat)
    requires var events := ButtonRun(index, Released, acts).1;
             i <= j <= |events| && PressFree(events[i..j])
    ensures Actions(ButtonRun(index, Released, acts).1[i..j]) <= 1
    decreases |acts|
  {
    var events := ButtonRun(index, Released, acts).1;
    if acts == [] {
      assert events[i..j] == [];
    } else {
      var n := |acts| - 1;
      var (s, before) := ButtonRun(index, Released, acts[..n]);
      OneEventPerStep(index, s, acts[n]);
      if j <= |before| {
        assert events[i..j] == before[i..j];
        OneActionPerPress(index, acts[..n], i, j);
      } else {
        assert events[i..j] == events[i..];
        StaysIdling(index, acts);
        StretchWithinSincePress(events, i);
      }
    }
  }

  function Ticks(acts: seq<Act>): nat {
    if acts == [] then 0
    else Ticks(acts[..|acts| - 1]) + if acts[|acts| - 1].Tick? then 1 else 0
  }

  predicate EdgeFree(events: seq<Event>) {
    forall i :: 0 <= i < |events| ==> events[i].LongPress?
  }

  /** While no edge settles, an armed long press comes exactly with its last tick. */
  lemma {:induction false} LongPressTiming(index: nat, s: ButtonState, acts: seq<Act>)
    requires s.long > 0 && EdgeFree(ButtonRun(index, s, acts).1)
    ensures var (t, events) := ButtonRun(index, s, acts);
            && events == (if Ticks(acts) >= s.long then [LongPress(index)] else [])
            && t.long == (if Ticks(acts) >= s.long then 0 else s.long - Ticks(acts))
    decreases |acts|
  {
    if acts != [] {
      var n := |acts| - 1;
      var (t, before) := ButtonRun(index, s, acts[..n]);
      var step := ButtonStep(index, t, acts[n]);
      EdgeFreeParts(before, step.1);
      LongPressTiming(index, s, acts[..n]);
      EdgeFreeStep(index, t, acts[n]);
    }
  }

  lemma EdgeFreeParts(a: seq<Event>, b: seq<Event>)
    requires EdgeFree(a + b)
    ensures EdgeFree(a) && EdgeFree(b)
  {
    assert forall i :: 0 <= i < |a| ==> (a + b)[i] == a[i];
    assert forall i :: 0 <= i < |b| ==> (a + b)[|a| + i] == b[i];
  }

  lemma SettleEvents(index: nat, t: ButtonState)
    ensures var settled := Settle(index, t);
            if t.debounce == 1 then |settled.1| == 1 && !settled.1[0].LongPress?
            else settled.1 == [] && settled.0.long == t.long
  {
  }

  /** A step without an edge only counts down. */
  lemma EdgeFreeStep(index: nat, t: ButtonState, a: Act)
    requires EdgeFree(ButtonStep(index, t, a).1)
    ensures var step := ButtonStep(index, t, a);
            && step.1 == (if a.Tick? && t.long == 1 then [LongPress(index)] else [])
            && step.0.long == if a.Tick? && t.long > 0 then t.long - 1 else t.long
  {
    if a.Tick? {
      var settled := Settle(index, t);
      var counted := CountDown(index, settled.0).1;
      EdgeFreeParts(settled.1, counted);
      SettleEvents(index, t);
      assert [] + counted == counted;
    }
  }

  /** A press tick leaves 49 ticks to the long press. */
  lemma PressArms(index: nat, s: ButtonState)
    requires Press(index) in ButtonStep(index, s, Tick).1
    ensures ButtonStep(index, s, Tick).0.long == 49
  {
  }

  /** The release that follows a press is a click exactly if it settles before 50
      ticks have passed; otherwise the press was a hold. */
  lemma ClickOrHold(index: nat, s: ButtonState, acts: seq<Act>)
    requires Press(index) in ButtonStep(index, s, Tick).1
    requires var r := ButtonRun(index, ButtonStep(index, s, Tick).0, acts);
             EdgeFree(r.1) && r.0.debounce == 1 && !r.0.down
    ensures var r := ButtonRun(index, ButtonStep(index, s, Tick).0, acts);
            && ButtonStep(index, r.0, Tick).1 == [Release(index, Ticks(acts) >= 49)]
            && r.1 == (if Ticks(acts) >= 49 then [LongPress(index)] else [])
  {
    PressArms(index, s);
    LongPressTiming(index, ButtonStep(index, s, Tick).0, acts);
  }
}
