/** Signed packets with timestamps: a list pruned to a time window rejects the
    duplicates a verifier that remembers everything would reject. */
module ReplayWindow {
  import opened BitCodec
  import opened Sequences
  import opened Wrappers

  // ---- packets --------------------------------------------------------------------

  function Pow256(n: nat): (r: nat)
    ensures r > 0
  {
    if n == 0 then 1 else 256 * Pow256(n - 1)
  }

  function BigEndian(b: seq<byte>): nat {
    if b == [] then 0 else 256 * BigEndian(b[..|b| - 1]) + b[|b| - 1]
  }

  function BytesOf(v: nat, n: nat): (b: seq<byte>)
    ensures |b| == n
  {
    if n == 0 then [] else BytesOf(v / 256, n - 1) + [v % 256]
  }

  lemma {:induction false} BigEndianRoundTrip(v: nat, n: nat)
    requires v < Pow256(n)
    ensures BigEndian(BytesOf(v, n)) == v
    decreases n
  {
    if n > 0 {
      BigEndianRoundTrip(v / 256, n - 1);
      assert BytesOf(v, n)[..n - 1] == BytesOf(v / 256, n - 1);
    }
  }

  /** The keyed hash of a message is a parameter. */
  type Mac = seq<byte> -> seq<byte>

  datatype Outcome =
    | TooShort
    | BadSignature
    | InPast(time: nat)
    | InFuture(time: nat)
    | Duplicate
    | Accepted(time: nat, payload: seq<byte>)

  predicate Signed(mac: Mac, pkt: seq<byte>) {
    |pkt| >= 40 && pkt[..32] == mac(pkt[32..])
  }

  function SentTime(pkt: seq<byte>): nat
    requires |pkt| >= 40
  {
    BigEndian(pkt[32..40])
  }

  /** The verdict on a packet, given which timestamps count as seen. */
  function Verdict(mac: Mac, pkt: seq<byte>, now: int, window: nat, seen: set<nat>): Outcome {
    if |pkt| < 40 then TooShort
    else if !Signed(mac, pkt) then BadSignature
    else if SentTime(pkt) < now - window then InPast(SentTime(pkt))
    else if SentTime(pkt) > now + window then InFuture(SentTime(pkt))
    else if SentTime(pkt) in seen then Duplicate
    else Accepted(SentTime(pkt), pkt[40..])
  }

  // ---- the pruned list --------------------------------------------------------------

  function Elements(s: seq<nat>): set<nat> {
    set t | t in s
  }

  /** The list without its leading entries below `min`. */
  function Pruned(s: seq<nat>, min: int): (r: seq<nat>)
    ensures StrictlySorted(s) ==> StrictlySorted(r)
    ensures forall t :: t in r ==> t in s
    ensures StrictlySorted(s) ==> forall t :: t in s ==> (t in r <==> t >= min)
  {
    if s == [] || s[0] >= min then s else Pruned(s[1..], min)
  }

  /** The list and verdict after a packet. */
  function Next(mac: Mac, pkt: seq<byte>, now: int, window: nat, seen: seq<nat>): (seq<nat>, Outcome) {
    if !Signed(mac, pkt) then (seen, Verdict(mac, pkt, now, window, {}))
    else
      var kept := Pruned(seen, now - window);
      var r := Verdict(mac, pkt, now, window, Elements(kept));
      if r.Accepted? then (Inserted(kept, r.time), r) else (kept, r)
  }

  /** A timestamp put in behind all smaller ones. */
  function Inserted(s: seq<nat>, t: nat): (r: seq<nat>)
    ensures |r| == |s| + 1
  {
    if s == [] || s[|s| - 1] <= t then s + [t]
    else Inserted(s[..|s| - 1], t) + [s[|s| - 1]]
  }

  lemma ElementsSnoc(s: seq<nat>, t: nat)
    ensures Elements(s + [t]) == Elements(s) + {t}
  {
  }

  lemma {:induction false} InsertedElements(s: seq<nat>, t: nat)
    ensures Elements(Inserted(s, t)) == Elements(s) + {t}
    decreases |s|
  {
    ElementsSnoc(s, t);
    if s != [] {
      var front, last := s[..|s| - 1], s[|s| - 1];
      assert s == front + [last];
      InsertedElements(front, t);
      ElementsSnoc(front, last);
      ElementsSnoc(Inserted(front, t), last);
    }
  }

  lemma {:induction false} InsertedSorted(s: seq<nat>, t: nat)
    requires StrictlySorted(s) && t !in s
    ensures StrictlySorted(Inserted(s, t))
    decreases |s|
  {
    if s != [] {
      var front, last := s[..|s| - 1], s[|s| - 1];
      if last > t {
        InsertedSorted(front, t);
        InsertedElements(front, t);
        AllBelow(Inserted(front, t), front, t, last);
      }
    }
  }

  lemma AllBelow(r: seq<nat>, front: seq<nat>, t: nat, last: nat)
    requires Elements(r) == Elements(front) + {t} && t < last
    requires forall i :: 0 <= i < |front| ==> front[i] < last
    ensures forall i :: 0 <= i < |r| ==> r[i] < last
  {
    forall i | 0 <= i < |r| ensures r[i] < last {
      assert r[i] in Elements(r);
    }
  }

  /** A packet with its hash and time, unless the time needs more than eight bytes. */
  function Built(mac: Mac, payload: seq<byte>, ts: nat): Option<seq<byte>> {
    if ts >= Pow256(8) then None
    else Some(mac(BytesOf(ts, 8) + payload) + (BytesOf(ts, 8) + payload))
  }

  class HmacHelper {
    const mac: Mac
    const window: nat
    var timestampsSeen: seq<nat>

    constructor (mac: Mac, window: nat)
      ensures this.mac == mac && this.window == window && timestampsSeen == []
    {
      this.mac, this.window, timestampsSeen := mac, window, [];
    }

    /** Fails if the time does not fit its eight bytes. */
    method BuildMessage(payload: seq<byte>, ts: nat) returns (pkt: Option<seq<byte>>)
      ensures pkt == Built(mac, payload, ts)
    {
      if ts >= Pow256(8) {
        return None;
      }
      var msg := BytesOf(ts, 8) + payload;
      pkt := Some(mac(msg) + msg);
    }

    method VerifyMessage(pkt: seq<byte>, now: int) returns (r: Outcome)
      modifies this
      ensures (timestampsSeen, r) == Next(mac, pkt, now, window, old(timestampsSeen))
    {
      if |pkt| < 40 {
        return TooShort;
      }
      var msg := pkt[32..];
      if pkt[..32] != mac(msg) {
        return BadSignature;
      }
      assert msg[..8] == pkt[32..40] && msg[8..] == pkt[40..];
      var sent := BigEndian(msg[..8]);
      var mintime, maxtime := now - window, now + window;
      Prune(mintime);
      if sent < mintime {
        return InPast(sent);
      }
      if sent > maxtime {
        return InFuture(sent);
      }
      if sent in timestampsSeen {
        return Duplicate;
      }
      Insert(sent);
      return Accepted(sent, msg[8..]);
    }

    method Prune(mintime: int)
      modifies this
      ensures timestampsSeen == Pruned(old(timestampsSeen), mintime)
    {
      var seen := timestampsSeen;
      var delcnt := 0;
      while delcnt < |seen| && seen[delcnt] < mintime
        invariant 0 <= delcnt <= |seen|
        invariant Pruned(seen, mintime) == Pruned(seen[delcnt..], mintime)
      {
        delcnt := delcnt + 1;
      }
      timestampsSeen := seen[delcnt..];
    }

    method Insert(sent: nat)
      modifies this
      ensures timestampsSeen == Inserted(old(timestampsSeen), sent)
    {
      var seen := timestampsSeen;
      var ipnt := |seen|;
      assert seen[..ipnt] == seen && seen[ipnt..] == [];
      while ipnt > 0 && sent < seen[ipnt - 1]
        invariant 0 <= ipnt <= |seen|
        invariant Inserted(seen, sent) == Inserted(seen[..ipnt], sent) + seen[ipnt..]
      {
        ipnt := ipnt - 1;
        assert seen[..ipnt + 1][..ipnt] == seen[..ipnt];
        assert [seen[ipnt]] + seen[ipnt + 1..] == seen[ipnt..];
      }
      timestampsSeen := seen[..ipnt] + [sent] + seen[ipnt..];
    }
  }

  // ---- what is built verifies --------------------------------------------------------

  /** A message is built if its time fits eight bytes; it is accepted, with its time
      and payload, exactly if the time is in the window and was not seen. */
  lemma BuiltMessageVerifies(mac: Mac, payload: seq<byte>, ts: nat, now: int, window: nat, seen: set<nat>)
    requires forall m :: |mac(m)| == 32
    ensures match Built(mac, payload, ts)
            case None => ts >= Pow256(8)
            case Some(pkt) =>
              Verdict(mac, pkt, now, window, seen) == Accepted(ts, payload)
              <==> now - window <= ts <= now + window && ts !in seen
  {
    if ts < Pow256(8) {
      var msg := BytesOf(ts, 8) + payload;
      var pkt := mac(msg) + msg;
      assert pkt[..32] == mac(msg) && pkt[32..] == msg;
      assert pkt[32..40] == BytesOf(ts, 8) && pkt[40..] == payload;
      BigEndianRoundTrip(ts, 8);
    }
  }

  // ---- the ideal verifier --------------------------------------------------------------

  datatype Arrival = Arrival(pkt: seq<byte>, now: int)

  /** Remembers every accepted timestamp for ever. */
  function Ideal(mac: Mac, pkt: seq<byte>, now: int, window: nat, ever: set<nat>): (set<nat>, Outcome) {
    var r := Verdict(mac, pkt, now, window, ever);
    (if r.Accepted? then ever + {r.time} else ever, r)
  }

  function IdealRun(mac: Mac, window: nat, run: seq<Arrival>): (r: (set<nat>, seq<Outcome>))
    ensures |r.1| == |run|
  {
    if run == [] then ({}, [])
    else
      var n := |run| - 1;
      var before := IdealRun(mac, window, run[..n]);
      var step := Ideal(mac, run[n].pkt, run[n].now, window, before.0);
      (step.0, before.1 + [step.1])
  }

  function PrunedRun(mac: Mac, window: nat, run: seq<Arrival>): (r: (seq<nat>, seq<Outcome>))
    ensures |r.1| == |run|
  {
    if run == [] then ([], [])
    else
      var n := |run| - 1;
      var before := PrunedRun(mac, window, run[..n]);
      var step := Next(mac, run[n].pkt, run[n].now, window, before.0);
      (step.0, before.1 + [step.1])
  }

  predicate ClockRuns(run: seq<Arrival>) {
    forall i, j :: 0 <= i <= j < |run| ==> run[i].now <= run[j].now
  }

  /** Signed, and its time in the window. */
  predicate Passes(mac: Mac, window: nat, a: Arrival) {
    Signed(mac, a.pkt) && a.now - window <= SentTime(a.pkt) <= a.now + window
  }

  /** Has every time below the window removed, `t` among them. */
  predicate Cuts(mac: Mac, window: nat, a: Arrival, t: nat) {
    Signed(mac, a.pkt) && a.now - window > t
  }

  /** The times of all packets that passed. */
  function Ever(mac: Mac, window: nat, run: seq<Arrival>): set<nat> {
    if run == [] then {}
    else
      var n := |run| - 1;
      Ever(mac, window, run[..n]) + if Passes(mac, window, run[n]) then {SentTime(run[n].pkt)} else {}
  }

  /** The times of packets that passed and were not cut since. */
  function Held(mac: Mac, window: nat, run: seq<Arrival>): (r: set<nat>)
    ensures r <= Ever(mac, window, run)
  {
    if run == [] then {}
    else
      var n := |run| - 1;
      (set t | t in Held(mac, window, run[..n]) && !Cuts(mac, window, run[n], t))
        + if Passes(mac, window, run[n]) then {SentTime(run[n].pkt)} else {}
  }

  /** The list holds what passed and was not cut since. */
  lemma {:induction false} ListIsHeld(mac: Mac, window: nat, run: seq<Arrival>)
    ensures var seen := PrunedRun(mac, window, run).0;
            StrictlySorted(seen) && Elements(seen) == Held(mac, window, run)
    decreases |run|
  {
    if run != [] {
      var n := |run| - 1;
      ListIsHeld(mac, window, run[..n]);
      NextHolds(mac, window, run[n], PrunedRun(mac, window, run[..n]).0);
    }
  }

  lemma NextHolds(mac: Mac, window: nat, a: Arrival, seen: seq<nat>)
    requires StrictlySorted(seen)
    ensures var next := Next(mac, a.pkt, a.now, window, seen).0;
            && StrictlySorted(next)
            && Elements(next) == (set t | t in Elements(seen) && !Cuts(mac, window, a, t))
                 + (if Passes(mac, window, a) then {SentTime(a.pkt)} else {})
  {
    if Signed(mac, a.pkt) {
      var kept := Pruned(seen, a.now - window);
      assert Elements(kept) == set t | t in Elements(seen) && !Cuts(mac, window, a, t);
      var t := SentTime(a.pkt);
      if Next(mac, a.pkt, a.now, window, seen).1.Accepted? {
        InsertedSorted(kept, t);
        InsertedElements(kept, t);
      }
    } else {
      assert Elements(seen) == set t | t in Elements(seen) && !Cuts(mac, window, a, t);
    }
  }

  /** The ideal verifier knows everything that passed. */
  lemma {:induction false} IdealIsEver(mac: Mac, window: nat, run: seq<Arrival>)
    ensures IdealRun(mac, window, run).0 == Ever(mac, window, run)
    decreases |run|
  {
    if run != [] {
      IdealIsEver(mac, window, run[..|run| - 1]);
    }
  }

  /** After any history, with any clock, the verdict on the next packet is the ideal
      one unless the packet passes, its time passed before, and was cut since. */
  lemma NextVerdict(mac: Mac, window: nat, run: seq<Arrival>, a: Arrival)
    ensures Next(mac, a.pkt, a.now, window, PrunedRun(mac, window, run).0).1
         == Ideal(mac, a.pkt, a.now, window, IdealRun(mac, window, run).0).1
       <==> !(Passes(mac, window, a) && SentTime(a.pkt) in Ever(mac, window, run) && SentTime(a.pkt) !in Held(mac, window, run))
  {
    ListIsHeld(mac, window, run);
    IdealIsEver(mac, window, run);
    VerdictFromList(mac, window, PrunedRun(mac, window, run).0, Ever(mac, window, run), a);
  }

  lemma VerdictFromList(mac: Mac, window: nat, seen: seq<nat>, ever: set<nat>, a: Arrival)
    requires StrictlySorted(seen) && Elements(seen) <= ever
    ensures Next(mac, a.pkt, a.now, window, seen).1 == Ideal(mac, a.pkt, a.now, window, ever).1
       <==> !(Passes(mac, window, a) && SentTime(a.pkt) in ever && SentTime(a.pkt) !in Elements(seen))
  {
    if Signed(mac, a.pkt) {
      var t := SentTime(a.pkt);
      var kept := Pruned(seen, a.now - window);
      assert t in Elements(kept) <==> t in seen && t >= a.now - window;
    }
  }

  // ---- when forgetting shows ----------------------------------------------------------------

  /** The last packet passes with a time that passed before and was cut since. */
  predicate LastForgotten(mac: Mac, window: nat, run: seq<Arrival>)
    requires run != []
  {
    var n := |run| - 1;
    Passes(mac, window, run[n]) &&
    var t := SentTime(run[n].pkt);
    t in Ever(mac, window, run[..n]) && t !in Held(mac, window, run[..n])
  }

  predicate NeverForgotten(mac: Mac, window: nat, run: seq<Arrival>)
    decreases |run|
  {
    run == [] || (NeverForgotten(mac, window, run[..|run| - 1]) && !LastForgotten(mac, window, run))
  }

  lemma {:induction false} SameVerdicts(mac: Mac, window: nat, run: seq<Arrival>)
    ensures PrunedRun(mac, window, run).1 == IdealRun(mac, window, run).1 <==> NeverForgotten(mac, window, run)
    decreases |run|
  {
    if run != [] {
      var n := |run| - 1;
      SameVerdicts(mac, window, run[..n]);
      NextVerdict(mac, window, run[..n], run[n]);
      LastDecides(PrunedRun(mac, window, run[..n]).1, IdealRun(mac, window, run[..n]).1,
        Next(mac, run[n].pkt, run[n].now, window, PrunedRun(mac, window, run[..n]).0).1,
        Ideal(mac, run[n].pkt, run[n].now, window, IdealRun(mac, window, run[..n]).0).1);
    }
  }

  lemma LastDecides(a: seq<Outcome>, b: seq<Outcome>, x: Outcome, y: Outcome)
    requires |a| == |b|
    ensures a + [x] == b + [y] <==> a == b && x == y
  {
    assert (a + [x])[..|a|] == a && (b + [y])[..|b|] == b;
    assert (a + [x])[|a|] == x && (b + [y])[|b|] == y;
  }

  /** Packet k repeats the time of packet i, both in the window when they came, and
      packet j between them had that time cut. */
  predicate CutReplay(mac: Mac, window: nat, run: seq<Arrival>, i: int, j: int, k: int) {
    && 0 <= i < j < k < |run|
    && Passes(mac, window, run[i]) && Passes(mac, window, run[k])
    && SentTime(run[i].pkt) == SentTime(run[k].pkt)
    && Cuts(mac, window, run[j], SentTime(run[i].pkt))
  }

  lemma {:induction false} EverPassed(mac: Mac, window: nat, run: seq<Arrival>, t: nat) returns (i: nat)
    requires t in Ever(mac, window, run)
    ensures i < |run| && Passes(mac, window, run[i]) && SentTime(run[i].pkt) == t
    decreases |run|
  {
    var n := |run| - 1;
    if Passes(mac, window, run[n]) && SentTime(run[n].pkt) == t {
      i := n;
    } else {
      i := EverPassed(mac, window, run[..n], t);
    }
  }

  lemma {:induction false} PassedEver(mac: Mac, window: nat, run: seq<Arrival>, i: nat)
    requires i < |run| && Passes(mac, window, run[i])
    ensures SentTime(run[i].pkt) in Ever(mac, window, run)
    decreases |run|
  {
    if i < |run| - 1 {
      PassedEver(mac, window, run[..|run| - 1], i);
    }
  }

  /** A time that passed and is not held was cut after it passed. */
  lemma {:induction false} LostWasCut(mac: Mac, window: nat, run: seq<Arrival>, t: nat) returns (i: nat, j: nat)
    requires t in Ever(mac, window, run) && t !in Held(mac, window, run)
    ensures i < j < |run| && Passes(mac, window, run[i]) && SentTime(run[i].pkt) == t && Cuts(mac, window, run[j], t)
    decreases |run|
  {
    var n := |run| - 1;
    if t in Held(mac, window, run[..n]) {
      i := EverPassed(mac, window, run[..n], t);
      j := n;
    } else {
      i, j := LostWasCut(mac, window, run[..n], t);
    }
  }

  /** A time that was cut stays lost while nothing is forgotten. */
  lemma {:induction false} CutStaysLost(mac: Mac, window: nat, run: seq<Arrival>, i: nat, j: nat)
    requires NeverForgotten(mac, window, run) && i < j < |run|
    requires Passes(mac, window, run[i]) && Cuts(mac, window, run[j], SentTime(run[i].pkt))
    ensures SentTime(run[i].pkt) in Ever(mac, window, run) && SentTime(run[i].pkt) !in Held(mac, window, run)
    decreases |run|
  {
    PassedEver(mac, window, run, i);
    var n := |run| - 1;
    if j < n {
      CutStaysLost(mac, window, run[..n], i, j);
    }
  }

  lemma {:induction false} NeverForgottenBefore(mac: Mac, window: nat, run: seq<Arrival>, k: nat)
    requires NeverForgotten(mac, window, run) && k <= |run|
    ensures NeverForgotten(mac, window, run[..k])
    decreases |run|
  {
    if k == |run| {
      assert run[..k] == run;
    } else {
      var n := |run| - 1;
      NeverForgottenBefore(mac, window, run[..n], k);
      assert run[..n][..k] == run[..k];
    }
  }

  lemma CutReplayForgets(mac: Mac, window: nat, run: seq<Arrival>, i: nat, j: nat, k: nat)
    requires CutReplay(mac, window, run, i, j, k)
    ensures !NeverForgotten(mac, window, run)
  {
    assert run[..k + 1][..k] == run[..k];
    if NeverForgotten(mac, window, run) {
      NeverForgottenBefore(mac, window, run, k);
      NeverForgottenBefore(mac, window, run, k + 1);
      CutStaysLost(mac, window, run[..k], i, j);
    }
  }

  lemma {:induction false} ForgottenWasCut(mac: Mac, window: nat, run: seq<Arrival>) returns (i: nat, j: nat, k: nat)
    requires !NeverForgotten(mac, window, run)
    ensures CutReplay(mac, window, run, i, j, k)
    decreases |run|
  {
    var n := |run| - 1;
    if NeverForgotten(mac, window, run[..n]) {
      i, j := LostWasCut(mac, window, run[..n], SentTime(run[n].pkt));
      k := n;
    } else {
      i, j, k := ForgottenWasCut(mac, window, run[..n]);
    }
  }

  /** For any run and any clock: forgetting old timestamps changes no verdict exactly
      if no packet repeats a time that passed and that a packet in between had cut. */
  lemma PrunedIsIdealExactly(mac: Mac, window: nat, run: seq<Arrival>)
    ensures PrunedRun(mac, window, run).1 == IdealRun(mac, window, run).1
       <==> forall i, j, k :: !CutReplay(mac, window, run, i, j, k)
  {
    SameVerdicts(mac, window, run);
    if NeverForgotten(mac, window, run) {
      forall i, j, k ensures !CutReplay(mac, window, run, i, j, k) {
        if CutReplay(mac, window, run, i, j, k) { CutReplayForgets(mac, window, run, i, j, k); }
      }
    } else {
      var i, j, k := ForgottenWasCut(mac, window, run);
    }
  }

  // ---- a clock that does not go back ----------------------------------------------------------

  /** The lowest time the last signed packet could have. */
  function Floor(mac: Mac, window: nat, run: seq<Arrival>): int
    requires run != []
  {
    var n := |run| - 1;
    if n == 0 || Signed(mac, run[n].pkt) then run[n].now - window else Floor(mac, window, run[..n])
  }

  lemma {:induction false} HeldInWindow(mac: Mac, window: nat, run: seq<Arrival>)
    requires ClockRuns(run) && run != []
    ensures Floor(mac, window, run) <= run[|run| - 1].now - window
    ensures forall t :: t in Held(mac, window, run) ==> Floor(mac, window, run) <= t <= Floor(mac, window, run) + 2 * window
    decreases |run|
  {
    var n := |run| - 1;
    if n > 0 {
      HeldInWindow(mac, window, run[..n]);
    }
  }

  /** While the clock does not go back, forgetting old timestamps changes no
      verdict, and the list stays sorted and no longer than the window. */
  lemma PrunedIsIdeal(mac: Mac, window: nat, run: seq<Arrival>)
    requires ClockRuns(run)
    ensures PrunedRun(mac, window, run).1 == IdealRun(mac, window, run).1
    ensures var seen := PrunedRun(mac, window, run).0; StrictlySorted(seen) && |seen| <= 2 * window + 1
  {
    PrunedIsIdealExactly(mac, window, run);
    ListIsHeld(mac, window, run);
    var seen := PrunedRun(mac, window, run).0;
    if seen != [] {
      HeldInWindow(mac, window, run);
      SortedSpread(seen, |seen| - 1);
      assert seen[0] in Elements(seen) && seen[|seen| - 1] in Elements(seen);
    }
  }

  lemma {:induction false} SortedSpread(s: seq<nat>, k: nat)
    requires StrictlySorted(s) && k < |s|
    ensures s[k] >= s[0] + k
    decreases k
  {
    if k > 0 { SortedSpread(s, k - 1); }
  }

  /** With a clock that goes back, a packet can be accepted twice. */
  lemma ReplayAfterClockGoesBack(mac: Mac, p: seq<byte>, q: seq<byte>, window: nat, t: nat)
    requires Signed(mac, p) && Signed(mac, q) && SentTime(p) == t && SentTime(q) == t + 2 * window + 1
    ensures var run := [Arrival(p, t), Arrival(q, t + 2 * window + 1), Arrival(p, t)];
            CutReplay(mac, window, run, 0, 1, 2) &&
            PrunedRun(mac, window, run).1[2] == Accepted(t, p[40..]) && IdealRun(mac, window, run).1[2] == Duplicate
  {
    var late := t + 2 * window + 1;
    var two := [Arrival(p, t), Arrival(q, late)];
    AfterTwo(mac, p, q, window, t);
    RunSnoc(mac, window, two, Arrival(p, t));
    assert two + [Arrival(p, t)] == [Arrival(p, t), Arrival(q, late), Arrival(p, t)];
  }

  lemma AfterOne(mac: Mac, p: seq<byte>, window: nat, t: nat)
    requires Signed(mac, p) && SentTime(p) == t
    ensures PrunedRun(mac, window, [Arrival(p, t)]).0 == [t] && IdealRun(mac, window, [Arrival(p, t)]).0 == {t}
  {
    var none: seq<Arrival> := [];
    RunSnoc(mac, window, none, Arrival(p, t));
    assert none + [Arrival(p, t)] == [Arrival(p, t)];
    assert Pruned([], t - window) == [] && Inserted([], t) == [t];
  }

  lemma AfterTwo(mac: Mac, p: seq<byte>, q: seq<byte>, window: nat, t: nat)
    requires Signed(mac, p) && Signed(mac, q) && SentTime(p) == t && SentTime(q) == t + 2 * window + 1
    ensures var run := [Arrival(p, t), Arrival(q, t + 2 * window + 1)];
            PrunedRun(mac, window, run).0 == [t + 2 * window + 1] && t in IdealRun(mac, window, run).0
  {
    var late := t + 2 * window + 1;
    AfterOne(mac, p, window, t);
    RunSnoc(mac, window, [Arrival(p, t)], Arrival(q, late));
    assert [Arrival(p, t)] + [Arrival(q, late)] == [Arrival(p, t), Arrival(q, late)];
    SecondPacket(mac, q, window, t);
  }

  lemma SecondPacket(mac: Mac, q: seq<byte>, window: nat, t: nat)
    requires Signed(mac, q) && SentTime(q) == t + 2 * window + 1
    ensures var late := t + 2 * window + 1;
            Next(mac, q, late, window, [t]).0 == [late] && t in Ideal(mac, q, late, window, {t}).0
  {
    var late := t + 2 * window + 1;
    CutAll(t, late - window);
    assert Inserted([], late) == [late];
  }

  lemma CutAll(t: nat, min: int)
    requires t < min
    ensures Pruned([t], min) == [] && Inserted([], t) == [t]
  {
    assert [t][1..] == [];
  }

  lemma RunSnoc(mac: Mac, window: nat, run: seq<Arrival>, a: Arrival)
    ensures var (seen, outcomes) := PrunedRun(mac, window, run);
            var step := Next(mac, a.pkt, a.now, window, seen);
            PrunedRun(mac, window, run + [a]).0 == step.0 && PrunedRun(mac, window, run + [a]).1 == outcomes + [step.1]
    ensures var (ever, outcomes) := IdealRun(mac, window, run);
            var step := Ideal(mac, a.pkt, a.now, window, ever);
            IdealRun(mac, window, run + [a]).0 == step.0 && IdealRun(mac, window, run + [a]).1 == outcomes + [step.1]
  {
    assert (run + [a])[..|run|] == run;
  }
}
