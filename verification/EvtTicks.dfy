/** The ticks of the event dispatcher, the frames they close, and the packets they lose. */
module EvtTicks {
  import opened Arithmetic
  import opened EvtDispatcher
  import opened EvtConservation
  import opened EvtFrames

  // ---------------------------------------------------------------------------
  // When ticks happen
  // ---------------------------------------------------------------------------

  predicate TickIs(trace: seq<Input>, t: Tick) {
    forall i <- trace :: i.tick == t
  }

  /** Clocks from one frame tick to the next. */
  function Period(t: Tick): (p: nat)
    ensures p >= 1
  {
    if t == 0 then 1 else 75 * t
  }

  /** The two tick counters, `n` clocks after reset. */
  predicate TickState(s: Regs, n: nat, t: Tick)
    requires t >= 1
  {
    var r := n % Period(t);
    && s.usCnt == 74 - n % 75
    && r % 75 == n % 75
    && s.tckCnt == if r == 0 then 0 else t - r / 75
  }

  lemma TickStep(s: Regs, n: nat, t: Tick, i: Input)
    requires t >= 1 && i.tick == t && TickState(s, n, t)
    ensures TickState(Step(s, i), n + 1, t)
  {
    var r := n % Period(t);
    NextPhase(n, Period(t));
    NextPhase(n, 75);
    if r % 75 == 74 {
      assert r + 1 == 75 * (r / 75 + 1);
    } else {
      assert (r + 1) / 75 == r / 75 && (r + 1) % 75 == r % 75 + 1;
    }
  }

  lemma TickAtReset(s: Regs, t: Tick)
    requires IsReset(s) && t >= 1
    ensures TickState(s, 0, t)
  {
    Remainder(0, Period(t), 0, 0);
  }

  lemma TickWhenZero(s: Regs, n: nat, t: Tick)
    requires t >= 1 && TickState(s, n, t)
    ensures s.tckCnt == 0 <==> n % Period(t) == 0
  {
  }

  /** MAIN RESULT. Closed form of both counters, whatever the traffic. */
  lemma {:induction false} TickClosedForm(s0: Regs, trace: seq<Input>, t: Tick)
    requires IsReset(s0) && TickIs(trace, t) && t >= 1
    ensures TickState(Run(s0, trace).regs, |trace|, t)
    ensures Run(s0, trace).regs.tckCnt == 0 <==> |trace| % Period(t) == 0
  {
    hide Step, TickState, Period, IsReset;
    if trace == [] {
      TickAtReset(s0, t);
    } else {
      var n := |trace| - 1;
      TickClosedForm(s0, trace[..n], t);
      TickStep(Run(s0, trace[..n]).regs, n, t, trace[n]);
    }
    TickWhenZero(Run(s0, trace).regs, |trace|, t);
  }

  /** A tick period of 0 makes every clock a tick. */
  lemma {:induction false} TickZero(s0: Regs, trace: seq<Input>)
    requires IsReset(s0) && TickIs(trace, 0)
    ensures Run(s0, trace).regs.tckCnt == 0
  {
    if trace == [] {
    } else {
      TickZero(s0, trace[..|trace| - 1]);
      assert trace[|trace| - 1] in trace;
    }
  }

  /** Clock `n` is a tick exactly when it is a multiple of the period, 0 included. */
  lemma TickClocks(s0: Regs, trace: seq<Input>, t: Tick)
    requires IsReset(s0) && TickIs(trace, t)
    ensures Run(s0, trace).regs.tckCnt == 0 <==> |trace| % Period(t) == 0
  {
    if t == 0 {
      TickZero(s0, trace);
    } else {
      TickClosedForm(s0, trace, t);
    }
  }

  /** The first tick at or after clock `k`. */
  function NextTick(k: nat, t: Tick): (u: nat)
    ensures k <= u < k + Period(t) && u % Period(t) == 0
  {
    NextMultiple(k, Period(t))
  }

  // ---------------------------------------------------------------------------
  // Every frame fits between two ticks
  // ---------------------------------------------------------------------------

  /** Some beat of a frame is on the output or delivered, and its last beat is not. */
  predicate FrameOpen(w: World) {
    !ClosingPending(w.regs) && (w.regs.evtVld || OpenLength(w.log.delivered) > 0)
  }

  /** Clocks completed since the last tick, before clock `n`. */
  function SinceTick(n: nat, p: nat): nat
    requires p >= 1
  {
    if n == 0 then 0 else (n - 1) % p
  }

  /** An open frame has an event held for its last beat, and at most a beat for every clock since
      the last tick; a frame whose last beat is pending has at most a beat for every clock of a
      period. */
  predicate TickInvariant(w: World, n: nat, p: nat)
    requires p >= 1
  {
    var open := OpenLength(w.log.delivered);
    && AtMost(w.log.delivered, p)
    && (FrameOpen(w) ==> w.regs.rtgRdy)
    && (if ClosingPending(w.regs) then open + 1 <= p else open + Bit(w.regs.evtVld) <= SinceTick(n, p))
  }

  lemma TickInvariantStep(w: World, i: Input, n: nat, p: nat)
    requires p >= 1 && TickInvariant(w, n, p) && (w.regs.tckCnt == 0 <==> n % p == 0)
    ensures TickInvariant(Advance(w, i), n + 1, p)
  {
    hide NewEvent, AtMost;
    var s := w.regs;
    if n > 0 {
      NextPhase(n - 1, p);
    }
    assert SinceTick(n + 1, p) == if n % p == 0 then 0 else SinceTick(n, p) + 1;
    if s.evtVld && i.evtRdy {
      DeliveryKeepsBound(w.log.delivered, Beat(s.evtData, s.evtLast, w.log.credit), p);
    }
  }

  lemma {:induction false} TickInvariantHolds(s0: Regs, trace: seq<Input>, t: Tick)
    requires IsReset(s0) && TickIs(trace, t)
    ensures TickInvariant(Run(s0, trace), |trace|, Period(t))
  {
    if trace == [] {
    } else {
      hide TickInvariant;
      var before := trace[..|trace| - 1];
      TickInvariantHolds(s0, before, t);
      TickClocks(s0, before, t);
      TickInvariantStep(Run(s0, before), trace[|trace| - 1], |before|, Period(t));
    }
  }

  // ---------------------------------------------------------------------------
  // The longest frame
  // ---------------------------------------------------------------------------

  /** The longest frame of size `n` and tick period `t`: credit closes it or the tick does,
      whichever comes first; a size of 0 leaves it to the tick. */
  function MaxFrame(n: Size, t: Tick): nat {
    if n == 0 || Period(t) < n then Period(t) else n
  }

  lemma FramesUpToMax(s0: Regs, trace: seq<Input>, n: Size, t: Tick)
    requires IsReset(s0) && SizeIs(trace, n) && TickIs(trace, t)
    ensures AtMost(Run(s0, trace).log.delivered, MaxFrame(n, t))
  {
    TickInvariantHolds(s0, trace, t);
    if n >= 1 {
      FrameInvariantHolds(s0, trace, n);
    }
  }

  function Repeat(i: Input, k: nat): seq<Input> { seq(k, _ => i) }

  lemma RepeatSnoc(i: Input, k: nat)
    ensures Repeat(i, k + 1) == Repeat(i, k) + [i]
  {
  }

  /** A packet and a ready DMA engine at every clock. */
  function BusyInput(n: Size, t: Tick): Input { QuietInput(n).(pktVld := true, tick := t) }

  function BusyRun(n: Size, t: Tick, k: nat): World { Run(AnyReset(), Repeat(BusyInput(n, t), k)) }

  lemma BusyNext(n: Size, t: Tick, k: nat)
    ensures BusyRun(n, t, k + 1) == Advance(BusyRun(n, t, k), BusyInput(n, t))
    ensures BusyRun(n, t, k).regs.tckCnt == 0 <==> k % Period(t) == 0
  {
    var i := BusyInput(n, t);
    RepeatSnoc(i, k);
    RunSnoc(AnyReset(), Repeat(i, k), i);
    TickClocks(AnyReset(), Repeat(i, k), t);
  }

  /** From clock 2 on an event is always held. */
  predicate Filled(s: Regs, n: Size, k: nat) {
    s.pktRdy && if k == 1 then s.frmCnt == n && !s.evtVld else s.rtgRdy
  }

  lemma FilledNext(w: World, i: Input, n: Size, k: nat)
    requires n != 1 && i == BusyInput(n, i.tick) && k >= 1 && Filled(w.regs, n, k)
    requires k == 1 ==> w.regs.tckCnt != 0
    ensures Filled(Advance(w, i).regs, n, k + 1)
  {
    hide NewEvent;
  }

  lemma FirstClock(n: Size, t: Tick)
    ensures Filled(Advance(BusyRun(n, t, 0), BusyInput(n, t)).regs, n, 1)
  {
    hide NewEvent;
    assert BusyRun(n, t, 0).regs == AnyReset();
  }

  lemma {:induction false} BusyHolds(n: Size, t: Tick, k: nat)
    requires n != 1 && t >= 1 && k >= 1
    ensures Filled(BusyRun(n, t, k).regs, n, k)
  {
    hide BusyRun, BusyInput, Filled, Advance, Period;
    BusyNext(n, t, k - 1);
    if k == 1 {
      FirstClock(n, t);
    } else {
      BusyHolds(n, t, k - 1);
      TickIsLate(t);
      AlwaysReady(n, t);
      FilledNext(BusyRun(n, t, k - 1), BusyInput(n, t), n, k - 1);
    }
  }

  lemma TickIsLate(t: Tick)
    requires t >= 1
    ensures 1 % Period(t) == 1
  {
    Remainder(1, Period(t), 0, 1);
  }

  lemma {:induction false} BusyReady(n: Size, t: Tick, k: nat)
    requires k >= 1
    ensures BusyRun(n, t, k).regs.pktRdy
  {
    BusyNext(n, t, k - 1);
  }

  /** `j` clocks after the first tick with traffic: the frame that the tick closed has left, and
      `j - 1` beats of the next one. */
  predicate Growing(w: World, n: Size, j: nat, m: nat) {
    var s := w.regs;
    && s.pktRdy && s.evtVld && s.evtLast == (j == 0) && (m > 1 ==> s.rtgRdy)
    && s.frmCnt == (if n == 0 then 0 else if n >= j then n - j else 0)
    && (j > 0 ==> OpenLength(w.log.delivered) == j - 1)
  }

  lemma TickStartsGrowing(w: World, i: Input, n: Size, m: nat)
    requires i == BusyInput(n, i.tick) && w.regs.pktRdy && w.regs.tckCnt == 0 && (m > 1 ==> w.regs.rtgRdy)
    ensures Growing(Advance(w, i), n, 0, m)
  {
    hide NewEvent, OpenLength;
  }

  lemma KeepsGrowing(w: World, i: Input, n: Size, j: nat, m: nat)
    requires i == BusyInput(n, i.tick) && w.regs.tckCnt != 0 && Growing(w, n, j, m)
    requires j + 1 < m && (n == 0 || m <= n)
    ensures Growing(Advance(w, i), n, j + 1, m)
  {
    hide NewEvent, OpenLength;
    OpenLengthSnoc(w.log.delivered, Beat(w.regs.evtData, w.regs.evtLast, w.log.credit));
  }

  lemma StopsGrowing(w: World, i: Input, n: Size, m: nat)
    requires i == BusyInput(n, i.tick) && m >= 1 && Growing(w, n, m - 1, m)
    requires w.regs.tckCnt == 0 || n == m
    ensures var v := Advance(w, i); ClosingPending(v.regs) && OpenLength(v.log.delivered) == m - 1
  {
    hide NewEvent, OpenLength;
    OpenLengthSnoc(w.log.delivered, Beat(w.regs.evtData, w.regs.evtLast, w.log.credit));
  }

  /** The clocks of the first period with traffic, up to the tick that ends it. */
  lemma BusyPeriod(n: Size, t: Tick, j: nat)
    requires j <= Period(t)
    ensures BusyRun(n, t, Period(t) + j + 1) == Advance(BusyRun(n, t, Period(t) + j), BusyInput(n, t))
    ensures BusyRun(n, t, Period(t) + j).regs.tckCnt == 0 <==> j == 0 || j == Period(t)
    ensures BusyRun(n, t, Period(t) + j).regs.pktRdy
  {
    var p := Period(t);
    hide BusyRun, Period;
    BusyNext(n, t, p + j);
    BusyReady(n, t, p + j);
    if j < p {
      Remainder(p + j, p, 1, j);
    } else {
      Remainder(p + j, p, 2, 0);
    }
  }

  lemma {:induction false} BusyGrows(n: Size, t: Tick, j: nat)
    requires j < MaxFrame(n, t)
    ensures Growing(BusyRun(n, t, Period(t) + j + 1), n, j, MaxFrame(n, t))
  {
    hide BusyRun, Growing, Advance, Period, BusyInput, MaxFrame;
    var i, m, w := BusyInput(n, t), MaxFrame(n, t), BusyRun(n, t, Period(t) + j);
    AlwaysReady(n, t);
    MaxFrameIsLeast(n, t);
    BusyPeriod(n, t, j);
    if j == 0 {
      TickStartsGrowing(w, i, n, m);
    } else {
      BusyGrows(n, t, j - 1);
      KeepsGrowing(w, i, n, j - 1, m);
    }
  }

  lemma MaxFrameIsLeast(n: Size, t: Tick)
    ensures var m := MaxFrame(n, t);
            1 <= m <= Period(t) && (n == 0 || m <= n) && (m == Period(t) || m == n)
    ensures MaxFrame(n, t) > 1 ==> BusyRun(n, t, Period(t)).regs.rtgRdy
  {
    if MaxFrame(n, t) > 1 {
      BusyHolds(n, t, Period(t));
    }
  }

  /** The frame that grows from one tick on is delivered with `MaxFrame` beats. */
  lemma MaxFrameReached(n: Size, t: Tick) returns (k: nat, b: nat)
    ensures var d := BusyRun(n, t, k).log.delivered;
            b < |d| && d[b].last && PlaceInFrame(d, b) == MaxFrame(n, t)
  {
    var m, i := MaxFrame(n, t), BusyInput(n, t);
    hide BusyRun, Growing, Advance, Period, BusyInput;
    AlwaysReady(n, t);
    BusyGrows(n, t, m - 1);
    BusyPeriod(n, t, m);
    StopsGrowing(BusyRun(n, t, Period(t) + m), i, n, m);
    k := Period(t) + m + 1;
    var v := BusyRun(n, t, k);
    BusyNext(n, t, k);
    b, k := |v.log.delivered|, k + 1;
    LastBeatLeaves(v, i);
    assert BusyRun(n, t, k).log.delivered[..b] == v.log.delivered;
  }

  lemma AlwaysReady(n: Size, t: Tick)
    ensures BusyInput(n, t).evtRdy && BusyInput(n, BusyInput(n, t).tick) == BusyInput(n, t)
  {
  }

  lemma LastBeatLeaves(w: World, i: Input)
    requires ClosingPending(w.regs) && i.evtRdy
    ensures Advance(w, i).log.delivered == w.log.delivered + [Beat(w.regs.evtData, true, w.log.credit)]
  {
    hide Step;
  }

  /** MAIN RESULT. `MaxFrame` beats is the exact bound: every frame of every run keeps within `m`
      beats precisely when `m` is at least that. */
  lemma LongestFrame(n: Size, t: Tick, m: nat)
    ensures (forall s0, trace :: IsReset(s0) && SizeIs(trace, n) && TickIs(trace, t) ==>
               AtMost(Run(s0, trace).log.delivered, m)) <==> m >= MaxFrame(n, t)
  {
    forall s0, trace | IsReset(s0) && SizeIs(trace, n) && TickIs(trace, t) && m >= MaxFrame(n, t)
      ensures AtMost(Run(s0, trace).log.delivered, m)
    {
      FramesUpToMax(s0, trace, n, t);
    }
    if m < MaxFrame(n, t) {
      var k, b := MaxFrameReached(n, t);
      var trace := Repeat(BusyInput(n, t), k);
      assert SizeIs(trace, n) && TickIs(trace, t);
      assert !AtMost(Run(AnyReset(), trace).log.delivered, m);
    }
  }

  // ---------------------------------------------------------------------------
  // Open frames close
  // ---------------------------------------------------------------------------

  predicate FrameSentAt(s0: Regs, trace: seq<Input>, u: nat)
    requires u < |trace|
  {
    SndFrame(Run(s0, trace[..u]).regs, trace[u])
  }

  /** MAIN RESULT. An open frame never waits for more traffic, whatever the frame size does: its
      last beat is put on the output no later than any tick `due` that follows; `NextTick` is one
      less than a period away. */
  lemma OpenFrameClosesByNextTick(s0: Regs, trace: seq<Input>, t: Tick, k: nat, due: nat) returns (u: nat)
    requires IsReset(s0) && TickIs(trace, t)
    requires k <= due < |trace| && due % Period(t) == 0 && FrameOpen(Run(s0, trace[..k]))
    ensures k <= u <= due && FrameSentAt(s0, trace, u)
    ensures ClosingPending(Run(s0, trace[..u + 1]).regs)
    ensures forall v :: k <= v < u ==> !FrameSentAt(s0, trace, v)
  {
    u := FirstFrame(s0, trace, t, k, due);
    FrameReachesOutput(s0, trace, u);
  }

  lemma FrameReachesOutput(s0: Regs, trace: seq<Input>, u: nat)
    requires u < |trace| && FrameSentAt(s0, trace, u)
    ensures ClosingPending(Run(s0, trace[..u + 1]).regs)
  {
    hide Run, SndFrame;
    RunSnoc(s0, trace[..u], trace[u]);
    assert trace[..u] + [trace[u]] == trace[..u + 1];
  }

  /** The first frame sent from clock `k` on: at the tick in clock `due`, if not before. */
  lemma FirstFrame(s0: Regs, trace: seq<Input>, t: Tick, k: nat, due: nat) returns (u: nat)
    requires IsReset(s0) && TickIs(trace, t)
    requires k <= due < |trace| && due % Period(t) == 0 && FrameOpen(Run(s0, trace[..k]))
    ensures k <= u <= due && FrameSentAt(s0, trace, u)
    ensures forall v :: k <= v < u ==> !FrameSentAt(s0, trace, v)
    decreases due - k
  {
    hide Run, SndFrame, FrameOpen;
    if FrameSentAt(s0, trace, k) {
      u := k;
    } else if k == due {
      TickFindsHeldEvent(s0, trace, t, k);
      u := k;
    } else {
      NoFrameStaysOpen(s0, trace, k);
      u := FirstFrame(s0, trace, t, k + 1, due);
    }
  }

  lemma NoFrameStaysOpen(s0: Regs, trace: seq<Input>, u: nat)
    requires u < |trace| && FrameOpen(Run(s0, trace[..u])) && !FrameSentAt(s0, trace, u)
    ensures FrameOpen(Run(s0, trace[..u + 1]))
  {
    hide Run, NewEvent;
    var w := Run(s0, trace[..u]);
    RunSnoc(s0, trace[..u], trace[u]);
    OpenLengthSnoc(w.log.delivered, Beat(w.regs.evtData, w.regs.evtLast, w.log.credit));
    assert trace[..u] + [trace[u]] == trace[..u + 1];
  }

  lemma TickFindsHeldEvent(s0: Regs, trace: seq<Input>, t: Tick, u: nat)
    requires IsReset(s0) && TickIs(trace, t)
    requires u < |trace| && u % Period(t) == 0 && FrameOpen(Run(s0, trace[..u]))
    ensures FrameSentAt(s0, trace, u)
  {
    TickInvariantHolds(s0, trace[..u], t);
    TickClocks(s0, trace[..u], t);
  }

  // ---------------------------------------------------------------------------
  // Losses that the drop counter does not see
  // ---------------------------------------------------------------------------

  /** No packet, and a DMA engine that is never ready. */
  function HeldUp(n: Size, t: Tick): Input { QuietInput(n).(tick := t, evtRdy := false) }

  /** Nothing happens before the first packet. */
  lemma {:induction false} NothingYet(n: Size, t: Tick, k: nat)
    requires n != 1
    ensures var s := Run(AnyReset(), Repeat(HeldUp(n, t), k)).regs;
            !s.evtVld && !s.rtgRdy && s.pktRdy == (k > 0) && s.frmCnt == if k > 0 then n else 0
  {
    if k == 0 {
    } else {
      var i := HeldUp(n, t);
      NothingYet(n, t, k - 1);
      RepeatSnoc(i, k - 1);
      RunSnoc(AnyReset(), Repeat(i, k - 1), i);
    }
  }

  /** One packet at the first tick, then nothing: its event stays on the output. */
  function OnePacket(n: Size, t: Tick, k: nat): seq<Input> {
    Repeat(HeldUp(n, t), Period(t)) + [HeldUp(n, t).(pktVld := true)] + Repeat(HeldUp(n, t), k)
  }

  /** An event waits on the output and none is held. */
  predicate Waiting(s: Regs) { s.evtVld && !s.rtgRdy && s.pktRdy }

  lemma TickSendsPacket(w: World, n: Size, t: Tick)
    requires !w.regs.evtVld && !w.regs.rtgRdy && w.regs.pktRdy && w.regs.tckCnt == 0
    ensures Waiting(Advance(w, HeldUp(n, t).(pktVld := true)).regs)
  {
    hide NewEvent;
  }

  lemma KeepsWaiting(w: World, n: Size, t: Tick)
    requires Waiting(w.regs)
    ensures Waiting(Advance(w, HeldUp(n, t)).regs)
  {
    hide NewEvent;
  }

  lemma {:induction false} StillPending(n: Size, t: Tick, k: nat)
    requires n != 1
    ensures Waiting(Run(AnyReset(), OnePacket(n, t, k)).regs)
  {
    hide Run, Advance, Waiting;
    var s0, i, quiet := AnyReset(), HeldUp(n, t), Repeat(HeldUp(n, t), Period(t));
    if k == 0 {
      var a := i.(pktVld := true);
      NothingYet(n, t, Period(t));
      TickClocks(s0, quiet, t);
      Remainder(Period(t), Period(t), 1, 0);
      RunSnoc(s0, quiet, a);
      TickSendsPacket(Run(s0, quiet), n, t);
      assert OnePacket(n, t, 0) == quiet + [a];
    } else {
      var before := OnePacket(n, t, k - 1);
      StillPending(n, t, k - 1);
      assert OnePacket(n, t, k) == before + [i];
      RunSnoc(s0, before, i);
      KeepsWaiting(Run(s0, before), n, t);
    }
  }

  lemma TickOverwritesUnseen(w: World, n: Size, t: Tick)
    requires Waiting(w.regs) && w.regs.tckCnt == 0
    ensures var a := HeldUp(n, t).(pktVld := true); SilentLoss(w.regs, a) && Advance(w, a).log.silent > 0
  {
    hide NewEvent, Step;
  }

  /** MAIN RESULT. Such losses happen: for every tick period and every frame size but 1 there is
      a run in which the drop counter misses a lost packet. */
  lemma SilentLossReachable(n: Size, t: Tick) returns (trace: seq<Input>)
    requires n != 1
    ensures SizeIs(trace, n) && TickIs(trace, t)
    ensures trace != [] && SilentAt(AnyReset(), trace, |trace| - 1) && Run(AnyReset(), trace).log.silent > 0
  {
    var s0, p, a := AnyReset(), Period(t), HeldUp(n, t).(pktVld := true);
    var before := OnePacket(n, t, p - 1);
    trace := before + [a];
    hide Run, Advance, Waiting, OnePacket, SilentLoss, Period;
    StillPending(n, t, p - 1);
    OnePacketShape(n, t);
    TickClocks(s0, before, t);
    Remainder(p + p, p, 2, 0);
    TickOverwritesUnseen(Run(s0, before), n, t);
    RunSnoc(s0, before, a);
    assert trace[..|trace| - 1] == before;
  }

  lemma OnePacketShape(n: Size, t: Tick)
    ensures var before := OnePacket(n, t, Period(t) - 1);
            |before| == Period(t) + Period(t) && SizeIs(before, n) && TickIs(before, t)
  {
  }
}
