/** What the event dispatcher does with the packets it takes in, over whole runs:
    none is lost without trace, none is invented, and order is kept. Both hold of every run
    exactly when the frame size is not 1. */
module EvtConservation {
  import opened EvtDispatcher
  import opened Subsequences

  predicate SizeIs(trace: seq<Input>, n: Size) {
    forall i <- trace :: i.size == n
  }

  /** The frame size may be changed at any clock, but never to 1. */
  predicate NeverSizeOne(trace: seq<Input>) {
    forall i <- trace :: i.size != 1
  }

  function Bit(b: bool): nat { if b then 1 else 0 }

  /** Every packet taken in has been delivered, sits in one of the two registers, was dropped
      with the drop counter enabled, or was overwritten by a tick frame unseen. */
  predicate Conserved(w: World) {
    |w.log.accepted| ==
      |w.log.delivered| + Bit(w.regs.evtVld) + Bit(w.regs.rtgRdy)
      + w.log.counted + Bit(w.regs.outDrp) + w.log.silent
  }

  /** The credit for one last event is reached only with an event held to spend it on. */
  predicate CreditHeld(s: Regs) { s.frmCnt == 1 ==> s.rtgRdy }

  lemma {:induction false} ConservationInvariant(s0: Regs, trace: seq<Input>)
    requires IsReset(s0) && NeverSizeOne(trace)
    ensures Conserved(Run(s0, trace)) && CreditHeld(Run(s0, trace).regs)
  {
    if trace == [] {
    } else {
      ConservationInvariant(s0, trace[..|trace| - 1]);
      assert trace[|trace| - 1] in trace;
    }
  }

  /** With frames of size 1 the second disjunct of snd_frame fires with nothing held: two
      clocks after reset a beat is on the output although no packet ever arrived. */
  lemma {:induction false} SizeOneInventsABeat(s0: Regs, i: Input)
    requires IsReset(s0) && i.size == 1 && !i.pktVld
    ensures var w := Run(s0, [i, i]); w.regs.evtVld && w.log.accepted == []
    ensures !Conserved(Run(s0, [i, i]))
  {
    RunSnoc(s0, [], i);
    RunSnoc(s0, [i], i);
    assert [] + [i] == [i] && [i] + [i] == [i, i];
  }

  /** MAIN RESULT. Packets are conserved in every run exactly when the frame size is not 1. */
  lemma ConservationIffSizeNotOne(n: Size)
    ensures (forall s0, trace :: IsReset(s0) && SizeIs(trace, n) ==> Conserved(Run(s0, trace))) <==> n != 1
  {
    if n != 1 {
      forall s0, trace | IsReset(s0) && SizeIs(trace, n)
        ensures Conserved(Run(s0, trace))
      {
        ConservationInvariant(s0, trace);
      }
    } else {
      var i, s0 := QuietInput(n), AnyReset();
      SizeOneInventsABeat(s0, i);
      assert SizeIs([i, i], n);
    }
  }

  function QuietInput(n: Size): Input {
    Input(false, 0, 0, 0, seq(NUM_DSREGS, _ => DistillerReg(0, 0, 0)), 1, n, true)
  }

  function AnyReset(): Regs {
    Regs(false, 0, false, 0, US_CLK_CNT, 0, 0, false, false, false)
  }

  /** The drop counter accounts for every lost packet exactly when no tick frame ever
      overwrote a busy output with one of an arriving packet and a held event missing. */
  lemma DropCounterExactIff(s0: Regs, trace: seq<Input>)
    requires IsReset(s0) && NeverSizeOne(trace)
    ensures var w := Run(s0, trace);
            var lost := |w.log.accepted| - |w.log.delivered| - Bit(w.regs.evtVld) - Bit(w.regs.rtgRdy);
            && lost >= w.log.counted + Bit(w.regs.outDrp)
            && (lost == w.log.counted + Bit(w.regs.outDrp) <==>
                forall k :: 0 <= k < |trace| ==> !SilentAt(s0, trace, k))
  {
    ConservationInvariant(s0, trace);
    SilentCount(s0, trace);
  }

  predicate SilentAt(s0: Regs, trace: seq<Input>, k: nat)
    requires k < |trace|
  {
    SilentLoss(Run(s0, trace[..k]).regs, trace[k])
  }

  lemma {:induction false} SilentCount(s0: Regs, trace: seq<Input>)
    ensures Run(s0, trace).log.silent == 0 <==> forall k :: 0 <= k < |trace| ==> !SilentAt(s0, trace, k)
  {
    if trace == [] {
    } else {
      var n := |trace| - 1;
      var t := trace[..n];
      SilentCount(s0, t);
      forall k | 0 <= k < n
        ensures SilentAt(s0, t, k) == SilentAt(s0, trace, k)
      {
        assert t[..k] == trace[..k];
      }
      assert SilentAt(s0, trace, n) == SilentLoss(Run(s0, t).regs, trace[n]);
    }
  }

  // ---------------------------------------------------------------------------
  // Order
  // ---------------------------------------------------------------------------

  function Values(beats: seq<Beat>): seq<bv32> {
    seq(|beats|, k requires 0 <= k < |beats| => beats[k].data)
  }

  function Pending(s: Regs): seq<bv32> { if s.evtVld then [s.evtData] else [] }

  function Held(s: Regs): seq<bv32> { if s.rtgRdy then [s.rtgEvent] else [] }

  /** Everything that has left the dispatcher or still can, oldest first. */
  function Outputs(w: World): seq<bv32> {
    Values(w.log.delivered) + Pending(w.regs) + Held(w.regs)
  }

  predicate InOrder(w: World) { IsSubsequence(Outputs(w), w.log.accepted) }

  lemma {:induction false} OrderInvariant(s0: Regs, trace: seq<Input>)
    requires IsReset(s0) && NeverSizeOne(trace)
    ensures InOrder(Run(s0, trace))
  {
    if trace == [] {
      assert Outputs(Run(s0, trace)) == [];
    } else {
      var w, i := Run(s0, trace[..|trace| - 1]), trace[|trace| - 1];
      OrderInvariant(s0, trace[..|trace| - 1]);
      ConservationInvariant(s0, trace[..|trace| - 1]);
      OrderStep(w, i);
    }
  }

  /** Each of `out` is the event of the packet at its position, and the positions strictly
      increase, so no packet is taken twice and none overtakes another. */
  predicate Positioned(at: seq<nat>, out: seq<bv32>, packets: seq<Input>) {
    && |at| == |out|
    && (forall k :: 0 <= k < |at| ==> at[k] < |packets| && EventOf(packets[at[k]], out[k]))
    && (forall j, k :: 0 <= j < k < |at| ==> at[j] < at[k])
  }

  ghost predicate FromPackets(out: seq<bv32>, packets: seq<Input>) {
    exists at: seq<nat> :: Positioned(at, out, packets)
  }

  /** Position by position, for a frame size that may change but is never 1. */
  lemma OrderPositions(s0: Regs, trace: seq<Input>) returns (at: seq<nat>)
    requires IsReset(s0) && NeverSizeOne(trace)
    ensures Positioned(at, Outputs(Run(s0, trace)), Packets(trace))
  {
    OrderInvariant(s0, trace);
    EveryPacketTaken(s0, trace);
    var w := Run(s0, trace);
    hide Run, Outputs, IsSubsequence, EventOf;
    at := Positions(Outputs(w), w.log.accepted);
    forall k | 0 <= k < |at|
      ensures at[k] < |Packets(trace)| && EventOf(Packets(trace)[at[k]], Outputs(w)[k])
    {
      assert w.log.accepted[at[k]] == Outputs(w)[k];
    }
  }

  function Arrival(s: Regs, i: Input): seq<bv32> { if PktAvailable(s, i) then [NewEvent(i)] else [] }

  lemma ValuesSnoc(d: seq<Beat>, b: Beat)
    ensures Values(d + [b]) == Values(d) + [b.data]
  {
  }

  lemma OutputsWhenFree(w: World, i: Input)
    requires CreditHeld(w.regs) && !Busy(w.regs, i)
    ensures Outputs(Advance(w, i)) == Outputs(w) + Arrival(w.regs, i)
  {
    hide NewEvent, Values;
    var s := w.regs;
    if s.evtVld {
      ValuesSnoc(w.log.delivered, Beat(s.evtData, s.evtLast, w.log.credit));
    }
    var d := Values(Advance(w, i).log.delivered);
    assert d == Values(w.log.delivered) + Pending(s);
    assert Pending(Step(s, i)) + Held(Step(s, i)) == Held(s) + Arrival(s, i);
  }

  lemma OutputsWhenBusy(w: World, i: Input)
    requires Busy(w.regs, i)
    ensures Outputs(Advance(w, i)) == Kept(w, i) + Arrival(w.regs, i)
  {
    hide NewEvent, Values;
  }

  lemma OrderStep(w: World, i: Input)
    requires InOrder(w) && CreditHeld(w.regs)
    ensures InOrder(Advance(w, i))
  {
    hide IsSubsequence, Outputs, NewEvent, Step;
    var kept := Kept(w, i);
    KeptInOrder(w, i);
    if Busy(w.regs, i) {
      OutputsWhenBusy(w, i);
    } else {
      OutputsWhenFree(w, i);
    }
    if PktAvailable(w.regs, i) {
      ExtendStream(kept, w.log.accepted, NewEvent(i));
    } else {
      assert kept + [] == kept;
    }
  }

  /** What a clock keeps of the outputs: a tick frame overwrites a busy output; an arriving
      packet overwrites the held event when the output is busy. */
  function Kept(w: World, i: Input): seq<bv32> {
    var s, d := w.regs, Values(w.log.delivered);
    if Busy(s, i) && TickFrame(s, i) then d + Held(s)
    else if Busy(s, i) && PktAvailable(s, i) then d + Pending(s)
    else Outputs(w)
  }

  lemma KeptInOrder(w: World, i: Input)
    requires InOrder(w)
    ensures IsSubsequence(Kept(w, i), w.log.accepted)
  {
    var s, d := w.regs, Values(w.log.delivered);
    if Busy(s, i) && TickFrame(s, i) {
      DropOne(d, s.evtData, Held(s), w.log.accepted);
    } else if Busy(s, i) && PktAvailable(s, i) {
      if s.rtgRdy {
        var a := d + Pending(s);
        assert a + [s.rtgEvent] + [] == Outputs(w) && a + [] == a;
        DropOne(a, s.rtgEvent, [], w.log.accepted);
      } else {
        assert d + Pending(s) == Outputs(w);
      }
    }
  }

  /** MAIN RESULT. In every run the delivered beats, the pending beat and the held event are the
      events of distinct packets in arrival order, exactly when the frame size is not 1. */
  lemma OrderIffSizeNotOne(n: Size)
    ensures (forall s0, trace :: IsReset(s0) && SizeIs(trace, n) ==>
               FromPackets(Outputs(Run(s0, trace)), Packets(trace))) <==> n != 1
  {
    if n != 1 {
      forall s0, trace | IsReset(s0) && SizeIs(trace, n)
        ensures FromPackets(Outputs(Run(s0, trace)), Packets(trace))
      {
        var at := OrderPositions(s0, trace);
      }
    } else {
      var i, s0 := QuietInput(n), AnyReset();
      SizeOneInventsABeat(s0, i);
      assert SizeIs([i, i], n) && Outputs(Run(s0, [i, i])) != [];
      EveryPacketTaken(s0, [i, i]);
      NothingFromNoPacket(Outputs(Run(s0, [i, i])), Packets([i, i]));
    }
  }

  lemma NothingFromNoPacket(out: seq<bv32>, packets: seq<Input>)
    requires out != [] && packets == []
    ensures !FromPackets(out, packets)
  {
    forall at: seq<nat>
      ensures !Positioned(at, out, packets)
    {
      if |at| == |out| {
        assert !(at[0] < |packets|);
      }
    }
  }
}
