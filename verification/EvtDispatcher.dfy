/** The output event dispatcher (spif_common/src/evt_dispatcher.sv): packets from SpiNNaker
    are distilled into events, held one at a time in a ready-to-go register, and sent to the
    DMA engine in frames that are closed by credit or by a periodic tick.

    `Step` is one clock of the whole module; `Dispatcher` is the module with its registers,
    written block by block as the source writes it, and proved to take that step. */
module EvtDispatcher {
  import opened Bits
  import opened Words

  type Size = n: nat | n < 0x400                // EVT_CNT_BITS == 10
  type Tick = n: nat | n < 0x1_0000_0000        // TCK_CNT_BITS == 32
  type Index = n: nat | n < 8                   // PKT_DIS_SZ == 3

  const US_CLK_CNT: nat := 75 - 1
  const NUM_DSREGS: nat := 6

  type Shift = n: nat | n < 32                  // DSSFT_BITS == 5

  datatype DistillerReg = DistillerReg(key: bv32, msk: bv32, sft: Shift)

  type DistillerRegs = d: seq<DistillerReg> | |d| == NUM_DSREGS
    witness seq(NUM_DSREGS, _ => DistillerReg(0, 0, 0))

  function Distill(d: DistillerReg, key: bv32): bv32 {
    Or(d.key, Shr(And(key, d.msk), d.sft))
  }

  /** What the module sees on its inputs during one clock. Reading the distiller table
      beyond its 6 entries is undefined in SystemVerilog: it gives `undef`, any value. */
  datatype Input = Input(
    pktVld: bool, pktKey: bv32, pktDis: Index, undef: bv32,
    distiller: DistillerRegs,
    tick: Tick, size: Size,
    evtRdy: bool)

  function NewEvent(i: Input): bv32 {
    if i.pktDis < NUM_DSREGS then Distill(i.distiller[i.pktDis], i.pktKey) else i.undef
  }

  /** `e` is the event of the packet that `i` brings, bit by bit: the bits of its distiller's key,
      and the bits of the packet's key under the mask, moved right. An index beyond the table
      promises nothing. */
  predicate EventOf(i: Input, e: bv32) {
    i.pktDis < 6 ==>
      var r := i.distiller[i.pktDis];
      forall b :: 0 <= b < 32 ==>
        (HasBit(e, b) <==>
         HasBit(r.key, b) || (b + r.sft < 32 && HasBit(r.msk, b + r.sft) && HasBit(i.pktKey, b + r.sft)))
  }

  lemma DistilledBits(i: Input)
    ensures EventOf(i, NewEvent(i))
  {
    hide HasBit, And, Or, Shr;
    if i.pktDis < 6 {
      var r := i.distiller[i.pktDis];
      forall b | 0 <= b < 32
        ensures HasBit(NewEvent(i), b) <==>
                HasBit(r.key, b) || (b + r.sft < 32 && HasBit(r.msk, b + r.sft) && HasBit(i.pktKey, b + r.sft))
      {
        OrBit(r.key, Shr(And(i.pktKey, r.msk), r.sft), b);
        ShrBit(And(i.pktKey, r.msk), r.sft, b);
        AndBit(i.pktKey, r.msk, b + r.sft);
        if b + r.sft >= 32 {
          BitBeyond(r.msk, b + r.sft);
        }
      }
    }
  }

  datatype Regs = Regs(
    pktRdy: bool,
    rtgEvent: bv32, rtgRdy: bool,
    frmCnt: Size, usCnt: nat, tckCnt: Tick,
    evtData: bv32, evtLast: bool, evtVld: bool,
    outDrp: bool)

  /** The state that reset leaves; the data registers and evt_last_out are not reset. */
  predicate IsReset(s: Regs) {
    && !s.pktRdy && !s.rtgRdy && !s.evtVld && !s.outDrp
    && s.frmCnt == 0 && s.tckCnt == 0 && s.usCnt == US_CLK_CNT
  }

  predicate PktAvailable(s: Regs, i: Input) { i.pktVld && s.pktRdy }

  predicate Busy(s: Regs, i: Input) { s.evtVld && !i.evtRdy }

  predicate SndEvent(s: Regs, i: Input) { PktAvailable(s, i) && s.rtgRdy && !Busy(s, i) }

  predicate TickFrame(s: Regs, i: Input) { s.tckCnt == 0 && (PktAvailable(s, i) || s.rtgRdy) }

  predicate CreditFrame(s: Regs, i: Input) { s.frmCnt == 1 && !Busy(s, i) }

  predicate SndFrame(s: Regs, i: Input) { TickFrame(s, i) || CreditFrame(s, i) }

  function Step(s: Regs, i: Input): Regs {
    var pkt := PktAvailable(s, i);
    var frame := SndFrame(s, i);
    var hold := pkt && (!frame || s.rtgRdy);
    Regs(
      true,
      if hold then NewEvent(i) else s.rtgEvent,
      if hold then true else if !pkt && frame then false else s.rtgRdy,
      if frame || s.frmCnt == 0 then i.size
      else if SndEvent(s, i) then s.frmCnt - 1
      else s.frmCnt,
      if s.usCnt == 0 then US_CLK_CNT else s.usCnt - 1,
      if s.tckCnt == 0 then i.tick else if s.usCnt == 0 then s.tckCnt - 1 else s.tckCnt,
      if SndEvent(s, i) || (frame && s.rtgRdy) then s.rtgEvent
      else if frame then NewEvent(i)
      else s.evtData,
      frame || (Busy(s, i) && s.evtLast),
      SndEvent(s, i) || frame || Busy(s, i),
      pkt && Busy(s, i) && s.rtgRdy)
  }

  // ---------------------------------------------------------------------------
  // Runs: the registers after a trace of inputs, with a log of what crossed the interfaces
  // ---------------------------------------------------------------------------

  /** One delivered beat. `credit` tells that its frame was closed because credit ran out. */
  datatype Beat = Beat(data: bv32, last: bool, credit: bool)

  datatype Log = Log(
    accepted: seq<bv32>,      // events distilled from the packets taken in
    delivered: seq<Beat>,     // beats taken by the DMA engine
    credit: bool,             // the beat on the output register was put there by a credit frame
    counted: nat,             // clocks with the drop counter enabled
    silent: nat)              // ticks that overwrite a busy output without an enabled drop

  datatype World = World(regs: Regs, log: Log)

  /** A tick frame replaces the beat on a busy output; exactly one of an arriving packet and a
      held event is there to be sent. */
  predicate SilentLoss(s: Regs, i: Input) {
    TickFrame(s, i) && Busy(s, i) && PktAvailable(s, i) != s.rtgRdy
  }

  function Record(s: Regs, l: Log, i: Input): Log {
    Log(
      if PktAvailable(s, i) then l.accepted + [NewEvent(i)] else l.accepted,
      if s.evtVld && i.evtRdy then l.delivered + [Beat(s.evtData, s.evtLast, l.credit)] else l.delivered,
      if SndFrame(s, i) then CreditFrame(s, i) else if SndEvent(s, i) then false else l.credit,
      if s.outDrp then l.counted + 1 else l.counted,
      if SilentLoss(s, i) then l.silent + 1 else l.silent)
  }

  function Advance(w: World, i: Input): World { World(Step(w.regs, i), Record(w.regs, w.log, i)) }

  function Run(s0: Regs, trace: seq<Input>): World {
    if trace == [] then World(s0, Log([], [], false, 0, 0))
    else Advance(Run(s0, trace[..|trace| - 1]), trace[|trace| - 1])
  }

  lemma RunSnoc(s0: Regs, trace: seq<Input>, i: Input)
    ensures Run(s0, trace + [i]) == Advance(Run(s0, trace), i)
  {
    assert (trace + [i])[..|trace|] == trace;
  }

  /** The packets a trace offers: every valid one from the second clock on, the module never
      stalling its input once it is out of reset. */
  function Packets(trace: seq<Input>): seq<Input> {
    if |trace| <= 1 then []
    else
      var i := trace[|trace| - 1];
      Packets(trace[..|trace| - 1]) + if i.pktVld then [i] else []
  }

  lemma {:induction false} ReadyFromSecondClock(s0: Regs, trace: seq<Input>)
    requires IsReset(s0)
    ensures Run(s0, trace).regs.pktRdy <==> trace != []
  {
  }

  /** Every packet offered is taken in, and distilled by the register that its index names. */
  lemma {:induction false} EveryPacketTaken(s0: Regs, trace: seq<Input>)
    requires IsReset(s0)
    ensures var taken, packets := Run(s0, trace).log.accepted, Packets(trace);
            |taken| == |packets| && forall k :: 0 <= k < |packets| ==> EventOf(packets[k], taken[k])
  {
    hide EventOf, NewEvent, Step;
    if trace == [] {
    } else {
      var before, i := trace[..|trace| - 1], trace[|trace| - 1];
      EveryPacketTaken(s0, before);
      ReadyFromSecondClock(s0, before);
      DistilledBits(i);
    }
  }

  // ---------------------------------------------------------------------------
  // The module itself
  // ---------------------------------------------------------------------------

  class Dispatcher {
    var pktRdy: bool
    var rtgEvent: bv32
    var rtgRdy: bool
    var frmCnt: Size
    var usCnt: nat
    var tckCnt: Tick
    var evtData: bv32
    var evtLast: bool
    var evtVld: bool
    var outDrp: bool

    ghost var atReset: Regs
    ghost var trace: seq<Input>

    function Registers(): Regs
      reads this
    {
      Regs(pktRdy, rtgEvent, rtgRdy, frmCnt, usCnt, tckCnt, evtData, evtLast, evtVld, outDrp)
    }

    /** The registers are those of the run over everything clocked in since reset. */
    ghost predicate Valid()
      reads this
    {
      IsReset(atReset) && Registers() == Run(atReset, trace).regs
    }

    constructor (data0: bv32, data1: bv32, last: bool)
      ensures Valid() && trace == [] && IsReset(Registers())
    {
      pktRdy, rtgRdy, frmCnt := false, false, 0;
      usCnt, tckCnt := US_CLK_CNT, 0;
      evtVld, outDrp := false, false;
      rtgEvent, evtData, evtLast := data0, data1, last;
      trace := [];
      atReset := Regs(false, data0, false, 0, US_CLK_CNT, 0, data1, last, false, false);
    }

    /** The ready-to-go block: hold the last event received, unless it goes out in a frame. */
    method NextReadyToGo(i: Input) returns (event: bv32, ready: bool)
      ensures event == Step(Registers(), i).rtgEvent && ready == Step(Registers(), i).rtgRdy
    {
      var pktAvailable, sndFrame := PktAvailable(Registers(), i), SndFrame(Registers(), i);
      event, ready := rtgEvent, rtgRdy;
      if (pktAvailable && !sndFrame) || (pktAvailable && rtgRdy) {
        event, ready := NewEvent(i), true;
      } else if !pktAvailable && sndFrame {
        ready := false;
      }
    }

    /** The credit block: free slots left in the open frame. */
    method NextCredit(i: Input) returns (credit: Size)
      ensures credit == Step(Registers(), i).frmCnt
    {
      credit := frmCnt;
      if SndFrame(Registers(), i) || frmCnt == 0 {
        credit := i.size;
      } else if SndEvent(Registers(), i) {
        credit := frmCnt - 1;
      }
    }

    /** The two tick blocks: a microsecond divider, and a frame tick counted in microseconds. */
    method NextTicks(i: Input) returns (us: nat, tick: Tick)
      ensures us == Step(Registers(), i).usCnt && tick == Step(Registers(), i).tckCnt
    {
      us := if usCnt == 0 then US_CLK_CNT else usCnt - 1;
      tick := tckCnt;
      if tckCnt == 0 {
        tick := i.tick;
      } else if usCnt == 0 {
        tick := tckCnt - 1;
      }
    }

    /** The output interface blocks: data, last and valid are three separate registers. */
    method NextOutput(i: Input) returns (data: bv32, last: bool, vld: bool)
      ensures var t := Step(Registers(), i); data == t.evtData && last == t.evtLast && vld == t.evtVld
    {
      var sndEvent, sndFrame := SndEvent(Registers(), i), SndFrame(Registers(), i);
      var busy := Busy(Registers(), i);
      data, last, vld := evtData, evtLast, evtVld;
      if sndEvent || (rtgRdy && sndFrame) {
        data := rtgEvent;
      } else if sndFrame {
        data := NewEvent(i);
      }
      if sndFrame {
        last := true;
      } else if !busy {
        last := false;
      }
      if sndEvent || sndFrame {
        vld := true;
      } else if !busy {
        vld := false;
      }
    }

    /** The non-blocking assignments of one edge take effect together. */
    method Load(s: Regs)
      modifies this
      ensures Registers() == s && atReset == old(atReset) && trace == old(trace)
    {
      pktRdy, rtgEvent, rtgRdy, frmCnt := s.pktRdy, s.rtgEvent, s.rtgRdy, s.frmCnt;
      usCnt, tckCnt := s.usCnt, s.tckCnt;
      evtData, evtLast, evtVld, outDrp := s.evtData, s.evtLast, s.evtVld, s.outDrp;
    }

    /** One rising clock edge: every block reads the registers as they were before it. */
    method Clock(i: Input)
      requires Valid()
      modifies this
      ensures Valid() && atReset == old(atReset) && trace == old(trace) + [i]
      ensures Registers() == Step(old(Registers()), i)
    {
      var event, ready := NextReadyToGo(i);
      var credit := NextCredit(i);
      var us, tick := NextTicks(i);
      var data, last, vld := NextOutput(i);
      var drop := PktAvailable(Registers(), i) && Busy(Registers(), i) && rtgRdy;
      var next := Regs(true, event, ready, credit, us, tick, data, last, vld, drop);
      assert next == Step(Registers(), i);
      RunSnoc(atReset, trace, i);
      Load(next);
      trace := trace + [i];
    }
  }
}
