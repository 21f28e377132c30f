/** The packet assembler of an input pipe (spif_common/src/pkt_assembler.sv), together with the
    gate in front of it that throws events away while the link has no handshake
    (spif_common/src/dvs_on_hssl_top.sv, lines 428 to 437). A one-slot parking register lets
    the event interface see back pressure one clock late. */
module PktAssembler {
  import opened Bits
  import opened Words
  import opened Mapper

  /** A multicast packet: the header's only set bit can be the parity bit. */
  datatype Packet = Packet(parity: bool, key: bv32, pld: bv32)

  /** Exclusive or of the `n` low bits of a word. */
  function Parity(v: bv32, n: nat): bool
    decreases n
  {
    n > 0 && (And(v, 1) == 1) != Parity(Right(v), n - 1)
  }

  function PacketOf(key: bv32): Packet {
    Packet(Parity(key, 32) == Parity(0, 32), key, 0)
  }

  datatype Input = Input(cfg: Config, evt: bv32, axiVld: bool, handshake: bool, pktRdy: bool)

  datatype Regs = Regs(evtRdy: bool, parked: bool, parkedKey: bv32, pktVld: bool, pktData: Packet)

  predicate IsReset(s: Regs) { !s.evtRdy && !s.parked && !s.pktVld }

  predicate EvtVld(i: Input) { i.axiVld && i.handshake }

  predicate AxiRdy(s: Regs, i: Input) { s.evtRdy || !i.handshake }

  predicate Present(s: Regs, i: Input) { EvtVld(i) && Passes(i.cfg, i.evt) && s.evtRdy }

  predicate Busy(s: Regs, i: Input) { s.pktVld && !i.pktRdy }

  function Step(s: Regs, i: Input): Regs {
    var present, busy, mapped := Present(s, i), Busy(s, i), MappedKey(i.cfg, i.evt);
    Regs(
      !busy || !(present || s.parked),
      if present && busy then true else s.parked && !i.pktRdy,
      if present && busy then mapped else s.parkedKey,
      s.parked || present || busy,
      if !busy && (s.parked || present) then PacketOf(if s.parked then s.parkedKey else mapped)
      else s.pktData)
  }

  // ---------------------------------------------------------------------------
  // Runs
  // ---------------------------------------------------------------------------

  /** An event taken from the camera stream, with the configuration of that clock. */
  datatype Taken = Taken(cfg: Config, evt: bv32, handshake: bool)

  datatype World = World(regs: Regs, taken: seq<Taken>, delivered: seq<Packet>)

  function Advance(w: World, i: Input): World {
    World(
      Step(w.regs, i),
      if i.axiVld && AxiRdy(w.regs, i) then w.taken + [Taken(i.cfg, i.evt, i.handshake)] else w.taken,
      if w.regs.pktVld && i.pktRdy then w.delivered + [w.regs.pktData] else w.delivered)
  }

  function Run(s0: Regs, trace: seq<Input>): World {
    if trace == [] then World(s0, [], []) else Advance(Run(s0, trace[..|trace| - 1]), trace[|trace| - 1])
  }

  lemma RunSnoc(s0: Regs, trace: seq<Input>, i: Input)
    ensures Run(s0, trace + [i]) == Advance(Run(s0, trace), i)
  {
    assert (trace + [i])[..|trace|] == trace;
  }

  /** The list-level meaning: map the mapper over the events that came in with a handshake and
      pass every filter and limit, in order. */
  function Expected(taken: seq<Taken>): seq<Packet> {
    if taken == [] then []
    else
      var t := taken[|taken| - 1];
      Expected(taken[..|taken| - 1])
      + if t.handshake && Passes(t.cfg, t.evt) then [PacketOf(MappedKey(t.cfg, t.evt))] else []
  }

  function Pending(s: Regs): seq<Packet> { if s.pktVld then [s.pktData] else [] }

  function Parked(s: Regs): seq<Packet> { if s.parked then [PacketOf(s.parkedKey)] else [] }

  predicate Refines(w: World) {
    w.delivered + Pending(w.regs) + Parked(w.regs) == Expected(w.taken)
  }

  /** The parking slot is used only behind a valid packet, and closes the input. */
  predicate SlotSafe(s: Regs) { s.parked ==> s.pktVld && !s.evtRdy }

  lemma ExpectedSnoc(taken: seq<Taken>, t: Taken)
    ensures Expected(taken + [t]) ==
            Expected(taken) + if t.handshake && Passes(t.cfg, t.evt) then [PacketOf(MappedKey(t.cfg, t.evt))] else []
  {
    assert (taken + [t])[..|taken|] == taken;
  }

  function Arrival(s: Regs, i: Input): seq<Packet> {
    if Present(s, i) then [PacketOf(MappedKey(i.cfg, i.evt))] else []
  }

  lemma InputsAdvance(w: World, i: Input)
    ensures Expected(Advance(w, i).taken) == Expected(w.taken) + Arrival(w.regs, i)
  {
    ExpectedSnoc(w.taken, Taken(i.cfg, i.evt, i.handshake));
    hide Passes, MappedKey, PacketOf, Expected, Step;
  }

  lemma OutputsAdvance(w: World, i: Input)
    requires SlotSafe(w.regs)
    ensures SlotSafe(Step(w.regs, i))
    ensures var w' := Advance(w, i);
            w'.delivered + Pending(w'.regs) + Parked(w'.regs)
            == w.delivered + Pending(w.regs) + Parked(w.regs) + Arrival(w.regs, i)
  {
    hide Passes, MappedKey, PacketOf, Expected;
  }

  lemma AdvanceRefines(w: World, i: Input)
    requires Refines(w) && SlotSafe(w.regs)
    ensures Refines(Advance(w, i)) && SlotSafe(Step(w.regs, i))
  {
    hide Step, Advance, Arrival, Expected, SlotSafe;
    InputsAdvance(w, i);
    OutputsAdvance(w, i);
  }

  /** MAIN RESULT. For every schedule of valid and ready, every configuration trace and every
      handshake trace, what has been and will be delivered is the filtered and mapped stream of
      events taken, nothing lost, added or reordered. */
  lemma {:induction false} AssemblerRefinesMapFilter(s0: Regs, trace: seq<Input>)
    requires IsReset(s0)
    ensures Refines(Run(s0, trace)) && SlotSafe(Run(s0, trace).regs)
  {
    if trace == [] {
    } else {
      AssemblerRefinesMapFilter(s0, trace[..|trace| - 1]);
      AdvanceRefines(Run(s0, trace[..|trace| - 1]), trace[|trace| - 1]);
    }
  }

  /** The two states marked "must not happen - data loss" never do, and a packet that is not
      taken stays on the output unchanged. */
  lemma NoDataLoss(s0: Regs, trace: seq<Input>, i: Input)
    requires IsReset(s0)
    ensures var s := Run(s0, trace).regs;
            && !(s.parked && Present(s, i))
            && (Busy(s, i) ==> Pending(Step(s, i)) == Pending(s))
  {
    AssemblerRefinesMapFilter(s0, trace);
  }

  /** The event input is closed exactly while a key is parked, reset apart: one busy clock. */
  lemma ReadyIff(s0: Regs, trace: seq<Input>)
    requires IsReset(s0) && trace != []
    ensures var s := Run(s0, trace).regs; s.evtRdy <==> !s.parked
  {
    hide Passes, MappedKey, PacketOf;
    AssemblerRefinesMapFilter(s0, trace[..|trace| - 1]);
  }

  /** The events a trace offers on the camera stream. */
  function Offered(trace: seq<Input>): seq<Taken> {
    if trace == [] then []
    else
      var i := trace[|trace| - 1];
      Offered(trace[..|trace| - 1]) + if i.axiVld then [Taken(i.cfg, i.evt, i.handshake)] else []
  }

  /** Without a handshake the camera stream is never stalled: an outage takes every event
      offered, and adds no packet. */
  lemma {:induction false} OutageDrains(s0: Regs, before: seq<Input>, outage: seq<Input>)
    requires forall i <- outage :: !i.handshake
    ensures Run(s0, before + outage).taken == Run(s0, before).taken + Offered(outage)
    ensures Expected(Run(s0, before + outage).taken) == Expected(Run(s0, before).taken)
  {
    hide Passes, MappedKey, PacketOf, Step, Run, Expected;
    if outage == [] {
      assert before + outage == before;
    } else {
      var i, earlier := outage[|outage| - 1], outage[..|outage| - 1];
      assert i in outage && before + outage == (before + earlier) + [i];
      OutageDrains(s0, before, earlier);
      RunSnoc(s0, before + earlier, i);
      ExpectedSnoc(Run(s0, before + earlier).taken, Taken(i.cfg, i.evt, i.handshake));
    }
  }

  /** The exclusive or of the low bits says whether an odd number of them is set. */
  lemma {:induction false} ParityCounts(v: bv32, m: nat, n: nat)
    ensures Parity(Shr(v, m), n) <==> (Ones(v, m + n) - Ones(v, m)) % 2 == 1
    decreases n
  {
    hide Shr, And, Right;
    if n == 0 {
    } else {
      ParityCounts(v, m + 1, n - 1);
      ShrShr(v, m, 1);
      ShrOne(Shr(v, m));
      LowBit(Shr(v, m));
    }
  }

  lemma LowBit(v: bv32)
    ensures And(v, 1) == 1 <==> Low(v)
  {
  }

  lemma WordParity(v: bv32)
    ensures Parity(v, 32) <==> Ones(v, 32) % 2 == 1
  {
    hide Parity, Shr, HasBit;
    ShrOne(v);
    ParityCounts(v, 0, 32);
    assert Ones(v, 0) == 0;
  }

  lemma {:induction false} NoOnes(n: nat)
    ensures Ones(0, n) == 0
  {
    hide HasBit;
    if n == 0 {
    } else {
      ZeroBit(n - 1);
      NoOnes(n - 1);
    }
  }

  /** A packet carries its key and no payload, and an odd number of ones over header, key and
      payload. */
  lemma OddParity(key: bv32)
    ensures var p := PacketOf(key);
            && p.key == key && p.pld == 0
            && (Ones(p.key, 32) + Ones(p.pld, 32) + if p.parity then 1 else 0) % 2 == 1
  {
    hide Parity, Ones;
    WordParity(key);
    WordParity(0);
    NoOnes(32);
  }

  // ---------------------------------------------------------------------------
  // What is expected of one event
  // ---------------------------------------------------------------------------

  lemma ExpectedOne(t: Taken)
    ensures Expected([t]) == if t.handshake && Passes(t.cfg, t.evt) then [PacketOf(MappedKey(t.cfg, t.evt))] else []
  {
    hide Passes, MappedKey, PacketOf;
    assert [t][..0] == [];
  }

  /** The stream expected is that of its events, one by one. */
  lemma ExpectedPointwise(taken: seq<Taken>, t: Taken)
    ensures Expected(taken + [t]) == Expected(taken) + Expected([t])
  {
    hide Passes, MappedKey, PacketOf, Expected;
    ExpectedSnoc(taken, t);
    ExpectedOne(t);
  }

  /** MAIN RESULT. An event taken with a handshake makes one packet when no filter matches it and
      no field is beyond its limit, and otherwise none; the packet's key has the bits of the fixed
      key and of the fields. */
  lemma PacketOfEvent(c: Config, e: bv32, v: seq<bv32>)
    requires AreFields(v, c, e)
    ensures var p := Expected([Taken(c, e, true)]);
            if Kept(c, e, v) then
              && |p| == 1 && p[0].pld == 0 && (Ones(p[0].key, 32) + if p[0].parity then 1 else 0) % 2 == 1
              && forall b :: 0 <= b < 32 ==>
                   (HasBit(p[0].key, b) <==> HasBit(c.key, b) || exists k :: 0 <= k < 4 && FieldBit(c.fields[k], e, b))
            else p == []
  {
    hide HasBit, Passes, MappedKey, PacketOf, FieldBit, Kept, Ones, AreFields;
    ExpectedOne(Taken(c, e, true));
    PassesIff(c, e, v);
    OddParity(MappedKey(c, e));
    assert Ones(0, 32) == 0 by { NoOnes(32); }
    forall b | 0 <= b < 32
      ensures HasBit(MappedKey(c, e), b) <==> HasBit(c.key, b) || exists k :: 0 <= k < 4 && FieldBit(c.fields[k], e, b)
    {
      KeyBits(c, e, b);
    }
  }

  /** Without a handshake none. */
  lemma NoPacketInOutage(c: Config, e: bv32)
    ensures Expected([Taken(c, e, false)]) == []
  {
    ExpectedOne(Taken(c, e, false));
  }

  /** With the default filters and limits every event makes a packet. */
  lemma DefaultsKeepAll(c: Config, e: bv32)
    requires forall f <- c.filters :: f == Filter(0xffff_ffff, 0)
    requires forall f <- c.fields :: f.lmt == 0xffff_ffff
    ensures |Expected([Taken(c, e, true)])| == 1
  {
    hide HasBit, FieldBit, AreFields, Over;
    var v := FieldsOf(c, e);
    PacketOfEvent(c, e, v);
    FourFields(v, c, e);
    forall k | 0 <= k < 8
      ensures !FilterMatches(c.filters[k], e)
    {
      assert c.filters[k] in c.filters;
      OnesBit(0);
      ZeroBit(0);
    }
    forall k | 0 <= k < 4
      ensures !Over(v[k], c.fields[k].lmt)
    {
      assert c.fields[k] in c.fields;
      OverMeans(v[k], 0xffff_ffff);
    }
  }

  /** Setting one filter takes away exactly the events that agree with its value under its mask. */
  lemma FilterRemoves(c: Config, k: nat, val: bv32, msk: bv32, e: bv32)
    requires k < 8 && c.filters[k] == Filter(0xffff_ffff, 0)
    ensures Expected([Taken(c.(filters := c.filters[k := Filter(val, msk)]), e, true)]) ==
            if forall b :: 0 <= b < 32 ==> (HasBit(val, b) <==> HasBit(e, b) && HasBit(msk, b)) then []
            else Expected([Taken(c, e, true)])
  {
    hide HasBit, FieldValue, PacketOf, And;
    var c' := c.(filters := c.filters[k := Filter(val, msk)]);
    ExpectedOne(Taken(c, e, true));
    ExpectedOne(Taken(c', e, true));
    FilterBits(Filter(val, msk), e);
    DefaultFilterPasses(e);
    assert c'.filters[k] in c'.filters;
    assert Passes(c', e) <==> Passes(c, e) && val != And(e, msk) by {
      forall j | 0 <= j < 8
        ensures c.filters[j] in c.filters && c'.filters[j] in c'.filters
        ensures j != k ==> c'.filters[j] == c.filters[j]
      {
      }
    }
  }

  lemma DefaultFilterPasses(e: bv32)
    ensures 0xffff_ffff != And(e, 0)
  {
  }

  /** Lowering one limit takes away exactly the events whose field is beyond it. */
  lemma LimitRemoves(c: Config, k: nat, lmt: bv32, e: bv32, v: seq<bv32>)
    requires AreFields(v, c, e) && k < |v| == 4 && c.fields[k].lmt == 0xffff_ffff
    ensures Expected([Taken(c.(fields := c.fields[k := c.fields[k].(lmt := lmt)]), e, true)]) ==
            if Over(v[k], lmt) then [] else Expected([Taken(c, e, true)])
  {
    hide FieldValue, PacketOf, AreFields, Passes, MappedKey, Over;
    var c' := c.(fields := c.fields[k := c.fields[k].(lmt := lmt)]);
    ExpectedOne(Taken(c, e, true));
    ExpectedOne(Taken(c', e, true));
    FieldsKnownByBits(v, c, e, k);
    LimitInConfig(c, k, lmt, e);
  }

  lemma LimitInConfig(c: Config, k: nat, lmt: bv32, e: bv32)
    requires k < 4 && c.fields[k].lmt == 0xffff_ffff
    ensures var c' := c.(fields := c.fields[k := c.fields[k].(lmt := lmt)]);
            && MappedKey(c', e) == MappedKey(c, e)
            && (Passes(c', e) <==> Passes(c, e) && !Over(FieldValue(c.fields[k], e), lmt))
  {
    hide FieldValue, Or, And, Over;
    var c' := c.(fields := c.fields[k := c.fields[k].(lmt := lmt)]);
    forall j | 0 <= j < 4
      ensures c.fields[j] in c.fields && c'.fields[j] in c'.fields
      ensures FieldValue(c'.fields[j], e) == FieldValue(c.fields[j], e)
      ensures j != k ==> c'.fields[j] == c.fields[j]
    {
      LimitUnused(c.fields[j], lmt, e);
    }
    OverMeans(FieldValue(c.fields[k], e), 0xffff_ffff);
  }

  lemma LimitUnused(f: Field, lmt: bv32, e: bv32)
    ensures FieldValue(f.(lmt := lmt), e) == FieldValue(f, e)
  {
    hide And, Shl, Shr;
  }

  // ---------------------------------------------------------------------------
  // The module itself
  // ---------------------------------------------------------------------------

  class Assembler {
    var evtRdy: bool
    var parked: bool
    var parkedKey: bv32
    var pktVld: bool
    var pktData: Packet

    ghost var atReset: Regs
    ghost var trace: seq<Input>

    function Registers(): Regs
      reads this
    {
      Regs(evtRdy, parked, parkedKey, pktVld, pktData)
    }

    ghost predicate Valid()
      reads this
    {
      IsReset(atReset) && Registers() == Run(atReset, trace).regs
    }

    constructor (key: bv32, data: Packet)
      ensures Valid() && trace == [] && IsReset(Registers())
    {
      evtRdy, parked, pktVld := false, false, false;
      parkedKey, pktData := key, data;
      trace := [];
      atReset := Regs(false, false, key, false, data);
    }

    /** One rising clock edge. The ready and valid blocks test the same three wires in the order
        of the source's cases. */
    method Clock(i: Input)
      requires Valid()
      modifies this
      ensures Valid() && atReset == old(atReset) && trace == old(trace) + [i]
      ensures Registers() == Step(old(Registers()), i)
    {
      RunSnoc(atReset, trace, i);
      hide Run, MappedKey, Passes, PacketOf;
      var busy := pktVld && !i.pktRdy;
      var present := i.axiVld && i.handshake && Passes(i.cfg, i.evt) && evtRdy;
      var mapped := MappedKey(i.cfg, i.evt);
      var key := if parked then parkedKey else mapped;

      var rdy' := true;
      if present && busy {
        rdy' := false;
      } else if parked && busy {
        rdy' := false;
      }
      var vld' := true;
      if !parked && !present && !busy {
        vld' := false;
      }

      if !busy && (parked || present) {
        pktData := PacketOf(key);
      }
      if present && busy {
        parked, parkedKey := true, mapped;
      } else if i.pktRdy {
        parked := false;
      }
      evtRdy, pktVld := rdy', vld';
      trace := trace + [i];
    }
  }
}
