/** One pipe's buffer between a listener, the driver and the DMA controller
    (spif-driver/spif-driver.c, lines 175 to 343; spiffer/spiffer.cpp, lines 386 to 407).

    A listener fills the buffer, asks for a transfer and polls until the driver no longer says
    busy; the DMA controller reads the buffer byte by byte, at its own pace. Nothing here limits
    the length of a transfer: the driver passes on whatever it is given. */
module DmaProtocol {
  import opened Arithmetic

  type Byte = bv8

  const WORDS: nat := 0x1_0000_0000

  /** Bytes in a batch of 256 events, the size of the buffer that a listener asks for. */
  const BATCH_BYTES: nat := 1024

  /** The controller's length register counts modulo this number, and can count a batch. */
  type LengthReg = m: nat | m > BATCH_BYTES
    witness BATCH_BYTES + 1

  datatype Place = Filling | Polling

  /** `dmaInit` is the driver's flag, `idle` the controller's status bit, which may not be
      set before a first transfer has completed. `left` bytes of a transfer are still to be read,
      from position `pos` on. The last line records history: requests refused, writes of the
      buffer during a transfer, bytes handed over, bytes read from the buffer, bytes read beyond it. */
  datatype State = State(
    place: Place, buffer: seq<Byte>, lengths: LengthReg,
    dmaInit: bool, idle: bool, pos: nat, left: nat,
    refused: nat, overwrites: nat, handed: seq<Byte>, moved: seq<Byte>, stray: nat)

  datatype Event =
    | Put(at: nat, value: Byte)            // the listener writes one byte of the buffer
    | HandOver(length: nat)                // transfer request, then the listener polls
    | NothingToSend                        // a listener may also poll without a request
    | Poll                                 // status request
    | Fetch                                // the controller reads the next byte

  /** Just opened: the controller runs, the init flag is set. */
  predicate IsOpened(s: State) {
    && s.place == Filling && s.dmaInit && s.left == 0
    && s.refused == s.overwrites == s.stray == 0 && s.handed == [] && s.moved == []
  }

  /** The busy test that transfer and status requests share. */
  predicate Busy(dmaInit: bool, idle: bool) { !dmaInit && !idle }

  predicate InFlight(s: State) { s.left > 0 }

  /** What each party can do next, given where the listener's loop has got to. */
  predicate Enabled(s: State, e: Event) {
    match e
    case Put(at, _) => s.place == Filling && at < |s.buffer|
    case HandOver(length) => s.place == Filling && length < WORDS
    case NothingToSend => s.place == Filling
    case Poll => s.place == Polling
    case Fetch => s.left > 0
  }

  /** What the length register keeps of a length. */
  function Taken(length: nat, lengths: LengthReg): nat { length % lengths }

  function Min(a: nat, b: nat): nat { if a < b then a else b }

  /** What is left in the buffer of a transfer with `left` bytes to go from `pos`. */
  function Part(buffer: seq<Byte>, pos: nat, left: nat): seq<Byte> {
    buffer[Min(pos, |buffer|)..Min(pos + left, |buffer|)]
  }

  /** Writing a length starts a transfer of that many bytes; writing zero starts nothing. */
  function Start(s: State, taken: nat): State {
    if taken == 0 then s.(dmaInit := false)
    else s.(dmaInit := false, idle := false, pos := 0, left := taken,
            handed := s.handed + Part(s.buffer, 0, taken))
  }

  function Next(s: State, e: Event): State
    requires Enabled(s, e)
  {
    match e
    case Put(at, value) =>
      s.(buffer := s.buffer[at := value], overwrites := s.overwrites + if InFlight(s) then 1 else 0)
    case HandOver(length) =>
      if Busy(s.dmaInit, s.idle) then s.(place := Polling, refused := s.refused + 1)
      else Start(s, Taken(length, s.lengths)).(place := Polling)
    case NothingToSend => s.(place := Polling)
    case Poll => if Busy(s.dmaInit, s.idle) then s else s.(place := Filling)
    case Fetch =>
      var t := s.(pos := s.pos + 1, left := s.left - 1, idle := s.left == 1);
      if s.pos < |s.buffer| then t.(moved := s.moved + [s.buffer[s.pos]]) else t.(stray := s.stray + 1)
  }

  /** `s` is reached from a freshly opened pipe by some interleaving of the three parties. */
  predicate IsRun(states: seq<State>, events: seq<Event>) {
    && |states| == |events| + 1
    && IsOpened(states[0])
    && forall k :: 0 <= k < |events| ==> Enabled(states[k], events[k]) && states[k + 1] == Next(states[k], events[k])
  }

  predicate Invariant(s: State) {
    && s.refused == s.overwrites == 0
    && (s.place == Filling ==> !Busy(s.dmaInit, s.idle))
    && (InFlight(s) ==> Busy(s.dmaInit, s.idle))
    && s.handed == s.moved + Part(s.buffer, s.pos, s.left)
  }

  lemma PartShrinks(buffer: seq<Byte>, pos: nat, left: nat)
    requires left > 0
    ensures Part(buffer, pos, left) ==
            (if pos < |buffer| then [buffer[pos]] else []) + Part(buffer, pos + 1, left - 1)
  {
  }

  lemma NothingToRead(buffer: seq<Byte>, pos: nat)
    ensures Part(buffer, pos, 0) == []
  {
  }

  lemma FetchKeepsInvariant(s: State)
    requires Invariant(s) && InFlight(s)
    ensures Invariant(Next(s, Fetch))
  {
    PartShrinks(s.buffer, s.pos, s.left);
    hide Part;
    var rest := Part(s.buffer, s.pos + 1, s.left - 1);
    if s.pos < |s.buffer| {
      assert s.moved + ([s.buffer[s.pos]] + rest) == s.moved + [s.buffer[s.pos]] + rest;
    } else {
      assert [] + rest == rest;
    }
  }

  lemma StartKeepsInvariant(s: State, taken: nat)
    requires Invariant(s) && s.place == Filling
    ensures Invariant(Start(s, taken).(place := Polling))
  {
    hide Part;
    NothingToRead(s.buffer, s.pos);
  }

  lemma PutKeepsInvariant(s: State, at: nat, value: Byte)
    requires Invariant(s) && Enabled(s, Put(at, value))
    ensures Invariant(Next(s, Put(at, value)))
  {
    hide Part;
    NothingToRead(s.buffer, s.pos);
    NothingToRead(s.buffer[at := value], s.pos);
  }

  lemma NextKeepsInvariant(s: State, e: Event)
    requires Invariant(s) && Enabled(s, e)
    ensures Invariant(Next(s, e))
  {
    hide Part, Start, Taken;
    match e
    case Fetch => FetchKeepsInvariant(s);
    case HandOver(length) => StartKeepsInvariant(s, Taken(length, s.lengths));
    case Put(at, value) => PutKeepsInvariant(s, at, value);
    case _ =>
  }

  lemma NextKeepsShape(s: State, e: Event)
    requires Enabled(s, e)
    ensures |Next(s, e).buffer| == |s.buffer| && Next(s, e).lengths == s.lengths
  {
    hide Part, Taken;
  }

  lemma OpenedInvariant(s: State)
    requires IsOpened(s)
    ensures Invariant(s)
  {
    NothingToRead(s.buffer, s.pos);
  }

  lemma {:induction false} RunKeepsInvariant(states: seq<State>, events: seq<Event>, n: nat)
    requires IsRun(states, events) && n <= |events|
    ensures Invariant(states[n])
    ensures |states[n].buffer| == |states[0].buffer| && states[n].lengths == states[0].lengths
  {
    hide Invariant, Part, Start, Taken;
    if n == 0 {
      OpenedInvariant(states[0]);
    } else {
      RunKeepsInvariant(states, events, n - 1);
      NextKeepsInvariant(states[n - 1], events[n - 1]);
      NextKeepsShape(states[n - 1], events[n - 1]);
    }
  }

  /** MAIN RESULT. In every interleaving, with transfers of any length: the listener writes the
      buffer only while nothing is in flight, no transfer request is refused, and the bytes read
      from the buffer are a prefix of the bytes handed over - all of them whenever nothing is in
      flight. */
  lemma BufferProtocol(states: seq<State>, events: seq<Event>, n: nat)
    requires IsRun(states, events) && n <= |events|
    ensures var s := states[n];
            && (n < |events| && events[n].Put? ==> !InFlight(s))
            && s.refused == s.overwrites == 0
            && s.moved <= s.handed
            && (!InFlight(s) ==> s.moved == s.handed)
  {
    RunKeepsInvariant(states, events, n);
  }

  /** Every length that the controller was given fits the buffer. */
  predicate AllFit(events: seq<Event>, size: nat, lengths: LengthReg) {
    forall k :: 0 <= k < |events| && events[k].HandOver? ==> Taken(events[k].length, lengths) <= size
  }

  lemma AllFitNext(events: seq<Event>, e: Event, size: nat, lengths: LengthReg)
    ensures AllFit(events + [e], size, lengths) <==>
            AllFit(events, size, lengths) && (e.HandOver? ==> Taken(e.length, lengths) <= size)
  {
    var all := events + [e];
    assert forall k :: 0 <= k < |events| ==> all[k] == events[k];
    assert all[|events|] == e;
  }

  /** Nothing has been read beyond the buffer, and nothing is going to be. */
  predicate Inside(s: State) { s.stray == 0 && (InFlight(s) ==> s.pos + s.left <= |s.buffer|) }

  lemma NextInside(s: State, e: Event)
    requires Enabled(s, e) && Invariant(s)
    ensures Inside(Next(s, e)) <==> Inside(s) && (e.HandOver? ==> Taken(e.length, s.lengths) <= |s.buffer|)
  {
    hide Part, Taken;
    if e.HandOver? {
      StartInside(s, Taken(e.length, s.lengths));
    }
  }

  lemma StartInside(s: State, taken: nat)
    requires !InFlight(s)
    ensures Inside(Start(s, taken)) <==> Inside(s) && taken <= |s.buffer|
  {
    hide Part;
  }

  /** MAIN RESULT. The controller has read nothing beyond the buffer, and is not about to, exactly
      when it was given no length larger than the buffer. */
  lemma {:induction false} StrayIff(states: seq<State>, events: seq<Event>, n: nat)
    requires IsRun(states, events) && n <= |events|
    ensures Inside(states[n]) <==> AllFit(events[..n], |states[0].buffer|, states[0].lengths)
  {
    hide Inside, AllFit, Invariant, Start, Part, Taken;
    if n == 0 {
      assert Inside(states[0]) && AllFit([], |states[0].buffer|, states[0].lengths) by {
        OpenedInside(states[0]);
      }
      assert events[..0] == [];
    } else {
      StrayIff(states, events, n - 1);
      RunKeepsInvariant(states, events, n - 1);
      NextInside(states[n - 1], events[n - 1]);
      AllFitNext(events[..n - 1], events[n - 1], |states[0].buffer|, states[0].lengths);
      assert events[..n] == events[..n - 1] + [events[n - 1]];
    }
  }

  lemma OpenedInside(s: State)
    requires IsOpened(s)
    ensures Inside(s) && AllFit([], |s.buffer|, s.lengths)
  {
  }

  // ---------------------------------------------------------------------------
  // Does polling end?
  // ---------------------------------------------------------------------------

  /** Busy, with nothing in flight that could end it. */
  predicate Stuck(s: State) { Busy(s.dmaInit, s.idle) && !InFlight(s) }

  datatype First = NoTransfer | FirstTransfer(taken: nat)

  function OrElse(f: First, e: Event, lengths: LengthReg): First {
    if f.FirstTransfer? || !e.HandOver? then f else FirstTransfer(Taken(e.length, lengths))
  }

  /** The first transfer of a session. */
  function FirstOf(events: seq<Event>, lengths: LengthReg): First {
    if events == [] then NoTransfer
    else OrElse(FirstOf(events[..|events| - 1], lengths), events[|events| - 1], lengths)
  }

  /** While the listener polls: the controller can read on, with less left; or the next poll
      ends the wait; or nothing that anyone can do changes anything, ever. */
  lemma PollingProgress(states: seq<State>, events: seq<Event>, n: nat, e: Event)
    requires IsRun(states, events) && n <= |events| && states[n].place == Polling
    ensures var s := states[n];
            && (InFlight(s) ==> Enabled(s, Fetch) && Next(s, Fetch).left < s.left)
            && (!InFlight(s) && !Stuck(s) ==> Next(s, Poll).place == Filling)
            && (Stuck(s) && Enabled(s, e) ==> Next(s, e) == s)
  {
    RunKeepsInvariant(states, events, n);
  }

  /** MAIN RESULT. The pipe gets stuck exactly when the first transfer of a session is of length
      zero and the controller does not report idle from an earlier one. */
  lemma StuckIff(states: seq<State>, events: seq<Event>, n: nat)
    requires IsRun(states, events) && n <= |events|
    ensures Stuck(states[n]) <==>
            !states[0].idle && FirstOf(events[..n], states[0].lengths) == FirstTransfer(0)
  {
    SinceFirst(states, events, n);
  }

  /** What the first transfer of a session settles, if `idle0` is the status bit at its start. */
  predicate Settled(s: State, f: First, idle0: bool) {
    if f.NoTransfer? then s.dmaInit && s.idle == idle0 && !InFlight(s)
    else if f.taken == 0 && !idle0 then Stuck(s) && s.place == Polling
    else !s.dmaInit && s.idle == !InFlight(s)
  }

  lemma NextSettled(s: State, e: Event, f: First, idle0: bool)
    requires Enabled(s, e) && Settled(s, f, idle0)
    ensures Settled(Next(s, e), OrElse(f, e, s.lengths), idle0)
  {
    hide Part;
  }

  lemma {:induction false} SinceFirst(states: seq<State>, events: seq<Event>, n: nat)
    requires IsRun(states, events) && n <= |events|
    ensures Settled(states[n], FirstOf(events[..n], states[0].lengths), states[0].idle)
  {
    hide Settled, OrElse, Invariant, Part, Start, Taken;
    if n == 0 {
      OpenedSettled(states[0]);
    } else {
      SinceFirst(states, events, n - 1);
      RunKeepsInvariant(states, events, n - 1);
      NextSettled(states[n - 1], events[n - 1], FirstOf(events[..n - 1], states[0].lengths), states[0].idle);
      assert events[..n][..n - 1] == events[..n - 1];
    }
  }

  lemma OpenedSettled(s: State)
    requires IsOpened(s)
    ensures Settled(s, NoTransfer, s.idle)
  {
  }

  // ---------------------------------------------------------------------------
  // The pipe itself: the driver's fields, the controller's registers, the shared buffer
  // ---------------------------------------------------------------------------

  /** 0, -EBUSY and -ERESTARTSYS. */
  datatype Status = Done | DeviceBusy | Interrupted

  class Pipe {
    var devOpen: bool
    var dmaInit: bool

    var run: bool
    var idle: bool
    var pos: nat
    var left: nat

    const buffer: array<Byte>
    const lengths: LengthReg

    ghost var refused: nat
    ghost var overwrites: nat
    ghost var handed: seq<Byte>
    ghost var moved: seq<Byte>
    ghost var stray: nat

    /** The pipe as a state of the protocol, its listener at `place`. */
    ghost function Abs(place: Place): State
      reads this, buffer
    {
      State(place, buffer[..], lengths, dmaInit, idle, pos, left, refused, overwrites, handed, moved, stray)
    }

    /** After the driver has probed and reset the controller. */
    constructor (buffer: array<Byte>, lengths: LengthReg)
      ensures !devOpen && this.buffer == buffer && this.lengths == lengths && left == 0
    {
      this.buffer, this.lengths := buffer, lengths;
      devOpen, dmaInit := false, false;
      run, idle, pos, left := false, false, 0, 0;
      refused, overwrites, handed, moved, stray := 0, 0, [], [], 0;
    }

    /** Only one open file at a time. Opening an idle pipe starts a session of the protocol. */
    method Open(interrupted: bool) returns (r: Status)
      modifies this
      ensures r == if interrupted then Interrupted else if old(devOpen) then DeviceBusy else Done
      ensures r == Done ==> devOpen && run && (old(left) == 0 ==> IsOpened(Abs(Filling)))
      ensures r != Done ==> unchanged(this)
      ensures idle == old(idle) && left == old(left)
    {
      if interrupted {
        return Interrupted;
      }
      if devOpen {
        return DeviceBusy;
      }
      run, dmaInit, devOpen := true, true, true;
      refused, overwrites, handed, moved, stray := 0, 0, [], [], 0;
      r := Done;
    }

    method Release(interrupted: bool) returns (r: Status)
      modifies this`run, this`devOpen
      ensures r == if interrupted then Interrupted else Done
      ensures if interrupted then unchanged(this) else !devOpen && !run
    {
      if interrupted {
        return Interrupted;
      }
      run, devOpen := false, false;
      r := Done;
    }

    method StatusRead() returns (busy: bool)
      ensures busy == Busy(dmaInit, idle)
      ensures Abs(if busy then Polling else Filling) == Next(Abs(Polling), Poll)
    {
      busy := !dmaInit && !idle;
    }

    /** The transfer request, of any length, is the hand-over step; a refused one leaves the
        controller alone. */
    method Transfer(length: nat) returns (r: Status)
      requires length < WORDS
      modifies this
      ensures Abs(Polling) == Next(old(Abs(Filling)), HandOver(length))
      ensures r == (if old(Busy(dmaInit, idle)) then DeviceBusy else Done) && devOpen == old(devOpen)
    {
      if !dmaInit && !idle {
        refused := refused + 1;
        return DeviceBusy;
      }
      WriteLength(Taken(length, lengths));
      dmaInit := false;
      r := Done;
    }

    /** The controller starts when a length other than zero is written. */
    method WriteLength(taken: nat)
      modifies this`idle, this`pos, this`left, this`handed
      ensures var s := Start(old(Abs(Filling)), taken); Abs(Filling) == s.(dmaInit := dmaInit)
    {
      if taken > 0 {
        idle, pos, left := false, 0, taken;
        handed := handed + Part(buffer[..], 0, taken);
      }
    }

    /** The listener stores one byte. */
    method Put(at: nat, value: Byte)
      requires at < buffer.Length
      modifies buffer, this`overwrites
      ensures Abs(Filling) == Next(old(Abs(Filling)), Event.Put(at, value))
    {
      overwrites := overwrites + if left > 0 then 1 else 0;
      buffer[at] := value;
    }

    /** The controller reads one byte. */
    method Fetch(ghost place: Place)
      requires left > 0
      modifies this
      ensures Abs(place) == Next(old(Abs(place)), Event.Fetch) && devOpen == old(devOpen)
    {
      if pos < buffer.Length {
        moved := moved + [buffer[pos]];
      } else {
        stray := stray + 1;
      }
      pos, left, idle := pos + 1, left - 1, left == 1;
    }
  }

  /** Store one byte while nothing is in flight. */
  method PutNext(pipe: Pipe, at: nat, value: Byte)
    requires at < pipe.buffer.Length && Invariant(pipe.Abs(Filling))
    modifies pipe.buffer, pipe`overwrites
    ensures Invariant(pipe.Abs(Filling))
    ensures pipe.buffer[..at + 1] == old(pipe.buffer[..at]) + [value]
  {
    hide Invariant, Part;
    NextKeepsInvariant(pipe.Abs(Filling), Put(at, value));
    pipe.Put(at, value);
  }

  /** Store bytes in the buffer, from `at` on. */
  method PutAll(pipe: Pipe, at: nat, bytes: seq<Byte>)
    requires at + |bytes| <= pipe.buffer.Length && Invariant(pipe.Abs(Filling))
    modifies pipe.buffer, pipe`overwrites
    ensures Invariant(pipe.Abs(Filling))
    ensures pipe.buffer[..at + |bytes|] == old(pipe.buffer[..at]) + bytes
  {
    hide Invariant;
    for n := 0 to |bytes|
      invariant Invariant(pipe.Abs(Filling))
      invariant pipe.buffer[..at + n] == old(pipe.buffer[..at]) + bytes[..n]
    {
      PutNext(pipe, at + n, bytes[n]);
      assert bytes[..n + 1] == bytes[..n] + [bytes[n]];
    }
  }

  /** How many of the bytes still to be read lie beyond the buffer. */
  function Beyond(size: nat, pos: nat, left: nat): nat {
    if pos + left <= size then 0 else if pos >= size then left else pos + left - size
  }

  /** Poll until the transfer is over. Between two polls the controller reads at least one byte,
      if it has any left, and as many more as `pace` says. */
  method WaitWhileBusy(pipe: Pipe, pace: nat -> nat)
    requires Invariant(pipe.Abs(Polling)) && !Stuck(pipe.Abs(Polling))
    modifies pipe
    ensures Invariant(pipe.Abs(Filling)) && pipe.handed == old(pipe.handed) && pipe.devOpen == old(pipe.devOpen)
    ensures old(pipe.idle || pipe.left > 0) ==> pipe.idle
    ensures pipe.stray == old(pipe.stray) + old(Beyond(pipe.buffer.Length, pipe.pos, pipe.left))
  {
    ghost var ran := pipe.idle || pipe.left > 0;
    var busy := pipe.StatusRead();
    var polls := 0;
    while busy
      invariant Invariant(pipe.Abs(Polling)) && !Stuck(pipe.Abs(Polling)) && busy == Busy(pipe.dmaInit, pipe.idle)
      invariant pipe.handed == old(pipe.handed) && pipe.devOpen == old(pipe.devOpen)
      invariant ran ==> pipe.idle || pipe.left > 0
      invariant pipe.stray + Beyond(pipe.buffer.Length, pipe.pos, pipe.left)
             == old(pipe.stray) + old(Beyond(pipe.buffer.Length, pipe.pos, pipe.left))
      decreases pipe.left, busy
    {
      ReadSome(pipe, 1 + pace(polls));
      busy := pipe.StatusRead();
      polls := polls + 1;
    }
  }

  /** The controller reads up to `count` bytes. */
  method ReadSome(pipe: Pipe, count: nat)
    requires Invariant(pipe.Abs(Polling)) && pipe.left > 0 && count > 0
    modifies pipe
    ensures Invariant(pipe.Abs(Polling)) && pipe.left < old(pipe.left)
    ensures pipe.handed == old(pipe.handed) && pipe.devOpen == old(pipe.devOpen)
    ensures pipe.idle == (pipe.left == 0)
    ensures pipe.stray + Beyond(pipe.buffer.Length, pipe.pos, pipe.left)
         == old(pipe.stray) + old(Beyond(pipe.buffer.Length, pipe.pos, pipe.left))
  {
    var more := count;
    while more > 0 && pipe.left > 0
      invariant Invariant(pipe.Abs(Polling)) && pipe.left + count == old(pipe.left) + more
      invariant pipe.handed == old(pipe.handed) && pipe.devOpen == old(pipe.devOpen)
      invariant more < count ==> pipe.idle == (pipe.left == 0)
      invariant pipe.stray + Beyond(pipe.buffer.Length, pipe.pos, pipe.left)
             == old(pipe.stray) + old(Beyond(pipe.buffer.Length, pipe.pos, pipe.left))
    {
      NextKeepsInvariant(pipe.Abs(Polling), Fetch);
      pipe.Fetch(Polling);
      more := more - 1;
    }
  }

  lemma NothingLeftBehind(s: State)
    requires Invariant(s) && s.place == Filling
    ensures s.moved == s.handed
  {
  }

  /** Ask for a transfer and poll until it is over; `hung` tells that this never happens. */
  method Give(pipe: Pipe, length: nat, pace: nat -> nat) returns (hung: bool)
    requires length < WORDS && Invariant(pipe.Abs(Filling))
    modifies pipe
    ensures hung == (!old(pipe.idle) && Taken(length, pipe.lengths) == 0)
    ensures pipe.refused == pipe.overwrites == 0
    ensures hung ==> Stuck(pipe.Abs(Polling))
    ensures !hung ==> Invariant(pipe.Abs(Filling)) && pipe.idle
    ensures pipe.handed == old(pipe.handed) + Part(pipe.buffer[..], 0, Taken(length, pipe.lengths))
    ensures pipe.stray == old(pipe.stray) + Beyond(pipe.buffer.Length, 0, Taken(length, pipe.lengths))
  {
    hide Part, Taken;
    NextKeepsInvariant(pipe.Abs(Filling), HandOver(length));
    NothingToRead(pipe.buffer[..], 0);
    var status := pipe.Transfer(length);
    assert status == Done;
    hung := !pipe.dmaInit && !pipe.idle && pipe.left == 0;
    if !hung {
      WaitWhileBusy(pipe, pace);
    }
  }

  // ---------------------------------------------------------------------------
  // The UDP listener
  // ---------------------------------------------------------------------------

  /** What `recv` brings: -1, or a datagram, which may be empty. */
  datatype Receipt = Failed | Received(data: seq<Byte>)

  /** The length that the driver is asked for: -1 becomes the largest unsigned number. */
  function Length(r: Receipt): nat { if r.Failed? then 0xffff_ffff else |r.data| }

  /** How many bytes the controller is then set to read: the register's largest number for -1. */
  function Asked(r: Receipt, lengths: LengthReg): nat { if r.Failed? then lengths - 1 else |r.data| }

  function TotalAsked(receipts: seq<Receipt>, lengths: LengthReg): nat {
    if receipts == [] then 0
    else TotalAsked(receipts[..|receipts| - 1], lengths) + Asked(receipts[|receipts| - 1], lengths)
  }

  function Payload(receipts: seq<Receipt>): seq<Byte> {
    if receipts == [] then []
    else
      var r := receipts[|receipts| - 1];
      Payload(receipts[..|receipts| - 1]) + if r.Failed? then [] else r.data
  }

  lemma PayloadPrefix(receipts: seq<Receipt>, n: nat, lengths: LengthReg)
    requires n < |receipts|
    ensures TotalAsked(receipts[..n + 1], lengths) == TotalAsked(receipts[..n], lengths) + Asked(receipts[n], lengths)
    ensures Payload(receipts[..n + 1]) == Payload(receipts[..n]) + if receipts[n].Failed? then [] else receipts[n].data
  {
    assert receipts[..n + 1][..n] == receipts[..n];
  }

  /** The length register is narrower than a word. */
  predicate DividesWord(m: LengthReg) { WORDS % m == 0 }

  lemma FailureTakesMost(m: LengthReg)
    requires DividesWord(m)
    ensures Taken(WORDS - 1, m) == m - 1
  {
    var q := WORDS / m;
    assert WORDS == m * q;
    assert m * q == m * (q - 1) + m;
    Remainder(WORDS - 1, m, q - 1, m - 1);
  }

  lemma SmallLength(n: nat, m: LengthReg)
    requires n <= BATCH_BYTES
    ensures Taken(n, m) == n
  {
  }

  lemma WholePart(buffer: seq<Byte>, n: nat)
    requires n <= |buffer|
    ensures Part(buffer, 0, n) == buffer[..n]
  {
  }

  lemma PartAndBeyond(buffer: seq<Byte>, n: nat)
    ensures |Part(buffer, 0, n)| + Beyond(|buffer|, 0, n) == n
    ensures n > 0 && buffer != [] ==> |Part(buffer, 0, n)| > 0
  {
  }

  /** One turn of the listener's loop; `hung` tells that its polling never ends. */
  method ServeReceipt(pipe: Pipe, r: Receipt, pace: nat -> nat) returns (hung: bool)
    requires BATCH_BYTES <= pipe.buffer.Length && DividesWord(pipe.lengths)
    requires r.Received? ==> |r.data| <= BATCH_BYTES
    requires Invariant(pipe.Abs(Filling))
    modifies pipe, pipe.buffer
    ensures hung == (!old(pipe.idle) && r == Received([]))
    ensures pipe.refused == pipe.overwrites == 0
    ensures hung ==> Stuck(pipe.Abs(Polling))
    ensures !hung ==> Invariant(pipe.Abs(Filling)) && pipe.idle
    ensures r.Received? ==> pipe.handed == old(pipe.handed) + r.data && pipe.stray == old(pipe.stray)
    ensures r.Failed? ==> pipe.handed == old(pipe.handed) + Part(pipe.buffer[..], 0, pipe.lengths - 1)
    ensures |pipe.handed| + pipe.stray == |old(pipe.handed)| + old(pipe.stray) + Asked(r, pipe.lengths)
    ensures |pipe.handed| >= |old(pipe.handed)| + if r.Failed? then 1 else 0
  {
    hide Invariant, Stuck, Part, Taken, DividesWord;
    if r.Received? {
      PutAll(pipe, 0, r.data);
      SmallLength(|r.data|, pipe.lengths);
      WholePart(pipe.buffer[..], |r.data|);
    } else {
      FailureTakesMost(pipe.lengths);
    }
    PartAndBeyond(pipe.buffer[..], Asked(r, pipe.lengths));
    hung := Give(pipe, Length(r), pace);
  }

  /** What has been handed over since `handed0`, and read beyond the buffer since `stray0`, for
      these receipts: exactly the datagrams, or more if one of them is a failure. */
  predicate Served(handed0: seq<Byte>, handed: seq<Byte>, stray0: nat, stray: nat, receipts: seq<Receipt>,
                   lengths: LengthReg)
  {
    && |handed| + stray == |handed0| + stray0 + TotalAsked(receipts, lengths)
    && if Failed in receipts then |handed| > |handed0| + |Payload(receipts)|
    else handed == handed0 + Payload(receipts) && stray == stray0
  }

  lemma ServedNext(handed0: seq<Byte>, handed: seq<Byte>, stray0: nat, stray: nat, receipts: seq<Receipt>, n: nat,
                   handed1: seq<Byte>, stray1: nat, lengths: LengthReg)
    requires n < |receipts| && Served(handed0, handed, stray0, stray, receipts[..n], lengths)
    requires |handed1| + stray1 == |handed| + stray + Asked(receipts[n], lengths)
    requires var r := receipts[n];
             if r.Failed? then |handed1| > |handed| else handed1 == handed + r.data && stray1 == stray
    ensures Served(handed0, handed1, stray0, stray1, receipts[..n + 1], lengths)
  {
    hide Payload, TotalAsked;
    PayloadPrefix(receipts, n, lengths);
    assert receipts[..n + 1] == receipts[..n] + [receipts[n]];
  }

  /** MAIN RESULT. Whatever `recv` brings, no request is refused and nothing is written during a
      transfer. The listener polls for ever exactly when the first datagram of a pipe that does
      not report idle is empty; otherwise the controller reads the datagrams, byte for byte and
      in order, and nothing else, exactly when no `recv` failed: for every failure it reads as
      many bytes as its length register can ask for. */
  method UdpListener(pipe: Pipe, receipts: seq<Receipt>, pace: nat -> nat) returns (hung: bool)
    requires BATCH_BYTES <= pipe.buffer.Length && DividesWord(pipe.lengths)
    requires forall r <- receipts :: r.Received? ==> |r.data| <= BATCH_BYTES
    requires Invariant(pipe.Abs(Filling))
    modifies pipe, pipe.buffer
    ensures pipe.refused == pipe.overwrites == 0
    ensures hung <==> !old(pipe.idle) && receipts != [] && receipts[0] == Received([])
    ensures hung ==> Stuck(pipe.Abs(Polling))
    ensures !hung ==> (pipe.moved == old(pipe.moved) + Payload(receipts) <==> Failed !in receipts)
    ensures Failed !in receipts ==> pipe.stray == old(pipe.stray)
    ensures !hung ==> |pipe.moved| + pipe.stray == |old(pipe.moved)| + old(pipe.stray) + TotalAsked(receipts, pipe.lengths)
  {
    NothingLeftBehind(pipe.Abs(Filling));
    var n := 0;
    hung := false;
    while n < |receipts|
      invariant n <= |receipts| && Invariant(pipe.Abs(Filling))
      invariant n > 0 ==> pipe.idle && !(!old(pipe.idle) && receipts[0] == Received([]))
      invariant n == 0 ==> pipe.idle == old(pipe.idle)
      invariant Served(old(pipe.handed), pipe.handed, old(pipe.stray), pipe.stray, receipts[..n], pipe.lengths)
    {
      hide Invariant, Stuck, Served, Payload, Part, Asked;
      assert receipts[n] in receipts;
      ghost var handed, stray := pipe.handed, pipe.stray;
      hung := ServeReceipt(pipe, receipts[n], pace);
      ServedNext(old(pipe.handed), handed, old(pipe.stray), stray, receipts, n, pipe.handed, pipe.stray,
                 pipe.lengths);
      if hung {
        return;
      }
      n := n + 1;
    }
    NothingLeftBehind(pipe.Abs(Filling));
    assert receipts[..n] == receipts;
  }
}
