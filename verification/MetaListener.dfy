/** Batching of camera events by the Prophesee listener
    (spiffer/spiffer_meta_support.cpp, lines 117 to 250): a decode callback fills the pipe's
    buffer and hands over every full batch; the main loop hands over what is left of each raw
    buffer. The listener runs on a pipe of the buffer protocol. It counts batches in events; the
    driver reads the count as bytes. */
module MetaListener {
  import opened DmaProtocol
  import opened Sequences

  const BATCH_SIZE: nat := 256

  /** A contrast detection event: coordinates and polarity. */
  datatype EventCD = EventCD(x: bv32, y: bv32, p: bv32)

  // ---------------------------------------------------------------------------
  // The spif event format
  // ---------------------------------------------------------------------------

  const NO_TS: bv32 := 0x8000_0000

  function Encode(e: EventCD): bv32 {
    NO_TS | (e.x << 16) | (e.p << 15) | (e.y << 0)
  }

  /** The documented fields: x in bits 30 to 16, polarity in bit 15, y in bits 14 to 0. */
  function Decode(w: bv32): EventCD {
    EventCD((w >> 16) & 0x7fff, w & 0x7fff, (w >> 15) & 1)
  }

  /** MAIN RESULT. The fields of an event can be read back exactly when each fits its field. */
  lemma EncodeRoundTripIff(e: EventCD)
    ensures Decode(Encode(e)) == e <==> e.x < 0x8000 && e.y < 0x8000 && e.p < 2
    ensures Encode(e) & 0x8000_0000 == 0x8000_0000
  {
  }

  function EncodeAll(es: seq<EventCD>): (ws: seq<bv32>)
    ensures |ws| == |es|
  {
    seq(|es|, k requires 0 <= k < |es| => Encode(es[k]))
  }

  lemma EncodeAppend(a: seq<EventCD>, b: seq<EventCD>)
    ensures EncodeAll(a + b) == EncodeAll(a) + EncodeAll(b)
  {
    hide Encode;
  }

  lemma EncodeNothing(es: seq<EventCD>)
    ensures EncodeAll(es[..0]) == []
  {
  }

  lemma EncodeNext(es: seq<EventCD>, n: nat)
    requires n < |es|
    ensures EncodeAll(es[..n + 1]) == EncodeAll(es[..n]) + [Encode(es[n])]
  {
    hide Encode;
  }

  // ---------------------------------------------------------------------------
  // Batches
  // ---------------------------------------------------------------------------

  type Batches = seq<seq<bv32>>

  predicate AllFull(b: Batches) {
    forall k :: 0 <= k < |b| ==> |b[k]| == BATCH_SIZE
  }

  lemma {:induction false} FullLength(b: Batches)
    requires AllFull(b)
    ensures |Concat(b)| == BATCH_SIZE * |b|
  {
    if b == [] {
    } else {
      FullLength(b[..|b| - 1]);
    }
  }

  /** What a raw buffer of `ws` encoded events hands over: its events in order, in full batches
      and, if any are left, one last shorter batch. */
  predicate IsBatching(b: Batches, ws: seq<bv32>) {
    && Concat(b) == ws
    && (forall k :: 0 <= k < |b| - 1 ==> |b[k]| == BATCH_SIZE)
    && (forall k :: 0 <= k < |b| ==> 1 <= |b[k]| <= BATCH_SIZE)
  }

  /** MAIN RESULT. That fixes the batches: k events make k div 256 full ones, and a tail of
      k mod 256 when that is not zero. */
  lemma BatchingShape(b: Batches, ws: seq<bv32>)
    requires IsBatching(b, ws)
    ensures |b| == |ws| / 256 + (if |ws| % 256 == 0 then 0 else 1)
    ensures forall k :: 0 <= k < |b| ==> |b[k]| == if k < |ws| / 256 then 256 else |ws| % 256
  {
    if b != [] {
      FullLength(b[..|b| - 1]);
    }
  }

  /** Two batchings of the same events are the same. */
  lemma {:induction false} BatchingUnique(a: Batches, b: Batches, ws: seq<bv32>)
    requires IsBatching(a, ws) && IsBatching(b, ws)
    ensures a == b
    decreases |a|
  {
    BatchingShape(a, ws);
    BatchingShape(b, ws);
    if a == [] {
    } else {
      var n := |a| - 1;
      var front := ws[..|ws| - |a[n]|];
      assert ws == Concat(a[..n]) + a[n] == Concat(b[..n]) + b[n];
      assert Concat(a[..n]) == front == Concat(b[..n]);
      assert a[n] == ws[|front|..] == b[n];
      BatchingUnique(a[..n], b[..n], front);
      assert a == a[..n] + [a[n]] && b == b[..n] + [b[n]];
    }
  }

  // ---------------------------------------------------------------------------
  // Bytes
  // ---------------------------------------------------------------------------

  const WORD_BYTES: nat := 4

  /** A word in memory, least significant byte first. */
  function WordBytes(w: bv32): (b: seq<Byte>)
    ensures |b| == WORD_BYTES
  {
    [(w & 0xff) as Byte, ((w >> 8) & 0xff) as Byte, ((w >> 16) & 0xff) as Byte, (w >> 24) as Byte]
  }

  /** Read back from memory, byte 0 weighs least. */
  function WordAt(b: seq<Byte>): bv32
    requires |b| == 4
  {
    (b[0] as bv32) | ((b[1] as bv32) << 8) | ((b[2] as bv32) << 16) | ((b[3] as bv32) << 24)
  }

  lemma LittleEndian(w: bv32)
    ensures WordAt(WordBytes(w)) == w
  {
  }

  function Bytes(ws: seq<bv32>): (b: seq<Byte>)
    ensures |b| == WORD_BYTES * |ws|
  {
    if ws == [] then [] else Bytes(ws[..|ws| - 1]) + WordBytes(ws[|ws| - 1])
  }

  lemma BytesSnoc(ws: seq<bv32>, w: bv32)
    ensures Bytes(ws + [w]) == Bytes(ws) + WordBytes(w)
  {
    assert (ws + [w])[..|ws|] == ws;
  }

  /** What the driver moves of batches whose length is given in events: as many bytes as a batch
      has events, the first quarter of it. */
  function Quarters(b: Batches): seq<Byte> {
    if b == [] then []
    else
      var batch := b[|b| - 1];
      Quarters(b[..|b| - 1]) + Bytes(batch)[..|batch|]
  }

  lemma QuartersSnoc(b: Batches, batch: seq<bv32>)
    ensures Quarters(b + [batch]) == Quarters(b) + Bytes(batch)[..|batch|]
  {
    assert (b + [batch])[..|b|] == b;
  }

  /** MAIN RESULT. The bytes moved of a stream of batches are as many as it has events, so all of
      its bytes are moved exactly when it has none. */
  lemma {:induction false} AllMovedIffNoEvents(b: Batches)
    ensures |Quarters(b)| == |Concat(b)|
    ensures Quarters(b) == Bytes(Concat(b)) <==> Concat(b) == []
  {
    if b == [] {
    } else {
      AllMovedIffNoEvents(b[..|b| - 1]);
    }
    assert |Bytes(Concat(b))| == WORD_BYTES * |Concat(b)|;
  }

  // ---------------------------------------------------------------------------
  // The listener
  // ---------------------------------------------------------------------------

  /** What waiting for the next raw buffer brings. */
  datatype Wait = Lost | Empty | Buffer(callbacks: seq<seq<EventCD>>)

  /** The events of all raw buffers received before an error. */
  function Stream(waits: seq<Wait>): seq<EventCD> {
    if waits == [] then []
    else
      var p, earlier := waits[|waits| - 1], waits[..|waits| - 1];
      Stream(earlier) + if p.Buffer? && Lost !in earlier then Concat(p.callbacks) else []
  }

  lemma StreamStart(waits: seq<Wait>)
    ensures EncodeAll(Stream(waits[..0])) == []
  {
  }

  lemma StreamSnoc(waits: seq<Wait>, n: nat)
    requires n < |waits|
    ensures Stream(waits[..n + 1]) == Stream(waits[..n])
              + if waits[n].Buffer? && Lost !in waits[..n] then Concat(waits[n].callbacks) else []
  {
    assert waits[..n + 1][..n] == waits[..n];
  }

  lemma {:induction false} StreamStops(waits: seq<Wait>, n: nat)
    requires n < |waits| && waits[n] == Lost
    ensures Stream(waits) == Stream(waits[..n])
    decreases |waits|
  {
    hide Stream, Concat;
    var last := |waits| - 1;
    StreamSnoc(waits, last);
    assert waits[..last + 1] == waits && Stream(waits[..last]) + [] == Stream(waits[..last]);
    if n == last {
    } else {
      assert waits[..last][n] == Lost && waits[..last][..n] == waits[..n];
      StreamStops(waits[..last], n);
    }
  }

  class Listener {
    const pipe: Pipe
    const pace: nat -> nat                 // how fast the controller reads
    var evtCtr: nat

    ghost const start: seq<Byte>           // bytes handed over before this listener
    ghost var waiting: seq<bv32>           // the events in the buffer
    ghost var handed: Batches              // batches handed over, oldest first

    /** The buffer starts with the events that wait, nothing is in flight, and of every batch the
        driver has been given the first quarter. */
    ghost predicate Ready()
      reads this, pipe, pipe.buffer
    {
      && pipe.buffer.Length >= BATCH_BYTES
      && evtCtr == |waiting| <= BATCH_SIZE
      && pipe.buffer[..WORD_BYTES * evtCtr] == Bytes(waiting)
      && Invariant(pipe.Abs(Filling))
      && pipe.handed == start + Quarters(handed)
    }

    ghost predicate Valid()
      reads this, pipe, pipe.buffer
    {
      Ready() && evtCtr < BATCH_SIZE
    }

    constructor (pipe: Pipe, pace: nat -> nat)
      requires pipe.buffer.Length >= BATCH_BYTES && Invariant(pipe.Abs(Filling))
      ensures Valid() && this.pipe == pipe && evtCtr == 0 && handed == []
    {
      this.pipe, this.pace, evtCtr := pipe, pace, 0;
      start, waiting, handed := pipe.handed, [], [];
    }

    /** Ask for a transfer of as many bytes as there are events in the buffer, and poll until it
        is over. */
    method HandOverBuffer()
      requires Ready() && evtCtr > 0
      modifies this`evtCtr, this`handed, this`waiting, pipe
      ensures Valid() && evtCtr == 0
      ensures handed == old(handed) + [old(waiting)]
    {
      hide Bytes, Quarters;
      assert pipe.buffer[..evtCtr] == Bytes(waiting)[..evtCtr];
      QuartersSnoc(handed, waiting);
      assert (start + Quarters(handed)) + Bytes(waiting)[..evtCtr] == start + Quarters(handed + [waiting]);
      GiveCount(evtCtr);
      evtCtr := 0;
      handed, waiting := handed + [waiting], [];
      assert Bytes([]) == [] by { NoBytes(); }
    }

    method GiveCount(count: nat)
      requires 0 < count <= BATCH_SIZE <= pipe.buffer.Length && Invariant(pipe.Abs(Filling))
      modifies pipe
      ensures Invariant(pipe.Abs(Filling)) && pipe.handed == old(pipe.handed) + pipe.buffer[..count]
    {
      hide Invariant, Part, Taken, Stuck;
      SmallLength(count, pipe.lengths);
      WholePart(pipe.buffer[..], count);
      var hung := Give(pipe, count, pace);
    }

    method StoreEvent(event: EventCD)
      requires Valid()
      modifies this`evtCtr, this`waiting, pipe`overwrites, pipe.buffer
      ensures Ready() && evtCtr == old(evtCtr) + 1
      ensures waiting == old(waiting) + [Encode(event)]
    {
      hide Encode, Bytes, Quarters, WordBytes;
      var w := Encode(event);
      PutAll(pipe, WORD_BYTES * evtCtr, WordBytes(w));
      BytesSnoc(waiting, w);
      evtCtr, waiting := evtCtr + 1, waiting + [w];
    }

    /** The events of the raw buffer in hand that the callbacks have seen are those in full
        batches handed over since `before`, then those waiting in the buffer. */
    ghost predicate Collected(before: Batches, ws: seq<bv32>)
      reads this
    {
      && |before| <= |handed| && handed[..|before|] == before
      && AllFull(handed[|before|..])
      && Concat(handed[|before|..]) + waiting == ws
    }

    lemma FullBatch(before: Batches, full: Batches, ws: seq<bv32>)
      requires AllFull(full) && |waiting| == BATCH_SIZE && Concat(full) + waiting == ws
      ensures AllFull(full + [waiting]) && Concat(full + [waiting]) + [] == ws
    {
      ConcatSnoc(full, waiting);
    }

    /** The body of the callback's loop. */
    method TakeEvent(event: EventCD, ghost before: Batches, ghost ws: seq<bv32>)
      requires Valid() && Collected(before, ws)
      modifies this`evtCtr, this`handed, this`waiting, pipe, pipe.buffer
      ensures Valid() && Collected(before, ws + [Encode(event)])
    {
      hide Encode, AllFull, Concat, Bytes, Quarters, Invariant;
      ghost var full, seen := handed[|before|..], ws + [Encode(event)];
      StoreEvent(event);
      assert Concat(full) + waiting == seen;
      if evtCtr == BATCH_SIZE {
        FullBatch(before, full, seen);
        ghost var batch := waiting;
        HandOverBuffer();
        assert handed[|before|..] == full + [batch];
      }
    }

    /** One decode callback, on the events from `first` to `last`. */
    method Callback(events: seq<EventCD>, ghost before: Batches, ghost ws: seq<bv32>)
      requires Valid() && Collected(before, ws)
      modifies this`evtCtr, this`handed, this`waiting, pipe, pipe.buffer
      ensures Valid() && Collected(before, ws + EncodeAll(events))
    {
      hide Encode, EncodeAll, Ready, Collected, Invariant;
      var it := 0;
      EncodeNothing(events);
      assert ws + [] == ws;
      while it < |events|
        invariant it <= |events|
        invariant Valid() && Collected(before, ws + EncodeAll(events[..it]))
      {
        EncodeNext(events, it);
        assert ws + EncodeAll(events[..it + 1]) == ws + EncodeAll(events[..it]) + [Encode(events[it])];
        TakeEvent(events[it], before, ws + EncodeAll(events[..it]));
        it := it + 1;
      }
      assert events[..it] == events;
    }

    /** MAIN RESULT. One turn of the main loop: a raw buffer, decoded by any number of callbacks,
        hands over exactly its own events, batched, and leaves nothing behind. */
    method ProcessRawBuffer(callbacks: seq<seq<EventCD>>)
      requires Valid() && evtCtr == 0
      modifies this`evtCtr, this`handed, this`waiting, pipe, pipe.buffer
      ensures Valid() && evtCtr == 0
      ensures |old(handed)| <= |handed| && handed[..|old(handed)|] == old(handed)
      ensures IsBatching(handed[|old(handed)|..], EncodeAll(Concat(callbacks)))
    {
      hide Bytes, Quarters, Invariant, Encode;
      ghost var before := handed;
      assert handed[|before|..] == [] && waiting == [];
      var c := 0;
      while c < |callbacks|
        invariant c <= |callbacks|
        invariant Valid() && Collected(before, EncodeAll(Concat(callbacks[..c])))
      {
        hide Concat, AllFull;
        ghost var seen := Concat(callbacks[..c]);
        Callback(callbacks[c], before, EncodeAll(seen));
        ConcatPrefix(callbacks, c);
        EncodeAppend(seen, callbacks[c]);
        c := c + 1;
      }
      assert callbacks[..c] == callbacks;
      ghost var full, tail := handed[|before|..], waiting;
      if evtCtr != 0 {
        HandOverBuffer();
        ConcatSnoc(full, tail);
        assert handed[|before|..] == full + [tail];
      } else {
        PollOnly();
        assert full == handed[|before|..];
      }
    }

    /** Nothing to send: the wait that follows every raw buffer ends at once. */
    method PollOnly()
      requires Valid()
      modifies pipe
      ensures Valid() && pipe.handed == old(pipe.handed)
    {
      hide Bytes, Quarters;
      NextKeepsInvariant(pipe.Abs(Filling), NothingToSend);
      WaitWhileBusy(pipe, pace);
    }

    /** MAIN RESULT. The main loop: an empty buffer is skipped, an error ends the loop. Over any
        run the events handed over are the encoded event stream, in order; no request is refused
        and nothing is written during a transfer; of every batch the controller has read the
        first quarter, so what it has read is the stream exactly when there was no event. */
    method Listen(waits: seq<Wait>)
      requires Valid() && evtCtr == 0 && handed == []
      modifies this`evtCtr, this`handed, this`waiting, pipe, pipe.buffer
      ensures Valid() && evtCtr == 0
      ensures Concat(handed) == EncodeAll(Stream(waits))
      ensures pipe.refused == pipe.overwrites == 0
      ensures pipe.moved == start + Quarters(handed)
      ensures pipe.moved == start + Bytes(EncodeAll(Stream(waits))) <==> Stream(waits) == []
    {
      hide Encode, Concat, Stream, EncodeAll, Bytes, Quarters, Invariant;
      var n := 0;
      StreamStart(waits);
      assert Concat(handed) == [] by { NoEvents(); }
      while n < |waits|
        invariant n <= |waits| && Valid() && evtCtr == 0 && Lost !in waits[..n]
        invariant Concat(handed) == EncodeAll(Stream(waits[..n]))
      {
        StreamSnoc(waits, n);
        match waits[n] {
          case Lost =>
            StreamStops(waits, n);
            break;
          case Empty =>
            assert Stream(waits[..n]) + [] == Stream(waits[..n]);
          case Buffer(callbacks) =>
            ghost var before := handed;
            EncodeAppend(Stream(waits[..n]), Concat(callbacks));
            ProcessRawBuffer(callbacks);
            assert handed == before + handed[|before|..];
            ConcatAppend(before, handed[|before|..]);
        }
        n := n + 1;
      }
      assert Stream(waits) == Stream(waits[..n]) by {
        if n == |waits| {
          assert waits[..n] == waits;
        }
      }
      Moved(Stream(waits));
    }

    lemma Moved(events: seq<EventCD>)
      requires Valid() && evtCtr == 0 && Concat(handed) == EncodeAll(events)
      ensures pipe.refused == pipe.overwrites == 0
      ensures pipe.moved == start + Quarters(handed)
      ensures pipe.moved == start + Bytes(EncodeAll(events)) <==> events == []
    {
      hide Encode, Concat, Bytes, Quarters;
      NothingLeftBehind(pipe.Abs(Filling));
      AllMovedIffNoEvents(handed);
      assert |EncodeAll(events)| == |events|;
    }
  }

  lemma NoBytes()
    ensures Bytes([]) == []
  {
  }

  lemma NoEvents()
    ensures Concat<bv32>([]) == []
  {
  }
}
