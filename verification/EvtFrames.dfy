/** The frames that the event dispatcher delivers, and how credit bounds them. */
module EvtFrames {
  import opened EvtDispatcher
  import opened EvtConservation

  /** Beats delivered since the last one marked `last`. */
  function OpenLength(d: seq<Beat>): nat {
    if d == [] || d[|d| - 1].last then 0 else 1 + OpenLength(d[..|d| - 1])
  }

  /** The position of beat `k` in its frame, counting from 1: for a last beat, the length of
      the frame it closes. */
  function PlaceInFrame(d: seq<Beat>, k: nat): nat
    requires k < |d|
  {
    OpenLength(d[..k]) + 1
  }

  /** No frame outgrows `n`; one that is still open can take its last beat; one that was
      closed by credit has exactly `n` beats. */
  predicate FramesWithin(d: seq<Beat>, n: Size) {
    forall k :: 0 <= k < |d| ==>
      if d[k].last then PlaceInFrame(d, k) <= n && (d[k].credit ==> PlaceInFrame(d, k) == n)
      else PlaceInFrame(d, k) < n
  }

  predicate ClosingPending(s: Regs) { s.evtVld && s.evtLast }

  /** Beats delivered, the pending beat and the credit left add up to one frame; a pending
      closing beat leaves full credit behind it. An event is held whenever credit is spent. */
  predicate FrameInvariant(w: World, n: Size) {
    var s, open := w.regs, OpenLength(w.log.delivered);
    && FramesWithin(w.log.delivered, n)
    && (!s.pktRdy ==> IsReset(s) && w.log.delivered == [])
    && (s.pktRdy ==>
        && 1 <= s.frmCnt <= n
        && (s.frmCnt < n ==> s.rtgRdy)
        && (if ClosingPending(s)
            then s.frmCnt == n && open + 1 <= n && (w.log.credit ==> open + 1 == n)
            else open + Bit(s.evtVld) + s.frmCnt == n))
  }

  lemma DeliveryKeepsFrames(d: seq<Beat>, b: Beat, n: Size)
    requires FramesWithin(d, n)
    requires if b.last then OpenLength(d) + 1 <= n && (b.credit ==> OpenLength(d) + 1 == n)
             else OpenLength(d) + 1 < n
    ensures FramesWithin(d + [b], n)
    ensures OpenLength(d + [b]) == if b.last then 0 else OpenLength(d) + 1
  {
    var e := d + [b];
    assert e[..|d|] == d;
    forall k | 0 <= k < |d|
      ensures e[..k] == d[..k] && e[k] == d[k]
    {
    }
  }

  lemma FrameStep(w: World, i: Input, n: Size)
    requires FrameInvariant(w, n) && i.size == n >= 1
    ensures FrameInvariant(Advance(w, i), n)
  {
    var s := w.regs;
    if s.evtVld && i.evtRdy {
      DeliveryKeepsFrames(w.log.delivered, Beat(s.evtData, s.evtLast, w.log.credit), n);
    }
  }

  lemma {:induction false} FrameInvariantHolds(s0: Regs, trace: seq<Input>, n: Size)
    requires IsReset(s0) && SizeIs(trace, n) && n >= 1
    ensures FrameInvariant(Run(s0, trace), n)
    ensures trace != [] ==> Run(s0, trace).regs.pktRdy
  {
    if trace == [] {
    } else {
      FrameInvariantHolds(s0, trace[..|trace| - 1], n);
      FrameStep(Run(s0, trace[..|trace| - 1]), trace[|trace| - 1], n);
    }
  }

  // ---------------------------------------------------------------------------
  // Sizes that change
  // ---------------------------------------------------------------------------

  /** The frame size may be changed at any clock, to anything from 1 to `n`. */
  predicate SizesUpTo(trace: seq<Input>, n: nat) {
    forall i <- trace :: 1 <= i.size <= n
  }

  /** No frame, open or closed, has more than `m` beats. */
  predicate AtMost(d: seq<Beat>, m: nat) {
    forall k :: 0 <= k < |d| ==> PlaceInFrame(d, k) <= m
  }

  lemma OpenLengthSnoc(d: seq<Beat>, b: Beat)
    ensures OpenLength(d + [b]) == if b.last then 0 else OpenLength(d) + 1
  {
    assert (d + [b])[..|d|] == d;
  }

  lemma DeliveryKeepsBound(d: seq<Beat>, b: Beat, m: nat)
    requires AtMost(d, m) && OpenLength(d) + 1 <= m
    ensures AtMost(d + [b], m)
    ensures OpenLength(d + [b]) == if b.last then 0 else OpenLength(d) + 1
  {
    hide OpenLength;
    OpenLengthSnoc(d, b);
    var e := d + [b];
    forall k | 0 <= k < |e|
      ensures PlaceInFrame(e, k) <= m
    {
      if k == |d| {
        assert e[..k] == d;
      } else if k < |d| {
        assert e[..k] == d[..k];
        assert PlaceInFrame(d, k) <= m;
      }
    }
  }

  /** Beats delivered, the pending beat and the credit left make up at most one frame of the
      largest size. */
  predicate SizesInvariant(w: World, n: nat) {
    var s, open := w.regs, OpenLength(w.log.delivered);
    && AtMost(w.log.delivered, n)
    && (s.pktRdy ==> 1 <= s.frmCnt <= n)
    && (!s.pktRdy ==> IsReset(s) && w.log.delivered == [])
    && (if ClosingPending(s) then open + 1 <= n else open + Bit(s.evtVld) + s.frmCnt <= n)
  }

  lemma SizesStep(w: World, i: Input, n: nat)
    requires SizesInvariant(w, n) && 1 <= i.size <= n
    ensures SizesInvariant(Advance(w, i), n)
  {
    hide NewEvent, AtMost;
    var s := w.regs;
    if s.evtVld && i.evtRdy {
      DeliveryKeepsBound(w.log.delivered, Beat(s.evtData, s.evtLast, w.log.credit), n);
    }
  }

  /** In every run no frame outgrows the largest size in use, whatever the changes of size. */
  lemma {:induction false} FramesWithinLargestSize(s0: Regs, trace: seq<Input>, n: nat)
    requires IsReset(s0) && SizesUpTo(trace, n)
    ensures SizesInvariant(Run(s0, trace), n)
  {
    if trace == [] {
      assert OpenLength([]) == 0;
    } else {
      hide SizesInvariant, Advance;
      FramesWithinLargestSize(s0, trace[..|trace| - 1], n);
      assert trace[|trace| - 1] in trace;
      SizesStep(Run(s0, trace[..|trace| - 1]), trace[|trace| - 1], n);
    }
  }

  /** Credit never closes a frame of size 0: only ticks do. */
  lemma {:induction false} SizeZeroSpendsNoCredit(s0: Regs, trace: seq<Input>)
    requires IsReset(s0) && SizeIs(trace, 0)
    ensures var w := Run(s0, trace);
            w.regs.frmCnt == 0 && !w.log.credit && forall b <- w.log.delivered :: !b.credit
  {
    if trace == [] {
    } else {
      SizeZeroSpendsNoCredit(s0, trace[..|trace| - 1]);
      assert trace[|trace| - 1] in trace;
    }
  }
}
