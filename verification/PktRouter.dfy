/** The packet router (spif_common/src/pkt_router.sv): a 16-row ternary routing table with a
    priority encoder, and the counter that decides when a blocked packet is dropped. */
module PktRouter {
  import opened Arithmetic
  import opened Bits
  import opened Words

  const NUM_RTREGS: nat := 16
  const NUM_CHANS: nat := 8

  type Route = r: nat | r < NUM_CHANS

  datatype Row = Row(key: bv32, mask: bv32, route: Route)

  type Table = t: seq<Row> | |t| == NUM_RTREGS
    witness seq(NUM_RTREGS, _ => Row(0xffff_ffff, 0, 0))

  predicate Matches(r: Row, key: bv32) { And(key, r.mask) == r.key }

  /** One bit for each row. */
  function Hits(t: Table, key: bv32): (h: seq<bool>)
    ensures |h| == NUM_RTREGS
  {
    seq(NUM_RTREGS, k requires 0 <= k < NUM_RTREGS => Matches(t[k], key))
  }

  /** Row `k` of the encoder's case: bit `k` set, every lower bit clear. */
  predicate CaseRow(hits: seq<bool>, k: nat)
    requires k < |hits|
  {
    hits[k] && forall j :: 0 <= j < k ==> !hits[j]
  }

  /** The case statement from row `k` down; its default is route 0. */
  function Encode(t: Table, hits: seq<bool>, k: nat): Route
    requires |hits| == NUM_RTREGS && k <= NUM_RTREGS
    decreases NUM_RTREGS - k
  {
    if k == NUM_RTREGS then 0 else if CaseRow(hits, k) then t[k].route else Encode(t, hits, k + 1)
  }

  /** The channels selected in the switch: `hit ? (1 << route) : 0`. */
  function SwitchSelect(t: Table, key: bv32): (sel: seq<bool>)
    ensures |sel| == NUM_CHANS
  {
    var hits := Hits(t, key);
    seq(NUM_CHANS, c requires 0 <= c < NUM_CHANS => true in hits && c == Encode(t, hits, 0))
  }

  lemma {:induction false} EncodeFindsRow(t: Table, hits: seq<bool>, k: nat, first: nat)
    requires |hits| == NUM_RTREGS && k <= first < NUM_RTREGS && CaseRow(hits, first)
    ensures Encode(t, hits, k) == t[first].route
    decreases first - k
  {
    if k == first {
    } else {
      assert !hits[k];
      EncodeFindsRow(t, hits, k + 1, first);
    }
  }

  /** A ternary match, bit by bit: where the mask has a one the key must have the row's bit, and
      where it has a zero the row must have a zero. */
  predicate RowMatches(r: Row, key: bv32) {
    forall b :: 0 <= b < 32 ==> (HasBit(r.key, b) <==> HasBit(r.mask, b) && HasBit(key, b))
  }

  lemma MatchesBits(r: Row, key: bv32)
    ensures Matches(r, key) <==> RowMatches(r, key)
  {
    hide HasBit, And;
    Extensional(And(key, r.mask), r.key);
    forall b | 0 <= b < 32
      ensures HasBit(And(key, r.mask), b) <==> HasBit(r.mask, b) && HasBit(key, b)
    {
      AndBit(key, r.mask, b);
    }
  }

  predicate IsFirstMatch(t: Table, key: bv32, k: nat)
    requires k < 16
  {
    RowMatches(t[k], key) && forall j :: 0 <= j < k ==> !RowMatches(t[j], key)
  }

  lemma HitsAreMatches(t: Table, key: bv32)
    ensures forall k :: 0 <= k < 16 ==> (Hits(t, key)[k] <==> RowMatches(t[k], key))
  {
    hide Matches, RowMatches;
    forall k | 0 <= k < 16
      ensures Hits(t, key)[k] <==> RowMatches(t[k], key)
    {
      MatchesBits(t[k], key);
    }
  }

  /** MAIN RESULT. A packet selects exactly one channel of 8, that of the first of the 16 rows its
      key matches; a packet that no row matches selects none. */
  lemma FirstMatchRoutes(t: Table, key: bv32)
    ensures |SwitchSelect(t, key)| == 8
    ensures forall k :: 0 <= k < 16 && IsFirstMatch(t, key, k) ==>
              forall c :: 0 <= c < 8 ==> (SwitchSelect(t, key)[c] <==> c == t[k].route)
    ensures (forall k :: 0 <= k < 16 ==> !RowMatches(t[k], key)) <==> true !in SwitchSelect(t, key)
  {
    hide Matches, RowMatches;
    HitsAreMatches(t, key);
    var hits := Hits(t, key);
    forall k | 0 <= k < 16 && IsFirstMatch(t, key, k)
      ensures true in hits && Encode(t, hits, 0) == t[k].route
    {
      assert hits[k] && CaseRow(hits, k);
      EncodeFindsRow(t, hits, 0, k);
    }
    if k :| 0 <= k < 16 && RowMatches(t[k], key) {
      assert hits[k];
      assert SwitchSelect(t, key)[Encode(t, hits, 0)];
    }
  }

  // ---------------------------------------------------------------------------
  // Dropping blocked packets
  // ---------------------------------------------------------------------------

  function NextWait(cnt: nat, blocked: bool, dropWait: nat): nat {
    if cnt == 0 || !blocked then dropWait else cnt - 1
  }

  predicate Drop(cnt: nat, blocked: bool) { blocked && cnt == 0 }

  /** One clock: the switch's blocked signal, and the wait value, which may change at any clock. */
  datatype Cycle = Cycle(blocked: bool, dropWait: nat)

  function WaitCount(trace: seq<Cycle>): nat {
    if trace == [] then 0
    else
      var c := trace[|trace| - 1];
      NextWait(WaitCount(trace[..|trace| - 1]), c.blocked, c.dropWait)
  }

  lemma WaitStep(trace: seq<Cycle>, n: nat)
    requires n < |trace|
    ensures WaitCount(trace[..n + 1]) == NextWait(WaitCount(trace[..n]), trace[n].blocked, trace[n].dropWait)
  {
    assert trace[..n + 1][..n] == trace[..n];
  }

  /** A packet is dropped in clock `n`. */
  predicate DropAt(trace: seq<Cycle>, n: nat)
    requires n < |trace|
  {
    Drop(WaitCount(trace[..n]), trace[n].blocked)
  }

  /** Clock `n` is blocked, and so is every clock since clock `r`. */
  predicate BlockedSince(trace: seq<Cycle>, r: nat, n: nat)
    requires n < |trace|
  {
    forall k :: r < k <= n ==> trace[k].blocked
  }

  lemma {:induction false} CountsDown(trace: seq<Cycle>, r: nat, n: nat)
    requires r < n < |trace| && (DropAt(trace, r) || !trace[r].blocked)
    requires BlockedSince(trace, r, n) && n - r - 1 <= trace[r].dropWait
    ensures WaitCount(trace[..n]) == trace[r].dropWait - (n - r - 1)
    decreases n
  {
    hide WaitCount;
    WaitStep(trace, n - 1);
    if n == r + 1 {
    } else {
      CountsDown(trace, r, n - 1);
    }
  }

  /** MAIN RESULT. Whatever the wait value does: a clock that is free, or that drops a packet,
      fixes when the next one goes. While the output stays blocked nothing is dropped for as many
      clocks as the wait value said in that clock, and the packet after them is. */
  lemma NextDrop(trace: seq<Cycle>, r: nat, n: nat)
    requires r < n < |trace| && (DropAt(trace, r) || !trace[r].blocked)
    requires BlockedSince(trace, r, n) && n - r - 1 <= trace[r].dropWait
    ensures DropAt(trace, n) <==> n == r + 1 + trace[r].dropWait
  {
    hide WaitCount;
    CountsDown(trace, r, n);
  }

  predicate WaitIs(trace: seq<Cycle>, dropWait: nat) {
    forall c <- trace :: c.dropWait == dropWait
  }

  /** How many clocks the trace has been blocked without a break, at its end. */
  function BlockedFor(trace: seq<Cycle>): (n: nat)
    ensures n <= |trace|
  {
    if trace == [] || !trace[|trace| - 1].blocked then 0 else 1 + BlockedFor(trace[..|trace| - 1])
  }

  /** Place of the counter in its cycle; one that was never unblocked starts a cycle ahead. */
  function Phase(trace: seq<Cycle>, dropWait: nat): nat {
    Rest(BlockedFor(trace) + if BlockedFor(trace) == |trace| then dropWait else 0, dropWait)
  }

  /** What is left of `n` after whole cycles of `dropWait + 1` clocks. */
  function Rest(n: nat, dropWait: nat): (r: nat)
    ensures r <= dropWait
  {
    n % (dropWait + 1)
  }

  lemma {:induction false} WaitClosedForm(trace: seq<Cycle>, dropWait: nat)
    requires WaitIs(trace, dropWait)
    ensures WaitCount(trace) == dropWait - Phase(trace, dropWait)
  {
    if trace == [] {
      Remainder(dropWait, dropWait + 1, 0, dropWait);
    } else {
      var before, c := trace[..|trace| - 1], trace[|trace| - 1];
      assert c in trace;
      WaitClosedForm(before, dropWait);
      var lead := if BlockedFor(before) == |before| then dropWait else 0;
      NextPhase(BlockedFor(before) + lead, dropWait + 1);
      Remainder(0, dropWait + 1, 0, 0);
    }
  }

  /** MAIN RESULT. With a constant wait W, once the output has been free, a packet is dropped
      exactly on the blocked clocks whose blocked run has a length that is a multiple of W + 1; in
      a run that has been blocked since reset the first drop is at once. */
  lemma DropTiming(trace: seq<Cycle>, dropWait: nat)
    requires trace != [] && WaitIs(trace, dropWait)
    ensures var p := BlockedFor(trace);
            DropAt(trace, |trace| - 1) <==>
            p > 0 && Rest(if p < |trace| then p else p - 1, dropWait) == 0
  {
    hide WaitCount, BlockedFor, Rest;
    var p, before := BlockedFor(trace), trace[..|trace| - 1];
    WaitClosedForm(before, dropWait);
    BlockedNext(trace);
    if p == 0 {
    } else if p < |trace| {
      LastOfCycle(p - 1, dropWait);
    } else {
      LastOfCycle(p - 1 + dropWait, dropWait);
      AddCycle(p - 1, dropWait);
    }
  }

  lemma BlockedNext(trace: seq<Cycle>)
    requires trace != []
    ensures BlockedFor(trace) ==
            if trace[|trace| - 1].blocked then BlockedFor(trace[..|trace| - 1]) + 1 else 0
  {
  }

  lemma LastOfCycle(n: nat, w: nat)
    ensures Rest(n, w) == w <==> Rest(n + 1, w) == 0
  {
    NextPhase(n, w + 1);
  }

  lemma AddCycle(n: nat, w: nat)
    ensures Rest(n + w + 1, w) == Rest(n, w)
  {
    var p := w + 1;
    assert n + p == p * (n / p + 1) + n % p;
    Remainder(n + p, p, n / p + 1, n % p);
  }

  class Router {
    var waitCnt: nat

    ghost var trace: seq<Cycle>

    ghost predicate Valid()
      reads this
    {
      waitCnt == WaitCount(trace)
    }

    constructor ()
      ensures Valid() && trace == []
    {
      waitCnt, trace := 0, [];
    }

    /** One rising clock edge, `drop` being the wire during the clock before it. */
    method Clock(blocked: bool, dropWait: nat) returns (drop: bool)
      requires Valid()
      modifies this
      ensures Valid() && trace == old(trace) + [Cycle(blocked, dropWait)]
      ensures waitCnt == NextWait(old(waitCnt), blocked, dropWait) && drop == Drop(old(waitCnt), blocked)
      ensures drop == DropAt(trace, |trace| - 1)
    {
      drop := blocked && waitCnt == 0;
      if waitCnt == 0 || !blocked {
        waitCnt := dropWait;
      } else {
        waitCnt := waitCnt - 1;
      }
      trace := trace + [Cycle(blocked, dropWait)];
      assert trace[..|trace| - 1] == old(trace);
    }
  }
}
