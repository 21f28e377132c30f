/** The loss-of-sync state machine of the serial link (spif_common/src/hssl_interface.sv,
    lines 203 to 273), with its leaky-bucket error counter. */
module LossOfSync {

  const NUM_CLKC_FOR_SYNC: nat := 4
  const NUM_VLD_PER_INV: nat := 4
  const NUM_INV_FOR_LOSS: nat := 8

  datatype State = LossOfSync | Resync | SyncAcquired

  /** One clock of the receiver: a comma detected, wrong disparity or encoding, data received. */
  datatype Input = Input(comma: bool, invalid: bool, vld: bool)

  datatype Regs = Regs(state: State, resyncCnt: nat, invCnt: nat)

  const RESET := Regs(LossOfSync, 0, 0)

  function Step(s: Regs, i: Input): Regs {
    match s.state
    case LossOfSync => Regs(if i.comma then Resync else LossOfSync, 0, 0)
    case Resync =>
      Regs(if i.invalid then LossOfSync else if s.resyncCnt >= NUM_CLKC_FOR_SYNC then SyncAcquired else Resync,
           s.resyncCnt + 1, 0)
    case SyncAcquired =>
      Regs(if s.invCnt >= NUM_INV_FOR_LOSS then LossOfSync else SyncAcquired,
           0,
           if i.invalid then s.invCnt + NUM_VLD_PER_INV
           else if i.vld && s.invCnt != 0 then s.invCnt - 1
           else s.invCnt)
  }

  function Run(trace: seq<Input>): Regs {
    if trace == [] then RESET else Step(Run(trace[..|trace| - 1]), trace[|trace| - 1])
  }

  /** The registers after the first `n` clocks of a trace. */
  function At(trace: seq<Input>, n: nat): Regs
    requires n <= |trace|
  {
    Run(trace[..n])
  }

  lemma AtReset(trace: seq<Input>)
    ensures At(trace, 0) == RESET
  {
  }

  lemma AtStep(trace: seq<Input>, n: nat)
    requires n < |trace|
    ensures At(trace, n + 1) == Step(At(trace, n), trace[n])
  {
    assert trace[..n + 1][..n] == trace[..n];
  }

  predicate InSync(trace: seq<Input>, n: nat)
    requires n <= |trace|
  {
    At(trace, n).state == SyncAcquired
  }

  // ---------------------------------------------------------------------------
  // Gaining sync
  // ---------------------------------------------------------------------------

  /** A comma seen in loss of sync at clock `n - c - 1`, and only clean clocks since. */
  predicate CommaThenClean(trace: seq<Input>, n: nat, c: nat)
    requires n <= |trace|
  {
    && c < n
    && At(trace, n - c - 1).state == LossOfSync && trace[n - c - 1].comma
    && forall k :: n - c <= k < n ==> !trace[k].invalid
  }

  /** Where resynchronisation has got to: its counter tells how long ago the comma came. */
  lemma {:induction false} ResyncMeaning(trace: seq<Input>, n: nat)
    requires n <= |trace|
    ensures var s := At(trace, n);
            s.state == Resync ==> s.resyncCnt <= NUM_CLKC_FOR_SYNC && CommaThenClean(trace, n, s.resyncCnt)
  {
    hide Run, At;
    if n == 0 {
      AtReset(trace);
    } else {
      ResyncMeaning(trace, n - 1);
      AtStep(trace, n - 1);
    }
  }

  lemma {:induction false} CommaStartsResync(trace: seq<Input>, n: nat, c: nat)
    requires n <= |trace| && c <= NUM_CLKC_FOR_SYNC && CommaThenClean(trace, n, c)
    ensures At(trace, n) == Regs(Resync, c, 0)
    decreases c
  {
    hide Run, At;
    AtStep(trace, n - 1);
    if c == 0 {
    } else {
      assert CommaThenClean(trace, n - 1, c - 1);
      CommaStartsResync(trace, n - 1, c - 1);
    }
  }

  /** MAIN RESULT. Sync is gained at clock `n` exactly when a comma was seen in loss of sync
      six clocks earlier and the five clocks since were clean. */
  lemma SyncGainedIff(trace: seq<Input>, n: nat)
    requires 1 <= n <= |trace|
    ensures InSync(trace, n) && !InSync(trace, n - 1) <==>
            CommaThenClean(trace, n, 5)
  {
    hide Run, At;
    var c := NUM_CLKC_FOR_SYNC;
    ResyncMeaning(trace, n - 1);
    AtStep(trace, n - 1);
    if CommaThenClean(trace, n, c + 1) {
      assert CommaThenClean(trace, n - 1, c);
      CommaStartsResync(trace, n - 1, c);
    }
  }

  // ---------------------------------------------------------------------------
  // Losing sync
  // ---------------------------------------------------------------------------

  function Weight(i: Input): int {
    if i.invalid then 4 else if i.vld then -1 else 0
  }

  /** Invalid data, less what valid data has paid back, in the clocks from `j` up to `n`. */
  function Window(trace: seq<Input>, j: nat, n: nat): int
    requires j <= n <= |trace|
    decreases n
  {
    if j == n then 0 else Window(trace, j, n - 1) + Weight(trace[n - 1])
  }

  /** Sync gained at clock `m` and kept up to clock `n`. */
  predicate SyncPeriod(trace: seq<Input>, m: nat, n: nat)
    requires m <= n <= |trace|
  {
    && (m == 0 || !InSync(trace, m - 1))
    && forall k :: m <= k <= n ==> InSync(trace, k)
  }

  /** `c` is the largest window that ends at `n`; the empty one counts 0. */
  predicate IsLargestWindow(trace: seq<Input>, m: nat, n: nat, c: int)
    requires m <= n <= |trace|
  {
    && (forall j :: m <= j <= n ==> Window(trace, j, n) <= c)
    && (exists j :: m <= j <= n && Window(trace, j, n) == c)
  }

  /** MAIN RESULT. Within a period of sync the error counter is the largest window of the period
      that ends now. */
  lemma {:induction false} CounterIsLargestWindow(trace: seq<Input>, m: nat, n: nat)
    requires m <= n <= |trace| && SyncPeriod(trace, m, n)
    ensures IsLargestWindow(trace, m, n, At(trace, n).invCnt)
    decreases n
  {
    hide Run, At;
    if n == m {
      assert Window(trace, n, n) == 0;
      CounterStartsAtZero(trace, m);
    } else {
      CounterIsLargestWindow(trace, m, n - 1);
      AtStep(trace, n - 1);
      var before, now, w := At(trace, n - 1).invCnt, At(trace, n).invCnt, Weight(trace[n - 1]);
      assert InSync(trace, n - 1);
      assert now == if before + w > 0 then before + w else 0;
      forall j | m <= j < n
        ensures Window(trace, j, n) == Window(trace, j, n - 1) + w
      {
      }
      assert Window(trace, n, n) == 0;
      var j :| m <= j <= n - 1 && Window(trace, j, n - 1) == before;
      assert Window(trace, if before + w > 0 then j else n, n) == now;
    }
  }

  lemma CounterStartsAtZero(trace: seq<Input>, m: nat)
    requires m <= |trace| && SyncPeriod(trace, m, m)
    ensures At(trace, m).invCnt == 0
  {
    hide Run, At;
    assert InSync(trace, m);
    if m == 0 {
      AtReset(trace);
    } else {
      AtStep(trace, m - 1);
    }
  }

  predicate ReachesLimit(trace: seq<Input>, m: nat, k: nat)
    requires m <= k <= |trace|
  {
    exists j :: m <= j <= k && Window(trace, j, k) >= 8
  }

  /** MAIN RESULT. A period of sync outlives clock `n` exactly when no window inside it, up to
      `n`, has reached the limit. */
  lemma {:induction false} SyncKeptIff(trace: seq<Input>, m: nat, n: nat)
    requires m <= n < |trace| && SyncPeriod(trace, m, m)
    ensures SyncPeriod(trace, m, n + 1) <==> forall k :: m <= k <= n ==> !ReachesLimit(trace, m, k)
    decreases n
  {
    hide Run, At;
    AtStep(trace, n);
    if n <= m {
    } else {
      SyncKeptIff(trace, m, n - 1);
    }
    if SyncPeriod(trace, m, n) {
      LimitIsCounter(trace, m, n);
      assert InSync(trace, n);
      assert InSync(trace, n + 1) <==> At(trace, n).invCnt < NUM_INV_FOR_LOSS;
    } else {
      assert n > m;
    }
  }

  lemma LimitIsCounter(trace: seq<Input>, m: nat, n: nat)
    requires m <= n <= |trace| && SyncPeriod(trace, m, n)
    ensures ReachesLimit(trace, m, n) <==> At(trace, n).invCnt >= NUM_INV_FOR_LOSS
  {
    hide Run, At;
    CounterIsLargestWindow(trace, m, n);
    var c := At(trace, n).invCnt;
    var j :| m <= j <= n && Window(trace, j, n) == c;
  }

  /** Neither counter outgrows its register: 4 bits for `resync_cnt_int`, 5 for `inv_cnt_int`. */
  lemma {:induction false} CountersFit(trace: seq<Input>)
    ensures var s := Run(trace);
            && s.resyncCnt <= 5 && (s.state == Resync ==> s.resyncCnt <= 4)
            && s.invCnt < 16
            && (s.state == SyncAcquired ==> s.invCnt < 12)
  {
    if trace == [] {
    } else {
      CountersFit(trace[..|trace| - 1]);
    }
  }

  // ---------------------------------------------------------------------------
  // The registers themselves
  // ---------------------------------------------------------------------------

  class SyncMonitor {
    var state: State
    var resyncCnt: nat
    var invCnt: nat

    ghost var trace: seq<Input>

    function Registers(): Regs
      reads this
    {
      Regs(state, resyncCnt, invCnt)
    }

    ghost predicate Valid()
      reads this
    {
      Registers() == Run(trace)
    }

    constructor ()
      ensures Valid() && trace == []
    {
      state, resyncCnt, invCnt, trace := LossOfSync, 0, 0, [];
    }

    /** One rising clock edge, each counter in the block of its own. */
    method Clock(i: Input)
      requires Valid()
      modifies this
      ensures Valid() && trace == old(trace) + [i]
      ensures Registers() == Step(old(Registers()), i)
    {
      var resync' := 0;
      if state == Resync {
        resync' := resyncCnt + 1;
      }

      var inv' := 0;
      if state == SyncAcquired {
        inv' := invCnt;
        if i.invalid {
          inv' := invCnt + NUM_VLD_PER_INV;
        } else if i.vld && invCnt != 0 {
          inv' := invCnt - 1;
        }
      }

      match state {
        case LossOfSync =>
          if i.comma {
            state := Resync;
          }
        case Resync =>
          if i.invalid {
            state := LossOfSync;
          } else if resyncCnt >= NUM_CLKC_FOR_SYNC {
            state := SyncAcquired;
          }
        case SyncAcquired =>
          if invCnt >= NUM_INV_FOR_LOSS {
            state := LossOfSync;
          }
      }
      resyncCnt, invCnt := resync', inv';
      trace := trace + [i];
      assert trace[..|trace| - 1] == old(trace);
    }
  }
}
