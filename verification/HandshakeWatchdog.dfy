/** The watchdog that resets the transceiver when the handshake does not complete
    (spif_common/src/hssl_transceiver.v, lines 82 to 117). */
module HandshakeWatchdog {
  import opened Arithmetic

  const NUM_CLKC_FOR_HSR: nat := 75_000_000
  const LEN_HSR: nat := 128

  datatype Regs = Regs(cnt: nat, pulse: nat)

  predicate Reset(s: Regs) { s.pulse != 0 }

  function Step(s: Regs, handshake: bool): Regs {
    Regs(
      if handshake || Reset(s) then 0 else s.cnt + 1,
      if s.pulse != 0 then s.pulse - 1 else if s.cnt == NUM_CLKC_FOR_HSR then LEN_HSR else 0)
  }

  /** The registers after the handshake signal was `trace` since power-up. */
  function Run(trace: seq<bool>): Regs {
    if trace == [] then Regs(0, 0) else Step(Run(trace[..|trace| - 1]), trace[|trace| - 1])
  }

  function At(trace: seq<bool>, n: nat): (s: Regs)
    requires n <= |trace|
    ensures n == 0 ==> s == Regs(0, 0)
    ensures n > 0 ==> s == Step(Run(trace[..n - 1]), trace[n - 1])
  {
    assert n > 0 ==> trace[..n][..n - 1] == trace[..n - 1];
    Run(trace[..n])
  }

  /** Clock `k` sees neither a complete handshake nor a reset. */
  predicate Waiting(trace: seq<bool>, k: nat)
    requires k < |trace|
  {
    !trace[k] && !Reset(At(trace, k))
  }

  /** The last `n` clocks before clock `m` were all waiting. */
  predicate WaitedFor(trace: seq<bool>, m: nat, n: nat)
    requires m <= |trace|
  {
    n <= m && forall k :: m - n <= k < m ==> Waiting(trace, k)
  }

  /** The counter holds the waiting clocks since the last other one; the two registers stay
      within N + 1 and L, and the counter passes N only as a pulse starts. */
  lemma {:induction false} CounterMeaning(trace: seq<bool>, m: nat)
    requires m <= |trace|
    ensures var s := At(trace, m);
            && s.pulse <= LEN_HSR && s.cnt <= NUM_CLKC_FOR_HSR + 1
            && (s.cnt == NUM_CLKC_FOR_HSR + 1 ==> s.pulse == LEN_HSR)
            && (0 < s.pulse < LEN_HSR ==> s.cnt == 0)
            && WaitedFor(trace, m, s.cnt)
            && (s.cnt < m ==> !Waiting(trace, m - s.cnt - 1))
  {
    if m == 0 {
    } else {
      CounterMeaning(trace, m - 1);
    }
  }

  /** MAIN RESULT. A reset pulse starts exactly after N waiting clocks in a row. */
  lemma PulseStartsIff(trace: seq<bool>, m: nat)
    requires m < |trace|
    ensures !Reset(At(trace, m)) ==> (Reset(At(trace, m + 1)) <==> WaitedFor(trace, m, 75_000_000))
  {
    CounterMeaning(trace, m);
  }

  /** MAIN RESULT. Every reset pulse lasts exactly L clocks, whatever the handshake does. */
  lemma {:induction false} PulseLength(trace: seq<bool>, m: nat, k: nat)
    requires m + k < |trace| && k <= 128
    requires !Reset(At(trace, m)) && Reset(At(trace, m + 1))
    ensures At(trace, m + 1 + k).pulse == 128 - k
    decreases k
  {
    if k == 0 {
    } else {
      PulseLength(trace, m, k - 1);
    }
  }

  function Period(): nat { 75_000_129 }

  /** MAIN RESULT. With no handshake at all the reset is asserted at clock `n` exactly when `n`
      modulo N + 1 + L is at least N + 1. */
  lemma {:induction false} NeverHandshake(trace: seq<bool>)
    requires forall k :: 0 <= k < |trace| ==> !trace[k]
    ensures var s, r := Run(trace), |trace| % Period();
            && s == (if r <= 75_000_000 then Regs(r, 0)
                     else Regs(if r == 75_000_001 then r else 0, Period() - r))
            && (Reset(s) <==> r >= 75_000_001)
  {
    if trace == [] {
    } else {
      NeverHandshake(trace[..|trace| - 1]);
      NextPhase(|trace| - 1, Period());
    }
  }

  class Watchdog {
    var cnt: nat
    var pulse: nat

    ghost var trace: seq<bool>

    ghost predicate Valid()
      reads this
    {
      Regs(cnt, pulse) == Run(trace)
    }

    constructor ()
      ensures Valid() && trace == []
    {
      cnt, pulse, trace := 0, 0, [];
    }

    /** One rising edge of the free-running clock. */
    method Clock(handshake: bool) returns (reset: bool)
      requires Valid()
      modifies this
      ensures Valid() && trace == old(trace) + [handshake]
      ensures Regs(cnt, pulse) == Step(Regs(old(cnt), old(pulse)), handshake)
      ensures reset == Reset(Regs(old(cnt), old(pulse)))
    {
      reset := pulse != 0;
      var pulse' := pulse;
      if pulse != 0 {
        pulse' := pulse - 1;
      } else if cnt == NUM_CLKC_FOR_HSR {
        pulse' := LEN_HSR;
      }
      if handshake || reset {
        cnt := 0;
      } else {
        cnt := cnt + 1;
      }
      pulse := pulse';
      trace := trace + [handshake];
      assert trace[..|trace| - 1] == old(trace);
    }
  }
}
