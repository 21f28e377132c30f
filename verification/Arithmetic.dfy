/** Quotients and remainders of counters that go round. */
module Arithmetic {

  lemma MulStep(p: nat, a: int, b: int)
    requires a < b
    ensures p * a + p <= p * b
  {
    var d: nat := b - a - 1;
    assert b == a + 1 + d;
    assert p * (a + 1 + d) == p * a + p + p * d;
  }

  /** Division of naturals, with what it means. */
  function Div(n: nat, d: nat): (q: nat)
    requires d >= 1
    ensures d * q <= n < d * q + d
  {
    var q := n / d;
    assert n == d * q + n % d;
    assert q >= 0 by {
      if q < 0 {
        MulStep(d, q, 0);
        assert false;
      }
    }
    q
  }

  /** Quotient and remainder are unique. */
  lemma Remainder(n: nat, p: nat, q: nat, r: nat)
    requires n == p * q + r && r < p
    ensures n % p == r && n / p == q
  {
    assert n == p * (n / p) + n % p;
    if q < n / p {
      MulStep(p, q, n / p);
      assert false;
    } else if n / p < q {
      MulStep(p, n / p, q);
      assert false;
    }
  }

  /** One more clock of a counter that goes round every `p` clocks. */
  lemma NextPhase(n: nat, p: nat)
    requires p >= 1
    ensures (n + 1) % p == if n % p + 1 == p then 0 else n % p + 1
  {
    var q, r := n / p, n % p;
    if r + 1 == p {
      assert n + 1 == p * (q + 1) + 0;
      Remainder(n + 1, p, q + 1, 0);
    } else {
      Remainder(n + 1, p, q, r + 1);
    }
  }

  /** The first multiple of `p` at or after `k`. */
  function NextMultiple(k: nat, p: nat): (u: nat)
    requires p >= 1
    ensures k <= u < k + p && u % p == 0
  {
    var r := k % p;
    if r == 0 then k
    else
      assert k + p - r == p * (k / p + 1) + 0;
      Remainder(k + p - r, p, k / p + 1, 0);
      k + p - r
  }
}
