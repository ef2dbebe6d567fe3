// Absolute values and fractions.
module Numbers {
  function Abs(x: real): (distance: real)
    ensures distance >= 0.0 && (distance == x || distance == -x)
  {
    if x < 0.0 then -x else x
  }

  lemma Quotient(n: nat, d: nat)
    requires d > 0
    ensures (n as real / d as real) * d as real == n as real
  {
  }

  /** Fractions compare by cross-multiplication. */
  lemma Fractions(n: nat, d: nat, m: nat, e: nat)
    requires d > 0 && e > 0
    ensures n as real / d as real <= m as real / e as real <==> n * e <= m * d
  {
    var x, y := n as real / d as real, m as real / e as real;
    Quotient(n, d);
    Quotient(m, e);
    assert x * (d * e) as real == (n * e) as real by {
      Regroup(x, d as real, e as real);
    }
    assert y * (d * e) as real == (m * d) as real by {
      Regroup(y, e as real, d as real);
    }
    Scaled(x, y, (d * e) as real);
  }

  lemma Regroup(x: real, p: real, q: real)
    ensures x * (p * q) == (x * p) * q
  {
  }

  lemma Scaled(x: real, y: real, k: real)
    requires k > 0.0
    ensures x <= y <==> x * k <= y * k
  {
  }
}
