/** The few facts about division by a symbolic size that the file system needs. */
module Arith {
  import opened FsLayout

  lemma {:induction false} TimesMonotone(a: nat, b: nat, n: nat)
    requires a <= b
    ensures 0 <= a * n <= b * n
    decreases b
  {
    if a < b {
      TimesMonotone(a, b - 1, n);
      assert b * n == (b - 1) * n + n;
    } else if 0 < a {
      TimesMonotone(a - 1, b - 1, n);
      assert a * n == (a - 1) * n + n;
    }
  }

  /** Positions q * n + r are ordered like the pairs (q, r). */
  lemma Below(n: Positive, q: nat, r: nat, q': nat, r': nat)
    requires r < n && q < q'
    ensures q * n + r < q' * n + r'
  {
    TimesMonotone(q + 1, q', n);
    assert (q + 1) * n == q * n + n;
  }

  /** Division recovers the quotient and the remainder it was built from. */
  lemma DivMod(n: Positive, q: nat, r: nat)
    requires r < n
    ensures 0 <= q * n && (q * n + r) / n == q && (q * n + r) % n == r
  {
    var x := q * n + r;
    assert 0 <= q * n;
    var q', r' := x / n, x % n;
    assert x == q' * n + r';
    if q' < q { Below(n, q', r', q, r); }
    if q < q' { Below(n, q, r, q', r'); }
  }

  /** The quotient and remainder of a position, and the bounds they obey. */
  lemma Split(n: Positive, x: nat, bound: nat)
    ensures 0 <= x / n && 0 <= x % n < n && x == (x / n) * n + x % n
    ensures x < bound * n <==> x / n < bound
  {
    assert x == (x / n) * n + x % n;
    if x / n < bound {
      Below(n, x / n, x % n, bound, 0);
    } else if bound < x / n {
      Below(n, bound, 0, x / n, x % n);
    }
  }
}
