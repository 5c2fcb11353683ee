/** The sender's retry delay (internal/sender/sender.go). */
module Backoff {

  function Doubled(base: nat, n: nat): nat {
    if n == 0 then base else 2 * Doubled(base, n - 1)
  }

  lemma {:induction false} DoubledGrows(base: nat, i: nat, n: nat)
    requires i <= n
    ensures Doubled(base, i) <= Doubled(base, n)
  {
    if i < n {
      DoubledGrows(base, i, n - 1);
    }
  }

  /** Nothing before the first retry, then the base doubled with every further retry up to `max`. The
      first retry waits for the base even if that exceeds `max`. */
  method RetryDelay(base: nat, max: nat, n: int) returns (d: nat)
    ensures n <= 0 ==> d == 0
    ensures n == 1 ==> d == base
    ensures n >= 2 ==> d == if Doubled(base, n - 1) < max then Doubled(base, n - 1) else max
    ensures d <= max <==> n != 1 || base <= max
  {
    if n <= 0 {
      return 0;
    }
    d := base;
    for i := 1 to n
      invariant d == Doubled(base, i - 1) && (i > 1 ==> d < max)
    {
      d := d * 2;
      if d >= max {
        DoubledGrows(base, i, n - 1);
        return max;
      }
    }
  }
}
