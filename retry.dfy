/** The bounded retry loop that the driver writes five times:

      uint8_t cnt = SDIO_READ_RETRIES;
      for (;;) { <attempt>; if (<passed>) break; if (!--cnt) <give up>; }

    The counter is a `uint8_t` decremented before it is tested, so a budget
    of 0 wraps to 255 and allows 256 attempts. */
module Retry {

  /** `uint8_t`. */
  type uint8 = x: int | 0 <= x < 256

  /** `--cnt` on a `uint8_t`: 0 wraps to 255. */
  function PreDecrement(c: uint8): (r: uint8)
    ensures c > 0 ==> r == c - 1
    ensures c == 0 ==> r == 255
  {
    if c == 0 then 255 else c - 1
  }

  /** The number of attempts a loop started with counter `c` may make. */
  function Budget(c: uint8): (n: nat)
    ensures 1 <= n <= 256
    ensures c > 0 ==> n == c
    ensures c == 0 ==> n == 256
  {
    if c == 0 then 256 else c
  }

  /** A decrement that leaves the counter nonzero uses up one attempt of the
      budget; one that reaches zero was the last attempt. */
  lemma BudgetAfterDecrement(c: uint8)
    ensures PreDecrement(c) != 0 ==> Budget(PreDecrement(c)) == Budget(c) - 1
    ensures PreDecrement(c) == 0 ==> Budget(c) == 1
  {
  }

  /** How a retry loop ended: how many attempts it made and whether the last
      one passed. */
  datatype Outcome = Outcome(attempts: nat, passed: bool)

  /** The attempt that passes, if any, decides the run: attempt `i` passes when
      `pass(i)`; at most `left` attempts are made, numbered from `first`. */
  function Run(pass: nat -> bool, first: nat, left: nat): (o: Outcome)
    requires left >= 1
    ensures 1 <= o.attempts <= left
    ensures !o.passed ==> o.attempts == left
    decreases left
  {
    if pass(first) then Outcome(1, true)
    else if left == 1 then Outcome(1, false)
    else
      var rest := Run(pass, first + 1, left - 1);
      Outcome(rest.attempts + 1, rest.passed)
  }

  /** The value the counter holds after `k` pre-decrements from `r`, that is
      `(r - k) mod 256`, for `k` up to the budget. */
  function CounterAfter(r: uint8, k: nat): (c: uint8)
    requires k <= Budget(r)
    ensures k <= r ==> c == r - k
    ensures r < k ==> c == r - k + 256
  {
    var left := Budget(r) - k;
    if left == 256 then 0 else left
  }

  /** A counter whose budget is what is left after `k` attempts holds
      CounterAfter(r, k). */
  lemma CounterFromBudget(r: uint8, k: nat, c: uint8)
    requires k <= Budget(r) && Budget(c) == Budget(r) - k
    ensures c == CounterAfter(r, k)
  {
  }

  /** A loop that used its whole budget leaves the counter at zero. */
  lemma CounterExhausted(r: uint8)
    ensures ExitCounter(r, Outcome(Budget(r), false)) == 0
  {
  }

  /** CounterAfter is `k` wrapping pre-decrements. */
  lemma CounterAfterDecrements(r: uint8, k: nat)
    requires k <= Budget(r)
    ensures CounterAfter(r, k) == (r - k) % 256
    ensures PreDecrement(CounterAfter(r, k)) == (r - k - 1) % 256
  {
  }

  /** The value the counter holds when the loop is left: it was decremented
      once per failed attempt. */
  function ExitCounter(r: uint8, o: Outcome): (c: uint8)
    requires o.attempts <= Budget(r)
    requires 1 <= o.attempts
    ensures o.passed ==> (c == 0 <==> r == 0 && o.attempts == 1)
    ensures !o.passed ==> (c == 0 <==> o.attempts == Budget(r))
  {
    CounterAfter(r, if o.passed then o.attempts - 1 else o.attempts)
  }

  /** Attempt `k` passes after `k` failures: the loop stops there, having made
      exactly `k + 1` attempts. */
  lemma {:induction false} RunStopsAtFirstPass(pass: nat -> bool, first: nat, left: nat, k: nat)
    requires k < left
    requires forall j :: first <= j < first + k ==> !pass(j)
    requires pass(first + k)
    ensures Run(pass, first, left) == Outcome(k + 1, true)
    decreases k
  {
    if k > 0 {
      RunStopsAtFirstPass(pass, first + 1, left - 1, k - 1);
    }
  }

  /** Every attempt fails: the loop gives up after exactly `left` attempts. */
  lemma {:induction false} RunExhausted(pass: nat -> bool, first: nat, left: nat)
    requires left >= 1
    requires forall j :: first <= j < first + left ==> !pass(j)
    ensures Run(pass, first, left) == Outcome(left, false)
    decreases left
  {
    if left > 1 {
      RunExhausted(pass, first + 1, left - 1);
    }
  }

  /** Every attempt before the last one failed, and the last one passed
      exactly when the loop reports a pass. */
  lemma {:induction false} RunFailuresBeforeLast(pass: nat -> bool, first: nat, left: nat)
    requires left >= 1
    ensures var o := Run(pass, first, left);
      && (forall j :: first <= j < first + o.attempts - 1 ==> !pass(j))
      && o.passed == pass(first + o.attempts - 1)
    decreases left
  {
    if !pass(first) && left > 1 {
      RunFailuresBeforeLast(pass, first + 1, left - 1);
    }
  }

  /** The loop passes if and only if one of its `left` attempts passes. */
  lemma RunPassedIff(pass: nat -> bool, first: nat, left: nat)
    requires left >= 1
    ensures Run(pass, first, left).passed <==> exists j :: first <= j < first + left && pass(j)
  {
    var o := Run(pass, first, left);
    RunFailuresBeforeLast(pass, first, left);
    if !o.passed {
      forall j | first <= j < first + left
        ensures !pass(j)
      {
      }
    }
  }

  /** With a budget of at least one, the counter is zero at the end exactly
      when every attempt failed. */
  lemma ExitCounterZeroIff(pass: nat -> bool, first: nat, r: uint8)
    requires r >= 1
    ensures var o := Run(pass, first, Budget(r));
      ExitCounter(r, o) == 0 <==> !o.passed
  {
  }

  /** With a budget of 0 the counter wraps: a pass at the very first attempt
      also leaves the counter at zero. */
  lemma ExitCounterZeroBudget(pass: nat -> bool, first: nat)
    requires pass(first)
    ensures var o := Run(pass, first, Budget(0));
      o.passed && ExitCounter(0, o) == 0
  {
  }
}
