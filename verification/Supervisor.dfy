/** The restart loop of `run_supervised` in src/ble.rs: capped exponential backoff with a reset. */
module Supervisor {
  import opened Words

  const INITIAL_BACKOFF: nat := 1
  const MAX_BACKOFF: nat := 30
  const HEALTHY_RUN_THRESHOLD: real := 60.0

  function Min(a: nat, b: nat): nat {
    if a < b then a else b
  }

  /** How many failures lie between the most recent healthy run (or the start) and failure i. */
  function FailuresSince(ran: seq<real>, i: nat): nat
    requires i < |ran|
  {
    if i == 0 || ran[i] >= HEALTHY_RUN_THRESHOLD then 0 else FailuresSince(ran, i - 1) + 1
  }

  /** The delay, in seconds, requested after run i. */
  function Delay(ran: seq<real>, i: nat): nat
    requires i < |ran|
  {
    Min(Pow2(FailuresSince(ran, i)), MAX_BACKOFF)
  }

  /** `backoff` at the start of run i. */
  function BackoffBefore(ran: seq<real>, i: nat): nat
    requires i <= |ran|
  {
    if i == 0 then INITIAL_BACKOFF else Min(2 * Delay(ran, i - 1), MAX_BACKOFF)
  }

  lemma DoublingIsPower(j: nat)
    ensures Min(2 * Min(Pow2(j), MAX_BACKOFF), MAX_BACKOFF) == Min(Pow2(j + 1), MAX_BACKOFF)
  {
  }

  /** The loop over a finite history: run i of the listener lasted `ran[i]` seconds. */
  method RunSupervised(ran: seq<real>) returns (requested: seq<nat>)
    ensures |requested| == |ran| && forall i | 0 <= i < |ran| :: requested[i] == Delay(ran, i)
  {
    var backoff := INITIAL_BACKOFF;
    requested := [];
    for i := 0 to |ran|
      invariant |requested| == i && forall k | 0 <= k < i :: requested[k] == Delay(ran, k)
      invariant backoff == BackoffBefore(ran, i)
    {
      if ran[i] >= HEALTHY_RUN_THRESHOLD {
        backoff := INITIAL_BACKOFF;
      }
      if i > 0 { DoublingIsPower(FailuresSince(ran, i - 1)); }
      requested := requested + [backoff];
      backoff := Min(backoff * 2, MAX_BACKOFF);
    }
  }

  /** Counting from the last healthy run m (or from the start), the delays are 1, 2, 4, .., capped. */
  lemma {:induction false} BackoffClosedForm(ran: seq<real>, m: nat, i: nat)
    requires m <= i < |ran| && (m == 0 || ran[m] >= 60.0)
    requires forall k | m < k <= i :: ran[k] < 60.0
    ensures FailuresSince(ran, i) == i - m && Delay(ran, i) == Min(Pow2(i - m), 30)
  {
    if m < i { BackoffClosedForm(ran, m, i - 1); }
  }

  lemma DelayValues(ran: seq<real>, i: nat)
    requires i < |ran|
    ensures Delay(ran, i) in {1, 2, 4, 8, 16, 30}
    ensures ran[i] >= 60.0 ==> Delay(ran, i) == 1
  {
    var j := FailuresSince(ran, i);
    if j >= 5 {
      Pow2Monotone(5, j);
      assert Pow2(5) == 32;
    } else {
      assert Pow2(1) == 2 && Pow2(2) == 4 && Pow2(3) == 8 && Pow2(4) == 16;
    }
  }

  // ---- How often it can restart ----

  /** Run plus sleep time over the first n cycles. */
  function Elapsed(ran: seq<real>, slept: seq<real>, n: nat): real
    requires n <= |ran| == |slept|
  {
    if n == 0 then 0.0 else Elapsed(ran, slept, n - 1) + ran[n - 1] + slept[n - 1]
  }

  /** Credit saved up for a given next backoff, in fifths of a second. */
  function Potential(backoff: nat): nat {
    match backoff
    case 1 => 0
    case 2 => 86
    case 4 => 167
    case 8 => 238
    case 16 => 289
    case _ => 300
  }

  predicate Recorded(ran: seq<real>, slept: seq<real>) {
    |ran| == |slept| && forall i | 0 <= i < |ran| :: ran[i] >= 0.0 && slept[i] >= Delay(ran, i) as real
  }

  lemma BackoffValues(ran: seq<real>, i: nat)
    requires i <= |ran|
    ensures BackoffBefore(ran, i) in {1, 2, 4, 8, 16, 30}
  {
    if i > 0 { DelayValues(ran, i - 1); }
  }

  lemma DelayFromBackoff(ran: seq<real>, i: nat)
    requires i < |ran|
    ensures Delay(ran, i) == if ran[i] >= HEALTHY_RUN_THRESHOLD then INITIAL_BACKOFF else BackoffBefore(ran, i)
  {
    if i > 0 { DoublingIsPower(FailuresSince(ran, i - 1)); }
  }

  lemma {:induction false} Amortised(ran: seq<real>, slept: seq<real>, m: nat, n: nat)
    requires Recorded(ran, slept) && m <= n <= |ran|
    ensures 5.0 * (Elapsed(ran, slept, n) - Elapsed(ran, slept, m)) + Potential(BackoffBefore(ran, n)) as real
            >= 91.0 * (n - m) as real + Potential(BackoffBefore(ran, m)) as real
  {
    hide Delay, FailuresSince;
    if n > m {
      var i := n - 1;
      Amortised(ran, slept, m, i);
      DelayValues(ran, i);
      DelayFromBackoff(ran, i);
      BackoffValues(ran, i);
      var b, d := BackoffBefore(ran, i), Delay(ran, i);
      assert ran[i] < HEALTHY_RUN_THRESHOLD ==> d == b;
      assert 5.0 * (ran[i] + slept[i]) + Potential(Min(2 * d, MAX_BACKOFF)) as real >= 91.0 + Potential(b) as real;
    }
  }

  /** In every window of every history, the k cycles in it take at least (91 k - 300) / 5 seconds. */
  lemma RestartRate(ran: seq<real>, slept: seq<real>, m: nat, n: nat)
    requires Recorded(ran, slept) && m <= n <= |ran|
    ensures 5.0 * (Elapsed(ran, slept, n) - Elapsed(ran, slept, m)) >= 91.0 * (n - m) as real - 300.0
  {
    Amortised(ran, slept, m, n);
  }

  /** The bound is attained by arbitrarily long histories: fail at once until the cap is next, then
      stay up for exactly the threshold and start over. */
  function Worst(k: nat): seq<real> {
    if k == 0 then [0.0, 0.0, 0.0, 0.0, 0.0] else Worst(k - 1) + [60.0, 0.0, 0.0, 0.0, 0.0]
  }

  function WorstSleeps(k: nat): seq<real> {
    if k == 0 then [1.0, 2.0, 4.0, 8.0, 16.0] else WorstSleeps(k - 1) + [1.0, 2.0, 4.0, 8.0, 16.0]
  }

  lemma {:induction false} PrefixElapsed(r: seq<real>, s: seq<real>, ran: seq<real>, slept: seq<real>, n: nat)
    requires n <= |r| == |s| && |ran| == |slept| && r <= ran && s <= slept
    ensures Elapsed(r, s, n) == Elapsed(ran, slept, n)
  {
    if n > 0 { PrefixElapsed(r, s, ran, slept, n - 1); }
  }

  lemma {:induction false} PrefixFailures(r: seq<real>, ran: seq<real>, i: nat)
    requires r <= ran && i < |r|
    ensures FailuresSince(r, i) == FailuresSince(ran, i)
  {
    if i > 0 { PrefixFailures(r, ran, i - 1); }
  }

  lemma PrefixDelays(r: seq<real>, ran: seq<real>)
    requires r <= ran
    ensures forall i | 0 <= i < |r| :: Delay(r, i) == Delay(ran, i)
  {
    forall i | 0 <= i < |r| ensures Delay(r, i) == Delay(ran, i) { PrefixFailures(r, ran, i); }
  }

  /** Five cycles from the start or from a healthy run: delays 1, 2, 4, 8, 16. */
  lemma FiveCycles(ran: seq<real>, slept: seq<real>, n: nat)
    requires |ran| == |slept| == n + 5 && (n == 0 || ran[n] >= HEALTHY_RUN_THRESHOLD)
    requires ran[n + 1..] == [0.0, 0.0, 0.0, 0.0] && slept[n..] == [1.0, 2.0, 4.0, 8.0, 16.0]
    ensures Elapsed(ran, slept, n + 5) == Elapsed(ran, slept, n) + ran[n] + 31.0
    ensures forall i | n <= i < n + 5 :: slept[i] == Delay(ran, i) as real
  {
    forall i | n <= i < n + 5
      ensures slept[i] == Delay(ran, i) as real && (i > n ==> ran[i] == 0.0)
    {
      assert forall j | n < j < n + 5 :: ran[j] == ran[n + 1..][j - n - 1];
      assert slept[i] == slept[n..][i - n];
      BackoffClosedForm(ran, n, i);
      assert Pow2(0) == 1 && Pow2(1) == 2 && Pow2(2) == 4 && Pow2(3) == 8 && Pow2(4) == 16;
    }
    hide Delay;
    assert Elapsed(ran, slept, n + 2) == Elapsed(ran, slept, n) + ran[n] + slept[n] + ran[n + 1] + slept[n + 1];
    assert Elapsed(ran, slept, n + 4)
        == Elapsed(ran, slept, n + 2) + ran[n + 2] + slept[n + 2] + ran[n + 3] + slept[n + 3];
    assert slept[n] == slept[n..][0] && slept[n + 1] == slept[n..][1] && slept[n + 2] == slept[n..][2];
    assert slept[n + 3] == slept[n..][3] && slept[n + 4] == slept[n..][4];
  }

  lemma {:induction false} RateIsTight(k: nat)
    ensures |Worst(k)| == |WorstSleeps(k)| == 5 * k + 5 && Recorded(Worst(k), WorstSleeps(k))
    ensures 5.0 * Elapsed(Worst(k), WorstSleeps(k), |Worst(k)|) == 91.0 * |Worst(k)| as real - 300.0
  {
    var ran, slept, n := Worst(k), WorstSleeps(k), 5 * k;
    if k > 0 {
      RateIsTight(k - 1);
      PrefixElapsed(Worst(k - 1), WorstSleeps(k - 1), ran, slept, n);
      PrefixDelays(Worst(k - 1), ran);
    }
    FiveCycles(ran, slept, n);
  }
}
