/** The upload retry loop: doubling pauses up to a cap, within an elapsed-time budget.
    Durations are nanoseconds. */
module Retry {
  import opened Text

  const MILLISECOND: nat := 1_000_000

  /** The largest Rust `Duration`. */
  const MAX_DURATION: nat := 0xFFFF_FFFF_FFFF_FFFF * 1_000_000_000 + 999_999_999

  type Duration = d: nat | d <= MAX_DURATION

  /** What one upload attempt answers; the decoded reply is opaque here. */
  datatype Attempt = Ok(value: string) | Permanent(error: string) | Transient(error: string)

  datatype Result = Success(value: string) | Failure(error: string)

  /** The settings, what each attempt answers and how long it takes, and how much longer than
      asked each sleep lasts. */
  datatype Plan = Plan(
    initialDelay: Duration, maxDelay: Duration, maxElapsed: Duration,
    attempt: nat -> Attempt, took: nat -> nat, overslept: nat -> nat)

  /** `d` doubled `n` times. */
  function Doubled(d: nat, n: nat): (r: nat)
    ensures r >= d
  {
    if n == 0 then d else 2 * Doubled(d, n - 1)
  }

  /** `n` times `d`. */
  function Times(n: nat, d: nat): nat {
    if n == 0 then 0 else Times(n - 1, d) + d
  }

  function FirstDelay(p: Plan): (d: Duration)
    ensures d >= MILLISECOND
  {
    Max(p.initialDelay, MILLISECOND)
  }

  function Cap(p: Plan): (d: Duration)
    ensures d >= FirstDelay(p)
  {
    Max(p.maxDelay, FirstDelay(p))
  }

  /** The pause the policy asks for after attempt `n`, in unbounded arithmetic. */
  function Pause(p: Plan, n: nat): int { Min(Doubled(FirstDelay(p), n), Cap(p)) }

  function Sum(s: seq<nat>): nat {
    if s == [] then 0 else Sum(s[..|s| - 1]) + s[|s| - 1]
  }

  /** The first pause is the configured one, at least a millisecond; the cap is the configured one,
      at least the first pause. */
  lemma SettingsAre(p: Plan)
    ensures FirstDelay(p) == (if p.initialDelay < 1_000_000 then 1_000_000 else p.initialDelay)
    ensures Cap(p) == (if p.maxDelay < FirstDelay(p) then FirstDelay(p) else p.maxDelay)
  {
  }

  lemma SumIs(s: seq<nat>, x: nat)
    ensures Sum([]) == 0 && Sum(s + [x]) == Sum(s) + x
  {
    assert (s + [x])[..|s|] == s;
  }

  /** Doubled `n` times is times the `n`-th power of two. */
  lemma {:induction false} DoubledIs(d: nat, n: nat)
    ensures Doubled(d, n) == d * Doubled(1, n) && Doubled(1, 0) == 1 && Doubled(1, n + 1) == 2 * Doubled(1, n)
  {
    if n > 0 { DoubledIs(d, n - 1); }
  }

  /** Doubling with a checked multiplication that falls back to the cap is plain doubling. */
  lemma DoublingIsExact(p: Plan, n: nat)
    ensures FirstDelay(p) <= Pause(p, n) <= Cap(p)
    ensures var doubled := 2 * Pause(p, n);
      Min(if doubled > MAX_DURATION then Cap(p) else doubled, Cap(p)) == Pause(p, n + 1)
  {
    assert Doubled(FirstDelay(p), n + 1) == 2 * Doubled(FirstDelay(p), n);
  }

  lemma {:induction false} TimesIsProduct(n: nat, d: nat)
    ensures Times(n, d) == n * d
  {
    if n > 0 { TimesIsProduct(n - 1, d); }
  }

  /** Fewer than `n` full pauses fit the budget, so `n` is at most the rounded-up quotient. */
  lemma CountBound(n: nat, d: nat, budget: nat)
    requires d > 0 && (n > 0 ==> Times(n - 1, d) < budget)
    ensures n <= (budget + d - 1) / d
  {
    if n > 0 {
      TimesIsProduct(n - 1, d);
      Quotient(n, d, budget + d - 1);
    }
  }

  lemma Quotient(n: nat, d: nat, b: nat)
    requires d > 0 && n * d <= b
    ensures n <= b / d
  {
    var q := b / d;
    DivMod(b, d);
    if q < n { BlocksApart(q, n, d); }
  }

  /** A history of the loop: `readings` are the `elapsed()` values, one after each attempt, and
      each sleep followed a transient answer within the budget. It is the policy's pause, cut
      to the budget that was left, and the next reading counts it. */
  ghost predicate IsHistory(p: Plan, readings: seq<nat>, sleeps: seq<nat>) {
    && |readings| == |sleeps| + 1
    && if sleeps == [] then readings[0] == p.took(0)
       else
         var n := |sleeps| - 1;
         && IsHistory(p, readings[..n + 1], sleeps[..n])
         && p.attempt(n).Transient? && readings[n] < p.maxElapsed
         && sleeps[n] == Min(Pause(p, n), p.maxElapsed - readings[n])
         && readings[n + 1] == readings[n] + sleeps[n] + p.overslept(n) + p.took(n + 1)
  }

  lemma HistoryStep(p: Plan, readings: seq<nat>, sleeps: seq<nat>, x: nat, later: nat)
    requires IsHistory(p, readings, sleeps)
    requires var n := |sleeps|;
      && p.attempt(n).Transient? && readings[n] < p.maxElapsed
      && x == Min(Pause(p, n), p.maxElapsed - readings[n])
      && later == readings[n] + x + p.overslept(n) + p.took(n + 1)
    ensures IsHistory(p, readings + [later], sleeps + [x])
  {
    var n := |sleeps|;
    var r: seq<nat>, s: seq<nat> := readings + [later], sleeps + [x];
    assert r[..n + 1] == readings && s[..n] == sleeps;
    assert r[n] == readings[n] && r[n + 1] == later && s[n] == x && |s| - 1 == n;
  }

  /** The readings count everything that passed: attempts, sleeps and what they overran. */
  lemma {:induction false} ReadingsAddUp(p: Plan, readings: seq<nat>, sleeps: seq<nat>, i: nat)
    requires IsHistory(p, readings, sleeps) && i <= |sleeps|
    ensures |readings| == |sleeps| + 1
    ensures readings[i] == if i == 0 then p.took(0) else readings[i - 1] + sleeps[i - 1] + p.overslept(i - 1) + p.took(i)
    decreases |sleeps|
  {
    var n := |sleeps| - 1;
    if i <= n {
      ReadingsAddUp(p, readings[..n + 1], sleeps[..n], i);
    }
  }

  /** Every sleep of a history is the doubled first pause, capped, and cut to the budget left. */
  lemma {:induction false} SleepsFollowPolicy(p: Plan, readings: seq<nat>, sleeps: seq<nat>, i: nat)
    requires IsHistory(p, readings, sleeps) && i < |sleeps|
    ensures p.attempt(i).Transient? && readings[i] < p.maxElapsed
    ensures sleeps[i] == Min(Min(Doubled(FirstDelay(p), i), Cap(p)), p.maxElapsed - readings[i])
    decreases |sleeps|
  {
    var n := |sleeps| - 1;
    if i < n {
      SleepsFollowPolicy(p, readings[..n + 1], sleeps[..n], i);
    }
  }

  lemma {:induction false} HistoryBudget(p: Plan, readings: seq<nat>, sleeps: seq<nat>)
    requires IsHistory(p, readings, sleeps)
    ensures var n, elapsed := |sleeps|, readings[|sleeps|];
      && Sum(sleeps) <= elapsed && Sum(sleeps) <= p.maxElapsed
      && (Times(n, FirstDelay(p)) <= elapsed || p.maxElapsed <= elapsed)
      && (n > 0 ==> Times(n - 1, FirstDelay(p)) < p.maxElapsed)
    decreases |sleeps|
  {
    if sleeps != [] {
      var n := |sleeps| - 1;
      HistoryBudget(p, readings[..n + 1], sleeps[..n]);
      DoublingIsExact(p, n);
    }
  }

  /** The sleeps of any history add up to no more than the budget, and the operation runs at
      most once more than first pauses fit it, rounded up. */
  lemma BudgetBounds(p: Plan, readings: seq<nat>, sleeps: seq<nat>)
    requires IsHistory(p, readings, sleeps)
    ensures Sum(sleeps) <= p.maxElapsed
    ensures |readings| <= (p.maxElapsed + FirstDelay(p) - 1) / FirstDelay(p) + 1
  {
    HistoryBudget(p, readings, sleeps);
    CountBound(|sleeps|, FirstDelay(p), p.maxElapsed);
  }

  /** `retry_transient`: its sleeps and readings are a history of the policy, and the last
      attempt's answer is the result, a transient one only when the budget is spent. */
  method RetryTransient(p: Plan) returns (result: Result, sleeps: seq<nat>, readings: seq<nat>)
    ensures IsHistory(p, readings, sleeps)
    ensures match p.attempt(|sleeps|)
            case Ok(v) => result == Success(v)
            case Permanent(e) => result == Failure(e)
            case Transient(e) => result == Failure(e) && readings[|sleeps|] >= p.maxElapsed
  {
    var delay: Duration, cap: Duration := FirstDelay(p), Cap(p);
    var elapsed := p.took(0);
    sleeps, readings := [], [elapsed];
    while true
      invariant IsHistory(p, readings, sleeps) && elapsed == readings[|sleeps|]
      invariant delay == Pause(p, |sleeps|) && cap == Cap(p)
      decreases p.maxElapsed - elapsed
    {
      var n := |sleeps|;
      match p.attempt(n) {
        case Ok(value) => return Success(value), sleeps, readings;
        case Permanent(error) => return Failure(error), sleeps, readings;
        case Transient(error) =>
          if elapsed >= p.maxElapsed { return Failure(error), sleeps, readings; }
          DoublingIsExact(p, n);
          var sleepFor: nat := Min(delay, p.maxElapsed - elapsed);
          var later: nat := elapsed + sleepFor + p.overslept(n) + p.took(n + 1);
          HistoryStep(p, readings, sleeps, sleepFor, later);
          sleeps, readings, elapsed := sleeps + [sleepFor], readings + [later], later;
          delay := Min(if 2 * delay > MAX_DURATION then cap else 2 * delay, cap);
      }
    }
  }
}
