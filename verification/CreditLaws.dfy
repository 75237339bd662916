/** Exactly what a token bucket grants, in terms of its balance, its rate and the time that passed. */
module CreditLaws {
  import opened Clock
  import opened TokenBucket
  import opened Samplers

  /** A check the laws are about: later than the last one, at a nonnegative cost. */
  ghost predicate InOrder(b: Bucket, c: Check) {
    Inv(b) && Normalised(c.now) && Nanos(b.last) <= Nanos(c.now) && c.cost >= 0.0
  }

  /** Granted exactly if the bucket can hold the cost, and what was left and what accrued cover it. */
  lemma {:induction false} GrantedIff(b: Bucket, c: Check)
    requires InOrder(b, c)
    ensures Granted(b, c) <==> c.cost <= b.max && c.cost <= b.balance + Accrued(b.rate, b.last, c.now)
  {
  }

  /** The balance afterwards: what was left and what accrued, up to the maximum, less what was granted. */
  lemma {:induction false} BalanceAfter(b: Bucket, c: Check)
    requires InOrder(b, c)
    ensures var full := b.balance + Accrued(b.rate, b.last, c.now);
            var spent := if Granted(b, c) then c.cost else 0.0;
            && After(b, c).last == c.now
            && (full <= b.max ==> After(b, c).balance == full - spent)
            && (full >= b.max ==> After(b, c).balance == b.max - spent)
  {
  }

  /** At no check does credit spill over the maximum. */
  predicate NeverSpills(b: Bucket, checks: seq<Check>)
    decreases |checks|
  {
    checks == [] ||
    (b.balance + Accrued(b.rate, b.last, checks[0].now) <= b.max && NeverSpills(After(b, checks[0]), checks[1..]))
  }

  /** No credit is lost or made up over a run exactly if none spills over. */
  lemma {:induction false} RunExactIff(b: Bucket, checks: seq<Check>)
    requires Inv(b) && Orderly(b.last, checks)
    ensures Spent(b, checks) + Run(b, checks).balance == b.balance + Accrued(b.rate, b.last, LastTime(b.last, checks))
            <==> NeverSpills(b, checks)
    decreases |checks|
  {
    hide Accrued, Seconds, Refilled, Granted, After, Inv;
    AccruedAdd(b.rate, b.last, b.last, b.last);
    if checks != [] {
      var c := checks[0];
      var next := After(b, c);
      CheckInv(b, c);
      BalanceAfter(b, c);
      RunExactIff(next, checks[1..]);
      RunBounds(next, checks[1..]);
      AccruedAdd(b.rate, b.last, c.now, LastTime(b.last, checks));
    }
  }

  lemma AccruedAdd(rate: real, a: Time, b: Time, c: Time)
    ensures Accrued(rate, a, c) == Accrued(rate, a, b) + Accrued(rate, b, c)
  {
    SecondsAdd(a, b, c, rate);
  }

  // ----- bursts

  function Burst(now: Time, n: nat): seq<Check> { seq(n, _ => Check(now, 1.0)) }

  /** Of unit requests at once, as many are granted as the balance covers, one after the other. */
  lemma {:induction false} BurstGrants(b: Bucket, n: nat)
    requires Inv(b) && n as real <= b.balance
    ensures Run(b, Burst(b.last, n)) == b.(balance := b.balance - n as real)
    ensures Granted(Run(b, Burst(b.last, n)), Check(b.last, 1.0)) <==> (n + 1) as real <= b.balance
    decreases n
  {
    assert Seconds(b.last, b.last) == 0.0;
    GrantedIff(b, Check(b.last, 1.0));
    if n > 0 {
      var next := After(b, Check(b.last, 1.0));
      assert Burst(b.last, n)[0] == Check(b.last, 1.0) && Burst(b.last, n)[1..] == Burst(b.last, n - 1);
      BurstGrants(next, n - 1);
    } else {
      assert b.(balance := b.balance - 0.0) == b;
    }
  }

  /** A new limiter grants n + 1 traces at once exactly if n + 1 is at most its rate, or one. */
  lemma {:induction false} LimiterBurst(rate: real, now: Time, n: nat)
    requires rate >= 0.0 && Normalised(now) && (n <= 1 || n as real <= rate)
    ensures Granted(Run(Limiter(rate, now), Burst(now, n)), Check(now, 1.0)) <==> n == 0 || (n + 1) as real <= rate
  {
    BurstGrants(Limiter(rate, now), n);
  }

  // ----- the combined sampler

  /** It samples exactly if the draw is lucky or a limiter run on the same times would. */
  lemma {:induction false} DecisionIff(b: Bucket, calls: seq<Call>, next: Call)
    ensures Decision(RunCalls(b, calls), next) <==>
            next.lucky || Granted(Run(b, ChecksOf(calls)), Check(next.now, 1.0))
  {
    GuaranteedAtLeastLimiter(b, calls, next);
  }

  /** With all of its tags' copies made, the sampler leaves its kind and its parameter, in this order. */
  lemma {:induction false} TagsComplete(kind: Kind, param: real)
    ensures TagsOf(kind, param, TagMemory(true, true, true)) == [SamplerType(kind), SamplerParam(param)]
  {
  }

  /** A limiter never grants more than its burst and its rate times the time since it was made. */
  lemma {:induction false} LimiterBound(rate: real, start: Time, checks: seq<Check>)
    requires rate >= 0.0 && Normalised(start) && Orderly(start, checks)
    ensures Spent(Limiter(rate, start), checks) <=
            (if rate > 1.0 then rate else 1.0) + Accrued(rate, start, LastTime(start, checks))
  {
    hide Accrued, Spent, LastTime, Orderly;
    LimiterInv(rate, start);
    RunBounds(Limiter(rate, start), checks);
  }
}
