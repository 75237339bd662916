/** Credit accounting of the token bucket (token_bucket.c), with reals for doubles. */
module TokenBucket {
  import opened Clock

  datatype Bucket = Bucket(rate: real, max: real, balance: real, last: Time)

  /** A check asks for some credit at some time. */
  datatype Check = Check(now: Time, cost: real)

  function Seconds(from: Time, to: Time): real { (Nanos(to) - Nanos(from)) as real / NANOS as real }

  function Refilled(b: Bucket, now: Time): real {
    var balance := b.balance + Seconds(b.last, now) * b.rate;
    if b.max < balance then b.max else balance
  }

  function Granted(b: Bucket, c: Check): bool { Refilled(b, c.now) >= c.cost }

  function After(b: Bucket, c: Check): Bucket {
    var balance := Refilled(b, c.now);
    b.(balance := if Granted(b, c) then balance - c.cost else balance, last := c.now)
  }

  function Run(b: Bucket, checks: seq<Check>): Bucket
    decreases |checks|
  {
    if checks == [] then b else Run(After(b, checks[0]), checks[1..])
  }

  /** Total cost of the checks that are granted. */
  function Spent(b: Bucket, checks: seq<Check>): real
    decreases |checks|
  {
    if checks == [] then 0.0
    else (if Granted(b, checks[0]) then checks[0].cost else 0.0) + Spent(After(b, checks[0]), checks[1..])
  }

  ghost predicate Inv(b: Bucket) { b.rate >= 0.0 && 0.0 <= b.balance <= b.max && Normalised(b.last) }

  /** A normalised monotone clock and nonnegative costs. */
  ghost predicate Orderly(last: Time, checks: seq<Check>)
    decreases |checks|
  {
    checks != [] ==>
      && Normalised(checks[0].now) && Nanos(last) <= Nanos(checks[0].now) && checks[0].cost >= 0.0
      && Orderly(checks[0].now, checks[1..])
  }

  /** Time of the last check. */
  function LastTime(last: Time, checks: seq<Check>): Time
    decreases |checks|
  {
    if checks == [] then last else LastTime(checks[0].now, checks[1..])
  }

  lemma Product(x: real, y: real)
    requires x >= 0.0 && y >= 0.0
    ensures x * y >= 0.0
  {
  }

  lemma SecondsAdd(a: Time, b: Time, c: Time, rate: real)
    ensures Seconds(a, c) * rate == Seconds(a, b) * rate + Seconds(b, c) * rate
  {
    assert Seconds(a, c) == Seconds(a, b) + Seconds(b, c);
  }

  lemma {:induction false} CheckInv(b: Bucket, c: Check)
    requires Inv(b) && Normalised(c.now) && Nanos(b.last) <= Nanos(c.now) && c.cost >= 0.0
    ensures Inv(After(b, c))
    ensures After(b, c).balance + (if Granted(b, c) then c.cost else 0.0) <= b.balance + Accrued(b.rate, b.last, c.now)
    ensures After(b, c).rate == b.rate && After(b, c).max == b.max
  {
    Product(Seconds(b.last, c.now), b.rate);
  }

  /** Credit that accrues between two times. */
  function Accrued(rate: real, from: Time, to: Time): real { Seconds(from, to) * rate }

  function TotalAccrued(rate: real, last: Time, checks: seq<Check>): real
    decreases |checks|
  {
    if checks == [] then 0.0
    else Accrued(rate, last, checks[0].now) + TotalAccrued(rate, checks[0].now, checks[1..])
  }

  lemma {:induction false} AccruedTelescopes(rate: real, last: Time, checks: seq<Check>)
    ensures TotalAccrued(rate, last, checks) == Accrued(rate, last, LastTime(last, checks))
    decreases |checks|
  {
    if checks == [] {
      assert Seconds(last, last) == 0.0;
    } else {
      AccruedTelescopes(rate, checks[0].now, checks[1..]);
      SecondsAdd(last, checks[0].now, LastTime(last, checks), rate);
    }
  }

  lemma {:induction false} RunInv(b: Bucket, checks: seq<Check>)
    requires Inv(b) && Orderly(b.last, checks)
    ensures Inv(Run(b, checks)) && Run(b, checks).max == b.max && Run(b, checks).rate == b.rate
    ensures Run(b, checks).last == LastTime(b.last, checks)
    ensures Spent(b, checks) + Run(b, checks).balance <= b.balance + TotalAccrued(b.rate, b.last, checks)
    decreases |checks|
  {
    if checks != [] {
      CheckInv(b, checks[0]);
      RunInv(After(b, checks[0]), checks[1..]);
    }
  }

  /**
    Over any window of any run: the balance stays within [0, max], and what was granted
    plus what is left is at most what was there plus the rate times the time that passed.
   */
  lemma {:induction false} RunBounds(b: Bucket, checks: seq<Check>)
    requires Inv(b) && Orderly(b.last, checks)
    ensures 0.0 <= Run(b, checks).balance <= b.max
    ensures Spent(b, checks) + Run(b, checks).balance <= b.balance + Accrued(b.rate, b.last, LastTime(b.last, checks))
  {
    RunInv(b, checks);
    AccruedTelescopes(b.rate, b.last, checks);
  }

  /** A unit request at least 1/rate seconds after the previous check is granted if the bucket can hold a unit. */
  lemma {:induction false} UnitGranted(b: Bucket, now: Time)
    requires Inv(b) && b.rate > 0.0 && b.max >= 1.0 && Seconds(b.last, now) >= 1.0 / b.rate
    ensures Granted(b, Check(now, 1.0))
  {
    assert (1.0 / b.rate) * b.rate == 1.0;
    Product(Seconds(b.last, now) - 1.0 / b.rate, b.rate);
    assert Seconds(b.last, now) * b.rate == (Seconds(b.last, now) - 1.0 / b.rate) * b.rate + (1.0 / b.rate) * b.rate;
  }

  class TokenBucket {
    var bucket: Bucket

    constructor (rate: real, max: real, now: Time)
      ensures bucket == Bucket(rate, max, max, now)
    {
      bucket := Bucket(rate, max, max, now);
    }

    /** jaeger_token_bucket_check_credit; on a monotone clock the assertion on the subtraction holds. */
    method CheckCredit(now: Time, cost: real) returns (granted: bool)
      requires Normalised(bucket.last) && Normalised(now) && Nanos(bucket.last) <= Nanos(now)
      modifies this
      ensures bucket == After(old(bucket), Check(now, cost))
      ensures granted == Granted(old(bucket), Check(now, cost))
    {
      var interval, result := Subtract(now, bucket.last);
      assert result;
      var diff := (interval.nsec as real / NANOS as real + interval.sec as real) * bucket.rate;
      IntervalIsSeconds(interval, bucket.last, now);
      var balance := bucket.balance + diff;
      bucket := bucket.(balance := if bucket.max < balance then bucket.max else balance, last := now);
      if bucket.balance < cost {
        return false;
      }
      bucket := bucket.(balance := bucket.balance - cost);
      granted := true;
    }
  }

  lemma IntervalIsSeconds(interval: Time, from: Time, to: Time)
    requires Nanos(interval) == Nanos(to) - Nanos(from)
    ensures interval.nsec as real / NANOS as real + interval.sec as real == Seconds(from, to)
  {
    assert Nanos(interval) as real == interval.sec as real * NANOS as real + interval.nsec as real;
  }
}
