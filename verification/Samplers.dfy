/** The rate-limiting and the guaranteed-throughput sampler (sampler.c). */
module Samplers {
  import opened Clock
  import opened TokenBucket
  import opened Vector

  /** A fresh rate limiter: a full bucket that holds at least one trace. */
  function Limiter(rate: real, now: Time): Bucket {
    var max := if 1.0 > rate then 1.0 else rate;
    Bucket(rate, max, max, now)
  }

  lemma {:induction false} LimiterInv(rate: real, now: Time)
    requires rate >= 0.0 && Normalised(now)
    ensures Inv(Limiter(rate, now)) && Limiter(rate, now).max >= 1.0
  {
  }

  /** A call of is_sampled: when, and what the probabilistic sampler's random draw says. */
  datatype Call = Call(now: Time, lucky: bool)

  // ----- the tags a decision leaves

  datatype Kind = Probabilistic | RateLimiting | LowerBound
  datatype Tag = SamplerType(kind: Kind) | SamplerParam(value: real)

  /** Which allocations succeed: growing the vector for two tags, copying each. */
  datatype TagMemory = TagMemory(reserve: bool, first: bool, second: bool)

  function TagsOf(kind: Kind, param: real, m: TagMemory): seq<Tag> {
    (if m.first then [SamplerType(kind)] else []) + if m.second then [SamplerParam(param)] else []
  }

  /** The tags after a decision: none are added unless there is room for two. */
  ghost function Tagged(tags: Vector<Tag>, kind: Kind, param: real, m: TagMemory): seq<Tag>
    requires tags.Valid()
    reads tags, tags.data
  {
    tags.Contents() + if tags.len + 2 <= tags.data.Length || m.reserve then TagsOf(kind, param, m) else []
  }

  method AppendTag(tags: Vector<Tag>, tag: Tag, copied: bool)
    requires tags.Valid() && tags.len < tags.data.Length
    modifies tags, tags.data
    ensures tags.Valid() && tags.Contents() == old(tags.Contents()) + if copied then [tag] else []
    ensures tags.data == old(tags.data)
  {
    if copied {
      tags.MoveUp(tags.len, tag);
    }
  }

  method AddTags(tags: Vector?<Tag>, kind: Kind, param: real, m: TagMemory)
    requires tags != null ==> tags.Valid()
    modifies if tags == null then {} else {tags, tags.data}
    ensures tags != null ==> tags.Valid() && tags.Contents() == old(Tagged(tags, kind, param, m))
    ensures tags != null ==> tags.data == old(tags.data) || fresh(tags.data)
  {
    if tags != null {
      var ok := tags.Reserve(tags.len + 2, m.reserve);
      if ok {
        AppendTag(tags, SamplerType(kind), m.first);
        AppendTag(tags, SamplerParam(param), m.second);
      }
    }
  }

  class RateLimitingSampler {
    const tok: TokenBucket
    const maxTracesPerSecond: real

    constructor (maxTracesPerSecond: real, now: Time)
      ensures tok.bucket == Limiter(maxTracesPerSecond, now) && fresh(tok) && this.maxTracesPerSecond == maxTracesPerSecond
    {
      this.maxTracesPerSecond := maxTracesPerSecond;
      tok := new TokenBucket(maxTracesPerSecond, if 1.0 > maxTracesPerSecond then 1.0 else maxTracesPerSecond, now);
    }

    method IsSampled(now: Time, tags: Vector?<Tag>, m: TagMemory) returns (decision: bool)
      requires Normalised(tok.bucket.last) && Normalised(now) && Nanos(tok.bucket.last) <= Nanos(now)
      requires tags != null ==> tags.Valid()
      modifies tok, if tags == null then {} else {tags, tags.data}
      ensures tok.bucket == After(old(tok.bucket), Check(now, 1.0))
      ensures decision == Granted(old(tok.bucket), Check(now, 1.0))
      ensures tags != null ==>
                tags.Valid() && tags.Contents() == old(Tagged(tags, RateLimiting, maxTracesPerSecond, m))
    {
      decision := tok.CheckCredit(now, 1.0);
      AddTags(tags, RateLimiting, maxTracesPerSecond, m);
    }
  }

  function Clamp(rate: real): real { if rate < 0.0 then 0.0 else if rate > 1.0 then 1.0 else rate }

  class GuaranteedThroughputSampler {
    const samplingRate: real
    const lowerBound: RateLimitingSampler

    constructor (lowerBound: real, samplingRate: real, now: Time)
      ensures this.lowerBound.tok.bucket == Limiter(lowerBound, now) && this.samplingRate == Clamp(samplingRate)
    {
      this.samplingRate := Clamp(samplingRate);
      this.lowerBound := new RateLimitingSampler(lowerBound, now);
    }

    /** Both branches draw on the lower-bound sampler; the tags tell which one decided. */
    method IsSampled(call: Call, tags: Vector?<Tag>, m: TagMemory) returns (decision: bool)
      requires Normalised(lowerBound.tok.bucket.last) && Normalised(call.now)
      requires Nanos(lowerBound.tok.bucket.last) <= Nanos(call.now)
      requires tags != null ==> tags.Valid()
      modifies lowerBound.tok, if tags == null then {} else {tags, tags.data}
      ensures lowerBound.tok.bucket == NextBucket(old(lowerBound.tok.bucket), call)
      ensures decision == Decision(old(lowerBound.tok.bucket), call)
      ensures tags != null ==> tags.Valid()
      ensures tags != null && call.lucky ==> tags.Contents() == old(Tagged(tags, Probabilistic, samplingRate, m))
      ensures tags != null && !call.lucky ==>
                tags.Contents() == old(Tagged(tags, LowerBound, lowerBound.maxTracesPerSecond, m))
    {
      decision := call.lucky;
      if decision {
        var ignored := lowerBound.IsSampled(call.now, null, m);
        AddTags(tags, Probabilistic, samplingRate, m);
        return true;
      }
      decision := lowerBound.IsSampled(call.now, null, m);
      AddTags(tags, LowerBound, lowerBound.maxTracesPerSecond, m);
    }
  }

  function NextBucket(b: Bucket, call: Call): Bucket { After(b, Check(call.now, 1.0)) }

  function Decision(b: Bucket, call: Call): bool { call.lucky || Granted(b, Check(call.now, 1.0)) }

  // ----- runs

  function RunCalls(b: Bucket, calls: seq<Call>): Bucket {
    if calls == [] then b else NextBucket(RunCalls(b, calls[..|calls| - 1]), calls[|calls| - 1])
  }

  /** The checks a standalone limiter sees at the same times. */
  function ChecksOf(calls: seq<Call>): seq<Check> { seq(|calls|, i requires 0 <= i < |calls| => Check(calls[i].now, 1.0)) }

  lemma {:induction false} RunSnoc(b: Bucket, checks: seq<Check>, c: Check)
    ensures Run(b, checks + [c]) == After(Run(b, checks), c)
    decreases |checks|
  {
    if checks == [] {
      assert [c][1..] == [] && ([] + [c])[0] == c && ([] + [c])[1..] == [];
    } else {
      assert (checks + [c])[0] == checks[0] && (checks + [c])[1..] == checks[1..] + [c];
      RunSnoc(After(b, checks[0]), checks[1..], c);
    }
  }

  /**
    Whatever the random draws, the combined sampler's bucket goes through the states of a
    standalone limiter fed the same times, and it samples whenever that limiter would.
   */
  lemma {:induction false} GuaranteedAtLeastLimiter(b: Bucket, calls: seq<Call>, next: Call)
    ensures RunCalls(b, calls) == Run(b, ChecksOf(calls))
    ensures Granted(Run(b, ChecksOf(calls)), Check(next.now, 1.0)) ==> Decision(RunCalls(b, calls), next)
    decreases |calls|
  {
    if calls != [] {
      var n := |calls| - 1;
      GuaranteedAtLeastLimiter(b, calls[..n], next);
      assert ChecksOf(calls) == ChecksOf(calls[..n]) + [Check(calls[n].now, 1.0)];
      RunSnoc(b, ChecksOf(calls[..n]), Check(calls[n].now, 1.0));
    }
  }

  /** In any orderly run, a call at least 1/rate seconds after the previous one is sampled. */
  lemma {:induction false} ThroughputGuaranteed(rate: real, start: Time, calls: seq<Call>, next: Call)
    requires rate > 0.0 && Normalised(start) && Orderly(start, ChecksOf(calls))
    requires Seconds(LastTime(start, ChecksOf(calls)), next.now) >= 1.0 / rate
    ensures Decision(RunCalls(Limiter(rate, start), calls), next)
  {
    var b := Limiter(rate, start);
    LimiterInv(rate, start);
    RunInv(b, ChecksOf(calls));
    GuaranteedAtLeastLimiter(b, calls, next);
    UnitGranted(RunCalls(b, calls), next.now);
  }
}
