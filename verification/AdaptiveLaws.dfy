/** What the adaptive sampler decides over well-placed runs, in terms of each operation's own calls. */
module AdaptiveLaws {
  import opened Basics
  import opened Clock
  import TB = TokenBucket
  import opened Samplers
  import opened CreditLaws
  import opened Adaptive

  /** A limiter with this past would grant a trace now. */
  predicate LimiterGrants(start: TB.Bucket, past: seq<Call>, call: Call) {
    TB.Granted(TB.Run(start, ChecksOf(past)), TB.Check(call.now, 1.0))
  }

  ghost predicate GoodRun(cfg: Config, es: seq<Entry>, calls: seq<OpCall>) {
    Sorted(es) && MemoryHolds(calls) && RunWellPlaced(cfg, es, calls)
  }

  /**
    An operation with a sampler is sampled exactly if the draw is lucky or a standalone limiter
    run on the operation's own calls grants a trace; one without a sampler but with room is
    sampled as by a new limiter; without room the draw decides.
   */
  lemma {:induction false} DecideIff(cfg: Config, es: seq<Entry>, calls: seq<OpCall>, c: OpCall)
    requires GoodRun(cfg, es, calls) && c.findMemory && c.insertMemory
    ensures var r := Adaptive.Run(cfg, es, calls);
            Decide(cfg, r, c) <==>
            c.call.lucky ||
            match Own(cfg, ToMap(es), calls, c.op)
            case Some(h) => LimiterGrants(h.start, h.calls, c.call)
            case None => |r| < cfg.maxOperations && LimiterGrants(Limiter(cfg.lowerBound, c.created), [], c.call)
  {
    hide Own, Adaptive.Run, RunWellPlaced, Sorted, Lookup, TB.Run, TB.Granted, ChecksOf;
    EntryStateIsOwn(cfg, es, calls, c.op);
    match Own(cfg, ToMap(es), calls, c.op)
    case Some(h) =>
      DecisionIff(h.start, h.calls, c.call);
    case None =>
      DecisionIff(Limiter(cfg.lowerBound, c.created), [], c.call);
      NoCalls(Limiter(cfg.lowerBound, c.created));
  }

  lemma NoCalls(b: TB.Bucket)
    ensures RunCalls(b, []) == b
  {
  }

  /** The first call of an operation that meets room is sampled, whatever the draw. */
  lemma {:induction false} FirstCallSampled(cfg: Config, es: seq<Entry>, calls: seq<OpCall>, c: OpCall)
    requires GoodRun(cfg, es, calls) && c.findMemory && c.insertMemory
    requires Own(cfg, ToMap(es), calls, c.op) == None && |Adaptive.Run(cfg, es, calls)| < cfg.maxOperations
    requires cfg.lowerBound >= 0.0 && Normalised(c.created) && Normalised(c.call.now) && Nanos(c.created) <= Nanos(c.call.now)
    ensures Decide(cfg, Adaptive.Run(cfg, es, calls), c)
  {
    hide Own, Adaptive.Run, RunWellPlaced, Sorted, Decide;
    DecideIff(cfg, es, calls, c);
    var b := Limiter(cfg.lowerBound, c.created);
    assert ChecksOf([]) == [] && TB.Run(b, []) == b;
    LimiterInv(cfg.lowerBound, c.created);
    GrantedIff(b, TB.Check(c.call.now, 1.0));
    TB.Product(TB.Seconds(c.created, c.call.now), cfg.lowerBound);
  }

  /** A call at least 1/rate seconds after the operation's previous one is sampled, whatever the others did. */
  lemma {:induction false} OperationThroughput(cfg: Config, es: seq<Entry>, calls: seq<OpCall>, c: OpCall, h: History)
    requires GoodRun(cfg, es, calls) && c.findMemory && c.insertMemory && Own(cfg, ToMap(es), calls, c.op) == Some(h)
    requires TB.Inv(h.start) && h.start.rate > 0.0 && h.start.max >= 1.0 && TB.Orderly(h.start.last, ChecksOf(h.calls))
    requires TB.Seconds(TB.LastTime(h.start.last, ChecksOf(h.calls)), c.call.now) >= 1.0 / h.start.rate
    ensures Decide(cfg, Adaptive.Run(cfg, es, calls), c)
  {
    hide Own, Adaptive.Run, RunWellPlaced, Sorted, Decide, ChecksOf, TB.Granted, TB.Orderly;
    DecideIff(cfg, es, calls, c);
    TB.RunInv(h.start, ChecksOf(h.calls));
    TB.UnitGranted(TB.Run(h.start, ChecksOf(h.calls)), c.call.now);
  }

  // ----- strcmp

  /** The names differ first at position i, or the first ends there. */
  predicate DiffersAt(a: Name, b: Name, i: int) {
    0 <= i <= |a| && i < |b| && a[..i] == b[..i] && (i == |a| || a[i] < b[i])
  }

  lemma SamePrefix(a: Name, b: Name, n: nat)
    requires n <= |a| && n <= |b| && a[..n] == b[..n]
    ensures forall k :: 0 <= k < n ==> a[k] == b[k]
  {
    assert forall k :: 0 <= k < n ==> a[k] == a[..n][k] && b[k] == b[..n][k];
  }

  /** The order of the index is that of the first byte that differs. */
  lemma {:induction false} LessIff(a: Name, b: Name)
    ensures Less(a, b) <==> exists i :: DiffersAt(a, b, i)
  {
    if a != [] && b != [] && a[0] == b[0] {
      LessIff(a[1..], b[1..]);
      if i :| DiffersAt(a[1..], b[1..], i) {
        assert a[..i + 1] == [a[0]] + a[1..][..i] && b[..i + 1] == [b[0]] + b[1..][..i];
        assert DiffersAt(a, b, i + 1);
      }
      if i :| DiffersAt(a, b, i) {
        assert i > 0;
        assert a[1..][..i - 1] == a[..i][1..] && b[1..][..i - 1] == b[..i][1..];
        assert DiffersAt(a[1..], b[1..], i - 1);
      }
    } else {
      assert Less(a, b) ==> DiffersAt(a, b, 0);
      forall i | DiffersAt(a, b, i)
        ensures i == 0
      {
        SamePrefix(a, b, i);
      }
    }
  }
}
