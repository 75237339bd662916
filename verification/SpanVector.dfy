/**
  The reporter's span vector as a value beside its queue: whether the data pointer is NULL, and
  the capacity field.  A report trusts both; a flush can leave either in a bad state.  The run
  theorem says exactly which runs of reports and flushes conserve their spans.
 */
module SpanVector {
  import opened Basics
  import opened ReporterSpec
  import opened Batching

  const INIT_CAPACITY: nat := 10

  // ----- vector capacities: ten times a power of two

  predicate IsCapacity(n: nat, e: nat) { n == INIT_CAPACITY * Pow2(e) }

  /** The doubling loop of jaeger_vector_reserve. */
  function Aligned(capacity: nat, n: nat): (c: nat)
    requires capacity > 0
    ensures c >= n && c >= capacity
    decreases n - capacity
  {
    if capacity >= n then capacity else Aligned(2 * capacity, n)
  }

  /** Doubling stops at the least capacity that is large enough. */
  lemma {:induction false} AlignedLeast(e: nat, n: nat, f: nat)
    requires e <= f && n <= INIT_CAPACITY * Pow2(f)
    ensures Aligned(INIT_CAPACITY * Pow2(e), n) <= INIT_CAPACITY * Pow2(f)
    ensures exists g :: e <= g <= f && IsCapacity(Aligned(INIT_CAPACITY * Pow2(e), n), g)
    decreases f - e
  {
    if INIT_CAPACITY * Pow2(e) >= n {
      Pow2Monotone(e, f);
      assert IsCapacity(Aligned(INIT_CAPACITY * Pow2(e), n), e);
    } else {
      Pow2Monotone(e, f);
      AlignedLeast(e + 1, n, f);
    }
  }

  lemma AlignedIsCapacity(e: nat, n: nat) returns (g: nat)
    ensures IsCapacity(Aligned(INIT_CAPACITY * Pow2(e), n), g)
  {
    Pow2Grows(n);
    Pow2Monotone(n, e + n);
    AlignedLeast(e, n, e + n);
    g :| e <= g <= e + n && IsCapacity(Aligned(INIT_CAPACITY * Pow2(e), n), g);
  }

  // ----- the vector and its operations

  /** Aborted: an assertion has failed.  Torn: spans in the queue were overwritten with NULL. */
  datatype Status = Running | Aborted | Torn

  datatype Vec = Vec(state: State, isNull: bool, capacity: nat, status: Status)

  const Start: Vec := Vec(Empty, false, INIT_CAPACITY, Running)

  predicate WellFormed(v: Vec) { v.capacity > 0 && (v.isNull ==> v.state.queue == []) }

  /** What a report needs and does not check. */
  predicate Healthy(v: Vec) { !v.isNull && |v.state.queue| <= v.capacity }

  /**
    A report, by whether there is memory to grow the vector and to copy the span.  Growing
    clears every cell from the old capacity on; appending to a NULL buffer fails an assertion.
   */
  function ReportTo(v: Vec, cost: nat, memory: bool, copied: bool): Vec
    requires v.capacity > 0
  {
    var q := v.state.queue;
    if v.isNull then if copied then v.(status := Aborted) else v
    else if |q| + 1 <= v.capacity then if copied then v.(state := Report(v.state, cost)) else v
    else if !memory then v
    else
      var kept := if |q| <= v.capacity then v else v.(state := v.state.(queue := q[..v.capacity]), status := Torn);
      var grown := kept.(capacity := Aligned(v.capacity, |q| + 1));
      if copied then grown.(state := Report(grown.state, cost)) else grown
  }

  /** A batch of k of len spans leaves a NULL buffer behind. */
  predicate NullAfter(len: nat, k: nat, o: Outcome, vector: bool) {
    k > 0 && o.send && (k == len || (!o.memory && !vector))
  }

  /** `vector`: the new vector was at least initialised when its reservation failed. */
  function CapacityAfter(len: nat, capacity: nat, k: nat, o: Outcome, vector: bool): nat
    requires k <= len
  {
    if k == 0 || k == len then capacity
    else if o.memory then Aligned(INIT_CAPACITY, len - k)
    else if vector then INIT_CAPACITY
    else capacity
  }

  function FlushBatchOf(v: Vec, lim: Limits, o: Outcome, vector: bool): (r: (Vec, bool))
    requires v.state.queue != []
    ensures r.1 ==> |r.0.state.queue| < |v.state.queue|
  {
    var q := v.state.queue;
    var k := LongestFit(lim, q, |q|);
    var (s, more) := FlushBatch(v.state, lim, o);
    (Vec(s, NullAfter(|q|, k, o, vector), CapacityAfter(|q|, v.capacity, k, o, vector), v.status), more)
  }

  /** The i-th batch meets env(i) and vectors(i). */
  function FlushOf(v: Vec, lim: Limits, env: Env, vectors: nat -> bool, i: nat): (Vec, bool)
    decreases |v.state.queue|
  {
    if v.state.queue == [] then (v, true)
    else
      var (r, more) := FlushBatchOf(v, lim, env(i), vectors(i));
      if more then FlushOf(r, lim, env, vectors, i + 1) else (r, false)
  }

  /** Whether reports work after a flush. */
  predicate HealthyAfterFlush(v: Vec, lim: Limits, env: Env, vectors: nat -> bool) {
    Healthy(FlushOf(v, lim, env, vectors, 0).0)
  }

  /** On the queue a flush of the vector is the flush of the queue. */
  lemma {:induction false} FlushOfQueue(v: Vec, lim: Limits, env: Env, vectors: nat -> bool, i: nat)
    requires WellFormed(v)
    ensures var (r, more) := FlushOf(v, lim, env, vectors, i);
            && r.state == Flush(v.state, lim, env, i).0 && more == Flush(v.state, lim, env, i).1
            && r.status == v.status && WellFormed(r)
    decreases |v.state.queue|
  {
    hide LongestFit, Aligned;
    if v.state.queue != [] {
      BatchWellFormed(v, lim, env(i), vectors(i));
      var (r, more) := FlushBatchOf(v, lim, env(i), vectors(i));
      if more {
        FlushOfQueue(r, lim, env, vectors, i + 1);
      }
    }
  }

  lemma BatchWellFormed(v: Vec, lim: Limits, o: Outcome, vector: bool)
    requires WellFormed(v) && v.state.queue != []
    ensures WellFormed(FlushBatchOf(v, lim, o, vector).0)
  {
  }

  /** Whether reports work after a batch of k of len spans, outcome by outcome. */
  predicate HealthyAfter(len: nat, capacity: nat, k: nat, o: Outcome, vector: bool)
    requires k <= len
  {
    if k == 0 then len <= capacity + 1
    else if o.send then k < len && (o.memory || vector)
    else if k == len then len <= capacity
    else if o.memory then len <= Aligned(INIT_CAPACITY, len - k)
    else len <= if vector then INIT_CAPACITY else capacity
  }

  lemma {:induction false} HealthyAfterBatchIff(v: Vec, lim: Limits, o: Outcome, vector: bool)
    requires WellFormed(v) && v.state.queue != []
    ensures var q := v.state.queue;
            Healthy(FlushBatchOf(v, lim, o, vector).0) <==>
            HealthyAfter(|q|, v.capacity, LongestFit(lim, q, |q|), o, vector)
  {
  }

  /**
    When all sends and allocations succeed, reports work after a flush exactly if the queue was
    empty on a healthy vector, or an oversized span stopped the flush behind a sent batch or on
    a vector at most one span over its capacity.
   */
  lemma {:induction false} HealthyAfterGoodFlushIff(v: Vec, lim: Limits, env: Env, vectors: nat -> bool, i: nat)
    requires WellFormed(v) && AllSucceed(env, i)
    ensures var q := v.state.queue;
            var first := FirstOversized(lim, q);
            Healthy(FlushOf(v, lim, env, vectors, i).0) <==>
            if q == [] then Healthy(v) else first < |q| && (first > 0 || |q| <= v.capacity + 1)
    decreases |v.state.queue|
  {
    hide LongestFit, Aligned, FirstOversized, Oversized;
    var q := v.state.queue;
    if q != [] {
      var k := LongestFit(lim, q, |q|);
      LongestFitStops(lim, q);
      var (r, more) := FlushBatchOf(v, lim, env(i), vectors(i));
      if k > 0 {
        BehindBatch(lim, q, k);
        HealthyAfterGoodFlushIff(r, lim, env, vectors, i + 1);
      }
    }
  }

  // ----- runs

  datatype Call = Reporting(cost: nat, memory: bool, copied: bool) | Flushing(env: Env, vectors: nat -> bool)

  /** A run ends with the first report that aborts or tears the queue. */
  function StepOf(v: Vec, lim: Limits, c: Call): Vec
    requires v.capacity > 0
  {
    if v.status != Running then v
    else
      match c
      case Reporting(cost, memory, copied) => ReportTo(v, cost, memory, copied)
      case Flushing(env, vectors) => FlushOf(v, lim, env, vectors, 0).0
  }

  lemma StepWellFormed(v: Vec, lim: Limits, c: Call)
    requires WellFormed(v)
    ensures WellFormed(StepOf(v, lim, c))
  {
    if v.status == Running && c.Flushing? {
      FlushOfQueue(v, lim, c.env, c.vectors, 0);
    }
  }

  function RunOf(lim: Limits, calls: seq<Call>): (v: Vec)
    ensures WellFormed(v)
  {
    if calls == [] then Start
    else
      var before := RunOf(lim, calls[..|calls| - 1]);
      StepWellFormed(before, lim, calls[|calls| - 1]);
      StepOf(before, lim, calls[|calls| - 1])
  }

  /**
    The calls that do no harm: reports to a healthy vector, reports that fail before they touch
    an unhealthy one, and flushes that put no destroyed span back.
   */
  predicate Harmless(v: Vec, lim: Limits, c: Call) {
    match c
    case Reporting(_, memory, copied) => Healthy(v) || if v.isNull then !copied else !memory
    case Flushing(env, _) => FlushKeeps(v.state, lim, env, 0)
  }

  predicate AllHarmless(lim: Limits, calls: seq<Call>) {
    calls == [] ||
    var before := calls[..|calls| - 1];
    AllHarmless(lim, before) && Harmless(RunOf(lim, before), lim, calls[|calls| - 1])
  }

  /** No assertion has failed, and spans are conserved in order. */
  ghost predicate Sound(v: Vec) { v.status != Aborted && Conserves(v.state) }

  ghost predicate SoundThroughout(lim: Limits, calls: seq<Call>) {
    Sound(RunOf(lim, calls)) && (calls == [] || SoundThroughout(lim, calls[..|calls| - 1]))
  }

  /** Cutting spans off the queue loses them, also if another is appended. */
  lemma CutLoses(s: State, n: nat, cost: nat)
    requires Inv(s) && n < |s.queue|
    ensures !Conserves(s.(queue := s.queue[..n]))
    ensures !Conserves(Report(s.(queue := s.queue[..n]), cost))
  {
    var cut := s.(queue := s.queue[..n]);
    ReportInv(s, cost);
    assert |Sent(cut) + cut.queue| < |Sent(s) + s.queue|;
    var r, full := Report(cut, cost), Report(s, cost);
    assert Sent(r) == Sent(s) == Sent(full) && r.dropped == full.dropped && r.reported == full.reported;
    assert |Sent(r) + r.queue| < |Sent(full) + full.queue|;
  }

  lemma {:induction false} ReportSoundIff(v: Vec, cost: nat, memory: bool, copied: bool)
    requires WellFormed(v) && v.status == Running && Inv(v.state)
    ensures var r := ReportTo(v, cost, memory, copied);
            && (Sound(r) <==> Healthy(v) || if v.isNull then !copied else !memory)
            && (Sound(r) ==> Inv(r.state) && r.status == Running)
            && (Sound(r) ==> r.state == v.state || r.state == Report(v.state, cost))
  {
    hide Aligned, Conserves, Inv;
    var r := ReportTo(v, cost, memory, copied);
    SoundState(v.state);
    ReportInv(v.state, cost);
    SoundState(Report(v.state, cost));
    if r.status == Torn {
      CutLoses(v.state, v.capacity, cost);
    }
  }

  lemma SoundState(s: State)
    requires Inv(s)
    ensures Conserves(s)
  {
    InvIffConserves(s);
  }

  lemma {:induction false} FlushReported(s: State, lim: Limits, env: Env, i: nat)
    ensures Flush(s, lim, env, i).0.reported == s.reported
    decreases |s.queue|
  {
    if s.queue != [] && FlushBatch(s, lim, env(i)).1 {
      FlushReported(FlushBatch(s, lim, env(i)).0, lim, env, i + 1);
    }
  }

  lemma {:induction false} StepSoundIff(v: Vec, lim: Limits, c: Call)
    requires WellFormed(v) && v.status == Running && Inv(v.state)
    ensures Sound(StepOf(v, lim, c)) <==> Harmless(v, lim, c)
    ensures Harmless(v, lim, c) ==> Inv(StepOf(v, lim, c).state) && StepOf(v, lim, c).status == Running
  {
    hide Conserves, Inv, ReportTo, Flush, FlushOf, FlushKeeps;
    match c
    case Reporting(cost, memory, copied) =>
      ReportSoundIff(v, cost, memory, copied);
    case Flushing(env, vectors) =>
      FlushOfQueue(v, lim, env, vectors, 0);
      FlushInv(v.state, lim, env, 0);
      FlushReported(v.state, lim, env, 0);
      StillNumbered(v.state, Flush(v.state, lim, env, 0).0);
      InvIffConserves(Flush(v.state, lim, env, 0).0);
  }

  lemma StillNumbered(s: State, r: State)
    requires Inv(s) && r.reported == s.reported
    ensures Numbered(r.reported)
  {
  }

  /**
    Over every run of the reporter: no assertion fails and spans are conserved in order after
    every call, exactly when every call is harmless.
   */
  lemma {:induction false} RunSoundIff(lim: Limits, calls: seq<Call>)
    ensures SoundThroughout(lim, calls) <==> AllHarmless(lim, calls)
    ensures AllHarmless(lim, calls) ==> Inv(RunOf(lim, calls).state) && RunOf(lim, calls).status == Running
    decreases |calls|
  {
    hide Conserves, Inv, Harmless, StepOf, Sound;
    if calls == [] {
      StartSound();
    } else {
      var n := |calls| - 1;
      RunSoundIff(lim, calls[..n]);
      if AllHarmless(lim, calls[..n]) {
        StepSoundIff(RunOf(lim, calls[..n]), lim, calls[n]);
      }
    }
  }

  lemma StartSound()
    ensures Inv(Start.state) && Sound(Start)
  {
    EmptyInv();
    InvIffConserves(Empty);
  }

  /** With memory for everything, a report is harmless exactly on a healthy vector. */
  lemma HarmlessReportIff(v: Vec, lim: Limits, cost: nat)
    ensures Harmless(v, lim, Reporting(cost, true, true)) <==> Healthy(v)
  {
  }

  // ----- harmless runs are runs of the queue

  /** What the calls come to on the queue: a report that did not queue its span is nothing. */
  function EventsOf(lim: Limits, calls: seq<Call>): seq<Event> {
    if calls == [] then []
    else
      var n := |calls| - 1;
      var v := RunOf(lim, calls[..n]);
      EventsOf(lim, calls[..n]) +
      match calls[n]
      case Reporting(cost, _, _) => if StepOf(v, lim, calls[n]).state == v.state then [] else [DoReport(cost)]
      case Flushing(env, _) => [DoFlush(lim, env)]
  }

  lemma {:induction false} HarmlessIsQueueRun(lim: Limits, calls: seq<Call>)
    requires AllHarmless(lim, calls)
    ensures RunOf(lim, calls).state == Run(EventsOf(lim, calls)) && RunKeeps(EventsOf(lim, calls))
    decreases |calls|
  {
    hide Conserves, Inv, Flush, FlushOf, FlushKeeps, ReportTo;
    if calls != [] {
      var n := |calls| - 1;
      var v, c := RunOf(lim, calls[..n]), calls[n];
      HarmlessIsQueueRun(lim, calls[..n]);
      RunSoundIff(lim, calls[..n]);
      StepSoundIff(v, lim, c);
      var events := EventsOf(lim, calls[..n]);
      match c
      case Reporting(cost, memory, copied) =>
        ReportSoundIff(v, cost, memory, copied);
        RunSnoc(events, DoReport(cost));
        assert events + [] == events;
      case Flushing(env, vectors) =>
        FlushOfQueue(v, lim, env, vectors, 0);
        RunSnoc(events, DoFlush(lim, env));
    }
  }

  lemma RunSnoc(events: seq<Event>, e: Event)
    ensures Run(events + [e]) == Apply(Run(events), e)
    ensures RunKeeps(events + [e]) <==> RunKeeps(events) && EventKeeps(Run(events), e)
  {
    assert (events + [e])[..|events + [e]| - 1] == events;
  }
}
