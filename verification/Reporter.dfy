/**
  The remote reporter of reporter.c with its span vector spelled out: the buffer the data
  pointer refers to (None is NULL), the length and the capacity field.  Every method is proved
  against the vector of SpanVector, so its theorem on runs holds of these objects.
 */
module Reporter {
  import opened Basics
  import opened ReporterSpec
  import opened SpanVector

  type Cell = Option<Span>

  method Align(capacity: nat, n: nat) returns (c: nat)
    requires capacity > 0
    ensures c == Aligned(capacity, n)
  {
    c := capacity;
    while c < n
      invariant c > 0 && Aligned(c, n) == Aligned(capacity, n)
      decreases n - c
    {
      c := 2 * c;
    }
  }

  // ----- cells

  ghost predicate Live(cells: seq<Cell>, n: nat) {
    n <= |cells| && forall i :: 0 <= i < n ==> cells[i].Some?
  }

  function Values(cells: seq<Cell>, n: nat): (q: seq<Span>)
    requires Live(cells, n)
    ensures |q| == n && forall i :: 0 <= i < n ==> q[i] == cells[i].value
  {
    if n == 0 then [] else Values(cells, n - 1) + [cells[n - 1].value]
  }

  /** The spans among the first n cells; NULL cells hold none. */
  function Present(cells: seq<Cell>, n: nat): seq<Span>
    requires n <= |cells|
  {
    if n == 0 then []
    else Present(cells, n - 1) + if cells[n - 1].Some? then [cells[n - 1].value] else []
  }

  lemma {:induction false} PresentLive(cells: seq<Cell>, n: nat)
    requires Live(cells, n)
    ensures Present(cells, n) == Values(cells, n)
  {
    if n > 0 {
      PresentLive(cells, n - 1);
    }
  }

  lemma {:induction false} PresentSame(a: seq<Cell>, b: seq<Cell>, n: nat)
    requires n <= |a| && n <= |b| && forall i :: 0 <= i < n ==> a[i] == b[i]
    ensures Present(a, n) == Present(b, n)
  {
    if n > 0 {
      PresentSame(a, b, n - 1);
    }
  }

  lemma {:induction false} PresentCleared(cells: seq<Cell>, from: nat, n: nat)
    requires from <= n <= |cells| && forall i :: from <= i < n ==> cells[i] == None
    ensures Present(cells, n) == Present(cells, from)
    decreases n
  {
    if from < n {
      PresentCleared(cells, from, n - 1);
    }
  }

  lemma SameValues(a: seq<Cell>, b: seq<Cell>, n: nat)
    requires Live(a, n) && n <= |b| && forall i :: 0 <= i < n ==> a[i] == b[i]
    ensures Live(b, n) && Values(b, n) == Values(a, n)
  {
  }

  lemma {:induction false} ValuesPrefix(cells: seq<Cell>, k: nat, n: nat)
    requires k <= n && Live(cells, n)
    ensures Values(cells, k) == Values(cells, n)[..k]
  {
  }

  class RemoteReporter {
    var data: Option<seq<Cell>>
    var len: nat
    var capacity: nat
    const limits: Limits
    var nextId: nat  // stands for the address of the next span copy
    ghost var state: State
    ghost var capExp: nat
    ghost var sizeExp: nat

    ghost predicate Valid()
      reads this
    {
      && IsCapacity(capacity, capExp) && nextId == |state.reported|
      && (data.None? ==> len == 0 && state.queue == [])
      && (data.Some? ==>
            && Live(data.value, len) && state.queue == Values(data.value, len)
            && IsCapacity(|data.value|, sizeExp) && capacity <= |data.value|)
    }

    /** What a report needs and does not check. */
    predicate Healthy()
      reads this
    {
      data.Some? && len <= capacity
    }

    ghost function View(status: Status): Vec
      reads this
    {
      Vec(state, data.None?, capacity, status)
    }

    /** The cells hold exactly the queue, NULL or not. */
    ghost predicate CellsAreQueue()
      reads this
    {
      if data.None? then state.queue == [] else len <= |data.value| && Present(data.value, len) == state.queue
    }

    constructor (limits: Limits)
      ensures Valid() && Healthy() && View(Running) == Start && this.limits == limits
    {
      this.limits := limits;
      data := Some(seq(INIT_CAPACITY, _ => None));
      len, capacity, nextId := 0, INIT_CAPACITY, 0;
      state, capExp, sizeExp := Empty, 0, 0;
    }

    /** jaeger_vector_reserve: everything from the old capacity on is zeroed, whatever the length is. */
    method Reserve(n: nat, memory: bool) returns (ok: bool)
      requires IsCapacity(capacity, capExp) && (data.Some? ==> capacity <= |data.value|)
      modifies this`data, this`capacity, this`capExp, this`sizeExp
      ensures ok == (old(capacity) >= n || memory)
      ensures !ok || old(capacity) >= n ==> unchanged(this)
      ensures ok && old(capacity) < n ==>
                && capacity == Aligned(old(capacity), n) && data.Some? && |data.value| == capacity
                && IsCapacity(capacity, capExp) && sizeExp == capExp
                && (forall i :: old(capacity) <= i < capacity ==> data.value[i] == None)
                && (old(data).Some? ==> data.value[..old(capacity)] == old(data).value[..old(capacity)])
    {
      if capacity >= n {
        return true;
      }
      var aligned := Align(capacity, n);
      if !memory {
        return false;
      }
      var kept := if data.Some? then data.value[..capacity] else seq(capacity, _ => None);
      data := Some(kept + seq(aligned - capacity, _ => None));
      capExp := AlignedIsCapacity(capExp, n);
      sizeExp := capExp;
      capacity := aligned;
      ok := true;
    }

    /**
      remote_reporter_report.  From a healthy vector it queues the span or leaves the queue alone.
      With a NULL buffer it cannot queue: the non-null assertion on the appended slot fails.
      With a length beyond the capacity it overwrites the spans in between with NULL.
     */
    method Report(cost: nat, memory: bool, copied: bool) returns (queued: bool, status: Status)
      requires Valid()
      modifies this
      ensures View(status) == ReportTo(old(View(Running)), cost, memory, copied)
      ensures status == Running ==> Valid()
      ensures old(Healthy()) ==> Healthy() && status == Running
      ensures CellsAreQueue()
      ensures queued <==> old(data).Some? && copied && (old(len) < old(capacity) || memory)
      ensures queued ==> data.Some? && old(len) < |data.value|
      ensures queued ==> len == old(len) + 1 && data.value[old(len)] == Some(Span(old(nextId), cost))
      ensures status == Torn ==>
                && old(capacity) < old(len) && data.Some? && old(len) < |data.value|
                && forall i :: old(capacity) <= i < old(len) ==> data.value[i] == None
    {
      if data.None? {
        var ok := Reserve(len + 1, memory);
        return false, if copied then Aborted else Running;
      }
      status := if len > capacity && memory then Torn else Running;
      GrowFor(memory);
      if len + 1 > capacity || !copied {
        return false, status;
      }
      Append(cost);
      queued := true;
    }

    lemma CellsOfValid()
      requires Valid()
      ensures CellsAreQueue()
    {
      if data.Some? {
        PresentLive(data.value, len);
      }
    }

    /** The reservation in front of an append, on a buffer. */
    method GrowFor(memory: bool)
      requires Valid() && data.Some?
      modifies this
      ensures data.Some? && len == old(len) && len <= |data.value| && nextId == old(nextId)
      ensures old(len) + 1 <= old(capacity) || !memory ==> unchanged(this)
      ensures old(len) + 1 > old(capacity) && memory ==>
                && capacity == SpanVector.Aligned(old(capacity), old(len) + 1) == |data.value|
                && state == if old(len) <= old(capacity) then old(state)
                            else old(state).(queue := old(state).queue[..old(capacity)])
      ensures old(len) <= old(capacity) || !memory ==> Valid()
      ensures old(len) > old(capacity) && memory ==> forall i :: old(capacity) <= i < old(len) ==> data.value[i] == None
      ensures CellsAreQueue() && IsCapacity(capacity, capExp)
    {
      hide Present, Values;
      ghost var before, cells := capacity, data.value;
      PresentLive(cells, len);
      var ok := Reserve(len + 1, memory);
      if before < len && memory {
        state := state.(queue := state.queue[..before]);
        ValuesPrefix(cells, before, len);
        PresentLive(cells, before);
        PresentCleared(data.value, before, len);
        PresentSame(cells, data.value, before);
      } else if before < len + 1 && memory {
        PresentSame(cells, data.value, len);
        SameValues(cells, data.value, len);
      }
    }

    /** Write the span copy into the slot behind the last span. */
    method Append(cost: nat)
      requires data.Some? && len < |data.value| && nextId == |state.reported|
      modifies this`data, this`len, this`nextId, this`state
      ensures data == Some(old(data).value[old(len) := Some(Span(old(nextId), cost))])
      ensures len == old(len) + 1 && state == ReporterSpec.Report(old(state), cost)
      ensures old(Valid()) && old(len) < old(capacity) ==> Valid() && Healthy()
      ensures nextId == old(nextId) + 1
      ensures old(CellsAreQueue()) ==> CellsAreQueue()
    {
      PresentSame(data.value, data.value[len := Some(Span(nextId, cost))], len);
      data := Some(data.value[len := Some(Span(nextId, cost))]);
      len, nextId := len + 1, nextId + 1;
      state := ReporterSpec.Report(state, cost);
    }

    /** The shrinking loop of build_batch over the stolen buffer. */
    method ShrinkToFit(batch: seq<Cell>, n: nat) returns (k: nat)
      requires Live(batch, n)
      ensures k == LongestFit(limits, Values(batch, n), n)
    {
      k := n;
      while k > 0 && PackedSize(limits, Values(batch, k)) > limits.max
        invariant k <= n
        invariant LongestFit(limits, Values(batch, n), k) == LongestFit(limits, Values(batch, n), n)
      {
        assert Values(batch, k) == Values(batch, n)[..k];
        k := k - 1;
      }
      assert Values(batch, k) == Values(batch, n)[..k];
    }

    /** large_batch_error: put the buffer back and remove its first span. */
    method DropFirst(batch: seq<Cell>, n: nat)
      requires 0 < n && Live(batch, n) && capacity <= |batch| && IsCapacity(|batch|, sizeExp)
      modifies this`data, this`len
      ensures len == n - 1 && data.Some? && Live(data.value, len) && |data.value| == |batch|
      ensures Values(data.value, len) == Values(batch, n)[1..]
    {
      data := Some(batch[1..n] + batch[n - 1..]);
      len := n - 1;
    }

    /** Collect the spans behind the batch in a new vector of their own. */
    method KeepRest(batch: seq<Cell>, k: nat, n: nat)
      requires 0 < k < n && Live(batch, n)
      modifies this`data, this`len, this`capacity, this`capExp, this`sizeExp
      ensures len == n - k && data.Some? && Live(data.value, len)
      ensures Values(data.value, len) == Values(batch, n)[k..]
      ensures capacity == Aligned(INIT_CAPACITY, n - k) == |data.value|
      ensures IsCapacity(capacity, capExp) && sizeExp == capExp
    {
      data, len, capacity := Some(seq(INIT_CAPACITY, _ => None)), 0, INIT_CAPACITY;
      capExp, sizeExp := 0, 0;
      var ok := Reserve(n - k, true);
      for i := 0 to n - k
        invariant len == i && data.Some? && |data.value| == capacity == Aligned(INIT_CAPACITY, n - k)
        invariant IsCapacity(capacity, capExp) && sizeExp == capExp
        invariant forall j :: 0 <= j < i ==> data.value[j] == batch[k + j]
      {
        data := Some(data.value[i := batch[k + i]]);
        len := len + 1;
      }
    }

    /**
      build_batch once k spans are known to fit: what becomes of the n - k behind them.
      `vector` tells whether the new vector was at least initialised when its reservation failed.
     */
    method SetAside(batch: seq<Cell>, k: nat, n: nat, memory: bool, vector: bool)
      requires 0 < k <= n && Live(batch, n) && data.None? && len == 0
      requires IsCapacity(capacity, capExp) && capacity <= |batch| && IsCapacity(|batch|, sizeExp)
      modifies this`data, this`len, this`capacity, this`capExp, this`sizeExp
      ensures IsCapacity(capacity, capExp) && capacity <= |batch|
      ensures data.None? ==> len == 0 && (memory ==> k == n)
      ensures data.Some? ==> Live(data.value, len) && capacity == |data.value| && sizeExp == capExp && k < n && (memory || vector)
      ensures data.Some? ==> Values(data.value, len) == if memory then Values(batch, n)[k..] else []
      ensures k < n && (memory || vector) ==> data.Some?
      ensures capacity == if k == n || (!memory && !vector) then old(capacity)
                          else if memory then Aligned(INIT_CAPACITY, n - k) else INIT_CAPACITY
    {
      if k < n {
        CapacityKept(n - k, |batch|, sizeExp);
        if memory {
          KeepRest(batch, k, n);
        } else if vector {
          data, capacity, capExp, sizeExp := Some(seq(INIT_CAPACITY, _ => None)), INIT_CAPACITY, 0, 0;
        }
      }
    }

    /** remote_reporter_flush_batch. */
    method FlushBatch(o: Outcome, vector: bool) returns (more: bool)
      requires Valid() && len > 0
      modifies this
      ensures Valid()
      ensures View(Running) == FlushBatchOf(old(View(Running)), limits, o, vector).0
      ensures more == FlushBatchOf(old(View(Running)), limits, o, vector).1
    {
      hide LongestFit, Cost, Values;
      var n, batch := len, data.value;
      ghost var q, size := state.queue, sizeExp;
      data, len := None, 0;
      var k := ShrinkToFit(batch, n);
      state := ReporterSpec.FlushBatch(state, limits, o).0;
      if k == 0 {
        DropFirst(batch, n);
        return false;
      }
      SetAside(batch, k, n, o.memory, vector);
      assert k == n ==> q[k..] == [];
      if o.send {
        return true;
      }
      data, len := Some(batch), n;
      sizeExp := size;
      return false;
    }

    lemma CapacityKept(rest: nat, size: nat, e: nat)
      requires rest <= size && IsCapacity(size, e)
      ensures INIT_CAPACITY <= Aligned(INIT_CAPACITY, rest) <= size
    {
      assert Pow2(0) == 1;
      AlignedLeast(0, rest, e);
    }

    /** remote_reporter_flush, and exactly when reports work after it; the i-th batch meets env(i) and vectors(i). */
    method Flush(env: Env, vectors: nat -> bool) returns (success: bool)
      requires Valid()
      modifies this
      ensures Valid()
      ensures View(Running) == FlushOf(old(View(Running)), limits, env, vectors, 0).0
      ensures success == FlushOf(old(View(Running)), limits, env, vectors, 0).1
      ensures Healthy() <==> HealthyAfterFlush(old(View(Running)), limits, env, vectors)
    {
      hide FlushBatchOf;
      ghost var all := FlushOf(View(Running), limits, env, vectors, 0);
      var i := 0;
      success := true;
      while len > 0
        invariant success && Valid()
        invariant FlushOf(View(Running), limits, env, vectors, i) == all
        decreases len
      {
        success := FlushBatch(env(i), vectors(i));
        i := i + 1;
        if !success {
          return;
        }
      }
    }
  }

  /**
    A reporter driven through any calls up to the first that aborts or tears its queue: the
    vector of the run, with the queue in its cells.
   */
  method Drive(limits: Limits, calls: seq<Call>) returns (r: RemoteReporter, status: Status)
    ensures fresh(r) && r.limits == limits
    ensures r.View(status) == RunOf(limits, calls) && r.CellsAreQueue()
    ensures status == Running ==> r.Valid()
    ensures SoundThroughout(limits, calls) <==> AllHarmless(limits, calls)
    ensures AllHarmless(limits, calls) ==> status == Running && r.state == Run(EventsOf(limits, calls)) && Conserves(r.state)
  {
    r := new RemoteReporter(limits);
    status := Running;
    for i := 0 to |calls|
      invariant fresh(r) && r.limits == limits
      invariant r.View(status) == RunOf(limits, calls[..i]) && r.CellsAreQueue()
      invariant status == Running ==> r.Valid()
    {
      assert calls[..i + 1][..i] == calls[..i] && calls[..i + 1][i] == calls[i];
      if status == Running {
        match calls[i] {
          case Reporting(cost, memory, copied) =>
            var queued;
            queued, status := r.Report(cost, memory, copied);
          case Flushing(env, vectors) =>
            var success := r.Flush(env, vectors);
            r.CellsOfValid();
        }
      }
    }
    assert calls[..|calls|] == calls;
    RunSoundIff(limits, calls);
    if AllHarmless(limits, calls) {
      HarmlessIsQueueRun(limits, calls);
      InvIffConserves(r.state);
    }
  }

  // ----- two runs that go wrong

  /** A report after a flush that emptied the queue fails its assertion, however small the spans. */
  method ReportFlushReport(limits: Limits, first: nat, second: nat) returns (status: Status)
    requires limits.base + first <= limits.max
    ensures status == Aborted
  {
    var r := new RemoteReporter(limits);
    var queued;
    queued, status := r.Report(first, true, true);
    ghost var span := Span(0, first);
    assert r.state.queue == [span];
    assert Cost([span]) == first by { assert [span][1..] == []; }
    assert PrefixFits(limits, [span], 1) by { assert [span][..1] == [span]; }
    ghost var before := r.View(Running);
    var flushed := r.Flush(_ => Outcome(true, true), _ => true);
    assert LongestFit(limits, [span], 1) == 1;
    queued, status := r.Report(second, true, true);
  }

  /** n spans of cost one, numbered from 0. */
  function Units(n: nat): (q: seq<Span>)
    ensures |q| == n && forall i :: 0 <= i < n ==> q[i] == Span(i, 1)
  {
    seq(n, i requires 0 <= i < n => Span(i, 1))
  }

  lemma {:induction false} UnitsCost(q: seq<Span>)
    requires forall i :: 0 <= i < |q| ==> q[i].cost == 1
    ensures Cost(q) == |q|
  {
    if q != [] {
      UnitsCost(q[1..]);
    }
  }

  /** Of n + 1 such spans a packet that holds n takes n. */
  lemma UnitsFit(n: nat)
    ensures LongestFit(Limits(0, n), Units(n + 1), n + 1) == n
    ensures Inv(State(Units(n + 1), [], [], Units(n + 1)))
  {
    hide Cost, LongestFit, Without;
    var q, lim := Units(n + 1), Limits(0, n);
    UnitsCost(q);
    UnitsCost(q[..n]);
    assert q[..n + 1] == q && PrefixFits(lim, q, n) && !PrefixFits(lim, q, n + 1);
    AllQueued(q);
  }

  lemma AllQueued(q: seq<Span>)
    requires Numbered(q)
    ensures Inv(State(q, [], [], q))
  {
    WithoutNone(q);
    assert Ids([]) == {} && Concat([]) + q == q;
  }

  /** The queue is back, with the capacity of the vector that held the one span behind the batch. */
  lemma FailedSend(v: Vec, n: nat, env: Env, vectors: nat -> bool)
    requires n > 0 && v.state == State(Units(n + 1), [], [], Units(n + 1)) && env(0) == Outcome(false, true)
    ensures FlushOf(v, Limits(0, n), env, vectors, 0).0 == v.(isNull := false, capacity := INIT_CAPACITY)
  {
    hide LongestFit, Inv;
    UnitsFit(n);
    assert v.state.dropped + [] == v.state.dropped;
  }

  method ReportUnits(r: RemoteReporter, n: nat)
    requires r.Valid() && r.Healthy() && r.state == Empty
    modifies r
    ensures r.Valid() && r.Healthy() && r.state == State(Units(n), [], [], Units(n))
  {
    hide Present, SpanVector.Aligned;
    for i := 0 to n
      invariant r.Valid() && r.Healthy() && r.state == State(Units(i), [], [], Units(i))
    {
      var queued, status := r.Report(1, true, true);
      assert Units(i) + [Span(i, 1)] == Units(i + 1);
    }
  }

  lemma CutOff(n: nat)
    ensures var q := Units(n + 1)[..n] + [Span(n + 1, 1)];
            Span(n, 1) !in q && Span(n, 1) in Units(n + 1) + [Span(n + 1, 1)]
  {
    assert Units(n + 1)[n] == Span(n, 1);
  }

  /**
    Eleven spans of which ten fit a packet, a failed send, and one more report: the eleventh
    span is neither sent nor dropped nor queued any more.
   */
  method FailedSendLosesSpan() returns (r: RemoteReporter, status: Status)
    ensures status == Torn && r.data.Some? && |r.data.value| > 11
    ensures r.data.value[10] == None && r.data.value[11] == Some(Span(11, 1))
    ensures r.state.packets == [] && r.state.dropped == [] && Span(10, 1) in r.state.reported
    ensures Span(10, 1) !in r.state.queue && !Conserves(r.state)
  {
    hide Units, Present, LongestFit, FlushOf, Inv, Conserves, SpanVector.Aligned;
    r := new RemoteReporter(Limits(0, 10));
    ReportUnits(r, 11);
    ghost var full := r.View(Running);
    var env: Env := _ => Outcome(false, true);
    var vectors: nat -> bool := _ => true;
    var success := r.Flush(env, vectors);
    FailedSend(full, 10, env, vectors);
    UnitsFit(10);
    CutLoses(full.state, 10, 1);
    CutOff(10);
    var queued;
    queued, status := r.Report(1, true, true);
  }
}
