/**
  The adaptive sampler's per-operation index (sampler.c): a vector of named samplers that is
  meant to stay sorted by name.  Because of what jaeger_vector_lower_bound returns, it does so
  exactly while every inserted name belongs at (or next to) the end.
 */
module Adaptive {
  import opened Basics
  import opened Clock
  import opened TokenBucket
  import opened Samplers
  import opened Vector

  type Name = seq<byte>

  // ----- strcmp order

  /** strcmp(a, b) < 0 on unsigned bytes. */
  predicate Less(a: Name, b: Name) {
    b != [] && (a == [] || a[0] < b[0] || (a[0] == b[0] && Less(a[1..], b[1..])))
  }

  lemma {:induction false} LessTransitive(a: Name, b: Name, c: Name)
    requires Less(a, b) && Less(b, c)
    ensures Less(a, c)
  {
    if a != [] && a[0] == b[0] == c[0] {
      LessTransitive(a[1..], b[1..], c[1..]);
    }
  }

  lemma {:induction false} LessTotal(a: Name, b: Name)
    ensures (Less(a, b) && a != b && !Less(b, a)) || (a == b && !Less(a, b)) || (Less(b, a) && a != b && !Less(a, b))
  {
    if a != [] && b != [] && a[0] == b[0] {
      LessTotal(a[1..], b[1..]);
      assert a == [a[0]] + a[1..] && b == [b[0]] + b[1..];
    }
  }

  // ----- the index

  datatype Entry = Entry(name: Name, bucket: Bucket)

  /** `created` is the clock reading of a new entry; lookup and insertion each need memory. */
  datatype OpCall = OpCall(op: Name, created: Time, call: Call, findMemory: bool, insertMemory: bool)

  datatype Config = Config(lowerBound: real, maxOperations: int)

  ghost predicate Sorted(es: seq<Entry>) {
    forall i, j :: 0 <= i < j < |es| ==> Less(es[i].name, es[j].name)
  }

  /** The C library's bisection between lo and hi, on any index; the length if it does not meet the name. */
  function Bsearch(es: seq<Entry>, op: Name, lo: nat, hi: nat): (i: nat)
    requires lo <= hi <= |es|
    ensures i < |es| ==> lo <= i < hi && es[i].name == op
    ensures i <= |es|
    decreases hi - lo
  {
    if lo == hi then |es|
    else
      var mid := (lo + hi) / 2;
      if es[mid].name == op then mid
      else if Less(op, es[mid].name) then Bsearch(es, op, lo, mid)
      else Bsearch(es, op, mid + 1, hi)
  }

  function Lookup(es: seq<Entry>, op: Name): (i: nat)
    ensures i < |es| ==> es[i].name == op
    ensures i <= |es|
  {
    Bsearch(es, op, 0, |es|)
  }

  /** Where jaeger_vector_lower_bound would insert the name. */
  function Place(es: seq<Entry>, op: Name): (pos: nat)
    ensures pos <= |es|
  {
    Search(es, (e: Entry) => Less(e.name, op), |es|, 0)
  }

  /** Position of the first entry with the name; the length if there is none. */
  function Find(es: seq<Entry>, op: Name): (i: nat)
    ensures i <= |es|
    ensures forall j :: 0 <= j < i ==> es[j].name != op
    ensures i < |es| ==> es[i].name == op
  {
    if es == [] || es[0].name == op then 0 else 1 + Find(es[1..], op)
  }

  predicate Present(es: seq<Entry>, op: Name) { Find(es, op) < |es| }

  /** Number of leading names before op. */
  function Bound(es: seq<Entry>, op: Name): (b: nat)
    ensures b <= |es|
    ensures forall i :: 0 <= i < b ==> Less(es[i].name, op)
    ensures b < |es| ==> !Less(es[b].name, op)
  {
    if es == [] || !Less(es[0].name, op) then 0 else 1 + Bound(es[1..], op)
  }

  function InsertAt(es: seq<Entry>, pos: nat, e: Entry): seq<Entry>
    requires pos <= |es|
  {
    es[..pos] + [e] + es[pos..]
  }

  predicate Finds(es: seq<Entry>, c: OpCall) { c.findMemory && Lookup(es, c.op) < |es| }

  predicate Inserts(cfg: Config, es: seq<Entry>, c: OpCall) {
    !Finds(es, c) && |es| < cfg.maxOperations && c.insertMemory
  }

  /** The index after a call. */
  function Sample(cfg: Config, es: seq<Entry>, c: OpCall): seq<Entry> {
    if Finds(es, c) then
      var i := Lookup(es, c.op);
      es[i := es[i].(bucket := NextBucket(es[i].bucket, c.call))]
    else if Inserts(cfg, es, c) then
      InsertAt(es, Place(es, c.op), Entry(c.op, NextBucket(Limiter(cfg.lowerBound, c.created), c.call)))
    else es
  }

  /** The decision; without an entry the default probabilistic sampler decides. */
  function Decide(cfg: Config, es: seq<Entry>, c: OpCall): bool {
    if Finds(es, c) then Decision(es[Lookup(es, c.op)].bucket, c.call)
    else if Inserts(cfg, es, c) then Decision(Limiter(cfg.lowerBound, c.created), c.call)
    else c.call.lucky
  }

  // ----- when one call keeps the index sorted

  /** A new name is inserted where it belongs. */
  predicate WellPlaced(cfg: Config, es: seq<Entry>, c: OpCall) {
    Inserts(cfg, es, c) ==>
      !Present(es, c.op) &&
      var b := Bound(es, c.op);
      b + 1 >= |es| || (b + 2 == |es| && MeetsThree(|es|))
  }

  lemma BoundSplits(es: seq<Entry>, op: Name, i: nat)
    requires Sorted(es) && i < |es|
    ensures Less(es[i].name, op) <==> i < Bound(es, op)
  {
    var b := Bound(es, op);
    if i > b && Less(es[i].name, op) {
      LessTransitive(es[b].name, es[i].name, op);
    }
  }

  /** In a sorted index the bisection finds the name if it is there. */
  lemma {:induction false} BsearchSorted(es: seq<Entry>, op: Name, lo: nat, hi: nat)
    requires Sorted(es) && lo <= hi <= |es| && (Present(es, op) ==> lo <= Find(es, op) < hi)
    ensures Bsearch(es, op, lo, hi) == Find(es, op)
    decreases hi - lo
  {
    hide Less, Find;
    var at := Find(es, op);
    if lo < hi {
      var mid := (lo + hi) / 2;
      var name := es[mid].name;
      LessTotal(name, op);
      if name == op {
        OnlyOnce(es, mid, at);
      } else if Less(op, name) {
        assert mid < at < |es| ==> Less(name, op);
        BsearchSorted(es, op, lo, mid);
      } else {
        assert at < mid ==> Less(op, name);
        BsearchSorted(es, op, mid + 1, hi);
      }
    }
  }

  lemma OnlyOnce(es: seq<Entry>, i: nat, j: nat)
    requires Sorted(es) && i < |es| && j <= i && es[i].name == es[j].name
    ensures i == j
  {
    LessTotal(es[i].name, es[i].name);
  }

  lemma LookupSorted(es: seq<Entry>, op: Name)
    requires Sorted(es)
    ensures Lookup(es, op) == Find(es, op) && Place(es, op) == Probe(|es|, 0, Bound(es, op))
  {
    BsearchSorted(es, op, 0, |es|);
    forall i | 0 <= i < |es|
      ensures Less(es[i].name, op) <==> i < Bound(es, op)
    {
      BoundSplits(es, op, i);
    }
    SearchIsProbe(es, (e: Entry) => Less(e.name, op), |es|, 0, Bound(es, op));
  }

  lemma InsertSorted(es: seq<Entry>, e: Entry)
    requires Sorted(es) && !Present(es, e.name)
    ensures Sorted(InsertAt(es, Bound(es, e.name), e))
  {
    var b := Bound(es, e.name);
    forall i | b <= i < |es| ensures Less(e.name, es[i].name) {
      BoundSplits(es, e.name, i);
      LessTotal(e.name, es[i].name);
    }
  }

  lemma OutOfOrder(es: seq<Entry>, i: nat, j: nat)
    requires i < j < |es| && !Less(es[i].name, es[j].name)
    ensures !Sorted(es)
  {
  }

  /** Next to its own name the new name breaks the order. */
  lemma InsertTwice(es: seq<Entry>, e: Entry, pos: nat)
    requires pos <= |es| && Present(es, e.name)
    ensures !Sorted(InsertAt(es, pos, e))
  {
    var i := Find(es, e.name);
    var r := InsertAt(es, pos, e);
    LessTotal(e.name, e.name);
    assert r[pos] == e;
    if i < pos {
      assert r[i] == es[i];
      OutOfOrder(r, i, pos);
    } else {
      assert r[i + 1] == es[i];
      OutOfOrder(r, pos, i + 1);
    }
  }

  /** So it does anywhere but at its bound. */
  lemma InsertElsewhere(es: seq<Entry>, e: Entry, pos: nat)
    requires pos <= |es| && pos != Bound(es, e.name)
    ensures !Sorted(InsertAt(es, pos, e))
  {
    hide Less, Bound, Sorted;
    var b := Bound(es, e.name);
    var r := InsertAt(es, pos, e);
    assert r[pos] == e;
    if pos < b {
      assert r[pos + 1] == es[pos];
      LessTotal(es[pos].name, e.name);
      OutOfOrder(r, pos, pos + 1);
    } else {
      assert r[b] == es[b];
      OutOfOrder(r, b, pos);
    }
  }

  /** One call keeps the index strictly sorted exactly when the name it inserts, if any, is well placed. */
  lemma {:induction false} SampleSortedIff(cfg: Config, es: seq<Entry>, c: OpCall)
    requires Sorted(es)
    ensures Sorted(Sample(cfg, es, c)) <==> WellPlaced(cfg, es, c)
  {
    LookupSorted(es, c.op);
    if Inserts(cfg, es, c) {
      var b := Bound(es, c.op);
      var e := Entry(c.op, NextBucket(Limiter(cfg.lowerBound, c.created), c.call));
      LowerBoundRightIff(|es|, b);
      if Present(es, c.op) {
        InsertTwice(es, e, Probe(|es|, 0, b));
      } else if Probe(|es|, 0, b) == b {
        InsertSorted(es, e);
      } else {
        InsertElsewhere(es, e, Probe(|es|, 0, b));
      }
    }
  }

  /** A name that belongs in front of two others ends up between them. */
  lemma {:induction false} Misplaced(cfg: Config, x: Bucket, c: OpCall)
    requires cfg.maxOperations > 2 && c.op == [97] && c.insertMemory
    ensures var es := [Entry([98], x), Entry([99], x)];
            var r := Sample(cfg, es, c);
            Sorted(es) && |r| == 3 && r[0] == es[0] && r[1].name == [97] && r[2] == es[1] && !Sorted(r)
  {
    var es := [Entry([98], x), Entry([99], x)];
    assert Bound(es, [97]) == 0 && Find(es, [97]) == 2 by {
      assert es[1..][1..] == [] && Find(es[1..], [97]) == 1;
    }
    assert Probe(2, 0, 0) == Probe(1, 1, 0) == Probe(0, 1, 0) == 1;
    assert Less([98], [99]);
    assert Sorted(es);
    LookupSorted(es, [97]);
    InsertElsewhere(es, Entry([97], NextBucket(Limiter(cfg.lowerBound, c.created), c.call)), 1);
  }

  // ----- runs

  function Run(cfg: Config, es: seq<Entry>, calls: seq<OpCall>): seq<Entry> {
    if calls == [] then es else Sample(cfg, Run(cfg, es, calls[..|calls| - 1]), calls[|calls| - 1])
  }

  /** Every call of the run finds the index such that its insertion is well placed. */
  predicate RunWellPlaced(cfg: Config, es: seq<Entry>, calls: seq<OpCall>) {
    calls == [] ||
    var before := calls[..|calls| - 1];
    RunWellPlaced(cfg, es, before) && WellPlaced(cfg, Run(cfg, es, before), calls[|calls| - 1])
  }

  /** Sorted at the start and after every call. */
  ghost predicate SortedThroughout(cfg: Config, es: seq<Entry>, calls: seq<OpCall>) {
    Sorted(Run(cfg, es, calls)) && (calls == [] || SortedThroughout(cfg, es, calls[..|calls| - 1]))
  }

  /** The index is sorted after every call of a run exactly when every insertion of the run is well placed. */
  lemma {:induction false} RunSortedIff(cfg: Config, es: seq<Entry>, calls: seq<OpCall>)
    requires Sorted(es)
    ensures RunWellPlaced(cfg, es, calls) <==> SortedThroughout(cfg, es, calls)
    decreases |calls|
  {
    if calls != [] {
      var n := |calls| - 1;
      RunSortedIff(cfg, es, calls[..n]);
      if SortedThroughout(cfg, es, calls[..n]) {
        SampleSortedIff(cfg, Run(cfg, es, calls[..n]), calls[n]);
      }
    }
  }

  /** The index never grows past the larger of its first length and the cap. */
  lemma {:induction false} RunLength(cfg: Config, es: seq<Entry>, calls: seq<OpCall>)
    ensures |es| <= |Run(cfg, es, calls)|
    ensures |Run(cfg, es, calls)| <= |es| || |Run(cfg, es, calls)| <= cfg.maxOperations
    decreases |calls|
  {
    if calls != [] {
      RunLength(cfg, es, calls[..|calls| - 1]);
    }
  }

  // ----- the index as a map from operation to sampler state

  function ToMap(es: seq<Entry>): map<Name, Bucket> {
    if es == [] then map[] else ToMap(es[1..])[es[0].name := es[0].bucket]
  }

  /** The same call on a plain map of states. */
  function SampleMap(cfg: Config, m: map<Name, Bucket>, c: OpCall): map<Name, Bucket> {
    if c.op in m then m[c.op := NextBucket(m[c.op], c.call)]
    else if |m| < cfg.maxOperations then m[c.op := NextBucket(Limiter(cfg.lowerBound, c.created), c.call)]
    else m
  }

  function RunMap(cfg: Config, m: map<Name, Bucket>, calls: seq<OpCall>): map<Name, Bucket> {
    if calls == [] then m else SampleMap(cfg, RunMap(cfg, m, calls[..|calls| - 1]), calls[|calls| - 1])
  }

  lemma {:induction false} ToMapFind(es: seq<Entry>, op: Name)
    ensures if Present(es, op) then op in ToMap(es) && ToMap(es)[op] == es[Find(es, op)].bucket else op !in ToMap(es)
  {
    if es != [] && es[0].name != op {
      ToMapFind(es[1..], op);
    }
  }

  lemma {:induction false} SortedSize(es: seq<Entry>)
    requires Sorted(es)
    ensures |ToMap(es)| == |es|
  {
    if es != [] {
      var rest := es[1..];
      SortedSize(rest);
      ToMapFind(rest, es[0].name);
      if Present(rest, es[0].name) {
        LessTotal(es[0].name, es[0].name);
      }
    }
  }

  lemma {:induction false} UpdateMap(es: seq<Entry>, op: Name, b: Bucket)
    requires Present(es, op)
    ensures var i := Find(es, op); ToMap(es[i := es[i].(bucket := b)]) == ToMap(es)[op := b]
  {
    var i := Find(es, op);
    var r := es[i := es[i].(bucket := b)];
    if i == 0 {
      assert r[1..] == es[1..];
    } else {
      assert r[1..] == es[1..][i - 1 := es[i].(bucket := b)];
      UpdateMap(es[1..], op, b);
    }
  }

  lemma {:induction false} InsertMap(es: seq<Entry>, pos: nat, e: Entry)
    requires pos <= |es| && !Present(es, e.name)
    ensures ToMap(InsertAt(es, pos, e)) == ToMap(es)[e.name := e.bucket]
    decreases |es|
  {
    var r := InsertAt(es, pos, e);
    if pos == 0 {
      assert r[1..] == es;
    } else {
      assert r[0] == es[0] && r[1..] == InsertAt(es[1..], pos - 1, e);
      InsertMap(es[1..], pos - 1, e);
    }
  }

  lemma SampleIsMapStep(cfg: Config, es: seq<Entry>, c: OpCall)
    requires Sorted(es) && c.findMemory && c.insertMemory
    ensures ToMap(Sample(cfg, es, c)) == SampleMap(cfg, ToMap(es), c)
  {
    LookupSorted(es, c.op);
    ToMapFind(es, c.op);
    SortedSize(es);
    if Finds(es, c) {
      UpdateMap(es, c.op, NextBucket(es[Find(es, c.op)].bucket, c.call));
    } else if Inserts(cfg, es, c) {
      InsertMap(es, Place(es, c.op), Entry(c.op, NextBucket(Limiter(cfg.lowerBound, c.created), c.call)));
    }
  }

  ghost predicate MemoryHolds(calls: seq<OpCall>) {
    forall i :: 0 <= i < |calls| ==> calls[i].findMemory && calls[i].insertMemory
  }

  /** While insertions are well placed, the index is the map from operations to their states. */
  lemma {:induction false} RunIsMapRun(cfg: Config, es: seq<Entry>, calls: seq<OpCall>)
    requires Sorted(es) && MemoryHolds(calls) && RunWellPlaced(cfg, es, calls)
    ensures Sorted(Run(cfg, es, calls))
    ensures ToMap(Run(cfg, es, calls)) == RunMap(cfg, ToMap(es), calls)
    decreases |calls|
  {
    if calls != [] {
      var n := |calls| - 1;
      RunIsMapRun(cfg, es, calls[..n]);
      SampleIsMapStep(cfg, Run(cfg, es, calls[..n]), calls[n]);
      SampleSortedIff(cfg, Run(cfg, es, calls[..n]), calls[n]);
    }
  }

  /** The calls that name op. */
  function CallsOf(calls: seq<OpCall>, op: Name): seq<Call> {
    if calls == [] then []
    else
      var n := |calls| - 1;
      CallsOf(calls[..n], op) + if calls[n].op == op then [calls[n].call] else []
  }

  /** An operation's own history: the state its sampler started in, and its calls since. */
  datatype History = History(start: Bucket, calls: seq<Call>)

  /** Other operations matter only to whether there is room when the operation is first met. */
  function Own(cfg: Config, m: map<Name, Bucket>, calls: seq<OpCall>, op: Name): Option<History> {
    if calls == [] then if op in m then Some(History(m[op], [])) else None
    else
      var n := |calls| - 1;
      var c, before := calls[n], Own(cfg, m, calls[..n], op);
      if c.op != op then before
      else
        match before
        case Some(h) => Some(h.(calls := h.calls + [c.call]))
        case None =>
          if |RunMap(cfg, m, calls[..n])| < cfg.maxOperations
          then Some(History(Limiter(cfg.lowerBound, c.created), [c.call]))
          else None
  }

  /** Calls on other operations leave an operation's state alone: it is its sampler's, run on its own calls. */
  lemma {:induction false} OthersLeaveStateAlone(cfg: Config, m: map<Name, Bucket>, calls: seq<OpCall>, op: Name)
    ensures match Own(cfg, m, calls, op)
            case None => op !in RunMap(cfg, m, calls)
            case Some(h) => op in RunMap(cfg, m, calls) && RunMap(cfg, m, calls)[op] == RunCalls(h.start, h.calls)
    decreases |calls|
  {
    if calls != [] {
      var n := |calls| - 1;
      var c, before := calls[n], Own(cfg, m, calls[..n], op);
      OthersLeaveStateAlone(cfg, m, calls[..n], op);
      if c.op == op {
        match before
        case Some(h) =>
          assert (h.calls + [c.call])[..|h.calls|] == h.calls;
        case None =>
          assert [c.call][..0] == [];
      }
    }
  }

  /** An operation known from the start keeps its first state and all its calls. */
  lemma {:induction false} OwnFromStart(cfg: Config, m: map<Name, Bucket>, calls: seq<OpCall>, op: Name)
    requires op in m
    ensures Own(cfg, m, calls, op) == Some(History(m[op], CallsOf(calls, op)))
    decreases |calls|
  {
    if calls != [] {
      var n := |calls| - 1;
      OwnFromStart(cfg, m, calls[..n], op);
      assert CallsOf(calls[..n], op) + [] == CallsOf(calls[..n], op);
    }
  }

  /** The same of the vector: while insertions are well placed, an entry's state is that of its own history. */
  lemma {:induction false} EntryStateIsOwn(cfg: Config, es: seq<Entry>, calls: seq<OpCall>, op: Name)
    requires Sorted(es) && MemoryHolds(calls) && RunWellPlaced(cfg, es, calls)
    ensures var r := Run(cfg, es, calls);
            match Own(cfg, ToMap(es), calls, op)
            case None => Lookup(r, op) == |r|
            case Some(h) => Lookup(r, op) < |r| && r[Lookup(r, op)] == Entry(op, RunCalls(h.start, h.calls))
  {
    hide Own, Run, RunMap, RunWellPlaced, Sorted, Lookup, ToMap;
    var r := Run(cfg, es, calls);
    RunIsMapRun(cfg, es, calls);
    OthersLeaveStateAlone(cfg, ToMap(es), calls, op);
    LookupSorted(r, op);
    ToMapFind(r, op);
  }

  // ----- the code

  class AdaptiveSampler {
    const samplers: Vector<Entry>
    const cfg: Config

    ghost predicate Valid()
      reads this, samplers
    {
      samplers.Valid()
    }

    /** A sampler over an index that strategy loading has filled. */
    constructor (cfg: Config, loaded: Vector<Entry>)
      requires loaded.Valid()
      ensures Valid() && samplers == loaded && this.cfg == cfg
    {
      this.cfg := cfg;
      samplers := loaded;
    }

    /** The C library's bsearch. */
    method FindSampler(op: Name, memory: bool) returns (i: int)
      requires Valid()
      ensures var at := Lookup(samplers.Contents(), op);
              i == if memory && at < samplers.len then at else -1
    {
      if !memory {
        return -1;
      }
      ghost var es := samplers.Contents();
      var lo, hi := 0, samplers.len;
      while lo < hi
        invariant 0 <= lo <= hi <= samplers.len && Bsearch(es, op, lo, hi) == Lookup(es, op)
      {
        var mid := (lo + hi) / 2;
        var name := samplers.data[mid].name;
        assert name == es[mid].name;
        if name == op {
          return mid;
        }
        if Less(op, name) {
          hi := mid;
        } else {
          lo := mid + 1;
        }
      }
      i := -1;
    }

    /** jaeger_adaptive_sampler_is_sampled, on any index. */
    method IsSampled(c: OpCall) returns (decision: bool)
      requires Valid()
      modifies samplers, samplers.data
      ensures Valid()
      ensures samplers.Contents() == Sample(cfg, old(samplers.Contents()), c)
      ensures decision == Decide(cfg, old(samplers.Contents()), c)
    {
      ghost var es := samplers.Contents();
      var i := FindSampler(c.op, c.findMemory);
      if i >= 0 {
        var e := samplers.data[i];
        assert e == es[i];
        decision := Decision(e.bucket, c.call);
        samplers.Set(i, e.(bucket := NextBucket(e.bucket, c.call)));
        return;
      }
      if samplers.len >= cfg.maxOperations || !c.insertMemory {
        return c.call.lucky;
      }
      var op := c.op;
      var pos := samplers.LowerBound((e: Entry) => Less(e.name, op));
      assert pos == Place(es, op);
      var limiter := Limiter(cfg.lowerBound, c.created);
      decision := Decision(limiter, c.call);
      var ok := samplers.Insert(pos, Entry(op, NextBucket(limiter, c.call)), true);
    }
  }
}
