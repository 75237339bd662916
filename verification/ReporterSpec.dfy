/**
  The remote reporter's span queue as a value: what report and flush do to it, and
  what every run of them keeps.  A batch of spans packs to `base` bytes plus a
  positive cost per span; a send succeeds or fails as the network pleases.
 */
module ReporterSpec {

  /** `id` numbers the spans in the order they were queued. */
  datatype Span = Span(id: nat, cost: nat)

  /** reported, packets and dropped are history; queue is the reporter's own. */
  datatype State = State(reported: seq<Span>, packets: seq<seq<Span>>, dropped: seq<Span>, queue: seq<Span>)

  const Empty: State := State([], [], [], [])

  /** Packed size of the batch message without spans, and the most a packet may hold. */
  datatype Limits = Limits(base: nat, max: nat)

  function Cost(q: seq<Span>): nat {
    if q == [] then 0 else q[0].cost + Cost(q[1..])
  }

  function PackedSize(lim: Limits, q: seq<Span>): nat { lim.base + Cost(q) }

  predicate Fits(lim: Limits, q: seq<Span>) { PackedSize(lim, q) <= lim.max }

  predicate PrefixFits(lim: Limits, q: seq<Span>, n: nat)
    requires n <= |q|
  {
    Fits(lim, q[..n])
  }

  /** The search of build_batch: from n spans downwards, stop at the first batch that fits or at none. */
  function LongestFit(lim: Limits, q: seq<Span>, n: nat): (k: nat)
    requires n <= |q|
    ensures k <= n
    ensures k > 0 ==> PrefixFits(lim, q, k)
    ensures forall j :: k < j <= n ==> !PrefixFits(lim, q, j)
  {
    if n == 0 || PrefixFits(lim, q, n) then n else LongestFit(lim, q, n - 1)
  }

  function Report(s: State, cost: nat): State {
    var span := Span(|s.reported|, cost);
    s.(reported := s.reported + [span], queue := s.queue + [span])
  }

  /** What a batch meets: does the send succeed, is there memory for the spans behind the batch. */
  datatype Outcome = Outcome(send: bool, memory: bool)
  type Env = nat -> Outcome

  /**
    One batch: the new state, and whether flushing goes on.  Without memory for them the
    spans behind the batch are destroyed; a failed send puts the whole queue back all the same.
   */
  function FlushBatch(s: State, lim: Limits, o: Outcome): (r: (State, bool))
    requires s.queue != []
    ensures r.1 ==> |r.0.queue| < |s.queue|
  {
    var q := s.queue;
    var k := LongestFit(lim, q, |q|);
    var lost := if o.memory then [] else q[k..];
    if k == 0 then (s.(dropped := s.dropped + [q[0]], queue := q[1..]), false)
    else if o.send then
      (s.(packets := s.packets + [q[..k]], dropped := s.dropped + lost, queue := if o.memory then q[k..] else []), true)
    else (s.(dropped := s.dropped + lost), false)
  }

  /** The i-th batch meets env(i). */
  function Flush(s: State, lim: Limits, env: Env, i: nat): (State, bool)
    decreases |s.queue|
  {
    if s.queue == [] then (s, true)
    else
      var (r, more) := FlushBatch(s, lim, env(i));
      if more then Flush(r, lim, env, i + 1) else (r, false)
  }

  // ----- conservation and order

  function Concat(ps: seq<seq<Span>>): seq<Span> {
    if ps == [] then [] else Concat(ps[..|ps| - 1]) + ps[|ps| - 1]
  }

  function Sent(s: State): seq<Span> { Concat(s.packets) }

  function Ids(q: seq<Span>): set<nat> { set x | x in q :: x.id }

  /** The reported spans without those whose id is in `gone`, in order. */
  function Without(reported: seq<Span>, gone: set<nat>): seq<Span> {
    if reported == [] then []
    else
      var last := reported[|reported| - 1];
      Without(reported[..|reported| - 1], gone) + if last.id in gone then [] else [last]
  }

  ghost predicate Numbered(reported: seq<Span>) {
    forall i :: 0 <= i < |reported| ==> reported[i].id == i
  }

  /**
    Sent followed by queued is the reported order with the dropped spans left out,
    and no span is dropped that was not reported, or dropped twice.
   */
  ghost predicate Inv(s: State) {
    && Numbered(s.reported)
    && (forall x :: x in s.dropped ==> x in s.reported)
    && (forall i, j :: 0 <= i < j < |s.dropped| ==> s.dropped[i].id != s.dropped[j].id)
    && Sent(s) + s.queue == Without(s.reported, Ids(s.dropped))
  }

  lemma {:induction false} WithoutMembers(reported: seq<Span>, gone: set<nat>, x: Span)
    ensures x in Without(reported, gone) <==> x in reported && x.id !in gone
  {
    if reported != [] {
      var n := |reported| - 1;
      assert reported == reported[..n] + [reported[n]];
      WithoutMembers(reported[..n], gone, x);
    }
  }

  lemma SnocInjective(p: seq<Span>, u: Span, q: seq<Span>, v: Span)
    requires p + [u] == q + [v]
    ensures p == q && u == v
  {
    assert |p| == |p + [u]| - 1 == |q|;
    assert p == (p + [u])[..|p|] == (q + [v])[..|p|] == q;
    assert u == (p + [u])[|p|] == v;
  }

  lemma {:induction false} WithoutOneMore(reported: seq<Span>, gone: set<nat>, a: seq<Span>, x: Span, b: seq<Span>)
    requires Numbered(reported) && Without(reported, gone) == a + [x] + b
    ensures Without(reported, gone + {x.id}) == a + b
    decreases |reported|
  {
    if reported != [] {
      var n := |reported| - 1;
      var init, last := reported[..n], reported[n];
      WithoutMembers(init, gone, x);
      if last.id in gone {
        WithoutOneMore(init, gone, a, x, b);
      } else if b == [] {
        var all := Without(init, gone);
        assert all + [last] == a + [x];
        SnocInjective(all, last, a, x);
        WithoutAbsent(init, gone, x.id);
      } else {
        var m := |b| - 1;
        assert a + [x] + b == a + [x] + b[..m] + [b[m]];
        SnocInjective(Without(init, gone), last, a + [x] + b[..m], b[m]);
        WithoutOneMore(init, gone, a, x, b[..m]);
        assert x in Without(init, gone);
        assert a + b == a + b[..m] + [b[m]];
      }
    }
  }

  lemma {:induction false} WithoutAbsent(reported: seq<Span>, gone: set<nat>, id: nat)
    requires forall x :: x in reported ==> x.id != id
    ensures Without(reported, gone + {id}) == Without(reported, gone)
  {
    if reported != [] {
      WithoutAbsent(reported[..|reported| - 1], gone, id);
    }
  }

  lemma EmptyInv()
    ensures Inv(Empty)
  {
  }

  lemma {:induction false} ReportInv(s: State, cost: nat)
    requires Inv(s)
    ensures Inv(Report(s, cost))
    ensures Sent(Report(s, cost)) == Sent(s) && Report(s, cost).dropped == s.dropped
  {
    var r := Report(s, cost);
    var n := |s.reported|;
    assert r.reported[..n] == s.reported;
    assert n !in Ids(s.dropped);
    assert Sent(s) + r.queue == Sent(s) + s.queue + [Span(n, cost)];
  }

  lemma {:induction false} WithoutDistinct(reported: seq<Span>, gone: set<nat>)
    requires Numbered(reported)
    ensures Increasing(Without(reported, gone), |reported|)
  {
    if reported != [] {
      WithoutDistinct(reported[..|reported| - 1], gone);
    }
  }

  ghost predicate Increasing(q: seq<Span>, bound: nat) {
    && (forall i, j :: 0 <= i < j < |q| ==> q[i].id < q[j].id)
    && (forall i :: 0 <= i < |q| ==> q[i].id < bound)
  }

  lemma {:induction false} WithoutMany(reported: seq<Span>, gone: set<nat>, a: seq<Span>, b: seq<Span>)
    requires Numbered(reported) && Without(reported, gone) == a + b
    ensures Without(reported, gone + Ids(b)) == a
    decreases |b|
  {
    if b == [] {
      assert a + b == a && gone + Ids(b) == gone;
    } else {
      assert a + b == a + [b[0]] + b[1..];
      WithoutOneMore(reported, gone, a, b[0], b[1..]);
      WithoutMany(reported, gone + {b[0].id}, a, b[1..]);
      assert b == [b[0]] + b[1..];
      assert gone + {b[0].id} + Ids(b[1..]) == gone + Ids(b);
    }
  }

  lemma DropHeadInv(s: State)
    requires Inv(s) && s.queue != []
    ensures Inv(s.(dropped := s.dropped + [s.queue[0]], queue := s.queue[1..]))
  {
    var q := s.queue;
    var r := s.(dropped := s.dropped + [q[0]], queue := q[1..]);
    assert Sent(s) + q == Sent(s) + [q[0]] + q[1..];
    WithoutOneMore(s.reported, Ids(s.dropped), Sent(s), q[0], q[1..]);
    WithoutMembers(s.reported, Ids(s.dropped), q[0]);
    assert q[0] in Sent(s) + q;
    assert Ids(r.dropped) == Ids(s.dropped) + {q[0].id};
  }

  lemma SendInv(s: State, k: nat)
    requires Inv(s) && k <= |s.queue|
    ensures Inv(s.(packets := s.packets + [s.queue[..k]], queue := s.queue[k..]))
  {
    var q := s.queue;
    var r := s.(packets := s.packets + [q[..k]], queue := q[k..]);
    assert r.packets[..|r.packets| - 1] == s.packets;
    assert Sent(r) + r.queue == Sent(s) + (q[..k] + q[k..]);
    assert q[..k] + q[k..] == q;
  }

  lemma DropAllInv(s: State)
    requires Inv(s)
    ensures Inv(s.(dropped := s.dropped + s.queue, queue := []))
  {
    hide Without, Concat;
    var q := s.queue;
    var all := Without(s.reported, Ids(s.dropped));
    var r := s.(dropped := s.dropped + q, queue := []);
    WithoutMany(s.reported, Ids(s.dropped), Sent(s), q);
    assert Ids(r.dropped) == Ids(s.dropped) + Ids(q);
    assert Sent(s) + [] == Sent(s);
    WithoutDistinct(s.reported, Ids(s.dropped));
    forall x | x in q ensures x in s.reported && x.id !in Ids(s.dropped) {
      assert x in Sent(s) + q;
      WithoutMembers(s.reported, Ids(s.dropped), x);
    }
    forall i, j | 0 <= i < j < |q| ensures q[i].id != q[j].id {
      assert all[|Sent(s)| + i] == q[i] && all[|Sent(s)| + j] == q[j];
    }
  }

  /** Nothing is lost unless spans are destroyed for lack of memory. */
  predicate Keeps(s: State, lim: Limits, o: Outcome) {
    var k := LongestFit(lim, s.queue, |s.queue|);
    o.memory || o.send || k == 0 || k == |s.queue|
  }

  /**
    A batch keeps the invariant exactly when no destroyed span is put back: destroying spans
    for lack of memory and then failing to send leaves them both dropped and queued.
   */
  lemma {:induction false} FlushBatchInv(s: State, lim: Limits, o: Outcome)
    requires Inv(s) && s.queue != []
    ensures Inv(FlushBatch(s, lim, o).0) <==> Keeps(s, lim, o)
  {
    var q := s.queue;
    var k := LongestFit(lim, q, |q|);
    var r := FlushBatch(s, lim, o).0;
    if k == 0 {
      DropHeadInv(s);
    } else if o.send {
      var m := s.(packets := s.packets + [q[..k]], queue := q[k..]);
      SendInv(s, k);
      if o.memory {
        assert s.dropped + [] == s.dropped;
      } else {
        DropAllInv(m);
      }
    } else if o.memory || k == |q| {
      assert s.dropped + [] == s.dropped && q[|q|..] == [];
      assert r == s;
    } else {
      var x := q[k];
      assert x in r.queue && x in q[k..] && x in r.dropped;
      assert x.id in Ids(r.dropped);
      WithoutMembers(r.reported, Ids(r.dropped), x);
      assert x in Sent(r) + r.queue;
    }
  }

  /** Every batch of the flush keeps its spans. */
  predicate FlushKeeps(s: State, lim: Limits, env: Env, i: nat)
    decreases |s.queue|
  {
    s.queue == [] ||
    (Keeps(s, lim, env(i)) &&
     var (r, more) := FlushBatch(s, lim, env(i));
     more ==> FlushKeeps(r, lim, env, i + 1))
  }

  /** A flush keeps the invariant exactly when all its batches do. */
  lemma {:induction false} FlushInv(s: State, lim: Limits, env: Env, i: nat)
    requires Inv(s)
    ensures Inv(Flush(s, lim, env, i).0) <==> FlushKeeps(s, lim, env, i)
    decreases |s.queue|
  {
    hide Inv, LongestFit;
    if s.queue != [] {
      FlushBatchInv(s, lim, env(i));
      var (r, more) := FlushBatch(s, lim, env(i));
      if more {
        SentKeeps(s, lim, env(i));
        FlushInv(r, lim, env, i + 1);
      }
    }
  }

  /** Only a batch whose send fails can put destroyed spans back. */
  lemma SentKeeps(s: State, lim: Limits, o: Outcome)
    requires s.queue != [] && FlushBatch(s, lim, o).1
    ensures Keeps(s, lim, o)
  {
  }

  /** Enough: no batch runs out of memory and fails to be sent. */
  lemma {:induction false} SafeFlushKeeps(s: State, lim: Limits, env: Env, i: nat)
    requires forall j :: env(j).memory || env(j).send
    ensures FlushKeeps(s, lim, env, i)
    decreases |s.queue|
  {
    if s.queue != [] {
      var (r, more) := FlushBatch(s, lim, env(i));
      if more {
        SafeFlushKeeps(r, lim, env, i + 1);
      }
    }
  }

  /** What the application and the network do; the batch overhead may differ from flush to flush. */
  datatype Event = DoReport(cost: nat) | DoFlush(lim: Limits, env: Env)

  function Apply(s: State, e: Event): State {
    match e
    case DoReport(cost) => Report(s, cost)
    case DoFlush(lim, env) => Flush(s, lim, env, 0).0
  }

  predicate EventKeeps(s: State, e: Event) { e.DoFlush? ==> FlushKeeps(s, e.lim, e.env, 0) }

  function Run(events: seq<Event>): State {
    if events == [] then Empty else Apply(Run(events[..|events| - 1]), events[|events| - 1])
  }

  /** Every flush of the run keeps its spans. */
  predicate RunKeeps(events: seq<Event>) {
    events == [] ||
    var before := events[..|events| - 1];
    RunKeeps(before) && EventKeeps(Run(before), events[|events| - 1])
  }

  lemma {:induction false} RunInv(events: seq<Event>)
    requires RunKeeps(events)
    ensures Inv(Run(events))
  {
    if events == [] {
      EmptyInv();
    } else {
      var before := events[..|events| - 1];
      RunInv(before);
      match events[|events| - 1]
      case DoReport(cost) => ReportInv(Run(before), cost);
      case DoFlush(lim, env) => FlushInv(Run(before), lim, env, 0);
    }
  }

  lemma {:induction false} WithoutPartition(reported: seq<Span>, gone: seq<Span>)
    requires Numbered(reported)
    requires forall x :: x in gone ==> x in reported
    requires forall i, j :: 0 <= i < j < |gone| ==> gone[i].id != gone[j].id
    ensures multiset(Without(reported, Ids(gone))) + multiset(gone) == multiset(reported)
    decreases |gone|
  {
    if gone == [] {
      WithoutNone(reported);
      assert Ids(gone) == {} && multiset(gone) == multiset{};
    } else {
      var n := |gone| - 1;
      var rest, x := gone[..n], gone[n];
      assert gone == rest + [x];
      WithoutPartition(reported, rest);
      var ids := Ids(rest);
      assert Ids(gone) == ids + {x.id};
      assert x.id !in ids;
      PickOut(reported, ids, x);
      var kept := Without(reported, ids + {x.id});
      Shift(multiset(kept), multiset(rest), x);
      assert multiset(rest + [x]) == multiset(rest) + multiset{x};
      calc {
        multiset(kept) + multiset(gone);
        (multiset(kept) + multiset{x}) + multiset(rest);
        multiset(Without(reported, ids)) + multiset(rest);
        multiset(reported);
      }
    }
  }

  lemma Shift(a: multiset<Span>, b: multiset<Span>, x: Span)
    ensures a + (b + multiset{x}) == (a + multiset{x}) + b
  {
  }

  lemma PickOut(reported: seq<Span>, gone: set<nat>, x: Span)
    requires Numbered(reported) && x in reported && x.id !in gone
    ensures multiset(Without(reported, gone)) == multiset(Without(reported, gone + {x.id})) + multiset{x}
  {
    var all := Without(reported, gone);
    WithoutMembers(reported, gone, x);
    var k :| 0 <= k < |all| && all[k] == x;
    assert all == all[..k] + [x] + all[k + 1..];
    WithoutOneMore(reported, gone, all[..k], x, all[k + 1..]);
    TakeOut(all[..k], x, all[k + 1..]);
  }

  lemma TakeOut(a: seq<Span>, x: Span, b: seq<Span>)
    ensures multiset(a + [x] + b) == multiset(a + b) + multiset{x}
  {
  }

  lemma {:induction false} WithoutNone(reported: seq<Span>)
    ensures Without(reported, {}) == reported
  {
    if reported != [] {
      WithoutNone(reported[..|reported| - 1]);
    }
  }

  /**
    Each reported span is in exactly one of sent, dropped and queued, and sent followed by
    queued is the reported order without the dropped spans.
   */
  ghost predicate Conserves(s: State) {
    && multiset(Sent(s)) + multiset(s.queue) + multiset(s.dropped) == multiset(s.reported)
    && Sent(s) + s.queue == Without(s.reported, Ids(s.dropped))
  }

  lemma {:induction false} NumberedOnce(reported: seq<Span>, x: Span)
    requires Numbered(reported)
    ensures multiset(reported)[x] <= 1
  {
    if reported != [] {
      var n := |reported| - 1;
      NumberedOnce(reported[..n], x);
      assert reported == reported[..n] + [reported[n]];
      assert x == reported[n] ==> x !in reported[..n];
    }
  }

  lemma TwiceCounts(q: seq<Span>, i: nat, j: nat)
    requires i < j < |q| && q[i] == q[j]
    ensures multiset(q)[q[i]] >= 2
  {
    assert q == q[..i] + [q[i]] + q[i + 1..j] + [q[j]] + q[j + 1..];
  }

  lemma NumberedUnique(reported: seq<Span>, x: Span, y: Span)
    requires Numbered(reported) && x in reported && y in reported && x.id == y.id
    ensures x == y
  {
  }

  /** For numbered spans the invariant says just that. */
  lemma {:induction false} InvIffConserves(s: State)
    requires Numbered(s.reported)
    ensures Inv(s) <==> Conserves(s)
  {
    if Inv(s) {
      WithoutPartition(s.reported, s.dropped);
      assert multiset(Sent(s) + s.queue) == multiset(Sent(s)) + multiset(s.queue);
    }
    if Conserves(s) {
      hide Without, Numbered, Sent;
      forall x | x in s.dropped
        ensures x in s.reported
      {
        assert x in multiset(s.dropped) && x in multiset(s.reported);
      }
      forall i, j | 0 <= i < j < |s.dropped|
        ensures s.dropped[i].id != s.dropped[j].id
      {
        if s.dropped[i].id == s.dropped[j].id {
          NumberedUnique(s.reported, s.dropped[i], s.dropped[j]);
          TwiceCounts(s.dropped, i, j);
          NumberedOnce(s.reported, s.dropped[i]);
        }
      }
    }
  }

  /**
    Over every run of queued reports and of flushes that put no destroyed span back, whatever
    the sends do, spans are conserved in order.
   */
  lemma {:induction false} RunConserves(events: seq<Event>)
    requires RunKeeps(events)
    ensures Conserves(Run(events))
  {
    hide Run, RunKeeps, Conserves;
    RunInv(events);
    InvIffConserves(Run(events));
  }
}
