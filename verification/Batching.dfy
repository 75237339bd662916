/** How flush cuts the queue into packets: optimality, oversized spans and termination. */
module Batching {
  import opened ReporterSpec

  // ----- costs and concatenation

  lemma {:induction false} CostConcat(a: seq<Span>, b: seq<Span>)
    ensures Cost(a + b) == Cost(a) + Cost(b)
  {
    if a == [] {
      assert a + b == b;
    } else {
      assert (a + b)[1..] == a[1..] + b;
      CostConcat(a[1..], b);
    }
  }

  /** The costs added up from the other end. */
  function Sum(q: seq<Span>): nat {
    if q == [] then 0 else Sum(q[..|q| - 1]) + q[|q| - 1].cost
  }

  /** A batch fits exactly if the overhead and the costs of all its spans do. */
  lemma {:induction false} FitsIff(lim: Limits, q: seq<Span>)
    ensures Cost(q) == Sum(q) && (Fits(lim, q) <==> lim.base + Sum(q) <= lim.max)
    decreases |q|
  {
    if q != [] {
      var n := |q| - 1;
      assert q == q[..n] + [q[n]];
      FitsIff(lim, q[..n]);
      CostConcat(q[..n], [q[n]]);
      assert [q[n]][1..] == [];
    }
  }

  /** A part of a batch that fits, fits. */
  lemma PartFits(lim: Limits, q: seq<Span>, i: nat, j: nat)
    requires i <= j <= |q| && Fits(lim, q)
    ensures Fits(lim, q[i..j])
  {
    assert q == q[..i] + (q[i..j] + q[j..]);
    CostConcat(q[..i], q[i..j] + q[j..]);
    CostConcat(q[i..j], q[j..]);
  }

  lemma {:induction false} ConcatFront(p: seq<Span>, ps: seq<seq<Span>>)
    ensures Concat([p] + ps) == p + Concat(ps)
    decreases |ps|
  {
    var all := [p] + ps;
    if ps == [] {
      assert all[..0] == [] && Concat(all[..0]) == [];
    } else {
      var n := |ps| - 1;
      assert all[..|all| - 1] == [p] + ps[..n];
      ConcatFront(p, ps[..n]);
    }
  }

  lemma {:induction false} ConcatConcat(a: seq<seq<Span>>, b: seq<seq<Span>>)
    ensures Concat(a + b) == Concat(a) + Concat(b)
    decreases |b|
  {
    if b == [] {
      assert a + b == a;
    } else {
      var n := |b| - 1;
      assert (a + b)[..|a + b| - 1] == a + b[..n] && (a + b)[|a + b| - 1] == b[n];
      ConcatConcat(a, b[..n]);
      assert Concat(a) + Concat(b[..n]) + b[n] == Concat(a) + (Concat(b[..n]) + b[n]);
    }
  }

  // ----- the packets of a flush whose sends all succeed

  predicate Oversized(lim: Limits, x: Span) { !Fits(lim, [x]) }

  /** Position of the first span that fits in no packet; the length if there is none. */
  function FirstOversized(lim: Limits, q: seq<Span>): (i: nat)
    ensures i <= |q|
    ensures forall j :: 0 <= j < i ==> !Oversized(lim, q[j])
    ensures i < |q| ==> Oversized(lim, q[i])
  {
    if q == [] || Oversized(lim, q[0]) then 0 else 1 + FirstOversized(lim, q[1..])
  }

  lemma FirstOversizedUnique(lim: Limits, q: seq<Span>, i: nat)
    requires i <= |q| && (i < |q| ==> Oversized(lim, q[i]))
    requires forall j :: 0 <= j < i ==> !Oversized(lim, q[j])
    ensures FirstOversized(lim, q) == i
  {
  }

  /** The batch stops short of the first oversized span, and is empty only in front of it. */
  lemma {:induction false} LongestFitStops(lim: Limits, q: seq<Span>)
    requires q != []
    ensures var k, i := LongestFit(lim, q, |q|), FirstOversized(lim, q); k <= i && (k == 0 <==> i == 0)
  {
    var k, i := LongestFit(lim, q, |q|), FirstOversized(lim, q);
    forall j | 0 <= j < k ensures !Oversized(lim, q[j]) {
      PartFits(lim, q[..k], j, j + 1);
      assert q[..k][j..j + 1] == [q[j]];
    }
    assert q[..1] == [q[0]];
    assert PrefixFits(lim, q, 1) == !Oversized(lim, q[0]);
  }

  /** Behind the batch, the first oversized span is the same one. */
  lemma BehindBatch(lim: Limits, q: seq<Span>, k: nat)
    requires q != [] && k == LongestFit(lim, q, |q|) && k > 0
    ensures var i := FirstOversized(lim, q);
            var rest := q[k..];
            && k <= i && FirstOversized(lim, rest) == i - k
            && q[..i] == q[..k] + rest[..i - k]
            && (i < |q| ==> rest[i - k] == q[i] && rest[i - k + 1..] == q[i + 1..])
  {
    LongestFitStops(lim, q);
    hide LongestFit, Oversized;
    FirstOversizedUnique(lim, q[k..], FirstOversized(lim, q) - k);
  }

  /** Every send succeeds and memory never runs out, from the i-th batch on. */
  ghost predicate AllSucceed(env: Env, i: nat) { forall j :: j >= i ==> env(j) == Outcome(true, true) }

  ghost predicate AllFit(lim: Limits, ps: seq<seq<Span>>) {
    forall i :: 0 <= i < |ps| ==> Fits(lim, ps[i])
  }

  /** Longest-prefix batches up to the first oversized span. */
  function Greedy(lim: Limits, q: seq<Span>): (ps: seq<seq<Span>>)
    ensures AllFit(lim, ps)
    decreases |q|
  {
    if q == [] then []
    else
      var k := LongestFit(lim, q, |q|);
      if k == 0 then [] else [q[..k]] + Greedy(lim, q[k..])
  }

  lemma {:induction false} GreedyCovers(lim: Limits, q: seq<Span>)
    ensures Concat(Greedy(lim, q)) == q[..FirstOversized(lim, q)]
    decreases |q|
  {
    if q != [] {
      var k := LongestFit(lim, q, |q|);
      LongestFitStops(lim, q);
      if k > 0 {
        BehindBatch(lim, q, k);
        GreedyCovers(lim, q[k..]);
        ConcatFront(q[..k], Greedy(lim, q[k..]));
      }
    }
  }

  /** Where a flush ends when every send succeeds. */
  function AfterFlush(s: State, lim: Limits): State {
    var i := FirstOversized(lim, s.queue);
    var stuck := i < |s.queue|;
    State(s.reported,
          s.packets + Greedy(lim, s.queue),
          s.dropped + (if stuck then [s.queue[i]] else []),
          if stuck then s.queue[i + 1..] else [])
  }

  lemma AfterBatch(s: State, lim: Limits, k: nat)
    requires s.queue != [] && k == LongestFit(lim, s.queue, |s.queue|) && k > 0
    ensures AfterFlush(s.(packets := s.packets + [s.queue[..k]], queue := s.queue[k..]), lim) == AfterFlush(s, lim)
  {
    hide FirstOversized, LongestFit, Greedy, Oversized;
    var q := s.queue;
    var m := s.(packets := s.packets + [q[..k]], queue := q[k..]);
    BehindBatch(lim, q, k);
    GreedyStep(lim, q, k);
    PacketsAssociate(s.packets, q[..k], Greedy(lim, q[k..]));
    var i := FirstOversized(lim, q);
    assert AfterFlush(m, lim).packets == AfterFlush(s, lim).packets;
    assert AfterFlush(m, lim).queue == AfterFlush(s, lim).queue;
    assert AfterFlush(m, lim).dropped == AfterFlush(s, lim).dropped;
  }

  lemma GreedyStep(lim: Limits, q: seq<Span>, k: nat)
    requires q != [] && k == LongestFit(lim, q, |q|) && k > 0
    ensures Greedy(lim, q) == [q[..k]] + Greedy(lim, q[k..])
  {
  }

  lemma PacketsAssociate(a: seq<seq<Span>>, p: seq<Span>, b: seq<seq<Span>>)
    ensures a + [p] + b == a + ([p] + b)
  {
  }

  lemma AfterDrop(s: State, lim: Limits)
    requires s.queue != [] && LongestFit(lim, s.queue, |s.queue|) == 0
    ensures AfterFlush(s, lim) == s.(dropped := s.dropped + [s.queue[0]], queue := s.queue[1..])
    ensures FirstOversized(lim, s.queue) == 0
  {
    LongestFitStops(lim, s.queue);
    assert s.packets + Greedy(lim, s.queue) == s.packets;
  }

  lemma {:induction false} FlushPackets(s: State, lim: Limits, env: Env, n: nat)
    requires AllSucceed(env, n)
    ensures Flush(s, lim, env, n) == (AfterFlush(s, lim), FirstOversized(lim, s.queue) == |s.queue|)
    decreases |s.queue|
  {
    var q := s.queue;
    if q == [] {
      assert s.packets + Greedy(lim, q) == s.packets && s.dropped + [] == s.dropped;
    } else {
      var k := LongestFit(lim, q, |q|);
      if k > 0 {
        BehindBatch(lim, q, k);
        AfterBatch(s, lim, k);
        assert s.dropped + [] == s.dropped;
        FlushPackets(s.(packets := s.packets + [q[..k]], queue := q[k..]), lim, env, n + 1);
      } else {
        AfterDrop(s, lim);
      }
    }
  }

  /**
    With every send succeeding, a flush sends exactly the spans in front of the first oversized
    one, in order and in packets within the limit; it drops exactly that span and stops there,
    or empties the queue if there is none.
   */
  lemma {:induction false} FlushToOversized(s: State, lim: Limits, env: Env, n: nat)
    requires AllSucceed(env, n)
    ensures var (r, ok) := Flush(s, lim, env, n);
            var i := FirstOversized(lim, s.queue);
            && r.packets == s.packets + Greedy(lim, s.queue)
            && Sent(r) == Sent(s) + s.queue[..i]
            && ok == (i == |s.queue|)
            && r.dropped == s.dropped + (if ok then [] else [s.queue[i]])
            && r.queue == (if ok then [] else s.queue[i + 1..])
            && r.reported == s.reported
  {
    FlushPackets(s, lim, env, n);
    GreedyCovers(lim, s.queue);
    ConcatConcat(s.packets, Greedy(lim, s.queue));
  }

  // ----- no split uses fewer packets

  lemma {:induction false} GreedySuffix(lim: Limits, q: seq<Span>, j: nat)
    requires j <= |q| && FirstOversized(lim, q) == |q|
    ensures |Greedy(lim, q[j..])| <= |Greedy(lim, q)|
    decreases |q|, j
  {
    hide FirstOversized, LongestFit, Cost, Oversized;
    var s := q[j..];
    FirstOversizedUnique(lim, s, |s|);
    if s != [] {
      LongestFitStops(lim, q);
      LongestFitStops(lim, s);
      var k, m := LongestFit(lim, q, |q|), LongestFit(lim, s, |s|);
      FirstOversizedUnique(lim, q[k..], |q| - k);
      if k <= j {
        assert s == q[k..][j - k..];
        GreedySuffix(lim, q[k..], j - k);
      } else {
        PartFits(lim, q[..k], j, k);
        assert q[..k][j..k] == s[..k - j];
        assert PrefixFits(lim, s, k - j);
        assert s[m..] == q[k..][j + m - k..];
        GreedySuffix(lim, q[k..], j + m - k);
      }
    }
  }

  /** Greedy on all of q needs at most one packet more than on what a first fitting batch leaves. */
  lemma OneMore(lim: Limits, q: seq<Span>, j: nat)
    requires q != [] && j <= |q| && FirstOversized(lim, q) == |q| && Fits(lim, q[..j])
    requires FirstOversized(lim, q[j..]) == |q| - j
    ensures |Greedy(lim, q)| <= 1 + |Greedy(lim, q[j..])|
  {
    var k := LongestFit(lim, q, |q|);
    LongestFitStops(lim, q);
    assert PrefixFits(lim, q, j);
    assert q[k..] == q[j..][k - j..];
    GreedySuffix(lim, q[j..], k - j);
  }

  /** Cutting off the longest prefix that fits is optimal. */
  lemma {:induction false} GreedyOptimal(lim: Limits, q: seq<Span>, split: seq<seq<Span>>)
    requires FirstOversized(lim, q) == |q| && Concat(split) == q && AllFit(lim, split)
    ensures |Greedy(lim, q)| <= |split|
    decreases |split|
  {
    if q != [] {
      assert split != [];
      var p, rest := split[0], split[1..];
      assert split == [p] + rest;
      ConcatFront(p, rest);
      var j := |p|;
      assert q[..j] == p && q[j..] == Concat(rest);
      FirstOversizedUnique(lim, q[j..], |q| - j);
      assert AllFit(lim, rest) by { assert forall i :: 0 <= i < |rest| ==> rest[i] == split[i + 1]; }
      GreedyOptimal(lim, q[j..], rest);
      OneMore(lim, q, j);
    }
  }

  /**
    When every queued span fits alone and all sends succeed, flush sends everything in order,
    no packet exceeds the limit, and no split of the queue into consecutive fitting batches
    uses fewer packets.
   */
  lemma {:induction false} FlushOptimal(s: State, lim: Limits, env: Env, split: seq<seq<Span>>)
    requires AllSucceed(env, 0) && forall x :: x in s.queue ==> !Oversized(lim, x)
    requires Concat(split) == s.queue && AllFit(lim, split)
    ensures var (r, ok) := Flush(s, lim, env, 0);
            && ok && r.queue == [] && r.dropped == s.dropped
            && Sent(r) == Sent(s) + s.queue
            && |s.packets| <= |r.packets| <= |s.packets| + |split|
            && AllFit(lim, r.packets[|s.packets|..])
  {
    var q := s.queue;
    FirstOversizedUnique(lim, q, |q|);
    FlushToOversized(s, lim, env, 0);
    GreedyOptimal(lim, q, split);
    assert q[..|q|] == q;
    assert (s.packets + Greedy(lim, q))[|s.packets|..] == Greedy(lim, q);
  }

  // ----- how many flushes empty the queue

  function CountOversized(lim: Limits, q: seq<Span>): nat {
    if q == [] then 0 else (if Oversized(lim, q[0]) then 1 else 0) + CountOversized(lim, q[1..])
  }

  lemma {:induction false} CountBehind(lim: Limits, q: seq<Span>)
    ensures var i := FirstOversized(lim, q);
            CountOversized(lim, q) == if i == |q| then 0 else 1 + CountOversized(lim, q[i + 1..])
  {
    if q != [] && !Oversized(lim, q[0]) {
      CountBehind(lim, q[1..]);
      var i := FirstOversized(lim, q);
      if i < |q| {
        assert q[1..][i..] == q[i + 1..];
      }
    }
  }

  function FlushTimes(s: State, lim: Limits, env: Env, n: nat): State
    decreases n
  {
    if n == 0 then s else FlushTimes(Flush(s, lim, env, 0).0, lim, env, n - 1)
  }

  /** With sends succeeding, k oversized spans need at most k + 1 flush calls. */
  lemma {:induction false} FlushesEmptyQueue(s: State, lim: Limits, env: Env, n: nat)
    requires AllSucceed(env, 0) && n > CountOversized(lim, s.queue)
    ensures FlushTimes(s, lim, env, n).queue == []
    decreases n
  {
    hide Flush, Greedy, Concat, FirstOversized, Oversized;
    FlushToOversized(s, lim, env, 0);
    CountBehind(lim, s.queue);
    var r := Flush(s, lim, env, 0).0;
    if n > 1 {
      FlushesEmptyQueue(r, lim, env, n - 1);
    }
  }
}
