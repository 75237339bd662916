/** A context carried in headers from one heap to another. */
module HeaderTrip {
  import T = TableSpec
  import opened BinaryFormat
  import opened Contexts
  import opened HeaderFormat
  import opened HeaderLaws
  import opened HeaderCodec
  import opened Allocation

  function SendingOf(mode: Mode, ids: Ids, t: T.Table): Sending { Sending(mode, DefaultConfig(), ids, T.Items(t)) }

  ghost predicate NulFree(t: T.Table) { forall kv :: kv in T.Items(t) ==> 0 !in kv.value }

  /** The law, for a delivery of complete headers. */
  lemma TripLaw(mode: Mode, hash: T.HashFn, other: T.HashFn, ids: Ids, t: T.Table, logs: seq<seq<Code>>, hs: seq<T.KV>)
    requires T.Inv(hash, t) && InRange(ids) && NulFree(t)
    requires Aligned(t.buckets, logs) && |logs| == |t.buckets| && forall i :: 0 <= i < |logs| ==> AllSucceed(logs[i])
    requires multiset(hs) == multiset([TraceHeader(DefaultConfig(), ids)] + KeptAll(mode, DefaultConfig(), t.buckets, logs))
    ensures var s := SendingOf(mode, ids, t);
            GivesBack(s, other, Extract(mode, DefaultConfig(), other, hs)) <==> s.CarriesAll()
  {
    hide Extract, Inject, T.Inv, T.Items, DefaultConfig, Sending.Delivered, GivesBack, KeptAll, AllSucceed;
    var s := SendingOf(mode, ids, t);
    InjectedAll(mode, DefaultConfig(), ids, t, logs);
    DefaultConfigWellFormed(mode);
    T.ItemsDistinct(hash, t);
    PermutationDelivered(s, hs);
    HeadersComeBackIff(s, other, hs);
  }

  ghost function Result(copy: SpanContext?): Extraction
    requires copy != null ==> copy.Valid()
    reads copy, if copy == null then {} else {copy.baggage} + copy.baggage.repr
  {
    if copy == null then NoContext else Extracted(Value(copy))
  }

  /**
    Injected through a writer that takes every header, carried in any order and extracted, while
    memory holds: the context comes back exactly when the carrier can carry it, and one it can
    carry meets success on both sides.
   */
  method CarryHeaders(mode: Mode, ctx: SpanContext, answers: nat -> Code, route: seq<T.KV> -> seq<T.KV>,
                      hash: T.HashFn, metrics: Metrics, m: Memory)
    returns (sent: Code, received: Code, copy: SpanContext?, aborted: bool, left: Memory)
    requires ctx.Valid() && T.Inv(ctx.baggage.hash, ctx.baggage.View())
    requires InRange(ctx.Identity()) && NulFree(ctx.baggage.View())
    requires forall hs :: multiset(route(hs)) == multiset(hs)
    modifies metrics
    ensures copy != null ==> !aborted && received == Success && copy.Valid()
    ensures Follows(m, left)
    ensures (forall i :: answers(i) == Success) && Held(m, left) ==>
              var s := SendingOf(mode, ctx.Identity(), ctx.baggage.View());
              && sent == Success
              && (!aborted && received == Success && GivesBack(s, hash, Result(copy)) <==> s.CarriesAll())
  {
    hide Extract, KeptAll, AllSucceed, GivesBack, T.Inv, NulFree, Sending.CarriesAll, DefaultConfig;
    hide Joined, LogOf, MomentAfter, Completed, Aligned, StoppedAt, TraceHeader, InRange, Enough, Allocation.After;
    ghost var ids, t := ctx.Identity(), ctx.baggage.View();
    var writer := new Writer(answers);
    ghost var traced, logs;
    sent, left, traced, logs := InjectIntoTextMap(mode, DefaultConfig(), writer, ctx, m);
    ghost var injected := left;
    CompleteIfHeld(t.buckets, answers, m, 1, sent, traced, logs, left);
    if sent != Success {
      return sent, Unknown, null, false, left;
    }
    var headers := route(writer.headers);
    received, copy, aborted, left := ExtractFromTextMap(mode, DefaultConfig(), hash, headers, metrics, left);
    HeldBetween(m, injected, left);
    if (forall i :: answers(i) == Success) && Held(m, left) {
      TripLaw(mode, ctx.baggage.hash, hash, ids, t, logs, headers);
      NotGivenBack(SendingOf(mode, ids, t), hash);
    }
  }

  /** With a willing writer and memory that held, every attempt was made and succeeded. */
  lemma CompleteIfHeld(views: seq<seq<T.KV>>, answers: nat -> Code, m: Memory, calls: nat,
                       code: Code, traced: bool, logs: seq<seq<Code>>, left: Memory)
    requires Aligned(views, logs) && (code == Success <==> traced && Completed(views, logs))
    requires traced <==> answers(0) == Success
    requires traced && code != Success ==> StoppedAt(logs, code)
    requires traced ==> Joined(logs) == LogOf(answers, Moment(m, calls), |Joined(logs)|)
    requires traced ==> exists last :: Moment(left, last) == MomentAfter(answers, Moment(m, calls), |Joined(logs)|)
    requires !traced ==> left == m
    ensures Follows(m, left)
    ensures (forall i :: answers(i) == Success) && Held(m, left) ==>
              code == Success && |logs| == |views| && forall i :: 0 <= i < |logs| ==> AllSucceed(logs[i])
  {
    hide Joined, LogOf, MomentAfter;
    if traced {
      LogSucceedsIff(answers, Moment(m, calls), |Joined(logs)|);
      JoinedSucceed(logs);
    }
  }

  lemma NotGivenBack(s: Sending, hash: T.HashFn)
    ensures !GivesBack(s, hash, Crashed) && !GivesBack(s, hash, Rejected)
  {
  }
}
