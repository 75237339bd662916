/** The span context, the codes the carriers return, and the one counter they update. */
module Contexts {
  import opened Basics
  import T = TableSpec
  import opened BinaryFormat
  import opened Hashtable

  datatype Code = Success | SpanContextCorrupted | Unknown

  class Metrics {
    var decodingErrors: nat

    constructor ()
      ensures decodingErrors == 0
    {
      decodingErrors := 0;
    }
  }

  class SpanContext {
    var high: nat
    var low: nat
    var span: nat
    var flags: byte
    var debugId: Option<Bytes>
    const baggage: Hashtable

    ghost predicate Valid()
      reads this, baggage, baggage.repr
    {
      baggage.Valid() && this !in baggage.repr
    }

    function Identity(): Ids
      reads this
    {
      Ids(high, low, span, flags)
    }

    constructor (hash: T.HashFn)
      ensures Identity() == Ids(0, 0, 0, 0) && debugId == None
      ensures fresh(baggage) && baggage.hash == hash && baggage.buckets == null
    {
      high, low, span, flags, debugId := 0, 0, 0, 0, None;
      baggage := new Hashtable(hash);
    }
  }
}
