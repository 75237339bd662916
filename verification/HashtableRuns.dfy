/** Runs of the heap hashtable: whatever allocations fail, the linked lists hold the table of a run. */
module HashtableRuns {
  import T = TableSpec
  import opened TableRuns
  import opened Allocation
  import opened TableMemory
  import opened Hashtable

  /** What may become of an operation: itself, or nothing (but growth) for lack of memory. */
  predicate MayBecome(asked: Op, done: Op) {
    done == asked ||
    (done.PutFailed? && !asked.DoRemove? && !asked.DoClear? && (done.grown ==> asked.DoPut?))
  }

  lemma RunMore(hash: T.HashFn, done: seq<Op>, op: Op)
    ensures Run(hash, done + [op]) == Apply(hash, Run(hash, done), op)
  {
    assert (done + [op])[..|done + [op]| - 1] == done;
  }

  /** One operation; a copy replaces the table. */
  method Perform(t: Hashtable, op: Op, m: Memory) returns (r: Hashtable, rest: Memory, ghost done: Op)
    requires t.Valid()
    modifies t, t.repr
    ensures MayBecome(op, done) && r.hash == t.hash
    ensures Follows(m, rest) && (Held(m, rest) && !op.PutFailed? ==> done == op)
    ensures done.PutFailed? && !op.PutFailed? ==> !Held(m, rest)
    ensures r.Valid() && (r == t || fresh(r)) && fresh(r.repr - old(t.repr))
    ensures r.View() == Apply(t.hash, old(t.View()), done)
  {
    hide T.Put, T.Grow, T.Remove, T.Copy, PutCost, CopyCost;
    r, rest, done := t, m, op;
    ghost var table := t.View();
    match op {
      case DoPut(key, value) =>
        AfterHeld(m, PutCost(t.hash, table, key));
        var ok;
        ok, rest := t.Put(key, value, m);
        if !ok {
          done := PutFailed(t.View() != old(t.View()));
        }
      case PutFailed(grown) =>
        done := PutFailed(false);
      case DoRemove(key) =>
        t.Remove(key);
      case DoRehash =>
        AfterHeld(m, 1);
        var ok;
        ok, rest := t.Rehash(m);
        if !ok {
          done := PutFailed(false);
        }
      case DoClear =>
        t.Clear();
      case DoCopy(builtin) =>
        var copy := new Hashtable(t.hash);
        AfterHeld(m, CopyCost(t.hash, table, builtin));
        var ok;
        ok, rest := copy.CopyFrom(t, builtin, m);
        if ok {
          r := copy;
        } else {
          done := PutFailed(false);
        }
    }
  }

  /**
    A table driven through any operations: it stands for the map that the operations that took
    place build, and its lookups and size field are those of that map.  While memory holds all
    take place.
   */
  method Drive(hash: T.HashFn, ops: seq<Op>, m: Memory)
    returns (ok: bool, t: Hashtable, rest: Memory, ghost done: seq<Op>)
    ensures Follows(m, rest) && (!ok ==> !Held(m, rest))
    ensures ok && Held(m, rest) && (forall i :: 0 <= i < |ops| ==> !ops[i].PutFailed?) ==> done == ops
    ensures ok ==> |done| == |ops| && forall i :: 0 <= i < |ops| ==> MayBecome(ops[i], done[i])
    ensures ok ==> fresh(t) && t.hash == hash && t.Valid() && t.View() == Run(hash, done)
    ensures ok ==> T.Inv(hash, t.View()) && T.Contents(t.View()) == RunMap(done) && t.size == |RunMap(done)| + Stale(done)
  {
    hide Enough, Allocation.After, Run, RunMap, Stale, T.Inv, T.Contents, Apply, MayBecome, Hashtable.Valid;
    t := new Hashtable(hash);
    done := [];
    AfterHeld(m, 1);
    ok, rest := t.Init(m);
    if !ok {
      return;
    }
    NothingRun(hash);
    for i := 0 to |ops|
      invariant fresh(t) && fresh(t.repr) && t.hash == hash && t.Valid()
      invariant |done| == i && forall j :: 0 <= j < i ==> MayBecome(ops[j], done[j])
      invariant t.View() == Run(hash, done)
      invariant Follows(m, rest)
      invariant Held(m, rest) ==> forall j :: 0 <= j < i && !ops[j].PutFailed? ==> done[j] == ops[j]
    {
      ghost var before, op := t.View(), DoClear;
      ghost var sofar := rest;
      t, rest, op := Perform(t, ops[i], rest);
      HeldBetween(m, sofar, rest);
      RunMore(hash, done, op);
      assert t.View() == Apply(hash, before, op);
      done := done + [op];
    }
    RunRefinesMap(hash, done);
  }

  lemma NothingRun(hash: T.HashFn)
    ensures Run(hash, []) == T.InitTable
  {
  }
}
