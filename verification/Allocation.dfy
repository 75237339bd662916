/**
  Memory, as far as the code can see it: an endless tape that says of each allocation whether it
  succeeds, and how many have been made.  No member can choose what the tape says.
 */
module Allocation {
  datatype Memory = Memory(tape: nat -> bool, used: nat)

  /** Whether the next n allocations succeed. */
  predicate Enough(m: Memory, n: nat)
    decreases n
  {
    n == 0 || (m.tape(m.used) && Enough(m.(used := m.used + 1), n - 1))
  }

  /** The memory after n allocations, or after the first of them that fails. */
  function After(m: Memory, n: nat): Memory
    decreases n
  {
    if n == 0 then m
    else if m.tape(m.used) then After(m.(used := m.used + 1), n - 1)
    else m.(used := m.used + 1)
  }

  /** malloc, realloc or strdup. */
  method Alloc(m: Memory) returns (ok: bool, rest: Memory)
    ensures ok == Enough(m, 1) && rest == After(m, 1)
  {
    ok := m.tape(m.used);
    rest := m.(used := m.used + 1);
    assert ok ==> Enough(rest, 0) && After(rest, 0) == rest;
  }

  /** Allocations one after the other. */
  method AllocMany(m: Memory, n: nat) returns (ok: bool, rest: Memory)
    ensures ok == Enough(m, n) && rest == After(m, n)
  {
    rest, ok := m, true;
    for i := 0 to n
      invariant ok && Enough(rest, n - i) == Enough(m, n) && After(rest, n - i) == After(m, n)
    {
      TakeStep(rest, 1, n - i - 1);
      ok, rest := Alloc(rest);
      if !ok {
        return;
      }
    }
  }

  /** Making n of n + k allocations. */
  lemma {:induction false} TakeStep(m: Memory, n: nat, k: nat)
    ensures Enough(m, n + k) <==> Enough(m, n) && Enough(After(m, n), k)
    ensures After(m, n + k) == if Enough(m, n) then After(After(m, n), k) else After(m, n)
    decreases n
  {
    if n > 0 {
      TakeStep(m.(used := m.used + 1), n - 1, k);
    }
  }

  lemma TakeNone(m: Memory)
    ensures Enough(m, 0) && After(m, 0) == m
  {
  }

  // ----- what happened between two points

  ghost predicate Follows(m: Memory, rest: Memory) { rest.tape == m.tape && m.used <= rest.used }

  /** Every allocation made in between succeeded. */
  ghost predicate Held(m: Memory, rest: Memory) { forall i :: m.used <= i < rest.used ==> m.tape(i) }

  lemma {:induction false} AfterHeld(m: Memory, n: nat)
    ensures Follows(m, After(m, n)) && (Held(m, After(m, n)) <==> Enough(m, n))
    decreases n
  {
    if n > 0 {
      AfterHeld(m.(used := m.used + 1), n - 1);
    }
  }

  lemma HeldBetween(a: Memory, b: Memory, c: Memory)
    requires Follows(a, b) && Follows(b, c)
    ensures Follows(a, c) && (Held(a, c) <==> Held(a, b) && Held(b, c))
  {
  }

  /** Memory that never runs out. */
  ghost predicate Ample(m: Memory) { forall i :: m.used <= i ==> m.tape(i) }

  lemma {:induction false} AmpleEnough(m: Memory, n: nat)
    requires Ample(m)
    ensures Enough(m, n) && Ample(After(m, n))
    decreases n
  {
    if n > 0 {
      AmpleEnough(m.(used := m.used + 1), n - 1);
    }
  }
}
