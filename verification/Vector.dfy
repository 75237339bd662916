/** The growable vector of vector.c; memory may run out when it grows. */
module Vector {
  const RESIZE_FACTOR: nat := 2

  class Vector<T> {
    const zero: T  // all bytes zero
    var data: array<T>
    var len: nat

    ghost predicate Valid()
      reads this
    {
      len <= data.Length && data.Length > 0
    }

    ghost function Contents(): seq<T>
      requires Valid()
      reads this, data
    {
      data[..len]
    }

    constructor (capacity: nat, zero: T)
      requires capacity > 0
      ensures Valid() && Contents() == [] && fresh(data) && data.Length == capacity && this.zero == zero
      ensures forall i :: 0 <= i < capacity ==> data[i] == zero
    {
      this.zero := zero;
      data := new T[capacity](_ => zero);
      len := 0;
    }

    method Reserve(n: nat, memory: bool) returns (ok: bool)
      requires Valid()
      modifies this`data
      ensures Valid() && Contents() == old(Contents())
      ensures ok == (old(data.Length) >= n || memory)
      ensures ok ==> data.Length >= n
      ensures data == old(data) || fresh(data)
      ensures !ok || old(data.Length) >= n ==> data == old(data)
      ensures data != old(data) ==> data[..old(data.Length)] == old(data[..])
      ensures forall i :: old(data.Length) <= i < data.Length ==> data[i] == zero
    {
      if data.Length >= n {
        return true;
      }
      var aligned := data.Length;
      while aligned < n
        invariant aligned >= data.Length
        decreases n - aligned
      {
        aligned := aligned * RESIZE_FACTOR;
      }
      if !memory {
        return false;
      }
      var grown := new T[aligned](_ => zero);
      forall i | 0 <= i < data.Length {
        grown[i] := data[i];
      }
      assert grown[..data.Length] == data[..];
      data := grown;
      ok := true;
    }

    /** Make room at pos by moving the tail up, and store x there. */
    method Insert(pos: nat, x: T, memory: bool) returns (ok: bool)
      requires Valid() && pos <= len
      modifies this, data
      ensures Valid() && (data == old(data) || fresh(data))
      ensures ok == (old(len) < old(data.Length) || memory)
      ensures Contents() == if ok then old(Contents())[..pos] + [x] + old(Contents())[pos..] else old(Contents())
    {
      ok := true;
      if len + 1 > data.Length {
        ok := Reserve(data.Length + 1, memory);
        if !ok {
          return;
        }
      }
      MoveUp(pos, x);
    }

    method MoveUp(pos: nat, x: T)
      requires Valid() && pos <= len < data.Length
      modifies this`len, data
      ensures Valid() && Contents() == old(Contents())[..pos] + [x] + old(Contents())[pos..]
    {
      forall i | pos < i <= len {
        data[i] := data[i - 1];
      }
      data[pos] := x;
      len := len + 1;
    }

    method Set(i: nat, x: T)
      requires Valid() && i < len
      modifies data
      ensures Contents() == old(Contents())[i := x]
    {
      data[i] := x;
    }

    /**
      jaeger_vector_lower_bound: bisect for the first element that is not before the key.
      When the probed element is not before the key the code keeps the position it probed,
      so the result is not always the bound itself.
     */
    method LowerBound(before: T -> bool) returns (pos: nat)
      requires Valid()
      ensures pos <= len && pos == Search(Contents(), before, len, 0)
    {
      var count := len;
      pos := 0;
      while count > 0
        invariant pos + count <= len && Search(Contents(), before, count, pos) == Search(Contents(), before, len, 0)
      {
        var step := count / 2;
        pos := pos + step;
        if before(data[pos]) {
          pos := pos + 1;
          count := count - (step + 1);
        } else {
          count := step;
        }
      }
    }
  }

  // ----- what lower_bound returns

  /** The search on any contents, sorted or not. */
  function Search<T>(s: seq<T>, before: T -> bool, count: nat, pos: nat): (r: nat)
    requires pos + count <= |s|
    ensures pos <= r <= pos + count
  {
    if count == 0 then pos
    else
      var step := count / 2;
      if before(s[pos + step]) then Search(s, before, count - (step + 1), pos + step + 1)
      else Search(s, before, step, pos + step)
  }

  /** On contents that are before the key up to a bound only the bound matters. */
  lemma {:induction false} SearchIsProbe<T>(s: seq<T>, before: T -> bool, count: nat, pos: nat, bound: nat)
    requires pos + count <= |s| && forall i :: 0 <= i < |s| ==> (before(s[i]) <==> i < bound)
    ensures Search(s, before, count, pos) == Probe(count, pos, bound)
    decreases count
  {
    if count > 0 {
      var step := count / 2;
      if before(s[pos + step]) {
        SearchIsProbe(s, before, count - (step + 1), pos + step + 1, bound);
      } else {
        SearchIsProbe(s, before, step, pos + step, bound);
      }
    }
  }

  /** The search as a function of the number of elements left, the position, and where the true bound is. */
  function Probe(count: nat, pos: nat, bound: nat): (r: nat)
    ensures pos <= r <= pos + count
  {
    if count == 0 then pos
    else
      var step := count / 2;
      if pos + step < bound then Probe(count - (step + 1), pos + step + 1, bound)
      else Probe(step, pos + step, bound)
  }

  /** Halving (rounding down) n - 1 again and again meets 3. */
  predicate MeetsThree(n: nat) { n == 3 || (n > 3 && MeetsThree((n - 1) / 2)) }

  /** Past the bound the position still drifts right, unless at most one element is left. */
  lemma {:induction false} ProbePast(count: nat, pos: nat, bound: nat)
    requires bound <= pos
    ensures Probe(count, pos, bound) == pos <==> count <= 1
  {
    if count > 0 {
      ProbePast(count / 2, pos + count / 2, bound);
    }
  }

  lemma {:induction false} ProbeRightIff(count: nat, pos: nat, bound: nat)
    requires pos <= bound <= pos + count
    ensures Probe(count, pos, bound) == bound <==>
            bound + 1 >= pos + count || (bound + 2 == pos + count && MeetsThree(count))
  {
    if count > 0 {
      var step := count / 2;
      if pos + step < bound {
        ProbeRightIff(count - (step + 1), pos + step + 1, bound);
      } else {
        ProbePast(step, pos + step, bound);
      }
    }
  }

  /**
    The search finds the lower bound exactly when it is the end, the last position, or the last
    but one for lengths that meet three.
   */
  lemma {:induction false} LowerBoundRightIff(len: nat, bound: nat)
    requires bound <= len
    ensures Probe(len, 0, bound) == bound <==> bound + 1 >= len || (bound + 2 == len && MeetsThree(len))
  {
    ProbeRightIff(len, 0, bound);
  }
}
