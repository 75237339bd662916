/** Points in time and their difference (clock.c). */
module Clock {
  datatype Time = Time(sec: int, nsec: int)

  const NANOS: int := 1_000_000_000

  function Nanos(t: Time): int { t.sec * NANOS + t.nsec }

  predicate Normalised(t: Time) { 0 <= t.nsec < NANOS }

  /** The nanosecond fields for which the result is left with a full second of nanoseconds. */
  predicate Carries(lhs: Time, rhs: Time) {
    var d := lhs.nsec - rhs.nsec;
    (d < 0 && d % NANOS == 0) || d == NANOS
  }

  /**
    jaeger_time_subtract.  The difference is exact for all inputs; its nanoseconds reach
    10^9 exactly when the fields differ by such a multiple of a second, and then (only)
    equal times are reported as negative.
   */
  method Subtract(lhs: Time, rhs: Time) returns (r: Time, ok: bool)
    ensures Nanos(r) == Nanos(lhs) - Nanos(rhs)
    ensures 0 <= r.nsec <= NANOS && (r.nsec == NANOS <==> Carries(lhs, rhs))
    ensures Normalised(lhs) && Normalised(rhs) ==> Normalised(r)
    ensures ok <==> Nanos(lhs) > Nanos(rhs) || (Nanos(lhs) == Nanos(rhs) && !Carries(lhs, rhs))
  {
    var sec, nsec := rhs.sec, rhs.nsec;
    if lhs.nsec < nsec {
      var carry := (nsec - lhs.nsec) / NANOS + 1;
      nsec := nsec - NANOS * carry;
      sec := sec + carry;
    }
    if lhs.nsec - nsec > NANOS {
      var carry := (lhs.nsec - nsec) / NANOS;
      nsec := nsec + NANOS * carry;
      sec := sec - carry;
    }
    r := Time(lhs.sec - sec, lhs.nsec - nsec);
    ok := lhs.sec >= sec;
  }
}
