/**
  jaeger_lock as interleaved steps of any number of threads over any number of mutexes.
  Each thread has a list of jobs; a job is a pair of distinct mutexes that it takes with
  jaeger_lock, holding neither before, and later unlocks in the order the job says.
 */
module LockProtocol {

  type Mutex = nat
  type Tid = nat

  datatype Job = Job(a: Mutex, b: Mutex, first: Mutex)  // `first` is unlocked first

  /** Where a thread is; Locking to Yielding is the loop of jaeger_lock, see Step. */
  datatype Pc = Idle | Locking | Trying | BackingOff | Yielding | Holding | Unlocking

  datatype Thread = Thread(pc: Pc, lock0: Mutex, lock1: Mutex, first: Mutex, todo: seq<Job>)

  /** Owner of each mutex that is taken. */
  datatype State = State(threads: seq<Thread>, owner: map<Mutex, Tid>)

  predicate WellFormedJobs(todo: seq<Job>) {
    forall i :: 0 <= i < |todo| ==> todo[i].a != todo[i].b && todo[i].first in {todo[i].a, todo[i].b}
  }

  ghost predicate Init(s: State) {
    && s.owner == map[]
    && forall t :: 0 <= t < |s.threads| ==> s.threads[t].pc == Idle && WellFormedJobs(s.threads[t].todo)
  }

  predicate Finished(th: Thread) { th.pc == Idle && th.todo == [] }

  predicate AllFinished(s: State) {
    forall t :: 0 <= t < |s.threads| ==> Finished(s.threads[t])
  }

  /** Only a finished thread and a thread at the blocking lock of a taken mutex cannot step. */
  predicate Enabled(s: State, t: Tid) {
    t < |s.threads| &&
    var th := s.threads[t];
    !Finished(th) && (th.pc == Locking ==> th.lock0 !in s.owner)
  }

  /** One step of thread t. */
  function Step(s: State, t: Tid): State
    requires Enabled(s, t)
  {
    var th := s.threads[t];
    match th.pc
    case Idle =>  // call jaeger_lock on the next job
      var Job(a, b, first) := th.todo[0];
      State(s.threads[t := Thread(Locking, a, b, first, th.todo[1..])], s.owner)
    case Locking =>  // jaeger_mutex_lock(lock0)
      State(s.threads[t := th.(pc := Trying)], s.owner[th.lock0 := t])
    case Trying =>  // jaeger_mutex_try_lock(lock1)
      if th.lock1 in s.owner then State(s.threads[t := th.(pc := BackingOff)], s.owner)
      else State(s.threads[t := th.(pc := Holding)], s.owner[th.lock1 := t])
    case BackingOff =>  // jaeger_mutex_unlock(lock0)
      State(s.threads[t := th.(pc := Yielding)], s.owner - {th.lock0})
    case Yielding =>  // jaeger_yield, swap the two
      State(s.threads[t := th.(pc := Locking, lock0 := th.lock1, lock1 := th.lock0)], s.owner)
    case Holding =>  // the caller unlocks one mutex
      State(s.threads[t := th.(pc := Unlocking)], s.owner - {th.first})
    case Unlocking =>  // and the other
      State(s.threads[t := th.(pc := Idle)], s.owner - {Other(th)})
  }

  function Other(th: Thread): Mutex { if th.first == th.lock0 then th.lock1 else th.lock0 }

  /** The mutexes a thread holds at its program point. */
  function Held(th: Thread): set<Mutex> {
    match th.pc
    case Trying => {th.lock0}
    case BackingOff => {th.lock0}
    case Holding => {th.lock0, th.lock1}
    case Unlocking => {Other(th)}
    case _ => {}
  }

  predicate Holds(s: State, t: Tid, m: Mutex) { t < |s.threads| && m in Held(s.threads[t]) }

  predicate WellFormed(th: Thread) {
    WellFormedJobs(th.todo) && (th.pc != Idle ==> th.lock0 != th.lock1 && th.first in {th.lock0, th.lock1})
  }

  /** The owner map and the program points tell the same story. */
  ghost predicate Inv(s: State) {
    && (forall t :: 0 <= t < |s.threads| ==> WellFormed(s.threads[t]))
    && (forall t, m :: Holds(s, t, m) ==> m in s.owner && s.owner[m] == t)
    && (forall m :: m in s.owner ==> Holds(s, s.owner[m], m))
  }

  /** The threads of the schedule can step one after the other and lead from s to r. */
  ghost predicate Schedules(s: State, sched: seq<Tid>, r: State)
    decreases |sched|
  {
    if sched == [] then r == s
    else Enabled(s, sched[0]) && Schedules(Step(s, sched[0]), sched[1..], r)
  }

  ghost predicate Reachable(s: State) {
    exists init, sched :: Init(init) && Schedules(init, sched, s)
  }

  // ----- safety

  lemma InitInv(s: State)
    requires Init(s)
    ensures Inv(s)
  {
  }

  lemma AcquireInv(s: State, t: Tid, th: Thread, m: Mutex)
    requires Inv(s) && t < |s.threads| && WellFormed(th) && m !in s.owner
    requires Held(th) == Held(s.threads[t]) + {m}
    ensures Inv(State(s.threads[t := th], s.owner[m := t]))
  {
    var r := State(s.threads[t := th], s.owner[m := t]);
    assert forall u, k :: Holds(r, u, k) <==> Holds(s, u, k) || (u == t && k == m);
  }

  lemma ReleaseInv(s: State, t: Tid, th: Thread, m: Mutex)
    requires Inv(s) && t < |s.threads| && WellFormed(th) && m in Held(s.threads[t])
    requires Held(th) == Held(s.threads[t]) - {m}
    ensures Inv(State(s.threads[t := th], s.owner - {m}))
  {
    var r := State(s.threads[t := th], s.owner - {m});
    assert Holds(s, t, m);
    assert forall u, k :: Holds(r, u, k) <==> Holds(s, u, k) && !(u == t && k == m);
  }

  lemma KeepInv(s: State, t: Tid, th: Thread)
    requires Inv(s) && t < |s.threads| && WellFormed(th) && Held(th) == Held(s.threads[t])
    ensures Inv(State(s.threads[t := th], s.owner))
  {
    var r := State(s.threads[t := th], s.owner);
    assert forall u, k :: Holds(r, u, k) <==> Holds(s, u, k);
  }

  /** Every step of every thread keeps the invariant. */
  lemma {:induction false} StepInv(s: State, t: Tid)
    requires Inv(s) && Enabled(s, t)
    ensures Inv(Step(s, t))
  {
    var th := s.threads[t];
    var th' := Step(s, t).threads[t];
    match th.pc
    case Idle => KeepInv(s, t, th');
    case Locking => AcquireInv(s, t, th', th.lock0);
    case Trying => if th.lock1 in s.owner { KeepInv(s, t, th'); } else { AcquireInv(s, t, th', th.lock1); }
    case BackingOff => ReleaseInv(s, t, th', th.lock0);
    case Yielding => KeepInv(s, t, th');
    case Holding => ReleaseInv(s, t, th', th.first);
    case Unlocking => ReleaseInv(s, t, th', Other(th));
  }

  lemma {:induction false} SchedulesInv(s: State, sched: seq<Tid>, r: State)
    requires Inv(s) && Schedules(s, sched, r)
    ensures Inv(r)
    decreases |sched|
  {
    if sched != [] {
      StepInv(s, sched[0]);
      SchedulesInv(Step(s, sched[0]), sched[1..], r);
    }
  }

  /** No mutex has two holders, and a thread at the blocking lock holds nothing. */
  lemma {:induction false} MutualExclusion(s: State, t: Tid, u: Tid)
    requires Reachable(s) && t < |s.threads| && u < |s.threads|
    ensures t != u ==> Held(s.threads[t]) !! Held(s.threads[u])
    ensures s.threads[t].pc == Locking ==> forall m :: m in s.owner ==> s.owner[m] != t
  {
    var init, sched :| Init(init) && Schedules(init, sched, s);
    SchedulesInv(init, sched, s);
    assert s.threads[t].pc == Locking ==> forall m :: !Holds(s, t, m);
    assert forall m :: m in Held(s.threads[t]) ==> Holds(s, t, m);
    assert forall m :: m in Held(s.threads[u]) ==> Holds(s, u, m);
  }

  // ----- every job gets both its mutexes

  function Both(job: Job): set<Mutex> { {job.a, job.b} }

  function Jobs(todo: seq<Job>): seq<set<Mutex>> { seq(|todo|, i requires 0 <= i < |todo| => Both(todo[i])) }

  /** The jobs a thread has not yet got both mutexes for. */
  function Pending(th: Thread): seq<set<Mutex>> {
    (if th.pc in {Locking, Trying, BackingOff, Yielding} then [{th.lock0, th.lock1}] else []) + Jobs(th.todo)
  }

  /** What thread t holds each time it comes out of jaeger_lock, along a schedule. */
  ghost function Entered(s: State, sched: seq<Tid>, t: Tid): seq<set<Mutex>>
    requires t < |s.threads|
    decreases |sched|
  {
    if sched == [] || !Enabled(s, sched[0]) then []
    else
      var r := Step(s, sched[0]);
      Entry(r, sched[0], t) + Entered(r, sched[1..], t)
  }

  lemma StepPending(s: State, u: Tid, t: Tid)
    requires Enabled(s, u) && t < |s.threads|
    ensures Entry(Step(s, u), u, t) + Pending(Step(s, u).threads[t]) == Pending(s.threads[t])
  {
    var th, th' := s.threads[t], Step(s, u).threads[t];
    if u == t && th.pc == Idle {
      assert Jobs(th.todo) == [Both(th.todo[0])] + Jobs(th.todo[1..]);
    } else if u == t && th'.pc == Holding {
      assert [Held(th')] + ([] + Jobs(th.todo)) == [{th.lock0, th.lock1}] + Jobs(th.todo);
    } else if u == t && th.pc == Yielding {
      assert {th.lock0, th.lock1} == {th.lock1, th.lock0};
    }
  }

  /** What one step adds to what the thread has entered. */
  function Entry(r: State, u: Tid, t: Tid): seq<set<Mutex>>
    requires t < |r.threads|
  {
    if u == t && r.threads[t].pc == Holding then [Held(r.threads[t])] else []
  }

  lemma EnteredStep(s: State, sched: seq<Tid>, t: Tid)
    requires t < |s.threads| && sched != [] && Enabled(s, sched[0])
    ensures |Step(s, sched[0]).threads| == |s.threads|
    ensures Entered(s, sched, t) == Entry(Step(s, sched[0]), sched[0], t) + Entered(Step(s, sched[0]), sched[1..], t)
  {
  }

  lemma EnteredNothing(s: State, t: Tid)
    requires t < |s.threads|
    ensures Entered(s, [], t) == []
  {
  }

  lemma {:induction false} SchedulesPending(s: State, sched: seq<Tid>, r: State, t: Tid)
    requires Schedules(s, sched, r) && t < |s.threads|
    ensures |r.threads| == |s.threads|
    ensures Entered(s, sched, t) + Pending(r.threads[t]) == Pending(s.threads[t])
    decreases |sched|
  {
    hide Pending, Held, Step, Entered, Entry, Enabled;
    if sched == [] {
      EnteredNothing(s, t);
      assert [] + Pending(s.threads[t]) == Pending(s.threads[t]);
    } else {
      var mid := Step(s, sched[0]);
      EnteredStep(s, sched, t);
      StepPending(s, sched[0], t);
      SchedulesPending(mid, sched[1..], r, t);
      Regroup(Entry(mid, sched[0], t), Entered(mid, sched[1..], t), Pending(r.threads[t]));
    }
  }

  lemma Regroup(a: seq<set<Mutex>>, b: seq<set<Mutex>>, c: seq<set<Mutex>>)
    ensures a + b + c == a + (b + c)
  {
  }

  lemma PendingIdle(th: Thread)
    requires th.pc == Idle
    ensures Pending(th) == Jobs(th.todo)
  {
    assert [] + Jobs(th.todo) == Jobs(th.todo);
  }

  /** A finished thread has held both mutexes of every job, job by job in order, and nothing else. */
  lemma {:induction false} EveryJobHeldBoth(init: State, sched: seq<Tid>, s: State, t: Tid)
    requires Init(init) && Schedules(init, sched, s) && t < |init.threads|
    ensures t < |s.threads| && (Finished(s.threads[t]) ==> Entered(init, sched, t) == Jobs(init.threads[t].todo))
  {
    hide Entered, Schedules;
    SchedulesPending(init, sched, s, t);
    PendingIdle(init.threads[t]);
    if Finished(s.threads[t]) {
      PendingIdle(s.threads[t]);
      assert Entered(init, sched, t) + [] == Entered(init, sched, t);
    }
  }

  // ----- no deadlock

  lemma SomeoneCanStep(s: State) returns (t: Tid)
    requires Inv(s) && !AllFinished(s)
    ensures Enabled(s, t)
    ensures s.threads[t].pc == Locking ==> s.owner == map[]
  {
    if u :| 0 <= u < |s.threads| && s.threads[u].pc != Locking && !Finished(s.threads[u]) {
      t := u;
    } else {
      t :| 0 <= t < |s.threads| && !Finished(s.threads[t]);
      assert forall v, m :: !Holds(s, v, m);
      assert forall m :: m !in s.owner;
    }
  }

  /** In every reachable state, if some thread is unfinished then some thread can step. */
  lemma {:induction false} DeadlockFree(s: State)
    requires Reachable(s)
    ensures AllFinished(s) || exists t :: Enabled(s, t)
  {
    var init, sched :| Init(init) && Schedules(init, sched, s);
    SchedulesInv(init, sched, s);
    if !AllFinished(s) {
      var t := SomeoneCanStep(s);
    }
  }

  // ----- everyone can finish

  function Weight(th: Thread): nat {
    7 * |th.todo| +
    match th.pc
    case Idle => 0
    case Unlocking => 1
    case Holding => 2
    case Locking => 3
    case Yielding => 4
    case BackingOff => 5
    case Trying => 6
  }

  function Total(threads: seq<Thread>): nat {
    if threads == [] then 0 else Weight(threads[0]) + Total(threads[1..])
  }

  lemma {:induction false} TotalUpdate(threads: seq<Thread>, t: nat, th: Thread)
    requires t < |threads|
    ensures Total(threads[t := th]) == Total(threads) - Weight(threads[t]) + Weight(th)
  {
    if t == 0 {
      assert threads[t := th][1..] == threads[1..];
    } else {
      assert threads[t := th][1..] == threads[1..][t - 1 := th];
      TotalUpdate(threads[1..], t - 1, th);
    }
  }

  lemma {:induction false} SchedulesConcat(s: State, a: seq<Tid>, m: State, b: seq<Tid>, r: State)
    requires Schedules(s, a, m) && Schedules(m, b, r)
    ensures Schedules(s, a + b, r)
    decreases |a|
  {
    if a == [] {
      assert a + b == b;
    } else {
      assert (a + b)[0] == a[0] && (a + b)[1..] == a[1..] + b;
      SchedulesConcat(Step(s, a[0]), a[1..], m, b, r);
    }
  }

  /** A step other than a blocking lock lowers the total weight, as does taking both mutexes when all are free. */
  lemma Progress(s: State, t: Tid) returns (sched: seq<Tid>, r: State)
    requires Inv(s) && Enabled(s, t) && (s.threads[t].pc == Locking ==> s.owner == map[])
    ensures Schedules(s, sched, r) && Inv(r) && |r.threads| == |s.threads|
    ensures Total(r.threads) < Total(s.threads)
  {
    StepInv(s, t);
    var s1 := Step(s, t);
    TotalUpdate(s.threads, t, s1.threads[t]);
    if s.threads[t].pc == Locking {
      StepInv(s1, t);
      r := Step(s1, t);
      TotalUpdate(s1.threads, t, r.threads[t]);
      sched := [t, t];
      assert Schedules(s1, [t], r) by { assert Schedules(r, [], r); }
      assert sched[1..] == [t];
    } else {
      r := s1;
      sched := [t];
      assert Schedules(s1, [], r);
    }
  }

  lemma {:induction false} FinishFrom(s: State) returns (sched: seq<Tid>, r: State)
    requires Inv(s)
    ensures Schedules(s, sched, r) && AllFinished(r)
    decreases Total(s.threads)
  {
    if AllFinished(s) {
      sched, r := [], s;
    } else {
      var t := SomeoneCanStep(s);
      var first, m := Progress(s, t);
      var rest;
      rest, r := FinishFrom(m);
      SchedulesConcat(s, first, m, rest, r);
      sched := first + rest;
    }
  }

  /** From every reachable state a finite schedule finishes every thread. */
  lemma {:induction false} AllCanFinish(s: State)
    requires Reachable(s)
    ensures exists sched, r :: Schedules(s, sched, r) && AllFinished(r)
  {
    var init, before :| Init(init) && Schedules(init, before, s);
    SchedulesInv(init, before, s);
    var sched, r := FinishFrom(s);
  }

  // ----- but nobody has to

  /** Two threads at the blocking lock of opposite mutexes. */
  function Opposed(a: Mutex, b: Mutex, f: Mutex): State {
    State([Thread(Locking, a, b, f, []), Thread(Locking, b, a, f, [])], map[])
  }

  /** In lockstep both take one mutex, fail to get the other, back off and swap. */
  lemma BothBackOff(a: Mutex, b: Mutex, f: Mutex) returns (round: seq<Tid>)
    requires a != b
    ensures round != [] && Schedules(Opposed(a, b, f), round, Opposed(b, a, f))
  {
    var s0 := Opposed(a, b, f);
    var s1, s2 := Step(s0, 0), Step(Step(s0, 0), 1);
    assert s2 == State([Thread(Trying, a, b, f, []), Thread(Trying, b, a, f, [])], map[a := 0, b := 1]);
    var s3, s4 := Step(s2, 0), Step(Step(s2, 0), 1);
    assert s4 == State([Thread(BackingOff, a, b, f, []), Thread(BackingOff, b, a, f, [])], map[a := 0, b := 1]);
    var s5, s6 := Step(s4, 0), Step(Step(s4, 0), 1);
    assert s6 == State([Thread(Yielding, a, b, f, []), Thread(Yielding, b, a, f, [])], map[]);
    var s7, s8 := Step(s6, 0), Step(Step(s6, 0), 1);
    assert s8 == Opposed(b, a, f);
    TwoSteps(s0, 0, 1);
    TwoSteps(s2, 0, 1);
    TwoSteps(s4, 0, 1);
    TwoSteps(s6, 0, 1);
    SchedulesConcat(s0, [0, 1], s2, [0, 1], s4);
    SchedulesConcat(s4, [0, 1], s6, [0, 1], s8);
    SchedulesConcat(s0, [0, 1] + [0, 1], s4, [0, 1] + [0, 1], s8);
    round := [0, 1] + [0, 1] + ([0, 1] + [0, 1]);
  }

  lemma TwoSteps(s: State, t: Tid, u: Tid)
    requires Enabled(s, t) && Enabled(Step(s, t), u)
    ensures Schedules(s, [t, u], Step(Step(s, t), u))
  {
    var r := Step(Step(s, t), u);
    assert [t, u][1..] == [u];
    assert Schedules(Step(s, t), [u], r) by { assert [u][1..] == [] && Schedules(r, [], r); }
  }

  function Callers(a: Mutex, b: Mutex, f: Mutex): State {
    State([Thread(Idle, 0, 0, 0, [Job(a, b, f)]), Thread(Idle, 0, 0, 0, [Job(b, a, f)])], map[])
  }

  lemma BothCall(a: Mutex, b: Mutex, f: Mutex)
    ensures Schedules(Callers(a, b, f), [0, 1], Opposed(a, b, f))
  {
    var s := Callers(a, b, f);
    assert [Job(a, b, f)][1..] == [] && [Job(b, a, f)][1..] == [];
    assert Step(s, 0) == State([Opposed(a, b, f).threads[0], s.threads[1]], map[]);
    TwoSteps(s, 0, 1);
  }

  /** Livelock: a reachable state recurs after a nonempty schedule, so jaeger_lock need not return. */
  lemma {:induction false} LivelockPossible(a: Mutex, b: Mutex)
    requires a != b
    ensures var s := Opposed(a, b, a);
            Reachable(s) && !AllFinished(s) && exists sched :: sched != [] && Schedules(s, sched, s)
  {
    var s := Opposed(a, b, a);
    BothCall(a, b, a);
    assert Init(Callers(a, b, a));
    var round := BothBackOff(a, b, a);
    var again := BothBackOff(b, a, a);
    SchedulesConcat(s, round, Opposed(b, a, a), again, s);
    assert !Finished(s.threads[0]);
    assert round + again != [];
  }
}
