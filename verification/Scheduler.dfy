/** Scheduled completions and the idle skip: while the processor waits, time jumps to the next event. What a
    completion does to the rest of the machine is a parameter. */
module Scheduler {

  // The subsystems with one completion outstanding at a time, in the order they are serviced.
  const TTO: nat := 0
  const RK: nat := 1
  const RP: nat := 2
  const TM: nat := 3
  const RL: nat := 4
  const JOBS: nat := 5

  /** The line clock's tick, for the completion function. */
  const CLOCK: nat := 5

  /** The machine's clockwork, and the rest of it as an arbitrary world. A clock period of zero is no clock. */
  datatype State<W> = State(time: nat, clkTick: nat, clkNext: nat, busy: seq<bool>, due: seq<nat>, world: W)

  type Completion<!W> = (W, nat) -> W

  ghost predicate WellFormed<W>(s: State<W>) { |s.busy| == JOBS && |s.due| == JOBS }

  // ---- one service pass ---------------------------------------------------------------------------------------

  function ClockServiced<W>(s: State<W>, fire: Completion<W>): State<W> {
    if s.clkTick != 0 && s.time >= s.clkNext
    then s.(world := fire(s.world, CLOCK), clkNext := s.clkNext + s.clkTick)
    else s
  }

  function JobServiced<W>(s: State<W>, fire: Completion<W>, d: nat): (s': State<W>)
    requires WellFormed(s) && d < JOBS
    ensures WellFormed(s')
  {
    if s.busy[d] && s.time >= s.due[d] then s.(busy := s.busy[d := false], world := fire(s.world, d)) else s
  }

  function JobsServiced<W>(s: State<W>, fire: Completion<W>, n: nat): (s': State<W>)
    requires WellFormed(s) && n <= JOBS
    ensures WellFormed(s')
  {
    if n == 0 then s else JobServiced(JobsServiced(s, fire, n - 1), fire, n - 1)
  }

  /** The clock first, then each subsystem in order; the clock ticks at most once. */
  function Serviced<W>(s: State<W>, fire: Completion<W>): (s': State<W>)
    requires WellFormed(s)
    ensures WellFormed(s')
  {
    JobsServiced(ClockServiced(s, fire), fire, JOBS)
  }

  // ---- what a pass delivers ----------------------------------------------------------------------------------------

  /** The clock's time has come, or a busy subsystem's. */
  predicate IsDue<W>(s: State<W>, d: nat)
    requires |s.busy| == JOBS && |s.due| == JOBS
  {
    if d == CLOCK then s.clkTick != 0 && s.clkNext <= s.time else d < JOBS && s.busy[d] && s.due[d] <= s.time
  }

  function DueJobs<W>(s: State<W>, n: nat): (ds: seq<nat>)
    requires |s.busy| == JOBS && |s.due| == JOBS && n <= JOBS
  {
    if n == 0 then [] else DueJobs(s, n - 1) + if IsDue(s, n - 1) then [n - 1] else []
  }

  lemma {:induction false} DueJobsAre<W>(s: State<W>, n: nat)
    requires |s.busy| == JOBS && |s.due| == JOBS && n <= JOBS
    ensures forall d: nat :: d in DueJobs(s, n) <==> d < n && IsDue(s, d)
    ensures forall i, j :: 0 <= i < j < |DueJobs(s, n)| ==> DueJobs(s, n)[i] < DueJobs(s, n)[j]
  {
    if n != 0 {
      DueJobsAre(s, n - 1);
      var before := DueJobs(s, n - 1);
      assert forall i :: 0 <= i < |before| ==> before[i] in before;
    }
  }

  /** Everything due, in the order it is serviced: the clock, then the subsystems by number. */
  function Due<W>(s: State<W>): (ds: seq<nat>)
    requires |s.busy| == JOBS && |s.due| == JOBS
    ensures forall d: nat :: d in ds <==> IsDue(s, d)
    ensures forall i, j :: 0 <= i < j < |ds| ==> ds[j] != CLOCK && (ds[i] == CLOCK || ds[i] < ds[j])
  {
    DueJobsAre(s, JOBS);
    var jobs := DueJobs(s, JOBS);
    assert forall i :: 0 <= i < |jobs| ==> jobs[i] in jobs;
    (if IsDue(s, CLOCK) then [CLOCK] else []) + jobs
  }

  /** The world after completions, one after the other. */
  function Completed<W>(w: W, ds: seq<nat>, fire: Completion<W>): W {
    if ds == [] then w else fire(Completed(w, ds[..|ds| - 1], fire), ds[|ds| - 1])
  }

  lemma CompletedLater<W>(w: W, ds: seq<nat>, d: nat, fire: Completion<W>)
    ensures Completed(w, ds + [d], fire) == fire(Completed(w, ds, fire), d)
  {
    assert (ds + [d])[..|ds|] == ds;
  }

  lemma {:induction false} CompletedJoined<W>(w: W, a: seq<nat>, b: seq<nat>, fire: Completion<W>)
    ensures Completed(w, a + b, fire) == Completed(Completed(w, a, fire), b, fire)
    decreases |b|
  {
    if b == [] {
      assert a + b == a;
    } else {
      var n := |b| - 1;
      CompletedJoined(w, a, b[..n], fire);
      assert a + b == a + b[..n] + [b[n]];
      CompletedLater(w, a + b[..n], b[n], fire);
    }
  }

  lemma {:induction false} JobsEffect<W>(s: State<W>, fire: Completion<W>, n: nat)
    requires WellFormed(s) && n <= JOBS
    ensures var r := JobsServiced(s, fire, n);
            && r.time == s.time && r.clkTick == s.clkTick && r.clkNext == s.clkNext && r.due == s.due
            && forall d :: 0 <= d < JOBS ==> r.busy[d] == (s.busy[d] && (d >= n || s.due[d] > s.time))
  {
    if n != 0 {
      JobsEffect(s, fire, n - 1);
    }
  }

  lemma {:induction false} JobsDeliver<W>(s: State<W>, fire: Completion<W>, n: nat)
    requires WellFormed(s) && n <= JOBS
    ensures JobsServiced(s, fire, n).world == Completed(s.world, DueJobs(s, n), fire)
  {
    if n != 0 {
      hide *;
      JobsDeliver(s, fire, n - 1);
      OneMoreDelivered(s, fire, n);
    }
  }

  lemma OneMoreDelivered<W>(s: State<W>, fire: Completion<W>, n: nat)
    requires WellFormed(s) && 0 < n <= JOBS
    requires JobsServiced(s, fire, n - 1).world == Completed(s.world, DueJobs(s, n - 1), fire)
    ensures JobsServiced(s, fire, n).world == Completed(s.world, DueJobs(s, n), fire)
  {
    JobsStep(s, fire, n);
    JobsEffect(s, fire, n - 1);
    hide *;
    JobDelivers(JobsServiced(s, fire, n - 1), fire, n - 1);
    CompletedLater(s.world, DueJobs(s, n - 1), n - 1, fire);
  }

  lemma JobsStep<W>(s: State<W>, fire: Completion<W>, n: nat)
    requires WellFormed(s) && 0 < n <= JOBS
    ensures var before := JobsServiced(s, fire, n - 1);
            JobsServiced(s, fire, n) == JobServiced(before, fire, n - 1)
            && (before.busy[n - 1] == s.busy[n - 1] && before.time == s.time && before.due == s.due ==>
                IsDue(before, n - 1) == IsDue(s, n - 1))
    ensures DueJobs(s, n) == if IsDue(s, n - 1) then DueJobs(s, n - 1) + [n - 1] else DueJobs(s, n - 1)
  {
    hide JobServiced;
  }

  lemma JobDelivers<W>(s: State<W>, fire: Completion<W>, d: nat)
    requires WellFormed(s) && d < JOBS
    ensures JobServiced(s, fire, d).world == if IsDue(s, d) then fire(s.world, d) else s.world
  {
  }

  /** A service pass delivers everything that is due, once each and in order, and nothing else; what was delivered is
      no longer busy, and the clock is next due one period later. */
  lemma PassDelivers<W>(s: State<W>, fire: Completion<W>)
    requires WellFormed(s)
    ensures var r := Serviced(s, fire);
            && r.world == Completed(s.world, Due(s), fire)
            && r.time == s.time && r.clkTick == s.clkTick && r.due == s.due
            && r.clkNext == s.clkNext + (if IsDue(s, CLOCK) then s.clkTick else 0)
            && forall d :: 0 <= d < JOBS ==> r.busy[d] == (s.busy[d] && !IsDue(s, d))
  {
    var c := ClockServiced(s, fire);
    var first := if IsDue(s, CLOCK) then [CLOCK] else [];
    assert c.world == Completed(s.world, first, fire) by {
      if IsDue(s, CLOCK) {
        CompletedLater(s.world, [], CLOCK, fire);
        assert [] + [CLOCK] == [CLOCK];
      }
    }
    JobsDeliver(c, fire, JOBS);
    JobsEffect(c, fire, JOBS);
    SameDue(c, s, JOBS);
    CompletedJoined(s.world, first, DueJobs(s, JOBS), fire);
  }

  lemma {:induction false} SameDue<W>(s: State<W>, s': State<W>, n: nat)
    requires WellFormed(s) && WellFormed(s') && n <= JOBS && s.time == s'.time && s.busy == s'.busy && s.due == s'.due
    ensures DueJobs(s, n) == DueJobs(s', n)
  {
    if n != 0 {
      SameDue(s, s', n - 1);
    }
  }

  // ---- deadlines ------------------------------------------------------------------------------------------------

  /** t is when something is scheduled. */
  ghost predicate Deadline<W>(s: State<W>, t: nat)
    requires WellFormed(s)
  {
    (s.clkTick != 0 && t == s.clkNext) || exists d :: 0 <= d < JOBS && s.busy[d] && t == s.due[d]
  }

  /** Everything scheduled lies ahead. */
  ghost predicate NoneOverdue<W>(s: State<W>)
    requires WellFormed(s)
  {
    forall t: nat :: Deadline(s, t) ==> t > s.time
  }

  datatype Next = Never | At(t: nat)

  function Earlier(n: Next, scheduled: bool, t: nat): Next {
    if scheduled && (n.Never? || t < n.t) then At(t) else n
  }

  function EarliestJob<W>(s: State<W>, n: nat): Next
    requires WellFormed(s) && n <= JOBS
  {
    if n == 0 then Earlier(Never, s.clkTick != 0, s.clkNext)
    else Earlier(EarliestJob(s, n - 1), s.busy[n - 1], s.due[n - 1])
  }

  function NextEvent<W>(s: State<W>): Next
    requires WellFormed(s)
  {
    EarliestJob(s, JOBS)
  }

  lemma {:induction false} EarliestUpTo<W>(s: State<W>, n: nat)
    requires WellFormed(s) && n <= JOBS
    ensures var e := EarliestJob(s, n);
            && (e.At? ==> Deadline(s, e.t))
            && (s.clkTick != 0 ==> e.At? && e.t <= s.clkNext)
            && (forall d :: 0 <= d < n && s.busy[d] ==> e.At? && e.t <= s.due[d])
  {
    if n != 0 {
      EarliestUpTo(s, n - 1);
    }
  }

  /** The next event is the least deadline, and there is none only when nothing is scheduled. */
  lemma NextIsLeast<W>(s: State<W>)
    requires WellFormed(s)
    ensures match NextEvent(s)
            case At(t) => Deadline(s, t) && forall u: nat :: Deadline(s, u) ==> t <= u
            case Never => forall u: nat :: !Deadline(s, u)
  {
    EarliestUpTo(s, JOBS);
  }

  // ---- skipping and ticking ---------------------------------------------------------------------------------------

  /** What a WAIT step does: jump to the next event if it lies ahead, and service what is due. */
  function Skipped<W>(s: State<W>, fire: Completion<W>): (s': State<W>)
    requires WellFormed(s)
    ensures WellFormed(s')
  {
    match NextEvent(s)
    case Never => s
    case At(t) => Serviced(s.(time := if t > s.time then t else s.time), fire)
  }

  /** The slow way: let n nanoseconds pass one at a time, servicing after each. */
  function Ticked<W>(s: State<W>, fire: Completion<W>, n: nat): (s': State<W>)
    requires WellFormed(s)
    ensures WellFormed(s')
  {
    if n == 0 then s
    else
      var before := Ticked(s, fire, n - 1);
      Serviced(before.(time := before.time + 1), fire)
  }

  /** With nothing due, a service pass changes nothing. */
  lemma NothingDue<W>(s: State<W>, fire: Completion<W>)
    requires WellFormed(s) && NoneOverdue(s)
    ensures Serviced(s, fire) == s
  {
    assert ClockServiced(s, fire) == s by {
      assert s.clkTick != 0 ==> Deadline(s, s.clkNext);
    }
    NoJobDue(s, fire, JOBS);
  }

  lemma {:induction false} NoJobDue<W>(s: State<W>, fire: Completion<W>, n: nat)
    requires WellFormed(s) && NoneOverdue(s) && n <= JOBS
    ensures JobsServiced(s, fire, n) == s
  {
    if n != 0 {
      NoJobDue(s, fire, n - 1);
      assert s.busy[n - 1] ==> Deadline(s, s.due[n - 1]);
    }
  }

  /** Up to the next event, ticking only moves the time: whatever was not grantable stays so. */
  lemma {:induction false} TicksBefore<W>(s: State<W>, fire: Completion<W>, n: nat)
    requires WellFormed(s) && NoneOverdue(s) && (NextEvent(s).Never? || s.time + n < NextEvent(s).t)
    ensures Ticked(s, fire, n) == s.(time := s.time + n)
  {
    if n != 0 {
      TicksBefore(s, fire, n - 1);
      var s' := s.(time := s.time + n);
      NextIsLeast(s);
      forall t: nat | Deadline(s', t)
        ensures t > s'.time
      {
        assert Deadline(s, t);
      }
      NothingDue(s', fire);
    }
  }

  /** The idle skip refines ticking: from any state with nothing overdue, one jump to the next event reaches
      exactly the state that a nanosecond at a time reaches. */
  lemma SkipIsTicks<W>(s: State<W>, fire: Completion<W>)
    requires WellFormed(s) && NoneOverdue(s) && NextEvent(s).At?
    ensures NextEvent(s).t > s.time
    ensures Skipped(s, fire) == Ticked(s, fire, NextEvent(s).t - s.time)
  {
    hide *;
    NextAhead(s);
    var t := NextEvent(s).t;
    TicksBefore(s, fire, t - s.time - 1);
    LastTick(s, fire, t - s.time);
    Jump(s, fire);
    assert s.(time := t - 1).(time := t) == s.(time := t);
  }

  lemma LastTick<W>(s: State<W>, fire: Completion<W>, n: nat)
    requires WellFormed(s) && n > 0
    ensures var before := Ticked(s, fire, n - 1);
            Ticked(s, fire, n) == Serviced(before.(time := before.time + 1), fire)
  {
    hide Serviced;
  }

  lemma Jump<W>(s: State<W>, fire: Completion<W>)
    requires WellFormed(s) && NextEvent(s).At? && NextEvent(s).t > s.time
    ensures Skipped(s, fire) == Serviced(s.(time := NextEvent(s).t), fire)
  {
    hide Serviced, NextEvent;
  }

  lemma NextAhead<W>(s: State<W>)
    requires WellFormed(s) && NoneOverdue(s) && NextEvent(s).At?
    ensures NextEvent(s).t > s.time
  {
    NextIsLeast(s);
    hide NextEvent;
  }

  // ---- nothing is ever overdue ---------------------------------------------------------------------------------

  /** A skip stops at the first deadline, never beyond one, and leaves nothing overdue. */
  lemma SkipKeepsPace<W>(s: State<W>, fire: Completion<W>)
    requires WellFormed(s) && NoneOverdue(s)
    ensures NoneOverdue(Skipped(s, fire)) && Skipped(s, fire).time >= s.time
    ensures forall t: nat :: Deadline(s, t) ==> Skipped(s, fire).time <= t
  {
    NextIsLeast(s);
    if NextEvent(s).At? {
      var t := NextEvent(s).t;
      var at := s.(time := t);
      var r := Serviced(at, fire);
      PassDelivers(at, fire);
      forall u: nat | Deadline(r, u)
        ensures u > r.time
      {
        if r.clkTick != 0 && u == r.clkNext {
          assert Deadline(s, s.clkNext);
        } else {
          var d :| 0 <= d < JOBS && r.busy[d] && u == r.due[d];
          assert Deadline(s, s.due[d]);
        }
      }
    }
  }

  /** A skip delivers each completion at its own time: everything whose deadline is the next event, and nothing whose
      deadline is later. */
  lemma SkipOnTime<W>(s: State<W>, fire: Completion<W>) returns (ds: seq<nat>)
    requires WellFormed(s) && NoneOverdue(s) && NextEvent(s).At?
    ensures var t := NextEvent(s).t;
            && Skipped(s, fire).time == t && Skipped(s, fire).world == Completed(s.world, ds, fire)
            && ds == Due(s.(time := t)) && ds != []
            && forall d: nat :: d in ds <==>
                 if d == CLOCK then s.clkTick != 0 && s.clkNext == t else d < JOBS && s.busy[d] && s.due[d] == t
  {
    NextAhead(s);
    NextIsLeast(s);
    Jump(s, fire);
    var t := NextEvent(s).t;
    var at := s.(time := t);
    PassDelivers(at, fire);
    ds := Due(at);
    assert s.clkTick != 0 ==> Deadline(s, s.clkNext);
    assert forall d :: 0 <= d < JOBS && s.busy[d] ==> Deadline(s, s.due[d]);
    hide NextEvent, Skipped, Serviced, NoneOverdue, Completed, Due;
    assert exists d :: IsDue(at, d) by {
      if s.clkTick != 0 && t == s.clkNext {
        assert IsDue(at, CLOCK);
      } else {
        var d :| 0 <= d < JOBS && s.busy[d] && t == s.due[d];
        assert IsDue(at, d);
      }
    }
  }

  // ---- a whole wait -----------------------------------------------------------------------------------------------

  /** k steps of WAIT. */
  function Skips<W>(s: State<W>, fire: Completion<W>, k: nat): (s': State<W>)
    requires WellFormed(s)
    ensures WellFormed(s')
    decreases k
  {
    if k == 0 then s else Skips(Skipped(s, fire), fire, k - 1)
  }

  lemma {:induction false} TickedOn<W>(s: State<W>, fire: Completion<W>, a: nat, b: nat)
    requires WellFormed(s)
    ensures Ticked(Ticked(s, fire, a), fire, b) == Ticked(s, fire, a + b)
  {
    if b != 0 {
      TickedOn(s, fire, a, b - 1);
      hide Serviced;
    }
  }

  /** A wait ends alike either way: if the k-th skip is the first to make an interrupt grantable, then ticking
      first makes one grantable at the same instant, in the same state. */
  lemma {:induction false} WaitsEndAlike<W>(s: State<W>, fire: Completion<W>, ready: W -> bool, k: nat) returns (n: nat)
    requires WellFormed(s) && NoneOverdue(s)
    requires forall i :: 0 <= i < k ==> !ready(Skips(s, fire, i).world)
    ensures Skips(s, fire, k) == Ticked(s, fire, n) && NoneOverdue(Skips(s, fire, k))
    ensures forall m :: 0 <= m < n ==> !ready(Ticked(s, fire, m).world)
    decreases k
  {
    if k == 0 {
      n := 0;
    } else {
      var s1 := Skipped(s, fire);
      SkipKeepsPace(s, fire);
      assert Skips(s, fire, 0) == s && Skips(s, fire, k) == Skips(s1, fire, k - 1);
      forall i | 0 <= i < k - 1
        ensures !ready(Skips(s1, fire, i).world)
      {
        assert Skips(s, fire, i + 1) == Skips(s1, fire, i);
      }
      hide NoneOverdue, Ticked, Skips, NextEvent, Serviced;
      n := WaitsEndAlike(s1, fire, ready, k - 1);
      if NextEvent(s).At? {
        var first := NextEvent(s).t - s.time;
        SkipFirst(s, fire, ready, n);
        n := first + n;
      }
    }
  }

  /** A skip and then some ticks are all ticks, and the skipped ones make nothing grantable. */
  lemma SkipFirst<W>(s: State<W>, fire: Completion<W>, ready: W -> bool, rest: nat)
    requires WellFormed(s) && NoneOverdue(s) && NextEvent(s).At? && !ready(s.world)
    requires forall m :: 0 <= m < rest ==> !ready(Ticked(Skipped(s, fire), fire, m).world)
    ensures NextEvent(s).t > s.time
    ensures var n := NextEvent(s).t - s.time + rest;
            && Ticked(s, fire, n) == Ticked(Skipped(s, fire), fire, rest)
            && forall m :: 0 <= m < n ==> !ready(Ticked(s, fire, m).world)
  {
    hide *;
    SkipIsTicks(s, fire);
    var first := NextEvent(s).t - s.time;
    TickedOn(s, fire, first, rest);
    forall m | 0 <= m < first + rest
      ensures !ready(Ticked(s, fire, m).world)
    {
      if m < first {
        TicksBefore(s, fire, m);
      } else {
        TickedOn(s, fire, first, m - first);
      }
    }
  }

  // ---- the machine ------------------------------------------------------------------------------------------------

  class Timeline<W> {
    var time: nat
    var clkTick: nat
    var clkNext: nat
    var busy: seq<bool>
    var due: seq<nat>
    var world: W
    const fire: Completion<W>

    constructor (world: W, fire: Completion<W>, clkTick: nat)
      ensures Valid() && this.fire == fire
      ensures Now() == State(0, clkTick, clkTick, seq(JOBS, _ => false), seq(JOBS, _ => 0), world)
    {
      time, this.clkTick, clkNext := 0, clkTick, clkTick;
      busy, due := seq(JOBS, _ => false), seq(JOBS, _ => 0);
      this.world, this.fire := world, fire;
    }

    ghost function Now(): State<W>
      reads this
    {
      State(time, clkTick, clkNext, busy, due, world)
    }

    ghost predicate Valid()
      reads this
    {
      WellFormed(Now())
    }

    method ServiceDueEvents()
      requires Valid()
      modifies `clkNext, `busy, `world
      ensures Valid() && Now() == Serviced(old(Now()), fire)
      ensures world == Completed(old(world), Due(old(Now())), fire)
    {
      assert Serviced(Now(), fire).world == Completed(world, Due(Now()), fire) by {
        PassDelivers(Now(), fire);
      }
      hide Completed, Due;
      if clkTick != 0 && time >= clkNext {
        world := fire(world, CLOCK);
        clkNext := clkNext + clkTick;
      }
      assert Now() == ClockServiced(old(Now()), fire);
      ServiceJobs();
    }

    /** The subsystems' polls, in order. */
    method ServiceJobs()
      requires Valid()
      modifies `busy, `world
      ensures Valid() && Now() == JobsServiced(old(Now()), fire, JOBS)
    {
      ghost var s := Now();
      assert s == JobsServiced(s, fire, 0);
      hide JobServiced;
      ServiceJob(TTO);
      JobsStep(s, fire, 1);
      ServiceJob(RK);
      JobsStep(s, fire, 2);
      ServiceJob(RP);
      JobsStep(s, fire, 3);
      ServiceJob(TM);
      JobsStep(s, fire, 4);
      ServiceJob(RL);
      JobsStep(s, fire, 5);
    }

    /** A subsystem's poll: nothing unless it is busy and its time has come. */
    method ServiceJob(d: nat)
      requires Valid() && d < JOBS
      modifies `busy, `world
      ensures Valid() && Now() == JobServiced(old(Now()), fire, d)
    {
      if busy[d] && time >= due[d] {
        busy := busy[d := false];
        world := fire(world, d);
      }
    }

    /** pdp11_next_event_ns */
    method NextEventNs() returns (next: Next)
      requires Valid()
      ensures next == NextEvent(Now())
    {
      next := Never;
      if clkTick != 0 {
        next := At(clkNext);
      }
      next := Earlier(next, busy[TTO], due[TTO]);
      assert next == EarliestJob(Now(), 1);
      next := Earlier(next, busy[RK], due[RK]);
      assert next == EarliestJob(Now(), 2);
      next := Earlier(next, busy[RP], due[RP]);
      assert next == EarliestJob(Now(), 3);
      next := Earlier(next, busy[TM], due[TM]);
      assert next == EarliestJob(Now(), 4);
      next := Earlier(next, busy[RL], due[RL]);
    }

    /** The waiting branch of pdp11_cpu_step. */
    method WaitStep()
      requires Valid()
      modifies this
      ensures Valid() && Now() == Skipped(old(Now()), fire)
    {
      var next := NextEventNs();
      if next.At? {
        if next.t > time {
          time := next.t;
        }
        ServiceDueEvents();
      }
    }

    /** The loop the idle skip replaces. */
    method TickUntil(t: nat)
      requires Valid() && time <= t
      modifies this
      ensures Valid() && Now() == Ticked(old(Now()), fire, t - old(time))
    {
      while time < t
        invariant Valid() && old(time) <= time <= t && Now() == Ticked(old(Now()), fire, time - old(time))
      {
        time := time + 1;
        ServiceDueEvents();
      }
    }
  }
}
