/**
 Both schedulers as steps taken under a mutex: a bounded queue of ready tasks, a heap of delayed
 tasks, workers, and the drain at shutdown. BGThread and the TaskQueue of ThreadPool refine it.

 Tasks are numbered in the order they are accepted. The stop flag is sampled once per step.
 */
module Scheduling {
  /** A call of DelaySchedule: the clock in microseconds and the timeout in milliseconds. */
  datatype Delay = Delay(now: nat, timeout: nat)

  /** A delayed task and its deadline in microseconds. */
  datatype Timer = Timer(execTime: nat, id: nat)

  /** A task that was started: by a worker from the ready queue or from the heap, at some clock reading, with the
      timers that were left waiting; or from the ready queue by the drain. */
  datatype Start =
    | FromReady(id: nat, clock: nat, waiting: set<Timer>)
    | FromTimers(id: nat, execTime: nat, clock: nat, waiting: set<Timer>)
    | FromDrain(id: nat)

  datatype Phase = Running | DrainingReady | DrainingTimers(clock: nat) | Exited(clock: nat)

  datatype State = State(
    capacity: nat, ready: seq<nat>, timers: set<Timer>, stop: bool, phase: Phase,
    nextId: nat, submitted: set<nat>, delays: map<nat, Delay>, started: seq<Start>, cleared: set<nat>)

  datatype Event =
    | Schedule
    | DelaySchedule(now: nat, timeout: nat)
    | Refused
    | QueueClear
    | RunTimer(timer: Timer, now: nat)
    | RunReady(now: nat)
    | TimedWait(now: nat)
    | SetStop
    | LeaveLoop
    | DrainReady
    | SampleClock(now: nat)
    | DrainTimer(timer: Timer)
    | Finish

  function Init(capacity: nat): State {
    State(capacity, [], {}, false, Running, 0, {}, map[], [], {})
  }

  predicate Due(t: Timer, now: nat) { now / 1000 >= t.execTime / 1000 }

  /** t may be the top of the priority queue. */
  predicate IsTop(t: Timer, timers: set<Timer>) {
    t in timers && forall u :: u in timers ==> t.execTime <= u.execTime
  }

  predicate NoneDue(timers: set<Timer>, now: nat) { forall t :: t in timers ==> !Due(t, now) }

  /** Some timer has reached its deadline, at millisecond resolution. */
  predicate SomeDue(timers: set<Timer>, now: nat) { exists t :: t in timers && t.execTime / 1000 <= now / 1000 }

  /** t is due, and no deadline is earlier. */
  predicate EarliestDue(t: Timer, timers: set<Timer>, now: nat) {
    t in timers && t.execTime / 1000 <= now / 1000 && forall u :: u in timers ==> t.execTime <= u.execTime
  }

  function Ids(timers: set<Timer>): set<nat> { set t | t in timers :: t.id }

  predicate Enabled(s: State, e: Event) {
    match e
    case Schedule => !s.stop && |s.ready| < s.capacity
    case DelaySchedule(_, _) => !s.stop
    case Refused => s.stop
    case QueueClear => true
    case RunTimer(t, now) => s.phase == Running && !s.stop && IsTop(t, s.timers) && Due(t, now)
    case RunReady(now) => s.phase == Running && !s.stop && s.ready != [] && NoneDue(s.timers, now)
    case TimedWait(now) => s.phase == Running && !s.stop && s.ready == [] && s.timers != {} && NoneDue(s.timers, now)
    case SetStop => true
    case LeaveLoop => s.phase == Running && s.stop
    case DrainReady => s.phase == DrainingReady && s.ready != []
    case SampleClock(_) => s.phase == DrainingReady && s.ready == []
    case DrainTimer(t) => s.phase.DrainingTimers? && IsTop(t, s.timers) && Due(t, s.phase.clock)
    case Finish => s.phase.DrainingTimers? && NoneDue(s.timers, s.phase.clock)
  }

  /** x is a start of the front of the ready queue. */
  predicate IsFront(s: State, x: Start) { s.ready != [] && !x.FromTimers? && x.id == s.ready[0] }

  function StartReady(s: State, x: Start): State
    requires IsFront(s, x)
  {
    s.(ready := s.ready[1..], started := s.started + [x])
  }

  function StartTimer(s: State, t: Timer, clock: nat): State {
    s.(timers := s.timers - {t}, started := s.started + [FromTimers(t.id, t.execTime, clock, s.timers - {t})])
  }

  function Apply(s: State, e: Event): State
    requires Enabled(s, e)
  {
    match e
    case Schedule => s.(ready := s.ready + [s.nextId], submitted := s.submitted + {s.nextId}, nextId := s.nextId + 1)
    case DelaySchedule(now, timeout) =>
      var exec := now + timeout * 1000;
      s.(timers := s.timers + {Timer(exec, s.nextId)}, delays := s.delays[s.nextId := Delay(now, timeout)],
          nextId := s.nextId + 1)
    case Refused => s
    case QueueClear => s.(ready := [], timers := {}, cleared := s.cleared + (set i | i in s.ready) + Ids(s.timers))
    case RunTimer(t, now) => StartTimer(s, t, now)
    case RunReady(now) => StartReady(s, FromReady(s.ready[0], now, s.timers))
    case TimedWait(_) => s
    case SetStop => s.(stop := true)
    case LeaveLoop => s.(phase := DrainingReady)
    case DrainReady => StartReady(s, FromDrain(s.ready[0]))
    case SampleClock(now) => s.(phase := DrainingTimers(now))
    case DrainTimer(t) => StartTimer(s, t, s.phase.clock)
    case Finish => s.(phase := Exited(s.phase.clock))
  }

  predicate IsRun(s: State, events: seq<Event>)
    decreases |events|
  {
    events == [] || (Enabled(s, events[0]) && IsRun(Apply(s, events[0]), events[1..]))
  }

  function After(s: State, events: seq<Event>): State
    requires IsRun(s, events)
    decreases |events|
  {
    if events == [] then s else After(Apply(s, events[0]), events[1..])
  }

  lemma {:induction false} RunSnoc(s: State, events: seq<Event>, e: Event)
    requires IsRun(s, events) && Enabled(After(s, events), e)
    ensures IsRun(s, events + [e]) && After(s, events + [e]) == Apply(After(s, events), e)
    decreases |events|
  {
    if events == [] {
      assert events + [e] == [e] && [e][1..] == [];
    } else {
      assert (events + [e])[1..] == events[1..] + [e];
      RunSnoc(Apply(s, events[0]), events[1..], e);
    }
  }

  // ----- the invariant

  /** The tasks started from the ready queue, in the order they started. */
  function ReadyStarts(log: seq<Start>): seq<nat> {
    if log == [] then []
    else ReadyStarts(log[..|log| - 1]) + (if log[|log| - 1].FromTimers? then [] else [log[|log| - 1].id])
  }

  lemma ReadyStartsSnoc(log: seq<Start>, x: Start)
    ensures ReadyStarts(log + [x]) == if x.FromTimers? then ReadyStarts(log) else ReadyStarts(log) + [x.id]
  {
    assert (log + [x])[..|log|] == log;
    assert ReadyStarts(log) + [] == ReadyStarts(log);
  }

  predicate Increasing(s: seq<nat>) { forall i, j :: 0 <= i < j < |s| ==> s[i] < s[j] }

  function StartedIds(log: seq<Start>): set<nat> { set k | 0 <= k < |log| :: log[k].id }

  /** Every accepted task is in exactly one of the ready queue, the heap, the started tasks, the cleared
      tasks; none is started twice. */
  ghost predicate OnePlace(s: State) {
    && (forall i: nat ::
          i in s.ready || i in Ids(s.timers) || i in StartedIds(s.started) || i in s.cleared <==> i < s.nextId)
    && (forall i :: i in s.ready ==> i !in Ids(s.timers) && i !in StartedIds(s.started) && i !in s.cleared)
    && Ids(s.timers) !! StartedIds(s.started) && Ids(s.timers) !! s.cleared && StartedIds(s.started) !! s.cleared
    && (forall t, u :: t in s.timers && u in s.timers && t.id == u.id ==> t == u)
    && (forall j, k :: 0 <= j < k < |s.started| ==> s.started[j].id != s.started[k].id)
  }

  /** Ready tasks start in the order they were submitted. */
  predicate Fifo(s: State) {
    && Increasing(ReadyStarts(s.started) + s.ready)
    && (forall i :: i in s.ready ==> i in s.submitted)
    && (forall i :: i in ReadyStarts(s.started) ==> i in s.submitted)
    && (forall i :: i in s.submitted ==> i < s.nextId)
  }

  /** A started timer was started, at millisecond resolution, no earlier than its timeout after the clock
      reading of its DelaySchedule call, and no strictly earlier deadline was left waiting. */
  predicate OnTime(x: Start, delays: map<nat, Delay>) {
    x.FromTimers? ==>
      && x.id in delays && x.clock / 1000 >= delays[x.id].now / 1000 + delays[x.id].timeout
      && x.execTime == delays[x.id].now + 1000 * delays[x.id].timeout
      && forall u :: u in x.waiting ==> x.execTime <= u.execTime
  }

  predicate Timed(s: State) {
    && (forall t :: t in s.timers ==>
          && t.id in s.delays && t.id !in s.submitted
          && t.execTime == s.delays[t.id].now + 1000 * s.delays[t.id].timeout)
    && (forall i :: i in s.delays ==> i < s.nextId)
    && (forall k :: 0 <= k < |s.started| ==> OnTime(s.started[k], s.delays))
    && (forall k :: 0 <= k < |s.started| && s.started[k].FromTimers? ==> s.started[k].id !in s.submitted)
    && (forall k :: 0 <= k < |s.started| ==> TimersFirst(s.started[k]))
  }

  /** No timer that was due was left waiting when a worker started a ready task. */
  predicate TimersFirst(x: Start) {
    x.FromReady? ==> forall t :: t in x.waiting ==> x.clock / 1000 < t.execTime / 1000
  }

  predicate PhaseOk(s: State) {
    && (s.phase != Running ==> s.stop)
    && (s.phase.DrainingTimers? || s.phase.Exited? ==> s.ready == [])
    && (s.phase.Exited? ==> NoneDue(s.timers, s.phase.clock))
  }

  ghost predicate Inv(s: State) {
    OnePlace(s) && Fifo(s) && Timed(s) && PhaseOk(s) && |s.ready| <= s.capacity
  }

  lemma StartedSnoc(log: seq<Start>, x: Start)
    ensures StartedIds(log + [x]) == StartedIds(log) + {x.id}
  {
    var l := log + [x];
    assert forall k :: 0 <= k < |log| ==> l[k] == log[k];
    assert l[|log|] == x;
  }

  lemma StartReadyKeepsOnePlace(s: State, x: Start)
    requires OnePlace(s) && Fifo(s) && IsFront(s, x)
    ensures OnePlace(StartReady(s, x))
  {
    var t := StartReady(s, x);
    StartedSnoc(s.started, x);
    assert s.ready == [s.ready[0]] + s.ready[1..];
    assert Increasing(s.ready) by { IncreasingParts(ReadyStarts(s.started), s.ready); }
    assert forall i :: i in s.ready <==> i == s.ready[0] || i in t.ready;
    assert s.ready[0] !in t.ready;
    assert s.ready[0] in s.ready && forall k :: 0 <= k < |s.started| ==> s.started[k].id in StartedIds(s.started);
  }

  lemma IncreasingParts(a: seq<nat>, b: seq<nat>)
    requires Increasing(a + b)
    ensures Increasing(a) && Increasing(b)
  {
    assert forall i :: 0 <= i < |a| ==> (a + b)[i] == a[i];
    assert forall i :: 0 <= i < |b| ==> (a + b)[|a| + i] == b[i];
  }

  lemma StartReadyKeepsFifo(s: State, x: Start)
    requires Fifo(s) && IsFront(s, x)
    ensures Fifo(StartReady(s, x))
  {
    hide ReadyStarts, Increasing;
    ReadyStartsSnoc(s.started, x);
    var a, b := ReadyStarts(s.started), s.ready;
    assert a + [b[0]] + b[1..] == a + b;
    assert b[0] in b && forall i :: i in b[1..] ==> i in b;
  }

  lemma StartReadyKeepsTimed(s: State, x: Start)
    requires Timed(s) && IsFront(s, x) && TimersFirst(x)
    ensures Timed(StartReady(s, x))
  {
    var u := StartReady(s, x);
    forall k | 0 <= k < |u.started| ensures OnTime(u.started[k], u.delays) && TimersFirst(u.started[k]) {
      if k < |s.started| { assert u.started[k] == s.started[k]; } else { assert u.started[k] == x; }
    }
  }

  lemma StartReadyKeepsInv(s: State, x: Start)
    requires Inv(s) && IsFront(s, x) && TimersFirst(x) && !s.phase.Exited?
    ensures Inv(StartReady(s, x))
  {
    StartReadyKeepsOnePlace(s, x);
    StartReadyKeepsFifo(s, x);
    StartReadyKeepsTimed(s, x);
    hide OnePlace, Fifo, Timed;
  }

  lemma StartTimerKeepsOnePlace(s: State, t: Timer, clock: nat)
    requires OnePlace(s) && t in s.timers
    ensures OnePlace(StartTimer(s, t, clock))
  {
    var u := StartTimer(s, t, clock);
    StartedSnoc(s.started, FromTimers(t.id, t.execTime, clock, s.timers - {t}));
    assert Ids(u.timers) == Ids(s.timers) - {t.id};
    assert t.id in Ids(s.timers) && forall k :: 0 <= k < |s.started| ==> s.started[k].id in StartedIds(s.started);
  }

  lemma MillisOfDeadline(now: nat, timeout: nat)
    ensures (now + 1000 * timeout) / 1000 == now / 1000 + timeout
  {
  }

  lemma StartTimerKeepsTimed(s: State, t: Timer, clock: nat)
    requires Timed(s) && IsTop(t, s.timers) && Due(t, clock)
    ensures Timed(StartTimer(s, t, clock))
  {
    hide ReadyStarts;
    var u, x := StartTimer(s, t, clock), FromTimers(t.id, t.execTime, clock, s.timers - {t});
    assert OnTime(x, s.delays) by { MillisOfDeadline(s.delays[t.id].now, s.delays[t.id].timeout); }
    forall k | 0 <= k < |u.started| ensures OnTime(u.started[k], u.delays) {
      if k < |s.started| { assert u.started[k] == s.started[k]; } else { assert u.started[k] == x; }
    }
  }

  lemma StartTimerKeepsInv(s: State, t: Timer, clock: nat)
    requires Inv(s) && IsTop(t, s.timers) && Due(t, clock) && !s.phase.Exited?
    ensures Inv(StartTimer(s, t, clock))
  {
    StartTimerKeepsOnePlace(s, t, clock);
    StartTimerKeepsTimed(s, t, clock);
    hide OnePlace, Timed, ReadyStarts, Increasing;
    ReadyStartsSnoc(s.started, FromTimers(t.id, t.execTime, clock, s.timers - {t}));
  }

  lemma ScheduleKeepsOnePlace(s: State)
    requires OnePlace(s) && Enabled(s, Schedule)
    ensures OnePlace(Apply(s, Schedule))
  {
    var t := Apply(s, Schedule);
    assert forall i :: i in t.ready <==> i == s.nextId || i in s.ready;
    assert s.nextId !in Ids(s.timers) && s.nextId !in StartedIds(s.started) && s.nextId !in s.cleared;
  }

  lemma ScheduleKeepsFifo(s: State)
    requires OnePlace(s) && Fifo(s) && Enabled(s, Schedule)
    ensures Fifo(Apply(s, Schedule))
  {
    var a, b := ReadyStarts(s.started), s.ready;
    assert a + (b + [s.nextId]) == a + b + [s.nextId];
    assert forall k :: 0 <= k < |a + b| ==> (a + b)[k] in s.submitted by {
      assert forall k :: 0 <= k < |a + b| ==> (a + b)[k] in a || (a + b)[k] in b;
    }
  }

  lemma ScheduleKeepsInv(s: State)
    requires Inv(s) && Enabled(s, Schedule)
    ensures Inv(Apply(s, Schedule))
  {
    ScheduleKeepsOnePlace(s);
    ScheduleKeepsFifo(s);
    hide OnePlace, Fifo;
    StartedNotNew(s);
  }

  /** Timers and started timers are not renumbered by a new submission. */
  lemma StartedNotNew(s: State)
    requires OnePlace(s)
    ensures forall t :: t in s.timers ==> t.id < s.nextId
    ensures forall k :: 0 <= k < |s.started| ==> s.started[k].id < s.nextId
  {
    assert forall t :: t in s.timers ==> t.id in Ids(s.timers);
    assert forall k :: 0 <= k < |s.started| ==> s.started[k].id in StartedIds(s.started);
  }

  lemma DelayScheduleKeepsOnePlace(s: State, now: nat, timeout: nat)
    requires OnePlace(s) && !s.stop
    ensures OnePlace(Apply(s, DelaySchedule(now, timeout)))
  {
    var t := Apply(s, DelaySchedule(now, timeout));
    assert Ids(t.timers) == Ids(s.timers) + {s.nextId};
    assert forall u :: u in s.timers ==> u.id in Ids(s.timers);
  }

  lemma DelayScheduleKeepsTimed(s: State, now: nat, timeout: nat)
    requires OnePlace(s) && Fifo(s) && Timed(s) && !s.stop
    ensures Timed(Apply(s, DelaySchedule(now, timeout)))
  {
    StartedNotNew(s);
    hide OnePlace, ReadyStarts, Increasing;
    var t := Apply(s, DelaySchedule(now, timeout));
    forall k | 0 <= k < |t.started| ensures OnTime(t.started[k], t.delays) {
      assert OnTime(s.started[k], s.delays);
    }
  }

  lemma DelayScheduleKeepsInv(s: State, now: nat, timeout: nat)
    requires Inv(s) && Enabled(s, DelaySchedule(now, timeout))
    ensures Inv(Apply(s, DelaySchedule(now, timeout)))
  {
    DelayScheduleKeepsOnePlace(s, now, timeout);
    DelayScheduleKeepsTimed(s, now, timeout);
    hide OnePlace, Timed, ReadyStarts, Increasing;
  }

  lemma QueueClearKeepsInv(s: State)
    requires Inv(s)
    ensures Inv(Apply(s, QueueClear))
  {
    IncreasingParts(ReadyStarts(s.started), s.ready);
    assert ReadyStarts(s.started) + [] == ReadyStarts(s.started);
    assert Ids({}) == {};
  }

  lemma StepKeepsInv(s: State, e: Event)
    requires Inv(s) && Enabled(s, e)
    ensures Inv(Apply(s, e))
  {
    match e
    case Schedule => ScheduleKeepsInv(s);
    case DelaySchedule(now, timeout) => DelayScheduleKeepsInv(s, now, timeout);
    case QueueClear => QueueClearKeepsInv(s);
    case RunTimer(t, now) => StartTimerKeepsInv(s, t, now);
    case RunReady(now) => StartReadyKeepsInv(s, FromReady(s.ready[0], now, s.timers));
    case DrainReady => StartReadyKeepsInv(s, FromDrain(s.ready[0]));
    case DrainTimer(t) => StartTimerKeepsInv(s, t, s.phase.clock);
    case _ =>
  }

  lemma InitInv(capacity: nat)
    ensures Inv(Init(capacity))
  {
  }

  // ----- the theorems

  /** Over any interleaving of any callers and workers: conservation, submission order, capacity, and the
      timer discipline hold. */
  lemma {:induction false} RunKeepsInv(s: State, events: seq<Event>)
    requires Inv(s) && IsRun(s, events)
    ensures Inv(After(s, events)) && After(s, events).capacity == s.capacity
    decreases |events|
  {
    if events != [] {
      StepKeepsInv(s, events[0]);
      RunKeepsInv(Apply(s, events[0]), events[1..]);
    }
  }

  /** Conservation and order: over every run, each accepted task is in exactly one place, the ready queue
      stays within its limit, and ready tasks start in the order they were submitted. */
  lemma TasksAreConserved(capacity: nat, events: seq<Event>)
    requires IsRun(Init(capacity), events)
    ensures var t := After(Init(capacity), events);
            OnePlace(t) && |t.ready| <= capacity && Increasing(ReadyStarts(t.started) + t.ready)
  {
    InitInv(capacity);
    RunKeepsInv(Init(capacity), events);
  }

  /** Timer discipline: over every run, each delayed task that was started, was started no earlier than
      its deadline at millisecond resolution, with no strictly earlier deadline waiting. */
  lemma TimersAreOnTime(capacity: nat, events: seq<Event>)
    requires IsRun(Init(capacity), events)
    ensures var t := After(Init(capacity), events);
            forall k :: 0 <= k < |t.started| ==> OnTime(t.started[k], t.delays)
  {
    InitInv(capacity);
    RunKeepsInv(Init(capacity), events);
  }

  /** Due timers go first: over every run, whenever a worker started a ready task, no timer waiting was due at the clock
      reading of that section. */
  lemma DueTimersGoFirst(capacity: nat, events: seq<Event>)
    requires IsRun(Init(capacity), events)
    ensures var t := After(Init(capacity), events);
            forall k, u :: 0 <= k < |t.started| && t.started[k].FromReady? && u in t.started[k].waiting ==>
              t.started[k].clock / 1000 < u.execTime / 1000
  {
    InitInv(capacity);
    RunKeepsInv(Init(capacity), events);
    var t := After(Init(capacity), events);
    assert forall k :: 0 <= k < |t.started| ==> TimersFirst(t.started[k]);
  }

  /** The milliseconds TimedWait is given: an unsigned difference, divided, cut to 32 bits. */
  function WaitMillis(t: Timer, now: nat): int { (t.execTime - now) / 1000 % 0x1_0000_0000 }

  /** The subtraction does not wrap, the wait never sleeps past the deadline, and it ends less than a millisecond
      before it, unless 32 bits are too few. */
  lemma WaitNeverOversleeps(t: Timer, now: nat)
    requires !Due(t, now)
    ensures now < t.execTime && 0 <= WaitMillis(t, now) && now + 1000 * WaitMillis(t, now) <= t.execTime
    ensures t.execTime - now < 1000 * 0x1_0000_0000 ==> t.execTime < now + 1000 * WaitMillis(t, now) + 1000
  {
    assert now / 1000 < t.execTime / 1000;
    assert now < 1000 * (now / 1000 + 1) <= t.execTime;
    var d := (t.execTime - now) / 1000;
    assert 1000 * d <= t.execTime - now;
    assert d % 0x1_0000_0000 <= d;
  }

  /** Shutdown: when the worker has returned, the ready queue is empty, every submitted task was started,
      once and in order, or cleared, and every timer left is later than the sampled clock. */
  lemma ShutdownDrains(capacity: nat, events: seq<Event>)
    requires IsRun(Init(capacity), events) && After(Init(capacity), events).phase.Exited?
    ensures var t := After(Init(capacity), events);
            && t.ready == []
            && (forall i :: i in t.submitted ==> (i in ReadyStarts(t.started) <==> i !in t.cleared))
            && Increasing(ReadyStarts(t.started))
            && (forall u :: u in t.timers ==> t.phase.clock / 1000 < u.execTime / 1000)
  {
    InitInv(capacity);
    RunKeepsInv(Init(capacity), events);
    var t := After(Init(capacity), events);
    assert ReadyStarts(t.started) + t.ready == ReadyStarts(t.started);
    forall i | i in t.submitted ensures i in ReadyStarts(t.started) <==> i !in t.cleared {
      ReadyStartsAreStarted(t.started, i);
      if i !in t.cleared {
        assert i in StartedIds(t.started);
        var k :| 0 <= k < |t.started| && t.started[k].id == i;
        ReadyStartsHas(t.started, k);
      }
    }
  }

  lemma {:induction false} ReadyStartsHas(log: seq<Start>, k: nat)
    requires k < |log| && !log[k].FromTimers?
    ensures log[k].id in ReadyStarts(log)
    decreases |log|
  {
    if k < |log| - 1 {
      ReadyStartsHas(log[..|log| - 1], k);
    }
  }

  lemma {:induction false} ReadyStartsAreStarted(log: seq<Start>, i: nat)
    ensures i in ReadyStarts(log) ==> i in StartedIds(log)
    decreases |log|
  {
    if log != [] {
      var front, last := log[..|log| - 1], log[|log| - 1];
      assert log == front + [last];
      ReadyStartsAreStarted(front, i);
      StartedSnoc(front, last);
    }
  }

  predicate IsWorkerStep(e: Event) { e.DrainReady? || e.SampleClock? || e.DrainTimer? || e.Finish? }

  function WorkerSteps(events: seq<Event>): nat {
    if events == [] then 0 else (if IsWorkerStep(events[0]) then 1 else 0) + WorkerSteps(events[1..])
  }

  /** What is left to do for a worker that has left its loop. */
  function DrainWork(s: State): nat {
    |s.ready| + |s.timers| + (match s.phase case Running => 0 case DrainingReady => 2
        case DrainingTimers(_) => 1 case Exited(_) => 0)
  }

  /** The drain terminates: once stop is set and the worker has left its loop, it makes at most DrainWork
      steps, however often tasks and other threads call Schedule, DelaySchedule or QueueClear. */
  lemma {:induction false} DrainTerminates(s: State, events: seq<Event>)
    requires s.stop && s.phase != Running && IsRun(s, events)
    ensures WorkerSteps(events) <= DrainWork(s)
    decreases |events|
  {
    if events != [] {
      var t := Apply(s, events[0]);
      DrainTerminates(t, events[1..]);
      if events[0].DrainTimer? {
        assert |s.timers - {events[0].timer}| == |s.timers| - 1;
      }
    }
  }

  lemma {:induction false} TopExists(timers: set<Timer>) returns (t: Timer)
    requires timers != {}
    ensures IsTop(t, timers)
    decreases timers
  {
    t :| t in timers;
    if timers != {t} {
      var u := TopExists(timers - {t});
      if u.execTime < t.execTime { t := u; }
    }
  }

  /** And it never gets stuck before it has returned. */
  lemma DrainNeverStuck(s: State)
    requires s.phase.DrainingReady? || s.phase.DrainingTimers?
    ensures exists e :: IsWorkerStep(e) && Enabled(s, e)
  {
    if s.phase.DrainingReady? {
      assert Enabled(s, DrainReady) || Enabled(s, SampleClock(0));
    } else if s.timers == {} {
      assert Enabled(s, Finish);
    } else {
      var t := TopExists(s.timers);
      if Due(t, s.phase.clock) {
        assert Enabled(s, DrainTimer(t));
      } else {
        NoneDueAfterTop(t, s.timers, s.phase.clock);
        assert Enabled(s, Finish);
      }
    }
  }

  lemma NotSomeDue(timers: set<Timer>, now: nat)
    ensures NoneDue(timers, now) <==> !SomeDue(timers, now)
  {
    if SomeDue(timers, now) {
      var t :| t in timers && t.execTime / 1000 <= now / 1000;
      assert Due(t, now);
    }
  }

  lemma NoneDueAfterTop(t: Timer, timers: set<Timer>, now: nat)
    requires IsTop(t, timers) && !Due(t, now)
    ensures NoneDue(timers, now)
  {
    forall u | u in timers ensures !Due(u, now) {
      assert t.execTime / 1000 <= u.execTime / 1000;
    }
  }
}
