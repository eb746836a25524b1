/** BGThread: one worker, a bounded queue, a heap of timers, and a drain at shutdown. Each method is what
    the source does between taking and releasing mu_; its contract names the step of Scheduling it is. */
module BgThreadObject {
  import opened Scheduling

  datatype Outcome = Accepted | Turned | MustWait

  /** What one pass through the loop of ThreadMain did. */
  datatype Action = Waited | Slept(millis: int) | Ran(id: nat) | Stopped

  class BGThread {
    const full: nat
    var queue: seq<nat>
    var timerQueue: set<Timer>
    var shouldStop: bool
    var nextId: nat
    /** The steps taken so far by all threads. */
    ghost var run: seq<Event>

    ghost predicate Traced()
      reads this
    {
      IsRun(Init(full), run)
    }

    ghost function Now(): State
      requires Traced()
      reads this
    {
      After(Init(full), run)
    }

    /** The fields are those of the state the run leads to. */
    ghost predicate Valid()
      reads this
    {
      && Traced() && Now().capacity == full
      && Now().ready == queue && Now().timers == timerQueue && Now().stop == shouldStop && Now().nextId == nextId
    }

    constructor (full': nat)
      ensures full == full' && Valid() && run == []
    {
      full, queue, timerQueue, shouldStop, nextId, run := full', [], {}, false, 0, [];
    }

    ghost method Record(e: Event)
      requires Traced() && Enabled(Now(), e)
      modifies `run
      ensures run == old(run) + [e] && Traced() && Now() == Apply(old(Now()), e)
    {
      RunSnoc(Init(full), run, e);
      run := run + [e];
    }

    method Schedule() returns (outcome: Outcome)
      requires Valid()
      modifies `queue, `nextId, `run
      ensures Valid() && Now().phase == old(Now()).phase
      ensures run == old(run) + match outcome
                case Accepted => [Event.Schedule]
                case Turned => [Refused]
                case MustWait => []
      ensures queue == if outcome == Accepted then old(queue) + [old(nextId)] else old(queue)
      ensures outcome == MustWait <==> !shouldStop && |old(queue)| >= full
      ensures outcome == Turned <==> shouldStop
    {
      hide After, IsRun;
      if |queue| >= full && !shouldStop {
        return MustWait;
      }
      if !shouldStop {
        queue, nextId := queue + [nextId], nextId + 1;
        Record(Event.Schedule);
        return Accepted;
      }
      Record(Refused);
      return Turned;
    }

    method DelaySchedule(now: nat, timeout: nat) returns (outcome: Outcome)
      requires Valid()
      modifies `timerQueue, `nextId, `run
      ensures Valid() && Now().phase == old(Now()).phase && outcome == (if shouldStop then Turned else Accepted)
      ensures timerQueue == if shouldStop then old(timerQueue)
              else old(timerQueue) + {Timer(now + timeout * 1000, old(nextId))}
      ensures run == old(run) + [if shouldStop then Refused else Event.DelaySchedule(now, timeout)]
    {
      hide After, IsRun;
      var execTime := now + timeout * 1000;
      if !shouldStop {
        timerQueue, nextId := timerQueue + {Timer(execTime, nextId)}, nextId + 1;
        Record(Event.DelaySchedule(now, timeout));
        return Accepted;
      }
      Record(Refused);
      return Turned;
    }

    method QueueClear()
      requires Valid()
      modifies `queue, `timerQueue, `run
      ensures Valid() && Now().phase == old(Now()).phase && queue == [] && timerQueue == {}
      ensures run == old(run) + [Event.QueueClear]
    {
      hide After, IsRun;
      queue, timerQueue := [], {};
      Record(Event.QueueClear);
    }

    method StopThread()
      requires Valid()
      modifies `shouldStop, `run
      ensures Valid() && Now().phase == old(Now()).phase && shouldStop && run == old(run) + [SetStop]
    {
      hide After, IsRun;
      shouldStop := true;
      Record(SetStop);
    }

    /** timer_queue_.top(): the tasks are compared by deadline only. */
    method Top() returns (t: Timer)
      requires timerQueue != {}
      ensures IsTop(t, timerQueue)
    {
      ghost var w := TopExists(timerQueue);
      t :| IsTop(t, timerQueue);
    }

    /** One pass through the loop of ThreadMain, up to running what it picked. */
    method WorkerSection(now: nat) returns (action: Action)
      requires Valid() && Now().phase == Running
      modifies `queue, `timerQueue, `run
      ensures Valid() && Now().phase == Running
      ensures shouldStop ==> action == Stopped && queue == old(queue) && timerQueue == old(timerQueue)
      ensures !shouldStop && old(queue) == [] && old(timerQueue) == {} ==>
                action == Waited && queue == [] && timerQueue == {}
      ensures !shouldStop && SomeDue(old(timerQueue), now) ==>
                exists t :: EarliestDue(t, old(timerQueue), now) && action == Ran(t.id)
                  && timerQueue == old(timerQueue) - {t} && queue == old(queue)
      ensures !shouldStop && !SomeDue(old(timerQueue), now) && old(queue) != [] ==>
                action == Ran(old(queue)[0]) && queue == old(queue)[1..] && timerQueue == old(timerQueue)
      ensures !shouldStop && !SomeDue(old(timerQueue), now) && old(queue) == [] && old(timerQueue) != {} ==>
                action.Slept? && queue == [] && timerQueue == old(timerQueue)
      ensures match action
              case Stopped => shouldStop && run == old(run)
              case Waited => !shouldStop && queue == [] && timerQueue == {} && run == old(run)
              case Slept(millis) => run == old(run) + [TimedWait(now)]
                && exists t :: IsTop(t, timerQueue) && millis == WaitMillis(t, now) && now + 1000 * millis <= t.execTime
                     && (t.execTime - now < 1000 * 0x1_0000_0000 ==> t.execTime < now + 1000 * millis + 1000)
              case Ran(id) =>
                || (run == old(run) + [RunReady(now)] && old(queue) != [] && id == old(queue)[0])
                || exists t :: run == old(run) + [RunTimer(t, now)] && id == t.id
    {
      hide After, IsRun;
      if shouldStop {
        return Stopped;
      }
      if queue == [] && timerQueue == {} {
        return Waited;
      }
      if timerQueue != {} {
        var t := Top();
        if now / 1000 >= t.execTime / 1000 {
          assert EarliestDue(t, timerQueue, now);
          timerQueue := timerQueue - {t};
          Record(RunTimer(t, now));
          return Ran(t.id);
        }
        NoneDueAfterTop(t, timerQueue, now);
        NotSomeDue(timerQueue, now);
        if queue == [] {
          WaitNeverOversleeps(t, now);
          Record(TimedWait(now));
          return Slept((t.execTime - now) / 1000 % 0x1_0000_0000);
        }
      }
      var id := queue[0];
      queue := queue[1..];
      Record(RunReady(now));
      return Ran(id);
    }

    /** What other threads, or the tasks themselves, do while mu_ is released: any number of calls. */
    method Others()
      requires Valid()
      modifies this
      ensures Valid() && Now().phase == old(Now()).phase && (old(shouldStop) ==> shouldStop)
      ensures old(shouldStop) ==> |queue| <= |old(queue)| && timerQueue <= old(timerQueue)
    {
      hide After, IsRun;
      var n: int := *;
      var calls := if n < 0 then 0 else n;
      for i := 0 to calls
        invariant Valid() && Now().phase == old(Now()).phase && (old(shouldStop) ==> shouldStop)
        invariant old(shouldStop) ==> |queue| <= |old(queue)| && timerQueue <= old(timerQueue)
      {
        Other();
      }
    }

    /** One call of another thread or of a task. */
    method Other()
      requires Valid()
      modifies this
      ensures Valid() && Now().phase == old(Now()).phase && (old(shouldStop) ==> shouldStop)
      ensures old(shouldStop) ==> |queue| <= |old(queue)| && timerQueue <= old(timerQueue)
    {
      hide After, IsRun;
      var choice: int := *;
      if choice == 0 {
        var outcome := Schedule();
      } else if choice == 1 {
        var now: nat := *;
        var timeout: nat := *;
        var outcome := DelaySchedule(now, timeout);
      } else if choice == 2 {
        QueueClear();
      } else if choice == 3 {
        StopThread();
      }
    }

    /** The drain. Both loops terminate although others run whenever mu_ is released. */
    method SwallowReadyTasks(clock: nat)
      requires Valid() && shouldStop && Now().phase == DrainingReady
      modifies this
      ensures Valid() && Now().phase == Exited(clock)
    {
      hide After, IsRun;
      Others();
      while queue != []
        invariant Valid() && shouldStop && Now().phase == DrainingReady
        decreases |queue|
      {
        queue := queue[1..];
        Record(DrainReady);
        Others();
      }
      Others();
      Record(SampleClock(clock));
      Others();
      while timerQueue != {}
        invariant Valid() && shouldStop && Now().phase == DrainingTimers(clock)
        decreases timerQueue
      {
        var t := Top();
        if clock / 1000 < t.execTime / 1000 {
          NoneDueAfterTop(t, timerQueue, clock);
          break;
        }
        timerQueue := timerQueue - {t};
        Record(DrainTimer(t));
        Others();
      }
      Record(Finish);
    }

    /** The worker thread from start to return, when stop is set after any number of passes. */
    method ThreadMain(stopAfter: nat, clock: nat)
      requires Valid() && Now().phase == Running
      modifies this
      ensures Valid() && queue == [] && Now().phase == Exited(clock)
      ensures forall t :: t in timerQueue ==> clock / 1000 < t.execTime / 1000
      ensures forall i :: i in Now().submitted ==> (i in ReadyStarts(Now().started) <==> i !in Now().cleared)
      ensures Increasing(ReadyStarts(Now().started))
    {
      hide After, IsRun, ReadyStarts;
      for i := 0 to stopAfter
        invariant Valid() && Now().phase == Running
      {
        if shouldStop { break; }
        Others();
        var now: nat := *;
        var action := WorkerSection(now);
        Others();
      }
      if !shouldStop {
        StopThread();
      }
      Others();
      Record(LeaveLoop);
      SwallowReadyTasks(clock);
      ShutdownDrains(full, run);
    }
  }
}
