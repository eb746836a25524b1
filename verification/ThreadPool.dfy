/** The TaskQueue of a ThreadPool: the same steps with a fixed capacity, taken by any number of workers,
    and without a drain at shutdown. */
module ThreadPoolQueue {
  import opened ByteStrings
  import opened Scheduling

  const QUEUE_CAP: nat := 63

  class TaskQueue {
    var queue: seq<nat>
    var timeQueue: set<Timer>
    var shouldStop: bool
    var nextId: nat
    /** The steps taken so far by all threads. */
    ghost var run: seq<Event>

    ghost predicate Valid()
      reads this
    {
      IsRun(Init(QUEUE_CAP), run) &&
      var now := After(Init(QUEUE_CAP), run);
      && now.capacity == QUEUE_CAP && now.phase == Running
      && now.ready == queue && now.timers == timeQueue && now.stop == shouldStop && now.nextId == nextId
    }

    constructor ()
      ensures Valid() && run == []
    {
      queue, timeQueue, shouldStop, nextId, run := [], {}, false, 0, [];
    }

    ghost method Record(e: Event)
      requires IsRun(Init(QUEUE_CAP), run) && Enabled(After(Init(QUEUE_CAP), run), e)
      modifies `run
      ensures run == old(run) + [e] && IsRun(Init(QUEUE_CAP), run)
      ensures After(Init(QUEUE_CAP), run) == Apply(old(After(Init(QUEUE_CAP), run)), e)
    {
      RunSnoc(Init(QUEUE_CAP), run, e);
      run := run + [e];
    }

    /** Returns whether the caller is done; otherwise it waits for room. */
    method Schedule() returns (done: bool)
      requires Valid()
      modifies `queue, `nextId, `run
      ensures Valid() && |queue| <= QUEUE_CAP
      ensures done <==> shouldStop || |old(queue)| < QUEUE_CAP
      ensures queue == if done && !shouldStop then old(queue) + [old(nextId)] else old(queue)
      ensures run == old(run) + (if !done then [] else [if shouldStop then Refused else Event.Schedule])
    {
      Bounded();
      hide After, IsRun;
      if |queue| >= QUEUE_CAP && !shouldStop {
        return false;
      }
      if !shouldStop {
        queue, nextId := queue + [nextId], nextId + 1;
        Record(Event.Schedule);
      } else {
        Record(Refused);
      }
      return true;
    }

    method DelaySchedule(now: nat, timeout: nat)
      requires Valid()
      modifies `timeQueue, `nextId, `run
      ensures Valid()
      ensures timeQueue == if shouldStop then old(timeQueue)
              else old(timeQueue) + {Timer(now + timeout * 1000, old(nextId))}
      ensures run == old(run) + [if shouldStop then Refused else Event.DelaySchedule(now, timeout)]
    {
      hide After, IsRun;
      if !shouldStop {
        timeQueue, nextId := timeQueue + {Timer(now + timeout * 1000, nextId)}, nextId + 1;
        Record(Event.DelaySchedule(now, timeout));
      } else {
        Record(Refused);
      }
    }

    method SetShouldStop()
      requires Valid()
      modifies `shouldStop, `run
      ensures Valid() && shouldStop && run == old(run) + [SetStop]
    {
      hide After, IsRun;
      shouldStop := true;
      Record(SetStop);
    }

    /** The worker's critical section: what to run, if anything. */
    method RunOnce(now: nat) returns (task: Option<nat>)
      requires Valid()
      modifies `queue, `timeQueue, `run
      ensures Valid()
      ensures shouldStop ==> task == None && queue == old(queue) && timeQueue == old(timeQueue)
      ensures !shouldStop && old(queue) == [] && old(timeQueue) == {} ==>
                task == None && queue == [] && timeQueue == {}
      ensures !shouldStop && SomeDue(old(timeQueue), now) ==>
                exists t :: EarliestDue(t, old(timeQueue), now) && task == Some(t.id)
                  && timeQueue == old(timeQueue) - {t} && queue == old(queue)
      ensures !shouldStop && !SomeDue(old(timeQueue), now) && old(queue) != [] ==>
                task == Some(old(queue)[0]) && queue == old(queue)[1..] && timeQueue == old(timeQueue)
      ensures !shouldStop && !SomeDue(old(timeQueue), now) && old(queue) == [] && old(timeQueue) != {} ==>
                task == None && queue == [] && timeQueue == old(timeQueue)
      ensures shouldStop || (old(queue) == [] && old(timeQueue) == {}) ==> task == None && run == old(run)
      ensures task.None? ==> queue == old(queue) && timeQueue == old(timeQueue)
      ensures task.None? && !shouldStop ==> queue == [] && NoneDue(timeQueue, now)
      ensures task.Some? ==>
                || (run == old(run) + [RunReady(now)] && old(queue) != [] && task.value == old(queue)[0])
                || exists t :: run == old(run) + [RunTimer(t, now)] && task.value == t.id
    {
      hide After, IsRun;
      if shouldStop || (queue == [] && timeQueue == {}) {
        return None;
      }
      if timeQueue != {} {
        ghost var w := TopExists(timeQueue);
        var t :| IsTop(t, timeQueue);
        if now / 1000 >= t.execTime / 1000 {
          assert IsTop(t, timeQueue);
          assert EarliestDue(t, timeQueue, now);
          timeQueue := timeQueue - {t};
          Record(RunTimer(t, now));
          return Some(t.id);
        }
        NoneDueAfterTop(t, timeQueue, now);
        NotSomeDue(timeQueue, now);
        if queue == [] {
          WaitNeverOversleeps(t, now);
          Record(TimedWait(now));
          return None;
        }
      }
      var id := queue[0];
      queue := queue[1..];
      Record(RunReady(now));
      return Some(id);
    }

    /** The queue is within its limit. */
    lemma Bounded()
      requires Valid()
      ensures |queue| <= QUEUE_CAP
    {
      TasksAreConserved(QUEUE_CAP, run);
    }
  }
}
