/**
 The mutex and the condition variables of the schedulers: callers of Schedule wait for room, workers wait for work.

 Waiting releases the mutex, but looking and starting to wait are two steps, and stopping takes no mutex: it can
 happen in between. While the scheduler runs, no wake-up is lost. At shutdown BGThread signals each condition
 variable once and ThreadPool signals all; nobody who has not started to wait is reached.
 */
module Wakeups {
  /** Who holds the mutex between two steps: a caller that found the queue full, a worker that found nothing to do, a
      worker that found something to do, with the top timer due or not; or it is held for good. */
  datatype Holder = Nobody | Caller | Sleeper | Chooser(due: bool) | ForGood

  /** size and timers count the tasks; waiting and woken the callers that wait for a signal and those that had one but
      have not looked again; the others count the workers: outside the mutex, waiting for work, waiting for a
      deadline, past their loop, and returned. drains says whether a worker drains the queues before it returns. */
  datatype State = State(
    full: nat, drains: bool, size: nat, timers: nat, stop: bool, holder: Holder, waiting: nat, woken: nat,
    looping: nat, asleep: nat, dozing: nat, leaving: nat, returned: nat)

  /** Where a signal can reach waiting workers of both kinds, doze picks one of those with a deadline. */
  datatype Event =
    | Call(doze: bool) | Retry(doze: bool) | Block
    | Delay(doze: bool)
    | Enter(due: bool) | Pop | PopTimer | Doze | FallOut
    | Look | Sleep | Timeout
    | Leave | DrainReady | DrainTimer | Return
    | Clear
    | SetStop | SignalWorker(doze: bool) | SignalCaller | SignalAllWorkers | SignalAllCallers
    | SpuriousCaller | SpuriousWorker(doze: bool)

  /** BGThread has one worker, which drains; ThreadPool has several, which do not. */
  function Init(full: nat, drains: bool, workers: nat): State {
    State(full, drains, 0, 0, false, Nobody, 0, 0, workers, 0, 0, 0, 0)
  }

  predicate Free(s: State) { s.holder == Nobody }

  predicate Enabled(s: State, e: Event) {
    match e
    case Call(_) => Free(s)
    case Retry(_) => Free(s) && s.woken > 0
    case Block => s.holder == Caller
    case Delay(_) => Free(s)
    case Enter(due) => Free(s) && s.looping > 0 && !s.stop && s.size + s.timers > 0 && (due ==> s.timers > 0)
    case Pop => s.holder == Chooser(false) && s.size > 0
    case PopTimer => s.holder == Chooser(true) && s.timers > 0
    case Doze => s.holder == Chooser(false) && s.size == 0 && !s.stop
    case FallOut => s.holder == Chooser(false) && s.size == 0 && s.stop
    case Look => Free(s) && s.looping > 0 && !s.stop && s.size == 0 && s.timers == 0
    case Sleep => s.holder == Sleeper
    case Timeout => s.dozing > 0
    case Leave => s.looping > 0 && s.stop
    case DrainReady => Free(s) && s.drains && s.leaving > 0 && s.size > 0
    case DrainTimer => Free(s) && s.drains && s.leaving > 0 && s.timers > 0
    case Return => s.leaving > 0 && (s.drains ==> Free(s) && s.size == 0)
    case Clear => Free(s)
    case SetStop => true
    case SignalWorker(_) => s.stop
    case SignalCaller => s.stop
    case SignalAllWorkers => s.stop
    case SignalAllCallers => s.stop
    case SpuriousCaller => s.waiting > 0
    case SpuriousWorker(_) => s.asleep + s.dozing > 0
  }

  function WakeCaller(s: State): State {
    if s.waiting == 0 then s else s.(waiting := s.waiting - 1, woken := s.woken + 1)
  }

  function WakeWorker(s: State, doze: bool): State {
    if s.dozing > 0 && (doze || s.asleep == 0) then s.(dozing := s.dozing - 1, looping := s.looping + 1)
    else if s.asleep > 0 then s.(asleep := s.asleep - 1, looping := s.looping + 1)
    else s
  }

  /** The loop of Schedule under the mutex: return at stop, push and signal, or go to wait. */
  function TryPush(s: State, doze: bool): State {
    if s.stop then s
    else if s.size < s.full then WakeWorker(s.(size := s.size + 1), doze)
    else s.(holder := Caller)
  }

  /** A worker that lets go of the mutex. */
  function Release(s: State): State { s.(holder := Nobody, looping := s.looping + 1) }

  function Next(s: State, e: Event): State
    requires Enabled(s, e)
  {
    match e
    case Call(d) => TryPush(s, d)
    case Retry(d) => TryPush(s.(woken := s.woken - 1), d)
    case Block => s.(holder := Nobody, waiting := s.waiting + 1)
    case Delay(d) => if s.stop then s else WakeWorker(s.(timers := s.timers + 1), d)
    case Enter(due) => s.(holder := Chooser(due), looping := s.looping - 1)
    case Pop => Release(WakeCaller(s.(size := s.size - 1)))
    case PopTimer => Release(s.(timers := s.timers - 1))
    case Doze => s.(holder := Nobody, dozing := s.dozing + 1)
    case FallOut => s.(holder := ForGood, looping := s.looping + 1)
    case Look => s.(holder := Sleeper, looping := s.looping - 1)
    case Sleep => s.(holder := Nobody, asleep := s.asleep + 1)
    case Timeout => s.(dozing := s.dozing - 1, looping := s.looping + 1)
    case Leave => s.(looping := s.looping - 1, leaving := s.leaving + 1)
    case DrainReady => s.(size := s.size - 1)
    case DrainTimer => s.(timers := s.timers - 1)
    case Return => s.(leaving := s.leaving - 1, returned := s.returned + 1)
    case Clear => WakeCaller(s.(size := 0, timers := 0))
    case SetStop => s.(stop := true)
    case SignalWorker(d) => WakeWorker(s, d)
    case SignalCaller => WakeCaller(s)
    case SignalAllWorkers => s.(looping := s.looping + s.asleep + s.dozing, asleep := 0, dozing := 0)
    case SignalAllCallers => s.(woken := s.woken + s.waiting, waiting := 0)
    case SpuriousCaller => WakeCaller(s)
    case SpuriousWorker(d) => WakeWorker(s, d)
  }

  ghost predicate IsRun(s: State, es: seq<Event>)
    decreases |es|
  {
    es == [] || (Enabled(s, es[0]) && IsRun(Next(s, es[0]), es[1..]))
  }

  ghost function After(s: State, es: seq<Event>): State
    requires IsRun(s, es)
    decreases |es|
  {
    if es == [] then s else After(Next(s, es[0]), es[1..])
  }

  // ----- while the scheduler runs

  function Holding(s: State): nat { if s.holder == Sleeper || s.holder.Chooser? then 1 else 0 }

  function Workers(s: State): nat { s.looping + s.asleep + s.dozing + s.leaving + s.returned + Holding(s) }

  predicate Inv(s: State) { Held(s) && NobodyForgotten(s) }

  /** What the holder of the mutex has seen still holds. */
  predicate Held(s: State) {
    && s.full >= 1 && s.size <= s.full
    && (s.holder == Caller ==> s.size >= s.full)
    && (s.holder == Sleeper ==> s.size == 0 && s.timers == 0)
    && (s.holder.Chooser? ==> s.size + s.timers > 0 && (s.holder.due ==> s.timers > 0))
    && (s.holder == ForGood ==> s.stop)
    && (!s.stop ==> s.leaving == 0 && s.returned == 0)
  }

  /** Until the stop, who waits has somebody to wait for. */
  predicate NobodyForgotten(s: State) {
    && (!s.stop && s.waiting > 0 ==> s.size > 0 || s.woken > 0)
    && (!s.stop && s.size > 0 ==> s.looping + Holding(s) > 0 || Workers(s) == 0)
    && (!s.stop && s.timers > 0 ==> s.looping + s.dozing + Holding(s) > 0 || Workers(s) == 0)
  }

  lemma StepKeepsHeld(s: State, e: Event)
    requires Held(s) && Enabled(s, e)
    ensures Held(Next(s, e)) && (s.stop ==> Next(s, e).stop) && Next(s, e).full == s.full
  {
  }

  lemma StepKeepsWorkers(s: State, e: Event)
    requires Enabled(s, e)
    ensures Workers(Next(s, e)) == Workers(s)
  {
    hide WakeWorker, WakeCaller;
    SignalKeepsWorkers(s);
    match e
    case Call(d) => PushKeepsWorkers(s, d);
    case Retry(d) => PushKeepsWorkers(s.(woken := s.woken - 1), d);
    case Delay(d) => SignalKeepsWorkers(s.(timers := s.timers + 1));
    case Pop => SignalKeepsWorkers(s.(size := s.size - 1));
    case Clear => SignalKeepsWorkers(s.(size := 0, timers := 0));
    case _ =>
  }

  lemma SignalKeepsWorkers(s: State)
    ensures Workers(WakeCaller(s)) == Workers(s) && WakeCaller(s).holder == s.holder
    ensures forall d :: Workers(WakeWorker(s, d)) == Workers(s) && WakeWorker(s, d).holder == s.holder
  {
  }

  lemma PushKeepsWorkers(s: State, doze: bool)
    requires s.holder == Nobody
    ensures Workers(TryPush(s, doze)) == Workers(s)
  {
    hide WakeWorker;
    SignalKeepsWorkers(s.(size := s.size + 1));
  }

  lemma StepForgetsNobody(s: State, e: Event)
    requires Inv(s) && Enabled(s, e)
    ensures NobodyForgotten(Next(s, e))
  {
    hide Workers;
    StepKeepsWorkers(s, e);
    NoWorkers(s);
  }

  lemma NoWorkers(s: State)
    ensures Workers(s) == s.looping + s.asleep + s.dozing + s.leaving + s.returned + Holding(s)
  {
  }

  lemma StepKeepsInv(s: State, e: Event)
    requires Inv(s) && Enabled(s, e)
    ensures Inv(Next(s, e)) && Workers(Next(s, e)) == Workers(s) && (s.stop ==> Next(s, e).stop)
    ensures Next(s, e).full == s.full
  {
    hide Enabled, Next, Held, NobodyForgotten, Workers;
    StepKeepsHeld(s, e);
    StepKeepsWorkers(s, e);
    StepForgetsNobody(s, e);
  }

  lemma {:induction false} RunKeepsInv(s: State, es: seq<Event>)
    requires Inv(s) && IsRun(s, es)
    ensures Inv(After(s, es)) && Workers(After(s, es)) == Workers(s) && (s.stop ==> After(s, es).stop)
    ensures After(s, es).full == s.full
    decreases |es|
  {
    hide Inv, Enabled, Next, Workers;
    if es != [] {
      StepKeepsInv(s, es[0]);
      RunKeepsInv(Next(s, es[0]), es[1..]);
    }
  }

  /** Until it is stopped, in every run: not all workers wait while a task is ready, not all wait without a deadline
      while there is a timer, and as long as callers wait, a worker or a woken caller can take a step that leads to
      room or to another signal. */
  lemma NoLostWakeupWhileRunning(full: nat, drains: bool, workers: nat, es: seq<Event>)
    requires full >= 1 && workers >= 1 && IsRun(Init(full, drains, workers), es)
    requires !After(Init(full, drains, workers), es).stop
    ensures var s := After(Init(full, drains, workers), es);
            && s.size <= full
            && (s.size > 0 ==> s.asleep + s.dozing < workers)
            && (s.timers > 0 ==> s.asleep < workers)
            && (s.waiting > 0 ==> s.size > 0 || s.woken > 0)
            && (s.waiting > 0 ==>
                  || Enabled(s, Block) || Enabled(s, Sleep) || Enabled(s, Retry(false))
                  || Enabled(s, Enter(false)) || Enabled(s, Pop) || Enabled(s, PopTimer) || Enabled(s, Doze))
  {
    RunKeepsInv(Init(full, drains, workers), es);
  }

  /** Nothing is accepted after the stop, and the tasks that are there are not lost but run or cleared. */
  lemma {:induction false} NothingAcceptedAfterStop(s: State, es: seq<Event>)
    requires s.stop && IsRun(s, es)
    ensures After(s, es).size <= s.size && After(s, es).timers <= s.timers
    ensures Clear !in es ==> s.size == After(s, es).size + Popped(es)
    ensures Clear !in es ==> s.timers == After(s, es).timers + TimersPopped(es)
    decreases |es|
  {
    if es != [] {
      StopStepAccepts(s, es[0]);
      assert es == [es[0]] + es[1..];
      hide Enabled, Next;
      NothingAcceptedAfterStop(Next(s, es[0]), es[1..]);
    }
  }

  function Popped(es: seq<Event>): nat {
    if es == [] then 0 else (if es[0] == Pop || es[0] == DrainReady then 1 else 0) + Popped(es[1..])
  }

  function TimersPopped(es: seq<Event>): nat {
    if es == [] then 0 else (if es[0] == PopTimer || es[0] == DrainTimer then 1 else 0) + TimersPopped(es[1..])
  }

  lemma StopStepAccepts(s: State, e: Event)
    requires s.stop && Enabled(s, e)
    ensures var t := Next(s, e);
            && t.stop && t.size <= s.size && t.timers <= s.timers
            && (e != Clear ==> s.size == t.size + Popped([e]) && s.timers == t.timers + TimersPopped([e]))
  {
  }

  // ----- callers, after stop

  function Sub(a: nat, b: nat): nat { if a <= b then 0 else a - b }

  /** What wakes one caller: a signal, a task popped before the drain, or nothing at all. */
  predicate WakesOne(e: Event) { e == SignalCaller || e == Pop || e == Clear || e == SpuriousCaller }

  function Wakes(es: seq<Event>): nat {
    if es == [] then 0 else (if WakesOne(es[0]) then 1 else 0) + Wakes(es[1..])
  }

  /** After stop nobody starts to wait but the caller that was about to. */
  lemma StoppedStep(s: State, e: Event)
    requires s.stop && Enabled(s, e)
    ensures var t := Next(s, e);
            && t.stop && (t.holder == Caller <==> s.holder == Caller && e != Block)
            && (t.holder == Sleeper <==> s.holder == Sleeper && e != Sleep)
            && t.waiting == (if e == Block then s.waiting + 1 else if e == SignalAllCallers then 0
                             else if WakesOne(e) then Sub(s.waiting, 1) else s.waiting)
            && t.asleep <= s.asleep + (if e == Sleep then 1 else 0)
  {
  }

  /** Each signal wakes one caller and the drain gives none: those left are those for which there was no signal. */
  lemma {:induction false} CallersLeft(s: State, es: seq<Event>)
    requires s.stop && IsRun(s, es) && Block !in es && SignalAllCallers !in es
    ensures After(s, es).waiting == Sub(s.waiting, Wakes(es))
    ensures After(s, es).stop && (After(s, es).holder == Caller <==> s.holder == Caller)
    decreases |es|
  {
    hide Enabled, Next;
    if es != [] {
      StoppedStep(s, es[0]);
      assert es[0] in es && forall e :: e in es[1..] ==> e in es;
      CallersLeft(Next(s, es[0]), es[1..]);
    }
  }

  /** Only a caller that was about to wait when the stop came starts to wait after it, and only once. */
  lemma {:induction false} NobodyBlocks(s: State, es: seq<Event>)
    requires s.stop && IsRun(s, es) && s.holder != Caller
    ensures Block !in es
    decreases |es|
  {
    hide Next;
    if es != [] {
      StoppedStep(s, es[0]);
      NobodyBlocks(Next(s, es[0]), es[1..]);
      assert es == [es[0]] + es[1..];
    }
  }

  lemma {:induction false} RunSplit(s: State, pre: seq<Event>, post: seq<Event>)
    requires IsRun(s, pre + post)
    ensures IsRun(s, pre) && IsRun(After(s, pre), post) && After(s, pre + post) == After(After(s, pre), post)
    decreases |pre|
  {
    hide Enabled, Next;
    if pre == [] {
      assert pre + post == post;
    } else {
      assert (pre + post)[1..] == pre[1..] + post;
      RunSplit(Next(s, pre[0]), pre[1..], post);
    }
  }

  /** A caller about to wait joins the others after the signals of pre, none of which reaches it. */
  lemma CallersLeftBehind(s: State, pre: seq<Event>, post: seq<Event>)
    requires s.stop && IsRun(s, pre + ([Block] + post)) && Block !in pre
    requires SignalAllCallers !in pre && SignalAllCallers !in post
    ensures After(s, pre + ([Block] + post)).waiting == Sub(Sub(s.waiting, Wakes(pre)) + 1, Wakes(post))
  {
    hide Next;
    var late := [Block] + post;
    RunSplit(s, pre, late);
    CallersLeft(s, pre);
    var t := After(s, pre);
    assert late[1..] == post;
    StoppedStep(t, Block);
    NobodyBlocks(Next(t, Block), post);
    CallersLeft(Next(t, Block), post);
  }

  /** One StopThread and no other wake-up, when no caller is about to wait: none is left waiting if and only if at most
      one waited. */
  lemma OneStopExactly(s: State, es: seq<Event>)
    requires s.holder != Caller && IsRun(s, [SetStop] + es) && Wakes(es) == 1 && SignalAllCallers !in es
    ensures After(s, [SetStop] + es).waiting == 0 <==> s.waiting <= 1
  {
    assert ([SetStop] + es)[1..] == es;
    hide Wakes;
    var t := Next(s, SetStop);
    NobodyBlocks(t, es);
    CallersLeft(t, es);
  }

  /** The same when a caller is about to wait: none is left if and only if none waited and the signal comes after that
      caller has started to wait. */
  lemma OneStopBehindExactly(s: State, pre: seq<Event>, post: seq<Event>)
    requires IsRun(s, [SetStop] + (pre + ([Block] + post))) && Block !in pre
    requires SignalAllCallers !in pre && SignalAllCallers !in post && Wakes(pre) + Wakes(post) == 1
    ensures After(s, [SetStop] + (pre + ([Block] + post))).waiting == 0 <==> s.waiting == 0 && Wakes(post) == 1
  {
    var es := pre + ([Block] + post);
    assert ([SetStop] + es)[1..] == es;
    hide Wakes;
    CallersLeftBehind(Next(s, SetStop), pre, post);
  }

  /** The stop of ThreadPool signals all callers: one is left waiting if and only if it was about to wait. */
  lemma StopAllCallersExactly(s: State, es: seq<Event>)
    requires s.stop && IsRun(s, [SignalAllCallers] + es) && Wakes(es) == 0 && SignalAllCallers !in es
    ensures After(s, [SignalAllCallers] + es).waiting == if s.holder == Caller && Block in es then 1 else 0
  {
    hide Enabled, Next;
    assert ([SignalAllCallers] + es)[1..] == es;
    StoppedStep(s, SignalAllCallers);
    CallersUnsignalled(Next(s, SignalAllCallers), es);
  }

  lemma {:induction false} CallersUnsignalled(s: State, es: seq<Event>)
    requires s.stop && IsRun(s, es) && Wakes(es) == 0 && SignalAllCallers !in es
    ensures After(s, es).waiting == s.waiting + if s.holder == Caller && Block in es then 1 else 0
    decreases |es|
  {
    hide Next;
    if es != [] {
      StoppedStep(s, es[0]);
      assert es[0] in es && forall e :: e in es[1..] ==> e in es;
      assert Block in es <==> es[0] == Block || Block in es[1..];
      CallersUnsignalled(Next(s, es[0]), es[1..]);
    }
  }

  // ----- workers, after stop

  predicate WakesWorkers(e: Event) { e == SignalAllWorkers || e.SignalWorker? || e.SpuriousWorker? }

  /** Without another signal, the workers asleep stay asleep, and the one about to sleep joins them. */
  lemma {:induction false} WorkersLeft(s: State, es: seq<Event>)
    requires s.stop && IsRun(s, es) && forall e :: e in es ==> !WakesWorkers(e)
    ensures After(s, es).asleep == s.asleep + if s.holder == Sleeper && Sleep in es then 1 else 0
    decreases |es|
  {
    if es != [] {
      UnsignalledStep(s, es[0]);
      assert es[0] in es && forall e :: e in es[1..] ==> e in es;
      assert Sleep in es <==> es[0] == Sleep || Sleep in es[1..];
      hide Enabled, Next;
      WorkersLeft(Next(s, es[0]), es[1..]);
    }
  }

  lemma UnsignalledStep(s: State, e: Event)
    requires s.stop && Enabled(s, e) && !WakesWorkers(e)
    ensures var t := Next(s, e);
            && t.stop && t.asleep == s.asleep + (if e == Sleep then 1 else 0)
            && (t.holder == Sleeper <==> s.holder == Sleeper && e != Sleep)
  {
  }

  /** The single worker of BGThread is left asleep if and only if it was about to sleep when its signal came. */
  lemma StopReachesWorkerExactly(s: State, d: bool, es: seq<Event>)
    requires Workers(s) == 1 && s.stop && IsRun(s, [SignalWorker(d)] + es) && forall e :: e in es ==> !WakesWorkers(e)
    ensures After(s, [SignalWorker(d)] + es).asleep > 0 <==> s.holder == Sleeper && Sleep in es
  {
    assert ([SignalWorker(d)] + es)[1..] == es;
    WorkersLeft(Next(s, SignalWorker(d)), es);
  }

  /** Of the workers of ThreadPool, one is left asleep if and only if it was about to sleep when all were signalled. */
  lemma StopAllReachesWorkersExactly(s: State, es: seq<Event>)
    requires s.stop && IsRun(s, [SignalAllWorkers] + es) && forall e :: e in es ==> !WakesWorkers(e)
    ensures After(s, [SignalAllWorkers] + es).asleep == if s.holder == Sleeper && Sleep in es then 1 else 0
  {
    assert ([SignalAllWorkers] + es)[1..] == es;
    WorkersLeft(Next(s, SignalAllWorkers), es);
  }

  // ----- the mutex

  /** What can happen while a worker chooses: everything that takes no mutex. */
  predicate Outside(e: Event) {
    || e == Timeout || e == Leave || e == Return || e == SetStop || e == SignalCaller || e == SpuriousCaller
    || e == SignalAllWorkers || e == SignalAllCallers || e.SignalWorker? || e.SpuriousWorker?
  }

  lemma OutsideStep(s: State, e: Event)
    requires Enabled(s, e) && s.holder.Chooser? && Outside(e)
    ensures var t := Next(s, e);
            t.holder == s.holder && t.size == s.size && t.timers == s.timers && t.stop == (s.stop || e == SetStop)
  {
  }

  /** A worker that found something to do leaves the mutex locked if and only if no task is ready, its timer is not due,
      and the stop flag was set since it looked. Otherwise it pops, or waits for the deadline. */
  lemma LeftLockedExactly(s: State, es: seq<Event>)
    requires Inv(s) && s.holder.Chooser? && !s.stop && IsRun(s, es) && forall e :: e in es ==> Outside(e)
    ensures var t := After(s, es);
            && (Enabled(t, FallOut) <==> s.size == 0 && !s.holder.due && SetStop in es)
            && (Enabled(t, FallOut) || Enabled(t, Pop) || Enabled(t, PopTimer) || Enabled(t, Doze))
  {
    ChooserKeeps(s, es);
  }

  lemma {:induction false} ChooserKeeps(s: State, es: seq<Event>)
    requires s.holder.Chooser? && IsRun(s, es) && forall e :: e in es ==> Outside(e)
    ensures var t := After(s, es);
            t.holder == s.holder && t.size == s.size && t.timers == s.timers && (t.stop <==> s.stop || SetStop in es)
    decreases |es|
  {
    hide Enabled, Next;
    if es != [] {
      assert es[0] in es && forall e :: e in es[1..] ==> e in es;
      assert SetStop in es <==> es[0] == SetStop || SetStop in es[1..];
      OutsideStep(s, es[0]);
      ChooserKeeps(Next(s, es[0]), es[1..]);
    }
  }

  /** Then it stays locked: no call returns, no woken caller looks again, and a worker that drains never returns. */
  lemma {:induction false} LockedForGood(s: State, es: seq<Event>)
    requires s.holder == ForGood && IsRun(s, es)
    ensures var t := After(s, es);
            t.holder == ForGood && t.woken >= s.woken && (s.drains ==> t.drains && t.returned == s.returned)
    decreases |es|
  {
    if es != [] {
      LockedStep(s, es[0]);
      hide Enabled, Next;
      LockedForGood(Next(s, es[0]), es[1..]);
    }
  }

  lemma LockedStep(s: State, e: Event)
    requires s.holder == ForGood && Enabled(s, e)
    ensures var t := Next(s, e);
            && t.holder == ForGood && t.woken >= s.woken && t.drains == s.drains
            && (s.drains ==> t.returned == s.returned)
  {
  }

  // ----- runs

  ghost predicate Reaches(s: State, t: State) { exists es :: IsRun(s, es) && After(s, es) == t }

  lemma Here(s: State)
    ensures Reaches(s, s)
  {
    assert IsRun(s, []) && After(s, []) == s;
  }

  lemma Via(s: State, e: Event, t: State, goal: State)
    requires Enabled(s, e) && Next(s, e) == t && Reaches(t, goal)
    ensures Reaches(s, goal)
  {
    hide Next, Enabled;
    var es :| IsRun(t, es) && After(t, es) == goal;
    var run := [e] + es;
    assert run[1..] == es;
    assert IsRun(s, run) && After(s, run) == goal;
  }

  /** After stop the woken callers return one by one, whatever the queue, unless the mutex is held. */
  lemma {:induction false} WokenReturn(s: State)
    requires s.stop && Free(s)
    ensures Reaches(s, s.(woken := 0))
    decreases s.woken
  {
    if s.woken == 0 {
      Here(s);
    } else {
      var t := s.(woken := s.woken - 1);
      WokenReturn(t);
      Via(s, Retry(false), t, s.(woken := 0));
    }
  }
}

/** Runs in which a shutdown leaves somebody behind. */
module LostWakeups {
  import opened Wakeups

  /** The worker looks, StopThread runs from start to end, the worker starts to wait: the signal is lost. */
  lemma WorkerLeftAsleep(full: nat)
    ensures Reaches(Init(full, true, 1), State(full, true, 0, 0, true, Nobody, 0, 0, 0, 1, 0, 0, 0))
  {
    hide Reaches, IsRun, After;
    var s1 := State(full, true, 0, 0, false, Sleeper, 0, 0, 0, 0, 0, 0, 0);
    var s2 := s1.(stop := true);
    var goal := State(full, true, 0, 0, true, Nobody, 0, 0, 0, 1, 0, 0, 0);
    Here(goal);
    Via(s2, Sleep, goal, goal);
    Via(s2, SignalCaller, s2, goal);
    Via(s2, SignalWorker(false), s2, goal);
    Via(s1, SetStop, s2, goal);
    Via(Init(full, true, 1), Look, s1, goal);
  }

  /** The same in a pool of two, one of them asleep: all are signalled, one returns, the other is left asleep. */
  lemma PoolWorkerLeftAsleep(full: nat)
    ensures Reaches(Init(full, false, 2), State(full, false, 0, 0, true, Nobody, 0, 0, 0, 1, 0, 0, 1))
  {
    hide Reaches, IsRun, After;
    var s1 := State(full, false, 0, 0, false, Sleeper, 0, 0, 1, 0, 0, 0, 0);
    var s2 := State(full, false, 0, 0, false, Nobody, 0, 0, 1, 1, 0, 0, 0);
    var s3 := State(full, false, 0, 0, false, Sleeper, 0, 0, 0, 1, 0, 0, 0);
    var s4 := s3.(stop := true);
    var s5 := s4.(looping := 1, asleep := 0);
    PoolShutdown(s5);
    var goal := State(full, false, 0, 0, true, Nobody, 0, 0, 0, 1, 0, 0, 1);
    Via(s4, SignalAllWorkers, s5, goal);
    Via(s3, SetStop, s4, goal);
    Via(s2, Look, s3, goal);
    Via(s1, Sleep, s2, goal);
    Via(Init(full, false, 2), Look, s1, goal);
  }

  lemma PoolShutdown(s: State)
    requires s == State(s.full, false, 0, 0, true, Sleeper, 0, 0, 1, 0, 0, 0, 0)
    ensures Reaches(s, State(s.full, false, 0, 0, true, Nobody, 0, 0, 0, 1, 0, 0, 1))
  {
    hide Reaches, IsRun, After;
    var s1 := State(s.full, false, 0, 0, true, Nobody, 0, 0, 1, 1, 0, 0, 0);
    var s2 := State(s.full, false, 0, 0, true, Nobody, 0, 0, 0, 1, 0, 1, 0);
    var goal := State(s.full, false, 0, 0, true, Nobody, 0, 0, 0, 1, 0, 0, 1);
    Here(goal);
    Via(s2, Return, goal, goal);
    Via(s1, Leave, s2, goal);
    Via(s, Sleep, s1, goal);
  }

  /** At a limit of one a caller finds the queue full, StopThread runs from start to end, the caller starts to wait:
      the worker drains and returns, and the caller is left although nobody waited when the stop came. */
  lemma CallerLeftWaiting()
    ensures Reaches(Init(1, true, 1), State(1, true, 0, 0, true, Nobody, 1, 0, 0, 0, 0, 0, 1))
  {
    hide Reaches, IsRun, After;
    var s1 := State(1, true, 1, 0, false, Nobody, 0, 0, 1, 0, 0, 0, 0);
    var s2 := s1.(holder := Caller);
    var goal := State(1, true, 0, 0, true, Nobody, 1, 0, 0, 0, 0, 0, 1);
    StopBeforeBlock(s2);
    Via(s1, Call(false), s2, goal);
    Via(Init(1, true, 1), Call(false), s1, goal);
  }

  lemma StopBeforeBlock(s: State)
    requires s == State(1, true, 1, 0, false, Caller, 0, 0, 1, 0, 0, 0, 0)
    ensures Reaches(s, State(1, true, 0, 0, true, Nobody, 1, 0, 0, 0, 0, 0, 1))
  {
    hide Reaches, IsRun, After;
    var s1 := s.(stop := true);
    var s2 := s1.(holder := Nobody, waiting := 1);
    var goal := State(1, true, 0, 0, true, Nobody, 1, 0, 0, 0, 0, 0, 1);
    DrainAndReturn(s2);
    Via(s1, Block, s2, goal);
    Via(s1, SignalCaller, s1, goal);
    Via(s1, SignalWorker(false), s1, goal);
    Via(s, SetStop, s1, goal);
  }

  lemma DrainAndReturn(s: State)
    requires s == State(1, true, 1, 0, true, Nobody, 1, 0, 1, 0, 0, 0, 0)
    ensures Reaches(s, s.(size := 0, looping := 0, returned := 1))
  {
    hide Reaches, Enabled, Next;
    var s1 := s.(looping := 0, leaving := 1);
    var s2 := s1.(size := 0);
    var goal := s.(size := 0, looping := 0, returned := 1);
    Here(goal);
    Drains(s1);
    Leaves(s);
    Via(s2, Return, goal, goal);
    Via(s1, DrainReady, s2, goal);
    Via(s, Leave, s1, goal);
  }

  lemma Leaves(s: State)
    requires s.looping == 1 && s.stop
    ensures Enabled(s, Leave) && Next(s, Leave) == s.(looping := 0, leaving := s.leaving + 1)
  {
  }

  lemma Drains(s: State)
    requires s.holder == Nobody && s.leaving == 1 && s.size == 1 && s.returned == 0 && s.drains
    ensures Enabled(s, DrainReady) && Next(s, DrainReady) == s.(size := 0)
    ensures Enabled(s.(size := 0), Return)
    ensures Next(s.(size := 0), Return) == s.(size := 0, leaving := 0, returned := 1)
  {
  }

  /** Three calls at a limit of one leave two callers waiting; StopThread wakes one, which returns, the worker drains
      and returns, and the other still waits. */
  lemma SecondCallerLeft()
    ensures Reaches(Init(1, true, 1), State(1, true, 0, 0, true, Nobody, 1, 0, 0, 0, 0, 0, 1))
  {
    hide Reaches, IsRun, After;
    var s1 := State(1, true, 1, 0, false, Nobody, 0, 0, 1, 0, 0, 0, 0);
    var s2 := s1.(holder := Caller);
    var s3 := s1.(waiting := 1);
    var s4 := s3.(holder := Caller);
    var s5 := s1.(waiting := 2);
    var goal := State(1, true, 0, 0, true, Nobody, 1, 0, 0, 0, 0, 0, 1);
    ShutdownOfTwo(s5);
    Via(s4, Block, s5, goal);
    Via(s3, Call(false), s4, goal);
    Via(s2, Block, s3, goal);
    Via(s1, Call(false), s2, goal);
    Via(Init(1, true, 1), Call(false), s1, goal);
  }

  lemma ShutdownOfTwo(s: State)
    requires s == State(1, true, 1, 0, false, Nobody, 2, 0, 1, 0, 0, 0, 0)
    ensures Reaches(s, State(1, true, 0, 0, true, Nobody, 1, 0, 0, 0, 0, 0, 1))
  {
    hide Reaches, IsRun, After;
    var s1 := State(1, true, 1, 0, true, Nobody, 2, 0, 1, 0, 0, 0, 0);
    var s2 := State(1, true, 1, 0, true, Nobody, 1, 1, 1, 0, 0, 0, 0);
    var s3 := State(1, true, 1, 0, true, Nobody, 1, 0, 1, 0, 0, 0, 0);
    var goal := State(1, true, 0, 0, true, Nobody, 1, 0, 0, 0, 0, 0, 1);
    DrainAndReturn(s3);
    Via(s2, Retry(false), s3, goal);
    Via(s1, SignalCaller, s2, goal);
    Via(s1, SignalWorker(false), s1, goal);
    Via(s, SetStop, s1, goal);
  }

  /** A timer that is not due, no ready task, and the stop flag set while the worker looks: the mutex stays locked. */
  lemma MutexLeftLocked(full: nat)
    ensures Reaches(Init(full, true, 1), State(full, true, 0, 1, true, ForGood, 0, 0, 1, 0, 0, 0, 0))
  {
    hide Reaches, IsRun, After;
    var s1 := State(full, true, 0, 1, false, Nobody, 0, 0, 1, 0, 0, 0, 0);
    var s2 := State(full, true, 0, 1, false, Chooser(false), 0, 0, 0, 0, 0, 0, 0);
    var s3 := s2.(stop := true);
    var goal := State(full, true, 0, 1, true, ForGood, 0, 0, 1, 0, 0, 0, 0);
    Here(goal);
    Via(s3, FallOut, goal, goal);
    Via(s2, SetStop, s3, goal);
    Via(s1, Enter(false), s2, goal);
    Via(Init(full, true, 1), Delay(false), s1, goal);
  }
}
