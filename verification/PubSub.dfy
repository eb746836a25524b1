/**
 The publish handshake: any number of publishers hand a channel and a message to the loop thread
 through one shared slot and a pipe byte, and wait for the number of receivers.

 The slot is written and read without a lock of its own, so every access is a step of its own.
 */
module PubSub {
  import opened ByteStrings

  type Publisher = nat

  /** Where a call of Publish is. */
  datatype Pc = Start | Locked | ChannelSet | MessageSet | Waiting | Took(receivers: int)

  datatype Call = Call(channel: Bytes, message: Bytes, pc: Pc)

  /** Where the loop is in the trigger branch of ThreadMain. */
  datatype LoopPc =
    | Idle
    | Triggered
    | HasChannel(channel: Bytes)
    | HasMessage(channel: Bytes, message: Bytes)
    | ClearedChannel(channel: Bytes, message: Bytes)
    | Cleared(channel: Bytes, message: Bytes)
    | Counted(channel: Bytes, message: Bytes, receivers: int)

  /** One delivery to subscribers and how many took it. */
  datatype Delivery = Delivery(channel: Bytes, message: Bytes, receivers: int)

  /** holder holds pub_mutex_; delivered and returned are what the loop delivered and what the calls
      of Publish returned, in order. */
  datatype State = State(calls: map<Publisher, Call>, holder: Option<Publisher>,
                         channel: Bytes, message: Bytes, pipe: nat, receivers: int, loop: LoopPc,
                         delivered: seq<Delivery>, returned: seq<Delivery>)

  datatype Event =
    | Enter(p: Publisher, channel: Bytes, message: Bytes)
    | Lock(p: Publisher)
    | SetChannel(p: Publisher)
    | SetMessage(p: Publisher)
    | Trigger(p: Publisher)
    | Take(p: Publisher)
    | Return(p: Publisher)
    | ReadTrigger
    | CopyChannel
    | CopyMessage
    | ClearChannel
    | ClearMessage
    | Deliver(receivers: nat)
    | Post

  function Init(): State { State(map[], None, [], [], 0, -1, Idle, [], []) }

  predicate AtPc(s: State, p: Publisher, pc: Pc) { p in s.calls && s.calls[p].pc == pc }

  predicate Enabled(s: State, e: Event) {
    match e
    case Enter(p, _, _) => p !in s.calls
    case Lock(p) => AtPc(s, p, Start) && s.holder.None?
    case SetChannel(p) => AtPc(s, p, Locked)
    case SetMessage(p) => AtPc(s, p, ChannelSet)
    case Trigger(p) => AtPc(s, p, MessageSet)
    case Take(p) => AtPc(s, p, Waiting) && s.receivers != -1
    case Return(p) => p in s.calls && s.calls[p].pc.Took?
    case ReadTrigger => s.loop == Idle && s.pipe > 0
    case CopyChannel => s.loop == Triggered
    case CopyMessage => s.loop.HasChannel?
    case ClearChannel => s.loop.HasMessage?
    case ClearMessage => s.loop.ClearedChannel?
    case Deliver(_) => s.loop.Cleared?
    case Post => s.loop.Counted?
  }

  function At(s: State, p: Publisher, pc: Pc): map<Publisher, Call>
    requires p in s.calls
  {
    s.calls[p := s.calls[p].(pc := pc)]
  }

  function Apply(s: State, e: Event): State
    requires Enabled(s, e)
  {
    match e
    case Enter(p, c, m) => s.(calls := s.calls[p := Call(c, m, Start)])
    case Lock(p) => s.(calls := At(s, p, Locked), holder := Some(p))
    case SetChannel(p) => s.(calls := At(s, p, ChannelSet), channel := s.calls[p].channel)
    case SetMessage(p) => s.(calls := At(s, p, MessageSet), message := s.calls[p].message)
    case Trigger(p) => s.(calls := At(s, p, Waiting), pipe := s.pipe + 1)
    case Take(p) => s.(calls := At(s, p, Took(s.receivers)), receivers := -1)
    case Return(p) =>
      var c := s.calls[p];
      s.(calls := s.calls - {p}, holder := None,
         returned := s.returned + [Delivery(c.channel, c.message, c.pc.receivers)])
    case ReadTrigger => s.(pipe := s.pipe - 1, loop := Triggered)
    case CopyChannel => s.(loop := HasChannel(s.channel))
    case CopyMessage => s.(loop := HasMessage(s.loop.channel, s.message))
    case ClearChannel => s.(channel := [], loop := ClearedChannel(s.loop.channel, s.loop.message))
    case ClearMessage => s.(message := [], loop := Cleared(s.loop.channel, s.loop.message))
    case Deliver(n) =>
      s.(loop := Counted(s.loop.channel, s.loop.message, n),
         delivered := s.delivered + [Delivery(s.loop.channel, s.loop.message, n)])
    case Post => s.(receivers := s.loop.receivers, loop := Idle)
  }

  predicate IsRun(s: State, events: seq<Event>)
    decreases |events|
  {
    events == [] || (Enabled(s, events[0]) && IsRun(Apply(s, events[0]), events[1..]))
  }

  function After(s: State, events: seq<Event>): State
    requires IsRun(s, events)
    decreases |events|
  {
    if events == [] then s else After(Apply(s, events[0]), events[1..])
  }

  // ----- the invariant

  /** Nothing is under way: no trigger, no service, no answer. */
  predicate Quiet(s: State) { s.pipe == 0 && s.receivers == -1 && s.loop == Idle }

  predicate Settled(s: State) { s.delivered == s.returned }

  /** The request c is under way, at exactly one of three places. */
  predicate UnderWay(s: State, c: Call) {
    if s.pipe > 0 then
      s.pipe == 1 && s.receivers == -1 && s.loop == Idle && Settled(s) && s.channel == c.channel
          && s.message == c.message
    else if s.receivers != -1 then
      s.loop == Idle && s.receivers >= 0 && s.delivered == s.returned + [Delivery(c.channel, c.message, s.receivers)]
    else
      match s.loop
      case Idle => false
      case Triggered => Settled(s) && s.channel == c.channel && s.message == c.message
      case HasChannel(ch) => Settled(s) && ch == c.channel && s.message == c.message
      case HasMessage(ch, m) => Settled(s) && ch == c.channel && m == c.message
      case ClearedChannel(ch, m) => Settled(s) && ch == c.channel && m == c.message
      case Cleared(ch, m) => Settled(s) && ch == c.channel && m == c.message
      case Counted(ch, m, n) => n >= 0 && s.delivered == s.returned + [Delivery(c.channel, c.message, n)]
  }

  predicate HolderOk(s: State, c: Call) {
    match c.pc
    case Start => false
    case Locked => Quiet(s) && Settled(s)
    case ChannelSet => Quiet(s) && Settled(s) && s.channel == c.channel
    case MessageSet => Quiet(s) && Settled(s) && s.channel == c.channel && s.message == c.message
    case Waiting => UnderWay(s, c)
    case Took(n) => Quiet(s) && s.delivered == s.returned + [Delivery(c.channel, c.message, n)]
  }

  predicate Inv(s: State) {
    && (forall p :: p in s.calls && s.holder != Some(p) ==> s.calls[p].pc == Start)
    && match s.holder
       case None => Quiet(s) && Settled(s)
       case Some(h) => h in s.calls && HolderOk(s, s.calls[h])
  }

  lemma PublisherStepKeepsInv(s: State, e: Event)
    requires Inv(s) && Enabled(s, e)
    requires e.Enter? || e.Lock? || e.SetChannel? || e.SetMessage? || e.Trigger? || e.Take? || e.Return?
    ensures Inv(Apply(s, e))
  {
    assert !e.Enter? && !e.Lock? ==> s.holder == Some(e.p);
  }

  lemma LoopStepKeepsInv(s: State, e: Event)
    requires Inv(s) && Enabled(s, e)
    requires !(e.Enter? || e.Lock? || e.SetChannel? || e.SetMessage? || e.Trigger? || e.Take? || e.Return?)
    ensures Inv(Apply(s, e))
  {
    assert s.holder.Some?;
  }

  lemma StepKeepsInv(s: State, e: Event)
    requires Inv(s) && Enabled(s, e)
    ensures Inv(Apply(s, e))
  {
    hide Enabled, Apply, Inv;
    if e.Enter? || e.Lock? || e.SetChannel? || e.SetMessage? || e.Trigger? || e.Take? || e.Return? {
      PublisherStepKeepsInv(s, e);
    } else {
      LoopStepKeepsInv(s, e);
    }
  }

  lemma {:induction false} RunKeepsInv(s: State, events: seq<Event>)
    requires Inv(s) && IsRun(s, events)
    ensures Inv(After(s, events))
    decreases |events|
  {
    hide Enabled, Apply, Inv;
    if events != [] {
      StepKeepsInv(s, events[0]);
      RunKeepsInv(Apply(s, events[0]), events[1..]);
    }
  }

  // ----- the theorems

  /** Over every interleaving of any number of publishers, the k-th call of Publish to return, returns
      the count of the k-th delivery, which was of its own channel and message; at most one delivery is
      ahead of the returns. */
  lemma PublishReturnsItsOwnCount(events: seq<Event>)
    requires IsRun(Init(), events)
    ensures var t := After(Init(), events);
            t.returned <= t.delivered && |t.delivered| <= |t.returned| + 1
  {
    RunKeepsInv(Init(), events);
  }

  // ----- whose publish it is

  /** What a call of Publish was given. */
  datatype Request = Request(channel: Bytes, message: Bytes)

  /** What p was given when it last called Publish. */
  function AskedBy(events: seq<Event>, p: Publisher): Option<Request>
    decreases |events|
  {
    if events == [] then None
    else
      var e := events[|events| - 1];
      if e.Enter? && e.p == p then Some(Request(e.channel, e.message)) else AskedBy(events[..|events| - 1], p)
  }

  /** What the calls were given that returned, in the order they returned. */
  function AskedByReturned(events: seq<Event>): seq<Option<Request>>
    decreases |events|
  {
    if events == [] then []
    else
      var n := |events| - 1;
      AskedByReturned(events[..n]) + if events[n].Return? then [AskedBy(events[..n], events[n].p)] else []
  }

  /** How many subscribers took each delivery. */
  function Taken(events: seq<Event>): seq<int>
    decreases |events|
  {
    if events == [] then []
    else Taken(events[..|events| - 1]) + if events[|events| - 1].Deliver? then [events[|events| - 1].receivers] else []
  }

  predicate IsOf(d: Delivery, r: Option<Request>) {
    r.Some? && d.channel == r.value.channel && d.message == r.value.message
  }

  /** What the state holds of the calls is what they were given. */
  predicate Kept(s: State, events: seq<Event>) {
    && (forall p :: p in s.calls ==> AskedBy(events, p) == Some(Request(s.calls[p].channel, s.calls[p].message)))
    && |s.returned| == |AskedByReturned(events)|
    && (forall k :: 0 <= k < |s.returned| ==> IsOf(s.returned[k], AskedByReturned(events)[k]))
    && |s.delivered| == |Taken(events)|
    && (forall k :: 0 <= k < |s.delivered| ==> s.delivered[k].receivers == Taken(events)[k])
  }

  lemma StepKeepsAsked(s: State, events: seq<Event>, e: Event)
    requires Kept(s, events) && Enabled(s, e)
    ensures Kept(Apply(s, e), events + [e])
  {
    assert (events + [e])[..|events|] == events;
  }

  lemma {:induction false} RunSnoc(s: State, events: seq<Event>)
    requires IsRun(s, events) && events != []
    ensures var n := |events| - 1;
            IsRun(s, events[..n]) && Enabled(After(s, events[..n]), events[n])
            && After(s, events) == Apply(After(s, events[..n]), events[n])
    decreases |events|
  {
    hide Enabled, Apply;
    if |events| > 1 {
      RunSnoc(Apply(s, events[0]), events[1..]);
      assert events[1..][..|events| - 2] == events[..|events| - 1][1..];
    }
  }

  lemma {:induction false} RunKeepsAsked(events: seq<Event>)
    requires IsRun(Init(), events)
    ensures Kept(After(Init(), events), events)
    decreases |events|
  {
    if events != [] {
      hide Enabled, Apply, Kept;
      var n := |events| - 1;
      RunSnoc(Init(), events);
      RunKeepsAsked(events[..n]);
      StepKeepsAsked(After(Init(), events[..n]), events[..n], events[n]);
      assert events[..n] + [events[n]] == events;
    }
  }

  /** Over every interleaving, the k-th call to return gets the count of the k-th delivery, the channel and the message
      delivered are those that very call was given, and the count is what the subscribers of that delivery took. */
  lemma PublishDeliversWhatWasAsked(events: seq<Event>)
    requires IsRun(Init(), events)
    ensures var t := After(Init(), events);
            && |AskedByReturned(events)| == |t.returned| <= |t.delivered| == |Taken(events)|
            && forall k :: 0 <= k < |t.returned| ==>
                 && IsOf(t.delivered[k], AskedByReturned(events)[k])
                 && t.returned[k].receivers == t.delivered[k].receivers == Taken(events)[k]
  {
    RunKeepsAsked(events);
    PublishReturnsItsOwnCount(events);
  }

  /** The number of publishes under way in the pipe, in the loop, or answered. */
  function Tokens(s: State): nat {
    s.pipe + (if s.loop == Idle then 0 else 1) + (if s.receivers == -1 then 0 else 1)
  }

  /** At most one of {trigger byte in the pipe, loop serving it, receivers_ set} holds, and only while
      the holder of pub_mutex_ waits for it; all other calls wait for the mutex. */
  lemma OnePublishAtATime(events: seq<Event>)
    requires IsRun(Init(), events)
    ensures var t := After(Init(), events);
            && Tokens(t) <= 1
            && (Tokens(t) == 1 <==> t.holder.Some? && AtPc(t, t.holder.value, Waiting))
            && forall p :: p in t.calls && t.holder != Some(p) ==> t.calls[p].pc == Start
  {
    RunKeepsInv(Init(), events);
  }

  /** The handshake cannot get stuck: in every reachable state with a call inside Publish, the holder
      or the loop can take a step, or the mutex is free to take. */
  lemma PublishNeverStuck(events: seq<Event>, p: Publisher)
    requires IsRun(Init(), events) && p in After(Init(), events).calls
    ensures var t := After(Init(), events);
            exists e :: Enabled(t, e) && !e.Enter?
  {
    RunKeepsInv(Init(), events);
    var t := After(Init(), events);
    match t.holder
    case None => assert Enabled(t, Lock(p));
    case Some(h) =>
      match t.calls[h].pc
      case Locked => assert Enabled(t, SetChannel(h));
      case ChannelSet => assert Enabled(t, SetMessage(h));
      case MessageSet => assert Enabled(t, Trigger(h));
      case Took(_) => assert Enabled(t, Return(h));
      case Waiting => AnswerIsNear(t, h);
  }

  /** While the holder waits, the loop can go on, or the answer is there. */
  lemma AnswerIsNear(t: State, h: Publisher)
    requires Inv(t) && t.holder == Some(h) && AtPc(t, h, Waiting)
    ensures exists e :: Enabled(t, e) && !e.Enter?
  {
    if t.pipe > 0 {
      assert Enabled(t, ReadTrigger);
    } else if t.receivers != -1 {
      assert Enabled(t, Take(h));
    } else {
      match t.loop
      case Triggered => assert Enabled(t, CopyChannel);
      case HasChannel(_) => assert Enabled(t, CopyMessage);
      case HasMessage(_, _) => assert Enabled(t, ClearChannel);
      case ClearedChannel(_, _) => assert Enabled(t, ClearMessage);
      case Cleared(_, _) => assert Enabled(t, Deliver(0));
      case Counted(_, _, _) => assert Enabled(t, Post);
    }
  }

  /** How many steps the holder of the mutex and the loop still have to take until the holder returns. */
  function Rank(s: State): nat {
    match s.holder
    case None => 0
    case Some(h) =>
      if h !in s.calls then 0
      else match s.calls[h].pc
        case Start => 0
        case Locked => 12
        case ChannelSet => 11
        case MessageSet => 10
        case Took(_) => 1
        case Waiting =>
          if s.pipe > 0 then 9
          else if s.receivers != -1 then 2
          else match s.loop
            case Idle => 0
            case Triggered => 8
            case HasChannel(_) => 7
            case HasMessage(_, _) => 6
            case ClearedChannel(_, _) => 5
            case Cleared(_, _) => 4
            case Counted(_, _, _) => 3
  }

  /** The steps of a run that are not new calls. */
  function Work(events: seq<Event>): nat {
    if events == [] then 0 else (if events[0].Enter? then 0 else 1) + Work(events[1..])
  }

  /** While the mutex is held, every step but a new call brings the holder one step nearer to its return. */
  lemma StepLowersRank(s: State, e: Event)
    requires Inv(s) && s.holder.Some? && Enabled(s, e)
    ensures e.Enter? ==> Apply(s, e).holder == s.holder && Rank(Apply(s, e)) == Rank(s)
    ensures !e.Enter? && e != Return(s.holder.value) ==>
              Apply(s, e).holder == s.holder && Rank(Apply(s, e)) + 1 == Rank(s)
    ensures e == Return(s.holder.value) ==> Rank(s) == 1
  {
    var h := s.holder.value;
    assert HolderOk(s, s.calls[h]);
    assert e.Lock? ==> false;
  }

  lemma {:induction false} RunLowersRank(s: State, events: seq<Event>)
    requires Inv(s) && s.holder.Some? && IsRun(s, events) && Return(s.holder.value) !in events
    ensures After(s, events).holder == s.holder && Rank(After(s, events)) + Work(events) == Rank(s)
    decreases |events|
  {
    if events != [] {
      var e := events[0];
      assert e in events && forall x :: x in events[1..] ==> x in events;
      StepLowersRank(s, e);
      StepKeepsInv(s, e);
      hide Enabled, Apply, Inv, Rank;
      RunLowersRank(Apply(s, e), events[1..]);
    }
  }

  /** Once a call holds the mutex it returns after at most twelve steps of its own and of the loop, however many other
      calls come in: a run with that many steps contains its return, and until then another step is enabled. */
  lemma PublishTerminates(before: seq<Event>, events: seq<Event>)
    requires IsRun(Init(), before) && After(Init(), before).holder.Some? && IsRun(After(Init(), before), events)
    ensures var s := After(Init(), before);
            && 1 <= Rank(s) <= 12
            && (Work(events) >= Rank(s) ==> Return(s.holder.value) in events)
            && (Return(s.holder.value) !in events ==> Rank(After(s, events)) + Work(events) == Rank(s))
  {
    RunKeepsInv(Init(), before);
    var s := After(Init(), before);
    HeldRank(s);
    if Return(s.holder.value) !in events {
      RunKeepsInv(s, events);
      RunLowersRank(s, events);
      HeldRank(After(s, events));
    }
  }

  lemma HeldRank(s: State)
    requires Inv(s) && s.holder.Some?
    ensures 1 <= Rank(s) <= 12
  {
    assert HolderOk(s, s.calls[s.holder.value]);
  }
}
