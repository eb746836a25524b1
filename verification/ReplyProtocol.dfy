/**
 The reply protocol of a PbConn: writer threads queue responses and notify; the event loop sends
 them when EPOLLOUT fires and disarms EPOLLOUT when the queue is empty.

 Each transition is one critical section or one system call of one thread. The theorem is that no
 interleaving strands a response.
 */
module ReplyProtocol {
  import opened ByteStrings

  type Writer = nat

  /** Where the loop is in the async branch of HandleConnEvent. */
  datatype LoopPc = Idle | Checked | SentAll | Decremented

  /** queue holds a tag and a body for each response. holder is the writer inside WriteResp, between
      pushing and counting; notifying are the writers that have yet to call NotifyWrite; pipe counts
      the kNotiWrite items in the notify pipe; armed says whether EPOLLOUT is watched. */
  datatype State = State(queue: seq<Bytes>, isReply: int, armed: bool, pipe: nat,
                         holder: Option<Writer>, notifying: set<Writer>, loop: LoopPc)

  datatype Event =
    | Push(w: Writer, tag: Bytes, body: Bytes)   // WriteResp: resp_mu_ taken, both items queued
    | Count(w: Writer)                           // WriteResp: set_is_reply(true), resp_mu_ released
    | Notify(w: Writer)                          // NotifyWrite
    | TakeNotify                                 // ProcessNotifyEvents: EPOLLOUT | EPOLLIN
    | Fire                                       // EPOLLOUT fired: is_reply()
    | Send(items: nat)                           // SendReply, under resp_mu_: some items leave
    | Decrement                                  // set_is_reply(false)
    | Disarm                                     // EPOLLIN only

  function Init(): State { State([], 0, false, 0, None, {}, Idle) }

  predicate Enabled(s: State, e: Event) {
    match e
    case Push(w, _, _) => s.holder.None? && w !in s.notifying
    case Count(w) => s.holder == Some(w)
    case Notify(w) => w in s.notifying
    case TakeNotify => s.loop == Idle && s.pipe > 0
    case Fire => s.loop == Idle && s.armed
    case Send(items) => s.loop == Checked && s.holder.None? && items <= |s.queue|
    case Decrement => s.loop == SentAll
    case Disarm => s.loop == Decremented
  }

  /** set_is_reply */
  function SetIsReply(n: int, reply: bool): (m: int)
    ensures m >= 0 && (n >= 1 || (reply && n >= -1) ==> m == if reply then n + 1 else n - 1)
  {
    var m := n + (if reply then 1 else -1);
    if m < 0 then 0 else m
  }

  function Apply(s: State, e: Event): State
    requires Enabled(s, e)
  {
    match e
    case Push(w, tag, body) => s.(queue := s.queue + [tag, body], holder := Some(w))
    case Count(w) => s.(isReply := SetIsReply(s.isReply, true), holder := None, notifying := s.notifying + {w})
    case Notify(w) => s.(pipe := s.pipe + 1, notifying := s.notifying - {w})
    case TakeNotify => s.(pipe := s.pipe - 1, armed := true)
    case Fire => if s.isReply > 0 then s.(loop := Checked) else s
    case Send(items) => s.(queue := s.queue[items..], loop := if items == |s.queue| then SentAll else Idle)
    case Decrement => s.(isReply := SetIsReply(s.isReply, false), loop := Decremented)
    case Disarm => s.(armed := false, loop := Idle)
  }

  predicate IsRun(s: State, events: seq<Event>)
    decreases |events|
  {
    events == [] || (Enabled(s, events[0]) && IsRun(Apply(s, events[0]), events[1..]))
  }

  function After(s: State, events: seq<Event>): State
    requires IsRun(s, events)
    decreases |events|
  {
    if events == [] then s else After(Apply(s, events[0]), events[1..])
  }

  /** Responses of which at least a part is still queued. */
  function Unsent(s: State): nat { (|s.queue| + 1) / 2 }

  function InWriteResp(s: State): nat { if s.holder.Some? then 1 else 0 }

  /** Someone will see to the queue. */
  predicate WillWake(s: State) {
    || (s.armed && s.loop != SentAll && s.loop != Decremented)
    || s.pipe > 0 || s.notifying != {} || s.holder.Some?
  }

  predicate Inv(s: State) {
    && s.isReply + InWriteResp(s) >= Unsent(s) + (if s.loop == SentAll then 1 else 0)
    && (s.loop == Checked || s.loop == SentAll ==> s.isReply >= 1)
    && s.isReply >= 0
    && s.isReply >= s.pipe + |s.notifying| + (if s.armed && s.loop != Decremented then 1 else 0)
    && (s.holder.Some? ==> s.holder.value !in s.notifying)
    && (s.loop != Idle ==> s.armed)
    && (s.queue != [] ==> WillWake(s))
  }

  lemma StepKeepsInv(s: State, e: Event)
    requires Inv(s) && Enabled(s, e)
    ensures Inv(Apply(s, e))
  {
    match e
    case Count(w) =>
      assert w in Apply(s, e).notifying && |s.notifying + {w}| == |s.notifying| + 1;
    case Notify(w) =>
      assert |s.notifying - {w}| == |s.notifying| - 1;
    case _ =>
  }

  /** In every interleaving, is_reply_ counts at least the unsent responses (short by the one of a
      writer inside WriteResp), and an unsent response means that EPOLLOUT is armed and will not be
      disarmed before the queue is looked at again, or that a notification is under way. */
  lemma {:induction false} NoStrandedResponse(s: State, events: seq<Event>)
    requires Inv(s) && IsRun(s, events)
    ensures var t := After(s, events);
            && Unsent(t) <= t.isReply + InWriteResp(t)
            && (t.queue != [] ==> WillWake(t))
            && Inv(t)
    decreases |events|
  {
    if events != [] {
      StepKeepsInv(s, events[0]);
      NoStrandedResponse(Apply(s, events[0]), events[1..]);
    }
  }

  /** The same from the start: every reachable state. */
  lemma NoStrandedResponseEver(events: seq<Event>)
    requires IsRun(Init(), events)
    ensures var t := After(Init(), events);
            && Unsent(t) <= t.isReply + InWriteResp(t)
            && (t.queue != [] ==> WillWake(t))
  {
    NoStrandedResponse(Init(), events);
  }

  /** EPOLLOUT never fires in vain: in every reachable state in which the loop would see it, is_reply_ is positive, so
      the queue is looked at, and once it is empty EPOLLOUT is disarmed. */
  lemma NeverFiresInVain(events: seq<Event>)
    requires IsRun(Init(), events)
    ensures var t := After(Init(), events);
            && (Enabled(t, Fire) ==> t.isReply > 0 && Apply(t, Fire).loop == Checked)
            && t.isReply >= t.pipe + |t.notifying|
            && (Enabled(t, Disarm) ==> !Apply(t, Disarm).armed && Apply(t, Disarm).loop == Idle)
  {
    NoStrandedResponse(Init(), events);
  }

  // ----- what is queued

  /** The tags and bodies pushed, in the order of WriteResp. */
  function Pushed(events: seq<Event>): seq<Bytes> {
    if events == [] then []
    else (if events[0].Push? then [events[0].tag, events[0].body] else []) + Pushed(events[1..])
  }

  /** How many items left. */
  function SentItems(events: seq<Event>): nat {
    if events == [] then 0 else (if events[0].Send? then events[0].items else 0) + SentItems(events[1..])
  }

  /** Nothing is lost, doubled or reordered: over any interleaving, the queue holds what was queued and pushed, without
      the items that left from its front. */
  lemma {:induction false} QueueHoldsTheUnsent(s: State, events: seq<Event>)
    requires IsRun(s, events)
    ensures SentItems(events) <= |s.queue + Pushed(events)|
    ensures After(s, events).queue == (s.queue + Pushed(events))[SentItems(events)..]
    decreases |events|
  {
    hide Enabled, Apply;
    if events != [] {
      var e, q, rest := events[0], s.queue, Pushed(events[1..]);
      StepOnQueue(s, e);
      QueueHoldsTheUnsent(Apply(s, e), events[1..]);
      assert Pushed(events) == Pushed([e]) + rest && SentItems(events) == SentItems([e]) + SentItems(events[1..]);
      DropThenDrop(q, Pushed([e]), rest, SentItems([e]), SentItems(events[1..]));
    }
  }

  lemma StepOnQueue(s: State, e: Event)
    requires Enabled(s, e)
    ensures SentItems([e]) <= |s.queue + Pushed([e])|
    ensures Apply(s, e).queue == (s.queue + Pushed([e]))[SentItems([e])..]
  {
    assert s.queue + [] == s.queue;
  }

  lemma DropThenDrop<T>(a: seq<T>, b: seq<T>, c: seq<T>, i: nat, j: nat)
    requires i <= |a + b| && j <= |(a + b)[i..] + c|
    ensures i + j <= |a + (b + c)| && (a + (b + c))[i + j..] == ((a + b)[i..] + c)[j..]
  {
    assert a + (b + c) == a + b + c && (a + b + c)[i..] == (a + b)[i..] + c;
  }

  /** What the event loop does when the socket accepts everything. */
  function LoopWork(s: State): seq<Event> {
    if s.queue == [] then []
    else if s.armed then [Fire, Send(|s.queue|)]
    else [TakeNotify, Fire, Send(|s.queue|)]
  }

  /** Hence the queue always drains: from any reachable state in which the writers are done, the loop
      alone, with a socket that accepts the bytes, empties the queue. */
  lemma LoopDrainsTheQueue(events: seq<Event>)
    requires IsRun(Init(), events)
    ensures var t := After(Init(), events);
            t.loop == Idle && t.holder.None? && t.notifying == {} ==>
            IsRun(t, LoopWork(t)) && After(t, LoopWork(t)).queue == []
  {
    NoStrandedResponse(Init(), events);
    var t := After(Init(), events);
    if t.loop == Idle && t.holder.None? && t.notifying == {} && t.queue != [] {
      var u := if t.armed then t else Apply(t, TakeNotify);
      var v := Apply(u, Fire);
      var last: seq<Event> := [Send(|t.queue|)];
      RunCons(v, Send(|t.queue|), []);
      RunCons(u, Fire, last);
      RunCons(t, TakeNotify, [Fire] + last);
      assert [Send(|t.queue|)] + [] == last && [Fire] + last == [Fire, Send(|t.queue|)];
      assert [TakeNotify] + ([Fire] + last) == [TakeNotify, Fire, Send(|t.queue|)];
    }
  }

  lemma RunCons(s: State, e: Event, events: seq<Event>)
    ensures Enabled(s, e) && IsRun(Apply(s, e), events) ==>
              IsRun(s, [e] + events) && After(s, [e] + events) == After(Apply(s, e), events)
  {
    assert ([e] + events)[1..] == events;
  }
}
