/** The credit that bounds received frames on their way to the core thread: senders, message queue and handler. */
module RxCredit {
  const CREDIT := 2
  const QUEUE_SIZE := 64

  datatype Message = Rx(arg: nat) | Other(kind: nat)

  // Where the core thread is: waiting, holding a popped message, or past the decrement and about to hand the frame on.
  datatype Core = Idle | Popped(msg: Message) | Counted(arg: nat)

  /** Everything the interleavings share. reserved: senders between their two halves; pushed, delivered and lost are
      the frames put on the queue, handed to rxl_cntrl_evt, and reserved but not put on the queue, each in order. */
  datatype State = State(count: int, queue: seq<Message>, reserved: seq<nat>, core: Core,
                         pushed: seq<nat>, delivered: seq<nat>, lost: seq<nat>)

  /** One atomic step of some thread or interrupt. */
  datatype Event =
    | Reserve(arg: nat)           // bmsg_rx_sender, up to the end of its critical section
    | Push(k: nat, ok: bool)      // the k-th reserving sender's rtos_push_to_queue
    | OtherPush(kind: nat)        // any other message sender
    | Pop                         // core_thread_main takes a message
    | Count                       // bmsg_rx_handler's critical section
    | Deliver                     // its call of rxl_cntrl_evt
    | Handle                      // any other message is handled

  const START := State(0, [], [], Idle, [], [], [])

  // A push fails exactly on a full queue.
  predicate Enabled(s: State, e: Event) {
    match e
    case Reserve(_) => true
    case Push(k, ok) => k < |s.reserved| && (ok <==> |s.queue| < QUEUE_SIZE)
    case OtherPush(_) => |s.queue| < QUEUE_SIZE
    case Pop => s.core.Idle? && |s.queue| > 0
    case Count => s.core.Popped? && s.core.msg.Rx?
    case Deliver => s.core.Counted?
    case Handle => s.core.Popped? && s.core.msg.Other?
  }

  function Step(s: State, e: Event): State
    requires Enabled(s, e)
  {
    match e
    case Reserve(arg) =>
      if s.count >= CREDIT then s else s.(count := s.count + 1, reserved := s.reserved + [arg])
    case Push(k, ok) =>
      var arg, rest := s.reserved[k], s.reserved[..k] + s.reserved[k + 1..];
      if ok then s.(queue := s.queue + [Rx(arg)], reserved := rest, pushed := s.pushed + [arg])
      else s.(reserved := rest, lost := s.lost + [arg])
    case OtherPush(kind) => s.(queue := s.queue + [Other(kind)])
    case Pop => s.(queue := s.queue[1..], core := Popped(s.queue[0]))
    case Count => s.(count := if s.count > 0 then s.count - 1 else s.count, core := Counted(s.core.msg.arg))
    case Deliver => s.(core := Idle, delivered := s.delivered + [s.core.arg])
    case Handle => s.(core := Idle)
  }

  predicate Possible(s: State, events: seq<Event>)
    decreases |events|
  {
    events == [] || (Enabled(s, events[0]) && Possible(Step(s, events[0]), events[1..]))
  }

  function Run(s: State, events: seq<Event>): State
    requires Possible(s, events)
    decreases |events|
  {
    if events == [] then s else Run(Step(s, events[0]), events[1..])
  }

  // ----- The invariant -----

  function Frames(queue: seq<Message>): (r: seq<nat>)
    ensures |r| <= |queue|
  {
    if queue == [] then [] else (if queue[0].Rx? then [queue[0].arg] else []) + Frames(queue[1..])
  }

  // The frame the core thread holds: before the decrement, and at all.
  function Uncounted(c: Core): seq<nat> {
    if c.Popped? && c.msg.Rx? then [c.msg.arg] else []
  }

  function Held(c: Core): seq<nat> {
    if c.Counted? then [c.arg] else Uncounted(c)
  }

  /** The counter is exactly the frames it should know of, never above 2, and frames arrive in the order they were put
      on the queue, none twice and none dropped. */
  ghost predicate Sound(s: State) {
    s.count == |Frames(s.queue)| + |s.reserved| + |Uncounted(s.core)| + |s.lost| && s.count <= CREDIT &&
    |s.queue| <= QUEUE_SIZE &&
    s.pushed == s.delivered + Held(s.core) + Frames(s.queue)
  }

  lemma {:induction false} FramesAppend(q: seq<Message>, m: Message)
    ensures Frames(q + [m]) == Frames(q) + if m.Rx? then [m.arg] else []
  {
    if q != [] {
      FramesAppend(q[1..], m);
      assert (q + [m])[1..] == q[1..] + [m];
    }
  }

  lemma StepSound(s: State, e: Event)
    requires Sound(s) && Enabled(s, e)
    ensures Sound(Step(s, e))
    ensures e.Count? ==> s.count > 0
    ensures s.lost <= Step(s, e).lost
  {
    hide Frames;
    var t := Step(s, e);
    match e
    case Push(k, ok) =>
      FramesAppend(s.queue, Rx(s.reserved[k]));
      if ok {
        assert t.delivered + Held(t.core) + (Frames(s.queue) + [s.reserved[k]]) == s.pushed + [s.reserved[k]];
      }
    case OtherPush(kind) =>
      FramesAppend(s.queue, Other(kind));
      assert Frames(t.queue) == Frames(s.queue);
    case Pop =>
      FramesFirst(s.queue);
      assert s.delivered + Held(t.core) + Frames(t.queue) == s.delivered + (Held(t.core) + Frames(t.queue));
      assert s.delivered + Held(s.core) == s.delivered;
    case Deliver =>
      assert t.delivered + Held(t.core) == s.delivered + Held(s.core);
    case _ =>
  }

  lemma FramesFirst(q: seq<Message>)
    requires q != []
    ensures Frames(q) == Uncounted(Popped(q[0])) + Frames(q[1..])
  {
  }

  /** In every run: the counter's meaning, at most two frames on the queue, and a decrement whose guard always holds. */
  lemma {:induction false} AnyRun(s: State, events: seq<Event>)
    requires Sound(s) && Possible(s, events)
    ensures Sound(Run(s, events)) && |Frames(Run(s, events).queue)| <= CREDIT
    ensures s.lost <= Run(s, events).lost
    ensures Run(s, events).core.Popped? && Run(s, events).core.msg.Rx? ==> Run(s, events).count > 0
    decreases |events|
  {
    if events != [] {
      StepSound(s, events[0]);
      AnyRun(Step(s, events[0]), events[1..]);
    }
  }

  // The frames a run takes in: those whose sender finds the counter below 2.
  function TakenIn(s: State, events: seq<Event>): seq<nat>
    requires Possible(s, events)
    decreases |events|
  {
    if events == [] then []
    else (if events[0].Reserve? && s.count < 2 then [events[0].arg] else []) +
         TakenIn(Step(s, events[0]), events[1..])
  }

  function AllFrames(s: State): multiset<nat> {
    multiset(s.reserved) + multiset(s.pushed) + multiset(s.lost)
  }

  lemma StepFrames(s: State, e: Event)
    requires Enabled(s, e)
    ensures AllFrames(Step(s, e)) == AllFrames(s) + if e.Reserve? && s.count < 2 then multiset{e.arg} else multiset{}
  {
    if e.Push? {
      assert s.reserved == s.reserved[..e.k] + [s.reserved[e.k]] + s.reserved[e.k + 1..];
    }
  }

  /** Every frame taken in is on its way to the queue, was put there, or was lost to a full queue, each once. */
  lemma {:induction false} AllAccounted(s: State, events: seq<Event>)
    requires Possible(s, events)
    ensures AllFrames(Run(s, events)) == AllFrames(s) + multiset(TakenIn(s, events))
    decreases |events|
  {
    if events != [] {
      hide AllFrames, Step, Enabled;
      StepFrames(s, events[0]);
      AllAccounted(Step(s, events[0]), events[1..]);
    }
  }

  // ----- Lost credit -----

  predicate Accepts(s: State) {
    s.count < CREDIT
  }

  predicate Reaches(s: State, events: seq<Event>) {
    Possible(s, events) && Accepts(Run(s, events))
  }

  // What is still under way, weighted by the steps it has to go.
  function Ahead(s: State): nat {
    4 * |s.reserved| + 3 * |s.queue| + match s.core case Idle => 0 case Popped(_) => 2 case Counted(_) => 1
  }

  // A step that brings the system closer to rest without a new loss.
  function Onward(s: State): (e: Event)
    requires Ahead(s) > 0
    ensures Enabled(s, e) && Ahead(Step(s, e)) < Ahead(s) && Step(s, e).lost == s.lost
  {
    match s.core
    case Popped(msg) => if msg.Rx? then Count else Handle
    case Counted(_) => Deliver
    case Idle => if |s.queue| > 0 then Pop else Push(0, true)
  }

  lemma {:induction false} Recovers(s: State) returns (events: seq<Event>)
    requires Sound(s) && |s.lost| < CREDIT
    ensures Reaches(s, events)
    decreases Ahead(s)
  {
    events := [];
    if !Accepts(s) {
      var e := Onward(s);
      StepSound(s, e);
      var rest := Recovers(Step(s, e));
      events := [e] + rest;
    }
  }

  /** A failed push never gives its credit back: from any reachable state reception can go on in some future exactly
      when fewer than two pushes have failed. */
  lemma ReceptionDies(s: State)
    requires Sound(s)
    ensures (exists events :: Reaches(s, events)) <==> |s.lost| < CREDIT
  {
    if |s.lost| < CREDIT {
      var events := Recovers(s);
      assert Reaches(s, events);
    } else {
      forall events ensures !Reaches(s, events) {
        if Possible(s, events) {
          AnyRun(s, events);
        }
      }
    }
  }

  lemma {:induction false} RunOn(s: State, first: seq<Event>, second: seq<Event>)
    requires Possible(s, first) && Possible(Run(s, first), second)
    ensures Possible(s, first + second) && Run(s, first + second) == Run(Run(s, first), second)
    decreases |first|
  {
    if first == [] {
      assert first + second == second;
    } else {
      RunOn(Step(s, first[0]), first[1..], second);
      assert (first + second)[1..] == first[1..] + second;
    }
  }

  // Other messages fill the queue while the core thread is busy.
  lemma {:induction false} Fills(s: State, n: nat) returns (events: seq<Event>)
    requires |s.queue| + n <= QUEUE_SIZE
    ensures Possible(s, events) && |Run(s, events).queue| == |s.queue| + n
    ensures Run(s, events) == s.(queue := Run(s, events).queue)
    decreases n
  {
    events := [];
    if n != 0 {
      var rest := Fills(Step(s, OtherPush(0)), n - 1);
      events := [OtherPush(0)] + rest;
    }
  }

  /** It does happen: 64 other messages, then two frames whose pushes meet the full queue, and reception is over. */
  lemma Dies() returns (events: seq<Event>)
    ensures Possible(START, events) && |Run(START, events).lost| == CREDIT
    ensures !exists more :: Reaches(Run(START, events), more)
  {
    var full := Fills(START, QUEUE_SIZE);
    var s := Run(START, full);
    var lose := [Reserve(1), Push(0, false), Reserve(2), Push(0, false)];
    var s1 := Step(s, Reserve(1));
    var s2 := Step(s1, Push(0, false));
    var s3 := Step(s2, Reserve(2));
    var s4 := Step(s3, Push(0, false));
    assert lose[1..] == [Push(0, false), Reserve(2), Push(0, false)];
    assert lose[1..][1..] == [Reserve(2), Push(0, false)];
    assert lose[1..][1..][1..] == [Push(0, false)];
    assert Possible(s3, [Push(0, false)]) && Run(s3, [Push(0, false)]) == s4;
    assert Possible(s2, lose[1..][1..]) && Run(s2, lose[1..][1..]) == s4;
    assert Possible(s1, lose[1..]) && Run(s1, lose[1..]) == s4;
    assert Possible(s, lose) && Run(s, lose) == s4;
    RunOn(START, full, lose);
    events := full + lose;
    AnyRun(START, events);
    ReceptionDies(s4);
  }

  /** The same for everything that can happen from the start. */
  lemma Reachable(events: seq<Event>)
    requires Possible(START, events)
    ensures var s := Run(START, events);
            0 <= s.count == |Frames(s.queue)| + |s.reserved| + |Uncounted(s.core)| + |s.lost| <= CREDIT &&
            s.delivered <= s.pushed &&
            ((exists more :: Reaches(s, more)) <==> |s.lost| < CREDIT)
  {
    AnyRun(START, events);
    ReceptionDies(Run(START, events));
  }

  // ----- The driver's state -----

  class Wifi {
    var bmsgRxCount: int
    var ioQueue: seq<Message>

    constructor ()
      ensures bmsgRxCount == START.count && ioQueue == START.queue
    {
      bmsgRxCount, ioQueue := 0, [];
    }

    // The parts of the state other threads hold are given.
    ghost function View(rest: State): State
      reads this
    {
      rest.(count := bmsgRxCount, queue := ioQueue)
    }

    // bmsg_rx_sender's critical section.
    method Reserve(arg: nat, ghost rest: State) returns (granted: bool)
      modifies `bmsgRxCount
      ensures granted <==> Accepts(old(View(rest)))
      ensures View(if granted then rest.(reserved := rest.reserved + [arg]) else rest) ==
              Step(old(View(rest)), Event.Reserve(arg))
    {
      if bmsgRxCount >= 2 {
        return false;
      }
      bmsgRxCount := bmsgRxCount + 1;
      granted := true;
    }

    // rtos_push_to_queue, without waiting.
    method PushToQueue(msg: Message) returns (ok: bool)
      modifies `ioQueue
      ensures ok == (old(|ioQueue|) < QUEUE_SIZE)
      ensures ioQueue == if ok then old(ioQueue) + [msg] else old(ioQueue)
    {
      ok := |ioQueue| < QUEUE_SIZE;
      if ok {
        ioQueue := ioQueue + [msg];
      }
    }

    // The sender's second half: whatever the push says, the count stays as it is.
    method SenderPush(arg: nat, ghost rest: State, ghost k: nat) returns (ok: bool)
      requires k < |rest.reserved| && rest.reserved[k] == arg
      modifies `ioQueue
      ensures Enabled(old(View(rest)), Push(k, ok)) && (ok <==> old(|ioQueue|) < QUEUE_SIZE)
      ensures View(Step(old(View(rest)), Push(k, ok))) == Step(old(View(rest)), Push(k, ok))
    {
      ok := PushToQueue(Rx(arg));
    }

    // rtos_pop_from_queue in core_thread_main.
    method PopFromQueue(ghost rest: State) returns (msg: Message)
      requires |ioQueue| > 0 && rest.core.Idle?
      modifies `ioQueue
      ensures View(rest.(core := Popped(msg))) == Step(old(View(rest)), Pop)
    {
      msg := ioQueue[0];
      ioQueue := ioQueue[1..];
    }

    // bmsg_rx_handler's critical section.
    method RxHandler(msg: Message, ghost rest: State)
      requires msg.Rx? && rest.core == Popped(msg)
      modifies `bmsgRxCount
      ensures View(rest.(core := Counted(msg.arg))) == Step(old(View(rest)), Count)
    {
      if bmsgRxCount > 0 {
        bmsgRxCount := bmsgRxCount - 1;
      }
    }
  }
}
