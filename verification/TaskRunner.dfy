/**
 Progress of one asynchronous task and its subscribers (internal/service/service.go). Publishing holds
 the runner's lock; subscribers receive without it, between any two channel operations of a publish.
 */
module TaskRunner {
  import opened GoStrings

  const QUEUE_SIZE := 16

  datatype Progress = Progress(state: string, percent: int, message: string)

  type Id = nat

  /**
   A subscriber: `start` and `upto` say which of the published events it was to be sent so far, `received`
   is what it took from its queue, and `dropped` counts the events taken out by the publisher.
   */
  datatype Sub = Sub(start: nat, upto: nat, received: seq<Progress>, queue: seq<Progress>, dropped: nat)

  /** Where a publish stands; all but `Idle` hold the lock. `todo` are the subscribers still to be served. */
  datatype Pc =
    | Idle
    | Serving(p: Progress, todo: set<Id>)
    | FoundFull(p: Progress, id: Id, todo: set<Id>)
    | MadeRoom(p: Progress, id: Id, todo: set<Id>)

  /** The task's goroutine: running, returned with a terminal event to publish, published it, gone from the table. */
  datatype Phase = Running | Returned(final: Progress) | Ended(final: Progress) | Removed(final: Progress)

  datatype State = State(
    published: seq<Progress>,  // everything published, newest last; the newest is `latest`
    all: map<Id, Sub>,         // every channel ever handed out
    subs: set<Id>,             // those still registered
    pc: Pc,
    phase: Phase,
    cancelled: bool)

  const INIT := State([], map[], {}, Idle, Running, false)

  datatype Error = NoError | Failure(message: string, isCancel: bool)

  /** The terminal event: the latest progress with the outcome written over it. */
  function Final(latest: Progress, err: Error, cancelled: bool, cancelText: string): Progress {
    if err.Failure? then
      if cancelled || err.isCancel then latest.(state := "cancelled", message := cancelText)
      else latest.(state := "error", message := err.message)
    else if latest.state != "done" then latest.(state := "done", percent := 100)
    else latest
  }

  const NOTHING := Progress("", 0, "")

  function Latest(s: State): Progress {
    if s.published == [] then NOTHING else s.published[|s.published| - 1]
  }

  // ---- steps ----

  datatype Step =
    | Publish(p: Progress)            // the running task reports progress
    | Serve(id: Id)                   // the loop takes up a subscriber: a send, or the queue is full
    | DropOldest                      // the non-blocking receive of the publisher
    | SendAgain                       // the second non-blocking send
    | Unlock                          // all served
    | Receive(id: Id)                 // a subscriber takes an event, at any time
    | Subscribe(id: Id)
    | Unsubscribe(id: Id)
    | Cancel
    | Return(err: Error, cancelText: string)
    | PublishFinal
    | Remove

  predicate Registered(s: State) {
    !s.phase.Removed?
  }

  predicate Enabled(s: State, step: Step) {
    match step
    case Publish(_) => s.phase.Running? && s.pc.Idle?
    case Serve(id) => s.pc.Serving? && id in s.pc.todo && id in s.all
    case DropOldest => s.pc.FoundFull? && s.pc.id in s.all
    case SendAgain => s.pc.MadeRoom? && s.pc.id in s.all
    case Unlock => s.pc.Serving? && s.pc.todo == {}
    case Receive(id) => id in s.all && s.all[id].queue != []
    case Subscribe(id) => s.pc.Idle? && Registered(s) && id !in s.all
    case Unsubscribe(_) => s.pc.Idle? && Registered(s)
    case Cancel => Registered(s)
    case Return(_, _) => s.phase.Running? && s.pc.Idle?
    case PublishFinal => s.phase.Returned? && s.pc.Idle?
    case Remove => s.phase.Ended? && s.pc.Idle?
  }

  /** A successful send. */
  function Sent(b: Sub, p: Progress): Sub {
    b.(upto := b.upto + 1, queue := b.queue + [p])
  }

  function StartPublish(s: State, p: Progress): State {
    s.(published := s.published + [p], pc := Serving(p, s.subs))
  }

  function Take(s: State, step: Step): State
    requires Enabled(s, step)
  {
    match step
    case Publish(p) => StartPublish(s, p)
    case Serve(id) =>
      var b, todo := s.all[id], s.pc.todo - {id};
      if |b.queue| < QUEUE_SIZE then s.(all := s.all[id := Sent(b, s.pc.p)], pc := Serving(s.pc.p, todo))
      else s.(pc := FoundFull(s.pc.p, id, todo))
    case DropOldest =>
      var id, b := s.pc.id, s.all[s.pc.id];
      var next := MadeRoom(s.pc.p, id, s.pc.todo);
      if b.queue == [] then s.(pc := next)
      else s.(all := s.all[id := b.(queue := b.queue[1..], dropped := b.dropped + 1)], pc := next)
    case SendAgain =>
      var id, b := s.pc.id, s.all[s.pc.id];
      var next := Serving(s.pc.p, s.pc.todo);
      if |b.queue| < QUEUE_SIZE then s.(all := s.all[id := Sent(b, s.pc.p)], pc := next)
      else s.(all := s.all[id := b.(upto := b.upto + 1, dropped := b.dropped + 1)], pc := next)
    case Unlock => s.(pc := Idle)
    case Receive(id) =>
      var b := s.all[id];
      s.(all := s.all[id := b.(received := b.received + [b.queue[0]], queue := b.queue[1..])])
    case Subscribe(id) =>
      var n := |s.published|;
      var b := if n > 0 then Sub(n - 1, n, [], [Latest(s)], 0) else Sub(0, 0, [], [], 0);
      s.(all := s.all[id := b], subs := s.subs + {id})
    case Unsubscribe(id) => s.(subs := s.subs - {id})
    case Cancel => s.(cancelled := true)
    case Return(err, text) => s.(phase := Returned(Final(Latest(s), err, s.cancelled, text)))
    case PublishFinal => StartPublish(s.(phase := Ended(s.phase.final)), s.phase.final)
    case Remove => s.(phase := Removed(s.phase.final))
  }

  /** A run: any steps in any order; a step that is not enabled does not happen. */
  function Run(s: State, steps: seq<Step>): State {
    if steps == [] then s
    else
      var t := Run(s, steps[..|steps| - 1]);
      var step := steps[|steps| - 1];
      if Enabled(t, step) then Take(t, step) else t
  }

  // ---- the invariant ----

  /** `a` is what is left of `s[from..upto]` after leaving events out. */
  ghost predicate Within(a: seq<Progress>, s: seq<Progress>, from: nat, upto: nat)
    requires upto <= |s|
    decreases upto
  {
    a == [] || (from < upto && (Within(a, s, from, upto - 1) ||
                                (a[|a| - 1] == s[upto - 1] && Within(a[..|a| - 1], s, from, upto - 1))))
  }

  /** The subscriber the publish under way still has to serve with its event. */
  predicate Pending(pc: Pc, id: Id) {
    !pc.Idle? && (id in pc.todo || (!pc.Serving? && pc.id == id))
  }

  /** The subscriber from whose queue the publisher has just taken an event. */
  predicate InGap(pc: Pc, id: Id) {
    pc.MadeRoom? && pc.id == id
  }

  /** The queue is a contiguous part of what was published, ending with the last event sent. */
  ghost predicate QueueOk(published: seq<Progress>, b: Sub) {
    && b.start <= b.upto <= |published| && (b.start == 0 || b.start < |published|)
    && |b.queue| <= b.upto - b.start && |b.queue| <= QUEUE_SIZE
    && forall i :: 0 <= i < |b.queue| ==> b.queue[i] == published[b.upto - |b.queue| + i]
  }

  /** What was received lies, in order, before the queue; and nothing is unaccounted for. */
  ghost predicate ReceivedOk(published: seq<Progress>, b: Sub)
    requires QueueOk(published, b)
  {
    && Within(b.received, published, b.start, b.upto - |b.queue|)
    && |b.received| + b.dropped + |b.queue| == b.upto - b.start
  }

  /** With an empty queue, the last event sent was received. */
  ghost predicate LastArrived(published: seq<Progress>, b: Sub)
    requires QueueOk(published, b)
  {
    b.upto > b.start && b.queue == [] ==> b.received != [] && b.received[|b.received| - 1] == published[b.upto - 1]
  }

  ghost predicate SubOk(s: State, id: Id)
    requires id in s.all
  {
    var b := s.all[id];
    && QueueOk(s.published, b) && ReceivedOk(s.published, b)
    && (!InGap(s.pc, id) ==> LastArrived(s.published, b))
    && (InGap(s.pc, id) ==> |b.queue| < QUEUE_SIZE)
    && (id in s.subs ==> b.upto == |s.published| - if Pending(s.pc, id) then 1 else 0)
  }

  ghost predicate PcOk(s: State) {
    && s.subs <= s.all.Keys
    && (!s.pc.Idle? ==>
          && s.published != [] && s.pc.p == Latest(s) && s.pc.todo <= s.subs
          && (!s.pc.Serving? ==> s.pc.id in s.subs && s.pc.id !in s.pc.todo))
    && (s.phase.Returned? || s.phase.Removed? ==> s.pc.Idle?)
    && (s.phase.Ended? || s.phase.Removed? ==> s.published != [] && Latest(s) == s.phase.final)
  }

  ghost predicate Inv(s: State) {
    PcOk(s) && forall id :: id in s.all ==> SubOk(s, id)
  }
}
