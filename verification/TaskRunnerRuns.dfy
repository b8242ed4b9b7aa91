/** What every interleaving of publishing, receiving and (un)subscribing keeps. */
module TaskRunnerRuns {
  import opened GoStrings
  import opened TaskRunner

  // ---- one subscriber ----

  /** All that is said of a subscriber apart from whether it is up to date. */
  ghost predicate Sound(published: seq<Progress>, b: Sub, inGap: bool) {
    && QueueOk(published, b) && ReceivedOk(published, b)
    && (!inGap ==> LastArrived(published, b))
    && (inGap ==> |b.queue| < QUEUE_SIZE)
  }

  lemma {:induction false} WithinLonger(a: seq<Progress>, s: seq<Progress>, p: Progress, from: nat, upto: nat)
    requires upto <= |s| && Within(a, s, from, upto)
    ensures Within(a, s + [p], from, upto)
    decreases upto
  {
    if a != [] {
      if Within(a, s, from, upto - 1) {
        WithinLonger(a, s, p, from, upto - 1);
      } else {
        WithinLonger(a[..|a| - 1], s, p, from, upto - 1);
      }
    }
  }

  lemma SoundAfterPublish(published: seq<Progress>, b: Sub, p: Progress)
    requires Sound(published, b, false)
    ensures Sound(published + [p], b, false)
  {
    WithinLonger(b.received, published, p, b.start, b.upto - |b.queue|);
  }

  /** A send of the newest event to a subscriber that lacks just that one. */
  lemma SoundAfterSend(published: seq<Progress>, b: Sub, p: Progress, inGap: bool)
    requires Sound(published, b, inGap) && |b.queue| < QUEUE_SIZE
    requires b.upto < |published| && published[b.upto] == p
    ensures Sound(published, Sent(b, p), false)
  {
  }

  /** The next event may be left out or taken. */
  lemma WithinNext(a: seq<Progress>, s: seq<Progress>, from: nat, k: nat)
    requires from <= k < |s| && Within(a, s, from, k)
    ensures Within(a, s, from, k + 1) && Within(a + [s[k]], s, from, k + 1)
  {
    assert (a + [s[k]])[..|a|] == a;
  }

  /** Taking the oldest event out of a queue moves it to the events before the queue. */
  lemma OldestLeaves(published: seq<Progress>, b: Sub, received: seq<Progress>, dropped: nat)
    requires QueueOk(published, b) && ReceivedOk(published, b) && b.queue != []
    requires (received == b.received && dropped == b.dropped + 1)
          || (received == b.received + [b.queue[0]] && dropped == b.dropped)
    ensures var b' := b.(received := received, queue := b.queue[1..], dropped := dropped);
      QueueOk(published, b') && ReceivedOk(published, b')
  {
    var k := b.upto - |b.queue|;
    assert b.queue[0] == published[k + 0];
    WithinNext(b.received, published, b.start, k);
  }

  lemma SoundAfterDrop(published: seq<Progress>, b: Sub)
    requires Sound(published, b, false)
    ensures Sound(published, if b.queue == [] then b else b.(queue := b.queue[1..], dropped := b.dropped + 1), true)
  {
    if b.queue != [] {
      OldestLeaves(published, b, b.received, b.dropped + 1);
    }
  }

  lemma SoundAfterReceive(published: seq<Progress>, b: Sub, inGap: bool)
    requires Sound(published, b, inGap) && b.queue != []
    ensures Sound(published, b.(received := b.received + [b.queue[0]], queue := b.queue[1..]), inGap)
  {
    OldestLeaves(published, b, b.received + [b.queue[0]], b.dropped);
    assert b.queue[0] == published[b.upto - |b.queue| + 0];
  }

  lemma SoundWhenNew(published: seq<Progress>, b: Sub)
    requires var n := |published|;
      b == if n > 0 then Sub(n - 1, n, [], [published[n - 1]], 0) else Sub(0, 0, [], [], 0)
    ensures Sound(published, b, false)
  {
  }

  // ---- one step ----

  lemma StartPublishKeeps(s: State, p: Progress)
    requires Inv(s) && s.pc.Idle?
    requires s.phase.Running? || (s.phase.Ended? && s.phase.final == p)
    ensures Inv(StartPublish(s, p))
  {
    var t := StartPublish(s, p);
    forall id | id in t.all
      ensures SubOk(t, id)
    {
      assert SubOk(s, id);
      SoundAfterPublish(s.published, s.all[id], p);
    }
  }

  lemma PublishFinalKeeps(s: State)
    requires Inv(s) && Enabled(s, PublishFinal)
    ensures Inv(Take(s, PublishFinal))
  {
    var p := s.phase.final;
    var t := Take(s, PublishFinal);
    forall id | id in t.all
      ensures SubOk(t, id)
    {
      assert SubOk(s, id);
      SoundAfterPublish(s.published, s.all[id], p);
    }
  }

  /** A step that rewrites one subscriber and the publisher's position. */
  lemma OneSubChanges(s: State, id: Id, b: Sub, pc: Pc)
    requires Inv(s) && id in s.all && PcOk(s.(pc := pc))
    requires Sound(s.published, b, InGap(pc, id))
    requires id in s.subs ==> b.upto == |s.published| - if Pending(pc, id) then 1 else 0
    requires forall j :: j != id ==> Pending(pc, j) == Pending(s.pc, j) && InGap(pc, j) == InGap(s.pc, j)
    ensures Inv(s.(all := s.all[id := b], pc := pc))
  {
    var t := s.(all := s.all[id := b], pc := pc);
    forall j | j in t.all
      ensures SubOk(t, j)
    {
      if j != id {
        assert SubOk(s, j);
      }
    }
  }

  lemma SameMap(m: map<Id, Sub>, id: Id)
    requires id in m
    ensures m[id := m[id]] == m
  {
  }

  lemma ServeKeeps(s: State, id: Id)
    requires Inv(s) && Enabled(s, Serve(id))
    ensures Inv(Take(s, Serve(id)))
  {
    var b, p, todo := s.all[id], s.pc.p, s.pc.todo - {id};
    assert SubOk(s, id);
    if |b.queue| < QUEUE_SIZE {
      SoundAfterSend(s.published, b, p, false);
      OneSubChanges(s, id, Sent(b, p), Serving(p, todo));
    } else {
      OneSubChanges(s, id, b, FoundFull(p, id, todo));
      SameMap(s.all, id);
    }
  }

  lemma DropOldestKeeps(s: State)
    requires Inv(s) && Enabled(s, DropOldest)
    ensures Inv(Take(s, DropOldest))
  {
    var id := s.pc.id;
    var b := s.all[id];
    assert SubOk(s, id);
    SoundAfterDrop(s.published, b);
    var b' := if b.queue == [] then b else b.(queue := b.queue[1..], dropped := b.dropped + 1);
    OneSubChanges(s, id, b', MadeRoom(s.pc.p, id, s.pc.todo));
    SameMap(s.all, id);
  }

  lemma SendAgainKeeps(s: State)
    requires Inv(s) && Enabled(s, SendAgain)
    ensures Inv(Take(s, SendAgain))
  {
    var id := s.pc.id;
    assert SubOk(s, id);
    SoundAfterSend(s.published, s.all[id], s.pc.p, true);
    OneSubChanges(s, id, Sent(s.all[id], s.pc.p), Serving(s.pc.p, s.pc.todo));
  }

  lemma ReceiveKeeps(s: State, id: Id)
    requires Inv(s) && Enabled(s, Receive(id))
    ensures Inv(Take(s, Receive(id)))
  {
    var b := s.all[id];
    assert SubOk(s, id);
    SoundAfterReceive(s.published, b, InGap(s.pc, id));
    OneSubChanges(s, id, b.(received := b.received + [b.queue[0]], queue := b.queue[1..]), s.pc);
  }

  lemma SubscribeKeeps(s: State, id: Id)
    requires Inv(s) && Enabled(s, Subscribe(id))
    ensures Inv(Take(s, Subscribe(id)))
  {
    var t := Take(s, Subscribe(id));
    SoundWhenNew(s.published, t.all[id]);
    forall j | j in s.subs + {id}
      ensures j in t.all.Keys
    {
    }
    forall j | j in t.all
      ensures SubOk(t, j)
    {
      if j == id {
        assert Sound(t.published, t.all[id], false);
      } else {
        assert SubOk(s, j);
      }
    }
  }

  lemma PlainStepKeeps(s: State, step: Step)
    requires Inv(s) && Enabled(s, step)
    requires step.Unlock? || step.Unsubscribe? || step.Cancel? || step.Return? || step.Remove?
    ensures Inv(Take(s, step))
  {
    var t := Take(s, step);
    forall id | id in t.all
      ensures SubOk(t, id)
    {
      assert SubOk(s, id);
    }
  }

  /** Every step keeps the invariant. */
  lemma StepKeeps(s: State, step: Step)
    requires Inv(s) && Enabled(s, step)
    ensures Inv(Take(s, step))
  {
    match step
    case Publish(p) => StartPublishKeeps(s, p);
    case Serve(id) => ServeKeeps(s, id);
    case DropOldest => DropOldestKeeps(s);
    case SendAgain => SendAgainKeeps(s);
    case Receive(id) => ReceiveKeeps(s, id);
    case Subscribe(id) => SubscribeKeeps(s, id);
    case PublishFinal => PublishFinalKeeps(s);
    case _ => PlainStepKeeps(s, step);
  }

  /** So every state of every run satisfies it. */
  lemma {:induction false} EveryRun(steps: seq<Step>)
    ensures Inv(Run(INIT, steps))
  {
    if steps != [] {
      var t, step := Run(INIT, steps[..|steps| - 1]), steps[|steps| - 1];
      EveryRun(steps[..|steps| - 1]);
      if Enabled(t, step) {
        StepKeeps(t, step);
      }
    }
  }

  // ---- what it means ----

  /** The second send of a publish always finds room, whatever subscribers did in between. */
  lemma LastSendSucceeds(steps: seq<Step>)
    ensures var s := Run(INIT, steps);
      Enabled(s, SendAgain) ==> |s.all[s.pc.id].queue| < QUEUE_SIZE
  {
    var s := Run(INIT, steps);
    EveryRun(steps);
    if Enabled(s, SendAgain) {
      assert SubOk(s, s.pc.id);
    }
  }

  /**
   A queue is bounded and holds consecutive events ending with the last one sent; what was received and what
   is queued lie in order among the events published since subscribing; each of those is received, queued
   or counted as dropped.
   */
  lemma QueuesAreSuffixes(steps: seq<Step>, id: Id)
    requires id in Run(INIT, steps).all
    ensures var s := Run(INIT, steps);
      var b := s.all[id];
      && b.start <= b.upto <= |s.published| && |b.queue| <= 16 && |b.queue| <= b.upto - b.start
      && b.queue == s.published[b.upto - |b.queue|..b.upto]
      && Within(b.received + b.queue, s.published, b.start, b.upto)
      && |b.received| + b.dropped + |b.queue| == b.upto - b.start
  {
    EveryRun(steps);
    SubAccount(Run(INIT, steps), id);
  }

  lemma SubAccount(s: State, id: Id)
    requires Inv(s) && id in s.all
    ensures var b := s.all[id];
      && b.start <= b.upto <= |s.published| && |b.queue| <= 16 && |b.queue| <= b.upto - b.start
      && b.queue == s.published[b.upto - |b.queue|..b.upto]
      && Within(b.received + b.queue, s.published, b.start, b.upto)
      && |b.received| + b.dropped + |b.queue| == b.upto - b.start
  {
    assert SubOk(s, id);
    Account(s.published, s.all[id]);
  }

  lemma Account(published: seq<Progress>, b: Sub)
    requires QueueOk(published, b) && ReceivedOk(published, b)
    ensures b.queue == published[b.upto - |b.queue|..b.upto]
    ensures Within(b.received + b.queue, published, b.start, b.upto)
  {
    InOrder(published, b, |b.queue|);
    assert b.queue[..|b.queue|] == b.queue;
  }

  /** The first `n` queued events follow what was received. */
  lemma {:induction false} InOrder(published: seq<Progress>, b: Sub, n: nat)
    requires QueueOk(published, b) && ReceivedOk(published, b) && n <= |b.queue|
    ensures Within(b.received + b.queue[..n], published, b.start, b.upto - |b.queue| + n)
  {
    if n == 0 {
      assert b.received + b.queue[..0] == b.received;
    } else {
      InOrder(published, b, n - 1);
      var k := b.upto - |b.queue| + (n - 1);
      WithinNext(b.received + b.queue[..n - 1], published, b.start, k);
      assert b.received + b.queue[..n] == (b.received + b.queue[..n - 1]) + [published[k]];
    }
  }

  lemma {:induction false} WithinShorter(a: seq<Progress>, s: seq<Progress>, from: nat, upto: nat)
    requires from <= upto <= |s| && Within(a, s, from, upto)
    ensures |a| <= upto - from && (|a| == upto - from ==> a == s[from..upto])
    decreases upto
  {
    if a != [] {
      if Within(a, s, from, upto - 1) {
        WithinShorter(a, s, from, upto - 1);
      } else {
        WithinShorter(a[..|a| - 1], s, from, upto - 1);
      }
    }
  }

  /** A subscriber from whose queue nothing was dropped gets every event, once and in order. */
  lemma FastSubscribersMissNothing(steps: seq<Step>, id: Id)
    requires id in Run(INIT, steps).all && Run(INIT, steps).all[id].dropped == 0
    ensures var s := Run(INIT, steps);
      var b := s.all[id];
      b.start <= b.upto <= |s.published| && b.received + b.queue == s.published[b.start..b.upto]
  {
    var s := Run(INIT, steps);
    QueuesAreSuffixes(steps, id);
    WithinShorter(s.all[id].received + s.all[id].queue, s.published, s.all[id].start, s.all[id].upto);
  }

  /** An event that tells how the task ended. */
  predicate IsOutcome(p: Progress) {
    p.state == "done" || p.state == "cancelled" || p.state == "error"
  }

  /** The terminal event says how the task ended. */
  lemma FinalStates(latest: Progress, err: Error, cancelled: bool, text: string)
    ensures var f := Final(latest, err, cancelled, text);
      && IsOutcome(f)
      && f.state == (if err.NoError? then "done" else if cancelled || err.isCancel then "cancelled" else "error")
      && f.percent == (if err.NoError? && latest.state != "done" then 100 else latest.percent)
      && f.message ==
           (if err.NoError? then latest.message else if cancelled || err.isCancel then text else err.message)
  {
  }

  /** Whatever the task reported last, it ends with an outcome. */
  lemma {:induction false} EndsWithOutcome(steps: seq<Step>)
    ensures var phase := Run(INIT, steps).phase; !phase.Running? ==> IsOutcome(phase.final)
  {
    if steps != [] {
      var s, step := Run(INIT, steps[..|steps| - 1]), steps[|steps| - 1];
      EndsWithOutcome(steps[..|steps| - 1]);
      if step.Return? {
        FinalStates(Latest(s), step.err, s.cancelled, step.cancelText);
      }
    }
  }

  /**
   Once the terminal event is published to all, it is the last event of everyone still subscribed: it
   closes the queue, or, with an empty queue, it was the last event received. It tells how the task ended.
   */
  lemma TerminalEventComesLast(steps: seq<Step>, id: Id)
    requires var s := Run(INIT, steps);
      && (s.phase.Removed? || (s.phase.Ended? && s.pc.Idle?))
      && id in s.subs
    ensures var s := Run(INIT, steps);
      && id in s.all
      && var all := s.all[id].received + s.all[id].queue;
         all != [] && all[|all| - 1] == s.phase.final == Latest(s) && IsOutcome(all[|all| - 1])
  {
    var s := Run(INIT, steps);
    EndsWithOutcome(steps);
    EveryRun(steps);
    UptoIsPositive(steps, id);
    ServedSubEndsWithLatest(s, id);
  }

  /** Between publishes, whoever is subscribed and was sent something has the latest event last. */
  lemma ServedSubEndsWithLatest(s: State, id: Id)
    requires Inv(s) && s.pc.Idle? && id in s.subs && id in s.all && s.all[id].start < s.all[id].upto
    ensures var all := s.all[id].received + s.all[id].queue; all != [] && all[|all| - 1] == Latest(s)
  {
    assert SubOk(s, id);
    ClosingEvent(s.published, s.all[id]);
  }

  lemma ClosingEvent(published: seq<Progress>, b: Sub)
    requires Sound(published, b, false) && b.start < b.upto
    ensures var all := b.received + b.queue; all != [] && all[|all| - 1] == published[b.upto - 1]
  {
    if b.queue != [] {
      assert b.queue[|b.queue| - 1] == published[b.upto - 1];
    }
  }

  /** After the task has been removed nothing is published any more. */
  lemma {:induction false} NothingAfterRemoval(s: State, steps: seq<Step>)
    requires s.phase.Removed? && s.pc.Idle?
    ensures Run(s, steps).published == s.published && Run(s, steps).phase == s.phase && Run(s, steps).pc.Idle?
  {
    if steps != [] {
      NothingAfterRemoval(s, steps[..|steps| - 1]);
    }
  }

  /** Whoever subscribes before the end was sent something: an event at subscribing, or the terminal one. */
  lemma UptoIsPositive(steps: seq<Step>, id: Id)
    requires var s := Run(INIT, steps); id in s.subs && s.pc.Idle? && s.published != []
    ensures var s := Run(INIT, steps); id in s.all && s.all[id].upto > s.all[id].start
  {
    EveryRun(steps);
    assert SubOk(Run(INIT, steps), id);
  }

  // ---- cancelling, returning and leaving ----

  /** The step is taken in the run. */
  predicate Taken(steps: seq<Step>, n: nat)
    requires n < |steps|
  {
    Enabled(Run(INIT, steps[..n]), steps[n])
  }

  ghost predicate WasCancelled(steps: seq<Step>) {
    exists n :: 0 <= n < |steps| && steps[n].Cancel? && Taken(steps, n)
  }

  lemma OneStepMore(steps: seq<Step>)
    requires steps != []
    ensures var last := |steps| - 1;
      WasCancelled(steps) <==> WasCancelled(steps[..last]) || (steps[last].Cancel? && Taken(steps, last))
  {
    var last := |steps| - 1;
    var before := steps[..last];
    if n :| 0 <= n < last && before[n].Cancel? && Taken(before, n) {
      assert before[..n] == steps[..n];
    }
    if n :| 0 <= n < last && steps[n].Cancel? && Taken(steps, n) {
      assert before[..n] == steps[..n];
    }
  }

  lemma CancelStep(s: State, step: Step)
    requires Enabled(s, step)
    ensures Take(s, step).cancelled <==> s.cancelled || step.Cancel?
  {
  }

  /** A task counts as cancelled exactly if it was cancelled while it was registered. */
  lemma {:induction false} CancelledExactlyWhen(steps: seq<Step>)
    ensures Run(INIT, steps).cancelled <==> WasCancelled(steps)
  {
    if steps != [] {
      var last := |steps| - 1;
      CancelledExactlyWhen(steps[..last]);
      OneStepMore(steps);
      if Enabled(Run(INIT, steps[..last]), steps[last]) {
        CancelStep(Run(INIT, steps[..last]), steps[last]);
      }
    }
  }

  /** What the task returned with decides the terminal event, whatever happens later. */
  lemma {:induction false} ReturnDecides(steps: seq<Step>, later: seq<Step>, err: Error, text: string)
    requires var s := Run(INIT, steps); Enabled(s, Return(err, text))
    ensures var s := Run(INIT, steps);
      var t := Run(Take(s, Return(err, text)), later);
      !t.phase.Running? && t.phase.final == Final(Latest(s), err, s.cancelled, text)
  {
    if later != [] {
      ReturnDecides(steps, later[..|later| - 1], err, text);
    }
  }

  /** Whoever has unsubscribed is sent nothing any more, and keeps what was queued. */
  lemma {:induction false} GoneGetsNothing(s: State, steps: seq<Step>, id: Id)
    requires id in s.all && id !in s.subs && !Pending(s.pc, id)
    ensures var t := Run(s, steps);
      && id in t.all && id !in t.subs && !Pending(t.pc, id)
      && t.all[id].upto == s.all[id].upto && t.all[id].dropped == s.all[id].dropped
      && t.all[id].received + t.all[id].queue == s.all[id].received + s.all[id].queue
  {
    if steps != [] {
      var t, step := Run(s, steps[..|steps| - 1]), steps[|steps| - 1];
      GoneGetsNothing(s, steps[..|steps| - 1], id);
      if Enabled(t, step) {
        GoneStep(t, step, id);
      }
    }
  }

  lemma GoneStep(s: State, step: Step, id: Id)
    requires id in s.all && id !in s.subs && !Pending(s.pc, id) && Enabled(s, step)
    ensures var t := Take(s, step);
      && id in t.all && id !in t.subs && !Pending(t.pc, id)
      && t.all[id].upto == s.all[id].upto && t.all[id].dropped == s.all[id].dropped
      && t.all[id].received + t.all[id].queue == s.all[id].received + s.all[id].queue
  {
    if step.Receive? && step.id == id {
      var b := s.all[id];
      assert b.queue == [b.queue[0]] + b.queue[1..];
    }
  }

  /** Unsubscribing leaves the others as they are. */
  lemma UnsubscribingIsLeaving(s: State, id: Id)
    requires Enabled(s, Unsubscribe(id))
    ensures var t := Take(s, Unsubscribe(id));
      id !in t.subs && !Pending(t.pc, id) && t.all == s.all && forall k :: k != id ==> (k in t.subs <==> k in s.subs)
  {
  }

  // ---- what is dropped ----

  /** Fewer than sixteen events were sent and none is dropped, or an event is taken out of a queue of sixteen. */
  ghost predicate Safe(s: State, id: Id)
    requires id in s.all
  {
    var b := s.all[id];
    && (b.upto - b.start < 16 ==> b.dropped == 0)
    && (s.pc.FoundFull? && s.pc.id == id ==> b.upto - b.start >= 16)
  }

  lemma SafeStep(s: State, step: Step, id: Id)
    requires Enabled(s, step) && id in s.all && Safe(s, id)
    requires var b := s.all[id];
      |b.queue| <= b.upto - b.start && |b.received| + b.dropped + |b.queue| == b.upto - b.start
    requires !(s.pc.MadeRoom? && s.pc.id == id && |s.all[id].queue| >= 16)
    ensures Safe(Take(s, step), id)
  {
  }

  lemma NewIsSafe(s: State, step: Step, id: Id)
    requires Enabled(s, step) && id !in s.all && id in Take(s, step).all
    ensures Safe(Take(s, step), id)
  {
  }

  /** Nothing is dropped of the first fifteen events of a subscriber, however slow it is. */
  lemma {:induction false} FirstEventsAreSafe(steps: seq<Step>, id: Id)
    requires id in Run(INIT, steps).all
    ensures Safe(Run(INIT, steps), id)
  {
    if steps != [] {
      var before, step := steps[..|steps| - 1], steps[|steps| - 1];
      var s := Run(INIT, before);
      if Enabled(s, step) && id !in s.all {
        NewIsSafe(s, step, id);
      } else {
        FirstEventsAreSafe(before, id);
        if Enabled(s, step) {
          QueuesAreSuffixes(before, id);
          RoomIsMade(before, id);
          SafeStep(s, step, id);
        }
      }
    }
  }

  lemma RoomIsMade(steps: seq<Step>, id: Id)
    requires id in Run(INIT, steps).all
    ensures var s := Run(INIT, steps); s.pc.MadeRoom? && s.pc.id == id ==> |s.all[id].queue| < 16
  {
    EveryRun(steps);
    assert SubOk(Run(INIT, steps), id);
  }
}
