/**
 The running task as an object (internal/service/service.go): what publishing and subscribing do to the channels
 when no receive comes in between, and that this is what the steps of TaskRunner amount to then.
 */
module TaskPublish {
  import opened Sequences
  import opened TaskRunner

  /** A full queue loses its oldest event to the new one. */
  function Offered(queue: seq<Progress>, p: Progress): seq<Progress> {
    if |queue| < QUEUE_SIZE then queue + [p] else queue[1..] + [p]
  }

  function Delivered(channels: map<Id, seq<Progress>>, ids: set<Id>, p: Progress): map<Id, seq<Progress>> {
    map id | id in channels :: if id in ids then Offered(channels[id], p) else channels[id]
  }

  /** Of `all`, these have been served and those have not. */
  predicate Served(done: set<Id>, todo: set<Id>, all: set<Id>) {
    done !! todo && done + todo == all
  }

  lemma OneServed(done: set<Id>, todo: set<Id>, all: set<Id>, id: Id)
    requires Served(done, todo, all) && id in todo
    ensures Served(done + {id}, todo - {id}, all) && id in all && id !in done
  {
  }

  lemma StayBounded(q: map<Id, seq<Progress>>, ids: set<Id>, p: Progress)
    requires forall id :: id in q ==> |q[id]| <= QUEUE_SIZE
    ensures var d := Delivered(q, ids, p); d.Keys == q.Keys && forall id :: id in d ==> |d[id]| <= QUEUE_SIZE
  {
  }

  class RunningTask {
    var latest: Progress
    var hasLatest: bool
    var subs: set<Id>
    var channels: map<Id, seq<Progress>>  // the contents of every channel handed out

    ghost predicate Valid()
      reads this
    {
      subs <= channels.Keys && forall id :: id in channels ==> |channels[id]| <= QUEUE_SIZE
    }

    constructor ()
      ensures Valid() && !hasLatest && subs == {} && channels == map[]
    {
      latest, hasLatest, subs, channels := NOTHING, false, {}, map[];
    }

    /** A send that does not block. */
    method TrySend(id: Id, p: Progress) returns (sent: bool)
      requires id in channels
      modifies this`channels
      ensures sent <==> |old(channels)[id]| < QUEUE_SIZE
      ensures channels == if sent then old(channels)[id := old(channels)[id] + [p]] else old(channels)
    {
      sent := |channels[id]| < QUEUE_SIZE;
      if sent {
        channels := channels[id := channels[id] + [p]];
      }
    }

    /** A receive that does not block. */
    method TryReceive(id: Id)
      requires id in channels
      modifies this`channels
      ensures channels == old(channels)[id := if old(channels)[id] == [] then [] else old(channels)[id][1..]]
    {
      if channels[id] != [] {
        channels := channels[id := channels[id][1..]];
      } else {
        assert channels[id := []] == channels;
      }
    }

    /** The newest event goes in, if need be in place of the oldest; the second send always finds room. */
    method Offer(id: Id, p: Progress)
      requires id in channels && |channels[id]| <= QUEUE_SIZE
      modifies this`channels
      ensures channels == old(channels)[id := Offered(old(channels)[id], p)]
    {
      var sent := TrySend(id, p);
      if !sent {
        TryReceive(id);
        sent := TrySend(id, p);
        assert sent;
      }
    }

    method Publish(p: Progress)
      requires Valid()
      modifies this
      ensures Valid() && latest == p && hasLatest && subs == old(subs)
      ensures channels == Delivered(old(channels), subs, p)
    {
      latest, hasLatest := p, true;
      var todo := subs;
      ghost var done: set<Id> := {};
      NoneDelivered(channels, p);
      while todo != {}
        invariant Served(done, todo, subs) && subs == old(subs) && latest == p && hasLatest
        invariant channels == Delivered(old(channels), done, p)
        decreases |todo|
      {
        var id :| id in todo;
        OneMore(old(channels), done, id, p);
        OneServed(done, todo, subs, id);
        todo := todo - {id};
        done := done + {id};
        Offer(id, p);
      }
      StayBounded(old(channels), subs, p);
    }

    /** A new channel, with the latest event in it if there is one. */
    method Subscribe(id: Id)
      requires Valid() && id !in channels
      modifies this
      ensures Valid() && subs == old(subs) + {id} && latest == old(latest) && hasLatest == old(hasLatest)
      ensures channels == old(channels)[id := if hasLatest then [latest] else []]
    {
      channels := channels[id := []];
      if hasLatest {
        var sent := TrySend(id, latest);
        assert sent && [] + [latest] == [latest];
        assert channels == old(channels)[id := [latest]];
      }
      subs := subs + {id};
    }

    /** The release function of a subscription. */
    method Unsubscribe(id: Id)
      requires Valid()
      modifies this`subs
      ensures Valid() && subs == old(subs) - {id}
    {
      subs := subs - {id};
    }
  }

  // ---- the same by steps ----

  function Queues(all: map<Id, Sub>): map<Id, seq<Progress>> {
    map id | id in all :: all[id].queue
  }

  /** What a publish does for one subscriber that receives nothing meanwhile. */
  function Turn(s: State, id: Id): seq<Step>
    requires id in s.all
  {
    if |s.all[id].queue| < QUEUE_SIZE then [Serve(id)] else [Serve(id), DropOldest, SendAgain]
  }

  lemma {:induction false} RunConcat(s: State, a: seq<Step>, b: seq<Step>)
    ensures Run(s, a + b) == Run(Run(s, a), b)
  {
    if b == [] {
      assert a + b == a;
    } else {
      assert (a + b)[..|a + b| - 1] == a + b[..|b| - 1];
      RunConcat(s, a, b[..|b| - 1]);
    }
  }

  lemma RunOne(s: State, step: Step)
    ensures Run(s, [step]) == if Enabled(s, step) then Take(s, step) else s
  {
    assert [step][..0] == [];
  }

  lemma RunThree(s: State, x: Step, y: Step, z: Step)
    ensures Run(s, [x, y, z]) == Run(Run(Run(s, [x]), [y]), [z])
  {
    assert [x, y, z] == [x, y] + [z] && [x, y] == [x] + [y];
    RunConcat(s, [x, y], [z]);
    RunConcat(s, [x], [y]);
  }

  lemma TurnOffers(s: State, id: Id)
    requires s.pc.Serving? && id in s.pc.todo && id in s.all && |s.all[id].queue| <= QUEUE_SIZE
    ensures var t := Run(s, Turn(s, id));
      && t.pc == Serving(s.pc.p, s.pc.todo - {id})
      && Queues(t.all) == Queues(s.all)[id := Offered(s.all[id].queue, s.pc.p)]
      && t.subs == s.subs && t.published == s.published
  {
    RunOne(s, Serve(id));
    if |s.all[id].queue| >= QUEUE_SIZE {
      var s1 := Take(s, Serve(id));
      var s2 := Take(s1, DropOldest);
      RunThree(s, Serve(id), DropOldest, SendAgain);
      RunOne(s1, DropOldest);
      RunOne(s2, SendAgain);
    }
  }

  /** Each of the first `n` is a new one, and known. */
  predicate Listed(s: State, ids: seq<Id>, n: nat)
    requires n <= |ids|
  {
    n > 0 ==>
      Listed(s, ids, n - 1) && ids[n - 1] !in Among(ids, n - 1) && ids[n - 1] in s.all
      && |s.all[ids[n - 1]].queue| <= QUEUE_SIZE
  }

  /** The turns of a publish for the first `n` subscribers. */
  function Turns(s: State, ids: seq<Id>, n: nat): seq<Step>
    requires n <= |ids| && Listed(s, ids, n)
  {
    if n == 0 then [] else Turns(s, ids, n - 1) + Turn(s, ids[n - 1])
  }

  lemma {:induction false} TurnsDeliver(s: State, ids: seq<Id>, n: nat)
    requires s.pc.Serving? && n <= |ids| && Listed(s, ids, n) && Among(ids, n) <= s.pc.todo
    ensures var t := Run(s, Turns(s, ids, n));
      && t.pc == Serving(s.pc.p, s.pc.todo - Among(ids, n))
      && Queues(t.all) == Delivered(Queues(s.all), Among(ids, n), s.pc.p)
      && t.subs == s.subs && t.published == s.published
  {
    if n == 0 {
      NoneDelivered(Queues(s.all), s.pc.p);
      assert s.pc.todo - {} == s.pc.todo;
    } else {
      var id := ids[n - 1];
      TurnsDeliver(s, ids, n - 1);
      var t := Run(s, Turns(s, ids, n - 1));
      RunConcat(s, Turns(s, ids, n - 1), Turn(s, id));
      SameQueue(s, t, Among(ids, n - 1), id);
      TurnOffers(t, id);
      OneMore(Queues(s.all), Among(ids, n - 1), id, s.pc.p);
      assert (s.pc.todo - Among(ids, n - 1)) - {id} == s.pc.todo - Among(ids, n);
    }
  }

  lemma NoneDelivered(q: map<Id, seq<Progress>>, p: Progress)
    ensures Delivered(q, {}, p) == q
  {
  }

  /** Serving others leaves the queue of `id` as it was. */
  lemma SameQueue(s: State, t: State, ids: set<Id>, id: Id)
    requires s.pc.Serving? && id in s.all && id !in ids
    requires Queues(t.all) == Delivered(Queues(s.all), ids, s.pc.p)
    ensures id in t.all && t.all[id].queue == s.all[id].queue && Turn(t, id) == Turn(s, id)
  {
    assert id in Queues(t.all) && Queues(t.all)[id] == Queues(s.all)[id];
  }

  lemma OneMore(q: map<Id, seq<Progress>>, ids: set<Id>, id: Id, p: Progress)
    requires id in q && id !in ids
    ensures Delivered(q, ids + {id}, p) == Delivered(q, ids, p)[id := Offered(q[id], p)]
  {
  }

  /** Publishing by steps, with nothing in between and the subscribers in any order, is what the object does. */
  lemma PublishAlone(s: State, p: Progress, ids: seq<Id>)
    requires Enabled(s, Publish(p)) && Listed(s, ids, |ids|) && Among(ids, |ids|) == s.subs
    ensures var t := Run(s, [Publish(p)] + (Turns(s, ids, |ids|) + [Unlock]));
      && t.pc == Idle && t.subs == s.subs && Latest(t) == p
      && Queues(t.all) == Delivered(Queues(s.all), s.subs, p)
  {
    var s1, turns := Take(s, Publish(p)), Turns(s, ids, |ids|);
    SameTurns(s, s1, ids, |ids|);
    TurnsDeliver(s1, ids, |ids|);
    InBetween(s, Publish(p), turns, Unlock);
    AllServed(Run(s1, turns));
  }

  lemma AllServed(s: State)
    requires s.pc.Serving? && s.pc.todo == {}
    ensures Take(s, Unlock) == s.(pc := Idle)
  {
  }

  lemma InBetween(s: State, first: Step, steps: seq<Step>, last: Step)
    requires Enabled(s, first) && Enabled(Run(Take(s, first), steps), last)
    ensures Run(s, [first] + (steps + [last])) == Take(Run(Take(s, first), steps), last)
  {
    var s1 := Take(s, first);
    RunConcat(s, [first], steps + [last]);
    RunOne(s, first);
    RunConcat(s1, steps, [last]);
    RunOne(Run(s1, steps), last);
  }

  lemma {:induction false} SameTurns(s: State, t: State, ids: seq<Id>, n: nat)
    requires s.all == t.all && n <= |ids| && Listed(s, ids, n)
    ensures Listed(t, ids, n) && Turns(s, ids, n) == Turns(t, ids, n)
  {
    if n > 0 {
      SameTurns(s, t, ids, n - 1);
    }
  }
}
