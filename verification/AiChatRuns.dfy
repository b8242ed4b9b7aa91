/** What every run of chat calls keeps: the shape of the history, distinct request ids, idempotent retries. */
module AiChatRuns {
  import opened GoStrings
  import opened AiTrim
  import opened AiChat

  /** The system message, then user and assistant in turn; an even length means a dangling user at the end. */
  ghost predicate Alternating(msgs: seq<Message>) {
    && msgs != [] && msgs[0].role == System
    && forall i :: 1 <= i < |msgs| ==> msgs[i].role == if i % 2 == 1 then User else Assistant
  }

  ghost predicate DistinctIds(msgs: seq<Message>) {
    forall i, j :: 0 <= i < j < |msgs| && msgs[i].role == User && msgs[j].role == User && msgs[i].msgId != ""
      ==> msgs[i].msgId != msgs[j].msgId
  }

  ghost predicate Good(msgs: seq<Message>) {
    Alternating(msgs) && DistinctIds(msgs)
  }

  /** `a` ends as `b` does: the same dangling user, or the same last turn. */
  ghost predicate SameEnd(a: seq<Message>, b: seq<Message>) {
    && a != [] && b != [] && |a| % 2 == |b| % 2 && (|a| == 1 <==> |b| == 1)
    && a[|a| - 1] == b[|b| - 1]
    && (|b| >= 3 ==> |b| % 2 == 1 ==> a[|a| - 2] == b[|b| - 2])
  }

  ghost predicate IdAbsent(msgs: seq<Message>, id: string) {
    forall i :: 0 <= i < |msgs| && msgs[i].role == User ==> msgs[i].msgId != id
  }

  // ---- trimming ----

  /** A turn of an alternating history, other than the last round, as a range. */
  predicate IsTurn(msgs: seq<Message>, r: Range) {
    r.s % 2 == 1 && r.e == r.s + 2 && r.e < |msgs|
  }

  lemma {:induction false} OldRoundsAreTurns(msgs: seq<Message>, start: nat)
    requires Alternating(msgs) && start % 2 == 1 && start <= |msgs|
    ensures forall r :: r in OldRounds(msgs, start) ==> IsTurn(msgs, r)
    decreases |msgs| - start
  {
    if start + 2 < |msgs| {
      assert NextUser(msgs, start) == start;
      assert NextUser(msgs, start + 1) == NextUser(msgs, start + 2) == start + 2;
      OldRoundsAreTurns(msgs, start + 2);
    } else if start + 1 < |msgs| {
      assert NextUser(msgs, start + 1) == NextUser(msgs, start + 2) == |msgs|;
    }
  }

  lemma TurnRemoved(msgs: seq<Message>, r: Range)
    requires Good(msgs) && IsTurn(msgs, r)
    ensures Good(Removed(msgs, r)) && SameEnd(Removed(msgs, r), msgs)
  {
    var m := Removed(msgs, r);
    assert forall i :: 0 <= i < r.s ==> m[i] == msgs[i];
    assert forall i :: r.s <= i < |m| ==> m[i] == msgs[i + 2];
  }

  lemma TargetIsTurn(msgs: seq<Message>)
    requires Good(msgs)
    ensures Target(msgs).Some? ==> IsTurn(msgs, Target(msgs).value)
    ensures OldRounds(msgs, 1) != [] ==> OldRounds(msgs, 1)[0].s == 1 && IsTurn(msgs, OldRounds(msgs, 1)[0])
  {
    OldRoundsAreTurns(msgs, 1);
    assert OldRounds(msgs, 1) != [] ==> OldRounds(msgs, 1)[0] in OldRounds(msgs, 1);
  }

  lemma SameEndTrans(a: seq<Message>, b: seq<Message>, c: seq<Message>)
    requires SameEnd(a, b) && SameEnd(b, c)
    ensures SameEnd(a, c)
  {
  }

  lemma {:induction false} CharStageGood(msgs: seq<Message>)
    requires Good(msgs)
    ensures Good(CharStage(msgs)) && SameEnd(CharStage(msgs), msgs)
    decreases |msgs|
  {
    if HistoryChars(msgs) > MAX_HISTORY_CHARS && |msgs| > 2 && Target(msgs).Some? {
      TargetIsTurn(msgs);
      var m := Removed(msgs, Target(msgs).value);
      TurnRemoved(msgs, Target(msgs).value);
      CharStageGood(m);
      SameEndTrans(CharStage(m), m, msgs);
    }
  }

  lemma {:induction false} CountStageGood(msgs: seq<Message>)
    requires Good(msgs)
    ensures Good(CountStage(msgs)) && SameEnd(CountStage(msgs), msgs)
    decreases |msgs|
  {
    if |msgs| > MAX_MESSAGES && OldRounds(msgs, 1) != [] {
      TargetIsTurn(msgs);
      var m := Removed(msgs, OldRounds(msgs, 1)[0]);
      TurnRemoved(msgs, OldRounds(msgs, 1)[0]);
      CountStageGood(m);
      SameEndTrans(CountStage(m), m, msgs);
    }
  }

  /** Trimming keeps the shape, the distinct ids and the last round. */
  lemma TrimmedGood(msgs: seq<Message>)
    requires Good(msgs)
    ensures Good(TrimmedHistory(msgs)) && SameEnd(TrimmedHistory(msgs), msgs)
  {
    CharStageGood(msgs);
    CountStageGood(CharStage(msgs));
    SameEndTrans(TrimmedHistory(msgs), CharStage(msgs), msgs);
  }

  // ---- finding a request ----

  lemma {:induction false} FindFromIsFirst(msgs: seq<Message>, id: string, i: nat)
    requires i <= |msgs|
    ensures var r := FindFrom(msgs, id, i);
      && (r < |msgs| ==> msgs[r].role == User && msgs[r].msgId == id)
      && forall k :: i <= k < r ==> msgs[k].role != User || msgs[k].msgId != id
    decreases |msgs| - i
  {
    if i < |msgs| && (msgs[i].role != User || msgs[i].msgId != id) {
      FindFromIsFirst(msgs, id, i + 1);
    }
  }

  /** In a good history a request that is there is found where it stands. */
  lemma FindsIt(msgs: seq<Message>, id: string, i: nat)
    requires Good(msgs) && id != "" && i < |msgs| && msgs[i].role == User && msgs[i].msgId == id
    ensures FindFrom(msgs, id, 0) == i
  {
    FindFromIsFirst(msgs, id, 0);
  }

  /** A request found without an answer is the last message, so truncating behind it removes nothing. */
  lemma TruncatingRemovesNothing(msgs: seq<Message>, id: string)
    requires Good(msgs) && id != ""
    requires var i := FindFrom(msgs, id, 0); i < |msgs| && !AnsweredAt(msgs, i)
    ensures msgs[..FindFrom(msgs, id, 0) + 1] == msgs
  {
    FindFromIsFirst(msgs, id, 0);
  }

  // ---- one call ----

  /** Ready for the agent: good, and ending with a user message. */
  ghost predicate Ready(msgs: seq<Message>, last: Message) {
    Good(msgs) && Dangling(msgs) && msgs[|msgs| - 1] == last
  }

  lemma TrimmedReady(msgs: seq<Message>, last: Message)
    requires Ready(msgs, last)
    ensures Ready(TrimmedHistory(msgs), last)
  {
    TrimmedGood(msgs);
  }

  /** A prepared history ends with the user message asked for: the request's own, or one it resumes. */
  lemma PreparedReady(msgs: seq<Message>, r: Request) returns (last: Message)
    requires Good(msgs) && Prepare(msgs, r).Ask?
    ensures Ready(Prepare(msgs, r).msgs, last)
    ensures r.msgId != "" ==> last.msgId == r.msgId
    ensures r.msgId == "" ==> last.raw == r.task
    ensures Prepare(msgs, r).appended ==> last == UserMessage(r)
  {
    var i := FindFrom(msgs, r.msgId, 0);
    FindFromIsFirst(msgs, r.msgId, 0);
    if r.msgId != "" && i < |msgs| {
      TruncatingRemovesNothing(msgs, r.msgId);
      last := msgs[i];
      TrimmedReady(msgs, last);
    } else if Dangling(msgs) && r.msgId == "" && msgs[|msgs| - 1].raw == r.task {
      last := msgs[|msgs| - 1];
      TrimmedReady(msgs, last);
    } else {
      last := UserMessage(r);
      if Dangling(msgs) {
        ReplacedGood(msgs, r);
        TrimmedReady(msgs[|msgs| - 1 := last], last);
      } else {
        AppendedGood(msgs, r);
        TrimmedReady(msgs + [last], last);
      }
    }
  }

  lemma ReplacedGood(msgs: seq<Message>, r: Request)
    requires Good(msgs) && Dangling(msgs) && (r.msgId == "" || IdAbsent(msgs, r.msgId))
    ensures Ready(msgs[|msgs| - 1 := UserMessage(r)], UserMessage(r))
  {
  }

  lemma AppendedGood(msgs: seq<Message>, r: Request)
    requires Good(msgs) && !Dangling(msgs) && (r.msgId == "" || IdAbsent(msgs, r.msgId))
    ensures Ready(msgs + [UserMessage(r)], UserMessage(r))
  {
    assert msgs[|msgs| - 1].role != User;
  }

  lemma AnsweredGood(msgs: seq<Message>, content: string)
    requires Good(msgs) && Dangling(msgs)
    ensures Good(msgs + [AssistantMessage(content)])
  {
  }

  lemma PrefixGood(msgs: seq<Message>, n: nat)
    requires Good(msgs) && 0 < n <= |msgs|
    ensures Good(msgs[..n])
  {
  }

  /** Every chat call, successful or not, keeps the history good. */
  lemma ChatKeepsGood(msgs: seq<Message>, r: Request, o: Outcome)
    requires Good(msgs)
    ensures Good(ChatStep(msgs, r, o).0)
  {
    if TrimSpace(r.task) != "" && Prepare(msgs, r).Ask? {
      var p := Prepare(msgs, r);
      var _ := PreparedReady(msgs, r);
      assert p.msgs[0].role == System;
      if o.Answer? {
        AnsweredGood(p.msgs, o.content);
        TrimmedGood(p.msgs + [AssistantMessage(o.content)]);
      }
      PrefixGood(p.msgs, |p.msgs| - 1);
    }
  }

  lemma OddWithUser(msgs: seq<Message>)
    requires Good(msgs) && Dangling(msgs)
    ensures |msgs| % 2 == 0 && |msgs| >= 2
  {
  }

  /**
   Retrying a request right after its call succeeded replays the same answer and leaves the history as it
   is, whatever the agent would do now, and whatever trimming did in between.
   */
  lemma RetryReplays(msgs: seq<Message>, r: Request, o: Outcome, again: Request, o': Outcome)
    requires Good(msgs) && r.msgId != "" && ChatStep(msgs, r, o).1.Replied?
    requires again.msgId == r.msgId && TrimSpace(again.task) != ""
    ensures var after := ChatStep(msgs, r, o); ChatStep(after.0, again, o') == after
  {
    var (after, reply) := ChatStep(msgs, r, o);
    ChatKeepsGood(msgs, r, o);
    RepliedHasTurn(msgs, r, o);
    ReplaysExactlyWhen(after, again, reply.content);
  }

  /** A request answered now ends the history: its user message, or the one it resumes, and the answer. */
  lemma AnswerComesLast(msgs: seq<Message>, r: Request, o: Outcome)
    requires Good(msgs) && TrimSpace(r.task) != "" && Prepare(msgs, r).Ask? && ChatStep(msgs, r, o).1.Replied?
    ensures var after := ChatStep(msgs, r, o).0;
      var n := |after|;
      && n >= 3 && after[n - 1] == AssistantMessage(o.content) && after[n - 2].role == User
      && (r.msgId != "" ==> after[n - 2].msgId == r.msgId)
      && (r.msgId == "" ==> after[n - 2].raw == r.task)
  {
    OnReply(msgs, r, o);
    PreparedIsAnswered(msgs, r, o.content);
  }

  lemma PreparedIsAnswered(msgs: seq<Message>, r: Request, content: string)
    requires Good(msgs) && Prepare(msgs, r).Ask?
    ensures var after := TrimmedHistory(Prepare(msgs, r).msgs + [AssistantMessage(content)]);
      var n := |after|;
      && n >= 3 && after[n - 1] == AssistantMessage(content) && after[n - 2].role == User
      && (r.msgId != "" ==> after[n - 2].msgId == r.msgId)
      && (r.msgId == "" ==> after[n - 2].raw == r.task)
  {
    var last := PreparedReady(msgs, r);
    AnsweredEnds(Prepare(msgs, r).msgs, last, content);
  }

  lemma OnReply(msgs: seq<Message>, r: Request, o: Outcome)
    requires TrimSpace(r.task) != "" && Prepare(msgs, r).Ask? && ChatStep(msgs, r, o).1.Replied?
    ensures o.Answer?
    ensures ChatStep(msgs, r, o).0 == TrimmedHistory(Prepare(msgs, r).msgs + [AssistantMessage(o.content)])
  {
  }

  lemma OnFailure(msgs: seq<Message>, r: Request, o: Outcome)
    requires ChatStep(msgs, r, o).1.ChatFailed? && Prepare(msgs, r).Ask? && Prepare(msgs, r).msgs != []
    ensures var p := Prepare(msgs, r);
      var taken := p.appended && p.msgs[|p.msgs| - 1] == UserMessage(r);
      ChatStep(msgs, r, o).0 == if taken then p.msgs[..|p.msgs| - 1] else p.msgs
  {
  }

  lemma AnsweredEnds(msgs: seq<Message>, last: Message, content: string)
    requires Ready(msgs, last)
    ensures var after := TrimmedHistory(msgs + [AssistantMessage(content)]);
      |after| >= 3 && after[|after| - 1] == AssistantMessage(content) && after[|after| - 2] == last
  {
    var full := msgs + [AssistantMessage(content)];
    OddWithUser(msgs);
    AnsweredGood(msgs, content);
    TrimmedGood(full);
    assert full[|full| - 2] == last;
  }

  /**
   A failed call without an id takes its user message back, except where it took the place of a dangling one: the
   history ends in a user message afterwards exactly if it did before.
   */
  lemma FailureIsTakenBack(msgs: seq<Message>, r: Request, o: Outcome)
    requires Good(msgs) && r.msgId == "" && ChatStep(msgs, r, o).1.ChatFailed?
    ensures var after := ChatStep(msgs, r, o).0;
      && (Dangling(after) <==> Dangling(msgs))
      && (!Dangling(msgs) ==> after + [UserMessage(r)] == TrimmedHistory(msgs + [UserMessage(r)]))
      && (Dangling(msgs) ==> after[|after| - 1].raw == r.task)
  {
    var p := Prepare(msgs, r).msgs;
    var last := PreparedReady(msgs, r);
    OnFailure(msgs, r, o);
    if !Dangling(msgs) {
      assert Prepare(msgs, r) == Ask(TrimmedHistory(msgs + [UserMessage(r)]), true);
      TakenBack(p, last);
    }
  }

  lemma TakenBack(msgs: seq<Message>, last: Message)
    requires Ready(msgs, last)
    ensures !Dangling(msgs[..|msgs| - 1]) && msgs[..|msgs| - 1] + [last] == msgs
  {
    assert msgs[0].role == System;
  }

  /** A failed call with an id leaves its request dangling; a retry resumes it and does not add another. */
  lemma FailureIsResumed(msgs: seq<Message>, r: Request, o: Outcome, again: Request)
    requires Good(msgs) && r.msgId != "" && ChatStep(msgs, r, o).1.ChatFailed? && again.msgId == r.msgId
    ensures var after := ChatStep(msgs, r, o).0;
      && Dangling(after) && after[|after| - 1].msgId == r.msgId
      && Prepare(after, again) == Ask(TrimmedHistory(after), false)
  {
    var last := PreparedReady(msgs, r);
    var after := ChatStep(msgs, r, o).0;
    OnFailure(msgs, r, o);
    FindsIt(after, r.msgId, |after| - 1);
    assert after[..|after|] == after;
  }

  // ---- whole runs ----

  datatype Call = Call(r: Request, o: Outcome)

  function RunAll(msgs: seq<Message>, calls: seq<Call>): seq<Message> {
    if calls == [] then msgs
    else ChatStep(RunAll(msgs, calls[..|calls| - 1]), calls[|calls| - 1].r, calls[|calls| - 1].o).0
  }

  /** From a fresh session, after any calls that succeed or fail, the history is good. */
  lemma {:induction false} EveryRunIsGood(systemPrompt: string, calls: seq<Call>)
    ensures Good(RunAll([Message(System, systemPrompt, "", "", "")], calls))
  {
    if calls != [] {
      var last := |calls| - 1;
      EveryRunIsGood(systemPrompt, calls[..last]);
      ChatKeepsGood(RunAll([Message(System, systemPrompt, "", "", "")], calls[..last]), calls[last].r, calls[last].o);
    }
  }

  /** In every run a success can be retried: the answer is the same and the history unchanged. */
  lemma RetryAfterAnyRun(systemPrompt: string, calls: seq<Call>, again: Request, o: Outcome)
    requires calls != []
    requires var before := RunAll([Message(System, systemPrompt, "", "", "")], calls[..|calls| - 1]);
      var last := calls[|calls| - 1];
      && last.r.msgId != "" && ChatStep(before, last.r, last.o).1.Replied?
      && again.msgId == last.r.msgId && TrimSpace(again.task) != ""
    ensures var msgs := RunAll([Message(System, systemPrompt, "", "", "")], calls);
      var before := RunAll([Message(System, systemPrompt, "", "", "")], calls[..|calls| - 1]);
      ChatStep(msgs, again, o) == (msgs, ChatStep(before, calls[|calls| - 1].r, calls[|calls| - 1].o).1)
  {
    var before := RunAll([Message(System, systemPrompt, "", "", "")], calls[..|calls| - 1]);
    EveryRunIsGood(systemPrompt, calls[..|calls| - 1]);
    RetryReplays(before, calls[|calls| - 1].r, calls[|calls| - 1].o, again, o);
  }

  // ---- retries at any later time ----

  /** The request with this id is in the history, and this is its answer. */
  predicate TurnAt(msgs: seq<Message>, id: string, content: string, i: nat) {
    && i + 1 < |msgs| && msgs[i].role == User && msgs[i].msgId == id
    && msgs[i + 1].role == Assistant && msgs[i + 1].content == content
  }

  ghost predicate HasTurn(msgs: seq<Message>, id: string, content: string) {
    exists i: nat :: TurnAt(msgs, id, content, i)
  }

  /** The turn is there, or nothing of it. */
  ghost predicate WholeOrGone(msgs: seq<Message>, id: string, content: string) {
    HasTurn(msgs, id, content) || IdAbsent(msgs, id)
  }

  lemma RemovedWholeOrGone(msgs: seq<Message>, r: Range, id: string, content: string)
    requires Good(msgs) && id != "" && IsTurn(msgs, r) && WholeOrGone(msgs, id, content)
    ensures WholeOrGone(Removed(msgs, r), id, content)
  {
    var m := Removed(msgs, r);
    assert forall i :: 0 <= i < r.s ==> m[i] == msgs[i];
    assert forall i :: r.s <= i < |m| ==> m[i] == msgs[i + 2];
    if i: nat :| TurnAt(msgs, id, content, i) {
      if i < r.s {
        assert TurnAt(m, id, content, i);
      } else if i >= r.e {
        assert TurnAt(m, id, content, i - 2);
      }
    }
  }

  lemma {:induction false} CharStageWholeOrGone(msgs: seq<Message>, id: string, content: string)
    requires Good(msgs) && id != "" && WholeOrGone(msgs, id, content)
    ensures WholeOrGone(CharStage(msgs), id, content)
    decreases |msgs|
  {
    if HistoryChars(msgs) > MAX_HISTORY_CHARS && |msgs| > 2 && Target(msgs).Some? {
      TargetIsTurn(msgs);
      TurnRemoved(msgs, Target(msgs).value);
      RemovedWholeOrGone(msgs, Target(msgs).value, id, content);
      CharStageWholeOrGone(Removed(msgs, Target(msgs).value), id, content);
    }
  }

  lemma {:induction false} CountStageWholeOrGone(msgs: seq<Message>, id: string, content: string)
    requires Good(msgs) && id != "" && WholeOrGone(msgs, id, content)
    ensures WholeOrGone(CountStage(msgs), id, content)
    decreases |msgs|
  {
    if |msgs| > MAX_MESSAGES && OldRounds(msgs, 1) != [] {
      TargetIsTurn(msgs);
      TurnRemoved(msgs, OldRounds(msgs, 1)[0]);
      RemovedWholeOrGone(msgs, OldRounds(msgs, 1)[0], id, content);
      CountStageWholeOrGone(Removed(msgs, OldRounds(msgs, 1)[0]), id, content);
    }
  }

  lemma TrimmedWholeOrGone(msgs: seq<Message>, id: string, content: string)
    requires Good(msgs) && id != "" && WholeOrGone(msgs, id, content)
    ensures WholeOrGone(TrimmedHistory(msgs), id, content)
  {
    CharStageWholeOrGone(msgs, id, content);
    CharStageGood(msgs);
    CountStageWholeOrGone(CharStage(msgs), id, content);
  }

  lemma ReplacedWholeOrGone(msgs: seq<Message>, last: Message, id: string, content: string)
    requires Good(msgs) && Dangling(msgs) && last.role == User && last.msgId != id && WholeOrGone(msgs, id, content)
    ensures WholeOrGone(msgs[|msgs| - 1 := last], id, content)
  {
    if i: nat :| TurnAt(msgs, id, content, i) {
      assert TurnAt(msgs[|msgs| - 1 := last], id, content, i);
    }
  }

  lemma AppendedWholeOrGone(msgs: seq<Message>, last: Message, id: string, content: string)
    requires last.role == User ==> last.msgId != id
    requires WholeOrGone(msgs, id, content)
    ensures WholeOrGone(msgs + [last], id, content)
  {
    if i: nat :| TurnAt(msgs, id, content, i) {
      assert TurnAt(msgs + [last], id, content, i);
    }
  }

  lemma TakenBackWholeOrGone(msgs: seq<Message>, id: string, content: string)
    requires Dangling(msgs) && WholeOrGone(msgs, id, content)
    ensures WholeOrGone(msgs[..|msgs| - 1], id, content)
  {
    if i: nat :| TurnAt(msgs, id, content, i) {
      assert TurnAt(msgs[..|msgs| - 1], id, content, i);
    }
  }

  lemma PreparedWholeOrGone(msgs: seq<Message>, r: Request, id: string, content: string)
    requires Good(msgs) && id != "" && r.msgId != id && WholeOrGone(msgs, id, content) && Prepare(msgs, r).Ask?
    ensures WholeOrGone(Prepare(msgs, r).msgs, id, content)
  {
    var i := FindFrom(msgs, r.msgId, 0);
    FindFromIsFirst(msgs, r.msgId, 0);
    if r.msgId != "" && i < |msgs| {
      TruncatingRemovesNothing(msgs, r.msgId);
      TrimmedWholeOrGone(msgs, id, content);
    } else if Dangling(msgs) && r.msgId == "" && msgs[|msgs| - 1].raw == r.task {
      TrimmedWholeOrGone(msgs, id, content);
    } else if Dangling(msgs) {
      ReplacedGood(msgs, r);
      ReplacedWholeOrGone(msgs, UserMessage(r), id, content);
      TrimmedWholeOrGone(msgs[|msgs| - 1 := UserMessage(r)], id, content);
    } else {
      AppendedGood(msgs, r);
      AppendedWholeOrGone(msgs, UserMessage(r), id, content);
      TrimmedWholeOrGone(msgs + [UserMessage(r)], id, content);
    }
  }

  /** No call with another id breaks up a turn. */
  lemma StepWholeOrGone(msgs: seq<Message>, r: Request, o: Outcome, id: string, content: string)
    requires Good(msgs) && id != "" && r.msgId != id && WholeOrGone(msgs, id, content)
    ensures WholeOrGone(ChatStep(msgs, r, o).0, id, content)
  {
    if TrimSpace(r.task) != "" && Prepare(msgs, r).Ask? {
      var last := PreparedReady(msgs, r);
      PreparedWholeOrGone(msgs, r, id, content);
      FinishedWholeOrGone(Prepare(msgs, r), UserMessage(r), o, last, id, content);
    }
  }

  lemma FinishedWholeOrGone(p: Prepared, user: Message, o: Outcome, last: Message, id: string, content: string)
    requires p.Ask? && Ready(p.msgs, last) && id != "" && WholeOrGone(p.msgs, id, content)
    ensures WholeOrGone(Finish(p, user, o).0, id, content)
  {
    TakenBackWholeOrGone(p.msgs, id, content);
    if o.Answer? {
      AnsweredWholeOrGone(p.msgs, o.content, id, content);
    }
  }

  lemma AnsweredWholeOrGone(msgs: seq<Message>, answer: string, id: string, content: string)
    requires Good(msgs) && Dangling(msgs) && id != "" && WholeOrGone(msgs, id, content)
    ensures WholeOrGone(TrimmedHistory(msgs + [AssistantMessage(answer)]), id, content)
  {
    AppendedWholeOrGone(msgs, AssistantMessage(answer), id, content);
    AnsweredGood(msgs, answer);
    TrimmedWholeOrGone(msgs + [AssistantMessage(answer)], id, content);
  }

  lemma {:induction false} RunWholeOrGone(msgs: seq<Message>, calls: seq<Call>, id: string, content: string)
    requires Good(msgs) && id != "" && WholeOrGone(msgs, id, content)
    requires forall c :: c in calls ==> c.r.msgId != id
    ensures Good(RunAll(msgs, calls)) && WholeOrGone(RunAll(msgs, calls), id, content)
  {
    if calls != [] {
      var before, c := calls[..|calls| - 1], calls[|calls| - 1];
      RunWholeOrGone(msgs, before, id, content);
      ChatKeepsGood(RunAll(msgs, before), c.r, c.o);
      StepWholeOrGone(RunAll(msgs, before), c.r, c.o, id, content);
    }
  }

  /** In a good history a request with an id is replayed exactly if its answered turn is there. */
  lemma ReplaysExactlyWhen(msgs: seq<Message>, r: Request, content: string)
    requires Good(msgs) && r.msgId != ""
    ensures Prepare(msgs, r) == Replay(content) <==> HasTurn(msgs, r.msgId, content)
    ensures IdAbsent(msgs, r.msgId) ==>
      Prepare(msgs, r).Ask? && Ready(Prepare(msgs, r).msgs, UserMessage(r))
  {
    var i := FindFrom(msgs, r.msgId, 0);
    FindFromIsFirst(msgs, r.msgId, 0);
    if Prepare(msgs, r) == Replay(content) {
      assert TurnAt(msgs, r.msgId, content, i);
    }
    if j: nat :| TurnAt(msgs, r.msgId, content, j) {
      FindsIt(msgs, r.msgId, j);
    }
    if IdAbsent(msgs, r.msgId) {
      if Dangling(msgs) {
        ReplacedGood(msgs, r);
        TrimmedReady(msgs[|msgs| - 1 := UserMessage(r)], UserMessage(r));
      } else {
        AppendedGood(msgs, r);
        TrimmedReady(msgs + [UserMessage(r)], UserMessage(r));
      }
    }
  }

  lemma RepliedHasTurn(msgs: seq<Message>, r: Request, o: Outcome)
    requires Good(msgs) && r.msgId != "" && ChatStep(msgs, r, o).1.Replied?
    ensures HasTurn(ChatStep(msgs, r, o).0, r.msgId, ChatStep(msgs, r, o).1.content)
  {
    var (after, reply) := ChatStep(msgs, r, o);
    if Prepare(msgs, r).Ask? {
      AnswerComesLast(msgs, r, o);
      assert TurnAt(after, r.msgId, reply.content, |after| - 2);
    } else {
      ReplaysExactlyWhen(msgs, r, reply.content);
    }
  }

  /**
   However many other calls lie in between, retrying a request that was answered replays its answer exactly if
   trimming has left the turn in the history; otherwise nothing of it is left, and the request is asked anew.
   */
  lemma RetryMuchLater(msgs: seq<Message>, r: Request, o: Outcome, calls: seq<Call>, again: Request, o': Outcome)
    requires Good(msgs) && r.msgId != "" && ChatStep(msgs, r, o).1.Replied?
    requires forall c :: c in calls ==> c.r.msgId != r.msgId
    requires again.msgId == r.msgId && TrimSpace(again.task) != ""
    ensures var (after, reply) := ChatStep(msgs, r, o);
      var later := RunAll(after, calls);
      if HasTurn(later, r.msgId, reply.content) then ChatStep(later, again, o') == (later, reply)
      else
        && IdAbsent(later, r.msgId)
        && Prepare(later, again).Ask? && Ready(Prepare(later, again).msgs, UserMessage(again))
  {
    var (after, reply) := ChatStep(msgs, r, o);
    ChatKeepsGood(msgs, r, o);
    RepliedHasTurn(msgs, r, o);
    RunWholeOrGone(after, calls, r.msgId, reply.content);
    ReplaysExactlyWhen(RunAll(after, calls), again, reply.content);
  }
}
