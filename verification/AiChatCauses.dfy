/** Where the messages of a session come from: which outcomes become answers, and to which requests. */
module AiChatCauses {
  import opened GoStrings
  import opened AiTrim
  import opened AiChat
  import opened AiChatRuns

  /** An answer is one the validation accepts and that is more than white space. */
  predicate IsAnswer(o: Outcome, content: string) {
    o.Answer? && o.content == content && o.valid && !AllSpace(content)
  }

  /** A request that is asked is replied to exactly with an answer, and fails otherwise; a blank task does nothing. */
  lemma RepliesExactlyWhen(msgs: seq<Message>, r: Request, o: Outcome, content: string)
    ensures AllSpace(r.task) ==> ChatStep(msgs, r, o) == (msgs, EmptyPrompt)
    ensures !AllSpace(r.task) && Prepare(msgs, r).Ask? ==>
      && (ChatStep(msgs, r, o).1 == Replied(content) <==> IsAnswer(o, content))
      && (ChatStep(msgs, r, o).1 == ChatFailed <==> forall c :: !IsAnswer(o, c))
  {
    BlankIsTrimmed(r.task);
    if o.Answer? {
      BlankIsTrimmed(o.content);
      assert o.valid && !AllSpace(o.content) ==> IsAnswer(o, o.content);
    }
  }

  /** The user message of a request. */
  predicate AsksFor(m: Message, r: Request) {
    && m.role == User && m.content == r.prompt && m.msgId == r.msgId && m.raw == r.task && |m.toolName| == 0
    && !AllSpace(r.task)
  }

  /** A request with its answer: the user message carries the id, or without one the text, of the call answered. */
  predicate TurnBy(user: Message, answer: Message, c: Call) {
    && user.role == User && (if c.r.msgId != "" then user.msgId == c.r.msgId else user.raw == c.r.task)
    && answer.role == Assistant && IsAnswer(c.o, answer.content)
    && |answer.msgId| == 0 && |answer.raw| == 0 && |answer.toolName| == 0
  }

  ghost predicate Asked(calls: seq<Call>, m: Message) {
    exists n :: 0 <= n < |calls| && AsksFor(m, calls[n].r)
  }

  ghost predicate Answered(calls: seq<Call>, user: Message, answer: Message) {
    exists n :: 0 <= n < |calls| && TurnBy(user, answer, calls[n])
  }

  /** The system prompt comes first, every user message is of a call, and every other message answers the one before. */
  ghost predicate Caused(prompt: string, calls: seq<Call>, msgs: seq<Message>) {
    && msgs != [] && msgs[0].content == prompt
    && (forall i :: 1 <= i < |msgs| && msgs[i].role == User ==> Asked(calls, msgs[i]))
    && (forall i :: 1 <= i < |msgs| && msgs[i].role != User ==> Answered(calls, msgs[i - 1], msgs[i]))
  }

  // ---- trimming leaves out whole turns ----

  lemma RemovedCaused(prompt: string, calls: seq<Call>, msgs: seq<Message>, r: Range)
    requires Good(msgs) && IsTurn(msgs, r) && Caused(prompt, calls, msgs)
    ensures Caused(prompt, calls, Removed(msgs, r))
  {
    var m := Removed(msgs, r);
    assert forall i :: 0 <= i < r.s ==> m[i] == msgs[i];
    assert forall i :: r.s <= i < |m| ==> m[i] == msgs[i + 2];
    forall i | 1 <= i < |m| && m[i].role != User
      ensures Answered(calls, m[i - 1], m[i])
    {
      if i > r.s {
        assert m[i - 1] == msgs[i + 1];
      }
    }
  }

  lemma {:induction false} CharStageCaused(prompt: string, calls: seq<Call>, msgs: seq<Message>)
    requires Good(msgs) && Caused(prompt, calls, msgs)
    ensures Caused(prompt, calls, CharStage(msgs))
    decreases |msgs|
  {
    if HistoryChars(msgs) > MAX_HISTORY_CHARS && |msgs| > 2 && Target(msgs).Some? {
      TargetIsTurn(msgs);
      TurnRemoved(msgs, Target(msgs).value);
      RemovedCaused(prompt, calls, msgs, Target(msgs).value);
      CharStageCaused(prompt, calls, Removed(msgs, Target(msgs).value));
    }
  }

  lemma {:induction false} CountStageCaused(prompt: string, calls: seq<Call>, msgs: seq<Message>)
    requires Good(msgs) && Caused(prompt, calls, msgs)
    ensures Caused(prompt, calls, CountStage(msgs))
    decreases |msgs|
  {
    if |msgs| > MAX_MESSAGES && OldRounds(msgs, 1) != [] {
      TargetIsTurn(msgs);
      TurnRemoved(msgs, OldRounds(msgs, 1)[0]);
      RemovedCaused(prompt, calls, msgs, OldRounds(msgs, 1)[0]);
      CountStageCaused(prompt, calls, Removed(msgs, OldRounds(msgs, 1)[0]));
    }
  }

  lemma TrimmedCaused(prompt: string, calls: seq<Call>, msgs: seq<Message>)
    requires Good(msgs) && Caused(prompt, calls, msgs)
    ensures Caused(prompt, calls, TrimmedHistory(msgs))
  {
    CharStageGood(msgs);
    CharStageCaused(prompt, calls, msgs);
    CountStageCaused(prompt, calls, CharStage(msgs));
  }

  // ---- one call ----

  lemma MoreCalls(prompt: string, calls: seq<Call>, c: Call, msgs: seq<Message>)
    requires Caused(prompt, calls, msgs)
    ensures Caused(prompt, calls + [c], msgs)
  {
    var more := calls + [c];
    forall i | 1 <= i < |msgs| && msgs[i].role == User
      ensures Asked(more, msgs[i])
    {
      var n :| 0 <= n < |calls| && AsksFor(msgs[i], calls[n].r);
      assert more[n] == calls[n];
    }
    forall i | 1 <= i < |msgs| && msgs[i].role != User
      ensures Answered(more, msgs[i - 1], msgs[i])
    {
      var n :| 0 <= n < |calls| && TurnBy(msgs[i - 1], msgs[i], calls[n]);
      assert more[n] == calls[n];
    }
  }

  lemma UserCaused(prompt: string, calls: seq<Call>, msgs: seq<Message>, n: nat)
    requires Caused(prompt, calls, msgs) && n < |calls| && !AllSpace(calls[n].r.task)
    ensures Caused(prompt, calls, msgs + [UserMessage(calls[n].r)])
    ensures Dangling(msgs) && |msgs| > 1 ==> Caused(prompt, calls, msgs[|msgs| - 1 := UserMessage(calls[n].r)])
  {
    assert AsksFor(UserMessage(calls[n].r), calls[n].r);
  }

  lemma PrefixCaused(prompt: string, calls: seq<Call>, msgs: seq<Message>, n: nat)
    requires Caused(prompt, calls, msgs) && 0 < n <= |msgs|
    ensures Caused(prompt, calls, msgs[..n])
  {
  }

  lemma AnswerCaused(prompt: string, calls: seq<Call>, msgs: seq<Message>, n: nat, content: string)
    requires Caused(prompt, calls, msgs) && n < |calls| && IsAnswer(calls[n].o, content)
    requires TurnBy(msgs[|msgs| - 1], AssistantMessage(content), calls[n])
    ensures Caused(prompt, calls, msgs + [AssistantMessage(content)])
  {
  }

  lemma PreparedCaused(prompt: string, calls: seq<Call>, msgs: seq<Message>, n: nat)
    requires Good(msgs) && Caused(prompt, calls, msgs) && n < |calls| && !AllSpace(calls[n].r.task)
    requires Prepare(msgs, calls[n].r).Ask?
    ensures Caused(prompt, calls, Prepare(msgs, calls[n].r).msgs)
  {
    var r := calls[n].r;
    var i := FindFrom(msgs, r.msgId, 0);
    FindFromIsFirst(msgs, r.msgId, 0);
    UserCaused(prompt, calls, msgs, n);
    if r.msgId != "" && i < |msgs| {
      TruncatingRemovesNothing(msgs, r.msgId);
      TrimmedCaused(prompt, calls, msgs);
    } else if Dangling(msgs) && r.msgId == "" && msgs[|msgs| - 1].raw == r.task {
      TrimmedCaused(prompt, calls, msgs);
    } else if Dangling(msgs) {
      ReplacedGood(msgs, r);
      TrimmedCaused(prompt, calls, msgs[|msgs| - 1 := UserMessage(r)]);
    } else {
      AppendedGood(msgs, r);
      TrimmedCaused(prompt, calls, msgs + [UserMessage(r)]);
    }
  }

  lemma FinishedCaused(prompt: string, calls: seq<Call>, p: Prepared, n: nat, last: Message)
    requires p.Ask? && Ready(p.msgs, last) && Caused(prompt, calls, p.msgs) && n < |calls|
    requires if calls[n].r.msgId != "" then last.msgId == calls[n].r.msgId else last.raw == calls[n].r.task
    ensures Caused(prompt, calls, Finish(p, UserMessage(calls[n].r), calls[n].o).0)
  {
    var o := calls[n].o;
    OddWithUser(p.msgs);
    if o.Answer? {
      BlankIsTrimmed(o.content);
      if IsAnswer(o, o.content) {
        AnswerCaused(prompt, calls, p.msgs, n, o.content);
        AnsweredGood(p.msgs, o.content);
        TrimmedCaused(prompt, calls, p.msgs + [AssistantMessage(o.content)]);
      }
    }
    PrefixCaused(prompt, calls, p.msgs, |p.msgs| - 1);
  }

  lemma StepCaused(prompt: string, calls: seq<Call>, msgs: seq<Message>, n: nat)
    requires Good(msgs) && Caused(prompt, calls, msgs) && n < |calls|
    ensures Caused(prompt, calls, ChatStep(msgs, calls[n].r, calls[n].o).0)
  {
    var r := calls[n].r;
    BlankIsTrimmed(r.task);
    if !AllSpace(r.task) && Prepare(msgs, r).Ask? {
      var last := PreparedReady(msgs, r);
      PreparedCaused(prompt, calls, msgs, n);
      FinishedCaused(prompt, calls, Prepare(msgs, r), n, last);
    }
  }

  /**
   In every run from a fresh session every user message is that of a call, and every answer is the valid outcome, not
   blank, of a call for the message before it.
   */
  lemma {:induction false} EveryMessageHasACause(prompt: string, calls: seq<Call>)
    ensures Caused(prompt, calls, RunAll([Message(System, prompt, "", "", "")], calls))
  {
    if calls != [] {
      var n := |calls| - 1;
      var before := calls[..n];
      var msgs := RunAll([Message(System, prompt, "", "", "")], before);
      EveryMessageHasACause(prompt, before);
      EveryRunIsGood(prompt, before);
      MoreCalls(prompt, before, calls[n], msgs);
      assert calls == before + [calls[n]];
      StepCaused(prompt, calls, msgs, n);
    }
  }

  // ---- which message the agent is asked with ----

  /**
   Without an id, a request for the text that dangles at the end resumes this very message. Any other new request takes
   the place of a message that dangles, or is added. Everything in front stays, until it is trimmed.
   */
  lemma AskedWith(msgs: seq<Message>, r: Request)
    requires Good(msgs) && (r.msgId == "" || IdAbsent(msgs, r.msgId))
    ensures var n, p := |msgs| - 1, Prepare(msgs, r);
      var resumed := msgs[n].role == User && r.msgId == "" && msgs[n].raw == r.task;
      && p.Ask?
      && (resumed ==> p.msgs == TrimmedHistory(msgs))
      && (msgs[n].role == User && !resumed ==> p.msgs == TrimmedHistory(msgs[..n] + [UserMessage(r)]))
      && (msgs[n].role != User ==> p.msgs == TrimmedHistory(msgs + [UserMessage(r)]))
      && AsksFor(UserMessage(r), r) == !AllSpace(r.task)
  {
    FindFromIsFirst(msgs, r.msgId, 0);
    assert msgs[|msgs| - 1 := UserMessage(r)] == msgs[..|msgs| - 1] + [UserMessage(r)];
  }
}
