/** One AI chat call and its effect on the session's history (internal/service/ai.go). */
module AiChat {
  import opened GoStrings
  import opened AiTrim

  /** A request; `prompt` is the text built from action and task. */
  datatype Request = Request(task: string, msgId: string, prompt: string)

  /** What the agent does with a history: it fails, or answers, validly or with thinking only. */
  datatype Outcome = AgentError | Answer(content: string, valid: bool)

  datatype ChatResult = EmptyPrompt | ChatFailed | Replied(content: string)

  function UserMessage(r: Request): Message {
    Message(User, r.prompt, r.msgId, r.task, "")
  }

  function AssistantMessage(content: string): Message {
    Message(Assistant, content, "", "", "")
  }

  // ---- the program ----

  /** The first user message with the given non-empty id, or the length. */
  function FindFrom(msgs: seq<Message>, msgId: string, i: nat): (r: nat)
    requires i <= |msgs|
    ensures i <= r <= |msgs|
    decreases |msgs| - i
  {
    if i == |msgs| || (msgs[i].role == User && msgs[i].msgId == msgId) then i else FindFrom(msgs, msgId, i + 1)
  }

  predicate AnsweredAt(msgs: seq<Message>, i: nat) {
    i + 1 < |msgs| && msgs[i + 1].role == Assistant
  }

  /** The place of the request in the history, and whether an answer follows it. */
  method FindMsgIDUser(msgs: seq<Message>, msgId: string) returns (idx: Option<nat>, answered: bool)
    ensures var i := FindFrom(msgs, msgId, 0);
      if msgId == "" || i == |msgs| then idx == None && !answered
      else idx == Some(i) && answered == AnsweredAt(msgs, i)
  {
    if msgId == "" {
      return None, false;
    }
    for i := 0 to |msgs|
      invariant FindFrom(msgs, msgId, 0) == FindFrom(msgs, msgId, i)
    {
      var m := msgs[i];
      if m.role != User {
        continue;
      }
      if m.msgId == msgId {
        return Some(i), i + 1 < |msgs| && msgs[i + 1].role == Assistant;
      }
    }
    return None, false;
  }

  predicate Dangling(msgs: seq<Message>) {
    msgs != [] && msgs[|msgs| - 1].role == User
  }

  /** The history the agent is asked with, or the stored answer of a request handled before. */
  datatype Prepared = Replay(content: string) | Ask(msgs: seq<Message>, appended: bool)

  function Prepare(msgs: seq<Message>, r: Request): Prepared {
    var i := FindFrom(msgs, r.msgId, 0);
    if r.msgId != "" && i < |msgs| then
      if AnsweredAt(msgs, i) then Replay(msgs[i + 1].content) else Ask(TrimmedHistory(msgs[..i + 1]), false)
    else if Dangling(msgs) then
      var last := msgs[|msgs| - 1];
      if r.msgId == "" && last.raw == r.task then Ask(TrimmedHistory(msgs), false)
      else Ask(TrimmedHistory(msgs[|msgs| - 1 := UserMessage(r)]), false)
    else Ask(TrimmedHistory(msgs + [UserMessage(r)]), r.msgId == "")
  }

  /** The history after the agent's outcome, and what the caller gets. */
  function Finish(p: Prepared, user: Message, o: Outcome): (seq<Message>, ChatResult)
    requires p.Ask?
  {
    if o.Answer? && TrimSpace(o.content) != "" && o.valid then
      (TrimmedHistory(p.msgs + [AssistantMessage(o.content)]), Replied(o.content))
    else if p.appended && p.msgs != [] && p.msgs[|p.msgs| - 1] == user then
      (p.msgs[..|p.msgs| - 1], ChatFailed)
    else (p.msgs, ChatFailed)
  }

  /** One chat call: the history afterwards and the result. */
  function ChatStep(msgs: seq<Message>, r: Request, o: Outcome): (seq<Message>, ChatResult) {
    if TrimSpace(r.task) == "" then (msgs, EmptyPrompt)
    else
      var p := Prepare(msgs, r);
      match p
      case Replay(content) => (msgs, Replied(content))
      case Ask(_, _) => Finish(p, UserMessage(r), o)
  }

  class AISession {
    var messages: seq<Message>

    constructor (systemPrompt: string)
      ensures messages == [Message(System, systemPrompt, "", "", "")]
    {
      messages := [Message(System, systemPrompt, "", "", "")];
    }

    /** Asks the agent with the history as it stands; an accepted answer is appended. */
    method AgentChat(o: Outcome) returns (result: ChatResult)
      modifies this
      ensures (messages, result) == Finish(Ask(old(messages), false), AssistantMessage(""), o)
    {
      if o.AgentError? || TrimSpace(o.content) == "" || !o.valid {
        return ChatFailed;
      }
      messages := messages + [AssistantMessage(o.content)];
      messages := TrimMessages(messages);
      return Replied(o.content);
    }

    /** The common end of every branch: trim, then ask. */
    method TrimAndAsk(o: Outcome) returns (result: ChatResult)
      modifies this
      ensures (messages, result) == Finish(Ask(TrimmedHistory(old(messages)), false), AssistantMessage(""), o)
    {
      messages := TrimMessages(messages);
      result := AgentChat(o);
    }

    /** A request with an id: replayed, resumed, put in place of a dangling one, or appended. */
    method ChatWithId(r: Request, o: Outcome) returns (result: ChatResult)
      requires TrimSpace(r.task) != "" && r.msgId != ""
      modifies this
      ensures (messages, result) == ChatStep(old(messages), r, o)
    {
      var idx, answered := FindMsgIDUser(messages, r.msgId);
      if idx.Some? {
        if answered {
          return Replied(messages[idx.value + 1].content);
        }
        messages := messages[..idx.value + 1];
        result := TrimAndAsk(o);
        return;
      }
      var n := |messages|;
      if n > 0 && messages[n - 1].role == User {
        messages := messages[n - 1 := UserMessage(r)];
        result := TrimAndAsk(o);
        return;
      }
      messages := messages + [UserMessage(r)];
      result := TrimAndAsk(o);
    }

    method Chat(r: Request, o: Outcome) returns (result: ChatResult)
      modifies this
      ensures (messages, result) == ChatStep(old(messages), r, o)
    {
      if TrimSpace(r.task) == "" {
        return EmptyPrompt;
      }
      if r.msgId != "" {
        result := ChatWithId(r, o);
        return;
      }
      var userMsg := UserMessage(r);
      var n := |messages|;
      if n > 0 && messages[n - 1].role == User {
        if messages[n - 1].raw != r.task {
          messages := messages[n - 1 := userMsg];
        }
        result := TrimAndAsk(o);
        return;
      }
      messages := messages + [userMsg];
      result := TrimAndAsk(o);
      if result == ChatFailed {
        n := |messages|;
        if n > 0 && messages[n - 1] == userMsg {
          messages := messages[..n - 1];
        }
      }
    }
  }
}
