/** Trimming of an AI session's history to a character budget and a message count (internal/service/ai.go). */
module AiTrim {
  import opened GoStrings
  import opened Sequences

  const MAX_MESSAGES := 40
  const MAX_HISTORY_CHARS := 24000

  datatype Role = System | User | Assistant | Tool

  datatype Message = Message(role: Role, content: string, msgId: string, raw: string, toolName: string)

  // ---- the program ----

  function HistoryChars(msgs: seq<Message>): nat {
    if msgs == [] then 0 else HistoryChars(msgs[..|msgs| - 1]) + |msgs[|msgs| - 1].content|
  }

  method CountChars(msgs: seq<Message>) returns (total: nat)
    ensures total == HistoryChars(msgs)
  {
    total := 0;
    for n := 0 to |msgs|
      invariant total == HistoryChars(msgs[..n])
    {
      assert msgs[..n + 1][..n] == msgs[..n];
      total := total + |msgs[n].content|;
    }
    assert msgs[..|msgs|] == msgs;
  }

  /** A message worth keeping: a block of SQL, or a table structure the model has looked up. */
  predicate Valuable(m: Message) {
    Contains(m.content, "```sql") || (m.role == Tool && m.toolName == "get_schema")
  }

  predicate GroupHasSQL(group: seq<Message>) {
    exists i :: 0 <= i < |group| && Valuable(group[i])
  }

  /** The first user message from `i` on, or the length. */
  function NextUser(msgs: seq<Message>, i: nat): (r: nat)
    requires i <= |msgs|
    ensures i <= r <= |msgs|
    decreases |msgs| - i
  {
    if i == |msgs| || msgs[i].role == User then i else NextUser(msgs, i + 1)
  }

  datatype Range = Range(s: nat, e: nat)

  /** The rounds from `start` on, without the last one, as ranges of indices. */
  function OldRounds(msgs: seq<Message>, start: nat): seq<Range>
    requires start <= |msgs|
    decreases |msgs| - start
  {
    var s := NextUser(msgs, start);
    if s == |msgs| then []
    else
      var e := NextUser(msgs, s + 1);
      if e == |msgs| then [] else [Range(s, e)] + OldRounds(msgs, e)
  }

  lemma {:induction false} OldRoundsInRange(msgs: seq<Message>, start: nat)
    requires start <= |msgs|
    ensures forall r :: r in OldRounds(msgs, start) ==> start <= r.s < r.e < |msgs|
    decreases |msgs| - start
  {
    var s := NextUser(msgs, start);
    if s < |msgs| {
      var e := NextUser(msgs, s + 1);
      if e < |msgs| {
        OldRoundsInRange(msgs, e);
      }
    }
  }

  /** The first old round without SQL among `rounds`, or their number. */
  function FirstPlain(msgs: seq<Message>, rounds: seq<Range>): (k: nat)
    requires forall r :: r in rounds ==> r.s <= r.e <= |msgs|
    ensures k <= |rounds|
  {
    if rounds == [] then 0
    else
      assert rounds[0] in rounds;
      if !GroupHasSQL(msgs[rounds[0].s..rounds[0].e]) then 0 else 1 + FirstPlain(msgs, rounds[1..])
  }

  /** The oldest old round without SQL, or the oldest of all; None when only the current round is left. */
  function Target(msgs: seq<Message>): Option<Range>
    requires msgs != []
  {
    OldRoundsInRange(msgs, 1);
    var rounds := OldRounds(msgs, 1);
    if rounds == [] then None
    else
      var k := FirstPlain(msgs, rounds);
      Some(rounds[if k < |rounds| then k else 0])
  }

  /** The first half of the search for a target: the old rounds, collected in one pass. */
  method CollectOldRounds(msgs: seq<Message>) returns (rounds: seq<Range>)
    requires msgs != []
    ensures rounds == OldRounds(msgs, 1)
  {
    rounds := [];
    var start := 1;
    while start < |msgs|
      invariant start <= |msgs|
      invariant rounds + OldRounds(msgs, start) == OldRounds(msgs, 1)
    {
      ghost var start0 := start;
      while start < |msgs| && msgs[start].role != User
        invariant start0 <= start <= |msgs|
        invariant NextUser(msgs, start) == NextUser(msgs, start0)
      {
        start := start + 1;
      }
      if start >= |msgs| {
        break;
      }
      var s := start;
      var end := start + 1;
      while end < |msgs| && msgs[end].role != User
        invariant s + 1 <= end <= |msgs|
        invariant NextUser(msgs, end) == NextUser(msgs, s + 1)
      {
        end := end + 1;
      }
      if end >= |msgs| {
        break;
      }
      Assoc(rounds, [Range(s, end)], OldRounds(msgs, end));
      rounds := rounds + [Range(s, end)];
      start := end;
    }
  }

  method TrimTarget(msgs: seq<Message>) returns (target: Option<Range>)
    requires msgs != []
    ensures target == Target(msgs)
  {
    OldRoundsInRange(msgs, 1);
    var rounds := CollectOldRounds(msgs);
    if |rounds| == 0 {
      return None;
    }
    for k := 0 to |rounds|
      invariant FirstPlain(msgs, rounds) == k + FirstPlain(msgs, rounds[k..])
    {
      assert rounds[k] in rounds && rounds[k..][1..] == rounds[k + 1..];
      if !GroupHasSQL(msgs[rounds[k].s..rounds[k].e]) {
        return Some(rounds[k]);
      }
    }
    return Some(rounds[0]);
  }

  /** Where the oldest round ends, or None when only the current round is left. */
  method TrimOldestRound(msgs: seq<Message>) returns (cut: Option<nat>)
    requires msgs != []
    ensures cut == if OldRounds(msgs, 1) == [] then None else Some(OldRounds(msgs, 1)[0].e)
  {
    var i := 1;
    while i < |msgs| && msgs[i].role != User
      invariant 1 <= i <= |msgs|
      invariant NextUser(msgs, i) == NextUser(msgs, 1)
    {
      i := i + 1;
    }
    if i >= |msgs| {
      return None;
    }
    var j := i + 1;
    while j < |msgs| && msgs[j].role != User
      invariant i + 1 <= j <= |msgs|
      invariant NextUser(msgs, j) == NextUser(msgs, i + 1)
    {
      j := j + 1;
    }
    if j >= |msgs| {
      return None;
    }
    return Some(j);
  }

  function Removed(msgs: seq<Message>, r: Range): seq<Message>
    requires r.s <= r.e <= |msgs|
  {
    msgs[..r.s] + msgs[r.e..]
  }

  lemma TargetInRange(msgs: seq<Message>)
    requires msgs != []
    ensures Target(msgs).Some? ==> var r := Target(msgs).value; 1 <= r.s < r.e < |msgs|
    ensures OldRounds(msgs, 1) != [] ==> var r := OldRounds(msgs, 1)[0]; 1 <= r.s < r.e < |msgs|
  {
    OldRoundsInRange(msgs, 1);
  }

  /** First stage: over the character budget, old rounds go one by one. */
  function CharStage(msgs: seq<Message>): seq<Message>
    decreases |msgs|
  {
    if HistoryChars(msgs) > MAX_HISTORY_CHARS && |msgs| > 2 then
      TargetInRange(msgs);
      match Target(msgs)
      case None => msgs
      case Some(r) => CharStage(Removed(msgs, r))
    else msgs
  }

  /** Second stage: over the message count, the oldest round goes, with anything between it and the system message. */
  function CountStage(msgs: seq<Message>): seq<Message>
    decreases |msgs|
  {
    if |msgs| > MAX_MESSAGES && OldRounds(msgs, 1) != [] then
      TargetInRange(msgs);
      CountStage(Removed(msgs, Range(1, OldRounds(msgs, 1)[0].e)))
    else msgs
  }

  function TrimmedHistory(msgs: seq<Message>): seq<Message> {
    CountStage(CharStage(msgs))
  }

  method TrimMessages(messages: seq<Message>) returns (msgs: seq<Message>)
    ensures msgs == TrimmedHistory(messages)
  {
    msgs := messages;
    var chars := CountChars(msgs);
    while chars > MAX_HISTORY_CHARS && |msgs| > 2
      invariant chars == HistoryChars(msgs)
      invariant CharStage(msgs) == CharStage(messages)
      decreases |msgs|
    {
      var target := TrimTarget(msgs);
      TargetInRange(msgs);
      if target.None? {
        break;
      }
      msgs := msgs[..target.value.s] + msgs[target.value.e..];
      chars := CountChars(msgs);
    }
    while |msgs| > MAX_MESSAGES
      invariant CountStage(msgs) == TrimmedHistory(messages)
      decreases |msgs|
    {
      var cut := TrimOldestRound(msgs);
      TargetInRange(msgs);
      if cut.None? {
        break;
      }
      msgs := msgs[..1] + msgs[cut.value..];
    }
  }
}
