/** What trimming keeps: the history as a system part and rounds, each from one user message to the next. */
module AiTrimShape {
  import opened GoStrings
  import opened Sequences
  import opened Leaving
  import opened AiTrim

  // ---- rounds ----

  /** One user message and what follows it. */
  predicate IsRound(r: seq<Message>) {
    r != [] && r[0].role == User && forall i :: 1 <= i < |r| ==> r[i].role != User
  }

  /** The system message and anything before the first user message. */
  predicate IsHead(h: seq<Message>) {
    h != [] && forall i :: 1 <= i < |h| ==> h[i].role != User
  }

  function Flat(rounds: seq<seq<Message>>): seq<Message> {
    if rounds == [] then [] else rounds[0] + Flat(rounds[1..])
  }

  lemma {:induction false} FlatConcat(a: seq<seq<Message>>, b: seq<seq<Message>>)
    ensures Flat(a + b) == Flat(a) + Flat(b)
  {
    if a == [] {
      assert a + b == b;
    } else {
      assert (a + b)[1..] == a[1..] + b;
      FlatConcat(a[1..], b);
    }
  }

  lemma FlatOne(r: seq<Message>)
    ensures Flat([r]) == r
  {
    assert Flat([r]) == r + Flat([]);
  }

  /** A history with at least one user message: head, old rounds, current round. */
  function History(head: seq<Message>, olds: seq<seq<Message>>, current: seq<Message>): seq<Message> {
    head + Flat(olds) + current
  }

  ghost predicate WellFormed(head: seq<Message>, olds: seq<seq<Message>>, current: seq<Message>) {
    IsHead(head) && (forall r :: r in olds ==> IsRound(r)) && IsRound(current)
  }

  // ---- searching in a history made of rounds ----

  lemma {:induction false} NextUserSkips(msgs: seq<Message>, i: nat, j: nat)
    requires i <= j <= |msgs| && forall k :: i <= k < j ==> msgs[k].role != User
    requires j == |msgs| || msgs[j].role == User
    ensures NextUser(msgs, i) == j
    decreases j - i
  {
    if i < j {
      NextUserSkips(msgs, i + 1, j);
    }
  }

  lemma RoundAt(m: seq<Message>, i: nat, r: seq<Message>)
    requires IsRound(r) && i + |r| <= |m| && m[i..i + |r|] == r
    requires i + |r| == |m| || m[i + |r|].role == User
    ensures NextUser(m, i) == i && NextUser(m, i + 1) == i + |r|
  {
    forall k | i <= k < i + |r|
      ensures m[k] == r[k - i]
    {
      assert m[i..i + |r|][k - i] == m[k];
    }
    NextUserSkips(m, i + 1, i + |r|);
  }

  /** Behind a prefix, a round ends where the next one, or the text, begins. */
  lemma RoundEnd(p: seq<Message>, r: seq<Message>, rest: seq<Message>)
    requires IsRound(r) && (rest == [] || rest[0].role == User)
    ensures var m := p + r + rest;
      NextUser(m, |p|) == |p| && NextUser(m, |p| + 1) == |p| + |r|
  {
    Behind(p, r, rest);
    RoundAt(p + r + rest, |p|, r);
  }

  lemma Behind(p: seq<Message>, r: seq<Message>, rest: seq<Message>)
    ensures var m := p + r + rest;
      m[|p|..|p| + |r|] == r && (rest == [] || m[|p| + |r|] == rest[0])
  {
  }

  /** The range of round `k` behind a prefix. */
  function RangeOf(p: nat, olds: seq<seq<Message>>, k: nat): Range
    requires k < |olds|
  {
    Range(p + |Flat(olds[..k])|, p + |Flat(olds[..k])| + |olds[k]|)
  }

  lemma StartsWithUser(olds: seq<seq<Message>>, current: seq<Message>)
    requires (forall r :: r in olds ==> IsRound(r)) && IsRound(current)
    ensures Flat(olds) + current != [] && (Flat(olds) + current)[0].role == User
  {
    if olds != [] {
      assert olds[0] in olds;
    }
  }

  lemma {:induction false} OldRoundsBehind(p: seq<Message>, olds: seq<seq<Message>>, current: seq<Message>)
    requires (forall r :: r in olds ==> IsRound(r)) && IsRound(current)
    ensures var rr := OldRounds(p + (Flat(olds) + current), |p|);
      |rr| == |olds| && forall k :: 0 <= k < |olds| ==> rr[k] == RangeOf(|p|, olds, k)
    decreases |olds|
  {
    if olds == [] {
      RoundEnd(p, current, []);
      assert p + (Flat(olds) + current) == p + current + [];
    } else {
      var r, rest := olds[0], Flat(olds[1..]) + current;
      assert olds[0] in olds;
      assert forall x :: x in olds[1..] ==> x in olds;
      StartsWithUser(olds[1..], current);
      FirstOldRound(p, r, rest);
      ShiftRound(p, r, Flat(olds[1..]), current);
      OldRoundsBehind(p + r, olds[1..], current);
      RangesCons(|p|, olds, OldRounds(p + r + rest, |p| + |r|));
    }
  }

  lemma RangesCons(p: nat, olds: seq<seq<Message>>, later: seq<Range>)
    requires olds != [] && |later| == |olds| - 1
    requires forall k :: 0 <= k < |later| ==> later[k] == RangeOf(p + |olds[0]|, olds[1..], k)
    ensures var rr := [Range(p, p + |olds[0]|)] + later;
      forall k :: 0 <= k < |olds| ==> rr[k] == RangeOf(p, olds, k)
  {
    forall k | 0 <= k < |olds|
      ensures ([Range(p, p + |olds[0]|)] + later)[k] == RangeOf(p, olds, k)
    {
      if k > 0 {
        RangeShift(p, olds, k);
      } else {
        assert olds[..0] == [];
      }
    }
  }

  lemma FirstOldRound(p: seq<Message>, r: seq<Message>, rest: seq<Message>)
    requires IsRound(r) && rest != [] && rest[0].role == User
    ensures var m := p + r + rest;
      OldRounds(m, |p|) == [Range(|p|, |p| + |r|)] + OldRounds(m, |p| + |r|)
  {
    RoundEnd(p, r, rest);
  }

  lemma ShiftRound(p: seq<Message>, r: seq<Message>, f: seq<Message>, current: seq<Message>)
    ensures p + ((r + f) + current) == p + r + (f + current) == (p + r) + (f + current)
  {
  }

  lemma RangeShift(p: nat, olds: seq<seq<Message>>, k: nat)
    requires 0 < k < |olds|
    ensures RangeOf(p, olds, k) == RangeOf(p + |olds[0]|, olds[1..], k - 1)
  {
    assert olds[..k] == [olds[0]] + olds[1..][..k - 1];
    FlatConcat([olds[0]], olds[1..][..k - 1]);
    FlatOne(olds[0]);
  }

  /** The old rounds the program finds are the old rounds. */
  lemma OldRoundsFound(head: seq<Message>, olds: seq<seq<Message>>, current: seq<Message>)
    requires WellFormed(head, olds, current)
    ensures var rr := OldRounds(History(head, olds, current), 1);
      |rr| == |olds| && forall k :: 0 <= k < |olds| ==> rr[k] == RangeOf(|head|, olds, k)
  {
    var m := History(head, olds, current);
    StartsWithUser(olds, current);
    assert m == head + (Flat(olds) + current);
    assert m[|head|] == (Flat(olds) + current)[0];
    NextUserSkips(m, 1, |head|);
    OldRoundsBehind(head, olds, current);
    assert NextUser(m, |head|) == |head|;
  }

  lemma SplitAround(head: seq<Message>, olds: seq<seq<Message>>, current: seq<Message>, k: nat)
    requires k < |olds|
    ensures var a, b := Flat(olds[..k]), Flat(olds[k + 1..]) + current;
      && History(head, olds, current) == (head + a) + olds[k] + b
      && History(head, Without(olds, k), current) == (head + a) + b
  {
    assert olds == olds[..k] + ([olds[k]] + olds[k + 1..]);
    FlatConcat(olds[..k], [olds[k]] + olds[k + 1..]);
    FlatConcat([olds[k]], olds[k + 1..]);
    FlatOne(olds[k]);
    FlatConcat(olds[..k], olds[k + 1..]);
  }

  /** Removing the range of a round removes the round; the slice at its range is the round. */
  lemma RemoveRound(head: seq<Message>, olds: seq<seq<Message>>, current: seq<Message>, k: nat)
    requires k < |olds|
    ensures var m, r := History(head, olds, current), RangeOf(|head|, olds, k);
      && r.e <= |m| && m[r.s..r.e] == olds[k]
      && Removed(m, r) == History(head, Without(olds, k), current)
  {
    SplitAround(head, olds, current, k);
    CutMiddle(head + Flat(olds[..k]), olds[k], Flat(olds[k + 1..]) + current);
  }

  lemma CutMiddle(a: seq<Message>, b: seq<Message>, c: seq<Message>)
    ensures var m := a + b + c;
      m[|a|..|a| + |b|] == b && m[..|a|] + m[|a| + |b|..] == a + c
  {
  }

  lemma KeepsWellFormed(head: seq<Message>, olds: seq<seq<Message>>, current: seq<Message>, k: nat)
    requires WellFormed(head, olds, current) && k < |olds|
    ensures WellFormed(head, Without(olds, k), current)
  {
    assert forall r :: r in Without(olds, k) ==> r in olds;
  }

  // ---- trimming only leaves out ----

  lemma RemovedIsSubsequence(msgs: seq<Message>, r: Range)
    requires r.s <= r.e <= |msgs|
    ensures Subsequence(Removed(msgs, r), msgs)
  {
    ThreeParts(msgs, r.s, r.e);
    LeaveOutOf(Removed(msgs, r), msgs, msgs[..r.s], msgs[r.s..r.e], msgs[r.e..]);
  }

  lemma {:induction false} CharStageSubsequence(msgs: seq<Message>)
    ensures Subsequence(CharStage(msgs), msgs)
    decreases |msgs|
  {
    if HistoryChars(msgs) > MAX_HISTORY_CHARS && |msgs| > 2 && Target(msgs).Some? {
      var r := Target(msgs).value;
      TargetInRange(msgs);
      RemovedIsSubsequence(msgs, r);
      CharStageSubsequence(Removed(msgs, r));
      SubsequenceTrans(CharStage(msgs), Removed(msgs, r), msgs);
    } else {
      SubsequenceSelf(msgs);
    }
  }

  lemma {:induction false} CountStageSubsequence(msgs: seq<Message>)
    ensures Subsequence(CountStage(msgs), msgs)
    decreases |msgs|
  {
    if |msgs| > MAX_MESSAGES && OldRounds(msgs, 1) != [] {
      TargetInRange(msgs);
      var r := Range(1, OldRounds(msgs, 1)[0].e);
      RemovedIsSubsequence(msgs, r);
      CountStageSubsequence(Removed(msgs, r));
      SubsequenceTrans(CountStage(msgs), Removed(msgs, r), msgs);
    } else {
      SubsequenceSelf(msgs);
    }
  }

  /** Trimming only leaves messages out. */
  lemma TrimmedIsSubsequence(msgs: seq<Message>)
    ensures Subsequence(TrimmedHistory(msgs), msgs)
  {
    CharStageSubsequence(msgs);
    CountStageSubsequence(CharStage(msgs));
    SubsequenceTrans(TrimmedHistory(msgs), CharStage(msgs), msgs);
  }

  // ---- the length of a history ----

  /** All contents, one behind the other. */
  function Contents(msgs: seq<Message>): string {
    if msgs == [] then "" else msgs[0].content + Contents(msgs[1..])
  }

  /** What is counted is the length of the contents. */
  lemma {:induction false} CharsOfContents(msgs: seq<Message>)
    ensures HistoryChars(msgs) == |Contents(msgs)|
  {
    if msgs != [] {
      CharsOfContents(msgs[1..]);
      assert msgs == [msgs[0]] + msgs[1..];
      CharsConcat([msgs[0]], msgs[1..]);
      assert [msgs[0]][..0] == [];
    }
  }

  lemma {:induction false} CharsConcat(a: seq<Message>, b: seq<Message>)
    ensures HistoryChars(a + b) == HistoryChars(a) + HistoryChars(b)
  {
    if b == [] {
      assert a + b == a;
    } else {
      assert (a + b)[..|a + b| - 1] == a + b[..|b| - 1];
      CharsConcat(a, b[..|b| - 1]);
    }
  }

  // ---- the character stage ----

  /** A message that holds a block of SQL, or a table structure that was looked up. */
  ghost predicate HoldsSql(m: Message) {
    (exists x, y :: Parts(m.content, x, "```sql", y)) || (m.role == Tool && m.toolName == "get_schema")
  }

  predicate Parts(s: string, x: string, t: string, y: string) {
    s == x + (t + y)
  }

  ghost predicate HasSql(round: seq<Message>) {
    exists m :: m in round && HoldsSql(m)
  }

  lemma SqlIsContained(m: Message)
    ensures Valuable(m) <==> HoldsSql(m)
  {
    PartsExactlyWhen(m.content, "```sql");
  }

  lemma PartsExactlyWhen(c: string, t: string)
    ensures Contains(c, t) <==> exists x, y :: Parts(c, x, t, y)
  {
    var i := Index(c, t);
    IndexIsFirst(c, t);
    if i >= 0 {
      MatchIsSlice(c, t, i);
      assert Parts(c, c[..i], t, c[i + |t|..]);
    }
    if x, y :| Parts(c, x, t, y) {
      MatchInside(x, t, y);
    }
  }

  lemma MatchInside(x: string, t: string, y: string)
    ensures MatchAt(x + (t + y), t, |x|)
  {
    assert (x + (t + y))[|x|..|x| + |t|] == t;
    MatchIsSlice(x + (t + y), t, |x|);
  }

  lemma GroupIsRound(round: seq<Message>)
    ensures GroupHasSQL(round) <==> HasSql(round)
  {
    forall m
      ensures Valuable(m) <==> HoldsSql(m)
    {
      SqlIsContained(m);
    }
  }

  ghost function WithSql(): seq<Message> -> bool {
    round => HasSql(round)
  }

  /** The search picks a round without SQL if there is one, and the oldest one otherwise. */
  lemma {:induction false} FirstPlainPicks(msgs: seq<Message>, rounds: seq<Range>, contents: seq<seq<Message>>)
    requires |rounds| == |contents|
    requires forall r :: r in rounds ==> r.s <= r.e <= |msgs|
    requires forall k :: 0 <= k < |rounds| ==>
      rounds[k].s <= rounds[k].e <= |msgs| && msgs[rounds[k].s..rounds[k].e] == contents[k]
    ensures var k := FirstPlain(msgs, rounds);
      && (k < |rounds| ==> !GroupHasSQL(contents[k]))
      && forall i :: 0 <= i < k ==> GroupHasSQL(contents[i])
  {
    if rounds != [] {
      assert rounds[0] in rounds;
      if GroupHasSQL(contents[0]) {
        FirstPlainPicks(msgs, rounds[1..], contents[1..]);
        assert forall i :: 1 <= i < |contents| ==> contents[i] == contents[1..][i - 1];
      }
    }
  }

  /** The target of trimming in terms of rounds. */
  lemma TargetIsRound(head: seq<Message>, olds: seq<seq<Message>>, current: seq<Message>) returns (k: nat)
    requires WellFormed(head, olds, current) && olds != []
    ensures k < |olds| && Target(History(head, olds, current)) == Some(RangeOf(|head|, olds, k))
    ensures k == NextToGo(WithSql(), olds)
  {
    var m := History(head, olds, current);
    var rr := OldRounds(m, 1);
    OldRoundsFound(head, olds, current);
    OldRoundsInRange(m, 1);
    forall j | 0 <= j < |rr|
      ensures rr[j].s <= rr[j].e <= |m| && m[rr[j].s..rr[j].e] == olds[j]
    {
      RemoveRound(head, olds, current, j);
    }
    FirstPlainPicks(m, rr, olds);
    k := FirstPlain(m, rr);
    forall i | 0 <= i < |olds|
      ensures GroupHasSQL(olds[i]) <==> HasSql(olds[i])
    {
      GroupIsRound(olds[i]);
    }
    FirstOther(WithSql(), olds, k);
    if k == |rr| {
      k := 0;
    }
  }

  /** The history when `n` old rounds have gone. */
  ghost function AfterRounds(head: seq<Message>, olds: seq<seq<Message>>, current: seq<Message>, n: nat):
    seq<Message>
  {
    History(head, AfterGoing(WithSql(), olds, n), current)
  }

  ghost predicate IsOver(msgs: seq<Message>) {
    |Contents(msgs)| > MAX_HISTORY_CHARS
  }

  /** One round, then the others. */
  lemma FirstRound(head: seq<Message>, olds: seq<seq<Message>>, current: seq<Message>, n: nat)
    ensures n == 0 ==> AfterRounds(head, olds, current, n) == History(head, olds, current)
    ensures n > 0 && olds != [] ==>
      var rest := Without(olds, NextToGo(WithSql(), olds));
      AfterRounds(head, olds, current, n) == AfterRounds(head, rest, current, n - 1)
  {
  }

  lemma OneRoundMore(head: seq<Message>, olds: seq<seq<Message>>, current: seq<Message>, n: nat)
    requires olds != [] && IsOver(History(head, olds, current))
    requires forall i :: 0 <= i < n ==>
      IsOver(AfterRounds(head, Without(olds, NextToGo(WithSql(), olds)), current, i))
    ensures AfterRounds(head, olds, current, n + 1) ==
      AfterRounds(head, Without(olds, NextToGo(WithSql(), olds)), current, n)
    ensures forall i :: 0 <= i < n + 1 ==> IsOver(AfterRounds(head, olds, current, i))
  {
    FirstRound(head, olds, current, n + 1);
    forall i | 0 <= i < n + 1
      ensures IsOver(AfterRounds(head, olds, current, i))
    {
      FirstRound(head, olds, current, i);
    }
  }

  /** As many rounds go as it takes to meet the budget, or all. */
  lemma {:induction false} CharStageGoes(head: seq<Message>, olds: seq<seq<Message>>, current: seq<Message>)
    returns (n: nat)
    requires WellFormed(head, olds, current)
    ensures n <= |olds| && CharStage(History(head, olds, current)) == AfterRounds(head, olds, current, n)
    ensures !IsOver(AfterRounds(head, olds, current, n)) || n == |olds|
    ensures forall i :: 0 <= i < n ==> IsOver(AfterRounds(head, olds, current, i))
    decreases |olds|
  {
    CharStageStep(head, olds, current);
    FirstRound(head, olds, current, 0);
    if IsOver(History(head, olds, current)) && olds != [] {
      var rest := Without(olds, NextToGo(WithSql(), olds));
      n := CharStageGoes(head, rest, current);
      OneRoundMore(head, olds, current, n);
      n := n + 1;
    } else {
      n := 0;
    }
  }

  /**
   The character stage keeps head and current round whole and leaves out old rounds one by one, the oldest of those
   without SQL first, and the oldest when all have some, as long as the contents are over the budget.
   */
  lemma CharStageKeeps(head: seq<Message>, olds: seq<seq<Message>>, current: seq<Message>)
    returns (n: nat, kept: seq<seq<Message>>)
    requires WellFormed(head, olds, current)
    ensures kept == AfterGoing(WithSql(), olds, n) && WellFormed(head, kept, current)
    ensures CharStage(History(head, olds, current)) == History(head, kept, current)
    ensures |Contents(History(head, kept, current))| <= MAX_HISTORY_CHARS || kept == []
    ensures forall i :: 0 <= i < n ==> |Contents(AfterRounds(head, olds, current, i))| > MAX_HISTORY_CHARS
  {
    n := CharStageGoes(head, olds, current);
    kept := AfterGoing(WithSql(), olds, n);
    LeastGoFirst(WithSql(), olds, n);
    SubsequenceMembers(kept, olds);
    forall i | 0 <= i < n
      ensures |Contents(AfterRounds(head, olds, current, i))| > MAX_HISTORY_CHARS
    {
      assert IsOver(AfterRounds(head, olds, current, i));
    }
  }

  /** One turn: the round that is next to go, goes, if the contents are over the budget and there is an old round. */
  lemma CharStageStep(head: seq<Message>, olds: seq<seq<Message>>, current: seq<Message>)
    requires WellFormed(head, olds, current)
    ensures var m := History(head, olds, current);
      if IsOver(m) && olds != [] then
        var rest := Without(olds, NextToGo(WithSql(), olds));
        WellFormed(head, rest, current) && CharStage(m) == CharStage(History(head, rest, current))
      else CharStage(m) == m
  {
    var m := History(head, olds, current);
    CharsOfContents(m);
    OldRoundsFound(head, olds, current);
    if HistoryChars(m) > MAX_HISTORY_CHARS && olds != [] {
      var k := TargetIsRound(head, olds, current);
      AtLeastThree(head, olds, current);
      RemoveRound(head, olds, current, k);
      KeepsWellFormed(head, olds, current, k);
    }
  }

  lemma AtLeastThree(head: seq<Message>, olds: seq<seq<Message>>, current: seq<Message>)
    requires WellFormed(head, olds, current) && olds != []
    ensures |History(head, olds, current)| > 2
  {
    assert olds[0] in olds;
  }

  // ---- the count stage ----

  /** Dropping the oldest round drops anything between it and the system message with it. */
  lemma CountStep(head: seq<Message>, olds: seq<seq<Message>>, current: seq<Message>)
    requires WellFormed(head, olds, current) && olds != []
    requires |History(head, olds, current)| > MAX_MESSAGES
    ensures WellFormed([head[0]], olds[1..], current)
    ensures CountStage(History(head, olds, current)) == CountStage(History([head[0]], olds[1..], current))
  {
    FirstRoundFound(head, olds, current);
    FirstRoundGone(head, olds, current);
    CountStageOnce(
      History(head, olds, current), RangeOf(|head|, olds, 0), History([head[0]], olds[1..], current));
    LaterRounds(olds);
  }

  lemma FirstRoundFound(head: seq<Message>, olds: seq<seq<Message>>, current: seq<Message>)
    requires WellFormed(head, olds, current) && olds != []
    ensures var rr := OldRounds(History(head, olds, current), 1); rr != [] && rr[0] == RangeOf(|head|, olds, 0)
  {
    OldRoundsFound(head, olds, current);
  }

  lemma LaterRounds(olds: seq<seq<Message>>)
    requires olds != [] && forall r :: r in olds ==> IsRound(r)
    ensures forall r :: r in olds[1..] ==> IsRound(r)
  {
  }

  lemma CountStageOnce(msgs: seq<Message>, r: Range, next: seq<Message>)
    requires |msgs| > MAX_MESSAGES && OldRounds(msgs, 1) != [] && OldRounds(msgs, 1)[0] == r
    requires 1 <= r.e <= |msgs| && Removed(msgs, Range(1, r.e)) == next
    ensures CountStage(msgs) == CountStage(next)
  {
  }

  lemma FirstRoundGone(head: seq<Message>, olds: seq<seq<Message>>, current: seq<Message>)
    requires head != [] && olds != []
    ensures var m, e := History(head, olds, current), |head| + |olds[0]|;
      && RangeOf(|head|, olds, 0).e == e <= |m|
      && Removed(m, Range(1, e)) == History([head[0]], olds[1..], current)
  {
    assert olds[..0] == [];
    FirstCut(head, olds[0], Flat(olds[1..]), current);
  }

  lemma FirstCut(head: seq<Message>, r: seq<Message>, f: seq<Message>, current: seq<Message>)
    requires head != []
    ensures var m := head + (r + f) + current;
      m[..1] + m[|head| + |r|..] == [head[0]] + f + current
  {
  }

  /** Leaving messages out does not make a history longer. */
  lemma LeavingOutIsNotLonger(a: seq<Message>, b: seq<Message>, c: seq<Message>, all: seq<Message>)
    requires all == a + (b + c)
    ensures HistoryChars(a + c) <= HistoryChars(all)
  {
    CharsConcat(a, b + c);
    CharsConcat(b, c);
    CharsConcat(a, c);
  }

  lemma RemovedIsNotLonger(msgs: seq<Message>, r: Range)
    requires r.s <= r.e <= |msgs|
    ensures HistoryChars(Removed(msgs, r)) <= HistoryChars(msgs)
  {
    ThreeParts(msgs, r.s, r.e);
    LeavingOutIsNotLonger(msgs[..r.s], msgs[r.s..r.e], msgs[r.e..], msgs);
  }

  lemma {:induction false} CountStageIsNotLonger(msgs: seq<Message>)
    ensures HistoryChars(CountStage(msgs)) <= HistoryChars(msgs)
    decreases |msgs|
  {
    if |msgs| > MAX_MESSAGES && OldRounds(msgs, 1) != [] {
      TargetInRange(msgs);
      var r := Range(1, OldRounds(msgs, 1)[0].e);
      RemovedIsNotLonger(msgs, r);
      CountStageIsNotLonger(Removed(msgs, r));
    }
  }

  /** The history before the last of the first `k` old rounds went. */
  function BeforeLast(head: seq<Message>, olds: seq<seq<Message>>, current: seq<Message>, k: nat): seq<Message>
    requires head != [] && 0 < k <= |olds|
  {
    History(if k == 1 then head else [head[0]], olds[k - 1..], current)
  }

  lemma RoundsBehind(olds: seq<seq<Message>>, k: nat)
    requires k < |olds|
    ensures olds[1..][k..] == olds[k + 1..] && olds[0..] == olds
    ensures k > 0 ==> olds[1..][k - 1..] == olds[k..]
  {
  }

  /** Old rounds go from the oldest on, as long as there are too many messages. */
  lemma {:induction false} CountStageKeeps(head: seq<Message>, olds: seq<seq<Message>>, current: seq<Message>, n: nat)
    returns (head': seq<Message>, k: nat)
    requires WellFormed(head, olds, current) && |olds| == n
    ensures k <= |olds| && WellFormed(head', olds[k..], current)
    ensures CountStage(History(head, olds, current)) == History(head', olds[k..], current)
    ensures head'[0] == head[0]
    ensures |History(head', olds[k..], current)| <= MAX_MESSAGES || k == |olds|
    ensures k > 0 ==> |BeforeLast(head, olds, current, k)| > MAX_MESSAGES
    decreases n
  {
    if |History(head, olds, current)| > MAX_MESSAGES && n > 0 {
      CountStep(head, olds, current);
      head', k := CountStageKeeps([head[0]], olds[1..], current, n - 1);
      RoundsBehind(olds, k);
      k := k + 1;
    } else {
      OldRoundsFound(head, olds, current);
      assert olds[0..] == olds;
      head', k := head, 0;
    }
  }

  // ---- the main result ----

  /** Every history with a user message is a head, old rounds and a current round. */
  lemma {:induction false} SplitsIntoRounds(head: seq<Message>, rest: seq<Message>)
    returns (olds: seq<seq<Message>>, current: seq<Message>)
    requires IsHead(head) && rest != [] && rest[0].role == User
    ensures WellFormed(head, olds, current) && head + rest == History(head, olds, current)
    decreases |rest|
  {
    var e := NextUser(rest, 1);
    NextUserIsFirst(rest, 1);
    var r, more := rest[..e], rest[e..];
    assert IsRound(r);
    assert rest == r + more;
    if more == [] {
      olds, current := [], r;
      assert head + rest == head + [] + r;
    } else {
      var later;
      later, current := SplitsIntoRounds(head, more);
      olds := [r] + later;
      RoundInFront(head, r, more, later, current);
    }
  }

  lemma RoundInFront(
    head: seq<Message>, r: seq<Message>, more: seq<Message>, later: seq<seq<Message>>, current: seq<Message>)
    requires head + more == History(head, later, current)
    ensures head + (r + more) == History(head, [r] + later, current)
  {
    FlatConcat([r], later);
    FlatOne(r);
    SameTail(head, more, Flat(later) + current);
    assert head + (r + more) == head + (r + Flat(later)) + current;
  }

  lemma SameTail(head: seq<Message>, a: seq<Message>, b: seq<Message>)
    requires head + a == head + b || head + a == head + b + []
    ensures a == b
  {
    assert a == (head + a)[|head|..];
    assert b == (head + b)[|head|..];
  }

  lemma {:induction false} NextUserIsFirst(msgs: seq<Message>, i: nat)
    requires i <= |msgs|
    ensures var r := NextUser(msgs, i);
      (forall k :: i <= k < r ==> msgs[k].role != User) && (r < |msgs| ==> msgs[r].role == User)
    decreases |msgs| - i
  {
    if i < |msgs| && msgs[i].role != User {
      NextUserIsFirst(msgs, i + 1);
    }
  }

  /**
   Trimming a history of rounds: the system message and the current round stay whole. The character stage leaves the
   rounds `mid`, those without SQL going first; of these the oldest `k` go, no more than it takes. What is left meets
   both limits, or has no old round.
   */
  lemma TrimKeepsTheCurrentRound(head: seq<Message>, olds: seq<seq<Message>>, current: seq<Message>)
    returns (head': seq<Message>, mid: seq<seq<Message>>, k: nat)
    requires WellFormed(head, olds, current)
    ensures k <= |mid| && WellFormed(head', mid[k..], current)
    ensures TrimmedHistory(History(head, olds, current)) == History(head', mid[k..], current)
    ensures head'[0] == head[0] && LeastFirst(WithSql(), mid, olds) && Subsequence(mid[k..], olds)
    ensures var m := History(head', mid[k..], current);
      (|m| <= 40 && |Contents(m)| <= 24000) || k == |mid|
    ensures k > 0 ==> |BeforeLast(head, mid, current, k)| > 40
  {
    var n;
    n, mid := CharStageKeeps(head, olds, current);
    head', k := CountStageKeeps(head, mid, current, |mid|);
    CountStageIsNotLonger(History(head, mid, current));
    CharsOfContents(History(head, mid, current));
    CharsOfContents(History(head', mid[k..], current));
    LeastGoFirst(WithSql(), olds, n);
    SuffixIsSubsequence(mid, k);
    SubsequenceTrans(mid[k..], mid, olds);
  }

  /** Without a user message behind the first, nothing is trimmed. */
  lemma NothingToTrim(msgs: seq<Message>)
    requires IsHead(msgs)
    ensures TrimmedHistory(msgs) == msgs
  {
    NextUserSkips(msgs, 1, |msgs|);
  }

  /** A history comes back as it is exactly if it is within both limits or has no old round. */
  lemma UnchangedExactlyWhen(head: seq<Message>, olds: seq<seq<Message>>, current: seq<Message>)
    requires WellFormed(head, olds, current)
    ensures var m := History(head, olds, current);
      TrimmedHistory(m) == m <==> (|m| <= 40 && |Contents(m)| <= 24000) || olds == []
  {
    var m := History(head, olds, current);
    CharsOfContents(m);
    OldRoundsFound(head, olds, current);
    TargetInRange(m);
    if olds != [] {
      AtLeastThree(head, olds, current);
      if HistoryChars(m) > MAX_HISTORY_CHARS {
        var k := TargetIsRound(head, olds, current);
        CharStageIsShorter(Removed(m, Target(m).value));
        CountStageIsShorter(CharStage(m));
      } else if |m| > MAX_MESSAGES {
        CountStageIsShorter(Removed(m, Range(1, OldRounds(m, 1)[0].e)));
      }
    }
  }

  lemma {:induction false} CharStageIsShorter(msgs: seq<Message>)
    ensures |CharStage(msgs)| <= |msgs|
    decreases |msgs|
  {
    if HistoryChars(msgs) > MAX_HISTORY_CHARS && |msgs| > 2 && Target(msgs).Some? {
      TargetInRange(msgs);
      CharStageIsShorter(Removed(msgs, Target(msgs).value));
    }
  }

  lemma {:induction false} CountStageIsShorter(msgs: seq<Message>)
    ensures |CountStage(msgs)| <= |msgs|
    decreases |msgs|
  {
    if |msgs| > MAX_MESSAGES && OldRounds(msgs, 1) != [] {
      TargetInRange(msgs);
      CountStageIsShorter(Removed(msgs, Range(1, OldRounds(msgs, 1)[0].e)));
    }
  }

  /** So does any history within both limits, whatever it is made of. */
  lemma ShortIsUnchanged(msgs: seq<Message>)
    requires |msgs| <= 40 && |Contents(msgs)| <= 24000
    ensures TrimmedHistory(msgs) == msgs
  {
    CharsOfContents(msgs);
  }
}
