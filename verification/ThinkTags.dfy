/**
 Removal of <think>...</think> blocks: the streaming state machine and the one-shot
 rescanning form (internal/llm/llm.go).
 */
module ThinkTags {
  import opened GoStrings
  import opened Sequences

  /** A pair of tags. Everything below is stated for any pair that shares the shape of the real one. */
  datatype Tags = Tags(open: string, close: string) {
    /** The tag that is looked for next. */
    function Awaited(inThink: bool): string {
      if inThink then close else open
    }

    /** Both start with the same character, which stands nowhere else, and differ in the second. */
    predicate Bracketing() {
      && 2 <= |open| && 2 <= |close|
      && open[0] == close[0] && open[1] != close[1]
      && (forall p :: 0 < p < |open| ==> open[p] != open[0])
      && (forall p :: 0 < p < |close| ==> close[p] != close[0])
    }
  }

  const THINK := Tags("<think>", "</think>")

  /** Text that is shown outside a block and dropped inside one. */
  function Shown(inThink: bool, s: string): string {
    if inThink then "" else s
  }

  /** Concatenation around shown text associates. */
  lemma ShownAppend(inThink: bool, a: string, b: string, c: string)
    ensures Shown(inThink, a + b) + c == Shown(inThink, a) + (Shown(inThink, b) + c)
  {
  }

  // ---- the one-pass meaning ----

  /** A text around the first occurrence of a tag. */
  datatype Cut = Whole | Around(before: string, after: string)

  function CutAt(s: string, tag: string): (c: Cut)
    requires |tag| > 0
    ensures c.Whole? <==> !Contains(s, tag)
    ensures c.Around? ==> |c.before| == Index(s, tag) && |c.before| + |tag| + |c.after| == |s|
  {
    var i := Index(s, tag);
    if i < 0 then Whole else Around(s[..i], s[i + |tag|..])
  }

  /** One left-to-right pass: show text up to an open tag, drop text through the next close tag. */
  function StripFrom(ts: Tags, inThink: bool, s: string): string
    requires ts.Bracketing()
    decreases |s|
  {
    match CutAt(s, ts.Awaited(inThink))
    case Whole => Shown(inThink, s)
    case Around(a, b) => Shown(inThink, a) + StripFrom(ts, !inThink, b)
  }

  function Strip(ts: Tags, s: string): string
    requires ts.Bracketing()
  {
    StripFrom(ts, false, s)
  }

  // ---- a description of tagged text that does not mention searching ----

  /** A text as its author meant it: visible pieces, closed blocks, and possibly an unclosed block. */
  datatype Doc =
    | Text(visible: string)
    | Unclosed(visible: string, thought: string)
    | Block(visible: string, thought: string, rest: Doc)
  {
    predicate WellFormed(ts: Tags) {
      && !Contains(visible, ts.open)
      && (Text? || !Contains(thought, ts.close))
      && (Block? ==> rest.WellFormed(ts))
    }

    function Render(ts: Tags): string {
      match this
      case Text(v) => v
      case Unclosed(v, t) => v + ts.open + t
      case Block(v, t, r) => v + ts.open + (t + ts.close + r.Render(ts))
    }

    function Visible(): string {
      if Block? then visible + rest.Visible() else visible
    }
  }

  /** After text without the tag, a printed tag is the first occurrence: it cannot overlap a copy of itself. */
  lemma TagFirst(ts: Tags, inThink: bool, a: string, b: string)
    requires ts.Bracketing() && !Contains(a, ts.Awaited(inThink))
    ensures CutAt(a + ts.Awaited(inThink) + b, ts.Awaited(inThink)) == Around(a, b)
  {
    var t := ts.Awaited(inThink);
    var s := a + t + b;
    IndexIsFirst(a, t);
    forall k | 0 <= k < |a|
      ensures !MatchAt(s, t, k)
    {
      if k + |t| <= |a| {
        assert s == a + (t + b);
        MatchInConcat(a, t + b, t, k);
      } else {
        assert s[k + (|a| - k)] == t[0] != t[|a| - k];
        SameFromChars(s, t, k, 0);
      }
    }
    assert s[|a|..|a| + |t|] == t;
    MatchIsSlice(s, t, |a|);
    IndexIs(s, t, |a|);
    assert s[..|a|] == a && s[|a| + |t|..] == b;
  }

  /** Cutting and printing undo each other. */
  lemma CutPrints(s: string, tag: string)
    requires |tag| > 0 && CutAt(s, tag).Around?
    ensures var c := CutAt(s, tag); s == c.before + tag + c.after && !Contains(c.before, tag)
  {
    NothingBeforeFirst(s, tag);
    IndexIsFirst(s, tag);
    SplitAtMatch(s, tag, Index(s, tag));
  }

  lemma SplitAtMatch(s: string, tag: string, i: nat)
    requires MatchAt(s, tag, i)
    ensures s == s[..i] + tag + s[i + |tag|..]
  {
    MatchIsSlice(s, tag, i);
  }

  lemma NothingBeforeFirst(s: string, tag: string)
    requires |tag| > 0 && Contains(s, tag)
    ensures !Contains(s[..Index(s, tag)], tag)
  {
    var a, b := s[..Index(s, tag)], s[Index(s, tag)..];
    IndexIsFirst(s, tag);
    IndexIsFirst(a, tag);
    assert s == a + b;
    MatchInConcat(a, b, tag, Index(a, tag));
  }

  /** Inside a block nothing is shown up to the close tag. */
  lemma InsideBlock(ts: Tags, b: string)
    requires ts.Bracketing()
    ensures StripFrom(ts, true, b) == if CutAt(b, ts.close).Whole? then "" else Strip(ts, CutAt(b, ts.close).after)
  {
    if CutAt(b, ts.close).Around? {
      var c := Strip(ts, CutAt(b, ts.close).after);
      assert "" + c == c;
    }
  }

  /** The one-pass strip of a rendered document is its visible text. */
  lemma {:induction false} StripRender(ts: Tags, d: Doc)
    requires ts.Bracketing() && d.WellFormed(ts)
    ensures Strip(ts, d.Render(ts)) == d.Visible()
  {
    match d
    case Text(v) =>
    case Unclosed(v, t) =>
      TagFirst(ts, false, v, t);
      InsideBlock(ts, t);
      assert v + "" == v;
    case Block(v, t, r) =>
      InsideBlock(ts, t + ts.close + r.Render(ts));
      TagFirst(ts, false, v, t + ts.close + r.Render(ts));
      TagFirst(ts, true, t, r.Render(ts));
      StripRender(ts, r);
  }

  /** Every text is the rendering of a well-formed document, so `StripRender` fixes `Strip` everywhere. */
  lemma {:induction false} EveryTextIsADoc(ts: Tags, s: string) returns (d: Doc)
    requires ts.Bracketing()
    ensures d.WellFormed(ts) && d.Render(ts) == s
    decreases |s|
  {
    match CutAt(s, ts.open)
    case Whole =>
      d := Text(s);
    case Around(v, after) =>
      CutPrints(s, ts.open);
      match CutAt(after, ts.close) {
        case Whole =>
          d := Unclosed(v, after);
        case Around(t, rest) =>
          CutPrints(after, ts.close);
          var r := EveryTextIsADoc(ts, rest);
          d := Block(v, t, r);
      }
  }

  // ---- the streaming state machine ----

  /** The length of the longest suffix of `s`, at most `k` long, that is a prefix of `tag`. */
  function KeepUpTo(s: string, tag: string, k: nat): (r: nat)
    requires k <= |s| && k <= |tag|
    ensures r <= k
  {
    if k == 0 || EndsWithPrefix(s, tag, k) then k else KeepUpTo(s, tag, k - 1)
  }

  function Keep(s: string, tag: string): (r: nat)
    ensures r <= |s| && r <= |tag|
  {
    KeepUpTo(s, tag, if |s| > |tag| then |tag| else |s|)
  }

  lemma {:induction false} KeepUpToIsLongest(s: string, tag: string, k: nat)
    requires k <= |s| && k <= |tag|
    ensures var r := KeepUpTo(s, tag, k);
      && s[|s| - r..] == tag[..r]
      && forall j :: r < j <= k ==> s[|s| - j..] != tag[..j]
  {
    EndsWithPrefixIsSlice(s, tag, k);
    if k > 0 && !EndsWithPrefix(s, tag, k) {
      KeepUpToIsLongest(s, tag, k - 1);
    }
  }

  /** The kept suffix is a prefix of the tag, and no longer suffix is. */
  lemma KeepIsLongest(s: string, tag: string)
    ensures var r := Keep(s, tag);
      && s[|s| - r..] == tag[..r]
      && forall j :: r < j <= |s| && j <= |tag| ==> s[|s| - j..] != tag[..j]
  {
    KeepUpToIsLongest(s, tag, if |s| > |tag| then |tag| else |s|);
  }

  method TagPrefixLen(s: string, tag: string) returns (r: nat)
    ensures r == Keep(s, tag)
  {
    var n := |s|;
    if n > |tag| {
      n := |tag|;
    }
    var i := n;
    while i > 0
      invariant 0 <= i <= n
      invariant KeepUpTo(s, tag, i) == KeepUpTo(s, tag, n)
    {
      if EndsWithPrefix(s, tag, i) {
        return i;
      }
      i := i - 1;
    }
    return 0;
  }

  /** What one call of Feed passes on, and the mode and buffer it leaves. */
  datatype Fed = Fed(text: string, inThink: bool, buf: string)

  /** One call of Feed whose buffer, with the new chunk appended, reads `s`. */
  function FeedStep(ts: Tags, inThink: bool, s: string): Fed
    requires ts.Bracketing()
    decreases |s|
  {
    match CutAt(s, ts.Awaited(inThink))
    case Whole =>
      var cut := |s| - Keep(s, ts.Awaited(inThink));
      Fed(Shown(inThink, s[..cut]), inThink, s[cut..])
    case Around(a, b) =>
      var f := FeedStep(ts, !inThink, b);
      f.(text := Shown(inThink, a) + f.text)
  }

  /** A buffer worth keeping: a proper prefix of the tag being looked for. */
  predicate Pending(ts: Tags, inThink: bool, buf: string) {
    |buf| < |ts.Awaited(inThink)| && HasPrefix(ts.Awaited(inThink), buf)
  }

  /** A tag that begins before the kept suffix lies in `s` already or does not come. */
  lemma NoMatchBeforeKept(s: string, u: string, tag: string, k: nat)
    requires |tag| > 0 && !Contains(s, tag) && k < |s| - Keep(s, tag)
    ensures !MatchAt(s + u, tag, k)
  {
    IndexIsFirst(s, tag);
    MatchInConcat(s, u, tag, k);
    if |s| < k + |tag| <= |s| + |u| {
      var n := |s| - k;
      KeepIsLongest(s, tag);
      assert s[|s| - n..] != tag[..n];
      var j :| 0 <= j < n && s[|s| - n..][j] != tag[..n][j];
      assert (s + u)[k + j] == s[k + j] != tag[j];
      SameFromChars(s + u, tag, k, 0);
    }
  }

  /** Without the tag so far, only the kept suffix can take part in a later occurrence. */
  lemma KeptSuffixDecides(a: string, kept: string, u: string, tag: string)
    requires |tag| > 0 && !Contains(a + kept, tag) && Keep(a + kept, tag) == |kept|
    ensures var i, j := Index(a + (kept + u), tag), Index(kept + u, tag);
      if j < 0 then i < 0 else i == |a| + j
  {
    Assoc(a, kept, u);
    forall k | 0 <= k < |a|
      ensures !MatchAt(a + (kept + u), tag, k)
    {
      NoMatchBeforeKept(a + kept, u, tag, k);
    }
    IndexIsFirst(a + (kept + u), tag);
    IndexIsFirst(kept + u, tag);
    MatchInConcat(a, kept + u, tag, Index(a + (kept + u), tag));
    MatchInConcat(a, kept + u, tag, |a| + Index(kept + u, tag));
  }

  /** Text in front of the first occurrence is shown or dropped as it stands. */
  lemma StripPrefix(ts: Tags, inThink: bool, a: string, b: string)
    requires ts.Bracketing()
    requires var x, y := CutAt(a + b, ts.Awaited(inThink)), CutAt(b, ts.Awaited(inThink));
      if y.Whole? then x.Whole? else x == Around(a + y.before, y.after)
    ensures StripFrom(ts, inThink, a + b) == Shown(inThink, a) + StripFrom(ts, inThink, b)
  {
    var y := CutAt(b, ts.Awaited(inThink));
    if y.Around? {
      ShownAppend(inThink, a, y.before, StripFrom(ts, !inThink, y.after));
    }
  }

  /** Cutting past text in front that takes part in no occurrence. */
  lemma CutPast(a: string, b: string, tag: string)
    requires |tag| > 0
    requires var i, j := Index(a + b, tag), Index(b, tag); if j < 0 then i < 0 else i == |a| + j
    ensures var x, y := CutAt(a + b, tag), CutAt(b, tag);
      if y.Whole? then x.Whole? else x == Around(a + y.before, y.after)
  {
    var j := Index(b, tag);
    if j >= 0 {
      assert (a + b)[..|a| + j] == a + b[..j];
      assert (a + b)[|a| + j + |tag|..] == b[j + |tag|..];
    }
  }

  lemma KeptIsPending(s: string, tag: string)
    requires |tag| > 0 && !Contains(s, tag)
    ensures Keep(s, tag) < |tag| && HasPrefix(tag, s[|s| - Keep(s, tag)..])
  {
    KeepIsLongest(s, tag);
    IndexIsFirst(s, tag);
    MatchIsSlice(tag, tag[..Keep(s, tag)], 0);
    if |tag| <= |s| {
      MatchIsSlice(s, tag, |s| - |tag|);
      assert s[|s| - |tag|..|s| - |tag| + |tag|] == s[|s| - |tag|..];
      assert tag[..|tag|] == tag;
    }
  }

  /** The last turn of the Feed loop: the kept suffix still says what `s` did not. */
  lemma StopStep(ts: Tags, inThink: bool, s: string, u: string)
    requires ts.Bracketing() && CutAt(s, ts.Awaited(inThink)).Whole?
    ensures var f := FeedStep(ts, inThink, s);
      && Pending(ts, f.inThink, f.buf)
      && StripFrom(ts, inThink, s + u) == f.text + StripFrom(ts, f.inThink, f.buf + u)
  {
    var tag := ts.Awaited(inThink);
    var cut := |s| - Keep(s, tag);
    var a, kept := s[..cut], s[cut..];
    KeptIsPending(s, tag);
    KeepIsLongest(s, tag);
    assert s == a + kept;
    KeptSuffixDecides(a, kept, u, tag);
    CutPast(a, kept + u, tag);
    StripPrefix(ts, inThink, a, kept + u);
    Assoc(a, kept, u);
  }

  /** What one Feed leaves unsaid, the new state still says: the step loses and invents nothing. */
  lemma {:induction false} FeedStepCorrect(ts: Tags, inThink: bool, s: string, u: string)
    requires ts.Bracketing()
    ensures var f := FeedStep(ts, inThink, s);
      && Pending(ts, f.inThink, f.buf)
      && StripFrom(ts, inThink, s + u) == f.text + StripFrom(ts, f.inThink, f.buf + u)
    decreases |s|
  {
    var tag := ts.Awaited(inThink);
    match CutAt(s, tag)
    case Whole =>
      StopStep(ts, inThink, s, u);
    case Around(a, b) =>
      CutPrints(s, tag);
      Assoc(a + tag, b, u);
      TagFirst(ts, inThink, a, b + u);
      FeedStepCorrect(ts, !inThink, b, u);
      var f := FeedStep(ts, !inThink, b);
      Assoc(Shown(inThink, a), f.text, StripFrom(ts, f.inThink, f.buf + u));
  }

  /** At the end of the stream a pending buffer is what the one-pass strip shows of it. */
  lemma PendingAtEnd(ts: Tags, inThink: bool, buf: string)
    requires ts.Bracketing() && Pending(ts, inThink, buf)
    ensures StripFrom(ts, inThink, buf) == Shown(inThink, buf)
  {
  }

  class ThinkStripper {
    const tags: Tags
    var inThink: bool
    var buf: string

    /** Between calls the buffer is a proper prefix of the tag being looked for. */
    ghost predicate Valid()
      reads this
    {
      tags.Bracketing() && Pending(tags, inThink, buf)
    }

    constructor (tags: Tags)
      requires tags.Bracketing()
      ensures Valid() && this.tags == tags && !inThink && buf == ""
    {
      this.tags := tags;
      inThink, buf := false, "";
    }

    /** Returns the text to pass on; `FeedStepCorrect` says that nothing is lost and nothing invented. */
    method Feed(delta: string) returns (text: string)
      requires Valid()
      modifies this
      ensures Valid()
      ensures Fed(text, inThink, buf) == FeedStep(tags, old(inThink), old(buf) + delta)
    {
      buf := buf + delta;
      ghost var whole := FeedStep(tags, inThink, buf);
      FedIsPending(tags, inThink, buf);
      NothingYet(whole);
      var out := "";
      while true
        invariant whole == Continued(out, FeedStep(tags, inThink, buf))
        decreases |buf|
      {
        var s := buf;
        if inThink {
          var idx := Index(s, tags.close);
          if idx < 0 {
            out := HoldBack(s, out);
            break;
          }
          inThink := false;
          buf := s[idx + |tags.close|..];
          TurnInside(tags, out, s, buf);
        } else {
          var idx := Index(s, tags.open);
          if idx < 0 {
            out := HoldBack(s, out);
            break;
          }
          inThink := true;
          buf := s[idx + |tags.open|..];
          TurnOutside(tags, out, s, s[..idx], buf);
          out := out + s[..idx];
        }
      }
      text := out;
    }

    /**
     What both states do when the tag is not found: keep in the buffer only the end of `s` that may be
     the start of the tag, and outside a block add what stands before it to the output.
     */
    method HoldBack(s: string, out: string) returns (text: string)
      requires tags.Bracketing() && !Contains(s, tags.Awaited(inThink))
      modifies this`buf
      ensures Fed(text, inThink, buf) == Continued(out, FeedStep(tags, inThink, s))
    {
      var keep := TagPrefixLen(s, tags.Awaited(inThink));
      LastTurn(tags, out, inThink, s);
      buf := "";
      if keep > 0 {
        buf := s[|s| - keep..];
      }
      if inThink || (|out| == 0 && |s| == keep) {
        return out;
      }
      return out + s[..|s| - keep];
    }

    /** The rest of the text at the end of the stream; an unclosed block is dropped. */
    method Flush() returns (text: string)
      requires Valid()
      modifies this
      ensures Valid() && inThink == old(inThink) && buf == ""
      ensures text == StripFrom(tags, old(inThink), old(buf))
    {
      var s := buf;
      PendingAtEnd(tags, inThink, s);
      buf := "";
      if inThink {
        return "";
      }
      return s;
    }
  }

  /** Text collected earlier in the same call stands in front. */
  ghost function Continued(out: string, f: Fed): Fed {
    f.(text := out + f.text)
  }

  /** A turn of the Feed loop that finds the close tag. */
  lemma TurnInside(ts: Tags, out: string, s: string, rest: string)
    requires ts.Bracketing() && Contains(s, ts.close) && rest == s[Index(s, ts.close) + |ts.close|..]
    ensures Continued(out, FeedStep(ts, true, s)) == Continued(out, FeedStep(ts, false, rest))
  {
    assert CutAt(s, ts.close) == Around(s[..Index(s, ts.close)], rest);
    assert "" + FeedStep(ts, false, rest).text == FeedStep(ts, false, rest).text;
  }

  /** A turn of the Feed loop that finds the open tag. */
  lemma TurnOutside(ts: Tags, out: string, s: string, head: string, rest: string)
    requires ts.Bracketing() && Contains(s, ts.open)
    requires head == s[..Index(s, ts.open)] && rest == s[Index(s, ts.open) + |ts.open|..]
    ensures Continued(out, FeedStep(ts, false, s)) == Continued(out + head, FeedStep(ts, true, rest))
  {
    assert CutAt(s, ts.open) == Around(head, rest);
    Assoc(out, head, FeedStep(ts, true, rest).text);
  }

  lemma FedIsPending(ts: Tags, inThink: bool, s: string)
    requires ts.Bracketing()
    ensures Pending(ts, FeedStep(ts, inThink, s).inThink, FeedStep(ts, inThink, s).buf)
  {
    FeedStepCorrect(ts, inThink, s, "");
  }

  lemma NothingYet(f: Fed)
    ensures Continued("", f) == f
  {
    assert "" + f.text == f.text;
  }

  /** The turn of the Feed loop that does not find the tag. */
  lemma LastTurn(ts: Tags, out: string, inThink: bool, s: string)
    requires ts.Bracketing() && !Contains(s, ts.Awaited(inThink))
    ensures var cut := |s| - Keep(s, ts.Awaited(inThink));
      && Continued(out, FeedStep(ts, inThink, s)) == Fed(if inThink then out else out + s[..cut], inThink, s[cut..])
      && (cut == |s| ==> s[cut..] == "")
      && (cut == 0 ==> out + s[..cut] == out)
  {
    if inThink {
      assert out + "" == out;
    }
  }

  function Concat(chunks: seq<string>): string {
    if chunks == [] then "" else Concat(chunks[..|chunks| - 1]) + chunks[|chunks| - 1]
  }

  /** The stripper after a stream of chunks, of which empty ones are skipped, and all it passed on. */
  function FeedAll(ts: Tags, chunks: seq<string>): Fed
    requires ts.Bracketing()
  {
    if chunks == [] then Fed("", false, "")
    else
      var chunk := chunks[|chunks| - 1];
      var p := FeedAll(ts, chunks[..|chunks| - 1]);
      if chunk == "" then p
      else
        var f := FeedStep(ts, p.inThink, p.buf + chunk);
        f.(text := p.text + f.text)
  }

  /** Whatever the chunks and whatever text `u` follows: what was passed on and what the state makes of the rest. */
  lemma {:induction false} FeedAllCorrect(ts: Tags, chunks: seq<string>, u: string)
    requires ts.Bracketing()
    ensures var f := FeedAll(ts, chunks);
      && Pending(ts, f.inThink, f.buf)
      && Strip(ts, Concat(chunks) + u) == f.text + StripFrom(ts, f.inThink, f.buf + u)
  {
    if chunks == [] {
      assert "" + StripFrom(ts, false, "" + u) == StripFrom(ts, false, "" + u);
    } else {
      var before, chunk := chunks[..|chunks| - 1], chunks[|chunks| - 1];
      var p := FeedAll(ts, before);
      FeedAllCorrect(ts, before, chunk + u);
      Assoc(Concat(before), chunk, u);
      Assoc(p.buf, chunk, u);
      if chunk == "" {
        assert "" + u == u;
      } else {
        FeedStepCorrect(ts, p.inThink, p.buf + chunk, u);
        var f := FeedStep(ts, p.inThink, p.buf + chunk);
        Assoc(p.text, f.text, StripFrom(ts, f.inThink, f.buf + u));
      }
    }
  }

  /** With nothing to follow, the text passed on and the flushed rest are the one-pass strip of the whole. */
  lemma ChunkingIsIrrelevant(ts: Tags, chunks: seq<string>)
    requires ts.Bracketing()
    ensures var f := FeedAll(ts, chunks);
      Strip(ts, Concat(chunks)) == f.text + StripFrom(ts, f.inThink, f.buf)
  {
    FeedAllCorrect(ts, chunks, "");
    assert Concat(chunks) + "" == Concat(chunks);
    assert FeedAll(ts, chunks).buf + "" == FeedAll(ts, chunks).buf;
  }

  // ---- the rescanning form ----

  /** The first block of a text, if any: what stands before it and, if it is closed, after it. */
  datatype First = NoBlock | OpenEnd(before: string) | Closed(before: string, after: string)

  function FirstBlock(ts: Tags, s: string): (f: First)
    requires ts.Bracketing()
    ensures f.Closed? ==> |f.before + f.after| < |s|
  {
    match CutAt(s, ts.open)
    case Whole => NoBlock
    case Around(a, b) =>
      match CutAt(b, ts.close)
      case Whole => OpenEnd(a)
      case Around(_, c) => Closed(a, c)
  }

  /** Removes the first block and starts over on what is left; an unclosed block is dropped. */
  function Rescan(ts: Tags, s: string): string
    requires ts.Bracketing()
    decreases |s|
  {
    match FirstBlock(ts, s)
    case NoBlock => s
    case OpenEnd(a) => a
    case Closed(a, c) => Rescan(ts, a + c)
  }

  method StripThinkAll(ts: Tags, text: string) returns (r: string)
    requires ts.Bracketing()
    ensures r == Rescan(ts, text)
  {
    var s := text;
    while true
      invariant Rescan(ts, s) == Rescan(ts, text)
      decreases |s|
    {
      var i := Index(s, ts.open);
      if i < 0 {
        return s;
      }
      var j := Index(s[i..], ts.close);
      FirstBlockByIndex(ts, s);
      if j < 0 {
        return s[..i];
      }
      s := s[..i] + s[i + j + |ts.close|..];
    }
  }

  /** The two searches of the program find the first block. */
  lemma FirstBlockByIndex(ts: Tags, s: string)
    requires ts.Bracketing() && Contains(s, ts.open)
    ensures var i := Index(s, ts.open);
      var j := Index(s[i..], ts.close);
      FirstBlock(ts, s) == if j < 0 then OpenEnd(s[..i]) else Closed(s[..i], s[i + j + |ts.close|..])
  {
    CloseFromOpen(ts, s);
  }

  /** Looking for the close tag from the open tag on, as the program does, or behind it is the same. */
  lemma CloseFromOpen(ts: Tags, s: string)
    requires ts.Bracketing() && CutAt(s, ts.open).Around?
    ensures var c := CutAt(s, ts.open);
      var j, y := Index(s[|c.before|..], ts.close), CutAt(c.after, ts.close);
      if y.Whole? then j < 0 else j > 0 && s[|c.before| + j + |ts.close|..] == y.after
  {
    var Around(a, b) := CutAt(s, ts.open);
    CutPrints(s, ts.open);
    assert s[|a|..] == ts.open + b;
    CloseBehindOpen(ts, b);
    var k := Index(b, ts.close);
    if k >= 0 {
      assert s[|a| + (|ts.open| + k) + |ts.close|..] == b[k + |ts.close|..];
    }
  }

  lemma CloseBehindOpen(ts: Tags, b: string)
    requires ts.Bracketing()
    ensures var j, k := Index(ts.open + b, ts.close), Index(b, ts.close);
      if k < 0 then j < 0 else j == |ts.open| + k
  {
    var s := ts.open + b;
    forall p | 0 <= p < |ts.open|
      ensures !MatchAt(s, ts.close, p)
    {
      if p + |ts.close| <= |s| {
        SameFromChars(s, ts.close, p, 0);
        assert s[p + 0] == ts.open[p];
        assert p == 0 ==> s[p + 1] == ts.open[1];
      }
    }
    IndexIsFirst(s, ts.close);
    IndexIsFirst(b, ts.close);
    MatchInConcat(ts.open, b, ts.close, Index(s, ts.close));
    MatchInConcat(ts.open, b, ts.close, |ts.open| + Index(b, ts.close));
  }

  /** The rescanning form never leaves an open tag. */
  lemma {:induction false} RescanLeavesNoTag(ts: Tags, s: string)
    requires ts.Bracketing()
    ensures !Contains(Rescan(ts, s), ts.open)
    decreases |s|
  {
    match FirstBlock(ts, s)
    case NoBlock =>
    case OpenEnd(_) =>
      CutPrints(s, ts.open);
    case Closed(a, c) =>
      RescanLeavesNoTag(ts, a + c);
  }

  /** An occurrence survives when text is appended. */
  lemma ContainsMore(s: string, u: string, tag: string)
    requires Contains(s, tag)
    ensures Contains(s + u, tag)
  {
    IndexIsFirst(s, tag);
    IndexIsFirst(s + u, tag);
    MatchInConcat(s, u, tag, Index(s, tag));
  }

  /** If gluing `a` to the stripped `c` makes no open tag, stripping the glued text is gluing the stripped text. */
  lemma StripGlued(ts: Tags, a: string, c: string)
    requires ts.Bracketing() && !Contains(a + Strip(ts, c), ts.open)
    ensures Strip(ts, a + c) == a + Strip(ts, c)
  {
    match CutAt(c, ts.open)
    case Whole =>
    case Around(h, rest) =>
      var tail := StripFrom(ts, true, rest);
      Assoc(a, h, tail);
      if Contains(a + h, ts.open) {
        ContainsMore(a + h, tail, ts.open);
      } else {
        CutPrints(c, ts.open);
        assert a + c == (a + h) + ts.open + rest;
        TagFirst(ts, false, a + h, rest);
      }
  }

  /** The two forms agree exactly when the streamed text holds no open tag. */
  lemma {:induction false} StreamAgreesWithRescan(ts: Tags, s: string)
    requires ts.Bracketing()
    ensures Rescan(ts, s) == Strip(ts, s) <==> !Contains(Strip(ts, s), ts.open)
    decreases |s|
  {
    RescanLeavesNoTag(ts, s);
    if !Contains(Strip(ts, s), ts.open) {
      AgreeWithoutTag(ts, s);
    }
  }

  lemma {:induction false} AgreeWithoutTag(ts: Tags, s: string)
    requires ts.Bracketing() && !Contains(Strip(ts, s), ts.open)
    ensures Rescan(ts, s) == Strip(ts, s)
    decreases |s|
  {
    StripFirstBlock(ts, s);
    if FirstBlock(ts, s).Closed? {
      var Closed(a, c) := FirstBlock(ts, s);
      StripGlued(ts, a, c);
      AgreeWithoutTag(ts, a + c);
    }
  }

  /** The one pass goes on behind the first block. */
  lemma StripFirstBlock(ts: Tags, s: string)
    requires ts.Bracketing()
    ensures Strip(ts, s) == match FirstBlock(ts, s)
      case NoBlock => s
      case OpenEnd(a) => a
      case Closed(a, c) => a + Strip(ts, c)
  {
    if CutAt(s, ts.open).Around? {
      var Around(a, b) := CutAt(s, ts.open);
      InsideBlock(ts, b);
      assert a + "" == a;
    }
  }

  /** Removing a block can splice a new open tag, which only the rescanning form sees. */
  lemma SplicedTagSeparatesThem(ts: Tags)
    requires ts.Bracketing()
    ensures var s := ts.open[..1] + (ts.open + (ts.close + ts.open[1..]));
      Strip(ts, s) == ts.open && Rescan(ts, s) == ""
  {
    var a, c := ts.open[..1], ts.open[1..];
    var s := a + (ts.open + (ts.close + c));
    FirstCharApart(ts.open, ts.close);
    TagFirst(ts, false, a, ts.close + c);
    Assoc(a, ts.open, ts.close + c);
    TagFirst(ts, true, "", c);
    StripFirstBlock(ts, s);
    TagFirst(ts, false, "", "");
  }

  lemma FirstCharApart(t: string, u: string)
    requires |t| > 0
    ensures t[..1] + t[1..] == t == "" + t + "" && "" + u + t[1..] == u + t[1..]
  {
  }

  /**
   One agent answer: what the client is sent chunk by chunk, and what the history stores.
   Whatever the chunking, the client sees the one-pass strip of the whole answer.
   */
  method AgentStream(ts: Tags, chunks: seq<string>) returns (sent: string, stored: string)
    requires ts.Bracketing()
    ensures sent == Strip(ts, Concat(chunks))
    ensures stored == Rescan(ts, Concat(chunks)) && !Contains(stored, ts.open)
    ensures sent == stored <==> !Contains(sent, ts.open)
  {
    var stripper := new ThinkStripper(ts);
    var b := "";
    sent := "";
    for n := 0 to |chunks|
      invariant fresh(stripper) && stripper.Valid() && stripper.tags == ts
      invariant b == Concat(chunks[..n])
      invariant FeedAll(ts, chunks[..n]) == Fed(sent, stripper.inThink, stripper.buf)
    {
      var content := chunks[n];
      assert chunks[..n + 1][..n] == chunks[..n];
      b := b + content;
      if content != "" {
        var clean := stripper.Feed(content);
        SkipEmpty(sent, clean);
        if clean != "" {
          sent := sent + clean;
        }
      }
    }
    assert chunks[..|chunks|] == chunks;
    ChunkingIsIrrelevant(ts, chunks);
    var rest := stripper.Flush();
    SkipEmpty(sent, rest);
    if rest != "" {
      sent := sent + rest;
    }
    stored := StripThinkAll(ts, b);
    RescanLeavesNoTag(ts, b);
    StreamAgreesWithRescan(ts, b);
  }

  /** Not sending an empty text is sending it. */
  lemma SkipEmpty(sent: string, text: string)
    ensures text == "" ==> sent + text == sent
  {
  }

  /** The program's own tags have the shape assumed throughout. */
  lemma ThinkTagsBracket()
    ensures THINK.Bracketing()
  {
  }

  /** So the tags of the program are cut out of this text, with what stands between them. */
  lemma StripsThinking(a: string, t: string, b: string)
    requires !Contains(a, "<think>") && !Contains(t, "</think>") && !Contains(b, "<think>")
    ensures THINK.Bracketing() && Strip(THINK, a + "<think>" + (t + "</think>" + b)) == a + b
  {
    ThinkTagsBracket();
    StripRender(THINK, Block(a, t, Text(b)));
  }
}
