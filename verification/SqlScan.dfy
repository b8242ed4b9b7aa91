/**
 The quote- and bracket-aware scanner of SQL text (internal/engine/datapackage.go): index-jumping
 loops, proved against a character-by-character automaton that only toggles on quote characters.
 */
module SqlScan {
  import opened GoStrings

  // ---- the automaton ----

  predicate IsQuote(c: char) {
    c == '\'' || c == '"' || c == '`'
  }

  /** Bracket depth, and the quote character of the segment being read, if any. */
  datatype Lex = Lex(depth: int, quote: Option<char>)

  const START := Lex(0, None)

  /** A doubled quote closes its segment and opens it again, so it needs no case of its own. */
  function Step(st: Lex, c: char): Lex {
    if st.quote.Some? then
      if c == st.quote.value then st.(quote := None) else st
    else if IsQuote(c) then st.(quote := Some(c))
    else if c == '(' then st.(depth := st.depth + 1)
    else if c == ')' then st.(depth := st.depth - 1)
    else st
  }

  /** The state after reading `s[from..til]` from state `st`. */
  function Run(st: Lex, s: string, from: nat, til: nat): Lex
    requires from <= til <= |s|
    decreases til - from
  {
    if from == til then st else Step(Run(st, s, from, til - 1), s[til - 1])
  }

  lemma {:induction false} RunCompose(st: Lex, s: string, from: nat, mid: nat, til: nat)
    requires from <= mid <= til <= |s|
    ensures Run(st, s, from, til) == Run(Run(st, s, from, mid), s, mid, til)
    decreases til
  {
    if mid < til {
      RunCompose(st, s, from, mid, til - 1);
    }
  }

  /** Reading a piece where it stands in a text is reading it alone. */
  lemma {:induction false} RunPiece(st: Lex, s: string, at: nat, p: string, k: nat)
    requires MatchAt(s, p, at) && k <= |p|
    ensures Run(st, s, at, at + k) == Run(st, p, 0, k)
    decreases k
  {
    if k > 0 {
      RunPiece(st, s, at, p, k - 1);
      SameFromChars(s, p, at, 0);
    }
  }

  /** A bracket depth at the start is carried along. */
  lemma {:induction false} RunDeeper(d: int, st: Lex, s: string, from: nat, til: nat)
    requires from <= til <= |s|
    ensures var r := Run(st, s, from, til);
      Run(st.(depth := st.depth + d), s, from, til) == r.(depth := r.depth + d)
    decreases til
  {
    if from < til {
      RunDeeper(d, st, s, from, til - 1);
    }
  }

  // ---- skipping a quoted segment ----

  /** The first index behind a segment quoted by `q`, read from `j` on; a doubled `q` stays inside. */
  function SegmentEnd(s: string, q: char, j: nat): (r: nat)
    requires j <= |s|
    ensures j <= r <= |s|
    decreases |s| - j
  {
    if j == |s| then j
    else if s[j] != q then SegmentEnd(s, q, j + 1)
    else if j + 1 < |s| && s[j + 1] == q then SegmentEnd(s, q, j + 2)
    else j + 1
  }

  method SkipQuoted(s: string, i: nat) returns (r: nat)
    requires i < |s|
    ensures r == SegmentEnd(s, s[i], i + 1)
  {
    var q := s[i];
    var j := i + 1;
    while j < |s|
      invariant i < j <= |s|
      invariant SegmentEnd(s, q, j) == SegmentEnd(s, q, i + 1)
    {
      if s[j] != q {
        j := j + 1;
        continue;
      }
      if j + 1 < |s| && s[j + 1] == q {
        j := j + 2;
        continue;
      }
      return j + 1;
    }
    return |s|;
  }

  /** At `k` the automaton has nothing to act on: inside a segment, or where a segment opens. */
  predicate Quiet(st: Lex, s: string, from: nat, k: nat)
    requires from <= k < |s|
  {
    Run(st, s, from, k).quote.Some? || IsQuote(s[k])
  }

  /** Jumping over a segment skips only quiet positions and ends outside quotes, or at the end of the text. */
  lemma {:induction false} SegmentIsQuiet(st: Lex, s: string, from: nat, q: char, j: nat)
    requires from <= j <= |s| && IsQuote(q) && Run(st, s, from, j).quote == Some(q)
    ensures var r := SegmentEnd(s, q, j);
      && Run(st, s, from, r).depth == Run(st, s, from, j).depth
      && (r < |s| ==> Run(st, s, from, r).quote == None)
      && forall k :: j <= k < r ==> Quiet(st, s, from, k)
    decreases |s| - j
  {
    if j < |s| {
      if s[j] != q {
        SegmentIsQuiet(st, s, from, q, j + 1);
      } else if j + 1 < |s| && s[j + 1] == q {
        assert Run(st, s, from, j + 1).quote == None;
        SegmentIsQuiet(st, s, from, q, j + 2);
      }
    }
  }

  /** The jump the scanners make at an opening quote. */
  lemma JumpIsQuiet(st: Lex, s: string, from: nat, i: nat)
    requires from <= i < |s| && Run(st, s, from, i).quote == None && IsQuote(s[i])
    ensures var r := SegmentEnd(s, s[i], i + 1);
      && i < r
      && Run(st, s, from, r).depth == Run(st, s, from, i).depth
      && (r < |s| ==> Run(st, s, from, r).quote == None)
      && forall k :: i <= k < r ==> Quiet(st, s, from, k)
  {
    SegmentIsQuiet(st, s, from, s[i], i + 1);
  }

  // ---- matching brackets ----

  /** The bracket opened first is closed at `k`. */
  predicate ClosesAt(s: string, start: nat, k: nat)
    requires start <= k < |s|
  {
    Run(START, s, start, k) == Lex(1, None) && s[k] == ')'
  }

  /** The first closing position from `k` on, or -1. */
  function BracketFrom(s: string, start: nat, k: nat): (r: int)
    requires start <= k <= |s|
    decreases |s| - k
  {
    if k == |s| then -1
    else if ClosesAt(s, start, k) then k
    else BracketFrom(s, start, k + 1)
  }

  lemma {:induction false} BracketSkips(s: string, start: nat, i: nat, r: nat)
    requires start <= i <= r <= |s|
    requires forall k :: i <= k < r ==> !ClosesAt(s, start, k)
    ensures BracketFrom(s, start, i) == BracketFrom(s, start, r)
    decreases r - i
  {
    if i < r {
      BracketSkips(s, start, i + 1, r);
    }
  }

  lemma JumpKeepsBracket(s: string, start: nat, i: nat)
    requires start <= i < |s| && Run(START, s, start, i).quote == None && IsQuote(s[i])
    ensures var r := SegmentEnd(s, s[i], i + 1);
      && i < r
      && BracketFrom(s, start, i) == BracketFrom(s, start, r)
      && (r < |s| ==> Run(START, s, start, r) == Run(START, s, start, i))
  {
    var r := SegmentEnd(s, s[i], i + 1);
    JumpIsQuiet(START, s, start, i);
    forall k | i <= k < r
      ensures !ClosesAt(s, start, k)
    {
      assert Quiet(START, s, start, k);
    }
    BracketSkips(s, start, i, r);
  }

  method MatchBracket(s: string, start: nat) returns (r: int)
    requires start <= |s|
    ensures r == BracketFrom(s, start, start)
  {
    var depth := 0;
    var i := start;
    while i < |s|
      invariant start <= i <= |s|
      invariant BracketFrom(s, start, i) == BracketFrom(s, start, start)
      invariant i < |s| ==> Run(START, s, start, i) == Lex(depth, None)
    {
      var c := s[i];
      var next := i + 1;
      if IsQuote(c) {
        next := SkipQuoted(s, i);
        JumpKeepsBracket(s, start, i);
      } else if c == '(' {
        depth := depth + 1;
      } else if c == ')' {
        depth := depth - 1;
        if depth == 0 {
          return i;
        }
      }
      i := next;
    }
    return -1;
  }

  // ---- splitting at the top level ----

  /** Position `k` holds a separator outside all quotes and brackets. */
  predicate TopSep(st: Lex, s: string, from: nat, sep: char, k: nat)
    requires from <= k < |s|
  {
    Run(st, s, from, k) == START && s[k] == sep && !IsQuote(sep) && sep != '(' && sep != ')'
  }

  /** The pieces of `s` from `last` on, with the separators from `i` on still to be found. */
  function Pieces(s: string, sep: char, i: nat, last: nat): (r: seq<string>)
    requires last <= i <= |s|
    decreases |s| - i
  {
    if i == |s| then [s[last..]]
    else if TopSep(START, s, 0, sep, i) then [s[last..i]] + Pieces(s, sep, i + 1, i + 1)
    else Pieces(s, sep, i + 1, last)
  }

  function SplitTop(s: string, sep: char): seq<string> {
    Pieces(s, sep, 0, 0)
  }

  lemma {:induction false} PiecesSkip(s: string, sep: char, i: nat, r: nat, last: nat)
    requires last <= i <= r <= |s|
    requires forall k :: i <= k < r ==> !TopSep(START, s, 0, sep, k)
    ensures Pieces(s, sep, i, last) == Pieces(s, sep, r, last)
    decreases r - i
  {
    if i < r {
      PiecesSkip(s, sep, i + 1, r, last);
    }
  }

  lemma JumpKeepsPieces(s: string, sep: char, i: nat, last: nat)
    requires last <= i < |s| && Run(START, s, 0, i).quote == None && IsQuote(s[i])
    ensures var r := SegmentEnd(s, s[i], i + 1);
      && i < r
      && Pieces(s, sep, i, last) == Pieces(s, sep, r, last)
      && (r < |s| ==> Run(START, s, 0, r) == Run(START, s, 0, i))
  {
    var r := SegmentEnd(s, s[i], i + 1);
    JumpIsQuiet(START, s, 0, i);
    forall k | i <= k < r
      ensures !TopSep(START, s, 0, sep, k)
    {
      assert Quiet(START, s, 0, k);
    }
    PiecesSkip(s, sep, i, r, last);
  }

  method SplitTopLevel(s: string, sep: char) returns (out: seq<string>)
    ensures out == SplitTop(s, sep)
  {
    out := [];
    var depth, last, i := 0, 0, 0;
    while i < |s|
      invariant last <= i <= |s|
      invariant out + Pieces(s, sep, i, last) == SplitTop(s, sep)
      invariant i < |s| ==> Run(START, s, 0, i) == Lex(depth, None)
    {
      var c := s[i];
      var next := i + 1;
      if IsQuote(c) {
        next := SkipQuoted(s, i);
        JumpKeepsPieces(s, sep, i, last);
      } else if c == '(' {
        depth := depth + 1;
      } else if c == ')' {
        depth := depth - 1;
      } else if c == sep {
        if depth == 0 {
          ghost var rest := Pieces(s, sep, i + 1, i + 1);
          assert out + ([s[last..i]] + rest) == (out + [s[last..i]]) + rest;
          out := out + [s[last..i]];
          last := i + 1;
        }
      }
      i := next;
    }
    out := out + [s[last..]];
  }

  // ---- printing and splitting undo each other ----

  function Join(parts: seq<string>, sep: string): string {
    if parts == [] then ""
    else if |parts| == 1 then parts[0]
    else parts[0] + sep + Join(parts[1..], sep)
  }

  /** A piece that starts and ends outside quotes and brackets and has no separator at its top level. */
  ghost predicate Sealed(p: string, sep: char) {
    && Run(START, p, 0, |p|) == START
    && forall k :: 0 <= k < |p| ==> !TopSep(START, p, 0, sep, k)
  }

  /** The scanner, standing at the first character of a sealed piece, reads it as one piece. */
  lemma PassPiece(s: string, sep: char, at: nat, p: string)
    requires MatchAt(s, p, at) && Run(START, s, 0, at) == START && Sealed(p, sep)
    ensures Run(START, s, 0, at + |p|) == START
    ensures Pieces(s, sep, at, at) == Pieces(s, sep, at + |p|, at)
  {
    forall k | 0 <= k <= |p|
      ensures Run(START, s, 0, at + k) == Run(START, p, 0, k)
    {
      RunCompose(START, s, 0, at, at + k);
      RunPiece(START, s, at, p, k);
    }
    SameFromChars(s, p, at, 0);
    forall k | at <= k < at + |p|
      ensures !TopSep(START, s, 0, sep, k)
    {
      assert Run(START, s, 0, at + (k - at)) == Run(START, p, 0, k - at);
      assert !TopSep(START, p, 0, sep, k - at);
      assert s[at + (k - at)] == p[k - at];
    }
    PiecesSkip(s, sep, at, at + |p|, at);
  }

  /** The last piece of a text. */
  lemma LastPiece(pre: string, p: string, sep: char)
    requires Sealed(p, sep) && Run(START, pre, 0, |pre|) == START
    ensures Pieces(pre + p, sep, |pre|, |pre|) == [p]
  {
    PieceInText(pre, p, "");
    assert pre + p + "" == pre + p;
    PrefixRun(pre, p);
    PassPiece(pre + p, sep, |pre|, p);
  }

  /** A piece with its separator. */
  lemma NextPiece(pre: string, p: string, sep: char, rest: string)
    requires Sealed(p, sep) && Run(START, pre, 0, |pre|) == START
    requires !IsQuote(sep) && sep != '(' && sep != ')'
    ensures var s, pre' := pre + (p + [sep] + rest), pre + p + [sep];
      && s == pre' + rest
      && Run(START, pre', 0, |pre'|) == START
      && Pieces(s, sep, |pre|, |pre|) == [p] + Pieces(s, sep, |pre'|, |pre'|)
  {
    JoinShape(pre, p, sep, rest);
    PieceInText(pre, p, [sep] + rest);
    var s, pre' := pre + (p + [sep] + rest), pre + p + [sep];
    PrefixRun(pre, p + [sep] + rest);
    PassPiece(s, sep, |pre|, p);
    PrefixRun(pre', rest);
    assert Run(START, s, 0, |pre'|) == Step(Run(START, s, 0, |pre| + |p|), sep);
  }

  /** Joining sealed pieces and splitting the text gives the pieces back. */
  lemma {:induction false} SplitJoin(pre: string, parts: seq<string>, sep: char)
    requires parts != [] && !IsQuote(sep) && sep != '(' && sep != ')'
    requires forall p :: p in parts ==> Sealed(p, sep)
    requires Run(START, pre, 0, |pre|) == START
    ensures Pieces(pre + Join(parts, [sep]), sep, |pre|, |pre|) == parts
    decreases |parts|
  {
    if |parts| == 1 {
      LastPiece(pre, parts[0], sep);
    } else {
      NextPiece(pre, parts[0], sep, Join(parts[1..], [sep]));
      SplitJoin(pre + parts[0] + [sep], parts[1..], sep);
    }
  }

  lemma PieceInText(a: string, p: string, b: string)
    ensures MatchAt(a + p + b, p, |a|) && MatchAt(a + (p + b), p, |a|)
    ensures a + p + b == a + (p + b)
    ensures (a + p + b)[|a|..|a| + |p|] == p
  {
    SameFromChars(a + p + b, p, |a|, 0);
    assert a + p + b == a + (p + b);
  }

  lemma JoinShape(pre: string, p: string, sep: char, rest: string)
    ensures pre + (p + [sep] + rest) == pre + p + ([sep] + rest) == (pre + p + [sep]) + rest
    ensures var s := pre + (p + [sep] + rest);
      s[|pre| + |p|] == sep && s[|pre|..|pre| + |p|] == p
  {
  }

  lemma {:induction false} PrefixRunTo(a: string, b: string, k: nat)
    requires k <= |a|
    ensures Run(START, a + b, 0, k) == Run(START, a, 0, k)
  {
    if k > 0 {
      PrefixRunTo(a, b, k - 1);
    }
  }

  lemma PrefixRun(a: string, b: string)
    ensures Run(START, a + b, 0, |a|) == Run(START, a, 0, |a|)
  {
    PrefixRunTo(a, b, |a|);
  }

  /** Behind a prefix, reading goes on from the state the prefix ends in. */
  lemma SuffixRun(a: string, b: string, k: nat)
    requires k <= |b|
    ensures Run(START, a + b, 0, |a| + k) == Run(Run(START, a, 0, |a|), b, 0, k)
  {
    PrefixRun(a, b);
    RunCompose(START, a + b, 0, |a|, |a| + k);
    PieceInText(a, b, "");
    assert a + b + "" == a + b;
    RunPiece(Run(START, a, 0, |a|), a + b, |a|, b, k);
  }

  /** Every list of sealed pieces survives printing and splitting. */
  lemma SplitTopJoin(parts: seq<string>, sep: char)
    requires parts != [] && !IsQuote(sep) && sep != '(' && sep != ')'
    requires forall p :: p in parts ==> Sealed(p, sep)
    ensures SplitTop(Join(parts, [sep]), sep) == parts
  {
    SplitJoin("", parts, sep);
    assert "" + Join(parts, [sep]) == Join(parts, [sep]);
  }

  /** Splitting loses nothing: the pieces, joined again, are the text. */
  lemma {:induction false} JoinPieces(s: string, sep: char, i: nat, last: nat)
    requires last <= i <= |s|
    ensures Pieces(s, sep, i, last) != [] && Join(Pieces(s, sep, i, last), [sep]) == s[last..]
    decreases |s| - i
  {
    if i < |s| {
      if TopSep(START, s, 0, sep, i) {
        JoinPieces(s, sep, i + 1, i + 1);
        assert s[last..] == s[last..i] + [sep] + s[i + 1..];
      } else {
        JoinPieces(s, sep, i + 1, last);
      }
    }
  }

  lemma JoinSplit(s: string, sep: char)
    ensures Join(SplitTop(s, sep), [sep]) == s
  {
    JoinPieces(s, sep, 0, 0);
  }

  // ---- texts with balanced brackets and closed quotes ----

  /** Brackets pair up and quotes are closed. */
  ghost predicate Whole(p: string) {
    && Run(START, p, 0, |p|) == START
    && forall k :: 0 <= k <= |p| ==> Run(START, p, 0, k).depth >= 0
  }

  lemma WholeConcat(a: string, b: string)
    requires Whole(a) && Whole(b)
    ensures Whole(a + b)
  {
    SuffixRun(a, b, |b|);
    forall k | 0 <= k <= |a + b|
      ensures Run(START, a + b, 0, k).depth >= 0
    {
      if k <= |a| {
        PrefixRunTo(a, b, k);
      } else {
        SuffixRun(a, b, k - |a|);
      }
    }
  }

  lemma SealedConcat(a: string, b: string, sep: char)
    requires Sealed(a, sep) && Sealed(b, sep)
    ensures Sealed(a + b, sep)
  {
    SuffixRun(a, b, |b|);
    forall k | 0 <= k < |a + b|
      ensures !TopSep(START, a + b, 0, sep, k)
    {
      if k < |a| {
        PrefixRunTo(a, b, k);
        assert !TopSep(START, a, 0, sep, k);
      } else {
        SuffixRun(a, b, k - |a|);
        assert !TopSep(START, b, 0, sep, k - |a|);
      }
    }
  }

  /** Text without quotes, brackets and separators is one piece. */
  lemma {:induction false} PlainSealed(s: string, sep: char)
    requires forall i :: 0 <= i < |s| ==>
      s[i] != '\'' && s[i] != '"' && s[i] != '`' && s[i] != '(' && s[i] != ')' && s[i] != sep
    ensures Sealed(s, sep) && Run(START, s, 0, |s|) == START
  {
    forall k | 0 <= k <= |s|
      ensures Run(START, s, 0, k) == START
    {
      PlainRun(s, k);
    }
  }

  lemma {:induction false} PlainRun(s: string, k: nat)
    requires k <= |s| && forall i :: 0 <= i < |s| ==> !IsQuote(s[i]) && s[i] != '(' && s[i] != ')'
    ensures Run(START, s, 0, k) == START
  {
    if k > 0 {
      PlainRun(s, k - 1);
    }
  }

  lemma WholeChar(c: char)
    requires !IsQuote(c) && c != '(' && c != ')'
    ensures Whole([c])
  {
    assert Run(START, [c], 0, 1) == Step(Run(START, [c], 0, 0), c);
  }

  lemma {:induction false} WholeJoin(parts: seq<string>, sep: char)
    requires !IsQuote(sep) && sep != '(' && sep != ')'
    requires forall p :: p in parts ==> Whole(p)
    ensures Whole(Join(parts, [sep]))
    decreases |parts|
  {
    if |parts| > 1 {
      WholeChar(sep);
      WholeConcat(parts[0], [sep]);
      WholeJoin(parts[1..], sep);
      WholeConcat(parts[0] + [sep], Join(parts[1..], [sep]));
    }
  }

  /** Inside a bracket pair a whole text is read one level deeper. */
  lemma RunInBrackets(inner: string, tail: string, k: nat)
    requires k <= |inner|
    ensures var r := Run(START, inner, 0, k);
      Run(START, "(" + inner + ")" + tail, 0, 1 + k) == Lex(r.depth + 1, r.quote)
  {
    var s := "(" + inner + ")" + tail;
    assert Run(START, s, 0, 1) == Step(Run(START, s, 0, 0), '(');
    RunCompose(START, s, 0, 1, 1 + k);
    PieceInText("(", inner, ")" + tail);
    assert "(" + inner + (")" + tail) == s;
    RunPiece(Lex(1, None), s, 1, inner, k);
    RunDeeper(1, START, inner, 0, k);
  }

  lemma DepthInBrackets(inner: string, k: nat)
    requires Whole(inner) && 1 <= k <= |inner| + 1
    ensures var p := "(" + inner + ")";
      Run(START, p, 0, k).depth >= 1 && (k == |inner| + 1 ==> Run(START, p, 0, k) == Lex(1, None))
  {
    var p := "(" + inner + ")";
    RunInBrackets(inner, "", k - 1);
    assert p + "" == p;
  }

  /** A bracketed whole text is whole, and holds no separator at its top level. */
  lemma Bracketed(inner: string, sep: char)
    requires Whole(inner)
    ensures Whole("(" + inner + ")") && Sealed("(" + inner + ")", sep)
  {
    var p := "(" + inner + ")";
    DepthInBrackets(inner, |inner| + 1);
    assert Run(START, p, 0, |p|) == Step(Run(START, p, 0, |p| - 1), ')');
    forall k | 0 <= k <= |p|
      ensures Run(START, p, 0, k).depth >= 0 && (0 < k < |p| ==> Run(START, p, 0, k).depth >= 1)
    {
      if 0 < k < |p| {
        DepthInBrackets(inner, k);
      }
    }
  }

  /** The bracket opened in front of a whole text is closed right behind it, whatever comes before and after. */
  lemma BracketMatches(head: string, inner: string, tail: string)
    requires Whole(inner)
    ensures var s := head + ("(" + inner + ")" + tail);
      BracketFrom(s, |head|, |head|) == |head| + 1 + |inner|
  {
    var s, n := head + ("(" + inner + ")" + tail), |head|;
    forall k | n <= k < n + 1 + |inner|
      ensures !ClosesAt(s, n, k)
    {
      NotClosedInside(head, inner, tail, k);
    }
    ClosedBehind(head, inner, tail);
    FirstClosing(s, n, n + 1 + |inner|);
  }

  lemma FirstClosing(s: string, start: nat, end: nat)
    requires start <= end < |s| && ClosesAt(s, start, end)
    requires forall k :: start <= k < end ==> !ClosesAt(s, start, k)
    ensures BracketFrom(s, start, start) == end
  {
    BracketSkips(s, start, start, end);
  }

  lemma ClosedBehind(head: string, inner: string, tail: string)
    requires Whole(inner)
    ensures var s := head + ("(" + inner + ")" + tail);
      |head| + 1 + |inner| < |s| && ClosesAt(s, |head|, |head| + 1 + |inner|)
  {
    var t := "(" + inner + ")" + tail;
    RunAfter(head, t, 1 + |inner|);
    RunInBrackets(inner, tail, |inner|);
    assert (head + t)[|head| + 1 + |inner|] == t[1 + |inner|] == ')';
  }

  lemma NotClosedInside(head: string, inner: string, tail: string, at: nat)
    requires Whole(inner) && |head| <= at < |head| + 1 + |inner|
    ensures !ClosesAt(head + ("(" + inner + ")" + tail), |head|, at)
  {
    var t, k := "(" + inner + ")" + tail, at - |head|;
    RunAfter(head, t, k);
    if k > 0 {
      RunInBrackets(inner, tail, k - 1);
      assert (head + t)[|head| + k] == inner[k - 1];
      assert Run(START, inner, 0, k) == Step(Run(START, inner, 0, k - 1), inner[k - 1]);
    }
  }

  lemma RunAfter(a: string, b: string, k: nat)
    requires k <= |b|
    ensures Run(START, a + b, |a|, |a| + k) == Run(START, b, 0, k)
  {
    PieceInText(a, b, "");
    assert a + b + "" == a + b;
    RunPiece(START, a + b, |a|, b, k);
  }
}
