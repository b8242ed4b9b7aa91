/** Indices into text as Go counts them: in bytes of its UTF-8 encoding. */
module ByteOffsets {
  import opened GoStrings
  import opened Sequences

  function Width(c: char): (w: nat)
    ensures 1 <= w <= 4
  {
    var n := c as int;
    if n < 0x80 then 1 else if n < 0x800 then 2 else if n < 0x1_0000 then 3 else 4
  }

  function Bytes(s: string): nat {
    if s == "" then 0 else Bytes(s[..|s| - 1]) + Width(s[|s| - 1])
  }

  /** How many characters the first `b` bytes are, if they are whole characters of the text. */
  function Position(s: string, b: nat): (r: Option<nat>)
    ensures r.Some? ==> r.value <= |s| && Bytes(s[..r.value]) == b
  {
    PositionUpTo(s, b, |s|)
  }

  function PositionUpTo(s: string, b: nat, n: nat): (r: Option<nat>)
    requires n <= |s|
    ensures r.Some? ==> r.value <= n && Bytes(s[..r.value]) == b
  {
    if Bytes(s[..n]) == b then Some(n) else if n == 0 then None else PositionUpTo(s, b, n - 1)
  }

  lemma {:induction false} BytesConcat(a: string, b: string)
    ensures Bytes(a + b) == Bytes(a) + Bytes(b)
  {
    if b == "" {
      assert a + b == a;
    } else {
      assert (a + b)[..|a + b| - 1] == a + b[..|b| - 1];
      BytesConcat(a, b[..|b| - 1]);
    }
  }

  lemma {:induction false} BytesGrow(s: string, i: nat, j: nat)
    requires i < j <= |s|
    ensures Bytes(s[..i]) < Bytes(s[..j])
  {
    assert s[..j][..j - 1] == s[..j - 1];
    if i < j - 1 {
      BytesGrow(s, i, j - 1);
    }
  }

  /** Positions are ordered as their offsets are. */
  lemma SameOrder(s: string, i: nat, j: nat)
    requires i <= |s| && j <= |s|
    ensures i < j <==> Bytes(s[..i]) < Bytes(s[..j])
    ensures i == j <==> Bytes(s[..i]) == Bytes(s[..j])
  {
    if i < j {
      BytesGrow(s, i, j);
    } else if j < i {
      BytesGrow(s, j, i);
    }
  }

  /** The offset of a position leads back to it. */
  lemma PositionIs(s: string, i: nat)
    requires i <= |s|
    ensures Position(s, Bytes(s[..i])) == Some(i)
  {
    PositionIsUpTo(s, i, |s|);
  }

  lemma {:induction false} PositionIsUpTo(s: string, i: nat, n: nat)
    requires i <= n <= |s|
    ensures PositionUpTo(s, Bytes(s[..i]), n) == Some(i)
  {
    SameOrder(s, i, n);
    if i < n {
      PositionIsUpTo(s, i, n - 1);
    }
  }

  predicate IsAscii(s: string) {
    forall i :: 0 <= i < |s| ==> s[i] as int < 0x80
  }

  lemma {:induction false} AsciiBytes(s: string)
    requires IsAscii(s)
    ensures Bytes(s) == |s|
  {
    if s != "" {
      AsciiBytes(s[..|s| - 1]);
    }
  }

  // ---- text cut at an offset ----

  /** The text up to an offset, trimmed, if the offset is between characters of the text. */
  function Head(s: string, b: nat): Option<string> {
    match Position(s, b)
    case Some(p) => Some(TrimSpace(s[..p]))
    case None => None
  }

  /** The text from an offset on. */
  function Tail(s: string, b: nat): Option<string> {
    match Position(s, b)
    case Some(p) => Some(TrimSpace(s[p..]))
    case None => None
  }

  /** The text in front of and behind a number of bytes that start at an offset, if they are whole characters. */
  function CutOut(s: string, offset: nat, length: nat): Option<(string, string)> {
    Both(Head(s, offset), Tail(s, offset + length))
  }

  function Both(front: Option<string>, back: Option<string>): Option<(string, string)> {
    match (front, back)
    case (Some(a), Some(b)) => Some((a, b))
    case _ => None
  }

  lemma HeadAt(s: string, p: nat)
    requires p <= |s|
    ensures Head(s, Bytes(s[..p])) == Some(TrimSpace(s[..p])) && Tail(s, Bytes(s[..p])) == Some(TrimSpace(s[p..]))
  {
    PositionIs(s, p);
  }

  /** Text cut between two parts, of which the one that is kept is trimmed. */
  lemma HeadBetween(s: string, a: string, t: string, b: nat)
    requires s == a + t && Trimmed(a) && b == Bytes(a)
    ensures Head(s, b) == Some(a)
  {
    assert s[..|a|] == a;
    HeadAt(s, |a|);
    TrimIsTrimmed(a);
  }

  lemma TailBetween(s: string, a: string, t: string, b: nat)
    requires s == a + t && Trimmed(t) && b == Bytes(a)
    ensures Tail(s, b) == Some(t)
  {
    assert s[..|a|] == a && s[|a|..] == t;
    HeadAt(s, |a|);
    TrimIsTrimmed(t);
  }

  lemma HeadIsThere(s: string, b: nat) returns (p: nat)
    requires Head(s, b).Some? || Tail(s, b).Some?
    ensures p <= |s| && Bytes(s[..p]) == b
    ensures Head(s, b) == Some(TrimSpace(s[..p])) && Tail(s, b) == Some(TrimSpace(s[p..]))
  {
    p := Position(s, b).value;
  }

  /** The offsets on either side of a blank. */
  lemma AroundBlank(a: string, t: string)
    ensures var s := a + (" " + t);
      && s[..|a|] == a && s[..|a| + 1] == a + " " && s[|a|..] == " " + t && s[|a| + 1..] == t
      && Bytes(s[..|a|]) == Bytes(a) && Bytes(s[..|a| + 1]) == Bytes(a) + 1
  {
    var s := a + (" " + t);
    assert s[..|a|] == a && s[..|a| + 1] == a + " ";
    BytesConcat(a, " ");
    AsciiBytes(" ");
  }

  lemma TrimsBlank(a: string)
    requires Trimmed(a)
    ensures TrimSpace(a) == a && TrimSpace(a + " ") == a && TrimSpace(" " + a) == a
  {
    TrimIsTrimmed(a);
    assert "" + a + " " == a + " " && " " + a + "" == " " + a;
    TrimPadding("", a, " ");
    TrimPadding(" ", a, "");
  }

  /** Cutting in front of a word gives what stands before it exactly if the cut is on either side of the blank. */
  lemma HeadExactlyWhen(a: string, x: char, w: string, b: nat)
    requires a != "" && Trimmed(a) && !IsSpace(x)
    ensures Head(a + (" " + ([x] + w)), b) == Some(a) <==> b == Bytes(a) || b == Bytes(a) + 1
  {
    var s := a + (" " + ([x] + w));
    RightHead(a, [x] + w);
    if Head(s, b).Some? {
      var p := HeadIsThere(s, b);
      if p != |a| && p != |a| + 1 {
        WrongHead(a, x, w, p);
      }
    }
  }

  lemma RightHead(a: string, t: string)
    requires Trimmed(a)
    ensures var s, n := a + (" " + t), Bytes(a);
      && Head(s, n) == Some(a) && Head(s, n + 1) == Some(a)
      && Bytes(s[..|a|]) == n && Bytes(s[..|a| + 1]) == n + 1
  {
    var s := a + (" " + t);
    AroundBlank(a, t);
    HeadAt(s, |a|);
    HeadAt(s, |a| + 1);
    TrimsBlank(a);
  }

  lemma WrongHead(a: string, x: char, w: string, p: nat)
    requires a != "" && Trimmed(a) && !IsSpace(x) && p <= |a| + 2 + |w| && p != |a| && p != |a| + 1
    ensures TrimSpace((a + (" " + ([x] + w)))[..p]) != a
  {
    var s, n := a + (" " + ([x] + w)), |a|;
    if p < n {
      TrimIsNotLonger(s[..p]);
    } else {
      assert s[..p] == (a + [' ', x]) + w[..p - n - 2];
      TrimKeeps(w[..p - n - 2], a + [' ', x]);
    }
  }

  /** Cutting behind a word gives what follows it exactly if the cut is on either side of the blank. */
  lemma TailExactlyWhen(w: string, x: char, d: string, b: nat)
    requires d != "" && Trimmed(d) && !IsSpace(x)
    ensures Tail((w + [x]) + (" " + d), b) == Some(d) <==> b == Bytes(w + [x]) || b == Bytes(w + [x]) + 1
  {
    var s, n := (w + [x]) + (" " + d), |w| + 1;
    RightTail(w + [x], d);
    if Tail(s, b).Some? {
      var p := HeadIsThere(s, b);
      if p != n && p != n + 1 {
        WrongTail(w, x, d, p);
      }
    }
  }

  lemma RightTail(a: string, d: string)
    requires Trimmed(d)
    ensures var s, n := a + (" " + d), Bytes(a);
      && Tail(s, n) == Some(d) && Tail(s, n + 1) == Some(d)
      && Bytes(s[..|a|]) == n && Bytes(s[..|a| + 1]) == n + 1
  {
    var s := a + (" " + d);
    AroundBlank(a, d);
    HeadAt(s, |a|);
    HeadAt(s, |a| + 1);
    TrimsBlank(d);
  }

  lemma WrongTail(w: string, x: char, d: string, p: nat)
    requires d != "" && Trimmed(d) && !IsSpace(x) && p <= |w| + 2 + |d| && p != |w| + 1 && p != |w| + 2
    ensures TrimSpace(((w + [x]) + (" " + d))[p..]) != d
  {
    var s := (w + [x]) + (" " + d);
    if p <= |w| {
      assert s[p..] == w[p..] + ([x] + (" " + d));
      TrimKeeps(w[p..], [x] + (" " + d));
    } else {
      assert s[p..] == d[p - |w| - 2..];
      TrimIsNotLonger(s[p..]);
    }
  }

  // ---- a word cut out, with a shift ----

  /** A word of ASCII characters between blanks. */
  predicate IsWordBetween(k: string) {
    && |k| > 2 && IsAscii(k) && k[0] == ' ' == k[|k| - 1]
    && forall i :: 1 <= i < |k| - 1 ==> !IsSpace(k[i])
  }

  /**
   Cutting a word out between two texts yields these, or one letter of the word stays with either of them, or the text
   behind is another.
   */
  ghost predicate WordCut(a: string, k: string, d: string, shift: int, cut: Option<(string, string)>)
    requires |k| > 2
  {
    if shift == 0 then cut == Some((a, d))
    else if shift == 1 then cut == Some((a + k[..2], d))
    else if shift == -1 then cut == Some((a, k[|k| - 2..] + d))
    else cut.None? || cut.value.1 != d
  }

  lemma WordCutOut(s: string, a: string, k: string, d: string, b: nat)
    requires s == a + (k + d) && IsWordBetween(k) && a != "" && Trimmed(a) && d != "" && Trimmed(d)
    ensures WordCut(a, k, d, b - Bytes(a) - 1, CutOut(s, b, |k| - 2))
  {
    HeadOfCut(s, a, k, d, b);
    TailOfCut(s, a, k, d, b + (|k| - 2));
    BothCuts(a, k, d, b - Bytes(a) - 1, Head(s, b), Tail(s, b + (|k| - 2)));
  }

  ghost predicate HeadShifted(a: string, k: string, shift: int, head: Option<string>)
    requires |k| > 2
  {
    (head == Some(a) <==> shift == 0 || shift == -1) && (shift == 1 ==> head == Some(a + k[..2]))
  }

  ghost predicate TailShifted(k: string, d: string, shift: int, tail: Option<string>)
    requires |k| > 2
  {
    (tail == Some(d) <==> shift == 0 || shift == 1) && (shift == -1 ==> tail == Some(k[|k| - 2..] + d))
  }

  lemma HeadOfCut(s: string, a: string, k: string, d: string, b: nat)
    requires s == a + (k + d) && IsWordBetween(k) && a != "" && Trimmed(a)
    ensures HeadShifted(a, k, b - Bytes(a) - 1, Head(s, b))
  {
    FrontCut(a, k, d, b);
    if b == Bytes(a) + 2 {
      LetterInFront(a, k, d, b);
    }
  }

  lemma TailOfCut(s: string, a: string, k: string, d: string, b: nat)
    requires s == a + (k + d) && IsWordBetween(k) && d != "" && Trimmed(d)
    ensures TailShifted(k, d, b - Bytes(a) - |k| + 1, Tail(s, b))
  {
    BackCut(a, k, d, b);
    if b == Bytes(a) + |k| - 2 {
      LetterBehind(a, k, d, b);
    }
  }

  lemma BothCuts(a: string, k: string, d: string, shift: int, head: Option<string>, tail: Option<string>)
    requires |k| > 2 && HeadShifted(a, k, shift, head) && TailShifted(k, d, shift, tail)
    ensures WordCut(a, k, d, shift, Both(head, tail))
  {
  }

  lemma FrontCut(a: string, k: string, d: string, b: nat)
    requires IsWordBetween(k) && a != "" && Trimmed(a)
    ensures Head(a + (k + d), b) == Some(a) <==> b == Bytes(a) || b == Bytes(a) + 1
  {
    assert k + d == " " + ([k[1]] + (k[2..] + d));
    HeadExactlyWhen(a, k[1], k[2..] + d, b);
  }

  lemma BackCut(a: string, k: string, d: string, b: nat)
    requires IsWordBetween(k) && d != "" && Trimmed(d)
    ensures Tail(a + (k + d), b) == Some(d) <==> b == Bytes(a) + |k| - 1 || b == Bytes(a) + |k|
  {
    var n := |k|;
    WordParts(a, k, d);
    TailExactlyWhen(a + k[..n - 2], k[n - 2], d, b);
  }

  lemma WordParts(a: string, k: string, d: string)
    requires IsWordBetween(k)
    ensures var n, w := |k|, a + k[..|k| - 2];
      && a + (k + d) == (w + [k[n - 2]]) + (" " + d)
      && Bytes(w + [k[n - 2]]) == Bytes(a) + n - 1
  {
    var n := |k|;
    assert (a + k[..n - 2]) + [k[n - 2]] == a + k[..n - 1];
    assert k + d == k[..n - 1] + (" " + d);
    BytesConcat(a, k[..n - 1]);
    AsciiBytes(k[..n - 1]);
  }

  lemma LetterInFront(a: string, k: string, d: string, b: nat)
    requires IsWordBetween(k) && a != "" && Trimmed(a) && b == Bytes(a) + 2
    ensures Head(a + (k + d), b) == Some(a + k[..2])
  {
    LetterSplit(a, k, d, 2);
    StaysTrimmed(a, k[..2]);
    HeadBetween(a + (k + d), a + k[..2], k[2..] + d, b);
  }

  lemma LetterBehind(a: string, k: string, d: string, b: nat)
    requires IsWordBetween(k) && d != "" && Trimmed(d) && b == Bytes(a) + |k| - 2
    ensures Tail(a + (k + d), b) == Some(k[|k| - 2..] + d)
  {
    var n := |k| - 2;
    LetterSplit(a, k, d, n);
    StaysTrimmed(k[n..], d);
    TailBetween(a + (k + d), a + k[..n], k[n..] + d, b);
  }

  lemma LetterSplit(a: string, k: string, d: string, n: nat)
    requires IsAscii(k) && n <= |k|
    ensures a + (k + d) == (a + k[..n]) + (k[n..] + d)
    ensures Bytes(a + k[..n]) == Bytes(a) + n
  {
    Assoc(k[..n], k[n..], d);
    assert k[..n] + k[n..] == k;
    Assoc(a, k[..n], k[n..] + d);
    BytesConcat(a, k[..n]);
    AsciiBytes(k[..n]);
  }

  lemma StaysTrimmed(a: string, d: string)
    requires a != "" && !IsSpace(a[0]) && d != "" && !IsSpace(d[|d| - 1])
    ensures Trimmed(a + d)
  {
  }
}
