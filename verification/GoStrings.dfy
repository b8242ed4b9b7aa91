/** The parts of Go's `strings`, `unicode` and `strconv` packages that the modelled code calls. */
module GoStrings {

  datatype Option<+T> = None | Some(value: T)

  // ---- searching ----

  /** `t` occurs in `s` at index `i`. */
  predicate MatchAt(s: string, t: string, i: int) {
    0 <= i && i + |t| <= |s| && SameFrom(s, t, i, 0)
  }

  /** From its index `j` on, `t` equals the characters of `s` that face it when `t` is laid at `i`. */
  predicate SameFrom(s: string, t: string, i: nat, j: nat)
    requires i + |t| <= |s| && j <= |t|
    decreases |t| - j
  {
    j == |t| || (s[i + j] == t[j] && SameFrom(s, t, i, j + 1))
  }

  lemma SameFromChars(s: string, t: string, i: nat, j: nat)
    requires i + |t| <= |s| && j <= |t|
    ensures SameFrom(s, t, i, j) <==> forall x :: j <= x < |t| ==> s[i + x] == t[x]
    decreases |t| - j
  {
  }

  lemma MatchIsSlice(s: string, t: string, i: nat)
    requires i + |t| <= |s|
    ensures MatchAt(s, t, i) <==> s[i..i + |t|] == t
  {
    SameFromChars(s, t, i, 0);
    assert s[i..i + |t|] == t <==> forall x :: 0 <= x < |t| ==> s[i + x] == t[x];
  }

  /** `strings.HasPrefix`. */
  predicate HasPrefix(s: string, t: string) {
    MatchAt(s, t, 0)
  }

  /** `strings.HasSuffix(s, t[:k])`. */
  predicate EndsWithPrefix(s: string, t: string, k: nat)
    requires k <= |s| && k <= |t|
  {
    SameTail(s, t, k, 0)
  }

  /** From index `j` on, the first `k` characters of `t` equal the last `k` of `s`. */
  predicate SameTail(s: string, t: string, k: nat, j: nat)
    requires j <= k <= |s| && k <= |t|
    decreases k - j
  {
    j == k || (s[|s| - k + j] == t[j] && SameTail(s, t, k, j + 1))
  }

  lemma SameTailChars(s: string, t: string, k: nat, j: nat)
    requires j <= k <= |s| && k <= |t|
    ensures SameTail(s, t, k, j) <==> forall x :: j <= x < k ==> s[|s| - k + x] == t[x]
    decreases k - j
  {
  }

  lemma EndsWithPrefixIsSlice(s: string, t: string, k: nat)
    requires k <= |s| && k <= |t|
    ensures EndsWithPrefix(s, t, k) <==> s[|s| - k..] == t[..k]
  {
    SameTailChars(s, t, k, 0);
    assert s[|s| - k..] == t[..k] <==> forall x :: 0 <= x < k ==> s[|s| - k + x] == t[x];
  }

  /** `strings.Index`: the first occurrence, or -1. */
  function Index(s: string, t: string): (r: int)
    ensures -1 <= r
    ensures 0 <= r ==> r + |t| <= |s|
  {
    IndexFrom(s, t, 0)
  }

  function IndexFrom(s: string, t: string, from: nat): (r: int)
    requires from <= |s|
    ensures r == -1 || from <= r
    ensures 0 <= r ==> r + |t| <= |s|
    decreases |s| - from
  {
    if MatchAt(s, t, from) then from
    else if from == |s| then -1
    else IndexFrom(s, t, from + 1)
  }

  lemma {:induction false} IndexFromIsFirst(s: string, t: string, from: nat)
    requires from <= |s|
    ensures var r := IndexFrom(s, t, from);
      && (r >= 0 ==> MatchAt(s, t, r))
      && forall k :: from <= k && MatchAt(s, t, k) ==> 0 <= r <= k
    decreases |s| - from
  {
    if !MatchAt(s, t, from) && from < |s| {
      IndexFromIsFirst(s, t, from + 1);
    }
  }

  /** What `Index` returns is a match, and no match lies before it. */
  lemma IndexIsFirst(s: string, t: string)
    ensures Index(s, t) >= 0 ==> MatchAt(s, t, Index(s, t))
    ensures forall k :: MatchAt(s, t, k) ==> 0 <= Index(s, t) <= k
  {
    IndexFromIsFirst(s, t, 0);
  }

  /** An index that matches, with no match before it, is what `Index` returns. */
  lemma IndexIs(s: string, t: string, i: nat)
    requires MatchAt(s, t, i)
    requires forall k :: 0 <= k < i ==> !MatchAt(s, t, k)
    ensures Index(s, t) == i
  {
    IndexIsFirst(s, t);
  }

  /** `strings.Contains`. */
  predicate Contains(s: string, t: string) {
    Index(s, t) >= 0
  }

  /** `strings.LastIndex`: the last occurrence, or -1. */
  function LastIndex(s: string, t: string): (r: int)
    ensures -1 <= r
    ensures 0 <= r ==> r + |t| <= |s|
  {
    LastIndexUpTo(s, t, |s|)
  }

  function LastIndexUpTo(s: string, t: string, upTo: nat): (r: int)
    ensures -1 <= r <= upTo
    ensures 0 <= r ==> r + |t| <= |s|
  {
    if MatchAt(s, t, upTo) then upTo
    else if upTo == 0 then -1
    else LastIndexUpTo(s, t, upTo - 1)
  }

  lemma {:induction false} LastIndexUpToIsLast(s: string, t: string, upTo: nat)
    ensures var r := LastIndexUpTo(s, t, upTo);
      && (r >= 0 ==> MatchAt(s, t, r))
      && forall k :: k <= upTo && MatchAt(s, t, k) ==> k <= r
  {
    if !MatchAt(s, t, upTo) && upTo > 0 {
      LastIndexUpToIsLast(s, t, upTo - 1);
    }
  }

  /** What `LastIndex` returns is a match, and no match lies behind it. */
  lemma LastIndexIsLast(s: string, t: string)
    ensures LastIndex(s, t) >= 0 ==> MatchAt(s, t, LastIndex(s, t))
    ensures forall k :: MatchAt(s, t, k) ==> k <= LastIndex(s, t)
  {
    LastIndexUpToIsLast(s, t, |s|);
  }

  /** An occurrence inside a prefix or a suffix is an occurrence in the whole, and back. */
  lemma MatchInConcat(a: string, b: string, t: string, i: int)
    ensures i + |t| <= |a| ==> (MatchAt(a + b, t, i) <==> MatchAt(a, t, i))
    ensures i >= |a| ==> (MatchAt(a + b, t, i) <==> MatchAt(b, t, i - |a|))
  {
    if 0 <= i && i + |t| <= |a| {
      SameFromChars(a + b, t, i, 0);
      SameFromChars(a, t, i, 0);
    }
    if i >= |a| && i + |t| <= |a| + |b| {
      SameFromChars(a + b, t, i, 0);
      SameFromChars(b, t, i - |a|, 0);
    }
  }

  // ---- white space ----

  /** `unicode.IsSpace`. */
  predicate IsSpace(c: char) {
    var n := c as int;
    || 9 <= n <= 13 || n == 32 || n == 0x85 || n == 0xA0 || n == 0x1680
    || 0x2000 <= n <= 0x200A || n == 0x2028 || n == 0x2029 || n == 0x202F || n == 0x205F || n == 0x3000
  }

  predicate AllSpace(s: string) {
    forall i :: 0 <= i < |s| ==> IsSpace(s[i])
  }

  function TrimLeft(s: string): string {
    if s != "" && IsSpace(s[0]) then TrimLeft(s[1..]) else s
  }

  function TrimRight(s: string): string {
    if s != "" && IsSpace(s[|s| - 1]) then TrimRight(s[..|s| - 1]) else s
  }

  /** `strings.TrimSpace`. */
  function TrimSpace(s: string): string {
    TrimRight(TrimLeft(s))
  }

  /** Empty, or with no space at either end. */
  predicate Trimmed(s: string) {
    s == "" || (!IsSpace(s[0]) && !IsSpace(s[|s| - 1]))
  }

  lemma {:induction false} TrimLeftPadding(pad: string, s: string)
    requires AllSpace(pad) && (s == "" || !IsSpace(s[0]))
    ensures TrimLeft(pad + s) == s
  {
    if pad == "" {
      assert pad + s == s;
    } else {
      assert (pad + s)[1..] == pad[1..] + s;
      TrimLeftPadding(pad[1..], s);
    }
  }

  lemma {:induction false} TrimRightPadding(s: string, pad: string)
    requires AllSpace(pad) && (s == "" || !IsSpace(s[|s| - 1]))
    ensures TrimRight(s + pad) == s
  {
    if pad == "" {
      assert s + pad == s;
    } else {
      assert (s + pad)[..|s + pad| - 1] == s + pad[..|pad| - 1];
      TrimRightPadding(s, pad[..|pad| - 1]);
    }
  }

  /** Trimming removes exactly the padding. */
  lemma TrimPadding(left: string, s: string, right: string)
    requires AllSpace(left) && AllSpace(right) && Trimmed(s)
    ensures TrimSpace(left + s + right) == s
  {
    if s == "" {
      assert left + s + right == (left + right) + "";
      TrimLeftPadding(left + right, "");
    } else {
      assert left + s + right == left + (s + right);
      TrimLeftPadding(left, s + right);
      TrimRightPadding(s, right);
    }
  }

  lemma TrimIsTrimmed(s: string)
    requires Trimmed(s)
    ensures TrimSpace(s) == s
  {
  }

  lemma {:induction false} TrimLeftKeeps(pad: string, s: string)
    requires s != "" && Trimmed(s)
    ensures |TrimLeft(pad + s)| >= |s| && TrimLeft(pad + s)[|TrimLeft(pad + s)| - 1] == s[|s| - 1]
  {
    if pad == "" {
      assert pad + s == s;
    } else {
      assert (pad + s)[1..] == pad[1..] + s;
      TrimLeftKeeps(pad[1..], s);
    }
  }

  lemma {:induction false} TrimRightKeeps(s: string, pad: string)
    requires s != "" && Trimmed(s)
    ensures |TrimRight(s + pad)| >= |s|
  {
    if pad == "" {
      assert s + pad == s;
    } else {
      assert (s + pad)[..|s + pad| - 1] == s + pad[..|pad| - 1];
      TrimRightKeeps(s, pad[..|pad| - 1]);
    }
  }

  /** Whatever stands around text that is trimmed, trimming does not cut into it. */
  lemma TrimKeeps(pad: string, s: string)
    requires s != "" && Trimmed(s)
    ensures |TrimSpace(pad + s)| >= |s| && |TrimSpace(s + pad)| >= |s|
  {
    TrimLeftKeeps(pad, s);
    TrimRightKeeps(s, pad);
  }

  lemma TrimIsNotLonger(s: string)
    ensures |TrimSpace(s)| <= |s|
  {
    TrimLeftIsNotLonger(s);
    TrimRightIsNotLonger(TrimLeft(s));
  }

  lemma {:induction false} TrimLeftIsNotLonger(s: string)
    ensures |TrimLeft(s)| <= |s|
  {
    if s != "" {
      TrimLeftIsNotLonger(s[1..]);
    }
  }

  lemma {:induction false} TrimRightIsNotLonger(s: string)
    ensures |TrimRight(s)| <= |s|
  {
    if s != "" {
      TrimRightIsNotLonger(s[..|s| - 1]);
    }
  }

  /** Only white space is trimmed to nothing. */
  lemma BlankIsTrimmed(s: string)
    ensures TrimSpace(s) == "" <==> AllSpace(s)
  {
    BlankOnTheLeft(s);
    BlankOnTheRight(TrimLeft(s));
  }

  lemma {:induction false} BlankOnTheLeft(s: string)
    ensures TrimLeft(s) == "" <==> AllSpace(s)
    ensures TrimLeft(s) != "" ==> !IsSpace(TrimLeft(s)[0])
  {
    if s != "" && IsSpace(s[0]) {
      BlankOnTheLeft(s[1..]);
      assert AllSpace(s) <==> AllSpace(s[1..]);
    }
  }

  lemma {:induction false} BlankOnTheRight(s: string)
    ensures s != "" && !IsSpace(s[0]) ==> TrimRight(s) != ""
    ensures s == "" ==> TrimRight(s) == ""
  {
    if s != "" {
      BlankOnTheRight(s[..|s| - 1]);
    }
  }

  // ---- letter case ----

  /** The upper case of characters that are not ASCII, which may be any character. */
  type Casing = char -> char

  /** `unicode.ToUpper`. */
  function UpperChar(cs: Casing, c: char): char {
    if 'a' <= c <= 'z' then ((c as int) - 32) as char
    else if c as int < 0x80 then c
    else cs(c)
  }

  /** `strings.ToUpper`, character by character. */
  function Upper(cs: Casing, s: string): (r: string)
    ensures |r| == |s|
  {
    seq(|s|, i requires 0 <= i < |s| => UpperChar(cs, s[i]))
  }

  lemma UpperConcat(cs: Casing, a: string, b: string)
    ensures Upper(cs, a + b) == Upper(cs, a) + Upper(cs, b)
  {
  }

  /** ASCII text without small letters. */
  predicate IsUpper(s: string) {
    forall i :: 0 <= i < |s| ==> s[i] as int < 0x80 && !('a' <= s[i] <= 'z')
  }

  lemma UpperAlready(cs: Casing, s: string)
    requires IsUpper(s)
    ensures Upper(cs, s) == s
  {
  }

  // ---- doubling a character ----

  /** `strings.ReplaceAll(v, c, cc)`. */
  function DoubleAll(v: string, c: char): string {
    if v == "" then ""
    else (if v[0] == c then [c, c] else [v[0]]) + DoubleAll(v[1..], c)
  }

  lemma {:induction false} DoubleConcat(a: string, b: string, q: char)
    ensures DoubleAll(a + b, q) == DoubleAll(a, q) + DoubleAll(b, q)
  {
    if a == "" {
      assert a + b == b;
    } else {
      assert (a + b)[1..] == a[1..] + b;
      DoubleConcat(a[1..], b, q);
    }
  }

  lemma {:induction false} DoubleNothing(v: string, c: char)
    requires forall i :: 0 <= i < |v| ==> v[i] != c
    ensures DoubleAll(v, c) == v
  {
    if v != "" {
      DoubleNothing(v[1..], c);
    }
  }

  // ---- decimal printing ----

  function Digit(d: nat): char
    requires d < 10
  {
    (('0' as int) + d) as char
  }

  predicate IsDigit(c: char) {
    '0' <= c <= '9'
  }

  function Digits(n: nat): string {
    if n < 10 then [Digit(n)] else Digits(n / 10) + [Digit(n % 10)]
  }

  /** `strconv.Itoa`. */
  function Itoa(n: int): string {
    if n < 0 then "-" + Digits(-n) else Digits(n)
  }

  lemma {:induction false} DigitsAreDigits(n: nat)
    ensures Digits(n) != "" && forall i :: 0 <= i < |Digits(n)| ==> IsDigit(Digits(n)[i])
  {
    if n >= 10 {
      DigitsAreDigits(n / 10);
    }
  }

  lemma {:induction false} DigitsInjective(m: nat, n: nat)
    requires Digits(m) == Digits(n)
    ensures m == n
  {
    var a, b := Digits(m), Digits(n);
    DigitsAreDigits(m / 10);
    DigitsAreDigits(n / 10);
    if m >= 10 && n >= 10 {
      assert a[..|a| - 1] == Digits(m / 10) && b[..|b| - 1] == Digits(n / 10);
      DigitsInjective(m / 10, n / 10);
      assert a[|a| - 1] == Digit(m % 10) && b[|b| - 1] == Digit(n % 10);
    } else {
      assert |a| == 1 ==> a[0] == Digit(m) && b[0] == Digit(n);
    }
  }

  lemma ItoaInjective(m: int, n: int)
    requires Itoa(m) == Itoa(n)
    ensures m == n
  {
    DigitsAreDigits(if m < 0 then -m else m);
    DigitsAreDigits(if n < 0 then -n else n);
    assert m < 0 ==> Itoa(m)[0] == '-' && Itoa(m)[1..] == Digits(-m);
    assert n < 0 ==> Itoa(n)[0] == '-' && Itoa(n)[1..] == Digits(-n);
    if m < 0 && n < 0 {
      DigitsInjective(-m, -n);
    } else if m >= 0 && n >= 0 {
      DigitsInjective(m, n);
    }
  }
}
