/** Canonical decimals: the normal form in which numeric column values are compared (internal/engine/compare.go). */
module Decimal {
  import opened GoStrings

  // ---- the program ----

  predicate AllDigits(s: string) {
    forall i :: 0 <= i < |s| ==> IsDigit(s[i])
  }

  predicate Negative(s: string) {
    s != "" && s[0] == '-'
  }

  /** The text behind an optional sign. */
  function Body(s: string): string {
    if s != "" && (s[0] == '-' || s[0] == '+') then s[1..] else s
  }

  /** The index of the first point, or the length. */
  function Point(s: string): (r: nat)
    ensures r <= |s|
  {
    if s == "" || s[0] == '.' then 0 else 1 + Point(s[1..])
  }

  function IntPart(s: string): string {
    Body(s)[..Point(Body(s))]
  }

  function FracPart(s: string): string {
    var b := Body(s);
    if Point(b) < |b| then b[Point(b) + 1..] else ""
  }

  /** What the pattern `^[+-]?(\d+(\.\d*)?|\.\d+)$` accepts. */
  predicate IsNumeric(s: string) {
    AllDigits(IntPart(s)) && AllDigits(FracPart(s)) && (IntPart(s) != "" || FracPart(s) != "")
  }

  /** `strings.TrimLeft(s, "0")`. */
  function TrimLeftZeros(s: string): string {
    if s != "" && s[0] == '0' then TrimLeftZeros(s[1..]) else s
  }

  /** `strings.TrimRight(s, "0")`. */
  function TrimRightZeros(s: string): string {
    if s != "" && s[|s| - 1] == '0' then TrimRightZeros(s[..|s| - 1]) else s
  }

  /** The printed magnitude of a number given by its digits. */
  function Magnitude(ip: string, fp: string): string {
    (if ip == "" then "0" else ip) + (if fp != "" then "." + fp else "")
  }

  function CanonicalDecimal(s: string): Option<string> {
    if !IsNumeric(s) then None
    else
      var out := Magnitude(TrimLeftZeros(IntPart(s)), TrimRightZeros(FracPart(s)));
      if out == "0" then Some("0")
      else Some((if Negative(s) then "-" else "") + out)
  }

  // ---- the number a text denotes ----

  function DigitVal(c: char): (d: nat)
    requires IsDigit(c)
    ensures d < 10
  {
    c as int - '0' as int
  }

  function IntVal(s: string): nat
    requires AllDigits(s)
  {
    if s == "" then 0 else 10 * IntVal(s[..|s| - 1]) + DigitVal(s[|s| - 1])
  }

  function FracVal(s: string): (v: real)
    requires AllDigits(s)
    ensures 0.0 <= v < 1.0
  {
    if s == "" then 0.0 else (DigitVal(s[0]) as real + FracVal(s[1..])) / 10.0
  }

  function Abs(s: string): real
    requires IsNumeric(s)
  {
    IntVal(IntPart(s)) as real + FracVal(FracPart(s))
  }

  function Value(s: string): real
    requires IsNumeric(s)
  {
    if Negative(s) then -Abs(s) else Abs(s)
  }

  // ---- zeros at the ends do not count ----

  lemma {:induction false} LeadingZeros(s: string)
    requires AllDigits(s)
    ensures var t := TrimLeftZeros(s);
      AllDigits(t) && IntVal(t) == IntVal(s) && (t != "" ==> t[0] != '0')
  {
    if s != "" && s[0] == '0' {
      LeadingZeros(s[1..]);
      ZeroInFront(s);
    }
  }

  lemma {:induction false} ZeroInFront(s: string)
    requires AllDigits(s) && s != "" && s[0] == '0'
    ensures IntVal(s) == IntVal(s[1..])
  {
    if |s| > 1 {
      ZeroInFront(s[..|s| - 1]);
      assert s[1..][..|s| - 2] == s[..|s| - 1][1..];
    }
  }

  lemma {:induction false} TrailingZeros(s: string)
    requires AllDigits(s)
    ensures var t := TrimRightZeros(s);
      AllDigits(t) && FracVal(t) == FracVal(s) && (t != "" ==> t[|t| - 1] != '0')
  {
    if s != "" && s[|s| - 1] == '0' {
      TrailingZeros(s[..|s| - 1]);
      ZeroAtEnd(s);
    }
  }

  lemma {:induction false} ZeroAtEnd(s: string)
    requires AllDigits(s) && s != "" && s[|s| - 1] == '0'
    ensures FracVal(s) == FracVal(s[..|s| - 1])
  {
    if |s| > 1 {
      ZeroAtEnd(s[1..]);
      assert s[..|s| - 1][1..] == s[1..][..|s| - 2];
    }
  }

  // ---- without such zeros the digits are determined by the number ----

  lemma {:induction false} IntDigitsUnique(a: string, b: string)
    requires AllDigits(a) && (a != "" ==> a[0] != '0')
    requires AllDigits(b) && (b != "" ==> b[0] != '0')
    requires IntVal(a) == IntVal(b)
    ensures a == b
    decreases |a|
  {
    if a == "" || b == "" {
      IntPositive(if a == "" then b else a);
    } else {
      var m, n := |a| - 1, |b| - 1;
      IntDigitsUnique(a[..m], b[..n]);
      assert a == a[..m] + [a[m]] && b == b[..n] + [b[n]];
    }
  }

  lemma {:induction false} IntPositive(a: string)
    requires AllDigits(a) && (a != "" ==> a[0] != '0')
    ensures IntVal(a) == 0 <==> a == ""
  {
    if |a| > 1 {
      IntPositive(a[..|a| - 1]);
    }
  }

  lemma {:induction false} FracDigitsUnique(a: string, b: string)
    requires AllDigits(a) && (a != "" ==> a[|a| - 1] != '0')
    requires AllDigits(b) && (b != "" ==> b[|b| - 1] != '0')
    requires FracVal(a) == FracVal(b)
    ensures a == b
    decreases |a|
  {
    if a == "" || b == "" {
      FracPositive(if a == "" then b else a);
    } else {
      assert DigitVal(a[0]) as real + FracVal(a[1..]) == DigitVal(b[0]) as real + FracVal(b[1..]);
      SameWhole(DigitVal(a[0]), FracVal(a[1..]), DigitVal(b[0]), FracVal(b[1..]));
      FracDigitsUnique(a[1..], b[1..]);
      assert a == [a[0]] + a[1..] && b == [b[0]] + b[1..];
    }
  }

  lemma {:induction false} FracPositive(a: string)
    requires AllDigits(a) && (a != "" ==> a[|a| - 1] != '0')
    ensures FracVal(a) == 0.0 <==> a == ""
  {
    if |a| > 1 {
      FracPositive(a[1..]);
    }
  }

  /** A number splits into whole and fraction in one way. */
  lemma SameWhole(m: int, f: real, n: int, g: real)
    requires 0.0 <= f < 1.0 && 0.0 <= g < 1.0 && m as real + f == n as real + g
    ensures m == n && f == g
  {
    assert -1.0 < (m - n) as real < 1.0;
  }

  // ---- the parts of a printed number ----

  lemma {:induction false} PointBehindDigits(ip: string, rest: string)
    requires AllDigits(ip) && (rest == "" || rest[0] == '.')
    ensures Point(ip + rest) == |ip|
  {
    if ip == "" {
      assert ip + rest == rest;
    } else {
      assert (ip + rest)[1..] == ip[1..] + rest;
      PointBehindDigits(ip[1..], rest);
    }
  }

  lemma PrintedBody(neg: bool, whole: string, rest: string)
    requires AllDigits(whole) && whole != "" && (rest == "" || rest[0] == '.')
    ensures var s := (if neg then "-" else "") + (whole + rest);
      Negative(s) == neg && Body(s) == whole + rest && IntPart(s) == whole
      && FracPart(s) == (if rest == "" then "" else rest[1..])
  {
    SignedBody(neg, whole + rest);
    PointBehindDigits(whole, rest);
    assert (whole + rest)[..|whole|] == whole;
    assert rest != "" ==> (whole + rest)[|whole| + 1..] == rest[1..];
  }

  lemma SignedBody(neg: bool, body: string)
    requires body != "" && body[0] != '-' && body[0] != '+'
    ensures var s := (if neg then "-" else "") + body; Negative(s) == neg && Body(s) == body
  {
    assert ("-" + body)[1..] == body;
    assert "" + body == body;
  }

  /** The digits that decide, without leading and trailing zeros, and the sign, which zero does not have. */
  datatype Normal = Normal(neg: bool, ip: string, fp: string)

  predicate WellNormal(n: Normal) {
    && AllDigits(n.ip) && AllDigits(n.fp)
    && (n.ip != "" ==> n.ip[0] != '0') && (n.fp != "" ==> n.fp[|n.fp| - 1] != '0')
    && (n.neg ==> n.ip != "" || n.fp != "")
  }

  function NormalOf(s: string): Normal {
    var ip, fp := TrimLeftZeros(IntPart(s)), TrimRightZeros(FracPart(s));
    Normal(Negative(s) && (ip != "" || fp != ""), ip, fp)
  }

  function NormalValue(n: Normal): real
    requires WellNormal(n)
  {
    var v := IntVal(n.ip) as real + FracVal(n.fp);
    if n.neg then -v else v
  }

  function Print(n: Normal): string {
    (if n.neg then "-" else "") + Magnitude(n.ip, n.fp)
  }

  lemma NormalFacts(s: string)
    requires IsNumeric(s)
    ensures WellNormal(NormalOf(s)) && NormalValue(NormalOf(s)) == Value(s)
  {
    LeadingZeros(IntPart(s));
    TrailingZeros(FracPart(s));
  }

  lemma PrintedNormal(n: Normal)
    requires WellNormal(n)
    ensures IsNumeric(Print(n)) && NormalOf(Print(n)) == n
  {
    var whole := if n.ip == "" then "0" else n.ip;
    var rest := if n.fp != "" then "." + n.fp else "";
    PrintedBody(n.neg, whole, rest);
    assert n.fp != "" ==> rest[1..] == n.fp;
    TrimmedAlready(n);
  }

  lemma TrimmedAlready(n: Normal)
    requires WellNormal(n)
    ensures TrimLeftZeros(n.ip) == n.ip && TrimRightZeros(n.fp) == n.fp && TrimLeftZeros("0") == ""
  {
    assert "0"[1..] == "";
  }

  lemma CanonicalIsPrinted(s: string)
    requires IsNumeric(s)
    ensures CanonicalDecimal(s) == Some(Print(NormalOf(s)))
  {
    var n := NormalOf(s);
    NormalFacts(s);
    ZeroIsZero(n.ip, n.fp);
    assert "" + Magnitude(n.ip, n.fp) == Magnitude(n.ip, n.fp);
  }

  /** Only zero prints as "0". */
  lemma ZeroIsZero(ip: string, fp: string)
    requires ip != "" ==> ip[0] != '0'
    ensures Magnitude(ip, fp) == "0" <==> ip == "" && fp == ""
  {
    var out := Magnitude(ip, fp);
    assert fp != "" ==> |out| >= 3;
    assert ip != "" ==> out[0] == ip[0];
  }

  /** The normal form is determined by the number. */
  lemma NormalIsUnique(m: Normal, n: Normal)
    requires WellNormal(m) && WellNormal(n) && NormalValue(m) == NormalValue(n)
    ensures m == n
  {
    NormalSign(m);
    NormalSign(n);
    SameWhole(IntVal(m.ip), FracVal(m.fp), IntVal(n.ip), FracVal(n.fp));
    IntDigitsUnique(m.ip, n.ip);
    FracDigitsUnique(m.fp, n.fp);
  }

  lemma NormalSign(n: Normal)
    requires WellNormal(n)
    ensures n.neg <==> NormalValue(n) < 0.0
  {
    IntPositive(n.ip);
    FracPositive(n.fp);
  }

  // ---- the main results ----

  /** The output is a number and denotes the same one. */
  lemma ValuePreserved(s: string)
    requires IsNumeric(s)
    ensures var c := CanonicalDecimal(s); c.Some? && IsNumeric(c.value) && Value(c.value) == Value(s)
  {
    var n := NormalOf(s);
    CanonicalIsPrinted(s);
    NormalFacts(s);
    PrintedNormal(n);
    NormalFacts(Print(n));
  }

  /** Canonical texts are their own canonical form. */
  lemma Idempotent(s: string)
    requires IsNumeric(s)
    ensures CanonicalDecimal(CanonicalDecimal(s).value) == CanonicalDecimal(s)
  {
    CanonicalIsPrinted(s);
    NormalFacts(s);
    PrintedNormal(NormalOf(s));
    CanonicalIsPrinted(Print(NormalOf(s)));
  }

  /** Two accepted texts have one canonical form exactly when they denote one number. */
  lemma CanonicalDecides(a: string, b: string)
    requires IsNumeric(a) && IsNumeric(b)
    ensures CanonicalDecimal(a) == CanonicalDecimal(b) <==> Value(a) == Value(b)
  {
    CanonicalIsPrinted(a);
    CanonicalIsPrinted(b);
    ValuePreserved(a);
    ValuePreserved(b);
    if Value(a) == Value(b) {
      NormalFacts(a);
      NormalFacts(b);
      NormalIsUnique(NormalOf(a), NormalOf(b));
    }
  }

  // ---- which texts are accepted, and what they denote ----

  /** The text is a sign, if any, digits, and a point with more digits, if any; there is a digit somewhere. */
  predicate Spells(s: string, sign: string, ip: string, point: bool, fp: string) {
    && (sign == "" || sign == "+" || sign == "-")
    && s == sign + (ip + if point then "." + fp else "")
    && AllDigits(ip) && AllDigits(fp) && (point || fp == "") && (ip != "" || fp != "")
  }

  lemma SpelledParts(s: string, sign: string, ip: string, point: bool, fp: string)
    requires Spells(s, sign, ip, point, fp)
    ensures IsNumeric(s) && IntPart(s) == ip && FracPart(s) == fp && (Negative(s) <==> sign == "-")
  {
    var rest := if point then "." + fp else "";
    SpelledBody(s, sign, ip + rest);
    PointBehindDigits(ip, rest);
    SpelledSlices(ip, rest);
  }

  lemma SpelledBody(s: string, sign: string, body: string)
    requires (sign == "" || sign == "+" || sign == "-") && s == sign + body
    requires body != "" && body[0] != '-' && body[0] != '+'
    ensures Body(s) == body && (Negative(s) <==> sign == "-")
  {
    if sign != "" {
      assert s[0] == sign[0] && s[1..] == body;
    }
  }

  lemma SpelledSlices(ip: string, rest: string)
    ensures var body := ip + rest;
      body[..|ip|] == ip && (rest != "" ==> body[|ip| + 1..] == rest[1..])
  {
  }

  lemma PartsSpell(s: string)
    requires IsNumeric(s)
    ensures var b := Body(s);
      Spells(s, s[..|s| - |b|], IntPart(s), Point(b) < |b|, FracPart(s))
  {
    SignAndBody(s);
    AroundPoint(Body(s));
    MadeOf(s, s[..|s| - |Body(s)|], Body(s), IntPart(s), Point(Body(s)) < |Body(s)|, FracPart(s));
  }

  lemma MadeOf(s: string, sign: string, b: string, ip: string, point: bool, fp: string)
    requires s == sign + b && b == ip + (if point then "." + fp else "") && (point || fp == "")
    requires (sign == "" || sign == "+" || sign == "-") && AllDigits(ip) && AllDigits(fp) && (ip != "" || fp != "")
    ensures Spells(s, sign, ip, point, fp)
  {
  }

  lemma SignAndBody(s: string)
    ensures var b := Body(s);
      var sign := s[..|s| - |b|];
      s == sign + b && (sign == "" || sign == "+" || sign == "-")
  {
    if s != "" && (s[0] == '-' || s[0] == '+') {
      assert s[..1] == [s[0]];
    } else {
      assert s[..0] == "";
    }
  }

  lemma AroundPoint(b: string)
    ensures var p := Point(b); b == b[..p] + if p < |b| then "." + b[p + 1..] else ""
  {
    PointOrEnd(b);
    SplitAt(b, Point(b));
  }

  lemma SplitAt(b: string, p: nat)
    requires p <= |b| && (p < |b| ==> b[p] == '.')
    ensures b == b[..p] + if p < |b| then "." + b[p + 1..] else ""
  {
  }

  /** The number that such a text spells. */
  function Spelled(sign: string, ip: string, fp: string): real
    requires AllDigits(ip) && AllDigits(fp)
  {
    if sign == "-" then -(IntVal(ip) as real + FracVal(fp)) else IntVal(ip) as real + FracVal(fp)
  }

  lemma SpelledValue(s: string, sign: string, ip: string, point: bool, fp: string)
    requires Spells(s, sign, ip, point, fp)
    ensures IsNumeric(s) && Value(s) == Spelled(sign, ip, fp)
  {
    SpelledParts(s, sign, ip, point, fp);
  }

  /** Exactly these texts are accepted, such as `.5`, `5.` and `+5`, and each denotes the number it spells. */
  lemma AcceptsExactly(s: string)
    ensures IsNumeric(s) <==> exists sign, ip, point, fp :: Spells(s, sign, ip, point, fp)
    ensures forall sign, ip, point, fp :: Spells(s, sign, ip, point, fp) ==>
      IsNumeric(s) && Value(s) == Spelled(sign, ip, fp)
  {
    if IsNumeric(s) {
      PartsSpell(s);
    }
    forall sign, ip, point, fp | Spells(s, sign, ip, point, fp)
      ensures IsNumeric(s) && Value(s) == Spelled(sign, ip, fp)
    {
      SpelledValue(s, sign, ip, point, fp);
    }
  }

  // ---- text values ----

  /**
   A text value as it is compared. Surrounding white space does not count for a time or a number, but a text
   that is neither is kept as it stands. `asTime` is the normalised time of a text in one of the known layouts.
   */
  function NormalizeString(asTime: string -> Option<string>, s: string): string {
    var trimmed := TrimSpace(s);
    match asTime(trimmed)
    case Some(t) => t
    case None =>
      match CanonicalDecimal(trimmed)
      case Some(c) => c
      case None => s
  }

  lemma NumbersHaveNoSpace(s: string)
    requires IsNumeric(s)
    ensures Trimmed(s) && TrimSpace(s) == s
  {
    var b := Body(s);
    PointOrEnd(b);
    assert b == IntPart(s) + b[Point(b)..];
    assert FracPart(s) != "" ==> b[|b| - 1] == FracPart(s)[|FracPart(s)| - 1];
    assert !IsSpace(b[0]) && !IsSpace(b[|b| - 1]);
    TrimIsTrimmed(s);
  }

  lemma {:induction false} PointOrEnd(s: string)
    ensures Point(s) < |s| ==> s[Point(s)] == '.'
  {
    if s != "" && s[0] != '.' {
      PointOrEnd(s[1..]);
    }
  }

  /** What is assumed of times: none is printed as a number. */
  ghost predicate TimesAreNoNumbers(asTime: string -> Option<string>) {
    forall s :: asTime(s).Some? ==> !IsNumeric(TrimSpace(asTime(s).value))
  }

  /**
   Two texts are compared as equal exactly when they are equal, or spell, trimmed, one time or one number, or when
   one is a text just as the other's time is printed that is not read as a time itself.
   */
  lemma NormalizedDecides(asTime: string -> Option<string>, a: string, b: string)
    requires TimesAreNoNumbers(asTime)
    ensures NormalizeString(asTime, a) == NormalizeString(asTime, b) <==>
      var x, y := TrimSpace(a), TrimSpace(b);
      a == b || match (asTime(x), asTime(y))
        case (Some(t), Some(u)) => t == u
        case (Some(t), None) => t == b
        case (None, Some(u)) => a == u
        case (None, None) => IsNumeric(x) && IsNumeric(y) && Value(x) == Value(y)
  {
    var x, y := TrimSpace(a), TrimSpace(b);
    if IsNumeric(x) {
      ValuePreserved(x);
      NumbersHaveNoSpace(CanonicalDecimal(x).value);
    }
    if IsNumeric(y) {
      ValuePreserved(y);
      NumbersHaveNoSpace(CanonicalDecimal(y).value);
    }
    if IsNumeric(x) && IsNumeric(y) {
      CanonicalDecides(x, y);
    }
  }
}
