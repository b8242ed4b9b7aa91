/** Unique names for the sheets and cells of the dictionary workbook (internal/engine/dictionary.go). */
module NameAllocators {
  import opened GoStrings

  const MAX_SHEET_NAME := 31

  /** A power of ten that the 64-bit counters of the program can reach, and no set of names in memory can. */
  const MAX_NAMES := Pow10(18)

  function Pow10(k: nat): (r: nat)
    ensures r > 0
  {
    if k == 0 then 1 else 10 * Pow10(k - 1)
  }

  // ---- candidate names ----

  predicate Forbidden(c: char) {
    c == '[' || c == ']' || c == ':' || c == '*' || c == '?' || c == '/' || c == '\\'
  }

  predicate LegalInSheet(s: string) {
    forall i :: 0 <= i < |s| ==> !Forbidden(s[i])
  }

  function Replaced(s: string): (r: string)
    ensures |r| == |s|
  {
    seq(|s|, i requires 0 <= i < |s| => if Forbidden(s[i]) then '_' else s[i])
  }

  function Cut(s: string, n: nat): (r: string)
    ensures |r| <= n && |r| <= |s|
  {
    if |s| > n then s[..n] else s
  }

  function SheetBase(name: string): string {
    var s := TrimSpace(Replaced(name));
    Cut(if s == "" then "sheet" else s, MAX_SHEET_NAME)
  }

  function SheetSuffix(i: nat): string {
    "~" + Itoa(i)
  }

  /** How the name of an allocation is formed from its counter. */
  datatype Scheme = Sheet | Cell

  /** The name tried with counter `i`; with 1, the base itself. */
  function Candidate(scheme: Scheme, base: string, i: nat): string
    requires 1 <= i <= MAX_NAMES + 2
  {
    if i == 1 then base
    else
      match scheme
      case Sheet =>
        SuffixFits(i);
        Cut(base, MAX_SHEET_NAME - |SheetSuffix(i)|) + SheetSuffix(i)
      case Cell => base + "_" + Itoa(i)
  }

  lemma {:induction false} DigitCount(n: nat, k: nat)
    requires 0 < k && n < Pow10(k)
    ensures |Digits(n)| <= k
  {
    if n >= 10 {
      assert k > 1;
      DigitCount(n / 10, k - 1);
    }
  }

  /** A suffix leaves room for at least part of the base. */
  lemma SuffixFits(i: nat)
    requires i <= MAX_NAMES + 2
    ensures |SheetSuffix(i)| <= 20
  {
    assert Pow10(19) == 10 * MAX_NAMES;
    DigitCount(i, 19);
  }

  // ---- different counters give different names ----

  predicate TildeFree(s: string) {
    forall k :: 0 <= k < |s| ==> s[k] != '~'
  }

  lemma SameSuffix(u: string, x: string, v: string, y: string)
    requires TildeFree(x) && TildeFree(y) && u + ("~" + x) == v + ("~" + y)
    ensures x == y
  {
    var w := u + ("~" + x);
    assert w[|u|] == '~' && w[|v|] == '~';
    assert forall k :: |u| < k < |w| ==> w[k] == x[k - |u| - 1];
    assert forall k :: |v| < k < |w| ==> w[k] == y[k - |v| - 1];
    assert |u| == |v|;
    assert x == w[|u| + 1..] && y == w[|v| + 1..];
  }

  lemma NumbersAreTildeFree(i: nat)
    ensures TildeFree(Itoa(i))
  {
    DigitsAreDigits(i);
  }

  lemma CandidatesDiffer(scheme: Scheme, base: string, i: nat, k: nat)
    requires 2 <= i < k <= MAX_NAMES + 2
    ensures Candidate(scheme, base, i) != Candidate(scheme, base, k)
  {
    if Candidate(scheme, base, i) == Candidate(scheme, base, k) {
      if scheme == Sheet {
        SuffixFits(i);
        SuffixFits(k);
        NumbersAreTildeFree(i);
        NumbersAreTildeFree(k);
        SameSuffix(
          Cut(base, MAX_SHEET_NAME - |SheetSuffix(i)|), Itoa(i), Cut(base, MAX_SHEET_NAME - |SheetSuffix(k)|), Itoa(k));
      } else {
        var p := base + "_";
        assert (p + Itoa(i))[|p|..] == Itoa(i) && (p + Itoa(k))[|p|..] == Itoa(k);
      }
      ItoaInjective(i, k);
    }
  }

  /** The names tried with the counters from 2 to below `i`. */
  ghost function Tried(scheme: Scheme, base: string, i: nat): set<string>
    requires 2 <= i <= MAX_NAMES + 3
  {
    if i == 2 then {} else Tried(scheme, base, i - 1) + {Candidate(scheme, base, i - 1)}
  }

  lemma {:induction false} NotTriedYet(scheme: Scheme, base: string, i: nat, k: nat)
    requires 2 <= i <= k <= MAX_NAMES + 2
    ensures Candidate(scheme, base, k) !in Tried(scheme, base, i)
  {
    if i > 2 {
      NotTriedYet(scheme, base, i - 1, k);
      CandidatesDiffer(scheme, base, i - 1, k);
    }
  }

  lemma {:induction false} TriedCount(scheme: Scheme, base: string, i: nat)
    requires 2 <= i <= MAX_NAMES + 3
    ensures |Tried(scheme, base, i)| == i - 2
  {
    if i > 2 {
      TriedCount(scheme, base, i - 1);
      NotTriedYet(scheme, base, i - 1, i - 1);
    }
  }

  /** If all names tried are in use, no more have been tried than are in use. */
  lemma Pigeonhole(scheme: Scheme, base: string, i: nat, used: set<string>)
    requires 2 <= i <= MAX_NAMES + 3 && Tried(scheme, base, i) <= used
    ensures i - 2 <= |used|
  {
    TriedCount(scheme, base, i);
    SubsetSize(Tried(scheme, base, i), used);
  }

  lemma SubsetSize(a: set<string>, b: set<string>)
    requires a <= b
    ensures |a| <= |b|
  {
    assert b == a + (b - a);
  }

  // ---- allocation ----

  /** The set of names in use, shared by all calls. */
  class UsedNames {
    var names: set<string>

    constructor (names: set<string>)
      ensures this.names == names
    {
      this.names := names;
    }

    /** The loop of both allocators: count up until a name is free, and record it. */
    method Allocate(scheme: Scheme, base: string) returns (s: string, ghost n: nat)
      requires |names| < MAX_NAMES
      modifies this
      ensures s !in old(names) && names == old(names) + {s}
      ensures 1 <= n <= |old(names)| + 2 && s == Candidate(scheme, base, n)
      ensures forall k :: 1 <= k < n ==> Candidate(scheme, base, k) in old(names)
    {
      s := base;
      var i := 2;
      while s in names
        invariant 2 <= i <= |names| + 3 && names == old(names)
        invariant s == Candidate(scheme, base, i - 1)
        invariant i > 2 ==> base in names && Tried(scheme, base, i - 1) <= names
        invariant forall k :: 1 <= k < i - 1 ==> Candidate(scheme, base, k) in names
        decreases |names| + 3 - i
      {
        if i > 2 {
          Pigeonhole(scheme, base, i, names);
        }
        s := Candidate(scheme, base, i);
        i := i + 1;
      }
      n := i - 1;
      names := names + {s};
    }

    /** `dictSheetName`. */
    method SheetName(name: string) returns (s: string, ghost n: nat)
      requires |names| < MAX_NAMES
      modifies this
      ensures s !in old(names) && names == old(names) + {s}
      ensures 0 < |s| <= MAX_SHEET_NAME && LegalInSheet(s)
      ensures 1 <= n <= |old(names)| + 2 && s == Candidate(Sheet, SheetBase(name), n)
      ensures forall k :: 1 <= k < n ==> Candidate(Sheet, SheetBase(name), k) in old(names)
    {
      s, n := Allocate(Sheet, SheetBase(name));
      SheetNamesAreLegal(name, n);
    }

    /** `dictDefinedName`. */
    method DefinedName(db: string, table: string) returns (s: string, ghost n: nat)
      requires |names| < MAX_NAMES
      modifies this
      ensures s !in old(names) && names == old(names) + {s}
      ensures LegalDefined(s)
      ensures 1 <= n <= |old(names)| + 2 && s == Candidate(Cell, Clean(db) + "_" + Clean(table), n)
      ensures forall k :: 1 <= k < n ==> Candidate(Cell, Clean(db) + "_" + Clean(table), k) in old(names)
    {
      s, n := Allocate(Cell, Clean(db) + "_" + Clean(table));
      DefinedNamesAreLegal(db, table, n);
    }
  }

  // ---- what the names look like ----

  lemma {:induction false} TrimLeftLegal(s: string)
    requires LegalInSheet(s)
    ensures LegalInSheet(TrimLeft(s))
  {
    if s != "" && IsSpace(s[0]) {
      TrimLeftLegal(s[1..]);
    }
  }

  lemma {:induction false} TrimRightLegal(s: string)
    requires LegalInSheet(s)
    ensures LegalInSheet(TrimRight(s))
  {
    if s != "" && IsSpace(s[|s| - 1]) {
      TrimRightLegal(s[..|s| - 1]);
    }
  }

  lemma SheetBaseIsLegal(name: string)
    ensures LegalInSheet(SheetBase(name)) && 0 < |SheetBase(name)| <= MAX_SHEET_NAME
  {
    var s := Replaced(name);
    assert forall i :: 0 <= i < |s| ==> !Forbidden(s[i]);
    TrimLeftLegal(s);
    TrimRightLegal(TrimLeft(s));
  }

  /** A candidate for a sheet fits the limit, and neither replacing nor cutting brings a forbidden character back. */
  lemma SheetNamesAreLegal(name: string, n: nat)
    requires 1 <= n <= MAX_NAMES + 2
    ensures var s := Candidate(Sheet, SheetBase(name), n); 0 < |s| <= MAX_SHEET_NAME && LegalInSheet(s)
  {
    SheetBaseIsLegal(name);
    if n > 1 {
      SuffixFits(n);
      DigitsAreDigits(n);
    }
  }

  predicate Letter(c: char) {
    'a' <= c <= 'z' || 'A' <= c <= 'Z' || IsDigit(c) || c == '_' || c == '.'
  }

  /** What a defined name may be: letters, digits, underscores and points, with no digit first. */
  predicate LegalDefined(s: string) {
    s != "" && !IsDigit(s[0]) && forall i :: 0 <= i < |s| ==> Letter(s[i])
  }

  function Cleaned(s: string): (r: string)
    ensures |r| == |s|
  {
    seq(|s|, i requires 0 <= i < |s| => if Letter(s[i]) then s[i] else '_')
  }

  /** The helper `clean` of `dictDefinedName`. */
  function Clean(s: string): string {
    var r := if s == "" then "x" else Cleaned(s);
    if IsDigit(r[0]) then "_" + r else r
  }

  lemma DefinedNamesAreLegal(db: string, table: string, n: nat)
    requires 1 <= n <= MAX_NAMES + 2
    ensures LegalDefined(Candidate(Cell, Clean(db) + "_" + Clean(table), n))
  {
    assert LegalDefined(Clean(db)) && LegalDefined(Clean(table));
    DigitsAreDigits(n);
  }

  // ---- what the names keep ----

  lemma ReplacedParts(l: string, mid: string, r: string)
    requires AllSpace(l) && AllSpace(r) && Trimmed(mid)
    ensures Replaced(l + mid + r) == Replaced(l) + Replaced(mid) + Replaced(r)
    ensures AllSpace(Replaced(l)) && AllSpace(Replaced(r)) && Trimmed(Replaced(mid))
  {
  }

  /**
   The name of a sheet is that of the database without surrounding white space, a forbidden character being replaced
   by an underscore, cut to 31 characters; a blank one is called sheet.
   */
  lemma SheetBaseFollows(l: string, mid: string, r: string)
    requires AllSpace(l) && AllSpace(r) && Trimmed(mid)
    ensures var base := SheetBase(l + mid + r);
      if mid == "" then base == "sheet"
      else
        && |base| == (if |mid| < 31 then |mid| else 31)
        && forall i :: 0 <= i < |base| ==> base[i] == if mid[i] in "[]:*?/\\" then '_' else mid[i]
  {
    ReplacedParts(l, mid, r);
    TrimPadding(Replaced(l), Replaced(mid), Replaced(r));
  }

  /** A numbered name is as much of the base as fits, a mark, and the number. */
  lemma NumberedFollows(scheme: Scheme, base: string, n: nat)
    requires 2 <= n <= MAX_NAMES + 2
    ensures var s := Candidate(scheme, base, n);
      match scheme
      case Cell => s == base + ("_" + Itoa(n))
      case Sheet => exists k :: 0 <= k <= |base| && s == base[..k] + ("~" + Itoa(n)) && (k == |base| || |s| == 31)
  {
    SuffixFits(n);
    var k := if |base| > MAX_SHEET_NAME - |SheetSuffix(n)| then MAX_SHEET_NAME - |SheetSuffix(n)| else |base|;
    assert base[..|base|] == base;
    assert base + "_" + Itoa(n) == base + ("_" + Itoa(n));
    assert Candidate(Sheet, base, n) == base[..k] + ("~" + Itoa(n));
  }

  /** A letter or digit of ASCII, an underscore or a point. */
  predicate IsDefinedChar(c: char) {
    var n := c as int;
    65 <= n <= 90 || 97 <= n <= 122 || 48 <= n <= 57 || n == 95 || n == 46
  }

  /** A part of a defined name is the text with other characters replaced, behind an underscore if a digit is first. */
  lemma CleanFollows(s: string)
    ensures var r, k := Clean(s), if s != "" && 48 <= s[0] as int <= 57 then 1 else 0;
      if s == "" then r == "x"
      else
        && |r| == |s| + k && (k == 1 ==> r[0] == '_')
        && forall i :: 0 <= i < |s| ==> r[k + i] == if IsDefinedChar(s[i]) then s[i] else '_'
  {
  }

  // ---- all sheets of a workbook ----

  predicate PairwiseDistinct(s: seq<string>) {
    forall i, k :: 0 <= i < k < |s| ==> s[i] != s[k]
  }

  /** These are different names, and all names in use. */
  ghost predicate Collects(s: seq<string>, names: set<string>) {
    PairwiseDistinct(s) && names == set x | x in s
  }

  /** A name that a sheet may have. */
  predicate IsSheetName(s: string) {
    0 < |s| <= MAX_SHEET_NAME && LegalInSheet(s)
  }

  lemma OneMoreName(first: string, s: seq<string>, names: set<string>, x: string)
    requires Collects([first] + s, names) && x !in names
    ensures Collects([first] + (s + [x]), names + {x})
  {
    assert [first] + (s + [x]) == ([first] + s) + [x];
  }

  /** The sheets of the databases, beside the overview. */
  method NameSheets(overview: string, databases: seq<string>) returns (sheets: seq<string>)
    requires |databases| < MAX_NAMES
    ensures |sheets| == |databases| && PairwiseDistinct([overview] + sheets)
    ensures forall i :: 0 <= i < |sheets| ==> IsSheetName(sheets[i])
  {
    var used := new UsedNames({overview});
    sheets := [];
    for i := 0 to |databases|
      invariant |sheets| == i && |used.names| == i + 1
      invariant Collects([overview] + sheets, used.names)
      invariant forall k :: 0 <= k < |sheets| ==> IsSheetName(sheets[k])
    {
      ghost var names := used.names;
      var s, n := used.SheetName(databases[i]);
      OneMoreName(overview, sheets, names, s);
      sheets := sheets + [s];
    }
  }
}
