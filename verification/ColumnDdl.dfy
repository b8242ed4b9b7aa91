/** Keywords and column definitions inside CREATE TABLE text (internal/engine/datapackage.go). */
module ColumnDdl {
  import opened GoStrings
  import opened SqlScan

  // ---- tokens and keywords ----

  /** The first token of a fragment, unquoted, and the rest. */
  function SplitFirstToken(fragment: string): (string, string) {
    var frag := TrimSpace(fragment);
    if frag == "" then ("", "")
    else if frag[0] == '`' || frag[0] == '"' then
      var end := Index(frag[1..], [frag[0]]);
      if end >= 0 then (frag[1..1 + end], TrimSpace(frag[2 + end..])) else ("", "")
    else
      var i := BlankFrom(frag, 0);
      if i < |frag| then (frag[..i], TrimSpace(frag[i + 1..])) else (frag, "")
  }

  /** `strings.IndexAny(s, " \t\n")` from `i` on; the length if there is none. */
  function BlankFrom(s: string, i: nat): (r: nat)
    requires i <= |s|
    ensures i <= r <= |s|
    decreases |s| - i
  {
    if i == |s| || s[i] == ' ' || s[i] == '\t' || s[i] == '\n' then i else BlankFrom(s, i + 1)
  }

  predicate IsBlank(c: char) {
    c == ' ' || c == '\t' || c == '\n'
  }

  lemma {:induction false} FirstBlank(s: string, i: nat, k: nat)
    requires i <= k < |s| && IsBlank(s[k]) && forall x :: i <= x < k ==> !IsBlank(s[x])
    ensures BlankFrom(s, i) == k
    decreases k - i
  {
    if i < k {
      FirstBlank(s, i + 1, k);
    }
  }

  /** A name without quotes ends at the first blank. */
  lemma SplitPlainName(name: string, blank: char, rest: string)
    requires name != "" && Trimmed(name) && name[0] != '`' && name[0] != '"' && IsBlank(blank)
    requires forall x :: 0 <= x < |name| ==> !IsBlank(name[x])
    requires rest != "" && Trimmed(rest)
    ensures SplitFirstToken(name + ([blank] + rest)) == (name, rest)
  {
    var frag := name + ([blank] + rest);
    assert frag[0] == name[0] && frag[|frag| - 1] == rest[|rest| - 1] && frag[|name|] == blank;
    TrimIsTrimmed(frag);
    FirstBlank(frag, 0, |name|);
    assert frag[..|name|] == name && frag[|name| + 1..] == rest;
    TrimIsTrimmed(rest);
  }

  /** A quoted name is split off up to the next quote, and the rest comes back trimmed. */
  lemma SplitAtQuote(q: char, name: string, rest: string)
    requires (q == '"' || q == '`') && !Contains(name, [q])
    requires rest != "" && !IsSpace(rest[|rest| - 1])
    ensures SplitFirstToken([q] + (name + ([q] + rest))) == (name, TrimSpace(rest))
  {
    var frag := [q] + (name + ([q] + rest));
    assert frag[|frag| - 1] == rest[|rest| - 1];
    TrimIsTrimmed(frag);
    FirstChar(name, q, rest);
    assert frag[1..] == name + ([q] + rest);
    assert frag[1..1 + |name|] == name;
    assert frag[2 + |name|..] == rest;
  }

  lemma SplitQuotedName(q: char, name: string, rest: string)
    requires (q == '"' || q == '`') && !Contains(name, [q]) && rest != "" && Trimmed(rest)
    ensures SplitFirstToken([q] + name + [q] + (" " + rest)) == (name, rest)
  {
    assert [q] + name + [q] + (" " + rest) == [q] + (name + ([q] + (" " + rest)));
    SplitAtQuote(q, name, " " + rest);
    assert " " + rest == " " + rest + "";
    TrimPadding(" ", rest, "");
  }

  /** Blank text and a quote that is not closed yield nothing; a word that no blank follows is the whole of the text. */
  lemma SplitsNothing(frag: string)
    requires Trimmed(frag)
    ensures AllSpace(frag) ==> SplitFirstToken(frag) == ([], [])
    ensures frag != "" && (frag[0] == '"' || frag[0] == '`') && !Contains(frag[1..], [frag[0]]) ==>
      SplitFirstToken(frag) == ([], [])
    ensures frag != "" && frag[0] != '"' && frag[0] != '`' && (forall i :: 0 <= i < |frag| ==> !IsBlank(frag[i])) ==>
      SplitFirstToken(frag) == (frag, [])
  {
    TrimIsTrimmed(frag);
    if forall i :: 0 <= i < |frag| ==> !IsBlank(frag[i]) {
      NoBlank(frag, 0);
    }
  }

  lemma {:induction false} NoBlank(s: string, i: nat)
    requires i <= |s| && forall x :: i <= x < |s| ==> !IsBlank(s[x])
    ensures BlankFrom(s, i) == |s|
    decreases |s| - i
  {
    if i < |s| {
      NoBlank(s, i + 1);
    }
  }

  predicate IsWord(c: char) {
    c == '_' || c == '$' || '0' <= c <= '9' || 'a' <= c <= 'z' || 'A' <= c <= 'Z'
  }

  predicate IsWordBoundaryAt(s: string, start: nat, length: nat) {
    && (start == 0 || start > |s| || !IsWord(s[start - 1]))
    && (start + length >= |s| || !IsWord(s[start + length]))
  }

  /** The keyword stands at `i`, outside quotes, as a word of its own. */
  predicate KeywordAt(up: string, kw: string, i: nat) {
    && i < |up| && i + |kw| <= |up|
    && Run(START, up, 0, i).quote == None && !IsQuote(up[i])
    && MatchAt(up, kw, i) && IsWordBoundaryAt(up, i, |kw|)
  }

  /** The first place of the keyword from `i` on, or -1. */
  function KeywordFrom(up: string, kw: string, i: nat): (r: int)
    requires i <= |up|
    ensures -1 <= r && (r >= 0 ==> r + |kw| <= |up|)
    decreases |up| - i
  {
    if i == |up| then -1
    else if KeywordAt(up, kw, i) then i
    else KeywordFrom(up, kw, i + 1)
  }

  lemma {:induction false} KeywordSkips(up: string, kw: string, i: nat, r: nat)
    requires i <= r <= |up|
    requires forall k :: i <= k < r ==> !KeywordAt(up, kw, k)
    ensures KeywordFrom(up, kw, i) == KeywordFrom(up, kw, r)
    decreases r - i
  {
    if i < r {
      KeywordSkips(up, kw, i + 1, r);
    }
  }

  lemma JumpKeepsKeyword(up: string, kw: string, i: nat)
    requires i < |up| && Run(START, up, 0, i).quote == None && IsQuote(up[i])
    ensures var r := SegmentEnd(up, up[i], i + 1);
      && i < r
      && KeywordFrom(up, kw, i) == KeywordFrom(up, kw, r)
      && (r < |up| ==> Run(START, up, 0, r).quote == None)
  {
    var r := SegmentEnd(up, up[i], i + 1);
    JumpIsQuiet(START, up, 0, i);
    forall k | i <= k < r
      ensures !KeywordAt(up, kw, k)
    {
      assert Quiet(START, up, 0, k);
    }
    KeywordSkips(up, kw, i, r);
  }

  method FindKeyword(cs: Casing, s: string, keyword: string) returns (r: int)
    requires keyword != ""
    ensures r == KeywordFrom(Upper(cs, s), Upper(cs, keyword), 0)
  {
    var up := Upper(cs, s);
    var kw := Upper(cs, keyword);
    var i := 0;
    while i + |kw| <= |up|
      invariant i <= |up|
      invariant KeywordFrom(up, kw, i) == KeywordFrom(up, kw, 0)
      invariant i < |up| ==> Run(START, up, 0, i).quote == None
      decreases |up| - i
    {
      if IsQuote(up[i]) {
        JumpKeepsKeyword(up, kw, i);
        i := SkipQuoted(up, i);
      } else {
        if MatchAt(up, kw, i) && IsWordBoundaryAt(up, i, |kw|) {
          return i;
        }
        i := i + 1;
      }
    }
    KeywordSkips(up, kw, i, |up|);
    return -1;
  }

  // ---- the column area of CREATE TABLE ----

  const TABLE_LEVEL_KEYWORDS: set<string> := {
    "PRIMARY", "UNIQUE", "CONSTRAINT", "FOREIGN", "CHECK", "KEY",
    "INDEX", "EXCLUDE", "LIKE", "PERIOD", "FULLTEXT", "SPATIAL"
  }

  /** A constraint or index line of the table rather than a column. */
  predicate IsTableLevel(cs: Casing, def: string) {
    Upper(cs, SplitFirstToken(def).0) in TABLE_LEVEL_KEYWORDS
  }

  /** Blank parts and table-level lines are dropped, the rest is trimmed. */
  function KeepDefs(cs: Casing, parts: seq<string>): seq<string> {
    if parts == [] then []
    else
      var p := TrimSpace(parts[|parts| - 1]);
      KeepDefs(cs, parts[..|parts| - 1]) + if p == "" || IsTableLevel(cs, p) then [] else [p]
  }

  function ColumnDefs(cs: Casing, ddl: string): (seq<string>, bool) {
    var start := Index(ddl, "(");
    if start < 0 then ([], false)
    else
      var end := BracketFrom(ddl, start, start);
      if end <= start then ([], false)
      else
        BracketInRange(ddl, start, start);
        var defs := KeepDefs(cs, SplitTop(ddl[start + 1..end], ','));
        (defs, |defs| > 0)
  }

  lemma {:induction false} BracketInRange(s: string, start: nat, k: nat)
    requires start <= k <= |s|
    ensures var r := BracketFrom(s, start, k); r == -1 || (k <= r < |s| && ClosesAt(s, start, r))
    decreases |s| - k
  {
    if k < |s| && !ClosesAt(s, start, k) {
      BracketInRange(s, start, k + 1);
    }
  }

  method SplitDDLColumnDefs(cs: Casing, ddl: string) returns (defs: seq<string>, ok: bool)
    ensures (defs, ok) == ColumnDefs(cs, ddl)
  {
    var start := Index(ddl, "(");
    if start < 0 {
      return [], false;
    }
    var end := MatchBracket(ddl, start);
    BracketInRange(ddl, start, start);
    if end < 0 {
      return [], false;
    }
    assert end != start;
    var inner := ddl[start + 1..end];
    var parts := SplitTopLevel(inner, ',');
    defs := [];
    for n := 0 to |parts|
      invariant defs == KeepDefs(cs, parts[..n])
    {
      assert parts[..n + 1][..n] == parts[..n];
      var p := TrimSpace(parts[n]);
      if p == "" {
        continue;
      }
      var (name, _) := SplitFirstToken(p);
      if Upper(cs, name) in TABLE_LEVEL_KEYWORDS {
        continue;
      }
      defs := defs + [p];
    }
    assert parts[..|parts|] == parts;
    return defs, |defs| > 0;
  }

  /** The first occurrence of a character that the head does not hold. */
  lemma FirstChar(head: string, c: char, rest: string)
    requires !Contains(head, [c])
    ensures Index(head + ([c] + rest), [c]) == |head|
  {
    var s, t := head + ([c] + rest), [c];
    IndexIsFirst(head, t);
    forall k | 0 <= k < |head|
      ensures !MatchAt(s, t, k)
    {
      MatchInConcat(head, t + rest, t, k);
    }
    SameFromChars(s, t, |head|, 0);
    IndexIs(s, t, |head|);
  }

  /** Printing a column area and splitting it gives the definitions back, whatever head and tail surround it. */
  lemma ColumnAreaRoundTrip(cs: Casing, head: string, parts: seq<string>, tail: string)
    requires !Contains(head, "(") && parts != []
    requires forall p :: p in parts ==> Whole(p) && Sealed(p, ',')
    ensures ColumnDefs(cs, head + ("(" + Join(parts, ",") + ")" + tail)) ==
      (KeepDefs(cs, parts), KeepDefs(cs, parts) != [])
  {
    var inner := Join(parts, ",");
    var ddl := head + ("(" + inner + ")" + tail);
    FirstChar(head, '(', inner + ")" + tail);
    WholeJoin(parts, ',');
    BracketMatches(head, inner, tail);
    InnerSlice(head, inner, tail);
    SplitTopJoin(parts, ',');
  }

  lemma InnerSlice(head: string, inner: string, tail: string)
    ensures var s := head + ("(" + inner + ")" + tail);
      |head| + 1 + |inner| <= |s| && s[|head| + 1..|head| + 1 + |inner|] == inner
    ensures ['('] + (inner + ")" + tail) == "(" + inner + ")" + tail
  {
  }

  /** The part is this definition, with or without white space around it. */
  predicate Lays(part: string, def: string) {
    TrimSpace(part) == def && def != ""
  }

  /** So are the first `n` parts the first `n` definitions. */
  predicate LaysAll(parts: seq<string>, defs: seq<string>, n: nat)
    requires n <= |parts| == |defs|
  {
    n > 0 ==> LaysAll(parts, defs, n - 1) && Lays(parts[n - 1], defs[n - 1])
  }

  /** One more part adds its definition, or nothing. */
  lemma KeepsOne(cs: Casing, parts: seq<string>, n: nat, def: string) returns (dropped: bool)
    requires n < |parts| && Lays(parts[n], def)
    ensures dropped == IsTableLevel(cs, def)
    ensures var kept := KeepDefs(cs, parts[..n]);
      KeepDefs(cs, parts[..n + 1]) == if dropped then kept else kept + [def]
  {
    dropped := IsTableLevel(cs, def);
    assert parts[..n + 1][..n] == parts[..n];
    assert KeepDefs(cs, parts[..n]) + [] == KeepDefs(cs, parts[..n]);
  }

  /** None of the first `n` definitions reads as a table-level line. */
  predicate AllColumns(cs: Casing, defs: seq<string>, n: nat)
    requires n <= |defs|
  {
    n > 0 ==> AllColumns(cs, defs, n - 1) && !IsTableLevel(cs, defs[n - 1])
  }

  /** All definitions are kept, or there are fewer. */
  ghost predicate KeptOrFewer(kept: seq<string>, defs: seq<string>, n: nat, all: bool)
    requires n <= |defs|
  {
    if all then kept == defs[..n] else |kept| < n
  }

  lemma OneMoreKept(kept: seq<string>, kept': seq<string>, defs: seq<string>, n: nat, all: bool, dropped: bool)
    requires n < |defs| && KeptOrFewer(kept, defs, n, all)
    requires kept' == if dropped then kept else kept + [defs[n]]
    ensures KeptOrFewer(kept', defs, n + 1, all && !dropped)
  {
    assert defs[..n + 1] == defs[..n] + [defs[n]];
  }

  lemma {:induction false} KeepsColumns(cs: Casing, parts: seq<string>, defs: seq<string>, n: nat)
    requires n <= |parts| == |defs| && LaysAll(parts, defs, n)
    ensures KeptOrFewer(KeepDefs(cs, parts[..n]), defs, n, AllColumns(cs, defs, n))
  {
    if n > 0 {
      KeepsColumns(cs, parts, defs, n - 1);
      var dropped := KeepsOne(cs, parts, n - 1, defs[n - 1]);
      OneMoreKept(
        KeepDefs(cs, parts[..n - 1]), KeepDefs(cs, parts[..n]), defs, n - 1, AllColumns(cs, defs, n - 1), dropped);
    }
  }

  lemma {:induction false} AllColumnsMeans(cs: Casing, defs: seq<string>, n: nat)
    requires n <= |defs|
    ensures AllColumns(cs, defs, n) <==> forall i :: 0 <= i < n ==> !IsTableLevel(cs, defs[i])
  {
    if n > 0 {
      AllColumnsMeans(cs, defs, n - 1);
    }
  }

  /**
   A printed CREATE TABLE, laid out with any white space, gives back exactly its column definitions, in order, if
   and only if none of them starts with a word, quoted or not, that the program takes for a table-level keyword.
   */
  lemma CreateTableRoundTrip(cs: Casing, head: string, parts: seq<string>, defs: seq<string>, tail: string)
    requires !Contains(head, "(") && parts != [] && |parts| == |defs|
    requires forall p :: p in parts ==> Whole(p) && Sealed(p, ',')
    requires LaysAll(parts, defs, |parts|)
    ensures ColumnDefs(cs, head + ("(" + Join(parts, ",") + ")" + tail)) == (defs, true) <==>
      forall i :: 0 <= i < |defs| ==> !IsTableLevel(cs, defs[i])
  {
    ColumnAreaRoundTrip(cs, head, parts, tail);
    KeepsColumns(cs, parts, defs, |parts|);
    AllColumnsMeans(cs, defs, |defs|);
    assert parts[..|parts|] == parts && defs[..|parts|] == defs;
  }

  /** The words that start a table-level line, in whatever case. */
  lemma TableLevelExactlyWhen(cs: Casing, def: string)
    ensures var words := [
        "CHECK", "CONSTRAINT", "EXCLUDE", "FOREIGN", "FULLTEXT", "INDEX",
        "KEY", "LIKE", "PERIOD", "PRIMARY", "SPATIAL", "UNIQUE"];
      IsTableLevel(cs, def) <==> Upper(cs, SplitFirstToken(def).0) in words
  {
  }

  /** A column whose name is such a keyword is taken for one even if it is quoted. */
  lemma QuotedKeywordIsDropped(cs: Casing, q: char, name: string, rest: string)
    requires (q == '"' || q == '`') && !Contains(name, [q]) && Upper(cs, name) in TABLE_LEVEL_KEYWORDS
    requires rest != "" && Trimmed(rest)
    ensures IsTableLevel(cs, [q] + name + [q] + (" " + rest))
  {
    SplitQuotedName(q, name, rest);
  }

  lemma QuotedKeyIsDropped(cs: Casing)
    ensures IsTableLevel(cs, "\"key\" text")
  {
    assert Upper(cs, "key") == "KEY";
    IndexIsFirst("key", "\"");
    assert ['"'] + "key" + ['"'] + (" " + "text") == "\"key\" text";
    QuotedKeywordIsDropped(cs, '"', "key", "text");
  }

  /** A dotless i has the upper case I, so that a column with such a first letter in `index` is dropped as well. */
  lemma DotlessIndexIsDropped(cs: Casing)
    requires cs('\U{131}') == 'I'
    ensures IsTableLevel(cs, "\U{131}ndex int")
  {
    assert Upper(cs, "\U{131}ndex") == "INDEX";
    assert "\U{131}ndex" + ([' '] + "int") == "\U{131}ndex int";
    SplitPlainName("\U{131}ndex", ' ', "int");
  }

  /** Whether a name is the one looked for; `same` is `strings.EqualFold`. */
  predicate Names(cs: Casing, same: (string, string) -> bool, oracle: bool, name: string, col: string) {
    name != "" && if oracle then same(Upper(cs, name), Upper(cs, col)) else same(name, col)
  }

  /** The first definition with the name. */
  function FindDef(cs: Casing, same: (string, string) -> bool, oracle: bool, defs: seq<string>, col: string):
    Option<string>
  {
    if defs == [] then None
    else if Names(cs, same, oracle, SplitFirstToken(defs[0]).0, col) then Some(defs[0])
    else FindDef(cs, same, oracle, defs[1..], col)
  }

  method ExtractColumnDef(cs: Casing, same: (string, string) -> bool, oracle: bool, ddl: string, col: string)
    returns (def: Option<string>)
    ensures def == FindDef(cs, same, oracle, ColumnDefs(cs, ddl).0, col)
  {
    var defs, ok := SplitDDLColumnDefs(cs, ddl);
    if !ok {
      return None;
    }
    for n := 0 to |defs|
      invariant FindDef(cs, same, oracle, defs[n..], col) == FindDef(cs, same, oracle, defs, col)
    {
      var (name, _) := SplitFirstToken(defs[n]);
      assert defs[n..][1..] == defs[n + 1..];
      if name == "" {
        continue;
      }
      var matched := same(name, col);
      if oracle {
        matched := same(Upper(cs, name), Upper(cs, col));
      }
      if matched {
        return Some(defs[n]);
      }
    }
    return None;
  }

  /** The definition is for the column: names are compared without case, on Oracle after putting both in upper case. */
  predicate IsFor(cs: Casing, same: (string, string) -> bool, oracle: bool, def: string, col: string) {
    var name := SplitFirstToken(def).0;
    && name != ""
    && (!oracle ==> same(name, col))
    && (oracle ==> same(Upper(cs, name), Upper(cs, col)))
  }

  /** Definition `i` is for the column, and none in front of it is. */
  predicate IsFirstFor(
    cs: Casing, same: (string, string) -> bool, oracle: bool, defs: seq<string>, col: string, i: nat)
  {
    && i < |defs| && IsFor(cs, same, oracle, defs[i], col)
    && forall k :: 0 <= k < i ==> !IsFor(cs, same, oracle, defs[k], col)
  }

  /** The first definition for the column is found, and none only if there is none. */
  lemma {:induction false} FindsTheColumn(
    cs: Casing, same: (string, string) -> bool, oracle: bool, defs: seq<string>, col: string)
    ensures match FindDef(cs, same, oracle, defs, col)
      case None => forall k :: 0 <= k < |defs| ==> !IsFor(cs, same, oracle, defs[k], col)
      case Some(def) => exists i: nat :: IsFirstFor(cs, same, oracle, defs, col, i) && defs[i] == def
  {
    if defs != [] && !IsFor(cs, same, oracle, defs[0], col) {
      FindsTheColumn(cs, same, oracle, defs[1..], col);
      assert forall k :: 1 <= k < |defs| ==> defs[k] == defs[1..][k - 1];
      if FindDef(cs, same, oracle, defs[1..], col).Some? {
        var i: nat :| IsFirstFor(cs, same, oracle, defs[1..], col, i)
          && defs[1..][i] == FindDef(cs, same, oracle, defs[1..], col).value;
        assert IsFirstFor(cs, same, oracle, defs, col, i + 1);
      }
    }
  }

  // ---- words ----

  /** A letter or digit of ASCII, an underscore or a dollar sign. */
  predicate IsNameChar(c: char) {
    var n := c as int;
    65 <= n <= 90 || 97 <= n <= 122 || 48 <= n <= 57 || n == 95 || n == 36
  }

  /** A keyword is found only where no such character stands on either side of it, outside quotes. */
  lemma {:induction false} FoundStandsAlone(up: string, kw: string, i: nat)
    requires i <= |up|
    ensures var r := KeywordFrom(up, kw, i);
      r >= 0 ==>
        && r + |kw| <= |up| && up[r..r + |kw|] == kw
        && (r == 0 || !IsNameChar(up[r - 1])) && (r + |kw| == |up| || !IsNameChar(up[r + |kw|]))
        && Run(START, up, 0, r).quote == None
    decreases |up| - i
  {
    if i < |up| {
      if KeywordAt(up, kw, i) {
        MatchIsSlice(up, kw, i);
      } else {
        FoundStandsAlone(up, kw, i + 1);
      }
    }
  }

  /** The first occurrence outside quotes with no such character on either side is found. */
  lemma StandsAloneIsFound(up: string, kw: string, r: nat)
    requires kw != "" && r + |kw| <= |up| && up[r..r + |kw|] == kw && !IsQuote(kw[0])
    requires (r == 0 || !IsNameChar(up[r - 1])) && (r + |kw| == |up| || !IsNameChar(up[r + |kw|]))
    requires Run(START, up, 0, r).quote == None
    ensures 0 <= KeywordFrom(up, kw, 0) <= r
  {
    MatchIsSlice(up, kw, r);
    assert up[r] == up[r..r + |kw|][0];
    FoundUpTo(up, kw, 0, r);
  }

  lemma {:induction false} FoundUpTo(up: string, kw: string, i: nat, r: nat)
    requires i <= r < |up| && KeywordAt(up, kw, r)
    ensures i <= KeywordFrom(up, kw, i) <= r
    decreases r - i
  {
    if i < r && !KeywordAt(up, kw, i) {
      FoundUpTo(up, kw, i + 1, r);
    }
  }
}
