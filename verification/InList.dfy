/**
 Key lists for `WHERE (pk) IN (...)`: printing values as SQL literals and reading the list back
 (internal/engine/datapackage.go).
 */
module InList {
  import opened GoStrings
  import opened SqlScan

  // ---- literals ----

  /** The body of the literal for `v`: quotes doubled, and on MySQL backslashes first. */
  function EscapeValue(mysql: bool, v: string): string {
    DoubleAll(if mysql then DoubleAll(v, '\\') else v, '\'')
  }

  function QuoteLiteral(mysql: bool, v: string): string {
    "'" + EscapeValue(mysql, v) + "'"
  }

  /**
   How a database reads the body of a literal, in one pass: '' is a quote; on MySQL a backslash
   makes the next character literal (None for the escapes with another meaning, such as \n).
   */
  function ReadBody(mysql: bool, body: string): Option<string> {
    if body == "" then Some("")
    else if body[0] == '\'' then
      if |body| >= 2 && body[1] == '\'' then Prepend('\'', ReadBody(mysql, body[2..])) else None
    else if mysql && body[0] == '\\' then
      if |body| >= 2 && body[1] == '\\' then Prepend('\\', ReadBody(mysql, body[2..])) else None
    else Prepend(body[0], ReadBody(mysql, body[1..]))
  }

  function Prepend(c: char, rest: Option<string>): Option<string> {
    match rest
    case None => None
    case Some(r) => Some([c] + r)
  }

  /** Encoding goes value character by value character. */
  lemma EscapeCons(mysql: bool, v: string)
    requires v != ""
    ensures EscapeValue(mysql, v) == EscapeValue(mysql, v[..1]) + EscapeValue(mysql, v[1..])
    ensures EscapeValue(mysql, v[..1]) == EscapedChar(mysql, v[0])
  {
    var c := v[0];
    assert v[..1] == [c];
    if mysql {
      var head := if c == '\\' then ['\\', '\\'] else [c];
      DoubleConcat(head, DoubleAll(v[1..], '\\'), '\'');
      DoubleOne(c, '\\');
      if c == '\\' {
        DoubleTwo(c, '\'');
      }
    }
    DoubleOne(c, '\'');
  }

  function EscapedChar(mysql: bool, c: char): string {
    if c == '\'' || (mysql && c == '\\') then [c, c] else [c]
  }

  lemma DoubleOne(c: char, q: char)
    ensures DoubleAll([c], q) == if c == q then [c, c] else [c]
  {
    assert [c][1..] == "";
    assert DoubleAll("", q) == "";
  }

  lemma DoubleTwo(c: char, q: char)
    requires c != q
    ensures DoubleAll([c, c], q) == [c, c]
  {
    assert [c, c][1..] == [c];
    DoubleOne(c, q);
  }

  /** What is printed is read back, for every value. */
  lemma {:induction false} LiteralReadsBack(mysql: bool, v: string)
    ensures ReadBody(mysql, EscapeValue(mysql, v)) == Some(v)
  {
    if v == "" {
    } else {
      EscapeCons(mysql, v);
      LiteralReadsBack(mysql, v[1..]);
      ReadCons(mysql, v[0], EscapeValue(mysql, v[1..]));
      assert v == [v[0]] + v[1..];
    }
  }

  lemma ReadCons(mysql: bool, c: char, rest: string)
    ensures ReadBody(mysql, EscapedChar(mysql, c) + rest) == Prepend(c, ReadBody(mysql, rest))
  {
    var e := EscapedChar(mysql, c);
    assert (e + rest)[|e|..] == rest;
  }

  // ---- the scanner on literals ----

  /** A segment that holds a doubled body ends behind the closing quote. */
  lemma {:induction false} SegmentEndDoubled(s: string, q: char, w: string, j: nat)
    requires MatchAt(s, DoubleAll(w, q), j)
    requires var e := j + |DoubleAll(w, q)|;
      e < |s| && s[e] == q && (e + 1 == |s| || s[e + 1] != q)
    ensures SegmentEnd(s, q, j) == j + |DoubleAll(w, q)| + 1
    decreases |w|
  {
    if w != "" {
      var d := DoubleAll(w, q);
      var n := if w[0] == q then 2 else 1;
      var rest := DoubleAll(w[1..], q);
      SameFromChars(s, d, j, 0);
      forall x | 0 <= x < |rest|
        ensures s[j + n + x] == rest[x]
      {
        assert s[j + (n + x)] == d[n + x];
      }
      SameFromChars(s, rest, j + n, 0);
      SegmentEndDoubled(s, q, w[1..], j + n);
      assert s[j + 0] == d[0] == w[0];
      assert n == 2 ==> s[j + 1] == d[1] == q;
    }
  }

  /** Text in quotes of any kind, with those inside doubled. */
  function Quoted(q: char, w: string): string {
    [q] + DoubleAll(w, q) + [q]
  }

  /** The scanner lands exactly behind quoted text that no such quote follows. */
  lemma SkipLandsBehindQuoted(q: char, w: string, pre: string, post: string)
    requires post == "" || post[0] != q
    ensures SegmentEnd(pre + Quoted(q, w) + post, q, |pre| + 1) == |pre| + |Quoted(q, w)|
  {
    var body := DoubleAll(w, q);
    QuotedShape(q, pre, body, post);
    PieceInText(pre + [q], body, [q] + post);
    SegmentEndDoubled(pre + ([q] + body + [q]) + post, q, w, |pre| + 1);
  }

  lemma QuotedShape(q: char, pre: string, body: string, post: string)
    ensures var s := pre + ([q] + body + [q]) + post;
      && s == (pre + [q]) + body + ([q] + post)
      && s[|pre| + 1 + |body|] == q
      && (post == "" || s[|pre| + 1 + |body| + 1] == post[0])
  {
  }

  /** The scanner lands exactly behind a printed literal that no quote follows. */
  lemma SkipLandsBehindLiteral(mysql: bool, v: string, pre: string, post: string)
    requires post == "" || post[0] != '\''
    ensures var lit := QuoteLiteral(mysql, v);
      SegmentEnd(pre + lit + post, '\'', |pre| + 1) == |pre| + |lit|
  {
    SkipLandsBehindQuoted('\'', if mysql then DoubleAll(v, '\\') else v, pre, post);
  }

  /** Quoted text whose last quote is missing runs on to the end. */
  lemma UnclosedRunsOn(q: char, w: string)
    ensures SegmentEnd([q] + DoubleAll(w, q), q, 1) == |DoubleAll(w, q)| + 1
  {
    UnclosedFrom([q] + DoubleAll(w, q), q, w, 1);
  }

  lemma {:induction false} UnclosedFrom(s: string, q: char, w: string, j: nat)
    requires j <= |s| && s[j..] == DoubleAll(w, q)
    ensures SegmentEnd(s, q, j) == |s|
    decreases |w|
  {
    if w != "" {
      var n := if w[0] == q then 2 else 1;
      var rest := DoubleAll(w[1..], q);
      assert s[j..] == (if w[0] == q then [q, q] else [w[0]]) + rest;
      assert s[j] == s[j..][0] == w[0] && s[j..][n..] == rest;
      assert n == 2 ==> s[j + 1] == s[j..][1] == q;
      assert s[j + n..] == s[j..][n..];
      UnclosedFrom(s, q, w[1..], j + n);
    }
  }

  /** Quoted text is one piece to the scanner, whatever it holds. */
  lemma QuotedSealed(q: char, w: string, sep: char)
    requires q == '\'' || q == '"' || q == '`'
    ensures Whole(Quoted(q, w)) && Sealed(Quoted(q, w), sep)
  {
    var lit := Quoted(q, w);
    var s := lit + ",";
    SkipLandsBehindQuoted(q, w, "", ",");
    assert "" + lit + "," == s;
    JumpIsQuiet(START, s, 0, 0);
    PrefixRun(lit, ",");
    forall k | 0 <= k <= |lit|
      ensures Run(START, lit, 0, k).depth >= 0
      ensures k < |lit| ==> Quiet(START, lit, 0, k)
    {
      PrefixRunTo(lit, ",", k);
      assert k < |lit| ==> Quiet(START, s, 0, k) && s[k] == lit[k];
      QuietDepth(s, k);
    }
    forall k | 0 <= k < |lit|
      ensures !TopSep(START, lit, 0, sep, k)
    {
      assert Quiet(START, lit, 0, k);
    }
  }

  /** So is a literal, whatever the value holds. */
  lemma LiteralSealed(mysql: bool, v: string, sep: char)
    ensures Whole(QuoteLiteral(mysql, v)) && Sealed(QuoteLiteral(mysql, v), sep)
  {
    QuotedSealed('\'', if mysql then DoubleAll(v, '\\') else v, sep);
  }

  /** Up to the end of a jump at the start of a text the depth does not move. */
  lemma {:induction false} QuietDepth(s: string, k: nat)
    requires k <= |s| && forall x :: 0 <= x < k ==> Quiet(START, s, 0, x)
    ensures Run(START, s, 0, k).depth == 0
  {
    if k > 0 {
      QuietDepth(s, k - 1);
      assert Quiet(START, s, 0, k - 1);
    }
  }

  // ---- lists ----

  function Literals(mysql: bool, key: seq<string>): (r: seq<string>)
    ensures |r| == |key|
  {
    seq(|key|, i requires 0 <= i < |key| => QuoteLiteral(mysql, key[i]))
  }

  function Tuple(mysql: bool, key: seq<string>): string {
    "(" + Join(Literals(mysql, key), ",") + ")"
  }

  function Tuples(mysql: bool, ids: seq<seq<string>>): (r: seq<string>)
    ensures |r| == |ids|
  {
    seq(|ids|, i requires 0 <= i < |ids| => Tuple(mysql, ids[i]))
  }

  /** `strings.EqualFold(dbType, "mysql")` is passed in as `mysql`. */
  method QuoteInList(mysql: bool, ids: seq<seq<string>>) returns (list: string)
    ensures list == Join(Tuples(mysql, ids), ",")
  {
    var rows: seq<string> := [];
    for n := 0 to |ids|
      invariant rows == Tuples(mysql, ids)[..n]
    {
      var l := ids[n];
      var cols: seq<string> := [];
      for m := 0 to |l|
        invariant cols == Literals(mysql, l)[..m]
      {
        cols := cols + [QuoteLiteral(mysql, l[m])];
      }
      assert Literals(mysql, l)[..|l|] == Literals(mysql, l);
      rows := rows + ["(" + Join(cols, ",") + ")"];
    }
    assert Tuples(mysql, ids)[..|ids|] == Tuples(mysql, ids);
    list := Join(rows, ",");
  }

  lemma TupleSealed(mysql: bool, key: seq<string>)
    ensures Whole(Join(Literals(mysql, key), ",")) && Sealed(Tuple(mysql, key), ',')
  {
    forall p | p in Literals(mysql, key)
      ensures Whole(p)
    {
      var i :| 0 <= i < |key| && p == Literals(mysql, key)[i];
      LiteralSealed(mysql, key[i], ',');
    }
    WholeJoin(Literals(mysql, key), ',');
    Bracketed(Join(Literals(mysql, key), ","), ',');
  }

  /** Splitting the printed list gives one bracketed part per key. */
  lemma ListSplits(mysql: bool, ids: seq<seq<string>>)
    requires ids != []
    ensures SplitTop(Join(Tuples(mysql, ids), ","), ',') == Tuples(mysql, ids)
  {
    forall p | p in Tuples(mysql, ids)
      ensures Sealed(p, ',')
    {
      var i :| 0 <= i < |ids| && p == Tuples(mysql, ids)[i];
      TupleSealed(mysql, ids[i]);
    }
    SplitTopJoin(Tuples(mysql, ids), ',');
  }

  /** Splitting inside a part gives one literal per column. */
  lemma TupleSplits(mysql: bool, key: seq<string>)
    requires key != []
    ensures var t := Tuple(mysql, key);
      |t| >= 2 && SplitTop(t[1..|t| - 1], ',') == Literals(mysql, key)
  {
    forall p | p in Literals(mysql, key)
      ensures Sealed(p, ',')
    {
      var i :| 0 <= i < |key| && p == Literals(mysql, key)[i];
      LiteralSealed(mysql, key[i], ',');
    }
    SplitTopJoin(Literals(mysql, key), ',');
    var t := Tuple(mysql, key);
    assert t[1..|t| - 1] == Join(Literals(mysql, key), ",");
  }

  // ---- reading a list back ----

  /** The value a literal denotes; None if it is no literal. */
  function ReadLiteral(mysql: bool, lit: string): Option<string> {
    if |lit| >= 2 && lit[0] == '\'' && lit[|lit| - 1] == '\'' && SegmentEnd(lit, '\'', 1) == |lit|
    then ReadBody(mysql, lit[1..|lit| - 1]) else None
  }

  function ReadAll(mysql: bool, lits: seq<string>): Option<seq<string>> {
    if lits == [] then Some([])
    else
      match (ReadLiteral(mysql, lits[0]), ReadAll(mysql, lits[1..]))
      case (Some(v), Some(vs)) => Some([v] + vs)
      case _ => None
  }

  function ReadTuple(mysql: bool, t: string): Option<seq<string>> {
    if |t| >= 2 && t[0] == '(' && t[|t| - 1] == ')'
    then ReadAll(mysql, SplitTop(t[1..|t| - 1], ',')) else None
  }

  function ReadTuples(mysql: bool, ts: seq<string>): Option<seq<seq<string>>> {
    if ts == [] then Some([])
    else
      match (ReadTuple(mysql, ts[0]), ReadTuples(mysql, ts[1..]))
      case (Some(v), Some(vs)) => Some([v] + vs)
      case _ => None
  }

  lemma ReadPrinted(mysql: bool, v: string)
    ensures ReadLiteral(mysql, QuoteLiteral(mysql, v)) == Some(v)
  {
    var lit := QuoteLiteral(mysql, v);
    SkipLandsBehindLiteral(mysql, v, "", "");
    assert "" + lit + "" == lit;
    assert lit[1..|lit| - 1] == EscapeValue(mysql, v);
    LiteralReadsBack(mysql, v);
  }

  lemma {:induction false} ReadAllPrinted(mysql: bool, key: seq<string>)
    ensures ReadAll(mysql, Literals(mysql, key)) == Some(key)
  {
    if key != [] {
      ReadPrinted(mysql, key[0]);
      ReadAllPrinted(mysql, key[1..]);
      assert Literals(mysql, key)[1..] == Literals(mysql, key[1..]);
      assert key == [key[0]] + key[1..];
    }
  }

  lemma ReadTuplePrinted(mysql: bool, key: seq<string>)
    requires key != []
    ensures ReadTuple(mysql, Tuple(mysql, key)) == Some(key)
  {
    TupleSplits(mysql, key);
    ReadAllPrinted(mysql, key);
  }

  lemma {:induction false} ReadTuplesPrinted(mysql: bool, ids: seq<seq<string>>)
    requires forall key :: key in ids ==> key != []
    ensures ReadTuples(mysql, Tuples(mysql, ids)) == Some(ids)
  {
    if ids != [] {
      assert ids[0] in ids;
      ReadTuplePrinted(mysql, ids[0]);
      assert forall key :: key in ids[1..] ==> key in ids;
      ReadTuplesPrinted(mysql, ids[1..]);
      assert Tuples(mysql, ids)[1..] == Tuples(mysql, ids[1..]);
      assert ids == [ids[0]] + ids[1..];
    }
  }

  /** Printing an IN list and scanning it give the keys back, for all key values. */
  lemma InListRoundTrip(mysql: bool, ids: seq<seq<string>>)
    requires ids != [] && forall key :: key in ids ==> key != []
    ensures ReadTuples(mysql, SplitTop(Join(Tuples(mysql, ids), ","), ',')) == Some(ids)
  {
    ListSplits(mysql, ids);
    ReadTuplesPrinted(mysql, ids);
  }

  /** So no two key lists print alike: what is deleted and restored is what was meant. */
  lemma InListInjective(mysql: bool, a: seq<seq<string>>, b: seq<seq<string>>)
    requires a != [] && forall key :: key in a ==> key != []
    requires b != [] && forall key :: key in b ==> key != []
    requires Join(Tuples(mysql, a), ",") == Join(Tuples(mysql, b), ",")
    ensures a == b
  {
    InListRoundTrip(mysql, a);
    InListRoundTrip(mysql, b);
  }

  /** The empty list prints as nothing, which the splitter reads as one empty part; the program never prints it. */
  lemma EmptyListIsOnePart(mysql: bool)
    ensures SplitTop(Join(Tuples(mysql, []), ","), ',') == [""]
  {
  }
}
