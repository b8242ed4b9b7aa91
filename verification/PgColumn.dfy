/**
 The rollback of a PostgreSQL column change (internal/engine/datapackage.go). The program takes byte indices from the
 upper-cased text and cuts the original text there.
 */
module PgColumns {
  import opened GoStrings
  import opened ByteOffsets
  import opened SqlScan
  import opened ColumnDdl

  datatype PgColumn = PgColumn(name: string, typ: string, notNull: bool, default: string)

  const GENERATED := "GENERATED"
  const IDENTITY := " IDENTITY"
  const DEFAULT_KW := "DEFAULT"
  const NOT_NULL := "NOT NULL"

  /** Sequences behind identity and generated columns cannot be restored, so such columns are refused. */
  predicate Refused(cs: Casing, rest: string) {
    Contains(Upper(cs, rest), GENERATED) || Contains(Upper(cs, rest), IDENTITY)
  }

  /**
   DEFAULT and its expression are cut off first; the expression is kept as it stands. None if the cut is not between
   characters of the text.
   */
  function CutDefault(cs: Casing, rest: string): Option<(string, string)> {
    var up := Upper(cs, rest);
    var idx := KeywordFrom(up, DEFAULT_KW, 0);
    if idx >= 0 then CutOut(rest, Bytes(up[..idx]), |DEFAULT_KW|) else Some((rest, ""))
  }

  function CutNotNull(cs: Casing, front: string): Option<(string, bool)> {
    var up := Upper(cs, front);
    var j := LastIndex(up, NOT_NULL);
    if j >= 0 && IsWordBoundaryAt(up, j, |NOT_NULL|) then
      match Head(front, Bytes(up[..j]))
      case Some(typ) => Some((typ, true))
      case None => None
    else Some((front, false))
  }

  /** The column read, nothing from which an exact rollback can be built, or text that is cut inside a character. */
  datatype Parsed = Built(c: PgColumn) | Nothing | Broken

  /** What the text behind the name says once it has been cut at DEFAULT. */
  function ParseFront(cs: Casing, name: string, cut: Option<(string, string)>): Parsed {
    match cut
    case None => Broken
    case Some((front, default)) =>
      match CutNotNull(cs, front)
      case None => Broken
      case Some((typ, notNull)) =>
        if typ == "" || name == "" then Nothing else Built(PgColumn(name, typ, notNull, default))
  }

  /** What a column fragment says. */
  function ParsePgColumn(cs: Casing, fragment: string): Parsed {
    var (name, tail) := SplitFirstToken(fragment);
    var rest := TrimSpace(tail);
    if Refused(cs, rest) then Nothing else ParseFront(cs, name, CutDefault(cs, rest))
  }

  /** The statements that restore the column; `qc` is the name quoted for the dialect. */
  function RollbackStatements(qtTable: string, qc: string, c: PgColumn): string {
    var alter := "ALTER TABLE " + qtTable + " ALTER COLUMN " + qc;
    alter + " TYPE " + c.typ + ";\n"
    + alter + (if c.notNull then " SET NOT NULL;\n" else " DROP NOT NULL;\n")
    + alter + (if c.default != "" then " SET DEFAULT " + c.default + ";" else " DROP DEFAULT;")
  }

  /** Behind an index that is not between characters, or lies behind the text, the model does not follow the program. */
  method BuildPgColumnRollback(cs: Casing, escapeColumn: string -> string, qtTable: string, fragment: string)
    returns (out: Option<string>)
    ensures out == match ParsePgColumn(cs, fragment)
      case Nothing => Some("")
      case Built(c) => Some(RollbackStatements(qtTable, escapeColumn(c.name), c))
      case Broken => None
  {
    var (colName, rest) := SplitFirstToken(fragment);
    rest := TrimSpace(rest);
    var upper := Upper(cs, rest);
    if Contains(upper, GENERATED) || Contains(upper, IDENTITY) {
      return Some("");
    }
    var notNull := false;
    var defExpr := "";
    UpperAlready(cs, DEFAULT_KW);
    var idx := FindKeyword(cs, rest, DEFAULT_KW);
    if idx >= 0 {
      var cut := CutOut(rest, Bytes(upper[..idx]), |DEFAULT_KW|);
      if cut.None? {
        return None;
      }
      defExpr := cut.value.1;
      rest := cut.value.0;
      upper := Upper(cs, rest);
    }
    idx := LastIndex(upper, NOT_NULL);
    if idx >= 0 && IsWordBoundaryAt(upper, idx, |NOT_NULL|) {
      notNull := true;
      var head := Head(rest, Bytes(upper[..idx]));
      if head.None? {
        return None;
      }
      rest := head.value;
    }
    var typ := rest;
    if typ == "" || colName == "" {
      return Some("");
    }
    var c := PgColumn(colName, typ, notNull, defExpr);
    return Some(RollbackStatements(qtTable, escapeColumn(colName), c));
  }

  // ---- printing a column and parsing it back ----

  function Front(c: PgColumn): string {
    c.typ + if c.notNull then " " + NOT_NULL else ""
  }

  /** The part behind the name, as PostgreSQL prints it. */
  function Rest(c: PgColumn): string {
    Front(c) + if c.default != "" then " " + (DEFAULT_KW + (" " + c.default)) else ""
  }

  /** Quotes in a name are doubled. */
  function PrintPgColumn(c: PgColumn): string {
    ['"'] + DoubleAll(c.name, '"') + ['"'] + (" " + Rest(c))
  }

  /** A column that PostgreSQL can print: its type closes its quotes and does not spell one of the clauses. */
  ghost predicate Printable(cs: Casing, c: PgColumn) {
    var up := Upper(cs, c.typ);
    && c.name != ""
    && c.typ != "" && Trimmed(c.typ) && Run(START, up, 0, |up|).quote == None
    && (forall i :: !KeywordAt(up, DEFAULT_KW, i))
    && (!c.notNull ==> forall j :: MatchAt(up, NOT_NULL, j) ==> !IsWordBoundaryAt(up, j, |NOT_NULL|))
    && Trimmed(c.default)
  }

  lemma RestTrimmed(cs: Casing, c: PgColumn)
    requires Printable(cs, c)
    ensures Rest(c) != "" && Trimmed(Rest(c)) && Trimmed(Front(c))
  {
  }

  /** Text without quotes and brackets leaves the automaton where it is. */
  lemma {:induction false} RunPlain(st: Lex, s: string, k: nat)
    requires k <= |s| && st.quote == None
    requires forall i :: 0 <= i < |s| ==> !IsQuote(s[i]) && s[i] != '(' && s[i] != ')'
    ensures Run(st, s, 0, k) == st
  {
    if k > 0 {
      RunPlain(st, s, k - 1);
    }
  }

  /** A keyword in front of a blank is one whether or not the text goes on. */
  lemma KeywordBeforeBlank(a: string, b: string, kw: string, i: nat)
    requires i < |a| && b != "" && b[0] == ' ' && kw != "" && forall x :: 0 <= x < |kw| ==> kw[x] != ' '
    ensures KeywordAt(a + b, kw, i) <==> KeywordAt(a, kw, i)
  {
    PrefixRunTo(a, b, i);
    MatchInConcat(a, b, kw, i);
    if |a| < i + |kw| <= |a| + |b| {
      SameFromChars(a + b, kw, i, 0);
      assert (a + b)[i + (|a| - i)] == ' ' != kw[|a| - i];
    }
  }

  lemma UpperNotNull(cs: Casing)
    ensures Upper(cs, " " + NOT_NULL) == " " + NOT_NULL
  {
  }

  lemma UpperDefault(cs: Casing, default: string)
    ensures Upper(cs, " " + (DEFAULT_KW + (" " + default))) == " " + (DEFAULT_KW + (" " + Upper(cs, default)))
  {
    UpperConcat(cs, " ", DEFAULT_KW + (" " + default));
    UpperConcat(cs, DEFAULT_KW, " " + default);
    UpperConcat(cs, " ", default);
    assert Upper(cs, DEFAULT_KW) == DEFAULT_KW;
    assert Upper(cs, " ") == " ";
  }

  /** The part before DEFAULT closes its quotes and holds no DEFAULT of its own. */
  lemma FrontIsClean(cs: Casing, c: PgColumn)
    requires Printable(cs, c)
    ensures Run(START, Upper(cs, Front(c)), 0, |Front(c)|).quote == None
    ensures forall i :: !KeywordAt(Upper(cs, Front(c)), DEFAULT_KW, i)
  {
    var up, b := Upper(cs, c.typ), " " + NOT_NULL;
    if c.notNull {
      UpperConcat(cs, c.typ, b);
      UpperNotNull(cs);
      SuffixRun(up, b, |b|);
      RunPlain(Run(START, up, 0, |up|), b, |b|);
      forall i: nat
        ensures !KeywordAt(up + b, DEFAULT_KW, i)
      {
        if i < |up| {
          KeywordBeforeBlank(up, b, DEFAULT_KW, i);
        } else if i < |up + b| {
          assert (up + b)[i + 0] == b[i - |up|] != DEFAULT_KW[0];
        }
      }
    } else {
      assert Front(c) == c.typ;
    }
  }

  /** DEFAULT is found where it was printed, whatever the default itself holds. */
  lemma FindsDefault(cs: Casing, c: PgColumn)
    requires Printable(cs, c)
    ensures KeywordFrom(Upper(cs, Rest(c)), DEFAULT_KW, 0) == if c.default == "" then -1 else |Front(c)| + 1
  {
    var a := Upper(cs, Front(c));
    FrontIsClean(cs, c);
    if c.default == "" {
      assert Rest(c) == Front(c);
      KeywordSkips(a, DEFAULT_KW, 0, |a|);
    } else {
      var b := " " + (DEFAULT_KW + (" " + Upper(cs, c.default)));
      UpperConcat(cs, Front(c), " " + (DEFAULT_KW + (" " + c.default)));
      UpperDefault(cs, c.default);
      forall i | 0 <= i < |a| + 1
        ensures !KeywordAt(a + b, DEFAULT_KW, i)
      {
        if i < |a| {
          KeywordBeforeBlank(a, b, DEFAULT_KW, i);
        } else {
          assert (a + b)[i + 0] == ' ' != DEFAULT_KW[0];
        }
      }
      KeywordSkips(a + b, DEFAULT_KW, 0, |a| + 1);
      DefaultStands(a, Upper(cs, c.default));
    }
  }

  lemma DefaultStands(a: string, d: string)
    requires Run(START, a, 0, |a|).quote == None
    ensures KeywordAt(a + (" " + (DEFAULT_KW + (" " + d))), DEFAULT_KW, |a| + 1)
  {
    DefaultUnquoted(a, " " + (DEFAULT_KW + (" " + d)));
    DefaultMatches(a, d);
    AroundDefault(a, d);
  }

  lemma DefaultUnquoted(a: string, b: string)
    requires Run(START, a, 0, |a|).quote == None && b != "" && b[0] == ' '
    ensures Run(START, a + b, 0, |a| + 1).quote == None
  {
    SuffixRun(a, b, 1);
    assert Run(Run(START, a, 0, |a|), b, 0, 1) == Step(Run(Run(START, a, 0, |a|), b, 0, 0), ' ');
  }

  lemma DefaultMatches(a: string, d: string)
    ensures MatchAt(a + (" " + (DEFAULT_KW + (" " + d))), DEFAULT_KW, |a| + 1)
  {
    MatchInConcat(a, " " + (DEFAULT_KW + (" " + d)), DEFAULT_KW, |a| + 1);
    PieceInText(" ", DEFAULT_KW, " " + d);
  }

  lemma AroundDefault(a: string, d: string)
    ensures var s := a + (" " + (DEFAULT_KW + (" " + d)));
      s[|a|] == ' ' && s[|a| + 1] == 'D' && s[|a| + 8] == ' '
  {
  }

  // ---- where the cuts fall ----

  /** How many bytes longer the type is in upper case. */
  function Shift(cs: Casing, c: PgColumn): int {
    Bytes(Upper(cs, c.typ)) - Bytes(c.typ)
  }

  const AROUND_DEFAULT := " DEFAULT "

  lemma RestParts(c: PgColumn)
    requires c.default != ""
    ensures Rest(c) == Front(c) + (AROUND_DEFAULT + c.default)
    ensures IsAscii(AROUND_DEFAULT) && |AROUND_DEFAULT| == 9
  {
  }

  lemma FrontShift(cs: Casing, c: PgColumn)
    ensures Bytes(Upper(cs, Front(c))) == Bytes(Front(c)) + Shift(cs, c)
  {
    if c.notNull {
      var t := " " + NOT_NULL;
      UpperConcat(cs, c.typ, t);
      UpperNotNull(cs);
      BytesConcat(Upper(cs, c.typ), t);
      BytesConcat(c.typ, t);
    } else {
      assert Front(c) == c.typ;
    }
  }

  /** The offset at which the program cuts in front of DEFAULT. */
  lemma DefaultOffset(cs: Casing, c: PgColumn)
    requires Printable(cs, c) && c.default != ""
    ensures var up := Upper(cs, Rest(c));
      && KeywordFrom(up, DEFAULT_KW, 0) == |Front(c)| + 1
      && Bytes(up[..|Front(c)| + 1]) == Bytes(Front(c)) + 1 + Shift(cs, c)
  {
    FindsDefault(cs, c);
    FrontShift(cs, c);
    UpperRest(cs, c);
    AroundBlank(Upper(cs, Front(c)), DEFAULT_KW + (" " + Upper(cs, c.default)));
  }

  lemma UpperRest(cs: Casing, c: PgColumn)
    requires c.default != ""
    ensures Upper(cs, Rest(c)) == Upper(cs, Front(c)) + (" " + (DEFAULT_KW + (" " + Upper(cs, c.default))))
  {
    UpperConcat(cs, Front(c), " " + (DEFAULT_KW + (" " + c.default)));
    UpperDefault(cs, c.default);
  }

  lemma CutDefaultIs(cs: Casing, rest: string, i: nat)
    requires KeywordFrom(Upper(cs, rest), DEFAULT_KW, 0) == i
    ensures CutDefault(cs, rest) == CutOut(rest, Bytes(Upper(cs, rest)[..i]), 7)
  {
  }

  lemma NoDefault(cs: Casing, c: PgColumn)
    requires Printable(cs, c) && c.default == ""
    ensures CutDefault(cs, Rest(c)) == Some((Front(c), ""))
  {
    FindsDefault(cs, c);
    assert Rest(c) == Front(c);
  }

  /** The offset at which the program cuts in front of NOT NULL, which it finds whether or not a letter follows. */
  lemma NotNullOffset(cs: Casing, c: PgColumn, tail: string)
    requires Printable(cs, c) && c.notNull && (tail == "" || tail == " D")
    ensures var up := Upper(cs, Front(c) + tail);
      && LastIndex(up, NOT_NULL) == |c.typ| + 1 && IsWordBoundaryAt(up, |c.typ| + 1, |NOT_NULL|)
      && Bytes(up[..|c.typ| + 1]) == Bytes(c.typ) + 1 + Shift(cs, c)
  {
    UpperFront(cs, c, tail);
    LastNotNull(Upper(cs, c.typ), tail);
    AroundBlank(Upper(cs, c.typ), NOT_NULL + tail);
  }

  lemma UpperFront(cs: Casing, c: PgColumn, tail: string)
    requires c.notNull && (tail == "" || tail == " D")
    ensures Upper(cs, Front(c) + tail) == Upper(cs, c.typ) + (" " + (NOT_NULL + tail))
  {
    var t := " " + (NOT_NULL + tail);
    assert Front(c) + tail == c.typ + t;
    UpperConcat(cs, c.typ, t);
    UpperAlready(cs, t);
  }

  lemma LastNotNull(a: string, tail: string)
    requires tail == "" || tail == " D"
    ensures var up := a + (" " + (NOT_NULL + tail));
      LastIndex(up, NOT_NULL) == |a| + 1 && IsWordBoundaryAt(up, |a| + 1, |NOT_NULL|)
  {
    var up := a + (" " + (NOT_NULL + tail));
    LastIndexIsLast(up, NOT_NULL);
    PieceInText(a + " ", NOT_NULL, tail);
    assert a + " " + NOT_NULL + tail == up;
    assert up[|a| + 2] == 'O' && up[|a| + 3] == 'T';
  }

  /** With NOT NULL, the type is cut off right exactly if the cut is on either side of the blank in front of it. */
  lemma CutNotNullAt(cs: Casing, c: PgColumn, tail: string)
    requires Printable(cs, c) && c.notNull && (tail == "" || tail == " D")
    ensures CutNotNull(cs, Front(c) + tail) == Some((c.typ, true)) <==> Shift(cs, c) == 0 || Shift(cs, c) == -1
  {
    NotNullOffset(cs, c, tail);
    assert Front(c) + tail == c.typ + (" " + (['N'] + ("OT NULL" + tail)));
    HeadExactlyWhen(c.typ, 'N', "OT NULL" + tail, Bytes(c.typ) + 1 + Shift(cs, c));
  }

  lemma NoNotNull(cs: Casing, c: PgColumn)
    requires Printable(cs, c) && !c.notNull
    ensures CutNotNull(cs, Front(c)) == Some((c.typ, false))
    ensures CutNotNull(cs, Front(c) + " D") != Some((c.typ, false))
  {
    assert Front(c) == c.typ;
    LastIndexIsLast(Upper(cs, c.typ), NOT_NULL);
  }

  /** Both cuts give the printed column back. */
  predicate CutsRight(cs: Casing, c: PgColumn) {
    Shift(cs, c) == 0 || (c.default == "" && (!c.notNull || Shift(cs, c) == -1))
  }

  lemma PlainChars(s: string, c: char)
    requires !Contains(s, [c])
    ensures forall i :: 0 <= i < |s| ==> s[i] != c
  {
    IndexIsFirst(s, [c]);
    forall i | 0 <= i < |s|
      ensures s[i] != c
    {
      SameFromChars(s, [c], i, 0);
      assert MatchAt(s, [c], i) <==> s[i + 0] == c;
    }
  }

  lemma ReadsRest(cs: Casing, c: PgColumn)
    requires Printable(cs, c) && !Contains(c.name, "\"")
    ensures SplitFirstToken(PrintPgColumn(c)) == (c.name, Rest(c)) && TrimSpace(Rest(c)) == Rest(c)
  {
    RestTrimmed(cs, c);
    PlainChars(c.name, '"');
    DoubleNothing(c.name, '"');
    SplitQuotedName('"', c.name, Rest(c));
    TrimIsTrimmed(Rest(c));
  }

  /** What cutting at DEFAULT yields. */
  ghost predicate Cut(cs: Casing, c: PgColumn, cut: Option<(string, string)>) {
    if c.default == "" then cut == Some((Front(c), ""))
    else WordCut(Front(c), AROUND_DEFAULT, c.default, Shift(cs, c), cut)
  }

  lemma DefaultIsWord()
    ensures IsWordBetween(AROUND_DEFAULT) && |AROUND_DEFAULT| == 9
    ensures AROUND_DEFAULT[..2] == " D" && AROUND_DEFAULT[7..] == "T "
  {
  }

  lemma CutsDefault(cs: Casing, c: PgColumn)
    requires Printable(cs, c)
    ensures Cut(cs, c, CutDefault(cs, Rest(c)))
  {
    if c.default == "" {
      NoDefault(cs, c);
    } else {
      var i := |Front(c)| + 1;
      RestTrimmed(cs, c);
      RestParts(c);
      DefaultOffset(cs, c);
      CutsWord(cs, c, Rest(c), i);
    }
  }

  lemma CutsWord(cs: Casing, c: PgColumn, rest: string, i: nat)
    requires rest == Front(c) + (AROUND_DEFAULT + c.default)
    requires Front(c) != "" && Trimmed(Front(c)) && c.default != "" && Trimmed(c.default)
    requires KeywordFrom(Upper(cs, rest), DEFAULT_KW, 0) == i
    requires Bytes(Upper(cs, rest)[..i]) == Bytes(Front(c)) + 1 + Shift(cs, c)
    ensures Cut(cs, c, CutDefault(cs, rest))
  {
    DefaultIsWord();
    CutDefaultIs(cs, rest, i);
    WordCutOut(rest, Front(c), AROUND_DEFAULT, c.default, Bytes(Upper(cs, rest)[..i]));
  }

  lemma FrontRoundTrip(cs: Casing, c: PgColumn, cut: Option<(string, string)>)
    requires Printable(cs, c) && Cut(cs, c, cut)
    ensures ParseFront(cs, c.name, cut) == Built(c) <==> CutsRight(cs, c)
  {
    DefaultIsWord();
    CutsNotNull(cs, c);
  }

  /** How the front is read, as it was printed and with a letter of DEFAULT left over. */
  lemma CutsNotNull(cs: Casing, c: PgColumn)
    requires Printable(cs, c)
    ensures CutNotNull(cs, Front(c)) == Some((c.typ, c.notNull)) <==>
      !c.notNull || Shift(cs, c) == 0 || Shift(cs, c) == -1
    ensures Shift(cs, c) == 1 ==> CutNotNull(cs, Front(c) + " D") != Some((c.typ, c.notNull))
  {
    if c.notNull {
      assert Front(c) + "" == Front(c);
      CutNotNullAt(cs, c, "");
      CutNotNullAt(cs, c, " D");
    } else {
      NoNotNull(cs, c);
    }
  }

  /** A name without quotes comes back, and the column with it exactly if the cuts are right. */
  lemma PlainNameRoundTrip(cs: Casing, c: PgColumn)
    requires Printable(cs, c) && !Contains(c.name, "\"")
    ensures Refused(cs, Rest(c)) ==> ParsePgColumn(cs, PrintPgColumn(c)) == Nothing
    ensures !Refused(cs, Rest(c)) ==> (ParsePgColumn(cs, PrintPgColumn(c)) == Built(c) <==> CutsRight(cs, c))
  {
    ReadsRest(cs, c);
    CutsDefault(cs, c);
    FrontRoundTrip(cs, c, CutDefault(cs, Rest(c)));
  }

  /** A name with a quote is cut off in front of it. */
  lemma QuotedNameIsCut(cs: Casing, c: PgColumn)
    requires Printable(cs, c) && Contains(c.name, "\"")
    ensures SplitFirstToken(PrintPgColumn(c)).0 == c.name[..Index(c.name, "\"")]
  {
    var i := Index(c.name, "\"");
    var a, b := c.name[..i], c.name[i + 1..];
    CutAtFirst(c.name, '"');
    assert !Contains(a, ['"']);
    PlainChars(a, '"');
    DoubleNothing(a, '"');
    DoubleConcat(a, ['"'] + b, '"');
    RestTrimmed(cs, c);
    var rest := ['"'] + DoubleAll(b, '"') + ['"'] + (" " + Rest(c));
    AroundQuote(a, DoubleAll(b, '"'), Rest(c));
    assert (['"'] + b)[1..] == b;
    assert rest[|rest| - 1] == Rest(c)[|Rest(c)| - 1];
    SplitAtQuote('"', a, rest);
  }

  lemma AroundQuote(a: string, d: string, rest: string)
    ensures ['"'] + (a + (['"', '"'] + d)) + ['"'] + (" " + rest) ==
      ['"'] + (a + (['"'] + (['"'] + d + ['"'] + (" " + rest))))
  {
  }

  lemma CutAtFirst(s: string, c: char)
    requires Contains(s, [c])
    ensures var i := Index(s, [c]);
      s[i] == c && s == s[..i] + ([c] + s[i + 1..]) && !Contains(s[..i], [c])
  {
    var i := Index(s, [c]);
    IndexIsFirst(s, [c]);
    SameFromChars(s, [c], i, 0);
    IndexIsFirst(s[..i], [c]);
    assert s == s[..i] + s[i..];
    MatchInConcat(s[..i], s[i..], [c], Index(s[..i], [c]));
  }

  /**
   A printed column is recovered exactly, name, type, nullability and default, even when the default holds quotes,
   brackets or the keywords themselves, if and only if its name holds no quote, the text behind the name does not
   spell GENERATED or IDENTITY, be it in the default, and the upper case of the type is as long as the type; without a
   default that is asked only for NOT NULL, and one byte less does no harm. A text that is refused yields nothing; a
   name with a quote yields nothing or, wrongly, the statements for the column named by its part in front of the quote.
   */
  lemma PgColumnRoundTrip(cs: Casing, c: PgColumn)
    requires Printable(cs, c)
    ensures ParsePgColumn(cs, PrintPgColumn(c)) == Built(c) <==>
      !Contains(c.name, "\"") && !Refused(cs, Rest(c)) && CutsRight(cs, c)
    ensures !Contains(c.name, "\"") && Refused(cs, Rest(c)) ==> ParsePgColumn(cs, PrintPgColumn(c)) == Nothing
    ensures Contains(c.name, "\"") ==>
      var p := ParsePgColumn(cs, PrintPgColumn(c)); p.Built? ==> p.c.name == c.name[..Index(c.name, "\"")]
  {
    if Contains(c.name, "\"") {
      QuotedNameIsCut(cs, c);
    } else {
      PlainNameRoundTrip(cs, c);
    }
  }

  /** Nothing is built without a name or a type. */
  lemma NothingWithoutType(cs: Casing, fragment: string, name: string, default: string)
    ensures var p := ParsePgColumn(cs, fragment); p.Built? ==> |p.c.name| > 0 && |p.c.typ| > 0
    ensures ParseFront(cs, name, Some(("NOT NULL", default))) == Nothing
    ensures ParseFront(cs, name, Some(("", default))) == Nothing
  {
    NotNullAlone(cs);
    LastIndexIsLast("", NOT_NULL);
  }

  lemma NotNullAlone(cs: Casing)
    ensures CutNotNull(cs, "NOT NULL") == Some(("", true))
  {
    UpperAlready(cs, "NOT NULL");
    LastIndexIsLast("NOT NULL", NOT_NULL);
    MatchIsSlice("NOT NULL", NOT_NULL, 0);
    HeadOfNothing("NOT NULL");
  }

  lemma HeadOfNothing(s: string)
    ensures s[..0] == "" && Bytes("") == 0 && Head(s, 0) == Some("")
  {
    HeadAt(s, 0);
  }

  /** How a column is printed. */
  lemma PrintedForm(c: PgColumn)
    ensures PrintPgColumn(c) == "\"" + DoubleAll(c.name, '"') + "\" " + (c.typ
      + (if c.notNull then " NOT NULL" else "") + (if c.default != "" then " DEFAULT " + c.default else ""))
  {
    assert " " + (DEFAULT_KW + (" " + c.default)) == " DEFAULT " + c.default;
    assert "\"" + DoubleAll(c.name, '"') + "\" " == ['"'] + DoubleAll(c.name, '"') + ['"'] + " ";
  }

  /** Which texts are refused. */
  lemma RefusedExactlyWhen(cs: Casing, rest: string)
    ensures var up := Upper(cs, rest);
      Refused(cs, rest) <==> exists x, y :: up == x + "GENERATED" + y || up == x + " IDENTITY" + y
  {
    var up := Upper(cs, rest);
    forall x, y
      ensures up == x + "GENERATED" + y ==> Contains(up, GENERATED)
      ensures up == x + " IDENTITY" + y ==> Contains(up, IDENTITY)
    {
      HoldsPart(up, x, GENERATED, y);
      HoldsPart(up, x, IDENTITY, y);
    }
    PartHeld(up, GENERATED);
    PartHeld(up, IDENTITY);
  }

  lemma HoldsPart(s: string, x: string, t: string, y: string)
    ensures s == x + t + y ==> Contains(s, t)
  {
    PieceInText(x, t, y);
    IndexIsFirst(s, t);
  }

  lemma PartHeld(s: string, t: string)
    ensures Contains(s, t) ==> exists x, y :: s == x + t + y
  {
    var i := Index(s, t);
    IndexIsFirst(s, t);
    if i >= 0 {
      MatchIsSlice(s, t, i);
      assert s == s[..i] + t + s[i + |t|..];
    }
  }

  /** The column `a"b` is taken for a column `a`. */
  lemma QuoteNamesAnotherColumn(cs: Casing)
    ensures ParsePgColumn(cs, PrintPgColumn(PgColumn("a\"b", "int", false, ""))) ==
      Built(PgColumn("a", "\"b\" int", false, ""))
  {
    var c, rest := PgColumn("a\"b", "int", false, ""), "\"b\" int";
    PrintedWithQuote(c);
    IndexIsFirst("a", ['"']);
    SplitAtQuote('"', "a", rest);
    TrimIsTrimmed(rest);
    NothingToCut(cs, rest);
  }

  lemma PrintedWithQuote(c: PgColumn)
    requires c == PgColumn("a\"b", "int", false, "")
    ensures PrintPgColumn(c) == ['"'] + ("a" + (['"'] + "\"b\" int"))
  {
    DoubleNothing("b", '"');
    assert "a\"b"[1..] == "\"b" && "\"b"[1..] == "b";
    assert DoubleAll("\"b", '"') == "\"\"b";
    assert DoubleAll("a\"b", '"') == "a\"\"b";
  }

  lemma NothingToCut(cs: Casing, rest: string)
    requires rest == "\"b\" int"
    ensures !Refused(cs, rest)
    ensures CutDefault(cs, rest) == Some((rest, "")) && CutNotNull(cs, rest) == Some((rest, false))
  {
    var up := Upper(cs, rest);
    assert up == "\"B\" INT";
    IndexIsFirst(up, GENERATED);
    IndexIsFirst(up, IDENTITY);
    LastIndexIsLast(up, NOT_NULL);
    forall i | 0 <= i < |up|
      ensures !KeywordAt(up, DEFAULT_KW, i)
    {
      if i == 0 {
        assert IsQuote(up[0]);
      }
    }
    KeywordSkips(up, DEFAULT_KW, 0, |up|);
  }

  /** A type that is one byte shorter in upper case leaves a letter of the keyword in the default. */
  lemma ShorterTypeIsMiscut(cs: Casing, c: PgColumn)
    requires Printable(cs, c) && !Contains(c.name, "\"") && !Refused(cs, Rest(c))
    requires c.default != "" && Shift(cs, c) == -1
    ensures ParsePgColumn(cs, PrintPgColumn(c)) == Built(c.(default := "T " + c.default))
  {
    ReadsRest(cs, c);
    CutsDefault(cs, c);
    DefaultIsWord();
    CutsNotNull(cs, c);
  }

  /** For example a type whose name is a dotless i, with the default 1. */
  lemma DotlessTypeIsMiscut(cs: Casing, c: PgColumn)
    requires cs('\U{131}') == 'I' && c == PgColumn("a", "\U{131}", false, "1")
    ensures ParsePgColumn(cs, PrintPgColumn(c)) == Built(c.(default := "T 1"))
  {
    DotlessPrintable(cs, c);
    DotlessIsNotRefused(cs, c);
    IndexIsFirst("a", "\"");
    DotlessShift(cs, c);
    ShorterTypeIsMiscut(cs, c);
    assert "T " + "1" == "T 1";
  }

  lemma DotlessShift(cs: Casing, c: PgColumn)
    requires cs('\U{131}') == 'I' && c.typ == "\U{131}"
    ensures Upper(cs, c.typ) == "I" && Shift(cs, c) == -1
  {
    assert Upper(cs, c.typ) == "I";
    assert Bytes("") == 0;
  }

  lemma DotlessPrintable(cs: Casing, c: PgColumn)
    requires cs('\U{131}') == 'I' && c == PgColumn("a", "\U{131}", false, "1")
    ensures Printable(cs, c)
  {
    assert Upper(cs, c.typ) == "I";
    RunPlain(START, "I", 1);
  }

  lemma DotlessIsNotRefused(cs: Casing, c: PgColumn)
    requires cs('\U{131}') == 'I' && c == PgColumn("a", "\U{131}", false, "1")
    ensures !Refused(cs, Rest(c))
  {
    var rest := "\U{131} DEFAULT 1";
    assert Rest(c) == rest;
    var up := Upper(cs, rest);
    assert up == "I DEFAULT 1";
    IndexIsFirst(up, GENERATED);
    IndexIsFirst(up, IDENTITY);
    forall k
      ensures !MatchAt(up, GENERATED, k) && !MatchAt(up, IDENTITY, k)
    {
      if 0 <= k && k + |IDENTITY| <= |up| {
        SameFromChars(up, IDENTITY, k, 0);
        assert up[k + 0] == ' ' ==> up[k + 1] != 'I';
      }
      if 0 <= k && k + |GENERATED| <= |up| {
        SameFromChars(up, GENERATED, k, 0);
        assert up[k + 0] != 'G';
      }
    }
  }
}
