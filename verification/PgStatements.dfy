/**
 What the statements that restore a PostgreSQL column do: they are read back from the printed text, split at the
 semicolons outside quotes and brackets, and executed on a column.
 */
module PgStatements {
  import opened GoStrings
  import opened SqlScan
  import opened InList
  import opened PgColumns

  // ---- what a statement does ----

  datatype Change = SetType(typ: string) | SetNotNull | DropNotNull | SetDefault(expr: string) | DropDefault

  /** One change of the column with this name. */
  datatype Alter = Alter(column: string, change: Change)

  function Executed(a: Alter, c: PgColumn): PgColumn {
    if a.column != c.name then c
    else
      match a.change
      case SetType(typ) => c.(typ := typ)
      case SetNotNull => c.(notNull := true)
      case DropNotNull => c.(notNull := false)
      case SetDefault(expr) => c.(default := expr)
      case DropDefault => c.(default := "")
  }

  function ExecutedAll(alters: seq<Alter>, c: PgColumn): PgColumn {
    if alters == [] then c else ExecutedAll(alters[1..], Executed(alters[0], c))
  }

  // ---- reading the text ----

  /** The inner text of a quoted identifier: doubled quotes count once, and others are not allowed. */
  function ReadQuoted(body: string): Option<string> {
    if body == "" then Some("")
    else if body[0] != '"' then Prepend(body[0], ReadQuoted(body[1..]))
    else if |body| >= 2 && body[1] == '"' then Prepend('"', ReadQuoted(body[2..]))
    else None
  }

  /** A quoted identifier at the start of the text, and what follows it. */
  function ReadName(s: string): Option<(string, string)> {
    if s == "" || s[0] != '"' then None
    else
      var end := SegmentEnd(s, '"', 1);
      if end < 2 || s[end - 1] != '"' then None
      else
        match ReadQuoted(s[1..end - 1])
        case Some(name) => Some((name, s[end..]))
        case None => None
  }

  /** What follows the prefix. */
  function Behind(s: string, prefix: string): Option<string> {
    if |prefix| <= |s| && s[..|prefix|] == prefix then Some(s[|prefix|..]) else None
  }

  function ReadChange(s: string): Option<Change> {
    if Behind(s, " TYPE ").Some? then Some(SetType(Behind(s, " TYPE ").value))
    else if s == " SET NOT NULL" then Some(SetNotNull)
    else if s == " DROP NOT NULL" then Some(DropNotNull)
    else if Behind(s, " SET DEFAULT ").Some? then Some(SetDefault(Behind(s, " SET DEFAULT ").value))
    else if s == " DROP DEFAULT" then Some(DropDefault)
    else None
  }

  function ReadAlter(qtTable: string, s: string): Option<Alter> {
    match Behind(s, "ALTER TABLE " + qtTable + " ALTER COLUMN ")
    case None => None
    case Some(rest) =>
      match ReadName(rest)
      case None => None
      case Some((name, clause)) =>
        match ReadChange(clause)
        case None => None
        case Some(change) => Some(Alter(name, change))
  }

  /** The statements between semicolons; blank ones count for nothing. */
  function ReadAlters(qtTable: string, pieces: seq<string>): Option<seq<Alter>> {
    if pieces == [] then Some([])
    else
      var s := TrimSpace(pieces[0]);
      var rest := ReadAlters(qtTable, pieces[1..]);
      if s == "" then rest
      else
        match (ReadAlter(qtTable, s), rest)
        case (Some(a), Some(more)) => Some([a] + more)
        case _ => None
  }

  function ReadScript(qtTable: string, text: string): Option<seq<Alter>> {
    ReadAlters(qtTable, SplitTop(text, ';'))
  }

  // ---- reading back what is printed ----

  lemma {:induction false} QuotedReadsBack(name: string)
    ensures ReadQuoted(DoubleAll(name, '"')) == Some(name)
  {
    if name != "" {
      QuotedReadsBack(name[1..]);
      var first := if name[0] == '"' then ['"', '"'] else [name[0]];
      var rest := DoubleAll(name[1..], '"');
      assert (first + rest)[|first|..] == rest;
      assert name == [name[0]] + name[1..];
    }
  }

  lemma NameReadsBack(name: string, clause: string)
    requires clause != "" && clause[0] == ' '
    ensures ReadName(Quoted('"', name) + clause) == Some((name, clause))
  {
    var q := Quoted('"', name);
    SkipLandsBehindQuoted('"', name, "", clause);
    assert "" + q + clause == q + clause;
    QuotedParts(DoubleAll(name, '"'), clause);
    QuotedReadsBack(name);
  }

  lemma QuotedParts(body: string, clause: string)
    ensures var q := ['"'] + body + ['"'];
      var s := q + clause;
      s[0] == '"' && s[1..|q| - 1] == body && s[|q| - 1] == '"' && s[|q|..] == clause
  {
  }

  lemma IsBehind(prefix: string, rest: string)
    ensures Behind(prefix + rest, prefix) == Some(rest)
  {
  }

  function Prefix(qtTable: string): string {
    "ALTER TABLE " + qtTable + " ALTER COLUMN "
  }

  /** The text of one change. */
  function Clause(change: Change): string {
    match change
    case SetType(typ) => " TYPE " + typ
    case SetNotNull => " SET NOT NULL"
    case DropNotNull => " DROP NOT NULL"
    case SetDefault(expr) => " SET DEFAULT " + expr
    case DropDefault => " DROP DEFAULT"
  }

  function Text(qtTable: string, a: Alter): string {
    Prefix(qtTable) + (Quoted('"', a.column) + Clause(a.change))
  }

  lemma ClauseReadsBack(change: Change)
    ensures Clause(change) != "" && Clause(change)[0] == ' ' && ReadChange(Clause(change)) == Some(change)
  {
    var s := Clause(change);
    match change
    case SetType(typ) =>
      IsBehind(" TYPE ", typ);
    case SetNotNull =>
      NotBehind(s, " TYPE ", 1);
    case DropNotNull =>
      NotBehind(s, " TYPE ", 1);
    case SetDefault(expr) =>
      NotBehind(s, " TYPE ", 1);
      assert s[5] == 'D';
      IsBehind(" SET DEFAULT ", expr);
    case DropDefault =>
      NotBehind(s, " TYPE ", 1);
      NotBehind(s, " SET DEFAULT ", 1);
  }

  lemma NotBehind(s: string, prefix: string, i: nat)
    requires i < |s| && i < |prefix| && s[i] != prefix[i]
    ensures Behind(s, prefix).None?
  {
    if |prefix| <= |s| {
      assert s[..|prefix|][i] == s[i];
    }
  }

  lemma TextReadsBack(qtTable: string, a: Alter)
    ensures ReadAlter(qtTable, Text(qtTable, a)) == Some(a)
  {
    IsBehind(Prefix(qtTable), Quoted('"', a.column) + Clause(a.change));
    ClauseReadsBack(a.change);
    NameReadsBack(a.column, Clause(a.change));
  }

  // ---- the statements that are printed ----

  /** A type or an expression as the database prints it: closed, and with no semicolon outside quotes and brackets. */
  ghost predicate Closed(s: string) {
    s != "" && Trimmed(s) && Sealed(s, ';')
  }

  ghost predicate ClosedChange(change: Change) {
    (change.SetType? ==> Closed(change.typ)) && (change.SetDefault? ==> Closed(change.expr))
  }

  lemma ClauseClosed(change: Change)
    requires ClosedChange(change)
    ensures Sealed(Clause(change), ';') && !IsSpace(Clause(change)[|Clause(change)| - 1])
  {
    match change
    case SetType(typ) =>
      PlainSealed(" TYPE ", ';');
      SealedConcat(" TYPE ", typ, ';');
    case SetNotNull =>
      PlainSealed(" SET NOT NULL", ';');
    case DropNotNull =>
      PlainSealed(" DROP NOT NULL", ';');
    case SetDefault(expr) =>
      PlainSealed(" SET DEFAULT ", ';');
      SealedConcat(" SET DEFAULT ", expr, ';');
    case DropDefault =>
      PlainSealed(" DROP DEFAULT", ';');
  }

  lemma TextClosed(qtTable: string, a: Alter)
    requires Sealed(qtTable, ';') && ClosedChange(a.change)
    ensures Closed(Text(qtTable, a))
  {
    PlainSealed("ALTER TABLE ", ';');
    PlainSealed(" ALTER COLUMN ", ';');
    SealedConcat("ALTER TABLE ", qtTable, ';');
    SealedConcat("ALTER TABLE " + qtTable, " ALTER COLUMN ", ';');
    QuotedSealed('"', a.column, ';');
    ClauseClosed(a.change);
    SealedConcat(Quoted('"', a.column), Clause(a.change), ';');
    SealedConcat(Prefix(qtTable), Quoted('"', a.column) + Clause(a.change), ';');
    TextEnds(Prefix(qtTable), Quoted('"', a.column), Clause(a.change));
  }

  lemma TextEnds(prefix: string, name: string, clause: string)
    requires prefix != "" && !IsSpace(prefix[0]) && clause != "" && !IsSpace(clause[|clause| - 1])
    ensures Trimmed(prefix + (name + clause)) && prefix + (name + clause) != ""
  {
  }

  /** The three changes that restore the column. */
  function Restoring(c: PgColumn): seq<Alter> {
    [Alter(c.name, SetType(c.typ)),
     Alter(c.name, if c.notNull then SetNotNull else DropNotNull),
     Alter(c.name, if c.default != "" then SetDefault(c.default) else DropDefault)]
  }

  /** The printed statements, split at the semicolons. */
  function Pieces3(qtTable: string, r: seq<Alter>): seq<string>
    requires |r| == 3
  {
    [Text(qtTable, r[0]), "\n" + Text(qtTable, r[1]), "\n" + Text(qtTable, r[2]), ""]
  }

  lemma StatementsArePieces(qtTable: string, c: PgColumn)
    ensures RollbackStatements(qtTable, Quoted('"', c.name), c) == Join(Pieces3(qtTable, Restoring(c)), ";")
  {
    var r, qc := Restoring(c), Quoted('"', c.name);
    var a, b, d := Text(qtTable, r[0]), Text(qtTable, r[1]), Text(qtTable, r[2]);
    JoinFour(a, "\n" + b, "\n" + d);
    var alter := "ALTER TABLE " + qtTable + " ALTER COLUMN " + qc;
    TextAs(qtTable, qc, r[0]);
    TextAs(qtTable, qc, r[1]);
    TextAs(qtTable, qc, r[2]);
    Regrouped(alter, Clause(r[0].change), Clause(r[1].change), Clause(r[2].change));
    StatementsAs(qtTable, qc, c);
  }

  lemma TextAs(qtTable: string, qc: string, a: Alter)
    requires qc == Quoted('"', a.column)
    ensures Text(qtTable, a) == ("ALTER TABLE " + qtTable + " ALTER COLUMN " + qc) + Clause(a.change)
  {
    var p, k := "ALTER TABLE " + qtTable + " ALTER COLUMN ", Clause(a.change);
    assert p + (qc + k) == (p + qc) + k;
  }

  lemma StatementsAs(qtTable: string, qc: string, c: PgColumn)
    ensures var alter, r := "ALTER TABLE " + qtTable + " ALTER COLUMN " + qc, Restoring(c);
      RollbackStatements(qtTable, qc, c) ==
        ((alter + Clause(r[0].change)) + ";\n") + ((alter + Clause(r[1].change)) + ";\n")
        + ((alter + Clause(r[2].change)) + ";")
  {
    var alter := "ALTER TABLE " + qtTable + " ALTER COLUMN " + qc;
    SpelledOut(
      alter, c.typ, if c.notNull then " SET NOT NULL" else " DROP NOT NULL",
      if c.default != "" then " SET DEFAULT " + c.default else " DROP DEFAULT");
  }

  lemma SpelledOut(alter: string, typ: string, b: string, d: string)
    ensures alter + " TYPE " + typ + ";\n" + alter + (b + ";\n") + alter + (d + ";") ==
      ((alter + (" TYPE " + typ)) + ";\n") + ((alter + b) + ";\n") + ((alter + d) + ";")
  {
  }

  lemma Regrouped(alter: string, a: string, b: string, d: string)
    ensures ((alter + a) + ";\n") + ((alter + b) + ";\n") + ((alter + d) + ";") ==
      (alter + a) + ";" + ("\n" + (alter + b)) + ";" + ("\n" + (alter + d)) + ";"
  {
  }

  lemma JoinFour(a: string, b: string, d: string)
    ensures Join([a, b, d, ""], ";") == a + ";" + b + ";" + d + ";"
  {
    assert [a, b, d, ""][1..] == [b, d, ""];
    assert [b, d, ""][1..] == [d, ""];
    assert [d, ""][1..] == [""];
    assert Join([""], ";") == "";
    assert Join([d, ""], ";") == d + ";";
    assert Join([b, d, ""], ";") == b + ";" + (d + ";");
  }

  /** The printed statements read back as the three changes. */
  lemma StatementsReadBack(qtTable: string, c: PgColumn)
    requires Sealed(qtTable, ';') && Closed(c.typ) && (c.default != "" ==> Closed(c.default))
    ensures ReadScript(qtTable, RollbackStatements(qtTable, Quoted('"', c.name), c)) == Some(Restoring(c))
  {
    var r := Restoring(c);
    StatementsArePieces(qtTable, c);
    ScriptReads(qtTable, r[0], r[1], r[2]);
  }

  lemma ScriptReads(qtTable: string, x: Alter, y: Alter, z: Alter)
    requires Sealed(qtTable, ';') && ClosedChange(x.change) && ClosedChange(y.change) && ClosedChange(z.change)
    ensures ReadScript(qtTable, Join(Pieces3(qtTable, [x, y, z]), ";")) == Some([x, y, z])
  {
    var a, b, d := Text(qtTable, x), Text(qtTable, y), Text(qtTable, z);
    TextReads(qtTable, x);
    TextReads(qtTable, y);
    TextReads(qtTable, z);
    FourPieces(a, "\n" + b, "\n" + d);
    ThreeRead(qtTable, a, "\n" + b, "\n" + d, x, y, z);
  }

  lemma FourPieces(a: string, b: string, d: string)
    requires Sealed(a, ';') && Sealed(b, ';') && Sealed(d, ';')
    ensures SplitTop(Join([a, b, d, ""], ";"), ';') == [a, b, d, ""]
  {
    PlainSealed("", ';');
    SplitTopJoin([a, b, d, ""], ';');
  }

  lemma TextReads(qtTable: string, a: Alter)
    requires Sealed(qtTable, ';') && ClosedChange(a.change)
    ensures var t := Text(qtTable, a);
      && Sealed(t, ';') && Sealed("\n" + t, ';')
      && Reads(qtTable, t, a) && Reads(qtTable, "\n" + t, a)
  {
    TextClosed(qtTable, a);
    TextReadsBack(qtTable, a);
    NewLine(Text(qtTable, a));
    PlainSealed("\n", ';');
    SealedConcat("\n", Text(qtTable, a), ';');
  }

  predicate Reads(qtTable: string, piece: string, a: Alter) {
    TrimSpace(piece) != "" && ReadAlter(qtTable, TrimSpace(piece)) == Some(a)
  }

  lemma ThreeRead(qtTable: string, a: string, b: string, d: string, x: Alter, y: Alter, z: Alter)
    requires Reads(qtTable, a, x) && Reads(qtTable, b, y) && Reads(qtTable, d, z)
    ensures ReadAlters(qtTable, [a, b, d, ""]) == Some([x, y, z])
  {
    NothingRead(qtTable);
    ReadOne(qtTable, d, [""], z, []);
    assert [d] + [""] == [d, ""] && [z] + [] == [z];
    ReadOne(qtTable, b, [d, ""], y, [z]);
    assert [b] + [d, ""] == [b, d, ""] && [y] + [z] == [y, z];
    ReadOne(qtTable, a, [b, d, ""], x, [y, z]);
    assert [a] + [b, d, ""] == [a, b, d, ""] && [x] + [y, z] == [x, y, z];
  }

  lemma NothingRead(qtTable: string)
    ensures ReadAlters(qtTable, [""]) == Some([])
  {
    assert [""][1..] == [];
  }

  lemma ReadOne(qtTable: string, piece: string, rest: seq<string>, a: Alter, more: seq<Alter>)
    requires Reads(qtTable, piece, a)
    requires ReadAlters(qtTable, rest) == Some(more)
    ensures ReadAlters(qtTable, [piece] + rest) == Some([a] + more)
  {
    assert ([piece] + rest)[1..] == rest;
  }

  lemma NewLine(s: string)
    requires Closed(s)
    ensures TrimSpace(s) == s && TrimSpace("\n" + s) == s
  {
    TrimIsTrimmed(s);
    assert "\n" + s == "\n" + s + "";
    TrimPadding("\n", s, "");
  }

  // ---- the main result ----

  /** The three changes make any column of this name the one they were made from, and leave the others alone. */
  lemma RestoringRestores(c: PgColumn, was: PgColumn)
    ensures ExecutedAll(Restoring(c), was) == if was.name == c.name then c else was
  {
    var r := Restoring(c);
    OneExecuted(r[0], [r[1], r[2]], was);
    OneExecuted(r[1], [r[2]], Executed(r[0], was));
    OneExecuted(r[2], [], Executed(r[1], Executed(r[0], was)));
    assert r == [r[0]] + [r[1], r[2]] && [r[1], r[2]] == [r[1]] + [r[2]] && [r[2]] == [r[2]] + [];
  }

  lemma OneExecuted(a: Alter, rest: seq<Alter>, c: PgColumn)
    ensures ExecutedAll([a] + rest, c) == ExecutedAll(rest, Executed(a, c))
  {
    assert ([a] + rest)[1..] == rest;
  }

  /**
   Printing a column as the database does, building its rollback and executing what is read from it makes any column of
   this name that very column again, and leaves the others alone, where the column is recovered: its name holds no
   quote, the text behind it is not refused, and upper-casing shifts no cut.
   */
  lemma ColumnIsRestored(cs: Casing, qtTable: string, c: PgColumn, was: PgColumn)
    requires Printable(cs, c) && !Contains(c.name, "\"") && !Refused(cs, Rest(c)) && CutsRight(cs, c)
    requires Sealed(qtTable, ';') && Sealed(c.typ, ';') && Sealed(c.default, ';')
    ensures var p := ParsePgColumn(cs, PrintPgColumn(c));
      && p.Built?
      && var alters := ReadScript(qtTable, RollbackStatements(qtTable, Quoted('"', p.c.name), p.c));
         alters.Some? && ExecutedAll(alters.value, was) == if was.name == c.name then c else was
  {
    PgColumnRoundTrip(cs, c);
    StatementsReadBack(qtTable, c);
    RestoringRestores(c, was);
  }
}
