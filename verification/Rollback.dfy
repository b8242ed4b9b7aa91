/**
 Applying a data package to a database and replaying the collected rollback
 (internal/engine/datapackage.go, create and upsert entries).
 */
module Rollback {
  import opened GoStrings
  import opened DataPackages

  // ---- databases ----

  /** What the database takes for the primary key of a row. */
  type Key = string

  type Table = map<Key, Row>

  type Db = map<string, Table>

  /** Statements, as applied and as collected for rollback. One on a missing table has no effect. */
  datatype Stmt =
    | Drop(table: string)
    | Delete(table: string, keys: seq<Key>)
    | Put(table: string, key: Key, row: Row)

  function Without(t: Table, keys: seq<Key>): Table {
    map k | k in t && k !in keys :: t[k]
  }

  /** The effect of a statement on the table it names. */
  function ExecOn(t: Option<Table>, s: Stmt): Option<Table> {
    if t.None? then None
    else
      match s
      case Drop(_) => None
      case Delete(_, keys) => Some(Without(t.value, keys))
      case Put(_, key, row) => Some(t.value[key := row])
  }

  function At(db: Db, name: string): Option<Table> {
    if name in db then Some(db[name]) else None
  }

  function With(db: Db, name: string, t: Option<Table>): Db {
    if t.Some? then db[name := t.value] else db - {name}
  }

  function Exec(db: Db, s: Stmt): Db {
    With(db, s.table, ExecOn(At(db, s.table), s))
  }

  function ExecAll(db: Db, ss: seq<Stmt>): Db {
    if ss == [] then db else ExecAll(Exec(db, ss[0]), ss[1..])
  }

  // ---- what is not the program's to decide ----

  /**
   `normalize` is the program's value normalisation, `litKey` the key the database reads from a printed tuple of
   literals, `dbKey` the key it gives a row that is written, and `order` the order in which a query returns the
   rows of a set of keys.
   */
  datatype Env = Env(
    normalize: string -> string,
    litKey: (string, seq<string>) -> Key,
    dbKey: (string, Row) -> Key,
    order: set<Key> -> seq<Key>)

  /** A query returns every row it should and no other. */
  ghost predicate Complete(env: Env) {
    forall s: set<Key> :: forall k :: k in env.order(s) <==> k in s
  }

  // ---- keys of the rows in an entry ----

  const NIL := "\0NULL\0"

  /** Normalised key columns, joined by the unit separator. */
  function PkKey(env: Env, row: Row, pk: seq<string>): string {
    if pk == [] then ""
    else
      var c := pk[|pk| - 1];
      var v := if c in row then env.normalize(row[c]) else NIL;
      if |pk| == 1 then v else PkKey(env, row, pk[..|pk| - 1]) + [31 as char] + v
  }

  function PkKeys(env: Env, pk: seq<string>, rows: seq<Row>): set<string> {
    set r | r in rows :: PkKey(env, r, pk)
  }

  lemma PkKeysNext(env: Env, pk: seq<string>, rows: seq<Row>, r: Row, more: seq<Row>)
    requires more == rows + [r]
    ensures PkKeys(env, pk, more) == PkKeys(env, pk, rows) + {PkKey(env, r, pk)}
  {
  }

  /** The first row of each program key. */
  function FirstRows(env: Env, pk: seq<string>, rows: seq<Row>): seq<Row> {
    if rows == [] then []
    else
      var before, r := rows[..|rows| - 1], rows[|rows| - 1];
      FirstRows(env, pk, before) + if PkKey(env, r, pk) in PkKeys(env, pk, before) then [] else [r]
  }

  const PLACEHOLDER := "NULL"

  /** The key values as they are printed; a column that the row does not have is printed as a placeholder. */
  function PkValues(row: Row, pk: seq<string>): seq<string> {
    seq(|pk|, i requires 0 <= i < |pk| => if pk[i] in row then row[pk[i]] else PLACEHOLDER)
  }

  function LitKeys(env: Env, e: Entry, rows: seq<Row>): (ks: seq<Key>)
    ensures |ks| == |rows|
  {
    seq(|rows|, i requires 0 <= i < |rows| => env.litKey(e.table, PkValues(rows[i], e.pk)))
  }

  lemma LitKeysNext(env: Env, e: Entry, rows: seq<Row>, r: Row)
    ensures LitKeys(env, e, rows + [r]) == LitKeys(env, e, rows) + [env.litKey(e.table, PkValues(r, e.pk))]
    ensures LitKeys(env, e, rows + []) == LitKeys(env, e, rows)
  {
    assert rows + [] == rows;
  }

  /** The keys that the IN list stands for: one tuple for the first row per program key. */
  function Ids(env: Env, e: Entry): seq<Key> {
    LitKeys(env, e, FirstRows(env, e.pk, e.data))
  }

  /** One turn of the loop over the rows. */
  lemma IdsNext(env: Env, e: Entry, n: nat)
    requires n < |e.data|
    ensures var k, ids := PkKey(env, e.data[n], e.pk), LitKeys(env, e, FirstRows(env, e.pk, e.data[..n]));
      && PkKeys(env, e.pk, e.data[..n + 1]) == PkKeys(env, e.pk, e.data[..n]) + {k}
      && LitKeys(env, e, FirstRows(env, e.pk, e.data[..n + 1])) ==
           (if k in PkKeys(env, e.pk, e.data[..n]) then ids
            else ids + [env.litKey(e.table, PkValues(e.data[n], e.pk))])
  {
    assert e.data[..n + 1][..n] == e.data[..n];
    PkKeysNext(env, e.pk, e.data[..n], e.data[n], e.data[..n + 1]);
    LitKeysNext(env, e, FirstRows(env, e.pk, e.data[..n]), e.data[n]);
  }

  method CollectIds(env: Env, e: Entry) returns (ids: seq<Key>)
    ensures ids == Ids(env, e)
  {
    var seen: set<string> := {};
    ids := [];
    for n := 0 to |e.data|
      invariant seen == PkKeys(env, e.pk, e.data[..n])
      invariant ids == LitKeys(env, e, FirstRows(env, e.pk, e.data[..n]))
    {
      var row := e.data[n];
      IdsNext(env, e, n);
      var k := PkKey(env, row, e.pk);
      if k in seen {
        continue;
      }
      seen := seen + {k};
      ids := ids + [env.litKey(e.table, PkValues(row, e.pk))];
    }
    assert e.data[..|e.data|] == e.data;
  }

  // ---- applying ----

  function PutRows(env: Env, table: string, t: Table, rows: seq<Row>): Table {
    if rows == [] then t
    else
      var r := rows[|rows| - 1];
      PutRows(env, table, t, rows[..|rows| - 1])[env.dbKey(table, r) := r]
  }

  /** The statements that put back the rows of `t` under the given keys. */
  function PutBack(table: string, t: Table, keys: seq<Key>): seq<Stmt>
    requires forall k :: k in keys ==> k in t
  {
    if keys == [] then []
    else PutBack(table, t, keys[..|keys| - 1]) + [Put(table, keys[|keys| - 1], t[keys[|keys| - 1]])]
  }

  /** Keys of an entry that the table already holds, as the query returns them. */
  function Held(env: Env, t: Table, ids: seq<Key>): seq<Key> {
    env.order(set k | k in ids && k in t)
  }

  ghost predicate HeldInTable(env: Env, t: Table, ids: seq<Key>) {
    forall k :: k in Held(env, t, ids) <==> k in ids && k in t
  }

  lemma HeldIsHeld(env: Env, t: Table, ids: seq<Key>)
    requires Complete(env)
    ensures HeldInTable(env, t, ids)
  {
    var ks := set k | k in ids && k in t;
    assert forall k :: k in env.order(ks) <==> k in ks;
  }

  /** The effect of applying to one table: success, the table afterwards, the rollback collected. */
  datatype Effect = Effect(ok: bool, t: Option<Table>, rollback: seq<Stmt>)

  /** An entry that touches nothing: an unknown type, a table that is there already, no key columns, no rows. */
  predicate Idle(e: Entry, exists_: bool) {
    || (e.typ != CREATE_TABLE && e.typ != UPSERT_DATA)
    || (e.typ == CREATE_TABLE && exists_)
    || (e.typ == UPSERT_DATA && (e.pk == [] || e.data == []))
  }

  function Upserted(env: Env, e: Entry, t: Table): Effect
    requires Complete(env)
  {
    var ids := Ids(env, e);
    HeldIsHeld(env, t, ids);
    Effect(true, Some(PutRows(env, e.table, Without(t, ids), e.data)),
           [Delete(e.table, ids)] + PutBack(e.table, t, Held(env, t, ids)))
  }

  /** An upsert on a missing table fails when the old rows are read; its deletion has been collected by then. */
  function ApplyOn(env: Env, e: Entry, t: Option<Table>): Effect
    requires Complete(env)
  {
    if Idle(e, t.Some?) then Effect(true, t, [])
    else if e.typ == CREATE_TABLE then Effect(true, Some(map[]), [Drop(e.table)])
    else if t.None? then Effect(false, t, [Delete(e.table, Ids(env, e))])
    else Upserted(env, e, t.value)
  }

  datatype Result = Result(ok: bool, db: Db, rollback: seq<Stmt>)

  function ApplyEntry(env: Env, e: Entry, db: Db): Result
    requires Complete(env)
  {
    var f := ApplyOn(env, e, At(db, e.table));
    Result(f.ok, With(db, e.table, f.t), f.rollback)
  }

  /** Entries in order, until one fails. */
  function ApplyAll(env: Env, entries: seq<Entry>, db: Db): Result
    requires Complete(env)
  {
    if entries == [] then Result(true, db, [])
    else
      var r := ApplyEntry(env, entries[0], db);
      if !r.ok then r
      else
        var rest := ApplyAll(env, entries[1..], r.db);
        rest.(rollback := r.rollback + rest.rollback)
  }

  // ---- the program ----

  /** Upsert entries without key columns are skipped and reported. */
  function Skipped(entries: seq<Entry>): seq<string> {
    if entries == [] then []
    else (if entries[0].typ == UPSERT_DATA && entries[0].pk == [] then [entries[0].table] else []) + Skipped(entries[1..])
  }

  lemma {:induction false} NoIdsNoRows(env: Env, e: Entry)
    ensures Ids(env, e) == [] <==> e.data == []
  {
    FirstRowsNonEmpty(env, e.pk, e.data);
  }

  lemma {:induction false} FirstRowsNonEmpty(env: Env, pk: seq<string>, rows: seq<Row>)
    ensures FirstRows(env, pk, rows) == [] <==> rows == []
  {
    if |rows| > 1 {
      FirstRowsNonEmpty(env, pk, rows[..|rows| - 1]);
    }
  }

  class Connection {
    var tables: Db

    method Execute(s: Stmt)
      modifies this
      ensures tables == Exec(old(tables), s)
    {
      tables := Exec(tables, s);
    }

    /** A create entry: a table that is there is neither made again nor marked for dropping. */
    method CreateEntry(env: Env, e: Entry) returns (rollback: seq<Stmt>)
      requires Complete(env) && e.typ == CREATE_TABLE
      modifies this
      ensures Result(true, tables, rollback) == ApplyEntry(env, e, old(tables))
    {
      SameTable(tables, e.table);
      if e.table in tables {
        return [];
      }
      tables := tables[e.table := map[]];
      return [Drop(e.table)];
    }

    /** The old rows under the given keys, as statements that put them back. */
    method ReadOldRows(env: Env, table: string, ids: seq<Key>) returns (stmts: seq<Stmt>)
      requires Complete(env) && table in tables
      ensures HeldInTable(env, tables[table], ids)
      ensures stmts == PutBack(table, tables[table], Held(env, tables[table], ids))
    {
      HeldIsHeld(env, tables[table], ids);
      var held := Held(env, tables[table], ids);
      stmts := [];
      for n := 0 to |held|
        invariant stmts == PutBack(table, tables[table], held[..n])
      {
        assert held[..n + 1][..n] == held[..n];
        stmts := stmts + [Put(table, held[n], tables[table][held[n]])];
      }
      assert held[..|held|] == held;
    }

    method ReplaceRows(env: Env, table: string, rows: seq<Row>)
      requires table in tables
      modifies this
      ensures tables == old(tables)[table := PutRows(env, table, old(tables)[table], rows)]
    {
      for n := 0 to |rows|
        invariant tables == old(tables)[table := PutRows(env, table, old(tables)[table], rows[..n])]
      {
        assert rows[..n + 1][..n] == rows[..n];
        Execute(Put(table, env.dbKey(table, rows[n]), rows[n]));
      }
      assert rows[..|rows|] == rows;
    }

    /** An upsert entry with key columns: old rows are read before they are deleted and the new ones put in. */
    method UpsertEntry(env: Env, e: Entry) returns (ok: bool, rollback: seq<Stmt>)
      requires Complete(env) && e.typ == UPSERT_DATA && e.pk != []
      modifies this
      ensures Result(ok, tables, rollback) == ApplyEntry(env, e, old(tables))
    {
      SameTable(tables, e.table);
      var ids := CollectIds(env, e);
      NoIdsNoRows(env, e);
      if ids == [] {
        return true, [];
      }
      var deleteStmt := Delete(e.table, ids);
      rollback := [deleteStmt];
      if e.table !in tables {
        return false, rollback;
      }
      var old' := ReadOldRows(env, e.table, ids);
      rollback := rollback + old';
      Execute(deleteStmt);
      ReplaceRows(env, e.table, e.data);
      ok := true;
    }

    /** A failure rolls the transaction back; what was collected is returned all the same. */
    method ApplyDataPackage(env: Env, entries: seq<Entry>)
      returns (ok: bool, rollback: seq<Stmt>, skipped: seq<string>)
      requires Complete(env) && forall e :: e in entries ==> e.typ != EXEC_SQL
      modifies this
      ensures var r := ApplyAll(env, entries, old(tables));
        ok == r.ok && rollback == r.rollback && tables == if ok then r.db else old(tables)
      ensures ok ==> skipped == Skipped(entries)
    {
      var before := tables;
      rollback, skipped := [], [];
      for n := 0 to |entries|
        invariant ApplyAll(env, entries, before) == Continue(rollback, ApplyAll(env, entries[n..], tables))
        invariant skipped + Skipped(entries[n..]) == Skipped(entries)
      {
        var e := entries[n];
        ApplyNext(env, entries, n, tables, rollback);
        SkipNext(entries, n, skipped);
        if e.typ == CREATE_TABLE {
          var more := CreateEntry(env, e);
          rollback := rollback + more;
        } else if e.typ == UPSERT_DATA {
          if e.pk == [] {
            skipped := skipped + [e.table];
            continue;
          }
          var applied, more := UpsertEntry(env, e);
          rollback := rollback + more;
          if !applied {
            tables := before;
            return false, rollback, skipped;
          }
        }
      }
      ok := true;
    }
  }

  ghost function Continue(rollback: seq<Stmt>, r: Result): Result {
    r.(rollback := rollback + r.rollback)
  }

  /** One turn of the loop over entries. */
  lemma ApplyNext(env: Env, entries: seq<Entry>, n: nat, db: Db, rollback: seq<Stmt>)
    requires Complete(env) && n < |entries|
    ensures var r := ApplyEntry(env, entries[n], db);
      && Continue(rollback, ApplyAll(env, entries[n..], db)) ==
           (if r.ok then Continue(rollback + r.rollback, ApplyAll(env, entries[n + 1..], r.db))
            else Result(false, r.db, rollback + r.rollback))
      && (Idle(entries[n], entries[n].table in db) ==> r == Result(true, db, []))
      && rollback + [] == rollback
  {
    SameTable(db, entries[n].table);
    assert entries[n..][1..] == entries[n + 1..];
  }

  lemma SkipNext(entries: seq<Entry>, n: nat, skipped: seq<string>)
    requires n < |entries|
    ensures var e := entries[n];
      skipped + Skipped(entries[n..]) ==
      (if e.typ == UPSERT_DATA && e.pk == [] then skipped + [e.table] else skipped) + Skipped(entries[n + 1..])
  {
    assert entries[n..][1..] == entries[n + 1..];
  }

  /** Writing a table back as it is changes nothing. */
  lemma SameTable(db: Db, name: string)
    ensures With(db, name, At(db, name)) == db
  {
  }
}
