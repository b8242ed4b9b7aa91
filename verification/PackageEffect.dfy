/**
 What applying a data package leaves in the database, read off the entries and their rows: which tables there are,
 and what stands under every key of each.
 */
module PackageEffect {
  import opened GoStrings
  import opened DataPackages
  import opened Rollback
  import opened RollbackTheorem
  import RowDiff
  import InList
  import SqlScan

  // ---- what an entry does to a key; type 0 creates a table, type 1 puts rows in ----

  /** An upsert with key columns is not skipped. */
  predicate Replaces(e: Entry, name: string) {
    e.typ == 1 && e.pk != [] && e.table == name
  }

  /** Row `j` of the entry goes under the key. */
  predicate Writes(env: Env, e: Entry, name: string, j: nat, k: Key) {
    Replaces(e, name) && j < |e.data| && env.dbKey(name, e.data[j]) == k
  }

  ghost predicate WritesSome(env: Env, e: Entry, name: string, k: Key) {
    exists j: nat :: Writes(env, e, name, j, k)
  }

  /** No row before row `j` has its program key. */
  predicate IsFirst(env: Env, e: Entry, j: nat)
    requires j < |e.data|
  {
    forall i :: 0 <= i < j ==> PkKey(env, e.data[i], e.pk) != PkKey(env, e.data[j], e.pk)
  }

  /** The IN list of the entry has a tuple that reads as the key: that of a row which is first with its program key. */
  ghost predicate Deletes(env: Env, e: Entry, name: string, k: Key) {
    Replaces(e, name) && exists j: nat :: DeletesFor(env, e, j, k)
  }

  predicate DeletesFor(env: Env, e: Entry, j: nat, k: Key) {
    j < |e.data| && IsFirst(env, e, j) && env.litKey(e.table, PkValues(e.data[j], e.pk)) == k
  }

  /** An upsert with rows, which needs its table. */
  predicate Needs(e: Entry, name: string) {
    Replaces(e, name) && e.data != []
  }

  predicate Creates(e: Entry, name: string) {
    e.typ == 0 && e.table == name
  }

  // ---- the IN list ----

  lemma {:induction false} ProgramKeys(env: Env, e: Entry, n: nat, j: nat)
    requires n <= |e.data| && j < |e.data|
    ensures PkKey(env, e.data[j], e.pk) in PkKeys(env, e.pk, e.data[..n]) <==>
      exists i :: 0 <= i < n && PkKey(env, e.data[i], e.pk) == PkKey(env, e.data[j], e.pk)
  {
    var rows, key := e.data[..n], PkKey(env, e.data[j], e.pk);
    if key in PkKeys(env, e.pk, rows) {
      var r :| r in rows && PkKey(env, r, e.pk) == key;
      var i :| 0 <= i < n && rows[i] == r;
    }
    forall i | 0 <= i < n && PkKey(env, e.data[i], e.pk) == key
      ensures key in PkKeys(env, e.pk, rows)
    {
      assert rows[i] in rows;
    }
  }

  lemma FirstExactlyWhen(env: Env, e: Entry, n: nat)
    requires n < |e.data|
    ensures IsFirst(env, e, n) <==> PkKey(env, e.data[n], e.pk) !in PkKeys(env, e.pk, e.data[..n])
  {
    ProgramKeys(env, e, n, n);
  }

  /** The tuples of the first `n` rows are those of the rows that are first with their key. */
  lemma {:induction false} TuplesUpTo(env: Env, e: Entry, n: nat, k: Key)
    requires n <= |e.data|
    ensures k in LitKeys(env, e, FirstRows(env, e.pk, e.data[..n])) <==>
      exists j: nat :: j < n && DeletesFor(env, e, j, k)
  {
    if n > 0 {
      TuplesUpTo(env, e, n - 1, k);
      OneRowMore(env, e, n - 1, k);
    } else {
      assert e.data[..0] == [];
    }
  }

  lemma OneRowMore(env: Env, e: Entry, n: nat, k: Key)
    requires n < |e.data|
    ensures k in LitKeys(env, e, FirstRows(env, e.pk, e.data[..n + 1])) <==>
      k in LitKeys(env, e, FirstRows(env, e.pk, e.data[..n])) || DeletesFor(env, e, n, k)
  {
    IdsNext(env, e, n);
    FirstExactlyWhen(env, e, n);
  }

  /** The IN list holds exactly the keys that the entry deletes. */
  lemma IdsAreDeleted(env: Env, e: Entry, k: Key)
    requires Replaces(e, e.table)
    ensures k in Ids(env, e) <==> Deletes(env, e, e.table, k)
  {
    TuplesUpTo(env, e, |e.data|, k);
    assert e.data[..|e.data|] == e.data;
  }

  /** The printed IN list reads as the rows' own key values, with the word NULL for a column that a row lacks. */
  lemma PrintedKeysReadBack(mysql: bool, pk: seq<string>, rows: seq<Row>)
    requires rows != [] && pk != []
    ensures var ids := seq(|rows|, i requires 0 <= i < |rows| => PkValues(rows[i], pk));
      var list := SqlScan.Join(InList.Tuples(mysql, ids), ",");
      var read := InList.ReadTuples(mysql, SqlScan.SplitTop(list, ','));
      && read.Some? && |read.value| == |rows|
      && forall i, c :: 0 <= i < |rows| && 0 <= c < |pk| ==>
        |read.value[i]| == |pk| && read.value[i][c] == if pk[c] in rows[i] then rows[i][pk[c]] else "NULL"
  {
    var ids := seq(|rows|, i requires 0 <= i < |rows| => PkValues(rows[i], pk));
    assert forall key :: key in ids ==> key != [];
    InList.InListRoundTrip(mysql, ids);
  }

  /** The program key of a row is the row key of the comparison, so that what tells rows apart there does so here. */
  lemma {:induction false} PkKeyIsRowKey(env: Env, row: Row, pk: seq<string>)
    ensures PkKey(env, row, pk) ==
      RowDiff.KeyOf((v: Option<string>) => if v.Some? then env.normalize(v.value) else "\0NULL\0", false, row, pk)
  {
    var norm := (v: Option<string>) => if v.Some? then env.normalize(v.value) else "\0NULL\0";
    if |pk| == 1 {
      assert pk[1..] == [] && RowDiff.Values(norm, row, pk)[1..] == [];
    } else if pk != [] {
      PkKeyIsRowKey(env, row, pk[..|pk| - 1]);
      KeySnoc(RowDiff.Values(norm, row, pk), pk);
      ValuesSnoc(norm, row, pk);
    }
  }

  lemma {:induction false} ValuesSnoc(norm: RowDiff.Normalizer<string>, row: Row, pk: seq<string>)
    requires pk != []
    ensures RowDiff.Values(norm, row, pk) ==
      RowDiff.Values(norm, row, pk[..|pk| - 1]) + [RowDiff.ValueAt(norm, row, pk[|pk| - 1])]
  {
    if |pk| > 1 {
      ValuesSnoc(norm, row, pk[1..]);
      assert pk[1..][..|pk| - 2] == pk[..|pk| - 1][1..];
    }
  }

  lemma {:induction false} KeySnoc(values: seq<string>, pk: seq<string>)
    requires |values| == |pk| > 1
    ensures RowDiff.Key(false, pk, values) ==
      RowDiff.Key(false, pk[..|pk| - 1], values[..|pk| - 1]) + [RowDiff.SEPARATOR] + values[|pk| - 1]
  {
    TailSnoc(values[1..], pk[1..]);
    assert pk[1..][..|pk| - 2] == pk[..|pk| - 1][1..] && values[1..][..|pk| - 2] == values[..|pk| - 1][1..];
  }

  lemma {:induction false} TailSnoc(values: seq<string>, pk: seq<string>)
    requires |values| == |pk| > 0
    ensures RowDiff.KeyTail(false, pk, values) ==
      RowDiff.KeyTail(false, pk[..|pk| - 1], values[..|pk| - 1]) + [RowDiff.SEPARATOR] + values[|pk| - 1]
  {
    if |pk| > 1 {
      TailSnoc(values[1..], pk[1..]);
      assert pk[1..][..|pk| - 2] == pk[..|pk| - 1][1..] && values[1..][..|pk| - 2] == values[..|pk| - 1][1..];
    }
  }

  // ---- one entry ----

  /** The last row put in under a key stays. */
  lemma {:induction false} LastRowStays(env: Env, table: string, t: Table, rows: seq<Row>, j: nat)
    requires j < |rows|
    requires forall i :: j < i < |rows| ==> env.dbKey(table, rows[i]) != env.dbKey(table, rows[j])
    ensures var u, k := PutRows(env, table, t, rows), env.dbKey(table, rows[j]); k in u && u[k] == rows[j]
  {
    if j < |rows| - 1 {
      LastRowStays(env, table, t, rows[..|rows| - 1], j);
    }
  }

  /** What stands under a key of a table after an entry. */
  lemma EntryHolds(env: Env, e: Entry, db: Db, name: string, j: nat, k: Key)
    requires Complete(env) && ApplyEntry(env, e, db).ok
    requires Writes(env, e, name, j, k) && forall i: nat :: j < i ==> !Writes(env, e, name, i, k)
    ensures var r := ApplyEntry(env, e, db).db; name in r && k in r[name] && r[name][k] == e.data[j]
  {
    assert forall i: nat :: i < |e.data| ==> (Writes(env, e, name, i, k) <==> env.dbKey(name, e.data[i]) == k);
    LastRowStays(env, name, Without(db[name], Ids(env, e)), e.data, j);
  }

  lemma EntryDeletes(env: Env, e: Entry, db: Db, name: string, k: Key)
    requires Complete(env) && ApplyEntry(env, e, db).ok
    requires Deletes(env, e, name, k) && !WritesSome(env, e, name, k)
    ensures var r := ApplyEntry(env, e, db).db; name in r ==> k !in r[name]
  {
    IdsAreDeleted(env, e, k);
    forall r | r in e.data
      ensures env.dbKey(name, r) != k
    {
      var i :| 0 <= i < |e.data| && e.data[i] == r;
      assert !Writes(env, e, name, i, k);
    }
    PutRowsElsewhere(env, name, Without(db[name], Ids(env, e)), e.data, k);
  }

  /** The rows under a key, or none if the table is missing. */
  function Under(db: Db, name: string, k: Key): Option<Row> {
    if name in db && k in db[name] then Some(db[name][k]) else None
  }

  lemma EntryLeaves(env: Env, e: Entry, db: Db, name: string, k: Key)
    requires Complete(env) && ApplyEntry(env, e, db).ok
    requires !Deletes(env, e, name, k) && !WritesSome(env, e, name, k)
    ensures Under(ApplyEntry(env, e, db).db, name, k) == Under(db, name, k)
  {
    if Replaces(e, name) && e.data != [] {
      IdsAreDeleted(env, e, k);
      forall r | r in e.data
        ensures env.dbKey(name, r) != k
      {
        var i :| 0 <= i < |e.data| && e.data[i] == r;
        assert !Writes(env, e, name, i, k);
      }
      PutRowsElsewhere(env, name, Without(db[name], Ids(env, e)), e.data, k);
    }
  }

  /** An entry removes no table, makes no other than the one it creates, and fails exactly if its table is missing. */
  lemma EntryTables(env: Env, e: Entry, db: Db, name: string)
    requires Complete(env)
    ensures var r := ApplyEntry(env, e, db);
      && (r.ok <==> !Needs(e, e.table) || e.table in db)
      && (r.ok ==> (name in r.db <==> name in db || Creates(e, name)))
  {
  }

  // ---- a whole package ----

  /** Row `j` of entry `i` is the last one with the key, and no later entry deletes it. */
  ghost predicate IsLast(env: Env, entries: seq<Entry>, name: string, i: nat, j: nat, k: Key) {
    && i < |entries| && Writes(env, entries[i], name, j, k)
    && (forall j': nat :: j < j' ==> !Writes(env, entries[i], name, j', k))
    && forall i' :: i < i' < |entries| ==>
      !Deletes(env, entries[i'], name, k) && !WritesSome(env, entries[i'], name, k)
  }

  /** Entry `i` deletes the key, and neither it nor a later entry writes it. */
  ghost predicate IsGone(env: Env, entries: seq<Entry>, name: string, i: nat, k: Key) {
    && i < |entries| && Deletes(env, entries[i], name, k)
    && forall i' :: i <= i' < |entries| ==> !WritesSome(env, entries[i'], name, k)
  }

  /** No entry deletes or writes the key. */
  ghost predicate IsLeft(env: Env, entries: seq<Entry>, name: string, k: Key) {
    forall i :: 0 <= i < |entries| ==> !Deletes(env, entries[i], name, k) && !WritesSome(env, entries[i], name, k)
  }

  lemma {:induction false} LastWrite(env: Env, e: Entry, name: string, k: Key, n: nat) returns (j: nat)
    requires n <= |e.data| && exists i: nat :: i < n && Writes(env, e, name, i, k)
    ensures j < n && Writes(env, e, name, j, k)
    ensures forall i: nat :: j < i < n ==> !Writes(env, e, name, i, k)
  {
    if Writes(env, e, name, n - 1, k) {
      j := n - 1;
    } else {
      j := LastWrite(env, e, name, k, n - 1);
    }
  }

  /** One of the three is the case of every key. */
  lemma {:induction false} EveryKeyIsDecided(env: Env, entries: seq<Entry>, name: string, k: Key)
    ensures (exists i: nat, j: nat :: IsLast(env, entries, name, i, j, k))
      || (exists i: nat :: IsGone(env, entries, name, i, k))
      || IsLeft(env, entries, name, k)
  {
    if entries != [] {
      var n := |entries| - 1;
      var before, e := entries[..n], entries[n];
      if WritesSome(env, e, name, k) {
        var j := LastWrite(env, e, name, k, |e.data|);
        assert IsLast(env, entries, name, n, j, k);
      } else if Deletes(env, e, name, k) {
        assert IsGone(env, entries, name, n, k);
      } else {
        EveryKeyIsDecided(env, before, name, k);
        assert forall i :: 0 <= i < n ==> before[i] == entries[i];
        if i: nat, j: nat :| IsLast(env, before, name, i, j, k) {
          assert IsLast(env, entries, name, i, j, k);
        } else if i: nat :| IsGone(env, before, name, i, k) {
          assert IsGone(env, entries, name, i, k);
        }
      }
    }
  }

  lemma Rest(env: Env, entries: seq<Entry>, db: Db)
    requires Complete(env) && entries != [] && ApplyAll(env, entries, db).ok
    ensures var r := ApplyEntry(env, entries[0], db);
      && r.ok && ApplyAll(env, entries[1..], r.db).ok
      && ApplyAll(env, entries[1..], r.db).db == ApplyAll(env, entries, db).db
  {
  }

  /** What no entry deletes or writes is as before. */
  lemma {:induction false} OthersAreAsBefore(env: Env, entries: seq<Entry>, db: Db, name: string, k: Key)
    requires Complete(env) && ApplyAll(env, entries, db).ok
    requires IsLeft(env, entries, name, k)
    ensures Under(ApplyAll(env, entries, db).db, name, k) == Under(db, name, k)
    decreases |entries|
  {
    if entries != [] {
      Rest(env, entries, db);
      EntryLeaves(env, entries[0], db, name, k);
      assert forall i :: 0 <= i < |entries| - 1 ==> entries[1..][i] == entries[i + 1];
      OthersAreAsBefore(env, entries[1..], ApplyEntry(env, entries[0], db).db, name, k);
    }
  }

  /** The last row of the package with a key stands under it, if no later entry deletes it. */
  lemma {:induction false} LastRowIsHeld(env: Env, entries: seq<Entry>, db: Db, name: string, i: nat, j: nat, k: Key)
    requires Complete(env) && ApplyAll(env, entries, db).ok && IsLast(env, entries, name, i, j, k)
    ensures Under(ApplyAll(env, entries, db).db, name, k) == Some(entries[i].data[j])
    decreases |entries|
  {
    var next := ApplyEntry(env, entries[0], db).db;
    Rest(env, entries, db);
    assert forall m :: 0 <= m < |entries| - 1 ==> entries[1..][m] == entries[m + 1];
    if i == 0 {
      EntryHolds(env, entries[0], db, name, j, k);
      OthersAreAsBefore(env, entries[1..], next, name, k);
    } else {
      LastRowIsHeld(env, entries[1..], next, name, i - 1, j, k);
    }
  }

  /** A key that an entry deletes, and that neither it nor a later entry writes, is gone. */
  lemma {:induction false} DeletedIsGone(env: Env, entries: seq<Entry>, db: Db, name: string, i: nat, k: Key)
    requires Complete(env) && ApplyAll(env, entries, db).ok && IsGone(env, entries, name, i, k)
    ensures Under(ApplyAll(env, entries, db).db, name, k) == None
    decreases |entries|
  {
    var next := ApplyEntry(env, entries[0], db).db;
    Rest(env, entries, db);
    assert forall m :: 0 <= m < |entries| - 1 ==> entries[1..][m] == entries[m + 1];
    if i > 0 {
      DeletedIsGone(env, entries[1..], next, name, i - 1, k);
    } else {
      EntryDeletes(env, entries[0], db, name, k);
      StaysGone(env, entries[1..], next, name, k);
    }
  }

  lemma {:induction false} StaysGone(env: Env, entries: seq<Entry>, db: Db, name: string, k: Key)
    requires Complete(env) && ApplyAll(env, entries, db).ok && Under(db, name, k) == None
    requires forall i :: 0 <= i < |entries| ==> !WritesSome(env, entries[i], name, k)
    ensures Under(ApplyAll(env, entries, db).db, name, k) == None
    decreases |entries|
  {
    if entries != [] {
      Rest(env, entries, db);
      if Deletes(env, entries[0], name, k) {
        EntryDeletes(env, entries[0], db, name, k);
      } else {
        EntryLeaves(env, entries[0], db, name, k);
      }
      assert forall i :: 0 <= i < |entries| - 1 ==> entries[1..][i] == entries[i + 1];
      StaysGone(env, entries[1..], ApplyEntry(env, entries[0], db).db, name, k);
    }
  }

  /** Afterwards there are the tables from before and those that entries create. */
  lemma {:induction false} TablesAfter(env: Env, entries: seq<Entry>, db: Db, name: string)
    requires Complete(env) && ApplyAll(env, entries, db).ok
    ensures name in ApplyAll(env, entries, db).db <==>
      name in db || exists i :: 0 <= i < |entries| && Creates(entries[i], name)
    decreases |entries|
  {
    if entries != [] {
      Rest(env, entries, db);
      EntryTables(env, entries[0], db, name);
      TablesAfter(env, entries[1..], ApplyEntry(env, entries[0], db).db, name);
      Shifted(entries, name);
    }
  }

  lemma Shifted(entries: seq<Entry>, name: string)
    requires entries != []
    ensures (exists i :: 0 <= i < |entries| && Creates(entries[i], name)) <==>
      Creates(entries[0], name) || exists i :: 0 <= i < |entries| - 1 && Creates(entries[1..][i], name)
  {
    if i :| 0 <= i < |entries| && Creates(entries[i], name) {
      if i > 0 {
        assert Creates(entries[1..][i - 1], name);
      }
    }
    if i :| 0 <= i < |entries| - 1 && Creates(entries[1..][i], name) {
      assert Creates(entries[i + 1], name);
    }
  }

  /** The run succeeds exactly if every upsert finds its table, which was there or which an earlier entry creates. */
  lemma {:induction false} SucceedsExactlyWhen(env: Env, entries: seq<Entry>, db: Db)
    requires Complete(env)
    ensures ApplyAll(env, entries, db).ok <==>
      forall i :: 0 <= i < |entries| && Needs(entries[i], entries[i].table) ==>
        entries[i].table in db || exists m :: 0 <= m < i && Creates(entries[m], entries[i].table)
    decreases |entries|
  {
    if entries != [] {
      var e, rest, next := entries[0], entries[1..], ApplyEntry(env, entries[0], db).db;
      EntryTables(env, e, db, e.table);
      if ApplyEntry(env, e, db).ok {
        SucceedsExactlyWhen(env, rest, next);
        forall i | 0 <= i < |rest| && Needs(rest[i], rest[i].table)
          ensures rest[i] == entries[i + 1]
          ensures (rest[i].table in next || exists m :: 0 <= m < i && Creates(rest[m], rest[i].table)) <==>
            (rest[i].table in db || exists m :: 0 <= m < i + 1 && Creates(entries[m], rest[i].table))
        {
          EntryTables(env, e, db, rest[i].table);
          Shifted(entries[..i + 1], rest[i].table);
          assert entries[..i + 1][1..] == rest[..i];
          assert forall m :: 0 <= m < i ==> rest[..i][m] == rest[m];
          assert forall m :: 0 <= m < i + 1 ==> entries[..i + 1][m] == entries[m];
        }
        assert forall i :: 1 <= i < |entries| ==> entries[i] == rest[i - 1];
      } else {
        assert Needs(entries[0], entries[0].table);
      }
    }
  }

  /**
   After a run that succeeds, a row stands under a key exactly if it is the last one of the package with the key and no
   later entry deletes it, or it stood there before and no entry deletes or writes the key.
   */
  lemma HeldExactlyWhen(env: Env, entries: seq<Entry>, db: Db, name: string, k: Key, row: Row)
    requires Complete(env) && ApplyAll(env, entries, db).ok
    ensures Under(ApplyAll(env, entries, db).db, name, k) == Some(row) <==>
      || (exists i: nat, j: nat :: IsLast(env, entries, name, i, j, k) && entries[i].data[j] == row)
      || (IsLeft(env, entries, name, k) && Under(db, name, k) == Some(row))
  {
    EveryKeyIsDecided(env, entries, name, k);
    if i: nat, j: nat :| IsLast(env, entries, name, i, j, k) {
      LastRowIsHeld(env, entries, db, name, i, j, k);
      forall i': nat, j': nat | IsLast(env, entries, name, i', j', k)
        ensures entries[i'].data[j'] == entries[i].data[j]
      {
        LastRowIsHeld(env, entries, db, name, i', j', k);
      }
    } else if i: nat :| IsGone(env, entries, name, i, k) {
      DeletedIsGone(env, entries, db, name, i, k);
    } else {
      OthersAreAsBefore(env, entries, db, name, k);
    }
  }

  /** Upserts without key columns are skipped and reported: these and no others, in order. */
  lemma {:induction false} SkippedExactly(entries: seq<Entry>, more: seq<Entry>, e: Entry)
    ensures Skipped([]) == [] && Skipped(entries + more) == Skipped(entries) + Skipped(more)
    ensures Skipped([e]) == if e.typ == 1 && |e.pk| == 0 then [e.table] else []
  {
    if entries == [] {
      assert entries + more == more;
    } else {
      assert (entries + more)[1..] == entries[1..] + more;
      SkippedExactly(entries[1..], more, e);
    }
  }
}
