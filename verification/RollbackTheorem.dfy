/**
 When replaying the collected rollback restores the database: the proof goes table by table, then
 key by key.
 */
module RollbackTheorem {
  import opened GoStrings
  import opened Sequences
  import opened DataPackages
  import opened Rollback

  // ---- which keys an entry touches ----

  /** An entry that replaces rows. */
  predicate Upserts(e: Entry) {
    e.typ == UPSERT_DATA && e.pk != []
  }

  /** The keys whose rows an entry's rollback deletes and restores. */
  function Claimed(env: Env, e: Entry): set<Key> {
    if Upserts(e) then set k | k in Ids(env, e) else {}
  }

  /** The keys of the rows it puts in. */
  function Written(env: Env, e: Entry): set<Key> {
    if Upserts(e) then set r | r in e.data :: env.dbKey(e.table, r) else {}
  }

  function Touched(env: Env, e: Entry): set<Key> {
    Claimed(env, e) + Written(env, e)
  }

  function ClaimedByAll(env: Env, entries: seq<Entry>): set<Key> {
    if entries == [] then {} else Claimed(env, entries[0]) + ClaimedByAll(env, entries[1..])
  }

  /**
   The entries of one table do not undo what they did to a key: the first of them that touches it does not claim
   it, or a later one claims it as well.
   */
  predicate Spoiled(env: Env, entries: seq<Entry>, k: Key) {
    entries != [] &&
      if k in Touched(env, entries[0]) then
        k !in Claimed(env, entries[0]) || k in ClaimedByAll(env, entries[1..])
      else Spoiled(env, entries[1..], k)
  }

  // ---- which rows the IN list finds ----

  /** Every row written has its key in the IN list. */
  ghost predicate Covered(env: Env, e: Entry) {
    Written(env, e) <= Claimed(env, e)
  }

  predicate HasKey(row: Row, pk: seq<string>) {
    forall c :: c in pk ==> c in row
  }

  predicate AllHaveKeys(e: Entry) {
    Upserts(e) ==> forall r :: r in e.data ==> HasKey(r, e.pk)
  }

  /**
   What is assumed of the database. A row with its key columns has the key that its printed tuple reads as, and
   rows that the program takes for one key are one key to the database. A row without them is given a key that none
   of the tuples printed for the entry reads as.
   */
  ghost predicate Faithful(env: Env, e: Entry) {
    && (forall r :: r in e.data && HasKey(r, e.pk) ==>
          env.litKey(e.table, PkValues(r, e.pk)) == env.dbKey(e.table, r))
    && (forall a, b :: a in e.data && b in e.data && HasKey(a, e.pk) && PkKey(env, a, e.pk) == PkKey(env, b, e.pk) ==>
          HasKey(b, e.pk) && env.dbKey(e.table, a) == env.dbKey(e.table, b))
    && (forall r, f :: r in e.data && f in e.data && !HasKey(r, e.pk) ==>
          env.litKey(e.table, PkValues(f, e.pk)) != env.dbKey(e.table, r))
  }

  /** A row has a first row with its program key. */
  lemma {:induction false} FirstRowFor(env: Env, pk: seq<string>, rows: seq<Row>, r: Row) returns (i: nat)
    requires r in rows
    ensures i < |FirstRows(env, pk, rows)|
    ensures var f := FirstRows(env, pk, rows)[i]; f in rows && PkKey(env, f, pk) == PkKey(env, r, pk)
  {
    var before, last := rows[..|rows| - 1], rows[|rows| - 1];
    if r in before {
      i := FirstRowFor(env, pk, before, r);
    } else if PkKey(env, last, pk) in PkKeys(env, pk, before) {
      var b :| b in before && PkKey(env, b, pk) == PkKey(env, last, pk);
      i := FirstRowFor(env, pk, before, b);
    } else {
      i := |FirstRows(env, pk, before)|;
    }
  }

  lemma RowIsCovered(env: Env, e: Entry, r: Row)
    requires Faithful(env, e) && r in e.data && HasKey(r, e.pk)
    ensures env.dbKey(e.table, r) in Ids(env, e)
  {
    var i := FirstRowFor(env, e.pk, e.data, r);
    assert Ids(env, e)[i] == env.litKey(e.table, PkValues(FirstRows(env, e.pk, e.data)[i], e.pk));
  }

  lemma {:induction false} FirstRowsAreThere(env: Env, pk: seq<string>, rows: seq<Row>)
    ensures forall f :: f in FirstRows(env, pk, rows) ==> f in rows
  {
    if rows != [] {
      FirstRowsAreThere(env, pk, rows[..|rows| - 1]);
    }
  }

  lemma RowIsNotCovered(env: Env, e: Entry, r: Row)
    requires Faithful(env, e) && r in e.data && !HasKey(r, e.pk)
    ensures env.dbKey(e.table, r) !in Ids(env, e)
  {
    var rows := FirstRows(env, e.pk, e.data);
    FirstRowsAreThere(env, e.pk, e.data);
    forall i | 0 <= i < |rows|
      ensures Ids(env, e)[i] != env.dbKey(e.table, r)
    {
      assert rows[i] in e.data;
      assert Ids(env, e)[i] == env.litKey(e.table, PkValues(rows[i], e.pk));
    }
  }

  /** The IN list finds every row written exactly if every row has its key columns. */
  lemma CoveredExactlyWhen(env: Env, e: Entry)
    requires Faithful(env, e)
    ensures Covered(env, e) <==> AllHaveKeys(e)
  {
    if Upserts(e) {
      forall r | r in e.data
        ensures env.dbKey(e.table, r) in Claimed(env, e) <==> HasKey(r, e.pk)
        ensures env.dbKey(e.table, r) in Written(env, e)
      {
        if HasKey(r, e.pk) {
          RowIsCovered(env, e, r);
        } else {
          RowIsNotCovered(env, e, r);
        }
      }
    }
  }

  // ---- one table ----

  function ExecOnAll(t: Option<Table>, ss: seq<Stmt>): Option<Table>
    decreases ss
  {
    if ss == [] then t else ExecOnAll(ExecOn(t, ss[0]), ss[1..])
  }

  lemma {:induction false} ExecOnConcat(t: Option<Table>, a: seq<Stmt>, b: seq<Stmt>)
    ensures ExecOnAll(t, a + b) == ExecOnAll(ExecOnAll(t, a), b)
    decreases a
  {
    if a == [] {
      assert a + b == b;
    } else {
      assert (a + b)[1..] == a[1..] + b;
      ExecOnConcat(ExecOn(t, a[0]), a[1..], b);
    }
  }

  lemma {:induction false} MissingStays(ss: seq<Stmt>)
    ensures ExecOnAll(None, ss) == None
  {
    if ss != [] {
      MissingStays(ss[1..]);
    }
  }

  function ApplyOnAll(env: Env, entries: seq<Entry>, t: Option<Table>): Effect
    requires Complete(env)
  {
    if entries == [] then Effect(true, t, [])
    else
      var f := ApplyOn(env, entries[0], t);
      if !f.ok then f
      else
        var rest := ApplyOnAll(env, entries[1..], f.t);
        rest.(rollback := f.rollback + rest.rollback)
  }

  /** Two tables hold the same under a key. */
  predicate Agree(a: Table, b: Table, k: Key) {
    (k in a <==> k in b) && (k in a ==> a[k] == b[k])
  }

  /** Rows put in are the same whatever the table held. */
  lemma {:induction false} PutRowsAgree(env: Env, table: string, t: Table, t': Table, rows: seq<Row>, k: Key)
    requires Agree(t, t', k) || exists r :: r in rows && env.dbKey(table, r) == k
    ensures Agree(PutRows(env, table, t, rows), PutRows(env, table, t', rows), k)
  {
    if rows != [] {
      var before, last := rows[..|rows| - 1], rows[|rows| - 1];
      if env.dbKey(table, last) != k {
        assert forall r :: r in rows <==> r in before || r == last;
        PutRowsAgree(env, table, t, t', before, k);
      }
    }
  }

  lemma {:induction false} PutRowsElsewhere(env: Env, table: string, t: Table, rows: seq<Row>, k: Key)
    requires forall r :: r in rows ==> env.dbKey(table, r) != k
    ensures Agree(PutRows(env, table, t, rows), t, k)
  {
    if rows != [] {
      PutRowsElsewhere(env, table, t, rows[..|rows| - 1], k);
    }
  }

  lemma {:induction false} PutBackAt(table: string, t: Table, keys: seq<Key>, x: Table, k: Key)
    requires forall j :: j in keys ==> j in t
    ensures var y := ExecOnAll(Some(x), PutBack(table, t, keys));
      y.Some? && Agree(y.value, if k in keys then t else x, k)
  {
    if keys != [] {
      var before, last := keys[..|keys| - 1], keys[|keys| - 1];
      PutBackAt(table, t, before, x, k);
      ExecOnConcat(Some(x), PutBack(table, t, before), [Put(table, last, t[last])]);
      var y := ExecOnAll(Some(x), PutBack(table, t, before));
      var s := Put(table, last, t[last]);
      assert ExecOnAll(y, [s]) == ExecOnAll(ExecOn(y, s), []);
      assert k in keys <==> k in before || k == last;
    }
  }

  /** Replaying an upsert's rollback on any table restores exactly the claimed keys. */
  lemma UndoUpsertAt(env: Env, e: Entry, t: Table, x: Table, k: Key)
    requires Complete(env)
    ensures var y := ExecOnAll(Some(x), Upserted(env, e, t).rollback);
      y.Some? && Agree(y.value, if k in Ids(env, e) then t else x, k)
  {
    var ids := Ids(env, e);
    HeldIsHeld(env, t, ids);
    var puts := PutBack(e.table, t, Held(env, t, ids));
    ExecOnConcat(Some(x), [Delete(e.table, ids)], puts);
    assert ExecOnAll(Some(x), [Delete(e.table, ids)]) == ExecOnAll(Some(Without(x, ids)), []);
    PutBackAt(e.table, t, Held(env, t, ids), Without(x, ids), k);
  }

  lemma IdleTouchesNothing(env: Env, e: Entry)
    requires Idle(e, true)
    ensures Touched(env, e) == {}
  {
    if Upserts(e) {
      NoIdsNoRows(env, e);
    }
  }

  /** One entry on a table that is there: what it leaves alone, and its undoing, key by key. */
  lemma EntryAt(env: Env, e: Entry, t: Table, x: Table, k: Key)
    requires Complete(env)
    ensures var f := ApplyOn(env, e, Some(t));
      var y := ExecOnAll(Some(x), f.rollback);
      && f.ok && f.t.Some? && y.Some?
      && (k !in Touched(env, e) ==> Agree(f.t.value, t, k))
      && Agree(y.value, if k in Claimed(env, e) then t else x, k)
  {
    if Idle(e, true) {
      IdleTouchesNothing(env, e);
    } else {
      UndoUpsertAt(env, e, t, x, k);
      if k !in Touched(env, e) {
        PutRowsElsewhere(env, e.table, Without(t, Ids(env, e)), e.data, k);
      }
    }
  }

  /** An entry makes of a key it touches the same thing on every table, and of any key the same of the same. */
  lemma ApplyAgrees(env: Env, e: Entry, t: Table, t': Table, k: Key)
    requires Complete(env) && (Agree(t, t', k) || k in Touched(env, e))
    ensures var f, f' := ApplyOn(env, e, Some(t)), ApplyOn(env, e, Some(t'));
      f.t.Some? && f'.t.Some? && Agree(f.t.value, f'.t.value, k)
  {
    if Idle(e, true) {
      IdleTouchesNothing(env, e);
    } else {
      var ids := Ids(env, e);
      PutRowsAgree(env, e.table, Without(t, ids), Without(t', ids), e.data, k);
    }
  }

  // ---- the entries of one table ----

  /** A table that is there, what the entries make of it, and what replaying their rollback makes of `x`. */
  function Final(env: Env, entries: seq<Entry>, t: Table): (r: Option<Table>)
    requires Complete(env)
  {
    ApplyOnAll(env, entries, Some(t)).t
  }

  function Replayed(env: Env, entries: seq<Entry>, t: Table, x: Table): Option<Table>
    requires Complete(env)
  {
    ExecOnAll(Some(x), ApplyOnAll(env, entries, Some(t)).rollback)
  }

  /** The first entry, then the others. */
  lemma FirstThenRest(env: Env, entries: seq<Entry>, t: Table, x: Table)
    requires Complete(env) && entries != []
    ensures var f := ApplyOn(env, entries[0], Some(t));
      var y := ExecOnAll(Some(x), f.rollback);
      && f.ok && f.t.Some? && y.Some?
      && ApplyOnAll(env, entries, Some(t)).ok == ApplyOnAll(env, entries[1..], f.t).ok
      && Final(env, entries, t) == Final(env, entries[1..], f.t.value)
      && Replayed(env, entries, t, x) == Replayed(env, entries[1..], f.t.value, y.value)
  {
    EntryAt(env, entries[0], t, x, "");
    var f := ApplyOn(env, entries[0], Some(t));
    ExecOnConcat(Some(x), f.rollback, ApplyOnAll(env, entries[1..], f.t).rollback);
  }

  lemma {:induction false} StaysThere(env: Env, entries: seq<Entry>, t: Table, x: Table)
    requires Complete(env)
    ensures ApplyOnAll(env, entries, Some(t)).ok
    ensures Final(env, entries, t).Some? && Replayed(env, entries, t, x).Some?
    decreases entries
  {
    if entries != [] {
      FirstThenRest(env, entries, t, x);
      var f := ApplyOn(env, entries[0], Some(t));
      StaysThere(env, entries[1..], f.t.value, ExecOnAll(Some(x), f.rollback).value);
    }
  }

  /** The replay leaves a key alone that nobody claims. */
  lemma {:induction false} UnclaimedKept(env: Env, entries: seq<Entry>, t: Table, x: Table, k: Key)
    requires Complete(env) && k !in ClaimedByAll(env, entries)
    ensures var y := Replayed(env, entries, t, x); y.Some? && Agree(y.value, x, k)
    decreases entries
  {
    if entries != [] {
      FirstThenRest(env, entries, t, x);
      EntryAt(env, entries[0], t, x, k);
      var f := ApplyOn(env, entries[0], Some(t));
      UnclaimedKept(env, entries[1..], f.t.value, ExecOnAll(Some(x), f.rollback).value, k);
    }
  }

  /** A key that is not spoiled comes back if it was claimed, and was never touched otherwise. */
  lemma {:induction false} UnspoiledComesBack(env: Env, entries: seq<Entry>, t: Table, x: Table, k: Key)
    requires Complete(env) && !Spoiled(env, entries, k)
    ensures var y, z := Replayed(env, entries, t, x), Final(env, entries, t);
      && y.Some? && z.Some?
      && (k in ClaimedByAll(env, entries) ==> Agree(y.value, t, k))
      && (k !in ClaimedByAll(env, entries) ==> Agree(y.value, x, k) && Agree(z.value, t, k))
    decreases entries
  {
    if entries != [] {
      FirstThenRest(env, entries, t, x);
      EntryAt(env, entries[0], t, x, k);
      var f := ApplyOn(env, entries[0], Some(t));
      var x1 := ExecOnAll(Some(x), f.rollback).value;
      if k in Touched(env, entries[0]) {
        UnclaimedKept(env, entries[1..], f.t.value, x1, k);
        StaysThere(env, entries[1..], f.t.value, x1);
      } else {
        UnspoiledComesBack(env, entries[1..], f.t.value, x1, k);
      }
    }
  }

  /** Of what agrees before, the entries make what agrees. */
  lemma {:induction false} FinalAgrees(env: Env, entries: seq<Entry>, t: Table, t': Table, k: Key)
    requires Complete(env) && Agree(t, t', k)
    ensures var z, z' := Final(env, entries, t), Final(env, entries, t');
      z.Some? && z'.Some? && Agree(z.value, z'.value, k)
    decreases entries
  {
    if entries != [] {
      FirstThenRest(env, entries, t, t);
      FirstThenRest(env, entries, t', t');
      ApplyAgrees(env, entries[0], t, t', k);
      FinalAgrees(
        env, entries[1..], ApplyOn(env, entries[0], Some(t)).t.value, ApplyOn(env, entries[0], Some(t')).t.value, k);
    }
  }

  /** So does the replay, on tables that agree, or on any if the key is claimed. */
  lemma {:induction false} ReplayAgrees(
    env: Env, entries: seq<Entry>, t: Table, t': Table, x: Table, x': Table, k: Key)
    requires Complete(env) && Agree(t, t', k) && (k in ClaimedByAll(env, entries) || Agree(x, x', k))
    ensures var y, y' := Replayed(env, entries, t, x), Replayed(env, entries, t', x');
      y.Some? && y'.Some? && Agree(y.value, y'.value, k)
    decreases entries
  {
    if entries != [] {
      FirstThenRest(env, entries, t, x);
      FirstThenRest(env, entries, t', x');
      EntryAt(env, entries[0], t, x, k);
      EntryAt(env, entries[0], t', x', k);
      ApplyAgrees(env, entries[0], t, t', k);
      var f, f' := ApplyOn(env, entries[0], Some(t)), ApplyOn(env, entries[0], Some(t'));
      ReplayAgrees(
        env, entries[1..], f.t.value, f'.t.value, ExecOnAll(Some(x), f.rollback).value,
        ExecOnAll(Some(x'), f'.rollback).value, k);
    }
  }

  /** What a spoiled key becomes has nothing to do with what it was. */
  lemma {:induction false} SpoiledIsForgotten(
    env: Env, entries: seq<Entry>, t: Table, t': Table, x: Table, x': Table, k: Key)
    requires Complete(env) && Spoiled(env, entries, k)
    requires var z, z' := Final(env, entries, t), Final(env, entries, t');
      z.Some? && z'.Some? && Agree(x, z.value, k) && Agree(x', z'.value, k)
    ensures var y, y' := Replayed(env, entries, t, x), Replayed(env, entries, t', x');
      y.Some? && y'.Some? && Agree(y.value, y'.value, k)
    decreases entries
  {
    var e, rest := entries[0], entries[1..];
    FirstThenRest(env, entries, t, x);
    FirstThenRest(env, entries, t', x');
    EntryAt(env, e, t, x, k);
    EntryAt(env, e, t', x', k);
    var f, f' := ApplyOn(env, e, Some(t)), ApplyOn(env, e, Some(t'));
    var x1, x1' := ExecOnAll(Some(x), f.rollback).value, ExecOnAll(Some(x'), f'.rollback).value;
    if k in Touched(env, e) {
      ApplyAgrees(env, e, t, t', k);
      FinalAgrees(env, rest, f.t.value, f'.t.value, k);
      ReplayAgrees(env, rest, f.t.value, f'.t.value, x1, x1', k);
    } else {
      SpoiledIsForgotten(env, rest, f.t.value, f'.t.value, x1, x1', k);
    }
  }

  /** With a spoiled key, the empty table or the table with one row under this key does not. */
  lemma SpoiledTableNotRestored(env: Env, entries: seq<Entry>, k: Key, row: Row)
    requires Complete(env) && Spoiled(env, entries, k)
    ensures var f, f' := ApplyOnAll(env, entries, Some(map[])), ApplyOnAll(env, entries, Some(map[k := row]));
      ExecOnAll(f.t, f.rollback) != Some(map[]) || ExecOnAll(f'.t, f'.rollback) != Some(map[k := row])
  {
    StaysThere(env, entries, map[], map[]);
    StaysThere(env, entries, map[k := row], map[]);
    SpoiledIsForgotten(
      env, entries, map[], map[k := row], Final(env, entries, map[]).value, Final(env, entries, map[k := row]).value, k);
  }

  lemma AgreeEverywhere(a: Table, b: Table)
    requires forall k :: Agree(a, b, k)
    ensures a == b
  {
    assert forall k :: k in a ==> Agree(a, b, k);
    assert forall k :: k in b ==> Agree(a, b, k);
  }

  // ---- what a part of the entries did, undone by the rollback of more of them ----

  /** Some row has this key. */
  ghost predicate Possible(env: Env, name: string, k: Key) {
    exists row: Row :: env.dbKey(name, row) == k
  }

  predicate AllOf(entries: seq<Entry>, name: string) {
    forall e :: e in entries ==> e.table == name
  }

  /** A key that no row has is never there. */
  lemma {:induction false} NeverThere(env: Env, entries: seq<Entry>, name: string, t: Table, x: Table, k: Key)
    requires Complete(env) && AllOf(entries, name) && !Possible(env, name, k) && k !in t && k !in x
    ensures var y, z := Replayed(env, entries, t, x), Final(env, entries, t);
      y.Some? && z.Some? && k !in y.value && k !in z.value
    decreases entries
  {
    if entries != [] {
      var e := entries[0];
      assert e in entries;
      FirstThenRest(env, entries, t, x);
      EntryAt(env, e, t, x, k);
      NotPutIn(env, e, t, k);
      assert forall r :: r in entries[1..] ==> r in entries;
      var f := ApplyOn(env, e, Some(t));
      NeverThere(env, entries[1..], name, f.t.value, ExecOnAll(Some(x), f.rollback).value, k);
    }
  }

  lemma NotPutIn(env: Env, e: Entry, t: Table, k: Key)
    requires Complete(env) && !Possible(env, e.table, k) && k !in t
    ensures var f := ApplyOn(env, e, Some(t)); f.t.Some? && k !in f.t.value
  {
    if !Idle(e, true) {
      PutRowsElsewhere(env, e.table, Without(t, Ids(env, e)), e.data, k);
    }
  }

  /** A key spoiled by the first entries is spoiled by all. */
  lemma {:induction false} SpoiledByMore(env: Env, a: seq<Entry>, b: seq<Entry>, k: Key)
    ensures k in ClaimedByAll(env, a) ==> k in ClaimedByAll(env, a + b)
    ensures Spoiled(env, a, k) ==> Spoiled(env, a + b, k)
  {
    if a != [] {
      assert (a + b)[1..] == a[1..] + b;
      SpoiledByMore(env, a[1..], b, k);
    }
  }

  /** The spoiled keys are keys that no row has and that are not in the table. */
  ghost predicate SpoilsNoRow(env: Env, entries: seq<Entry>, name: string, t: Option<Table>) {
    forall k :: Spoiled(env, entries, k) ==> !Possible(env, name, k) && (t.Some? ==> k !in t.value)
  }

  /** A table that was there comes back exactly from what the first entries, `a`, made of it. */
  lemma ExistingTableRestored(env: Env, a: seq<Entry>, b: seq<Entry>, name: string, t: Table)
    requires Complete(env) && AllOf(a + b, name) && SpoilsNoRow(env, a + b, name, Some(t))
    ensures ExecOnAll(Final(env, a, t), ApplyOnAll(env, a + b, Some(t)).rollback) == Some(t)
  {
    StaysThere(env, a, t, t);
    var x := Final(env, a, t).value;
    StaysThere(env, a + b, t, x);
    var y := Replayed(env, a + b, t, x).value;
    forall k
      ensures Agree(y, t, k)
    {
      SpoiledByMore(env, a, b, k);
      if Spoiled(env, a + b, k) {
        assert forall e :: e in a ==> e in a + b;
        NeverThere(env, a, name, t, t, k);
        NeverThere(env, a + b, name, t, x, k);
      } else {
        UnspoiledComesBack(env, a + b, t, x, k);
        UnspoiledComesBack(env, a, t, t, k);
      }
    }
    AgreeEverywhere(y, t);
  }

  /** A table that is made is dropped first, and one that is not made stays missing. */
  lemma {:induction false} NewTable(env: Env, entries: seq<Entry>)
    requires Complete(env) && ApplyOnAll(env, entries, None).ok
    ensures var f := ApplyOnAll(env, entries, None);
      if exists e :: e in entries && e.typ == CREATE_TABLE then f.rollback != [] && f.rollback[0].Drop?
      else f.t == None
  {
    if entries != [] {
      var e, rest := entries[0], entries[1..];
      assert forall r :: r in entries <==> r == e || r in rest;
      if Idle(e, false) {
        NewTable(env, rest);
        var f := ApplyOnAll(env, rest, None);
        assert [] + f.rollback == f.rollback;
      }
    }
  }

  /** A table that was not there is gone again, whatever was done to it meanwhile. */
  lemma NewTableRemoved(env: Env, a: seq<Entry>, b: seq<Entry>, more: seq<Stmt>)
    requires Complete(env) && ApplyOnAll(env, a, None).ok && ApplyOnAll(env, a + b, None).ok
    ensures ExecOnAll(ApplyOnAll(env, a, None).t, ApplyOnAll(env, a + b, None).rollback + more) == None
  {
    var ss := ApplyOnAll(env, a + b, None).rollback + more;
    NewTable(env, a);
    NewTable(env, a + b);
    if exists e :: e in a + b && e.typ == CREATE_TABLE {
      MissingStays(ss[1..]);
    } else {
      assert forall e :: e in a ==> e in a + b;
      MissingStays(ss);
    }
  }

  // ---- from tables to the database ----

  function EntriesOf(entries: seq<Entry>, name: string): seq<Entry> {
    if entries == [] then []
    else (if entries[0].table == name then [entries[0]] else []) + EntriesOf(entries[1..], name)
  }

  function StmtsOf(ss: seq<Stmt>, name: string): seq<Stmt> {
    if ss == [] then [] else (if ss[0].table == name then [ss[0]] else []) + StmtsOf(ss[1..], name)
  }

  lemma {:induction false} StmtsOfConcat(a: seq<Stmt>, b: seq<Stmt>, name: string)
    ensures StmtsOf(a + b, name) == StmtsOf(a, name) + StmtsOf(b, name)
  {
    if a == [] {
      assert a + b == b;
    } else {
      assert (a + b)[1..] == a[1..] + b;
      StmtsOfConcat(a[1..], b, name);
      var first := if a[0].table == name then [a[0]] else [];
      Assoc(first, StmtsOf(a[1..], name), StmtsOf(b, name));
    }
  }

  lemma {:induction false} StmtsOnOneTable(ss: seq<Stmt>, table: string, name: string)
    requires forall s :: s in ss ==> s.table == table
    ensures StmtsOf(ss, name) == if name == table then ss else []
  {
    if ss != [] {
      assert ss[0] in ss;
      StmtsOnOneTable(ss[1..], table, name);
      assert ss == [ss[0]] + ss[1..];
    }
  }

  lemma {:induction false} PutBackOnOneTable(table: string, t: Table, keys: seq<Key>)
    requires forall k :: k in keys ==> k in t
    ensures forall s :: s in PutBack(table, t, keys) ==> s.table == table
  {
    if keys != [] {
      PutBackOnOneTable(table, t, keys[..|keys| - 1]);
    }
  }

  lemma RollbackOnOneTable(env: Env, e: Entry, t: Option<Table>)
    requires Complete(env)
    ensures forall s :: s in ApplyOn(env, e, t).rollback ==> s.table == e.table
  {
    if t.Some? {
      HeldIsHeld(env, t.value, Ids(env, e));
      PutBackOnOneTable(e.table, t.value, Held(env, t.value, Ids(env, e)));
    }
  }

  /** Running statements touches each table only through its own statements. */
  lemma {:induction false} ExecAllAt(db: Db, ss: seq<Stmt>, name: string)
    ensures At(ExecAll(db, ss), name) == ExecOnAll(At(db, name), StmtsOf(ss, name))
    decreases ss
  {
    if ss != [] {
      ExecAllAt(Exec(db, ss[0]), ss[1..], name);
      if ss[0].table == name {
        assert ([ss[0]] + StmtsOf(ss[1..], name))[1..] == StmtsOf(ss[1..], name);
      } else {
        assert [] + StmtsOf(ss[1..], name) == StmtsOf(ss[1..], name);
      }
    }
  }

  /** Applying a package touches each table only through its own entries. */
  lemma {:induction false} ApplyAllAt(env: Env, entries: seq<Entry>, db: Db, name: string)
    requires Complete(env) && ApplyAll(env, entries, db).ok
    ensures var r, f := ApplyAll(env, entries, db), ApplyOnAll(env, EntriesOf(entries, name), At(db, name));
      f.ok && At(r.db, name) == f.t && StmtsOf(r.rollback, name) == f.rollback
    decreases entries
  {
    if entries != [] {
      var e, r := entries[0], ApplyEntry(env, entries[0], db);
      ApplyAllAt(env, entries[1..], r.db, name);
      RollbackOnOneTable(env, e, At(db, e.table));
      StmtsOnOneTable(r.rollback, e.table, name);
      StmtsOfConcat(r.rollback, ApplyAll(env, entries[1..], r.db).rollback, name);
      var mine := EntriesOf(entries[1..], name);
      if e.table == name {
        assert ([e] + mine)[1..] == mine;
      } else {
        assert [] + mine == mine;
        assert [] + StmtsOf(ApplyAll(env, entries[1..], r.db).rollback, name) == StmtsOf(ApplyAll(env, entries[1..], r.db).rollback, name);
      }
    }
  }

  lemma {:induction false} EntriesOfAreEntries(entries: seq<Entry>, name: string)
    ensures forall e :: e in EntriesOf(entries, name) <==> e in entries && e.table == name
  {
    if entries != [] {
      EntriesOfAreEntries(entries[1..], name);
      assert forall e :: e in entries <==> e == entries[0] || e in entries[1..];
    }
  }

  /** The claims of an entry are among those of its table. */
  lemma ClaimIsListed(env: Env, entries: seq<Entry>, i: nat, k: Key)
    requires i < |entries| && k in Claimed(env, entries[i])
    ensures k in ClaimedByAll(env, EntriesOf(entries, entries[i].table))
  {
    var mine := EntriesOf(entries, entries[i].table);
    EntriesOfAreEntries(entries, entries[i].table);
    assert entries[i] in mine;
    var m :| 0 <= m < |mine| && mine[m] == entries[i];
    ClaimedByAllHas(env, mine, k);
  }

  lemma {:induction false} EntriesOfConcat(a: seq<Entry>, b: seq<Entry>, name: string)
    ensures EntriesOf(a + b, name) == EntriesOf(a, name) + EntriesOf(b, name)
  {
    if a == [] {
      assert a + b == b;
    } else {
      assert (a + b)[1..] == a[1..] + b;
      EntriesOfConcat(a[1..], b, name);
      Assoc(if a[0].table == name then [a[0]] else [], EntriesOf(a[1..], name), EntriesOf(b, name));
    }
  }

  /** The entries of a table, of which the first entry of the package may be one. */
  lemma EntriesOfNext(entries: seq<Entry>, name: string)
    requires entries != []
    ensures var mine := EntriesOf(entries[1..], name);
      if entries[0].table == name then
        EntriesOf(entries, name) != [] && EntriesOf(entries, name)[0] == entries[0]
        && EntriesOf(entries, name)[1..] == mine
      else EntriesOf(entries, name) == mine
  {
    var mine := EntriesOf(entries[1..], name);
    assert ([entries[0]] + mine)[1..] == mine && [] + mine == mine;
  }

  /** A key that two entries of a table claim is spoiled. */
  lemma {:induction false} ClashSpoils(env: Env, entries: seq<Entry>, i: nat, j: nat, k: Key)
    requires i < j < |entries| && entries[i].table == entries[j].table
    requires k in Claimed(env, entries[i]) && k in Claimed(env, entries[j])
    ensures Spoiled(env, EntriesOf(entries, entries[i].table), k)
  {
    EntriesOfNext(entries, entries[i].table);
    ClaimIsListed(env, entries[1..], j - 1, k);
    if i > 0 {
      ClaimIsListed(env, entries[1..], i - 1, k);
      ClashSpoils(env, entries[1..], i - 1, j - 1, k);
    }
  }

  /** So is one that an entry writes and neither it nor an earlier entry of the table claims. */
  lemma {:induction false} UnclaimedWriteSpoils(env: Env, entries: seq<Entry>, i: nat, k: Key)
    requires i < |entries| && k in Written(env, entries[i])
    requires forall j :: 0 <= j <= i && entries[j].table == entries[i].table ==> k !in Claimed(env, entries[j])
    ensures Spoiled(env, EntriesOf(entries, entries[i].table), k)
  {
    EntriesOfNext(entries, entries[i].table);
    if i > 0 && !(entries[0].table == entries[i].table && k in Touched(env, entries[0])) {
      assert forall j :: 0 <= j <= i - 1 ==> entries[1..][j] == entries[j + 1];
      UnclaimedWriteSpoils(env, entries[1..], i - 1, k);
    }
  }

  // ---- covered entries with disjoint claims ----

  /** No key of a table is claimed by two entries. */
  ghost predicate DisjointClaims(env: Env, entries: seq<Entry>) {
    forall i, j :: 0 <= i < j < |entries| && entries[i].table == entries[j].table
      ==> Claimed(env, entries[i]) !! Claimed(env, entries[j])
  }

  lemma {:induction false} ClaimedByAllHas(env: Env, entries: seq<Entry>, k: Key)
    ensures k in ClaimedByAll(env, entries) <==> exists i :: 0 <= i < |entries| && k in Claimed(env, entries[i])
  {
    if entries != [] {
      ClaimedByAllHas(env, entries[1..], k);
      if k in ClaimedByAll(env, entries[1..]) {
        var i :| 0 <= i < |entries| - 1 && k in Claimed(env, entries[1..][i]);
        assert entries[i + 1] == entries[1..][i];
      }
      if exists i :: 1 <= i < |entries| && k in Claimed(env, entries[i]) {
        var i :| 1 <= i < |entries| && k in Claimed(env, entries[i]);
        assert entries[1..][i - 1] == entries[i];
      }
    }
  }

  /** What the first entry claims, no later entry of its table claims. */
  lemma FirstClaimsAlone(env: Env, entries: seq<Entry>, k: Key)
    requires entries != [] && DisjointClaims(env, entries) && k in Claimed(env, entries[0])
    ensures k !in ClaimedByAll(env, EntriesOf(entries[1..], entries[0].table))
  {
    var e, rest := entries[0], entries[1..];
    var mine := EntriesOf(rest, e.table);
    EntriesOfAreEntries(rest, e.table);
    ClaimedByAllHas(env, mine, k);
    forall i | 0 <= i < |mine|
      ensures k !in Claimed(env, mine[i])
    {
      assert mine[i] in rest;
      var j :| 0 <= j < |rest| && rest[j] == mine[i];
      assert Claimed(env, entries[0]) !! Claimed(env, entries[j + 1]);
    }
  }

  ghost predicate AllCovered(env: Env, entries: seq<Entry>) {
    forall e :: e in entries ==> Covered(env, e)
  }

  lemma {:induction false} DisjointIsUnspoiled(env: Env, entries: seq<Entry>, name: string, k: Key)
    requires AllCovered(env, entries) && DisjointClaims(env, entries)
    ensures !Spoiled(env, EntriesOf(entries, name), k)
  {
    if entries != [] {
      var rest := entries[1..];
      EntriesOfNext(entries, name);
      assert entries[0] in entries && Covered(env, entries[0]);
      if entries[0].table == name && k in Touched(env, entries[0]) {
        FirstClaimsAlone(env, entries, k);
      } else {
        assert forall i :: 0 <= i < |rest| ==> rest[i] == entries[i + 1];
        DisjointIsUnspoiled(env, rest, name, k);
      }
    }
  }

  // ---- the main results ----

  /** No key of any table is spoiled: the first entry that touches it claims it, and no later entry does. */
  ghost predicate Undoable(env: Env, entries: seq<Entry>) {
    forall name, k :: !Spoiled(env, EntriesOf(entries, name), k)
  }

  /** Replaying the rollback, in collected order, on the database it was collected from. */
  ghost predicate Restores(env: Env, entries: seq<Entry>, db: Db)
    requires Complete(env)
  {
    var r := ApplyAll(env, entries, db);
    r.ok ==> ExecAll(r.db, r.rollback) == db
  }

  lemma SameTables(a: Db, b: Db)
    requires forall name :: At(a, name) == At(b, name)
    ensures a == b
  {
    assert forall name :: name in a <==> At(a, name).Some?;
    assert forall name :: name in a ==> a[name] == At(a, name).value && b[name] == At(b, name).value;
    assert forall name :: name in b <==> At(b, name).Some?;
  }

  /** How many entries are applied before one fails. */
  function Applied(env: Env, entries: seq<Entry>, db: Db): (n: nat)
    requires Complete(env)
    ensures n <= |entries|
    decreases |entries|
  {
    if entries == [] || !ApplyEntry(env, entries[0], db).ok then 0
    else 1 + Applied(env, entries[1..], ApplyEntry(env, entries[0], db).db)
  }

  lemma {:induction false} PartApplies(env: Env, entries: seq<Entry>, db: Db, m: nat)
    requires Complete(env) && m <= Applied(env, entries, db)
    ensures ApplyAll(env, entries[..m], db).ok
    decreases |entries|
  {
    if m > 0 {
      PartApplies(env, entries[1..], ApplyEntry(env, entries[0], db).db, m - 1);
      assert entries[..m][1..] == entries[1..][..m - 1];
    }
  }

  /** What the entry that fails adds to the rollback: a deletion in a table that is missing. */
  function Collected(env: Env, entries: seq<Entry>, n: nat): seq<Stmt>
    requires n <= |entries|
  {
    if n == |entries| then [] else [Delete(entries[n].table, Ids(env, entries[n]))]
  }

  lemma {:induction false} RunStops(env: Env, entries: seq<Entry>, db: Db)
    requires Complete(env)
    ensures var n, r := Applied(env, entries, db), ApplyAll(env, entries, db);
      var p := ApplyAll(env, entries[..n], db);
      && (r.ok <==> n == |entries|)
      && r.rollback == p.rollback + Collected(env, entries, n)
      && (n < |entries| ==> entries[n].table !in p.db)
    decreases |entries|
  {
    var n := Applied(env, entries, db);
    if entries != [] && n > 0 {
      var r := ApplyEntry(env, entries[0], db);
      RunStops(env, entries[1..], r.db);
      assert entries[..n][1..] == entries[1..][..n - 1];
      var p := ApplyAll(env, entries[1..][..n - 1], r.db);
      Assoc(r.rollback, p.rollback, Collected(env, entries, n));
    }
  }

  /** Of every table, the spoiled keys are keys that no row has. */
  ghost predicate UndoableOn(env: Env, entries: seq<Entry>, db: Db) {
    forall name :: SpoilsNoRow(env, EntriesOf(entries, name), name, At(db, name))
  }

  lemma SpoilsNoMore(env: Env, entries: seq<Entry>, n: nat, name: string, t: Option<Table>)
    requires n <= |entries| && SpoilsNoRow(env, EntriesOf(entries, name), name, t)
    ensures SpoilsNoRow(env, EntriesOf(entries[..n], name), name, t)
  {
    assert entries == entries[..n] + entries[n..];
    EntriesOfConcat(entries[..n], entries[n..], name);
    forall k
      ensures Spoiled(env, EntriesOf(entries[..n], name), k) ==> Spoiled(env, EntriesOf(entries, name), k)
    {
      SpoiledByMore(env, EntriesOf(entries[..n], name), EntriesOf(entries[n..], name), k);
    }
  }

  /** One table: the first `m` of the `n` entries that were applied stay, and the whole rollback is replayed. */
  lemma TableRestored(env: Env, entries: seq<Entry>, db: Db, name: string, m: nat, n: nat, more: seq<Stmt>)
    requires Complete(env) && m <= n <= |entries| && UndoableOn(env, entries, db)
    requires ApplyAll(env, entries[..m], db).ok && ApplyAll(env, entries[..n], db).ok
    requires name in db ==> StmtsOf(more, name) == []
    ensures At(ExecAll(ApplyAll(env, entries[..m], db).db, ApplyAll(env, entries[..n], db).rollback + more), name) ==
      At(db, name)
  {
    var a, b := EntriesOf(entries[..m], name), EntriesOf(entries[m..n], name);
    assert entries[..n] == entries[..m] + entries[m..n];
    EntriesOfConcat(entries[..m], entries[m..n], name);
    ApplyAllAt(env, entries[..m], db, name);
    ApplyAllAt(env, entries[..n], db, name);
    var p := ApplyAll(env, entries[..n], db).rollback;
    ExecAllAt(ApplyAll(env, entries[..m], db).db, p + more, name);
    StmtsOfConcat(p, more, name);
    if name in db {
      SpoilsNoMore(env, entries, n, name, At(db, name));
      EntriesOfAreEntries(entries[..n], name);
      ExistingTableRestored(env, a, b, name, db[name]);
      assert StmtsOf(p, name) + [] == StmtsOf(p, name);
    } else {
      NewTableRemoved(env, a, b, StmtsOf(more, name));
    }
  }

  /**
   Whatever part of a run, complete or failed, stays in the database, as with statements that commit what was done
   before them, replaying the collected rollback on it restores the database exactly, if no row has a spoiled key.
   */
  lemma AnyPartIsUndone(env: Env, entries: seq<Entry>, db: Db, m: nat)
    requires Complete(env) && UndoableOn(env, entries, db) && m <= Applied(env, entries, db)
    ensures ExecAll(ApplyAll(env, entries[..m], db).db, ApplyAll(env, entries, db).rollback) == db
  {
    var n := Applied(env, entries, db);
    var more := Collected(env, entries, n);
    PartApplies(env, entries, db, m);
    PartApplies(env, entries, db, n);
    RunStops(env, entries, db);
    forall name
      ensures At(ExecAll(ApplyAll(env, entries[..m], db).db, ApplyAll(env, entries, db).rollback), name) == At(db, name)
    {
      if name in db {
        NeverDropsExisting(env, entries[..n], db, name);
        assert StmtsOf(more, name) == [];
      }
      TableRestored(env, entries, db, name, m, n, more);
    }
    SameTables(ExecAll(ApplyAll(env, entries[..m], db).db, ApplyAll(env, entries, db).rollback), db);
  }

  /** Where no row has a spoiled key, replaying the rollback restores the database exactly. */
  lemma RollbackRestores(env: Env, entries: seq<Entry>, db: Db)
    requires Complete(env) && UndoableOn(env, entries, db)
    ensures Restores(env, entries, db)
  {
    var n := Applied(env, entries, db);
    RunStops(env, entries, db);
    if n == |entries| {
      assert entries[..n] == entries;
      AnyPartIsUndone(env, entries, db, n);
    }
  }

  /** A failed run whose transaction is rolled back leaves a rollback that does no harm. */
  lemma FailedRunIsHarmless(env: Env, entries: seq<Entry>, db: Db)
    requires Complete(env) && UndoableOn(env, entries, db)
    ensures ExecAll(db, ApplyAll(env, entries, db).rollback) == db
  {
    AnyPartIsUndone(env, entries, db, 0);
  }

  /** A table that was there stays, and is never marked for dropping, even where an entry fails. */
  lemma {:induction false} NeverDropsExisting(env: Env, entries: seq<Entry>, db: Db, name: string)
    requires Complete(env) && name in db
    ensures name in ApplyAll(env, entries, db).db
    ensures Drop(name) !in ApplyAll(env, entries, db).rollback
    decreases entries
  {
    if entries != [] {
      var e, r := entries[0], ApplyEntry(env, entries[0], db);
      RollbackOnOneTable(env, e, At(db, e.table));
      if name in r.db {
        NeverDropsExisting(env, entries[1..], r.db, name);
      }
      if e.table == name {
        NoDropOnExisting(env, e, db[name]);
      }
    }
  }

  lemma NoDropOnExisting(env: Env, e: Entry, t: Table)
    requires Complete(env)
    ensures var f := ApplyOn(env, e, Some(t)); f.ok && f.t.Some? && forall s :: s in f.rollback ==> !s.Drop?
  {
    HeldIsHeld(env, t, Ids(env, e));
    PutBackPuts(e.table, t, Held(env, t, Ids(env, e)));
  }

  lemma {:induction false} PutBackPuts(table: string, t: Table, keys: seq<Key>)
    requires forall k :: k in keys ==> k in t
    ensures forall s :: s in PutBack(table, t, keys) ==> s.Put?
  {
    if keys != [] {
      PutBackPuts(table, t, keys[..|keys| - 1]);
    }
  }

  /** The database in which every table of the package exists and is empty. */
  function EmptyTables(entries: seq<Entry>): Db {
    map e | e in entries :: e.table := map[]
  }

  lemma {:induction false} AppliesToExisting(env: Env, entries: seq<Entry>, db: Db)
    requires Complete(env) && forall e :: e in entries ==> e.table in db
    ensures ApplyAll(env, entries, db).ok
    decreases entries
  {
    if entries != [] {
      var r := ApplyEntry(env, entries[0], db);
      assert entries[0] in entries;
      NoDropOnExisting(env, entries[0], db[entries[0].table]);
      assert forall e :: e in entries[1..] ==> e in entries;
      AppliesToExisting(env, entries[1..], r.db);
    }
  }

  /** What a replay leaves of one table of a database that has them all. */
  lemma ReplayedTable(env: Env, entries: seq<Entry>, db: Db, name: string)
    requires Complete(env) && name in db && forall e :: e in entries ==> e.table in db
    ensures var r, f := ApplyAll(env, entries, db), ApplyOnAll(env, EntriesOf(entries, name), Some(db[name]));
      r.ok && At(ExecAll(r.db, r.rollback), name) == ExecOnAll(f.t, f.rollback)
  {
    AppliesToExisting(env, entries, db);
    var r := ApplyAll(env, entries, db);
    ApplyAllAt(env, entries, db, name);
    ExecAllAt(r.db, r.rollback, name);
  }

  /** Every row stands under the key that the database gives it. */
  ghost predicate WellKept(env: Env, db: Db) {
    forall name, k :: name in db && k in db[name] ==> env.dbKey(name, db[name][k]) == k
  }

  lemma HeldIsPossible(env: Env, db: Db, name: string, k: Key)
    requires WellKept(env, db) && name in db && k in db[name]
    ensures Possible(env, name, k)
  {
    assert env.dbKey(name, db[name][k]) == k;
  }

  lemma EmptyTableOf(entries: seq<Entry>, name: string)
    requires EntriesOf(entries, name) != []
    ensures var a := EmptyTables(entries);
      name in a && a[name] == map[] && forall e :: e in entries ==> e.table in a
  {
    EntriesOfAreEntries(entries, name);
    assert EntriesOf(entries, name)[0] in entries;
  }

  lemma EmptyAndOneRow(env: Env, entries: seq<Entry>, name: string, k: Key, row: Row)
    ensures WellKept(env, EmptyTables(entries))
    ensures env.dbKey(name, row) == k ==> WellKept(env, EmptyTables(entries)[name := map[k := row]])
  {
  }

  /** Replaying on a database with all tables restores each of them, or the whole is not restored. */
  lemma TableNotRestored(env: Env, entries: seq<Entry>, db: Db, name: string)
    requires Complete(env) && name in db && forall e :: e in entries ==> e.table in db
    requires var f := ApplyOnAll(env, EntriesOf(entries, name), Some(db[name]));
      ExecOnAll(f.t, f.rollback) != Some(db[name])
    ensures !Restores(env, entries, db)
  {
    ReplayedTable(env, entries, db, name);
    assert At(db, name) == Some(db[name]);
  }

  /**
   Where a key is spoiled, some database is not restored: all tables empty, or one row under this key, which may be
   one that has it.
   */
  lemma SpoiledBreaksRollback(env: Env, entries: seq<Entry>, name: string, k: Key, row: Row)
    requires Complete(env) && Spoiled(env, EntriesOf(entries, name), k)
    ensures exists db :: !Restores(env, entries, db) && (env.dbKey(name, row) == k ==> WellKept(env, db))
  {
    var a, mine := EmptyTables(entries), EntriesOf(entries, name);
    EmptyTableOf(entries, name);
    var b := a[name := map[k := row]];
    EmptyAndOneRow(env, entries, name, k, row);
    SpoiledTableNotRestored(env, mine, k, row);
    var f := ApplyOnAll(env, mine, Some(map[]));
    if ExecOnAll(f.t, f.rollback) != Some(map[]) {
      TableNotRestored(env, entries, a, name);
    } else {
      TableNotRestored(env, entries, b, name);
    }
  }

  /**
   The rollback restores every database the package applies to if and only if, of every key of every table, the
   first entry that touches it claims it and no later entry claims it.
   */
  lemma RollbackExactlyWhen(env: Env, entries: seq<Entry>)
    requires Complete(env)
    ensures (forall db :: Restores(env, entries, db)) <==> Undoable(env, entries)
  {
    if Undoable(env, entries) {
      forall db
        ensures Restores(env, entries, db)
      {
        RollbackRestores(env, entries, db);
      }
    } else {
      var name, k :| Spoiled(env, EntriesOf(entries, name), k);
      SpoiledBreaksRollback(env, entries, name, k, map[]);
    }
  }

  /** Of the databases whose rows stand under their own keys, only keys that a row has matter. */
  lemma RollbackExactlyWhenKept(env: Env, entries: seq<Entry>)
    requires Complete(env)
    ensures (forall db :: WellKept(env, db) ==> Restores(env, entries, db)) <==>
      forall name, k :: Spoiled(env, EntriesOf(entries, name), k) ==> !Possible(env, name, k)
  {
    if name, k :| Spoiled(env, EntriesOf(entries, name), k) && Possible(env, name, k) {
      var row :| env.dbKey(name, row) == k;
      SpoiledBreaksRollback(env, entries, name, k, row);
    } else {
      forall db | WellKept(env, db)
        ensures Restores(env, entries, db)
      {
        forall name, k | Spoiled(env, EntriesOf(entries, name), k)
          ensures !Possible(env, name, k) && (name in db ==> k !in db[name])
        {
          if name in db && k in db[name] {
            HeldIsPossible(env, db, name, k);
          }
        }
        RollbackRestores(env, entries, db);
      }
    }
  }

  /** When two entries claim a key, some database is not restored; if a row has this key, it may be well kept. */
  lemma ClashBreaksRollback(env: Env, entries: seq<Entry>, i: nat, j: nat, k: Key, row: Row)
    requires Complete(env)
    requires i < j < |entries| && entries[i].table == entries[j].table
    requires k in Claimed(env, entries[i]) && k in Claimed(env, entries[j])
    ensures exists db :: !Restores(env, entries, db) && (env.dbKey(entries[i].table, row) == k ==> WellKept(env, db))
  {
    ClashSpoils(env, entries, i, j, k);
    SpoiledBreaksRollback(env, entries, entries[i].table, k, row);
  }

  /** Where the IN lists find all rows, this is the only way to fail. */
  lemma RollbackExactlyWhenDisjoint(env: Env, entries: seq<Entry>)
    requires Complete(env) && AllCovered(env, entries)
    ensures (forall db :: Restores(env, entries, db)) <==> DisjointClaims(env, entries)
  {
    if DisjointClaims(env, entries) {
      forall name, k
        ensures !Spoiled(env, EntriesOf(entries, name), k)
      {
        DisjointIsUnspoiled(env, entries, name, k);
      }
      RollbackExactlyWhen(env, entries);
    } else {
      var i, j :| 0 <= i < j < |entries| && entries[i].table == entries[j].table
        && !(Claimed(env, entries[i]) !! Claimed(env, entries[j]));
      var k :| k in Claimed(env, entries[i]) && k in Claimed(env, entries[j]);
      ClashBreaksRollback(env, entries, i, j, k, map[]);
    }
  }

  /** A row that no IN list so far finds is written and, somewhere, never removed again. */
  lemma UncoveredRowStays(env: Env, entries: seq<Entry>, i: nat, k: Key)
    requires Complete(env) && i < |entries| && k in Written(env, entries[i])
    requires forall j :: 0 <= j <= i && entries[j].table == entries[i].table ==> k !in Claimed(env, entries[j])
    ensures exists db :: WellKept(env, db) && !Restores(env, entries, db)
  {
    var r :| r in entries[i].data && env.dbKey(entries[i].table, r) == k;
    UnclaimedWriteSpoils(env, entries, i, k);
    SpoiledBreaksRollback(env, entries, entries[i].table, k, r);
  }

  // ---- packages put together by Add ----

  /** With one upsert entry per table there is nothing to clash. */
  lemma OnePerKeyIsDisjoint(env: Env, entries: seq<Entry>)
    requires OnePerKey(entries)
    ensures DisjointClaims(env, entries)
  {
    forall i, j | 0 <= i < j < |entries| && entries[i].table == entries[j].table
      ensures Claimed(env, entries[i]) !! Claimed(env, entries[j])
    {
      assert KeyOf(entries[i]) != KeyOf(entries[j]);
    }
  }

  /** A row that is not found is not found by the other entries of its table either: they claim nothing. */
  lemma UncoveredBreaksBuilt(env: Env, entries: seq<Entry>, i: nat)
    requires Complete(env) && OnePerKey(entries) && i < |entries| && !Covered(env, entries[i])
    ensures exists db :: WellKept(env, db) && !Restores(env, entries, db)
  {
    var k :| k in Written(env, entries[i]) && k !in Claimed(env, entries[i]);
    forall j | 0 <= j <= i && entries[j].table == entries[i].table
      ensures k !in Claimed(env, entries[j])
    {
      if j < i {
        assert KeyOf(entries[j]) != KeyOf(entries[i]);
      }
    }
    UncoveredRowStays(env, entries, i, k);
  }

  /**
   The rollback of a package built by adding entries restores every database it applies to if and only if every
   row to be upserted has its key columns. It already fails on a database whose rows stand under their own keys.
   */
  lemma BuiltPackagesRollBack(env: Env, adds: seq<Addition>)
    requires Complete(env)
    requires forall e :: e in AddAll(EMPTY, adds).entries ==> Faithful(env, e)
    ensures var entries := AddAll(EMPTY, adds).entries;
      if forall e :: e in entries ==> AllHaveKeys(e) then forall db :: Restores(env, entries, db)
      else exists db :: WellKept(env, db) && !Restores(env, entries, db)
  {
    var entries := AddAll(EMPTY, adds).entries;
    AddRun(adds, EntryKey("", 0));
    OnePerKeyIsDisjoint(env, entries);
    forall e | e in entries
      ensures Covered(env, e) <==> AllHaveKeys(e)
    {
      CoveredExactlyWhen(env, e);
    }
    if AllCovered(env, entries) {
      RollbackExactlyWhenDisjoint(env, entries);
    } else {
      var e :| e in entries && !Covered(env, e);
      var i :| 0 <= i < |entries| && entries[i] == e;
      UncoveredBreaksBuilt(env, entries, i);
    }
  }

  /** One row without its key column is enough: it is written, and the rollback does not take it away. */
  lemma MissingKeyColumnStays(env: Env, name: string)
    requires Complete(env)
    requires var e := Entry(UPSERT_DATA, "t", ["id"], "", [map["name" := name]]); Faithful(env, e)
    ensures exists db ::
      WellKept(env, db) && !Restores(env, [Entry(UPSERT_DATA, "t", ["id"], "", [map["name" := name]])], db)
  {
    var r: Row := map["name" := name];
    var e := Entry(UPSERT_DATA, "t", ["id"], "", [r]);
    assert "id" in ["id"] && "id" !in r && r in e.data;
    RowIsNotCovered(env, e, r);
    UncoveredRowStays(env, [e], 0, env.dbKey("t", r));
  }
}
