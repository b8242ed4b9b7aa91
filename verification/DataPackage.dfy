/** The data package: loading it and merging entries into it (internal/engine/datapackage.go). */
module DataPackages {
  import opened GoStrings

  /** A row, column by column; a missing column is nil. Values are read as text. */
  type Row = map<string, string>

  const CREATE_TABLE := 0
  const UPSERT_DATA := 1
  const EXEC_SQL := 2

  datatype Entry = Entry(typ: int, table: string, pk: seq<string>, sql: string, data: seq<Row>)

  /** Entries are merged per table and type. */
  datatype EntryKey = EntryKey(table: string, typ: int)

  function KeyOf(e: Entry): EntryKey {
    EntryKey(e.table, e.typ)
  }

  /** The composite key the program uses: the table, a NUL character, the type. */
  function MergeKey(k: EntryKey): string {
    k.table + (['\0'] + Itoa(k.typ))
  }

  /** Table names may hold NUL characters themselves; the last one still separates. */
  lemma MergeKeyInjective(a: EntryKey, b: EntryKey)
    requires MergeKey(a) == MergeKey(b)
    ensures a == b
  {
    var s := MergeKey(a);
    NoNulBehind(a);
    NoNulBehind(b);
    assert |a.table| == |b.table| by {
      assert s[|a.table|] == '\0' && s[|b.table|] == '\0';
    }
    assert s[..|a.table|] == a.table && s[..|b.table|] == b.table;
    assert s[|a.table| + 1..] == Itoa(a.typ) && s[|b.table| + 1..] == Itoa(b.typ);
    ItoaInjective(a.typ, b.typ);
  }

  lemma NoNulBehind(k: EntryKey)
    ensures var s := MergeKey(k); forall i :: |k.table| < i < |s| ==> s[i] != '\0'
  {
    DigitsAreDigits(if k.typ < 0 then -k.typ else k.typ);
    var s, n := MergeKey(k), |k.table| + 1;
    forall i | n <= i < |s|
      ensures s[i] != '\0'
    {
      assert s[i] == Itoa(k.typ)[i - n];
    }
  }

  /** The three fields that loading and adding touch; a nil index reads as an empty one. */
  datatype Pkg = Pkg(entries: seq<Entry>, mapIndex: map<string, int>, mergeIndex: map<string, nat>)

  const EMPTY := Pkg([], map[], map[])

  /** The package after adding `data` for a table: merged into the indexed entry, or a new entry at the end. */
  function Added(p: Pkg, table: string, entry: Entry): Pkg {
    var e := entry.(table := table);
    var k := MergeKey(KeyOf(e));
    if k in p.mergeIndex && p.mergeIndex[k] < |p.entries| then
      var i := p.mergeIndex[k];
      p.(entries := p.entries[i := p.entries[i].(data := p.entries[i].data + e.data)])
    else
      Pkg(p.entries + [e],
          if table in p.mapIndex then p.mapIndex else p.mapIndex[table := |p.entries|],
          p.mergeIndex[k := |p.entries|])
  }

  /** The merge index of a list of entries: the first entry of each key. */
  function FirstIndex(entries: seq<Entry>): map<string, nat> {
    if entries == [] then map[]
    else
      var m := FirstIndex(entries[..|entries| - 1]);
      var k := MergeKey(KeyOf(entries[|entries| - 1]));
      if k in m then m else m[k := |entries| - 1]
  }

  /** The entries of a decoded list without its null elements. */
  function NonNull(decoded: seq<Option<Entry>>): (r: seq<Entry>)
    ensures |r| <= |decoded|
  {
    if decoded == [] then []
    else
      var last := decoded[|decoded| - 1];
      NonNull(decoded[..|decoded| - 1]) + if last.Some? then [last.value] else []
  }

  /** What looking up a table yields; an index below zero, as a document may hold, panics. */
  datatype Lookup = Found(entry: Entry) | Missing | Panic

  class DataPackage {
    var entries: seq<Entry>
    var mapIndex: map<string, int>
    var mergeIndex: map<string, nat>

    ghost function View(): Pkg
      reads this
    {
      Pkg(entries, mapIndex, mergeIndex)
    }

    constructor ()
      ensures View() == EMPTY
    {
      entries, mapIndex, mergeIndex := [], map[], map[];
    }

    /** From a decoded document: null entries are dropped in place, and the merge index is rebuilt. */
    constructor Load(decoded: seq<Option<Entry>>, index: map<string, int>)
      ensures View() == Pkg(NonNull(decoded), index, FirstIndex(NonNull(decoded)))
    {
      var es := DropNulls(decoded);
      var merge := IndexFirst(es);
      entries, mapIndex, mergeIndex := es, index, merge;
    }

    static method DropNulls(decoded: seq<Option<Entry>>) returns (es: seq<Entry>)
      ensures es == NonNull(decoded)
    {
      var n := 0;
      var kept := decoded;
      for i := 0 to |decoded|
        invariant n <= i && |kept| == |decoded|
        invariant forall j :: i <= j < |decoded| ==> kept[j] == decoded[j]
        invariant n == |NonNull(decoded[..i])|
        invariant forall j :: 0 <= j < n ==> kept[j] == Some(NonNull(decoded[..i])[j])
      {
        assert decoded[..i + 1][..i] == decoded[..i];
        if kept[i].Some? {
          kept := kept[n := kept[i]];
          n := n + 1;
        }
      }
      assert decoded[..|decoded|] == decoded;
      es := seq(n, j requires 0 <= j < n && kept[j].Some? => kept[j].value);
    }

    static method IndexFirst(es: seq<Entry>) returns (merge: map<string, nat>)
      ensures merge == FirstIndex(es)
    {
      merge := map[];
      for i := 0 to |es|
        invariant merge == FirstIndex(es[..i])
      {
        assert es[..i + 1][..i] == es[..i];
        var k := MergeKey(KeyOf(es[i]));
        if k !in merge {
          merge := merge[k := i];
        }
      }
      assert es[..|es|] == es;
    }

    method Add(table: string, entry: Entry)
      modifies this
      ensures View() == Added(old(View()), table, entry)
    {
      var e := entry.(table := table);
      var k := MergeKey(KeyOf(e));
      if k in mergeIndex && mergeIndex[k] < |entries| {
        var i := mergeIndex[k];
        entries := entries[i := entries[i].(data := entries[i].data + e.data)];
        return;
      }
      entries := entries + [e];
      mergeIndex := mergeIndex[k := |entries| - 1];
      if table !in mapIndex {
        mapIndex := mapIndex[table := |entries| - 1];
      }
    }

    /** The entry the public index names for a table; the index of a loaded document is taken as it is. */
    method GetTable(table: string) returns (r: Lookup)
      ensures r ==
        if table !in mapIndex || mapIndex[table] >= |entries| then Missing
        else if mapIndex[table] < 0 then Panic
        else Found(entries[mapIndex[table]])
    {
      if table in mapIndex {
        var i := mapIndex[table];
        if i < |entries| {
          if i < 0 {
            return Panic;
          }
          return Found(entries[i]);
        }
      }
      return Missing;
    }
  }

  // ---- what merging means ----

  /** `m` names the first place of every key in the list, and nothing else. */
  ghost predicate Indexes(keys: seq<string>, m: map<string, int>) {
    && (forall i :: 0 <= i < |keys| ==> keys[i] in m)
    && (forall k :: k in m ==> 0 <= m[k] < |keys| && keys[m[k]] == k)
    && (forall i :: 0 <= i < |keys| ==> m[keys[i]] <= i)
  }

  lemma IndexesAppend(keys: seq<string>, m: map<string, int>, k: string)
    requires Indexes(keys, m)
    ensures Indexes(keys + [k], if k in m then m else m[k := |keys|])
  {
  }

  function MergeKeys(entries: seq<Entry>): (r: seq<string>)
    ensures |r| == |entries|
  {
    seq(|entries|, i requires 0 <= i < |entries| => MergeKey(KeyOf(entries[i])))
  }

  function Tables(entries: seq<Entry>): (r: seq<string>)
    ensures |r| == |entries|
  {
    seq(|entries|, i requires 0 <= i < |entries| => entries[i].table)
  }

  ghost predicate Indexed(p: Pkg) {
    Indexes(MergeKeys(p.entries), p.mergeIndex)
  }

  ghost predicate TableIndexed(p: Pkg) {
    Indexes(Tables(p.entries), p.mapIndex)
  }

  ghost predicate OnePerKey(entries: seq<Entry>) {
    forall i, j :: 0 <= i < j < |entries| ==> KeyOf(entries[i]) != KeyOf(entries[j])
  }

  /** All rows of a key, entry by entry. */
  function RowsOf(entries: seq<Entry>, k: EntryKey): seq<Row> {
    if entries == [] then []
    else
      var e := entries[|entries| - 1];
      RowsOf(entries[..|entries| - 1], k) + if KeyOf(e) == k then e.data else []
  }

  lemma {:induction false} FirstIndexIndexes(entries: seq<Entry>)
    ensures Indexes(MergeKeys(entries), FirstIndex(entries))
  {
    if entries != [] {
      var n := |entries| - 1;
      FirstIndexIndexes(entries[..n]);
      MergeKeysLast(entries);
      IndexesAppend(MergeKeys(entries[..n]), FirstIndex(entries[..n]), MergeKey(KeyOf(entries[n])));
    }
  }

  lemma MergeKeysLast(entries: seq<Entry>)
    requires entries != []
    ensures var n := |entries| - 1;
      MergeKeys(entries) == MergeKeys(entries[..n]) + [MergeKey(KeyOf(entries[n]))]
  {
  }

  /** Loading indexes every entry that is left. */
  lemma LoadedIsIndexed(entries: seq<Entry>, index: map<string, int>)
    ensures Indexed(Pkg(entries, index, FirstIndex(entries)))
  {
    FirstIndexIndexes(entries);
  }

  /** Adding keeps both indexes right. */
  lemma AddedKeepsIndexes(p: Pkg, table: string, entry: Entry)
    requires Indexed(p)
    ensures Indexed(Added(p, table, entry))
    ensures TableIndexed(p) ==> TableIndexed(Added(p, table, entry))
  {
    var q, e := Added(p, table, entry), entry.(table := table);
    var k := MergeKey(KeyOf(e));
    if k in p.mergeIndex {
      assert MergeKeys(q.entries) == MergeKeys(p.entries);
      assert Tables(q.entries) == Tables(p.entries);
    } else {
      IndexesAppend(MergeKeys(p.entries), p.mergeIndex, k);
      assert MergeKeys(q.entries) == MergeKeys(p.entries) + [k];
      if TableIndexed(p) {
        IndexesAppend(Tables(p.entries), p.mapIndex, table);
        assert Tables(q.entries) == Tables(p.entries) + [table];
      }
    }
  }

  /** A key the merge index does not name is the key of no entry. */
  lemma UnindexedIsAbsent(p: Pkg, e: Entry)
    requires Indexed(p) && MergeKey(KeyOf(e)) !in p.mergeIndex
    ensures forall x :: x in p.entries ==> KeyOf(x) != KeyOf(e)
  {
    forall x | x in p.entries
      ensures KeyOf(x) != KeyOf(e)
    {
      var i :| 0 <= i < |p.entries| && p.entries[i] == x;
      assert MergeKeys(p.entries)[i] in p.mergeIndex;
    }
  }

  /** A key the merge index names is the key of the entry it names. */
  lemma IndexedIsThere(p: Pkg, e: Entry)
    requires Indexed(p) && MergeKey(KeyOf(e)) in p.mergeIndex
    ensures var i := p.mergeIndex[MergeKey(KeyOf(e))]; i < |p.entries| && KeyOf(p.entries[i]) == KeyOf(e)
  {
    var i := p.mergeIndex[MergeKey(KeyOf(e))];
    assert MergeKeys(p.entries)[i] == MergeKey(KeyOf(e));
    MergeKeyInjective(KeyOf(p.entries[i]), KeyOf(e));
  }

  /** The merge index has an entry to merge into. */
  predicate Merges(p: Pkg, k: EntryKey) {
    MergeKey(k) in p.mergeIndex && p.mergeIndex[MergeKey(k)] < |p.entries|
  }

  /** Adding makes a second entry for a key exactly if the package has one that the merge index does not know. */
  lemma AddedKeepsOnePerKey(p: Pkg, table: string, entry: Entry)
    requires OnePerKey(p.entries)
    ensures var k := EntryKey(table, entry.typ);
      OnePerKey(Added(p, table, entry).entries) <==>
        Merges(p, k) || forall e :: e in p.entries ==> KeyOf(e) != k
  {
    var q, k := Added(p, table, entry).entries, EntryKey(table, entry.typ);
    if !Merges(p, k) {
      assert q[|p.entries|] == entry.(table := table);
      if e :| e in p.entries && KeyOf(e) == k {
        var i :| 0 <= i < |p.entries| && p.entries[i] == e;
        assert q[i] == e;
        assert KeyOf(q[i]) == KeyOf(q[|p.entries|]);
      }
    }
  }

  /** With the index in order, as after loading or in a new package, it never does. */
  lemma IndexedMeansOnePerKey(p: Pkg, table: string, entry: Entry)
    requires Indexed(p) && OnePerKey(p.entries)
    ensures OnePerKey(Added(p, table, entry).entries)
  {
    var e := entry.(table := table);
    AddedKeepsOnePerKey(p, table, entry);
    if MergeKey(KeyOf(e)) in p.mergeIndex {
      IndexedIsThere(p, e);
    } else {
      UnindexedIsAbsent(p, e);
    }
  }

  lemma {:induction false} RowsOfUpdated(entries: seq<Entry>, i: nat, e: Entry, k: EntryKey)
    requires i < |entries| && KeyOf(e) == KeyOf(entries[i])
    requires forall j :: 0 <= j < |entries| && j != i ==> KeyOf(entries[j]) != KeyOf(e)
    requires entries[i].data <= e.data
    ensures RowsOf(entries[i := e], k) ==
      RowsOf(entries, k) + if KeyOf(e) == k then e.data[|entries[i].data|..] else []
  {
    var n := |entries| - 1;
    var after := entries[i := e];
    if i == n {
      assert after[..n] == entries[..n];
      RowsOfOther(entries[..n], KeyOf(e));
      var old' := entries[i].data;
      assert e.data == old' + e.data[|old'|..];
    } else {
      assert after[..n] == entries[..n][i := e];
      RowsOfUpdated(entries[..n], i, e, k);
    }
  }

  lemma {:induction false} RowsOfOther(entries: seq<Entry>, k: EntryKey)
    requires forall e :: e in entries ==> KeyOf(e) != k
    ensures RowsOf(entries, k) == []
  {
    if entries != [] {
      assert entries[|entries| - 1] in entries;
      RowsOfOther(entries[..|entries| - 1], k);
    }
  }

  /** Where Add merges, it merges into the one entry of the key. */
  ghost predicate MergesRight(p: Pkg, k: EntryKey) {
    Merges(p, k) ==>
      var i := p.mergeIndex[MergeKey(k)];
      forall j :: 0 <= j < |p.entries| ==> (KeyOf(p.entries[j]) == k <==> j == i)
  }

  /** Adding appends the rows to those of its key and leaves every other key alone. */
  lemma AddedRows(p: Pkg, table: string, entry: Entry, k: EntryKey)
    requires MergesRight(p, EntryKey(table, entry.typ))
    ensures RowsOf(Added(p, table, entry).entries, k) ==
      RowsOf(p.entries, k) + if k == EntryKey(table, entry.typ) then entry.data else []
  {
    var e := entry.(table := table);
    if Merges(p, KeyOf(e)) {
      var i := p.mergeIndex[MergeKey(KeyOf(e))];
      var merged := p.entries[i].(data := p.entries[i].data + e.data);
      assert KeyOf(p.entries[i]) == KeyOf(e);
      assert merged.data[|p.entries[i].data|..] == e.data;
      RowsOfUpdated(p.entries, i, merged, k);
    } else {
      assert (p.entries + [e])[..|p.entries|] == p.entries;
    }
  }

  lemma IndexedMergesRight(p: Pkg, e: Entry)
    requires Indexed(p) && OnePerKey(p.entries)
    ensures MergesRight(p, KeyOf(e))
  {
    if Merges(p, KeyOf(e)) {
      IndexedIsThere(p, e);
    }
  }

  // ---- whole runs of Add ----

  datatype Addition = Addition(table: string, entry: Entry)

  function AddAll(p: Pkg, adds: seq<Addition>): Pkg {
    if adds == [] then p
    else Added(AddAll(p, adds[..|adds| - 1]), adds[|adds| - 1].table, adds[|adds| - 1].entry)
  }

  function RowsAdded(adds: seq<Addition>, k: EntryKey): seq<Row> {
    if adds == [] then []
    else
      var a := adds[|adds| - 1];
      RowsAdded(adds[..|adds| - 1], k) + if k == EntryKey(a.table, a.entry.typ) then a.entry.data else []
  }

  /**
   After any run of additions to an empty package there is one entry per table and type; its rows are all
   the rows added for that table and type, in order; and the public index names each table's first entry.
   */
  lemma {:induction false} AddRun(adds: seq<Addition>, k: EntryKey)
    ensures var p := AddAll(EMPTY, adds);
      && Indexed(p) && OnePerKey(p.entries) && TableIndexed(p)
      && RowsOf(p.entries, k) == RowsAdded(adds, k)
  {
    if adds != [] {
      var before, a := adds[..|adds| - 1], adds[|adds| - 1];
      AddRun(before, k);
      AddedKeepsIndexes(AddAll(EMPTY, before), a.table, a.entry);
      IndexedMeansOnePerKey(AddAll(EMPTY, before), a.table, a.entry);
      IndexedMergesRight(AddAll(EMPTY, before), a.entry.(table := a.table));
      AddedRows(AddAll(EMPTY, before), a.table, a.entry, k);
    }
  }

  /** A package put together without loading has no index, and Add then repeats the key instead of merging. */
  lemma UnindexedPackageSplits(e: Entry)
    ensures !OnePerKey(Added(Pkg([e], map[], map[]), e.table, e).entries)
  {
    AddedKeepsOnePerKey(Pkg([e], map[], map[]), e.table, e);
    assert e in [e];
  }

  // ---- what loading keeps, and what the entries are ----

  /** Loading keeps the elements that are not null, in order. */
  lemma {:induction false} LoadKeepsEntries(a: seq<Option<Entry>>, b: seq<Option<Entry>>, e: Entry)
    ensures NonNull([]) == [] && NonNull(a + b) == NonNull(a) + NonNull(b)
    ensures NonNull([Some(e)]) == [e] && NonNull([None]) == []
    decreases |b|
  {
    if b == [] {
      assert a + b == a;
    } else {
      assert (a + b)[..|a + b| - 1] == a + b[..|b| - 1];
      LoadKeepsEntries(a, b[..|b| - 1], e);
    }
    var none: Option<Entry> := None;
    assert [Some(e)][..0] == [] && [none][..0] == [];
  }

  /** The entry is that of the first addition for its table and type, but for its rows. */
  ghost predicate IsOf(e: Entry, adds: seq<Addition>) {
    exists n :: 0 <= n < |adds| && IsFirstOf(e, adds, n)
  }

  predicate IsFirstOf(e: Entry, adds: seq<Addition>, n: nat)
    requires n < |adds|
  {
    var a := adds[n];
    && e.table == a.table && e.typ == a.entry.typ && e.pk == a.entry.pk && e.sql == a.entry.sql
    && forall m :: 0 <= m < n ==> adds[m].table != e.table || adds[m].entry.typ != e.typ
  }

  ghost predicate AllAreOf(es: seq<Entry>, adds: seq<Addition>) {
    forall e :: e in es ==> IsOf(e, adds)
  }

  ghost predicate AllHaveOne(es: seq<Entry>, adds: seq<Addition>) {
    forall a :: a in adds ==> exists e :: e in es && KeyOf(e) == EntryKey(a.table, a.entry.typ)
  }

  lemma AddedIsIndexed(adds: seq<Addition>)
    ensures Indexed(AddAll(EMPTY, adds))
  {
    AddRun(adds, EntryKey("", 0));
  }

  /** Every entry of a package built by adding is that of an addition, and every addition has one. */
  lemma {:induction false} EntriesAreAdded(adds: seq<Addition>)
    ensures AllAreOf(AddAll(EMPTY, adds).entries, adds) && AllHaveOne(AddAll(EMPTY, adds).entries, adds)
  {
    if adds == [] {
      NothingAdded();
    } else {
      var before, a := adds[..|adds| - 1], adds[|adds| - 1];
      assert adds == before + [a];
      EntriesAreAdded(before);
      AddedStep(before, a);
    }
  }

  lemma NothingAdded()
    ensures AllAreOf(AddAll(EMPTY, []).entries, []) && AllHaveOne(AddAll(EMPTY, []).entries, [])
  {
  }

  lemma AddedStep(before: seq<Addition>, a: Addition)
    requires AllAreOf(AddAll(EMPTY, before).entries, before) && AllHaveOne(AddAll(EMPTY, before).entries, before)
    ensures var p := AddAll(EMPTY, before + [a]);
      AllAreOf(p.entries, before + [a]) && AllHaveOne(p.entries, before + [a])
  {
    AddedIsIndexed(before);
    EntryAdded(AddAll(EMPTY, before), before, a);
    assert (before + [a])[..|before|] == before;
  }

  lemma EntryAdded(p: Pkg, before: seq<Addition>, a: Addition)
    requires Indexed(p) && AllAreOf(p.entries, before) && AllHaveOne(p.entries, before)
    ensures var q := Added(p, a.table, a.entry);
      AllAreOf(q.entries, before + [a]) && AllHaveOne(q.entries, before + [a])
  {
    var q := Added(p, a.table, a.entry);
    forall e | e in q.entries
      ensures IsOf(e, before + [a])
    {
      EntryIsOf(p, before, a, before + [a], e);
    }
    forall b | b in before + [a]
      ensures exists e :: e in q.entries && KeyOf(e) == EntryKey(b.table, b.entry.typ)
    {
      KeyStays(p, a, b, before, before + [a]);
    }
  }

  lemma KeyStays(p: Pkg, a: Addition, b: Addition, before: seq<Addition>, adds: seq<Addition>)
    requires Indexed(p) && adds == before + [a] && b in adds
    requires b in before ==> exists e :: e in p.entries && KeyOf(e) == EntryKey(b.table, b.entry.typ)
    ensures exists e :: e in Added(p, a.table, a.entry).entries && KeyOf(e) == EntryKey(b.table, b.entry.typ)
  {
    var q, added := Added(p, a.table, a.entry), a.entry.(table := a.table);
    if b in before {
      var e :| e in p.entries && KeyOf(e) == EntryKey(b.table, b.entry.typ);
      var i :| 0 <= i < |p.entries| && p.entries[i] == e;
      assert q.entries[i] in q.entries && KeyOf(q.entries[i]) == KeyOf(e);
    } else if MergeKey(KeyOf(added)) in p.mergeIndex {
      IndexedIsThere(p, added);
      var i := p.mergeIndex[MergeKey(KeyOf(added))];
      assert q.entries[i] in q.entries && KeyOf(q.entries[i]) == KeyOf(added);
    } else {
      assert q.entries[|p.entries|] == added;
    }
  }

  lemma EntryIsOf(p: Pkg, before: seq<Addition>, a: Addition, adds: seq<Addition>, e: Entry)
    requires Indexed(p) && adds == before + [a] && e in Added(p, a.table, a.entry).entries
    requires forall x :: x in p.entries ==> IsOf(x, before)
    requires forall b :: b in before ==> exists x :: x in p.entries && KeyOf(x) == EntryKey(b.table, b.entry.typ)
    ensures IsOf(e, adds)
  {
    var q, added := Added(p, a.table, a.entry), a.entry.(table := a.table);
    var i :| 0 <= i < |q.entries| && q.entries[i] == e;
    if i < |p.entries| {
      var x := p.entries[i];
      assert x in p.entries;
      var n :| 0 <= n < |before| && IsFirstOf(x, before, n);
      assert IsFirstOf(e, adds, n);
    } else {
      UnindexedIsAbsent(p, added);
      forall m | 0 <= m < |before|
        ensures adds[m].table != added.table || adds[m].entry.typ != added.typ
      {
        assert before[m] in before;
      }
      assert IsFirstOf(e, adds, |before|);
    }
  }
}
