/**
 Comparison of two tables by primary key (internal/engine/compare.go): rows are found again by their key, and those
 found on both sides are compared column by column. It counts what the row-by-row comparison counts, except that a
 changed row is one change here and one missing plus one extra row there.
 */
module KeyDiff {
  import opened GoStrings
  import opened Decimal
  import opened KeyedRows
  import opened RowDiff

  /** The existence key of a row. */
  function PkOf<V>(norm: Normalizer<V>, row: Row<V>, pk: seq<string>): string {
    KeyOf(norm, false, row, pk)
  }

  /** What is kept of a row: the compared columns. */
  function Sample<V>(row: Row<V>, content: seq<string>): Row<V> {
    map c | c in content && c in row :: row[c]
  }

  /** For each key, the first of the first `n` rows that has it. */
  function Indexed<V>(norm: Normalizer<V>, rows: seq<Row<V>>, pk: seq<string>, content: seq<string>, n: nat):
    map<string, Row<V>>
    requires n <= |rows|
  {
    if n == 0 then map[]
    else
      var m, k := Indexed(norm, rows, pk, content, n - 1), PkOf(norm, rows[n - 1], pk);
      if k in m then m else m[k := Sample(rows[n - 1], content)]
  }

  // ---- the program ----

  method LoadRowsByPK<V>(norm: Normalizer<V>, rows: seq<Row<V>>, pk: seq<string>, content: seq<string>)
    returns (m: map<string, Row<V>>)
    ensures m == Indexed(norm, rows, pk, content, |rows|)
  {
    m := map[];
    for n := 0 to |rows|
      invariant m == Indexed(norm, rows, pk, content, n)
    {
      var key := RowKey(norm, false, rows[n], pk);
      if key !in m {
        m := m[key := Sample(rows[n], content)];
      }
    }
  }

  /** `diffRowValues`: the columns with different values. */
  method DiffRowValues<V>(norm: Normalizer<V>, src: Row<V>, tgt: Row<V>, content: seq<string>)
    returns (columns: seq<string>)
    ensures columns == [] <==> Values(norm, src, content) == Values(norm, tgt, content)
    ensures forall c :: c in columns <==> c in content && ValueAt(norm, src, c) != ValueAt(norm, tgt, c)
  {
    columns := [];
    for n := 0 to |content|
      invariant forall c :: c in columns <==> c in content[..n] && ValueAt(norm, src, c) != ValueAt(norm, tgt, c)
    {
      if ValueAt(norm, src, content[n]) != ValueAt(norm, tgt, content[n]) {
        columns := columns + [content[n]];
      }
    }
    assert content[..|content|] == content;
    ValuesAgree(norm, src, tgt, content);
    if columns != [] {
      assert columns[0] in columns;
    }
  }

  lemma {:induction false} ValuesAgree<V>(norm: Normalizer<V>, a: Row<V>, b: Row<V>, columns: seq<string>)
    ensures Values(norm, a, columns) == Values(norm, b, columns) <==>
      forall c :: c in columns ==> ValueAt(norm, a, c) == ValueAt(norm, b, c)
  {
    if columns != [] {
      ValuesAgree(norm, a, b, columns[1..]);
      var x, y := Values(norm, a, columns), Values(norm, b, columns);
      assert x[0] == ValueAt(norm, a, columns[0]) && x[1..] == Values(norm, a, columns[1..]);
      assert y[0] == ValueAt(norm, b, columns[0]) && y[1..] == Values(norm, b, columns[1..]);
      assert forall c :: c in columns <==> c == columns[0] || c in columns[1..];
    }
  }

  ghost function Changed<V>(norm: Normalizer<V>, s: map<string, Row<V>>, t: map<string, Row<V>>, content: seq<string>):
    set<string>
  {
    set k | k in s && k in t && Values(norm, s[k], content) != Values(norm, t[k], content)
  }

  /** The loop over the source rows. */
  method CompareKeys<V>(norm: Normalizer<V>, s: map<string, Row<V>>, t: map<string, Row<V>>, content: seq<string>)
    returns (missing: nat, changed: nat)
    ensures missing == |s.Keys - t.Keys| && changed == |Changed(norm, s, t, content)|
  {
    missing, changed := 0, 0;
    var todo := s.Keys;
    ghost var absent, other := s.Keys - t.Keys, Changed(norm, s, t, content);
    AllUnvisited(absent, s.Keys);
    AllUnvisited(other, s.Keys);
    while todo != {}
      invariant todo <= s.Keys
      invariant missing + Unvisited(absent, todo) == |absent| && changed + Unvisited(other, todo) == |other|
      decreases |todo|
    {
      var k :| k in todo;
      TakeOut(absent, todo, k);
      TakeOut(other, todo, k);
      todo := todo - {k};
      if k !in t {
        missing := missing + 1;
      } else {
        var differs := RowDiffers(norm, s, t, content, k);
        if differs {
          changed := changed + 1;
        }
      }
    }
  }

  method RowDiffers<V>(
    norm: Normalizer<V>, s: map<string, Row<V>>, t: map<string, Row<V>>, content: seq<string>, k: string)
    returns (differs: bool)
    requires k in s && k in t
    ensures differs <==> k in Changed(norm, s, t, content)
  {
    var diffs := DiffRowValues(norm, s[k], t[k], content);
    differs := diffs != [];
  }

  /** How many of a set are still to be visited. */
  ghost function Unvisited(all: set<string>, todo: set<string>): nat {
    |all * todo|
  }

  lemma AllUnvisited(all: set<string>, todo: set<string>)
    requires all <= todo
    ensures Unvisited(all, todo) == |all| && Unvisited(all, {}) == 0
  {
    assert all * todo == all && all * {} == {};
  }

  lemma TakeOut(all: set<string>, todo: set<string>, k: string)
    requires k in todo
    ensures Unvisited(all, todo) == Unvisited(all, todo - {k}) + if k in all then 1 else 0
  {
    assert all * todo == all * (todo - {k}) + if k in all then {k} else {};
  }

  /** The loop over the target rows. */
  method CountAbsent<V>(t: map<string, Row<V>>, s: map<string, Row<V>>) returns (extra: nat)
    ensures extra == |t.Keys - s.Keys|
  {
    extra := 0;
    var todo := t.Keys;
    ghost var absent := t.Keys - s.Keys;
    AllUnvisited(absent, t.Keys);
    while todo != {}
      invariant todo <= t.Keys && extra + Unvisited(absent, todo) == |absent|
      decreases |todo|
    {
      var k :| k in todo;
      TakeOut(absent, todo, k);
      todo := todo - {k};
      if k !in s {
        extra := extra + 1;
      }
    }
  }

  // ---- the rows behind the maps ----

  predicate Includes(content: seq<string>, pk: seq<string>) {
    forall c :: c in pk ==> c in content
  }

  lemma SampleKeepsValues<V>(norm: Normalizer<V>, row: Row<V>, content: seq<string>)
    ensures Values(norm, Sample(row, content), content) == Values(norm, row, content)
  {
    ValuesAgree(norm, Sample(row, content), row, content);
  }

  function ItemOf<V>(norm: Normalizer<V>, row: Row<V>, pk: seq<string>, content: seq<string>): Item {
    Item(PkOf(norm, row, pk), Values(norm, row, content))
  }

  function Items<V>(norm: Normalizer<V>, rows: seq<Row<V>>, pk: seq<string>, content: seq<string>): (r: seq<Item>)
    ensures |r| == |rows|
  {
    seq(|rows|, i requires 0 <= i < |rows| => ItemOf(norm, rows[i], pk, content))
  }

  /** The values of the compared columns, which include the key columns, determine the key. */
  lemma KeyFromValues<V>(norm: Normalizer<V>, a: Row<V>, b: Row<V>, pk: seq<string>, content: seq<string>)
    requires Includes(content, pk) && Values(norm, a, content) == Values(norm, b, content)
    ensures PkOf(norm, a, pk) == PkOf(norm, b, pk)
  {
    ValuesAgree(norm, a, b, content);
    ValuesAgree(norm, a, b, pk);
  }

  lemma ItemsAreKeyed<V>(
    norm: Normalizer<V>, a: seq<Row<V>>, b: seq<Row<V>>, pk: seq<string>, content: seq<string>)
    requires Includes(content, pk)
    ensures Keyed(Items(norm, a, pk, content), Items(norm, b, pk, content))
  {
    var x, y := Items(norm, a, pk, content), Items(norm, b, pk, content);
    forall i, k | 0 <= i < |a| && 0 <= k < |b| && x[i].values == y[k].values
      ensures x[i].key == y[k].key
    {
      KeyFromValues(norm, a[i], b[k], pk, content);
    }
  }

  /** The rows kept by key have the keys and the values of the first items. */
  ghost predicate StandFor<V>(
    norm: Normalizer<V>, m: map<string, Row<V>>, content: seq<string>, f: map<string, seq<string>>)
  {
    m.Keys == f.Keys && forall k :: k in m ==> Values(norm, m[k], content) == f[k]
  }

  lemma {:induction false} IndexedStandFor<V>(
    norm: Normalizer<V>, rows: seq<Row<V>>, pk: seq<string>, content: seq<string>, n: nat)
    requires n <= |rows|
    ensures StandFor(norm, Indexed(norm, rows, pk, content, n), content, First(Items(norm, rows, pk, content), n))
  {
    if n > 0 {
      IndexedStandFor(norm, rows, pk, content, n - 1);
      SampleKeepsValues(norm, rows[n - 1], content);
      OneMoreStands(
        norm, Indexed(norm, rows, pk, content, n - 1), content, First(Items(norm, rows, pk, content), n - 1),
        Items(norm, rows, pk, content)[n - 1], Sample(rows[n - 1], content));
    }
  }

  lemma OneMoreStands<V>(
    norm: Normalizer<V>, m: map<string, Row<V>>, content: seq<string>, f: map<string, seq<string>>, x: Item,
    row: Row<V>)
    requires StandFor(norm, m, content, f) && Values(norm, row, content) == x.values
    ensures StandFor(norm, m[x.key := row], content, f[x.key := x.values])
  {
  }

  lemma {:induction false} BagOfRows<V>(
    norm: Normalizer<V>, rows: seq<Row<V>>, pk: seq<string>, content: seq<string>, n: nat)
    requires n <= |rows|
    ensures Bag(Items(norm, rows, pk, content), n) == multiset(Rows(norm, rows[..n], content))
  {
    if n > 0 {
      BagOfRows(norm, rows, pk, content, n - 1);
      OneMoreInBag(norm, rows, pk, content, n);
      RowsSnoc(norm, rows, content, n);
    } else {
      assert Rows(norm, rows[..0], content) == [];
    }
  }

  lemma OneMoreInBag<V>(norm: Normalizer<V>, rows: seq<Row<V>>, pk: seq<string>, content: seq<string>, n: nat)
    requires 0 < n <= |rows|
    ensures var x := Items(norm, rows, pk, content);
      Bag(x, n) == Bag(x, n - 1) + multiset{Values(norm, rows[n - 1], content)}
  {
    ItemAt(norm, rows, pk, content, n - 1);
  }

  lemma RowsSnoc<V>(norm: Normalizer<V>, rows: seq<Row<V>>, content: seq<string>, n: nat)
    requires 0 < n <= |rows|
    ensures multiset(Rows(norm, rows[..n], content)) ==
      multiset(Rows(norm, rows[..n - 1], content)) + multiset{Values(norm, rows[n - 1], content)}
  {
    assert rows[..n][..n - 1] == rows[..n - 1];
  }

  /** The rows a table is compared by: of those with the same key, the first. */
  function Kept<V>(norm: Normalizer<V>, rows: seq<Row<V>>, pk: seq<string>, content: seq<string>):
    multiset<seq<string>>
  {
    AllRows(Left(Items(norm, rows, pk, content)))
  }

  /** No two rows have the same key, as it is normalised. */
  predicate DistinctKeys<V>(norm: Normalizer<V>, rows: seq<Row<V>>, pk: seq<string>) {
    forall i, k :: 0 <= i < k < |rows| ==> PkOf(norm, rows[i], pk) != PkOf(norm, rows[k], pk)
  }

  lemma DistinctItems<V>(norm: Normalizer<V>, rows: seq<Row<V>>, pk: seq<string>, content: seq<string>)
    ensures DistinctKeys(norm, rows, pk) <==> KeysDiffer(Items(norm, rows, pk, content))
  {
    var x := Items(norm, rows, pk, content);
    assert forall i :: 0 <= i < |rows| ==> x[i].key == PkOf(norm, rows[i], pk);
  }

  /** All rows are compared exactly if their keys are distinct. */
  lemma AllKeptExactlyWhen<V>(norm: Normalizer<V>, rows: seq<Row<V>>, pk: seq<string>, content: seq<string>)
    ensures Kept(norm, rows, pk, content) == multiset(Rows(norm, rows, content)) <==> DistinctKeys(norm, rows, pk)
  {
    var x := Items(norm, rows, pk, content);
    DistinctItems(norm, rows, pk, content);
    AllAreLeft(x);
    BagOfRows(norm, rows, pk, content, |rows|);
    assert rows[..|rows|] == rows;
    BagSize(x, |x|);
    BagSize(Left(x), |Left(x)|);
  }

  // ---- the comparison ----

  datatype KeyedDiff = KeyedDiff(missing: nat, extra: nat, changed: nat, equal: bool)

  /** The rows that two tables do not have in common are counted: each missing, extra, or one side of a change. */
  predicate CountsRows(s: multiset<seq<string>>, t: multiset<seq<string>>, d: KeyedDiff) {
    && d.missing + d.changed == |s - t|
    && d.extra + d.changed == |t - s|
    && d.missing - d.extra == |s| - |t|
    && (d.equal <==> s == t)
  }

  method CompareByKey<V>(
    norm: Normalizer<V>, src: seq<Row<V>>, tgt: seq<Row<V>>, pk: seq<string>, content: seq<string>)
    returns (d: KeyedDiff)
    ensures var s, t := Indexed(norm, src, pk, content, |src|), Indexed(norm, tgt, pk, content, |tgt|);
      && d.missing == |s.Keys - t.Keys| && d.extra == |t.Keys - s.Keys|
      && d.changed == |Changed(norm, s, t, content)|
    ensures d.equal <==> ReportedEqual(norm, src, tgt, pk, content)
    ensures Includes(content, pk) ==>
      CountsRows(Kept(norm, src, pk, content), Kept(norm, tgt, pk, content), d)
  {
    var srcRows := LoadRowsByPK(norm, src, pk, content);
    var tgtRows := LoadRowsByPK(norm, tgt, pk, content);
    var missing, changed := CompareKeys(norm, srcRows, tgtRows, content);
    var extra := CountAbsent(tgtRows, srcRows);
    d := KeyedDiff(missing, extra, changed, missing == 0 && extra == 0 && changed == 0);
    IndexedStandFor(norm, src, pk, content, |src|);
    IndexedStandFor(norm, tgt, pk, content, |tgt|);
    CountsDiffer(
      norm, srcRows, tgtRows, content, ByKey(Items(norm, src, pk, content)), ByKey(Items(norm, tgt, pk, content)), d);
    if Includes(content, pk) {
      KeyedCounts(norm, src, tgt, pk, content, d);
    }
  }

  /** Every key stands for the same values on both sides. */
  ghost predicate ReportedEqual<V>(
    norm: Normalizer<V>, src: seq<Row<V>>, tgt: seq<Row<V>>, pk: seq<string>, content: seq<string>)
  {
    ByKey(Items(norm, src, pk, content)) == ByKey(Items(norm, tgt, pk, content))
  }

  /** What was counted, in terms of the keys that differ. */
  predicate CountsKeys(f: map<string, seq<string>>, g: map<string, seq<string>>, d: KeyedDiff) {
    && d.missing + d.changed == |Differing(f, g)|
    && d.extra + d.changed == |Differing(g, f)|
    && (d.equal <==> f == g)
  }

  lemma CountsDiffer<V>(
    norm: Normalizer<V>, s: map<string, Row<V>>, t: map<string, Row<V>>, content: seq<string>,
    f: map<string, seq<string>>, g: map<string, seq<string>>, d: KeyedDiff)
    requires StandFor(norm, s, content, f) && StandFor(norm, t, content, g)
    requires d.missing == |s.Keys - t.Keys| && d.extra == |t.Keys - s.Keys|
    requires d.changed == |Changed(norm, s, t, content)|
    requires d.equal <==> d.missing == 0 && d.extra == 0 && d.changed == 0
    ensures CountsKeys(f, g, d)
  {
    SplitDiffering(norm, s, t, content, f, g);
    SplitDiffering(norm, t, s, content, g, f);
    ChangeIsMutual(norm, s, t, content);
    NoneDiffers(f, g);
    assert |Differing(f, g)| == 0 <==> Differing(f, g) == {};
    assert |Differing(g, f)| == 0 <==> Differing(g, f) == {};
  }

  lemma SplitDiffering<V>(
    norm: Normalizer<V>, s: map<string, Row<V>>, t: map<string, Row<V>>, content: seq<string>,
    f: map<string, seq<string>>, g: map<string, seq<string>>)
    requires StandFor(norm, s, content, f) && StandFor(norm, t, content, g)
    ensures |Differing(f, g)| == |s.Keys - t.Keys| + |Changed(norm, s, t, content)|
  {
    assert Differing(f, g) == (s.Keys - t.Keys) + Changed(norm, s, t, content);
  }

  lemma ChangeIsMutual<V>(norm: Normalizer<V>, s: map<string, Row<V>>, t: map<string, Row<V>>, content: seq<string>)
    ensures Changed(norm, s, t, content) == Changed(norm, t, s, content)
  {
  }

  lemma KeyedCounts<V>(
    norm: Normalizer<V>, src: seq<Row<V>>, tgt: seq<Row<V>>, pk: seq<string>, content: seq<string>, d: KeyedDiff)
    requires Includes(content, pk)
    requires CountsKeys(ByKey(Items(norm, src, pk, content)), ByKey(Items(norm, tgt, pk, content)), d)
    ensures CountsRows(Kept(norm, src, pk, content), Kept(norm, tgt, pk, content), d)
  {
    var x, y := Items(norm, src, pk, content), Items(norm, tgt, pk, content);
    AllKeyed(norm, src, tgt, pk, content);
    LeftRowsDecide(x, y);
    LeftRowsDecide(y, x);
    SameByKey(x, y);
    Balance(AllRows(Left(x)), AllRows(Left(y)));
  }

  lemma AllKeyed<V>(
    norm: Normalizer<V>, src: seq<Row<V>>, tgt: seq<Row<V>>, pk: seq<string>, content: seq<string>)
    requires Includes(content, pk)
    ensures var x, y := Items(norm, src, pk, content), Items(norm, tgt, pk, content);
      Keyed(x, x) && Keyed(x, y) && Keyed(y, x) && Keyed(y, y)
  {
    ItemsAreKeyed(norm, src, src, pk, content);
    ItemsAreKeyed(norm, src, tgt, pk, content);
    ItemsAreKeyed(norm, tgt, src, pk, content);
    ItemsAreKeyed(norm, tgt, tgt, pk, content);
  }

  // ---- when the verdict is right ----

  /** Two tables are reported equal exactly if the rows they are compared by are permutations of each other. */
  lemma KeptRowsDecide<V>(
    norm: Normalizer<V>, src: seq<Row<V>>, tgt: seq<Row<V>>, pk: seq<string>, content: seq<string>)
    requires Includes(content, pk)
    ensures ReportedEqual(norm, src, tgt, pk, content) <==>
      Kept(norm, src, pk, content) == Kept(norm, tgt, pk, content)
  {
    AllKeyed(norm, src, tgt, pk, content);
    SameByKey(Items(norm, src, pk, content), Items(norm, tgt, pk, content));
  }

  /** The rows that are left, as rows. */
  function KeptRows<V>(norm: Normalizer<V>, rows: seq<Row<V>>, pk: seq<string>, content: seq<string>, n: nat):
    seq<Row<V>>
    requires n <= |rows|
  {
    var x := Items(norm, rows, pk, content);
    if n == 0 then []
    else if HasKey(x, n - 1, x[n - 1].key) then KeptRows(norm, rows, pk, content, n - 1)
    else KeptRows(norm, rows, pk, content, n - 1) + [rows[n - 1]]
  }

  lemma {:induction false} KeptRowsAreLeft<V>(
    norm: Normalizer<V>, rows: seq<Row<V>>, pk: seq<string>, content: seq<string>, n: nat)
    requires n <= |rows|
    ensures Items(norm, KeptRows(norm, rows, pk, content, n), pk, content) ==
      Firsts(Items(norm, rows, pk, content), n)
  {
    if n > 0 {
      KeptRowsAreLeft(norm, rows, pk, content, n - 1);
      ItemAt(norm, rows, pk, content, n - 1);
      ItemsSnoc(norm, KeptRows(norm, rows, pk, content, n - 1), rows[n - 1], pk, content);
    }
  }

  lemma ItemsSnoc<V>(norm: Normalizer<V>, rows: seq<Row<V>>, row: Row<V>, pk: seq<string>, content: seq<string>)
    ensures Items(norm, rows + [row], pk, content) ==
      Items(norm, rows, pk, content) + [ItemOf(norm, row, pk, content)]
  {
  }

  lemma ItemAt<V>(norm: Normalizer<V>, rows: seq<Row<V>>, pk: seq<string>, content: seq<string>, i: nat)
    requires i < |rows|
    ensures Items(norm, rows, pk, content)[i] == ItemOf(norm, rows[i], pk, content)
  {
  }

  /** Leaving out the rows that are passed over changes nothing for the comparison. */
  lemma KeptRowsAreSame<V>(norm: Normalizer<V>, rows: seq<Row<V>>, pk: seq<string>, content: seq<string>)
    returns (kept: seq<Row<V>>)
    ensures DistinctKeys(norm, kept, pk) && ReportedEqual(norm, rows, kept, pk, content)
    ensures multiset(Rows(norm, kept, content)) == Kept(norm, rows, pk, content)
  {
    kept := KeptRows(norm, rows, pk, content, |rows|);
    var x := Items(norm, rows, pk, content);
    KeptRowsAreLeft(norm, rows, pk, content, |rows|);
    FirstsDiffer(x, |rows|);
    FirstsAreFound(x, |rows|);
    DistinctItems(norm, kept, pk, content);
    BagOfRows(norm, kept, pk, content, |kept|);
    assert kept[..|kept|] == kept;
  }

  /**
   The verdict on a table is right whatever table with distinct keys it is compared with if and only if its own
   keys, as they are normalised, are distinct.
   */
  lemma VerdictExactlyWhen<V>(norm: Normalizer<V>, src: seq<Row<V>>, pk: seq<string>, content: seq<string>)
    requires Includes(content, pk)
    ensures (forall tgt | DistinctKeys(norm, tgt, pk) ::
        ReportedEqual(norm, src, tgt, pk, content) <==>
          multiset(Rows(norm, src, content)) == multiset(Rows(norm, tgt, content)))
      <==> DistinctKeys(norm, src, pk)
  {
    AllKeptExactlyWhen(norm, src, pk, content);
    if DistinctKeys(norm, src, pk) {
      forall tgt | DistinctKeys(norm, tgt, pk)
        ensures ReportedEqual(norm, src, tgt, pk, content) <==>
          multiset(Rows(norm, src, content)) == multiset(Rows(norm, tgt, content))
      {
        AllKeptExactlyWhen(norm, tgt, pk, content);
        KeptRowsDecide(norm, src, tgt, pk, content);
      }
    } else {
      var tgt := KeptRowsAreSame(norm, src, pk, content);
      assert multiset(Rows(norm, src, content)) != multiset(Rows(norm, tgt, content));
    }
  }

  // ---- keys that normalisation folds ----

  /** Text values, normalised as the program does; a missing one is null. */
  function Texts(asTime: string -> Option<string>): Normalizer<string> {
    (v: Option<string>) => if v.Some? then NormalizeString(asTime, v.value) else "\0NULL\0"
  }

  /** The text keys 01 and 1 are one key, and two rows are reported to equal one. */
  lemma FoldedKeysAreMistaken(asTime: string -> Option<string>)
    requires asTime("1").None? && asTime("01").None?
    ensures var src, tgt := [map["id" := "01"], map["id" := "1"]], [map["id" := "1"]];
      && ReportedEqual(Texts(asTime), src, tgt, ["id"], ["id"])
      && multiset(Rows(Texts(asTime), src, ["id"])) != multiset(Rows(Texts(asTime), tgt, ["id"]))
  {
    var norm, src, tgt := Texts(asTime), [map["id" := "01"], map["id" := "1"]], [map["id" := "1"]];
    FoldsToOne(asTime);
    OneColumn(norm, src[0]);
    OneColumn(norm, src[1]);
    OneColumn(norm, tgt[0]);
    var x, y := Items(norm, src, ["id"], ["id"]), Items(norm, tgt, ["id"], ["id"]);
    assert First(x, 1) == map["1" := ["1"]] && First(x, 2) == map["1" := ["1"]];
    assert First(y, 1) == map["1" := ["1"]];
    if multiset(Rows(norm, src, ["id"])) == multiset(Rows(norm, tgt, ["id"])) {
      SameSize(Rows(norm, src, ["id"]), Rows(norm, tgt, ["id"]));
    }
  }

  lemma FoldsToOne(asTime: string -> Option<string>)
    requires asTime("1").None? && asTime("01").None?
    ensures NormalizeString(asTime, "1") == "1" && NormalizeString(asTime, "01") == "1"
  {
    assert "01"[1..] == "1" && "1"[1..] == "";
    assert Point("1") == 1 && Point("01") == 2;
    assert Body("1") == "1" && Body("01") == "01";
    assert IntPart("1") == "1" && IntPart("01") == "01";
    assert TrimLeftZeros("1") == "1" && TrimLeftZeros("01") == "1";
    assert CanonicalDecimal("1") == Some("" + ("1" + ""));
  }

  lemma OneColumn(norm: Normalizer<string>, row: Row<string>)
    requires "id" in row
    ensures Values(norm, row, ["id"]) == [norm(Some(row["id"]))] && PkOf(norm, row, ["id"]) == norm(Some(row["id"]))
  {
    var v := norm(Some(row["id"]));
    assert ["id"][1..] == [];
    assert Values(norm, row, []) == [];
    assert v + "" == v;
  }

  // ---- values that hold the separator ----

  /** Normalisation leaves the text as it is. */
  predicate IsNormal(asTime: string -> Option<string>, s: string) {
    NormalizeString(asTime, s) == s
  }

  /** A row of two text columns. */
  function TwoTexts(u: string, v: string): Row<string> {
    map["a" := u, "b" := v]
  }

  /** The row-by-row comparison takes rows for equal that differ in where a delimiter belongs. */
  lemma SeparatorMistakesRows(asTime: string -> Option<string>, x: string, y: string, z: string)
    requires var d := Delimiter(true, "b");
      IsNormal(asTime, x + (d + y)) && IsNormal(asTime, z) && IsNormal(asTime, x) && IsNormal(asTime, y + (d + z))
    ensures var d, norm, columns := Delimiter(true, "b"), Texts(asTime), ["a", "b"];
      var src, tgt := [TwoTexts(x + (d + y), z)], [TwoTexts(x, y + (d + z))];
      && multiset(Keys(norm, src, columns)) == multiset(Keys(norm, tgt, columns))
      && multiset(Rows(norm, src, columns)) != multiset(Rows(norm, tgt, columns))
  {
    var d, norm := Delimiter(true, "b"), Texts(asTime);
    SeparatorCollides(true, "a", "b", x, y, z);
    OneRow(asTime, x + (d + y), z);
    OneRow(asTime, x, y + (d + z));
    OneElement([x + (d + y), z], [x, y + (d + z)]);
  }

  lemma OneElement(a: seq<string>, b: seq<string>)
    requires a != b
    ensures multiset([a]) != multiset([b])
  {
    assert a in multiset([a]) && a !in multiset([b]);
  }

  lemma OneRow(asTime: string -> Option<string>, u: string, v: string)
    requires IsNormal(asTime, u) && IsNormal(asTime, v)
    ensures Rows(Texts(asTime), [TwoTexts(u, v)], ["a", "b"]) == [[u, v]]
    ensures Keys(Texts(asTime), [TwoTexts(u, v)], ["a", "b"]) == [Key(true, ["a", "b"], [u, v])]
  {
    var norm, row := Texts(asTime), TwoTexts(u, v);
    assert ["a", "b"][1..] == ["b"] && ["b"][1..] == [];
    assert Values(norm, row, ["b"]) == [v];
    assert Values(norm, row, ["a", "b"]) == [u, v];
    assert Rows(norm, [row], ["a", "b"]) == Rows(norm, [], ["a", "b"]) + [[u, v]];
    assert Keys(norm, [row], ["a", "b"]) == Keys(norm, [], ["a", "b"]) + [Key(true, ["a", "b"], [u, v])];
  }

  /** For example the texts `x`, separator, `b=y` and `z`, against `x` and `y`, separator, `b=z`. */
  lemma SeparatorMistakesTexts(asTime: string -> Option<string>)
    requires forall s :: asTime(s).Some? ==> s != "" && IsDigit(s[0])
    ensures var norm, columns := Texts(asTime), ["a", "b"];
      var src, tgt := [TwoTexts("x\U{1f}b=y", "z")], [TwoTexts("x", "y\U{1f}b=z")];
      && multiset(Keys(norm, src, columns)) == multiset(Keys(norm, tgt, columns))
      && multiset(Rows(norm, src, columns)) != multiset(Rows(norm, tgt, columns))
  {
    var d := Delimiter(true, "b");
    assert "x" + (d + "y") == "x\U{1f}b=y" && "y" + (d + "z") == "y\U{1f}b=z";
    WordIsNormal(asTime, "x\U{1f}b=y");
    WordIsNormal(asTime, "z");
    WordIsNormal(asTime, "x");
    WordIsNormal(asTime, "y\U{1f}b=z");
    SeparatorMistakesRows(asTime, "x", "y", "z");
  }

  lemma WordIsNormal(asTime: string -> Option<string>, s: string)
    requires s != "" && 'a' <= s[0] <= 'z' && !IsSpace(s[|s| - 1]) && asTime(s).None?
    ensures IsNormal(asTime, s)
  {
    TrimIsTrimmed(s);
    assert Point(s) > 0 && IntPart(s)[0] == s[0];
  }
}
