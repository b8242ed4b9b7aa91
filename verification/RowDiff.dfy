/**
 Row-by-row comparison of two tables without a primary key (internal/engine/compare.go):
 rows become keys of normalised column values, keys are counted, and the counts are subtracted.
 */
module RowDiff {
  import opened GoStrings
  import opened Sequences

  /** A row by lower-case column name; a column the row does not have reads as null. */
  type Row<V> = map<string, V>

  /** How a column value, or null, is normalised to text. */
  type Normalizer<!V> = Option<V> -> string

  const SEPARATOR := 0x1f as char

  function ValueAt<V>(norm: Normalizer<V>, row: Row<V>, column: string): string {
    norm(if column in row then Some(row[column]) else None)
  }

  /** What a row is compared by: its normalised values, in column order. */
  function Values<V>(norm: Normalizer<V>, row: Row<V>, columns: seq<string>): (r: seq<string>)
    ensures |r| == |columns|
  {
    if columns == [] then [] else [ValueAt(norm, row, columns[0])] + Values(norm, row, columns[1..])
  }

  // ---- the keys ----

  /** The text that a key has for one column; `rowKey` names the column, `pkKey` does not. */
  function Cell(named: bool, column: string, value: string): string {
    if named then column + "=" + value else value
  }

  /** The key of a row with these values, column by column from the first. */
  function Key(named: bool, columns: seq<string>, values: seq<string>): string
    requires |columns| == |values|
  {
    if columns == [] then ""
    else Cell(named, columns[0], values[0]) + KeyTail(named, columns[1..], values[1..])
  }

  /** The part of a key behind its first cell. */
  function KeyTail(named: bool, columns: seq<string>, values: seq<string>): string
    requires |columns| == |values|
  {
    if columns == [] then ""
    else [SEPARATOR] + Cell(named, columns[0], values[0]) + KeyTail(named, columns[1..], values[1..])
  }

  function KeyOf<V>(norm: Normalizer<V>, named: bool, row: Row<V>, columns: seq<string>): string {
    Key(named, columns, Values(norm, row, columns))
  }

  /** `rowKey`, and `pkKey` where the columns are not named. */
  method RowKey<V>(norm: Normalizer<V>, named: bool, row: Row<V>, columns: seq<string>) returns (key: string)
    ensures key == KeyOf(norm, named, row, columns)
  {
    key := "";
    for i := 0 to |columns|
      invariant key + Rest(norm, named, row, columns, i) == KeyOf(norm, named, row, columns)
    {
      RestUnfolds(norm, named, row, columns, i);
      var cell := Cell(named, columns[i], ValueAt(norm, row, columns[i]));
      Assoc(key, if i > 0 then [SEPARATOR] + cell else cell, Rest(norm, named, row, columns, i + 1));
      if i > 0 {
        Assoc(key, [SEPARATOR], cell);
        key := key + [SEPARATOR];
      }
      key := key + cell;
    }
    assert key + "" == key;
  }

  /** What is still to be written when `i` columns have been. */
  ghost function Rest<V>(norm: Normalizer<V>, named: bool, row: Row<V>, columns: seq<string>, i: nat): string
    requires i <= |columns|
  {
    var c := columns[i..];
    if i == 0 then KeyOf(norm, named, row, columns) else KeyTail(named, c, Values(norm, row, c))
  }

  lemma RestUnfolds<V>(norm: Normalizer<V>, named: bool, row: Row<V>, columns: seq<string>, i: nat)
    requires i < |columns|
    ensures var cell := Cell(named, columns[i], ValueAt(norm, row, columns[i]));
      Rest(norm, named, row, columns, i) ==
        (if i > 0 then [SEPARATOR] + cell else cell) + Rest(norm, named, row, columns, i + 1)
  {
    var c := columns[i..];
    assert c[0] == columns[i] && c[1..] == columns[i + 1..];
    if i == 0 {
      assert c == columns;
    }
  }

  // ---- when equal keys mean equal rows ----

  /** What stands in a key in front of the value of a column other than the first. */
  function Delimiter(named: bool, column: string): string {
    [SEPARATOR] + Cell(named, column, "")
  }

  /** No value holds the delimiter in front of it or the one behind it. */
  predicate Apart(named: bool, columns: seq<string>, values: seq<string>)
    requires |columns| == |values|
  {
    |values| >= 2 ==>
      var d := Delimiter(named, columns[1]);
      !Contains(values[0], d) && !Contains(values[1], d) && Apart(named, columns[1..], values[1..])
  }

  lemma {:induction false} ApartMeans(named: bool, columns: seq<string>, values: seq<string>)
    requires |columns| == |values|
    ensures Apart(named, columns, values) <==>
      forall j :: 1 <= j < |values| ==>
        !Contains(values[j - 1], Delimiter(named, columns[j])) && !Contains(values[j], Delimiter(named, columns[j]))
  {
    if |values| >= 2 {
      var cs, vs := columns[1..], values[1..];
      ApartMeans(named, cs, vs);
      assert forall j :: 1 <= j < |vs| ==> vs[j] == values[j + 1] && vs[j - 1] == values[j] && cs[j] == columns[j + 1];
      if forall j :: 1 <= j < |vs| ==>
        !Contains(vs[j - 1], Delimiter(named, cs[j])) && !Contains(vs[j], Delimiter(named, cs[j]))
      {
        forall j | 2 <= j < |values|
          ensures !Contains(values[j - 1], Delimiter(named, columns[j]))
          ensures !Contains(values[j], Delimiter(named, columns[j]))
        {
          assert vs[j - 1] == values[j] && vs[(j - 1) - 1] == values[j - 1] && cs[j - 1] == columns[j];
        }
      }
    }
  }

  /** The names in a key do not hold the separator. */
  predicate Plain(named: bool, columns: seq<string>) {
    named ==> forall j :: 0 <= j < |columns| ==> forall x :: 0 <= x < |columns[j]| ==> columns[j][x] != SEPARATOR
  }

  /** A text that starts with the separator and does not hold it again. */
  predicate IsDelimiter(d: string) {
    d != "" && d[0] == SEPARATOR && forall x :: 1 <= x < |d| ==> d[x] != SEPARATOR
  }

  lemma TailShape(named: bool, columns: seq<string>, values: seq<string>)
    requires |columns| == |values| > 0
    ensures var d := Delimiter(named, columns[0]);
      && KeyTail(named, columns, values) == d + (values[0] + KeyTail(named, columns[1..], values[1..]))
      && KeyTail(named, columns, values) == [SEPARATOR] + Key(named, columns, values)
      && (Plain(named, columns) ==> IsDelimiter(d))
  {
  }

  predicate StartsSeparated(s: string) {
    s == "" || s[0] == SEPARATOR
  }

  /** A delimiter that starts inside a value ends inside it. */
  lemma InsideValue(u: string, tail: string, z: string, d: string, rest: string)
    requires IsDelimiter(d) && StartsSeparated(tail) && |z| < |u| && u + tail == z + (d + rest)
    ensures Contains(u, d)
  {
    var w := u + tail;
    assert forall x :: |z| <= x < |z| + |d| ==> w[x] == d[x - |z|];
    assert tail != "" ==> w[|u|] == SEPARATOR;
    assert |z| + |d| <= |u|;
    assert w[|z|..|z| + |d|] == d;
    MatchIsSlice(w, d, |z|);
    MatchInConcat(u, tail, d, |z|);
    IndexIsFirst(u, d);
  }

  /** Behind a delimiter no shorter text can stand before the separator. */
  lemma PastDelimiter(d: string, a: string, z: string, b: string)
    requires IsDelimiter(d) && z != "" && b != "" && b[0] == SEPARATOR && d + a == z + b
    ensures |d| <= |z| && a == z[|d|..] + b
  {
    var w := d + a;
    assert w[|z|] == SEPARATOR;
    assert forall x :: 1 <= x < |d| ==> w[x] != SEPARATOR;
    assert |d| <= |z|;
    assert a == w[|d|..];
    assert z[|d|..] + b == w[|d|..];
  }

  /** Values that do not hold the delimiters in front of them do not leave room for a text before these. */
  lemma {:induction false} NoRoomBefore(
    named: bool, columns: seq<string>, us: seq<string>, vs: seq<string>, z: string)
    requires |columns| == |us| == |vs| && Plain(named, columns)
    requires forall j :: 0 <= j < |us| ==> !Contains(us[j], Delimiter(named, columns[j]))
    requires KeyTail(named, columns, us) == z + KeyTail(named, columns, vs)
    ensures z == ""
    decreases |columns|
  {
    if columns != [] && z != "" {
      var d, u, v := Delimiter(named, columns[0]), us[0], vs[0];
      var s, t := KeyTail(named, columns[1..], us[1..]), KeyTail(named, columns[1..], vs[1..]);
      TailShape(named, columns, us);
      TailShape(named, columns, vs);
      PastDelimiter(d, u + s, z, d + (v + t));
      var y := z[|d|..];
      if |y| < |u| {
        InsideValue(u, s, y, d, v + t);
      } else {
        LongerHead(u, s, y, d + (v + t));
        Assoc(y[|u|..], d + v, t);
        Assoc(d, v, t);
        TailClear(named, columns, us);
        NoRoomBefore(named, columns[1..], us[1..], vs[1..], y[|u|..] + (d + v));
      }
    }
  }

  lemma TailClear(named: bool, columns: seq<string>, us: seq<string>)
    requires |columns| == |us| > 0 && forall j :: 0 <= j < |us| ==> !Contains(us[j], Delimiter(named, columns[j]))
    ensures forall j :: 0 <= j < |us| - 1 ==> !Contains(us[1..][j], Delimiter(named, columns[1..][j]))
  {
    assert forall j :: 0 <= j < |us| - 1 ==> us[1..][j] == us[j + 1] && columns[1..][j] == columns[j + 1];
  }

  lemma LongerHead(u: string, s: string, y: string, t: string)
    requires u + s == y + t && |u| <= |y|
    ensures s == y[|u|..] + t && u == y[..|u|]
  {
    var w := u + s;
    assert s == w[|u|..] && u == w[..|u|];
    assert y[|u|..] + t == w[|u|..];
    assert w[..|u|] == y[..|u|];
  }

  /** From the first value on, there is one way to read such a key. */
  lemma {:induction false} ReadsBack(named: bool, columns: seq<string>, us: seq<string>, vs: seq<string>)
    requires |columns| == |us| == |vs| > 0 && Plain(named, columns) && Apart(named, columns, us)
    requires us[0] + KeyTail(named, columns[1..], us[1..]) == vs[0] + KeyTail(named, columns[1..], vs[1..])
    ensures us == vs
    decreases |columns|
  {
    if |columns| == 1 {
      assert us[0] + "" == us[0] && vs[0] + "" == vs[0];
      assert us == [us[0]] && vs == [vs[0]];
    } else {
      FirstValue(named, columns, us, vs);
      LongerHead(us[0], KeyTail(named, columns[1..], us[1..]), vs[0], KeyTail(named, columns[1..], vs[1..]));
      assert vs[0] == us[0] && vs[0][|us[0]|..] == "";
      TailShape(named, columns[1..], us[1..]);
      TailShape(named, columns[1..], vs[1..]);
      SameBehind(
        Delimiter(named, columns[1]), us[1] + KeyTail(named, columns[1..][1..], us[1..][1..]),
        vs[1] + KeyTail(named, columns[1..][1..], vs[1..][1..]));
      ReadsBack(named, columns[1..], us[1..], vs[1..]);
      assert us == [us[0]] + us[1..] && vs == [vs[0]] + vs[1..];
    }
  }

  lemma SameBehind(d: string, a: string, b: string)
    requires d + a == d + b || d + a == "" + (d + b)
    ensures a == b
  {
    assert a == (d + a)[|d|..] && b == (d + b)[|d|..];
  }

  /** Neither first value can be longer than the other. */
  lemma FirstValue(named: bool, columns: seq<string>, us: seq<string>, vs: seq<string>)
    requires |columns| == |us| == |vs| > 1 && Plain(named, columns) && Apart(named, columns, us)
    requires us[0] + KeyTail(named, columns[1..], us[1..]) == vs[0] + KeyTail(named, columns[1..], vs[1..])
    ensures |us[0]| == |vs[0]|
  {
    var s, t := KeyTail(named, columns[1..], us[1..]), KeyTail(named, columns[1..], vs[1..]);
    TailShape(named, columns[1..], us[1..]);
    TailShape(named, columns[1..], vs[1..]);
    if |vs[0]| < |us[0]| {
      InsideValue(
        us[0], s, vs[0], Delimiter(named, columns[1]), vs[1] + KeyTail(named, columns[1..][1..], vs[1..][1..]));
    } else {
      LongerHead(us[0], s, vs[0], t);
      OwnDelimiters(named, columns, us);
      NoRoomBefore(named, columns[1..], us[1..], vs[1..], vs[0][|us[0]|..]);
    }
  }

  lemma OwnDelimiters(named: bool, columns: seq<string>, us: seq<string>)
    requires |columns| == |us| > 0 && Apart(named, columns, us)
    ensures forall j :: 0 <= j < |us| - 1 ==> !Contains(us[1..][j], Delimiter(named, columns[1..][j]))
  {
    ApartMeans(named, columns, us);
    forall j | 0 <= j < |us| - 1
      ensures !Contains(us[1..][j], Delimiter(named, columns[1..][j]))
    {
      assert us[1..][j] == us[j + 1] && columns[1..][j] == columns[j + 1];
    }
  }

  lemma SameCell(named: bool, column: string, u: string, v: string, s: string, t: string)
    ensures Cell(named, column, u) + s == Cell(named, column, v) + t <==> u + s == v + t
  {
    var h := if named then column + "=" else "";
    assert Cell(named, column, u) + s == h + (u + s);
    assert Cell(named, column, v) + t == h + (v + t);
    assert u + s == (h + (u + s))[|h|..];
    assert v + t == (h + (v + t))[|h|..];
  }

  /** A value that holds a delimiter, cut there. */
  lemma CutAtDelimiter(u: string, d: string) returns (x: string, y: string)
    requires Contains(u, d)
    ensures u == x + (d + y)
  {
    var i := Index(u, d);
    IndexIsFirst(u, d);
    MatchIsSlice(u, d, i);
    x, y := u[..i], u[i + |d|..];
  }

  /** For example, of two columns: a delimiter may belong to the value in front of it or to the one behind it. */
  lemma SeparatorCollides(named: bool, a: string, b: string, x: string, y: string, z: string)
    ensures var d := Delimiter(named, b);
      && Key(named, [a, b], [x + (d + y), z]) == Key(named, [a, b], [x, y + (d + z)])
      && [x + (d + y), z] != [x, y + (d + z)]
  {
    var d := Delimiter(named, b);
    var us, vs := [x + (d + y), z], [x, y + (d + z)];
    KeyOfTwo(named, [a, b], us);
    KeyOfTwo(named, [a, b], vs);
    Regroup(x, d, y, z, KeyTail(named, [], []));
    SameCell(named, a, us[0], x, d + (z + KeyTail(named, [], [])), d + (vs[1] + KeyTail(named, [], [])));
    assert |us[0]| > |x|;
  }

  /** Values that are not kept apart share their key with others. */
  lemma {:induction false} SharesKey(named: bool, columns: seq<string>, us: seq<string>) returns (vs: seq<string>)
    requires |columns| == |us| && !Apart(named, columns, us)
    ensures |vs| == |us| && vs != us && Key(named, columns, us) == Key(named, columns, vs)
  {
    var d := Delimiter(named, columns[1]);
    if Contains(us[0], d) {
      var x, y := CutAtDelimiter(us[0], d);
      vs := [x, y + (d + us[1])] + us[2..];
      KeyOfTwo(named, columns, us);
      KeyOfTwo(named, columns, vs);
      assert |x| < |us[0]|;
      Regroup(x, d, y, us[1], KeyTail(named, columns[2..], us[2..]));
      SameCell(
        named, columns[0], us[0], x, d + (us[1] + KeyTail(named, columns[2..], us[2..])),
        d + (vs[1] + KeyTail(named, columns[2..], us[2..])));
    } else if Contains(us[1], d) {
      var x, y := CutAtDelimiter(us[1], d);
      vs := [us[0] + (d + x), y] + us[2..];
      KeyOfTwo(named, columns, us);
      KeyOfTwo(named, columns, vs);
      assert |y| < |us[1]|;
      Regroup(us[0], d, x, y, KeyTail(named, columns[2..], us[2..]));
      SameCell(
        named, columns[0], us[0], vs[0], d + (us[1] + KeyTail(named, columns[2..], us[2..])),
        d + (y + KeyTail(named, columns[2..], us[2..])));
    } else {
      var ws := SharesKey(named, columns[1..], us[1..]);
      vs := [us[0]] + ws;
      assert vs[1..] == ws;
      TailShape(named, columns[1..], us[1..]);
      TailShape(named, columns[1..], ws);
    }
  }

  lemma KeyOfTwo(named: bool, columns: seq<string>, values: seq<string>)
    requires |columns| == |values| >= 2
    ensures Key(named, columns, values) == Cell(named, columns[0], values[0])
      + (Delimiter(named, columns[1]) + (values[1] + KeyTail(named, columns[2..], values[2..])))
  {
    TailShape(named, columns[1..], values[1..]);
    assert columns[1..][1..] == columns[2..] && values[1..][1..] == values[2..];
  }

  lemma Regroup(x: string, d: string, y: string, u: string, t: string)
    ensures (x + (d + y)) + (d + (u + t)) == x + (d + ((y + (d + u)) + t))
    ensures x + (d + ((y + (d + u)) + t)) == (x + (d + y)) + (d + (u + t))
  {
  }

  /**
   No other row has the key of these values if and only if no value holds the delimiter in front of it or the one
   behind it. A key of one column, and a key of values without the separator, can always be read back.
   */
  lemma KeyDecodesExactlyWhen(named: bool, columns: seq<string>, us: seq<string>)
    requires |columns| == |us| && Plain(named, columns)
    ensures (forall vs :: |vs| == |us| && Key(named, columns, us) == Key(named, columns, vs) ==> us == vs) <==>
      Apart(named, columns, us)
  {
    if Apart(named, columns, us) {
      forall vs | |vs| == |us| && Key(named, columns, us) == Key(named, columns, vs)
        ensures us == vs
      {
        if us != [] {
          SameCell(
            named, columns[0], us[0], vs[0], KeyTail(named, columns[1..], us[1..]),
            KeyTail(named, columns[1..], vs[1..]));
          ReadsBack(named, columns, us, vs);
        }
      }
    } else {
      var vs := SharesKey(named, columns, us);
      assert Key(named, columns, us) == Key(named, columns, vs) && us != vs;
    }
  }

  /** Without the separator in any value there is no delimiter either. */
  lemma {:induction false} FreeIsApart(named: bool, columns: seq<string>, values: seq<string>)
    requires |columns| == |values|
    requires forall j :: 0 <= j < |values| ==> !Contains(values[j], [SEPARATOR])
    ensures Apart(named, columns, values)
  {
    if |values| >= 2 {
      var d := Delimiter(named, columns[1]);
      NoDelimiter(values[0], d);
      NoDelimiter(values[1], d);
      assert forall j :: 0 <= j < |values| - 1 ==> values[1..][j] == values[j + 1];
      FreeIsApart(named, columns[1..], values[1..]);
    }
  }

  lemma NoDelimiter(value: string, d: string)
    requires !Contains(value, [SEPARATOR]) && d != "" && d[0] == SEPARATOR
    ensures !Contains(value, d)
  {
    IndexIsFirst(value, d);
    IndexIsFirst(value, [SEPARATOR]);
    if Contains(value, d) {
      StartMatches(value, d, Index(value, d));
    }
  }

  lemma StartMatches(value: string, d: string, i: nat)
    requires MatchAt(value, d, i) && d != ""
    ensures MatchAt(value, [d[0]], i)
  {
    SameFromChars(value, d, i, 0);
    SameFromChars(value, [d[0]], i, 0);
    assert value[i + 0] == d[0];
  }

  // ---- counting ----

  type Counts = map<string, nat>

  function Count(m: Counts, key: string): nat {
    if key in m then m[key] else 0
  }

  /** The counts of a bag of keys. */
  ghost predicate Counted(m: Counts, bag: multiset<string>) {
    forall k :: Count(m, k) == bag[k]
  }

  function Keys<V>(norm: Normalizer<V>, rows: seq<Row<V>>, columns: seq<string>): (r: seq<string>)
    ensures |r| == |rows|
  {
    if rows == [] then [] else Keys(norm, rows[..|rows| - 1], columns) + [KeyOf(norm, true, rows[|rows| - 1], columns)]
  }

  function Rows<V>(norm: Normalizer<V>, rows: seq<Row<V>>, columns: seq<string>): (r: seq<seq<string>>)
    ensures |r| == |rows|
  {
    if rows == [] then [] else Rows(norm, rows[..|rows| - 1], columns) + [Values(norm, rows[|rows| - 1], columns)]
  }

  lemma KeysSnoc<V>(norm: Normalizer<V>, rows: seq<Row<V>>, columns: seq<string>, n: nat)
    requires n < |rows|
    ensures Keys(norm, rows[..n + 1], columns) == Keys(norm, rows[..n], columns) + [KeyOf(norm, true, rows[n], columns)]
  {
    assert rows[..n + 1][..n] == rows[..n];
  }

  /** `loadRowMultiset` without its samples. */
  method LoadRowMultiset<V>(norm: Normalizer<V>, rows: seq<Row<V>>, columns: seq<string>) returns (counts: Counts)
    ensures Counted(counts, multiset(Keys(norm, rows, columns)))
  {
    counts := map[];
    for n := 0 to |rows|
      invariant Counted(counts, multiset(Keys(norm, rows[..n], columns)))
    {
      var key := RowKey(norm, true, rows[n], columns);
      KeysSnoc(norm, rows, columns, n);
      counts := counts[key := Count(counts, key) + 1];
    }
    assert rows[..|rows|] == rows;
  }

  /** How much more often a key is in `a` than in `b`. */
  function Surplus(a: Counts, b: Counts, key: string): nat {
    if Count(a, key) > Count(b, key) then Count(a, key) - Count(b, key) else 0
  }

  /** One loop of `multisetDiff`. */
  method Excess(a: Counts, b: Counts) returns (more: Counts)
    ensures forall k :: Count(more, k) == Surplus(a, b, k)
    ensures forall k :: k in more ==> more[k] > 0
  {
    more := map[];
    var todo := a.Keys;
    while todo != {}
      invariant todo <= a.Keys
      invariant forall k :: k in more ==> more[k] > 0
      invariant forall k :: Count(more, k) == if k in todo then 0 else Surplus(a, b, k)
      decreases |todo|
    {
      var k :| k in todo;
      todo := todo - {k};
      if a[k] > Count(b, k) {
        more := more[k := a[k] - Count(b, k)];
      }
    }
  }

  /** Surplus counts are multiset difference. */
  lemma ExcessIsDifference(a: Counts, b: Counts, more: Counts, x: multiset<string>, y: multiset<string>)
    requires Counted(a, x) && Counted(b, y)
    requires forall k :: Count(more, k) == Surplus(a, b, k)
    ensures Counted(more, x - y)
  {
  }

  method MultisetDiff(src: Counts, tgt: Counts) returns (missing: Counts, extra: Counts)
    ensures forall k :: Count(missing, k) == Surplus(src, tgt, k) && Count(extra, k) == Surplus(tgt, src, k)
    ensures forall k :: Count(src, k) + Count(extra, k) == Count(tgt, k) + Count(missing, k)
  {
    missing := Excess(src, tgt);
    extra := Excess(tgt, src);
  }

  /** `sumCounts`: the size of the bag with these counts. */
  method SumCounts(m: Counts) returns (n: nat)
    ensures forall bag :: Counted(m, bag) ==> n == |bag|
  {
    n := 0;
    var todo := m.Keys;
    ghost var done: multiset<string> := multiset{};
    while todo != {}
      invariant todo <= m.Keys && n == |done|
      invariant forall k :: done[k] == if k in todo then 0 else Count(m, k)
      decreases |todo|
    {
      var k :| k in todo;
      todo := todo - {k};
      n := n + m[k];
      done := done[k := m[k]];
    }
    forall bag | Counted(m, bag)
      ensures n == |bag|
    {
      assert done == bag;
    }
  }

  /** Taking each side's surplus to the other makes them equal, and the surpluses differ as the sides do. */
  lemma Balance<T>(s: multiset<T>, t: multiset<T>)
    ensures s + (t - s) == t + (s - t)
    ensures |s - t| - |t - s| == |s| - |t|
    ensures |s - t| == 0 && |t - s| == 0 <==> s == t
  {
    assert s + (t - s) == t + (s - t);
    assert |s + (t - s)| == |s| + |t - s|;
    assert |t + (s - t)| == |t| + |s - t|;
    if |s - t| == 0 && |t - s| == 0 {
      assert s - t == multiset{} && t - s == multiset{};
      assert s + multiset{} == s && t + multiset{} == t;
    }
  }

  // ---- equality of the key bags is equality of the row bags ----

  /** Rows given by their values, one for each column. */
  predicate Wide(columns: seq<string>, rows: seq<seq<string>>) {
    forall i :: 0 <= i < |rows| ==> |rows[i]| == |columns|
  }

  function KeysOf(columns: seq<string>, rows: seq<seq<string>>): (r: seq<string>)
    requires Wide(columns, rows)
    ensures |r| == |rows|
  {
    if rows == [] then [] else KeysOf(columns, rows[..|rows| - 1]) + [Key(true, columns, rows[|rows| - 1])]
  }

  lemma {:induction false} RowsAreWide<V>(norm: Normalizer<V>, rows: seq<Row<V>>, columns: seq<string>)
    ensures Wide(columns, Rows(norm, rows, columns))
    ensures Keys(norm, rows, columns) == KeysOf(columns, Rows(norm, rows, columns))
  {
    if rows != [] {
      var init, last := rows[..|rows| - 1], rows[|rows| - 1];
      RowsAreWide(norm, init, columns);
      assert Rows(norm, rows, columns)[..|rows| - 1] == Rows(norm, init, columns);
    }
  }

  predicate AllApart(columns: seq<string>, rows: seq<seq<string>>)
    requires Wide(columns, rows)
  {
    forall i :: 0 <= i < |rows| ==> Apart(true, columns, rows[i])
  }

  /** Rows of the two tables with the same key are the same. */
  predicate Told(columns: seq<string>, src: seq<seq<string>>, tgt: seq<seq<string>>)
    requires Wide(columns, src) && Wide(columns, tgt)
  {
    forall i, k :: 0 <= i < |src| && 0 <= k < |tgt| && Key(true, columns, src[i]) == Key(true, columns, tgt[k]) ==>
      src[i] == tgt[k]
  }

  lemma ApartIsTold(columns: seq<string>, src: seq<seq<string>>, tgt: seq<seq<string>>)
    requires Wide(columns, src) && Wide(columns, tgt) && Plain(true, columns) && AllApart(columns, src)
    ensures Told(columns, src, tgt)
  {
    forall i, k | 0 <= i < |src| && 0 <= k < |tgt| && Key(true, columns, src[i]) == Key(true, columns, tgt[k])
      ensures src[i] == tgt[k]
    {
      KeyDecodesExactlyWhen(true, columns, src[i]);
    }
  }

  /** The key of values that no other row shares occurs as often as these do. */
  lemma {:induction false} SameMultiplicity(columns: seq<string>, rows: seq<seq<string>>, values: seq<string>)
    requires Wide(columns, rows) && |values| == |columns|
    requires forall i :: 0 <= i < |rows| && Key(true, columns, rows[i]) == Key(true, columns, values) ==>
      rows[i] == values
    ensures multiset(KeysOf(columns, rows))[Key(true, columns, values)] == multiset(rows)[values]
  {
    if rows != [] {
      var init, last := rows[..|rows| - 1], rows[|rows| - 1];
      SameMultiplicity(columns, init, values);
      assert Key(true, columns, values) == Key(true, columns, last) <==> values == last;
      assert rows == init + [last];
    }
  }

  lemma {:induction false} KeyOfRow(columns: seq<string>, rows: seq<seq<string>>, i: nat)
    requires Wide(columns, rows) && i < |rows|
    ensures KeysOf(columns, rows)[i] == Key(true, columns, rows[i])
  {
    if i < |rows| - 1 {
      KeyOfRow(columns, rows[..|rows| - 1], i);
    }
  }

  lemma SameSize<T>(a: seq<T>, b: seq<T>)
    requires multiset(a) == multiset(b)
    ensures |a| == |b|
  {
    assert |multiset(a)| == |a| && |multiset(b)| == |b|;
  }

  lemma AllOfThem<T>(a: multiset<T>, b: multiset<T>)
    requires a <= b && |a| == |b|
    ensures a == b
  {
    assert b == a + (b - a);
    assert b - a == multiset{};
  }

  /** Where rows with the same key are the same, a table with these keys has these rows. */
  lemma SameKeysSameRows(columns: seq<string>, src: seq<seq<string>>, tgt: seq<seq<string>>)
    requires Wide(columns, src) && Wide(columns, tgt) && Told(columns, src, src) && Told(columns, src, tgt)
    requires multiset(KeysOf(columns, src)) == multiset(KeysOf(columns, tgt))
    ensures multiset(src) == multiset(tgt)
  {
    forall values | values in multiset(src)
      ensures multiset(src)[values] == multiset(tgt)[values]
    {
      var i :| 0 <= i < |src| && src[i] == values;
      SameMultiplicity(columns, src, values);
      SameMultiplicity(columns, tgt, values);
    }
    SameSize(KeysOf(columns, src), KeysOf(columns, tgt));
    AllOfThem(multiset(src), multiset(tgt));
  }

  lemma RowAdded(columns: seq<string>, rows: seq<seq<string>>, last: seq<string>)
    requires Wide(columns, rows) && |last| == |columns|
    ensures Wide(columns, rows + [last])
    ensures multiset(KeysOf(columns, rows + [last])) ==
      multiset(KeysOf(columns, rows)) + multiset{Key(true, columns, last)}
  {
    assert (rows + [last])[..|rows|] == rows;
  }

  /** Taking out one row takes out its key. */
  lemma {:induction false} TakeOutRow(columns: seq<string>, rows: seq<seq<string>>, values: seq<string>)
    returns (rest: seq<seq<string>>)
    requires Wide(columns, rows) && values in multiset(rows)
    ensures Wide(columns, rest) && |values| == |columns| && |rest| == |rows| - 1
    ensures multiset(rows) == multiset(rest) + multiset{values}
    ensures multiset(KeysOf(columns, rows)) == multiset(KeysOf(columns, rest)) + multiset{Key(true, columns, values)}
  {
    var init, last := rows[..|rows| - 1], rows[|rows| - 1];
    assert rows == init + [last];
    RowAdded(columns, init, last);
    if last == values {
      rest := init;
    } else {
      var r := TakeOutRow(columns, init, values);
      rest := r + [last];
      RowAdded(columns, r, last);
    }
  }

  /** The same rows have the same keys, in whatever order. */
  lemma {:induction false} SameRowsSameKeys(columns: seq<string>, src: seq<seq<string>>, tgt: seq<seq<string>>)
    requires Wide(columns, src) && Wide(columns, tgt) && multiset(src) == multiset(tgt)
    ensures multiset(KeysOf(columns, src)) == multiset(KeysOf(columns, tgt))
  {
    SameSize(src, tgt);
    if src != [] {
      var init, last := src[..|src| - 1], src[|src| - 1];
      assert src == init + [last];
      LastTaken(init, last);
      var rest := TakeOutRow(columns, tgt, last);
      RowAdded(columns, init, last);
      SameRowsSameKeys(columns, init, rest);
    }
  }

  lemma LastTaken(init: seq<seq<string>>, last: seq<string>)
    ensures last in multiset(init + [last]) && multiset(init + [last]) - multiset{last} == multiset(init)
  {
  }

  lemma KeysDecide(columns: seq<string>, src: seq<seq<string>>, tgt: seq<seq<string>>)
    requires Wide(columns, src) && Wide(columns, tgt) && Told(columns, src, src) && Told(columns, src, tgt)
    ensures multiset(KeysOf(columns, src)) == multiset(KeysOf(columns, tgt)) <==> multiset(src) == multiset(tgt)
  {
    if multiset(KeysOf(columns, src)) == multiset(KeysOf(columns, tgt)) {
      SameKeysSameRows(columns, src, tgt);
    }
    if multiset(src) == multiset(tgt) {
      SameRowsSameKeys(columns, src, tgt);
    }
  }

  /**
   Over all texts, the verdict on a table is right whatever it is compared with if and only if its rows are all kept
   apart.
   */
  lemma VerdictExactlyWhen(columns: seq<string>, src: seq<seq<string>>)
    requires Wide(columns, src) && Plain(true, columns)
    ensures (forall tgt :: Wide(columns, tgt) ==>
        (multiset(KeysOf(columns, src)) == multiset(KeysOf(columns, tgt)) <==> multiset(src) == multiset(tgt)))
      <==> AllApart(columns, src)
  {
    if AllApart(columns, src) {
      forall tgt | Wide(columns, tgt)
        ensures multiset(KeysOf(columns, src)) == multiset(KeysOf(columns, tgt)) <==> multiset(src) == multiset(tgt)
      {
        ApartIsTold(columns, src, src);
        ApartIsTold(columns, src, tgt);
        KeysDecide(columns, src, tgt);
      }
    } else {
      var i :| 0 <= i < |src| && !Apart(true, columns, src[i]);
      var tgt := MistakenFor(columns, src, i);
      assert multiset(KeysOf(columns, src)) == multiset(KeysOf(columns, tgt)) && multiset(src) != multiset(tgt);
    }
  }

  /** Another table with the same keys, row by row. */
  lemma MistakenFor(columns: seq<string>, src: seq<seq<string>>, i: nat) returns (tgt: seq<seq<string>>)
    requires Wide(columns, src) && i < |src| && !Apart(true, columns, src[i])
    ensures Wide(columns, tgt) && KeysOf(columns, tgt) == KeysOf(columns, src) && multiset(tgt) != multiset(src)
  {
    var vs := SharesKey(true, columns, src[i]);
    tgt := src[i := vs];
    forall j | 0 <= j < |src|
      ensures KeysOf(columns, tgt)[j] == KeysOf(columns, src)[j]
    {
      KeyOfRow(columns, tgt, j);
      KeyOfRow(columns, src, j);
    }
    OneReplaced(src, i, vs);
  }

  lemma OneReplaced(src: seq<seq<string>>, i: nat, vs: seq<string>)
    requires i < |src| && src[i] != vs
    ensures multiset(src[i := vs]) != multiset(src)
  {
    assert src == src[..i] + [src[i]] + src[i + 1..];
    assert src[i := vs] == src[..i] + [vs] + src[i + 1..];
    assert multiset(src[i := vs])[vs] == multiset(src)[vs] + 1;
  }

  // ---- the same for rows ----

  /** The comparison takes these rows for equal exactly when their normalised values are. */
  ghost predicate RightVerdict<V>(norm: Normalizer<V>, src: seq<Row<V>>, tgt: seq<Row<V>>, columns: seq<string>) {
    multiset(Keys(norm, src, columns)) == multiset(Keys(norm, tgt, columns)) <==>
      multiset(Rows(norm, src, columns)) == multiset(Rows(norm, tgt, columns))
  }

  /** Any row with the key of one of these has its normalised values. */
  ghost predicate Unmistakable<V(!new)>(norm: Normalizer<V>, rows: seq<Row<V>>, columns: seq<string>) {
    forall i, other: Row<V> ::
      0 <= i < |rows| && KeyOf(norm, true, rows[i], columns) == KeyOf(norm, true, other, columns) ==>
        Values(norm, rows[i], columns) == Values(norm, other, columns)
  }

  lemma {:induction false} RowAt<V>(norm: Normalizer<V>, rows: seq<Row<V>>, columns: seq<string>, i: nat)
    requires i < |rows|
    ensures Rows(norm, rows, columns)[i] == Values(norm, rows[i], columns)
    ensures Keys(norm, rows, columns)[i] == KeyOf(norm, true, rows[i], columns)
  {
    if i < |rows| - 1 {
      RowAt(norm, rows[..|rows| - 1], columns, i);
    }
  }

  lemma UnmistakableIsTold<V(!new)>(norm: Normalizer<V>, src: seq<Row<V>>, tgt: seq<Row<V>>, columns: seq<string>)
    requires Unmistakable(norm, src, columns)
    ensures var s, t := Rows(norm, src, columns), Rows(norm, tgt, columns);
      Wide(columns, s) && Wide(columns, t) && Told(columns, s, t)
  {
    RowsAreWide(norm, src, columns);
    RowsAreWide(norm, tgt, columns);
    var s, t := Rows(norm, src, columns), Rows(norm, tgt, columns);
    forall i, k | 0 <= i < |s| && 0 <= k < |t| && Key(true, columns, s[i]) == Key(true, columns, t[k])
      ensures s[i] == t[k]
    {
      RowAt(norm, src, columns, i);
      RowAt(norm, tgt, columns, k);
      assert KeyOf(norm, true, src[i], columns) == KeyOf(norm, true, tgt[k], columns);
    }
  }

  lemma UnmistakableIsRight<V(!new)>(norm: Normalizer<V>, src: seq<Row<V>>, tgt: seq<Row<V>>, columns: seq<string>)
    requires Unmistakable(norm, src, columns) || Unmistakable(norm, tgt, columns)
    ensures RightVerdict(norm, src, tgt, columns)
  {
    RowsAreWide(norm, src, columns);
    RowsAreWide(norm, tgt, columns);
    var s, t := Rows(norm, src, columns), Rows(norm, tgt, columns);
    if Unmistakable(norm, src, columns) {
      UnmistakableIsTold(norm, src, src, columns);
      UnmistakableIsTold(norm, src, tgt, columns);
      KeysDecide(columns, s, t);
    } else {
      UnmistakableIsTold(norm, tgt, tgt, columns);
      UnmistakableIsTold(norm, tgt, src, columns);
      KeysDecide(columns, t, s);
    }
  }

  /** Rows whose values are kept apart are unmistakable, however values are normalised. */
  lemma ApartIsUnmistakable<V(!new)>(norm: Normalizer<V>, rows: seq<Row<V>>, columns: seq<string>)
    requires Plain(true, columns)
    requires forall i :: 0 <= i < |rows| ==> Apart(true, columns, Values(norm, rows[i], columns))
    ensures Unmistakable(norm, rows, columns)
  {
    forall i, other: Row<V>
      | 0 <= i < |rows| && KeyOf(norm, true, rows[i], columns) == KeyOf(norm, true, other, columns)
      ensures Values(norm, rows[i], columns) == Values(norm, other, columns)
    {
      KeyDecodesExactlyWhen(true, columns, Values(norm, rows[i], columns));
    }
  }

  /**
   The verdict on a table is right whatever table of rows it is compared with if and only if no row, in it or not,
   has the key of one of its rows without having its values.
   */
  lemma RightExactlyWhen<V(!new)>(norm: Normalizer<V>, src: seq<Row<V>>, columns: seq<string>)
    ensures (forall tgt :: RightVerdict(norm, src, tgt, columns)) <==> Unmistakable(norm, src, columns)
  {
    if Unmistakable(norm, src, columns) {
      forall tgt
        ensures RightVerdict(norm, src, tgt, columns)
      {
        UnmistakableIsRight(norm, src, tgt, columns);
      }
    } else {
      var i, other: Row<V> :| 0 <= i < |src|
        && KeyOf(norm, true, src[i], columns) == KeyOf(norm, true, other, columns)
        && Values(norm, src[i], columns) != Values(norm, other, columns);
      MistakenRow(norm, src, i, other, columns);
      assert !RightVerdict(norm, src, src[i := other], columns);
    }
  }

  lemma MistakenRow<V>(norm: Normalizer<V>, src: seq<Row<V>>, i: nat, other: Row<V>, columns: seq<string>)
    requires i < |src| && KeyOf(norm, true, src[i], columns) == KeyOf(norm, true, other, columns)
    requires Values(norm, src[i], columns) != Values(norm, other, columns)
    ensures !RightVerdict(norm, src, src[i := other], columns)
  {
    var tgt := src[i := other];
    forall j | 0 <= j < |src|
      ensures Keys(norm, tgt, columns)[j] == Keys(norm, src, columns)[j]
      ensures Rows(norm, tgt, columns)[j] == Rows(norm, src, columns)[i := Values(norm, other, columns)][j]
    {
      RowAt(norm, src, columns, j);
      RowAt(norm, tgt, columns, j);
    }
    RowAt(norm, src, columns, i);
    assert Keys(norm, tgt, columns) == Keys(norm, src, columns);
    assert Rows(norm, tgt, columns) == Rows(norm, src, columns)[i := Values(norm, other, columns)];
    OneReplaced(Rows(norm, src, columns), i, Values(norm, other, columns));
  }

  // ---- the comparison ----

  datatype DataDiff = DataDiff(missing: nat, extra: nat, equal: bool)

  /** The comparison of two tables that have no primary key in common. */
  method CompareRows<V(!new)>(norm: Normalizer<V>, src: seq<Row<V>>, tgt: seq<Row<V>>, columns: seq<string>)
    returns (d: DataDiff)
    ensures var s, t := multiset(Keys(norm, src, columns)), multiset(Keys(norm, tgt, columns));
      d.missing == |s - t| && d.extra == |t - s| && (d.equal <==> s == t)
    ensures d.missing - d.extra == |src| - |tgt|
    ensures Unmistakable(norm, src, columns) || Unmistakable(norm, tgt, columns) ==>
      (d.equal <==> multiset(Rows(norm, src, columns)) == multiset(Rows(norm, tgt, columns)))
  {
    ghost var s, t := multiset(Keys(norm, src, columns)), multiset(Keys(norm, tgt, columns));
    var srcSet := LoadRowMultiset(norm, src, columns);
    var tgtSet := LoadRowMultiset(norm, tgt, columns);
    var missing, extra := MultisetDiff(srcSet, tgtSet);
    ExcessIsDifference(srcSet, tgtSet, missing, s, t);
    ExcessIsDifference(tgtSet, srcSet, extra, t, s);
    var m := SumCounts(missing);
    var e := SumCounts(extra);
    d := DataDiff(m, e, m == 0 && e == 0);
    Balance(s, t);
    if Unmistakable(norm, src, columns) || Unmistakable(norm, tgt, columns) {
      UnmistakableIsRight(norm, src, tgt, columns);
    }
  }
}
