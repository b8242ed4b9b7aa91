/**
 Rows by key, apart from what keys and values are made of: what is left when of the rows with one key only the first
 is kept, and what the keys on which two tables differ say about their rows.
 */
module KeyedRows {
  /** A row as the comparison by key sees it. */
  datatype Item = Item(key: string, values: seq<string>)

  /** For each key, the values of the first of the first `n` rows that has it. */
  function First(items: seq<Item>, n: nat): map<string, seq<string>>
    requires n <= |items|
  {
    if n == 0 then map[]
    else
      var m, x := First(items, n - 1), items[n - 1];
      if x.key in m then m else m[x.key := x.values]
  }

  function ByKey(items: seq<Item>): map<string, seq<string>> {
    First(items, |items|)
  }

  /** The keys that only `s` has, or that stand for other values in `t`. */
  function Differing(s: map<string, seq<string>>, t: map<string, seq<string>>): set<string> {
    set k | k in s && (k !in t || s[k] != t[k])
  }

  /** No two rows have the same key. */
  predicate KeysDiffer(items: seq<Item>) {
    forall i, k :: 0 <= i < k < |items| ==> items[i].key != items[k].key
  }

  /** Rows with the same values have the same key. */
  predicate Keyed(a: seq<Item>, b: seq<Item>) {
    forall i, k :: 0 <= i < |a| && 0 <= k < |b| && a[i].values == b[k].values ==> a[i].key == b[k].key
  }

  /** One of the first `n` rows has the key. */
  predicate HasKey(items: seq<Item>, n: nat, key: string)
    requires n <= |items|
  {
    n > 0 && (items[n - 1].key == key || HasKey(items, n - 1, key))
  }

  lemma {:induction false} FirstHasKey(items: seq<Item>, n: nat, key: string)
    requires n <= |items|
    ensures key in First(items, n) <==> HasKey(items, n, key)
  {
    if n > 0 {
      FirstHasKey(items, n - 1, key);
    }
  }

  lemma {:induction false} KeyAt(items: seq<Item>, n: nat, key: string) returns (i: nat)
    requires n <= |items| && HasKey(items, n, key)
    ensures i < n && items[i].key == key
  {
    if items[n - 1].key == key {
      i := n - 1;
    } else {
      i := KeyAt(items, n - 1, key);
    }
  }

  lemma {:induction false} HasKeyAt(items: seq<Item>, n: nat, i: nat)
    requires i < n <= |items|
    ensures HasKey(items, n, items[i].key)
  {
    if i < n - 1 {
      HasKeyAt(items, n - 1, i);
    }
  }

  lemma NewKey(items: seq<Item>, n: nat)
    requires n < |items| && KeysDiffer(items)
    ensures items[n].key !in First(items, n) && !HasKey(items, n, items[n].key)
  {
    FirstHasKey(items, n, items[n].key);
    if HasKey(items, n, items[n].key) {
      var i := KeyAt(items, n, items[n].key);
    }
  }

  /** With distinct keys every row is found again. */
  lemma {:induction false} FindsRow(items: seq<Item>, n: nat, i: nat)
    requires i < n <= |items| && KeysDiffer(items)
    ensures var m := First(items, n); items[i].key in m && m[items[i].key] == items[i].values
  {
    NewKey(items, n - 1);
    if i < n - 1 {
      FindsRow(items, n - 1, i);
    }
  }

  /** Of rows with the same key all but the first are passed over, whatever their values, and no other row is. */
  lemma RepeatedKeyIsIgnored(items: seq<Item>, n: nat)
    requires n < |items|
    ensures First(items, n + 1) == First(items, n) <==> exists i :: 0 <= i < n && items[i].key == items[n].key
  {
    FirstHasKey(items, n, items[n].key);
    if HasKey(items, n, items[n].key) {
      var i := KeyAt(items, n, items[n].key);
    }
    forall i | 0 <= i < n
      ensures HasKey(items, n, items[i].key)
    {
      HasKeyAt(items, n, i);
    }
  }

  // ---- keys that differ are rows that the other table lacks ----

  /** The values of the first `n` rows. */
  function Bag(items: seq<Item>, n: nat): multiset<seq<string>>
    requires n <= |items|
  {
    if n == 0 then multiset{} else Bag(items, n - 1) + multiset{items[n - 1].values}
  }

  function AllRows(items: seq<Item>): multiset<seq<string>> {
    Bag(items, |items|)
  }

  lemma {:induction false} BagSize(items: seq<Item>, n: nat)
    requires n <= |items|
    ensures |Bag(items, n)| == n
  {
    if n > 0 {
      BagSize(items, n - 1);
    }
  }

  lemma {:induction false} BagAt(items: seq<Item>, n: nat, v: seq<string>) returns (i: nat)
    requires n <= |items| && v in Bag(items, n)
    ensures i < n && items[i].values == v
  {
    if items[n - 1].values == v {
      i := n - 1;
    } else {
      i := BagAt(items, n - 1, v);
    }
  }

  lemma {:induction false} InBag(items: seq<Item>, n: nat, i: nat)
    requires i < n <= |items|
    ensures items[i].values in Bag(items, n)
  {
    if i < n - 1 {
      InBag(items, n - 1, i);
    }
  }

  /** The row is there, unchanged. */
  predicate Found(x: Item, t: map<string, seq<string>>) {
    x.key in t && t[x.key] == x.values
  }

  /** A row is in a table with distinct keys exactly if its key stands for its values there. */
  lemma FoundAgain(x: Item, tgt: seq<Item>)
    requires KeysDiffer(tgt) && Keyed([x], tgt)
    ensures x.values in AllRows(tgt) <==> Found(x, ByKey(tgt))
  {
    if x.values in AllRows(tgt) {
      var i := BagAt(tgt, |tgt|, x.values);
      assert [x][0].values == tgt[i].values;
      FindsRow(tgt, |tgt|, i);
    }
    if Found(x, ByKey(tgt)) {
      FirstHasKey(tgt, |tgt|, x.key);
      var i := KeyAt(tgt, |tgt|, x.key);
      FindsRow(tgt, |tgt|, i);
      InBag(tgt, |tgt|, i);
    }
  }

  /** A row whose key differs from those before it has other values as well. */
  lemma NewValues(items: seq<Item>, n: nat)
    requires n < |items| && KeysDiffer(items) && Keyed(items, items)
    ensures items[n].values !in Bag(items, n)
  {
    if items[n].values in Bag(items, n) {
      var i := BagAt(items, n, items[n].values);
    }
  }

  lemma OneMoreRow(a: multiset<seq<string>>, b: multiset<seq<string>>, v: seq<string>)
    requires v !in a
    ensures |(a + multiset{v}) - b| == |a - b| + if v in b then 0 else 1
  {
    if v in b {
      assert (a + multiset{v}) - b == a - b;
    } else {
      assert (a + multiset{v}) - b == (a - b) + multiset{v};
    }
  }

  lemma OneMoreKey(s: map<string, seq<string>>, t: map<string, seq<string>>, x: Item)
    requires x.key !in s
    ensures |Differing(s[x.key := x.values], t)| == |Differing(s, t)| + if Found(x, t) then 0 else 1
  {
    var d := Differing(s, t);
    if Found(x, t) {
      assert Differing(s[x.key := x.values], t) == d;
    } else {
      assert Differing(s[x.key := x.values], t) == d + {x.key};
    }
  }

  /** How many of the first `n` rows the other table lacks. */
  function Lacking(src: seq<Item>, n: nat, tgt: seq<Item>): nat
    requires n <= |src|
  {
    |Bag(src, n) - AllRows(tgt)|
  }

  /** How many keys of the first `n` rows differ. */
  function Changes(src: seq<Item>, n: nat, t: map<string, seq<string>>): nat
    requires n <= |src|
  {
    |Differing(First(src, n), t)|
  }

  /** How many of the first `n` rows are not there or are changed. */
  function NotFound(src: seq<Item>, n: nat, t: map<string, seq<string>>): nat
    requires n <= |src|
  {
    if n == 0 then 0 else NotFound(src, n - 1, t) + if Found(src[n - 1], t) then 0 else 1
  }

  lemma LackingStep(src: seq<Item>, tgt: seq<Item>, n: nat)
    requires 0 < n <= |src| && KeysDiffer(src) && KeysDiffer(tgt) && Keyed(src, src) && Keyed(src, tgt)
    requires Lacking(src, n - 1, tgt) == NotFound(src, n - 1, ByKey(tgt))
    ensures Lacking(src, n, tgt) == NotFound(src, n, ByKey(tgt))
  {
    NewValues(src, n - 1);
    FoundAgain(src[n - 1], tgt);
    OneMoreRow(Bag(src, n - 1), AllRows(tgt), src[n - 1].values);
  }

  lemma ChangesStep(src: seq<Item>, t: map<string, seq<string>>, n: nat)
    requires 0 < n <= |src| && KeysDiffer(src)
    ensures Changes(src, n, t) == Changes(src, n - 1, t) + if Found(src[n - 1], t) then 0 else 1
  {
    NewKey(src, n - 1);
    OneMoreKey(First(src, n - 1), t, src[n - 1]);
  }

  lemma LackingNothingYet(src: seq<Item>, tgt: seq<Item>)
    ensures Lacking(src, 0, tgt) == NotFound(src, 0, ByKey(tgt))
  {
    assert Bag(src, 0) - AllRows(tgt) == multiset{};
  }

  lemma {:induction false} LackingAreNotFound(src: seq<Item>, tgt: seq<Item>, n: nat)
    requires n <= |src| && KeysDiffer(src) && KeysDiffer(tgt) && Keyed(src, src) && Keyed(src, tgt)
    ensures Lacking(src, n, tgt) == NotFound(src, n, ByKey(tgt))
  {
    if n == 0 {
      LackingNothingYet(src, tgt);
    } else {
      LackingAreNotFound(src, tgt, n - 1);
      LackingStep(src, tgt, n);
    }
  }

  lemma {:induction false} ChangesAreNotFound(src: seq<Item>, t: map<string, seq<string>>, n: nat)
    requires n <= |src| && KeysDiffer(src)
    ensures Changes(src, n, t) == NotFound(src, n, t)
  {
    if n > 0 {
      ChangesAreNotFound(src, t, n - 1);
      ChangesStep(src, t, n);
    } else {
      assert Differing(First(src, 0), t) == {};
    }
  }

  // ---- what is left of rows with the same key ----

  /** Of the first `n` rows, the first of each key. */
  function Firsts(items: seq<Item>, n: nat): (r: seq<Item>)
    requires n <= |items|
    ensures |r| <= n
  {
    if n == 0 then []
    else if HasKey(items, n - 1, items[n - 1].key) then Firsts(items, n - 1)
    else Firsts(items, n - 1) + [items[n - 1]]
  }

  function Left(items: seq<Item>): seq<Item> {
    Firsts(items, |items|)
  }

  lemma {:induction false} PrefixFirst(items: seq<Item>, x: Item, n: nat)
    requires n <= |items|
    ensures First(items + [x], n) == First(items, n)
  {
    if n > 0 {
      PrefixFirst(items, x, n - 1);
    }
  }

  /** They are found under their keys as before. */
  lemma {:induction false} FirstsAreFound(items: seq<Item>, n: nat)
    requires n <= |items|
    ensures ByKey(Firsts(items, n)) == First(items, n)
  {
    if n > 0 {
      FirstsAreFound(items, n - 1);
      FirstHasKey(items, n - 1, items[n - 1].key);
      PrefixFirst(Firsts(items, n - 1), items[n - 1], |Firsts(items, n - 1)|);
    }
  }

  lemma {:induction false} FirstsDiffer(items: seq<Item>, n: nat)
    requires n <= |items|
    ensures KeysDiffer(Firsts(items, n))
  {
    if n > 0 && !HasKey(items, n - 1, items[n - 1].key) {
      var f := Firsts(items, n - 1);
      FirstsDiffer(items, n - 1);
      FirstsAreFound(items, n - 1);
      FirstHasKey(items, n - 1, items[n - 1].key);
      forall i | 0 <= i < |f|
        ensures f[i].key != items[n - 1].key
      {
        FindsRow(f, |f|, i);
      }
    } else if n > 0 {
      FirstsDiffer(items, n - 1);
    }
  }

  lemma {:induction false} FirstsAreThere(items: seq<Item>, n: nat)
    requires n <= |items|
    ensures forall x :: x in Firsts(items, n) ==> x in items
  {
    if n > 0 {
      FirstsAreThere(items, n - 1);
    }
  }

  lemma LeftAreKeyed(a: seq<Item>, b: seq<Item>)
    requires Keyed(a, b)
    ensures Keyed(Left(a), Left(b))
  {
    var f, g := Left(a), Left(b);
    FirstsAreThere(a, |a|);
    FirstsAreThere(b, |b|);
    forall i, k | 0 <= i < |f| && 0 <= k < |g| && f[i].values == g[k].values
      ensures f[i].key == g[k].key
    {
      assert f[i] in a && g[k] in b;
      var i' :| 0 <= i' < |a| && a[i'] == f[i];
      var k' :| 0 <= k' < |b| && b[k'] == g[k];
    }
  }

  lemma {:induction false} NothingLeftOut(items: seq<Item>, n: nat)
    requires n <= |items| && KeysDiffer(items)
    ensures Firsts(items, n) == items[..n]
  {
    if n > 0 {
      NothingLeftOut(items, n - 1);
      NewKey(items, n - 1);
      assert items[..n] == items[..n - 1] + [items[n - 1]];
    }
  }

  lemma {:induction false} SomethingLeftOut(items: seq<Item>, n: nat, i: nat, k: nat)
    requires i < k < n <= |items| && items[i].key == items[k].key
    ensures |Firsts(items, n)| < n
  {
    if k < n - 1 {
      SomethingLeftOut(items, n - 1, i, k);
    } else {
      HasKeyAt(items, k, i);
    }
  }

  /** All rows are left exactly if their keys differ. */
  lemma AllAreLeft(items: seq<Item>)
    ensures if KeysDiffer(items) then Left(items) == items else |Left(items)| < |items|
  {
    if KeysDiffer(items) {
      NothingLeftOut(items, |items|);
      assert items[..|items|] == items;
    } else {
      var i, k :| 0 <= i < k < |items| && items[i].key == items[k].key;
      SomethingLeftOut(items, |items|, i, k);
    }
  }

  // ---- the main results ----

  /** Whatever the keys, those that differ are as many as the rows that are left and that the other table lacks. */
  lemma LeftRowsDecide(src: seq<Item>, tgt: seq<Item>)
    requires Keyed(src, src) && Keyed(src, tgt)
    ensures |Differing(ByKey(src), ByKey(tgt))| == |AllRows(Left(src)) - AllRows(Left(tgt))|
  {
    FirstsAreFound(src, |src|);
    FirstsAreFound(tgt, |tgt|);
    FirstsDiffer(src, |src|);
    FirstsDiffer(tgt, |tgt|);
    LeftAreKeyed(src, src);
    LeftAreKeyed(src, tgt);
    LackingAreNotFound(Left(src), Left(tgt), |Left(src)|);
    ChangesAreNotFound(Left(src), ByKey(Left(tgt)), |Left(src)|);
  }

  lemma NoneDiffers(s: map<string, seq<string>>, t: map<string, seq<string>>)
    ensures Differing(s, t) == {} && Differing(t, s) == {} <==> s == t
  {
    if Differing(s, t) == {} && Differing(t, s) == {} {
      forall k
        ensures k in s <==> k in t
        ensures k in s ==> k in t && s[k] == t[k]
      {
        assert k in s ==> k !in Differing(s, t);
        assert k in t ==> k !in Differing(t, s);
      }
    }
  }

  /** Tables are the same by key exactly if the rows that are left are the same. */
  lemma SameByKey(src: seq<Item>, tgt: seq<Item>)
    requires Keyed(src, src) && Keyed(src, tgt) && Keyed(tgt, tgt) && Keyed(tgt, src)
    ensures ByKey(src) == ByKey(tgt) <==> AllRows(Left(src)) == AllRows(Left(tgt))
  {
    LeftRowsDecide(src, tgt);
    LeftRowsDecide(tgt, src);
    NoneDiffers(ByKey(src), ByKey(tgt));
    NothingLacks(AllRows(Left(src)), AllRows(Left(tgt)));
  }

  lemma NothingLacks(a: multiset<seq<string>>, b: multiset<seq<string>>)
    ensures |a - b| == 0 && |b - a| == 0 <==> a == b
  {
    if |a - b| == 0 && |b - a| == 0 {
      assert a - b == multiset{} && b - a == multiset{};
      forall v
        ensures a[v] == b[v]
      {
        assert v !in a - b && v !in b - a;
      }
    }
  }
}
