/**
 The pairing as a whole: which tables are paired, which stay alone, and when the configuration is refused, in terms of
 the tables and the aliases themselves.
 */
module BuildPairs {
  import opened GoStrings
  import opened ComparePairs

  /** `buildComparePairs`; the error names the alias that repeats a table. */
  method BuildComparePairs(
    f: Folding, srcTables: seq<string>, tgtTables: seq<string>, aliases: seq<Alias>, db: string)
    returns (failed: Option<nat>, pairs: seq<Pair>)
    ensures failed.Some? ==>
      && failed.value < |aliases| && Repeated(f, aliases, db, failed.value)
      && forall n :: 0 <= n < failed.value ==> !Repeated(f, aliases, db, n)
    ensures failed.None? ==>
      && (forall n :: 0 <= n < |aliases| ==> !Repeated(f, aliases, db, n))
      && AllPaired(f, srcTables, tgtTables, aliases, db, pairs)
    ensures var j := MakeJob(f, srcTables, tgtTables, aliases, db);
      && (failed.Some? ==> failed.value < |aliases| && j.Repeats(failed.value) && j.NoneRepeats(failed.value))
      && (failed.None? ==>
            && j.NoneRepeats(|aliases|)
            && Covers(j, pairs, j.src.Keys, j.tgt.Keys)
            && |pairs| == |j.src| + |j.tgt| - BothCount(pairs))
  {
    var src := MakeMap(f, srcTables);
    var tgt := MakeMap(f, tgtTables);
    var j := Job(f, src, tgt, Named(f, aliases, db));
    NameMapKeys(f, srcTables);
    NameMapKeys(f, tgtTables);
    var usedSrc, usedTgt;
    failed, pairs, usedSrc, usedTgt := PairAliases(j);
    if failed.Some? {
      RepeatsMean(f, srcTables, tgtTables, aliases, db, failed.value);
      return failed, [];
    }
    RepeatsMean(f, srcTables, tgtTables, aliases, db, |aliases|);
    pairs, usedTgt := PairByName(j, pairs, usedSrc, usedTgt);
    pairs := AddTargets(j, pairs, usedTgt);
    PairCount(f, pairs);
    SizeOf(Sources(f, pairs), src.Keys);
    SizeOf(Targets(f, pairs), tgt.Keys);
    PairsFollow(f, srcTables, tgtTables, aliases, db, pairs);
  }

  // ---- the pairs in terms of tables and aliases ----

  /** `db.name`, split at the first point. */
  predicate Qualified(raw: string, db: string, name: string) {
    raw == db + "." + name && db != "" && name != "" && '.' !in db
  }

  /** The source table the alias is for: its own text, or the name behind that of this database. */
  ghost predicate SourceOf(f: Folding, a: Alias, db: string, name: string) {
    var raw := TrimSpace(a.source);
    raw != "" &&
      ((exists d :: Qualified(raw, d, name) && f.same(d, db))
       || (name == raw && forall d, n :: !Qualified(raw, d, n)))
  }

  /** The alias is for these two tables, whatever their case. */
  ghost predicate Means(f: Folding, a: Alias, db: string, s: string, t: string) {
    t != "" && t == f.lower(TrimSpace(a.target)) && exists name :: SourceOf(f, a, db, name) && f.lower(name) == s
  }

  ghost predicate Clash(f: Folding, a: Alias, b: Alias, db: string) {
    exists s, t, s', t' :: Means(f, a, db, s, t) && Means(f, b, db, s', t') && (s == s' || t == t')
  }

  /** An earlier alias is for the same table on one side. */
  ghost predicate Repeated(f: Folding, aliases: seq<Alias>, db: string, n: nat)
    requires n < |aliases|
  {
    exists m :: 0 <= m < n && Clash(f, aliases[m], aliases[n], db)
  }

  ghost predicate AnyMeans(f: Folding, aliases: seq<Alias>, db: string, s: string, t: string) {
    exists n :: 0 <= n < |aliases| && Means(f, aliases[n], db, s, t)
  }

  /** An alias is for both, or they have the same name and no alias is for either. */
  ghost predicate Belong(f: Folding, aliases: seq<Alias>, db: string, s: string, t: string) {
    AnyMeans(f, aliases, db, s, t)
    || (s == t && forall u :: !AnyMeans(f, aliases, db, s, u) && !AnyMeans(f, aliases, db, u, t))
  }

  /** The last table of the list with its name, up to case. */
  ghost predicate Stands(f: Folding, tables: seq<string>, x: string) {
    exists i :: 0 <= i < |tables| && tables[i] == x &&
      forall k :: i < k < |tables| ==> f.lower(tables[k]) != f.lower(x)
  }

  /** A pair of both, shown under the common name or under both names. */
  function PairOf(f: Folding, x: string, y: string): Pair {
    Pair(if f.same(x, y) then x else x + (" \U{2194} " + y), x, y, Both)
  }

  ghost predicate Partnered(f: Folding, tgtTables: seq<string>, aliases: seq<Alias>, db: string, x: string) {
    exists y :: Stands(f, tgtTables, y) && Belong(f, aliases, db, f.lower(x), f.lower(y))
  }

  ghost predicate PartneredBy(f: Folding, srcTables: seq<string>, aliases: seq<Alias>, db: string, y: string) {
    exists x :: Stands(f, srcTables, x) && Belong(f, aliases, db, f.lower(x), f.lower(y))
  }

  /** Tables are paired exactly if they belong together. */
  ghost predicate BothPaired(
    f: Folding, srcTables: seq<string>, tgtTables: seq<string>, aliases: seq<Alias>, db: string, pairs: seq<Pair>)
  {
    forall x, y :: Stands(f, srcTables, x) && Stands(f, tgtTables, y) ==>
      (PairOf(f, x, y) in pairs <==> Belong(f, aliases, db, f.lower(x), f.lower(y)))
  }

  /** A source table is alone exactly if it belongs to none. */
  ghost predicate SourcesAlone(
    f: Folding, srcTables: seq<string>, tgtTables: seq<string>, aliases: seq<Alias>, db: string, pairs: seq<Pair>)
  {
    forall x :: Stands(f, srcTables, x) ==>
      (Pair(x, x, "", SourceOnly) in pairs <==> !Partnered(f, tgtTables, aliases, db, x))
  }

  ghost predicate TargetsAlone(
    f: Folding, srcTables: seq<string>, tgtTables: seq<string>, aliases: seq<Alias>, db: string, pairs: seq<Pair>)
  {
    forall y :: Stands(f, tgtTables, y) ==>
      (Pair(y, "", y, TargetOnly) in pairs <==> !PartneredBy(f, srcTables, aliases, db, y))
  }

  /** A pair of tables that stand, or of one. */
  ghost predicate IsPair(f: Folding, srcTables: seq<string>, tgtTables: seq<string>, p: Pair) {
    match p.status
    case Both => Stands(f, srcTables, p.source) && Stands(f, tgtTables, p.target) && p == PairOf(f, p.source, p.target)
    case SourceOnly => Stands(f, srcTables, p.source) && p == Pair(p.source, p.source, "", SourceOnly)
    case TargetOnly => Stands(f, tgtTables, p.target) && p == Pair(p.target, "", p.target, TargetOnly)
  }

  ghost predicate AllPaired(
    f: Folding, srcTables: seq<string>, tgtTables: seq<string>, aliases: seq<Alias>, db: string, pairs: seq<Pair>)
  {
    && BothPaired(f, srcTables, tgtTables, aliases, db, pairs)
    && SourcesAlone(f, srcTables, tgtTables, aliases, db, pairs)
    && TargetsAlone(f, srcTables, tgtTables, aliases, db, pairs)
    && forall p :: p in pairs ==> IsPair(f, srcTables, tgtTables, p)
  }

  lemma SplitExactlyWhen(raw: string, d: string, n: string)
    ensures SplitQualifiedName(raw) == Some((d, n)) <==> Qualified(raw, d, n)
  {
    if Qualified(raw, d, n) {
      QualifiedNameSplits(d, n);
    }
    var i := Index(raw, ".");
    IndexIsFirst(raw, ".");
    if SplitQualifiedName(raw) == Some((d, n)) {
      MatchIsSlice(raw, ".", i);
      assert raw == raw[..i] + "." + raw[i + 1..];
      forall k | 0 <= k < i
        ensures raw[k] != '.'
      {
        MatchIsSlice(raw, ".", k);
        assert raw[k..k + 1] == [raw[k]];
      }
    }
  }

  lemma SplitsOrNot(raw: string)
    ensures SplitQualifiedName(raw).None? <==> forall d, n :: !Qualified(raw, d, n)
  {
    forall d, n
      ensures Qualified(raw, d, n) ==> SplitQualifiedName(raw) == Some((d, n))
    {
      SplitExactlyWhen(raw, d, n);
    }
    if SplitQualifiedName(raw).Some? {
      SplitExactlyWhen(raw, SplitQualifiedName(raw).value.0, SplitQualifiedName(raw).value.1);
    }
  }

  lemma SourceExactlyWhen(f: Folding, a: Alias, db: string, name: string)
    ensures SourceOf(f, a, db, name) <==>
      var raw := TrimSpace(a.source);
      raw != "" && match SplitQualifiedName(raw)
        case None => name == raw
        case Some((d, n)) => f.same(d, db) && name == n
  {
    var raw := TrimSpace(a.source);
    SplitsOrNot(raw);
    forall d
      ensures Qualified(raw, d, name) <==> SplitQualifiedName(raw) == Some((d, name))
    {
      SplitExactlyWhen(raw, d, name);
    }
    if SplitQualifiedName(raw).Some? {
      SplitExactlyWhen(raw, SplitQualifiedName(raw).value.0, SplitQualifiedName(raw).value.1);
    }
  }

  /** The keys of an alias are the two tables it is for. */
  lemma KeysExactlyWhen(f: Folding, a: Alias, db: string, s: string, t: string)
    ensures AliasKeys(f, a, db) == Some((s, t)) <==> Means(f, a, db, s, t)
  {
    forall name
      ensures SourceOf(f, a, db, name) <==>
        var raw := TrimSpace(a.source);
        raw != "" && match SplitQualifiedName(raw)
          case None => name == raw
          case Some((d, n)) => f.same(d, db) && name == n
    {
      SourceExactlyWhen(f, a, db, name);
    }
    if AliasKeys(f, a, db) == Some((s, t)) {
      var raw := TrimSpace(a.source);
      var name := match SplitQualifiedName(raw) case None => raw case Some((d, n)) => n;
      assert SourceOf(f, a, db, name);
    }
  }

  lemma AliasedMeans(j: Job, f: Folding, aliases: seq<Alias>, db: string, s: string, t: string)
    requires j.named == Named(f, aliases, db)
    ensures j.Aliased(s, t) <==> AnyMeans(f, aliases, db, s, t)
  {
    forall n | 0 <= n < |aliases|
      ensures j.named[n] == Some((s, t)) <==> Means(f, aliases[n], db, s, t)
    {
      KeysExactlyWhen(f, aliases[n], db, s, t);
    }
  }

  lemma {:induction false} SourcesMean(j: Job, f: Folding, aliases: seq<Alias>, db: string, n: nat, s: string)
    requires j.named == Named(f, aliases, db) && n <= |aliases|
    ensures s in j.AliasSources(n) <==> exists m, t :: 0 <= m < n && Means(f, aliases[m], db, s, t)
  {
    if s in j.AliasSources(n) {
      var i := SourceHasAlias(j, n, s);
      KeysExactlyWhen(f, aliases[i], db, s, j.named[i].value.1);
    }
    forall m, t | 0 <= m < n && Means(f, aliases[m], db, s, t)
      ensures s in j.AliasSources(n)
    {
      KeysExactlyWhen(f, aliases[m], db, s, t);
      AliasedIsNamed(j, m, n);
    }
  }

  lemma {:induction false} TargetsMean(j: Job, f: Folding, aliases: seq<Alias>, db: string, n: nat, t: string)
    requires j.named == Named(f, aliases, db) && n <= |aliases|
    ensures t in j.AliasTargets(n) <==> exists m, s :: 0 <= m < n && Means(f, aliases[m], db, s, t)
  {
    if t in j.AliasTargets(n) {
      var i := TargetHasAlias(j, n, t);
      KeysExactlyWhen(f, aliases[i], db, j.named[i].value.0, t);
    }
    forall m, s | 0 <= m < n && Means(f, aliases[m], db, s, t)
      ensures t in j.AliasTargets(n)
    {
      KeysExactlyWhen(f, aliases[m], db, s, t);
      AliasedIsNamed(j, m, n);
    }
  }

  lemma RepeatMeans(j: Job, f: Folding, aliases: seq<Alias>, db: string, n: nat)
    requires j.named == Named(f, aliases, db) && n < |aliases|
    ensures j.Repeats(n) <==> Repeated(f, aliases, db, n)
  {
    if j.Repeats(n) {
      var (s, t) := j.named[n].value;
      KeysExactlyWhen(f, aliases[n], db, s, t);
      SourcesMean(j, f, aliases, db, n, s);
      TargetsMean(j, f, aliases, db, n, t);
      if s in j.AliasSources(n) {
        var m, t' :| 0 <= m < n && Means(f, aliases[m], db, s, t');
        assert Clash(f, aliases[m], aliases[n], db);
      } else {
        var m, s' :| 0 <= m < n && Means(f, aliases[m], db, s', t);
        assert Clash(f, aliases[m], aliases[n], db);
      }
    }
    if m :| 0 <= m < n && Clash(f, aliases[m], aliases[n], db) {
      var s, t, s', t' :| Means(f, aliases[m], db, s, t) && Means(f, aliases[n], db, s', t') && (s == s' || t == t');
      KeysExactlyWhen(f, aliases[n], db, s', t');
      SourcesMean(j, f, aliases, db, n, s);
      TargetsMean(j, f, aliases, db, n, t);
    }
  }

  lemma RepeatsMean(
    f: Folding, srcTables: seq<string>, tgtTables: seq<string>, aliases: seq<Alias>, db: string, n: nat)
    requires n <= |aliases|
    ensures var j := MakeJob(f, srcTables, tgtTables, aliases, db);
      && (j.NoneRepeats(n) <==> forall m :: 0 <= m < n ==> !Repeated(f, aliases, db, m))
      && (n < |aliases| ==> (j.Repeats(n) <==> Repeated(f, aliases, db, n)))
  {
    var j := MakeJob(f, srcTables, tgtTables, aliases, db);
    NoneMeans(j, f, aliases, db, n);
    NoneRepeatedMeans(f, aliases, db, n);
    if n < |aliases| {
      RepeatMeans(j, f, aliases, db, n);
    }
  }

  ghost predicate NoneRepeated(f: Folding, aliases: seq<Alias>, db: string, n: nat)
    requires n <= |aliases|
  {
    n > 0 ==> NoneRepeated(f, aliases, db, n - 1) && !Repeated(f, aliases, db, n - 1)
  }

  lemma {:induction false} NoneRepeatedMeans(f: Folding, aliases: seq<Alias>, db: string, n: nat)
    requires n <= |aliases|
    ensures NoneRepeated(f, aliases, db, n) <==> forall m :: 0 <= m < n ==> !Repeated(f, aliases, db, m)
  {
    if n > 0 {
      NoneRepeatedMeans(f, aliases, db, n - 1);
    }
  }

  lemma {:induction false} NoneMeans(j: Job, f: Folding, aliases: seq<Alias>, db: string, n: nat)
    requires j.named == Named(f, aliases, db) && n <= |aliases|
    ensures j.NoneRepeats(n) <==> NoneRepeated(f, aliases, db, n)
  {
    if n > 0 {
      NoneMeans(j, f, aliases, db, n - 1);
      RepeatMeans(j, f, aliases, db, n - 1);
    }
  }

  lemma StandsExactlyWhen(f: Folding, tables: seq<string>, x: string)
    ensures Stands(f, tables, x) <==> f.lower(x) in NameMap(f, tables) && NameMap(f, tables)[f.lower(x)] == x
  {
    if i :| 0 <= i < |tables| && tables[i] == x && forall k :: i < k < |tables| ==> f.lower(tables[k]) != f.lower(x) {
      LastStands(f, tables, i);
    }
    if f.lower(x) in NameMap(f, tables) && NameMap(f, tables)[f.lower(x)] == x {
      var i := LastOf(f, tables, f.lower(x));
    }
  }

  lemma {:induction false} LastOf(f: Folding, tables: seq<string>, key: string) returns (i: nat)
    requires key in NameMap(f, tables)
    ensures i < |tables| && tables[i] == NameMap(f, tables)[key] && f.lower(tables[i]) == key
    ensures forall k :: i < k < |tables| ==> f.lower(tables[k]) != key
  {
    if f.lower(tables[|tables| - 1]) == key {
      i := |tables| - 1;
    } else {
      i := LastOf(f, tables[..|tables| - 1], key);
    }
  }

  lemma {:induction false} IsExplained(j: Job, pairs: seq<Pair>, p: Pair)
    requires j.AllExplained(pairs) && p in pairs
    ensures j.Explained(p)
  {
    if p != pairs[|pairs| - 1] {
      IsExplained(j, pairs[..|pairs| - 1], p);
    }
  }

  lemma {:induction false} PairOfSource(f: Folding, pairs: seq<Pair>, s: string) returns (p: Pair)
    requires s in Sources(f, pairs)
    ensures p in pairs && p.status != TargetOnly && f.lower(p.source) == s
  {
    p := pairs[|pairs| - 1];
    if p.status == TargetOnly || f.lower(p.source) != s {
      p := PairOfSource(f, pairs[..|pairs| - 1], s);
    }
  }

  lemma {:induction false} PairOfTarget(f: Folding, pairs: seq<Pair>, t: string) returns (p: Pair)
    requires t in Targets(f, pairs)
    ensures p in pairs && p.status != SourceOnly && f.lower(p.target) == t
  {
    p := pairs[|pairs| - 1];
    if p.status == SourceOnly || f.lower(p.target) != t {
      p := PairOfTarget(f, pairs[..|pairs| - 1], t);
    }
  }

  /** Existing tables are matched exactly if they belong together. */
  lemma MatchedExactlyWhen(j: Job, aliases: seq<Alias>, db: string, s: string, t: string)
    requires j.named == Named(j.f, aliases, db) && s in j.src && t in j.tgt
    ensures j.Matched(s, t) <==> Belong(j.f, aliases, db, s, t)
  {
    AliasedMeans(j, j.f, aliases, db, s, t);
    SomeAliasMeans(j, j.f, aliases, db, s, t);
  }

  lemma SomeAliasMeans(j: Job, f: Folding, aliases: seq<Alias>, db: string, s: string, t: string)
    requires j.named == Named(f, aliases, db)
    ensures s in j.AliasSources(|aliases|) <==> exists u :: AnyMeans(f, aliases, db, s, u)
    ensures t in j.AliasTargets(|aliases|) <==> exists u :: AnyMeans(f, aliases, db, u, t)
  {
    SourcesMean(j, f, aliases, db, |aliases|, s);
    TargetsMean(j, f, aliases, db, |aliases|, t);
    if m, u :| 0 <= m < |aliases| && Means(f, aliases[m], db, s, u) {
      assert AnyMeans(f, aliases, db, s, u);
    }
    if m, u :| 0 <= m < |aliases| && Means(f, aliases[m], db, u, t) {
      assert AnyMeans(f, aliases, db, u, t);
    }
  }

  /** Tables that are matched are a pair, and a table that is not matched is alone. */
  lemma MatchedIsPaired(j: Job, pairs: seq<Pair>, s: string, t: string)
    requires j.Valid() && j.NoneRepeats(|j.named|) && Covers(j, pairs, j.src.Keys, j.tgt.Keys)
    requires s in j.src && t in j.tgt
    ensures NewPair(j.f, j.src[s], j.tgt[t], Both) in pairs <==> j.Matched(s, t)
  {
    var n := NewPair(j.f, j.src[s], j.tgt[t], Both);
    if n in pairs {
      IsExplained(j, pairs, n);
    }
    if j.Matched(s, t) {
      assert s in multiset(j.src.Keys) && s in multiset(Sources(j.f, pairs));
      var p := PairOfSource(j.f, pairs, s);
      IsExplained(j, pairs, p);
      AloneMeansUnmatched(j, s);
      MatchingIsOneToOne(j, s, t, s, if p.status == Both then j.f.lower(p.target) else t);
    }
  }

  lemma AloneIsPaired(j: Job, pairs: seq<Pair>, s: string)
    requires j.Valid() && j.NoneRepeats(|j.named|) && Covers(j, pairs, j.src.Keys, j.tgt.Keys) && s in j.src
    ensures NewPair(j.f, j.src[s], "", SourceOnly) in pairs <==> forall t :: !j.Matched(s, t)
  {
    AloneMeansUnmatched(j, s);
    if NewPair(j.f, j.src[s], "", SourceOnly) in pairs {
      IsExplained(j, pairs, NewPair(j.f, j.src[s], "", SourceOnly));
    }
    assert s in multiset(j.src.Keys) && s in multiset(Sources(j.f, pairs));
    var p := PairOfSource(j.f, pairs, s);
    IsExplained(j, pairs, p);
  }

  lemma TargetAloneIsPaired(j: Job, pairs: seq<Pair>, t: string)
    requires j.Valid() && j.NoneRepeats(|j.named|) && Covers(j, pairs, j.src.Keys, j.tgt.Keys) && t in j.tgt
    ensures NewPair(j.f, "", j.tgt[t], TargetOnly) in pairs <==> forall s :: !j.Matched(s, t)
  {
    TargetAloneMeansUnmatched(j, t);
    if NewPair(j.f, "", j.tgt[t], TargetOnly) in pairs {
      IsExplained(j, pairs, NewPair(j.f, "", j.tgt[t], TargetOnly));
    }
    assert t in multiset(j.tgt.Keys) && t in multiset(Targets(j.f, pairs));
    var p := PairOfTarget(j.f, pairs, t);
    IsExplained(j, pairs, p);
  }

  lemma PairsFollow(
    f: Folding, srcTables: seq<string>, tgtTables: seq<string>, aliases: seq<Alias>, db: string, pairs: seq<Pair>)
    requires var j := MakeJob(f, srcTables, tgtTables, aliases, db);
      j.NoneRepeats(|aliases|) && Covers(j, pairs, j.src.Keys, j.tgt.Keys)
    ensures AllPaired(f, srcTables, tgtTables, aliases, db, pairs)
  {
    BothFollow(f, srcTables, tgtTables, aliases, db, pairs);
    SourcesFollow(f, srcTables, tgtTables, aliases, db, pairs);
    TargetsFollow(f, srcTables, tgtTables, aliases, db, pairs);
    ArePairs(f, srcTables, tgtTables, aliases, db, pairs);
  }

  lemma BothFollow(
    f: Folding, srcTables: seq<string>, tgtTables: seq<string>, aliases: seq<Alias>, db: string, pairs: seq<Pair>)
    requires var j := MakeJob(f, srcTables, tgtTables, aliases, db);
      j.NoneRepeats(|aliases|) && Covers(j, pairs, j.src.Keys, j.tgt.Keys)
    ensures BothPaired(f, srcTables, tgtTables, aliases, db, pairs)
  {
    var j := MakeJob(f, srcTables, tgtTables, aliases, db);
    NameMapKeys(f, srcTables);
    NameMapKeys(f, tgtTables);
    forall x, y | Stands(f, srcTables, x) && Stands(f, tgtTables, y)
      ensures PairOf(f, x, y) in pairs <==> Belong(f, aliases, db, f.lower(x), f.lower(y))
    {
      StandsExactlyWhen(f, srcTables, x);
      StandsExactlyWhen(f, tgtTables, y);
      ShownAs(f, x, y);
      MatchedIsPaired(j, pairs, f.lower(x), f.lower(y));
      MatchedExactlyWhen(j, aliases, db, f.lower(x), f.lower(y));
    }
  }

  lemma SourcesFollow(
    f: Folding, srcTables: seq<string>, tgtTables: seq<string>, aliases: seq<Alias>, db: string, pairs: seq<Pair>)
    requires var j := MakeJob(f, srcTables, tgtTables, aliases, db);
      j.NoneRepeats(|aliases|) && Covers(j, pairs, j.src.Keys, j.tgt.Keys)
    ensures SourcesAlone(f, srcTables, tgtTables, aliases, db, pairs)
  {
    var j := MakeJob(f, srcTables, tgtTables, aliases, db);
    NameMapKeys(f, srcTables);
    NameMapKeys(f, tgtTables);
    forall x | Stands(f, srcTables, x)
      ensures Pair(x, x, "", SourceOnly) in pairs <==> !Partnered(f, tgtTables, aliases, db, x)
    {
      StandsExactlyWhen(f, srcTables, x);
      AloneIsPaired(j, pairs, f.lower(x));
      PartnerIsMatched(j, srcTables, tgtTables, aliases, db, x);
    }
  }

  lemma TargetsFollow(
    f: Folding, srcTables: seq<string>, tgtTables: seq<string>, aliases: seq<Alias>, db: string, pairs: seq<Pair>)
    requires var j := MakeJob(f, srcTables, tgtTables, aliases, db);
      j.NoneRepeats(|aliases|) && Covers(j, pairs, j.src.Keys, j.tgt.Keys)
    ensures TargetsAlone(f, srcTables, tgtTables, aliases, db, pairs)
  {
    var j := MakeJob(f, srcTables, tgtTables, aliases, db);
    NameMapKeys(f, srcTables);
    NameMapKeys(f, tgtTables);
    forall y | Stands(f, tgtTables, y)
      ensures Pair(y, "", y, TargetOnly) in pairs <==> !PartneredBy(f, srcTables, aliases, db, y)
    {
      StandsExactlyWhen(f, tgtTables, y);
      TargetAloneIsPaired(j, pairs, f.lower(y));
      PartnerMatches(j, srcTables, tgtTables, aliases, db, y);
    }
  }

  lemma ArePairs(
    f: Folding, srcTables: seq<string>, tgtTables: seq<string>, aliases: seq<Alias>, db: string, pairs: seq<Pair>)
    requires var j := MakeJob(f, srcTables, tgtTables, aliases, db);
      j.NoneRepeats(|aliases|) && Covers(j, pairs, j.src.Keys, j.tgt.Keys)
    ensures forall p :: p in pairs ==> IsPair(f, srcTables, tgtTables, p)
  {
    var j := MakeJob(f, srcTables, tgtTables, aliases, db);
    forall p | p in pairs
      ensures IsPair(f, srcTables, tgtTables, p)
    {
      IsExplained(j, pairs, p);
      StandsExactlyWhen(f, srcTables, p.source);
      StandsExactlyWhen(f, tgtTables, p.target);
      ShownAs(f, p.source, p.target);
    }
  }

  lemma ShownAs(f: Folding, x: string, y: string)
    ensures NewPair(f, x, y, Both) == PairOf(f, x, y)
    ensures NewPair(f, x, "", SourceOnly) == Pair(x, x, "", SourceOnly)
    ensures NewPair(f, "", y, TargetOnly) == Pair(y, "", y, TargetOnly)
  {
    assert x + " \U{2194} " + y == x + (" \U{2194} " + y);
  }

  lemma PartnerIsMatched(
    j: Job, srcTables: seq<string>, tgtTables: seq<string>, aliases: seq<Alias>, db: string, x: string)
    requires j == MakeJob(j.f, srcTables, tgtTables, aliases, db) && IsNamed(j.f, x, j.src)
    ensures Partnered(j.f, tgtTables, aliases, db, x) <==> exists t :: j.Matched(j.f.lower(x), t)
  {
    var s := j.f.lower(x);
    NameMapKeys(j.f, tgtTables);
    if y :| Stands(j.f, tgtTables, y) && Belong(j.f, aliases, db, s, j.f.lower(y)) {
      StandsExactlyWhen(j.f, tgtTables, y);
      MatchedExactlyWhen(j, aliases, db, s, j.f.lower(y));
    }
    if t :| j.Matched(s, t) {
      StandsExactlyWhen(j.f, tgtTables, j.tgt[t]);
      MatchedExactlyWhen(j, aliases, db, s, t);
    }
  }

  predicate IsNamed(f: Folding, x: string, m: map<string, string>) {
    f.lower(x) in m
  }

  lemma PartnerMatches(
    j: Job, srcTables: seq<string>, tgtTables: seq<string>, aliases: seq<Alias>, db: string, y: string)
    requires j == MakeJob(j.f, srcTables, tgtTables, aliases, db) && IsNamed(j.f, y, j.tgt)
    ensures PartneredBy(j.f, srcTables, aliases, db, y) <==> exists s :: j.Matched(s, j.f.lower(y))
  {
    var t := j.f.lower(y);
    NameMapKeys(j.f, srcTables);
    if x :| Stands(j.f, srcTables, x) && Belong(j.f, aliases, db, j.f.lower(x), t) {
      StandsExactlyWhen(j.f, srcTables, x);
      MatchedExactlyWhen(j, aliases, db, j.f.lower(x), t);
    }
    if s :| j.Matched(s, t) {
      StandsExactlyWhen(j.f, srcTables, j.src[s]);
      MatchedExactlyWhen(j, aliases, db, s, t);
    }
  }

  // ---- what single aliases do ----

  /** An alias whose source has no point is for the table of this name, and `db.table`, in this database, for `table`. */
  lemma PlainAndQualified(f: Folding, a: Alias, db: string, name: string)
    requires f.lower(TrimSpace(a.target)) != "" && name != ""
    requires (TrimSpace(a.source) == name && '.' !in name) ||
      exists d :: Qualified(TrimSpace(a.source), d, name) && f.same(d, db)
    ensures Means(f, a, db, f.lower(name), f.lower(TrimSpace(a.target)))
  {
    var raw := TrimSpace(a.source);
    if raw == name && '.' !in name {
      forall d, n
        ensures !Qualified(raw, d, n)
      {
        PointInside(d, n);
      }
    }
    assert SourceOf(f, a, db, name);
  }

  lemma PointInside(d: string, n: string)
    ensures '.' in d + "." + n
  {
    assert (d + "." + n)[|d|] == '.';
  }

  /** An alias with an empty side, or for another database, is for no tables. */
  lemma OthersMeanNothing(f: Folding, a: Alias, db: string, s: string, t: string)
    requires TrimSpace(a.source) == "" || f.lower(TrimSpace(a.target)) == "" ||
      exists d, n :: Qualified(TrimSpace(a.source), d, n) && !f.same(d, db)
    ensures !Means(f, a, db, s, t)
  {
    var raw := TrimSpace(a.source);
    if d, n :| Qualified(raw, d, n) && !f.same(d, db) {
      SplitExactlyWhen(raw, d, n);
    }
    KeysExactlyWhen(f, a, db, s, t);
  }

  /** So it changes nothing: the same tables belong together and the same aliases repeat without it. */
  lemma OthersChangeNothing(f: Folding, before: seq<Alias>, a: Alias, behind: seq<Alias>, db: string)
    requires forall s, t :: !Means(f, a, db, s, t)
    ensures forall s, t ::
      Belong(f, before + [a] + behind, db, s, t) <==> Belong(f, before + behind, db, s, t)
    ensures (exists n :: 0 <= n < |before + [a] + behind| && Repeated(f, before + [a] + behind, db, n)) <==>
      exists n :: 0 <= n < |before + behind| && Repeated(f, before + behind, db, n)
  {
    var all, less := before + [a] + behind, before + behind;
    var k := |before|;
    assert forall n :: 0 <= n < |less| ==> less[n] == all[if n < k then n else n + 1];
    assert forall n :: 0 <= n < |all| && n != k ==> all[n] == less[if n < k then n else n - 1];
    assert forall n :: 0 <= n < |all| && all[n] != a ==> n != k;
    forall s, t
      ensures AnyMeans(f, all, db, s, t) <==> AnyMeans(f, less, db, s, t)
    {
      SameMeanings(f, all, less, k, db, s, t);
    }
    SameRepeats(f, all, less, k, db);
  }

  lemma SameRepeats(f: Folding, all: seq<Alias>, less: seq<Alias>, k: nat, db: string)
    requires k < |all| && |less| == |all| - 1 && forall u, v :: !Means(f, all[k], db, u, v)
    requires forall n :: 0 <= n < |less| ==> less[n] == all[if n < k then n else n + 1]
    requires forall n :: 0 <= n < |all| && n != k ==> all[n] == less[if n < k then n else n - 1]
    ensures (exists n :: 0 <= n < |all| && Repeated(f, all, db, n)) <==>
      exists n :: 0 <= n < |less| && Repeated(f, less, db, n)
  {
    if n :| 0 <= n < |all| && Repeated(f, all, db, n) {
      RepeatsInLess(f, all, less, k, db, n);
    }
    if n :| 0 <= n < |less| && Repeated(f, less, db, n) {
      RepeatsInAll(f, all, less, k, db, n);
    }
  }

  lemma NoClash(f: Folding, a: Alias, b: Alias, db: string)
    requires (forall u, v :: !Means(f, a, db, u, v)) || forall u, v :: !Means(f, b, db, u, v)
    ensures !Clash(f, a, b, db)
  {
  }

  lemma RepeatsInLess(f: Folding, all: seq<Alias>, less: seq<Alias>, k: nat, db: string, n: nat)
    requires k < |all| && |less| == |all| - 1 && forall u, v :: !Means(f, all[k], db, u, v)
    requires forall i :: 0 <= i < |all| && i != k ==> all[i] == less[if i < k then i else i - 1]
    requires n < |all| && Repeated(f, all, db, n)
    ensures n != k && Repeated(f, less, db, if n < k then n else n - 1)
  {
    var m :| 0 <= m < n && Clash(f, all[m], all[n], db);
    if n == k || m == k {
      NoClash(f, all[m], all[n], db);
    }
    ClashIsRepeat(f, less, db, if m < k then m else m - 1, if n < k then n else n - 1);
  }

  lemma RepeatsInAll(f: Folding, all: seq<Alias>, less: seq<Alias>, k: nat, db: string, n: nat)
    requires k < |all| && |less| == |all| - 1
    requires forall i :: 0 <= i < |less| ==> less[i] == all[if i < k then i else i + 1]
    requires n < |less| && Repeated(f, less, db, n)
    ensures Repeated(f, all, db, if n < k then n else n + 1)
  {
    var m :| 0 <= m < n && Clash(f, less[m], less[n], db);
    ClashIsRepeat(f, all, db, if m < k then m else m + 1, if n < k then n else n + 1);
  }

  lemma ClashIsRepeat(f: Folding, aliases: seq<Alias>, db: string, m: nat, n: nat)
    requires m < n < |aliases| && Clash(f, aliases[m], aliases[n], db)
    ensures Repeated(f, aliases, db, n)
  {
  }

  lemma SameMeanings(
    f: Folding, all: seq<Alias>, less: seq<Alias>, k: nat, db: string, s: string, t: string)
    requires k < |all| && |less| == |all| - 1 && forall u, v :: !Means(f, all[k], db, u, v)
    requires forall n :: 0 <= n < |less| ==> less[n] == all[if n < k then n else n + 1]
    requires forall n :: 0 <= n < |all| && n != k ==> all[n] == less[if n < k then n else n - 1]
    ensures AnyMeans(f, all, db, s, t) <==> AnyMeans(f, less, db, s, t)
  {
    if n :| 0 <= n < |all| && Means(f, all[n], db, s, t) {
      assert less[if n < k then n else n - 1] == all[n];
    }
    if n :| 0 <= n < |less| && Means(f, less[n], db, s, t) {
      assert all[if n < k then n else n + 1] == less[n];
    }
  }
}
