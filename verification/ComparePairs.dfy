/**
 Pairing the tables of two databases for comparison (internal/engine/compare.go): configured aliases first,
 then tables of the same name, then what is left on either side.
 */
module ComparePairs {
  import opened GoStrings
  import opened Sequences

  datatype Status = Both | SourceOnly | TargetOnly

  datatype Alias = Alias(source: string, target: string)

  /** The name of a table that a pair does not have is empty. */
  datatype Pair = Pair(name: string, source: string, target: string, status: Status)

  /** How letter case is ignored: `strings.ToLower` and `strings.EqualFold`. */
  datatype Folding = Folding(lower: string -> string, same: (string, string) -> bool)

  /** `splitQualifiedName`: the texts around the first point, if neither is empty. */
  function SplitQualifiedName(s: string): Option<(string, string)> {
    var i := Index(s, ".");
    if i <= 0 || i == |s| - 1 then None else Some((s[..i], s[i + 1..]))
  }

  lemma QualifiedNameSplits(db: string, name: string)
    requires db != "" && name != "" && '.' !in db
    ensures SplitQualifiedName(db + "." + name) == Some((db, name))
  {
    var s := db + "." + name;
    forall k | 0 <= k <= |db|
      ensures MatchAt(s, ".", k) <==> k == |db|
    {
      SameFromChars(s, ".", k, 0);
    }
    IndexIs(s, ".", |db|);
    assert s[..|db|] == db && s[|db| + 1..] == name;
  }

  function NewPair(f: Folding, source: string, target: string, status: Status): Pair {
    var name := match status
      case SourceOnly => source
      case TargetOnly => target
      case Both => if f.same(source, target) then source else source + " \U{2194} " + target;
    Pair(name, source, target, status)
  }

  // ---- what the lists of tables and aliases mean ----

  /** Actual table names by lower-case name; of two that differ in case only, the later. */
  function NameMap(f: Folding, tables: seq<string>): map<string, string> {
    if tables == [] then map[]
    else NameMap(f, tables[..|tables| - 1])[f.lower(tables[|tables| - 1]) := tables[|tables| - 1]]
  }

  /** The lower-case names an alias pairs, unless it is incomplete or meant for another database. */
  function AliasKeys(f: Folding, a: Alias, db: string): Option<(string, string)> {
    var raw, t := TrimSpace(a.source), f.lower(TrimSpace(a.target));
    if raw == "" || t == "" then None
    else
      var q := SplitQualifiedName(raw);
      if q.None? then Some((f.lower(raw), t))
      else if !f.same(q.value.0, db) then None
      else Some((f.lower(q.value.1), t))
  }

  function Named(f: Folding, aliases: seq<Alias>, db: string): seq<Option<(string, string)>> {
    seq(|aliases|, i requires 0 <= i < |aliases| => AliasKeys(f, aliases[i], db))
  }

  datatype Job = Job(
    f: Folding,
    src: map<string, string>,
    tgt: map<string, string>,
    named: seq<Option<(string, string)>>)  // what each alias pairs
  {
    /** The source tables that the first `n` aliases name. */
    function AliasSources(n: nat): set<string>
      requires n <= |named|
    {
      if n == 0 then {}
      else
        var k := named[n - 1];
        if k.None? then AliasSources(n - 1) else AliasSources(n - 1) + {k.value.0}
    }

    /** The target tables that the first `n` aliases name. */
    function AliasTargets(n: nat): set<string>
      requires n <= |named|
    {
      if n == 0 then {}
      else
        var k := named[n - 1];
        if k.None? then AliasTargets(n - 1) else AliasTargets(n - 1) + {k.value.1}
    }

    /** Alias `i` names a table that an earlier alias has named on the same side. */
    predicate Repeats(i: nat)
      requires i < |named|
    {
      var k := named[i];
      k.Some? && (k.value.0 in AliasSources(i) || k.value.1 in AliasTargets(i))
    }

    /** None of the first `n` aliases repeats. */
    predicate NoneRepeats(n: nat)
      requires n <= |named|
    {
      n > 0 ==> NoneRepeats(n - 1) && !Repeats(n - 1)
    }

    ghost predicate Aliased(s: string, t: string) {
      exists i :: 0 <= i < |named| && named[i] == Some((s, t))
    }

    /** Two existing tables belong together: by an alias, or by name where no alias claims either. */
    ghost predicate Matched(s: string, t: string) {
      && s in src && t in tgt
      && (Aliased(s, t) || (s == t && s !in AliasSources(|named|) && t !in AliasTargets(|named|)))
    }

    /** Why a source table is left without a partner. */
    ghost predicate SourceAlone(s: string) {
      && s in src
      && ((exists t :: Aliased(s, t) && t !in tgt)
          || (s !in AliasSources(|named|) && (s !in tgt || s in AliasTargets(|named|))))
    }

    /** Why a target table is left without a partner. */
    ghost predicate TargetAlone(t: string) {
      && t in tgt
      && ((exists s :: Aliased(s, t) && s !in src)
          || (t !in AliasTargets(|named|) && (t !in src || t in AliasSources(|named|))))
    }

    ghost predicate Explained(p: Pair) {
      var s, t := f.lower(p.source), f.lower(p.target);
      match p.status
      case Both => Matched(s, t) && p == NewPair(f, src[s], tgt[t], Both)
      case SourceOnly => SourceAlone(s) && p == NewPair(f, src[s], "", SourceOnly)
      case TargetOnly => TargetAlone(t) && p == NewPair(f, "", tgt[t], TargetOnly)
    }

    ghost predicate AllExplained(pairs: seq<Pair>) {
      pairs != [] ==> AllExplained(pairs[..|pairs| - 1]) && Explained(pairs[|pairs| - 1])
    }

    /** Each table is known by its lower-case name. */
    ghost predicate Valid() {
      && (forall k :: k in src ==> f.lower(src[k]) == k)
      && (forall k :: k in tgt ==> f.lower(tgt[k]) == k)
    }
  }

  /** The lower-case names of the source tables in a list of pairs. */
  function Sources(f: Folding, pairs: seq<Pair>): seq<string> {
    if pairs == [] then []
    else
      var p := pairs[|pairs| - 1];
      Sources(f, pairs[..|pairs| - 1]) + if p.status == TargetOnly then [] else [f.lower(p.source)]
  }

  function Targets(f: Folding, pairs: seq<Pair>): seq<string> {
    if pairs == [] then []
    else
      var p := pairs[|pairs| - 1];
      Targets(f, pairs[..|pairs| - 1]) + if p.status == SourceOnly then [] else [f.lower(p.target)]
  }

  function BothCount(pairs: seq<Pair>): nat {
    if pairs == [] then 0
    else BothCount(pairs[..|pairs| - 1]) + if pairs[|pairs| - 1].status == Both then 1 else 0
  }

  // ---- the result so far ----

  /** The pairs have these source and these target tables, each once, and a reason for their status. */
  ghost predicate Covers(j: Job, pairs: seq<Pair>, s: set<string>, t: set<string>) {
    && multiset(Sources(j.f, pairs)) == multiset(s)
    && multiset(Targets(j.f, pairs)) == multiset(t)
    && j.AllExplained(pairs)
  }

  lemma AddBoth(j: Job, pairs: seq<Pair>, s: set<string>, t: set<string>, a: string, b: string)
    requires j.Valid() && Covers(j, pairs, s, t) && j.Matched(a, b) && a !in s && b !in t
    ensures Covers(j, pairs + [NewPair(j.f, j.src[a], j.tgt[b], Both)], s + {a}, t + {b})
  {
    var p := NewPair(j.f, j.src[a], j.tgt[b], Both);
    assert (pairs + [p])[..|pairs|] == pairs;
    SetPlus(s, a);
    SetPlus(t, b);
    assert j.Explained(p);
  }

  lemma AddSource(j: Job, pairs: seq<Pair>, s: set<string>, t: set<string>, a: string)
    requires j.Valid() && Covers(j, pairs, s, t) && j.SourceAlone(a) && a !in s
    ensures Covers(j, pairs + [NewPair(j.f, j.src[a], "", SourceOnly)], s + {a}, t)
  {
    var p := NewPair(j.f, j.src[a], "", SourceOnly);
    assert (pairs + [p])[..|pairs|] == pairs;
    SetPlus(s, a);
    assert j.Explained(p);
  }

  lemma AddTarget(j: Job, pairs: seq<Pair>, s: set<string>, t: set<string>, b: string)
    requires j.Valid() && Covers(j, pairs, s, t) && j.TargetAlone(b) && b !in t
    ensures Covers(j, pairs + [NewPair(j.f, "", j.tgt[b], TargetOnly)], s, t + {b})
  {
    var p := NewPair(j.f, "", j.tgt[b], TargetOnly);
    assert (pairs + [p])[..|pairs|] == pairs;
    SetPlus(t, b);
    assert j.Explained(p);
  }

  lemma SetPlus(s: set<string>, a: string)
    requires a !in s
    ensures multiset(s + {a}) == multiset(s) + multiset{a}
  {
  }

  // ---- the aliases ----

  method PairAliases(j: Job) returns (failed: Option<nat>, pairs: seq<Pair>, usedSrc: set<string>, usedTgt: set<string>)
    requires j.Valid()
    ensures failed.Some? ==> failed.value < |j.named| && j.Repeats(failed.value) && j.NoneRepeats(failed.value)
    ensures failed.None? ==> j.NoneRepeats(|j.named|) && AliasesDone(j, |j.named|, pairs, usedSrc, usedTgt)
  {
    pairs, usedSrc, usedTgt, failed := [], {}, {}, None;
    var seenSrc: set<string>, seenTgt: set<string> := {}, {};
    for n := 0 to |j.named|
      invariant Seen(j, n, seenSrc, seenTgt)
      invariant AliasesDone(j, n, pairs, usedSrc, usedTgt)
    {
      var keys := j.named[n];
      if keys.None? {
        SkipsAlias(j, n, pairs, usedSrc, usedTgt, seenSrc, seenTgt);
        continue;
      }
      var (s, t) := keys.value;
      if s in seenSrc || t in seenTgt {
        return Some(n), pairs, usedSrc, usedTgt;
      }
      SeesAlias(j, n, s, t, seenSrc, seenTgt);
      seenSrc, seenTgt := seenSrc + {s}, seenTgt + {t};
      pairs, usedSrc, usedTgt := PairAlias(j, n, pairs, usedSrc, usedTgt, s, t);
    }
  }

  /** What has been seen of the first `n` aliases, none of which repeats. */
  predicate Seen(j: Job, n: nat, seenSrc: set<string>, seenTgt: set<string>)
    requires n <= |j.named|
  {
    seenSrc == j.AliasSources(n) && seenTgt == j.AliasTargets(n) && j.NoneRepeats(n)
  }

  lemma SeesAlias(j: Job, n: nat, s: string, t: string, seenSrc: set<string>, seenTgt: set<string>)
    requires n < |j.named| && j.named[n] == Some((s, t)) && Seen(j, n, seenSrc, seenTgt)
    requires s !in seenSrc && t !in seenTgt
    ensures !j.Repeats(n) && Seen(j, n + 1, seenSrc + {s}, seenTgt + {t})
  {
  }

  lemma SkipsAlias(
    j: Job, n: nat, pairs: seq<Pair>, usedSrc: set<string>, usedTgt: set<string>, seenSrc: set<string>,
    seenTgt: set<string>)
    requires n < |j.named| && j.named[n].None?
    requires AliasesDone(j, n, pairs, usedSrc, usedTgt) && Seen(j, n, seenSrc, seenTgt)
    ensures AliasesDone(j, n + 1, pairs, usedSrc, usedTgt) && Seen(j, n + 1, seenSrc, seenTgt)
  {
  }

  /** What the first `n` aliases leave behind. */
  ghost predicate AliasesDone(j: Job, n: nat, pairs: seq<Pair>, usedSrc: set<string>, usedTgt: set<string>)
    requires n <= |j.named|
  {
    var s, t := j.AliasSources(n) * j.src.Keys, j.AliasTargets(n) * j.tgt.Keys;
    usedSrc * j.src.Keys == s && usedTgt * j.tgt.Keys == t && Covers(j, pairs, s, t)
  }

  method PairAlias(j: Job, n: nat, pairs: seq<Pair>, usedSrc: set<string>, usedTgt: set<string>, s: string, t: string)
    returns (pairs': seq<Pair>, usedSrc': set<string>, usedTgt': set<string>)
    requires j.Valid() && n < |j.named| && j.named[n] == Some((s, t)) && !j.Repeats(n)
    requires AliasesDone(j, n, pairs, usedSrc, usedTgt)
    ensures AliasesDone(j, n + 1, pairs', usedSrc', usedTgt')
  {
    pairs', usedSrc', usedTgt' := pairs, usedSrc, usedTgt;
    var status := Both;
    var sourceName := if s in j.src then j.src[s] else "";
    var targetName := if t in j.tgt then j.tgt[t] else "";
    if s in j.src && t in j.tgt {
      AliasOfBoth(j, n, pairs, usedSrc, usedTgt, s, t);
    } else if s in j.src {
      status := SourceOnly;
      AliasOfSource(j, n, pairs, usedSrc, usedTgt, s, t);
    } else if t in j.tgt {
      status := TargetOnly;
      AliasOfTarget(j, n, pairs, usedSrc, usedTgt, s, t);
    } else {
      AliasOfNone(j, n, pairs, usedSrc, usedTgt, s, t);
      return;
    }
    pairs' := pairs + [NewPair(j.f, sourceName, targetName, status)];
    usedSrc', usedTgt' := usedSrc + {s}, usedTgt + {t};
  }

  lemma OneMoreAlias(j: Job, n: nat, s: string, t: string)
    requires n < |j.named| && j.named[n] == Some((s, t))
    ensures j.AliasSources(n + 1) * j.src.Keys ==
      if s in j.src then j.AliasSources(n) * j.src.Keys + {s} else j.AliasSources(n) * j.src.Keys
    ensures j.AliasTargets(n + 1) * j.tgt.Keys ==
      if t in j.tgt then j.AliasTargets(n) * j.tgt.Keys + {t} else j.AliasTargets(n) * j.tgt.Keys
    ensures j.Aliased(s, t)
  {
    assert j.named[n] == Some((s, t));
  }

  lemma AliasOfBoth(j: Job, n: nat, pairs: seq<Pair>, usedSrc: set<string>, usedTgt: set<string>, s: string, t: string)
    requires j.Valid() && n < |j.named| && j.named[n] == Some((s, t)) && !j.Repeats(n)
    requires AliasesDone(j, n, pairs, usedSrc, usedTgt) && s in j.src && t in j.tgt
    ensures AliasesDone(j, n + 1, pairs + [NewPair(j.f, j.src[s], j.tgt[t], Both)], usedSrc + {s}, usedTgt + {t})
  {
    OneMoreAlias(j, n, s, t);
    AddBoth(j, pairs, j.AliasSources(n) * j.src.Keys, j.AliasTargets(n) * j.tgt.Keys, s, t);
    Within(usedSrc, s, j.src.Keys);
    Within(usedTgt, t, j.tgt.Keys);
  }

  lemma AliasOfSource(j: Job, n: nat, pairs: seq<Pair>, usedSrc: set<string>, usedTgt: set<string>, s: string, t: string)
    requires j.Valid() && n < |j.named| && j.named[n] == Some((s, t)) && !j.Repeats(n)
    requires AliasesDone(j, n, pairs, usedSrc, usedTgt) && s in j.src && t !in j.tgt
    ensures AliasesDone(j, n + 1, pairs + [NewPair(j.f, j.src[s], "", SourceOnly)], usedSrc + {s}, usedTgt + {t})
  {
    OneMoreAlias(j, n, s, t);
    AddSource(j, pairs, j.AliasSources(n) * j.src.Keys, j.AliasTargets(n) * j.tgt.Keys, s);
    Within(usedSrc, s, j.src.Keys);
    Within(usedTgt, t, j.tgt.Keys);
  }

  lemma AliasOfTarget(j: Job, n: nat, pairs: seq<Pair>, usedSrc: set<string>, usedTgt: set<string>, s: string, t: string)
    requires j.Valid() && n < |j.named| && j.named[n] == Some((s, t)) && !j.Repeats(n)
    requires AliasesDone(j, n, pairs, usedSrc, usedTgt) && s !in j.src && t in j.tgt
    ensures AliasesDone(j, n + 1, pairs + [NewPair(j.f, "", j.tgt[t], TargetOnly)], usedSrc + {s}, usedTgt + {t})
  {
    OneMoreAlias(j, n, s, t);
    AddTarget(j, pairs, j.AliasSources(n) * j.src.Keys, j.AliasTargets(n) * j.tgt.Keys, t);
    Within(usedSrc, s, j.src.Keys);
    Within(usedTgt, t, j.tgt.Keys);
  }

  lemma AliasOfNone(j: Job, n: nat, pairs: seq<Pair>, usedSrc: set<string>, usedTgt: set<string>, s: string, t: string)
    requires j.Valid() && n < |j.named| && j.named[n] == Some((s, t)) && !j.Repeats(n)
    requires AliasesDone(j, n, pairs, usedSrc, usedTgt) && s !in j.src && t !in j.tgt
    ensures AliasesDone(j, n + 1, pairs, usedSrc, usedTgt)
  {
    OneMoreAlias(j, n, s, t);
  }

  lemma Within(used: set<string>, a: string, all: set<string>)
    ensures (used + {a}) * all == if a in all then used * all + {a} else used * all
  {
  }

  // ---- the other tables ----

  predicate Distinct(keys: seq<string>, n: nat)
    requires n <= |keys|
  {
    n > 0 ==> Distinct(keys, n - 1) && keys[n - 1] !in Among(keys, n - 1)
  }

  /** `sortedKeys`, in whatever order. */
  method SortedKeys(m: map<string, string>) returns (keys: seq<string>)
    ensures Distinct(keys, |keys|) && Among(keys, |keys|) == m.Keys
  {
    keys := [];
    var todo := m.Keys;
    while todo != {}
      invariant Distinct(keys, |keys|) && Among(keys, |keys|) !! todo && Among(keys, |keys|) + todo == m.Keys
      decreases |todo|
    {
      var k :| k in todo;
      OneMoreKey(keys, k, todo);
      keys := keys + [k];
      todo := todo - {k};
    }
  }

  lemma OneMoreKey(keys: seq<string>, k: string, todo: set<string>)
    requires Distinct(keys, |keys|) && k in todo && Among(keys, |keys|) !! todo
    ensures var keys', todo' := keys + [k], todo - {k};
      && Distinct(keys', |keys'|) && Among(keys', |keys'|) !! todo'
      && Among(keys', |keys'|) + todo' == Among(keys, |keys|) + todo
  {
    Snoc(keys, k, |keys|);
    assert Among(keys + [k], |keys| + 1) == Among(keys, |keys|) + {k};
  }

  lemma {:induction false} Snoc(keys: seq<string>, k: string, n: nat)
    requires n <= |keys|
    ensures Among(keys + [k], n) == Among(keys, n) && Distinct(keys + [k], n) == Distinct(keys, n)
  {
    if n > 0 {
      Snoc(keys, k, n - 1);
    }
  }

  lemma {:induction false} LaterIsNew(keys: seq<string>, n: nat, m: nat)
    requires n <= m <= |keys| && Distinct(keys, m)
    ensures Distinct(keys, n)
  {
    if n < m {
      LaterIsNew(keys, n, m - 1);
    }
  }

  /** The tables of these names that are paired by name: both exist and no alias claims either. */
  ghost function ByName(j: Job, names: set<string>): set<string> {
    names * j.tgt.Keys - j.AliasSources(|j.named|) - j.AliasTargets(|j.named|)
  }

  /** The source tables paired once the tables `names` have been looked at. */
  ghost function SourcesDone(j: Job, names: set<string>): set<string> {
    j.AliasSources(|j.named|) * j.src.Keys + names
  }

  ghost function TargetsDone(j: Job, names: set<string>): set<string> {
    j.AliasTargets(|j.named|) * j.tgt.Keys + ByName(j, names)
  }

  ghost predicate NamesDone(j: Job, names: set<string>, pairs: seq<Pair>, usedSrc: set<string>, usedTgt: set<string>) {
    && usedSrc * j.src.Keys == SourcesDone(j, names)
    && usedTgt * j.tgt.Keys == TargetsDone(j, names)
    && Covers(j, pairs, SourcesDone(j, names), TargetsDone(j, names))
  }

  method PairByName(j: Job, pairs0: seq<Pair>, usedSrc0: set<string>, usedTgt0: set<string>)
    returns (pairs: seq<Pair>, usedTgt: set<string>)
    requires j.Valid() && AliasesDone(j, |j.named|, pairs0, usedSrc0, usedTgt0)
    ensures usedTgt * j.tgt.Keys == TargetsDone(j, j.src.Keys)
    ensures Covers(j, pairs, j.src.Keys, TargetsDone(j, j.src.Keys))
  {
    pairs, usedTgt := pairs0, usedTgt0;
    var usedSrc := usedSrc0;
    NothingDone(j);
    var keys := SortedKeys(j.src);
    for n := 0 to |keys|
      invariant NamesDone(j, Among(keys, n), pairs, usedSrc, usedTgt)
    {
      NextKey(keys, j.src.Keys, n);
      pairs, usedSrc, usedTgt := PairName(j, Among(keys, n), pairs, usedSrc, usedTgt, keys[n]);
    }
    AllDone(j);
  }

  lemma NextKey(keys: seq<string>, all: set<string>, n: nat)
    requires n < |keys| && Distinct(keys, |keys|) && Among(keys, |keys|) == all
    ensures keys[n] in all && keys[n] !in Among(keys, n) && Among(keys, n + 1) == Among(keys, n) + {keys[n]}
  {
    LaterIsNew(keys, n + 1, |keys|);
    NameIn(keys, n, |keys|);
  }

  lemma {:induction false} NameIn(keys: seq<string>, i: nat, n: nat)
    requires i < n <= |keys|
    ensures keys[i] in Among(keys, n)
  {
    if i < n - 1 {
      NameIn(keys, i, n - 1);
    }
  }

  lemma AllDone(j: Job)
    ensures SourcesDone(j, j.src.Keys) == j.src.Keys
    ensures TargetsDone(j, j.src.Keys) + j.tgt.Keys == j.tgt.Keys
    ensures TargetsDone(j, j.src.Keys) + {} == TargetsDone(j, j.src.Keys)
  {
  }

  lemma NothingDone(j: Job)
    ensures SourcesDone(j, {}) == j.AliasSources(|j.named|) * j.src.Keys
    ensures TargetsDone(j, {}) == j.AliasTargets(|j.named|) * j.tgt.Keys
  {
  }

  lemma OneMoreName(j: Job, names: set<string>, key: string)
    ensures SourcesDone(j, names + {key}) == SourcesDone(j, names) + {key}
  {
  }

  /** One round of the loop over the source tables. */
  method PairName(
    j: Job, ghost names: set<string>, pairs: seq<Pair>, usedSrc: set<string>, usedTgt: set<string>, key: string)
    returns (pairs': seq<Pair>, usedSrc': set<string>, usedTgt': set<string>)
    requires j.Valid() && NamesDone(j, names, pairs, usedSrc, usedTgt)
    requires key in j.src && key !in names
    ensures NamesDone(j, names + {key}, pairs', usedSrc', usedTgt')
  {
    pairs', usedSrc', usedTgt' := pairs, usedSrc, usedTgt;
    if key in usedSrc {
      OneMoreName(j, names, key);
      Claimed(j, names, key, usedSrc);
      return;
    }
    usedSrc' := usedSrc + {key};
    if key in j.tgt && key !in usedTgt {
      PairsWithNamesake(j, names, pairs, usedSrc, usedTgt, key);
      usedTgt' := usedTgt + {key};
      pairs' := pairs + [NewPair(j.f, j.src[key], j.tgt[key], Both)];
    } else {
      StaysAlone(j, names, pairs, usedSrc, usedTgt, key);
      pairs' := pairs + [NewPair(j.f, j.src[key], "", SourceOnly)];
    }
  }

  lemma PairsWithNamesake(
    j: Job, names: set<string>, pairs: seq<Pair>, usedSrc: set<string>, usedTgt: set<string>, key: string)
    requires j.Valid() && NamesDone(j, names, pairs, usedSrc, usedTgt)
    requires key in j.src && key !in names && key !in usedSrc && key in j.tgt && key !in usedTgt
    ensures NamesDone(
      j, names + {key}, pairs + [NewPair(j.f, j.src[key], j.tgt[key], Both)], usedSrc + {key}, usedTgt + {key})
  {
    OneMoreName(j, names, key);
    Unclaimed(j, names, key, usedSrc, usedTgt);
    AddBoth(j, pairs, SourcesDone(j, names), TargetsDone(j, names), key, key);
    Within(usedSrc, key, j.src.Keys);
    Within(usedTgt, key, j.tgt.Keys);
  }

  lemma StaysAlone(
    j: Job, names: set<string>, pairs: seq<Pair>, usedSrc: set<string>, usedTgt: set<string>, key: string)
    requires j.Valid() && NamesDone(j, names, pairs, usedSrc, usedTgt)
    requires key in j.src && key !in names && key !in usedSrc && (key !in j.tgt || key in usedTgt)
    ensures NamesDone(j, names + {key}, pairs + [NewPair(j.f, j.src[key], "", SourceOnly)], usedSrc + {key}, usedTgt)
  {
    OneMoreName(j, names, key);
    Unclaimed(j, names, key, usedSrc, usedTgt);
    AddSource(j, pairs, SourcesDone(j, names), TargetsDone(j, names), key);
    Within(usedSrc, key, j.src.Keys);
  }

  /** A source table that is in use already is named by an alias. */
  lemma Claimed(j: Job, names: set<string>, key: string, usedSrc: set<string>)
    requires key in j.src && key !in names && key in usedSrc
    requires usedSrc * j.src.Keys == SourcesDone(j, names)
    ensures SourcesDone(j, names + {key}) == SourcesDone(j, names)
    ensures TargetsDone(j, names + {key}) == TargetsDone(j, names)
  {
    assert key in usedSrc * j.src.Keys;
  }

  /** A source table not in use yet is paired by name if its target is there and not in use. */
  lemma Unclaimed(j: Job, names: set<string>, key: string, usedSrc: set<string>, usedTgt: set<string>)
    requires key in j.src && key !in names && key !in usedSrc
    requires usedSrc * j.src.Keys == SourcesDone(j, names) && usedTgt * j.tgt.Keys == TargetsDone(j, names)
    ensures key !in SourcesDone(j, names) && key !in j.AliasSources(|j.named|)
    ensures key in j.tgt ==> (key in usedTgt <==> key in j.AliasTargets(|j.named|))
    ensures key in TargetsDone(j, names) ==> key in usedTgt
    ensures TargetsDone(j, names + {key}) ==
      TargetsDone(j, names) + if key in j.tgt && key !in usedTgt then {key} else {}
  {
    assert key !in usedSrc * j.src.Keys;
    assert key in j.tgt ==> (key in usedTgt <==> key in usedTgt * j.tgt.Keys);
  }

  method AddTargets(j: Job, pairs0: seq<Pair>, usedTgt: set<string>) returns (pairs: seq<Pair>)
    requires j.Valid() && usedTgt * j.tgt.Keys == TargetsDone(j, j.src.Keys)
    requires Covers(j, pairs0, j.src.Keys, TargetsDone(j, j.src.Keys))
    ensures Covers(j, pairs, j.src.Keys, j.tgt.Keys)
  {
    pairs := pairs0;
    var keys := SortedKeys(j.tgt);
    ghost var done := TargetsDone(j, j.src.Keys);
    AllDone(j);
    for n := 0 to |keys|
      invariant Covers(j, pairs, j.src.Keys, done + Among(keys, n))
    {
      NextKey(keys, j.tgt.Keys, n);
      var key := keys[n];
      OneMoreTarget(j, done, usedTgt, Among(keys, n), key);
      if key !in usedTgt {
        AddTarget(j, pairs, j.src.Keys, done + Among(keys, n), key);
        pairs := pairs + [NewPair(j.f, "", j.tgt[key], TargetOnly)];
      }
    }
  }

  lemma OneMoreTarget(j: Job, done: set<string>, usedTgt: set<string>, names: set<string>, key: string)
    requires key in j.tgt && key !in names
    requires done == TargetsDone(j, j.src.Keys) && usedTgt * j.tgt.Keys == done
    ensures key in usedTgt ==> done + (names + {key}) == done + names
    ensures done + (names + {key}) == (done + names) + {key}
    ensures key !in usedTgt ==> key !in done + names && j.TargetAlone(key)
  {
    assert key in usedTgt <==> key in usedTgt * j.tgt.Keys;
  }

  // ---- all of it ----

  lemma {:induction false} NameMapKeys(f: Folding, tables: seq<string>)
    ensures forall k :: k in NameMap(f, tables) ==> f.lower(NameMap(f, tables)[k]) == k
  {
    if tables != [] {
      NameMapKeys(f, tables[..|tables| - 1]);
    }
  }

  lemma {:induction false} PairCount(f: Folding, pairs: seq<Pair>)
    ensures |pairs| == |Sources(f, pairs)| + |Targets(f, pairs)| - BothCount(pairs)
  {
    if pairs != [] {
      PairCount(f, pairs[..|pairs| - 1]);
    }
  }

  function MakeJob(f: Folding, srcTables: seq<string>, tgtTables: seq<string>, aliases: seq<Alias>, db: string): Job {
    Job(f, NameMap(f, srcTables), NameMap(f, tgtTables), Named(f, aliases, db))
  }

  method MakeMap(f: Folding, tables: seq<string>) returns (m: map<string, string>)
    ensures m == NameMap(f, tables)
  {
    m := map[];
    for n := 0 to |tables|
      invariant m == NameMap(f, tables[..n])
    {
      assert tables[..n + 1][..n] == tables[..n];
      m := m[f.lower(tables[n]) := tables[n]];
    }
    assert tables[..|tables|] == tables;
  }

  lemma SizeOf(names: seq<string>, all: set<string>)
    requires multiset(names) == multiset(all)
    ensures |names| == |all|
  {
    assert |multiset(names)| == |names|;
  }

  // ---- what the pairing amounts to ----

  lemma {:induction false} AliasedIsNamed(j: Job, i: nat, n: nat)
    requires i < n <= |j.named| && j.named[i].Some?
    ensures var k := j.named[i].value; k.0 in j.AliasSources(n) && k.1 in j.AliasTargets(n)
  {
    if i < n - 1 {
      AliasedIsNamed(j, i, n - 1);
    }
  }

  lemma {:induction false} SourceHasAlias(j: Job, n: nat, s: string) returns (i: nat)
    requires n <= |j.named| && s in j.AliasSources(n)
    ensures i < n && j.named[i].Some? && j.named[i].value.0 == s
  {
    var k := j.named[n - 1];
    if k.Some? && k.value.0 == s {
      i := n - 1;
    } else {
      i := SourceHasAlias(j, n - 1, s);
    }
  }

  lemma {:induction false} TargetHasAlias(j: Job, n: nat, t: string) returns (i: nat)
    requires n <= |j.named| && t in j.AliasTargets(n)
    ensures i < n && j.named[i].Some? && j.named[i].value.1 == t
  {
    var k := j.named[n - 1];
    if k.Some? && k.value.1 == t {
      i := n - 1;
    } else {
      i := TargetHasAlias(j, n - 1, t);
    }
  }

  lemma {:induction false} NoneRepeatsUpTo(j: Job, i: nat, n: nat)
    requires i < n <= |j.named| && j.NoneRepeats(n)
    ensures !j.Repeats(i)
  {
    if i < n - 1 {
      NoneRepeatsUpTo(j, i, n - 1);
    }
  }

  lemma AliasesDiffer(j: Job, i: nat, k: nat)
    requires i < k < |j.named| && j.NoneRepeats(|j.named|)
    requires j.named[i].Some? && j.named[k].Some?
    ensures j.named[i].value.0 != j.named[k].value.0
    ensures j.named[i].value.1 != j.named[k].value.1
  {
    AliasedIsNamed(j, i, k);
    NoneRepeatsUpTo(j, k, |j.named|);
  }

  /** Where no alias repeats, an alias source has one target and an alias target one source. */
  lemma AliasesPairOneToOne(j: Job, s: string, t: string, s': string, t': string)
    requires j.NoneRepeats(|j.named|) && j.Aliased(s, t) && j.Aliased(s', t')
    ensures s == s' <==> t == t'
    ensures s in j.AliasSources(|j.named|) && t in j.AliasTargets(|j.named|)
  {
    var i :| 0 <= i < |j.named| && j.named[i] == Some((s, t));
    var k :| 0 <= k < |j.named| && j.named[k] == Some((s', t'));
    AliasedIsNamed(j, i, |j.named|);
    if i < k {
      AliasesDiffer(j, i, k);
    } else if k < i {
      AliasesDiffer(j, k, i);
    }
  }

  /** The matching is one to one. */
  lemma MatchingIsOneToOne(j: Job, s: string, t: string, s': string, t': string)
    requires j.NoneRepeats(|j.named|) && j.Matched(s, t) && j.Matched(s', t')
    ensures s == s' <==> t == t'
  {
    if j.Aliased(s, t) && j.Aliased(s', t') {
      AliasesPairOneToOne(j, s, t, s', t');
    } else if j.Aliased(s, t) {
      AliasesPairOneToOne(j, s, t, s, t);
    } else if j.Aliased(s', t') {
      AliasesPairOneToOne(j, s', t', s', t');
    }
  }

  /** A source table is reported alone exactly if no target table matches it. */
  lemma AloneMeansUnmatched(j: Job, s: string)
    requires j.NoneRepeats(|j.named|) && s in j.src
    ensures j.SourceAlone(s) <==> forall t :: !j.Matched(s, t)
  {
    if s in j.AliasSources(|j.named|) {
      var i := SourceHasAlias(j, |j.named|, s);
      var t := j.named[i].value.1;
      assert j.Aliased(s, t);
      forall t' | j.Aliased(s, t')
        ensures t' == t
      {
        AliasesPairOneToOne(j, s, t, s, t');
      }
      assert j.Matched(s, t) <==> t in j.tgt;
    } else {
      forall t
        ensures !j.Aliased(s, t)
      {
        NotAliased(j, s, t);
      }
      assert j.Matched(s, s) <==> s in j.tgt && s !in j.AliasTargets(|j.named|);
    }
  }

  lemma NotAliased(j: Job, s: string, t: string)
    requires s !in j.AliasSources(|j.named|) || t !in j.AliasTargets(|j.named|)
    ensures !j.Aliased(s, t)
  {
    forall i | 0 <= i < |j.named| && j.named[i].Some?
      ensures j.named[i] != Some((s, t))
    {
      AliasedIsNamed(j, i, |j.named|);
    }
  }

  /** A target table is reported alone exactly if no source table matches it. */
  lemma TargetAloneMeansUnmatched(j: Job, t: string)
    requires j.NoneRepeats(|j.named|) && t in j.tgt
    ensures j.TargetAlone(t) <==> forall s :: !j.Matched(s, t)
  {
    if t in j.AliasTargets(|j.named|) {
      var i := TargetHasAlias(j, |j.named|, t);
      var s := j.named[i].value.0;
      assert j.Aliased(s, t);
      forall s' | j.Aliased(s', t)
        ensures s' == s
      {
        AliasesPairOneToOne(j, s, t, s', t);
      }
      assert j.Matched(s, t) <==> s in j.src;
    } else {
      forall s
        ensures !j.Aliased(s, t)
      {
        NotAliased(j, s, t);
      }
      assert j.Matched(t, t) <==> t in j.src && t !in j.AliasSources(|j.named|);
    }
  }

  // ---- tables that differ in case only ----

  predicate DistinctNames(f: Folding, tables: seq<string>) {
    forall i, k :: 0 <= i < k < |tables| ==> f.lower(tables[i]) != f.lower(tables[k])
  }

  /** The actual names of the source tables in a list of pairs. */
  function SourceNames(pairs: seq<Pair>): seq<string> {
    if pairs == [] then []
    else
      var p := pairs[|pairs| - 1];
      SourceNames(pairs[..|pairs| - 1]) + if p.status == TargetOnly then [] else [p.source]
  }

  function TargetNames(pairs: seq<Pair>): seq<string> {
    if pairs == [] then []
    else
      var p := pairs[|pairs| - 1];
      TargetNames(pairs[..|pairs| - 1]) + if p.status == SourceOnly then [] else [p.target]
  }

  /** `x` is the table that its lower-case name stands for. */
  predicate StandsAt(j: Job, names: map<string, string>, x: string) {
    j.f.lower(x) in names && names[j.f.lower(x)] == x
  }

  /** The tables that the pairs name are the tables of the job. */
  predicate NamesStand(j: Job, pairs: seq<Pair>) {
    pairs != [] ==>
      var p := pairs[|pairs| - 1];
      && NamesStand(j, pairs[..|pairs| - 1])
      && (p.status != TargetOnly ==> StandsAt(j, j.src, p.source))
      && (p.status != SourceOnly ==> StandsAt(j, j.tgt, p.target))
  }

  lemma {:induction false} ExplainedStand(j: Job, pairs: seq<Pair>)
    requires j.AllExplained(pairs)
    ensures NamesStand(j, pairs)
  {
    if pairs != [] {
      ExplainedStand(j, pairs[..|pairs| - 1]);
      assert j.Explained(pairs[|pairs| - 1]);
    }
  }

  lemma {:induction false} SourcesByKey(j: Job, pairs: seq<Pair>, x: string)
    requires NamesStand(j, pairs)
    ensures multiset(SourceNames(pairs))[x] ==
      if StandsAt(j, j.src, x) then multiset(Sources(j.f, pairs))[j.f.lower(x)] else 0
  {
    if pairs != [] {
      SourcesByKey(j, pairs[..|pairs| - 1], x);
    }
  }

  lemma {:induction false} TargetsByKey(j: Job, pairs: seq<Pair>, x: string)
    requires NamesStand(j, pairs)
    ensures multiset(TargetNames(pairs))[x] ==
      if StandsAt(j, j.tgt, x) then multiset(Targets(j.f, pairs))[j.f.lower(x)] else 0
  {
    if pairs != [] {
      TargetsByKey(j, pairs[..|pairs| - 1], x);
    }
  }

  lemma {:induction false} StandsFor(j: Job, tables: seq<string>, x: string)
    requires DistinctNames(j.f, tables)
    ensures multiset(tables)[x] == if StandsAt(j, NameMap(j.f, tables), x) then 1 else 0
  {
    if tables != [] {
      var init, last := tables[..|tables| - 1], tables[|tables| - 1];
      StandsFor(j, init, x);
      assert tables == init + [last];
      NotYet(j.f, init, last);
    }
  }

  lemma {:induction false} NotYet(f: Folding, tables: seq<string>, x: string)
    requires forall i :: 0 <= i < |tables| ==> f.lower(tables[i]) != f.lower(x)
    ensures f.lower(x) !in NameMap(f, tables)
  {
    if tables != [] {
      NotYet(f, tables[..|tables| - 1], x);
    }
  }

  /**
   Every source table is in exactly one pair as source if and only if no two of them differ in case only, and likewise
   for the target tables: of those that do, all but the last are in no pair.
   */
  lemma EachTableOnce(j: Job, srcTables: seq<string>, tgtTables: seq<string>, pairs: seq<Pair>)
    requires j.src == NameMap(j.f, srcTables) && j.tgt == NameMap(j.f, tgtTables)
    requires Covers(j, pairs, j.src.Keys, j.tgt.Keys)
    ensures multiset(SourceNames(pairs)) == multiset(srcTables) <==> DistinctNames(j.f, srcTables)
    ensures multiset(TargetNames(pairs)) == multiset(tgtTables) <==> DistinctNames(j.f, tgtTables)
    ensures |j.src| == |srcTables| <==> DistinctNames(j.f, srcTables)
    ensures |j.tgt| == |tgtTables| <==> DistinctNames(j.f, tgtTables)
  {
    ExplainedStand(j, pairs);
    NamesPerPair(j.f, pairs);
    NameMapSize(j.f, srcTables);
    NameMapSize(j.f, tgtTables);
    SizeOf(Sources(j.f, pairs), j.src.Keys);
    SizeOf(Targets(j.f, pairs), j.tgt.Keys);
    if DistinctNames(j.f, srcTables) {
      SourcesOnce(j, srcTables, pairs);
    } else {
      DifferentSize(SourceNames(pairs), srcTables);
    }
    if DistinctNames(j.f, tgtTables) {
      TargetsOnce(j, tgtTables, pairs);
    } else {
      DifferentSize(TargetNames(pairs), tgtTables);
    }
  }

  lemma {:induction false} NamesPerPair(f: Folding, pairs: seq<Pair>)
    ensures |SourceNames(pairs)| == |Sources(f, pairs)| && |TargetNames(pairs)| == |Targets(f, pairs)|
  {
    if pairs != [] {
      NamesPerPair(f, pairs[..|pairs| - 1]);
    }
  }

  lemma DifferentSize(a: seq<string>, b: seq<string>)
    requires |a| != |b|
    ensures multiset(a) != multiset(b)
  {
    assert |multiset(a)| == |a| && |multiset(b)| == |b|;
  }

  /** A table is paired under its own name exactly if the last table with its name, up to case, is this one. */
  lemma OnlyTheLastIsPaired(j: Job, tables: seq<string>, pairs: seq<Pair>, i: nat, last: nat)
    requires j.src == NameMap(j.f, tables) && Covers(j, pairs, j.src.Keys, j.tgt.Keys)
    requires i <= last < |tables| && j.f.lower(tables[i]) == j.f.lower(tables[last])
    requires forall k :: last < k < |tables| ==> j.f.lower(tables[k]) != j.f.lower(tables[last])
    ensures multiset(SourceNames(pairs))[tables[i]] == if tables[i] == tables[last] then 1 else 0
  {
    ExplainedStand(j, pairs);
    SourcesByKey(j, pairs, tables[i]);
    LastStands(j.f, tables, last);
  }

  lemma {:induction false} LastStands(f: Folding, tables: seq<string>, last: nat)
    requires last < |tables|
    requires forall k :: last < k < |tables| ==> f.lower(tables[k]) != f.lower(tables[last])
    ensures var k := f.lower(tables[last]); k in NameMap(f, tables) && NameMap(f, tables)[k] == tables[last]
  {
    if last < |tables| - 1 {
      LastStands(f, tables[..|tables| - 1], last);
    }
  }

  lemma SourcesOnce(j: Job, tables: seq<string>, pairs: seq<Pair>)
    requires DistinctNames(j.f, tables) && j.src == NameMap(j.f, tables)
    requires NamesStand(j, pairs) && multiset(Sources(j.f, pairs)) == multiset(j.src.Keys)
    ensures multiset(SourceNames(pairs)) == multiset(tables)
  {
    forall x
      ensures multiset(SourceNames(pairs))[x] == multiset(tables)[x]
    {
      SourcesByKey(j, pairs, x);
      StandsFor(j, tables, x);
    }
  }

  lemma TargetsOnce(j: Job, tables: seq<string>, pairs: seq<Pair>)
    requires DistinctNames(j.f, tables) && j.tgt == NameMap(j.f, tables)
    requires NamesStand(j, pairs) && multiset(Targets(j.f, pairs)) == multiset(j.tgt.Keys)
    ensures multiset(TargetNames(pairs)) == multiset(tables)
  {
    forall x
      ensures multiset(TargetNames(pairs))[x] == multiset(tables)[x]
    {
      TargetsByKey(j, pairs, x);
      StandsFor(j, tables, x);
    }
  }

  /** The map has as many names as the list has tables exactly if they are distinct up to case. */
  lemma {:induction false} NameMapSize(f: Folding, tables: seq<string>)
    ensures if DistinctNames(f, tables) then |NameMap(f, tables)| == |tables| else |NameMap(f, tables)| < |tables|
  {
    if tables != [] {
      var init, last := tables[..|tables| - 1], tables[|tables| - 1];
      NameMapSize(f, init);
      if i :| 0 <= i < |init| && f.lower(init[i]) == f.lower(last) {
        NameIsIn(f, init, i);
        assert tables[i] == init[i];
      } else {
        NotYet(f, init, last);
      }
    }
  }

  lemma {:induction false} NameIsIn(f: Folding, tables: seq<string>, i: nat)
    requires i < |tables|
    ensures f.lower(tables[i]) in NameMap(f, tables)
  {
    if i < |tables| - 1 {
      NameIsIn(f, tables[..|tables| - 1], i);
    }
  }
}
