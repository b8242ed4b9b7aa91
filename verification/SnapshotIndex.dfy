/**
 The one-time migration of a legacy snapshot index into the database (internal/service/snapshot.go):
 any number of instances attempt it, any access may fail, and snapshots are created and deleted meanwhile.
 */
module SnapshotIndex {
  import opened GoStrings

  datatype Info = Info(id: string, data: string)

  type Index = map<string, Info>

  // ---- one attempt, run without interruption ----

  /** The index after the first `n` legacy entries have been written. */
  function Imported(index: Index, legacy: seq<Info>, n: nat): Index
    requires n <= |legacy|
  {
    if n == 0 then index else Imported(index, legacy, n - 1)[legacy[n - 1].id := legacy[n - 1]]
  }

  /** Which accesses of an attempt fail; `upserts` is the number of rows that can be written. */
  datatype Faults = Faults(readMarker: bool, readLegacy: bool, upserts: nat, writeMarker: bool)

  /** What an instance and the database know. */
  datatype Knowledge = Knowledge(index: Index, marker: bool, migrated: bool)

  /** What an attempt makes of it: all rows up to the first failing write, and the marker only behind the last. */
  function Migration(legacy: seq<Info>, f: Faults, k: Knowledge): Knowledge {
    if k.migrated || f.readMarker then k
    else if k.marker then k.(migrated := true)
    else if f.readLegacy then k
    else
      var n := if f.upserts < |legacy| then f.upserts else |legacy|;
      var done := n == |legacy| && !f.writeMarker;
      Knowledge(Imported(k.index, legacy, n), done, done)
  }

  class Database {
    var index: Index
    var marker: bool
  }

  class Instance {
    const db: Database
    var migrated: bool

    constructor (db: Database)
      ensures this.db == db && !migrated
    {
      this.db := db;
      migrated := false;
    }

    method EnsureMigrated(legacy: seq<Info>, f: Faults)
      modifies this, db
      ensures Knowledge(db.index, db.marker, migrated) ==
        Migration(legacy, f, Knowledge(old(db.index), old(db.marker), old(migrated)))
    {
      if migrated {
        return;
      }
      if f.readMarker {
        return;
      }
      if db.marker {
        migrated := true;
        return;
      }
      if f.readLegacy {
        return;
      }
      var imported := 0;
      for n := 0 to |legacy|
        invariant imported == n <= f.upserts
        invariant db.index == Imported(old(db.index), legacy, n) && !db.marker && !migrated
      {
        if n == f.upserts {
          return;
        }
        db.index := db.index[legacy[n].id := legacy[n]];
        imported := imported + 1;
      }
      if f.writeMarker {
        return;
      }
      db.marker := true;
      migrated := true;
    }
  }

  // ---- interleavings ----

  /** Where an instance's attempt stands. */
  datatype Pc = Idle | Checking | Loading | Importing(k: nat)

  type InstanceId = nat

  datatype State = State(
    index: Index,
    marker: bool,
    pcs: map<InstanceId, Pc>,      // instances not listed are idle
    flags: set<InstanceId>,        // instances that know of the migration
    created: map<string, Info>,    // everything created so far
    deleted: set<string>)          // every id deleted so far

  function PcIn(pcs: map<InstanceId, Pc>, i: InstanceId): Pc {
    if i in pcs then pcs[i] else Idle
  }

  function PcOf(s: State, i: InstanceId): Pc {
    PcIn(s.pcs, i)
  }

  /** An access that reports an error may or may not have taken effect. */
  datatype Access = Ok | Lost | Unreported

  datatype Step =
    | Begin(i: InstanceId)
    | Check(i: InstanceId, ok: bool)
    | Load(i: InstanceId, ok: bool)
    | Upsert(i: InstanceId, a: Access)
    | SetMarker(i: InstanceId, a: Access)
    | Create(info: Info, a: Access)
    | Delete(id: string)

  predicate LegacyId(legacy: seq<Info>, id: string) {
    exists j :: 0 <= j < |legacy| && legacy[j].id == id
  }

  predicate Enabled(legacy: seq<Info>, s: State, step: Step) {
    match step
    case Begin(i) => PcOf(s, i).Idle? && i !in s.flags
    case Check(i, _) => PcOf(s, i).Checking?
    case Load(i, _) => PcOf(s, i).Loading?
    case Upsert(i, _) => PcOf(s, i).Importing? && PcOf(s, i).k < |legacy|
    case SetMarker(i, _) => PcOf(s, i).Importing? && PcOf(s, i).k >= |legacy|
    // new snapshots get new ids
    case Create(info, _) => !LegacyId(legacy, info.id) && info.id !in s.created && info.id !in s.deleted
    case Delete(_) => true
  }

  function Goto(s: State, i: InstanceId, pc: Pc): State {
    s.(pcs := s.pcs[i := pc])
  }

  function Take(legacy: seq<Info>, s: State, step: Step): State
    requires Enabled(legacy, s, step)
  {
    match step
    case Begin(i) => Goto(s, i, Checking)
    case Check(i, ok) =>
      if !ok then Goto(s, i, Idle)
      else if s.marker then Goto(s.(flags := s.flags + {i}), i, Idle)
      else Goto(s, i, Loading)
    case Load(i, ok) => Goto(s, i, if ok then Importing(0) else Idle)
    case Upsert(i, a) =>
      var info := legacy[PcOf(s, i).k];
      var t := if a.Lost? then s else s.(index := s.index[info.id := info]);
      Goto(t, i, if a.Ok? then Importing(PcOf(s, i).k + 1) else Idle)
    case SetMarker(i, a) =>
      var t := if a.Lost? then s else s.(marker := true);
      Goto(if a.Ok? then t.(flags := t.flags + {i}) else t, i, Idle)
    case Create(info, a) =>
      if a.Lost? then s
      else s.(index := s.index[info.id := info], created := s.created[info.id := info])
    case Delete(id) => s.(index := s.index - {id}, deleted := s.deleted + {id})
  }

  function Run(legacy: seq<Info>, s: State, steps: seq<Step>): State {
    if steps == [] then s
    else
      var t := Run(legacy, s, steps[..|steps| - 1]);
      var step := steps[|steps| - 1];
      if Enabled(legacy, t, step) then Take(legacy, t, step) else t
  }

  const INIT := State(map[], false, map[], {}, map[], {})

  // ---- what every run keeps ----

  /** The ids in the index or deleted on purpose. */
  function Known(s: State): set<string> {
    s.index.Keys + s.deleted
  }

  /** The first `k` legacy entries are accounted for. */
  ghost predicate AllIn(legacy: seq<Info>, known: set<string>, k: nat) {
    k <= |legacy| && forall j :: 0 <= j < k ==> legacy[j].id in known
  }

  /** What the index says of an id is what was created, or a legacy entry of that id. */
  ghost predicate Genuine(legacy: seq<Info>, created: map<string, Info>, info: Info, id: string) {
    if LegacyId(legacy, id) then info in legacy && info.id == id
    else id in created && info == created[id]
  }

  ghost predicate ImportsOk(legacy: seq<Info>, known: set<string>, pcs: map<InstanceId, Pc>) {
    forall i :: PcIn(pcs, i).Importing? ==> AllIn(legacy, known, PcIn(pcs, i).k)
  }

  ghost predicate Inv(legacy: seq<Info>, s: State) {
    && (s.marker ==> AllIn(legacy, Known(s), |legacy|))
    && ImportsOk(legacy, Known(s), s.pcs)
    && (forall id :: id in s.index ==> Genuine(legacy, s.created, s.index[id], id))
    && (forall id :: id in s.created ==> id in Known(s) && !LegacyId(legacy, id))
    && (s.flags != {} ==> s.marker)
  }

  lemma MoreKnown(legacy: seq<Info>, s: State, known: set<string>)
    requires Inv(legacy, s) && Known(s) <= known
    ensures ImportsOk(legacy, known, s.pcs)
    ensures s.marker ==> AllIn(legacy, known, |legacy|)
  {
    forall i | PcIn(s.pcs, i).Importing?
      ensures AllIn(legacy, known, PcIn(s.pcs, i).k)
    {
      assert AllIn(legacy, Known(s), PcIn(s.pcs, i).k);
    }
  }

  lemma ImportsGoto(legacy: seq<Info>, known: set<string>, pcs: map<InstanceId, Pc>, i: InstanceId, pc: Pc)
    requires ImportsOk(legacy, known, pcs) && (pc.Importing? ==> AllIn(legacy, known, pc.k))
    ensures ImportsOk(legacy, known, pcs[i := pc])
  {
    var t := pcs[i := pc];
    forall j | PcIn(t, j).Importing?
      ensures AllIn(legacy, known, PcIn(t, j).k)
    {
      assert j != i ==> PcIn(t, j) == PcIn(pcs, j);
    }
  }

  lemma StepKeeps(legacy: seq<Info>, s: State, step: Step)
    requires Inv(legacy, s) && Enabled(legacy, s, step)
    ensures Inv(legacy, Take(legacy, s, step))
  {
    var t := Take(legacy, s, step);
    match step
    case Begin(i) => ImportsGoto(legacy, Known(s), s.pcs, i, Checking);
    case Check(i, ok) =>
      ImportsGoto(legacy, Known(s), s.pcs, i, Idle);
      ImportsGoto(legacy, Known(s), s.pcs, i, Loading);
    case Load(i, ok) => ImportsGoto(legacy, Known(s), s.pcs, i, if ok then Importing(0) else Idle);
    case Upsert(i, a) => UpsertKeeps(legacy, s, i, a);
    case SetMarker(i, a) =>
      assert AllIn(legacy, Known(s), PcIn(s.pcs, i).k);
      ImportsGoto(legacy, Known(s), s.pcs, i, Idle);
    case Create(info, a) => MoreKnown(legacy, s, Known(t));
    case Delete(id) => MoreKnown(legacy, s, Known(t));
  }

  lemma UpsertKeeps(legacy: seq<Info>, s: State, i: InstanceId, a: Access)
    requires Inv(legacy, s) && Enabled(legacy, s, Upsert(i, a))
    ensures Inv(legacy, Take(legacy, s, Upsert(i, a)))
  {
    var t, k := Take(legacy, s, Upsert(i, a)), PcOf(s, i).k;
    MoreKnown(legacy, s, Known(t));
    assert AllIn(legacy, Known(t), k);
    ImportsGoto(legacy, Known(t), s.pcs, i, if a.Ok? then Importing(k + 1) else Idle);
    assert legacy[k] in legacy && LegacyId(legacy, legacy[k].id);
  }

  /**
   In every run a set marker means that every legacy entry is in the index or was deleted; what the index
   holds is genuine; and no creation is ever lost or overwritten.
   */
  lemma {:induction false} EveryRun(legacy: seq<Info>, steps: seq<Step>)
    ensures Inv(legacy, Run(legacy, INIT, steps))
  {
    if steps != [] {
      var t, step := Run(legacy, INIT, steps[..|steps| - 1]), steps[|steps| - 1];
      EveryRun(legacy, steps[..|steps| - 1]);
      if Enabled(legacy, t, step) {
        StepKeeps(legacy, t, step);
      }
    }
  }

  /** A step of a migration attempt removes no entry and changes none whose id is not in legacy. */
  lemma AttemptsTouchLegacyOnly(legacy: seq<Info>, s: State, step: Step, id: string)
    requires Enabled(legacy, s, step) && !step.Create? && !step.Delete? && id in s.index
    ensures var t := Take(legacy, s, step);
      id in t.index && (!LegacyId(legacy, id) ==> t.index[id] == s.index[id])
  {
  }

  /** Without deletions, a set marker means the index is legacy and created entries, exactly. */
  lemma MigratedIsComplete(legacy: seq<Info>, steps: seq<Step>, id: string)
    requires var s := Run(legacy, INIT, steps); s.marker && s.deleted == {}
    ensures var s := Run(legacy, INIT, steps); id in s.index <==> LegacyId(legacy, id) || id in s.created
  {
    EveryRun(legacy, steps);
    var s := Run(legacy, INIT, steps);
    assert AllIn(legacy, Known(s), |legacy|);
    assert id in s.index ==> Genuine(legacy, s.created, s.index[id], id);
    assert id in s.created ==> id in Known(s);
  }

  // ---- retries ----

  /** The successful rest of an attempt that stands at entry `k`. */
  function ImportFrom(legacy: seq<Info>, i: InstanceId, k: nat): seq<Step>
    requires k <= |legacy|
    decreases |legacy| - k
  {
    if k == |legacy| then [SetMarker(i, Ok)] else [Upsert(i, Ok)] + ImportFrom(legacy, i, k + 1)
  }

  lemma {:induction false} RunConcat(legacy: seq<Info>, s: State, a: seq<Step>, b: seq<Step>)
    ensures Run(legacy, s, a + b) == Run(legacy, Run(legacy, s, a), b)
  {
    if b == [] {
      assert a + b == a;
    } else {
      assert (a + b)[..|a + b| - 1] == a + b[..|b| - 1];
      RunConcat(legacy, s, a, b[..|b| - 1]);
    }
  }

  lemma RunOne(legacy: seq<Info>, s: State, step: Step)
    requires Enabled(legacy, s, step)
    ensures Run(legacy, s, [step]) == Take(legacy, s, step)
  {
    assert [step][..0] == [];
  }

  /** A step in front of a run. */
  lemma RunCons(legacy: seq<Info>, s: State, step: Step, rest: seq<Step>)
    requires Enabled(legacy, s, step)
    ensures Run(legacy, s, [step] + rest) == Run(legacy, Take(legacy, s, step), rest)
  {
    RunConcat(legacy, s, [step], rest);
    RunOne(legacy, s, step);
  }

  /** An attempt that meets no fault from entry `k` on writes the remaining entries and sets the marker. */
  lemma {:induction false} ImportCompletes(legacy: seq<Info>, s: State, i: InstanceId, k: nat)
    requires k <= |legacy| && PcOf(s, i) == Importing(k)
    ensures var t := Run(legacy, s, ImportFrom(legacy, i, k));
      && t.marker && i in t.flags
      && t.created == s.created && t.deleted == s.deleted
      && (forall id :: id in s.index ==> id in t.index)
      && (forall j :: k <= j < |legacy| ==> legacy[j].id in t.index)
    decreases |legacy| - k
  {
    if k == |legacy| {
      RunOne(legacy, s, SetMarker(i, Ok));
    } else {
      var t := Take(legacy, s, Upsert(i, Ok));
      RunCons(legacy, s, Upsert(i, Ok), ImportFrom(legacy, i, k + 1));
      ImportCompletes(legacy, t, i, k + 1);
    }
  }

  /** A whole attempt without faults. */
  function Attempt(legacy: seq<Info>, i: InstanceId): seq<Step> {
    [Begin(i)] + ([Check(i, true)] + ([Load(i, true)] + ImportFrom(legacy, i, 0)))
  }

  /** Whatever failed before, an idle instance that meets no fault completes the migration. */
  lemma RetryCompletes(legacy: seq<Info>, s: State, i: InstanceId)
    requires PcOf(s, i).Idle? && i !in s.flags && !s.marker
    ensures var t := Run(legacy, s, Attempt(legacy, i));
      && t.marker && t.created == s.created && t.deleted == s.deleted
      && (forall id :: id in s.index ==> id in t.index)
      && (forall j :: 0 <= j < |legacy| ==> legacy[j].id in t.index)
  {
    var s1 := Take(legacy, s, Begin(i));
    var s2 := Take(legacy, s1, Check(i, true));
    var s3 := Take(legacy, s2, Load(i, true));
    RunCons(legacy, s, Begin(i), [Check(i, true)] + ([Load(i, true)] + ImportFrom(legacy, i, 0)));
    RunCons(legacy, s1, Check(i, true), [Load(i, true)] + ImportFrom(legacy, i, 0));
    RunCons(legacy, s2, Load(i, true), ImportFrom(legacy, i, 0));
    ImportCompletes(legacy, s3, i, 0);
  }

  /** The accesses of an attempt with these faults, from entry `k` on; a failing write is lost. */
  function FaultyImport(legacy: seq<Info>, i: InstanceId, f: Faults, k: nat): seq<Step>
    requires k <= |legacy|
    decreases |legacy| - k
  {
    if k == |legacy| then [SetMarker(i, if f.writeMarker then Lost else Ok)]
    else if k >= f.upserts then [Upsert(i, Lost)]
    else [Upsert(i, Ok)] + FaultyImport(legacy, i, f, k + 1)
  }

  function FaultyAttempt(legacy: seq<Info>, i: InstanceId, f: Faults, marker: bool): seq<Step> {
    [Begin(i), Check(i, !f.readMarker)]
    + (if f.readMarker || marker then [] else [Load(i, !f.readLegacy)])
    + (if f.readMarker || marker || f.readLegacy then [] else FaultyImport(legacy, i, f, 0))
  }

  lemma {:induction false} FaultyImportRuns(legacy: seq<Info>, s: State, i: InstanceId, f: Faults, k: nat, index: Index)
    requires k <= |legacy| && k <= f.upserts && PcOf(s, i) == Importing(k)
    requires s.index == Imported(index, legacy, k) && !s.marker && i !in s.flags
    ensures var t := Run(legacy, s, FaultyImport(legacy, i, f, k));
      Knowledge(t.index, t.marker, i in t.flags) ==
        Migration(legacy, f.(readMarker := false, readLegacy := false), Knowledge(index, false, false))
    decreases |legacy| - k
  {
    if k == |legacy| {
      RunOne(legacy, s, SetMarker(i, if f.writeMarker then Lost else Ok));
    } else if k >= f.upserts {
      RunOne(legacy, s, Upsert(i, Lost));
    } else {
      RunCons(legacy, s, Upsert(i, Ok), FaultyImport(legacy, i, f, k + 1));
      FaultyImportRuns(legacy, Take(legacy, s, Upsert(i, Ok)), i, f, k + 1, index);
    }
  }

  /** Run on its own, the sequence of accesses of an attempt is what the program does in one go. */
  lemma AttemptIsMigration(legacy: seq<Info>, s: State, i: InstanceId, f: Faults)
    requires PcOf(s, i).Idle? && i !in s.flags
    ensures var t := Run(legacy, s, FaultyAttempt(legacy, i, f, s.marker));
      Knowledge(t.index, t.marker, i in t.flags) == Migration(legacy, f, Knowledge(s.index, s.marker, false))
  {
    var s1 := Take(legacy, s, Begin(i));
    var s2 := Take(legacy, s1, Check(i, !f.readMarker));
    var tail := FaultyAttempt(legacy, i, f, s.marker)[2..];
    assert FaultyAttempt(legacy, i, f, s.marker) == [Begin(i)] + ([Check(i, !f.readMarker)] + tail);
    RunCons(legacy, s, Begin(i), [Check(i, !f.readMarker)] + tail);
    RunCons(legacy, s1, Check(i, !f.readMarker), tail);
    if f.readMarker || s.marker {
      assert tail == [];
    } else {
      var rest := if f.readLegacy then [] else FaultyImport(legacy, i, f, 0);
      assert tail == [Load(i, !f.readLegacy)] + rest;
      RunCons(legacy, s2, Load(i, !f.readLegacy), rest);
      if !f.readLegacy {
        FaultyImportRuns(legacy, Take(legacy, s2, Load(i, true)), i, f, 0, s.index);
      }
    }
  }

  // ---- deletions ----

  /** The instance has not, and will not have in this attempt, the id before it. */
  predicate PastId(legacy: seq<Info>, pc: Pc, id: string) {
    !pc.Loading? && (pc.Importing? ==> forall j :: pc.k <= j < |legacy| ==> legacy[j].id != id)
  }

  ghost predicate AllPast(legacy: seq<Info>, pcs: map<InstanceId, Pc>, id: string) {
    forall i :: PastId(legacy, PcIn(pcs, i), id)
  }

  /** No attempt can write the id any more: the marker is set, and whoever is importing is past the id. */
  ghost predicate Settled(legacy: seq<Info>, s: State, id: string) {
    s.marker && AllPast(legacy, s.pcs, id)
  }

  lemma PastGoto(legacy: seq<Info>, pcs: map<InstanceId, Pc>, id: string, i: InstanceId, pc: Pc)
    requires AllPast(legacy, pcs, id) && PastId(legacy, pc, id)
    ensures AllPast(legacy, pcs[i := pc], id)
  {
    var t := pcs[i := pc];
    forall j
      ensures PastId(legacy, PcIn(t, j), id)
    {
      assert j != i ==> PcIn(t, j) == PcIn(pcs, j);
    }
  }

  lemma SettledStays(legacy: seq<Info>, s: State, step: Step, id: string)
    requires Settled(legacy, s, id) && id in s.deleted && id !in s.index && Enabled(legacy, s, step)
    ensures var t := Take(legacy, s, step); Settled(legacy, t, id) && id in t.deleted && id !in t.index
  {
    match step
    case Begin(i) => PastGoto(legacy, s.pcs, id, i, Checking);
    case Check(i, _) => PastGoto(legacy, s.pcs, id, i, Idle);
    case Load(i, _) =>
    case Upsert(i, a) =>
      var k := PcOf(s, i).k;
      assert PastId(legacy, PcIn(s.pcs, i), id);
      PastGoto(legacy, s.pcs, id, i, if a.Ok? then Importing(k + 1) else Idle);
    case SetMarker(i, _) => PastGoto(legacy, s.pcs, id, i, Idle);
    case Create(_, _) =>
    case Delete(_) =>
  }

  lemma {:induction false} GoneForGood(legacy: seq<Info>, s: State, steps: seq<Step>, id: string)
    requires Settled(legacy, s, id) && id in s.deleted && id !in s.index
    ensures var t := Run(legacy, s, steps); Settled(legacy, t, id) && id in t.deleted && id !in t.index
  {
    if steps != [] {
      var t, step := Run(legacy, s, steps[..|steps| - 1]), steps[|steps| - 1];
      GoneForGood(legacy, s, steps[..|steps| - 1], id);
      if Enabled(legacy, t, step) {
        SettledStays(legacy, t, step, id);
      }
    }
  }

  /** An instance that has not been seen yet. */
  lemma FreshInstance(s: State) returns (i: InstanceId)
    ensures i !in s.pcs && i !in s.flags
  {
    i := AboveAll(s.pcs.Keys + s.flags);
    assert i !in s.pcs.Keys + s.flags;
  }

  lemma {:induction false} AboveAll(ids: set<nat>) returns (bound: nat)
    ensures forall x :: x in ids ==> x < bound
    decreases |ids|
  {
    if ids == {} {
      bound := 0;
    } else {
      var x :| x in ids;
      var b := AboveAll(ids - {x});
      bound := if b > x then b else x + 1;
      forall y | y in ids
        ensures y < bound
      {
        assert y == x || y in ids - {x};
      }
    }
  }

  /** Where the deletion of a legacy id is not settled, some run brings the entry back. */
  lemma UnsettledComesBack(legacy: seq<Info>, s: State, id: string) returns (steps: seq<Step>)
    requires LegacyId(legacy, id) && !Settled(legacy, s, id) && (s.flags != {} ==> s.marker)
    requires forall i :: PcOf(s, i).Importing? ==> PcOf(s, i).k <= |legacy|
    ensures id in Run(legacy, s, steps).index
  {
    var j :| 0 <= j < |legacy| && legacy[j].id == id;
    if !s.marker {
      var i := FreshInstance(s);
      RetryCompletes(legacy, s, i);
      steps := Attempt(legacy, i);
    } else {
      var i :| !PastId(legacy, PcIn(s.pcs, i), id);
      if PcOf(s, i).Loading? {
        var s1 := Take(legacy, s, Load(i, true));
        RunCons(legacy, s, Load(i, true), ImportFrom(legacy, i, 0));
        ImportCompletes(legacy, s1, i, 0);
        steps := [Load(i, true)] + ImportFrom(legacy, i, 0);
      } else {
        ImportCompletes(legacy, s, i, PcOf(s, i).k);
        steps := ImportFrom(legacy, i, PcOf(s, i).k);
      }
    }
  }

  /**
   A deleted legacy snapshot stays deleted in every continuation exactly when, at its deletion, the marker
   is set and no attempt in flight has the entry still before it.
   */
  lemma DeletionIsFinalExactlyWhen(legacy: seq<Info>, before: seq<Step>, id: string)
    requires LegacyId(legacy, id)
    ensures var s := Run(legacy, INIT, before);
      (forall after :: id !in Run(legacy, Take(legacy, s, Delete(id)), after).index) <==> Settled(legacy, s, id)
  {
    var s := Run(legacy, INIT, before);
    var t := Take(legacy, s, Delete(id));
    if Settled(legacy, s, id) {
      forall after
        ensures id !in Run(legacy, t, after).index
      {
        GoneForGood(legacy, t, after, id);
      }
    } else {
      EveryRun(legacy, before);
      forall i | PcOf(t, i).Importing?
        ensures PcOf(t, i).k <= |legacy|
      {
        assert AllIn(legacy, Known(s), PcIn(s.pcs, i).k);
      }
      var after := UnsettledComesBack(legacy, t, id);
      assert id in Run(legacy, t, after).index;
    }
  }

  /** With the marker set and nobody past the marker check, a deletion, of whatever snapshot, is final. */
  lemma DeletionAfterMigrationIsFinal(legacy: seq<Info>, s: State, id: string, after: seq<Step>)
    requires s.marker && forall i :: PcOf(s, i).Idle? || PcOf(s, i).Checking?
    ensures id !in Run(legacy, Take(legacy, s, Delete(id)), after).index
  {
    forall i
      ensures PastId(legacy, PcIn(s.pcs, i), id)
    {
      assert PcOf(s, i).Idle? || PcOf(s, i).Checking?;
    }
    GoneForGood(legacy, Take(legacy, s, Delete(id)), after, id);
  }

  // ---- creating, and knowing of the migration ----

  /** A creation that reports success, or an error after it took effect, is in the index; a lost one changes nothing. */
  lemma CreationIsThere(legacy: seq<Info>, s: State, info: Info, a: Access)
    requires Enabled(legacy, s, Create(info, a))
    ensures var t := Take(legacy, s, Create(info, a));
      && (a.Lost? ==> t == s)
      && (!a.Lost? ==> info.id in t.index && t.index[info.id] == info)
      && forall id :: id != info.id ==>
        (id in t.index <==> id in s.index) && (id in s.index ==> t.index[id] == s.index[id])
  {
  }

  /** What was created stays as it is until it is deleted, whatever attempts are made meanwhile. */
  lemma {:induction false} CreatedStays(legacy: seq<Info>, s: State, steps: seq<Step>, info: Info)
    requires info.id in s.index && s.index[info.id] == info && info.id in s.created && !LegacyId(legacy, info.id)
    requires forall step :: step in steps ==> step != Delete(info.id)
    ensures var t := Run(legacy, s, steps);
      info.id in t.index && t.index[info.id] == info && info.id in t.created
  {
    if steps != [] {
      var before, step := steps[..|steps| - 1], steps[|steps| - 1];
      assert step in steps && forall x :: x in before ==> x in steps;
      CreatedStays(legacy, s, before, info);
      var t := Run(legacy, s, before);
      if Enabled(legacy, t, step) {
        StaysInStep(legacy, t, step, info);
      }
    }
  }

  lemma StaysInStep(legacy: seq<Info>, s: State, step: Step, info: Info)
    requires Enabled(legacy, s, step) && step != Delete(info.id)
    requires info.id in s.index && s.index[info.id] == info && info.id in s.created && !LegacyId(legacy, info.id)
    ensures var t := Take(legacy, s, step);
      info.id in t.index && t.index[info.id] == info && info.id in t.created
  {
    if step.Upsert? {
      assert LegacyId(legacy, legacy[PcOf(s, step.i).k].id);
    }
  }

  /** An instance that knows of the migration makes no attempt any more. */
  lemma {:induction false} KnowsForGood(legacy: seq<Info>, s: State, steps: seq<Step>, i: InstanceId)
    requires i in s.flags && PcOf(s, i).Idle?
    ensures var t := Run(legacy, s, steps); i in t.flags && PcOf(t, i).Idle?
  {
    if steps != [] {
      KnowsForGood(legacy, s, steps[..|steps| - 1], i);
    }
  }

  /** A write changes only its row or the marker, unless it is lost, and the attempt goes on only if it is reported. */
  lemma WritesOneThing(legacy: seq<Info>, s: State, i: InstanceId, a: Access)
    ensures Enabled(legacy, s, Upsert(i, a)) ==>
      var t, info := Take(legacy, s, Upsert(i, a)), legacy[PcOf(s, i).k];
      && t.index == (if a.Lost? then s.index else s.index[info.id := info]) && t.marker == s.marker
      && (PcOf(t, i) == if a.Ok? then Importing(PcOf(s, i).k + 1) else Idle)
    ensures Enabled(legacy, s, SetMarker(i, a)) ==>
      var t := Take(legacy, s, SetMarker(i, a));
      && t.index == s.index && t.marker == (s.marker || !a.Lost?) && PcOf(t, i).Idle?
      && (i in t.flags <==> i in s.flags || a.Ok?)
  {
  }
}
