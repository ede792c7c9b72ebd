/** The reversible prune of scripts/prune_fulfillment_cases.py: back up, delete, restore. */
module CasePrune {
  import opened Prelude

  /** `updatedAt` is the parsed timestamp, when it parses. */
  datatype Case = Case(updatedAt: Option<int>, data: string)
  datatype Version = Version(caseId: string, data: string)

  /** Rows by primary key, in a table or in a backup file. */
  datatype Rows = Rows(cases: map<string, Case>, versions: map<string, Version>)

  /** The database and the readable files in the backup directory. */
  datatype State = State(tables: Rows, files: map<string, Rows>)

  // ----- the operations on values

  predicate Selected(cases: map<string, Case>, keep: set<string>, cutoff: Option<int>, id: string) {
    && id in cases && id != "" && id !in keep
    && !(cutoff.Some? && cases[id].updatedAt.Some? && cases[id].updatedAt.value >= cutoff.value)
  }

  function SelectedIds(cases: map<string, Case>, keep: set<string>, cutoff: Option<int>): set<string> {
    set id | id in cases && Selected(cases, keep, cutoff, id)
  }

  /** The rows that belong to some cases, and the rows that do not. */
  function Belonging(rows: Rows, ids: set<string>): Rows {
    Rows(map id | id in rows.cases && id in ids :: rows.cases[id],
         map v | v in rows.versions && rows.versions[v].caseId in ids :: rows.versions[v])
  }

  function Without(rows: Rows, ids: set<string>): Rows {
    Rows(map id | id in rows.cases && id !in ids :: rows.cases[id],
         map v | v in rows.versions && rows.versions[v].caseId !in ids :: rows.versions[v])
  }

  /** Rows of the backup whose key is free are inserted; existing rows stay. */
  function Restored(rows: Rows, backup: Rows): Rows {
    Rows(backup.cases + rows.cases, backup.versions + rows.versions)
  }

  /** What can happen: a prune (or its dry run), a restore, and a prune that stops early, with the
      file half written and unreadable, or written but the transaction rolled back. */
  datatype Event =
    | Prune(keep: set<string>, cutoff: Option<int>, name: string, dryRun: bool)
    | Restore(name: string)
    | TornBackup(name: string)
    | RolledBack(keep: set<string>, cutoff: Option<int>, name: string)

  function Step(s: State, e: Event): State {
    match e
    case Prune(keep, cutoff, name, dryRun) =>
      var ids := SelectedIds(s.tables.cases, keep, cutoff);
      if ids == {} || dryRun then s
      else State(Without(s.tables, ids), s.files[name := Belonging(s.tables, ids)])
    case Restore(name) =>
      if name in s.files then s.(tables := Restored(s.tables, s.files[name])) else s
    case TornBackup(name) => s.(files := s.files - {name})
    case RolledBack(keep, cutoff, name) =>
      s.(files := s.files[name := Belonging(s.tables, SelectedIds(s.tables.cases, keep, cutoff))])
  }

  function Run(s: State, events: seq<Event>): State
    decreases |events|
  {
    if events == [] then s else Step(Run(s, events[..|events| - 1]), events[|events| - 1])
  }

  /** Backup names have a resolution of one second: no event writes a name that is in use. */
  predicate Fresh(s: State, e: Event) { e.Restore? || e.name !in s.files }

  ghost predicate FreshNames(s: State, events: seq<Event>) {
    forall k :: 0 <= k < |events| ==> Fresh(Run(s, events[..k]), events[k])
  }

  // ----- nothing is lost

  ghost predicate Within(rows: Rows, all: Rows) {
    && (forall id :: id in rows.cases ==> id in all.cases && rows.cases[id] == all.cases[id])
    && (forall v :: v in rows.versions ==> v in all.versions && rows.versions[v] == all.versions[v])
  }

  ghost predicate HasCase(s: State, id: string) {
    id in s.tables.cases || exists name :: name in s.files && id in s.files[name].cases
  }

  ghost predicate HasVersion(s: State, v: string) {
    v in s.tables.versions || exists name :: name in s.files && v in s.files[name].versions
  }

  /** Every original row is, unchanged, in the tables or in a backup, and there are no other rows. */
  ghost predicate Safe(original: Rows, s: State) {
    && Within(s.tables, original)
    && (forall name :: name in s.files ==> Within(s.files[name], original))
    && (forall id :: id in original.cases ==> HasCase(s, id))
    && (forall v :: v in original.versions ==> HasVersion(s, v))
  }

  /** No version stands without its case, in the tables or in a backup. */
  ghost predicate NoOrphans(rows: Rows) { forall v :: v in rows.versions ==> rows.versions[v].caseId in rows.cases }

  /** What the file that is about to be overwritten holds can still be found elsewhere. */
  ghost predicate Redundant(s: State, name: string) {
    name in s.files ==>
      && (forall id :: id in s.files[name].cases ==> HasCase(s.(files := s.files - {name}), id))
      && (forall v :: v in s.files[name].versions ==> HasVersion(s.(files := s.files - {name}), v))
  }

  lemma LosingAFile(original: Rows, s: State, name: string)
    requires Safe(original, s)
    ensures Safe(original, s.(files := s.files - {name})) <==> Redundant(s, name)
  {
    var t := s.(files := s.files - {name});
    forall id | HasCase(s, id) && (name in s.files ==> id !in s.files[name].cases) ensures HasCase(t, id) {
      if id !in s.tables.cases {
        var n :| n in s.files && id in s.files[n].cases;
        assert n in t.files;
      }
    }
    forall v | HasVersion(s, v) && (name in s.files ==> v !in s.files[name].versions) ensures HasVersion(t, v) {
      if v !in s.tables.versions {
        var n :| n in s.files && v in s.files[n].versions;
        assert n in t.files;
      }
    }
    if name in s.files { assert Within(s.files[name], original); }
  }

  /** Rows found in one state are found in another that has the tables' rows somewhere and all the files. */
  lemma NothingDisappears(s: State, t: State)
    requires forall n :: n in s.files ==> n in t.files && t.files[n] == s.files[n]
    requires forall id :: id in s.tables.cases ==> HasCase(t, id)
    requires forall v :: v in s.tables.versions ==> HasVersion(t, v)
    ensures forall id :: HasCase(s, id) ==> HasCase(t, id)
    ensures forall v :: HasVersion(s, v) ==> HasVersion(t, v)
  {
    forall id | HasCase(s, id) ensures HasCase(t, id) {
      if id !in s.tables.cases {
        var n :| n in s.files && id in s.files[n].cases;
        assert n in t.files && id in t.files[n].cases;
      }
    }
    forall v | HasVersion(s, v) ensures HasVersion(t, v) {
      if v !in s.tables.versions {
        var n :| n in s.files && v in s.files[n].versions;
        assert n in t.files && v in t.files[n].versions;
      }
    }
  }

  /** The rows that a state may hold do not differ from the original ones. */
  ghost predicate AllWithin(original: Rows, s: State) {
    Within(s.tables, original) && forall name :: name in s.files ==> Within(s.files[name], original)
  }

  lemma MoveStaysWithin(original: Rows, s: State, ids: set<string>, name: string)
    requires AllWithin(original, s)
    ensures AllWithin(original, State(Without(s.tables, ids), s.files[name := Belonging(s.tables, ids)]))
  {
  }

  /** A backup of some rows followed by their deletion moves them. */
  lemma MoveIsSafe(original: Rows, s: State, ids: set<string>, name: string)
    requires Safe(original, s) && name !in s.files
    ensures Safe(original, State(Without(s.tables, ids), s.files[name := Belonging(s.tables, ids)]))
  {
    hide Within;
    var t := State(Without(s.tables, ids), s.files[name := Belonging(s.tables, ids)]);
    MoveStaysWithin(original, s, ids, name);
    MovedRowsAreFound(s, ids, name);
    NothingDisappears(s, t);
  }

  lemma MovedRowsAreFound(s: State, ids: set<string>, name: string)
    ensures var t := State(Without(s.tables, ids), s.files[name := Belonging(s.tables, ids)]);
      && (forall id :: id in s.tables.cases ==> HasCase(t, id))
      && (forall v :: v in s.tables.versions ==> HasVersion(t, v))
  {
    var t := State(Without(s.tables, ids), s.files[name := Belonging(s.tables, ids)]);
    forall id | id in s.tables.cases ensures HasCase(t, id) {
      assert id in t.tables.cases || id in t.files[name].cases;
    }
    forall v | v in s.tables.versions ensures HasVersion(t, v) {
      assert v in t.tables.versions || v in t.files[name].versions;
    }
  }

  /** Writing one more file is harmless. */
  lemma CopyIsSafe(original: Rows, s: State, ids: set<string>, name: string)
    requires Safe(original, s) && name !in s.files
    ensures Safe(original, s.(files := s.files[name := Belonging(s.tables, ids)]))
  {
    NothingDisappears(s, s.(files := s.files[name := Belonging(s.tables, ids)]));
  }

  lemma RestoreIsSafe(original: Rows, s: State, name: string)
    requires Safe(original, s) && name in s.files
    ensures Safe(original, s.(tables := Restored(s.tables, s.files[name])))
  {
    NothingDisappears(s, s.(tables := Restored(s.tables, s.files[name])));
  }

  /** Every event with a fresh name keeps every original row. */
  lemma StepIsSafe(original: Rows, s: State, e: Event)
    requires Safe(original, s) && Fresh(s, e)
    ensures Safe(original, Step(s, e))
  {
    match e
    case Prune(keep, cutoff, name, _) => MoveIsSafe(original, s, SelectedIds(s.tables.cases, keep, cutoff), name);
    case Restore(name) => if name in s.files { RestoreIsSafe(original, s, name); }
    case TornBackup(name) => assert s.files - {name} == s.files;
    case RolledBack(keep, cutoff, name) => CopyIsSafe(original, s, SelectedIds(s.tables.cases, keep, cutoff), name);
  }

  lemma {:induction false} RunIsSafe(original: Rows, events: seq<Event>)
    requires FreshNames(State(original, map[]), events)
    ensures Safe(original, Run(State(original, map[]), events))
    decreases |events|
  {
    if events != [] {
      var init, s := events[..|events| - 1], State(original, map[]);
      assert forall k :: 0 <= k < |init| ==> init[..k] == events[..k] && init[k] == events[k];
      RunIsSafe(original, init);
      StepIsSafe(original, Run(s, init), events[|events| - 1]);
    }
  }

  /** A prune under any name is safe exactly when the file it overwrites, if there is one, holds
      nothing that cannot be found elsewhere. */
  lemma PruneIsSafeExactlyWhen(original: Rows, s: State, ids: set<string>, name: string)
    requires Safe(original, s)
    ensures Safe(original, State(Without(s.tables, ids), s.files[name := Belonging(s.tables, ids)])) <==> Redundant(s, name)
  {
    var lost := s.(files := s.files - {name});
    var t := State(Without(s.tables, ids), s.files[name := Belonging(s.tables, ids)]);
    assert s.files[name := Belonging(s.tables, ids)] == lost.files[name := Belonging(s.tables, ids)];
    LosingAFile(original, s, name);
    if Redundant(s, name) {
      MoveIsSafe(original, lost, ids, name);
    }
    if Safe(original, t) {
      forall id | id in original.cases ensures HasCase(lost, id) {
        assert HasCase(t, id);
        if id !in t.tables.cases {
          var n :| n in t.files && id in t.files[n].cases;
          assert n == name || n in lost.files;
        }
      }
      forall v | v in original.versions ensures HasVersion(lost, v) {
        assert HasVersion(t, v);
        if v !in t.tables.versions {
          var n :| n in t.files && v in t.files[n].versions;
          assert n == name || n in lost.files;
        }
      }
    }
  }

  const FIRST_CASE := Case(None, "first")
  const SECOND_CASE := Case(None, "second")

  const BEFORE_BOTH := State(Rows(map["a" := FIRST_CASE, "b" := SECOND_CASE], map[]), map[])
  const BETWEEN_BOTH := State(Rows(map["b" := SECOND_CASE], map[]), map["t" := Rows(map["a" := FIRST_CASE], map[])])
  const AFTER_BOTH := State(Rows(map[], map[]), map["t" := Rows(map["b" := SECOND_CASE], map[])])

  lemma FirstOfTwo()
    ensures Step(BEFORE_BOTH, Prune({"b"}, None, "t", false)) == BETWEEN_BOTH
  {
    var s := BEFORE_BOTH;
    assert SelectedIds(s.tables.cases, {"b"}, None) == {"a"};
    assert Without(s.tables, {"a"}).cases == map["b" := SECOND_CASE] && Without(s.tables, {"a"}).versions == map[];
    assert Belonging(s.tables, {"a"}).cases == map["a" := FIRST_CASE] && Belonging(s.tables, {"a"}).versions == map[];
  }

  lemma SecondOfTwo()
    ensures Step(BETWEEN_BOTH, Prune({}, None, "t", false)) == AFTER_BOTH
  {
    var s := BETWEEN_BOTH;
    assert SelectedIds(s.tables.cases, {}, None) == {"b"};
    assert Without(s.tables, {"b"}).cases == map[] && Without(s.tables, {"b"}).versions == map[];
    assert Belonging(s.tables, {"b"}).cases == map["b" := SECOND_CASE] && Belonging(s.tables, {"b"}).versions == map[];
  }

  /** Two prunes in the same second: the rows of the first are gone. */
  lemma SameSecondLosesRows()
    ensures Run(BEFORE_BOTH, [Prune({"b"}, None, "t", false), Prune({}, None, "t", false)]) == AFTER_BOTH
    ensures !HasCase(AFTER_BOTH, "a") && !Safe(BEFORE_BOTH.tables, AFTER_BOTH)
  {
    hide Step;
    FirstOfTwo();
    SecondOfTwo();
    var both := [Prune({"b"}, None, "t", false), Prune({}, None, "t", false)];
    assert both[..1] == [both[0]] && both[..1][..0] == [];
    assert Run(BEFORE_BOTH, both[..1]) == BETWEEN_BOTH;
    assert "a" in BEFORE_BOTH.tables.cases;
  }

  // ----- restoring

  /** A restore overwrites and removes nothing. */
  lemma RestoreNeverOverwrites(s: State, name: string)
    ensures Within(s.tables, Step(s, Restore(name)).tables)
  {
  }

  function RestoreAll(names: seq<string>): seq<Event> {
    seq(|names|, i requires 0 <= i < |names| => Restore(names[i]))
  }

  lemma {:induction false} RestoresAccumulate(s: State, names: seq<string>)
    ensures var t := Run(s, RestoreAll(names));
      && t.files == s.files && Within(s.tables, t.tables)
      && (forall n, id :: n in names && n in s.files && id in s.files[n].cases ==> id in t.tables.cases)
      && (forall n, v :: n in names && n in s.files && v in s.files[n].versions ==> v in t.tables.versions)
    decreases |names|
  {
    if names != [] {
      var init, last := names[..|names| - 1], names[|names| - 1];
      assert RestoreAll(names)[..|names| - 1] == RestoreAll(init);
      assert names == init + [last];
      RestoresAccumulate(s, init);
      RestoreNeverOverwrites(Run(s, RestoreAll(init)), last);
    }
  }

  lemma {:induction false} RestoresStaySafe(original: Rows, s: State, names: seq<string>)
    requires Safe(original, s)
    ensures Safe(original, Run(s, RestoreAll(names)))
    decreases |names|
  {
    if names != [] {
      assert RestoreAll(names)[..|names| - 1] == RestoreAll(names[..|names| - 1]);
      RestoresStaySafe(original, s, names[..|names| - 1]);
      StepIsSafe(original, Run(s, RestoreAll(names[..|names| - 1])), Restore(names[|names| - 1]));
    }
  }

  /** After any run, restoring all the backups in any order brings back the original tables. */
  lemma RestoringEverythingUndoesTheRun(original: Rows, events: seq<Event>, names: seq<string>)
    requires FreshNames(State(original, map[]), events)
    requires forall n :: n in Run(State(original, map[]), events).files ==> n in names
    ensures Run(Run(State(original, map[]), events), RestoreAll(names)).tables == original
  {
    var s := Run(State(original, map[]), events);
    RunIsSafe(original, events);
    RestoresAccumulate(s, names);
    RestoresStaySafe(original, s, names);
    var t := Run(s, RestoreAll(names));
    forall id | id in original.cases ensures id in t.tables.cases { assert HasCase(s, id); }
    forall v | v in original.versions ensures v in t.tables.versions { assert HasVersion(s, v); }
    assert t.tables.cases == original.cases && t.tables.versions == original.versions;
  }

  // ----- kept cases

  predicate Keeps(e: Event, id: string) { e.Prune? ==> id in e.keep }

  /** A case that every prune of a run keeps stays in its table all along, with its versions. */
  lemma {:induction false} KeptCasesStay(s: State, events: seq<Event>, id: string)
    requires forall e :: e in events ==> Keeps(e, id)
    ensures var t := Run(s, events);
      && (id in s.tables.cases ==> id in t.tables.cases && t.tables.cases[id] == s.tables.cases[id])
      && (forall v :: v in s.tables.versions && s.tables.versions[v].caseId == id ==>
            v in t.tables.versions && t.tables.versions[v] == s.tables.versions[v])
    decreases |events|
  {
    if events != [] {
      assert forall e :: e in events[..|events| - 1] ==> e in events;
      KeptCasesStay(s, events[..|events| - 1], id);
      assert events[|events| - 1] in events;
    }
  }

  // ----- the cutoff

  /** No prune of this kind takes a case of this date. */
  predicate Spares(e: Event, date: int) {
    && (e.Prune? ==> e.cutoff.Some? && date >= e.cutoff.value)
    && (e.RolledBack? ==> e.cutoff.Some? && date >= e.cutoff.value)
  }

  /** A case whose date is at or after the cutoff of every prune stays, with its versions, through any
      run. */
  lemma {:induction false} RecentCasesStay(s: State, events: seq<Event>, id: string, date: int)
    requires id in s.tables.cases && s.tables.cases[id].updatedAt == Some(date)
    requires forall e :: e in events ==> Spares(e, date)
    ensures var t := Run(s, events);
      && id in t.tables.cases && t.tables.cases[id] == s.tables.cases[id]
      && (forall v :: v in s.tables.versions && s.tables.versions[v].caseId == id ==>
            v in t.tables.versions && t.tables.versions[v] == s.tables.versions[v])
    decreases |events|
  {
    if events != [] {
      assert forall e :: e in events[..|events| - 1] ==> e in events;
      RecentCasesStay(s, events[..|events| - 1], id, date);
      assert events[|events| - 1] in events;
    }
  }

  /** What makes a prune take a case. */
  predicate Taken(c: Case, id: string, keep: set<string>, cutoff: Option<int>) {
    && id != "" && id !in keep
    && (cutoff == None || c.updatedAt == None || c.updatedAt.value < cutoff.value)
  }

  /** A prune removes exactly the cases with an id that is not kept, and with a date before the cutoff
      if there are a cutoff and a date, and exactly the versions of these cases. The rest stays as it
      is. */
  lemma PruneTakesExactly(s: State, keep: set<string>, cutoff: Option<int>, name: string)
    ensures var t := Step(s, Prune(keep, cutoff, name, false));
      && (forall id :: id in t.tables.cases <==> id in s.tables.cases && !Taken(s.tables.cases[id], id, keep, cutoff))
      && (forall id :: id in t.tables.cases ==> t.tables.cases[id] == s.tables.cases[id])
      && (forall v :: v in t.tables.versions <==>
            v in s.tables.versions
            && !(s.tables.versions[v].caseId in s.tables.cases
                 && Taken(s.tables.cases[s.tables.versions[v].caseId], s.tables.versions[v].caseId, keep, cutoff)))
      && (forall v :: v in t.tables.versions ==> t.tables.versions[v] == s.tables.versions[v])
  {
    var ids := SelectedIds(s.tables.cases, keep, cutoff);
    forall id ensures id in ids <==> id in s.tables.cases && Taken(s.tables.cases[id], id, keep, cutoff) {}
  }

  /** A dry run changes nothing, in the tables or among the files. */
  lemma DryRunChangesNothing(s: State, keep: set<string>, cutoff: Option<int>, name: string)
    ensures Step(s, Prune(keep, cutoff, name, true)) == s
  {
  }

  /** The backup of a prune holds exactly what the prune removes. */
  lemma BackupHoldsTheTaken(s: State, keep: set<string>, cutoff: Option<int>, name: string)
    ensures var t := Step(s, Prune(keep, cutoff, name, false));
      t != s ==>
        && name in t.files && t.files[name].cases.Keys == s.tables.cases.Keys - t.tables.cases.Keys
        && t.files[name].versions.Keys == s.tables.versions.Keys - t.tables.versions.Keys
        && Within(t.files[name], s.tables)
  {
  }

  /** Versions never lose their case, whatever happens and under whatever names. */
  lemma {:induction false} NoOrphansEver(original: Rows, events: seq<Event>)
    requires NoOrphans(original)
    ensures var s := Run(State(original, map[]), events);
      NoOrphans(s.tables) && forall name :: name in s.files ==> NoOrphans(s.files[name])
    decreases |events|
  {
    if events != [] {
      NoOrphansEver(original, events[..|events| - 1]);
    }
  }

  // ----- the script

  class Store {
    var cases: map<string, Case>
    var versions: map<string, Version>
    var files: map<string, Rows>

    constructor (rows: Rows)
      ensures Contents() == State(rows, map[])
    {
      cases, versions, files := rows.cases, rows.versions, map[];
    }

    ghost function Contents(): State
      reads this
    {
      State(Rows(cases, versions), files)
    }

    /** `_select_case_ids`. The query may return the rows in any order. */
    method SelectCaseIds(keep: set<string>, cutoff: Option<int>) returns (ids: seq<string>)
      ensures forall id :: id in ids <==> Selected(cases, keep, cutoff, id)
      ensures forall j, k :: 0 <= j < k < |ids| ==> ids[j] != ids[k]
    {
      ids := [];
      var rows := cases.Keys;
      while rows != {}
        invariant rows <= cases.Keys
        invariant forall id :: id in ids <==> id !in rows && Selected(cases, keep, cutoff, id)
        invariant forall j, k :: 0 <= j < k < |ids| ==> ids[j] != ids[k]
        decreases rows
      {
        var cid :| cid in rows;
        rows := rows - {cid};
        if cid == "" || cid in keep {
          continue;
        }
        if cutoff.Some? {
          var ts := cases[cid].updatedAt;
          if ts.Some? && ts.value >= cutoff.value {
            continue;
          }
        }
        ids := ids + [cid];
      }
    }

    /** `_dump_backup`: whatever the file held before is gone. */
    method DumpBackup(ids: seq<string>, name: string)
      modifies this`files
      ensures files == old(files)[name := Belonging(Contents().tables, set id | id in ids)]
    {
      var backedCases := map id | id in cases && id in ids :: cases[id];
      var backedVersions := map v | v in versions && versions[v].caseId in ids :: versions[v];
      files := files[name := Rows(backedCases, backedVersions)];
      ghost var b := Belonging(Rows(cases, versions), set id | id in ids);
      assert b.cases == backedCases && b.versions == backedVersions;
    }

    /** `_delete`, with the two row counts. */
    method Delete(ids: seq<string>) returns (c: nat, v: nat)
      modifies this`cases, this`versions
      ensures Rows(cases, versions) == Without(old(Rows(cases, versions)), set id | id in ids)
      ensures c + |cases| == |old(cases)| && v + |versions| == |old(versions)|
    {
      var goneVersions := set k | k in versions && versions[k].caseId in ids;
      KeysSplit(versions, goneVersions);
      var goneCases := set k | k in cases && k in ids;
      KeysSplit(cases, goneCases);
      WithoutBySubtraction(Rows(cases, versions), ids);
      v := |goneVersions|;
      versions := versions - goneVersions;
      c := |goneCases|;
      cases := cases - goneCases;
    }

    /** `main` without `--restore`: nothing matched, dry run, or backup, delete and commit. */
    method Prune(keep: set<string>, cutoff: Option<int>, name: string, dryRun: bool)
      modifies this
      ensures Contents() == Step(old(Contents()), Event.Prune(keep, cutoff, name, dryRun))
    {
      var ids := SelectCaseIds(keep, cutoff);
      assert SelectedIds(cases, keep, cutoff) == set id | id in ids;
      if ids == [] {
        assert SelectedIds(cases, keep, cutoff) == {};
        return;
      }
      assert ids[0] in SelectedIds(cases, keep, cutoff);
      if dryRun {
        return;
      }
      DumpBackup(ids, name);
      var c, v := Delete(ids);
    }

    /** `_restore`: row by row, skipping rows whose key exists. A missing file raises. */
    method Restore(name: string) returns (found: bool)
      modifies this`cases, this`versions
      ensures found == (name in files)
      ensures Contents() == Step(old(Contents()), Event.Restore(name))
    {
      if name !in files {
        return false;
      }
      var data := files[name];
      var todo := data.cases.Keys;
      assert data.cases - todo == map[];
      while todo != {}
        invariant todo <= data.cases.Keys
        invariant cases == (data.cases - todo) + old(cases) && versions == old(versions)
        decreases todo
      {
        var id :| id in todo;
        if id !in cases {
          cases := cases[id := data.cases[id]];
        }
        todo := todo - {id};
      }
      assert data.cases - {} == data.cases;
      todo := data.versions.Keys;
      assert data.versions - todo == map[];
      while todo != {}
        invariant todo <= data.versions.Keys
        invariant versions == (data.versions - todo) + old(versions) && cases == data.cases + old(cases)
        decreases todo
      {
        var id :| id in todo;
        if id !in versions {
          versions := versions[id := data.versions[id]];
        }
        todo := todo - {id};
      }
      assert data.versions - {} == data.versions;
      return true;
    }
  }

  lemma KeysSplit<T>(a: map<string, T>, gone: set<string>)
    requires gone <= a.Keys
    ensures |gone| + |a - gone| == |a|
  {
    var b := a - gone;
    assert gone + b.Keys == a.Keys && gone !! b.Keys;
    assert |gone + b.Keys| == |gone| + |b.Keys|;
    assert |a.Keys| == |a| && |b.Keys| == |b|;
  }

  lemma WithoutBySubtraction(rows: Rows, ids: seq<string>)
    ensures Without(rows, set id | id in ids) ==
      Rows(rows.cases - (set k | k in rows.cases && k in ids),
           rows.versions - (set k | k in rows.versions && rows.versions[k].caseId in ids))
  {
    var w := Without(rows, set id | id in ids);
    assert w.cases == rows.cases - (set k | k in rows.cases && k in ids);
    assert w.versions == rows.versions - (set k | k in rows.versions && rows.versions[k].caseId in ids);
  }
}
