/**
 * Migration 0018: the guarded column renames of the `ops` schema, as steps on a schema that may be half migrated.
 *
 * A table is the sequence of its columns; a column keeps its place and its contents when its name changes.
 */
module RenameMigration {

  datatype Column<T> = Column(name: string, data: T)

  type Schema<T> = map<string, seq<Column<T>>>

  datatype Rename = Rename(table: string, oldName: string, newName: string)

  const AUDIT_EVENTS: seq<Rename> := [Rename("ops.audit_events", "event_id", "audit_event_id")]

  const DATASET_SNAPSHOTS: seq<Rename> := [
    Rename("ops.dataset_snapshots", "snapshot_id", "dataset_snapshot_id"),
    Rename("ops.dataset_snapshots", "parent_snapshot_id", "parent_dataset_snapshot_id")
  ]

  const SERVING_RELEASES: seq<Rename> := [
    Rename("ops.serving_releases", "release_id", "serving_release_id"),
    Rename("ops.serving_releases", "snapshot_id", "dataset_snapshot_id"),
    Rename("ops.serving_releases", "previous_release_id", "previous_serving_release_id"),
    Rename("ops.serving_releases", "rollback_target_release_id", "rollback_target_serving_release_id")
  ]

  const MAINTENANCE_WINDOWS: seq<Rename> := [Rename("ops.maintenance_windows", "window_id", "maintenance_window_id")]

  const TABLE_STATS: seq<Rename> := [
    Rename("ops.table_stats_snapshots", "stats_id", "table_stats_snapshot_id"),
    Rename("ops.table_stats_snapshots", "snapshot_id", "dataset_snapshot_id")
  ]

  const ARTIFACTS: seq<Rename> := [
    Rename("ops.artifacts", "snapshot_id", "dataset_snapshot_id"),
    Rename("ops.artifacts", "release_id", "serving_release_id")
  ]

  const RENAMES: seq<Rename> :=
    AUDIT_EVENTS + DATASET_SNAPSHOTS + SERVING_RELEASES + MAINTENANCE_WINDOWS + TABLE_STATS + ARTIFACTS

  predicate HasColumn<T>(s: Schema<T>, table: string, name: string) {
    table in s && exists i :: 0 <= i < |s[table]| && s[table][i].name == name
  }

  function RenameIn<T>(columns: seq<Column<T>>, oldName: string, newName: string): seq<Column<T>> {
    seq(|columns|, i requires 0 <= i < |columns| =>
      if columns[i].name == oldName then Column(newName, columns[i].data) else columns[i])
  }

  /** The `DO` block: rename only when the old column exists and the new one does not. */
  function Step<T>(s: Schema<T>, r: Rename): Schema<T> {
    if HasColumn(s, r.table, r.oldName) && !HasColumn(s, r.table, r.newName) then
      s[r.table := RenameIn(s[r.table], r.oldName, r.newName)]
    else s
  }

  function Upgraded<T>(s: Schema<T>, rs: seq<Rename>): Schema<T> {
    if rs == [] then s else Upgraded(Step(s, rs[0]), rs[1..])
  }

  function Undo(r: Rename): Rename { Rename(r.table, r.newName, r.oldName) }

  /** The renames are undone from the last to the first. */
  function Downgraded<T>(s: Schema<T>, rs: seq<Rename>): Schema<T> {
    if rs == [] then s else Step(Downgraded(s, rs[1..]), Undo(rs[0]))
  }

  class Database<T> {
    var tables: Schema<T>

    constructor (tables: Schema<T>)
      ensures this.tables == tables
    {
      this.tables := tables;
    }

    method RenameColumn(table: string, oldName: string, newName: string)
      modifies this
      ensures tables == Step(old(tables), Rename(table, oldName, newName))
    {
      if HasColumn(tables, table, oldName) && !HasColumn(tables, table, newName) {
        tables := tables[table := RenameIn(tables[table], oldName, newName)];
      }
    }

    method Upgrade()
      modifies this
      ensures tables == Upgraded(old(tables), RENAMES)
    {
      for i := 0 to |RENAMES|
        invariant Upgraded(tables, RENAMES[i..]) == Upgraded(old(tables), RENAMES)
      {
        assert RENAMES[i..][1..] == RENAMES[i + 1..];
        RenameColumn(RENAMES[i].table, RENAMES[i].oldName, RENAMES[i].newName);
      }
    }

    method Downgrade()
      modifies this
      ensures tables == Downgraded(old(tables), RENAMES)
    {
      for i := |RENAMES| downto 0
        invariant tables == Downgraded(old(tables), RENAMES[i..])
      {
        assert RENAMES[i..][1..] == RENAMES[i + 1..];
        RenameColumn(RENAMES[i].table, RENAMES[i].newName, RENAMES[i].oldName);
      }
      assert RENAMES[0..] == RENAMES;
    }
  }

  // ---- renames that do not touch each other's names ----

  predicate Independent(a: Rename, b: Rename) {
    a.table != b.table
    || (a.oldName != b.oldName && a.oldName != b.newName && a.newName != b.oldName && a.newName != b.newName)
  }

  ghost predicate NoChaining(rs: seq<Rename>) {
    && (forall i, j :: 0 <= i < |rs| && 0 <= j < |rs| && i != j ==> Independent(rs[i], rs[j]))
    && (forall i :: 0 <= i < |rs| ==> rs[i].oldName != rs[i].newName)
  }

  /** The lengths of the table names tell the six tables of the list apart. */
  ghost predicate TablesOfLength(rs: seq<Rename>, lengths: set<int>) {
    forall r :: r in rs ==> |r.table| in lengths
  }

  lemma NoChainingAcrossTables(a: seq<Rename>, b: seq<Rename>, x: set<int>, y: set<int>)
    requires NoChaining(a) && NoChaining(b)
    requires TablesOfLength(a, x) && TablesOfLength(b, y) && x !! y
    ensures NoChaining(a + b) && TablesOfLength(a + b, x + y)
  {
    forall i, j | 0 <= i < |a + b| && 0 <= j < |a + b| && i != j ensures Independent((a + b)[i], (a + b)[j]) {
      if i < |a| && j >= |a| {
        assert a[i] in a && b[j - |a|] in b;
      } else if i >= |a| && j < |a| {
        assert b[i - |a|] in b && a[j] in a;
      }
    }
  }

  lemma NoChainingWithinServingReleases()
    ensures NoChaining(SERVING_RELEASES) && TablesOfLength(SERVING_RELEASES, {20})
  {
    var a, b, c := "dataset_snapshot_id", "previous_release_id", "snapshot_id";
    assert a[0] != b[0];
  }

  lemma NoChainingWithinAuditEvents()
    ensures NoChaining(AUDIT_EVENTS) && TablesOfLength(AUDIT_EVENTS, {16})
  {
  }

  lemma NoChainingWithinDatasetSnapshots()
    ensures NoChaining(DATASET_SNAPSHOTS) && TablesOfLength(DATASET_SNAPSHOTS, {21})
  {
  }

  lemma NoChainingWithinMaintenanceWindows()
    ensures NoChaining(MAINTENANCE_WINDOWS) && TablesOfLength(MAINTENANCE_WINDOWS, {23})
  {
  }

  lemma NoChainingWithinTableStats()
    ensures NoChaining(TABLE_STATS) && TablesOfLength(TABLE_STATS, {25})
  {
  }

  lemma NoChainingWithinArtifacts()
    ensures NoChaining(ARTIFACTS) && TablesOfLength(ARTIFACTS, {13})
  {
  }

  lemma ConcreteListHasNoChaining()
    ensures NoChaining(RENAMES)
  {
    NoChainingWithinAuditEvents();
    NoChainingWithinDatasetSnapshots();
    NoChainingWithinMaintenanceWindows();
    NoChainingWithinTableStats();
    NoChainingWithinArtifacts();
    NoChainingWithinServingReleases();
    var list := AUDIT_EVENTS + DATASET_SNAPSHOTS;
    NoChainingAcrossTables(AUDIT_EVENTS, DATASET_SNAPSHOTS, {16}, {21});
    NoChainingAcrossTables(list, SERVING_RELEASES, {16, 21}, {20});
    list := list + SERVING_RELEASES;
    NoChainingAcrossTables(list, MAINTENANCE_WINDOWS, {16, 21, 20}, {23});
    list := list + MAINTENANCE_WINDOWS;
    NoChainingAcrossTables(list, TABLE_STATS, {16, 21, 20, 23}, {25});
    list := list + TABLE_STATS;
    NoChainingAcrossTables(list, ARTIFACTS, {16, 21, 20, 23, 25}, {13});
  }

  predicate Touches(r: Rename, table: string, name: string) {
    r.table == table && (name == r.oldName || name == r.newName)
  }

  lemma StepKeepsOtherNames<T>(s: Schema<T>, r: Rename, table: string, name: string)
    requires !Touches(r, table, name)
    ensures HasColumn(Step(s, r), table, name) == HasColumn(s, table, name)
  {
    var t: Schema<T> := Step(s, r);
    if HasColumn(s, table, name) {
      var i :| 0 <= i < |s[table]| && s[table][i].name == name;
      assert t[table][i].name == name;
    }
    if HasColumn(t, table, name) {
      var i :| 0 <= i < |t[table]| && t[table][i].name == name;
      assert s[table][i].name == name;
    }
  }

  lemma StepNames<T>(s: Schema<T>, r: Rename)
    requires r.oldName != r.newName
    ensures HasColumn(Step(s, r), r.table, r.oldName)
        <==> HasColumn(s, r.table, r.oldName) && HasColumn(s, r.table, r.newName)
    ensures HasColumn(Step(s, r), r.table, r.newName)
        <==> HasColumn(s, r.table, r.oldName) || HasColumn(s, r.table, r.newName)
  {
    if HasColumn(s, r.table, r.oldName) && !HasColumn(s, r.table, r.newName) {
      var i :| 0 <= i < |s[r.table]| && s[r.table][i].name == r.oldName;
      assert Step(s, r)[r.table][i].name == r.newName;
    }
  }

  lemma StepsCommute<T>(s: Schema<T>, a: Rename, b: Rename)
    requires Independent(a, b)
    ensures Step(Step(s, a), b) == Step(Step(s, b), a)
  {
    if a.table != b.table {
      StepKeepsOtherNames(s, a, b.table, b.oldName);
      StepKeepsOtherNames(s, a, b.table, b.newName);
      StepKeepsOtherNames(s, b, a.table, a.oldName);
      StepKeepsOtherNames(s, b, a.table, a.newName);
    } else {
      StepKeepsOtherNames(s, a, b.table, b.oldName);
      StepKeepsOtherNames(s, a, b.table, b.newName);
      StepKeepsOtherNames(s, b, a.table, a.oldName);
      StepKeepsOtherNames(s, b, a.table, a.newName);
      if a.table in s {
        var x := s[a.table];
        assert RenameIn(RenameIn(x, a.oldName, a.newName), b.oldName, b.newName)
            == RenameIn(RenameIn(x, b.oldName, b.newName), a.oldName, a.newName);
      }
    }
  }

  lemma StepTwice<T>(s: Schema<T>, r: Rename)
    ensures Step(Step(s, r), r) == Step(s, r)
  {
    if r.oldName != r.newName {
      StepNames(s, r);
    }
  }

  /** A rename of the list that was applied before the upgrade makes no difference to where the upgrade ends. */
  lemma {:induction false} UpgradeAbsorbsStep<T>(s: Schema<T>, rs: seq<Rename>, i: nat)
    requires NoChaining(rs) && i < |rs|
    ensures Upgraded(Step(s, rs[i]), rs) == Upgraded(s, rs)
    decreases |rs|
  {
    if i == 0 {
      StepTwice(s, rs[0]);
    } else {
      StepsCommute(s, rs[i], rs[0]);
      UpgradeAbsorbsStep(Step(s, rs[0]), rs[1..], i - 1);
    }
  }

  /** The schema after some renames of the list, in any order and any number of times. */
  function Applied<T>(s: Schema<T>, rs: seq<Rename>, done: seq<nat>): Schema<T>
    requires forall k :: 0 <= k < |done| ==> done[k] < |rs|
  {
    if done == [] then s else Step(Applied(s, rs, done[..|done| - 1]), rs[done[|done| - 1]])
  }

  /** From any partly migrated schema the upgrade reaches the schema that one full run would have reached. */
  lemma {:induction false} UpgradeRecovers<T>(s: Schema<T>, rs: seq<Rename>, done: seq<nat>)
    requires NoChaining(rs)
    requires forall k :: 0 <= k < |done| ==> done[k] < |rs|
    ensures Upgraded(Applied(s, rs, done), rs) == Upgraded(s, rs)
    decreases |done|
  {
    if done != [] {
      var n := |done| - 1;
      UpgradeAbsorbsStep(Applied(s, rs, done[..n]), rs, done[n]);
      UpgradeRecovers(s, rs, done[..n]);
    }
  }

  lemma {:induction false} UpgradedIsApplied<T>(s: Schema<T>, rs: seq<Rename>, n: nat)
    requires n <= |rs|
    ensures Upgraded(s, rs[..n]) == Applied(s, rs, seq(n, i => i))
  {
    if n == 0 {
      assert rs[..0] == [];
    } else {
      UpgradedIsApplied(s, rs, n - 1);
      UpgradedSnoc(s, rs[..n - 1], rs[n - 1]);
      assert rs[..n] == rs[..n - 1] + [rs[n - 1]];
      var done := seq(n, i => i);
      assert done[..n - 1] == seq(n - 1, i => i);
    }
  }

  lemma {:induction false} UpgradedSnoc<T>(s: Schema<T>, rs: seq<Rename>, r: Rename)
    ensures Upgraded(s, rs + [r]) == Step(Upgraded(s, rs), r)
    decreases |rs|
  {
    if rs == [] {
      assert ([] + [r])[1..] == [];
    } else {
      assert (rs + [r])[1..] == rs[1..] + [r];
      UpgradedSnoc(Step(s, rs[0]), rs[1..], r);
    }
  }

  /** An upgrade interrupted after any number of renames, and a second upgrade after a complete one, end where one
      full run ends. */
  lemma UpgradeAfterInterruption<T>(s: Schema<T>, n: nat)
    requires n <= |RENAMES|
    ensures Upgraded(Upgraded(s, RENAMES[..n]), RENAMES) == Upgraded(s, RENAMES)
  {
    ConcreteListHasNoChaining();
    UpgradedIsApplied(s, RENAMES, n);
    UpgradeRecovers(s, RENAMES, seq(n, i => i));
  }

  // ---- what is conserved ----

  /** Every table keeps its columns in place with their contents, and where no two columns shared a name none ever do.
      */
  lemma {:induction false} UpgradeConserves<T>(s: Schema<T>, rs: seq<Rename>, table: string)
    requires table in s
    ensures s.Keys == Upgraded(s, rs).Keys && |s[table]| == |Upgraded(s, rs)[table]|
    ensures forall i :: 0 <= i < |s[table]| ==> s[table][i].data == Upgraded(s, rs)[table][i].data
    ensures (forall i, j :: 0 <= i < j < |s[table]| ==> s[table][i].name != s[table][j].name) ==>
      forall i, j :: 0 <= i < j < |s[table]| ==> Upgraded(s, rs)[table][i].name != Upgraded(s, rs)[table][j].name
    decreases |rs|
  {
    if rs != [] {
      var t := Step(s, rs[0]);
      StepConserves(s, rs[0], table);
      UpgradeConserves(t, rs[1..], table);
    }
  }

  lemma StepConserves<T>(s: Schema<T>, r: Rename, table: string)
    requires table in s
    ensures s.Keys == Step(s, r).Keys && |s[table]| == |Step(s, r)[table]|
    ensures forall i :: 0 <= i < |s[table]| ==> s[table][i].data == Step(s, r)[table][i].data
    ensures (forall i, j :: 0 <= i < j < |s[table]| ==> s[table][i].name != s[table][j].name) ==>
      forall i, j :: 0 <= i < j < |s[table]| ==> Step(s, r)[table][i].name != Step(s, r)[table][j].name
  {
  }

  /** One guarded rename, on a single column. */
  lemma StepColumn<T>(s: Schema<T>, r: Rename, table: string, k: nat)
    requires table in s && k < |s[table]|
    ensures table in Step(s, r) && |Step(s, r)[table]| == |s[table]|
    ensures Step(s, r)[table][k]
         == if table == r.table && s[table][k].name == r.oldName && !HasColumn(s, table, r.newName)
            then Column(r.newName, s[table][k].data) else s[table][k]
  {
    assert s[table][k].name == r.oldName ==> HasColumn(s, table, r.oldName);
  }

  // ---- where the upgrade ends ----

  lemma {:induction false} UpgradedKeepsOtherNames<T>(s: Schema<T>, rs: seq<Rename>, table: string, name: string)
    requires forall i :: 0 <= i < |rs| ==> !Touches(rs[i], table, name)
    ensures HasColumn(Upgraded(s, rs), table, name) == HasColumn(s, table, name)
    decreases |rs|
  {
    if rs != [] {
      StepKeepsOtherNames(s, rs[0], table, name);
      UpgradedKeepsOtherNames(Step(s, rs[0]), rs[1..], table, name);
    }
  }

  /** The names of the final schema, read off the first one: the new name is there if either was, and the old name
      is left only where both were. */
  lemma {:induction false} UpgradedNames<T>(s: Schema<T>, rs: seq<Rename>, i: nat)
    requires NoChaining(rs) && i < |rs|
    ensures var r, t := rs[i], Upgraded(s, rs);
      && (HasColumn(t, r.table, r.newName) <==> HasColumn(s, r.table, r.oldName) || HasColumn(s, r.table, r.newName))
      && (HasColumn(t, r.table, r.oldName) <==> HasColumn(s, r.table, r.oldName) && HasColumn(s, r.table, r.newName))
    decreases |rs|
  {
    var r := rs[i];
    if i == 0 {
      StepNames(s, r);
      forall k | 0 <= k < |rs[1..]|
        ensures !Touches(rs[1..][k], r.table, r.oldName) && !Touches(rs[1..][k], r.table, r.newName)
      {
        assert Independent(rs[k + 1], rs[0]);
      }
      UpgradedKeepsOtherNames(Step(s, r), rs[1..], r.table, r.oldName);
      UpgradedKeepsOtherNames(Step(s, r), rs[1..], r.table, r.newName);
    } else {
      assert Independent(rs[0], rs[i]);
      StepKeepsOtherNames(s, rs[0], r.table, r.oldName);
      StepKeepsOtherNames(s, rs[0], r.table, r.newName);
      UpgradedNames(Step(s, rs[0]), rs[1..], i - 1);
    }
  }

  /** What becomes of a column: it takes the new name of a rename whose old name it has, unless the table had a column
      of the new name already, and keeps its own name if there is no such rename. */
  lemma {:induction false} UpgradedColumn<T>(s: Schema<T>, rs: seq<Rename>, table: string, k: nat)
    requires NoChaining(rs) && table in s && k < |s[table]|
    ensures table in Upgraded(s, rs) && |Upgraded(s, rs)[table]| == |s[table]|
    ensures forall i :: 0 <= i < |rs| && rs[i].table == table && rs[i].oldName == s[table][k].name ==>
      Upgraded(s, rs)[table][k].name
        == if exists j :: 0 <= j < |s[table]| && s[table][j].name == rs[i].newName then s[table][k].name
           else rs[i].newName
    ensures (forall i :: 0 <= i < |rs| ==> rs[i].table != table || rs[i].oldName != s[table][k].name) ==>
      Upgraded(s, rs)[table][k].name == s[table][k].name
    decreases |rs|
  {
    if rs != [] {
      var t := Step(s, rs[0]);
      StepColumn(s, rs[0], table, k);
      UpgradedColumn(t, rs[1..], table, k);
      forall i | 0 < i < |rs| && rs[i].table == table
        ensures rs[i] == rs[1..][i - 1] && Independent(rs[i], rs[0])
        ensures HasColumn(t, table, rs[i].newName) == HasColumn(s, table, rs[i].newName)
      {
        StepKeepsOtherNames(s, rs[0], table, rs[i].newName);
      }
    }
  }

  // ---- downgrade after upgrade ----

  /** The table has the new name without the old one before the upgrade has run. */
  predicate NewOnly<T>(s: Schema<T>, r: Rename) {
    HasColumn(s, r.table, r.newName) && !HasColumn(s, r.table, r.oldName)
  }

  lemma UndoStep<T>(s: Schema<T>, r: Rename)
    requires r.oldName != r.newName
    ensures Step(Step(s, r), Undo(r)) == s <==> !NewOnly(s, r)
  {
    StepNames(s, r);
    StepNames(Step(s, r), Undo(r));
    if HasColumn(s, r.table, r.oldName) && !HasColumn(s, r.table, r.newName) {
      forall i | 0 <= i < |s[r.table]| ensures s[r.table][i].name != r.newName {}
      assert RenameIn(RenameIn(s[r.table], r.oldName, r.newName), r.newName, r.oldName) == s[r.table];
    }
  }

  lemma {:induction false} DowngradedKeepsOtherNames<T>(s: Schema<T>, rs: seq<Rename>, table: string, name: string)
    requires forall i :: 0 <= i < |rs| ==> !Touches(rs[i], table, name)
    ensures HasColumn(Downgraded(s, rs), table, name) == HasColumn(s, table, name)
    decreases |rs|
  {
    if rs != [] {
      DowngradedKeepsOtherNames(s, rs[1..], table, name);
      StepKeepsOtherNames(Downgraded(s, rs[1..]), Undo(rs[0]), table, name);
    }
  }

  /** `downgrade` after `upgrade` gives the schema back exactly when no table had a new name without its old name. */
  lemma {:induction false} DowngradeRestoresIff<T>(s: Schema<T>, rs: seq<Rename>)
    requires NoChaining(rs)
    ensures Downgraded(Upgraded(s, rs), rs) == s <==> forall i :: 0 <= i < |rs| ==> !NewOnly(s, rs[i])
    decreases |rs|
  {
    if rs != [] {
      var r, rest, t := rs[0], rs[1..], Step(s, rs[0]);
      forall k | 0 <= k < |rest|
        ensures NewOnly(t, rest[k]) == NewOnly(s, rest[k])
        ensures !Touches(rest[k], r.table, r.oldName) && !Touches(rest[k], r.table, r.newName)
      {
        assert Independent(rs[0], rs[k + 1]);
        StepKeepsOtherNames(s, r, rest[k].table, rest[k].oldName);
        StepKeepsOtherNames(s, r, rest[k].table, rest[k].newName);
      }
      DowngradeRestoresIff(t, rest);
      var back := Downgraded(Upgraded(t, rest), rest);
      if back == t {
        UndoStep(s, r);
        assert forall i :: 0 <= i < |rest| ==> rest[i] == rs[i + 1];
      } else {
        var k :| 0 <= k < |rest| && NewOnly(t, rest[k]);
        assert NewOnly(s, rs[k + 1]);
        OldNameAppears(t, rest, k);
        StepKeepsOtherNames(back, Undo(r), rest[k].table, rest[k].oldName);
      }
    }
  }

  lemma {:induction false} OldNameAppears<T>(s: Schema<T>, rs: seq<Rename>, k: nat)
    requires NoChaining(rs) && k < |rs| && NewOnly(s, rs[k])
    ensures HasColumn(Downgraded(Upgraded(s, rs), rs), rs[k].table, rs[k].oldName)
  {
    UpgradedNames(s, rs, k);
    DowngradedNames(Upgraded(s, rs), rs, k);
  }

  lemma {:induction false} DowngradedNames<T>(s: Schema<T>, rs: seq<Rename>, i: nat)
    requires NoChaining(rs) && i < |rs|
    ensures HasColumn(Downgraded(s, rs), rs[i].table, rs[i].oldName)
        <==> HasColumn(s, rs[i].table, rs[i].oldName) || HasColumn(s, rs[i].table, rs[i].newName)
    decreases |rs|
  {
    var r := rs[i];
    if i == 0 {
      forall k | 0 <= k < |rs[1..]|
        ensures !Touches(rs[1..][k], r.table, r.oldName) && !Touches(rs[1..][k], r.table, r.newName)
      {
        assert Independent(rs[k + 1], rs[0]);
      }
      DowngradedKeepsOtherNames(s, rs[1..], r.table, r.oldName);
      DowngradedKeepsOtherNames(s, rs[1..], r.table, r.newName);
      StepNames(Downgraded(s, rs[1..]), Undo(r));
    } else {
      DowngradedNames(s, rs[1..], i - 1);
      assert Independent(rs[0], rs[i]);
      StepKeepsOtherNames(Downgraded(s, rs[1..]), Undo(rs[0]), r.table, r.oldName);
    }
  }
}
