/**
 * Schema migrations: applied in name order, each in its own transaction that
 * also records it, so that a run may crash anywhere and be repeated.
 */
module Migrations {
  import opened Prelude
  import opened Store

  // ----- Name order -----

  /** The byte order of strings. */
  predicate Less(a: string, b: string) {
    if b == "" then false
    else if a == "" then true
    else if a[0] != b[0] then a[0] < b[0]
    else Less(a[1..], b[1..])
  }

  lemma {:induction false} LessIsTotal(a: string, b: string)
    ensures a == b || Less(a, b) || Less(b, a)
    ensures !(Less(a, b) && Less(b, a)) && !Less(a, a)
  {
    if a != "" && b != "" && a[0] == b[0] {
      LessIsTotal(a[1..], b[1..]);
      assert a == [a[0]] + a[1..] && b == [b[0]] + b[1..];
    }
    if a != "" {
      LessIsTotal(a[1..], a[1..]);
    }
  }

  lemma {:induction false} LessIsTransitive(a: string, b: string, c: string)
    requires Less(a, b) && Less(b, c)
    ensures Less(a, c)
  {
    if a != "" && a[0] == b[0] == c[0] {
      LessIsTransitive(a[1..], b[1..], c[1..]);
    }
  }

  /** a comes first in byte order: it is a proper prefix, or smaller at the first difference. */
  ghost predicate Before(a: string, b: string) {
    exists k | 0 <= k <= |a| :: DiffersAt(a, b, k)
  }

  predicate DiffersAt(a: string, b: string, k: nat)
    requires k <= |a|
  {
    k < |b| && a[..k] == b[..k] && (k == |a| || a[k] < b[k])
  }

  lemma FirstDiffers(a: string, b: string, k: nat)
    requires k <= |a| && DiffersAt(a, b, k)
    ensures k > 0 ==> a[0] == b[0]
  {
    assert k > 0 ==> a[..k][0] == b[..k][0];
  }

  lemma {:induction false} LessIsBefore(a: string, b: string)
    ensures Less(a, b) <==> Before(a, b)
  {
    if a == "" {
      assert b != "" ==> DiffersAt(a, b, 0);
    } else if b != "" && a[0] == b[0] {
      LessIsBefore(a[1..], b[1..]);
      if k :| 0 <= k <= |a[1..]| && DiffersAt(a[1..], b[1..], k) {
        assert a[..k + 1] == [a[0]] + a[1..][..k] && b[..k + 1] == [b[0]] + b[1..][..k];
        assert DiffersAt(a, b, k + 1);
      }
      if k :| 0 <= k <= |a| && DiffersAt(a, b, k) {
        assert k > 0 && a[1..][..k - 1] == a[..k][1..] && b[1..][..k - 1] == b[..k][1..];
        assert DiffersAt(a[1..], b[1..], k - 1);
      }
    } else if b != "" {
      assert a[0] < b[0] ==> DiffersAt(a, b, 0);
      if k :| 0 <= k <= |a| && DiffersAt(a, b, k) {
        FirstDiffers(a, b, k);
      }
    }
  }

  ghost predicate Sorted(names: seq<string>) {
    forall i, j | 0 <= i < j < |names| :: Less(names[i], names[j])
  }

  function Elements(names: seq<string>): set<string> {
    set name | name in names
  }

  function Insert(name: string, names: seq<string>): seq<string> {
    if names == [] || Less(name, names[0]) then [name] + names
    else [names[0]] + Insert(name, names[1..])
  }

  lemma {:induction false} InsertKeepsSorted(name: string, names: seq<string>)
    requires Sorted(names) && name !in names
    ensures Sorted(Insert(name, names))
    ensures Elements(Insert(name, names)) == Elements(names) + {name}
    ensures |Insert(name, names)| == |names| + 1
  {
    if names != [] && !Less(name, names[0]) {
      assert names[0] in names && names == [names[0]] + names[1..];
      LessIsTotal(name, names[0]);
      InsertKeepsSorted(name, names[1..]);
      var rest := Insert(name, names[1..]);
      assert forall x :: x in rest <==> x in Elements(rest);
      forall j | 0 <= j < |rest|
        ensures Less(names[0], rest[j])
      {
        assert rest[j] in Elements(names[1..]) + {name};
      }
    } else if names != [] {
      forall j | 0 <= j < |names|
        ensures Less(name, names[j])
      {
        if j > 0 { LessIsTransitive(name, names[0], names[j]); }
      }
    }
  }

  /** sort.Strings, on distinct names. */
  function Sort(names: seq<string>): seq<string> {
    if names == [] then [] else Insert(names[0], Sort(names[1..]))
  }

  lemma {:induction false} SortSorts(names: seq<string>)
    requires NoDuplicates(names)
    ensures Sorted(Sort(names)) && Elements(Sort(names)) == Elements(names)
  {
    if names != [] {
      SortSorts(names[1..]);
      assert names == [names[0]] + names[1..];
      assert names[0] !in names[1..] && forall x :: x in Sort(names[1..]) <==> x in Elements(Sort(names[1..]));
      InsertKeepsSorted(names[0], Sort(names[1..]));
    }
  }

  lemma {:induction false} SortedIsUnique(a: seq<string>, b: seq<string>)
    requires Sorted(a) && Sorted(b) && Elements(a) == Elements(b)
    ensures a == b
  {
    if a == [] {
      NonEmptyElements(b);
    } else {
      assert a[0] in Elements(a) && a[0] in b;
      assert b != [] && b[0] in Elements(b) && b[0] in a;
      LessIsTotal(a[0], b[0]);
      assert a == [a[0]] + a[1..] && b == [b[0]] + b[1..];
      RestElements(a);
      RestElements(b);
      SortedIsUnique(a[1..], b[1..]);
    }
  }

  lemma NonEmptyElements(a: seq<string>)
    ensures a != [] ==> Elements(a) != {}
  {
    assert a != [] ==> a[0] in Elements(a);
  }

  lemma RestElements(a: seq<string>)
    requires Sorted(a) && a != []
    ensures Elements(a[1..]) == Elements(a) - {a[0]}
  {
    forall i | 1 <= i < |a|
      ensures a[i] != a[0]
    {
      LessIsTotal(a[0], a[i]);
    }
  }

  // ----- The database -----

  /** effects is the schema: the migrations whose SQL took effect, in order. */
  datatype Schema = Schema(hasTable: bool, effects: seq<string>, recorded: set<string>)

  const BLANK := Schema(false, [], {})

  /** What has taken effect is exactly what is recorded, once each. */
  ghost predicate RecordedOnce(s: Schema) {
    NoDuplicates(s.effects) && Elements(s.effects) == s.recorded && (s.recorded != {} ==> s.hasTable)
  }

  /** The names not yet recorded, in order. */
  function Remaining(names: seq<string>, recorded: set<string>): seq<string> {
    if names == [] then []
    else (if names[0] in recorded then [] else [names[0]]) + Remaining(names[1..], recorded)
  }

  /** What one run may do: the first few of the remaining migrations, all of them if it reports success. */
  ghost predicate MigrateStep(names: seq<string>, s: Schema, s': Schema, ok: bool) {
    var remaining := Remaining(names, s.recorded);
    && (ok ==> s'.hasTable)
    && exists k | 0 <= k <= |remaining| ::
         && s'.effects == s.effects + remaining[..k]
         && s'.recorded == s.recorded + Elements(remaining[..k])
         && (ok ==> k == |remaining|)
         && (k > 0 ==> s'.hasTable)
         && (s.hasTable ==> s'.hasTable)
  }

  datatype Entry = Entry(name: string, isDir: bool)

  predicate IsMigration(e: Entry) {
    !e.isDir && |e.name| >= 4 && e.name[|e.name| - 4..] == ".sql"
  }

  function MigrationNames(entries: seq<Entry>): seq<string> {
    if entries == [] then []
    else (if IsMigration(entries[0]) then [entries[0].name] else []) + MigrationNames(entries[1..])
  }

  ghost predicate IsDirectory(entries: seq<Entry>) {
    forall i, j | 0 <= i < j < |entries| :: entries[i].name != entries[j].name
  }

  lemma {:induction false} MigrationNamesAppend(entries: seq<Entry>, e: Entry)
    ensures MigrationNames(entries + [e]) == MigrationNames(entries) + if IsMigration(e) then [e.name] else []
  {
    if entries == [] {
      assert entries + [e] == [e];
    } else {
      assert (entries + [e])[1..] == entries[1..] + [e];
      MigrationNamesAppend(entries[1..], e);
    }
  }

  lemma {:induction false} MigrationNamesDistinct(entries: seq<Entry>)
    requires IsDirectory(entries)
    ensures NoDuplicates(MigrationNames(entries))
    ensures forall name | name in MigrationNames(entries) :: exists e | e in entries :: e.name == name
  {
    if entries != [] {
      MigrationNamesDistinct(entries[1..]);
      assert forall e | e in entries[1..] :: e in entries && e.name != entries[0].name;
      assert entries[0] in entries;
      assert entries[0].name !in MigrationNames(entries[1..]);
      DistinctCons(entries[0].name, MigrationNames(entries[1..]));
    }
  }

  /** Some file of the directory, whose name ends in ".sql", has this name. */
  ghost predicate NamesSqlFile(entries: seq<Entry>, name: string) {
    (exists e | e in entries :: e.name == name && !e.isDir) && exists stem :: name == stem + ".sql"
  }

  lemma IsMigrationExactly(e: Entry)
    ensures IsMigration(e) <==> !e.isDir && exists stem :: e.name == stem + ".sql"
  {
    if IsMigration(e) {
      var stem := e.name[..|e.name| - 4];
      assert e.name == stem + ".sql";
    }
    if stem :| e.name == stem + ".sql" {
      assert e.name[|stem|..] == ".sql";
    }
  }

  lemma {:induction false} MigrationNamesExactly(entries: seq<Entry>, name: string)
    ensures name in MigrationNames(entries) <==> NamesSqlFile(entries, name)
  {
    if entries != [] {
      MigrationNamesExactly(entries[1..], name);
      IsMigrationExactly(entries[0]);
      assert entries == [entries[0]] + entries[1..];
    }
  }

  /** What a run applies, told by the directory alone: its .sql files not yet recorded, in byte order. */
  ghost predicate AppliesSqlFiles(entries: seq<Entry>, s: Schema, s': Schema, ok: bool) {
    && s.effects <= s'.effects && s.recorded <= s'.recorded
    && (forall name | name in s'.recorded && name !in s.recorded :: NamesSqlFile(entries, name))
    && (ok ==> forall name | NamesSqlFile(entries, name) :: name in s'.recorded)
    && (forall i, j | |s.effects| <= i < j < |s'.effects| :: Before(s'.effects[i], s'.effects[j]))
  }

  lemma StepAppliesSqlFiles(entries: seq<Entry>, s: Schema, s': Schema, ok: bool)
    requires RecordedOnce(s) && IsDirectory(entries) && MigrateStep(Sort(MigrationNames(entries)), s, s', ok)
    ensures AppliesSqlFiles(entries, s, s', ok)
  {
    var names := Sort(MigrationNames(entries));
    MigrationNamesDistinct(entries);
    SortSorts(MigrationNames(entries));
    StepEffects(names, s, s', ok);
    forall name
      ensures name in Elements(names) <==> NamesSqlFile(entries, name)
    {
      MigrationNamesExactly(entries, name);
      assert name in Elements(names) <==> name in Elements(MigrationNames(entries));
    }
    NewEffectsAscend(names, s, s', ok);
  }

  lemma NewEffectsAscend(names: seq<string>, s: Schema, s': Schema, ok: bool)
    requires Sorted(names) && MigrateStep(names, s, s', ok)
    ensures forall i, j | |s.effects| <= i < j < |s'.effects| :: Before(s'.effects[i], s'.effects[j])
  {
    var remaining := Remaining(names, s.recorded);
    RemainingSorted(names, s.recorded);
    forall i, j | |s.effects| <= i < j < |s'.effects|
      ensures Before(s'.effects[i], s'.effects[j])
    {
      var x, y := i - |s.effects|, j - |s.effects|;
      assert s'.effects[i] == remaining[x] && s'.effects[j] == remaining[y];
      assert Less(remaining[x], remaining[y]);
      LessIsBefore(remaining[x], remaining[y]);
    }
  }

  lemma DistinctCons(name: string, names: seq<string>)
    requires NoDuplicates(names) && name !in names
    ensures NoDuplicates([name] + names)
  {
    forall i, j | 0 <= i < j <= |names|
      ensures ([name] + names)[i] != ([name] + names)[j]
    {
      assert names[j - 1] in names;
    }
  }

  lemma DistinctConcat(a: seq<string>, b: seq<string>)
    requires NoDuplicates(a) && NoDuplicates(b) && Elements(a) !! Elements(b)
    ensures NoDuplicates(a + b)
  {
    forall i, j | 0 <= i < j < |a + b|
      ensures (a + b)[i] != (a + b)[j]
    {
      if i < |a| <= j {
        assert a[i] in Elements(a) && b[j - |a|] in Elements(b);
      }
    }
  }

  class Database {
    var schema: Schema

    constructor ()
      ensures schema == BLANK
    {
      schema := BLANK;
    }

    /** applyMigration. A failing statement, or a crash there, leaves the transaction uncommitted. */
    method ApplyMigration(name: string, faults: Faults) returns (ok: bool)
      requires RecordedOnce(schema) && schema.hasTable
      modifies this
      ensures RecordedOnce(schema) && schema.hasTable
      ensures if name in old(schema).recorded then schema == old(schema)
              else schema == old(schema) || schema == Applied(old(schema), name)
      ensures schema != old(schema) ==>
                schema.effects == old(schema).effects + [name] && schema.recorded == old(schema).recorded + {name}
      ensures ok ==> name in schema.recorded
      ensures faults == NO_FAULTS ==> ok
    {
      if 0 in faults.failing || 1 in faults.failing {
        return false;
      }
      var tx := schema;
      if name in tx.recorded {
        return faults.commit == Commits;
      }
      if 2 in faults.failing || 3 in faults.failing {
        return false;
      }
      tx := tx.(effects := tx.effects + [name]);
      if 4 in faults.failing {
        return false;
      }
      tx := tx.(recorded := tx.recorded + {name});
      AppliedIsConsistent(schema, name);
      if faults.commit != Aborts {
        schema := tx;
      }
      return faults.commit == Commits;
    }

    /** Migrate: faults says what goes wrong in the i-th transaction of this run. */
    method Migrate(entries: seq<Entry>, create: CommitFate, readFails: bool, faults: nat -> Faults) returns (ok: bool)
      requires RecordedOnce(schema) && IsDirectory(entries)
      modifies this
      ensures RecordedOnce(schema)
      ensures MigrateStep(Sort(MigrationNames(entries)), old(schema), schema, ok)
      ensures AppliesSqlFiles(entries, old(schema), schema, ok)
      ensures create == Commits && !readFails && (forall i :: faults(i) == NO_FAULTS) ==> ok
    {
      if create != Aborts {
        schema := schema.(hasTable := true);
      }
      NothingApplied(Sort(MigrationNames(entries)), old(schema), schema);
      StepAppliesSqlFiles(entries, old(schema), schema, false);
      if create != Commits {
        return false;
      }
      if readFails {
        return false;
      }
      var names: seq<string> := [];
      for i := 0 to |entries|
        invariant names == MigrationNames(entries[..i])
        invariant schema == old(schema).(hasTable := true)
      {
        MigrationNamesAppend(entries[..i], entries[i]);
        assert entries[..i + 1] == entries[..i] + [entries[i]];
        if IsMigration(entries[i]) {
          names := names + [entries[i].name];
        }
      }
      assert entries[..|entries|] == entries;
      MigrationNamesDistinct(entries);
      SortSorts(names);
      names := Sort(names);
      SortedHasNoDuplicates(names);
      for i := 0 to |names|
        invariant RecordedOnce(schema) && schema.hasTable
        invariant Progress(names, i, old(schema), schema)
      {
        ghost var before := schema;
        ok := ApplyMigration(names[i], faults(i));
        NextProgress(names, i, old(schema), before, schema, ok);
        if !ok {
          StepAppliesSqlFiles(entries, old(schema), schema, false);
          return;
        }
      }
      ProgressIsStep(names, |names|, old(schema), schema, true);
      StepAppliesSqlFiles(entries, old(schema), schema, true);
      return true;
    }
  }

  function Applied(s: Schema, name: string): Schema {
    s.(effects := s.effects + [name], recorded := s.recorded + {name})
  }

  lemma AppliedIsConsistent(s: Schema, name: string)
    requires RecordedOnce(s) && s.hasTable && name !in s.recorded
    ensures RecordedOnce(Applied(s, name))
  {
    assert forall x | x in s.effects :: x in Elements(s.effects);
  }

  lemma SortedHasNoDuplicates(names: seq<string>)
    requires Sorted(names)
    ensures NoDuplicates(names)
  {
    forall i, j | 0 <= i < j < |names|
      ensures names[i] != names[j]
    {
      LessIsTotal(names[i], names[j]);
    }
  }

  /** The first i names are done: those that remained have been applied in order. */
  ghost predicate Progress(names: seq<string>, i: nat, s: Schema, s': Schema)
    requires i <= |names|
  {
    var done := Remaining(names[..i], s.recorded);
    s'.effects == s.effects + done && s'.recorded == s.recorded + Elements(done) && s'.hasTable
  }

  lemma {:induction false} RemainingAppend(names: seq<string>, more: seq<string>, recorded: set<string>)
    ensures Remaining(names + more, recorded) == Remaining(names, recorded) + Remaining(more, recorded)
  {
    if names == [] {
      assert names + more == more;
    } else {
      assert (names + more)[1..] == names[1..] + more;
      RemainingAppend(names[1..], more, recorded);
    }
  }

  lemma {:induction false} RemainingElements(names: seq<string>, recorded: set<string>)
    ensures Elements(Remaining(names, recorded)) == Elements(names) - recorded
  {
    if names != [] {
      RemainingElements(names[1..], recorded);
      assert names == [names[0]] + names[1..];
      assert Elements(names) == {names[0]} + Elements(names[1..]);
      var first: seq<string> := if names[0] in recorded then [] else [names[0]];
      assert Elements(first + Remaining(names[1..], recorded)) == Elements(first) + Elements(Remaining(names[1..], recorded));
    }
  }

  lemma ProgressIsStep(names: seq<string>, i: nat, s: Schema, s': Schema, ok: bool)
    requires i <= |names| && Progress(names, i, s, s') && (ok ==> i == |names|)
    ensures MigrateStep(names, s, s', ok)
  {
    var done, remaining := Remaining(names[..i], s.recorded), Remaining(names, s.recorded);
    assert names == names[..i] + names[i..];
    RemainingAppend(names[..i], names[i..], s.recorded);
    assert remaining[..|done|] == done;
    if ok {
      assert names[i..] == [];
    }
  }

  lemma NothingApplied(names: seq<string>, s: Schema, s': Schema)
    requires s' == s || s' == s.(hasTable := true)
    ensures MigrateStep(names, s, s', false)
    ensures s'.hasTable ==> Progress(names, 0, s, s')
  {
    var remaining := Remaining(names, s.recorded);
    assert remaining[..0] == [];
    assert names[..0] == [];
  }

  lemma NextProgress(names: seq<string>, i: nat, s: Schema, mid: Schema, s': Schema, ok: bool)
    requires i < |names| && NoDuplicates(names) && Progress(names, i, s, mid) && s'.hasTable
    requires if names[i] in mid.recorded then s' == mid else s' == mid || s' == Applied(mid, names[i])
    requires ok ==> names[i] in s'.recorded
    ensures ok ==> Progress(names, i + 1, s, s')
    ensures !ok ==> MigrateStep(names, s, s', false)
  {
    var name, earlier := names[i], names[..i];
    assert names[..i + 1] == earlier + [name];
    RemainingAppend(earlier, [name], s.recorded);
    RemainingElements(earlier, s.recorded);
    assert name !in Elements(earlier);
    assert name in mid.recorded <==> name in s.recorded;
    var done := Remaining(earlier, s.recorded);
    if s' == Applied(mid, name) && name !in s.recorded {
      assert Elements(done + [name]) == Elements(done) + {name};
      assert s.effects + done + [name] == s.effects + (done + [name]);
      assert Progress(names, i + 1, s, s');
    }
    if !ok {
      ProgressIsStep(names, if s' == mid then i else i + 1, s, s', false);
    }
  }

  // ----- Any number of runs -----

  /** One start of the server: its release's migrations, in order, and what Migrate reported. */
  datatype Start = Start(names: seq<string>, ok: bool)

  ghost predicate Starts(schemas: seq<Schema>, starts: seq<Start>) {
    && |schemas| == |starts| + 1
    && schemas[0] == BLANK
    && forall i | 0 <= i < |starts| ::
         Sorted(starts[i].names) && MigrateStep(starts[i].names, schemas[i], schemas[i + 1], starts[i].ok)
  }

  lemma StepEffects(names: seq<string>, s: Schema, s': Schema, ok: bool)
    requires Sorted(names) && RecordedOnce(s) && MigrateStep(names, s, s', ok)
    ensures RecordedOnce(s')
    ensures s.recorded <= s'.recorded <= s.recorded + Elements(names)
    ensures ok ==> s'.recorded == s.recorded + Elements(names)
    ensures s.effects <= s'.effects
  {
    var remaining := Remaining(names, s.recorded);
    var k :|
      && 0 <= k <= |remaining|
      && s'.effects == s.effects + remaining[..k]
      && s'.recorded == s.recorded + Elements(remaining[..k])
      && (ok ==> k == |remaining|)
      && (k > 0 ==> s'.hasTable)
      && (s.hasTable ==> s'.hasTable);
    RemainingElements(names, s.recorded);
    RemainingSorted(names, s.recorded);
    SortedHasNoDuplicates(remaining);
    assert forall x | x in remaining[..k] :: x in Elements(remaining);
    assert forall x | x in s.effects :: x in Elements(s.effects);
    assert ok ==> remaining[..k] == remaining;
    DistinctConcat(s.effects, remaining[..k]);
  }

  lemma {:induction false} RemainingSorted(names: seq<string>, recorded: set<string>)
    requires Sorted(names)
    ensures Sorted(Remaining(names, recorded))
  {
    if names != [] {
      RemainingSorted(names[1..], recorded);
      RemainingElements(names[1..], recorded);
      var rest := Remaining(names[1..], recorded);
      forall j | 0 <= j < |rest|
        ensures Less(names[0], rest[j])
      {
        assert rest[j] in Elements(rest) && rest[j] in names[1..];
      }
    }
  }

  /**
   * Over any number of starts of any releases, with crashes anywhere: each
   * migration has taken effect exactly if it is recorded, and then once; and a
   * successful start has every migration of its release.
   */
  lemma {:induction false} EffectsAreRecordedOnce(schemas: seq<Schema>, starts: seq<Start>, n: nat)
    requires Starts(schemas, starts) && n <= |starts|
    ensures RecordedOnce(schemas[n])
    ensures n > 0 && starts[n - 1].ok ==> Elements(starts[n - 1].names) <= schemas[n].recorded
  {
    if n > 0 {
      EffectsAreRecordedOnce(schemas, starts, n - 1);
      StepEffects(starts[n - 1].names, schemas[n - 1], schemas[n], starts[n - 1].ok);
    }
  }

  lemma {:induction false} RemainingOfPrefix(names: seq<string>, k: nat)
    requires NoDuplicates(names) && k <= |names|
    ensures Remaining(names, Elements(names[..k])) == names[k..]
  {
    var done, rest := names[..k], names[k..];
    assert names == done + rest;
    RemainingAppend(done, rest, Elements(done));
    AllRecorded(done, Elements(done));
    NoneRecorded(rest, Elements(done));
  }

  lemma {:induction false} AllRecorded(names: seq<string>, recorded: set<string>)
    requires Elements(names) <= recorded
    ensures Remaining(names, recorded) == []
  {
    if names != [] {
      assert names[0] in Elements(names);
      assert forall x | x in names[1..] :: x in Elements(names);
      AllRecorded(names[1..], recorded);
    }
  }

  lemma {:induction false} NoneRecorded(names: seq<string>, recorded: set<string>)
    requires forall name | name in names :: name !in recorded
    ensures Remaining(names, recorded) == names
  {
    if names != [] {
      assert names[0] in names;
      NoneRecorded(names[1..], recorded);
      assert names == [names[0]] + names[1..];
    }
  }

  /** Upgrades only add migrations that sort after all earlier ones. */
  ghost predicate Upgrades(starts: seq<Start>) {
    forall i | 0 <= i < |starts| - 1 :: starts[i].names <= starts[i + 1].names
  }

  /**
   * With such upgrades the migrations in effect are always a prefix of the
   * release's sorted names, and all of them after a success.
   */
  lemma {:induction false} EffectsAreAPrefix(schemas: seq<Schema>, starts: seq<Start>, n: nat)
    requires Starts(schemas, starts) && Upgrades(starts) && 0 < n <= |starts|
    ensures schemas[n].effects <= starts[n - 1].names
    ensures starts[n - 1].ok ==> schemas[n].effects == starts[n - 1].names
  {
    var names, s, s' := starts[n - 1].names, schemas[n - 1], schemas[n];
    if n > 1 {
      EffectsAreAPrefix(schemas, starts, n - 1);
      assert starts[n - 2].names <= names;
    }
    EffectsAreRecordedOnce(schemas, starts, n - 1);
    SortedHasNoDuplicates(names);
    RemainingOfPrefix(names, |s.effects|);
    assert s.effects == names[..|s.effects|];
  }

  /** After a success, starting the same release again changes nothing. */
  lemma AnotherRunChangesNothing(names: seq<string>, s: Schema, s': Schema, ok: bool)
    requires RecordedOnce(s) && s.hasTable && Elements(names) <= s.recorded
    requires MigrateStep(names, s, s', ok)
    ensures s' == s
  {
    AllRecorded(names, s.recorded);
  }

  /** A release that adds only names sorting after the earlier ones extends the sorted list at its end. */
  lemma LaterNamesExtendTheList(names: seq<string>, added: seq<string>)
    requires NoDuplicates(names) && NoDuplicates(added) && NoDuplicates(names + added)
    requires forall a, b | a in names && b in added :: Less(a, b)
    ensures Sort(names + added) == Sort(names) + Sort(added)
    ensures Sort(names) <= Sort(names + added)
  {
    SortSorts(names);
    SortSorts(added);
    SortSorts(names + added);
    var joined := Sort(names) + Sort(added);
    assert Elements(joined) == Elements(Sort(names)) + Elements(Sort(added)) == Elements(names + added);
    forall i, j | 0 <= i < j < |joined|
      ensures Less(joined[i], joined[j])
    {
      if i < |Sort(names)| <= j {
        assert joined[i] in Elements(Sort(names)) && joined[j] in Elements(Sort(added));
      }
    }
    SortedIsUnique(Sort(names + added), joined);
  }
}
