/**
 * What the sorted step list says about the schemas: which steps a created,
 * dropped, altered or redefined table yields, where renamed indexes go,
 * which indexes are dropped, and that the order in which the passes push
 * their steps never matters.
 */
module StepProperties {
  import opened Wrappers
  import opened SqlSchema
  import opened SqlFlavour
  import opened SqlMigration
  import opened Sorting
  import opened Matching
  import opened TableDiffer
  import opened StepBuilders
  import opened SchemaDiffer

  // ---- where each kind of step comes from ----

  /** Each pass pushes only the kinds of step it is responsible for. */
  ghost predicate PassKinds(p: Passes) {
    && (forall s :: s in p.createTables ==> s.CreateTable? || s.AddForeignKey?)
    && (forall s :: s in p.dropTables ==> s.DropTable? || s.DropForeignKey?)
    && (forall s :: s in p.dropIndexes ==> s.DropIndex?)
    && (forall s :: s in p.createIndexes ==> s.CreateIndex?)
    && (forall s :: s in p.alteredTables ==> s.AddForeignKey? || s.DropForeignKey? || s.DropIndex? || s.CreateIndex? || s.AlterTable?)
    && (forall s :: s in p.createEnums ==> s.CreateEnum?)
    && (forall s :: s in p.dropEnums ==> s.DropEnum?)
    && (forall s :: s in p.alterEnums ==> s.AlterEnumStep?)
    && (forall s :: s in p.redefineTables ==> s.RedefineTables?)
    && (forall s :: s in p.alterIndexes ==> s.AlterIndex?)
    && (forall s :: s in p.redefineIndexes ==> s.RedefineIndex?)
  }

  /** A step occurs among all the passes' steps as often as it occurs in the passes together. */
  lemma AllCount(p: Passes, s: Step)
    ensures multiset(p.All())[s] ==
      multiset(p.createTables)[s] + multiset(p.dropTables)[s] + multiset(p.dropIndexes)[s] + multiset(p.createIndexes)[s]
      + multiset(p.alteredTables)[s] + multiset(p.createEnums)[s] + multiset(p.dropEnums)[s] + multiset(p.alterEnums)[s]
      + multiset(p.redefineTables)[s] + multiset(p.alterIndexes)[s] + multiset(p.redefineIndexes)[s]
  {
  }

  lemma PassesWithKinds(d: Differ, dropIndexes: seq<Step>)
    requires forall s :: s in dropIndexes ==> s.DropIndex?
    ensures PassKinds(PassesWith(d, dropIndexes))
  {
  }

  lemma Absent(xs: seq<Step>, s: Step)
    requires s !in xs
    ensures multiset(xs)[s] == 0
  {
  }

  /** A step found in the created-tables pass only occurs there. */
  lemma OnlyInCreateTables(p: Passes, s: Step)
    requires s !in p.dropTables && s !in p.dropIndexes && s !in p.createIndexes && s !in p.alteredTables
    requires s !in p.createEnums && s !in p.dropEnums && s !in p.alterEnums
    requires s !in p.redefineTables && s !in p.alterIndexes && s !in p.redefineIndexes
    ensures multiset(p.All())[s] == multiset(p.createTables)[s]
  {
    Absent(p.dropTables, s); Absent(p.dropIndexes, s); Absent(p.createIndexes, s); Absent(p.alteredTables, s);
    Absent(p.createEnums, s); Absent(p.dropEnums, s); Absent(p.alterEnums, s);
    Absent(p.redefineTables, s); Absent(p.alterIndexes, s); Absent(p.redefineIndexes, s);
    AllCount(p, s);
  }

  /** A table is created only by the created-tables pass. */
  lemma CreateTableCount(p: Passes, s: Step)
    requires PassKinds(p) && s.CreateTable?
    ensures multiset(p.All())[s] == multiset(p.createTables)[s]
  {
    assert s !in p.dropTables && s !in p.dropIndexes && s !in p.createIndexes && s !in p.alteredTables;
    assert s !in p.createEnums && s !in p.dropEnums && s !in p.alterEnums;
    assert s !in p.redefineTables && s !in p.alterIndexes && s !in p.redefineIndexes;
    OnlyInCreateTables(p, s);
  }

  /** A table is dropped only by the dropped-tables pass. */
  lemma DropTableCount(p: Passes, s: Step)
    requires PassKinds(p) && s.DropTable?
    ensures multiset(p.All())[s] == multiset(p.dropTables)[s]
  {
    assert s !in p.createTables && s !in p.dropIndexes && s !in p.createIndexes && s !in p.alteredTables;
    assert s !in p.createEnums && s !in p.dropEnums && s !in p.alterEnums;
    assert s !in p.redefineTables && s !in p.alterIndexes && s !in p.redefineIndexes;
    Absent(p.createTables, s); Absent(p.dropIndexes, s); Absent(p.createIndexes, s); Absent(p.alteredTables, s);
    Absent(p.createEnums, s); Absent(p.dropEnums, s); Absent(p.alterEnums, s);
    Absent(p.redefineTables, s); Absent(p.alterIndexes, s); Absent(p.redefineIndexes, s);
    AllCount(p, s);
  }

  /** Which passes a step of each kind can come from. */
  lemma PassMembers(p: Passes, s: Step)
    requires PassKinds(p)
    ensures s.CreateTable? ==> (s in p.All() <==> s in p.createTables)
    ensures s.DropTable? ==> (s in p.All() <==> s in p.dropTables)
    ensures s.AddForeignKey? ==> (s in p.All() <==> s in p.createTables || s in p.alteredTables)
    ensures s.DropForeignKey? ==> (s in p.All() <==> s in p.dropTables || s in p.alteredTables)
    ensures s.DropIndex? ==> (s in p.All() <==> s in p.dropIndexes || s in p.alteredTables)
    ensures s.CreateIndex? ==> (s in p.All() <==> s in p.createIndexes || s in p.alteredTables)
    ensures s.AlterTable? ==> (s in p.All() <==> s in p.alteredTables)
    ensures s.CreateEnum? ==> (s in p.All() <==> s in p.createEnums)
    ensures s.DropEnum? ==> (s in p.All() <==> s in p.dropEnums)
    ensures s.AlterEnumStep? ==> (s in p.All() <==> s in p.alterEnums)
    ensures s.RedefineTables? ==> (s in p.All() <==> s in p.redefineTables)
    ensures s.AlterIndex? ==> (s in p.All() <==> s in p.alterIndexes)
    ensures s.RedefineIndex? ==> (s in p.All() <==> s in p.redefineIndexes)
  {
  }

  lemma SameCountSameMember(q: seq<Step>, r: seq<Step>, s: Step)
    requires multiset(q)[s] == multiset(r)[s]
    ensures s in q <==> s in r
  {
  }

  /** A step is in the result exactly when some pass pushed it. */
  lemma CalculatedHasPushed(d: Differ, s: Step)
    ensures s in CalculateSteps(d) <==> s in Pushed(d)
  {
    assert multiset(CalculateSteps(d))[s] == multiset(Pushed(d))[s];
    SameCountSameMember(CalculateSteps(d), Pushed(d), s);
  }

  /** Which passes a step of each kind in the result can come from. */
  lemma CalculatedMembers(d: Differ, s: Step)
    ensures s.CreateTable? ==> (s in CalculateSteps(d) <==> s in PushCreateTables(d))
    ensures s.DropTable? ==> (s in CalculateSteps(d) <==> s in DropTables(d))
    ensures s.AddForeignKey? ==> (s in CalculateSteps(d) <==> s in PushCreateTables(d) || s in PushAlteredTables(d))
    ensures s.DropForeignKey? ==> (s in CalculateSteps(d) <==> s in DropTables(d) || s in PushAlteredTables(d))
    ensures s.DropIndex? ==> (s in CalculateSteps(d) <==> s in DropIndexes(d) || s in PushAlteredTables(d))
    ensures s.CreateIndex? ==> (s in CalculateSteps(d) <==> s in PushCreateIndexes(d) || s in PushAlteredTables(d))
    ensures s.AlterTable? ==> (s in CalculateSteps(d) <==> s in PushAlteredTables(d))
    ensures s.CreateEnum? ==> (s in CalculateSteps(d) <==> s in CreateEnumSteps(d))
    ensures s.DropEnum? ==> (s in CalculateSteps(d) <==> s in DropEnumSteps(d))
    ensures s.AlterEnumStep? ==> (s in CalculateSteps(d) <==> s in AlterEnumSteps(d))
    ensures s.RedefineTables? ==> (s in CalculateSteps(d) <==> s in RedefineTablesSteps(d))
    ensures s.AlterIndex? ==> (s in CalculateSteps(d) <==> s in AlterIndexSteps(d))
    ensures s.RedefineIndex? ==> (s in CalculateSteps(d) <==> s in RedefineIndexSteps(d))
  {
    CalculatedHasPushed(d, s);
    PushedMembers(d, s);
  }

  lemma PushedMembers(d: Differ, s: Step)
    ensures s.CreateTable? ==> (s in Pushed(d) <==> s in PushCreateTables(d))
    ensures s.DropTable? ==> (s in Pushed(d) <==> s in DropTables(d))
    ensures s.AddForeignKey? ==> (s in Pushed(d) <==> s in PushCreateTables(d) || s in PushAlteredTables(d))
    ensures s.DropForeignKey? ==> (s in Pushed(d) <==> s in DropTables(d) || s in PushAlteredTables(d))
    ensures s.DropIndex? ==> (s in Pushed(d) <==> s in DropIndexes(d) || s in PushAlteredTables(d))
    ensures s.CreateIndex? ==> (s in Pushed(d) <==> s in PushCreateIndexes(d) || s in PushAlteredTables(d))
    ensures s.AlterTable? ==> (s in Pushed(d) <==> s in PushAlteredTables(d))
    ensures s.CreateEnum? ==> (s in Pushed(d) <==> s in CreateEnumSteps(d))
    ensures s.DropEnum? ==> (s in Pushed(d) <==> s in DropEnumSteps(d))
    ensures s.AlterEnumStep? ==> (s in Pushed(d) <==> s in AlterEnumSteps(d))
    ensures s.RedefineTables? ==> (s in Pushed(d) <==> s in RedefineTablesSteps(d))
    ensures s.AlterIndex? ==> (s in Pushed(d) <==> s in AlterIndexSteps(d))
    ensures s.RedefineIndex? ==> (s in Pushed(d) <==> s in RedefineIndexSteps(d))
  {
    PassesWithKinds(d, DropIndexes(d));
    PassMembers(PassesWith(d, DropIndexes(d)), s);
  }

  // ---- created and dropped tables ----

  lemma CreatedTableStepsCount(d: Differ, t: nat, j: nat)
    requires t < |d.NextTables()|
    ensures multiset(CreatedTableSteps(d, t))[CreateTable(j)] == if t == j then 1 else 0
  {
    var fks := if d.flavour.shouldPushForeignKeysFromCreatedTables then AddForeignKeys(t, Range(|d.NextTables()[t].foreignKeys|)) else [];
    Absent(fks, CreateTable(j));
  }

  lemma PushCreateTablesCount(d: Differ, j: nat)
    ensures multiset(PushCreateTables(d))[CreateTable(j)] == if TableCreated(d, j) then 1 else 0
  {
    var ts, blocks := CreatedTables(d), CreatedTablesBlocks(d);
    var counts: seq<nat> := seq(|ts|, k requires 0 <= k < |ts| => if ts[k] == j then 1 else 0);
    forall k | 0 <= k < |blocks|
      ensures multiset(blocks[k])[CreateTable(j)] == counts[k]
    {
      CreatedTableStepsCount(d, ts[k], j);
    }
    FlattenCount(blocks, CreateTable(j), counts);
    SumOfIndicators(ts, j, counts);
  }

  lemma DroppedTableStepsCount(d: Differ, t: nat, i: nat)
    requires t < |d.PreviousTables()|
    ensures multiset(DroppedTableSteps(d, t))[DropTable(i)] == if t == i then 1 else 0
  {
    var fks := if d.flavour.shouldDropForeignKeysFromDroppedTables then DropForeignKeys(t, Range(|d.PreviousTables()[t].foreignKeys|)) else [];
    Absent(fks, DropTable(i));
  }

  lemma DropTablesCount(d: Differ, i: nat)
    ensures multiset(DropTables(d))[DropTable(i)] == if TableDropped(d, i) then 1 else 0
  {
    var ts, blocks := DroppedTables(d), DroppedTablesBlocks(d);
    var counts: seq<nat> := seq(|ts|, k requires 0 <= k < |ts| => if ts[k] == i then 1 else 0);
    forall k | 0 <= k < |blocks|
      ensures multiset(blocks[k])[DropTable(i)] == counts[k]
    {
      DroppedTableStepsCount(d, ts[k], i);
    }
    FlattenCount(blocks, DropTable(i), counts);
    SumOfIndicators(ts, i, counts);
  }

  /** Each created table is created exactly once, and no other next table is. */
  lemma CreatedTablesCreatedOnce(d: Differ, j: nat)
    ensures multiset(CalculateSteps(d))[CreateTable(j)] == if TableCreated(d, j) then 1 else 0
  {
    PassesWithKinds(d, DropIndexes(d));
    CreateTableCount(PassesWith(d, DropIndexes(d)), CreateTable(j));
    PushCreateTablesCount(d, j);
  }

  /** Each dropped table is dropped exactly once, and no other previous table is. */
  lemma DroppedTablesDroppedOnce(d: Differ, i: nat)
    ensures multiset(CalculateSteps(d))[DropTable(i)] == if TableDropped(d, i) then 1 else 0
  {
    PassesWithKinds(d, DropIndexes(d));
    DropTableCount(PassesWith(d, DropIndexes(d)), DropTable(i));
    DropTablesCount(d, i);
  }

  // ---- table pairs ----

  /** Tables present in both schemas are neither created nor dropped. */
  lemma PairedTablesKept(d: Differ, td: TableDiffer)
    requires td in TableDiffers(d)
    ensures !TableCreated(d, td.tableIds.next) && !TableDropped(d, td.tableIds.previous)
  {
    var k :| 0 <= k < |TableDiffers(d)| && TableDiffers(d)[k] == td;
    assert td.tableIds == TablePairs(d)[k];
  }

  /**
   * Foreign keys added or dropped while altering a table pair belong to the
   * pair's next or previous table, which is therefore neither created nor
   * dropped.
   */
  lemma AlteredForeignKeyTables(d: Differ, s: Step)
    ensures s in PushAlteredTables(d) && s.AddForeignKey? ==> !TableCreated(d, s.tableId)
    ensures s in PushAlteredTables(d) && s.DropForeignKey? ==> !TableDropped(d, s.tableId)
  {
    if s in PushAlteredTables(d) && (s.AddForeignKey? || s.DropForeignKey?) {
      var td := AlteredOrigin(d, s);
      AlteredForeignKeyTable(d, td, s);
    }
  }

  /** The table pair a step of the altered-tables pass comes from. */
  lemma AlteredOrigin(d: Differ, s: Step) returns (td: TableDiffer)
    requires s in PushAlteredTables(d)
    ensures td in AlteredTableDiffers(d) && s in AlteredTableSteps(td)
  {
    td :| td in AlteredTableDiffers(d) && s in AlteredTableSteps(td);
  }

  lemma AlteredForeignKeyTable(d: Differ, td: TableDiffer, s: Step)
    requires td in AlteredTableDiffers(d) && s in AlteredTableSteps(td)
    ensures s.AddForeignKey? ==> !TableCreated(d, s.tableId)
    ensures s.DropForeignKey? ==> !TableDropped(d, s.tableId)
  {
    if s.AddForeignKey? || s.DropForeignKey? {
      ForeignKeyStepsMembers(td, s);
      PairedTablesKept(d, td);
    }
  }

  /**
   * The foreign keys of a created table are added exactly when the dialect
   * adds them separately from the table, each one.
   */
  lemma CreatedTableForeignKeys(d: Differ, j: nat, k: nat)
    requires TableCreated(d, j)
    ensures AddForeignKey(j, k) in CalculateSteps(d) <==>
      d.flavour.shouldPushForeignKeysFromCreatedTables && k < |d.NextTables()[j].foreignKeys|
  {
    CalculatedMembers(d, AddForeignKey(j, k));
    CreatedForeignKeyPasses(d, j, k);
  }

  lemma CreatedForeignKeyPasses(d: Differ, j: nat, k: nat)
    requires TableCreated(d, j)
    ensures AddForeignKey(j, k) in PushCreateTables(d) || AddForeignKey(j, k) in PushAlteredTables(d) <==>
      d.flavour.shouldPushForeignKeysFromCreatedTables && k < |d.NextTables()[j].foreignKeys|
  {
    AlteredForeignKeyTables(d, AddForeignKey(j, k));
    assert AddForeignKey(j, k) in PushCreateTables(d) <==> CreatedTablesStep(d, AddForeignKey(j, k));
  }

  /**
   * The foreign keys of a dropped table are dropped exactly when the dialect
   * wants them dropped separately from the table, each one.
   */
  lemma DroppedTableForeignKeys(d: Differ, i: nat, k: nat)
    requires TableDropped(d, i)
    ensures DropForeignKey(i, k) in CalculateSteps(d) <==>
      d.flavour.shouldDropForeignKeysFromDroppedTables && k < |d.PreviousTables()[i].foreignKeys|
  {
    CalculatedMembers(d, DropForeignKey(i, k));
    DroppedForeignKeyPasses(d, i, k);
  }

  lemma DroppedForeignKeyPasses(d: Differ, i: nat, k: nat)
    requires TableDropped(d, i)
    ensures DropForeignKey(i, k) in DropTables(d) || DropForeignKey(i, k) in PushAlteredTables(d) <==>
      d.flavour.shouldDropForeignKeysFromDroppedTables && k < |d.PreviousTables()[i].foreignKeys|
  {
    AlteredForeignKeyTables(d, DropForeignKey(i, k));
    assert DropForeignKey(i, k) in DropTables(d) <==> DroppedTablesStep(d, DropForeignKey(i, k));
  }

  // ---- altered and redefined tables ----

  /** A table pair is identified by its table ids. */
  lemma TableDiffersByIds(d: Differ, td1: TableDiffer, td2: TableDiffer)
    requires td1 in TableDiffers(d) && td2 in TableDiffers(d)
    ensures td1 != td2 ==> td1.tableIds != td2.tableIds
  {
    var k1 :| 0 <= k1 < |TableDiffers(d)| && TableDiffers(d)[k1] == td1;
    var k2 :| 0 <= k2 < |TableDiffers(d)| && TableDiffers(d)[k2] == td2;
  }

  /** Each pair altered in place with something to change yields its `AlterTable` step. */
  lemma AlteredTableInPass(d: Differ, td: TableDiffer)
    requires td in AlteredTableDiffers(d) && |TableChanges(td)| != 0
    ensures AlterTable(td.tableIds, TableChanges(td)) in PushAlteredTables(d)
  {
    var blocks := AlteredTableBlocks(d);
    var k :| 0 <= k < |AlteredTableDiffers(d)| && AlteredTableDiffers(d)[k] == td;
    assert AlterTable(td.tableIds, TableChanges(td)) in blocks[k];
    FlattenMember(blocks, AlterTable(td.tableIds, TableChanges(td)));
  }

  /** Each `AlterTable` step of the altered-tables pass comes from a pair altered in place with something to change. */
  lemma AlterTableInPassOrigin(d: Differ, s: Step)
    requires s in PushAlteredTables(d) && s.AlterTable?
    ensures exists td :: td in AlteredTableDiffers(d) && |TableChanges(td)| != 0 && s == AlterTable(td.tableIds, TableChanges(td))
  {
    var td :| td in AlteredTableDiffers(d) && s in AlteredTableSteps(td);
  }

  /**
   * The result alters a table in place exactly for the table pairs that the
   * dialect does not redefine and that have changes, with those changes.
   */
  lemma AlterTableSteps(d: Differ, s: Step)
    requires s.AlterTable?
    ensures s in CalculateSteps(d) <==>
      exists td :: td in TableDiffers(d) && !IsRedefined(d, td) && |TableChanges(td)| != 0 && s == AlterTable(td.tableIds, TableChanges(td))
  {
    CalculatedMembers(d, s);
    if s in PushAlteredTables(d) {
      AlterTableInPassOrigin(d, s);
    }
    if exists td :: td in TableDiffers(d) && !IsRedefined(d, td) && |TableChanges(td)| != 0 && s == AlterTable(td.tableIds, TableChanges(td)) {
      var td :| td in TableDiffers(d) && !IsRedefined(d, td) && |TableChanges(td)| != 0 && s == AlterTable(td.tableIds, TableChanges(td));
      AlteredTableInPass(d, td);
    }
  }

  /** A redefined table pair is never altered in place. */
  lemma RedefinedTableNotAltered(d: Differ, td: TableDiffer, s: Step)
    requires td in TableDiffers(d) && IsRedefined(d, td)
    requires s in CalculateSteps(d) && s.AlterTable?
    ensures s.tableIds != td.tableIds
  {
    AlterTableSteps(d, s);
    var altered :| altered in TableDiffers(d) && !IsRedefined(d, altered) && |TableChanges(altered)| != 0
      && s == AlterTable(altered.tableIds, TableChanges(altered));
    TableDiffersByIds(d, altered, td);
  }

  /** A set of redefined tables is rebuilt only by the redefined-tables pass. */
  lemma RedefineTablesCount(p: Passes, s: Step)
    requires PassKinds(p) && s.RedefineTables?
    ensures multiset(p.All())[s] == multiset(p.redefineTables)[s]
  {
    assert s !in p.createTables && s !in p.dropTables && s !in p.dropIndexes && s !in p.createIndexes;
    assert s !in p.alteredTables && s !in p.createEnums && s !in p.dropEnums && s !in p.alterEnums;
    assert s !in p.alterIndexes && s !in p.redefineIndexes;
    Absent(p.createTables, s); Absent(p.dropTables, s); Absent(p.dropIndexes, s); Absent(p.createIndexes, s);
    Absent(p.alteredTables, s); Absent(p.createEnums, s); Absent(p.dropEnums, s); Absent(p.alterEnums, s);
    Absent(p.alterIndexes, s); Absent(p.redefineIndexes, s);
    AllCount(p, s);
  }

  lemma RedefineTablesPassOnce(d: Differ, s: Step)
    requires 0 < multiset(RedefineTablesSteps(d))[s]
    ensures multiset(RedefineTablesSteps(d))[s] == 1
  {
  }

  /** A `RedefineTables` step in the result occurs there once. */
  lemma RedefineTablesOnce(d: Differ, s: Step)
    requires s in CalculateSteps(d) && s.RedefineTables?
    ensures multiset(CalculateSteps(d))[s] == 1
  {
    PassesWithKinds(d, DropIndexes(d));
    RedefineTablesCount(PassesWith(d, DropIndexes(d)), s);
    RedefineTablesPassOnce(d, s);
  }

  /**
   * A `RedefineTables` step in the result lists the rebuild of every
   * redefined table pair and nothing else, and there is at least one.
   */
  lemma RedefineTablesStep(d: Differ, s: Step)
    requires s in CalculateSteps(d) && s.RedefineTables?
    ensures forall x :: x in s.redefined <==> exists td :: td in TableDiffers(d) && IsRedefined(d, td) && x == RedefineTableOf(td)
    ensures exists td :: td in TableDiffers(d) && IsRedefined(d, td)
  {
    CalculatedMembers(d, s);
    RedefineTablesPassStep(d, s);
  }

  lemma RedefineTablesPassStep(d: Differ, s: Step)
    requires s in RedefineTablesSteps(d)
    ensures forall x :: x in s.redefined <==> exists td :: td in TableDiffers(d) && IsRedefined(d, td) && x == RedefineTableOf(td)
    ensures exists td :: td in TableDiffers(d) && IsRedefined(d, td)
  {
  }

  /** When some table pair is redefined, the result rebuilds tables. */
  lemma RedefinedTablesRebuilt(d: Differ, td: TableDiffer)
    requires td in TableDiffers(d) && IsRedefined(d, td)
    ensures exists s :: s in CalculateSteps(d) && s.RedefineTables?
  {
    assert td in RedefinedTableDiffers(d);
    var s := RedefineTablesSteps(d)[0];
    RedefineTablesPushed(d, s);
    CalculatedHasPushed(d, s);
  }

  lemma RedefineTablesPushed(d: Differ, s: Step)
    requires s in RedefineTablesSteps(d)
    ensures s in Pushed(d)
  {
    InRedefineTables(PassesWith(d, DropIndexes(d)), s);
  }

  lemma InRedefineTables(p: Passes, s: Step)
    requires s in p.redefineTables
    ensures s in p.All()
  {
  }

  // ---- renamed indexes ----

  /**
   * Every paired index whose name changed, in a table altered in place, is
   * renamed in exactly one way: with `AlterIndex` when the dialect can alter
   * an index, with `RedefineIndex` otherwise. Nothing else is renamed.
   */
  lemma IndexRenameSteps(d: Differ, s: Step)
    requires s.AlterIndex? || s.RedefineIndex?
    ensures s in CalculateSteps(d) <==>
      && s.AlterIndex? == d.flavour.canAlterIndex
      && exists td :: td in TableDiffers(d) && !IsRedefined(d, td) && s.tables == td.tableIds
           && s.indexes in IndexPairs(td) && IndexRenamedAt(td, s.indexes)
  {
    CalculatedMembers(d, s);
    RenamePassMembers(d, s);
  }

  lemma RenamePassMembers(d: Differ, s: Step)
    requires s.AlterIndex? || s.RedefineIndex?
    ensures (if s.AlterIndex? then s in AlterIndexSteps(d) else s in RedefineIndexSteps(d)) <==>
      && s.AlterIndex? == d.flavour.canAlterIndex
      && exists td :: td in TableDiffers(d) && !IsRedefined(d, td) && s.tables == td.tableIds
           && s.indexes in IndexPairs(td) && IndexRenamedAt(td, s.indexes)
  {
    var x := IndexRename(s.tables, s.indexes);
    assert x in AlterIndexes(d) <==> exists td :: td in AlteredTableDiffers(d) && x in PairIndexRenames(td);
  }

  /** Tables the dialect redefines never have their indexes renamed. */
  lemma RedefinedTableNotRenamed(d: Differ, td: TableDiffer, s: Step)
    requires td in TableDiffers(d) && IsRedefined(d, td)
    requires s in CalculateSteps(d) && (s.AlterIndex? || s.RedefineIndex?)
    ensures s.tables != td.tableIds
  {
    CalculatedMembers(d, s);
    RenamePassNotRedefined(d, td, s);
  }

  lemma RenamePassNotRedefined(d: Differ, td: TableDiffer, s: Step)
    requires td in TableDiffers(d) && IsRedefined(d, td)
    requires (s.AlterIndex? && s in AlterIndexSteps(d)) || (s.RedefineIndex? && s in RedefineIndexSteps(d))
    ensures s.tables != td.tableIds
  {
    RenamePassMembers(d, s);
    var renamed :| renamed in TableDiffers(d) && !IsRedefined(d, renamed) && s.tables == renamed.tableIds
      && s.indexes in IndexPairs(renamed) && IndexRenamedAt(renamed, s.indexes);
    TableDiffersByIds(d, renamed, td);
  }

  // ---- dropped indexes ----

  /** Two table pairs with the same previous table are the same pair. */
  lemma TableDiffersByPrevious(d: Differ, td1: TableDiffer, td2: TableDiffer)
    requires td1 in TableDiffers(d) && td2 in TableDiffers(d)
    ensures td1 != td2 ==> td1.tableIds.previous != td2.tableIds.previous
  {
    var k1 :| 0 <= k1 < |TableDiffers(d)| && TableDiffers(d)[k1] == td1;
    var k2 :| 0 <= k2 < |TableDiffers(d)| && TableDiffers(d)[k2] == td2;
  }

  lemma PairDropIndexCandidates(d: Differ, s: Step)
    ensures s in Flatten(PairDropIndexBlocks(d)) <==>
      exists td :: td in TableDiffers(d) && s in PairDropIndexSteps(td)
  {
    var blocks := PairDropIndexBlocks(d);
    FlattenMember(blocks, s);
    if s in Flatten(blocks) {
      var k :| 0 <= k < |blocks| && s in blocks[k];
      assert TableDiffers(d)[k] in TableDiffers(d);
    }
    if exists td :: td in TableDiffers(d) && s in PairDropIndexSteps(td) {
      var td :| td in TableDiffers(d) && s in PairDropIndexSteps(td);
      var k :| 0 <= k < |TableDiffers(d)| && TableDiffers(d)[k] == td;
      assert s in blocks[k];
    }
  }

  lemma DroppedTableIndexCandidates(d: Differ, s: Step)
    ensures s in Flatten(DroppedTableIndexBlocks(d)) <==>
      s.DropIndex? && TableDropped(d, s.tableId) && s.indexIndex < |d.PreviousTables()[s.tableId].indexes|
  {
    var blocks, ts := DroppedTableIndexBlocks(d), DroppedTables(d);
    FlattenMember(blocks, s);
    if s in Flatten(blocks) {
      var k :| 0 <= k < |blocks| && s in blocks[k];
    }
    if s.DropIndex? && TableDropped(d, s.tableId) && s.indexIndex < |d.PreviousTables()[s.tableId].indexes| {
      var k :| 0 <= k < |ts| && ts[k] == s.tableId;
      assert s in blocks[k];
    }
  }

  /**
   * The index drops the pass considers: dropped indexes of table pairs,
   * except those backing a foreign key when the dialect keeps them, and,
   * when the dialect wants it and some table is redefined, every index of a
   * dropped table.
   */
  lemma DropIndexCandidatesMembers(d: Differ, s: Step)
    ensures s in DropIndexes(d) <==>
      && s.DropIndex?
      && (|| (exists td :: td in TableDiffers(d) && s.tableId == td.tableIds.previous
                && IndexDropped(td, s.indexIndex) && !KeepsFkIndex(td, s.indexIndex))
          || (DropsIndexesOfDroppedTables(d) && TableDropped(d, s.tableId) && s.indexIndex < |d.PreviousTables()[s.tableId].indexes|))
  {
    PairDropIndexCandidates(d, s);
    DroppedTableIndexCandidates(d, s);
  }

  /** A dropped table's indexes are dropped, each, exactly when the dialect wants it and some table is redefined. */
  lemma DroppedTableIndexesDropped(d: Differ, t: nat, i: nat)
    requires TableDropped(d, t)
    ensures DropIndex(t, i) in DropIndexes(d) <==> DropsIndexesOfDroppedTables(d) && i < |d.PreviousTables()[t].indexes|
  {
    DropIndexCandidatesMembers(d, DropIndex(t, i));
  }

  /**
   * An index of a table pair that the next table no longer has is dropped,
   * unless it backs a foreign key and the dialect drops such indexes only
   * with the key.
   */
  lemma PairIndexesDropped(d: Differ, td: TableDiffer, i: nat)
    requires td in TableDiffers(d) && IndexDropped(td, i)
    ensures DropIndex(td.tableIds.previous, i) in DropIndexes(d) <==> !KeepsFkIndex(td, i)
  {
    var s := DropIndex(td.tableIds.previous, i);
    DropIndexCandidatesMembers(d, s);
    PairedTablesKept(d, td);
    if exists other :: other in TableDiffers(d) && s.tableId == other.tableIds.previous && IndexDropped(other, i) && !KeepsFkIndex(other, i) {
      var other :| other in TableDiffers(d) && s.tableId == other.tableIds.previous && IndexDropped(other, i) && !KeepsFkIndex(other, i);
      TableDiffersByPrevious(d, other, td);
    }
  }

  // ---- created indexes ----

  /**
   * The created-indexes pass creates the indexes of created tables that the
   * dialect does not skip, when it creates them apart from the table, and
   * for each table pair altered in place its new indexes and, on dialects
   * that want it, its paired indexes touching a recreated column.
   */
  lemma PushCreateIndexesMembers(d: Differ, s: Step)
    ensures s in PushCreateIndexes(d) <==>
      && s.CreateIndex?
      && (|| (d.flavour.shouldCreateIndexesFromCreatedTables && s.previousTableId.None?
                && TableCreated(d, s.tableId) && CreatesIndexOfNewTable(d, s.tableId, s.indexIndex))
          || (exists td :: td in AlteredTableDiffers(d)
                && s.previousTableId == Some(td.tableIds.previous) && s.tableId == td.tableIds.next
                && (IndexCreated(td, s.indexIndex) || (td.flavour.indexesShouldBeRecreatedAfterColumnDrop && IndexRecreated(td, s.indexIndex)))))
  {
    assert s in PushCreateIndexes(d) <==> CreatedIndexesStep(d, s);
  }

  /** Index creations of the altered-tables pass name a previous table. */
  lemma AlteredCreateIndexHasPrevious(d: Differ, s: Step)
    requires s in PushAlteredTables(d) && s.CreateIndex?
    ensures s.previousTableId.Some?
  {
    var td := AlteredOrigin(d, s);
    AlteredIndexStep(td, s);
  }

  /** The index steps of an altered table pair drop indexes of its previous table and create indexes of its next one. */
  lemma AlteredIndexStep(td: TableDiffer, s: Step)
    requires s in AlteredTableSteps(td) && (s.DropIndex? || s.CreateIndex?)
    ensures PairIndexStep(td, s)
  {
    var ix := IndexChangesForColumns(td);
    assert s in ix;
  }

  /**
   * An index of a created table is created, with no previous table, exactly
   * when the dialect creates such indexes apart from the table and does
   * not skip this one.
   */
  lemma CreatedTableIndexesCreated(d: Differ, t: nat, i: nat)
    requires TableCreated(d, t)
    ensures CreateIndex(None, t, i) in CalculateSteps(d) <==>
      d.flavour.shouldCreateIndexesFromCreatedTables && CreatesIndexOfNewTable(d, t, i)
  {
    var s := CreateIndex(None, t, i);
    CalculatedMembers(d, s);
    if s in PushAlteredTables(d) {
      AlteredCreateIndexHasPrevious(d, s);
    }
    PushCreateIndexesMembers(d, s);
  }

  /**
   * In a table pair altered in place, every new index is created, and so
   * is every paired index touching a recreated column on dialects that
   * want it.
   */
  lemma PairIndexesCreated(d: Differ, td: TableDiffer, j: nat)
    requires td in AlteredTableDiffers(d)
    requires IndexCreated(td, j) || (td.flavour.indexesShouldBeRecreatedAfterColumnDrop && IndexRecreated(td, j))
    ensures CreateIndex(Some(td.tableIds.previous), td.tableIds.next, j) in CalculateSteps(d)
  {
    var s := CreateIndex(Some(td.tableIds.previous), td.tableIds.next, j);
    PushCreateIndexesMembers(d, s);
    CalculatedMembers(d, s);
  }

  // ---- push order ----

  /** Sorting makes the result independent of the order in which the passes push their steps. */
  lemma PushOrderIrrelevant(d: Differ, pushed: seq<Step>)
    requires multiset(pushed) == multiset(Pushed(d))
    ensures SortSteps(pushed) == CalculateSteps(d)
  {
    SortStepsIgnoresOrder(pushed, Pushed(d));
  }

  /**
   * The index drops, collected in a hash set by the source, may come out in
   * any order without changing the result.
   */
  lemma DropIndexOrderIrrelevant(d: Differ, order: seq<Step>)
    requires NoDuplicates(order)
    requires forall s :: s in order <==> s in DropIndexCandidates(d)
    ensures SortSteps(PassesWith(d, order).All()) == CalculateSteps(d)
  {
    SameElementsSameMultiset(order, DropIndexes(d));
    SortStepsIgnoresOrder(PassesWith(d, order).All(), Pushed(d));
  }
}
