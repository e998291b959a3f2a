/**
 * The schema differ: from a pair of schemas and a dialect flavour to the
 * sorted list of migration steps. Each `...Steps` function below is one of
 * the passes that push onto the step list; `Pushed` concatenates them in the
 * order the passes run and `CalculateSteps` sorts the result.
 */
module SchemaDiffer {
  import opened Wrappers
  import opened SqlSchema
  import opened SqlFlavour
  import opened SqlMigration
  import opened Matching
  import opened TableDiffer
  import opened StepBuilders

  /**
   * The two schemas, the dialect, and the names of the next-schema tables the
   * dialect has chosen to rebuild rather than alter in place (its answer to
   * `tables_to_redefine`, which inspects the whole differ).
   */
  datatype Differ = Differ(schemas: Pair<Schema>, flavour: Flavour, tablesToRedefine: set<string>) {
    function PreviousTables(): seq<WfTable> { schemas.previous.tables }
    function NextTables(): seq<WfTable> { schemas.next.tables }
    function PreviousEnums(): seq<SqlEnum> { schemas.previous.enums }
    function NextEnums(): seq<SqlEnum> { schemas.next.enums }
  }

  // ---- tables ----

  function TablesMatchAt(d: Differ): (nat, nat) -> bool {
    var p, n, f := d.PreviousTables(), d.NextTables(), d.flavour;
    (i: nat, j: nat) => i < |p| && j < |n| && TableNamesMatch(f, p[i].name, n[j].name)
  }

  /** Tables present in both schemas, as (previous id, next id), in previous-id order. */
  function TablePairs(d: Differ): (r: seq<Pair<nat>>)
    ensures forall k :: 0 <= k < |r| ==>
      && r[k].previous < |d.PreviousTables()| && r[k].next < |d.NextTables()|
      && TableNamesMatch(d.flavour, d.PreviousTables()[r[k].previous].name, d.NextTables()[r[k].next].name)
    ensures forall k, j :: 0 <= k < |r| && 0 <= j < r[k].next ==>
      !TableNamesMatch(d.flavour, d.PreviousTables()[r[k].previous].name, d.NextTables()[j].name)
    ensures forall k1, k2 :: 0 <= k1 < k2 < |r| ==> r[k1].previous < r[k2].previous
    ensures forall i, j ::
      (0 <= i < |d.PreviousTables()| && 0 <= j < |d.NextTables()| && TableNamesMatch(d.flavour, d.PreviousTables()[i].name, d.NextTables()[j].name)) ==>
      exists k :: 0 <= k < |r| && r[k].previous == i
  {
    TablePairsByName(d);
    PairFirstMatches(|d.PreviousTables()|, |d.NextTables()|, TablesMatchAt(d))
  }

  /** The first-match pairing of the table positions, restated with table names. */
  lemma TablePairsByName(d: Differ)
    ensures var p, n, r := d.PreviousTables(), d.NextTables(), PairFirstMatches(|d.PreviousTables()|, |d.NextTables()|, TablesMatchAt(d));
      && (forall k, j :: 0 <= k < |r| && 0 <= j < r[k].next ==> !TableNamesMatch(d.flavour, p[r[k].previous].name, n[j].name))
      && (forall i, j :: 0 <= i < |p| && 0 <= j < |n| && TableNamesMatch(d.flavour, p[i].name, n[j].name) ==>
          exists k :: 0 <= k < |r| && r[k].previous == i)
  {
    var p, n := d.PreviousTables(), d.NextTables();
    var r := PairFirstMatches(|p|, |n|, TablesMatchAt(d));
    forall k, j | 0 <= k < |r| && 0 <= j < r[k].next
      ensures !TableNamesMatch(d.flavour, p[r[k].previous].name, n[j].name)
    {
      assert !TablesMatchAt(d)(r[k].previous, j);
    }
    forall i, j | 0 <= i < |p| && 0 <= j < |n| && TableNamesMatch(d.flavour, p[i].name, n[j].name)
      ensures exists k :: 0 <= k < |r| && r[k].previous == i
    {
      assert TablesMatchAt(d)(i, j);
    }
  }

  /** No previous table's name matches next table `j`. */
  predicate TableCreated(d: Differ, j: nat) {
    j < |d.NextTables()| &&
    forall i :: 0 <= i < |d.PreviousTables()| ==> !TableNamesMatch(d.flavour, d.PreviousTables()[i].name, d.NextTables()[j].name)
  }

  /** No next table's name matches previous table `i`. */
  predicate TableDropped(d: Differ, i: nat) {
    i < |d.PreviousTables()| &&
    forall j :: 0 <= j < |d.NextTables()| ==> !TableNamesMatch(d.flavour, d.PreviousTables()[i].name, d.NextTables()[j].name)
  }

  /** Next tables whose name matches no previous table. */
  function CreatedTables(d: Differ): (r: seq<nat>)
    ensures forall j: nat :: j in r <==> TableCreated(d, j)
    ensures StrictlyIncreasing(r)
  {
    var p, n := d.PreviousTables(), d.NextTables();
    assert forall i: nat, j: nat :: TablesMatchAt(d)(i, j) <==> i < |p| && j < |n| && TableNamesMatch(d.flavour, p[i].name, n[j].name);
    UnmatchedNext(|p|, |n|, TablesMatchAt(d))
  }

  /** Previous tables whose name matches no next table. */
  function DroppedTables(d: Differ): (r: seq<nat>)
    ensures forall i: nat :: i in r <==> TableDropped(d, i)
    ensures StrictlyIncreasing(r)
  {
    var p, n := d.PreviousTables(), d.NextTables();
    assert forall i: nat, j: nat :: TablesMatchAt(d)(i, j) <==> i < |p| && j < |n| && TableNamesMatch(d.flavour, p[i].name, n[j].name);
    UnmatchedPrevious(|p|, |n|, TablesMatchAt(d))
  }

  function TableDifferAt(d: Differ, tables: Pair<nat>): TableDiffer
    requires tables.previous < |d.PreviousTables()| && tables.next < |d.NextTables()|
  {
    TableDiffer(d.flavour, tables, Pair(d.PreviousTables()[tables.previous], d.NextTables()[tables.next]))
  }

  /** A table differ for each table pair, in the same order. */
  function TableDiffers(d: Differ): (r: seq<TableDiffer>)
    ensures |r| == |TablePairs(d)|
    ensures forall k :: 0 <= k < |r| ==> r[k].tableIds == TablePairs(d)[k] && r[k] == TableDifferAt(d, r[k].tableIds)
  {
    var tp := TablePairs(d);
    seq(|tp|, k requires 0 <= k < |tp| => TableDifferAt(d, tp[k]))
  }

  predicate IsRedefined(d: Differ, td: TableDiffer) {
    td.Next().name in d.tablesToRedefine
  }

  /** The table pairs altered in place: those the dialect does not redefine. */
  function AlteredTableDiffers(d: Differ): (r: seq<TableDiffer>)
    ensures forall td :: td in r <==> td in TableDiffers(d) && !IsRedefined(d, td)
  {
    Filter(TableDiffers(d), (td: TableDiffer) => !IsRedefined(d, td))
  }

  /** The table pairs the dialect redefines. */
  function RedefinedTableDiffers(d: Differ): (r: seq<TableDiffer>)
    ensures forall td :: td in r <==> td in TableDiffers(d) && IsRedefined(d, td)
  {
    Filter(TableDiffers(d), (td: TableDiffer) => IsRedefined(d, td))
  }

  // ---- created and dropped tables ----

  /** A created table, followed by its foreign keys when the dialect adds them separately. */
  function CreatedTableSteps(d: Differ, t: nat): seq<Step>
    requires t < |d.NextTables()|
  {
    [CreateTable(t)] +
    if d.flavour.shouldPushForeignKeysFromCreatedTables
    then AddForeignKeys(t, Range(|d.NextTables()[t].foreignKeys|))
    else []
  }

  function CreatedTablesBlocks(d: Differ): (r: seq<seq<Step>>)
    ensures |r| == |CreatedTables(d)|
    ensures forall k :: 0 <= k < |r| ==> r[k] == CreatedTableSteps(d, CreatedTables(d)[k])
  {
    var ts := CreatedTables(d);
    seq(|ts|, k requires 0 <= k < |ts| => CreatedTableSteps(d, ts[k]))
  }

  /** A step of the created-tables pass: a created table, or one of its foreign keys when the dialect adds them separately. */
  predicate CreatedTablesStep(d: Differ, s: Step) {
    || (s.CreateTable? && TableCreated(d, s.tableId))
    || (&& s.AddForeignKey? && d.flavour.shouldPushForeignKeysFromCreatedTables && TableCreated(d, s.tableId)
        && s.foreignKeyIndex < |d.NextTables()[s.tableId].foreignKeys|)
  }

  lemma CreatedTablesBlocksMembers(d: Differ)
    ensures forall s :: s in Flatten(CreatedTablesBlocks(d)) <==> CreatedTablesStep(d, s)
  {
    var ts, blocks := CreatedTables(d), CreatedTablesBlocks(d);
    forall s: Step
      ensures s in Flatten(blocks) <==> CreatedTablesStep(d, s)
    {
      FlattenMember(blocks, s);
      if s in Flatten(blocks) {
        var k :| 0 <= k < |blocks| && s in blocks[k];
        assert s in CreatedTableSteps(d, ts[k]);
      }
      if CreatedTablesStep(d, s) {
        var k :| 0 <= k < |ts| && ts[k] == s.tableId;
        assert s in blocks[k];
      }
    }
  }

  /** Each created table and, when the dialect adds them separately, each of its foreign keys. */
  function PushCreateTables(d: Differ): (r: seq<Step>)
    ensures forall s :: s in r <==> CreatedTablesStep(d, s)
  {
    CreatedTablesBlocksMembers(d);
    Flatten(CreatedTablesBlocks(d))
  }

  /** A dropped table, followed by drops of its foreign keys when the dialect wants them. */
  function DroppedTableSteps(d: Differ, t: nat): seq<Step>
    requires t < |d.PreviousTables()|
  {
    [DropTable(t)] +
    if d.flavour.shouldDropForeignKeysFromDroppedTables
    then DropForeignKeys(t, Range(|d.PreviousTables()[t].foreignKeys|))
    else []
  }

  function DroppedTablesBlocks(d: Differ): (r: seq<seq<Step>>)
    ensures |r| == |DroppedTables(d)|
    ensures forall k :: 0 <= k < |r| ==> r[k] == DroppedTableSteps(d, DroppedTables(d)[k])
  {
    var ts := DroppedTables(d);
    seq(|ts|, k requires 0 <= k < |ts| => DroppedTableSteps(d, ts[k]))
  }

  /** A step of the dropped-tables pass: a dropped table, or one of its foreign keys when the dialect drops them separately. */
  predicate DroppedTablesStep(d: Differ, s: Step) {
    || (s.DropTable? && TableDropped(d, s.tableId))
    || (&& s.DropForeignKey? && d.flavour.shouldDropForeignKeysFromDroppedTables && TableDropped(d, s.tableId)
        && s.foreignKeyIndex < |d.PreviousTables()[s.tableId].foreignKeys|)
  }

  lemma DroppedTablesBlocksMembers(d: Differ)
    ensures forall s :: s in Flatten(DroppedTablesBlocks(d)) <==> DroppedTablesStep(d, s)
  {
    var ts, blocks := DroppedTables(d), DroppedTablesBlocks(d);
    forall s: Step
      ensures s in Flatten(blocks) <==> DroppedTablesStep(d, s)
    {
      FlattenMember(blocks, s);
      if s in Flatten(blocks) {
        var k :| 0 <= k < |blocks| && s in blocks[k];
        assert s in DroppedTableSteps(d, ts[k]);
      }
      if DroppedTablesStep(d, s) {
        var k :| 0 <= k < |ts| && ts[k] == s.tableId;
        assert s in blocks[k];
      }
    }
  }

  /** Each dropped table and, when the dialect wants it, each of its foreign keys. */
  function DropTables(d: Differ): (r: seq<Step>)
    ensures forall s :: s in r <==> DroppedTablesStep(d, s)
  {
    DroppedTablesBlocksMembers(d);
    Flatten(DroppedTablesBlocks(d))
  }

  // ---- dropped indexes ----

  /** The previous index backs a foreign key and the dialect drops such indexes only with the key. */
  predicate KeepsFkIndex(td: TableDiffer, i: nat) {
    td.flavour.shouldSkipFkIndexes && i < |td.Previous().indexes| && IndexCoversFk(td.Previous(), td.Previous().indexes[i])
  }

  /** The dropped indexes of a table pair, minus those backing a foreign key when the dialect keeps those. */
  function DroppedIndexesKept(td: TableDiffer): (r: seq<nat>)
    ensures forall i: nat :: i in r <==> IndexDropped(td, i) && !KeepsFkIndex(td, i)
  {
    Filter(DroppedIndexes(td), (i: nat) => !KeepsFkIndex(td, i))
  }

  function PairDropIndexSteps(td: TableDiffer): (r: seq<Step>)
    ensures forall s :: s in r <==> s.DropIndex? && s.tableId == td.tableIds.previous && s.indexIndex in DroppedIndexesKept(td)
  {
    DropIndexesOf(td.tableIds.previous, DroppedIndexesKept(td))
  }

  function DroppedTableIndexSteps(d: Differ, t: nat): (r: seq<Step>)
    requires t < |d.PreviousTables()|
    ensures forall s :: s in r <==> s.DropIndex? && s.tableId == t && s.indexIndex < |d.PreviousTables()[t].indexes|
  {
    DropIndexesOf(t, Range(|d.PreviousTables()[t].indexes|))
  }

  /** Whether indexes of dropped tables are dropped explicitly. */
  predicate DropsIndexesOfDroppedTables(d: Differ) {
    |d.tablesToRedefine| != 0 && d.flavour.shouldDropIndexesFromDroppedTables
  }

  function PairDropIndexBlocks(d: Differ): (r: seq<seq<Step>>)
    ensures |r| == |TableDiffers(d)|
    ensures forall k :: 0 <= k < |r| ==> r[k] == PairDropIndexSteps(TableDiffers(d)[k])
  {
    var tds := TableDiffers(d);
    seq(|tds|, k requires 0 <= k < |tds| => PairDropIndexSteps(tds[k]))
  }

  function DroppedTableIndexBlocks(d: Differ): (r: seq<seq<Step>>)
    ensures |r| == |DroppedTables(d)|
    ensures forall k :: 0 <= k < |r| ==> r[k] == DroppedTableIndexSteps(d, DroppedTables(d)[k])
  {
    var ts := DroppedTables(d);
    seq(|ts|, k requires 0 <= k < |ts| => DroppedTableIndexSteps(d, ts[k]))
  }

  /** Every index drop the pass considers, in discovery order and possibly repeated. */
  function DropIndexCandidates(d: Differ): (r: seq<Step>)
    ensures forall s :: s in r ==> s.DropIndex?
  {
    FlattenForall(PairDropIndexBlocks(d), (s: Step) => s.DropIndex?);
    FlattenForall(DroppedTableIndexBlocks(d), (s: Step) => s.DropIndex?);
    Flatten(PairDropIndexBlocks(d)) + if DropsIndexesOfDroppedTables(d) then Flatten(DroppedTableIndexBlocks(d)) else []
  }

  /**
   * The index drops, collected into a set. The set's iteration order is
   * modelled by first occurrence; the final result is the same for every
   * order (`StepProperties.DropIndexOrderIrrelevant`).
   */
  function DropIndexes(d: Differ): (r: seq<Step>)
    ensures NoDuplicates(r)
    ensures forall s :: s in r <==> s in DropIndexCandidates(d)
  {
    Dedup(DropIndexCandidates(d))
  }

  // ---- created indexes ----

  predicate CreatesIndexOfNewTable(d: Differ, t: nat, i: nat) {
    t < |d.NextTables()| && i < |d.NextTables()[t].indexes| && !ShouldSkipIndexForNewTable(d.flavour, d.NextTables()[t].indexes[i])
  }

  function CreatedTableIndexSteps(d: Differ, t: nat): (r: seq<Step>)
    ensures forall s :: s in r <==> s.CreateIndex? && s.previousTableId.None? && s.tableId == t && CreatesIndexOfNewTable(d, t, s.indexIndex)
  {
    var n := if t < |d.NextTables()| then |d.NextTables()[t].indexes| else 0;
    CreateIndexesOf(None, t, Filter(Range(n), (i: nat) => CreatesIndexOfNewTable(d, t, i)))
  }

  /** Next-side names of the columns of a table pair that are dropped and recreated. */
  function RecreatedColumnNames(td: TableDiffer): set<string> {
    var cp, nc := ColumnPairs(td), td.Next().columns;
    set k | 0 <= k < |cp| && ColumnPairChanges(td, cp[k]).1 == Some(NotCastable) :: nc[cp[k].next].name
  }

  predicate TouchesRecreatedColumn(td: TableDiffer, indexes: Pair<nat>) {
    indexes.next < |td.Next().indexes| && exists c :: c in td.Next().indexes[indexes.next].columns && c in RecreatedColumnNames(td)
  }

  /** Next index `j` is paired and touches a recreated column. */
  predicate IndexRecreated(td: TableDiffer, j: nat) {
    exists p :: p in IndexPairs(td) && p.next == j && TouchesRecreatedColumn(td, p)
  }

  /** Next ids of paired indexes that touch a recreated column; they are created again after the column. */
  function RecreatedIndexes(td: TableDiffer): (r: seq<nat>)
    ensures forall j: nat :: j in r <==> IndexRecreated(td, j)
  {
    NextsOf(Filter(IndexPairs(td), (p: Pair<nat>) => TouchesRecreatedColumn(td, p)))
  }

  /**
   * The indexes a table pair altered in place creates in the created-indexes
   * pass: its new indexes, and on dialects that want it the paired indexes
   * touching a recreated column.
   */
  function PairCreateIndexSteps(td: TableDiffer): (r: seq<Step>)
    ensures forall s :: s in r <==>
      && s.CreateIndex? && s.previousTableId == Some(td.tableIds.previous) && s.tableId == td.tableIds.next
      && (IndexCreated(td, s.indexIndex) || (td.flavour.indexesShouldBeRecreatedAfterColumnDrop && IndexRecreated(td, s.indexIndex)))
  {
    var ids := td.tableIds;
    CreateIndexesOf(Some(ids.previous), ids.next, CreatedIndexes(td)) +
    if td.flavour.indexesShouldBeRecreatedAfterColumnDrop
    then CreateIndexesOf(Some(ids.previous), ids.next, RecreatedIndexes(td))
    else []
  }

  function CreatedTableIndexBlocks(d: Differ): (r: seq<seq<Step>>)
    ensures |r| == |CreatedTables(d)|
    ensures forall k :: 0 <= k < |r| ==> r[k] == CreatedTableIndexSteps(d, CreatedTables(d)[k])
  {
    var ts := CreatedTables(d);
    seq(|ts|, k requires 0 <= k < |ts| => CreatedTableIndexSteps(d, ts[k]))
  }

  function PairCreateIndexBlocks(d: Differ): (r: seq<seq<Step>>)
    ensures |r| == |AlteredTableDiffers(d)|
    ensures forall k :: 0 <= k < |r| ==> r[k] == PairCreateIndexSteps(AlteredTableDiffers(d)[k])
  {
    var tds := AlteredTableDiffers(d);
    seq(|tds|, k requires 0 <= k < |tds| => PairCreateIndexSteps(tds[k]))
  }

  /**
   * A step of the created-indexes pass: an index of a created table that
   * the dialect does not skip, when it creates such indexes apart from the
   * table, or an index a table pair altered in place creates.
   */
  predicate CreatedIndexesStep(d: Differ, s: Step) {
    && s.CreateIndex?
    && (|| (d.flavour.shouldCreateIndexesFromCreatedTables && s.previousTableId.None?
              && TableCreated(d, s.tableId) && CreatesIndexOfNewTable(d, s.tableId, s.indexIndex))
        || (exists td :: td in AlteredTableDiffers(d) && s in PairCreateIndexSteps(td)))
  }

  lemma CreatedTableIndexCandidates(d: Differ)
    ensures forall s :: s in Flatten(CreatedTableIndexBlocks(d)) <==>
      s.CreateIndex? && s.previousTableId.None? && TableCreated(d, s.tableId) && CreatesIndexOfNewTable(d, s.tableId, s.indexIndex)
  {
    var blocks, ts := CreatedTableIndexBlocks(d), CreatedTables(d);
    forall s: Step
      ensures s in Flatten(blocks) <==>
        s.CreateIndex? && s.previousTableId.None? && TableCreated(d, s.tableId) && CreatesIndexOfNewTable(d, s.tableId, s.indexIndex)
    {
      FlattenMember(blocks, s);
      if s in Flatten(blocks) {
        var k :| 0 <= k < |blocks| && s in blocks[k];
      }
      if s.CreateIndex? && s.previousTableId.None? && TableCreated(d, s.tableId) && CreatesIndexOfNewTable(d, s.tableId, s.indexIndex) {
        var k :| 0 <= k < |ts| && ts[k] == s.tableId;
        assert s in blocks[k];
      }
    }
  }

  lemma PairCreateIndexCandidate(d: Differ, s: Step)
    ensures s in Flatten(PairCreateIndexBlocks(d)) <==> exists td :: td in AlteredTableDiffers(d) && s in PairCreateIndexSteps(td)
  {
    FlattenMapMember(AlteredTableDiffers(d), PairCreateIndexBlocks(d), PairCreateIndexSteps, s);
  }


  lemma PairCreateIndexCandidates(d: Differ)
    ensures forall s :: s in Flatten(PairCreateIndexBlocks(d)) <==>
      exists td :: td in AlteredTableDiffers(d) && s in PairCreateIndexSteps(td)
  {
    forall s: Step
      ensures s in Flatten(PairCreateIndexBlocks(d)) <==> exists td :: td in AlteredTableDiffers(d) && s in PairCreateIndexSteps(td)
    {
      PairCreateIndexCandidate(d, s);
    }
  }

  /** The index creations of created tables, when the dialect wants them, then those of the table pairs altered in place. */
  function PushCreateIndexes(d: Differ): (r: seq<Step>)
    ensures forall s :: s in r <==> CreatedIndexesStep(d, s)
  {
    CreatedTableIndexCandidates(d);
    PairCreateIndexCandidates(d);
    (if d.flavour.shouldCreateIndexesFromCreatedTables then Flatten(CreatedTableIndexBlocks(d)) else []) + Flatten(PairCreateIndexBlocks(d))
  }

  // ---- altered tables ----

  /** The change for one paired column, chosen by how its type changes. */
  function ColumnChangeOf(td: TableDiffer, columns: Pair<nat>): (r: TableChange)
    requires columns.previous < |td.Previous().columns| && columns.next < |td.Next().columns|
    ensures r.AlterColumn? || r.DropAndRecreateColumn?
    ensures r.DropAndRecreateColumn? <==> ColumnPairChanges(td, columns).1 == Some(NotCastable)
    ensures r.AlterColumn? ==> r.typeChange == ColumnPairChanges(td, columns).1
    ensures r.columnIds == columns && r.changes == ColumnPairChanges(td, columns).0
  {
    var (changes, typeChange) := ColumnPairChanges(td, columns);
    match typeChange
    case Some(NotCastable) => DropAndRecreateColumn(columns, changes)
    case Some(RiskyCast) => AlterColumn(columns, changes, Some(RiskyCast))
    case Some(SafeCast) => AlterColumn(columns, changes, Some(SafeCast))
    case None => AlterColumn(columns, changes, None)
  }

  predicate ColumnPairChanged(td: TableDiffer, columns: Pair<nat>) {
    && columns.previous < |td.Previous().columns| && columns.next < |td.Next().columns|
    && ColumnPairChanges(td, columns).0.DiffersInSomething()
  }

  /** Paired columns that differ in something, in previous-id order. */
  function ChangedColumnPairs(td: TableDiffer): (r: seq<Pair<nat>>)
    ensures forall p :: p in r <==> p in ColumnPairs(td) && ColumnPairChanged(td, p)
  {
    Filter(ColumnPairs(td), (p: Pair<nat>) => ColumnPairChanged(td, p))
  }

  /**
   * One change per column pair that differs in something. Column pairs
   * arrive in previous-id order, so sorting them by their id pair keeps
   * them where they are.
   */
  function AlterColumns(td: TableDiffer): (r: seq<TableChange>)
    ensures |r| == |ChangedColumnPairs(td)|
    ensures forall c :: c in r ==> c.AlterColumn? || c.DropAndRecreateColumn?
    ensures forall c :: c in r <==> exists p :: p in ColumnPairs(td) && ColumnPairChanged(td, p) && c == ColumnChangeOf(td, p)
  {
    var r := ColumnChanges(td, ChangedColumnPairs(td));
    ColumnChangesMembers(td, ChangedColumnPairs(td), r);
    r
  }

  /** The change of each pair, in order. */
  function ColumnChanges(td: TableDiffer, changed: seq<Pair<nat>>): (r: seq<TableChange>)
    requires forall p :: p in changed ==> ColumnPairChanged(td, p)
    ensures |r| == |changed| && forall k :: 0 <= k < |r| ==> ColumnPairChanged(td, changed[k]) && r[k] == ColumnChangeOf(td, changed[k])
  {
    assert forall k :: 0 <= k < |changed| ==> changed[k] in changed;
    seq(|changed|, k requires 0 <= k < |changed| && ColumnPairChanged(td, changed[k]) => ColumnChangeOf(td, changed[k]))
  }

  lemma ColumnChangesMembers(td: TableDiffer, changed: seq<Pair<nat>>, r: seq<TableChange>)
    requires forall p :: p in changed <==> p in ColumnPairs(td) && ColumnPairChanged(td, p)
    requires |r| == |changed| && forall k :: 0 <= k < |r| ==> ColumnPairChanged(td, changed[k]) && r[k] == ColumnChangeOf(td, changed[k])
    ensures forall c :: c in r <==> exists p :: p in ColumnPairs(td) && ColumnPairChanged(td, p) && c == ColumnChangeOf(td, p)
  {
    forall c | exists p :: p in ColumnPairs(td) && ColumnPairChanged(td, p) && c == ColumnChangeOf(td, p)
      ensures c in r
    {
      var p :| p in ColumnPairs(td) && ColumnPairChanged(td, p) && c == ColumnChangeOf(td, p);
      var k :| 0 <= k < |changed| && changed[k] == p;
      assert r[k] == c;
    }
    forall c | c in r
      ensures exists p :: p in ColumnPairs(td) && ColumnPairChanged(td, p) && c == ColumnChangeOf(td, p)
    {
      var k :| 0 <= k < |r| && r[k] == c;
      assert changed[k] in changed;
    }
  }

  /** Some previous primary-key column is dropped and recreated. */
  predicate RecreatesPrimaryKeyColumn(td: TableDiffer) {
    var changes, pc := AlterColumns(td), td.Previous().columns;
    exists k :: 0 <= k < |changes| && changes[k].DropAndRecreateColumn? &&
      changes[k].columnIds.previous < |pc| && IsPartOfPrimaryKey(td.Previous(), pc[changes[k].columnIds.previous])
  }

  /** The primary-key change the schemas themselves call for: a new key with at least one column. */
  predicate AddsPrimaryKeyFromSchema(td: TableDiffer) {
    match CreatedPrimaryKey(td)
    case Some(pk) => |pk.columns| != 0
    case None => false
  }

  /** The previous column of the pair is in the primary key and its type change cannot be cast. */
  predicate PrimaryKeyColumnNotCastable(td: TableDiffer, columns: Pair<nat>) {
    && columns.previous < |td.Previous().columns| && columns.next < |td.Next().columns|
    && ColumnPairChanges(td, columns).1 == Some(NotCastable)
    && IsPartOfPrimaryKey(td.Previous(), td.Previous().columns[columns.previous])
  }

  /** A column is dropped and recreated in the primary key exactly when some such column pair exists. */
  lemma RecreatesPrimaryKeyColumnByPairs(td: TableDiffer)
    ensures RecreatesPrimaryKeyColumn(td) <==> exists p :: p in ColumnPairs(td) && PrimaryKeyColumnNotCastable(td, p)
  {
    if RecreatesPrimaryKeyColumn(td) {
      RecreatedKeyColumnPair(td);
    }
    if exists p :: p in ColumnPairs(td) && PrimaryKeyColumnNotCastable(td, p) {
      var p :| p in ColumnPairs(td) && PrimaryKeyColumnNotCastable(td, p);
      KeyColumnPairRecreated(td, p);
    }
  }

  lemma RecreatedKeyColumnPair(td: TableDiffer)
    requires RecreatesPrimaryKeyColumn(td)
    ensures exists p :: p in ColumnPairs(td) && PrimaryKeyColumnNotCastable(td, p)
  {
    var changes, changed := AlterColumns(td), ChangedColumnPairs(td);
    var k :| 0 <= k < |changes| && changes[k].DropAndRecreateColumn? &&
      changes[k].columnIds.previous < |td.Previous().columns| && IsPartOfPrimaryKey(td.Previous(), td.Previous().columns[changes[k].columnIds.previous]);
    assert changed[k] in changed;
    assert changes[k] == ColumnChangeOf(td, changed[k]);
    assert PrimaryKeyColumnNotCastable(td, changed[k]);
  }

  lemma KeyColumnPairRecreated(td: TableDiffer, p: Pair<nat>)
    requires p in ColumnPairs(td) && PrimaryKeyColumnNotCastable(td, p)
    ensures RecreatesPrimaryKeyColumn(td)
  {
    var changes, changed := AlterColumns(td), ChangedColumnPairs(td);
    assert ColumnPairChanged(td, p);
    assert p in changed;
    var k :| 0 <= k < |changed| && changed[k] == p;
    assert changes[k] == ColumnChangeOf(td, p);
  }

  /**
   * An `AddPrimaryKey` change when the next table gains a primary key with
   * columns, or, on dialects that recreate the key, when a primary-key
   * column is dropped and recreated.
   */
  function AddPrimaryKeyChange(td: TableDiffer): (r: seq<TableChange>)
    ensures r == [] || r == [AddPrimaryKey]
    ensures r == [AddPrimaryKey] <==>
      || (CreatedPrimaryKey(td).Some? && |CreatedPrimaryKey(td).value.columns| != 0)
      || (td.flavour.shouldRecreateThePrimaryKeyOnColumnRecreate && exists p :: p in ColumnPairs(td) && PrimaryKeyColumnNotCastable(td, p))
  {
    RecreatesPrimaryKeyColumnByPairs(td);
    if AddsPrimaryKeyFromSchema(td) || (td.flavour.shouldRecreateThePrimaryKeyOnColumnRecreate && RecreatesPrimaryKeyColumn(td))
    then [AddPrimaryKey] else []
  }

  /**
   * A `DropPrimaryKey` change when the previous table loses its primary
   * key, or, on dialects that recreate the key, when a primary-key column is
   * dropped and recreated.
   */
  function DropPrimaryKeyChange(td: TableDiffer): (r: seq<TableChange>)
    ensures r == [] || r == [DropPrimaryKey]
    ensures r == [DropPrimaryKey] <==>
      || DroppedPrimaryKey(td).Some?
      || (td.flavour.shouldRecreateThePrimaryKeyOnColumnRecreate && exists p :: p in ColumnPairs(td) && PrimaryKeyColumnNotCastable(td, p))
  {
    RecreatesPrimaryKeyColumnByPairs(td);
    if DroppedPrimaryKey(td).Some? || (td.flavour.shouldRecreateThePrimaryKeyOnColumnRecreate && RecreatesPrimaryKeyColumn(td))
    then [DropPrimaryKey] else []
  }

  /** A change list in the order the changes are applied. */
  function AlterTableChanges(dropPrimaryKey: seq<TableChange>, droppedColumns: seq<nat>, addedColumns: seq<nat>,
                             alteredColumns: seq<TableChange>, addPrimaryKey: seq<TableChange>): seq<TableChange> {
    dropPrimaryKey + DropColumns(droppedColumns) + AddColumns(addedColumns) + alteredColumns + addPrimaryKey
  }

  /** The changes of an altered table. */
  function TableChanges(td: TableDiffer): seq<TableChange> {
    AlterTableChanges(DropPrimaryKeyChange(td), DroppedColumns(td), AddedColumns(td), AlterColumns(td), AddPrimaryKeyChange(td))
  }

  predicate IndexHasColumn(index: Index, name: string) {
    name in index.columns
  }

  /** An index drop on the pair's previous table, or an index creation on its next table. */
  predicate PairIndexStep(td: TableDiffer, s: Step) {
    || (s.DropIndex? && s.tableId == td.tableIds.previous)
    || (s.CreateIndex? && s.previousTableId == Some(td.tableIds.previous) && s.tableId == td.tableIds.next)
  }

  /** The previous sides of a list of pairs, in order. */
  function PreviousSides(ps: seq<Pair<nat>>): (r: seq<nat>)
    ensures forall i: nat :: i in r <==> exists p :: p in ps && p.previous == i
  {
    var r := seq(|ps|, k requires 0 <= k < |ps| => ps[k].previous);
    forall i: nat | exists p :: p in ps && p.previous == i
      ensures i in r
    {
      var p :| p in ps && p.previous == i;
      var k :| 0 <= k < |ps| && ps[k] == p;
      assert r[k] == i;
    }
    r
  }

  /** The next sides of a list of pairs, in order. */
  function NextSides(ps: seq<Pair<nat>>): (r: seq<nat>)
    ensures forall i: nat :: i in r <==> exists p :: p in ps && p.next == i
  {
    var r := seq(|ps|, k requires 0 <= k < |ps| => ps[k].next);
    forall i: nat | exists p :: p in ps && p.next == i
      ensures i in r
    {
      var p :| p in ps && p.next == i;
      var k :| 0 <= k < |ps| && ps[k] == p;
      assert r[k] == i;
    }
    r
  }

  /** The dialect recreates indexes around a type change, and the column pair's type changes. */
  predicate IndexesRecreatedAround(td: TableDiffer, columns: Pair<nat>)
    requires columns.previous < |td.Previous().columns| && columns.next < |td.Next().columns|
  {
    td.flavour.recreatesIndexesOnColumnTypeChange && ColumnPairChanges(td, columns).0.typeChanged
  }

  /**
   * A drop of a paired previous index that uses the previous column, or a
   * creation of a paired next index that uses the next column.
   */
  predicate MaintenanceStep(ids: Pair<nat>, indexes: Pair<seq<Index>>, paired: Pair<seq<nat>>, names: Pair<string>, s: Step) {
    || (&& s.DropIndex? && s.tableId == ids.previous && s.indexIndex in paired.previous
        && s.indexIndex < |indexes.previous| && IndexHasColumn(indexes.previous[s.indexIndex], names.previous))
    || (&& s.CreateIndex? && s.previousTableId == Some(ids.previous) && s.tableId == ids.next && s.indexIndex in paired.next
        && s.indexIndex < |indexes.next| && IndexHasColumn(indexes.next[s.indexIndex], names.next))
  }

  function IndexMaintenance(ids: Pair<nat>, indexes: Pair<seq<Index>>, paired: Pair<seq<nat>>, names: Pair<string>): (r: seq<Step>)
    ensures forall s :: s in r <==> MaintenanceStep(ids, indexes, paired, names, s)
  {
    var pi, ni := indexes.previous, indexes.next;
    DropIndexesOf(ids.previous, Filter(paired.previous, (i: nat) => i < |pi| && IndexHasColumn(pi[i], names.previous)))
    + CreateIndexesOf(Some(ids.previous), ids.next, Filter(paired.next, (i: nat) => i < |ni| && IndexHasColumn(ni[i], names.next)))
  }

  /**
   * Index maintenance for a column pair: on a dialect that recreates indexes
   * around a type change, and only when the column's type changes, a drop
   * of each paired previous index using the column or a creation of each
   * paired next index using it. `PreviousSides` and `NextSides` say which
   * indexes are paired.
   */
  predicate IndexMaintenanceStep(td: TableDiffer, columns: Pair<nat>, s: Step) {
    && columns.previous < |td.Previous().columns| && columns.next < |td.Next().columns|
    && IndexesRecreatedAround(td, columns)
    && MaintenanceStep(td.tableIds, Pair(td.Previous().indexes, td.Next().indexes),
                       Pair(PreviousSides(IndexPairs(td)), NextSides(IndexPairs(td))),
                       Pair(td.Previous().columns[columns.previous].name, td.Next().columns[columns.next].name), s)
  }

  /**
   * The dialect's index maintenance around one column change: when a
   * column's type changes and the dialect cannot keep indexes over it, the
   * paired indexes touching the column are dropped before the change and
   * created again after it.
   */
  function IndexChangesForColumn(td: TableDiffer, columns: Pair<nat>): (r: seq<Step>)
    requires columns.previous < |td.Previous().columns| && columns.next < |td.Next().columns|
    ensures forall s :: s in r ==> PairIndexStep(td, s)
    ensures forall s :: s in r <==> IndexMaintenanceStep(td, columns, s)
  {
    if !IndexesRecreatedAround(td, columns) then []
    else
      IndexMaintenance(td.tableIds, Pair(td.Previous().indexes, td.Next().indexes),
                       Pair(PreviousSides(IndexPairs(td)), NextSides(IndexPairs(td))),
                       Pair(td.Previous().columns[columns.previous].name, td.Next().columns[columns.next].name))
  }

  function IndexChangeBlocks(td: TableDiffer): (r: seq<seq<Step>>)
    ensures |r| == |ColumnPairs(td)|
    ensures forall k :: 0 <= k < |r| ==> r[k] == IndexChangesForColumn(td, ColumnPairs(td)[k])
  {
    var cp := ColumnPairs(td);
    seq(|cp|, k requires 0 <= k < |cp| => IndexChangesForColumn(td, cp[k]))
  }

  /** The index maintenance of a table pair: that of each of its column pairs. */
  function IndexChangesForColumns(td: TableDiffer): (r: seq<Step>)
    ensures forall s :: s in r ==> PairIndexStep(td, s)
    ensures forall s :: s in r <==> exists p :: p in ColumnPairs(td) && IndexMaintenanceStep(td, p, s)
  {
    FlattenForall(IndexChangeBlocks(td), (s: Step) => PairIndexStep(td, s));
    IndexChangeBlocksMembers(td);
    Flatten(IndexChangeBlocks(td))
  }

  lemma IndexChangeBlocksMembers(td: TableDiffer)
    ensures forall s :: s in Flatten(IndexChangeBlocks(td)) <==> exists p :: p in ColumnPairs(td) && IndexMaintenanceStep(td, p, s)
  {
    forall s: Step
      ensures s in Flatten(IndexChangeBlocks(td)) <==> exists p :: p in ColumnPairs(td) && IndexMaintenanceStep(td, p, s)
    {
      MaintenanceBlocksMembers(td, ColumnPairs(td), IndexChangeBlocks(td), s);
    }
  }

  /** The blocks of index maintenance, one per column pair, hold exactly the maintenance steps of those pairs. */
  lemma MaintenanceBlocksMembers(td: TableDiffer, cp: seq<Pair<nat>>, blocks: seq<seq<Step>>, s: Step)
    requires |blocks| == |cp|
    requires forall k :: 0 <= k < |cp| ==> cp[k].previous < |td.Previous().columns| && cp[k].next < |td.Next().columns|
    requires forall k :: 0 <= k < |cp| ==> blocks[k] == IndexChangesForColumn(td, cp[k])
    ensures s in Flatten(blocks) <==> exists p :: p in cp && IndexMaintenanceStep(td, p, s)
  {
    FlattenMember(blocks, s);
    if s in Flatten(blocks) {
      var k :| 0 <= k < |blocks| && s in blocks[k];
      assert cp[k] in cp && IndexMaintenanceStep(td, cp[k], s);
    }
    if exists p :: p in cp && IndexMaintenanceStep(td, p, s) {
      var p :| p in cp && IndexMaintenanceStep(td, p, s);
      var k :| 0 <= k < |cp| && cp[k] == p;
      assert s in blocks[k];
    }
  }

  /** Foreign keys created and dropped on a table pair. */
  function ForeignKeySteps(td: TableDiffer): (r: seq<Step>)
    ensures forall s :: s in r ==> s.AddForeignKey? || s.DropForeignKey?
  {
    AddForeignKeys(td.tableIds.next, CreatedForeignKeys(td)) + DropForeignKeys(td.tableIds.previous, DroppedForeignKeys(td))
  }

  /** A table pair's foreign-key steps add its created keys and drop its dropped ones. */
  lemma ForeignKeyStepsMembers(td: TableDiffer, s: Step)
    ensures s in ForeignKeySteps(td) <==>
      || (s.AddForeignKey? && s.tableId == td.tableIds.next && ForeignKeyCreated(td, s.foreignKeyIndex))
      || (s.DropForeignKey? && s.tableId == td.tableIds.previous && ForeignKeyDropped(td, s.foreignKeyIndex))
  {
  }

  /**
   * The steps of one altered table pair: its foreign-key steps always, then,
   * only when it has changes, the index maintenance and the `AlterTable`.
   */
  function AlteredTableStepsWith(ids: Pair<nat>, foreignKeySteps: seq<Step>, indexSteps: seq<Step>, changes: seq<TableChange>): (r: seq<Step>)
    requires forall s :: s in foreignKeySteps ==> s.AddForeignKey? || s.DropForeignKey?
    requires forall s :: s in indexSteps ==> s.DropIndex? || s.CreateIndex?
    ensures forall s :: s in r ==> s.AddForeignKey? || s.DropForeignKey? || s.DropIndex? || s.CreateIndex? || s.AlterTable?
    ensures forall s :: s in r && s.AlterTable? ==> s == AlterTable(ids, changes)
    ensures AlterTable(ids, changes) in r <==> |changes| != 0
    ensures forall s :: s in r && (s.AddForeignKey? || s.DropForeignKey?) <==> s in foreignKeySteps
    ensures forall s :: s in r && (s.DropIndex? || s.CreateIndex?) <==> |changes| != 0 && s in indexSteps
  {
    if |changes| == 0 then foreignKeySteps
    else foreignKeySteps + indexSteps + [AlterTable(ids, changes)]
  }

  function AlteredTableSteps(td: TableDiffer): seq<Step> {
    AlteredTableStepsWith(td.tableIds, ForeignKeySteps(td), IndexChangesForColumns(td), TableChanges(td))
  }

  function AlteredTableBlocks(d: Differ): (r: seq<seq<Step>>)
    ensures |r| == |AlteredTableDiffers(d)|
    ensures forall k :: 0 <= k < |r| ==> r[k] == AlteredTableSteps(AlteredTableDiffers(d)[k])
  {
    var tds := AlteredTableDiffers(d);
    seq(|tds|, k requires 0 <= k < |tds| => AlteredTableSteps(tds[k]))
  }

  lemma AlteredTableBlocksMember(d: Differ, s: Step)
    ensures s in Flatten(AlteredTableBlocks(d)) <==> exists td :: td in AlteredTableDiffers(d) && s in AlteredTableSteps(td)
  {
    FlattenMapMember(AlteredTableDiffers(d), AlteredTableBlocks(d), AlteredTableSteps, s);
  }


  lemma AlteredTableBlocksMembers(d: Differ)
    ensures forall s :: s in Flatten(AlteredTableBlocks(d)) <==> exists td :: td in AlteredTableDiffers(d) && s in AlteredTableSteps(td)
  {
    forall s: Step
      ensures s in Flatten(AlteredTableBlocks(d)) <==> exists td :: td in AlteredTableDiffers(d) && s in AlteredTableSteps(td)
    {
      AlteredTableBlocksMember(d, s);
    }
  }

  /** The steps of each table pair altered in place, pair after pair. */
  function PushAlteredTables(d: Differ): (r: seq<Step>)
    ensures forall s :: s in r <==> exists td :: td in AlteredTableDiffers(d) && s in AlteredTableSteps(td)
    ensures forall s :: s in r ==> s.AddForeignKey? || s.DropForeignKey? || s.DropIndex? || s.CreateIndex? || s.AlterTable?
  {
    AlteredTableBlocksMembers(d);
    Flatten(AlteredTableBlocks(d))
  }

  // ---- redefined tables ----

  function RedefinedColumnOf(td: TableDiffer, columns: Pair<nat>): RedefinedColumn
    requires columns.previous < |td.Previous().columns| && columns.next < |td.Next().columns|
  {
    var (changes, typeChange) := ColumnPairChanges(td, columns);
    RedefinedColumn(columns, changes, typeChange)
  }

  function RedefineTableOf(td: TableDiffer): RedefineTable {
    var cp := ColumnPairs(td);
    RedefineTable(td.tableIds, |DropPrimaryKeyChange(td)| != 0, AddedColumns(td), DroppedColumns(td),
      seq(|cp|, k requires 0 <= k < |cp| => RedefinedColumnOf(td, cp[k])))
  }

  /** The rebuild of each redefined table pair, in table-pair order. */
  function RedefinedTablesOf(tds: seq<TableDiffer>): (r: seq<RedefineTable>)
    ensures |r| == |tds|
    ensures forall x :: x in r <==> exists td :: td in tds && x == RedefineTableOf(td)
  {
    if |tds| == 0 then []
    else
      assert tds == [tds[0]] + tds[1..];
      [RedefineTableOf(tds[0])] + RedefinedTablesOf(tds[1..])
  }

  lemma SomeTableRedefined(d: Differ)
    ensures |RedefinedTableDiffers(d)| != 0 <==> exists td :: td in TableDiffers(d) && IsRedefined(d, td)
  {
    var tds := RedefinedTableDiffers(d);
    if |tds| != 0 {
      assert tds[0] in tds;
    }
    if exists td :: td in TableDiffers(d) && IsRedefined(d, td) {
      var td :| td in TableDiffers(d) && IsRedefined(d, td);
      assert td in tds;
    }
  }

  /** One `RedefineTables` step for all redefined tables, or none if there are none. */
  function RedefineTablesSteps(d: Differ): (r: seq<Step>)
    ensures |r| <= 1
    ensures |r| == 1 <==> exists td :: td in TableDiffers(d) && IsRedefined(d, td)
    ensures forall s :: s in r ==> s.RedefineTables? && s.redefined == RedefinedTablesOf(RedefinedTableDiffers(d))
  {
    SomeTableRedefined(d);
    RedefineAll(RedefinedTableDiffers(d))
  }

  function RedefineAll(tds: seq<TableDiffer>): (r: seq<Step>)
    ensures |r| <= 1 && (|r| == 1 <==> |tds| != 0)
    ensures forall s :: s in r ==> s.RedefineTables? && s.redefined == RedefinedTablesOf(tds)
  {
    if |tds| == 0 then [] else [RedefineTables(RedefinedTablesOf(tds))]
  }

  // ---- renamed indexes ----

  predicate IndexRenamedAt(td: TableDiffer, indexes: Pair<nat>) {
    && indexes.previous < |td.Previous().indexes| && indexes.next < |td.Next().indexes|
    && IndexShouldBeRenamed(Pair(td.Previous().indexes[indexes.previous], td.Next().indexes[indexes.next]))
  }

  /** Paired indexes of a table pair whose name changed, as renames. */
  function PairIndexRenames(td: TableDiffer): (r: seq<IndexRename>)
    ensures forall x :: x in r <==> x.tables == td.tableIds && x.indexes in IndexPairs(td) && IndexRenamedAt(td, x.indexes)
  {
    RenamesOf(td.tableIds, Filter(IndexPairs(td), (p: Pair<nat>) => IndexRenamedAt(td, p)))
  }

  function IndexRenameBlocks(d: Differ): (r: seq<seq<IndexRename>>)
    ensures |r| == |AlteredTableDiffers(d)|
    ensures forall k :: 0 <= k < |r| ==> r[k] == PairIndexRenames(AlteredTableDiffers(d)[k])
  {
    var tds := AlteredTableDiffers(d);
    seq(|tds|, k requires 0 <= k < |tds| => PairIndexRenames(tds[k]))
  }

  lemma IndexRenameBlocksMember(d: Differ, x: IndexRename)
    ensures x in Flatten(IndexRenameBlocks(d)) <==> exists td :: td in AlteredTableDiffers(d) && x in PairIndexRenames(td)
  {
    FlattenMapMember(AlteredTableDiffers(d), IndexRenameBlocks(d), PairIndexRenames, x);
  }


  lemma IndexRenameBlocksMembers(d: Differ)
    ensures forall x :: x in Flatten(IndexRenameBlocks(d)) <==> exists td :: td in AlteredTableDiffers(d) && x in PairIndexRenames(td)
  {
    forall x: IndexRename
      ensures x in Flatten(IndexRenameBlocks(d)) <==> exists td :: td in AlteredTableDiffers(d) && x in PairIndexRenames(td)
    {
      IndexRenameBlocksMember(d, x);
    }
  }

  /** Renamed indexes of the tables altered in place. */
  function AlterIndexes(d: Differ): (r: seq<IndexRename>)
    ensures forall x :: x in r <==> exists td :: td in AlteredTableDiffers(d) && x in PairIndexRenames(td)
  {
    IndexRenameBlocksMembers(d);
    Flatten(IndexRenameBlocks(d))
  }

  /** Renames as `AlterIndex` steps, if the dialect can rename an index in place. */
  function AlterIndexSteps(d: Differ): (r: seq<Step>)
    ensures forall s :: s in r <==> d.flavour.canAlterIndex && s.AlterIndex? && IndexRename(s.tables, s.indexes) in AlterIndexes(d)
  {
    if d.flavour.canAlterIndex then AlterIndexesOf(AlterIndexes(d)) else []
  }

  /** Renames as `RedefineIndex` steps, if the dialect cannot rename an index in place. */
  function RedefineIndexSteps(d: Differ): (r: seq<Step>)
    ensures forall s :: s in r <==> !d.flavour.canAlterIndex && s.RedefineIndex? && IndexRename(s.tables, s.indexes) in AlterIndexes(d)
  {
    if d.flavour.canAlterIndex then [] else RedefineIndexesOf(AlterIndexes(d))
  }

  // ---- enums ----

  function EnumsMatchAt(d: Differ): (nat, nat) -> bool {
    var p, n := d.PreviousEnums(), d.NextEnums();
    (i: nat, j: nat) => i < |p| && j < |n| && p[i].name == n[j].name
  }

  /** Enums present in both schemas: each previous enum with the first next enum of the same name. */
  function EnumPairs(d: Differ): (r: seq<Pair<nat>>)
    ensures forall k :: 0 <= k < |r| ==>
      && r[k].previous < |d.PreviousEnums()| && r[k].next < |d.NextEnums()|
      && d.PreviousEnums()[r[k].previous].name == d.NextEnums()[r[k].next].name
    ensures forall k1, k2 :: 0 <= k1 < k2 < |r| ==> r[k1].previous < r[k2].previous
  {
    PairFirstMatches(|d.PreviousEnums()|, |d.NextEnums()|, EnumsMatchAt(d))
  }

  /** No previous enum has the name of next enum `j`. */
  predicate EnumCreated(d: Differ, j: nat) {
    j < |d.NextEnums()| && forall i :: 0 <= i < |d.PreviousEnums()| ==> d.PreviousEnums()[i].name != d.NextEnums()[j].name
  }

  /** No next enum has the name of previous enum `i`. */
  predicate EnumDropped(d: Differ, i: nat) {
    i < |d.PreviousEnums()| && forall j :: 0 <= j < |d.NextEnums()| ==> d.PreviousEnums()[i].name != d.NextEnums()[j].name
  }

  function CreatedEnums(d: Differ): (r: seq<nat>)
    ensures forall j: nat :: j in r <==> EnumCreated(d, j)
    ensures StrictlyIncreasing(r)
  {
    var p, n := d.PreviousEnums(), d.NextEnums();
    assert forall i: nat, j: nat :: EnumsMatchAt(d)(i, j) <==> i < |p| && j < |n| && p[i].name == n[j].name;
    UnmatchedNext(|p|, |n|, EnumsMatchAt(d))
  }

  function DroppedEnums(d: Differ): (r: seq<nat>)
    ensures forall i: nat :: i in r <==> EnumDropped(d, i)
    ensures StrictlyIncreasing(r)
  {
    var p, n := d.PreviousEnums(), d.NextEnums();
    assert forall i: nat, j: nat :: EnumsMatchAt(d)(i, j) <==> i < |p| && j < |n| && p[i].name == n[j].name;
    UnmatchedPrevious(|p|, |n|, EnumsMatchAt(d))
  }

  /** A `CreateEnum` per created enum, on dialects with enums of their own. */
  function CreateEnumSteps(d: Differ): (r: seq<Step>)
    ensures forall s :: s in r <==> d.flavour.hasNativeEnums && s.CreateEnum? && EnumCreated(d, s.enumIndex)
  {
    if d.flavour.hasNativeEnums then CreateEnumsOf(CreatedEnums(d)) else []
  }

  /** A `DropEnum` per dropped enum, on dialects with enums of their own. */
  function DropEnumSteps(d: Differ): (r: seq<Step>)
    ensures forall s :: s in r <==> d.flavour.hasNativeEnums && s.DropEnum? && EnumDropped(d, s.enumIndex)
  {
    if d.flavour.hasNativeEnums then DropEnumsOf(DroppedEnums(d)) else []
  }

  /** Variants of the next enum that the previous one lacks, in next order. */
  function CreatedVariants(enums: Pair<SqlEnum>): (r: seq<string>)
    ensures forall v :: v in r <==> v in enums.next.values && v !in enums.previous.values
  {
    Filter(enums.next.values, (v: string) => v !in enums.previous.values)
  }

  /** Variants of the previous enum that the next one lacks, in previous order. */
  function DroppedVariants(enums: Pair<SqlEnum>): (r: seq<string>)
    ensures forall v :: v in r <==> v in enums.previous.values && v !in enums.next.values
  {
    Filter(enums.previous.values, (v: string) => v !in enums.next.values)
  }

  function EnumsAt(d: Differ, index: Pair<nat>): Pair<SqlEnum>
    requires index.previous < |d.PreviousEnums()| && index.next < |d.NextEnums()|
  {
    Pair(d.PreviousEnums()[index.previous], d.NextEnums()[index.next])
  }

  /** The enum pair gained or lost a variant. */
  predicate EnumAltered(d: Differ, index: Pair<nat>) {
    && index.previous < |d.PreviousEnums()| && index.next < |d.NextEnums()|
    && (|CreatedVariants(EnumsAt(d, index))| != 0 || |DroppedVariants(EnumsAt(d, index))| != 0)
  }

  /** The enum pairs that gained or lost a variant, on dialects with enums of their own. */
  function AlteredEnumPairs(d: Differ): (r: seq<Pair<nat>>)
    ensures forall p :: p in r <==> d.flavour.hasNativeEnums && p in EnumPairs(d) && EnumAltered(d, p)
  {
    if d.flavour.hasNativeEnums then Filter(EnumPairs(d), (p: Pair<nat>) => EnumAltered(d, p)) else []
  }

  // ---- enum usages as column defaults ----

  /** The column is of the named enum type and has a default. */
  predicate DefaultsToEnum(c: Column, enumName: string) {
    ColumnTypeIsEnum(c, enumName) && c.default.Some?
  }

  /** Columns of previous table `t` whose default is a value of the named enum. */
  function EnumDefaultColumns(d: Differ, t: nat, enumName: string): (r: seq<nat>)
    requires t < |d.PreviousTables()|
    ensures forall c: nat :: c in r <==> c < |d.PreviousTables()[t].columns| && DefaultsToEnum(d.PreviousTables()[t].columns[c], enumName)
  {
    var cols := d.PreviousTables()[t].columns;
    Filter(Range(|cols|), (c: nat) => c < |cols| && DefaultsToEnum(cols[c], enumName))
  }

  function DroppedTableUsageBlocks(d: Differ, enumName: string): (r: seq<seq<DefaultUsage>>)
    ensures |r| == |DroppedTables(d)|
    ensures forall k :: 0 <= k < |r| ==> r[k] == DroppedUsagesOf(DroppedTables(d)[k], EnumDefaultColumns(d, DroppedTables(d)[k], enumName))
  {
    var ts := DroppedTables(d);
    seq(|ts|, k requires 0 <= k < |ts| => DroppedUsagesOf(ts[k], EnumDefaultColumns(d, ts[k], enumName)))
  }

  /** The usage recorded for a paired column whose previous default is of the enum. */
  function PairedUsage(td: TableDiffer, names: Pair<string>, columns: Pair<nat>): (r: DefaultUsage)
    requires columns.previous < |td.Previous().columns| && columns.next < |td.Next().columns|
    ensures r.previous == ColumnRef(td.tableIds.previous, columns.previous)
    ensures r.next.Some? <==> DefaultsToEnum(td.Next().columns[columns.next], names.next)
    ensures r.next.Some? ==> r.next.value == ColumnRef(td.tableIds.next, columns.next)
  {
    DefaultUsage(ColumnRef(td.tableIds.previous, columns.previous),
      if DefaultsToEnum(td.Next().columns[columns.next], names.next) then Some(ColumnRef(td.tableIds.next, columns.next)) else None)
  }

  predicate PreviousDefaultsToEnum(td: TableDiffer, enumName: string, columns: Pair<nat>) {
    && columns.previous < |td.Previous().columns| && columns.next < |td.Next().columns|
    && DefaultsToEnum(td.Previous().columns[columns.previous], enumName)
  }

  /**
   * Usages in a table pair: its dropped columns defaulting to the previous
   * enum, then its paired columns whose previous side does.
   */
  function TablePairUsages(td: TableDiffer, names: Pair<string>): (r: seq<DefaultUsage>)
    ensures forall u :: u in r <==>
      || (&& u.next.None? && u.previous.tableId == td.tableIds.previous && ColumnDropped(td, u.previous.columnId)
          && DefaultsToEnum(td.Previous().columns[u.previous.columnId], names.previous))
      || (exists p :: p in ColumnPairs(td) && PreviousDefaultsToEnum(td, names.previous, p) && u == PairedUsage(td, names, p))
  {
    var pc := td.Previous().columns;
    var dropped := Filter(DroppedColumns(td), (c: nat) => c < |pc| && DefaultsToEnum(pc[c], names.previous));
    var paired := Filter(ColumnPairs(td), (p: Pair<nat>) => PreviousDefaultsToEnum(td, names.previous, p));
    DroppedUsagesOf(td.tableIds.previous, dropped) + PairedUsagesOf(td, names, paired)
  }

  /** The usage of each paired column in `ps`, in order. */
  function PairedUsagesOf(td: TableDiffer, names: Pair<string>, ps: seq<Pair<nat>>): (r: seq<DefaultUsage>)
    requires forall p :: p in ps ==> p.previous < |td.Previous().columns| && p.next < |td.Next().columns|
    ensures forall u :: u in r <==> exists p :: p in ps && u == PairedUsage(td, names, p)
  {
    if |ps| == 0 then []
    else
      assert ps == [ps[0]] + ps[1..];
      [PairedUsage(td, names, ps[0])] + PairedUsagesOf(td, names, ps[1..])
  }

  function TablePairUsageBlocks(d: Differ, names: Pair<string>): (r: seq<seq<DefaultUsage>>)
    ensures |r| == |TableDiffers(d)|
    ensures forall k :: 0 <= k < |r| ==> r[k] == TablePairUsages(TableDiffers(d)[k], names)
  {
    var tds := TableDiffers(d);
    seq(|tds|, k requires 0 <= k < |tds| => TablePairUsages(tds[k], names))
  }

  /** A usage from a dropped table: one of its columns with a default of the enum, with no next column. */
  predicate DroppedTableUsage(d: Differ, enumName: string, u: DefaultUsage) {
    && u.next.None?
    && TableDropped(d, u.previous.tableId)
    && u.previous.columnId < |d.PreviousTables()[u.previous.tableId].columns|
    && DefaultsToEnum(d.PreviousTables()[u.previous.tableId].columns[u.previous.columnId], enumName)
  }

  lemma DroppedTableUsages(d: Differ, enumName: string, u: DefaultUsage)
    ensures u in Flatten(DroppedTableUsageBlocks(d, enumName)) <==> DroppedTableUsage(d, enumName, u)
  {
    var blocks, ts := DroppedTableUsageBlocks(d, enumName), DroppedTables(d);
    FlattenMember(blocks, u);
    if u in Flatten(blocks) {
      var k :| 0 <= k < |blocks| && u in blocks[k];
    }
    if DroppedTableUsage(d, enumName, u) {
      var k :| 0 <= k < |ts| && ts[k] == u.previous.tableId;
      assert u in blocks[k];
    }
  }

  lemma PairUsages(d: Differ, names: Pair<string>, u: DefaultUsage)
    ensures u in Flatten(TablePairUsageBlocks(d, names)) <==> exists td :: td in TableDiffers(d) && u in TablePairUsages(td, names)
  {
    FlattenMapMember(TableDiffers(d), TablePairUsageBlocks(d, names), (td: TableDiffer) => TablePairUsages(td, names), u);
  }

  lemma UsagesMembers(d: Differ, names: Pair<string>)
    ensures forall u :: u in Flatten(DroppedTableUsageBlocks(d, names.previous)) + Flatten(TablePairUsageBlocks(d, names)) <==>
      DroppedTableUsage(d, names.previous, u) || exists td :: td in TableDiffers(d) && u in TablePairUsages(td, names)
  {
    forall u: DefaultUsage
      ensures u in Flatten(DroppedTableUsageBlocks(d, names.previous)) + Flatten(TablePairUsageBlocks(d, names)) <==>
        DroppedTableUsage(d, names.previous, u) || exists td :: td in TableDiffers(d) && u in TablePairUsages(td, names)
    {
      DroppedTableUsages(d, names.previous, u);
      PairUsages(d, names, u);
    }
  }

  /**
   * Every previous column whose default is a value of the altered enum:
   * columns of dropped tables, then, table pair by table pair (redefined
   * ones included), dropped columns and paired columns.
   */
  function PreviousUsagesAsDefault(d: Differ, names: Pair<string>): (r: seq<DefaultUsage>)
    ensures forall u :: u in r <==>
      DroppedTableUsage(d, names.previous, u) || exists td :: td in TableDiffers(d) && u in TablePairUsages(td, names)
  {
    UsagesMembers(d, names);
    Flatten(DroppedTableUsageBlocks(d, names.previous)) + Flatten(TablePairUsageBlocks(d, names))
  }

  /** The `AlterEnum` step of an altered enum pair: the variants gained and lost, and the default usages of the previous enum. */
  function AlterEnumOf(d: Differ, index: Pair<nat>): (r: AlterEnum)
    requires index.previous < |d.PreviousEnums()| && index.next < |d.NextEnums()|
    ensures r.index == index
    ensures var enums := EnumsAt(d, index);
      && (forall v :: v in r.createdVariants <==> v in enums.next.values && v !in enums.previous.values)
      && (forall v :: v in r.droppedVariants <==> v in enums.previous.values && v !in enums.next.values)
      && r.previousUsagesAsDefault == PreviousUsagesAsDefault(d, Pair(enums.previous.name, enums.next.name))
  {
    var enums := EnumsAt(d, index);
    AlterEnum(index, CreatedVariants(enums), DroppedVariants(enums),
      PreviousUsagesAsDefault(d, Pair(enums.previous.name, enums.next.name)))
  }

  /** An `AlterEnumStep` for each enum pair in `ps`, in order. */
  function AlterEnumStepsOf(d: Differ, ps: seq<Pair<nat>>): (r: seq<Step>)
    requires forall p :: p in ps ==> p.previous < |d.PreviousEnums()| && p.next < |d.NextEnums()|
    ensures |r| == |ps|
    ensures forall s :: s in r <==> s.AlterEnumStep? && exists p :: p in ps && s.alterEnum == AlterEnumOf(d, p)
  {
    if |ps| == 0 then []
    else
      assert ps == [ps[0]] + ps[1..];
      [AlterEnumStep(AlterEnumOf(d, ps[0]))] + AlterEnumStepsOf(d, ps[1..])
  }

  /** An `AlterEnumStep` per enum pair that gained or lost a variant, on dialects with enums of their own. */
  function AlterEnumSteps(d: Differ): (r: seq<Step>)
    ensures |r| == |AlteredEnumPairs(d)|
    ensures forall s :: s in r <==> s.AlterEnumStep? && exists p :: p in AlteredEnumPairs(d) && s.alterEnum == AlterEnumOf(d, p)
  {
    AlterEnumStepsOf(d, AlteredEnumPairs(d))
  }

  // ---- the whole diff ----

  /** The step lists of the passes, one field per pass, in the order the passes run. */
  datatype Passes = Passes(
    createTables: seq<Step>, dropTables: seq<Step>, dropIndexes: seq<Step>, createIndexes: seq<Step>,
    alteredTables: seq<Step>, createEnums: seq<Step>, dropEnums: seq<Step>, alterEnums: seq<Step>,
    redefineTables: seq<Step>, alterIndexes: seq<Step>, redefineIndexes: seq<Step>)
  {
    /** Everything pushed, pass after pass. */
    function All(): seq<Step> {
      createTables + dropTables + dropIndexes + createIndexes + alteredTables
      + createEnums + dropEnums + alterEnums + redefineTables + alterIndexes + redefineIndexes
    }
  }

  /**
   * What each pass pushes, with the index drops in the order given (the
   * source iterates a hash set there).
   */
  function PassesWith(d: Differ, dropIndexes: seq<Step>): Passes {
    Passes(PushCreateTables(d), DropTables(d), dropIndexes, PushCreateIndexes(d), PushAlteredTables(d),
      CreateEnumSteps(d), DropEnumSteps(d), AlterEnumSteps(d), RedefineTablesSteps(d),
      AlterIndexSteps(d), RedefineIndexSteps(d))
  }

  function Pushed(d: Differ): seq<Step> {
    PassesWith(d, DropIndexes(d)).All()
  }

  /** The migration steps: every pushed step, sorted by the step order. */
  function CalculateSteps(d: Differ): (r: seq<Step>)
    ensures Sorted(r)
    ensures multiset(r) == multiset(Pushed(d))
  {
    SortSteps(Pushed(d))
  }
}
