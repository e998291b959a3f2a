/**
 * A pair of tables, one from each schema, that the differ treats as the same
 * table, and what changed between them. Columns pair by name, indexes by
 * their column list and index type, foreign keys by `ForeignKeysMatch`;
 * unpaired elements are added or dropped.
 */
module TableDiffer {
  import opened Wrappers
  import opened SqlSchema
  import opened SqlFlavour
  import opened SqlMigration
  import opened Matching
  import opened ForeignKeysMatching

  datatype TableDiffer = TableDiffer(flavour: Flavour, tableIds: Pair<nat>, tables: Pair<WfTable>) {
    function Previous(): WfTable { tables.previous }
    function Next(): WfTable { tables.next }
  }

  // ---- columns ----

  function ColumnsMatch(td: TableDiffer): (nat, nat) -> bool {
    var pc, nc := td.Previous().columns, td.Next().columns;
    (i: nat, j: nat) => i < |pc| && j < |nc| && pc[i].name == nc[j].name
  }

  /** Previous columns paired with the first next column of the same name, in previous order. */
  function ColumnPairs(td: TableDiffer): (r: seq<Pair<nat>>)
    ensures forall k :: 0 <= k < |r| ==>
      && r[k].previous < |td.Previous().columns| && r[k].next < |td.Next().columns|
      && td.Previous().columns[r[k].previous].name == td.Next().columns[r[k].next].name
    ensures forall k, j :: 0 <= k < |r| && 0 <= j < r[k].next ==>
      td.Next().columns[j].name != td.Previous().columns[r[k].previous].name
    ensures forall k1, k2 :: 0 <= k1 < k2 < |r| ==> r[k1].previous < r[k2].previous
    ensures forall i, j ::
      (0 <= i < |td.Previous().columns| && 0 <= j < |td.Next().columns| && td.Previous().columns[i].name == td.Next().columns[j].name) ==>
      exists k :: 0 <= k < |r| && r[k].previous == i
  {
    ColumnPairsByName(td);
    PairFirstMatches(|td.Previous().columns|, |td.Next().columns|, ColumnsMatch(td))
  }

  /** The first-match pairing of the column positions, restated with column names. */
  lemma ColumnPairsByName(td: TableDiffer)
    ensures var pc, nc, r := td.Previous().columns, td.Next().columns, PairFirstMatches(|td.Previous().columns|, |td.Next().columns|, ColumnsMatch(td));
      && (forall k, j :: 0 <= k < |r| && 0 <= j < r[k].next ==> nc[j].name != pc[r[k].previous].name)
      && (forall i, j :: 0 <= i < |pc| && 0 <= j < |nc| && pc[i].name == nc[j].name ==>
          exists k :: 0 <= k < |r| && r[k].previous == i)
  {
    var pc, nc := td.Previous().columns, td.Next().columns;
    var r := PairFirstMatches(|pc|, |nc|, ColumnsMatch(td));
    forall k, j | 0 <= k < |r| && 0 <= j < r[k].next
      ensures nc[j].name != pc[r[k].previous].name
    {
      assert !ColumnsMatch(td)(r[k].previous, j);
    }
    forall i, j | 0 <= i < |pc| && 0 <= j < |nc| && pc[i].name == nc[j].name
      ensures exists k :: 0 <= k < |r| && r[k].previous == i
    {
      assert ColumnsMatch(td)(i, j);
    }
  }

  /** No next column has the name of previous column `i`. */
  predicate ColumnDropped(td: TableDiffer, i: nat) {
    i < |td.Previous().columns| && forall j :: 0 <= j < |td.Next().columns| ==> td.Next().columns[j].name != td.Previous().columns[i].name
  }

  /** No previous column has the name of next column `j`. */
  predicate ColumnAdded(td: TableDiffer, j: nat) {
    j < |td.Next().columns| && forall i :: 0 <= i < |td.Previous().columns| ==> td.Previous().columns[i].name != td.Next().columns[j].name
  }

  /** Previous columns with no next column of the same name. */
  function DroppedColumns(td: TableDiffer): (r: seq<nat>)
    ensures forall i: nat :: i in r <==> ColumnDropped(td, i)
    ensures StrictlyIncreasing(r)
  {
    var pc, nc := td.Previous().columns, td.Next().columns;
    assert forall i: nat, j: nat :: ColumnsMatch(td)(i, j) <==> i < |pc| && j < |nc| && pc[i].name == nc[j].name;
    UnmatchedPrevious(|pc|, |nc|, ColumnsMatch(td))
  }

  /** Next columns with no previous column of the same name. */
  function AddedColumns(td: TableDiffer): (r: seq<nat>)
    ensures forall j: nat :: j in r <==> ColumnAdded(td, j)
    ensures StrictlyIncreasing(r)
  {
    var pc, nc := td.Previous().columns, td.Next().columns;
    assert forall i: nat, j: nat :: ColumnsMatch(td)(i, j) <==> i < |pc| && j < |nc| && pc[i].name == nc[j].name;
    UnmatchedNext(|pc|, |nc|, ColumnsMatch(td))
  }

  /** Everything that differs between two paired columns, and how the type changes. */
  function AllChanges(f: Flavour, previous: Column, next: Column): (r: (ColumnChanges, Option<ColumnTypeChange>))
    ensures r.0.DiffersInSomething() <==> previous.arity != next.arity || previous.default != next.default || previous.family != next.family
    ensures r.0.typeChanged <==> r.1.Some?
  {
    var typeChange := ColumnTypeChangeOf(f, previous, next);
    (ColumnChanges(previous.arity != next.arity, previous.default != next.default, typeChange.Some?), typeChange)
  }

  function ColumnPairChanges(td: TableDiffer, columns: Pair<nat>): (ColumnChanges, Option<ColumnTypeChange>)
    requires columns.previous < |td.Previous().columns| && columns.next < |td.Next().columns|
  {
    AllChanges(td.flavour, td.Previous().columns[columns.previous], td.Next().columns[columns.next])
  }

  // ---- indexes ----

  predicate IndexesMatch(previous: Index, next: Index) {
    previous.columns == next.columns && previous.tpe == next.tpe
  }

  function IndexesMatchAt(td: TableDiffer): (nat, nat) -> bool {
    var pi, ni := td.Previous().indexes, td.Next().indexes;
    (i: nat, j: nat) => i < |pi| && j < |ni| && IndexesMatch(pi[i], ni[j])
  }

  function IndexPairs(td: TableDiffer): (r: seq<Pair<nat>>)
    ensures forall k :: 0 <= k < |r| ==>
      && r[k].previous < |td.Previous().indexes| && r[k].next < |td.Next().indexes|
      && IndexesMatch(td.Previous().indexes[r[k].previous], td.Next().indexes[r[k].next])
  {
    PairFirstMatches(|td.Previous().indexes|, |td.Next().indexes|, IndexesMatchAt(td))
  }

  /** Next index `j` matches no previous index. */
  predicate IndexCreated(td: TableDiffer, j: nat) {
    j < |td.Next().indexes| && forall i :: 0 <= i < |td.Previous().indexes| ==> !IndexesMatch(td.Previous().indexes[i], td.Next().indexes[j])
  }

  /** Previous index `i` matches no next index. */
  predicate IndexDropped(td: TableDiffer, i: nat) {
    i < |td.Previous().indexes| && forall j :: 0 <= j < |td.Next().indexes| ==> !IndexesMatch(td.Previous().indexes[i], td.Next().indexes[j])
  }

  function CreatedIndexes(td: TableDiffer): (r: seq<nat>)
    ensures forall j: nat :: j in r <==> IndexCreated(td, j)
    ensures StrictlyIncreasing(r)
  {
    var pi, ni := td.Previous().indexes, td.Next().indexes;
    assert forall i: nat, j: nat :: IndexesMatchAt(td)(i, j) <==> i < |pi| && j < |ni| && IndexesMatch(pi[i], ni[j]);
    UnmatchedNext(|pi|, |ni|, IndexesMatchAt(td))
  }

  function DroppedIndexes(td: TableDiffer): (r: seq<nat>)
    ensures forall i: nat :: i in r <==> IndexDropped(td, i)
    ensures StrictlyIncreasing(r)
  {
    var pi, ni := td.Previous().indexes, td.Next().indexes;
    assert forall i: nat, j: nat :: IndexesMatchAt(td)(i, j) <==> i < |pi| && j < |ni| && IndexesMatch(pi[i], ni[j]);
    UnmatchedPrevious(|pi|, |ni|, IndexesMatchAt(td))
  }

  /** The index exists to back one of the table's foreign keys (same column list). */
  predicate IndexCoversFk(t: Table, index: Index) {
    exists k :: 0 <= k < |t.foreignKeys| && t.foreignKeys[k].columns == index.columns
  }

  // ---- foreign keys ----

  function ForeignKeysMatchAt(td: TableDiffer): (nat, nat) -> bool {
    var p, n, f := td.Previous(), td.Next(), td.flavour;
    (i: nat, j: nat) => i < |p.foreignKeys| && j < |n.foreignKeys| &&
      ForeignKeysMatch(Pair(WalkForeignKey(p, i), WalkForeignKey(n, j)), f)
  }

  lemma FkMatchUnfold(td: TableDiffer)
    ensures forall i: nat, j: nat :: ForeignKeysMatchAt(td)(i, j) <==>
      i < |td.Previous().foreignKeys| && j < |td.Next().foreignKeys| &&
      ForeignKeysMatch(Pair(WalkForeignKey(td.Previous(), i), WalkForeignKey(td.Next(), j)), td.flavour)
  {
  }

  /** Next foreign key `j` matches no previous foreign key. */
  predicate ForeignKeyCreated(td: TableDiffer, j: nat) {
    j < |td.Next().foreignKeys| && forall i :: 0 <= i < |td.Previous().foreignKeys| ==>
      !ForeignKeysMatch(Pair(WalkForeignKey(td.Previous(), i), WalkForeignKey(td.Next(), j)), td.flavour)
  }

  /** Previous foreign key `i` matches no next foreign key. */
  predicate ForeignKeyDropped(td: TableDiffer, i: nat) {
    i < |td.Previous().foreignKeys| && forall j :: 0 <= j < |td.Next().foreignKeys| ==>
      !ForeignKeysMatch(Pair(WalkForeignKey(td.Previous(), i), WalkForeignKey(td.Next(), j)), td.flavour)
  }

  /** Next foreign keys that match no previous foreign key. */
  function CreatedForeignKeys(td: TableDiffer): (r: seq<nat>)
    ensures forall j: nat :: j in r <==> ForeignKeyCreated(td, j)
    ensures StrictlyIncreasing(r)
  {
    FkMatchUnfold(td);
    UnmatchedNext(|td.Previous().foreignKeys|, |td.Next().foreignKeys|, ForeignKeysMatchAt(td))
  }

  /** Previous foreign keys that match no next foreign key. */
  function DroppedForeignKeys(td: TableDiffer): (r: seq<nat>)
    ensures forall i: nat :: i in r <==> ForeignKeyDropped(td, i)
    ensures StrictlyIncreasing(r)
  {
    FkMatchUnfold(td);
    UnmatchedPrevious(|td.Previous().foreignKeys|, |td.Next().foreignKeys|, ForeignKeysMatchAt(td))
  }

  // ---- primary keys ----

  /** The next primary key, when the previous table had none or one over other columns. */
  function CreatedPrimaryKey(td: TableDiffer): (r: Option<PrimaryKey>)
    ensures r.Some? <==> (td.Next().primaryKey.Some? &&
      (td.Previous().primaryKey.None? || td.Previous().primaryKey.value.columns != td.Next().primaryKey.value.columns))
    ensures r.Some? ==> r == td.Next().primaryKey
  {
    match (td.Previous().primaryKey, td.Next().primaryKey)
    case (Some(previous), Some(next)) => if previous.columns != next.columns then Some(next) else None
    case _ => td.Next().primaryKey
  }

  /** The previous primary key, when the next table has none or one over other columns. */
  function DroppedPrimaryKey(td: TableDiffer): (r: Option<PrimaryKey>)
    ensures r.Some? <==> (td.Previous().primaryKey.Some? &&
      (td.Next().primaryKey.None? || td.Previous().primaryKey.value.columns != td.Next().primaryKey.value.columns))
    ensures r.Some? ==> r == td.Previous().primaryKey
  {
    match (td.Previous().primaryKey, td.Next().primaryKey)
    case (Some(previous), Some(next)) => if previous.columns != next.columns then Some(previous) else None
    case _ => td.Previous().primaryKey
  }
}
