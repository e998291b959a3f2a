/**
 * The capability descriptor of a SQL dialect: every decision the differ
 * delegates to the dialect, as a closed record of answers. Boolean fields
 * are named after the capability queries they answer. The queries that look
 * at data are the predicates below, each with one fixed definition.
 */
module SqlFlavour {
  import opened Wrappers
  import opened SqlSchema
  import opened SqlMigration

  datatype Flavour = Flavour(
    shouldPushForeignKeysFromCreatedTables: bool,
    shouldDropForeignKeysFromDroppedTables: bool,
    canAlterIndex: bool,
    shouldRecreateThePrimaryKeyOnColumnRecreate: bool,
    shouldCreateIndexesFromCreatedTables: bool,
    /** Unique indexes of created tables are created inline with the table. */
    shouldSkipUniqueIndexForNewTable: bool,
    indexesShouldBeRecreatedAfterColumnDrop: bool,
    shouldSkipFkIndexes: bool,
    shouldDropIndexesFromDroppedTables: bool,
    canCopeWithForeignKeyColumnBecomingNonnullable: bool,
    /** Table names compare ignoring ASCII case. */
    lowerCasesTableNames: bool,
    /** The ReferentialActions preview feature is enabled. */
    referentialActions: bool,
    /** Enums are schema objects of their own, created, dropped and altered by name. */
    hasNativeEnums: bool,
    /** Indexes touching a column whose type changes are dropped and recreated around the change. */
    recreatesIndexesOnColumnTypeChange: bool,
    /** How a change between two type families can be carried out; absent pairs cannot be cast. */
    castRules: map<(ColumnTypeFamily, ColumnTypeFamily), ColumnTypeChange>)

  function AsciiLower(c: char): char {
    if 'A' <= c <= 'Z' then (c as int + 32) as char else c
  }

  predicate AsciiEqualIgnoreCase(a: string, b: string) {
    |a| == |b| && forall i :: 0 <= i < |a| ==> AsciiLower(a[i]) == AsciiLower(b[i])
  }

  predicate TableNamesMatch(f: Flavour, a: string, b: string) {
    if f.lowerCasesTableNames then AsciiEqualIgnoreCase(a, b) else a == b
  }

  /**
   * An index paired across the schemas is renamed when its name changed.
   * This is one fixed rule for every dialect, not a capability answer.
   */
  predicate IndexShouldBeRenamed(indexes: Pair<Index>) {
    indexes.previous.name != indexes.next.name
  }

  /**
   * An index of a created table is skipped when it is unique and the dialect
   * creates unique indexes inline; no other index is ever skipped.
   */
  predicate ShouldSkipIndexForNewTable(f: Flavour, index: Index) {
    f.shouldSkipUniqueIndexForNewTable && index.tpe == Unique
  }

  /** The type change between two paired columns, if their families differ. */
  function ColumnTypeChangeOf(f: Flavour, previous: Column, next: Column): (r: Option<ColumnTypeChange>)
    ensures r.None? <==> previous.family == next.family
    ensures r == Some(NotCastable) <== previous.family != next.family && (previous.family, next.family) !in f.castRules
  {
    if previous.family == next.family then None
    else if (previous.family, next.family) in f.castRules then Some(f.castRules[(previous.family, next.family)])
    else Some(NotCastable)
  }
}
