/**
 * Enums: how they pair across the schemas by name, which steps the result
 * holds for them, and the default usages recorded in an altered enum.
 */
module EnumProperties {
  import opened Wrappers
  import opened SqlSchema
  import opened SqlFlavour
  import opened SqlMigration
  import opened Matching
  import opened TableDiffer
  import opened StepBuilders
  import opened SchemaDiffer
  import opened StepProperties

  // ---- pairing by name ----

  /** Every previous enum is either paired with a next enum or dropped, never both. */
  lemma PreviousEnumPartition(d: Differ, i: nat)
    requires i < |d.PreviousEnums()|
    ensures (exists k :: 0 <= k < |EnumPairs(d)| && EnumPairs(d)[k].previous == i) != EnumDropped(d, i)
  {
    var p, n := d.PreviousEnums(), d.NextEnums();
    assert EnumPairs(d) == PairFirstMatches(|p|, |n|, EnumsMatchAt(d));
    if !EnumDropped(d, i) {
      var j :| 0 <= j < |n| && p[i].name == n[j].name;
      assert EnumsMatchAt(d)(i, j);
    }
  }

  /** No two next enums share a name, as in any schema the describer produces. */
  predicate DistinctNextEnumNames(d: Differ) {
    forall j1, j2 :: 0 <= j1 < j2 < |d.NextEnums()| ==> d.NextEnums()[j1].name != d.NextEnums()[j2].name
  }

  /** Every next enum is either paired with a previous enum or created, never both. */
  lemma NextEnumPartition(d: Differ, j: nat)
    requires j < |d.NextEnums()|
    requires DistinctNextEnumNames(d)
    ensures (exists k :: 0 <= k < |EnumPairs(d)| && EnumPairs(d)[k].next == j) != EnumCreated(d, j)
  {
    var p, n, r := d.PreviousEnums(), d.NextEnums(), EnumPairs(d);
    if !EnumCreated(d, j) {
      var i :| 0 <= i < |p| && p[i].name == n[j].name;
      assert EnumsMatchAt(d)(i, j);
      var k :| 0 <= k < |r| && r[k].previous == i;
    }
  }

  /** Paired enums have the same name; only the first next enum of that name is paired. */
  lemma EnumPairsByName(d: Differ, k: nat)
    requires k < |EnumPairs(d)|
    ensures var x := EnumPairs(d)[k];
      && d.PreviousEnums()[x.previous].name == d.NextEnums()[x.next].name
      && forall j :: 0 <= j < x.next ==> d.NextEnums()[j].name != d.PreviousEnums()[x.previous].name
  {
    var x := EnumPairs(d)[k];
    var p, n := d.PreviousEnums(), d.NextEnums();
    forall j | 0 <= j < x.next
      ensures n[j].name != p[x.previous].name
    {
      assert !EnumsMatchAt(d)(x.previous, j);
    }
  }

  // ---- enum steps ----

  /** Enums are created and dropped by name, and only on dialects with enums of their own. */
  lemma CreatedAndDroppedEnums(d: Differ, s: Step)
    requires s.CreateEnum? || s.DropEnum?
    ensures s in CalculateSteps(d) <==>
      && d.flavour.hasNativeEnums
      && if s.CreateEnum? then EnumCreated(d, s.enumIndex) else EnumDropped(d, s.enumIndex)
  {
    CalculatedMembers(d, s);
  }

  /**
   * On dialects with enums of their own, the result alters exactly the enum
   * pairs that gained or lost a variant; other dialects alter none.
   */
  lemma AlteredEnums(d: Differ, s: Step)
    requires s.AlterEnumStep?
    ensures s in CalculateSteps(d) <==>
      && d.flavour.hasNativeEnums
      && exists p :: p in EnumPairs(d) && EnumAltered(d, p) && s.alterEnum == AlterEnumOf(d, p)
  {
    CalculatedMembers(d, s);
  }

  /**
   * An enum alteration lists the variants the next enum gained and the ones
   * it lost, and it alters something exactly when the pair was altered.
   */
  lemma AlterEnumContents(d: Differ, p: Pair<nat>)
    requires p.previous < |d.PreviousEnums()| && p.next < |d.NextEnums()|
    ensures var a, enums := AlterEnumOf(d, p), EnumsAt(d, p);
      && a.index == p
      && (forall v :: v in a.createdVariants <==> v in enums.next.values && v !in enums.previous.values)
      && (forall v :: v in a.droppedVariants <==> v in enums.previous.values && v !in enums.next.values)
      && (EnumAltered(d, p) <==> |a.createdVariants| != 0 || |a.droppedVariants| != 0)
  {
  }

  // ---- default usages ----

  /** The previous column a usage names exists and has a default of the previous enum. */
  predicate PreviousUsageSound(d: Differ, enumName: string, ref: ColumnRef) {
    && ref.tableId < |d.PreviousTables()|
    && ref.columnId < |d.PreviousTables()[ref.tableId].columns|
    && DefaultsToEnum(d.PreviousTables()[ref.tableId].columns[ref.columnId], enumName)
  }

  /**
   * The next column a usage names exists, has a default of the next enum,
   * and is the previous column carried over: same name, in the matching table.
   */
  predicate NextUsageSound(d: Differ, names: Pair<string>, previous: ColumnRef, next: ColumnRef)
    requires previous.tableId < |d.PreviousTables()| && previous.columnId < |d.PreviousTables()[previous.tableId].columns|
  {
    && next.tableId < |d.NextTables()|
    && next.columnId < |d.NextTables()[next.tableId].columns|
    && DefaultsToEnum(d.NextTables()[next.tableId].columns[next.columnId], names.next)
    && TableNamesMatch(d.flavour, d.PreviousTables()[previous.tableId].name, d.NextTables()[next.tableId].name)
    && d.PreviousTables()[previous.tableId].columns[previous.columnId].name == d.NextTables()[next.tableId].columns[next.columnId].name
  }

  /** A table pair's differ holds the two tables at its ids. */
  lemma TableDifferShape(d: Differ, td: TableDiffer)
    requires td in TableDiffers(d)
    ensures td.tableIds.previous < |d.PreviousTables()| && td.tableIds.next < |d.NextTables()|
    ensures td.Previous() == d.PreviousTables()[td.tableIds.previous] && td.Next() == d.NextTables()[td.tableIds.next]
    ensures TableNamesMatch(d.flavour, td.Previous().name, td.Next().name)
  {
    var k :| 0 <= k < |TableDiffers(d)| && TableDiffers(d)[k] == td;
    assert td.tableIds == TablePairs(d)[k];
  }

  lemma PairUsageSound(d: Differ, names: Pair<string>, td: TableDiffer, u: DefaultUsage)
    requires td in TableDiffers(d) && u in TablePairUsages(td, names)
    ensures PreviousUsageSound(d, names.previous, u.previous)
    ensures u.next.Some? ==> NextUsageSound(d, names, u.previous, u.next.value)
  {
    TableDifferShape(d, td);
    if u.next.Some? {
      var p :| p in ColumnPairs(td) && PreviousDefaultsToEnum(td, names.previous, p) && u == PairedUsage(td, names, p);
      var kp :| 0 <= kp < |ColumnPairs(td)| && ColumnPairs(td)[kp] == p;
    }
  }

  /**
   * Every recorded usage names a previous column with a default of the
   * previous enum and, when it names a next column too, that column carries
   * the previous one over with a default of the next enum.
   */
  lemma UsagesSound(d: Differ, names: Pair<string>, u: DefaultUsage)
    requires u in PreviousUsagesAsDefault(d, names)
    ensures PreviousUsageSound(d, names.previous, u.previous)
    ensures u.next.Some? ==> NextUsageSound(d, names, u.previous, u.next.value)
  {
    if u in Flatten(DroppedTableUsageBlocks(d, names.previous)) {
      DroppedTableUsages(d, names.previous, u);
    } else {
      PairUsages(d, names, u);
      var td :| td in TableDiffers(d) && u in TablePairUsages(td, names);
      PairUsageSound(d, names, td, u);
    }
  }

  /** A previous table is either paired with a next table or dropped. */
  lemma PreviousTablePartition(d: Differ, t: nat)
    requires t < |d.PreviousTables()|
    ensures TableDropped(d, t) || exists td :: td in TableDiffers(d) && td.tableIds.previous == t
  {
    var p, n := d.PreviousTables(), d.NextTables();
    assert TablePairs(d) == PairFirstMatches(|p|, |n|, TablesMatchAt(d));
    if !TableDropped(d, t) {
      var j :| 0 <= j < |n| && TableNamesMatch(d.flavour, p[t].name, n[j].name);
      assert TablesMatchAt(d)(t, j);
      var k :| 0 <= k < |TablePairs(d)| && TablePairs(d)[k].previous == t;
      assert TableDiffers(d)[k] in TableDiffers(d);
    }
  }

  /** A previous column of a table pair is either paired with a next column or dropped. */
  lemma PreviousColumnPartition(td: TableDiffer, c: nat)
    requires c < |td.Previous().columns|
    ensures ColumnDropped(td, c) || exists p :: p in ColumnPairs(td) && p.previous == c
  {
    var pc, nc := td.Previous().columns, td.Next().columns;
    assert ColumnPairs(td) == PairFirstMatches(|pc|, |nc|, ColumnsMatch(td));
    if !ColumnDropped(td, c) {
      var j :| 0 <= j < |nc| && nc[j].name == pc[c].name;
      assert ColumnsMatch(td)(c, j);
      var k :| 0 <= k < |ColumnPairs(td)| && ColumnPairs(td)[k].previous == c;
      assert ColumnPairs(td)[k] in ColumnPairs(td);
    }
  }

  /** Every previous column with a default of the previous enum has its usage recorded. */
  lemma UsagesComplete(d: Differ, names: Pair<string>, ref: ColumnRef)
    requires PreviousUsageSound(d, names.previous, ref)
    ensures exists u :: u in PreviousUsagesAsDefault(d, names) && u.previous == ref
  {
    PreviousTablePartition(d, ref.tableId);
    if TableDropped(d, ref.tableId) {
      var u := DefaultUsage(ref, None);
      DroppedTableUsages(d, names.previous, u);
      assert u in PreviousUsagesAsDefault(d, names);
    } else {
      var td :| td in TableDiffers(d) && td.tableIds.previous == ref.tableId;
      var u := PairUsageComplete(d, names, td, ref.columnId);
      PairUsages(d, names, u);
      assert u in PreviousUsagesAsDefault(d, names);
    }
  }

  lemma DroppedColumnUsage(td: TableDiffer, names: Pair<string>, c: nat) returns (u: DefaultUsage)
    requires ColumnDropped(td, c) && DefaultsToEnum(td.Previous().columns[c], names.previous)
    ensures u in TablePairUsages(td, names) && u == DefaultUsage(ColumnRef(td.tableIds.previous, c), None)
  {
    u := DefaultUsage(ColumnRef(td.tableIds.previous, c), None);
  }

  lemma PairedColumnUsageIn(td: TableDiffer, names: Pair<string>, p: Pair<nat>) returns (u: DefaultUsage)
    requires p in ColumnPairs(td)
    requires p.previous < |td.Previous().columns| && DefaultsToEnum(td.Previous().columns[p.previous], names.previous)
    ensures u in TablePairUsages(td, names) && u.previous == ColumnRef(td.tableIds.previous, p.previous)
  {
    var kp :| 0 <= kp < |ColumnPairs(td)| && ColumnPairs(td)[kp] == p;
    assert PreviousDefaultsToEnum(td, names.previous, p);
    u := PairedUsage(td, names, p);
  }

  /** A column of a table pair with a default of the previous enum has its usage in the pair's usages. */
  lemma PairUsageComplete(d: Differ, names: Pair<string>, td: TableDiffer, c: nat) returns (u: DefaultUsage)
    requires td in TableDiffers(d)
    requires PreviousUsageSound(d, names.previous, ColumnRef(td.tableIds.previous, c))
    ensures u in TablePairUsages(td, names) && u.previous == ColumnRef(td.tableIds.previous, c)
  {
    TableDifferShape(d, td);
    PreviousColumnPartition(td, c);
    if ColumnDropped(td, c) {
      u := DroppedColumnUsage(td, names, c);
    } else {
      var p :| p in ColumnPairs(td) && p.previous == c;
      u := PairedColumnUsageIn(td, names, p);
    }
  }

  /**
   * A paired column whose previous default is of the previous enum records
   * its next column exactly when that column has a default of the next enum.
   */
  lemma PairedColumnUsage(d: Differ, names: Pair<string>, td: TableDiffer, p: Pair<nat>)
    requires td in TableDiffers(d) && p in ColumnPairs(td) && PreviousDefaultsToEnum(td, names.previous, p)
    ensures var u := PairedUsage(td, names, p);
      && u in PreviousUsagesAsDefault(d, names)
      && u.previous == ColumnRef(td.tableIds.previous, p.previous)
      && (u.next.Some? <==> DefaultsToEnum(td.Next().columns[p.next], names.next))
      && (u.next.Some? ==> u.next.value == ColumnRef(td.tableIds.next, p.next))
  {
    var u := PairedUsage(td, names, p);
    PairUsages(d, names, u);
  }
}
