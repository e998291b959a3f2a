/**
 * What the change list of an altered table says: which column pairs get a
 * change and which change, in what order the changes come, and when the
 * primary key is dropped and added again.
 */
module TableChangeProperties {
  import opened Wrappers
  import opened SqlSchema
  import opened SqlFlavour
  import opened SqlMigration
  import opened Matching
  import opened TableDiffer
  import opened StepBuilders
  import opened SchemaDiffer

  // ---- alter_columns ----

  /**
   * Each change of `AlterColumns` belongs to a paired column that differs in
   * arity, default or type family; a column that cannot be cast is dropped
   * and recreated, any other keeps its type-change tag.
   */
  lemma AlterColumnsSound(td: TableDiffer, k: nat)
    requires k < |AlterColumns(td)|
    ensures var c := AlterColumns(td)[k];
      && c.columnIds in ColumnPairs(td)
      && var previous, next := td.Previous().columns[c.columnIds.previous], td.Next().columns[c.columnIds.next];
      && (previous.arity != next.arity || previous.default != next.default || previous.family != next.family)
      && (c.DropAndRecreateColumn? <==> ColumnTypeChangeOf(td.flavour, previous, next) == Some(NotCastable))
      && (c.AlterColumn? ==> c.typeChange == ColumnTypeChangeOf(td.flavour, previous, next))
  {
    var p := ChangedColumnPairs(td)[k];
    assert p in ChangedColumnPairs(td);
    assert AlterColumns(td)[k] == ColumnChangeOf(td, p);
  }

  /** Every paired column that differs in arity, default or type family gets a change. */
  lemma AlterColumnsComplete(td: TableDiffer, p: Pair<nat>)
    requires p in ColumnPairs(td)
    requires var previous, next := td.Previous().columns[p.previous], td.Next().columns[p.next];
      previous.arity != next.arity || previous.default != next.default || previous.family != next.family
    ensures exists k :: 0 <= k < |AlterColumns(td)| && AlterColumns(td)[k].columnIds == p
  {
    assert p in ChangedColumnPairs(td);
    var k :| 0 <= k < |ChangedColumnPairs(td)| && ChangedColumnPairs(td)[k] == p;
    assert AlterColumns(td)[k] == ColumnChangeOf(td, p);
  }

  /**
   * The changes are in strictly increasing previous-column order, hence
   * sorted by column-id pair: sorting them by that key leaves them as they are.
   */
  lemma AlterColumnsSortedByColumns(td: TableDiffer)
    ensures forall i, j :: 0 <= i < j < |AlterColumns(td)| ==>
      AlterColumns(td)[i].columnIds.previous < AlterColumns(td)[j].columnIds.previous
  {
    var before := (a: Pair<nat>, b: Pair<nat>) => a.previous < b.previous;
    FilterKeepsOrder(ColumnPairs(td), (p: Pair<nat>) => ColumnPairChanged(td, p), before);
    var changed := ChangedColumnPairs(td);
    forall i, j | 0 <= i < j < |AlterColumns(td)|
      ensures AlterColumns(td)[i].columnIds.previous < AlterColumns(td)[j].columnIds.previous
    {
      assert changed[i] in changed && changed[j] in changed;
      assert AlterColumns(td)[i] == ColumnChangeOf(td, changed[i]);
      assert AlterColumns(td)[j] == ColumnChangeOf(td, changed[j]);
      assert before(changed[i], changed[j]);
    }
  }

  // ---- order of the changes ----

  /** Where a change goes in an `AlterTable` change list. */
  function ChangeRank(c: TableChange): nat {
    match c
    case DropPrimaryKey => 0
    case DropColumn(_) => 1
    case AddColumn(_) => 2
    case AlterColumn(_, _, _) => 3
    case DropAndRecreateColumn(_, _) => 3
    case AddPrimaryKey => 4
  }

  predicate RankedBlock(cs: seq<TableChange>, rank: nat) {
    forall c :: c in cs ==> ChangeRank(c) == rank
  }

  predicate RanksAtMost(cs: seq<TableChange>, rank: nat) {
    forall c :: c in cs ==> ChangeRank(c) <= rank
  }

  predicate Ordered(cs: seq<TableChange>) {
    forall i, j :: 0 <= i < j < |cs| ==> ChangeRank(cs[i]) <= ChangeRank(cs[j])
  }

  /** An ordered list of changes ranked at most `rank`, followed by a block of rank `rank`, is ordered. */
  lemma {:induction false} AppendBlock(a: seq<TableChange>, b: seq<TableChange>, rank: nat)
    requires Ordered(a) && RanksAtMost(a, rank) && RankedBlock(b, rank)
    ensures Ordered(a + b) && RanksAtMost(a + b, rank)
  {
    forall i, j | 0 <= i < j < |a + b| ensures ChangeRank((a + b)[i]) <= ChangeRank((a + b)[j]) {
      if j < |a| {
        assert (a + b)[i] == a[i] && (a + b)[j] == a[j];
      } else if i >= |a| {
        assert (a + b)[i] == b[i - |a|] && (a + b)[j] == b[j - |a|];
      } else {
        assert (a + b)[i] == a[i] && (a + b)[j] == b[j - |a|];
        assert a[i] in a && b[j - |a|] in b;
      }
    }
  }

  /** The order holds for any change list built from blocks of the right kinds. */
  lemma AlterTableChangesOrdered(dropPk: seq<TableChange>, dropped: seq<nat>, added: seq<nat>, altered: seq<TableChange>, addPk: seq<TableChange>)
    requires dropPk == [] || dropPk == [DropPrimaryKey]
    requires forall c :: c in altered ==> c.AlterColumn? || c.DropAndRecreateColumn?
    requires addPk == [] || addPk == [AddPrimaryKey]
    ensures Ordered(AlterTableChanges(dropPk, dropped, added, altered, addPk))
  {
    var dc, ac := DropColumns(dropped), AddColumns(added);
    assert RankedBlock(dc, 1) by {
      forall c | c in dc ensures ChangeRank(c) == 1 { var k :| 0 <= k < |dc| && dc[k] == c; }
    }
    assert RankedBlock(ac, 2) by {
      forall c | c in ac ensures ChangeRank(c) == 2 { var k :| 0 <= k < |ac| && ac[k] == c; }
    }
    assert Ordered(dropPk) && RanksAtMost(dropPk, 0);
    AppendBlock(dropPk, dc, 1);
    AppendBlock(dropPk + dc, ac, 2);
    AppendBlock(dropPk + dc + ac, altered, 3);
    AppendBlock(dropPk + dc + ac + altered, addPk, 4);
  }

  /**
   * The changes of an altered table come in the order: primary-key drop,
   * column drops, column additions, column alterations, primary-key addition.
   */
  lemma TableChangesOrdered(td: TableDiffer)
    ensures forall i, j :: 0 <= i < j < |TableChanges(td)| ==> ChangeRank(TableChanges(td)[i]) <= ChangeRank(TableChanges(td)[j])
  {
    AlterTableChangesOrdered(DropPrimaryKeyChange(td), DroppedColumns(td), AddedColumns(td), AlterColumns(td), AddPrimaryKeyChange(td));
  }

  /** In any such change list, the column drops and additions are those of the given ids. */
  lemma AlterTableChangesColumns(dropPk: seq<TableChange>, dropped: seq<nat>, added: seq<nat>, altered: seq<TableChange>, addPk: seq<TableChange>, c: nat)
    requires dropPk == [] || dropPk == [DropPrimaryKey]
    requires forall x :: x in altered ==> x.AlterColumn? || x.DropAndRecreateColumn?
    requires addPk == [] || addPk == [AddPrimaryKey]
    ensures DropColumn(c) in AlterTableChanges(dropPk, dropped, added, altered, addPk) <==> c in dropped
    ensures AddColumn(c) in AlterTableChanges(dropPk, dropped, added, altered, addPk) <==> c in added
  {
    var dc, ac := DropColumns(dropped), AddColumns(added);
    if DropColumn(c) in dc {
      var k :| 0 <= k < |dc| && dc[k] == DropColumn(c);
    }
    if c in dropped {
      var k :| 0 <= k < |dropped| && dropped[k] == c;
      assert dc[k] == DropColumn(c);
    }
    assert DropColumn(c) !in ac by {
      forall k | 0 <= k < |ac| ensures ac[k] != DropColumn(c) { }
    }
    if AddColumn(c) in ac {
      var k :| 0 <= k < |ac| && ac[k] == AddColumn(c);
    }
    if c in added {
      var k :| 0 <= k < |added| && added[k] == c;
      assert ac[k] == AddColumn(c);
    }
    assert AddColumn(c) !in dc by {
      forall k | 0 <= k < |dc| ensures dc[k] != AddColumn(c) { }
    }
  }

  /** The column drops and additions of an altered table are exactly its unpaired columns. */
  lemma TableChangesColumns(td: TableDiffer, c: nat)
    ensures DropColumn(c) in TableChanges(td) <==> ColumnDropped(td, c)
    ensures AddColumn(c) in TableChanges(td) <==> ColumnAdded(td, c)
  {
    AlterTableChangesColumns(DropPrimaryKeyChange(td), DroppedColumns(td), AddedColumns(td), AlterColumns(td), AddPrimaryKeyChange(td), c);
  }

  // ---- primary key ----

  /** Column drops and additions are not primary-key changes. */
  lemma ColumnBlocksHaveNoPrimaryKey(dropped: seq<nat>, added: seq<nat>)
    ensures multiset(DropColumns(dropped))[DropPrimaryKey] == 0 && multiset(DropColumns(dropped))[AddPrimaryKey] == 0
    ensures multiset(AddColumns(added))[DropPrimaryKey] == 0 && multiset(AddColumns(added))[AddPrimaryKey] == 0
  {
    var dc, ac := DropColumns(dropped), AddColumns(added);
    assert DropPrimaryKey !in dc && AddPrimaryKey !in dc by {
      forall k | 0 <= k < |dc| ensures dc[k] != DropPrimaryKey && dc[k] != AddPrimaryKey { }
    }
    assert DropPrimaryKey !in ac && AddPrimaryKey !in ac by {
      forall k | 0 <= k < |ac| ensures ac[k] != DropPrimaryKey && ac[k] != AddPrimaryKey { }
    }
  }

  lemma AlterTableChangesMultiset(dropPk: seq<TableChange>, dropped: seq<nat>, added: seq<nat>, altered: seq<TableChange>, addPk: seq<TableChange>)
    ensures multiset(AlterTableChanges(dropPk, dropped, added, altered, addPk))
      == multiset(dropPk) + multiset(DropColumns(dropped)) + multiset(AddColumns(added)) + multiset(altered) + multiset(addPk)
  {
  }

  /** Column alterations are not primary-key changes. */
  lemma AlteredColumnsHaveNoPrimaryKey(altered: seq<TableChange>)
    requires forall c :: c in altered ==> c.AlterColumn? || c.DropAndRecreateColumn?
    ensures multiset(altered)[DropPrimaryKey] == 0 && multiset(altered)[AddPrimaryKey] == 0
  {
    assert DropPrimaryKey !in altered && AddPrimaryKey !in altered;
  }

  /** A change list holds a primary-key drop or addition exactly when its block holds one, and at most once. */
  lemma AlterTableChangesPrimaryKey(dropPk: seq<TableChange>, dropped: seq<nat>, added: seq<nat>, altered: seq<TableChange>, addPk: seq<TableChange>)
    requires dropPk == [] || dropPk == [DropPrimaryKey]
    requires forall c :: c in altered ==> c.AlterColumn? || c.DropAndRecreateColumn?
    requires addPk == [] || addPk == [AddPrimaryKey]
    ensures multiset(AlterTableChanges(dropPk, dropped, added, altered, addPk))[DropPrimaryKey] == |dropPk|
    ensures multiset(AlterTableChanges(dropPk, dropped, added, altered, addPk))[AddPrimaryKey] == |addPk|
  {
    ColumnBlocksHaveNoPrimaryKey(dropped, added);
    AlteredColumnsHaveNoPrimaryKey(altered);
    AlterTableChangesMultiset(dropPk, dropped, added, altered, addPk);
    assert multiset(dropPk)[AddPrimaryKey] == 0 && multiset(addPk)[DropPrimaryKey] == 0;
    assert multiset(dropPk)[DropPrimaryKey] == |dropPk| && multiset(addPk)[AddPrimaryKey] == |addPk|;
  }

  /**
   * The schemas' own primary-key change: a dropped key is dropped, a created
   * key is added only if it has columns; without primary-key recreation these
   * are the only primary-key changes. Each appears at most once.
   */
  lemma PrimaryKeyFromSchema(td: TableDiffer)
    ensures DroppedPrimaryKey(td).Some? ==> DropPrimaryKey in TableChanges(td)
    ensures CreatedPrimaryKey(td).Some? && |CreatedPrimaryKey(td).value.columns| != 0 ==> AddPrimaryKey in TableChanges(td)
    ensures !td.flavour.shouldRecreateThePrimaryKeyOnColumnRecreate ==>
      && (DropPrimaryKey in TableChanges(td) <==> DroppedPrimaryKey(td).Some?)
      && (AddPrimaryKey in TableChanges(td) <==> CreatedPrimaryKey(td).Some? && |CreatedPrimaryKey(td).value.columns| != 0)
    ensures multiset(TableChanges(td))[DropPrimaryKey] <= 1 && multiset(TableChanges(td))[AddPrimaryKey] <= 1
  {
    AlterTableChangesPrimaryKey(DropPrimaryKeyChange(td), DroppedColumns(td), AddedColumns(td), AlterColumns(td), AddPrimaryKeyChange(td));
  }

  /**
   * With primary-key recreation, a previous primary-key column that is
   * dropped and recreated (its type cannot be cast) makes the table drop its
   * primary key and add it again.
   */
  lemma RecreatedPrimaryKeyColumn(td: TableDiffer, k: nat)
    requires td.flavour.shouldRecreateThePrimaryKeyOnColumnRecreate
    requires k < |ColumnPairs(td)|
    requires var p := ColumnPairs(td)[k];
      var previous, next := td.Previous().columns[p.previous], td.Next().columns[p.next];
      ColumnTypeChangeOf(td.flavour, previous, next) == Some(NotCastable) && IsPartOfPrimaryKey(td.Previous(), previous)
    ensures DropPrimaryKey in TableChanges(td) && AddPrimaryKey in TableChanges(td)
  {
    var p := ColumnPairs(td)[k];
    assert p in ColumnPairs(td);
    AlterColumnsComplete(td, p);
    var j :| 0 <= j < |AlterColumns(td)| && AlterColumns(td)[j].columnIds == p;
    AlterColumnsSound(td, j);
    assert RecreatesPrimaryKeyColumn(td);
    AlterTableChangesPrimaryKey(DropPrimaryKeyChange(td), DroppedColumns(td), AddedColumns(td), AlterColumns(td), AddPrimaryKeyChange(td));
  }
}
