/**
 * The migration-step vocabulary the differ produces, and the total order the
 * final `steps.sort()` uses. Steps are ordered as a derived `Ord` orders
 * them: first by variant, then by their fields. The step declarations are
 * not part of this model, so the variant order below and the order of each
 * variant's fields are assumed.
 */
module SqlMigration {
  import opened Wrappers
  import opened DerivedOrd
  import opened Sorting

  /** How a column's type changes: in place, in place with possible data loss, or not at all. */
  datatype ColumnTypeChange = SafeCast | RiskyCast | NotCastable

  /** Which aspects of a paired column differ. */
  datatype ColumnChanges = ColumnChanges(arity: bool, default: bool, typeChanged: bool) {
    predicate DiffersInSomething() {
      arity || default || typeChanged
    }
  }

  /** One change inside an `AlterTable` step; column ids index the table's columns. */
  datatype TableChange =
    | AddColumn(columnId: nat)
    | DropColumn(columnId: nat)
    | DropPrimaryKey
    | AddPrimaryKey
    | AlterColumn(columnIds: Pair<nat>, changes: ColumnChanges, typeChange: Option<ColumnTypeChange>)
    | DropAndRecreateColumn(columnIds: Pair<nat>, changes: ColumnChanges)

  /** A column pair of a redefined table, with everything that changed about it. */
  datatype RedefinedColumn = RedefinedColumn(columnIds: Pair<nat>, changes: ColumnChanges, typeChange: Option<ColumnTypeChange>)

  /** A table rebuilt from scratch (create new, copy, drop old, rename). */
  datatype RedefineTable = RedefineTable(
    tableIds: Pair<nat>,
    droppedPrimaryKey: bool,
    addedColumns: seq<nat>,
    droppedColumns: seq<nat>,
    columnPairs: seq<RedefinedColumn>)

  /** A column of some table: table id and column id. */
  datatype ColumnRef = ColumnRef(tableId: nat, columnId: nat)

  /**
   * A column whose default used a value of an altered enum: where it was,
   * and where it still is (if the column survives and keeps an enum default).
   */
  datatype DefaultUsage = DefaultUsage(previous: ColumnRef, next: Option<ColumnRef>)

  /** An enum whose variant list changed. */
  datatype AlterEnum = AlterEnum(
    index: Pair<nat>,
    createdVariants: seq<string>,
    droppedVariants: seq<string>,
    previousUsagesAsDefault: seq<DefaultUsage>)

  /** A migration step; `tableId`s index the previous or next schema's tables as noted. */
  datatype Step =
    | AlterEnumStep(alterEnum: AlterEnum)
    | DropForeignKey(tableId: nat, foreignKeyIndex: nat)
    | DropIndex(tableId: nat, indexIndex: nat)
    | AlterTable(tableIds: Pair<nat>, changes: seq<TableChange>)
    | DropEnum(enumIndex: nat)
    | CreateEnum(enumIndex: nat)
    | DropTable(tableId: nat)
    | RedefineTables(redefined: seq<RedefineTable>)
    | CreateTable(tableId: nat)
    | CreateIndex(previousTableId: Option<nat>, tableId: nat, indexIndex: nat)
    | AddForeignKey(tableId: nat, foreignKeyIndex: nat)
    | AlterIndex(tables: Pair<nat>, indexes: Pair<nat>)
    | RedefineIndex(tables: Pair<nat>, indexes: Pair<nat>)

  // ---- the derived order, through the tree encoding of DerivedOrd ----

  function EncPair(p: Pair<nat>): Val {
    Node([Leaf(p.previous), Leaf(p.next)])
  }

  function EncOptNat(o: Option<nat>): Val {
    match o
    case None => Node([Leaf(0)])
    case Some(n) => Node([Leaf(1), Leaf(n)])
  }

  function EncOptRef(o: Option<ColumnRef>): Val {
    match o
    case None => Node([Leaf(0)])
    case Some(r) => Node([Leaf(1), EncRef(r)])
  }

  function EncTypeChange(c: ColumnTypeChange): Val {
    match c
    case SafeCast => Leaf(0)
    case RiskyCast => Leaf(1)
    case NotCastable => Leaf(2)
  }

  function EncOptTypeChange(o: Option<ColumnTypeChange>): Val {
    match o
    case None => Node([Leaf(0)])
    case Some(c) => Node([Leaf(1), EncTypeChange(c)])
  }

  function EncChanges(c: ColumnChanges): Val {
    Node([Bool(c.arity), Bool(c.default), Bool(c.typeChanged)])
  }

  function EncTableChange(c: TableChange): Val {
    match c
    case AddColumn(id) => Node([Leaf(0), Leaf(id)])
    case DropColumn(id) => Node([Leaf(1), Leaf(id)])
    case DropPrimaryKey => Node([Leaf(2)])
    case AddPrimaryKey => Node([Leaf(3)])
    case AlterColumn(ids, ch, tc) => Node([Leaf(4), EncPair(ids), EncChanges(ch), EncOptTypeChange(tc)])
    case DropAndRecreateColumn(ids, ch) => Node([Leaf(5), EncPair(ids), EncChanges(ch)])
  }

  function EncNat(n: nat): Val {
    Leaf(n)
  }

  function EncRedefinedColumn(c: RedefinedColumn): Val {
    Node([EncPair(c.columnIds), EncChanges(c.changes), EncOptTypeChange(c.typeChange)])
  }

  function EncRedefineTable(t: RedefineTable): Val {
    Node([EncPair(t.tableIds), Bool(t.droppedPrimaryKey), Many(t.addedColumns, EncNat),
          Many(t.droppedColumns, EncNat), Many(t.columnPairs, EncRedefinedColumn)])
  }

  function EncRef(r: ColumnRef): Val {
    Node([Leaf(r.tableId), Leaf(r.columnId)])
  }

  function EncUsage(u: DefaultUsage): Val {
    Node([EncRef(u.previous), EncOptRef(u.next)])
  }

  function EncAlterEnum(a: AlterEnum): Val {
    Node([EncPair(a.index), Many(a.createdVariants, Str), Many(a.droppedVariants, Str),
          Many(a.previousUsagesAsDefault, EncUsage)])
  }

  /** The variant index of a step, in the assumed declaration order. */
  function Rank(s: Step): nat {
    match s
    case AlterEnumStep(_) => 0
    case DropForeignKey(_, _) => 1
    case DropIndex(_, _) => 2
    case AlterTable(_, _) => 3
    case DropEnum(_) => 4
    case CreateEnum(_) => 5
    case DropTable(_) => 6
    case RedefineTables(_) => 7
    case CreateTable(_) => 8
    case CreateIndex(_, _, _) => 9
    case AddForeignKey(_, _) => 10
    case AlterIndex(_, _) => 11
    case RedefineIndex(_, _) => 12
  }

  function Fields(s: Step): seq<Val> {
    match s
    case AlterEnumStep(a) => [EncAlterEnum(a)]
    case DropForeignKey(t, i) => [Leaf(t), Leaf(i)]
    case DropIndex(t, i) => [Leaf(t), Leaf(i)]
    case AlterTable(ids, changes) => [Node([EncPair(ids), Many(changes, EncTableChange)])]
    case DropEnum(i) => [Leaf(i)]
    case CreateEnum(i) => [Leaf(i)]
    case DropTable(t) => [Leaf(t)]
    case RedefineTables(ts) => [Many(ts, EncRedefineTable)]
    case CreateTable(t) => [Leaf(t)]
    case CreateIndex(p, t, i) => [Node([EncOptNat(p), Leaf(t)]), Leaf(i)]
    case AddForeignKey(t, i) => [Leaf(t), Leaf(i)]
    case AlterIndex(ts, ix) => [EncPair(ts), EncPair(ix)]
    case RedefineIndex(ts, ix) => [EncPair(ts), EncPair(ix)]
  }

  function Enc(s: Step): Val {
    Node([Leaf(Rank(s))] + Fields(s))
  }

  /** `a` sorts no later than `b`. */
  predicate StepLe(a: Step, b: Step) {
    Le(Enc(a), Enc(b))
  }

  // ---- injectivity of the encoding: the order is antisymmetric on steps ----

  lemma TableChangeEncInjective(a: TableChange, b: TableChange)
    requires EncTableChange(a) == EncTableChange(b)
    ensures a == b
  {
    assert EncTableChange(a).kids[0] == EncTableChange(b).kids[0];
    match a
    case AlterColumn(_, _, _) =>
      assert EncTableChange(a).kids[1] == EncTableChange(b).kids[1];
      assert EncTableChange(a).kids[2] == EncTableChange(b).kids[2];
      assert EncTableChange(a).kids[3] == EncTableChange(b).kids[3];
    case DropAndRecreateColumn(_, _) =>
      assert EncTableChange(a).kids[1] == EncTableChange(b).kids[1];
      assert EncTableChange(a).kids[2] == EncTableChange(b).kids[2];
    case _ =>
  }

  lemma RedefineTableEncInjective(a: RedefineTable, b: RedefineTable)
    requires EncRedefineTable(a) == EncRedefineTable(b)
    ensures a == b
  {
    var ka, kb := EncRedefineTable(a).kids, EncRedefineTable(b).kids;
    assert ka[0] == kb[0] && ka[1] == kb[1] && ka[2] == kb[2] && ka[3] == kb[3] && ka[4] == kb[4];
    ManyInjective(a.addedColumns, b.addedColumns, EncNat);
    ManyInjective(a.droppedColumns, b.droppedColumns, EncNat);
    forall x, y | EncRedefinedColumn(x) == EncRedefinedColumn(y)
      ensures x == y
    {
      var kx, ky := EncRedefinedColumn(x).kids, EncRedefinedColumn(y).kids;
      assert kx[0] == ky[0] && kx[1] == ky[1] && kx[2] == ky[2];
    }
    ManyInjective(a.columnPairs, b.columnPairs, EncRedefinedColumn);
  }

  lemma AlterEnumEncInjective(a: AlterEnum, b: AlterEnum)
    requires EncAlterEnum(a) == EncAlterEnum(b)
    ensures a == b
  {
    var ka, kb := EncAlterEnum(a).kids, EncAlterEnum(b).kids;
    assert ka[0] == kb[0] && ka[1] == kb[1] && ka[2] == kb[2] && ka[3] == kb[3];
    forall x, y | Str(x) == Str(y)
      ensures x == y
    {
      StrInjective(x, y);
    }
    ManyInjective(a.createdVariants, b.createdVariants, Str);
    ManyInjective(a.droppedVariants, b.droppedVariants, Str);
    forall x, y | EncUsage(x) == EncUsage(y)
      ensures x == y
    {
      var kx, ky := EncUsage(x).kids, EncUsage(y).kids;
      assert kx[0] == ky[0] && kx[1] == ky[1];
      assert EncRef(x.previous).kids[0] == EncRef(y.previous).kids[0];
      assert EncRef(x.previous).kids[1] == EncRef(y.previous).kids[1];
      if x.next.Some? && y.next.Some? {
        assert EncOptRef(x.next).kids[1] == EncOptRef(y.next).kids[1];
        assert EncRef(x.next.value).kids[0] == EncRef(y.next.value).kids[0];
        assert EncRef(x.next.value).kids[1] == EncRef(y.next.value).kids[1];
      } else {
        assert EncOptRef(x.next).kids[0] == EncOptRef(y.next).kids[0];
      }
    }
    ManyInjective(a.previousUsagesAsDefault, b.previousUsagesAsDefault, EncUsage);
  }

  /** Distinct steps have distinct encodings. */
  lemma EncInjective(a: Step, b: Step)
    requires Enc(a) == Enc(b)
    ensures a == b
  {
    var ka, kb := Enc(a).kids, Enc(b).kids;
    assert ka[0] == kb[0];
    assert Rank(a) == Rank(b);
    assert |ka| == |kb|;
    assert ka[1..] == Fields(a) && kb[1..] == Fields(b);
    assert Fields(a) == Fields(b);
    match a
    case AlterEnumStep(x) =>
      AlterEnumEncInjective(x, b.alterEnum);
    case AlterTable(_, _) =>
      var fa, fb := Fields(a)[0].kids, Fields(b)[0].kids;
      assert fa[0] == fb[0] && fa[1] == fb[1];
      forall x, y | EncTableChange(x) == EncTableChange(y)
        ensures x == y
      {
        TableChangeEncInjective(x, y);
      }
      ManyInjective(a.changes, b.changes, EncTableChange);
    case RedefineTables(_) =>
      forall x, y | EncRedefineTable(x) == EncRedefineTable(y)
        ensures x == y
      {
        RedefineTableEncInjective(x, y);
      }
      ManyInjective(a.redefined, b.redefined, EncRedefineTable);
    case CreateIndex(_, _, _) =>
      var fa, fb := Fields(a)[0].kids, Fields(b)[0].kids;
      assert fa[0] == fb[0] && fa[1] == fb[1];
      if a.previousTableId.Some? && b.previousTableId.Some? {
        assert EncOptNat(a.previousTableId).kids[1] == EncOptNat(b.previousTableId).kids[1];
      } else {
        assert EncOptNat(a.previousTableId).kids[0] == EncOptNat(b.previousTableId).kids[0];
      }
    case _ =>
  }

  /** The step order is a total order: total, antisymmetric, transitive. */
  lemma StepLeTotal(a: Step, b: Step)
    ensures StepLe(a, b) || StepLe(b, a)
  {
    CmpTotal(Enc(a), Enc(b));
  }

  lemma StepLeAntisymmetric(a: Step, b: Step)
    requires StepLe(a, b) && StepLe(b, a)
    ensures a == b
  {
    CmpAntisymmetric(Enc(a), Enc(b));
    EncInjective(a, b);
  }

  lemma StepLeTransitive(a: Step, b: Step, c: Step)
    requires StepLe(a, b) && StepLe(b, c)
    ensures StepLe(a, c)
  {
    CmpTrans(Enc(a), Enc(b), Enc(c));
  }

  /** Steps of a lower variant sort strictly before steps of a higher one. */
  lemma RankOrdersSteps(a: Step, b: Step)
    requires Rank(a) < Rank(b)
    ensures StepLe(a, b) && !StepLe(b, a)
  {
    var ka, kb := Enc(a).kids, Enc(b).kids;
    assert ka[0] == Leaf(Rank(a)) && kb[0] == Leaf(Rank(b));
    assert CmpSeq(ka, kb) == -1;
    CmpFlip(Enc(a), Enc(b));
  }

  // ---- sorting ----

  lemma StepLeIsTotalOrder()
    ensures TotalOrder(StepLe)
  {
    forall a, b ensures StepLe(a, b) || StepLe(b, a) {
      StepLeTotal(a, b);
    }
    forall a, b | StepLe(a, b) && StepLe(b, a) ensures a == b {
      StepLeAntisymmetric(a, b);
    }
    forall a, b, c | StepLe(a, b) && StepLe(b, c) ensures StepLe(a, c) {
      StepLeTransitive(a, b, c);
    }
  }

  predicate Sorted(s: seq<Step>) {
    SortedBy(s, StepLe)
  }

  /** The steps sorted by the step order (the source's `steps.sort()`). */
  function SortSteps(s: seq<Step>): (r: seq<Step>)
    ensures Sorted(r)
    ensures multiset(r) == multiset(s)
  {
    StepLeIsTotalOrder();
    SortBy(s, StepLe)
  }

  /** Sorting steps only sees their multiset. */
  lemma SortStepsIgnoresOrder(s: seq<Step>, t: seq<Step>)
    requires multiset(s) == multiset(t)
    ensures SortSteps(s) == SortSteps(t)
  {
    StepLeIsTotalOrder();
    SortIgnoresOrder(s, t, StepLe);
  }

  /** In sorted steps, a step of a lower variant never follows one of a higher variant. */
  lemma SortedByRank(s: seq<Step>)
    requires Sorted(s)
    ensures forall i, j :: 0 <= i < j < |s| ==> Rank(s[i]) <= Rank(s[j])
  {
    forall i, j | 0 <= i < j < |s| ensures Rank(s[i]) <= Rank(s[j]) {
      if Rank(s[j]) < Rank(s[i]) {
        assert StepLe(s[i], s[j]);
        RankOrdersSteps(s[j], s[i]);
      }
    }
  }
}
