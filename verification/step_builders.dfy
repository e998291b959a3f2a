/**
 * Building blocks for step lists: one step (or table change) of a given
 * kind per id in a list, with what the result contains stated once here so
 * the differ's passes can rely on it.
 */
module StepBuilders {
  import opened Wrappers
  import opened SqlMigration

  /** `AddForeignKey` on table `t` for each foreign-key index in `ks`. */
  function AddForeignKeys(t: nat, ks: seq<nat>): (r: seq<Step>)
    ensures forall s :: s in r <==> s.AddForeignKey? && s.tableId == t && s.foreignKeyIndex in ks
  {
    if |ks| == 0 then []
    else
      assert ks == [ks[0]] + ks[1..];
      [AddForeignKey(t, ks[0])] + AddForeignKeys(t, ks[1..])
  }

  /** `DropForeignKey` on table `t` for each foreign-key index in `ks`. */
  function DropForeignKeys(t: nat, ks: seq<nat>): (r: seq<Step>)
    ensures forall s :: s in r <==> s.DropForeignKey? && s.tableId == t && s.foreignKeyIndex in ks
  {
    if |ks| == 0 then []
    else
      assert ks == [ks[0]] + ks[1..];
      [DropForeignKey(t, ks[0])] + DropForeignKeys(t, ks[1..])
  }

  /** `DropIndex` on table `t` for each index in `ixs`. */
  function DropIndexesOf(t: nat, ixs: seq<nat>): (r: seq<Step>)
    ensures forall s :: s in r <==> s.DropIndex? && s.tableId == t && s.indexIndex in ixs
  {
    if |ixs| == 0 then []
    else
      assert ixs == [ixs[0]] + ixs[1..];
      [DropIndex(t, ixs[0])] + DropIndexesOf(t, ixs[1..])
  }

  /** `CreateIndex` on table `t` (formerly `previous`, if it existed) for each index in `ixs`. */
  function CreateIndexesOf(previous: Option<nat>, t: nat, ixs: seq<nat>): (r: seq<Step>)
    ensures forall s :: s in r <==> s.CreateIndex? && s.previousTableId == previous && s.tableId == t && s.indexIndex in ixs
  {
    if |ixs| == 0 then []
    else
      assert ixs == [ixs[0]] + ixs[1..];
      [CreateIndex(previous, t, ixs[0])] + CreateIndexesOf(previous, t, ixs[1..])
  }

  /** `DropColumn` for each column id in `cs`, in order. */
  function DropColumns(cs: seq<nat>): (r: seq<TableChange>)
    ensures |r| == |cs|
    ensures forall k :: 0 <= k < |r| ==> r[k] == DropColumn(cs[k])
  {
    if |cs| == 0 then [] else [DropColumn(cs[0])] + DropColumns(cs[1..])
  }

  /** `AddColumn` for each column id in `cs`, in order. */
  function AddColumns(cs: seq<nat>): (r: seq<TableChange>)
    ensures |r| == |cs|
    ensures forall k :: 0 <= k < |r| ==> r[k] == AddColumn(cs[k])
  {
    if |cs| == 0 then [] else [AddColumn(cs[0])] + AddColumns(cs[1..])
  }

  /** An index to rename: the (previous, next) table ids and the (previous, next) index ids. */
  datatype IndexRename = IndexRename(tables: Pair<nat>, indexes: Pair<nat>)

  /** The renames of table pair `tables` for each index pair in `ps`. */
  function RenamesOf(tables: Pair<nat>, ps: seq<Pair<nat>>): (r: seq<IndexRename>)
    ensures forall x :: x in r <==> x.tables == tables && x.indexes in ps
  {
    if |ps| == 0 then []
    else
      assert ps == [ps[0]] + ps[1..];
      [IndexRename(tables, ps[0])] + RenamesOf(tables, ps[1..])
  }

  /** An `AlterIndex` step for each rename. */
  function AlterIndexesOf(renames: seq<IndexRename>): (r: seq<Step>)
    ensures forall s :: s in r <==> s.AlterIndex? && IndexRename(s.tables, s.indexes) in renames
  {
    if |renames| == 0 then []
    else
      assert renames == [renames[0]] + renames[1..];
      [AlterIndex(renames[0].tables, renames[0].indexes)] + AlterIndexesOf(renames[1..])
  }

  /** A `RedefineIndex` step for each rename. */
  function RedefineIndexesOf(renames: seq<IndexRename>): (r: seq<Step>)
    ensures forall s :: s in r <==> s.RedefineIndex? && IndexRename(s.tables, s.indexes) in renames
  {
    if |renames| == 0 then []
    else
      assert renames == [renames[0]] + renames[1..];
      [RedefineIndex(renames[0].tables, renames[0].indexes)] + RedefineIndexesOf(renames[1..])
  }

  /** A usage with no next-schema counterpart for each column `c` in `cs` of table `t`. */
  function DroppedUsagesOf(t: nat, cs: seq<nat>): (r: seq<DefaultUsage>)
    ensures forall u :: u in r <==> u.next.None? && u.previous.tableId == t && u.previous.columnId in cs
  {
    if |cs| == 0 then []
    else
      assert cs == [cs[0]] + cs[1..];
      [DefaultUsage(ColumnRef(t, cs[0]), None)] + DroppedUsagesOf(t, cs[1..])
  }

  /** `CreateEnum` for each enum id in `es`. */
  function CreateEnumsOf(es: seq<nat>): (r: seq<Step>)
    ensures forall s :: s in r <==> s.CreateEnum? && s.enumIndex in es
  {
    if |es| == 0 then []
    else
      assert es == [es[0]] + es[1..];
      [CreateEnum(es[0])] + CreateEnumsOf(es[1..])
  }

  /** `DropEnum` for each enum id in `es`. */
  function DropEnumsOf(es: seq<nat>): (r: seq<Step>)
    ensures forall s :: s in r <==> s.DropEnum? && s.enumIndex in es
  {
    if |es| == 0 then []
    else
      assert es == [es[0]] + es[1..];
      [DropEnum(es[0])] + DropEnumsOf(es[1..])
  }
}
