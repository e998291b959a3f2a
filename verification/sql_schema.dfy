/**
 * The connector-neutral description of a SQL schema the differ compares:
 * tables (with columns, indexes, a primary key and foreign keys) and enums.
 * Ids are positions: a table id indexes `tables`, a column id a table's
 * `columns`, and so on. Indexes, primary keys and foreign keys name their
 * columns, as the schema describer records them.
 */
module SqlSchema {
  import opened Wrappers

  datatype ColumnTypeFamily =
    | Int | BigInt | Float | Decimal | Boolean | String | DateTime | Binary | Json | Uuid
    | Enum(enumName: string)
    | Unsupported(description: string)

  datatype ColumnArity = Required | Nullable | List

  datatype Column = Column(name: string, family: ColumnTypeFamily, arity: ColumnArity, default: Option<string>)

  datatype IndexType = Normal | Unique

  datatype Index = Index(name: string, columns: seq<string>, tpe: IndexType)

  datatype ForeignKeyAction = NoAction | Restrict | Cascade | SetNull | SetDefault

  datatype ForeignKey = ForeignKey(
    constraintName: Option<string>,
    columns: seq<string>,
    referencedTable: string,
    referencedColumns: seq<string>,
    onDelete: ForeignKeyAction,
    onUpdate: ForeignKeyAction)

  datatype PrimaryKey = PrimaryKey(columns: seq<string>)

  datatype Table = Table(
    name: string,
    columns: seq<Column>,
    indexes: seq<Index>,
    primaryKey: Option<PrimaryKey>,
    foreignKeys: seq<ForeignKey>)

  datatype SqlEnum = SqlEnum(name: string, values: seq<string>)

  predicate HasColumn(t: Table, name: string) {
    exists i :: 0 <= i < |t.columns| && t.columns[i].name == name
  }

  /**
   * Every column a foreign key constrains exists in its table: the
   * describer only produces such tables, and walking a foreign key's
   * columns relies on it.
   */
  predicate ForeignKeyColumnsResolve(t: Table) {
    forall k, c :: 0 <= k < |t.foreignKeys| && c in t.foreignKeys[k].columns ==> HasColumn(t, c)
  }

  type WfTable = t: Table | ForeignKeyColumnsResolve(t) witness Table("", [], [], None, [])

  datatype Schema = Schema(tables: seq<WfTable>, enums: seq<SqlEnum>)

  /** The first column of `t` called `name`. */
  function ColumnNamed(t: Table, name: string): (c: Column)
    requires HasColumn(t, name)
    ensures c in t.columns && c.name == name
  {
    ColumnNamedFrom(t.columns, name)
  }

  function ColumnNamedFrom(cols: seq<Column>, name: string): (c: Column)
    requires exists i :: 0 <= i < |cols| && cols[i].name == name
    ensures c in cols && c.name == name
  {
    if cols[0].name == name then cols[0]
    else
      assert exists i :: 0 <= i < |cols[1..]| && cols[1..][i].name == name by {
        var i :| 0 <= i < |cols| && cols[i].name == name;
        assert cols[1..][i - 1] == cols[i];
      }
      ColumnNamedFrom(cols[1..], name)
  }

  predicate IsPartOfPrimaryKey(t: Table, c: Column) {
    t.primaryKey.Some? && c.name in t.primaryKey.value.columns
  }

  predicate ColumnTypeIsEnum(c: Column, enumName: string) {
    c.family == Enum(enumName)
  }

  /** A foreign key together with the columns it constrains (a walker, in the describer's terms). */
  datatype ForeignKeyWalker = ForeignKeyWalker(fk: ForeignKey, constrainedColumns: seq<Column>)

  function WalkForeignKey(t: WfTable, k: nat): (w: ForeignKeyWalker)
    requires k < |t.foreignKeys|
    ensures w.fk == t.foreignKeys[k]
    ensures |w.constrainedColumns| == |w.fk.columns|
    ensures forall i :: 0 <= i < |w.fk.columns| ==> w.constrainedColumns[i].name == w.fk.columns[i]
  {
    var fk := t.foreignKeys[k];
    ForeignKeyWalker(fk, seq(|fk.columns|, i requires 0 <= i < |fk.columns| => ColumnNamed(t, fk.columns[i])))
  }
}
