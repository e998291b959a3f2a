/**
 * When two foreign keys, one in each schema, count as "the same" foreign key:
 * paired foreign keys are left alone, unpaired ones are dropped or created.
 */
module ForeignKeysMatching {
  import opened Wrappers
  import opened SqlSchema
  import opened SqlFlavour

  /** Uuid and String columns are interchangeable; other families must be equal. */
  predicate FamiliesMatch(previous: ColumnTypeFamily, next: ColumnTypeFamily) {
    match (previous, next)
    case (Uuid, String) => true
    case (String, Uuid) => true
    case (x, y) => x == y
  }

  /**
   * A constrained column may become nullable, but may become required only
   * when the dialect can cope with that.
   */
  predicate AritiesOk(f: Flavour, previous: ColumnArity, next: ColumnArity) {
    || f.canCopeWithForeignKeyColumnBecomingNonnullable
    || previous == next
    || (previous == Required && next == Nullable)
  }

  predicate ConstrainedColumnsMatch(f: Flavour, previous: Column, next: Column) {
    previous.name == next.name && FamiliesMatch(previous.family, next.family) && AritiesOk(f, previous.arity, next.arity)
  }

  /**
   * The two foreign keys should be considered equivalent for schema diffing.
   * Matching keys reference the same table, constrain as many columns, and
   * reference the same column names in the same order; under the
   * ReferentialActions preview feature they also have equal actions.
   */
  predicate ForeignKeysMatch(fks: Pair<ForeignKeyWalker>, f: Flavour)
    ensures ForeignKeysMatch(fks, f) ==>
      && TableNamesMatch(f, fks.previous.fk.referencedTable, fks.next.fk.referencedTable)
      && |fks.previous.constrainedColumns| == |fks.next.constrainedColumns|
      && fks.previous.fk.referencedColumns == fks.next.fk.referencedColumns
    ensures ForeignKeysMatch(fks, f) && f.referentialActions ==>
      fks.previous.fk.onDelete == fks.next.fk.onDelete && fks.previous.fk.onUpdate == fks.next.fk.onUpdate
  {
    var p, n := fks.previous, fks.next;
    var referencesSameTable := TableNamesMatch(f, p.fk.referencedTable, n.fk.referencedTable);
    var referencesSameColumnCount := |p.fk.referencedColumns| == |n.fk.referencedColumns|;
    var constrainsSameColumnCount := |p.constrainedColumns| == |n.constrainedColumns|;
    // columns are compared pairwise, as far as both lists go
    var constrainsSameColumns := forall i :: 0 <= i < |p.constrainedColumns| && i < |n.constrainedColumns| ==>
      ConstrainedColumnsMatch(f, p.constrainedColumns[i], n.constrainedColumns[i]);
    var referencesSameColumns := forall i :: 0 <= i < |p.fk.referencedColumns| && i < |n.fk.referencedColumns| ==>
      p.fk.referencedColumns[i] == n.fk.referencedColumns[i];
    var matches := referencesSameTable && referencesSameColumnCount && constrainsSameColumnCount
      && constrainsSameColumns && referencesSameColumns;
    if f.referentialActions then
      matches && p.fk.onDelete == n.fk.onDelete && p.fk.onUpdate == n.fk.onUpdate
    else
      matches
  }

  /** Families match exactly when they are equal or are Uuid and String in either order. */
  lemma FamiliesMatchIff(x: ColumnTypeFamily, y: ColumnTypeFamily)
    ensures FamiliesMatch(x, y) <==> x == y || (x == Uuid && y == String) || (x == String && y == Uuid)
  {
  }

  /** For a one-column foreign key that keeps everything else, only the families decide. */
  lemma SingleColumnFamilies(fk: ForeignKey, a: Column, b: Column, f: Flavour)
    requires a.name == b.name && a.arity == b.arity
    ensures ForeignKeysMatch(Pair(ForeignKeyWalker(fk, [a]), ForeignKeyWalker(fk, [b])), f)
        <==> a.family == b.family || (a.family == Uuid && b.family == String) || (a.family == String && b.family == Uuid)
  {
    var w := Pair(ForeignKeyWalker(fk, [a]), ForeignKeyWalker(fk, [b]));
    AsciiEqualIgnoreCaseReflexive(fk.referencedTable);
    if ForeignKeysMatch(w, f) {
      assert ConstrainedColumnsMatch(f, w.previous.constrainedColumns[0], w.next.constrainedColumns[0]);
    }
  }

  /**
   * For a one-column foreign key that keeps everything else, only the
   * arities decide: nullable to required is refused unless the dialect copes
   * with it, required to nullable is always accepted.
   */
  lemma SingleColumnArities(fk: ForeignKey, a: Column, b: Column, f: Flavour)
    requires a.name == b.name && a.family == b.family
    ensures ForeignKeysMatch(Pair(ForeignKeyWalker(fk, [a]), ForeignKeyWalker(fk, [b])), f)
        <==> f.canCopeWithForeignKeyColumnBecomingNonnullable || a.arity == b.arity || (a.arity == Required && b.arity == Nullable)
    ensures !f.canCopeWithForeignKeyColumnBecomingNonnullable && a.arity == Nullable && b.arity == Required ==>
      !ForeignKeysMatch(Pair(ForeignKeyWalker(fk, [a]), ForeignKeyWalker(fk, [b])), f)
  {
    var w := Pair(ForeignKeyWalker(fk, [a]), ForeignKeyWalker(fk, [b]));
    AsciiEqualIgnoreCaseReflexive(fk.referencedTable);
    if ForeignKeysMatch(w, f) {
      assert ConstrainedColumnsMatch(f, w.previous.constrainedColumns[0], w.next.constrainedColumns[0]);
    }
  }

  function WithActions(w: ForeignKeyWalker, onDelete: ForeignKeyAction, onUpdate: ForeignKeyAction): ForeignKeyWalker {
    w.(fk := w.fk.(onDelete := onDelete, onUpdate := onUpdate))
  }

  /** Without the ReferentialActions preview feature, the actions can be anything. */
  lemma ReferentialActionsIgnored(fks: Pair<ForeignKeyWalker>, f: Flavour, d1: ForeignKeyAction, u1: ForeignKeyAction, d2: ForeignKeyAction, u2: ForeignKeyAction)
    requires !f.referentialActions
    ensures
      (ForeignKeysMatch(Pair(WithActions(fks.previous, d1, u1), WithActions(fks.next, d2, u2)), f) <==> ForeignKeysMatch(fks, f))
  {
  }

  lemma AsciiEqualIgnoreCaseReflexive(s: string)
    ensures AsciiEqualIgnoreCase(s, s)
  {
  }

  /** Every foreign key matches itself. */
  lemma ForeignKeysMatchReflexive(w: ForeignKeyWalker, f: Flavour)
    ensures ForeignKeysMatch(Pair(w, w), f)
  {
    AsciiEqualIgnoreCaseReflexive(w.fk.referencedTable);
  }
}
