# Schema differ and SQLite connection parameters

A Dafny model of two pieces of the Prisma engines.

**The SQL schema differ.** The differ compares the previous and next SQL
schemas of a migration. It produces the list of migration steps that turns
one into the other. Its passes are:

- created tables, each with its foreign keys;
- dropped tables, each with its foreign keys;
- dropped indexes, collected without duplicates;
- created indexes;
- altered tables: foreign keys, ordered table changes, index maintenance;
- redefined tables;
- created, dropped and altered enums, where an altered enum records the column defaults that used it;
- index renames.

The steps of all passes are then sorted by the step type's derived order.

**The SQLite parameter parser.** The connection string is turned into
`SqliteParams` as follows:

- strip the `file:` or `sqlite:` scheme;
- split off the query string at `?`;
- reject a directory as the database file;
- read `connection_limit`, `db_name` and `socket_timeout`, keeping the last
  occurrence of each and ignoring unknown keys.

**Modules.**

| module | models |
|---|---|
| `SqlSchema` | tables, columns, indexes, foreign keys, primary keys, enums |
| `SqlMigration` | the migration steps and table changes |
| `SqlFlavour` | the dialect's capability queries, as a record of answers |
| `Matching` | "first match" pairing of two lists, filtering, flattening |
| `TableDiffer` | per-table pairing of columns, indexes and foreign keys |
| `ForeignKeysMatching` | when two foreign keys count as the same |
| `StepBuilders` | one step per id |
| `SchemaDiffer` | the passes and `CalculateSteps` |
| `StepProperties`, `TableChangeProperties`, `EnumProperties` | what the result contains |
| `DerivedOrd`, `Sorting` | the derived ordering of steps, and a sort proved to produce the unique sorted permutation |
| `SqliteParameters` | `SqliteParams::try_from` |

**Dialect capabilities.** The differ asks the dialect many questions:

- whether foreign keys of created tables are pushed separately;
- whether indexes can be altered in place;
- whether table names compare ignoring case;
- whether enums are schema objects;
- which type changes can be cast.

The model passes these answers in as a `Flavour` record. The set of tables
the dialect redefines is part of the differ's input.

**Paths.** Source paths below are relative to the repository root.

## Model

`SchemaDiffer.DropIndexCandidates` and the passes `CalculateSteps` assembles
have no row of their own when a lemma below states their membership:
`StepProperties.DropIndexCandidatesMembers` covers the drop-index candidates.

| member | source | states |
|---|---|---|
| SchemaDiffer.CalculateSteps | migration-engine/connectors/sql-migration-connector/src/sql_schema_differ.rs:27-82 | The result is sorted by the step order and holds exactly the steps of all passes, with multiplicity. |
| StepProperties.CalculatedMembers | migration-engine/connectors/sql-migration-connector/src/sql_schema_differ.rs:27-82 | For each kind of step, a step is in the result iff it is in one of the passes that push steps of that kind. |
| StepProperties.PushOrderIrrelevant | migration-engine/connectors/sql-migration-connector/src/sql_schema_differ.rs:79-81 | Any ordering of the pushed steps sorts to the same result, so the order of the passes does not matter. |
| StepProperties.DropIndexOrderIrrelevant | migration-engine/connectors/sql-migration-connector/src/sql_schema_differ.rs:357-359 | Draining the drop-index set in any order without repeats gives the same final result. |
| SchemaDiffer.TablePairs | migration-engine/connectors/sql-migration-connector/src/sql_schema_differ.rs:394-400 | Each pair names a previous and a next table whose names match under the dialect's comparison, ordered by previous table. Every previous table with a match is paired, with its first matching next table. |
| SchemaDiffer.CreatedTables | migration-engine/connectors/sql-migration-connector/src/sql_schema_differ.rs:420-424 | Exactly the next tables that no previous table matches, ascending. |
| SchemaDiffer.DroppedTables | migration-engine/connectors/sql-migration-connector/src/sql_schema_differ.rs:426-430 | Exactly the previous tables that no next table matches, ascending. |
| StepProperties.PairedTablesKept | migration-engine/connectors/sql-migration-connector/src/sql_schema_differ.rs:394-430 | A table in a pair is neither created nor dropped. |
| SchemaDiffer.PushCreateTables | migration-engine/connectors/sql-migration-connector/src/sql_schema_differ.rs:91-107 | A step is in the pass iff it creates a created table, or adds a foreign key of a created table when the dialect pushes those separately. |
| SchemaDiffer.DropTables | migration-engine/connectors/sql-migration-connector/src/sql_schema_differ.rs:110-127 | A step is in the pass iff it drops a dropped table, or drops a foreign key of a dropped table when the dialect drops those separately. |
| StepProperties.CreatedTablesCreatedOnce | migration-engine/connectors/sql-migration-connector/src/sql_schema_differ.rs:91-95 | `CreateTable(j)` occurs once in the result if table j is created, and otherwise not at all. |
| StepProperties.CreatedTableForeignKeys | migration-engine/connectors/sql-migration-connector/src/sql_schema_differ.rs:97-104 | For a created table, `AddForeignKey` of its k-th key is in the result iff the dialect pushes such keys and the table has a k-th key. |
| StepProperties.DroppedTablesDroppedOnce | migration-engine/connectors/sql-migration-connector/src/sql_schema_differ.rs:110-114 | `DropTable(i)` occurs once in the result if table i is dropped, and otherwise not at all. |
| StepProperties.DroppedTableForeignKeys | migration-engine/connectors/sql-migration-connector/src/sql_schema_differ.rs:116-125 | For a dropped table, `DropForeignKey` of its k-th key is in the result iff the dialect drops such keys and the table has a k-th key. |
| SchemaDiffer.ForeignKeyStepsMembers | migration-engine/connectors/sql-migration-connector/src/sql_schema_differ.rs:135-147 | An altered table adds exactly its created foreign keys, on the next table, and drops exactly its dropped ones, on the previous table. |
| StepProperties.AlteredForeignKeyTables | migration-engine/connectors/sql-migration-connector/src/sql_schema_differ.rs:129-147 | Foreign-key steps of the altered-tables pass never name a created table (adds) or a dropped table (drops). |
| SchemaDiffer.PushAlteredTables | migration-engine/connectors/sql-migration-connector/src/sql_schema_differ.rs:129-176 | A step is in the pass iff it is a step of some table pair that the dialect does not redefine; only foreign-key, index and `AlterTable` steps occur. |
| SchemaDiffer.AlteredTableStepsWith | migration-engine/connectors/sql-migration-connector/src/sql_schema_differ.rs:134-175 | The `AlterTable` step and the index maintenance steps are present iff the change list is non-empty. Foreign-key steps are always present. Nothing else is pushed. |
| SchemaDiffer.IndexChangesForColumn | migration-engine/connectors/sql-migration-connector/src/sql_schema_differ.rs:162-169 | For one column pair, a step is emitted iff the dialect recreates indexes around a type change, the column's type changes, and the step drops a paired previous index that uses the previous column or creates a paired next index that uses the next column. |
| SchemaDiffer.IndexChangesForColumns | migration-engine/connectors/sql-migration-connector/src/sql_schema_differ.rs:162-169 | The index maintenance of a table pair is exactly the union of that of its column pairs. |
| StepProperties.AlterTableSteps | migration-engine/connectors/sql-migration-connector/src/sql_schema_differ.rs:129-175 | An `AlterTable` step is in the result iff it carries the ids and non-empty changes of a table pair the dialect does not redefine. |
| StepProperties.RedefinedTableNotAltered | migration-engine/connectors/sql-migration-connector/src/sql_schema_differ.rs:129-132 | No `AlterTable` step names a redefined table pair. |
| TableChangeProperties.TableChangesOrdered | migration-engine/connectors/sql-migration-connector/src/sql_schema_differ.rs:149-156 | A table's changes run in this order: primary key drop, column drops, column adds, column alterations, primary key add. |
| TableChangeProperties.TableChangesColumns | migration-engine/connectors/sql-migration-connector/src/sql_schema_differ.rs:178-188 | `DropColumn(c)` is among the changes iff column c was dropped. `AddColumn(c)` is among them iff column c was added. |
| SchemaDiffer.ColumnChangeOf | migration-engine/connectors/sql-migration-connector/src/sql_schema_differ.rs:193-221 | A changed column pair becomes a drop-and-recreate iff its type change is not castable. Otherwise it is an alteration that carries the type change. |
| SchemaDiffer.AlterColumns | migration-engine/connectors/sql-migration-connector/src/sql_schema_differ.rs:190-232 | One change per column pair that differs in something: a change is present iff it is the change of such a pair. |
| TableChangeProperties.AlterColumnsSound | migration-engine/connectors/sql-migration-connector/src/sql_schema_differ.rs:190-232 | Every column alteration names a column pair that differs in arity, default or type. Its kind follows the type change. |
| TableChangeProperties.AlterColumnsComplete | migration-engine/connectors/sql-migration-connector/src/sql_schema_differ.rs:190-223 | Every column pair that differs in arity, default or type gets an alteration. |
| TableChangeProperties.AlterColumnsSortedByColumns | migration-engine/connectors/sql-migration-connector/src/sql_schema_differ.rs:225-229 | Column alterations are strictly ordered by column id. |
| TableChangeProperties.PrimaryKeyFromSchema | migration-engine/connectors/sql-migration-connector/src/sql_schema_differ.rs:234-283 | A dropped primary key gives `DropPrimaryKey`. A created primary key with columns gives `AddPrimaryKey`. Without the recreate capability, these are the only causes. Each change occurs at most once. |
| SchemaDiffer.AddPrimaryKeyChange | migration-engine/connectors/sql-migration-connector/src/sql_schema_differ.rs:234-259 | At most one `AddPrimaryKey`, present iff the next table gains a primary key with columns, or the dialect recreates the key and some primary-key column pair has a type change that cannot be cast. |
| SchemaDiffer.DropPrimaryKeyChange | migration-engine/connectors/sql-migration-connector/src/sql_schema_differ.rs:261-283 | At most one `DropPrimaryKey`, present iff the previous table loses its primary key, or the dialect recreates the key and some primary-key column pair has a type change that cannot be cast. |
| SchemaDiffer.RecreatesPrimaryKeyColumnByPairs | migration-engine/connectors/sql-migration-connector/src/sql_schema_differ.rs:242-248 | A primary-key column is dropped and recreated iff some column pair over a previous primary-key column has a type change that cannot be cast. |
| TableChangeProperties.RecreatedPrimaryKeyColumn | migration-engine/connectors/sql-migration-connector/src/sql_schema_differ.rs:240-279 | With the recreate capability, a recreated primary-key column causes both a primary key drop and a primary key add. |
| SchemaDiffer.DroppedIndexesKept | migration-engine/connectors/sql-migration-connector/src/sql_schema_differ.rs:336-344 | The dropped indexes of a table pair, minus exactly those that back a foreign key when the dialect skips such indexes. |
| SchemaDiffer.DropIndexes | migration-engine/connectors/sql-migration-connector/src/sql_schema_differ.rs:332-360 | Drop-index steps without duplicates, holding exactly the candidate steps. |
| StepProperties.DropIndexCandidatesMembers | migration-engine/connectors/sql-migration-connector/src/sql_schema_differ.rs:332-360 | A drop-index step is pushed iff the index was dropped from a paired table and is not kept for a foreign key, or the table was dropped while tables are redefined and the dialect drops indexes of dropped tables. |
| StepProperties.PairIndexesDropped | migration-engine/connectors/sql-migration-connector/src/sql_schema_differ.rs:335-344 | An index dropped from a paired table is dropped by the pass iff it is not kept for a foreign key. |
| StepProperties.DroppedTableIndexesDropped | migration-engine/connectors/sql-migration-connector/src/sql_schema_differ.rs:347-355 | An index of a dropped table is dropped by the pass iff tables are redefined and the dialect drops indexes of dropped tables. |
| SchemaDiffer.CreatedTableIndexSteps | migration-engine/connectors/sql-migration-connector/src/sql_schema_differ.rs:286-296 | A created table creates exactly its indexes that are not skipped, with no previous table id. An index is skipped iff it is unique and the dialect creates unique indexes inline. |
| SchemaDiffer.PairCreateIndexSteps | migration-engine/connectors/sql-migration-connector/src/sql_schema_differ.rs:299-329 | A table pair creates exactly its created indexes and, when the dialect recreates indexes after a column drop, its paired indexes over a dropped-and-recreated column; each step carries both table ids. |
| SchemaDiffer.RecreatedIndexes | migration-engine/connectors/sql-migration-connector/src/sql_schema_differ.rs:310-327 | The next indexes recreated are exactly the paired ones that use a column whose type change cannot be cast. |
| SchemaDiffer.PushCreateIndexes | migration-engine/connectors/sql-migration-connector/src/sql_schema_differ.rs:285-330 | A step is in the pass iff it creates an index of a created table (when the dialect does that) or is an index creation of a table pair altered in place. |
| StepProperties.PushCreateIndexesMembers | migration-engine/connectors/sql-migration-connector/src/sql_schema_differ.rs:285-330 | The same membership spelled out: created-table indexes without a previous table id, or created and recreated indexes of a pair not redefined, with both ids. |
| StepProperties.CreatedTableIndexesCreated | migration-engine/connectors/sql-migration-connector/src/sql_schema_differ.rs:286-296 | For a created table, `CreateIndex` of its i-th index is in the result iff the dialect creates such indexes and this one is not skipped: it is not a unique index on a dialect that creates those inline. |
| StepProperties.PairIndexesCreated | migration-engine/connectors/sql-migration-connector/src/sql_schema_differ.rs:299-329 | Every created or recreated index of a table pair altered in place is created in the result, with both table ids. |
| SchemaDiffer.RedefinedTablesOf | migration-engine/connectors/sql-migration-connector/src/sql_schema_differ.rs:362-391 | One redefinition per redefined table pair, and nothing else. |
| SchemaDiffer.RedefineTablesSteps | migration-engine/connectors/sql-migration-connector/src/sql_schema_differ.rs:362-391 | At most one `RedefineTables` step, present iff some table pair is redefined, holding the rebuilds of the redefined pairs. |
| StepProperties.RedefineTablesStep | migration-engine/connectors/sql-migration-connector/src/sql_schema_differ.rs:49-55 | A `RedefineTables` step lists exactly the redefinitions of the redefined table pairs, and there is at least one. |
| StepProperties.RedefineTablesOnce | migration-engine/connectors/sql-migration-connector/src/sql_schema_differ.rs:49-55 | A `RedefineTables` step occurs at most once in the result. |
| StepProperties.RedefinedTablesRebuilt | migration-engine/connectors/sql-migration-connector/src/sql_schema_differ.rs:49-55 | If any table pair is redefined, the result holds a `RedefineTables` step. |
| SchemaDiffer.PairIndexRenames | migration-engine/connectors/sql-migration-connector/src/sql_schema_differ.rs:402-418 | The renames of a table pair are exactly its index pairs whose index name changed. |
| SchemaDiffer.AlterIndexes | migration-engine/connectors/sql-migration-connector/src/sql_schema_differ.rs:402-418 | A rename is listed iff it is an index pair with a changed name, of some table pair that is not redefined. |
| StepProperties.IndexRenameSteps | migration-engine/connectors/sql-migration-connector/src/sql_schema_differ.rs:34-76 | A rename step is in the result iff it renames an index pair with a changed name, of a table pair that is not redefined. It is an `AlterIndex` if the dialect can alter indexes, and a `RedefineIndex` otherwise. |
| SchemaDiffer.AlterIndexSteps | migration-engine/connectors/sql-migration-connector/src/sql_schema_differ.rs:34-40 | An `AlterIndex` step is emitted iff the dialect can alter indexes and the step is one of the renames. |
| SchemaDiffer.RedefineIndexSteps | migration-engine/connectors/sql-migration-connector/src/sql_schema_differ.rs:36-40 | A `RedefineIndex` step is emitted iff the dialect cannot alter indexes and the step is one of the renames. |
| StepProperties.RedefinedTableNotRenamed | migration-engine/connectors/sql-migration-connector/src/sql_schema_differ.rs:402-408 | No rename step names a redefined table pair. |
| SchemaDiffer.EnumPairs | migration-engine/connectors/sql-migration-connector/src/sql_schema_differ.rs:432-440 | Each pair names a previous and a next enum with the same name. Pairs are ordered by previous enum. |
| EnumProperties.EnumPairsByName | migration-engine/connectors/sql-migration-connector/src/sql_schema_differ.rs:432-440 | A previous enum is paired with the first next enum of its name. |
| SchemaDiffer.CreatedEnums | migration-engine/connectors/sql-migration-connector/src/sql_schema_differ.rs:442-445 | Exactly the next enums whose name no previous enum has, ascending. |
| SchemaDiffer.DroppedEnums | migration-engine/connectors/sql-migration-connector/src/sql_schema_differ.rs:447-450 | Exactly the previous enums whose name no next enum has, ascending. |
| SchemaDiffer.CreateEnumSteps | migration-engine/connectors/sql-migration-connector/src/sql_schema_differ.rs:57 | A `CreateEnum` step is emitted iff the dialect has native enums and the enum is created. |
| SchemaDiffer.DropEnumSteps | migration-engine/connectors/sql-migration-connector/src/sql_schema_differ.rs:58 | A `DropEnum` step is emitted iff the dialect has native enums and the enum is dropped. |
| SchemaDiffer.AlterEnumSteps | migration-engine/connectors/sql-migration-connector/src/sql_schema_differ.rs:49-50 | One `AlterEnumStep` per altered enum pair, holding that pair's alteration, and nothing else. |
| EnumProperties.PreviousEnumPartition | migration-engine/connectors/sql-migration-connector/src/sql_schema_differ.rs:432-450 | Every previous enum is either paired or dropped, never both. |
| EnumProperties.NextEnumPartition | migration-engine/connectors/sql-migration-connector/src/sql_schema_differ.rs:432-450 | When next enum names are distinct, every next enum is either paired or created, never both. |
| EnumProperties.CreatedAndDroppedEnums | migration-engine/connectors/sql-migration-connector/src/sql_schema_differ.rs:57-58 | A `CreateEnum` or `DropEnum` step is in the result iff the dialect has native enums and the enum is created or dropped, respectively. |
| EnumProperties.AlteredEnums | migration-engine/connectors/sql-migration-connector/src/sql_schema_differ.rs:50-63 | An `AlterEnum` step is in the result iff the dialect has native enums and it is the alteration of a paired enum whose variants changed. |
| EnumProperties.AlterEnumContents | migration-engine/connectors/sql-migration-connector/src/sql_schema_differ.rs:50-51 | An enum alteration lists exactly the added and the removed variants. An enum counts as altered iff either list is non-empty. |
| SchemaDiffer.TablePairUsages | migration-engine/connectors/sql-migration-connector/src/sql_schema_differ.rs:476-495 | The enum default usages of a table pair are its dropped columns with an enum default, with no next column, plus the paired usage of each pair whose previous column has an enum default. |
| SchemaDiffer.PairedUsage | migration-engine/connectors/sql-migration-connector/src/sql_schema_differ.rs:484-495 | A paired usage names the previous column. It names the next column iff that column defaults to the next enum. |
| SchemaDiffer.DroppedTableUsages | migration-engine/connectors/sql-migration-connector/src/sql_schema_differ.rs:467-474 | The usages from dropped tables are exactly the columns of dropped tables with a default of the enum, with no next column. |
| SchemaDiffer.PairUsages | migration-engine/connectors/sql-migration-connector/src/sql_schema_differ.rs:476-496 | The usages from table pairs are exactly the usages of some table pair. |
| SchemaDiffer.PreviousUsagesAsDefault | migration-engine/connectors/sql-migration-connector/src/sql_schema_differ.rs:461-500 | A usage is listed iff it is a column of a dropped table with a default of the previous enum and no next column, or a usage of some table pair. |
| SchemaDiffer.AlterEnumOf | migration-engine/connectors/sql-migration-connector/src/sql_schema_differ.rs:461-500 | An enum alteration lists exactly the variants only the next enum has, exactly those only the previous enum has, and the default usages of the previous enum. |
| EnumProperties.UsagesSound | migration-engine/connectors/sql-migration-connector/src/sql_schema_differ.rs:461-500 | Every recorded usage names an existing previous column with a default of the previous enum. Its next column, when present, is that same column in the matching next table, with a default of the next enum. |
| EnumProperties.UsagesComplete | migration-engine/connectors/sql-migration-connector/src/sql_schema_differ.rs:461-500 | Every previous column with a default of the previous enum is recorded as a usage. |
| EnumProperties.PairedColumnUsage | migration-engine/connectors/sql-migration-connector/src/sql_schema_differ.rs:484-495 | A surviving column with an enum default is recorded with its next column iff the next column still defaults to the enum. |
| ForeignKeysMatching.ForeignKeysMatch | migration-engine/connectors/sql-migration-connector/src/sql_schema_differ.rs:504-543 | Matching keys reference tables whose names match and the same columns in the same order. They constrain equally many columns. With referential actions on, they have the same actions. |
| ForeignKeysMatching.SingleColumnFamilies | migration-engine/connectors/sql-migration-connector/src/sql_schema_differ.rs:510-522 | For single-column keys with the same name and arity, the keys match iff the families match. |
| ForeignKeysMatching.SingleColumnArities | migration-engine/connectors/sql-migration-connector/src/sql_schema_differ.rs:517-519 | For single-column keys with the same name and family, the keys match iff the dialect copes with the change, or the arity is unchanged, or it goes from required to nullable. Nullable to required is rejected otherwise. |
| ForeignKeysMatching.ReferentialActionsIgnored | migration-engine/connectors/sql-migration-connector/src/sql_schema_differ.rs:535-542 | Without the referential-actions feature, changing either key's actions does not change whether the keys match. |
| ForeignKeysMatching.ForeignKeysMatchReflexive | migration-engine/connectors/sql-migration-connector/src/sql_schema_differ.rs:504-543 | Every foreign key matches itself. |
| TableDiffer.ColumnPairs | migration-engine/connectors/sql-migration-connector/src/sql_schema_differ.rs:162-169 | Each pair names a previous and a next column of the same name, ordered by previous column. Every previous column with a namesake is paired, with the first next column of that name. |
| TableDiffer.DroppedColumns | migration-engine/connectors/sql-migration-connector/src/sql_schema_differ.rs:178-182 | Exactly the previous columns that no next column pairs with, ascending. |
| TableDiffer.AddedColumns | migration-engine/connectors/sql-migration-connector/src/sql_schema_differ.rs:184-188 | Exactly the next columns that no previous column pairs with, ascending. |
| TableDiffer.AllChanges | migration-engine/connectors/sql-migration-connector/src/sql_schema_differ.rs:194-198 | A column pair differs iff arity, default or type family differs. A type change is reported iff the type changed. |
| TableDiffer.CreatedIndexes | migration-engine/connectors/sql-migration-connector/src/sql_schema_differ.rs:303-308 | Exactly the next indexes without a matching previous index, ascending. |
| TableDiffer.DroppedIndexes | migration-engine/connectors/sql-migration-connector/src/sql_schema_differ.rs:336-344 | Exactly the previous indexes without a matching next index, ascending. |
| TableDiffer.CreatedForeignKeys | migration-engine/connectors/sql-migration-connector/src/sql_schema_differ.rs:135-140 | Exactly the next foreign keys that match no previous key, ascending. |
| TableDiffer.DroppedForeignKeys | migration-engine/connectors/sql-migration-connector/src/sql_schema_differ.rs:142-147 | Exactly the previous foreign keys that match no next key, ascending. |
| TableDiffer.CreatedPrimaryKey | migration-engine/connectors/sql-migration-connector/src/sql_schema_differ.rs:235-238 | The next table's primary key, present iff it exists and the previous table had none or one over other columns. |
| TableDiffer.DroppedPrimaryKey | migration-engine/connectors/sql-migration-connector/src/sql_schema_differ.rs:262 | The previous table's primary key, present iff it exists and the next table has none or one over other columns. |
| SqlMigration.StepLeIsTotalOrder | migration-engine/connectors/sql-migration-connector/src/sql_schema_differ.rs:79 | The derived step order is total, antisymmetric and transitive. |
| SqlMigration.EncInjective | migration-engine/connectors/sql-migration-connector/src/sql_schema_differ.rs:79 | Distinct steps compare as distinct under the derived order. |
| SqlMigration.RankOrdersSteps | migration-engine/connectors/sql-migration-connector/src/sql_schema_differ.rs:79 | A step of an earlier variant sorts strictly before one of a later variant. |
| SqlMigration.SortSteps | migration-engine/connectors/sql-migration-connector/src/sql_schema_differ.rs:79 | Sorting gives a sorted permutation of its input. |
| SqlMigration.SortStepsIgnoresOrder | migration-engine/connectors/sql-migration-connector/src/sql_schema_differ.rs:79 | Inputs with the same elements sort to the same sequence. |
| SqlMigration.SortedByRank | migration-engine/connectors/sql-migration-connector/src/sql_schema_differ.rs:79 | In the sorted result, variants never go backwards. |
| Sorting.SortBy | migration-engine/connectors/sql-migration-connector/src/sql_schema_differ.rs:79 | For any total order, the result is sorted and a permutation of the input. |
| Sorting.SortedUnique | migration-engine/connectors/sql-migration-connector/src/sql_schema_differ.rs:79 | Two sorted permutations of each other are equal under a total order. |
| DerivedOrd.CmpTrans | migration-engine/connectors/sql-migration-connector/src/sql_schema_differ.rs:79 | The derived comparison is transitive. |
| DerivedOrd.CmpZeroIffEqual | migration-engine/connectors/sql-migration-connector/src/sql_schema_differ.rs:79 | The derived comparison returns zero exactly on equal values. |
| SqliteParameters.TrimStartMatches | src/connector/sqlite.rs:39-43 | The result no longer starts with the prefix and is no longer than the input. |
| SqliteParameters.TrimmedRepetitions | src/connector/sqlite.rs:39-43 | The input is some number of copies of the prefix followed by the trimmed result. |
| SqliteParameters.TrimRepeated | src/connector/sqlite.rs:39-43 | Any number of leading copies of the prefix are all removed. |
| SqliteParameters.StripScheme | src/connector/sqlite.rs:39-43 | The result is a tail of the input that no longer starts with the scheme, which is `file:` if the input starts with it and `sqlite:` otherwise. |
| SqliteParameters.StripSchemeRepetitions | src/connector/sqlite.rs:39-43 | The input is the scheme, some number of times, followed by the result. |
| SqliteParameters.RepeatedSchemeExample | src/connector/sqlite.rs:39-40 | `file:file:dev.db` names the file `dev.db`, with default settings. |
| SqliteParameters.MixedSchemeExample | src/connector/sqlite.rs:39-43 | `file:sqlite:dev.db` names the file `sqlite:dev.db`, because only the first scheme's prefix is stripped. |
| SqliteParameters.Split | src/connector/sqlite.rs:45 | Splitting gives at least one piece, and no piece contains the separator. |
| SqliteParameters.JoinSplit | src/connector/sqlite.rs:45 | Joining the pieces with the separator gives back the input. |
| SqliteParameters.SplitJoin | src/connector/sqlite.rs:45 | Splitting the join of separator-free pieces gives back the pieces. |
| SqliteParameters.FirstPiece | src/connector/sqlite.rs:45-46 | The first piece is a separator-free prefix ending at the first separator or at the end. There is more than one piece iff the separator occurs. |
| SqliteParameters.FilePart | src/connector/sqlite.rs:45-46 | The file path is the scheme-less string up to its first `?`. |
| SqliteParameters.ParseUnsigned | src/connector/sqlite.rs:72-83 | A parsed number never exceeds the target type's maximum. The empty string and a lone `+` are rejected. |
| SqliteParameters.ParseUnsignedForms | src/connector/sqlite.rs:72-83 | A string reads as n iff n fits and the string is the decimal form of n behind any number of zeros, with or without a leading `+`. |
| SqliteParameters.LeadingZerosExample | src/connector/sqlite.rs:72-83 | `007` reads as 7 and `+0` as 0. |
| SqliteParameters.ParseDecimal | src/connector/sqlite.rs:72-83 | Any decimal within range parses back to itself, with or without a leading `+`. One past the maximum is rejected. |
| SqliteParameters.ParseRejectsNonDigits | src/connector/sqlite.rs:72-83 | A character that is not a digit, other than a leading `+`, makes parsing fail. |
| SqliteParameters.ParameterPair | src/connector/sqlite.rs:62-65 | A segment without `=` panics, naming the segment. Otherwise the key and value are the text up to the first `=` and from there to the next `=`. |
| SqliteParameters.ParameterPairs | src/connector/sqlite.rs:58-66 | All segments split into pairs iff each contains `=`. Otherwise the result is the panic of some segment. |
| SqliteParameters.ApplyParameter | src/connector/sqlite.rs:70-91 | A parameter fails iff it is a numeric key with a value that does not parse, with invalid connection arguments. A known key sets its own setting and nothing else; an unknown key changes nothing. |
| SqliteParameters.ApplyParameters | src/connector/sqlite.rs:70-91 | Applying parameters fails only with invalid connection arguments, and keeps the socket timeout within `u64`. |
| SqliteParameters.ApplyFails | src/connector/sqlite.rs:70-91 | Applying fails iff some known numeric key has a value that does not parse. |
| SqliteParameters.ApplyTakesLast | src/connector/sqlite.rs:70-91 | Each setting ends as the parse of its key's last value, or stays as it was when its key is absent. |
| SqliteParameters.UnknownKeyIgnored | src/connector/sqlite.rs:84-89 | Inserting an unknown key anywhere does not change the outcome. |
| SqliteParameters.TryFrom | src/connector/sqlite.rs:38-101 | A directory path is rejected with that path. Otherwise a result holds the file path before `?`, and its connection limit and socket timeout fit `u32` and `u64`. |
| SqliteParameters.DefaultsWithoutParameters | src/connector/sqlite.rs:52-99 | Without a `?`, the result is the default: twice the physical CPUs plus one connections, schema `quaint`, and a 5-second timeout. A limit beyond `u32` panics. |
| SqliteParameters.QuerySettings | src/connector/sqlite.rs:45-91 | Without a `?` the settings are the defaults. Otherwise they are read from the text after the last `?`. |
| SqliteParameters.LastPiece | src/connector/sqlite.rs:57-61 | The last piece of a split is the text after the last separator. |
| SqliteParameters.QuerySettingsOf | src/connector/sqlite.rs:45-68 | With one `?`, the file part is the text before it and the settings come from the text after it. |
| SqliteParameters.OnlyLastSegmentParsed | src/connector/sqlite.rs:57-61 | Text between the first and the last `?` is ignored. |
| SqliteParameters.LastParameterWins | src/connector/sqlite.rs:70-99 | Each field of the result comes from the last occurrence of its key, or is the default. |
| SqliteParameters.MalformedNumberRejected | src/connector/sqlite.rs:72-83 | A known numeric key with an unparsable value gives invalid connection arguments. |
| SqliteParameters.UnknownPairIgnored | src/connector/sqlite.rs:84-89 | Appending `&k=v` with an unknown key `k` to a query does not change its settings. |
| SqliteParameters.UnknownParameterIgnored | src/connector/sqlite.rs:84-89 | Appending `&k=v` with an unknown key `k` does not change the result. |
| SqliteParameters.ParameterWithoutValuePanics | src/connector/sqlite.rs:62-65 | A query segment without `=` ends in a parameter-without-value panic. |
| SqliteParameters.TrailingQuestionMarkPanics | src/connector/sqlite.rs:57-65 | A URL ending in a bare `?` panics on the empty segment. |
| SqliteParameters.FileSchemeExample | src/connector/sqlite.rs:199-204 | `file:dev.db` names the file `dev.db`, with default settings. |
| SqliteParameters.SqliteSchemeExample | src/connector/sqlite.rs:206-211 | `sqlite:dev.db` names the file `dev.db`, with default settings. |
| SqliteParameters.NoSchemeExample | src/connector/sqlite.rs:213-218 | `dev.db` names the file `dev.db`, with default settings. |

## Left out

- Parts of the differ that live outside the modelled file are given simple definitions that follow their names and their use here. These are:
  - the differ database's table pairing and the table and column differs: pairing by name, and set difference for created and dropped items;
  - the index differ: indexes pair by column list and index type, and unpaired indexes are created or dropped;
  - `all_changes`: arity, default and type family;
  - `index_covers_fk`: the index's column list equals some foreign key's column list;
  - `tables_to_redefine`: passed in as a set of table names;
  - the dialect's `alter_enums`, `create_enums` and `drop_enums`: native-enum dialects only, enums matched by name;
  - `push_index_changes_for_column_changes`: only on dialects with `recreatesIndexesOnColumnTypeChange`, drop and recreate the paired indexes over a column whose type changes; on other dialects it pushes nothing.
- The step type's declaration is not part of this model. The order of its thirteen variants (`AlterEnumStep` first, `RedefineIndex` last) and the order of each variant's fields are assumed. `SqlMigration.RankOrdersSteps`, `SqlMigration.SortedByRank` and the exact order of `SchemaDiffer.CalculateSteps` rest on that assumption. No property states that the sorted list is executable.
- The dialect object is a record of capability answers. Preview features other than referential actions are not modelled.
- SqlFlavour.IndexShouldBeRenamed: one rule for every dialect. A paired index is renamed iff its name changed. No dialect can answer differently.
- SqlFlavour.ShouldSkipIndexForNewTable: one rule for every dialect. An index of a created table is skipped iff it is unique and `shouldSkipUniqueIndexForNewTable` holds. No other index is ever skipped.
- `SchemaDiffer.DropIndexes`: the source drains a hash set in an unspecified order. The model fixes one order without duplicates, and `StepProperties.DropIndexOrderIrrelevant` shows that every such order gives the same result.
- SchemaDiffer.RecreatedColumnNames: recreated columns are keyed by the next column's name, where the source uses column ids. The two agree when a table's column names are distinct, which the schemas do not require.
- `EnumProperties.NextEnumPartition` requires distinct next enum names. With duplicate names, a later next enum of a shared name is neither paired nor created, because pairing picks the first one.
- `SqliteParameters.TryFrom`: the filesystem check `is_dir` is passed in as the set of directory paths, and `num_cpus::get_physical` as a number.
- `SqliteParameters.TryFrom`: panics (the `unwrap` of a missing `=` value, and of a connection limit beyond `u32`) are modelled as an `Err(Panic(..))` result.
- `SqliteParameters.DefaultSettings`: the `usize` overflow of `cpus * 2 + 1` is not modelled, as no machine has that many CPUs.
- The socket timeout is kept as whole seconds rather than a `Duration`.
- The `official` parameter partition is always empty in the source, so every pair goes to the key loop. The model applies the pairs directly.
- Logging of discarded parameters is left out.
- Opening the connection, attaching the database, queries, metrics and the async machinery of `Sqlite` are I/O and are not part of this model.
