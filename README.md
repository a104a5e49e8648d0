# GeoPackage Related Tables extension: a verified model

This project models the Related Tables extension engine of a TypeScript
GeoPackage library in Dafny. It covers the OGC GeoPackage Related Tables
extension (OGC 18-000), together with the parts of the table creator the
engine relies on.

A GeoPackage is a SQLite database. The engine links the rows of a *base* table
to the rows of a *related* table through a *user mapping table*, which holds
`(base_id, related_id)` pairs. It records each relationship as a row of the
`gpkgext_relations` catalog and registers the extension in `gpkg_extensions`.
The engine can:

- create the catalog, the mapping tables and typed related tables (media,
  simple attributes, attributes, features, tiles);
- add relationships, after checking that both tables exist and that the
  related table's contents data type matches the relation type;
- query the catalog by base, related or mapping table, or by any combination
  of fields;
- read, count and delete the mapping rows for a base or related id;
- remove relationships, or the whole extension, together with their mapping
  tables.

How the model is built:

- **The database is one value.** `GeoStore.Store` holds the tables and views,
  the `gpkg_contents` rows, each table's primary-key column, the catalog with
  its AUTOINCREMENT counter, the `gpkg_extensions` ledger and the rows of
  every mapping table.
- **Data definition follows SQL.** `GeoStore.Retable` gives DDL its meaning:
  a created table starts empty, and a dropped table loses its rows. Dropping
  `gpkgext_relations` also resets its AUTOINCREMENT counter.
- **Each operation has a specification function.** The function takes the
  store before the call and gives the result and the store after it. These
  live in `RelatedSpec`, `RelationCatalog`, `Mappings`, `RemovalSpec` and
  `RelatedRows`. The properties of the engine are proved as lemmas about
  these functions.
- **The classes mirror the library's classes.** `GeoStore.GeoPackage` is the
  GeoPackage handle, and its `db` field is updated in place.
  `TableCreator.GeoPackageTableCreator` and
  `RelatedTables.RelatedTablesExtension` change that field step by step, as
  the source does. The source's loops stay loops: running a script's
  statements, removing a list of relationships, dropping every mapping table,
  collecting mapped ids, summing counts, deleting mapping rows, and building
  the related-rows map. Each mutating method's postcondition states that its
  result and the new database are exactly what the specification function
  gives for the old database.
- **Store invariant.** `GeoStore.Valid` requires that the catalog exists
  exactly when its table does, that mapping table names are unique, and that
  row ids are distinct, positive and below the counter. The `KeepsValid`
  lemmas prove it preserved by the extension's creation, the adds (with an
  existing or a newly created related table), the removals and the
  mapping-row deletions, under the conditions their `requires` name (a
  mapping table other than gpkgext_relations, a validated add, a valid
  starting store); `ExecScript` is shown to preserve it only for the runs
  whose effects the `Sql` lemmas describe.

Where the source and its documentation differ, the model follows the code.

- `addRelationship` returns null on a failed validation, but it still throws
  on a missing primary key, because the key lookups run before validation.
- `getRelatedRows` fails when the catalog table is absent, because it
  iterates over the null that the base-table query returns.
- The duplicate check of the generic `addRelationship` matches on the mapping
  table name only. The name-taking adds match on the whole tuple. In that
  case a row that differs in another field is refused by the mapping-name
  UNIQUE constraint (`DuplicateMapping`).

## Model

| member | source | states |
|---|---|---|
| GeoStore.InsertContents | lib/extension/related/relatedTablesExtension.ts:1075-1084 | a gpkg_contents insert succeeds exactly when the name is not yet a table_name, a data type is given and no row already uses the name as identifier; on success only that row is added, with identifier = table name |
| GeoStore.PrimaryKey | lib/extension/related/relatedTablesExtension.ts:187-194 | the primary-key lookup succeeds exactly when the table exists and has a primary-key column, and then returns that column |
| GeoStore.MappingRows | lib/extension/related/relatedTablesExtension.ts:1578-1591 | reading a mapping table succeeds exactly when the table exists |
| GeoStore.GeoPackage.constructor | lib/extension/related/relatedTablesExtension.ts:60-63 | the handle starts on the given database |
| Sql.CreateUserTable | lib/db/geoPackageTableCreator.ts:200-210 | creating an existing table fails with TableAlreadyExists and changes nothing; otherwise exactly that table is added, empty, with its primary key, and the store invariant is kept |
| Sql.ContainsSuffix | lib/db/geoPackageTableCreator.ts:186 | a string ending in a substring contains it (the `indexOf` test used by execScript) |
| Sql.SqliteMessageIsAlreadyExists | lib/db/geoPackageTableCreator.ts:186 | SQLite's "table X already exists" message passes execScript's swallow test |
| Sql.ShortCircuitRunsNothing | lib/db/geoPackageTableCreator.ts:182-184 | once `success` is false no further statement is run and the script reports false |
| Sql.AlreadyExistsSwallowed | lib/db/geoPackageTableCreator.ts:185-189 | a script whose every statement throws "already exists" leaves the store unchanged and reports true |
| Sql.OtherErrorPropagates | lib/db/geoPackageTableCreator.ts:186-188 | any other exception escapes execScript unchanged, before the store is changed |
| Sql.SqliteScriptCreates | lib/db/geoPackageTableCreator.ts:178-192 | on a SQLite connection a script always reports true and creates exactly the tables its statements name that were missing |
| Sql.SqliteScriptIdempotent | lib/db/geoPackageTableCreator.ts:178-192 | running a script a second time changes nothing and still reports true |
| TableCreator.GeoPackageTableCreator.constructor | lib/db/geoPackageTableCreator.ts:41-44 | the creator runs statements against the given GeoPackage |
| TableCreator.GeoPackageTableCreator.ExecScript | lib/db/geoPackageTableCreator.ts:178-192 | the statement loop gives the result and store of the script fold over the connection |
| TableCreator.GeoPackageTableCreator.CreateUserTable | lib/db/geoPackageTableCreator.ts:200-210 | the new database and result are those of `Sql.CreateUserTable` |
| TableCreator.GeoPackageTableCreator.CreateExtendedRelations | lib/db/geoPackageTableCreator.ts:156-158 | runs the extended_relations script on SQLite |
| TableCreator.GeoPackageTableCreator.CreateExtensions | lib/db/geoPackageTableCreator.ts:128-130 | runs the extensions script (lines 600-609) on SQLite |
| RelationTypes.FromName | lib/extension/related/relatedTablesExtension.ts:926 | the lookup finds a relation type exactly when the name is one of the five reserved names, and then the type whose name it is |
| RelationTypes.FromNameOfName | lib/extension/related/relatedTablesExtension.ts:926 | each relation type's name resolves back to that type |
| RelationTypes.BuildRelationName | lib/extension/related/relatedTablesExtension.ts:1410-1412 | a custom name is `x-`, the author, `_`, then the name |
| RelationTypes.BuiltNameIsNotReserved | lib/extension/related/relatedTablesExtension.ts:1410-1412 | a built custom name never resolves to a relation type, so it is never type-checked |
| RelationTypes.BuildRelationNameInjective | lib/extension/related/relatedTablesExtension.ts:1410-1412 | for one author, different names give different relation names |
| RelationTypes.BuildRelationNameAmbiguous | lib/extension/related/relatedTablesExtension.ts:1410-1412 | example: across authors the encoding is ambiguous: ("a_b","c") and ("a","b_c") build the same name |
| RelationCatalog.Filter | lib/extension/related/relatedTablesExtension.ts:1361-1402 | a catalog query keeps exactly the rows the criteria select, in order |
| RelationCatalog.WithoutIds | lib/extension/related/relatedTablesExtension.ts:1131-1136 | deleting rows by id keeps exactly the rows whose id is not deleted |
| RelationCatalog.InsertRelation | lib/db/geoPackageTableCreator.ts:656-666 | an insert fails with DuplicateMapping exactly when the mapping table name is already used; otherwise it appends the row with the next AUTOINCREMENT id |
| RelationCatalog.TupleQuerySelectsEqualRows | lib/extension/related/relatedTablesExtension.ts:468-476 | the six-field query selects exactly the rows equal to the requested row up to its id |
| RelationCatalog.FilterAnyIsAll | lib/extension/related/relatedTablesExtension.ts:219-233 | a query with no criteria returns the whole catalog |
| RelationCatalog.FilterAppend | lib/extension/related/relatedTablesExtension.ts:1361-1402 | querying a concatenation is concatenating the queries |
| RelationCatalog.FilterKeepsDistinctKeys | lib/db/geoPackageTableCreator.ts:656-666 | a query result keeps any per-row key distinct |
| RelationCatalog.FilterKeepsConstraints | lib/db/geoPackageTableCreator.ts:656-666 | keeping a selection of rows preserves the UNIQUE mapping names and the id bounds |
| RelationCatalog.WithoutIdsCompose | lib/extension/related/relatedTablesExtension.ts:1131-1136 | deleting two id sets one after the other is deleting their union |
| RelationCatalog.WithoutAbsentIds | lib/extension/related/relatedTablesExtension.ts:1131-1136 | deleting ids no row has changes nothing |
| RelationCatalog.DeletingSelectionKeepsTheRest | lib/extension/related/relatedTablesExtension.ts:1157-1170 | deleting the selected rows by id leaves exactly the unselected rows |
| RelationCatalog.InsertKeepsConstraints | lib/db/geoPackageTableCreator.ts:656-666 | an accepted insert keeps mapping names unique and ids distinct and below the counter |
| RelationCatalog.GetRelations | lib/extension/related/relatedTablesExtension.ts:1361-1402 | the query returns exactly the catalog rows matching every given field, and nothing when the catalog table is absent |
| RelationCatalog.SelectedRelations | lib/extension/related/relatedTablesExtension.ts:1419-1474 | no list when the catalog is absent, otherwise exactly the selected rows |
| RelationCatalog.HasRelationsIffSomeRow | lib/extension/related/relatedTablesExtension.ts:1339-1348 | "has relations" holds exactly when the catalog exists and some row is selected |
| RelationCatalog.TableRelationsAreBaseOrRelated | lib/extension/related/relatedTablesExtension.ts:1467-1474 | a table's relations are exactly the rows naming it as base or related table |
| Mappings.RowAt | lib/extension/related/relatedTablesExtension.ts:1578-1625 | the mapping row with the given id on one side and the other id on the opposite side |
| Mappings.RowsWith | lib/extension/related/relatedTablesExtension.ts:1578-1591 | `queryByBaseId`/`queryByRelatedId` keeps exactly the rows with that id on that side |
| Mappings.RowsWithout | lib/extension/related/relatedTablesExtension.ts:1738-1740 | a delete by id keeps exactly the rows with another id on that side |
| Mappings.CountBy | lib/extension/related/relatedTablesExtension.ts:1692-1694 | counting by id succeeds exactly when the mapping table exists |
| Mappings.HasMapping | lib/extension/related/relatedTablesExtension.ts:1634-1637 | hasMapping is true exactly when the pair is a row of the mapping table, and fails on a missing table |
| Mappings.DeleteBy | lib/extension/related/relatedTablesExtension.ts:1738-1740 | a delete by id succeeds exactly when the table exists, and a failed one changes nothing |
| Mappings.CountOverOpt | lib/extension/related/relatedTablesExtension.ts:1665-1673 | a null relation list counts 0 |
| Mappings.DeleteOverOpt | lib/extension/related/relatedTablesExtension.ts:1722-1730 | a null relation list deletes nothing and returns 0 |
| Mappings.MappedIdsCountRows | lib/extension/related/relatedTablesExtension.ts:1578-1591 | each id occurs in getMappingsFor* as often as its (id, other) pair occurs in the mapping table |
| Mappings.MappedIdsAppend | lib/extension/related/relatedTablesExtension.ts:1578-1591 | collecting ids distributes over concatenated rows (the loop's step) |
| Mappings.MappedIdsOfQuery | lib/extension/related/relatedTablesExtension.ts:1578-1591 | collecting ids from the queried rows equals collecting them from the whole table |
| Mappings.MappedIdsLength | lib/extension/related/relatedTablesExtension.ts:1578-1591 | one id is returned per matching row, duplicates included |
| Mappings.MappingsForBaseExample | lib/extension/related/relatedTablesExtension.ts:1578-1625 | example: duplicate rows give duplicate ids, and each side reads its own column |
| Mappings.DeleteSplitsRows | lib/extension/related/relatedTablesExtension.ts:1738-1740 | a delete by id partitions the rows: deleted plus kept is the original multiset |
| Mappings.CountOverPositive | lib/extension/related/relatedTablesExtension.ts:1681-1683 | a summed count is positive exactly when some listed mapping table has a row with the id |
| Mappings.HasMappingIsPositiveCount | lib/extension/related/relatedTablesExtension.ts:1866-1871 | hasMappingForBaseOrRelatedId agrees with countMappings > 0 |
| Mappings.HasMappingShortCircuits | lib/extension/related/relatedTablesExtension.ts:1866-1871 | a base-side hit answers true without the related side being read |
| Mappings.CountOverFrame | lib/extension/related/relatedTablesExtension.ts:1665-1673 | the count depends only on the listed tables' rows |
| Mappings.DeleteOverFrame | lib/extension/related/relatedTablesExtension.ts:1722-1730 | deleting mappings changes only mapping rows, and only removes them |
| Mappings.DeleteOverClears | lib/extension/related/relatedTablesExtension.ts:1722-1730 | after a successful delete no listed table has a row with the id on that side |
| Mappings.DeleteOverReturnsCount | lib/extension/related/relatedTablesExtension.ts:1722-1730 | over distinct mapping tables, the rows deleted equal the rows counted beforehand |
| Mappings.ClearedStaysCleared | lib/extension/related/relatedTablesExtension.ts:1879-1883 | a later delete cannot bring back a deleted mapping |
| Mappings.DeleteMappingsClearsBothSides | lib/extension/related/relatedTablesExtension.ts:1879-1883 | deleteMappings only removes rows and leaves no mapping to the id on either side of any relation of the table |
| Mappings.DeleteOverKeepsValid | lib/extension/related/relatedTablesExtension.ts:1722-1730 | deleting mappings keeps the store invariant |
| Mappings.DeleteMappingsToReturnsCount | lib/extension/related/relatedTablesExtension.ts:1712-1714 | deleteMappingsToBase/Related returns exactly countMappingsToBase/Related taken beforehand |
| RelatedRows.WantedRelations | lib/extension/related/relatedTablesExtension.ts:1526 | the relations kept are exactly those whose type passes the filter (all of them without a filter) |
| RelatedRows.Fetched | lib/extension/related/relatedTablesExtension.ts:1551-1554 | one entry per mapping row, in row order, pairing the row with the related row fetched by its related id |
| RelatedRows.GetRelatedRows | lib/extension/related/relatedTablesExtension.ts:1517-1559 | without a catalog getRelatedRows fails |
| RelatedRows.RelatedRowsOverOk | lib/extension/related/relatedTablesExtension.ts:1524-1557 | the map is built exactly when every wanted relation has a known type and an existing mapping table |
| RelatedRows.UnresolvableOnlyWithoutFilter | lib/extension/related/relatedTablesExtension.ts:1526-1546 | "Relationship Unknown" can only be raised when no type filter is given |
| RelatedRows.RelatedRowsOverEntries | lib/extension/related/relatedTablesExtension.ts:1524-1557 | one entry per wanted relation, in order, each holding exactly that relation's base-id rows and their related rows |
| RelatedSpec.ExtendsTransitive | lib/extension/related/relatedTablesExtension.ts:448-489 | "only adds tables and keeps everything else" composes |
| RelatedSpec.CreateTableExtends | lib/db/geoPackageTableCreator.ts:200-210 | creating a table only adds it, empty, and keeps the invariant |
| RelatedSpec.LedgerGetOrCreate | lib/extension/related/relatedTablesExtension.ts:88-98 | the ledger gets the key if missing, with the OGC 18-000 definition and read-write scope; existing entries are untouched |
| RelatedSpec.ExtendedRelationsScriptRuns | lib/db/geoPackageTableCreator.ts:656-666 | on a store without the catalog the extended_relations script creates exactly that table, empty |
| RelatedSpec.CreateExtendedRelationsTable | lib/extension/related/relatedTablesExtension.ts:165-179 | read-only fails; otherwise it reports true exactly when the catalog table was missing, and then creates only it |
| RelatedSpec.GetOrCreateOutcome | lib/extension/related/relatedTablesExtension.ts:88-98 | getOrCreate leaves the extension present (`has`), adds only the catalog table and ledger key, and keeps the invariant |
| RelatedSpec.GetOrCreateIdempotent | lib/extension/related/relatedTablesExtension.ts:88-98 | a second getOrCreate changes nothing |
| RelatedSpec.GetOrCreateWithMappingTableOutcome | lib/extension/related/relatedTablesExtension.ts:107-116 | the mapping table's ledger key is registered as well, and hasExtensionForMappingTable then holds |
| RelatedSpec.Validate | lib/extension/related/relatedTablesExtension.ts:912-957 | validation passes exactly when both tables exist and, for a reserved relation name, the related table has that type's data type; the errors are reported in source order |
| RelatedSpec.CustomNamesSkipTypeCheck | lib/extension/related/relatedTablesExtension.ts:925-929 | an author-built name validates exactly when both tables exist |
| RelatedSpec.ValidateFrame | lib/extension/related/relatedTablesExtension.ts:912-957 | adding tables without touching contents does not change a validation |
| RelatedSpec.CreateUserMappingTable | lib/extension/related/relatedTablesExtension.ts:982-995 | read-only fails, otherwise it always succeeds |
| RelatedSpec.CreateUserMappingTableOutcome | lib/extension/related/relatedTablesExtension.ts:982-995 | true exactly when the mapping table was missing; after it the catalog and mapping table exist, both ledger keys are registered, a new mapping table is empty, and the invariant holds |
| RelatedSpec.CreateUserMappingTableNoOp | lib/extension/related/relatedTablesExtension.ts:982-995 | with the extension and table already present nothing changes and false is returned |
| RelatedSpec.CreateUserMappingTableOnCatalogName | lib/extension/related/relatedTablesExtension.ts:982-995 | naming the mapping table gpkgext_relations reports false (the setup just created it) |
| RelatedSpec.CreateUserMappingTableIdempotent | lib/extension/related/relatedTablesExtension.ts:968-995 | a second call changes nothing and returns false |
| RelatedSpec.CreateRelatedTable | lib/extension/related/relatedTablesExtension.ts:1068-1094 | an existing table gives false; otherwise the table and its contents row are created (true), or on a rejected contents row the table is dropped again and ContentsNotCreated is raised |
| RelatedSpec.RequestedRow | lib/extension/related/relatedTablesExtension.ts:461-467 | the requested catalog row carries both tables' primary-key columns, and fails exactly when a key lookup fails |
| RelatedSpec.RequestedRowFrame | lib/extension/related/relatedTablesExtension.ts:461-467 | setting up the mapping table does not change the requested row |
| RelatedSpec.AddRow | lib/extension/related/relatedTablesExtension.ts:468-487 | adding a catalog row changes only the catalog |
| RelatedSpec.AddRowOutcome | lib/extension/related/relatedTablesExtension.ts:468-487 | an equal row already present is returned unchanged; otherwise the row is inserted with the next id, or refused with DuplicateMapping when its mapping name is taken |
| RelatedSpec.AddRowIdempotent | lib/extension/related/relatedTablesExtension.ts:468-487 | adding the same row twice is adding it once |
| RelatedSpec.AddRelationshipWithMappingTableAndRelationName | lib/extension/related/relatedTablesExtension.ts:448-489 | a failed validation raises its error before anything changes; a read-only GeoPackage is never changed |
| RelatedSpec.AddWithMappingTableKeepsValid | lib/extension/related/relatedTablesExtension.ts:448-489 | a validated add keeps the invariant and only adds the catalog and mapping tables |
| RelatedSpec.AddWithMappingTableOutcome | lib/extension/related/relatedTablesExtension.ts:448-489 | a validated add returns the existing equal relation, or inserts the requested one with the next id, or fails with DuplicateMapping |
| RelatedSpec.AddWithMappingTableIsAddRow | lib/extension/related/relatedTablesExtension.ts:455-489 | a validated add is mapping-table setup followed by a catalog insert of the requested row |
| RelatedSpec.AddWithMappingTableIdempotent | lib/extension/related/relatedTablesExtension.ts:448-489 | repeating a successful add returns the same relation and changes nothing |
| RelatedSpec.AddWithRelatedTable | lib/extension/related/relatedTablesExtension.ts:607-622 | a rejected related table aborts the add with ContentsNotCreated before the relation is touched |
| RelatedSpec.NewRelatedTableTypeCheck | lib/extension/related/relatedTablesExtension.ts:607-622 | a newly created related table passes validation exactly when its data type is the one the relation name requires |
| RelatedSpec.TypedRelatedTablePasses | lib/extension/related/relatedTablesExtension.ts:687-903 | the typed helpers (media, simple attributes, attributes, tiles) create a table whose data type passes its own relation's check |
| RelatedSpec.RequestedName | lib/extension/related/relatedTablesExtension.ts:270-278 | the relation type's name, or the given name, or (with an author) a custom name that is never reserved |
| RelatedSpec.PrepareRelated | lib/extension/related/relatedTablesExtension.ts:282-289 | an existing related table is used as named; a new one gives its own name and relation name; creation can only fail with ContentsNotCreated |
| RelatedSpec.AddRowByMapping | lib/extension/related/relatedTablesExtension.ts:304-311 | the insert-by-mapping-name changes only the catalog and always returns a relation on success |
| RelatedSpec.AddRowByMappingOutcome | lib/extension/related/relatedTablesExtension.ts:304-311 | fails exactly without a catalog; returns any existing row with the mapping name unchanged; otherwise the catalog stores the row under the next id, and the requested row itself (id unset) is returned |
| RelatedSpec.AddRelationshipNeverDuplicate | lib/extension/related/relatedTablesExtension.ts:260-312 | the generic add never fails with DuplicateMapping |
| RelatedSpec.AddRelationshipMissingBaseFails | lib/extension/related/relatedTablesExtension.ts:290-292 | with an existing related table, a missing base table raises from the primary-key lookup (not null), and nothing changes |
| RelatedSpec.AddRelationshipNullIffTypeMismatch | lib/extension/related/relatedTablesExtension.ts:294-302 | with an existing related table, null is returned, with nothing changed, exactly when both key lookups succeed and the related table has the wrong data type |
| RelatedSpec.AddRelationshipIsAddRowByMapping | lib/extension/related/relatedTablesExtension.ts:303-311 | with an existing related table, after validation the generic add is mapping-table setup followed by insert-by-mapping-name |
| RelatedSpec.AddRelationshipKeepsValid | lib/extension/related/relatedTablesExtension.ts:260-312 | with an existing related table, a validated generic add always returns a relation, keeps the invariant and only adds the catalog and mapping tables |
| RelatedSpec.AddRelationshipOutcome | lib/extension/related/relatedTablesExtension.ts:303-311 | with an existing related table, the existing relation for the mapping table is returned unchanged; otherwise the catalog gains the requested row under the next id and the requested row itself (id unset) is returned |
| RelatedSpec.ExistingRequest | lib/extension/related/relatedTablesExtension.ts:282-286 | once the related table is created, the request names that table and the definition's relation name, with base and mapping table kept |
| RelatedSpec.AddRelationshipNewTableReduces | lib/extension/related/relatedTablesExtension.ts:282-286 | with a related table to create, the add is createRelatedTable followed by the existing-table add under the definition's relation name; a refused contents row ends it with that error |
| RelatedSpec.AddRelationshipNewTableMissingBaseFails | lib/extension/related/relatedTablesExtension.ts:282-292 | with a related table to create, a missing base table still raises, on the store after the creation step |
| RelatedSpec.AddRelationshipNewTableNullIffTypeMismatch | lib/extension/related/relatedTablesExtension.ts:282-302 | with a created related table, null is returned exactly when both keys are found and the definition's reserved relation name does not fit that table's data type |
| RelatedSpec.AddRelationshipNewTableKeepsValid | lib/extension/related/relatedTablesExtension.ts:260-312 | with a related table to create, a validated add returns a relation, keeps the invariant, keeps old tables as they were and adds only the related, mapping and catalog tables |
| RelatedSpec.AddRelationshipNewTableOutcome | lib/extension/related/relatedTablesExtension.ts:282-311 | with a related table to create, the result in terms of the catalog before the call: the existing relation for the mapping table, or the requested row, cataloged under the next id |
| RemovalSpec.RemoveWithExtendedRelation | lib/extension/related/relatedTablesExtension.ts:1131-1149 | nothing happens without a catalog; otherwise the mapping table and its contents row are deleted; it fails exactly when the mapping table is the catalog itself |
| RemovalSpec.RemoveSelected | lib/extension/related/relatedTablesExtension.ts:1157-1170 | without a catalog nothing happens |
| RemovalSpec.ConsKeepsDistinctKeys | lib/extension/related/relatedTablesExtension.ts:1157-1170 | prefixing a row with a new key keeps keys distinct |
| RemovalSpec.WithoutIdsKeepsDistinctKeys | lib/extension/related/relatedTablesExtension.ts:1131-1136 | deleting rows by id keeps any key distinct |
| RemovalSpec.WithoutNoIds | lib/extension/related/relatedTablesExtension.ts:1131-1136 | deleting no ids changes nothing |
| RemovalSpec.SameMappingSameRow | lib/db/geoPackageTableCreator.ts:656-666 | with UNIQUE mapping names a mapping name identifies the catalog row |
| RemovalSpec.RemoveOneOutcome | lib/extension/related/relatedTablesExtension.ts:1131-1149 | removing a catalog relation deletes exactly its row, its mapping table and contents row, keeps the counter, and keeps the invariant |
| RemovalSpec.RemoveAllFrame | lib/extension/related/relatedTablesExtension.ts:1157-1170 | removing a list deletes exactly the listed mapping tables and contents rows and nothing else |
| RemovalSpec.RemoveAllOutcome | lib/extension/related/relatedTablesExtension.ts:1157-1170 | removing listed catalog rows deletes exactly those ids from the catalog and keeps the invariant |
| RemovalSpec.RemoveAllRest | lib/extension/related/relatedTablesExtension.ts:1157-1170 | after the first removal the rest of the list is still removable |
| RemovalSpec.SameOnTablesShrinking | lib/extension/related/relatedTablesExtension.ts:1157-1170 | the remaining tables' keys and rows are kept across successive removals |
| RemovalSpec.RemoveSelectedOutcome | lib/extension/related/relatedTablesExtension.ts:1157-1206 | removeRelationship(s) leaves exactly the unselected rows, drops exactly the selected relations' mapping tables and contents rows, and keeps the invariant |
| RemovalSpec.RemoveSelectedLeavesNoneSelected | lib/extension/related/relatedTablesExtension.ts:1157-1206 | afterwards no relation matches the criteria |
| RemovalSpec.RemoveNothingSelected | lib/extension/related/relatedTablesExtension.ts:1157-1206 | when nothing matches nothing changes |
| RemovalSpec.RemoveCatalogAsMappingFails | lib/extension/related/relatedTablesExtension.ts:1131-1149 | a relation naming gpkgext_relations as mapping table drops the catalog and then fails |
| RemovalSpec.DeleteMappingTablesOutcome | lib/extension/related/relatedTablesExtension.ts:1215-1217 | the loop deletes exactly the listed mapping tables and their contents rows |
| RemovalSpec.RemoveExtensionOutcome | lib/extension/related/relatedTablesExtension.ts:1211-1228 | afterwards the extension is absent: the catalog and every mapping table of it are gone, so are all its ledger entries, and other tables and entries are untouched |
| RemovalSpec.RemoveExtensionIdempotent | lib/extension/related/relatedTablesExtension.ts:1211-1228 | removing the extension twice is removing it once |
| RelatedTables.RelatedTablesExtension.constructor | lib/extension/related/relatedTablesExtension.ts:60-63 | the extension and its table creator work on the same GeoPackage |
| RelatedTables.RelatedTablesExtension.CreateExtendedRelationsTable | lib/extension/related/relatedTablesExtension.ts:165-179 | result and new database are `RelatedSpec.CreateExtendedRelationsTable`'s |
| RelatedTables.RelatedTablesExtension.GetOrCreate | lib/extension/related/relatedTablesExtension.ts:88-98 | result and new database are `RelatedSpec.GetOrCreate`'s, described by GetOrCreateOutcome |
| RelatedTables.RelatedTablesExtension.GetOrCreateWithMappingTable | lib/extension/related/relatedTablesExtension.ts:107-116 | result and new database are `RelatedSpec.GetOrCreateWithMappingTable`'s |
| RelatedTables.RelatedTablesExtension.Has | lib/extension/related/relatedTablesExtension.ts:123-128 | true exactly when the ledger has the catalog's key and the catalog table exists |
| RelatedTables.RelatedTablesExtension.HasExtensionForMappingTable | lib/extension/related/relatedTablesExtension.ts:136-138 | true exactly when the extension is present and the mapping table's key is in the ledger |
| RelatedTables.RelatedTablesExtension.GetPrimaryKeyColumnName | lib/extension/related/relatedTablesExtension.ts:187-194 | returns the table's primary-key column, failing exactly when the table or its key is missing |
| RelatedTables.RelatedTablesExtension.CreateUserMappingTable | lib/extension/related/relatedTablesExtension.ts:968-995 | result and new database are `RelatedSpec.CreateUserMappingTable`'s, described by CreateUserMappingTableOutcome |
| RelatedTables.RelatedTablesExtension.CreateRelatedTable | lib/extension/related/relatedTablesExtension.ts:1068-1094 | result and new database are `RelatedSpec.CreateRelatedTable`'s |
| RelatedTables.RelatedTablesExtension.AddCatalogRow | lib/extension/related/relatedTablesExtension.ts:468-487 | finds or inserts the requested row as `RelatedSpec.AddRow` does |
| RelatedTables.RelatedTablesExtension.AddRelationshipWithMappingTableAndRelationName | lib/extension/related/relatedTablesExtension.ts:448-489 | validate, set up the mapping table, then find or insert the row, as `RelatedSpec.AddRelationshipWithMappingTableAndRelationName` (also the mapping-table-object overloads at lines 398-436) |
| RelatedTables.RelatedTablesExtension.AddRelationshipWithExtendedRelation | lib/extension/related/relatedTablesExtension.ts:239-246 | adds the relation the row describes, by its tables, mapping table and name |
| RelatedTables.RelatedTablesExtension.AddRelationshipWithRelationName | lib/extension/related/relatedTablesExtension.ts:374-386 | the name-taking add with a plain relation name |
| RelatedTables.RelatedTablesExtension.AddRelationshipWithRelationType | lib/extension/related/relatedTablesExtension.ts:324-336 | the name-taking add with the relation type's name (also lines 398-410) |
| RelatedTables.RelatedTablesExtension.AddRelationshipWithRelationAuthorAndRelationName | lib/extension/related/relatedTablesExtension.ts:349-362 | the name-taking add with the author-built custom name (also lines 423-436) |
| RelatedTables.RelatedTablesExtension.AddFeaturesRelationship | lib/extension/related/relatedTablesExtension.ts:636-672 | the name-taking add with relation type features |
| RelatedTables.RelatedTablesExtension.AddAttributesRelationship | lib/extension/related/relatedTablesExtension.ts:757-789 | the name-taking add with relation type attributes |
| RelatedTables.RelatedTablesExtension.AddTilesRelationship | lib/extension/related/relatedTablesExtension.ts:836-869 | the name-taking add with relation type tiles |
| RelatedTables.RelatedTablesExtension.AddRelationshipWithRelatedTableAndRelationNameAndMappingTable | lib/extension/related/relatedTablesExtension.ts:607-622 | create the related table, then the name-taking add to it, as `RelatedSpec.AddWithRelatedTable` |
| RelatedTables.RelatedTablesExtension.AddRelationshipWithUserTable | lib/extension/related/relatedTablesExtension.ts:582-595 | related-table creation followed by the add, with the given relation name (also lines 560-571) |
| RelatedTables.RelatedTablesExtension.AddRelationshipWithRelatedTable | lib/extension/related/relatedTablesExtension.ts:500-533 | related-table creation followed by the add, with the related table's own relation name |
| RelatedTables.RelatedTablesExtension.AddRelationshipWithUserTableAndMappingName | lib/extension/related/relatedTablesExtension.ts:543-549 | related-table creation followed by the add, named by the table's data type |
| RelatedTables.RelatedTablesExtension.AddMediaRelationship | lib/extension/related/relatedTablesExtension.ts:687-710 | creates a media table (data type attributes) and relates it under relation name media |
| RelatedTables.RelatedTablesExtension.AddSimpleAttributesRelationship | lib/extension/related/relatedTablesExtension.ts:722-746 | creates a simple attributes table and relates it under relation name simple_attributes |
| RelatedTables.RelatedTablesExtension.AddAttributesRelationshipWithAttributesTable | lib/extension/related/relatedTablesExtension.ts:801-825 | creates an attributes table and relates it under relation name attributes |
| RelatedTables.RelatedTablesExtension.AddTilesRelationshipWithTileTable | lib/extension/related/relatedTablesExtension.ts:880-903 | creates a tiles table and relates it under relation name tiles |
| RelatedTables.RelatedTablesExtension.AddCatalogRowByMapping | lib/extension/related/relatedTablesExtension.ts:304-311 | find-by-mapping-name or insert, as `RelatedSpec.AddRowByMapping` |
| RelatedTables.RelatedTablesExtension.AddRelationship | lib/extension/related/relatedTablesExtension.ts:260-312 | the generic add, as `RelatedSpec.AddRelationship`, described by its outcome lemmas |
| RelatedTables.RelatedTablesExtension.RemoveRelationshipWithExtendedRelation | lib/extension/related/relatedTablesExtension.ts:1131-1149 | as `RemovalSpec.RemoveWithExtendedRelation` |
| RelatedTables.RelatedTablesExtension.RemoveEach | lib/extension/related/relatedTablesExtension.ts:1161-1163 | the removal loop over a list of relations, stopping at the first failure |
| RelatedTables.RelatedTablesExtension.RemoveRelationship | lib/extension/related/relatedTablesExtension.ts:1157-1170 | removes the relations with these base, related and relation names |
| RelatedTables.RelatedTablesExtension.RemoveRelationshipWithRelationType | lib/extension/related/relatedTablesExtension.ts:1102-1108 | removes by the relation type's name |
| RelatedTables.RelatedTablesExtension.RemoveRelationshipWithRelationAuthorAndRelationName | lib/extension/related/relatedTablesExtension.ts:1118-1125 | removes by the author-built custom name |
| RelatedTables.RelatedTablesExtension.RemoveRelationships | lib/extension/related/relatedTablesExtension.ts:1176-1187 | removes every relation with the table as base or related table |
| RelatedTables.RelatedTablesExtension.RemoveRelationshipsWithMappingTable | lib/extension/related/relatedTablesExtension.ts:1195-1206 | removes the relations using the mapping table |
| RelatedTables.RelatedTablesExtension.RemoveExtension | lib/extension/related/relatedTablesExtension.ts:1211-1228 | the new database is `RemovalSpec.RemoveExtension` of the old, described by RemoveExtensionOutcome |
| RelatedTables.RelatedTablesExtension.GetRelationships | lib/extension/related/relatedTablesExtension.ts:219-233 | all catalog rows, or nothing without the catalog |
| RelatedTables.RelatedTablesExtension.GetRelations | lib/extension/related/relatedTablesExtension.ts:1361-1402 | exactly the rows matching every given field (also the getRelationsWith* wrappers, lines 1237-1326) |
| RelatedTables.RelatedTablesExtension.HasRelations | lib/extension/related/relatedTablesExtension.ts:1339-1348 | true exactly when the catalog exists and some row matches (also the hasRelationsWith* wrappers) |
| RelatedTables.RelatedTablesExtension.GetBaseTableRelations | lib/extension/related/relatedTablesExtension.ts:1419-1426 | null without a catalog, else exactly the rows with that base table |
| RelatedTables.RelatedTablesExtension.HasBaseTableRelations | lib/extension/related/relatedTablesExtension.ts:1433-1436 | true exactly when some catalog row has that base table |
| RelatedTables.RelatedTablesExtension.GetRelatedTableRelations | lib/extension/related/relatedTablesExtension.ts:1443-1450 | null without a catalog, else exactly the rows with that related table |
| RelatedTables.RelatedTablesExtension.HasRelatedTableRelations | lib/extension/related/relatedTablesExtension.ts:1457-1460 | true exactly when some catalog row has that related table |
| RelatedTables.RelatedTablesExtension.GetTableRelations | lib/extension/related/relatedTablesExtension.ts:1467-1474 | null without a catalog, else exactly the rows with the table on either side |
| RelatedTables.RelatedTablesExtension.HasTableRelations | lib/extension/related/relatedTablesExtension.ts:1481-1484 | true exactly when some catalog row names the table on either side |
| RelatedTables.RelatedTablesExtension.FetchRelatedRows | lib/extension/related/relatedTablesExtension.ts:1551-1554 | the result-set loop pairs each mapping row, in order, with its fetched related row |
| RelatedTables.RelatedTablesExtension.GetRelatedRows | lib/extension/related/relatedTablesExtension.ts:1517-1559 | the relation loop builds the map `RelatedRows.GetRelatedRows` describes |
| RelatedTables.RelatedTablesExtension.GetMappingsFor | lib/extension/related/relatedTablesExtension.ts:1578-1591 | getMappingsForBase/Related (related side at lines 1610-1625): the opposite ids of the rows with that id, in row order; fails on a missing table |
| RelatedTables.RelatedTablesExtension.GetMappingsForWithExtendedRelation | lib/extension/related/relatedTablesExtension.ts:1568-1570 | the same, on the relation's mapping table (related side at lines 1600-1602) |
| RelatedTables.RelatedTablesExtension.HasMapping | lib/extension/related/relatedTablesExtension.ts:1634-1637 | true exactly when the pair is a row of the mapping table |
| RelatedTables.RelatedTablesExtension.CountMappingsToWithExtendedRelation | lib/extension/related/relatedTablesExtension.ts:1692-1694 | the number of rows with the id on that side (related side at lines 1794-1796) |
| RelatedTables.RelatedTablesExtension.HasMappingToWithExtendedRelation | lib/extension/related/relatedTablesExtension.ts:1702-1704 | true exactly when some row has the id on that side (related side at lines 1804-1806) |
| RelatedTables.RelatedTablesExtension.CountMappingsToWithExtendedRelations | lib/extension/related/relatedTablesExtension.ts:1665-1673 | the summing loop (related side at lines 1768-1776) |
| RelatedTables.RelatedTablesExtension.HasMappingToWithExtendedRelations | lib/extension/related/relatedTablesExtension.ts:1681-1683 | true exactly when some listed mapping table has a row with the id on that side (related side at lines 1784-1786) |
| RelatedTables.RelatedTablesExtension.CountMappingsTo | lib/extension/related/relatedTablesExtension.ts:1645-1647 | counts over the table's relations on that side (related side at lines 1748-1750) |
| RelatedTables.RelatedTablesExtension.HasMappingTo | lib/extension/related/relatedTablesExtension.ts:1655-1657 | count > 0 (related side at lines 1758-1760) |
| RelatedTables.RelatedTablesExtension.CountMappings | lib/extension/related/relatedTablesExtension.ts:1853-1858 | base-side count plus related-side count |
| RelatedTables.RelatedTablesExtension.HasMappingForBaseOrRelatedId | lib/extension/related/relatedTablesExtension.ts:1866-1871 | short-circuit or of the two sides, as `Mappings.HasMappingForBaseOrRelatedId` |
| RelatedTables.RelatedTablesExtension.DeleteMappingsToWithExtendedRelation | lib/extension/related/relatedTablesExtension.ts:1738-1740 | deletes the rows with the id on that side and returns how many (related side at lines 1843-1845) |
| RelatedTables.RelatedTablesExtension.DeleteMappingsToWithExtendedRelations | lib/extension/related/relatedTablesExtension.ts:1722-1730 | the deleting loop over the relations (related side at lines 1824-1835) |
| RelatedTables.RelatedTablesExtension.DeleteMappingsTo | lib/extension/related/relatedTablesExtension.ts:1712-1714 | deletes over the table's relations on that side (related side at lines 1814-1816) |
| RelatedTables.RelatedTablesExtension.DeleteMappings | lib/extension/related/relatedTablesExtension.ts:1879-1883 | deletes on the base side, then on the related side, and sums the counts |

The methods that take a user mapping table object instead of a mapping table
name are the same compositions, with the mapping table named by that object.
They are covered by the name-taking rows above (lines 398-436, 560-571,
661-672, 704-710, 740-746, 778-789, 819-825, 858-869 and 897-903).

## Left out

- The DAO layer, SQL text generation and the wording of exception messages are not modelled. Errors are modelled by kind. The source rewraps some failures in a GeoPackageException, while the model passes on the original error's kind.
- relationType.ts, geoPackage.ts, baseExtension.ts and extendedRelationsDao.ts are not part of this model. The model assumes the following about them:
  - the media and simple_attributes relation types require contents data type `attributes`;
  - `fromName` matches names exactly;
  - `deleteTable` drops the table and deletes its gpkg_contents row, and no further cleanup of other metadata tables is modelled;
  - the extensions `getOrCreate` is a get-or-insert keyed by (extension, table, column).
- The existence of the gpkg_extensions table itself is not modelled; the ledger is always available.
- NULL values in UNIQUE columns are not modelled, because catalog fields are never null here.
- The TypeErrors that JavaScript raises for missing arguments of `addRelationship` are not modelled. The request datatype always carries a base table, a related table and a mapping table.
- Read-only enforcement (`verifyWritable`) is a `writable` flag on the store. It is checked where the source checks it, at the start of createExtendedRelationsTable.
- Reading user rows of related tables is an abstract `fetch` function parameter, because the user DAOs are not modelled. Looking up a related table's DAO that does not exist is not modelled either.
- RelatedTables.RelatedTablesExtension.GetRelatedRows: the source crashes on a null relation list when the catalog is absent; the model reports this as `TableNotFound(gpkgext_relations)`.
- RelatedTables.RelatedTablesExtension.AddRelationshipWithUserTableAndMappingName: requires the table to have a data type. In the source, a table without one passes null as the relation name.
- The typed helpers (AddMediaRelationship and the others) take a table name and a primary-key column instead of full column lists. Columns other than the primary key are not modelled.
- RemovalSpec.RemoveExtension: modelled as total. Its failure path, a store error while dropping, cannot arise in this model.
- The connection used by `execScript` is a parameter. `Sql.SqliteRun` is the model's SQLite engine, which throws "table X already exists" for CREATE TABLE on an existing name. Other statement kinds in the scripts are not modelled.
- Concurrency, transactions and connection closing (`resultSet.close`) are not modelled.
- RelatedSpec.AddRowByMapping: the relation that the generic add returns after inserting keeps the unset id (0) it was built with, because the source returns the object it passed to the DAO's `create` without calling `setId` (unlike the name-taking add). Whether `create` writes the new id back into that object is decided in extendedRelationsDao.ts and its base DAO, which are not part of this model; the catalog row itself gets the next id.
- RelatedSpec.AddRelationshipNewTableKeepsValid: states `Extends` only from the store after the related table's creation, because creating it adds a gpkg_contents row; it also requires that the related table is not named gpkgext_relations.
- The lemmas CreateUserMappingTableOutcome, CreateUserMappingTableIdempotent, AddWithMappingTableKeepsValid, AddWithMappingTableOutcome, AddWithMappingTableIsAddRow, AddWithMappingTableIdempotent, AddRelationshipIsAddRowByMapping, AddRelationshipKeepsValid, AddRelationshipOutcome, AddRelationshipNewTableKeepsValid, AddRelationshipNewTableOutcome, RemoveOneOutcome, RemoveAllOutcome, RemoveSelectedOutcome and RemoveSelectedLeavesNoneSelected require that the mapping tables involved are not gpkgext_relations (and the two NewTable lemmas, that the related table is not either). With the catalog itself as the mapping table, the model states only CreateUserMappingTableOnCatalogName (the call answers false) and RemoveCatalogAsMappingFails (the removal fails).
