/**
 * The GeoPackage database as the Related Tables engine sees it, modelled as
 * one state record: the set of tables and views, the gpkg_contents rows,
 * each table's primary-key column, the gpkgext_relations catalog (absent
 * until that table exists), the gpkg_extensions ledger and the rows of
 * every mapping table.
 *
 * Data definition (DDL) is modelled by `Retable`: a table that comes into
 * being is empty, a table that is dropped loses its rows, and dropping
 * gpkgext_relations also drops its AUTOINCREMENT counter.
 */
module GeoStore {

  datatype Option<+T> = None | Some(value: T)

  /** Failure kinds; the wording of the source's exception messages is not modelled. */
  datatype Error =
    | TableNotFound(table: string)
    | NoPrimaryKey(table: string)
    | TableAlreadyExists(table: string)
    | RelationTypeMismatch(table: string, expectedDataType: string)
    | DuplicateMapping(mappingTable: string)
    | ContentsNotCreated(table: string)
    | UnresolvableRelationType(relationName: string)
    | ReadOnlyViolation
    | StoreFailure(message: string)

  datatype Result<+T> = Ok(value: T) | Err(error: Error)

  /** Name of the relation catalog table (ExtendedRelation.TABLE_NAME). */
  const RelationsTable: string := "gpkgext_relations"

  /** One row of gpkgext_relations. */
  datatype ExtendedRelation = ExtendedRelation(
    id: int,
    baseTableName: string,
    basePrimaryColumn: string,
    relatedTableName: string,
    relatedPrimaryColumn: string,
    relationName: string,
    mappingTableName: string)

  /** One row of a mapping table; duplicates are allowed. */
  datatype MappingRow = MappingRow(baseId: int, relatedId: int)

  datatype Scope = ReadWrite | ReadOnly

  /** gpkg_extensions is unique on (table_name, column_name, extension_name). */
  datatype ExtensionKey = ExtensionKey(extensionName: string, tableName: Option<string>, columnName: Option<string>)

  datatype ExtensionInfo = ExtensionInfo(definition: string, scope: Scope)

  /** The part of a gpkg_contents row the engine reads or writes. */
  datatype Contents = Contents(dataType: string, identifier: Option<string>)

  /** The rows of gpkgext_relations and its AUTOINCREMENT counter. */
  datatype Catalog = Catalog(rows: seq<ExtendedRelation>, lastId: int)

  /** A user table definition: its name, primary-key column and contents data type. */
  datatype UserTable = UserTable(tableName: string, pkColumn: Option<string>, dataType: Option<string>)

  datatype Store = Store(
    writable: bool,
    tables: set<string>,
    contents: map<string, Contents>,
    primaryKeys: map<string, Option<string>>,
    catalog: Option<Catalog>,
    extensions: map<ExtensionKey, ExtensionInfo>,
    mappings: map<string, seq<MappingRow>>)

  /** The outcome of an operation that changes the store: its result and the store afterwards. */
  datatype Step<+T> = Step(result: Result<T>, db: Store)

  /** The store after its set of tables becomes `newTables`. */
  function Retable(s: Store, newTables: set<string>): Store
  {
    var kept := s.tables * newTables;
    s.(tables := newTables,
       primaryKeys := map n | n in s.primaryKeys && n in kept :: s.primaryKeys[n],
       mappings := map n | n in s.mappings && n in kept :: s.mappings[n],
       catalog :=
         if RelationsTable !in newTables then None
         else if RelationsTable in s.tables && s.catalog.Some? then s.catalog
         else Some(Catalog([], 0)))
  }

  /** `CREATE TABLE` for a user table (the caller has checked that it is absent). */
  function CreateTable(s: Store, t: UserTable): Store
  {
    var r := Retable(s, s.tables + {t.tableName});
    r.(primaryKeys := r.primaryKeys[t.tableName := t.pkColumn])
  }

  /** `DROP TABLE IF EXISTS`. */
  function DropTable(s: Store, name: string): Store
  {
    Retable(s, s.tables - {name})
  }

  /** GeoPackage.deleteTable: drops the table and deletes its gpkg_contents row. */
  function DeleteTable(s: Store, name: string): Store
  {
    DropTable(s, name).(contents := s.contents - {name})
  }

  /**
   * Insert a gpkg_contents row. It fails when the schema rejects it:
   * table_name is the primary key, data_type is NOT NULL, identifier is UNIQUE.
   */
  function InsertContents(s: Store, name: string, dataType: Option<string>): (r: Result<Store>)
    ensures r.Ok? <==> name !in s.contents && dataType.Some?
                        && forall t :: t in s.contents ==> s.contents[t].identifier != Some(name)
    ensures r.Ok? ==> r.value == s.(contents := s.contents[name := Contents(dataType.value, Some(name))])
  {
    if name in s.contents || dataType.None? then Err(ContentsNotCreated(name))
    else if exists t :: t in s.contents && s.contents[t].identifier == Some(name) then Err(ContentsNotCreated(name))
    else Ok(s.(contents := s.contents[name := Contents(dataType.value, Some(name))]))
  }

  /** The primary-key column read from a table's schema. */
  function PrimaryKey(s: Store, table: string): (r: Result<string>)
    ensures r.Ok? <==> table in s.tables && table in s.primaryKeys && s.primaryKeys[table].Some?
    ensures r.Ok? ==> r.value == s.primaryKeys[table].value
  {
    if table !in s.tables then Err(TableNotFound(table))
    else if table !in s.primaryKeys || s.primaryKeys[table].None? then Err(NoPrimaryKey(table))
    else Ok(s.primaryKeys[table].value)
  }

  /** All rows of a mapping table, in row order; reading a missing table fails. */
  function MappingRows(s: Store, table: string): (r: Result<seq<MappingRow>>)
    ensures r.Ok? <==> table in s.tables
  {
    if table !in s.tables then Err(TableNotFound(table))
    else Ok(if table in s.mappings then s.mappings[table] else [])
  }

  function SetMappingRows(s: Store, table: string, rows: seq<MappingRow>): Store
  {
    s.(mappings := s.mappings[table := rows])
  }

  /** No two catalog rows share a mapping table name (mapping_table_name UNIQUE). */
  ghost predicate UniqueMappingNames(rows: seq<ExtendedRelation>)
  {
    forall i, j :: 0 <= i < j < |rows| ==> rows[i].mappingTableName != rows[j].mappingTableName
  }

  /** Row ids are distinct, positive and no larger than the AUTOINCREMENT counter. */
  ghost predicate IdsBelowCounter(c: Catalog)
  {
    && 0 <= c.lastId
    && (forall i :: 0 <= i < |c.rows| ==> 0 < c.rows[i].id <= c.lastId)
    && (forall i, j :: 0 <= i < j < |c.rows| ==> c.rows[i].id != c.rows[j].id)
  }

  /** The store invariant: catalog presence follows its table, and the catalog is consistent. */
  ghost predicate Valid(s: Store)
  {
    && (s.catalog.Some? <==> RelationsTable in s.tables)
    && s.mappings.Keys <= s.tables
    && (s.catalog.Some? ==>
          && UniqueMappingNames(s.catalog.value.rows)
          && IdsBelowCounter(s.catalog.value)
          && forall i :: 0 <= i < |s.catalog.value.rows| ==> s.catalog.value.rows[i].mappingTableName in s.tables)
  }

  /** The GeoPackage: a handle on the database, whose contents the engine changes. */
  class GeoPackage {
    var db: Store

    constructor (initial: Store)
      ensures db == initial
    {
      db := initial;
    }
  }
}
