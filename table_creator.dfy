/**
 * The store-side rules of the table creator: the two creation scripts the
 * Related Tables engine relies on (gpkg_extensions and gpkgext_relations),
 * script execution that tolerates "already exists" errors, and user-table
 * creation that refuses an existing name.
 */
module Sql {
  import opened GeoStore

  datatype SqlType = Integer | Text

  datatype ColumnDef = ColumnDef(
    name: string,
    sqlType: SqlType,
    notNull: bool,
    default: Option<string>,
    primaryKey: bool,
    autoincrement: bool,
    unique: bool)

  /** A DDL statement of a creation script. */
  datatype Statement = CreateTableStatement(table: string, columns: seq<ColumnDef>, uniqueConstraints: seq<seq<string>>)

  /** The entries of the creation-script table that this model covers. */
  datatype ScriptName = ExtensionsScript | ExtendedRelationsScript

  function TextColumn(name: string, notNull: bool): ColumnDef
  {
    ColumnDef(name, Text, notNull, None, false, false, false)
  }

  /** gpkg_extensions: every text column, unique on (table_name, column_name, extension_name). */
  const ExtensionsTable: Statement := CreateTableStatement(
    "gpkg_extensions",
    [ TextColumn("table_name", false), TextColumn("column_name", false), TextColumn("extension_name", true),
      TextColumn("definition", true), TextColumn("scope", true) ],
    [ ["table_name", "column_name", "extension_name"] ])

  /** gpkgext_relations: AUTOINCREMENT id, 'id' defaults for both key columns, a unique mapping table name. */
  const ExtendedRelationsTable: Statement := CreateTableStatement(
    RelationsTable,
    [ ColumnDef("id", Integer, false, None, true, true, false),
      TextColumn("base_table_name", true),
      ColumnDef("base_primary_column", Text, true, Some("id"), false, false, false),
      TextColumn("related_table_name", true),
      ColumnDef("related_primary_column", Text, true, Some("id"), false, false, false),
      TextColumn("relation_name", true),
      ColumnDef("mapping_table_name", Text, true, None, false, false, true) ],
    [])

  function SqlScripts(name: ScriptName): seq<Statement>
  {
    match name
    case ExtensionsScript => [ExtensionsTable]
    case ExtendedRelationsScript => [ExtendedRelationsTable]
  }

  /** What one `connection.run(sql)` does: a result (truthy or not) and the new table set, or an exception. */
  datatype RunOutcome = Ran(truthy: bool, tables: set<string>) | Threw(message: string)

  /** The connection's `run`, as seen from the table set. */
  type Connection = (set<string>, Statement) -> RunOutcome

  /** SQLite: creating a table whose name is taken throws "table ... already exists". */
  function SqliteRun(tables: set<string>, statement: Statement): RunOutcome
  {
    if statement.table in tables then Threw("table " + statement.table + " already exists")
    else Ran(true, tables + {statement.table})
  }

  /** `s.indexOf(sub) !== -1` */
  predicate Contains(s: string, sub: string)
    decreases |s|
  {
    |sub| <= |s| && (s[..|sub|] == sub || Contains(s[1..], sub))
  }

  predicate IsAlreadyExists(message: string)
  {
    Contains(message, "already exists")
  }

  /**
   * execScript from a given value of `success`: a statement is run only while
   * `success` holds (the `&&` short-circuit); an "already exists" exception is
   * swallowed and leaves `success` unchanged; any other exception propagates.
   */
  function RunScripts(s: Store, scripts: seq<Statement>, run: Connection, success: bool): Step<bool>
    decreases |scripts|
  {
    if scripts == [] then Step(Ok(success), s)
    else if !success then RunScripts(s, scripts[1..], run, success)
    else match run(s.tables, scripts[0])
      case Ran(truthy, tables) => RunScripts(Retable(s, tables), scripts[1..], run, truthy)
      case Threw(message) =>
        if IsAlreadyExists(message) then RunScripts(s, scripts[1..], run, success)
        else Step(Err(StoreFailure(message)), s)
  }

  function StatementTables(scripts: seq<Statement>): set<string>
  {
    set k | 0 <= k < |scripts| :: scripts[k].table
  }

  /** createUserTable: fails, creating nothing, when the name is taken; otherwise adds exactly that table. */
  function CreateUserTable(s: Store, t: UserTable): (r: Step<()>)
    ensures r.result.Err? <==> t.tableName in s.tables
    ensures r.result.Err? ==> r.result.error == TableAlreadyExists(t.tableName) && r.db == s
    ensures r.result.Ok? ==> r.db.tables == s.tables + {t.tableName}
                             && t.tableName in r.db.primaryKeys && r.db.primaryKeys[t.tableName] == t.pkColumn
                             && MappingRows(r.db, t.tableName) == Ok([])
    ensures r.result.Ok? && Valid(s) ==> Valid(r.db) && r.db.catalog == (if t.tableName == RelationsTable then Some(Catalog([], 0)) else s.catalog)
  {
    if t.tableName in s.tables then Step(Err(TableAlreadyExists(t.tableName)), s)
    else Step(Ok(()), CreateTable(s, t))
  }

  lemma {:induction false} ContainsSuffix(prefix: string, sub: string)
    ensures Contains(prefix + sub, sub)
    decreases |prefix|
  {
    if prefix == [] {
      assert (prefix + sub)[..|sub|] == sub;
    } else {
      assert (prefix + sub)[1..] == prefix[1..] + sub;
      ContainsSuffix(prefix[1..], sub);
    }
  }

  /** The message SQLite gives for a taken table name is recognised as "already exists". */
  lemma SqliteMessageIsAlreadyExists(table: string)
    ensures IsAlreadyExists("table " + table + " already exists")
  {
    ContainsSuffix("table " + table + " ", "already exists");
    assert "table " + table + " already exists" == ("table " + table + " ") + "already exists";
  }

  /** Once a run has returned a falsy result, no later statement is executed and the result stays false. */
  lemma {:induction false} ShortCircuitRunsNothing(s: Store, scripts: seq<Statement>, run: Connection)
    ensures RunScripts(s, scripts, run, false) == Step(Ok(false), s)
    decreases |scripts|
  {
    if scripts != [] {
      ShortCircuitRunsNothing(s, scripts[1..], run);
    }
  }

  /** When every statement throws "already exists", the script succeeds and changes nothing. */
  lemma {:induction false} AlreadyExistsSwallowed(s: Store, scripts: seq<Statement>, run: Connection)
    requires forall k :: 0 <= k < |scripts| ==> run(s.tables, scripts[k]).Threw? && IsAlreadyExists(run(s.tables, scripts[k]).message)
    ensures RunScripts(s, scripts, run, true) == Step(Ok(true), s)
    decreases |scripts|
  {
    if scripts != [] {
      assert run(s.tables, scripts[0]).Threw?;
      forall k | 0 <= k < |scripts[1..]|
        ensures run(s.tables, scripts[1..][k]).Threw? && IsAlreadyExists(run(s.tables, scripts[1..][k]).message)
      {
        assert scripts[1..][k] == scripts[k + 1];
      }
      AlreadyExistsSwallowed(s, scripts[1..], run);
    }
  }

  /** An exception other than "already exists" stops the script and is returned, leaving the store as it was then. */
  lemma OtherErrorPropagates(s: Store, scripts: seq<Statement>, run: Connection)
    requires scripts != [] && run(s.tables, scripts[0]).Threw? && !IsAlreadyExists(run(s.tables, scripts[0]).message)
    ensures RunScripts(s, scripts, run, true) == Step(Err(StoreFailure(run(s.tables, scripts[0]).message)), s)
  {
  }

  /** On SQLite, a script of table creations always succeeds and leaves every one of its tables in place. */
  lemma {:induction false} SqliteScriptCreates(s: Store, scripts: seq<Statement>)
    ensures RunScripts(s, scripts, SqliteRun, true).result == Ok(true)
    ensures RunScripts(s, scripts, SqliteRun, true).db.tables == s.tables + StatementTables(scripts)
    decreases |scripts|
  {
    if scripts != [] {
      var next := if scripts[0].table in s.tables then s else Retable(s, s.tables + {scripts[0].table});
      if scripts[0].table in s.tables {
        SqliteMessageIsAlreadyExists(scripts[0].table);
      }
      SqliteScriptCreates(next, scripts[1..]);
      assert StatementTables(scripts) == {scripts[0].table} + StatementTables(scripts[1..]) by {
        forall n | n in StatementTables(scripts) ensures n in {scripts[0].table} + StatementTables(scripts[1..]) {
          var k :| 0 <= k < |scripts| && scripts[k].table == n;
          if k > 0 { assert scripts[1..][k - 1] == scripts[k]; }
        }
        forall n | n in StatementTables(scripts[1..]) ensures n in StatementTables(scripts) {
          var k :| 0 <= k < |scripts[1..]| && scripts[1..][k].table == n;
          assert scripts[k + 1] == scripts[1..][k];
        }
      }
    }
  }

  /** Running a script of table creations a second time on SQLite succeeds and changes nothing. */
  lemma SqliteScriptIdempotent(s: Store, scripts: seq<Statement>)
    ensures var first := RunScripts(s, scripts, SqliteRun, true);
            RunScripts(first.db, scripts, SqliteRun, true) == Step(Ok(true), first.db)
  {
    var first := RunScripts(s, scripts, SqliteRun, true);
    SqliteScriptCreates(s, scripts);
    forall k | 0 <= k < |scripts|
      ensures SqliteRun(first.db.tables, scripts[k]).Threw? && IsAlreadyExists(SqliteRun(first.db.tables, scripts[k]).message)
    {
      assert scripts[k].table in StatementTables(scripts);
      SqliteMessageIsAlreadyExists(scripts[k].table);
    }
    AlreadyExistsSwallowed(first.db, scripts, SqliteRun);
  }
}

/** The table creator object: it runs scripts and user-table creations against its GeoPackage. */
module TableCreator {
  import opened GeoStore
  import opened Sql

  class GeoPackageTableCreator {
    const geoPackage: GeoPackage

    constructor (gp: GeoPackage)
      ensures geoPackage == gp
    {
      geoPackage := gp;
    }

    /** execScript: runs the named script's statements in order through `run`. */
    method ExecScript(name: ScriptName, run: Connection) returns (r: Result<bool>)
      modifies geoPackage
      ensures Step(r, geoPackage.db) == RunScripts(old(geoPackage.db), SqlScripts(name), run, true)
    {
      var scripts := SqlScripts(name);
      var success := true;
      var i := 0;
      assert scripts[i..] == scripts;
      while i < |scripts|
        invariant 0 <= i <= |scripts|
        invariant RunScripts(geoPackage.db, scripts[i..], run, success) == RunScripts(old(geoPackage.db), scripts, run, true)
      {
        assert scripts[i..][1..] == scripts[i + 1..];
        if success {
          match run(geoPackage.db.tables, scripts[i]) {
            case Ran(truthy, tables) =>
              geoPackage.db := Retable(geoPackage.db, tables);
              success := truthy;
            case Threw(message) =>
              if !IsAlreadyExists(message) {
                return Err(StoreFailure(message));
              }
          }
        }
        i := i + 1;
      }
      return Ok(success);
    }

    /** createUserTable: refuses an existing name, otherwise creates the table. */
    method CreateUserTable(t: UserTable) returns (r: Result<()>)
      modifies geoPackage
      ensures Step(r, geoPackage.db) == Sql.CreateUserTable(old(geoPackage.db), t)
    {
      if t.tableName in geoPackage.db.tables {
        return Err(TableAlreadyExists(t.tableName));
      }
      geoPackage.db := CreateTable(geoPackage.db, t);
      return Ok(());
    }

    /** createExtendedRelations: exactly the extended_relations script, on SQLite. */
    method CreateExtendedRelations() returns (r: Result<bool>)
      modifies geoPackage
      ensures Step(r, geoPackage.db) == RunScripts(old(geoPackage.db), SqlScripts(ExtendedRelationsScript), SqliteRun, true)
    {
      r := ExecScript(ExtendedRelationsScript, SqliteRun);
    }

    /** createExtensions: exactly the extensions script, on SQLite. */
    method CreateExtensions() returns (r: Result<bool>)
      modifies geoPackage
      ensures Step(r, geoPackage.db) == RunScripts(old(geoPackage.db), SqlScripts(ExtensionsScript), SqliteRun, true)
    {
      r := ExecScript(ExtensionsScript, SqliteRun);
    }
  }
}
