/**
 * RelatedTablesExtension as an object over a GeoPackage: every public
 * operation of the engine as a method that reads or changes the GeoPackage's
 * database, proved against the value-level definitions of the spec modules.
 *
 * A user mapping table is identified by its name, so each "WithMappingTable"
 * overload of the source is the method taking the mapping table's name.
 */
module RelatedTables {
  import opened GeoStore
  import opened TableCreator
  import opened RelationTypes
  import opened RelationCatalog
  import opened Mappings
  import opened RelatedRows
  import Spec = RelatedSpec
  import Removal = RemovalSpec

  /** A count, plus the outcome of the counts still to come (a failure wins). */
  function Plus(n: nat, rest: Result<nat>): (r: Result<nat>)
    ensures r.Ok? <==> rest.Ok?
    ensures r.Ok? ==> r.value == n + rest.value
  {
    match rest
    case Err(e) => Err(e)
    case Ok(m) => Ok(n + m)
  }

  /** One turn of the delete loop: the first relation's delete, then the rest (a failure ends it). */
  lemma DeleteOverStep(s: Store, rels: seq<ExtendedRelation>, side: Side, id: int)
    requires rels != []
    ensures var d := DeleteBy(s, rels[0].mappingTableName, side, id);
            && (d.result.Err? ==> DeleteOver(s, rels, side, id) == Step(Err(d.result.error), d.db))
            && (d.result.Ok? ==>
                  var rest := DeleteOver(d.db, rels[1..], side, id);
                  DeleteOver(s, rels, side, id) == Step(Plus(d.result.value, rest.result), rest.db))
  {
  }

  /** The delete loop's invariant carried across one turn: after the `i`-th relation's delete, a failure is the outcome, and otherwise the count so far grows. */
  lemma DeleteLoopStep(s: Store, rels: seq<ExtendedRelation>, i: nat, count: nat, side: Side, id: int, target: Step<nat>,
                       n: Result<nat>, t: Store)
    requires i < |rels|
    requires var rest := DeleteOver(s, rels[i..], side, id);
             Step(Plus(count, rest.result), rest.db) == target
    requires Step(n, t) == DeleteBy(s, rels[i].mappingTableName, side, id)
    ensures n.Err? ==> Step(Err(n.error), t) == target
    ensures n.Ok? ==> var rest := DeleteOver(t, rels[i + 1..], side, id);
                      Step(Plus(count + n.value, rest.result), rest.db) == target
  {
    assert rels[i..][0] == rels[i] && rels[i..][1..] == rels[i + 1..];
    DeleteOverStep(s, rels[i..], side, id);
  }

  /** The count loop's invariant carried across one turn: after the `i`-th relation's count, a failure is the outcome, and otherwise the count so far grows. */
  lemma CountLoopStep(s: Store, rels: seq<ExtendedRelation>, i: nat, count: nat, side: Side, id: int, target: Result<nat>, n: Result<nat>)
    requires i < |rels|
    requires Plus(count, CountOver(s, rels[i..], side, id)) == target
    requires n == CountBy(s, rels[i].mappingTableName, side, id)
    ensures n.Err? ==> Err(n.error) == target
    ensures n.Ok? ==> Plus(count + n.value, CountOver(s, rels[i + 1..], side, id)) == target
  {
    assert rels[i..][0] == rels[i] && rels[i..][1..] == rels[i + 1..];
  }

  /** When the delete loop has run through every relation, the count so far is the outcome. */
  lemma DeleteLoopDone(s: Store, rels: seq<ExtendedRelation>, count: nat, side: Side, id: int, target: Step<nat>)
    requires var rest := DeleteOver(s, rels[|rels|..], side, id);
             Step(Plus(count, rest.result), rest.db) == target
    ensures Step(Ok(count), s) == target
  {
    assert rels[|rels|..] == [];
  }

  /** The entries collected so far, before the outcome of the relations still to come. */
  function Prefixed<R>(done: seq<RelationEntry<R>>, rest: Result<seq<RelationEntry<R>>>): (r: Result<seq<RelationEntry<R>>>)
    ensures r.Ok? <==> rest.Ok?
    ensures r.Ok? ==> r.value == done + rest.value
  {
    match rest
    case Err(e) => Err(e)
    case Ok(xs) => Ok(done + xs)
  }

  lemma PrefixedNothing<R>(rest: Result<seq<RelationEntry<R>>>)
    ensures Prefixed([], rest) == rest
  {
    if rest.Ok? {
      assert [] + rest.value == rest.value;
    }
  }

  /** One turn of the getRelatedRows loop, on top of the entries collected so far. */
  lemma RelatedRowsOverStep<R>(s: Store, rels: seq<ExtendedRelation>, baseId: int, typeFilter: Option<seq<RelationType>>,
                               fetch: (RelationType, string, int) -> R, done: seq<RelationEntry<R>>)
    requires rels != []
    ensures var rel := rels[0];
            var all := Prefixed(done, RelatedRowsOver(s, rels, baseId, typeFilter, fetch));
            var tail := RelatedRowsOver(s, rels[1..], baseId, typeFilter, fetch);
            && (!Wanted(rel, typeFilter) ==> all == Prefixed(done, tail))
            && (Wanted(rel, typeFilter) && FromName(rel.relationName).None? ==> all == Err(UnresolvableRelationType(rel.relationName)))
            && (Wanted(rel, typeFilter) && FromName(rel.relationName).Some? && MappingRows(s, rel.mappingTableName).Err? ==>
                  all == Err(MappingRows(s, rel.mappingTableName).error))
            && (Wanted(rel, typeFilter) && FromName(rel.relationName).Some? && MappingRows(s, rel.mappingTableName).Ok? ==>
                  var here := RelationEntry(rel, Fetched(RowsWith(MappingRows(s, rel.mappingTableName).value, BaseSide, baseId),
                                                        FromName(rel.relationName).value, rel.relatedTableName, fetch));
                  all == Prefixed(done + [here], tail))
  {
    var tail := RelatedRowsOver(s, rels[1..], baseId, typeFilter, fetch);
    if tail.Ok? {
      forall here: RelationEntry<R> ensures done + ([here] + tail.value) == (done + [here]) + tail.value {
      }
    }
  }

  /** The related-rows loop's invariant carried across one turn, on the `i`-th relation. */
  lemma RelatedRowsLoopStep<R>(s: Store, rels: seq<ExtendedRelation>, i: nat, baseId: int, typeFilter: Option<seq<RelationType>>,
                               fetch: (RelationType, string, int) -> R, done: seq<RelationEntry<R>>, target: Result<seq<RelationEntry<R>>>)
    requires i < |rels|
    requires Prefixed(done, RelatedRowsOver(s, rels[i..], baseId, typeFilter, fetch)) == target
    ensures var rel := rels[i];
            var tail := RelatedRowsOver(s, rels[i + 1..], baseId, typeFilter, fetch);
            && (!Wanted(rel, typeFilter) ==> Prefixed(done, tail) == target)
            && (Wanted(rel, typeFilter) && FromName(rel.relationName).None? ==> target == Err(UnresolvableRelationType(rel.relationName)))
            && (Wanted(rel, typeFilter) && FromName(rel.relationName).Some? && MappingRows(s, rel.mappingTableName).Err? ==>
                  target == Err(MappingRows(s, rel.mappingTableName).error))
            && (Wanted(rel, typeFilter) && FromName(rel.relationName).Some? && MappingRows(s, rel.mappingTableName).Ok? ==>
                  var here := RelationEntry(rel, Fetched(RowsWith(MappingRows(s, rel.mappingTableName).value, BaseSide, baseId),
                                                        FromName(rel.relationName).value, rel.relatedTableName, fetch));
                  Prefixed(done + [here], tail) == target)
  {
    assert rels[i..][0] == rels[i] && rels[i..][1..] == rels[i + 1..];
    RelatedRowsOverStep(s, rels[i..], baseId, typeFilter, fetch, done);
  }

  /** The related-rows loop's invariant after a wanted relation's entry has been collected. */
  lemma RelatedRowsLoopKeep<R>(s: Store, rels: seq<ExtendedRelation>, i: nat, baseId: int, typeFilter: Option<seq<RelationType>>,
                               fetch: (RelationType, string, int) -> R, done: seq<RelationEntry<R>>, target: Result<seq<RelationEntry<R>>>,
                               t: RelationType, rows: seq<MappingRow>, relationMap: seq<(MappingRow, R)>)
    requires i < |rels|
    requires Prefixed(done, RelatedRowsOver(s, rels[i..], baseId, typeFilter, fetch)) == target
    requires Wanted(rels[i], typeFilter) && FromName(rels[i].relationName) == Some(t)
    requires MappingRows(s, rels[i].mappingTableName) == Ok(rows)
    requires relationMap == Fetched(RowsWith(rows, BaseSide, baseId), t, rels[i].relatedTableName, fetch)
    ensures Prefixed(done + [RelationEntry(rels[i], relationMap)], RelatedRowsOver(s, rels[i + 1..], baseId, typeFilter, fetch)) == target
  {
    RelatedRowsLoopStep(s, rels, i, baseId, typeFilter, fetch, done, target);
  }

  /** MediaTable / SimpleAttributesTable: a related table of a relation type, named by that type. */
  function TypedRelatedTable(t: RelationType, tableName: string, pkColumn: string): Spec.RelatedTableDef
  {
    Spec.RelatedTableDef(UserTable(tableName, Some(pkColumn), Some(DataType(t))), Name(t))
  }

  /** AttributesTable / TileTable: a user table whose contents data type is that of the relation type. */
  function TypedTable(t: RelationType, tableName: string, pkColumn: string): UserTable
  {
    UserTable(tableName, Some(pkColumn), Some(DataType(t)))
  }

  class RelatedTablesExtension {
    const geoPackage: GeoPackage
    const tableCreator: GeoPackageTableCreator

    /** The table creator works on the same GeoPackage. */
    ghost predicate Linked()
    {
      tableCreator.geoPackage == geoPackage
    }

    constructor (gp: GeoPackage)
      ensures geoPackage == gp && Linked()
    {
      geoPackage := gp;
      tableCreator := new GeoPackageTableCreator(gp);
    }

    // -------------------------------------------------------------------
    // Extension setup
    // -------------------------------------------------------------------

    method CreateExtendedRelationsTable() returns (r: Result<bool>)
      requires Linked()
      modifies geoPackage
      ensures Step(r, geoPackage.db) == Spec.CreateExtendedRelationsTable(old(geoPackage.db))
    {
      if !geoPackage.db.writable {
        return Err(ReadOnlyViolation);
      }
      if RelationsTable in geoPackage.db.tables {
        return Ok(false);
      }
      Spec.ExtendedRelationsScriptRuns(geoPackage.db);
      r := tableCreator.CreateExtendedRelations();
    }

    method GetOrCreate() returns (r: Result<ExtensionKey>)
      requires Linked()
      modifies geoPackage
      ensures Step(r, geoPackage.db) == Spec.GetOrCreate(old(geoPackage.db))
    {
      var created := CreateExtendedRelationsTable();
      if created.Err? {
        return Err(created.error);
      }
      geoPackage.db := Spec.LedgerGetOrCreate(geoPackage.db, RelationsTable);
      return Ok(Spec.LedgerKey(RelationsTable));
    }

    method GetOrCreateWithMappingTable(mappingTable: string) returns (r: Result<ExtensionKey>)
      requires Linked()
      modifies geoPackage
      ensures Step(r, geoPackage.db) == Spec.GetOrCreateWithMappingTable(old(geoPackage.db), mappingTable)
    {
      r := GetOrCreate();
      if r.Err? {
        return;
      }
      geoPackage.db := Spec.LedgerGetOrCreate(geoPackage.db, mappingTable);
      return Ok(Spec.LedgerKey(mappingTable));
    }

    method Has() returns (r: bool)
      ensures r <==> Spec.LedgerKey(RelationsTable) in geoPackage.db.extensions && CatalogExists(geoPackage.db)
    {
      r := Spec.Has(geoPackage.db);
    }

    method HasExtensionForMappingTable(mappingTable: string) returns (r: bool)
      ensures r <==> Spec.Has(geoPackage.db) && Spec.LedgerKey(mappingTable) in geoPackage.db.extensions
    {
      r := Spec.HasExtensionForMappingTable(geoPackage.db, mappingTable);
    }

    method GetPrimaryKeyColumnName(tableName: string) returns (r: Result<string>)
      ensures r.Ok? <==> tableName in geoPackage.db.tables && tableName in geoPackage.db.primaryKeys
                         && geoPackage.db.primaryKeys[tableName].Some?
      ensures r.Ok? ==> r.value == geoPackage.db.primaryKeys[tableName].value
    {
      r := PrimaryKey(geoPackage.db, tableName);
    }

    // -------------------------------------------------------------------
    // Mapping and related tables
    // -------------------------------------------------------------------

    method CreateUserMappingTable(mappingTable: string) returns (r: Result<bool>)
      requires Linked()
      modifies geoPackage
      ensures Step(r, geoPackage.db) == Spec.CreateUserMappingTable(old(geoPackage.db), mappingTable)
    {
      var g := GetOrCreateWithMappingTable(mappingTable);
      if g.Err? {
        return Err(g.error);
      }
      if mappingTable in geoPackage.db.tables {
        return Ok(false);
      }
      var created := tableCreator.CreateUserTable(Spec.MappingTable(mappingTable));
      return Ok(true);
    }

    method CreateRelatedTable(relatedTable: UserTable) returns (r: Result<bool>)
      requires Linked()
      modifies geoPackage
      ensures Step(r, geoPackage.db) == Spec.CreateRelatedTable(old(geoPackage.db), relatedTable)
    {
      if relatedTable.tableName in geoPackage.db.tables {
        return Ok(false);
      }
      var created := tableCreator.CreateUserTable(relatedTable);
      match InsertContents(geoPackage.db, relatedTable.tableName, relatedTable.dataType)
      case Ok(db) =>
        geoPackage.db := db;
        return Ok(true);
      case Err(_) =>
        geoPackage.db := DeleteTable(geoPackage.db, relatedTable.tableName);
        return Err(ContentsNotCreated(relatedTable.tableName));
    }

    // -------------------------------------------------------------------
    // Adding relationships
    // -------------------------------------------------------------------

    /** The catalog step on the full tuple: reuse the first identical row, else insert with the next id. */
    method AddCatalogRow(row: ExtendedRelation) returns (r: Result<ExtendedRelation>)
      modifies geoPackage
      ensures Step(r, geoPackage.db) == Spec.AddRow(old(geoPackage.db), row)
    {
      match geoPackage.db.catalog
      case None =>
        return Err(TableNotFound(RelationsTable));
      case Some(cat) =>
        var found := Filter(cat.rows, Matching(TupleQuery(row)));
        if found != [] {
          return Ok(found[0]);
        }
        match InsertRelation(cat, row)
        case Err(e) =>
          return Err(e);
        case Ok(cat2) =>
          geoPackage.db := geoPackage.db.(catalog := Some(cat2));
          return Ok(row.(id := cat.lastId + 1));
    }

    method AddRelationshipWithMappingTableAndRelationName(
      baseTableName: string, relatedTableName: string, mappingTable: string, relationName: string)
      returns (r: Result<ExtendedRelation>)
      requires Linked()
      modifies geoPackage
      ensures Step(r, geoPackage.db)
              == Spec.AddRelationshipWithMappingTableAndRelationName(old(geoPackage.db), baseTableName, relatedTableName, mappingTable, relationName)
    {
      var valid := Spec.Validate(geoPackage.db, baseTableName, relatedTableName, relationName);
      if valid.Err? {
        return Err(valid.error);
      }
      var created := CreateUserMappingTable(mappingTable);
      if created.Err? {
        return Err(created.error);
      }
      var row := Spec.RequestedRow(geoPackage.db, baseTableName, relatedTableName, mappingTable, relationName);
      if row.Err? {
        return Err(row.error);
      }
      r := AddCatalogRow(row.value);
    }

    method AddRelationshipWithExtendedRelation(extendedRelation: ExtendedRelation) returns (r: Result<ExtendedRelation>)
      requires Linked()
      modifies geoPackage
      ensures Step(r, geoPackage.db) == Spec.AddRelationshipWithMappingTableAndRelationName(
                old(geoPackage.db), extendedRelation.baseTableName, extendedRelation.relatedTableName,
                extendedRelation.mappingTableName, extendedRelation.relationName)
    {
      r := AddRelationshipWithMappingTableAndRelationName(
        extendedRelation.baseTableName, extendedRelation.relatedTableName,
        extendedRelation.mappingTableName, extendedRelation.relationName);
    }

    method AddRelationshipWithRelationName(
      baseTableName: string, relatedTableName: string, mappingTableName: string, relationName: string)
      returns (r: Result<ExtendedRelation>)
      requires Linked()
      modifies geoPackage
      ensures Step(r, geoPackage.db)
              == Spec.AddRelationshipWithMappingTableAndRelationName(old(geoPackage.db), baseTableName, relatedTableName, mappingTableName, relationName)
    {
      r := AddRelationshipWithMappingTableAndRelationName(baseTableName, relatedTableName, mappingTableName, relationName);
    }

    method AddRelationshipWithRelationType(
      baseTableName: string, relatedTableName: string, mappingTableName: string, relationType: RelationType)
      returns (r: Result<ExtendedRelation>)
      requires Linked()
      modifies geoPackage
      ensures Step(r, geoPackage.db)
              == Spec.AddRelationshipWithMappingTableAndRelationName(old(geoPackage.db), baseTableName, relatedTableName, mappingTableName, Name(relationType))
    {
      r := AddRelationshipWithRelationName(baseTableName, relatedTableName, mappingTableName, Name(relationType));
    }

    method AddRelationshipWithRelationAuthorAndRelationName(
      baseTableName: string, relatedTableName: string, mappingTableName: string, relationAuthor: string, relationName: string)
      returns (r: Result<ExtendedRelation>)
      requires Linked()
      modifies geoPackage
      ensures Step(r, geoPackage.db)
              == Spec.AddRelationshipWithMappingTableAndRelationName(
                   old(geoPackage.db), baseTableName, relatedTableName, mappingTableName, BuildRelationName(relationAuthor, relationName))
    {
      r := AddRelationshipWithRelationName(baseTableName, relatedTableName, mappingTableName, BuildRelationName(relationAuthor, relationName));
    }

    method AddFeaturesRelationship(baseFeaturesTableName: string, relatedFeaturesTableName: string, mappingTableName: string)
      returns (r: Result<ExtendedRelation>)
      requires Linked()
      modifies geoPackage
      ensures Step(r, geoPackage.db)
              == Spec.AddRelationshipWithMappingTableAndRelationName(old(geoPackage.db), baseFeaturesTableName, relatedFeaturesTableName, mappingTableName, "features")
    {
      r := AddRelationshipWithRelationType(baseFeaturesTableName, relatedFeaturesTableName, mappingTableName, Features);
    }

    method AddAttributesRelationship(baseTableName: string, relatedAttributesTableName: string, mappingTableName: string)
      returns (r: Result<ExtendedRelation>)
      requires Linked()
      modifies geoPackage
      ensures Step(r, geoPackage.db)
              == Spec.AddRelationshipWithMappingTableAndRelationName(old(geoPackage.db), baseTableName, relatedAttributesTableName, mappingTableName, "attributes")
    {
      r := AddRelationshipWithRelationType(baseTableName, relatedAttributesTableName, mappingTableName, Attributes);
    }

    method AddTilesRelationship(baseTableName: string, relatedTilesTableName: string, mappingTableName: string)
      returns (r: Result<ExtendedRelation>)
      requires Linked()
      modifies geoPackage
      ensures Step(r, geoPackage.db)
              == Spec.AddRelationshipWithMappingTableAndRelationName(old(geoPackage.db), baseTableName, relatedTilesTableName, mappingTableName, "tiles")
    {
      r := AddRelationshipWithRelationType(baseTableName, relatedTilesTableName, mappingTableName, Tiles);
    }

    method AddRelationshipWithRelatedTableAndRelationNameAndMappingTable(
      baseTableName: string, relatedTable: UserTable, relationName: string, mappingTable: string)
      returns (r: Result<ExtendedRelation>)
      requires Linked()
      modifies geoPackage
      ensures Step(r, geoPackage.db) == Spec.AddWithRelatedTable(old(geoPackage.db), baseTableName, relatedTable, relationName, mappingTable)
    {
      var created := CreateRelatedTable(relatedTable);
      if created.Err? {
        return Err(created.error);
      }
      r := AddRelationshipWithMappingTableAndRelationName(baseTableName, relatedTable.tableName, mappingTable, relationName);
    }

    method AddRelationshipWithUserTable(baseTableName: string, relatedTable: UserTable, relationName: string, mappingTableName: string)
      returns (r: Result<ExtendedRelation>)
      requires Linked()
      modifies geoPackage
      ensures Step(r, geoPackage.db) == Spec.AddWithRelatedTable(old(geoPackage.db), baseTableName, relatedTable, relationName, mappingTableName)
    {
      r := AddRelationshipWithRelatedTableAndRelationNameAndMappingTable(baseTableName, relatedTable, relationName, mappingTableName);
    }

    method AddRelationshipWithRelatedTable(baseTableName: string, relatedTable: Spec.RelatedTableDef, mappingTableName: string)
      returns (r: Result<ExtendedRelation>)
      requires Linked()
      modifies geoPackage
      ensures Step(r, geoPackage.db)
              == Spec.AddWithRelatedTable(old(geoPackage.db), baseTableName, relatedTable.table, relatedTable.relationName, mappingTableName)
    {
      r := AddRelationshipWithUserTable(baseTableName, relatedTable.table, relatedTable.relationName, mappingTableName);
    }

    /** The relation name is the related table's data type. */
    method AddRelationshipWithUserTableAndMappingName(baseTableName: string, relatedTable: UserTable, mappingTableName: string)
      returns (r: Result<ExtendedRelation>)
      requires Linked() && relatedTable.dataType.Some?
      modifies geoPackage
      ensures Step(r, geoPackage.db)
              == Spec.AddWithRelatedTable(old(geoPackage.db), baseTableName, relatedTable, relatedTable.dataType.value, mappingTableName)
    {
      r := AddRelationshipWithUserTable(baseTableName, relatedTable, relatedTable.dataType.value, mappingTableName);
    }

    method AddMediaRelationship(baseTableName: string, mediaTableName: string, pkColumn: string, mappingTableName: string)
      returns (r: Result<ExtendedRelation>)
      requires Linked()
      modifies geoPackage
      ensures Step(r, geoPackage.db)
              == Spec.AddWithRelatedTable(old(geoPackage.db), baseTableName,
                                          UserTable(mediaTableName, Some(pkColumn), Some("attributes")), "media", mappingTableName)
    {
      r := AddRelationshipWithRelatedTable(baseTableName, TypedRelatedTable(Media, mediaTableName, pkColumn), mappingTableName);
    }

    method AddSimpleAttributesRelationship(baseTableName: string, simpleAttributesTableName: string, pkColumn: string, mappingTableName: string)
      returns (r: Result<ExtendedRelation>)
      requires Linked()
      modifies geoPackage
      ensures Step(r, geoPackage.db)
              == Spec.AddWithRelatedTable(old(geoPackage.db), baseTableName,
                                          UserTable(simpleAttributesTableName, Some(pkColumn), Some("attributes")), "simple_attributes", mappingTableName)
    {
      r := AddRelationshipWithRelatedTable(baseTableName, TypedRelatedTable(SimpleAttributes, simpleAttributesTableName, pkColumn), mappingTableName);
    }

    method AddAttributesRelationshipWithAttributesTable(baseTableName: string, attributesTableName: string, pkColumn: string, mappingTableName: string)
      returns (r: Result<ExtendedRelation>)
      requires Linked()
      modifies geoPackage
      ensures Step(r, geoPackage.db)
              == Spec.AddWithRelatedTable(old(geoPackage.db), baseTableName,
                                          UserTable(attributesTableName, Some(pkColumn), Some("attributes")), "attributes", mappingTableName)
    {
      r := AddRelationshipWithUserTableAndMappingName(baseTableName, TypedTable(Attributes, attributesTableName, pkColumn), mappingTableName);
    }

    method AddTilesRelationshipWithTileTable(baseTableName: string, tileTableName: string, pkColumn: string, mappingTableName: string)
      returns (r: Result<ExtendedRelation>)
      requires Linked()
      modifies geoPackage
      ensures Step(r, geoPackage.db)
              == Spec.AddWithRelatedTable(old(geoPackage.db), baseTableName,
                                          UserTable(tileTableName, Some(pkColumn), Some("tiles")), "tiles", mappingTableName)
    {
      r := AddRelationshipWithUserTableAndMappingName(baseTableName, TypedTable(Tiles, tileTableName, pkColumn), mappingTableName);
    }

    /** The catalog step of the generic add: reuse the first row for the mapping table, else insert with the next id. */
    method AddCatalogRowByMapping(row: ExtendedRelation) returns (r: Result<Option<ExtendedRelation>>)
      modifies geoPackage
      ensures Step(r, geoPackage.db) == Spec.AddRowByMapping(old(geoPackage.db), row)
    {
      match geoPackage.db.catalog
      case None =>
        return Err(TableNotFound(RelationsTable));
      case Some(cat) =>
        var existing := Filter(cat.rows, Matching(MappingQuery(row.mappingTableName)));
        if existing != [] {
          return Ok(Some(existing[0]));
        }
        match InsertRelation(cat, row)
        case Err(e) =>
          return Err(e);
        case Ok(cat2) =>
          geoPackage.db := geoPackage.db.(catalog := Some(cat2));
          return Ok(Some(row));
    }

    /** addRelationship: `Ok(None)` is the source's null answer to a failed validation. */
    method AddRelationship(req: Spec.AddRequest) returns (r: Result<Option<ExtendedRelation>>)
      requires Linked()
      modifies geoPackage
      ensures Step(r, geoPackage.db) == Spec.AddRelationship(old(geoPackage.db), req)
    {
      var relatedTableName: string, relationName: string;
      match req.related {
        case ExistingTable(name) =>
          relatedTableName, relationName := name, Spec.RequestedName(req);
        case NewTable(def) =>
          var created := CreateRelatedTable(def.table);
          if created.Err? {
            return Err(created.error);
          }
          relatedTableName, relationName := def.table.tableName, def.relationName;
      }
      var row := Spec.RequestedRow(geoPackage.db, req.baseTableName, relatedTableName, req.mappingTableName, relationName);
      if row.Err? {
        return Err(row.error);
      }
      if Spec.Validate(geoPackage.db, req.baseTableName, relatedTableName, relationName).Err? {
        return Ok(None);
      }
      var mapped := CreateUserMappingTable(req.mappingTableName);
      if mapped.Err? {
        return Err(mapped.error);
      }
      r := AddCatalogRowByMapping(row.value);
    }

    // -------------------------------------------------------------------
    // Removing relationships and the extension
    // -------------------------------------------------------------------

    method RemoveRelationshipWithExtendedRelation(extendedRelation: ExtendedRelation) returns (r: Result<()>)
      modifies geoPackage
      ensures Step(r, geoPackage.db) == Removal.RemoveWithExtendedRelation(old(geoPackage.db), extendedRelation)
    {
      if !CatalogExists(geoPackage.db) {
        return Ok(());
      }
      geoPackage.db := DeleteTable(geoPackage.db, extendedRelation.mappingTableName);
      match geoPackage.db.catalog
      case None =>
        return Err(TableNotFound(RelationsTable));
      case Some(c) =>
        geoPackage.db := geoPackage.db.(catalog := Some(c.(rows := WithoutIds(c.rows, {extendedRelation.id}))));
        return Ok(());
    }

    /** The loop shared by the removeRelationship family: remove each relation in turn. */
    method RemoveEach(extendedRelations: seq<ExtendedRelation>) returns (r: Result<()>)
      modifies geoPackage
      ensures Step(r, geoPackage.db) == Removal.RemoveAll(old(geoPackage.db), extendedRelations)
    {
      var i := 0;
      assert extendedRelations[i..] == extendedRelations;
      while i < |extendedRelations|
        invariant 0 <= i <= |extendedRelations|
        invariant Removal.RemoveAll(geoPackage.db, extendedRelations[i..]) == Removal.RemoveAll(old(geoPackage.db), extendedRelations)
      {
        assert extendedRelations[i..][1..] == extendedRelations[i + 1..];
        var removed := RemoveRelationshipWithExtendedRelation(extendedRelations[i]);
        if removed.Err? {
          return removed;
        }
        i := i + 1;
      }
      return Ok(());
    }

    method RemoveRelationship(baseTableName: string, relatedTableName: string, relationName: string) returns (r: Result<()>)
      modifies geoPackage
      ensures Step(r, geoPackage.db) == Removal.RemoveSelected(old(geoPackage.db), Removal.RelationshipSelector(baseTableName, relatedTableName, relationName))
    {
      if !CatalogExists(geoPackage.db) {
        return Ok(());
      }
      var q := Query(Some(baseTableName), None, Some(relatedTableName), None, Some(relationName), None);
      r := RemoveEach(RelationCatalog.GetRelations(geoPackage.db, q));
    }

    method RemoveRelationshipWithRelationType(baseTableName: string, relatedTableName: string, relationType: RelationType) returns (r: Result<()>)
      modifies geoPackage
      ensures Step(r, geoPackage.db) == Removal.RemoveSelected(old(geoPackage.db), Removal.RelationshipSelector(baseTableName, relatedTableName, Name(relationType)))
    {
      r := RemoveRelationship(baseTableName, relatedTableName, Name(relationType));
    }

    method RemoveRelationshipWithRelationAuthorAndRelationName(
      baseTableName: string, relatedTableName: string, relationAuthor: string, relationName: string)
      returns (r: Result<()>)
      modifies geoPackage
      ensures Step(r, geoPackage.db)
              == Removal.RemoveSelected(old(geoPackage.db),
                                        Removal.RelationshipSelector(baseTableName, relatedTableName, BuildRelationName(relationAuthor, relationName)))
    {
      r := RemoveRelationship(baseTableName, relatedTableName, BuildRelationName(relationAuthor, relationName));
    }

    method RemoveRelationships(table: string) returns (r: Result<()>)
      modifies geoPackage
      ensures Step(r, geoPackage.db) == Removal.RemoveSelected(old(geoPackage.db), Involving(table))
    {
      if !CatalogExists(geoPackage.db) {
        return Ok(());
      }
      r := RemoveEach(RelationCatalog.GetTableRelations(geoPackage.db, table).value);
    }

    method RemoveRelationshipsWithMappingTable(mappingTable: string) returns (r: Result<()>)
      modifies geoPackage
      ensures Step(r, geoPackage.db) == Removal.RemoveSelected(old(geoPackage.db), Matching(MappingQuery(mappingTable)))
    {
      if !CatalogExists(geoPackage.db) {
        return Ok(());
      }
      r := RemoveEach(RelationCatalog.GetRelations(geoPackage.db, MappingQuery(mappingTable)));
    }

    method RemoveExtension()
      modifies geoPackage
      ensures geoPackage.db == Removal.RemoveExtension(old(geoPackage.db))
    {
      if CatalogExists(geoPackage.db) {
        var extendedRelations := AllRows(geoPackage.db);
        assert extendedRelations[0..] == extendedRelations;
        for i := 0 to |extendedRelations|
          invariant Removal.DeleteMappingTables(geoPackage.db, extendedRelations[i..])
                    == Removal.DeleteMappingTables(old(geoPackage.db), extendedRelations)
        {
          assert extendedRelations[i..][1..] == extendedRelations[i + 1..];
          geoPackage.db := DeleteTable(geoPackage.db, extendedRelations[i].mappingTableName);
        }
        geoPackage.db := DropTable(geoPackage.db, RelationsTable);
      }
      var s := geoPackage.db;
      geoPackage.db := s.(extensions := map k | k in s.extensions && k.extensionName != Spec.ExtensionName :: s.extensions[k]);
    }

    // -------------------------------------------------------------------
    // Relation queries
    // -------------------------------------------------------------------

    /** getRelationships: every catalog row, which is the query with no criteria. */
    method GetRelationships() returns (r: seq<ExtendedRelation>)
      ensures r == RelationCatalog.GetRelations(geoPackage.db, AnyRelation)
    {
      if CatalogExists(geoPackage.db) {
        FilterAnyIsAll(AllRows(geoPackage.db));
        r := AllRows(geoPackage.db);
      } else {
        r := [];
      }
    }

    /** getRelations and its wrappers, which leave some criteria null. */
    method GetRelations(q: Query) returns (r: seq<ExtendedRelation>)
      ensures forall x :: x in r <==> CatalogExists(geoPackage.db) && x in AllRows(geoPackage.db) && Selects(Matching(q), x)
      ensures r == RelationCatalog.GetRelations(geoPackage.db, q)
    {
      r := RelationCatalog.GetRelations(geoPackage.db, q);
    }

    /** hasRelations and its wrappers. */
    method HasRelations(q: Query) returns (r: bool)
      ensures r <==> CatalogExists(geoPackage.db) && exists x :: x in AllRows(geoPackage.db) && Selects(Matching(q), x)
    {
      var relations := GetRelations(q);
      r := |relations| != 0;
      if r {
        assert relations[0] in relations;
      }
    }

    method GetBaseTableRelations(baseTable: string) returns (r: Option<seq<ExtendedRelation>>)
      ensures r.None? <==> !CatalogExists(geoPackage.db)
      ensures r.Some? ==> forall x :: x in r.value <==> x in AllRows(geoPackage.db) && x.baseTableName == baseTable
      ensures r == RelationCatalog.GetBaseTableRelations(geoPackage.db, baseTable)
    {
      r := RelationCatalog.GetBaseTableRelations(geoPackage.db, baseTable);
    }

    method HasBaseTableRelations(baseTable: string) returns (r: bool)
      ensures r <==> CatalogExists(geoPackage.db) && exists x :: x in AllRows(geoPackage.db) && x.baseTableName == baseTable
    {
      HasRelationsIffSomeRow(geoPackage.db, Matching(BaseQuery(baseTable)));
      r := HasSelected(geoPackage.db, Matching(BaseQuery(baseTable)));
    }

    method GetRelatedTableRelations(relatedTable: string) returns (r: Option<seq<ExtendedRelation>>)
      ensures r.None? <==> !CatalogExists(geoPackage.db)
      ensures r.Some? ==> forall x :: x in r.value <==> x in AllRows(geoPackage.db) && x.relatedTableName == relatedTable
      ensures r == RelationCatalog.GetRelatedTableRelations(geoPackage.db, relatedTable)
    {
      r := RelationCatalog.GetRelatedTableRelations(geoPackage.db, relatedTable);
    }

    method HasRelatedTableRelations(relatedTable: string) returns (r: bool)
      ensures r <==> CatalogExists(geoPackage.db) && exists x :: x in AllRows(geoPackage.db) && x.relatedTableName == relatedTable
    {
      HasRelationsIffSomeRow(geoPackage.db, Matching(RelatedQuery(relatedTable)));
      r := HasSelected(geoPackage.db, Matching(RelatedQuery(relatedTable)));
    }

    method GetTableRelations(table: string) returns (r: Option<seq<ExtendedRelation>>)
      ensures r.None? <==> !CatalogExists(geoPackage.db)
      ensures r.Some? ==> forall x :: x in r.value <==> x in AllRows(geoPackage.db) && (x.baseTableName == table || x.relatedTableName == table)
      ensures r == RelationCatalog.GetTableRelations(geoPackage.db, table)
    {
      r := RelationCatalog.GetTableRelations(geoPackage.db, table);
    }

    method HasTableRelations(table: string) returns (r: bool)
      ensures r <==> CatalogExists(geoPackage.db)
                     && exists x :: x in AllRows(geoPackage.db) && (x.baseTableName == table || x.relatedTableName == table)
    {
      HasRelationsIffSomeRow(geoPackage.db, Involving(table));
      r := HasSelected(geoPackage.db, Involving(table));
    }

    /** The inner loop of getRelatedRows: each mapping row with the related row its related id names. */
    method FetchRelatedRows<R>(matching: seq<MappingRow>, relationType: RelationType, relatedTableName: string,
                               fetch: (RelationType, string, int) -> R)
      returns (relationMap: seq<(MappingRow, R)>)
      ensures relationMap == Fetched(matching, relationType, relatedTableName, fetch)
    {
      relationMap := [];
      var j := 0;
      while j < |matching|
        invariant 0 <= j <= |matching|
        invariant |relationMap| == j
        invariant forall k :: 0 <= k < j ==> relationMap[k] == (matching[k], fetch(relationType, relatedTableName, matching[k].relatedId))
      {
        relationMap := relationMap + [(matching[j], fetch(relationType, relatedTableName, matching[j].relatedId))];
        j := j + 1;
      }
    }

    /** getRelatedRows: the loop over the base table's relations that the type filter keeps. */
    method GetRelatedRows<R>(baseTableName: string, baseId: int, typeFilter: Option<seq<RelationType>>,
                             fetch: (RelationType, string, int) -> R)
      returns (r: Result<seq<RelationEntry<R>>>)
      ensures r == RelatedRows.GetRelatedRows(geoPackage.db, baseTableName, baseId, typeFilter, fetch)
    {
      var s := geoPackage.db;
      var relationships := RelationCatalog.GetBaseTableRelations(s, baseTableName);
      if relationships.None? {
        return Err(TableNotFound(RelationsTable));
      }
      var rels := relationships.value;
      var entries: seq<RelationEntry<R>> := [];
      PrefixedNothing(RelatedRowsOver(s, rels, baseId, typeFilter, fetch));
      ghost var target := RelatedRowsOver(s, rels, baseId, typeFilter, fetch);
      var i := 0;
      assert rels[i..] == rels;
      while i < |rels|
        invariant 0 <= i <= |rels|
        invariant Prefixed(entries, RelatedRowsOver(s, rels[i..], baseId, typeFilter, fetch)) == target
      {
        var relation := rels[i];
        if Wanted(relation, typeFilter) {
          var relationType := FromName(relation.relationName);
          if relationType.None? {
            RelatedRowsLoopStep(s, rels, i, baseId, typeFilter, fetch, entries, target);
            return Err(UnresolvableRelationType(relation.relationName));
          }
          var mappingRows := MappingRows(s, relation.mappingTableName);
          if mappingRows.Err? {
            RelatedRowsLoopStep(s, rels, i, baseId, typeFilter, fetch, entries, target);
            return Err(mappingRows.error);
          }
          var matching := RowsWith(mappingRows.value, BaseSide, baseId);
          var relationMap := FetchRelatedRows(matching, relationType.value, relation.relatedTableName, fetch);
          RelatedRowsLoopKeep(s, rels, i, baseId, typeFilter, fetch, entries, target, relationType.value, mappingRows.value, relationMap);
          entries := entries + [RelationEntry(relation, relationMap)];
        } else {
          RelatedRowsLoopStep(s, rels, i, baseId, typeFilter, fetch, entries, target);
        }
        i := i + 1;
      }
      assert rels[i..] == [];
      assert entries + [] == entries;
      return Ok(entries);
    }

    // -------------------------------------------------------------------
    // Mappings
    // -------------------------------------------------------------------

    /** getMappingsForBase (BaseSide) and getMappingsForRelated (RelatedSide): the opposite id of each row the query returns. */
    method GetMappingsFor(side: Side, tableName: string, id: int) returns (r: Result<seq<int>>)
      ensures r.Ok? <==> tableName in geoPackage.db.tables
      ensures r == QueryMappedIds(geoPackage.db, tableName, side, id)
    {
      var rows := MappingRows(geoPackage.db, tableName);
      if rows.Err? {
        return Err(rows.error);
      }
      var resultSet := RowsWith(rows.value, side, id);
      var ids: seq<int> := [];
      var i := 0;
      while i < |resultSet|
        invariant 0 <= i <= |resultSet|
        invariant ids == MappedIds(resultSet[..i], side, id)
      {
        assert resultSet[..i + 1] == resultSet[..i] + [resultSet[i]];
        MappedIdsAppend(resultSet[..i], [resultSet[i]], side, id);
        assert [resultSet[i]][1..] == [];
        assert resultSet[i] in resultSet;
        ids := ids + [IdOn(resultSet[i], Opposite(side))];
        i := i + 1;
      }
      assert resultSet[..i] == resultSet;
      MappedIdsOfQuery(rows.value, side, id);
      return Ok(ids);
    }

    /** getMappingsForBaseWithExtendedRelation / getMappingsForRelatedWithExtendedRelation. */
    method GetMappingsForWithExtendedRelation(side: Side, extendedRelation: ExtendedRelation, id: int) returns (r: Result<seq<int>>)
      ensures r == QueryMappedIds(geoPackage.db, extendedRelation.mappingTableName, side, id)
    {
      r := GetMappingsFor(side, extendedRelation.mappingTableName, id);
    }

    method HasMapping(tableName: string, baseId: int, relatedId: int) returns (r: Result<bool>)
      ensures r.Ok? <==> tableName in geoPackage.db.tables
      ensures r.Ok? ==> (r.value <==> MappingRow(baseId, relatedId) in TableRows(geoPackage.db, tableName))
    {
      r := Mappings.HasMapping(geoPackage.db, tableName, baseId, relatedId);
    }

    /** countMappingsToBaseWithExtendedRelation / countMappingsToRelatedWithExtendedRelation. */
    method CountMappingsToWithExtendedRelation(side: Side, extendedRelation: ExtendedRelation, id: int) returns (r: Result<nat>)
      ensures r.Ok? <==> extendedRelation.mappingTableName in geoPackage.db.tables
      ensures r == CountBy(geoPackage.db, extendedRelation.mappingTableName, side, id)
    {
      r := CountBy(geoPackage.db, extendedRelation.mappingTableName, side, id);
    }

    /** hasMappingToBaseWithExtendedRelation / hasMappingToRelatedWithExtendedRelation. */
    method HasMappingToWithExtendedRelation(side: Side, extendedRelation: ExtendedRelation, id: int) returns (r: Result<bool>)
      ensures r.Ok? <==> extendedRelation.mappingTableName in geoPackage.db.tables
      ensures r.Ok? ==> (r.value <==> exists x :: x in TableRows(geoPackage.db, extendedRelation.mappingTableName) && IdOn(x, side) == id)
    {
      var count := CountMappingsToWithExtendedRelation(side, extendedRelation, id);
      if count.Err? {
        return Err(count.error);
      }
      var matching := RowsWith(TableRows(geoPackage.db, extendedRelation.mappingTableName), side, id);
      if count.value > 0 {
        assert matching[0] in matching;
      }
      return Ok(count.value > 0);
    }

    /** countMappingsToBaseWithExtendedRelations / countMappingsToRelatedWithExtendedRelations: `count +=` over the relations. */
    method CountMappingsToWithExtendedRelations(side: Side, extendedRelations: Option<seq<ExtendedRelation>>, id: int)
      returns (r: Result<nat>)
      ensures r == CountOverOpt(geoPackage.db, extendedRelations, side, id)
    {
      if extendedRelations.None? {
        return Ok(0);
      }
      var rels := extendedRelations.value;
      var count: nat := 0;
      var i := 0;
      ghost var target := CountOver(geoPackage.db, rels, side, id);
      assert rels[i..] == rels;
      while i < |rels|
        invariant 0 <= i <= |rels|
        invariant Plus(count, CountOver(geoPackage.db, rels[i..], side, id)) == target
      {
        var n := CountMappingsToWithExtendedRelation(side, rels[i], id);
        CountLoopStep(geoPackage.db, rels, i, count, side, id, target, n);
        if n.Err? {
          return Err(n.error);
        }
        count := count + n.value;
        i := i + 1;
      }
      return Ok(count);
    }

    /** hasMappingToBaseWithExtendedRelations / hasMappingToRelatedWithExtendedRelations: count > 0. */
    method HasMappingToWithExtendedRelations(side: Side, extendedRelations: Option<seq<ExtendedRelation>>, id: int)
      returns (r: Result<bool>)
      ensures r.Ok? <==> CountOverOpt(geoPackage.db, extendedRelations, side, id).Ok?
      ensures r.Err? ==> r.error == CountOverOpt(geoPackage.db, extendedRelations, side, id).error
      ensures r.Ok? ==> (r.value <==> CountOverOpt(geoPackage.db, extendedRelations, side, id).value > 0)
      ensures r.Ok? ==> (r.value <==> (extendedRelations.Some? &&
                                       exists k, x :: 0 <= k < |extendedRelations.value|
                                         && x in TableRows(geoPackage.db, extendedRelations.value[k].mappingTableName) && IdOn(x, side) == id))
    {
      var count := CountMappingsToWithExtendedRelations(side, extendedRelations, id);
      if count.Err? {
        return Err(count.error);
      }
      if extendedRelations.Some? {
        CountOverPositive(geoPackage.db, extendedRelations.value, side, id);
      }
      return Ok(count.value > 0);
    }

    /** countMappingsToBase / countMappingsToRelated: over the relations in which the table plays that side. */
    method CountMappingsTo(side: Side, table: string, id: int) returns (r: Result<nat>)
      ensures r == Mappings.CountMappingsTo(geoPackage.db, table, side, id)
    {
      var rels := match side case BaseSide => RelationCatalog.GetBaseTableRelations(geoPackage.db, table)
                             case RelatedSide => RelationCatalog.GetRelatedTableRelations(geoPackage.db, table);
      r := CountMappingsToWithExtendedRelations(side, rels, id);
    }

    /** hasMappingToBase / hasMappingToRelated. */
    method HasMappingTo(side: Side, table: string, id: int) returns (r: Result<bool>)
      ensures r.Ok? <==> Mappings.CountMappingsTo(geoPackage.db, table, side, id).Ok?
      ensures r.Ok? ==> (r.value <==> Mappings.CountMappingsTo(geoPackage.db, table, side, id).value > 0)
    {
      var count := CountMappingsTo(side, table, id);
      if count.Err? {
        return Err(count.error);
      }
      return Ok(count.value > 0);
    }

    method CountMappings(table: string, id: int) returns (r: Result<nat>)
      ensures r == Mappings.CountMappings(geoPackage.db, table, id)
    {
      var toBase := CountMappingsToWithExtendedRelations(BaseSide, RelationCatalog.GetBaseTableRelations(geoPackage.db, table), id);
      if toBase.Err? {
        return Err(toBase.error);
      }
      var toRelated := CountMappingsToWithExtendedRelations(RelatedSide, RelationCatalog.GetRelatedTableRelations(geoPackage.db, table), id);
      if toRelated.Err? {
        return Err(toRelated.error);
      }
      return Ok(toBase.value + toRelated.value);
    }

    method HasMappingForBaseOrRelatedId(table: string, id: int) returns (r: Result<bool>)
      ensures r == Mappings.HasMappingForBaseOrRelatedId(geoPackage.db, table, id)
    {
      assert SideRelations(geoPackage.db, table, BaseSide) == RelationCatalog.GetBaseTableRelations(geoPackage.db, table);
      assert SideRelations(geoPackage.db, table, RelatedSide) == RelationCatalog.GetRelatedTableRelations(geoPackage.db, table);
      var toBase := HasMappingToWithExtendedRelations(BaseSide, RelationCatalog.GetBaseTableRelations(geoPackage.db, table), id);
      if toBase.Err? || toBase.value {
        return toBase;
      }
      r := HasMappingToWithExtendedRelations(RelatedSide, RelationCatalog.GetRelatedTableRelations(geoPackage.db, table), id);
    }

    /** deleteMappingsToBaseWithExtendedRelation / deleteMappingsToRelatedWithExtendedRelation. */
    method DeleteMappingsToWithExtendedRelation(side: Side, extendedRelation: ExtendedRelation, id: int) returns (r: Result<nat>)
      modifies geoPackage
      ensures Step(r, geoPackage.db) == DeleteBy(old(geoPackage.db), extendedRelation.mappingTableName, side, id)
    {
      var table := extendedRelation.mappingTableName;
      var rows := MappingRows(geoPackage.db, table);
      if rows.Err? {
        return Err(rows.error);
      }
      r := Ok(|RowsWith(rows.value, side, id)|);
      geoPackage.db := SetMappingRows(geoPackage.db, table, RowsWithout(rows.value, side, id));
    }

    /** deleteMappingsToBaseWithExtendedRelations / deleteMappingsToRelatedWithExtendedRelations: `count +=` over the relations. */
    method DeleteMappingsToWithExtendedRelations(side: Side, extendedRelations: Option<seq<ExtendedRelation>>, id: int)
      returns (r: Result<nat>)
      modifies geoPackage
      ensures Step(r, geoPackage.db) == DeleteOverOpt(old(geoPackage.db), extendedRelations, side, id)
    {
      if extendedRelations.None? {
        return Ok(0);
      }
      var rels := extendedRelations.value;
      ghost var target := DeleteOver(geoPackage.db, rels, side, id);
      assert target == DeleteOverOpt(old(geoPackage.db), extendedRelations, side, id);
      var count: nat := 0;
      var i := 0;
      assert rels[i..] == rels;
      while i < |rels|
        invariant 0 <= i <= |rels|
        invariant var rest := DeleteOver(geoPackage.db, rels[i..], side, id);
                  Step(Plus(count, rest.result), rest.db) == target
      {
        ghost var before := geoPackage.db;
        var n := DeleteMappingsToWithExtendedRelation(side, rels[i], id);
        DeleteLoopStep(before, rels, i, count, side, id, target, n, geoPackage.db);
        if n.Err? {
          return Err(n.error);
        }
        count := count + n.value;
        i := i + 1;
      }
      DeleteLoopDone(geoPackage.db, rels, count, side, id, target);
      return Ok(count);
    }

    /** deleteMappingsToBase / deleteMappingsToRelated. */
    method DeleteMappingsTo(side: Side, table: string, id: int) returns (r: Result<nat>)
      modifies geoPackage
      ensures Step(r, geoPackage.db) == Mappings.DeleteMappingsTo(old(geoPackage.db), table, side, id)
    {
      var rels := match side case BaseSide => RelationCatalog.GetBaseTableRelations(geoPackage.db, table)
                             case RelatedSide => RelationCatalog.GetRelatedTableRelations(geoPackage.db, table);
      r := DeleteMappingsToWithExtendedRelations(side, rels, id);
    }

    method DeleteMappings(table: string, id: int) returns (r: Result<nat>)
      modifies geoPackage
      ensures Step(r, geoPackage.db) == Mappings.DeleteMappings(old(geoPackage.db), table, id)
    {
      var count := DeleteMappingsTo(BaseSide, table, id);
      if count.Err? {
        return count;
      }
      var more := DeleteMappingsTo(RelatedSide, table, id);
      if more.Err? {
        return more;
      }
      return Ok(count.value + more.value);
    }
  }
}
