/**
 * Removing relationships (a catalog row together with its mapping table)
 * and removing every trace of the Related Tables extension.
 */
module RemovalSpec {
  import opened GeoStore
  import opened RelationCatalog
  import opened Mappings
  import opened RelatedSpec

  /** The mapping tables the relations name. */
  function MappingNames(rels: seq<ExtendedRelation>): set<string>
  {
    set x | x in rels :: x.mappingTableName
  }

  /**
   * removeRelationshipWithExtendedRelation: when the catalog table exists,
   * delete the mapping table (table and gpkg_contents row), then the catalog
   * row with the relation's id. Deleting the catalog table itself makes the
   * row deletion fail; what was already deleted stays deleted.
   */
  function RemoveWithExtendedRelation(s: Store, rel: ExtendedRelation): (r: Step<()>)
    ensures !CatalogExists(s) ==> r == Step(Ok(()), s)
    ensures CatalogExists(s) ==> r.db.tables == s.tables - {rel.mappingTableName}
                                 && r.db.contents == s.contents - {rel.mappingTableName}
                                 && (r.result.Err? <==> rel.mappingTableName == RelationsTable)
    ensures r.db.extensions == s.extensions && r.db.writable == s.writable && SameOnTables(s, r.db)
  {
    if !CatalogExists(s) then Step(Ok(()), s)
    else
      var d := DeleteTable(s, rel.mappingTableName);
      match d.catalog
      case None => Step(Err(TableNotFound(RelationsTable)), d)
      case Some(c) => Step(Ok(()), d.(catalog := Some(c.(rows := WithoutIds(c.rows, {rel.id})))))
  }

  /** The loop over the relations to remove; the first failure ends it. */
  function RemoveAll(s: Store, rels: seq<ExtendedRelation>): Step<()>
    decreases |rels|
  {
    if rels == [] then Step(Ok(()), s)
    else
      var d := RemoveWithExtendedRelation(s, rels[0]);
      if d.result.Err? then d else RemoveAll(d.db, rels[1..])
  }

  /** removeRelationship and its siblings: when the catalog table exists, remove every selected relationship. */
  function RemoveSelected(s: Store, sel: Selector): (r: Step<()>)
    ensures !CatalogExists(s) ==> r == Step(Ok(()), s)
  {
    if !CatalogExists(s) then Step(Ok(()), s) else RemoveAll(s, Filter(AllRows(s), sel))
  }

  /** The criteria of removeRelationship: base table, related table and relation name. */
  function RelationshipSelector(baseTable: string, relatedTable: string, relationName: string): Selector
  {
    Matching(Query(Some(baseTable), None, Some(relatedTable), None, Some(relationName), None))
  }

  // ---------------------------------------------------------------------
  // Catalog facts
  // ---------------------------------------------------------------------

  /** A row whose key no other row has can be put in front of rows with distinct keys. */
  lemma ConsKeepsDistinctKeys<K>(x: ExtendedRelation, w: seq<ExtendedRelation>, key: ExtendedRelation -> K)
    requires DistinctKeys(w, key) && forall y :: y in w ==> key(y) != key(x)
    ensures DistinctKeys([x] + w, key)
  {
    var r := [x] + w;
    forall i, j | 0 <= i < j < |r| ensures key(r[i]) != key(r[j]) {
      assert r[j] == w[j - 1];
      if i == 0 {
        assert w[j - 1] in w;
      } else {
        assert r[i] == w[i - 1];
      }
    }
  }

  /** Deleting rows by id keeps any column that was distinct distinct. */
  lemma {:induction false} WithoutIdsKeepsDistinctKeys<K>(rows: seq<ExtendedRelation>, ids: set<int>, key: ExtendedRelation -> K)
    requires DistinctKeys(rows, key)
    ensures DistinctKeys(WithoutIds(rows, ids), key)
    decreases |rows|
  {
    if rows != [] {
      var rest := rows[1..];
      assert DistinctKeys(rest, key) by {
        forall i, j | 0 <= i < j < |rest| ensures key(rest[i]) != key(rest[j]) {
          assert rest[i] == rows[i + 1] && rest[j] == rows[j + 1];
        }
      }
      WithoutIdsKeepsDistinctKeys(rest, ids, key);
      var w := WithoutIds(rest, ids);
      if rows[0].id !in ids {
        forall y | y in w ensures key(y) != key(rows[0]) {
          var k :| 0 <= k < |rest| && rest[k] == y;
          assert rows[k + 1] == y;
        }
        ConsKeepsDistinctKeys(rows[0], w, key);
      }
    }
  }

  /** Deleting no ids deletes nothing. */
  lemma {:induction false} WithoutNoIds(rows: seq<ExtendedRelation>)
    ensures WithoutIds(rows, {}) == rows
    decreases |rows|
  {
    if rows != [] {
      WithoutNoIds(rows[1..]);
      assert rows == [rows[0]] + rows[1..];
    }
  }

  /** Two rows of a valid catalog with the same mapping table are the same row. */
  lemma SameMappingSameRow(c: Catalog, x: ExtendedRelation, y: ExtendedRelation)
    requires UniqueMappingNames(c.rows) && x in c.rows && y in c.rows && x.mappingTableName == y.mappingTableName
    ensures x == y
  {
    var i :| 0 <= i < |c.rows| && c.rows[i] == x;
    var j :| 0 <= j < |c.rows| && c.rows[j] == y;
  }

  // ---------------------------------------------------------------------
  // Removing relationships
  // ---------------------------------------------------------------------

  /**
   * Removing a cataloged relationship whose mapping table is not the catalog
   * itself, on a valid store: exactly that row and that mapping table go,
   * the counter stays, and the rest of the store is as it was.
   */
  lemma RemoveOneOutcome(s: Store, x: ExtendedRelation)
    requires Valid(s) && CatalogExists(s) && x in s.catalog.value.rows && x.mappingTableName != RelationsTable
    ensures var r := RemoveWithExtendedRelation(s, x);
            && r.result.Ok?
            && r.db.catalog == Some(Catalog(WithoutIds(s.catalog.value.rows, {x.id}), s.catalog.value.lastId))
            && r.db.tables == s.tables - {x.mappingTableName}
            && r.db.contents == s.contents - {x.mappingTableName}
            && r.db.extensions == s.extensions && r.db.writable == s.writable
            && SameOnTables(s, r.db)
            && Valid(r.db)
  {
    var c := s.catalog.value;
    var r := RemoveWithExtendedRelation(s, x);
    var rest := WithoutIds(c.rows, {x.id});
    assert r.db.catalog == Some(Catalog(rest, c.lastId));
    var byName := (y: ExtendedRelation) => y.mappingTableName;
    var byId := (y: ExtendedRelation) => y.id;
    assert DistinctKeys(c.rows, byName);
    assert DistinctKeys(c.rows, byId);
    WithoutIdsKeepsDistinctKeys(c.rows, {x.id}, byName);
    WithoutIdsKeepsDistinctKeys(c.rows, {x.id}, byId);
    assert forall i, j :: 0 <= i < j < |rest| ==> byName(rest[i]) != byName(rest[j]);
    assert forall i, j :: 0 <= i < j < |rest| ==> byId(rest[i]) != byId(rest[j]);
    forall i | 0 <= i < |rest| ensures 0 < rest[i].id <= c.lastId && rest[i].mappingTableName in r.db.tables {
      var y := rest[i];
      assert y in rest;
      var k :| 0 <= k < |c.rows| && c.rows[k] == y;
      if y.mappingTableName == x.mappingTableName {
        SameMappingSameRow(c, x, y);
      }
    }
  }

  /**
   * A loop of removals that succeeds, started while the catalog table
   * exists, removes exactly the relations' mapping tables and their
   * contents rows and leaves every other table as it was.
   */
  lemma {:induction false} RemoveAllFrame(s: Store, rels: seq<ExtendedRelation>)
    requires CatalogExists(s) && RemoveAll(s, rels).result.Ok?
    ensures var r := RemoveAll(s, rels);
            && r.db.tables == s.tables - MappingNames(rels)
            && r.db.contents == s.contents - MappingNames(rels)
            && r.db.extensions == s.extensions && r.db.writable == s.writable
            && SameOnTables(s, r.db)
    decreases |rels|
  {
    if rels == [] {
      assert MappingNames(rels) == {};
    } else {
      var d := RemoveWithExtendedRelation(s, rels[0]);
      assert RemoveAll(s, rels) == RemoveAll(d.db, rels[1..]);
      RemoveAllFrame(d.db, rels[1..]);
      MappingNamesCons(rels);
      SameOnTablesShrinking(s, d.db, RemoveAll(d.db, rels[1..]).db);
    }
  }

  /**
   * The loop over cataloged relationships with distinct ids and mapping
   * tables other than the catalog itself: all succeed, exactly their rows
   * leave the catalog, and the store stays valid.
   */
  lemma {:induction false} RemoveAllOutcome(s: Store, rels: seq<ExtendedRelation>)
    requires Valid(s) && CatalogExists(s) && DistinctIds(rels)
    requires forall x :: x in rels ==> x in s.catalog.value.rows && x.mappingTableName != RelationsTable
    ensures var r := RemoveAll(s, rels);
            && r.result.Ok?
            && r.db.catalog == Some(Catalog(WithoutIds(s.catalog.value.rows, Ids(rels)), s.catalog.value.lastId))
            && Valid(r.db)
    decreases |rels|
  {
    var c := s.catalog.value;
    if rels == [] {
      WithoutNoIds(c.rows);
      assert Ids(rels) == {};
    } else {
      var x, tail := rels[0], rels[1..];
      assert x in rels;
      RemoveOneOutcome(s, x);
      var d := RemoveWithExtendedRelation(s, x);
      RemoveAllRest(s, rels);
      RemoveAllOutcome(d.db, tail);
      assert RemoveAll(s, rels) == RemoveAll(d.db, tail);
      assert d.db.catalog.value == Catalog(WithoutIds(c.rows, {x.id}), c.lastId);
      WithoutIdsCompose(c.rows, {x.id}, Ids(tail));
      IdsCons(rels);
    }
  }

  /** The mapping tables of a non-empty list: the first row's and the rest's. */
  lemma MappingNamesCons(rels: seq<ExtendedRelation>)
    requires rels != []
    ensures MappingNames(rels) == {rels[0].mappingTableName} + MappingNames(rels[1..])
  {
    assert rels == [rels[0]] + rels[1..];
  }

  /** The ids of a non-empty list: the first row's id and the rest's. */
  lemma IdsCons(rels: seq<ExtendedRelation>)
    requires rels != []
    ensures Ids(rels) == {rels[0].id} + Ids(rels[1..])
  {
    assert rels == [rels[0]] + rels[1..];
  }

  /** After the first removal the remaining relations are still cataloged, with distinct ids. */
  lemma RemoveAllRest(s: Store, rels: seq<ExtendedRelation>)
    requires Valid(s) && CatalogExists(s) && DistinctIds(rels) && rels != []
    requires forall x :: x in rels ==> x in s.catalog.value.rows && x.mappingTableName != RelationsTable
    ensures var d := RemoveWithExtendedRelation(s, rels[0]);
            && Valid(d.db) && CatalogExists(d.db) && DistinctIds(rels[1..])
            && forall z :: z in rels[1..] ==> z in d.db.catalog.value.rows && z.mappingTableName != RelationsTable
  {
    var x, tail := rels[0], rels[1..];
    assert x in rels;
    RemoveOneOutcome(s, x);
    var d := RemoveWithExtendedRelation(s, x);
    assert DistinctIds(tail) by {
      forall i, j | 0 <= i < j < |tail| ensures tail[i].id != tail[j].id {
        assert tail[i] == rels[i + 1] && tail[j] == rels[j + 1];
      }
    }
    forall z | z in tail
      ensures z in d.db.catalog.value.rows && z.mappingTableName != RelationsTable
    {
      var k :| 0 <= k < |tail| && tail[k] == z;
      assert rels[k + 1] == z;
      assert z.id != x.id;
    }
  }

  lemma SameOnTablesShrinking(a: Store, b: Store, c: Store)
    requires SameOnTables(a, b) && SameOnTables(b, c) && c.tables <= b.tables
    ensures SameOnTables(a, c)
  {
  }

  /**
   * Removing the selected relationships from a valid store whose catalog
   * exists, when none of them uses the catalog as its mapping table: the
   * catalog keeps exactly the unselected rows, in order, with the same
   * counter; the selected mapping tables and their contents rows are gone;
   * nothing else changes.
   */
  lemma RemoveSelectedOutcome(s: Store, sel: Selector)
    requires Valid(s) && CatalogExists(s)
    requires forall x :: x in AllRows(s) && Selects(sel, x) ==> x.mappingTableName != RelationsTable
    ensures var removed := Filter(AllRows(s), sel);
            var r := RemoveSelected(s, sel);
            && r.result.Ok?
            && r.db.catalog == Some(Catalog(Filter(AllRows(s), Complement(sel)), s.catalog.value.lastId))
            && r.db.tables == s.tables - MappingNames(removed)
            && r.db.contents == s.contents - MappingNames(removed)
            && r.db.extensions == s.extensions && r.db.writable == s.writable
            && SameOnTables(s, r.db)
            && Valid(r.db)
  {
    var c := s.catalog.value;
    FilterKeepsConstraints(c.rows, c.lastId, sel);
    RemoveAllOutcome(s, Filter(c.rows, sel));
    RemoveAllFrame(s, Filter(c.rows, sel));
    DeletingSelectionKeepsTheRest(c.rows, sel);
  }

  /** Afterwards no catalog row is selected any more. */
  lemma RemoveSelectedLeavesNoneSelected(s: Store, sel: Selector)
    requires Valid(s) && CatalogExists(s)
    requires forall x :: x in AllRows(s) && Selects(sel, x) ==> x.mappingTableName != RelationsTable
    ensures !HasSelected(RemoveSelected(s, sel).db, sel)
  {
    RemoveSelectedOutcome(s, sel);
    HasRelationsIffSomeRow(RemoveSelected(s, sel).db, sel);
  }

  /** When nothing is selected the removal changes nothing. */
  lemma RemoveNothingSelected(s: Store, sel: Selector)
    requires Filter(AllRows(s), sel) == []
    ensures RemoveSelected(s, sel) == Step(Ok(()), s)
  {
  }

  /** Removing a relationship whose mapping table is the catalog table itself fails, having dropped the catalog. */
  lemma RemoveCatalogAsMappingFails(s: Store, rel: ExtendedRelation)
    requires CatalogExists(s) && rel.mappingTableName == RelationsTable
    ensures var r := RemoveWithExtendedRelation(s, rel);
            r.result == Err(TableNotFound(RelationsTable)) && !CatalogExists(r.db) && r.db.catalog.None?
  {
  }

  // ---------------------------------------------------------------------
  // Removing the extension
  // ---------------------------------------------------------------------

  /** The loop of removeExtension: deleteTable on each relation's mapping table. */
  function DeleteMappingTables(s: Store, rels: seq<ExtendedRelation>): Store
    decreases |rels|
  {
    if rels == [] then s else DeleteMappingTables(DeleteTable(s, rels[0].mappingTableName), rels[1..])
  }

  /** Deleting the mapping tables removes exactly those tables and contents rows. */
  lemma {:induction false} DeleteMappingTablesOutcome(s: Store, rels: seq<ExtendedRelation>)
    ensures var r := DeleteMappingTables(s, rels);
            && r.tables == s.tables - MappingNames(rels)
            && r.contents == s.contents - MappingNames(rels)
            && r.extensions == s.extensions && r.writable == s.writable
    decreases |rels|
  {
    if rels == [] {
      assert MappingNames(rels) == {};
    } else {
      DeleteMappingTablesOutcome(DeleteTable(s, rels[0].mappingTableName), rels[1..]);
      assert MappingNames(rels) == {rels[0].mappingTableName} + MappingNames(rels[1..]) by {
        assert rels == [rels[0]] + rels[1..];
      }
    }
  }

  /**
   * removeExtension: when the catalog table exists, delete every mapping
   * table it names and drop the catalog table; then delete every
   * gpkg_extensions row of this extension.
   */
  function RemoveExtension(s: Store): Store
  {
    var s1 := if CatalogExists(s) then DropTable(DeleteMappingTables(s, AllRows(s)), RelationsTable) else s;
    s1.(extensions := map k | k in s1.extensions && k.extensionName != ExtensionName :: s1.extensions[k])
  }

  /**
   * After removeExtension the catalog and every mapping table it named are
   * gone, no ledger record of the extension is left, every other ledger
   * record is kept, and the extension is reported absent.
   */
  lemma RemoveExtensionOutcome(s: Store)
    requires Valid(s)
    ensures var r := RemoveExtension(s);
            && !CatalogExists(r) && r.catalog.None? && !Has(r) && Valid(r)
            && (forall x :: x in AllRows(s) ==> x.mappingTableName !in r.tables)
            && (CatalogExists(s) ==> r.tables == s.tables - MappingNames(AllRows(s)) - {RelationsTable}
                                     && r.contents == s.contents - MappingNames(AllRows(s)))
            && (!CatalogExists(s) ==> r.tables == s.tables && r.contents == s.contents)
            && (forall k :: k in r.extensions ==> k.extensionName != ExtensionName)
            && (forall k :: k in s.extensions && k.extensionName != ExtensionName ==> k in r.extensions && r.extensions[k] == s.extensions[k])
  {
    if CatalogExists(s) {
      DeleteMappingTablesOutcome(s, AllRows(s));
    }
  }

  /** Removing the extension a second time changes nothing. */
  lemma RemoveExtensionIdempotent(s: Store)
    requires Valid(s)
    ensures RemoveExtension(RemoveExtension(s)) == RemoveExtension(s)
  {
    RemoveExtensionOutcome(s);
  }
}
