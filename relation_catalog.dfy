/**
 * The rows of gpkgext_relations as a value: the wildcard catalog query,
 * insertion under the schema's UNIQUE constraint on mapping_table_name and
 * its AUTOINCREMENT id, and deletion by id.
 */
module RelationCatalog {
  import opened GeoStore

  /** The six criteria of a relation query; `None` matches every value. */
  datatype Query = Query(
    baseTable: Option<string>,
    baseColumn: Option<string>,
    relatedTable: Option<string>,
    relatedColumn: Option<string>,
    relation: Option<string>,
    mappingTable: Option<string>)

  /** Which catalog rows a lookup selects. */
  datatype Selector =
    | Matching(query: Query)
    | Involving(table: string)
    | Complement(of: Selector)

  predicate FieldMatches(criterion: Option<string>, value: string)
  {
    criterion.None? || criterion.value == value
  }

  predicate Selects(sel: Selector, r: ExtendedRelation)
  {
    match sel
    case Matching(q) =>
      && FieldMatches(q.baseTable, r.baseTableName)
      && FieldMatches(q.baseColumn, r.basePrimaryColumn)
      && FieldMatches(q.relatedTable, r.relatedTableName)
      && FieldMatches(q.relatedColumn, r.relatedPrimaryColumn)
      && FieldMatches(q.relation, r.relationName)
      && FieldMatches(q.mappingTable, r.mappingTableName)
    case Involving(t) => r.baseTableName == t || r.relatedTableName == t
    case Complement(s) => !Selects(s, r)
  }

  const AnyRelation: Query := Query(None, None, None, None, None, None)

  function BaseQuery(baseTable: string): Query
  {
    AnyRelation.(baseTable := Some(baseTable))
  }

  function RelatedQuery(relatedTable: string): Query
  {
    AnyRelation.(relatedTable := Some(relatedTable))
  }

  function MappingQuery(mappingTable: string): Query
  {
    AnyRelation.(mappingTable := Some(mappingTable))
  }

  /** The query naming every column of a row except its id. */
  function TupleQuery(r: ExtendedRelation): Query
  {
    Query(Some(r.baseTableName), Some(r.basePrimaryColumn), Some(r.relatedTableName),
          Some(r.relatedPrimaryColumn), Some(r.relationName), Some(r.mappingTableName))
  }

  /** The selected rows, in catalog order. */
  function Filter(rows: seq<ExtendedRelation>, sel: Selector): (r: seq<ExtendedRelation>)
    ensures forall x :: x in r <==> x in rows && Selects(sel, x)
    ensures |r| <= |rows|
    decreases |rows|
  {
    if rows == [] then []
    else (if Selects(sel, rows[0]) then [rows[0]] else []) + Filter(rows[1..], sel)
  }

  function Ids(rows: seq<ExtendedRelation>): set<int>
  {
    set x | x in rows :: x.id
  }

  /** The rows whose id is not in `ids`, in catalog order (`DELETE ... WHERE id = ?`, repeated). */
  function WithoutIds(rows: seq<ExtendedRelation>, ids: set<int>): (r: seq<ExtendedRelation>)
    ensures forall x :: x in r <==> x in rows && x.id !in ids
    decreases |rows|
  {
    if rows == [] then []
    else (if rows[0].id in ids then [] else [rows[0]]) + WithoutIds(rows[1..], ids)
  }

  ghost predicate DistinctIds(rows: seq<ExtendedRelation>)
  {
    forall i, j :: 0 <= i < j < |rows| ==> rows[i].id != rows[j].id
  }

  /**
   * INSERT into gpkgext_relations: the UNIQUE mapping_table_name rejects a
   * second row for a mapping table; otherwise the row gets the next
   * AUTOINCREMENT id and is appended.
   */
  function InsertRelation(c: Catalog, row: ExtendedRelation): (r: Result<Catalog>)
    ensures r.Err? <==> exists i :: 0 <= i < |c.rows| && c.rows[i].mappingTableName == row.mappingTableName
    ensures r.Err? ==> r.error == DuplicateMapping(row.mappingTableName)
    ensures r.Ok? ==> r.value == Catalog(c.rows + [row.(id := c.lastId + 1)], c.lastId + 1)
  {
    if exists i :: 0 <= i < |c.rows| && c.rows[i].mappingTableName == row.mappingTableName then
      Err(DuplicateMapping(row.mappingTableName))
    else
      Ok(Catalog(c.rows + [row.(id := c.lastId + 1)], c.lastId + 1))
  }

  /** The full-tuple query selects exactly the rows equal to the given one up to the id. */
  lemma TupleQuerySelectsEqualRows(row: ExtendedRelation, x: ExtendedRelation)
    ensures Selects(Matching(TupleQuery(row)), x) <==> x.(id := row.id) == row
  {
  }

  /** The all-wildcard query returns the whole catalog. */
  lemma {:induction false} FilterAnyIsAll(rows: seq<ExtendedRelation>)
    ensures Filter(rows, Matching(AnyRelation)) == rows
    decreases |rows|
  {
    if rows != [] {
      FilterAnyIsAll(rows[1..]);
      assert rows == [rows[0]] + rows[1..];
    }
  }

  /** Selection distributes over concatenation, so it keeps catalog order. */
  lemma {:induction false} FilterAppend(a: seq<ExtendedRelation>, b: seq<ExtendedRelation>, sel: Selector)
    ensures Filter(a + b, sel) == Filter(a, sel) + Filter(b, sel)
    decreases |a|
  {
    if a != [] {
      var head := if Selects(sel, a[0]) then [a[0]] else [];
      assert (a + b)[0] == a[0];
      assert (a + b)[1..] == a[1..] + b;
      assert Filter(a + b, sel) == head + Filter(a[1..] + b, sel);
      FilterAppend(a[1..], b, sel);
      assert Filter(a, sel) == head + Filter(a[1..], sel);
    } else {
      assert a + b == b;
    }
  }

  ghost predicate DistinctKeys<K>(rows: seq<ExtendedRelation>, key: ExtendedRelation -> K)
  {
    forall i, j :: 0 <= i < j < |rows| ==> key(rows[i]) != key(rows[j])
  }

  /** Selecting rows keeps any column that was distinct distinct. */
  lemma {:induction false} FilterKeepsDistinctKeys<K>(rows: seq<ExtendedRelation>, sel: Selector, key: ExtendedRelation -> K)
    requires DistinctKeys(rows, key)
    ensures DistinctKeys(Filter(rows, sel), key)
    decreases |rows|
  {
    if rows != [] {
      var rest := rows[1..];
      assert DistinctKeys(rest, key) by {
        forall i, j | 0 <= i < j < |rest| ensures key(rest[i]) != key(rest[j]) {
          assert rest[i] == rows[i + 1] && rest[j] == rows[j + 1];
        }
      }
      FilterKeepsDistinctKeys(rest, sel, key);
      var f := Filter(rest, sel);
      if Selects(sel, rows[0]) {
        var r := [rows[0]] + f;
        assert r == Filter(rows, sel);
        forall i, j | 0 <= i < j < |r| ensures key(r[i]) != key(r[j]) {
          assert r[j] == f[j - 1];
          if i == 0 {
            assert f[j - 1] in rest;
            var k :| 0 <= k < |rest| && rest[k] == f[j - 1];
            assert rows[k + 1] == r[j];
          } else {
            assert r[i] == f[i - 1];
          }
        }
      }
    }
  }

  /** A selection of a catalog that satisfies the schema's constraints satisfies them too. */
  lemma FilterKeepsConstraints(rows: seq<ExtendedRelation>, lastId: int, sel: Selector)
    requires UniqueMappingNames(rows) && IdsBelowCounter(Catalog(rows, lastId))
    ensures UniqueMappingNames(Filter(rows, sel)) && IdsBelowCounter(Catalog(Filter(rows, sel), lastId))
  {
    var byName := (x: ExtendedRelation) => x.mappingTableName;
    var byId := (x: ExtendedRelation) => x.id;
    assert DistinctKeys(rows, byName);
    assert DistinctKeys(rows, byId);
    FilterKeepsDistinctKeys(rows, sel, byName);
    FilterKeepsDistinctKeys(rows, sel, byId);
    var f := Filter(rows, sel);
    forall i | 0 <= i < |f| ensures 0 < f[i].id <= lastId {
      assert f[i] in rows;
      var k :| 0 <= k < |rows| && rows[k] == f[i];
    }
    assert forall i, j :: 0 <= i < j < |f| ==> byName(f[i]) != byName(f[j]);
    assert forall i, j :: 0 <= i < j < |f| ==> byId(f[i]) != byId(f[j]);
  }

  /** Removing one set of ids and then another removes their union. */
  lemma {:induction false} WithoutIdsCompose(rows: seq<ExtendedRelation>, a: set<int>, b: set<int>)
    ensures WithoutIds(WithoutIds(rows, a), b) == WithoutIds(rows, a + b)
    decreases |rows|
  {
    if rows != [] {
      var x, rest := rows[0], rows[1..];
      WithoutIdsCompose(rest, a, b);
      var w := WithoutIds(rest, a);
      if x.id in a {
        assert WithoutIds(rows, a) == w;
        assert WithoutIds(rows, a + b) == WithoutIds(rest, a + b);
      } else {
        assert WithoutIds(rows, a) == [x] + w;
        assert ([x] + w)[0] == x && ([x] + w)[1..] == w;
        assert WithoutIds([x] + w, b) == (if x.id in b then [] else [x]) + WithoutIds(w, b);
      }
    }
  }

  /** Ids that no row carries remove nothing. */
  lemma {:induction false} WithoutAbsentIds(rows: seq<ExtendedRelation>, a: set<int>, b: set<int>)
    requires forall x :: x in rows ==> x.id !in b
    ensures WithoutIds(rows, a + b) == WithoutIds(rows, a)
    decreases |rows|
  {
    if rows != [] {
      assert rows[0] in rows;
      WithoutAbsentIds(rows[1..], a, b);
    }
  }

  /**
   * With distinct ids, deleting by id every selected row leaves exactly the
   * unselected rows, in order: no other row is touched.
   */
  lemma {:induction false} DeletingSelectionKeepsTheRest(rows: seq<ExtendedRelation>, sel: Selector)
    requires DistinctIds(rows)
    ensures WithoutIds(rows, Ids(Filter(rows, sel))) == Filter(rows, Complement(sel))
    decreases |rows|
  {
    if rows != [] {
      var x, rest := rows[0], rows[1..];
      HeadIdIsFresh(rows);
      DeletingSelectionKeepsTheRest(rest, sel);
      var f := Filter(rest, sel);
      var ids := Ids(Filter(rows, sel));
      if Selects(sel, x) {
        assert ids == Ids(f) + {x.id} by {
          assert Filter(rows, sel) == [x] + f;
        }
        assert WithoutIds(rows, ids) == WithoutIds(rest, ids);
        WithoutAbsentIds(rest, Ids(f), {x.id});
        assert Filter(rows, Complement(sel)) == Filter(rest, Complement(sel));
      } else {
        assert ids == Ids(f);
        assert x.id !in ids;
        assert WithoutIds(rows, ids) == [x] + WithoutIds(rest, ids);
        assert Filter(rows, Complement(sel)) == [x] + Filter(rest, Complement(sel));
      }
    }
  }

  /** With distinct ids, the rest of the rows is distinct too and does not reuse the first row's id. */
  lemma HeadIdIsFresh(rows: seq<ExtendedRelation>)
    requires rows != [] && DistinctIds(rows)
    ensures DistinctIds(rows[1..])
    ensures forall y :: y in rows[1..] ==> y.id != rows[0].id
  {
    var rest := rows[1..];
    assert forall k :: 0 <= k < |rest| ==> rest[k] == rows[k + 1];
    forall y | y in rest ensures y.id != rows[0].id {
      var k :| 0 <= k < |rest| && rest[k] == y;
      assert rows[k + 1] == y;
    }
  }

  /** An insertion that succeeds keeps the catalog's constraints (unique names, ids below the counter). */
  lemma InsertKeepsConstraints(c: Catalog, row: ExtendedRelation)
    requires UniqueMappingNames(c.rows) && IdsBelowCounter(c)
    requires InsertRelation(c, row).Ok?
    ensures UniqueMappingNames(InsertRelation(c, row).value.rows) && IdsBelowCounter(InsertRelation(c, row).value)
  {
    var n := InsertRelation(c, row).value;
    assert forall i :: 0 <= i < |c.rows| ==> n.rows[i] == c.rows[i];
  }

  /** isTableExists on the relations DAO. */
  predicate CatalogExists(s: Store)
  {
    RelationsTable in s.tables
  }

  /** queryForAll on gpkgext_relations. */
  function AllRows(s: Store): seq<ExtendedRelation>
  {
    if s.catalog.Some? then s.catalog.value.rows else []
  }

  /** getRelations: the matching rows, or none at all when the catalog table is absent. */
  function GetRelations(s: Store, q: Query): (r: seq<ExtendedRelation>)
    ensures forall x :: x in r <==> CatalogExists(s) && x in AllRows(s) && Selects(Matching(q), x)
  {
    if CatalogExists(s) then Filter(AllRows(s), Matching(q)) else []
  }

  /** The base-, related- or either-side lookups: `None` (the source's null) when the catalog table is absent. */
  function SelectedRelations(s: Store, sel: Selector): (r: Option<seq<ExtendedRelation>>)
    ensures r.None? <==> !CatalogExists(s)
    ensures r.Some? ==> forall x :: x in r.value <==> x in AllRows(s) && Selects(sel, x)
  {
    if CatalogExists(s) then Some(Filter(AllRows(s), sel)) else None
  }

  function GetBaseTableRelations(s: Store, baseTable: string): Option<seq<ExtendedRelation>>
  {
    SelectedRelations(s, Matching(BaseQuery(baseTable)))
  }

  function GetRelatedTableRelations(s: Store, relatedTable: string): Option<seq<ExtendedRelation>>
  {
    SelectedRelations(s, Matching(RelatedQuery(relatedTable)))
  }

  function GetTableRelations(s: Store, table: string): Option<seq<ExtendedRelation>>
  {
    SelectedRelations(s, Involving(table))
  }

  /** hasBaseTableRelations and its siblings: a non-null, non-empty lookup. */
  predicate HasSelected(s: Store, sel: Selector)
  {
    var r := SelectedRelations(s, sel);
    r.Some? && |r.value| != 0
  }

  /** hasRelations (and the has*TableRelations family): some catalog row satisfies the criteria. */
  lemma HasRelationsIffSomeRow(s: Store, sel: Selector)
    ensures HasSelected(s, sel) <==> CatalogExists(s) && exists x :: x in AllRows(s) && Selects(sel, x)
  {
    if CatalogExists(s) && exists x :: x in AllRows(s) && Selects(sel, x) {
      var x :| x in AllRows(s) && Selects(sel, x);
      assert x in SelectedRelations(s, sel).value;
    }
    if HasSelected(s, sel) {
      var r := SelectedRelations(s, sel).value;
      assert r[0] in r;
    }
  }

  /** The either-side lookup is exactly the rows found by the base-side or by the related-side lookup. */
  lemma TableRelationsAreBaseOrRelated(s: Store, table: string, x: ExtendedRelation)
    requires CatalogExists(s)
    ensures x in GetTableRelations(s, table).value
            <==> x in GetBaseTableRelations(s, table).value || x in GetRelatedTableRelations(s, table).value
  {
  }
}
