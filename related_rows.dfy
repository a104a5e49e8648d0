/**
 * getRelatedRows: for a base row, every relationship of its table (of the
 * requested types) with the mapping rows that name the row and the related
 * rows they point to.
 */
module RelatedRows {
  import opened GeoStore
  import opened RelationTypes
  import opened RelationCatalog
  import opened Mappings

  /** One relationship and, in mapping-row order, each mapping row with the related row it names. */
  datatype RelationEntry<R> = RelationEntry(relation: ExtendedRelation, rows: seq<(MappingRow, R)>)

  /** The type filter: no filter keeps everything; a filter keeps the reserved types it lists. */
  predicate Wanted(rel: ExtendedRelation, typeFilter: Option<seq<RelationType>>)
  {
    typeFilter.None? || (FromName(rel.relationName).Some? && FromName(rel.relationName).value in typeFilter.value)
  }

  /** The relations the type filter keeps, in order. */
  function WantedRelations(rels: seq<ExtendedRelation>, typeFilter: Option<seq<RelationType>>): (r: seq<ExtendedRelation>)
    ensures forall x :: x in r <==> x in rels && Wanted(x, typeFilter)
    decreases |rels|
  {
    if rels == [] then []
    else (if Wanted(rels[0], typeFilter) then [rels[0]] else []) + WantedRelations(rels[1..], typeFilter)
  }

  /** The mapping rows paired with the related rows that the related table's DAO returns for their related ids. */
  function Fetched<R>(rows: seq<MappingRow>, t: RelationType, relatedTable: string, fetch: (RelationType, string, int) -> R): (r: seq<(MappingRow, R)>)
    ensures |r| == |rows|
    ensures forall j :: 0 <= j < |r| ==> r[j].0 == rows[j] && r[j].1 == fetch(t, relatedTable, rows[j].relatedId)
  {
    seq(|rows|, j requires 0 <= j < |rows| => (rows[j], fetch(t, relatedTable, rows[j].relatedId)))
  }

  /** The loop of getRelatedRows over the base table's relations. */
  function RelatedRowsOver<R>(s: Store, rels: seq<ExtendedRelation>, baseId: int, typeFilter: Option<seq<RelationType>>,
                               fetch: (RelationType, string, int) -> R): Result<seq<RelationEntry<R>>>
    decreases |rels|
  {
    if rels == [] then Ok([])
    else
      var rel := rels[0];
      if !Wanted(rel, typeFilter) then RelatedRowsOver(s, rels[1..], baseId, typeFilter, fetch)
      else match FromName(rel.relationName)
        case None => Err(UnresolvableRelationType(rel.relationName))
        case Some(t) =>
          match MappingRows(s, rel.mappingTableName)
          case Err(e) => Err(e)
          case Ok(rows) =>
            var here := RelationEntry(rel, Fetched(RowsWith(rows, BaseSide, baseId), t, rel.relatedTableName, fetch));
            match RelatedRowsOver(s, rels[1..], baseId, typeFilter, fetch)
            case Err(e) => Err(e)
            case Ok(rest) => Ok([here] + rest)
  }

  /**
   * getRelatedRows. Without a catalog table the base-relation lookup is
   * null and reading its length fails; that failure is reported as the
   * missing catalog table.
   */
  function GetRelatedRows<R>(s: Store, baseTable: string, baseId: int, typeFilter: Option<seq<RelationType>>,
                              fetch: (RelationType, string, int) -> R): (r: Result<seq<RelationEntry<R>>>)
    ensures !CatalogExists(s) ==> r == Err(TableNotFound(RelationsTable))
  {
    match GetBaseTableRelations(s, baseTable)
    case None => Err(TableNotFound(RelationsTable))
    case Some(rels) => RelatedRowsOver(s, rels, baseId, typeFilter, fetch)
  }

  /**
   * The loop succeeds exactly when every relation the filter keeps has a
   * reserved relation type and an existing mapping table.
   */
  lemma {:induction false} RelatedRowsOverOk<R>(s: Store, rels: seq<ExtendedRelation>, baseId: int,
                                                 typeFilter: Option<seq<RelationType>>, fetch: (RelationType, string, int) -> R)
    ensures RelatedRowsOver(s, rels, baseId, typeFilter, fetch).Ok?
            <==> forall i :: 0 <= i < |rels| && Wanted(rels[i], typeFilter) ==>
                   FromName(rels[i].relationName).Some? && rels[i].mappingTableName in s.tables
    decreases |rels|
  {
    if rels != [] {
      RelatedRowsOverOk(s, rels[1..], baseId, typeFilter, fetch);
      assert forall i :: 1 <= i < |rels| ==> rels[i] == rels[1..][i - 1];
    }
  }

  /** Only an unfiltered call can stumble on a relation name that is not a reserved type; a filter skips such relations. */
  lemma {:induction false} UnresolvableOnlyWithoutFilter<R>(s: Store, rels: seq<ExtendedRelation>, baseId: int,
                                                           typeFilter: Option<seq<RelationType>>, fetch: (RelationType, string, int) -> R)
    ensures var r := RelatedRowsOver(s, rels, baseId, typeFilter, fetch);
            r.Err? && r.error.UnresolvableRelationType? ==> typeFilter.None?
    decreases |rels|
  {
    if rels != [] {
      UnresolvableOnlyWithoutFilter(s, rels[1..], baseId, typeFilter, fetch);
    }
  }

  /**
   * An entry for a relation: the relation, which has a reserved type, and
   * the mapping rows with the base id, in row order, each with the related
   * row fetched for its related id.
   */
  ghost predicate EntryMatches<R>(s: Store, e: RelationEntry<R>, rel: ExtendedRelation, baseId: int,
                                  fetch: (RelationType, string, int) -> R)
  {
    var rows := RowsWith(TableRows(s, rel.mappingTableName), BaseSide, baseId);
    && e.relation == rel
    && FromName(rel.relationName).Some?
    && |e.rows| == |rows|
    && forall j :: 0 <= j < |e.rows| ==>
         e.rows[j].0 == rows[j] && e.rows[j].1 == fetch(FromName(rel.relationName).value, rel.relatedTableName, rows[j].relatedId)
  }

  /** Prefixing a matching entry and its relation keeps the entries matching the relations. */
  lemma EntriesCons<R>(s: Store, e: RelationEntry<R>, rel: ExtendedRelation, es: seq<RelationEntry<R>>, ws: seq<ExtendedRelation>,
                       baseId: int, fetch: (RelationType, string, int) -> R)
    requires EntryMatches(s, e, rel, baseId, fetch)
    requires |es| == |ws| && forall i :: 0 <= i < |es| ==> EntryMatches(s, es[i], ws[i], baseId, fetch)
    ensures |[e] + es| == |[rel] + ws|
    ensures forall i :: 0 <= i < |[e] + es| ==> EntryMatches(s, ([e] + es)[i], ([rel] + ws)[i], baseId, fetch)
  {
    forall i | 0 <= i < |[e] + es| ensures EntryMatches(s, ([e] + es)[i], ([rel] + ws)[i], baseId, fetch) {
      if i > 0 {
        assert ([e] + es)[i] == es[i - 1] && ([rel] + ws)[i] == ws[i - 1];
      }
    }
  }

  /** A successful result has one matching entry per relation the filter keeps, in order. */
  lemma {:induction false} RelatedRowsOverEntries<R>(s: Store, rels: seq<ExtendedRelation>, baseId: int,
                                                      typeFilter: Option<seq<RelationType>>, fetch: (RelationType, string, int) -> R)
    requires RelatedRowsOver(s, rels, baseId, typeFilter, fetch).Ok?
    ensures var es := RelatedRowsOver(s, rels, baseId, typeFilter, fetch).value;
            var w := WantedRelations(rels, typeFilter);
            |es| == |w| && forall i :: 0 <= i < |es| ==> EntryMatches(s, es[i], w[i], baseId, fetch)
    decreases |rels|
  {
    if rels != [] {
      RelatedRowsOverEntries(s, rels[1..], baseId, typeFilter, fetch);
      var es := RelatedRowsOver(s, rels, baseId, typeFilter, fetch).value;
      var w := WantedRelations(rels, typeFilter);
      var rest := RelatedRowsOver(s, rels[1..], baseId, typeFilter, fetch).value;
      var wrest := WantedRelations(rels[1..], typeFilter);
      if Wanted(rels[0], typeFilter) {
        var rel := rels[0];
        var t := FromName(rel.relationName).value;
        var rows := MappingRows(s, rel.mappingTableName).value;
        assert rows == TableRows(s, rel.mappingTableName);
        var here := RelationEntry(rel, Fetched(RowsWith(rows, BaseSide, baseId), t, rel.relatedTableName, fetch));
        assert EntryMatches(s, here, rel, baseId, fetch);
        assert es == [here] + rest;
        assert w == [rel] + wrest;
        EntriesCons(s, here, rel, rest, wrest, baseId, fetch);
      } else {
        assert w == wrest;
      }
    }
  }
}
