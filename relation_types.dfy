/**
 * The relation types reserved by the Related Tables extension, and the
 * naming rule for user-defined relation names.
 */
module RelationTypes {
  import opened GeoStore

  datatype RelationType = Features | Tiles | Attributes | Media | SimpleAttributes

  /** The reserved relation name of a type. */
  function Name(t: RelationType): string
  {
    match t
    case Features => "features"
    case Tiles => "tiles"
    case Attributes => "attributes"
    case Media => "media"
    case SimpleAttributes => "simple_attributes"
  }

  /** The gpkg_contents data type a related table of this type must have. */
  function DataType(t: RelationType): string
  {
    match t
    case Features => "features"
    case Tiles => "tiles"
    case Attributes => "attributes"
    case Media => "attributes"
    case SimpleAttributes => "attributes"
  }

  /** The reserved type with exactly this name, if any. */
  function FromName(name: string): (r: Option<RelationType>)
    ensures r.Some? ==> Name(r.value) == name
    ensures r.None? <==> forall t: RelationType :: Name(t) != name
  {
    if name == "features" then Some(Features)
    else if name == "tiles" then Some(Tiles)
    else if name == "attributes" then Some(Attributes)
    else if name == "media" then Some(Media)
    else if name == "simple_attributes" then Some(SimpleAttributes)
    else None
  }

  /** Reserved names are distinct, so a type is recovered from its name. */
  lemma FromNameOfName(t: RelationType)
    ensures FromName(Name(t)) == Some(t)
  {
  }

  /** A custom relation name: "x-", the author, "_", the name. */
  function BuildRelationName(author: string, name: string): (r: string)
    ensures |r| == |author| + |name| + 3
    ensures r[..2] == "x-" && r[2..2 + |author|] == author && r[2 + |author|] == '_' && r[3 + |author|..] == name
  {
    "x-" + author + "_" + name
  }

  /** A built name is never a reserved name, so it never takes part in type validation. */
  lemma BuiltNameIsNotReserved(author: string, name: string)
    ensures FromName(BuildRelationName(author, name)) == None
  {
    var r := BuildRelationName(author, name);
    assert r[0] == 'x';
  }

  /** For one author, distinct names give distinct relation names. */
  lemma BuildRelationNameInjective(author: string, name1: string, name2: string)
    requires BuildRelationName(author, name1) == BuildRelationName(author, name2)
    ensures name1 == name2
  {
    assert name1 == BuildRelationName(author, name1)[3 + |author|..];
  }

  /** Across authors the rule is ambiguous: an underscore may belong to the author or to the name. */
  lemma BuildRelationNameAmbiguous()
    ensures BuildRelationName("a_b", "c") == BuildRelationName("a", "b_c")
  {
  }
}
