/**
 * The publishing data model the declone logic reads and builds: item
 * variants with their fields, outgoing item relationships, and the
 * identifiers and locators that name a variant.
 */
module Items {
  import opened Wrappers

  /** A GUID; the model only ever compares GUIDs for equality. */
  datatype Guid = Guid(value: nat)

  type Language = string

  /**
   * The field ids of the two clone-marker fields (PublishingConstants.Clones.SourceItem
   * and PublishingConstants.Clones.SourceVariant). PublishingConstants is not part of
   * this model; these stand-ins only need to be two distinct GUIDs.
   */
  const SourceItemFieldId: Guid := Guid(1)
  const SourceVariantFieldId: Guid := Guid(2)

  predicate IsCloneMarker(fieldId: Guid)
  {
    fieldId == SourceItemFieldId || fieldId == SourceVariantFieldId
  }

  /** VarianceType: the axes a field's stored value is scoped to. */
  datatype VarianceType = InvariantType | LanguageVariantType | VariantType

  /** VarianceInfo: a variance type together with the language and version it is scoped to. */
  datatype Variance =
    | Invariant
    | LanguageVariant(language: Language)
    | Variant(language: Language, version: int)
  {
    function Type(): VarianceType
    {
      match this
      case Invariant => InvariantType
      case LanguageVariant(_) => LanguageVariantType
      case Variant(_, _) => VariantType
    }

    /** The variance belongs to the variant (language, version). */
    predicate ScopedTo(language: Language, version: int)
    {
      match this
      case Invariant => true
      case LanguageVariant(l) => l == language
      case Variant(l, v) => l == language && v == version
    }
  }

  /** FieldData: one stored field value of an item variant. */
  datatype FieldData = FieldData(fieldId: Guid, ownerId: Guid, rawValue: string, variance: Variance)

  /** The structural properties of an item (passed through untouched by the declone). */
  datatype ItemProperties = ItemProperties(name: string, templateId: Guid, parentId: Guid, masterId: Guid)

  /** IItemVariantIdentifier as seen by IItemVariantIdentifierComparer: (id, language, version). */
  datatype VariantKey = VariantKey(id: Guid, language: Language, version: int)

  /** IItemVariantLocator: a variant identifier within a named store. */
  datatype VariantLocator = VariantLocator(id: Guid, language: Language, version: int, store: string)
  {
    /** The comparer ignores the store. */
    function Key(): VariantKey { VariantKey(id, language, version) }
  }

  /** ItemVariant: one (item, language, version) snapshot. */
  datatype ItemVariant = ItemVariant(
    id: Guid,
    language: Language,
    version: int,
    revision: Guid,
    properties: ItemProperties,
    fields: seq<FieldData>)
  {
    function Key(): VariantKey { VariantKey(id, language, version) }
  }

  /** ItemRelationshipType; the kinds the declone does not name are told apart by a code. */
  datatype RelationshipType = TemplatedBy | CloneOf | CloneVersionOf | OtherType(code: nat)

  /** ItemRelationship: a directed edge out of the item `sourceId`; `sourceFieldId` may be null. */
  datatype ItemRelationship = ItemRelationship(
    id: Guid,
    sourceId: Guid,
    targetId: Guid,
    relType: RelationshipType,
    sourceVariance: Variance,
    targetVariance: Variance,
    targetPath: string,
    sourceFieldId: Option<Guid>)

  /** The field ids present in a field list. */
  function FieldIds(fields: seq<FieldData>): set<Guid>
  {
    set f | f in fields :: f.fieldId
  }

  lemma FieldIdsConcat(a: seq<FieldData>, b: seq<FieldData>)
    ensures FieldIds(a + b) == FieldIds(a) + FieldIds(b)
  {
    forall id | id in FieldIds(a + b) ensures id in FieldIds(a) + FieldIds(b) {
      var f :| f in a + b && f.fieldId == id;
    }
  }

  lemma FieldIdsCons(f: FieldData, fields: seq<FieldData>)
    ensures FieldIds([f] + fields) == {f.fieldId} + FieldIds(fields)
  {
    FieldIdsConcat([f], fields);
    assert FieldIds([f]) == {f.fieldId} by {
      assert f in [f];
    }
  }

  /** The first field with the given id: what a reader of the field list sees for that id. */
  function FieldLookup(fields: seq<FieldData>, fieldId: Guid): (r: Option<FieldData>)
    ensures r.Some? <==> fieldId in FieldIds(fields)
    ensures r.Some? ==> r.value in fields && r.value.fieldId == fieldId
  {
    if fields == [] then None
    else
      assert FieldIds(fields) == {fields[0].fieldId} + FieldIds(fields[1..]) by {
        assert fields == [fields[0]] + fields[1..];
        FieldIdsConcat([fields[0]], fields[1..]);
      }
      if fields[0].fieldId == fieldId then Some(fields[0]) else FieldLookup(fields[1..], fieldId)
  }

  /** Looking a field up in a concatenation consults the first part first. */
  lemma {:induction false} FieldLookupConcat(a: seq<FieldData>, b: seq<FieldData>, fieldId: Guid)
    ensures FieldLookup(a + b, fieldId)
         == if fieldId in FieldIds(a) then FieldLookup(a, fieldId) else FieldLookup(b, fieldId)
  {
    if a != [] {
      assert (a + b)[0] == a[0];
      assert (a + b)[1..] == a[1..] + b;
      FieldLookupConcat(a[1..], b, fieldId);
      assert FieldIds(a) == {a[0].fieldId} + FieldIds(a[1..]) by {
        assert a == [a[0]] + a[1..];
        FieldIdsConcat([a[0]], a[1..]);
      }
    } else {
      assert a + b == b;
    }
  }
}
