/**
 * CloningResultsItemRepository.SaveVariants: the wrapper around the target
 * write repository that reports every clone the inner repository found
 * Unchanged as Updated (the clone is being promoted because its source
 * changed, which leaves its own revision alone); every other result is
 * returned as it is.
 */
module SaveResults {
  import opened Seqs
  import opened Items

  /** DataChangeType of a save result. */
  datatype DataChangeType = Created | Updated | Unchanged | Deleted

  /** One reported field change; the adapter only moves these around. */
  datatype FieldChange = FieldChange(fieldId: Guid, oldValue: string, newValue: string)

  /** ItemPropertiesUpdated: an item's properties before and after the save. */
  datatype PropertiesUpdated = PropertiesUpdated(id: Guid, before: ItemProperties, after: ItemProperties)

  /**
   * ItemChange, the result of saving one variant. `Reported` is a result as the
   * inner repository returns it, with its field changes bucketed by variance
   * (the language and variant dictionaries in enumeration order);
   * `ItemExists` is the updated result the adapter builds, with one flat field list.
   */
  datatype ItemChange =
    | Reported(
        changeType: DataChangeType,
        id: Guid,
        properties: ItemProperties,
        invariantFields: seq<FieldChange>,
        languageVariantFields: seq<(Language, seq<FieldChange>)>,
        variantFields: seq<((Language, int), seq<FieldChange>)>)
    | ItemExists(propertiesUpdated: PropertiesUpdated, fields: seq<FieldChange>)
  {
    function ChangeType(): DataChangeType
    {
      if Reported? then changeType else Updated
    }

    function Id(): Guid
    {
      if Reported? then id else propertiesUpdated.id
    }
  }

  function LanguageBucket(b: (Language, seq<FieldChange>)): seq<FieldChange> { b.1 }

  function VariantBucket(b: ((Language, int), seq<FieldChange>)): seq<FieldChange> { b.1 }

  /** The field changes of a reported result: invariant, then per language, then per variant. */
  function AllFieldChanges(r: ItemChange): (fields: seq<FieldChange>)
    requires r.Reported?
    ensures var inv := |r.invariantFields|;
      var lang := Flatten(Map(LanguageBucket, r.languageVariantFields));
      inv + |lang| <= |fields|
      && fields[..inv] == r.invariantFields
      && fields[inv..inv + |lang|] == lang
      && fields[inv + |lang|..] == Flatten(Map(VariantBucket, r.variantFields))
    ensures |fields| == |r.invariantFields|
                      + TotalSize(Map(LanguageBucket, r.languageVariantFields))
                      + TotalSize(Map(VariantBucket, r.variantFields))
    ensures forall f :: f in fields <==>
      f in r.invariantFields
      || (exists i :: 0 <= i < |r.languageVariantFields| && f in r.languageVariantFields[i].1)
      || (exists i :: 0 <= i < |r.variantFields| && f in r.variantFields[i].1)
  {
    var lang := Map(LanguageBucket, r.languageVariantFields);
    var variant := Map(VariantBucket, r.variantFields);
    FlattenSize(lang);
    FlattenSize(variant);
    var fields := r.invariantFields + Flatten(lang) + Flatten(variant);
    assert fields[..|r.invariantFields|] == r.invariantFields;
    assert fields[|r.invariantFields|..|r.invariantFields| + |Flatten(lang)|] == Flatten(lang);
    assert fields[|r.invariantFields| + |Flatten(lang)|..] == Flatten(variant);
    fields
  }

  /**
   * Bucket order is kept: the language-variant part of the flat list is the
   * first language's changes followed by the rest's (and likewise for variants).
   */
  lemma LanguageBucketsInOrder(r: ItemChange)
    requires r.Reported? && r.languageVariantFields != []
    ensures Flatten(Map(LanguageBucket, r.languageVariantFields))
         == r.languageVariantFields[0].1 + Flatten(Map(LanguageBucket, r.languageVariantFields[1..]))
  {
    var buckets := r.languageVariantFields;
    assert buckets == [buckets[0]] + buckets[1..];
    assert Map(LanguageBucket, buckets) == [buckets[0].1] + Map(LanguageBucket, buckets[1..]);
    FlattenConcat([buckets[0].1], Map(LanguageBucket, buckets[1..]));
    assert Flatten([buckets[0].1]) == buckets[0].1;
  }

  /** The adapter on one result: an unchanged result becomes an updated one, all else passes. */
  function AdaptResult(r: ItemChange): (a: ItemChange)
    ensures a.ChangeType() != Unchanged
    ensures a.Id() == r.Id()
    ensures r.ChangeType() != Unchanged ==> a == r
    ensures r.ChangeType() == Unchanged ==>
      a.ItemExists?
      && a.propertiesUpdated.before == r.properties
      && a.propertiesUpdated.after == r.properties
      && a.fields == AllFieldChanges(r)
  {
    if r.ChangeType() != Unchanged then r
    else
      ItemExists(PropertiesUpdated(r.id, r.properties, r.properties), AllFieldChanges(r))
  }

  /** Adapting twice is adapting once. */
  lemma AdaptResultIdempotent(r: ItemChange)
    ensures AdaptResult(AdaptResult(r)) == AdaptResult(r)
  {
  }

  /** SaveVariants' result mapping over all the inner repository's results. */
  function SaveVariantsResults(results: seq<ItemChange>): (adapted: seq<ItemChange>)
    ensures |adapted| == |results|
    ensures forall i :: 0 <= i < |results| ==>
      adapted[i].Id() == results[i].Id() && adapted[i].ChangeType() != Unchanged
    ensures forall i :: 0 <= i < |results| && results[i].ChangeType() != Unchanged ==> adapted[i] == results[i]
    ensures forall i :: 0 <= i < |results| && results[i].ChangeType() == Unchanged ==>
      adapted[i].ItemExists? && adapted[i].ChangeType() == Updated
      && adapted[i].propertiesUpdated.before == adapted[i].propertiesUpdated.after == results[i].properties
      && adapted[i].fields == AllFieldChanges(results[i])
  {
    Map(AdaptResult, results)
  }

  /** Re-running the mapping on its own output changes nothing. */
  lemma SaveVariantsResultsIdempotent(results: seq<ItemChange>)
    ensures SaveVariantsResults(SaveVariantsResults(results)) == SaveVariantsResults(results)
  {
    var once := SaveVariantsResults(results);
    forall i | 0 <= i < |once| ensures SaveVariantsResults(once)[i] == once[i] {
      AdaptResultIdempotent(results[i]);
    }
  }
}
