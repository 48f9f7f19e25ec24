# Clone declone for data promotion: a Dafny model

This project models the "declone" step of `DefaultItemCloneManifestPromoter`
in the Sitecore Publishing Service support patch 29916.34137. A *clone* is an
item variant (one item, language and version) that names another variant, its
*clone source*, through two clone-marker fields (`Clones.SourceItem`,
`Clones.SourceVariant`). Before a clone is promoted to a target store, it is
merged with its clone source into a self-contained variant:

- the clone's own fields win, minus the marker fields;
- source fields whose id the clone lacks are copied onto the clone, with the
  clone as owner and their variance re-scoped to the clone's language and version;
- the clone's outgoing relationships are filtered by one boolean predicate;
- the source's relationships are copied with new ids, re-rooted onto the clone
  and added unless a kept clone relationship has the same
  (SourceId, SourceFieldId, Type).

`DecloneVariants` runs this merge for each clone of a batch. It has a fallback
for clones whose source is missing. The save wrapper
`CloningResultsItemRepository` reports every clone the inner repository found
Unchanged as Updated. It returns every other result as it is.

Modules:

- `Wrappers` (`wrappers.dfy`): `Option` (a C# null) and `Result` (a C# exception).
- `Seqs` (`seqs.dfy`): the LINQ operators the code uses (`Where`, `Select`,
  `SelectMany`, `Distinct` with a comparer) as functions, with their properties.
- `Items` (`items.dfy`): variants, fields, variances, relationships,
  identifiers and locators, and first-match field lookup.
- `Declone` (`declone.dfy`): `CreateFieldVarianceInfo`,
  `MergeCloneAndSourceVariants` and the assembly done by `DecloneVariants`
  once its repository calls have returned.
- `SaveResults` (`save_results.dfy`): the result mapping of
  `CloningResultsItemRepository.SaveVariants`.

Points where the code's behaviour is easy to misread, modelled as written:

- Exactly one ancestor level is resolved. There is no chain walk and no cycle guard.
- No relationship type is excluded for being a clone link (`CloneOf`,
  `CloneVersionOf`). The filter is the literal predicate at
  DefaultItemCloneManifestPromoter.cs lines 206-209, with C# precedence.
  See `Declone.CloneLinksNotExcluded`.
- The missing-source fallback passes the clone's relationships through
  unfiltered. A merge with an empty source would filter them.
  See `Declone.MergeWithEmptySource`.
- The code removes only the clone's own marker fields. A marker field of the
  source whose id the clone lacks is inherited like any other field.
  See `Declone.MergeFieldsMarkers`.

The comment at lines 204-205 says the template link is taken from the source.
As written, a clone `TemplatedBy` relationship without a source field is kept.
The source's matching link then collides with it and is not added
(`Declone.TemplateLinkFromClone`). The clone's template link is the one written.

## Model

| member | source | states |
|---|---|---|
| `Declone.CreateFieldVarianceInfo` | src/Sitecore.Support.29916.34137/Framework/Publishing/DataPromotion/DefaultItemCloneManifestPromoter.cs:164-175 | the copied field's variance has the source field's variance type and is scoped to the clone's language and version; it is the only variance with both properties |
| `Declone.NeverSourceScope` | src/Sitecore.Support.29916.34137/Framework/Publishing/DataPromotion/DefaultItemCloneManifestPromoter.cs:166-172 | a source variance not scoped to the clone's language/version is never kept as it is |
| `Declone.StripCloneFields` | src/Sitecore.Support.29916.34137/Framework/Publishing/DataPromotion/DefaultItemCloneManifestPromoter.cs:187-189 | exactly the non-marker fields of the clone remain; the field ids are the clone's minus the two marker ids |
| `Declone.StripCloneFieldsConcat` | src/Sitecore.Support.29916.34137/Framework/Publishing/DataPromotion/DefaultItemCloneManifestPromoter.cs:187-189 | stripping distributes over concatenation, so the kept fields stay in their original order |
| `Declone.StripCloneFieldsNoMarkers` | src/Sitecore.Support.29916.34137/Framework/Publishing/DataPromotion/DefaultItemCloneManifestPromoter.cs:187-189 | a field list without marker fields is left exactly as it is |
| `Declone.StripCloneFieldsLookup` | src/Sitecore.Support.29916.34137/Framework/Publishing/DataPromotion/DefaultItemCloneManifestPromoter.cs:187-189 | after stripping, marker ids read as absent and every other id reads the same field as before |
| `Declone.InheritField` | src/Sitecore.Support.29916.34137/Framework/Publishing/DataPromotion/DefaultItemCloneManifestPromoter.cs:194-198 | a copied field keeps its field id and raw value, is owned by the clone and has a variance re-derived for the clone |
| `Declone.InheritedFields` | src/Sitecore.Support.29916.34137/Framework/Publishing/DataPromotion/DefaultItemCloneManifestPromoter.cs:192-198 | the copied field ids are exactly the source's ids minus all the clone's ids (markers included); each copy is owned by the clone and scoped to its language and version |
| `Declone.InheritedFieldsLookup` | src/Sitecore.Support.29916.34137/Framework/Publishing/DataPromotion/DefaultItemCloneManifestPromoter.cs:192-198 | an id the clone has reads as absent among the copies; any other id reads the source's field, re-owned and re-scoped |
| `Declone.MergeFields` | src/Sitecore.Support.29916.34137/Framework/Publishing/DataPromotion/DefaultItemCloneManifestPromoter.cs:187-199 | the clone's non-marker fields come first, in order, and all appear; every later field is owned by the clone and has an id the clone lacks; the ids are the clone's non-marker ids plus the source ids the clone lacks; a marker field in the output never has an id the clone had |
| `Declone.MergeFieldsLookup` | src/Sitecore.Support.29916.34137/Framework/Publishing/DataPromotion/DefaultItemCloneManifestPromoter.cs:187-199 | field precedence: for every id the merged variant reads the clone's field if the clone has that id (nothing for a marker id), otherwise the source's field, re-owned and re-scoped |
| `Declone.MergeFieldsMarkers` | src/Sitecore.Support.29916.34137/Framework/Publishing/DataPromotion/DefaultItemCloneManifestPromoter.cs:187-199 | a marker id is in the merged fields iff the clone lacks it and the source has it |
| `Declone.KeepCloneRelationship` | src/Sitecore.Support.29916.34137/Framework/Publishing/DataPromotion/DefaultItemCloneManifestPromoter.cs:202-209 | for a clone with no fields: kept iff not TemplatedBy or no source field; for a clone with fields: kept iff no source field or the source field is one of the clone's fields |
| `Declone.KeptCloneRelationships` | src/Sitecore.Support.29916.34137/Framework/Publishing/DataPromotion/DefaultItemCloneManifestPromoter.cs:202-210 | exactly the clone relationships that pass the filter are kept |
| `Declone.DeriveRelationship` | src/Sitecore.Support.29916.34137/Framework/Publishing/DataPromotion/DefaultItemCloneManifestPromoter.cs:213-219 | a new id; SourceId is the clone's id when it was the source variant's id, else unchanged; it never points at the source variant unless that is the clone; target, type, variances, path and source field are unchanged |
| `Declone.DerivedRelationships` | src/Sitecore.Support.29916.34137/Framework/Publishing/DataPromotion/DefaultItemCloneManifestPromoter.cs:212-220 | one derived relationship per source relationship, in order, the j-th with the j-th new id; if all source relationships start at the source, all derived ones start at the clone |
| `Declone.DerivedIdsDistinct` | src/Sitecore.Support.29916.34137/Framework/Publishing/DataPromotion/DefaultItemCloneManifestPromoter.cs:214 | when the new ids never repeat, the derived relationships have pairwise distinct ids |
| `Declone.AddedSourceRelationships` | src/Sitecore.Support.29916.34137/Framework/Publishing/DataPromotion/DefaultItemCloneManifestPromoter.cs:224-227 | a derived relationship is added iff no kept clone relationship has its (SourceId, SourceFieldId, Type) |
| `Declone.MergeRelationships` | src/Sitecore.Support.29916.34137/Framework/Publishing/DataPromotion/DefaultItemCloneManifestPromoter.cs:223-228 | the kept clone relationships come first, unchanged and in order; after them come exactly the derived source relationships whose key no kept relationship has; the added ones share no key with the kept ones; the output's keys are the kept keys plus all derived keys |
| `Declone.AddedSourceRelationshipsConcat` | src/Sitecore.Support.29916.34137/Framework/Publishing/DataPromotion/DefaultItemCloneManifestPromoter.cs:224-227 | adding distributes over concatenation of the derived relationships, so the added ones keep source order and source duplicates are not removed |
| `Declone.CloneRelationshipWins` | src/Sitecore.Support.29916.34137/Framework/Publishing/DataPromotion/DefaultItemCloneManifestPromoter.cs:223-228 | when a kept clone relationship and a derived source relationship share a key, the clone's is in the output and no added relationship has that key |
| `Declone.CloneLinksNotExcluded` | src/Sitecore.Support.29916.34137/Framework/Publishing/DataPromotion/DefaultItemCloneManifestPromoter.cs:206-209 | CloneOf and CloneVersionOf relationships whose source field the clone has are kept |
| `Declone.TemplateLinkFromClone` | src/Sitecore.Support.29916.34137/Framework/Publishing/DataPromotion/DefaultItemCloneManifestPromoter.cs:204-228 | a clone TemplatedBy link without a source field is kept, and a matching source template link is not added |
| `Declone.SourceDuplicatesKept` | src/Sitecore.Support.29916.34137/Framework/Publishing/DataPromotion/DefaultItemCloneManifestPromoter.cs:223-228 | when no derived key collides with a kept key, every derived relationship is added, duplicates included |
| `Declone.MergeCloneAndSourceVariants` | src/Sitecore.Support.29916.34137/Framework/Publishing/DataPromotion/DefaultItemCloneManifestPromoter.cs:177-239 | the merged variant keeps the clone's id, language, version, revision and properties; only its fields and relationships are merged |
| `Declone.MergeWithEmptySource` | src/Sitecore.Support.29916.34137/Framework/Publishing/DataPromotion/DefaultItemCloneManifestPromoter.cs:177-239 | merging with a source that has no fields and no relationships only strips markers and filters the clone's relationships |
| `Declone.CloneSourceLocators` | src/Sitecore.Support.29916.34137/Framework/Publishing/DataPromotion/DefaultItemCloneManifestPromoter.cs:99-103 | no null entries and no two entries equal under the (id, language, version) comparer; every entry is some clone's source reference, and every clone's source reference is represented |
| `Declone.IndexByKeySpec` | src/Sitecore.Support.29916.34137/Framework/Publishing/DataPromotion/DefaultItemCloneManifestPromoter.cs:109 | the dictionary is built iff the fetched source variants have pairwise distinct keys (else a duplicate-key error naming one of them); each variant is stored under its own key |
| `Declone.DistinctLocatorsIndexable` | src/Sitecore.Support.29916.34137/Framework/Publishing/DataPromotion/DefaultItemCloneManifestPromoter.cs:99-109 | when each fetched source variant has the key of a different de-duplicated clone-source locator, building the dictionary cannot fail and the declone of the batch succeeds |
| `Declone.RelationshipsOrEmpty` | src/Sitecore.Support.29916.34137/Framework/Publishing/DataPromotion/DefaultItemCloneManifestPromoter.cs:117-131 | a missing relationship entry reads as an empty list |
| `Declone.DecloneEntry` | src/Sitecore.Support.29916.34137/Framework/Publishing/DataPromotion/DefaultItemCloneManifestPromoter.cs:112-159 | in both branches the clone's identity, revision and properties are kept, every non-marker clone field is present and no clone marker id survives; with no source reference or an unfetched source, the fields are stripped and the relationships pass through unfiltered; otherwise it is the merge |
| `Declone.DecloneVariants` | src/Sitecore.Support.29916.34137/Framework/Publishing/DataPromotion/DefaultItemCloneManifestPromoter.cs:72-162 | fails iff two fetched source variants share a key; otherwise one result per clone, in clone order, each the declone of that clone |
| `SaveResults.AllFieldChanges` | src/Sitecore.Support.29916.34137/Framework/Publishing/DataPromotion/DefaultItemCloneManifestPromoter.cs:280-282 | the flat field list is the invariant field changes, then the language-variant buckets flattened in order, then the variant buckets flattened in order; it holds exactly those changes and its length is their total count |
| `SaveResults.LanguageBucketsInOrder` | src/Sitecore.Support.29916.34137/Framework/Publishing/DataPromotion/DefaultItemCloneManifestPromoter.cs:281 | the flattened language-variant part is the first language's changes followed by the flattening of the remaining languages |
| `SaveResults.AdaptResult` | src/Sitecore.Support.29916.34137/Framework/Publishing/DataPromotion/DefaultItemCloneManifestPromoter.cs:266-283 | a non-Unchanged result is returned as is; an Unchanged one becomes an updated result with equal old and new properties and the flattened field list; the id is kept and no output is Unchanged |
| `SaveResults.AdaptResultIdempotent` | src/Sitecore.Support.29916.34137/Framework/Publishing/DataPromotion/DefaultItemCloneManifestPromoter.cs:266-283 | adapting an adapted result changes nothing |
| `SaveResults.SaveVariantsResults` | src/Sitecore.Support.29916.34137/Framework/Publishing/DataPromotion/DefaultItemCloneManifestPromoter.cs:259-285 | same length, order and ids as the inner results; no Unchanged remains; others pass through; Unchanged ones become updated with equal old and new properties and the flattened field list |
| `SaveResults.SaveVariantsResultsIdempotent` | src/Sitecore.Support.29916.34137/Framework/Publishing/DataPromotion/DefaultItemCloneManifestPromoter.cs:265-284 | the result mapping is idempotent |

## Left out

- `Promote`, `ProcessManifestInBatches`, the `Task.WhenAll` calls and the awaited repository reads and writes (lines 36-67, 79-81, 105-107, 261) are asynchronous I/O. Their results are inputs of `Declone.DecloneVariants` and `SaveResults.SaveVariantsResults`.
- `TryGetCloneSourceVariantUri` (line 87) belongs to a library that is not part of this model. It is the parameter `sourceOf`, a partial function from a clone to its source locator.
- `Guid.NewGuid()` (line 214) is the id-supply parameter `newIds`. Nothing compares these ids, so the model does not require them to be fresh. `Declone.DerivedIdsDistinct` states what an injective supply gives.
- The relationship dictionaries returned by the repository are modelled as maps keyed by (id, language, version). Their own comparers are not part of this model.
- The marker field ids are two distinct stand-in GUIDs. `PublishingConstants` is not part of this model.
- `SaveResults.AdaptResult`: `ItemExists` is not part of this model. Its change type is taken to be `Updated`. Its single field list is kept as built, without re-bucketing by variance.
- `CreateFieldVarianceInfo`'s `return null` (line 174): the model's variance type has exactly the three cases the switch names. A C# enum can hold a value it does not declare; the null variance such a value would produce is not modelled.
- `IItemVariantIdentifierComparer` (line 17) is not part of this model. It is taken to compare id, language (exact string equality) and version, ignoring the store.
- The repository's reads are not modelled, so the fetched source variants are an input unrelated to the locators requested. `Declone.DistinctLocatorsIndexable` states what a repository returning at most one variant per requested locator guarantees.
- The `.Where(x => x != null)` at line 160 removes nothing, because no branch returns null.
- Logging (line 143), the constructors and configuration (lines 21-34), `CreatePromoteWorker` and `ItemManifestPromoteWorker` (lines 241-244), `Dispose` and the delete pass-throughs (lines 257, 287-297) only delegate to other code.
