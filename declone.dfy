/**
 * DefaultItemCloneManifestPromoter's declone step: a clone variant is merged
 * with the variant it was cloned from (one ancestor level) into a
 * self-contained variant plus its outgoing relationships, ready to be
 * written to the target store.
 */
module Declone {
  import opened Wrappers
  import opened Seqs
  import opened Items

  /* ---------------------------------------------------------------------
   * Variance re-derivation (CreateFieldVarianceInfo)
   * --------------------------------------------------------------------- */

  /**
   * The variance a field copied from the clone source gets on the clone: the
   * source field's variance type, re-scoped to the clone's own language and version.
   */
  function CreateFieldVarianceInfo(clone: ItemVariant, fieldVariance: Variance): (r: Variance)
    ensures r.Type() == fieldVariance.Type()
    ensures r.ScopedTo(clone.language, clone.version)
    ensures forall w: Variance :: w.Type() == fieldVariance.Type() && w.ScopedTo(clone.language, clone.version) ==> w == r
  {
    match fieldVariance
    case Variant(_, _) => Variant(clone.language, clone.version)
    case LanguageVariant(_) => LanguageVariant(clone.language)
    case Invariant => Invariant
  }

  /** A copied field never keeps a language/version pair of the source that differs from the clone's. */
  lemma NeverSourceScope(clone: ItemVariant, fieldVariance: Variance)
    requires !fieldVariance.ScopedTo(clone.language, clone.version)
    ensures CreateFieldVarianceInfo(clone, fieldVariance) != fieldVariance
  {
  }

  /* ---------------------------------------------------------------------
   * Field merge (MergeCloneAndSourceVariants, fields part)
   * --------------------------------------------------------------------- */

  predicate KeepCloneField(f: FieldData)
  {
    !IsCloneMarker(f.fieldId)
  }

  /** The clone's fields without the two clone-marker fields, in order. */
  function StripCloneFields(fields: seq<FieldData>): (r: seq<FieldData>)
    ensures forall f :: f in r <==> f in fields && !IsCloneMarker(f.fieldId)
    ensures FieldIds(r) == FieldIds(fields) - {SourceItemFieldId, SourceVariantFieldId}
  {
    var r := Filter(KeepCloneField, fields);
    assert FieldIds(r) == FieldIds(fields) - {SourceItemFieldId, SourceVariantFieldId} by {
      forall id | id in FieldIds(fields) - {SourceItemFieldId, SourceVariantFieldId} ensures id in FieldIds(r) {
        var f :| f in fields && f.fieldId == id;
        assert f in r;
      }
    }
    r
  }

  /** Stripping marker fields is order-preserving: it distributes over concatenation. */
  lemma StripCloneFieldsConcat(a: seq<FieldData>, b: seq<FieldData>)
    ensures StripCloneFields(a + b) == StripCloneFields(a) + StripCloneFields(b)
  {
    FilterConcat(KeepCloneField, a, b);
  }

  /** Stripping leaves a field list without marker fields exactly as it was. */
  lemma StripCloneFieldsNoMarkers(fields: seq<FieldData>)
    requires forall f :: f in fields ==> !IsCloneMarker(f.fieldId)
    ensures StripCloneFields(fields) == fields
  {
    FilterKeepsAll(KeepCloneField, fields);
  }

  /** Reading a stripped list: marker ids are gone, every other id reads as before. */
  lemma {:induction false} StripCloneFieldsLookup(fields: seq<FieldData>, fieldId: Guid)
    ensures FieldLookup(StripCloneFields(fields), fieldId)
         == if IsCloneMarker(fieldId) then None else FieldLookup(fields, fieldId)
  {
    if fields != [] {
      StripCloneFieldsLookup(fields[1..], fieldId);
      assert fields == [fields[0]] + fields[1..];
      StripCloneFieldsConcat([fields[0]], fields[1..]);
      FieldLookupConcat(StripCloneFields([fields[0]]), StripCloneFields(fields[1..]), fieldId);
    }
  }

  /** A source field copied onto the clone: owned by the clone, variance re-derived. */
  function InheritField(clone: ItemVariant, f: FieldData): (g: FieldData)
    ensures g.fieldId == f.fieldId && g.rawValue == f.rawValue
    ensures g.ownerId == clone.id
    ensures g.variance.Type() == f.variance.Type() && g.variance.ScopedTo(clone.language, clone.version)
  {
    FieldData(f.fieldId, clone.id, f.rawValue, CreateFieldVarianceInfo(clone, f.variance))
  }

  /**
   * The source fields whose id the clone does not have (checked against all of
   * the clone's fields, markers included), copied onto the clone, in source order.
   */
  function InheritedFields(clone: ItemVariant, sourceFields: seq<FieldData>): (r: seq<FieldData>)
    ensures |r| <= |sourceFields|
    ensures FieldIds(r) == FieldIds(sourceFields) - FieldIds(clone.fields)
    ensures forall g :: g in r ==> g.ownerId == clone.id && g.variance.ScopedTo(clone.language, clone.version)
  {
    if sourceFields == [] then []
    else
      var f := sourceFields[0];
      var rest := InheritedFields(clone, sourceFields[1..]);
      FieldIdsCons(f, sourceFields[1..]);
      assert sourceFields == [f] + sourceFields[1..];
      if f.fieldId in FieldIds(clone.fields) then rest
      else
        FieldIdsCons(InheritField(clone, f), rest);
        [InheritField(clone, f)] + rest
  }

  /** Reading an inherited list: ids the clone has are absent, others read as the source's field, re-owned. */
  lemma {:induction false} InheritedFieldsLookup(clone: ItemVariant, sourceFields: seq<FieldData>, fieldId: Guid)
    ensures FieldLookup(InheritedFields(clone, sourceFields), fieldId)
         == if fieldId in FieldIds(clone.fields) then None
            else match FieldLookup(sourceFields, fieldId)
              case None => None
              case Some(f) => Some(InheritField(clone, f))
  {
    if sourceFields != [] {
      InheritedFieldsLookup(clone, sourceFields[1..], fieldId);
    }
  }

  /** The merged field list: the clone's non-marker fields, then the inherited source fields. */
  function MergeFields(clone: ItemVariant, source: ItemVariant): (r: seq<FieldData>)
    ensures var kept := StripCloneFields(clone.fields);
      |kept| <= |r| && r[..|kept|] == kept
      && forall i :: |kept| <= i < |r| ==> r[i].ownerId == clone.id && r[i].fieldId !in FieldIds(clone.fields)
    ensures FieldIds(r) == (FieldIds(clone.fields) - {SourceItemFieldId, SourceVariantFieldId})
                         + (FieldIds(source.fields) - FieldIds(clone.fields))
    ensures forall f :: f in clone.fields && !IsCloneMarker(f.fieldId) ==> f in r
    ensures forall f :: f in r && IsCloneMarker(f.fieldId) ==> f.fieldId !in FieldIds(clone.fields)
  {
    var kept := StripCloneFields(clone.fields);
    var inherited := InheritedFields(clone, source.fields);
    FieldIdsConcat(kept, inherited);
    assert forall i :: 0 <= i < |inherited| ==> inherited[i] in inherited;
    kept + inherited
  }

  /**
   * Field precedence: for every field id, the merged variant reads the clone's
   * own field when the clone has that id (nothing, for a marker id), and the
   * source's field, re-owned and re-scoped, only when the clone lacks the id.
   */
  lemma MergeFieldsLookup(clone: ItemVariant, source: ItemVariant, fieldId: Guid)
    ensures FieldLookup(MergeFields(clone, source), fieldId)
         == if fieldId in FieldIds(clone.fields) then
              (if IsCloneMarker(fieldId) then None else FieldLookup(clone.fields, fieldId))
            else match FieldLookup(source.fields, fieldId)
              case None => None
              case Some(f) => Some(InheritField(clone, f))
  {
    var kept := StripCloneFields(clone.fields);
    var inherited := InheritedFields(clone, source.fields);
    assert MergeFields(clone, source) == kept + inherited;
    FieldLookupConcat(kept, inherited, fieldId);
    StripCloneFieldsLookup(clone.fields, fieldId);
    InheritedFieldsLookup(clone, source.fields, fieldId);
  }

  /**
   * A clone-marker id survives the merge exactly when the clone lacks it and the
   * source has it: the clone's own marker fields never reach the output.
   */
  lemma MergeFieldsMarkers(clone: ItemVariant, source: ItemVariant, fieldId: Guid)
    requires IsCloneMarker(fieldId)
    ensures fieldId in FieldIds(MergeFields(clone, source))
        <==> fieldId !in FieldIds(clone.fields) && fieldId in FieldIds(source.fields)
  {
  }

  /* ---------------------------------------------------------------------
   * Relationship merge (MergeCloneAndSourceVariants, links part)
   * --------------------------------------------------------------------- */

  /**
   * The filter on the clone's own relationships, with C#'s precedence (&& binds
   * tighter than ||): (Type != TemplatedBy && clone has no fields)
   * || SourceFieldId == null || some clone field has FieldId == SourceFieldId.
   */
  predicate KeepCloneRelationship(clone: ItemVariant, rel: ItemRelationship): (keep: bool)
    ensures |clone.fields| == 0 ==> (keep <==> rel.relType != TemplatedBy || rel.sourceFieldId.None?)
    ensures |clone.fields| > 0 ==>
      (keep <==> rel.sourceFieldId.None? || rel.sourceFieldId.value in FieldIds(clone.fields))
  {
    (rel.relType != TemplatedBy && |clone.fields| == 0)
    || rel.sourceFieldId.None?
    || exists c :: c in clone.fields && Some(c.fieldId) == rel.sourceFieldId
  }

  /** The clone's relationships that pass the filter, unchanged and in order. */
  function KeptCloneRelationships(clone: ItemVariant, rels: seq<ItemRelationship>): (r: seq<ItemRelationship>)
    ensures forall x :: x in r <==> x in rels && KeepCloneRelationship(clone, x)
  {
    Filter(x => KeepCloneRelationship(clone, x), rels)
  }

  /**
   * A source relationship copied onto the clone: a fresh id, the source end
   * re-rooted onto the clone when it was the source variant, all else kept.
   */
  function DeriveRelationship(clone: ItemVariant, source: ItemVariant, rel: ItemRelationship, newId: Guid): (d: ItemRelationship)
    ensures d.id == newId
    ensures d.sourceId == (if rel.sourceId == source.id then clone.id else rel.sourceId)
    ensures d.sourceId != source.id || source.id == clone.id
    ensures d.targetId == rel.targetId && d.relType == rel.relType
    ensures d.sourceVariance == rel.sourceVariance && d.targetVariance == rel.targetVariance
    ensures d.targetPath == rel.targetPath && d.sourceFieldId == rel.sourceFieldId
  {
    ItemRelationship(
      newId,
      if rel.sourceId == source.id then clone.id else rel.sourceId,
      rel.targetId, rel.relType, rel.sourceVariance, rel.targetVariance, rel.targetPath, rel.sourceFieldId)
  }

  /** All source relationships, derived in order; the j-th gets the j-th new id. */
  function DerivedRelationships(clone: ItemVariant, source: ItemVariant, rels: seq<ItemRelationship>, newIds: nat -> Guid)
    : (r: seq<ItemRelationship>)
    ensures |r| == |rels|
    ensures forall j :: 0 <= j < |rels| ==> r[j] == DeriveRelationship(clone, source, rels[j], newIds(j))
    ensures (forall x :: x in rels ==> x.sourceId == source.id) ==> forall d :: d in r ==> d.sourceId == clone.id
  {
    seq(|rels|, j requires 0 <= j < |rels| => DeriveRelationship(clone, source, rels[j], newIds(j)))
  }

  /** When the id supply never repeats, the derived relationships have pairwise distinct ids. */
  lemma DerivedIdsDistinct(clone: ItemVariant, source: ItemVariant, rels: seq<ItemRelationship>, newIds: nat -> Guid)
    requires forall i: nat, j: nat :: i < j < |rels| ==> newIds(i) != newIds(j)
    ensures var r := DerivedRelationships(clone, source, rels, newIds);
      forall i, j :: 0 <= i < j < |r| ==> r[i].id != r[j].id
  {
  }

  /** Relationship identity for the merge: (SourceId, SourceFieldId, Type). */
  datatype LinkKey = LinkKey(sourceId: Guid, sourceFieldId: Option<Guid>, relType: RelationshipType)

  function KeyOfLink(rel: ItemRelationship): LinkKey
  {
    LinkKey(rel.sourceId, rel.sourceFieldId, rel.relType)
  }

  ghost function LinkKeys(rels: seq<ItemRelationship>): set<LinkKey>
  {
    Keys(KeyOfLink, rels)
  }

  /** `linksFromClone.Any(s => same SourceId, SourceFieldId and Type as x)`. */
  predicate SharesLinkKey(kept: seq<ItemRelationship>, x: ItemRelationship)
  {
    exists s :: s in kept && KeyOfLink(s) == KeyOfLink(x)
  }

  /** The derived source relationships whose key no kept clone relationship has, in order. */
  function AddedSourceRelationships(kept: seq<ItemRelationship>, derived: seq<ItemRelationship>): (r: seq<ItemRelationship>)
    ensures forall x :: x in r <==> x in derived && KeyOfLink(x) !in LinkKeys(kept)
  {
    var r := Filter(x => !SharesLinkKey(kept, x), derived);
    assert forall x :: SharesLinkKey(kept, x) <==> KeyOfLink(x) in LinkKeys(kept);
    r
  }

  /**
   * The merged relationship list: the kept clone relationships, then the added
   * source relationships. The added ones share no key with the kept ones, and
   * together they carry every key of either side (the clone's wins).
   */
  function MergeRelationships(clone: ItemVariant, cloneRels: seq<ItemRelationship>,
                              source: ItemVariant, sourceRels: seq<ItemRelationship>, newIds: nat -> Guid)
    : (r: seq<ItemRelationship>)
    ensures var kept := KeptCloneRelationships(clone, cloneRels);
      |kept| <= |r| && r[..|kept|] == kept
      && LinkKeys(r[|kept|..]) !! LinkKeys(kept)
      && LinkKeys(r) == LinkKeys(kept) + LinkKeys(DerivedRelationships(clone, source, sourceRels, newIds))
    ensures var kept := KeptCloneRelationships(clone, cloneRels);
      var derived := DerivedRelationships(clone, source, sourceRels, newIds);
      |kept| <= |r|
      && forall x :: x in r[|kept|..] <==> x in derived && KeyOfLink(x) !in LinkKeys(kept)
  {
    var kept := KeptCloneRelationships(clone, cloneRels);
    var derived := DerivedRelationships(clone, source, sourceRels, newIds);
    var added := AddedSourceRelationships(kept, derived);
    assert (kept + added)[|kept|..] == added;
    KeysConcat(KeyOfLink, kept, added);
    assert LinkKeys(kept) + LinkKeys(added) == LinkKeys(kept) + LinkKeys(derived) by {
      forall k | k in LinkKeys(derived) && k !in LinkKeys(kept) ensures k in LinkKeys(added) {
        var x :| x in derived && KeyOfLink(x) == k;
        assert x in added;
      }
    }
    kept + added
  }

  /**
   * The added part is order-preserving: adding over a concatenation of derived
   * relationships adds from each part in turn, so source duplicates stay and
   * keep their order.
   */
  lemma AddedSourceRelationshipsConcat(kept: seq<ItemRelationship>, a: seq<ItemRelationship>, b: seq<ItemRelationship>)
    ensures AddedSourceRelationships(kept, a + b)
         == AddedSourceRelationships(kept, a) + AddedSourceRelationships(kept, b)
  {
    FilterConcat(x => !SharesLinkKey(kept, x), a, b);
  }

  /** A source relationship whose key a kept clone relationship has is not added; the clone's stays. */
  lemma CloneRelationshipWins(clone: ItemVariant, cloneRels: seq<ItemRelationship>,
                              source: ItemVariant, sourceRels: seq<ItemRelationship>, newIds: nat -> Guid,
                              c: ItemRelationship, j: nat)
    requires c in cloneRels && KeepCloneRelationship(clone, c)
    requires j < |sourceRels|
    requires KeyOfLink(DeriveRelationship(clone, source, sourceRels[j], newIds(j))) == KeyOfLink(c)
    ensures var r := MergeRelationships(clone, cloneRels, source, sourceRels, newIds);
      var kept := KeptCloneRelationships(clone, cloneRels);
      c in r[..|kept|] && KeyOfLink(c) !in LinkKeys(r[|kept|..])
  {
    var kept := KeptCloneRelationships(clone, cloneRels);
    assert c in kept;
  }

  /**
   * No relationship kind is excluded for being a clone link: a CloneOf or
   * CloneVersionOf relationship of the clone passes the filter like any other
   * whenever its source field is one of the clone's fields.
   */
  lemma CloneLinksNotExcluded(clone: ItemVariant, rel: ItemRelationship)
    requires rel.relType == CloneOf || rel.relType == CloneVersionOf
    requires rel.sourceFieldId.Some? && rel.sourceFieldId.value in FieldIds(clone.fields)
    ensures KeepCloneRelationship(clone, rel)
  {
  }

  /**
   * The template link: a TemplatedBy relationship of the clone that has no
   * source field is kept, so a TemplatedBy relationship of the source with no
   * source field, rooted at the source, is re-rooted onto the clone, collides
   * with it and is not added. The clone's template link is the one written.
   */
  lemma TemplateLinkFromClone(clone: ItemVariant, cloneRels: seq<ItemRelationship>,
                              source: ItemVariant, sourceRels: seq<ItemRelationship>, newIds: nat -> Guid,
                              c: ItemRelationship, j: nat)
    requires c in cloneRels && c.relType == TemplatedBy && c.sourceFieldId.None? && c.sourceId == clone.id
    requires j < |sourceRels|
    requires sourceRels[j].relType == TemplatedBy && sourceRels[j].sourceFieldId.None?
    requires sourceRels[j].sourceId == source.id
    ensures var r := MergeRelationships(clone, cloneRels, source, sourceRels, newIds);
      var kept := KeptCloneRelationships(clone, cloneRels);
      c in r[..|kept|] && LinkKey(clone.id, None, TemplatedBy) !in LinkKeys(r[|kept|..])
  {
    CloneRelationshipWins(clone, cloneRels, source, sourceRels, newIds, c, j);
  }

  /** Duplicates among the source relationships are not removed when no kept key collides. */
  lemma SourceDuplicatesKept(clone: ItemVariant, cloneRels: seq<ItemRelationship>,
                             source: ItemVariant, sourceRels: seq<ItemRelationship>, newIds: nat -> Guid)
    requires var kept := KeptCloneRelationships(clone, cloneRels);
      forall x :: x in DerivedRelationships(clone, source, sourceRels, newIds) ==> KeyOfLink(x) !in LinkKeys(kept)
    ensures var kept := KeptCloneRelationships(clone, cloneRels);
      MergeRelationships(clone, cloneRels, source, sourceRels, newIds)
        == kept + DerivedRelationships(clone, source, sourceRels, newIds)
  {
    var kept := KeptCloneRelationships(clone, cloneRels);
    var derived := DerivedRelationships(clone, source, sourceRels, newIds);
    assert forall x :: x in derived ==> !SharesLinkKey(kept, x);
    FilterKeepsAll(x => !SharesLinkKey(kept, x), derived);
  }

  /* ---------------------------------------------------------------------
   * MergeCloneAndSourceVariants
   * --------------------------------------------------------------------- */

  /** The merged variant and its merged outgoing relationships. */
  datatype Declone = Declone(variant: ItemVariant, relationships: seq<ItemRelationship>)

  /**
   * Merges a clone with its source: the clone's identity, revision and
   * properties, the merged fields and the merged relationships.
   */
  function MergeCloneAndSourceVariants(clone: ItemVariant, cloneRels: seq<ItemRelationship>,
                                       source: ItemVariant, sourceRels: seq<ItemRelationship>, newIds: nat -> Guid)
    : (r: Declone)
    ensures r.variant.Key() == clone.Key() && r.variant.revision == clone.revision
    ensures r.variant.properties == clone.properties
    ensures r.variant.fields == MergeFields(clone, source)
    ensures r.relationships == MergeRelationships(clone, cloneRels, source, sourceRels, newIds)
  {
    Declone(
      ItemVariant(clone.id, clone.language, clone.version, clone.revision, clone.properties, MergeFields(clone, source)),
      MergeRelationships(clone, cloneRels, source, sourceRels, newIds))
  }

  /**
   * Merging with a source that has no fields and no relationships strips the
   * markers but still filters the clone's relationships, unlike the
   * missing-source fallback of DecloneEntry, which passes them through.
   */
  lemma MergeWithEmptySource(clone: ItemVariant, cloneRels: seq<ItemRelationship>, source: ItemVariant, newIds: nat -> Guid)
    requires source.fields == []
    ensures var r := MergeCloneAndSourceVariants(clone, cloneRels, source, [], newIds);
      r.variant.fields == StripCloneFields(clone.fields)
      && r.relationships == KeptCloneRelationships(clone, cloneRels)
  {
    var r := MergeCloneAndSourceVariants(clone, cloneRels, source, [], newIds);
    assert InheritedFields(clone, source.fields) == [];
    var kept := KeptCloneRelationships(clone, cloneRels);
    assert AddedSourceRelationships(kept, DerivedRelationships(clone, source, [], newIds)) == [];
  }

  /* ---------------------------------------------------------------------
   * DecloneVariants: per-locator assembly
   * --------------------------------------------------------------------- */

  /**
   * The clone-source locators to fetch: every clone's source reference, nulls
   * dropped, de-duplicated under the (id, language, version) comparer.
   */
  function CloneSourceLocators(clones: seq<ItemVariant>, sourceOf: ItemVariant -> Option<VariantLocator>)
    : (r: seq<VariantLocator>)
    ensures forall i, j :: 0 <= i < j < |r| ==> r[i].Key() != r[j].Key()
    ensures forall l :: l in r ==> exists c :: c in clones && sourceOf(c) == Some(l)
    ensures forall c :: c in clones && sourceOf(c).Some? ==> exists l :: l in r && l.Key() == sourceOf(c).value.Key()
  {
    var refs := Map(sourceOf, clones);
    var present := Somes(refs);
    var r := DistinctBy((l: VariantLocator) => l.Key(), present, {});
    assert forall l :: l in present ==> exists c :: c in clones && sourceOf(c) == Some(l) by {
      forall l | l in present ensures exists c :: c in clones && sourceOf(c) == Some(l) {
        var i :| 0 <= i < |refs| && refs[i] == Some(l);
        assert clones[i] in clones;
      }
    }
    assert forall c :: c in clones && sourceOf(c).Some? ==> sourceOf(c).value.Key() in Keys((l: VariantLocator) => l.Key(), r) by {
      forall c | c in clones && sourceOf(c).Some? ensures sourceOf(c).value.Key() in Keys((l: VariantLocator) => l.Key(), r) {
        var i :| 0 <= i < |clones| && clones[i] == c;
        assert refs[i] == sourceOf(c);
        assert sourceOf(c).value in present;
      }
    }
    r
  }

  /** Why the declone of a batch throws. */
  datatype Error = DuplicateKey(key: VariantKey)

  /**
   * `ToDictionary(x => x, comparer)` over the fetched source variants, adding
   * them in order to `acc`: fails on the first variant whose key is already present.
   */
  function IndexByKey(variants: seq<ItemVariant>, acc: map<VariantKey, ItemVariant>)
    : Result<map<VariantKey, ItemVariant>, Error>
  {
    if variants == [] then Success(acc)
    else if variants[0].Key() in acc then Failure(DuplicateKey(variants[0].Key()))
    else IndexByKey(variants[1..], acc[variants[0].Key() := variants[0]])
  }

  /** The keys of the fetched variants. */
  ghost function VariantKeys(variants: seq<ItemVariant>): set<VariantKey>
  {
    set v | v in variants :: v.Key()
  }

  ghost predicate DistinctKeys(variants: seq<ItemVariant>, acc: map<VariantKey, ItemVariant>)
  {
    && (forall i, j :: 0 <= i < j < |variants| ==> variants[i].Key() != variants[j].Key())
    && (forall i :: 0 <= i < |variants| ==> variants[i].Key() !in acc)
  }

  /**
   * The dictionary is built exactly when no two variants (nor a variant and an
   * entry of `acc`) share a key; it then holds `acc` and every variant under its
   * own key. Otherwise the error names the key of one of the variants.
   */
  lemma {:induction false} IndexByKeySpec(variants: seq<ItemVariant>, acc: map<VariantKey, ItemVariant>)
    ensures var r := IndexByKey(variants, acc);
      && (r.Success? <==> DistinctKeys(variants, acc))
      && (r.Success? ==>
            r.value.Keys == acc.Keys + VariantKeys(variants)
            && (forall k :: k in acc ==> r.value[k] == acc[k])
            && (forall i :: 0 <= i < |variants| ==> variants[i].Key() in r.value && r.value[variants[i].Key()] == variants[i]))
      && (r.Failure? ==> exists i :: 0 <= i < |variants| && r.error == DuplicateKey(variants[i].Key()))
  {
    if variants != [] {
      var v := variants[0];
      var tail := variants[1..];
      if v.Key() !in acc {
        var acc' := acc[v.Key() := v];
        IndexByKeySpec(tail, acc');
        DistinctKeysStep(variants, acc);
        VariantKeysCons(variants);
        var r := IndexByKey(tail, acc');
        if r.Success? {
          forall i | 0 <= i < |variants|
            ensures variants[i].Key() in r.value && r.value[variants[i].Key()] == variants[i]
          {
            if i > 0 {
              assert variants[i] == tail[i - 1];
            }
          }
        } else {
          var i :| 0 <= i < |tail| && r.error == DuplicateKey(tail[i].Key());
          assert tail[i] == variants[i + 1];
        }
      }
    }
  }

  lemma VariantKeysCons(variants: seq<ItemVariant>)
    requires variants != []
    ensures VariantKeys(variants) == {variants[0].Key()} + VariantKeys(variants[1..])
  {
    forall k | k in VariantKeys(variants) ensures k in {variants[0].Key()} + VariantKeys(variants[1..]) {
      var v :| v in variants && v.Key() == k;
      var i :| 0 <= i < |variants| && variants[i] == v;
      if i > 0 {
        assert variants[1..][i - 1] == v;
      }
    }
  }

  /** Adding the first variant to the accumulator leaves the distinctness condition unchanged. */
  lemma DistinctKeysStep(variants: seq<ItemVariant>, acc: map<VariantKey, ItemVariant>)
    requires variants != [] && variants[0].Key() !in acc
    ensures DistinctKeys(variants, acc) <==> DistinctKeys(variants[1..], acc[variants[0].Key() := variants[0]])
  {
    var v, tail := variants[0], variants[1..];
    var acc' := acc[v.Key() := v];
    if DistinctKeys(tail, acc') {
      forall i, j | 0 <= i < j < |variants| ensures variants[i].Key() != variants[j].Key() {
        assert variants[j] == tail[j - 1];
        if i > 0 {
          assert variants[i] == tail[i - 1];
        }
      }
      forall i | 0 <= i < |variants| ensures variants[i].Key() !in acc {
        if i > 0 {
          assert variants[i] == tail[i - 1];
        }
      }
    }
    if DistinctKeys(variants, acc) {
      forall i, j | 0 <= i < j < |tail| ensures tail[i].Key() != tail[j].Key() {
        assert tail[i] == variants[i + 1] && tail[j] == variants[j + 1];
      }
      forall i | 0 <= i < |tail| ensures tail[i].Key() !in acc' {
        assert tail[i] == variants[i + 1];
      }
    }
  }

  /** `TryGetValue` with an empty default: a missing relationship entry reads as no relationships. */
  function RelationshipsOrEmpty(rels: map<VariantKey, seq<ItemRelationship>>, key: VariantKey): (r: seq<ItemRelationship>)
    ensures key !in rels ==> r == []
    ensures key in rels ==> r == rels[key]
  {
    if key in rels then rels[key] else []
  }

  /**
   * One clone of the batch: merged with its source when the clone has a source
   * reference and the source was fetched; otherwise the clone without marker
   * fields, with its own relationships unfiltered.
   */
  function DecloneEntry(clone: ItemVariant, sourceRef: Option<VariantLocator>,
                        cloneRels: map<VariantKey, seq<ItemRelationship>>,
                        sourceVariants: map<VariantKey, ItemVariant>,
                        sourceRels: map<VariantKey, seq<ItemRelationship>>,
                        newIds: nat -> Guid)
    : (r: Declone)
    ensures r.variant.Key() == clone.Key() && r.variant.revision == clone.revision
    ensures r.variant.properties == clone.properties
    ensures forall f :: f in r.variant.fields && IsCloneMarker(f.fieldId) ==> f.fieldId !in FieldIds(clone.fields)
    ensures forall f :: f in clone.fields && !IsCloneMarker(f.fieldId) ==> f in r.variant.fields
    ensures sourceRef.None? || sourceRef.value.Key() !in sourceVariants ==>
      r.variant.fields == StripCloneFields(clone.fields)
      && r.relationships == RelationshipsOrEmpty(cloneRels, clone.Key())
    ensures sourceRef.Some? && sourceRef.value.Key() in sourceVariants ==>
      r == MergeCloneAndSourceVariants(clone, RelationshipsOrEmpty(cloneRels, clone.Key()),
                                       sourceVariants[sourceRef.value.Key()],
                                       RelationshipsOrEmpty(sourceRels, sourceRef.value.Key()), newIds)
  {
    var rels := RelationshipsOrEmpty(cloneRels, clone.Key());
    if sourceRef.Some? && sourceRef.value.Key() in sourceVariants then
      var source := sourceVariants[sourceRef.value.Key()];
      var r := MergeCloneAndSourceVariants(clone, rels, source, RelationshipsOrEmpty(sourceRels, sourceRef.value.Key()), newIds);
      r
    else
      Declone(ItemVariant(clone.id, clone.language, clone.version, clone.revision, clone.properties,
                          StripCloneFields(clone.fields)),
              rels)
  }

  /**
   * DecloneVariants after its repository calls: the fetched clones, the clone
   * relationships, the fetched source variants and their relationships. Throws
   * when two fetched source variants share a key; otherwise declones every
   * clone, in order, clone i drawing its new relationship ids from newIds(i, _).
   */
  function DecloneVariants(clones: seq<ItemVariant>, sourceOf: ItemVariant -> Option<VariantLocator>,
                           cloneRels: map<VariantKey, seq<ItemRelationship>>,
                           fetchedSources: seq<ItemVariant>,
                           sourceRels: map<VariantKey, seq<ItemRelationship>>,
                           newIds: (nat, nat) -> Guid)
    : (r: Result<seq<Declone>, Error>)
    ensures r.Failure? <==> exists i, j :: 0 <= i < j < |fetchedSources| && fetchedSources[i].Key() == fetchedSources[j].Key()
    ensures r.Success? ==>
      var index := IndexByKey(fetchedSources, map[]);
      |r.value| == |clones| && index.Success?
      && forall i :: 0 <= i < |clones| ==>
        r.value[i].variant.Key() == clones[i].Key()
        && r.value[i] == DecloneEntry(clones[i], sourceOf(clones[i]), cloneRels,
                                      index.value, sourceRels, (j: nat) => newIds(i, j))
  {
    IndexByKeySpec(fetchedSources, map[]);
    match IndexByKey(fetchedSources, map[])
    case Failure(e) => Failure(e)
    case Success(sourceVariants) =>
      Success(seq(|clones|, i requires 0 <= i < |clones| =>
        DecloneEntry(clones[i], sourceOf(clones[i]), cloneRels, sourceVariants, sourceRels, (j: nat) => newIds(i, j))))
  }

  /**
   * Why the clone-source locators are de-duplicated: when the repository returns
   * at most one variant per requested locator (each fetched source has the key of
   * a different entry of CloneSourceLocators), the dictionary at line 109 cannot
   * throw, and every clone of the batch is decloned.
   */
  lemma {:induction false} DistinctLocatorsIndexable(clones: seq<ItemVariant>, sourceOf: ItemVariant -> Option<VariantLocator>,
                                                     cloneRels: map<VariantKey, seq<ItemRelationship>>,
                                                     fetchedSources: seq<ItemVariant>,
                                                     sourceRels: map<VariantKey, seq<ItemRelationship>>,
                                                     newIds: (nat, nat) -> Guid,
                                                     requested: seq<nat>)
    requires |requested| == |fetchedSources|
    requires forall i :: 0 <= i < |requested| ==> requested[i] < |CloneSourceLocators(clones, sourceOf)|
    requires forall i, j :: 0 <= i < j < |requested| ==> requested[i] != requested[j]
    requires forall i :: 0 <= i < |requested| ==>
      fetchedSources[i].Key() == CloneSourceLocators(clones, sourceOf)[requested[i]].Key()
    ensures DecloneVariants(clones, sourceOf, cloneRels, fetchedSources, sourceRels, newIds).Success?
  {
    var locators := CloneSourceLocators(clones, sourceOf);
    forall i, j | 0 <= i < j < |fetchedSources| ensures fetchedSources[i].Key() != fetchedSources[j].Key() {
      if requested[i] < requested[j] {
        assert locators[requested[i]].Key() != locators[requested[j]].Key();
      } else {
        assert locators[requested[j]].Key() != locators[requested[i]].Key();
      }
    }
  }
}
