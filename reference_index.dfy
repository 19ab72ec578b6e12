/** app/importer/creatures.py, lines 45-55: one slug-to-entity dictionary
    per reference category. */
module ReferenceIndex {
  import opened Results
  import opened CreatureData

  /** `{e.slug: e for e in entities}`: a later entity with the same slug
      replaces an earlier one. */
  function IndexBySlug(entities: seq<RefEntity>): map<string, RefEntity>
    decreases |entities|
  {
    if entities == [] then map[]
    else
      var last := entities[|entities| - 1];
      IndexBySlug(entities[..|entities| - 1])[last.slug := last]
  }

  /** The index holds a key for every entity's slug and nothing else, and
      under each key an entity carrying that slug. */
  lemma {:induction false} IndexBySlugContents(entities: seq<RefEntity>)
    ensures forall i :: 0 <= i < |entities| ==> entities[i].slug in IndexBySlug(entities)
    ensures forall k :: k in IndexBySlug(entities) ==>
              IndexBySlug(entities)[k] in entities && IndexBySlug(entities)[k].slug == k
    decreases |entities|
  {
    if entities != [] {
      var n := |entities| - 1;
      var init := entities[..n];
      IndexBySlugContents(init);
      var index := IndexBySlug(entities);
      assert index == IndexBySlug(init)[entities[n].slug := entities[n]];
      forall i | 0 <= i < |entities| ensures entities[i].slug in index {
        if i < n {
          assert init[i] == entities[i];
        }
      }
      forall k | k in index ensures index[k] in entities && index[k].slug == k {
        if k != entities[n].slug {
          assert index[k] == IndexBySlug(init)[k];
          assert IndexBySlug(init)[k] in init;
        }
      }
    }
  }

  /** The entity under a slug carries that slug and is one of the entities. */
  lemma IndexedEntity(entities: seq<RefEntity>, slug: string)
    requires slug in IndexBySlug(entities)
    ensures IndexBySlug(entities)[slug] in entities && IndexBySlug(entities)[slug].slug == slug
  {
    IndexBySlugContents(entities);
  }

  /** The entity under a slug is the last one carrying that slug. */
  lemma {:induction false} IndexBySlugLastWins(entities: seq<RefEntity>, i: nat)
    requires i < |entities|
    requires forall j :: i < j < |entities| ==> entities[j].slug != entities[i].slug
    ensures entities[i].slug in IndexBySlug(entities)
    ensures IndexBySlug(entities)[entities[i].slug] == entities[i]
    decreases |entities|
  {
    var n := |entities| - 1;
    var init := entities[..n];
    assert IndexBySlug(entities) == IndexBySlug(init)[entities[n].slug := entities[n]];
    if i < n {
      assert init[i] == entities[i];
      assert forall j :: i < j < n ==> init[j] == entities[j];
      IndexBySlugLastWins(init, i);
      assert entities[n].slug != entities[i].slug;
    }
  }

  /** `entities[i]` is the last entity carrying `slug`. */
  predicate LastWithSlug(entities: seq<RefEntity>, slug: string, i: int)
  {
    && 0 <= i < |entities|
    && entities[i].slug == slug
    && forall j :: i < j < |entities| ==> entities[j].slug != slug
  }

  /** The entity under an indexed slug is the last one carrying it. */
  lemma {:induction false} IndexBySlugLast(entities: seq<RefEntity>, slug: string)
    requires slug in IndexBySlug(entities)
    ensures exists i :: LastWithSlug(entities, slug, i) && IndexBySlug(entities)[slug] == entities[i]
    decreases |entities|
  {
    var n := |entities| - 1;
    var init := entities[..n];
    assert IndexBySlug(entities) == IndexBySlug(init)[entities[n].slug := entities[n]];
    if entities[n].slug == slug {
      assert LastWithSlug(entities, slug, n);
    } else {
      IndexBySlugLast(init, slug);
      var i :| LastWithSlug(init, slug, i) && IndexBySlug(init)[slug] == init[i];
      assert init[i] == entities[i];
      assert forall j :: i < j < n ==> init[j] == entities[j];
      assert LastWithSlug(entities, slug, i);
    }
  }

  /** Looking a slug up in a category's index succeeds exactly when some
      stored entity has that slug, and then yields the id of the last such
      entity; otherwise it reports that slug as unknown. */
  lemma ResolveIndexed(entities: seq<RefEntity>, kind: RefKind, slug: string)
    ensures var r := Resolve(IndexBySlug(entities), kind, slug);
            && (r.Success? <==> exists e :: e in entities && e.slug == slug)
            && (r.Success? ==> exists i :: LastWithSlug(entities, slug, i) && r.value == entities[i].id)
            && (r.Failure? ==> r.error == UnknownReference(kind, slug))
  {
    IndexBySlugContents(entities);
    if slug in IndexBySlug(entities) {
      IndexBySlugLast(entities, slug);
    } else {
      forall e | e in entities ensures e.slug != slug {
        var i :| 0 <= i < |entities| && entities[i] == e;
      }
    }
  }

  /** The stored rows of the four reference tables. */
  datatype References = References(
    klasses: seq<RefEntity>, races: seq<RefEntity>, sources: seq<RefEntity>, traits: seq<RefEntity>)

  datatype Indexes = Indexes(
    klasses: map<string, RefEntity>, races: map<string, RefEntity>,
    sources: map<string, RefEntity>, traits: map<string, RefEntity>)

  function BuildIndexes(refs: References): Indexes
  {
    Indexes(IndexBySlug(refs.klasses), IndexBySlug(refs.races),
            IndexBySlug(refs.sources), IndexBySlug(refs.traits))
  }

  /** `index[slug].id`, or the `KeyError` a missing slug raises. */
  function Resolve(index: map<string, RefEntity>, kind: RefKind, slug: string): Result<Id, ImportError>
  {
    if slug in index then Success(index[slug].id) else Failure(UnknownReference(kind, slug))
  }
}
