/**
 * What the item and property term stores promise their callers, stated as
 * sequences of calls on the stores: the round trip, replacement, isolation
 * between entities and between the two kinds, deletion, the empty result for
 * an unknown entity, the single error of a failing connection, and the
 * sharing of text rows between entities.
 */
module Scenarios {
  import opened Wrappers
  import opened Terms
  import opened Pools
  import opened Database
  import opened EntityTermStores

  /** storeTerms then getTerms gives back the stored fingerprint, whatever the entity held before. */
  method StoreThenGet(store: EntityTermStore, entityId: nat, terms: Fingerprint)
    returns (r: Result<Fingerprint, StoreError>)
    requires store.Valid() && !store.db.broken && WellFormed(terms)
    modifies store.db
    ensures store.Valid()
    ensures r == Success(terms)
  {
    var _ := store.StoreTerms(entityId, terms);
    r := store.GetTerms(entityId);
    FingerprintRoundTrip(store.db.TermRecords(store.kind, entityId), terms);
  }

  /** Storing a second fingerprint for an entity replaces the first; nothing of it is merged in. */
  method Replace(store: EntityTermStore, entityId: nat, first: Fingerprint, second: Fingerprint)
    returns (r: Result<Fingerprint, StoreError>)
    requires store.Valid() && !store.db.broken && WellFormed(second)
    modifies store.db
    ensures r == Success(second)
  {
    var _ := store.StoreTerms(entityId, first);
    r := StoreThenGet(store, entityId, second);
  }

  /** Storing terms for another entity does not change what getTerms returns for this one. */
  method StoreOther(store: EntityTermStore, entityId: nat, terms: Fingerprint,
                    otherId: nat, otherTerms: Fingerprint)
    returns (r: Result<Fingerprint, StoreError>)
    requires store.Valid() && !store.db.broken && WellFormed(terms) && otherId != entityId
    modifies store.db
    ensures r == Success(terms)
  {
    var _ := store.StoreTerms(entityId, terms);
    FingerprintRoundTrip(store.db.TermRecords(store.kind, entityId), terms);
    var _ := store.StoreTerms(otherId, otherTerms);
    r := store.GetTerms(entityId);
  }

  /**
   * The item store and the property store share the text tables but not
   * their link tables: an item and a property with the same numeric id keep
   * their own terms.
   */
  method ItemAndProperty(items: EntityTermStore, properties: EntityTermStore, id: nat,
                         itemTerms: Fingerprint, propertyTerms: Fingerprint)
    returns (r: Result<Fingerprint, StoreError>)
    requires items.db == properties.db && items.kind == Item && properties.kind == Property
    requires items.Valid() && properties.Valid() && !items.db.broken && WellFormed(itemTerms)
    modifies items.db
    ensures r == Success(itemTerms)
  {
    var _ := items.StoreTerms(id, itemTerms);
    FingerprintRoundTrip(items.db.TermRecords(Item, id), itemTerms);
    var _ := properties.StoreTerms(id, propertyTerms);
    r := items.GetTerms(id);
  }

  /** After deleteTerms the entity has no terms: getTerms gives the empty fingerprint. */
  method StoreThenDelete(store: EntityTermStore, entityId: nat, terms: Fingerprint)
    returns (r: Result<Fingerprint, StoreError>)
    requires store.Valid() && !store.db.broken
    modifies store.db
    ensures r == Success(EmptyFingerprint)
  {
    var _ := store.StoreTerms(entityId, terms);
    var _ := store.DeleteTerms(entityId);
    r := store.GetTerms(entityId);
  }

  /** deleteTerms for another entity leaves this entity's terms alone. */
  method DeleteOther(store: EntityTermStore, entityId: nat, terms: Fingerprint, otherId: nat)
    returns (r: Result<Fingerprint, StoreError>)
    requires store.Valid() && !store.db.broken && WellFormed(terms) && otherId != entityId
    modifies store.db
    ensures r == Success(terms)
  {
    var _ := store.StoreTerms(entityId, terms);
    FingerprintRoundTrip(store.db.TermRecords(store.kind, entityId), terms);
    var _ := store.DeleteTerms(otherId);
    r := store.GetTerms(entityId);
  }

  /** On an empty database every entity is unknown and getTerms gives the empty fingerprint. */
  method UnknownEntity(kind: EntityKind, entityId: nat) returns (r: Result<Fingerprint, StoreError>)
    ensures r == Success(EmptyFingerprint)
  {
    var db := new TermDatabase(false);
    var store := new EntityTermStore(db, kind);
    r := store.GetTerms(entityId);
  }

  /** On a connection that fails every call, each operation ends in the one store error. */
  method FailingConnection(kind: EntityKind, entityId: nat, terms: Fingerprint)
    returns (stored: Outcome<StoreError>, deleted: Outcome<StoreError>, read: Result<Fingerprint, StoreError>)
    ensures stored == Fail(TermStoreException) && deleted == Fail(TermStoreException)
    ensures read == Failure(TermStoreException)
  {
    var db := new TermDatabase(true);
    var store := new EntityTermStore(db, kind);
    stored := store.StoreTerms(entityId, terms);
    deleted := store.DeleteTerms(entityId);
    read := store.GetTerms(entityId);
  }

  /**
   * Two entities of one kind with the same single label share its rows:
   * after storing it for both, each of the three shared tables holds one
   * row, and the second entity reads the label back.
   */
  method SharedRows(kind: EntityKind, language: string, text: string)
    returns (texts: nat, textInLangs: nat, termInLangs: nat, r: Result<Fingerprint, StoreError>)
    ensures texts == 1 && textInLangs == 1 && termInLangs == 1
    ensures r == Success(Fingerprint(map[language := text], map[], map[]))
  {
    var terms := Fingerprint(map[language := text], map[], map[]);
    var rec := TermRecord(text, language, TYPE_LABEL);
    var db := new TermDatabase(false);
    var store := new EntityTermStore(db, kind);

    var _ := store.StoreTerms(1, terms);
    ghost var p1 := db.PoolState();
    SingleLabelRows(db.TermRecords(kind, 1), language, text);
    NewRowsForWider(EmptyPools, p1, db.TermRecords(kind, 1), [rec]);

    var _ := store.StoreTerms(2, terms);
    ghost var p2 := db.PoolState();
    SingleLabelRows(db.TermRecords(kind, 2), language, text);
    NewRowsForWider(p1, p2, db.TermRecords(kind, 2), [rec]);
    NewRowsForTrans(EmptyPools, p1, p2, [rec], [rec], [rec]);
    JoinNonEmpty(p2, LinksOf(db.Links(kind), 2));
    OneRowEach(p2, rec);

    r := store.GetTerms(2);
    FingerprintRoundTrip(db.TermRecords(kind, 2), terms);
    texts, textInLangs, termInLangs := |db.texts|, |db.textInLangs|, |db.termInLangs|;
  }
}
