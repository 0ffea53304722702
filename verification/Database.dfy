/**
 * The database behind the stores, as in-memory tables, and the shared
 * acquire-or-insert chain over it (NormalizedStore).
 */
module Database {
  import opened Wrappers
  import opened Terms
  import opened Pools

  /** The two entity kinds, each with its own link table. */
  datatype EntityKind = Item | Property

  function Other(kind: EntityKind): (o: EntityKind)
    ensures o != kind
  {
    if kind == Item then Property else Item
  }

  /** The failure every call on a failing connection raises. */
  datatype ConnectionError = ConnectionError

  /**
   * The five tables of one store: text, text_in_lang, term_in_lang and the
   * item_terms and property_terms link tables. A link table keeps its last
   * auto-increment id, since its rows can be deleted. When broken is set,
   * every call on the connection fails.
   */
  class TermDatabase {
    var texts: seq<string>
    var textInLangs: seq<TextInLangRow>
    var termInLangs: seq<TermInLangRow>
    var itemTerms: seq<LinkRow>
    var propertyTerms: seq<LinkRow>
    var itemTermsLastId: nat
    var propertyTermsLastId: nat
    const broken: bool

    constructor (broken: bool)
      ensures Valid() && this.broken == broken
      ensures PoolState() == EmptyPools && itemTerms == [] && propertyTerms == []
    {
      texts, textInLangs, termInLangs := [], [], [];
      itemTerms, propertyTerms := [], [];
      itemTermsLastId, propertyTermsLastId := 0, 0;
      this.broken := broken;
    }

    function PoolState(): PoolTables
      reads this`texts, this`textInLangs, this`termInLangs
    {
      PoolTables(texts, textInLangs, termInLangs)
    }

    function Links(kind: EntityKind): seq<LinkRow>
      reads this`itemTerms, this`propertyTerms
    {
      if kind == Item then itemTerms else propertyTerms
    }

    function LastLinkId(kind: EntityKind): nat
      reads this`itemTermsLastId, this`propertyTermsLastId
    {
      if kind == Item then itemTermsLastId else propertyTermsLastId
    }

    /** The rows of the getTerms join for one entity, in link table order. */
    function TermRecords(kind: EntityKind, entityId: nat): seq<TermRecord>
      reads this`texts, this`textInLangs, this`termInLangs, this`itemTerms, this`propertyTerms
    {
      Join(PoolState(), LinksOf(Links(kind), entityId))
    }

    ghost predicate LinkIdsIssued(links: seq<LinkRow>, lastId: nat) {
      forall i :: 0 <= i < |links| ==> links[i].id <= lastId
    }

    /** Every link of the table points at a term_in_lang row of pools and no link id is ahead of the counter. */
    ghost predicate TableValid(pools: PoolTables, kind: EntityKind)
      reads this`itemTerms, this`propertyTerms, this`itemTermsLastId, this`propertyTermsLastId
    {
      if kind == Item then ItemTableValid(pools) else PropertyTableValid(pools)
    }

    ghost predicate ItemTableValid(pools: PoolTables)
      reads this`itemTerms, this`itemTermsLastId
    {
      LinksResolve(pools, itemTerms) && LinkIdsIssued(itemTerms, itemTermsLastId)
    }

    ghost predicate PropertyTableValid(pools: PoolTables)
      reads this`propertyTerms, this`propertyTermsLastId
    {
      LinksResolve(pools, propertyTerms) && LinkIdsIssued(propertyTerms, propertyTermsLastId)
    }

    ghost predicate Valid()
      reads this
    {
      PoolsValid(PoolState()) && TableValid(PoolState(), Item) && TableValid(PoolState(), Property)
    }

    lemma ValidByKind(kind: EntityKind)
      requires PoolsValid(PoolState()) && TableValid(PoolState(), kind) && TableValid(PoolState(), Other(kind))
      ensures Valid()
    {
    }

    /** Acquiring a term from a valid state keeps every table valid. */
    lemma ValidAfterAcquire(p: PoolTables, term: Term, typeId: int)
      requires PoolsValid(p) && PoolState() == AcquireTermInLanguage(p, term, typeId).pools
      requires TableValid(p, Item) && TableValid(p, Property)
      ensures Valid()
    {
      AcquireResolves(p, term, typeId);
      LinksResolveStable(p, PoolState(), Links(Item));
      LinksResolveStable(p, PoolState(), Links(Property));
    }

    /** insert into text, then lastInsertId. */
    method InsertText(text: string) returns (id: nat)
      modifies this`texts
      ensures texts == old(texts) + [text] && id == |texts|
    {
      texts := texts + [text];
      id := |texts|;
    }

    /** insert into text_in_lang, then lastInsertId. */
    method InsertTextInLang(row: TextInLangRow) returns (id: nat)
      modifies this`textInLangs
      ensures textInLangs == old(textInLangs) + [row] && id == |textInLangs|
    {
      textInLangs := textInLangs + [row];
      id := |textInLangs|;
    }

    /** insert into term_in_lang, then lastInsertId. */
    method InsertTermInLang(row: TermInLangRow) returns (id: nat)
      modifies this`termInLangs
      ensures termInLangs == old(termInLangs) + [row] && id == |termInLangs|
    {
      termInLangs := termInLangs + [row];
      id := |termInLangs|;
    }

    /** insert into a link table under the next auto-increment id. */
    method InsertLink(kind: EntityKind, entityId: nat, termInLangId: nat) returns (id: nat)
      modifies this`itemTerms, this`itemTermsLastId, this`propertyTerms, this`propertyTermsLastId
      ensures id == old(LastLinkId(kind)) + 1 && LastLinkId(kind) == id
      ensures Links(kind) == old(Links(kind)) + [LinkRow(id, entityId, termInLangId)]
      ensures Links(Other(kind)) == old(Links(Other(kind)))
      ensures LastLinkId(Other(kind)) == old(LastLinkId(Other(kind)))
      ensures LinkIdsIssued(old(Links(kind)), old(LastLinkId(kind))) ==> LinkIdsIssued(Links(kind), LastLinkId(kind))
    {
      if kind == Item {
        itemTermsLastId := itemTermsLastId + 1;
        id := itemTermsLastId;
        itemTerms := itemTerms + [LinkRow(id, entityId, termInLangId)];
      } else {
        propertyTermsLastId := propertyTermsLastId + 1;
        id := propertyTermsLastId;
        propertyTerms := propertyTerms + [LinkRow(id, entityId, termInLangId)];
      }
    }

    /** delete from a link table where the entity id matches; the table keeps its order. */
    method DeleteLinks(kind: EntityKind, entityId: nat)
      modifies this`itemTerms, this`propertyTerms
      ensures Links(kind) == Without(old(Links(kind)), entityId)
      ensures Links(Other(kind)) == old(Links(Other(kind)))
      ensures old(TableValid(PoolState(), kind)) ==> TableValid(PoolState(), kind)
    {
      var kept := KeepOthers(Links(kind), entityId);
      if LinksResolve(PoolState(), Links(kind)) {
        LinksResolveSub(PoolState(), Links(kind), kept);
      }
      if kind == Item {
        itemTerms := kept;
      } else {
        propertyTerms := kept;
      }
    }
  }

  /** The scan behind the delete: the rows of other entities, in table order. */
  method KeepOthers(links: seq<LinkRow>, entityId: nat) returns (kept: seq<LinkRow>)
    ensures kept == Without(links, entityId)
  {
    kept := [];
    for i := 0 to |links|
      invariant kept == Without(links[..i], entityId)
    {
      assert links[..i + 1] == links[..i] + [links[i]];
      if links[i].entityId != entityId {
        kept := kept + [links[i]];
      }
    }
    assert links[..|links|] == links;
  }

  /** The acquire-or-insert chain text -> text_in_lang -> term_in_lang. */
  class NormalizedStore {
    const db: TermDatabase

    constructor (db: TermDatabase)
      ensures this.db == db
    {
      this.db := db;
    }

    /**
     * The id of the term_in_lang row for (term, type), creating the missing
     * rows of the chain; fails, changing nothing, on a failing connection.
     */
    method AcquireTermInLanguageId(term: Term, termType: int) returns (r: Result<nat, ConnectionError>)
      requires db.Valid()
      modifies db`texts, db`textInLangs, db`termInLangs
      ensures db.Valid()
      ensures db.broken ==> r == Failure(ConnectionError) && db.PoolState() == old(db.PoolState())
      ensures !db.broken ==>
        var a := AcquireTermInLanguage(old(db.PoolState()), term, termType);
        r == Success(a.id) && db.PoolState() == a.pools
    {
      if db.broken {
        return Failure(ConnectionError);
      }
      ghost var p := db.PoolState();
      var id := FindOrInsertTermInLanguage(term, termType);
      db.ValidAfterAcquire(p, term, termType);
      r := Success(id);
    }

    /** findExistingTermInLanguageId, else insertTermInLanguageRecord, after acquiring the text in its language. */
    method FindOrInsertTermInLanguage(term: Term, termType: int) returns (id: nat)
      modifies db`texts, db`textInLangs, db`termInLangs
      ensures var a := AcquireTermInLanguage(old(db.PoolState()), term, termType);
        id == a.id && db.PoolState() == a.pools
    {
      var textInLanguageId := AcquireTextInLanguageId(term);
      var row := TermInLangRow(termType, textInLanguageId);
      var found := IndexOf(db.termInLangs, row);
      if found.Some? {
        id := found.value + 1;
      } else {
        id := db.InsertTermInLang(row);
      }
    }

    method AcquireTextInLanguageId(term: Term) returns (id: nat)
      modifies db`texts, db`textInLangs
      ensures var a := AcquireTextInLanguage(old(db.PoolState()), term);
        db.PoolState() == a.pools && id == a.id
    {
      var textId := AcquireTextId(term);
      var row := TextInLangRow(term.languageCode, textId);
      var found := IndexOf(db.textInLangs, row);
      if found.Some? {
        id := found.value + 1;
      } else {
        id := db.InsertTextInLang(row);
      }
    }

    method AcquireTextId(term: Term) returns (id: nat)
      modifies db`texts
      ensures var a := AcquireText(old(db.PoolState()), term.text);
        db.PoolState() == a.pools && id == a.id
    {
      var found := IndexOf(db.texts, term.text);
      if found.Some? {
        id := found.value + 1;
      } else {
        id := db.InsertText(term.text);
      }
    }
  }
}
