/**
 * The per-entity term store (DoctrineItemTermStore, DoctrinePropertyTermStore):
 * one class, parameterised by the entity kind whose link table it owns.
 */
module EntityTermStores {
  import opened Wrappers
  import opened Terms
  import opened Pools
  import opened Database

  /** TermStoreException: the single error every failure of the connection surfaces as. */
  datatype StoreError = TermStoreException

  class EntityTermStore {
    const db: TermDatabase
    const normalized: NormalizedStore
    const kind: EntityKind

    constructor (db: TermDatabase, kind: EntityKind)
      ensures this.db == db && this.kind == kind && normalized.db == db
    {
      this.db := db;
      this.kind := kind;
      normalized := new NormalizedStore(db);
    }

    ghost predicate Valid()
      reads this, db
    {
      normalized.db == db && db.Valid()
    }

    /**
     * What a write for entityId leaves alone, against the state (pools0,
     * links0, otherLinks0) it started from: the shared tables only grow, and
     * only by rows for the entity's current terms; the other link table and
     * the links of every other entity are as they were.
     */
    ghost predicate Keeps(entityId: nat, pools0: PoolTables, links0: seq<LinkRow>, otherLinks0: seq<LinkRow>)
      reads this, db
    {
      Confined(entityId, pools0, links0, db.PoolState(), db.Links(kind)) && db.Links(Other(kind)) == otherLinks0
    }

    /**
     * storeTerms: delete every link of the entity, then insert one link per
     * label, per description and per alias. Afterwards the entity's join
     * rows are exactly the terms of the fingerprint.
     */
    method StoreTerms(entityId: nat, terms: Fingerprint) returns (r: Outcome<StoreError>)
      requires Valid()
      modifies db
      ensures Valid()
      ensures r == if db.broken then Fail(TermStoreException) else Pass
      ensures db.broken ==> unchanged(db)
      ensures !db.broken ==> Represents(db.TermRecords(kind, entityId), terms)
      ensures !db.broken ==> Keeps(entityId, old(db.PoolState()), old(db.Links(kind)), old(db.Links(Other(kind))))
      ensures forall e :: e != entityId ==> db.TermRecords(kind, e) == old(db.TermRecords(kind, e))
      ensures forall e :: db.TermRecords(Other(kind), e) == old(db.TermRecords(Other(kind), e))
    {
      if db.broken {
        return Fail(TermStoreException);
      }
      ghost var pools0, links0, otherLinks0 := db.PoolState(), db.Links(kind), db.Links(Other(kind));
      var _ := DeleteTerms(entityId);
      DeleteStep(pools0, links0, entityId);
      InsertTerms(entityId, terms, pools0, links0, otherLinks0);
      r := Pass;
      OthersUnchanged(entityId, pools0, links0, otherLinks0);
    }

    /** The join rows of every other entity, and of the other kind, are unchanged by a write that Keeps them. */
    lemma OthersUnchanged(entityId: nat, pools0: PoolTables, links0: seq<LinkRow>, otherLinks0: seq<LinkRow>)
      requires LinksResolve(pools0, links0) && LinksResolve(pools0, otherLinks0)
      requires Keeps(entityId, pools0, links0, otherLinks0)
      ensures forall e :: e != entityId ==>
        db.TermRecords(kind, e) == Join(pools0, LinksOf(links0, e))
      ensures forall e :: db.TermRecords(Other(kind), e) == Join(pools0, LinksOf(otherLinks0, e))
    {
      forall e | e != entityId
        ensures db.TermRecords(kind, e) == Join(pools0, LinksOf(links0, e))
      {
        LinksResolveSub(pools0, links0, LinksOf(links0, e));
        JoinStable(pools0, db.PoolState(), LinksOf(links0, e));
      }
      forall e
        ensures db.TermRecords(Other(kind), e) == Join(pools0, LinksOf(otherLinks0, e))
      {
        LinksResolveSub(pools0, otherLinks0, LinksOf(otherLinks0, e));
        JoinStable(pools0, db.PoolState(), LinksOf(otherLinks0, e));
      }
    }

    /** insertTerms: labels, then descriptions, then every alias of every group. */
    method InsertTerms(entityId: nat, terms: Fingerprint,
                       ghost pools0: PoolTables, ghost links0: seq<LinkRow>, ghost otherLinks0: seq<LinkRow>)
      requires Valid() && !db.broken
      requires Keeps(entityId, pools0, links0, otherLinks0)
      requires db.TermRecords(kind, entityId) == []
      modifies db
      ensures Valid() && Keeps(entityId, pools0, links0, otherLinks0)
      ensures Represents(db.TermRecords(kind, entityId), terms)
    {
      InsertLabels(entityId, terms.labels, pools0, links0, otherLinks0);
      InsertDescriptions(entityId, terms.labels, terms.descriptions, pools0, links0, otherLinks0);
      InsertAliases(entityId, terms, pools0, links0, otherLinks0);
    }

    /** The labels loop of insertTerms: one label link per language. */
    method InsertLabels(entityId: nat, labels: map<string, string>,
                        ghost pools0: PoolTables, ghost links0: seq<LinkRow>, ghost otherLinks0: seq<LinkRow>)
      requires Valid() && !db.broken
      requires Keeps(entityId, pools0, links0, otherLinks0)
      requires db.TermRecords(kind, entityId) == []
      modifies db
      ensures Valid() && Keeps(entityId, pools0, links0, otherLinks0)
      ensures Tally(db.TermRecords(kind, entityId), labels, map[], map[])
    {
      ghost var done: map<string, string> := map[];
      var languages := labels.Keys;
      while languages != {}
        invariant Valid() && Keeps(entityId, pools0, links0, otherLinks0)
        invariant languages <= labels.Keys
        invariant done.Keys == labels.Keys - languages
        invariant forall l :: l in done ==> done[l] == labels[l]
        invariant Tally(db.TermRecords(kind, entityId), done, map[], map[])
        decreases languages
      {
        var language :| language in languages;
        InsertLabel(entityId, language, labels[language], done, pools0, links0, otherLinks0);
        done := done[language := labels[language]];
        languages := languages - {language};
      }
      assert done == labels;
    }

    /** One pass of the labels loop: the label of a language not yet linked. */
    method InsertLabel(entityId: nat, language: string, text: string, ghost done: map<string, string>,
                       ghost pools0: PoolTables, ghost links0: seq<LinkRow>, ghost otherLinks0: seq<LinkRow>)
      requires Valid() && !db.broken
      requires Keeps(entityId, pools0, links0, otherLinks0)
      requires Tally(db.TermRecords(kind, entityId), done, map[], map[]) && language !in done
      modifies db
      ensures Valid() && Keeps(entityId, pools0, links0, otherLinks0)
      ensures Tally(db.TermRecords(kind, entityId), done[language := text], map[], map[])
    {
      TallyAddLabel(db.TermRecords(kind, entityId), done, map[], map[], language, text);
      InsertTerm(entityId, Term(language, text), TYPE_LABEL, pools0, links0, otherLinks0);
    }

    /** The descriptions loop of insertTerms: one description link per language. */
    method InsertDescriptions(entityId: nat, ghost labels: map<string, string>, descriptions: map<string, string>,
                              ghost pools0: PoolTables, ghost links0: seq<LinkRow>, ghost otherLinks0: seq<LinkRow>)
      requires Valid() && !db.broken
      requires Keeps(entityId, pools0, links0, otherLinks0)
      requires Tally(db.TermRecords(kind, entityId), labels, map[], map[])
      modifies db
      ensures Valid() && Keeps(entityId, pools0, links0, otherLinks0)
      ensures Tally(db.TermRecords(kind, entityId), labels, descriptions, map[])
    {
      ghost var done: map<string, string> := map[];
      var languages := descriptions.Keys;
      while languages != {}
        invariant Valid() && Keeps(entityId, pools0, links0, otherLinks0)
        invariant languages <= descriptions.Keys
        invariant done.Keys == descriptions.Keys - languages
        invariant forall l :: l in done ==> done[l] == descriptions[l]
        invariant Tally(db.TermRecords(kind, entityId), labels, done, map[])
        decreases languages
      {
        var language :| language in languages;
        InsertDescription(entityId, language, descriptions[language], labels, done, pools0, links0, otherLinks0);
        done := done[language := descriptions[language]];
        languages := languages - {language};
      }
      assert done == descriptions;
    }

    /** One pass of the descriptions loop: the description of a language not yet linked. */
    method InsertDescription(entityId: nat, language: string, text: string,
                             ghost labels: map<string, string>, ghost done: map<string, string>,
                             ghost pools0: PoolTables, ghost links0: seq<LinkRow>, ghost otherLinks0: seq<LinkRow>)
      requires Valid() && !db.broken
      requires Keeps(entityId, pools0, links0, otherLinks0)
      requires Tally(db.TermRecords(kind, entityId), labels, done, map[]) && language !in done
      modifies db
      ensures Valid() && Keeps(entityId, pools0, links0, otherLinks0)
      ensures Tally(db.TermRecords(kind, entityId), labels, done[language := text], map[])
    {
      TallyAddDescription(db.TermRecords(kind, entityId), labels, done, map[], language, text);
      InsertTerm(entityId, Term(language, text), TYPE_DESCRIPTION, pools0, links0, otherLinks0);
    }

    /** The aliases loop of insertTerms: every group, one link per alias. */
    method InsertAliases(entityId: nat, terms: Fingerprint,
                         ghost pools0: PoolTables, ghost links0: seq<LinkRow>, ghost otherLinks0: seq<LinkRow>)
      requires Valid() && !db.broken
      requires Keeps(entityId, pools0, links0, otherLinks0)
      requires Tally(db.TermRecords(kind, entityId), terms.labels, terms.descriptions, map[])
      modifies db
      ensures Valid() && Keeps(entityId, pools0, links0, otherLinks0)
      ensures Represents(db.TermRecords(kind, entityId), terms)
    {
      ghost var done: map<string, seq<string>> := map[];
      var languages := terms.aliasGroups.Keys;
      while languages != {}
        invariant Valid() && Keeps(entityId, pools0, links0, otherLinks0)
        invariant languages <= terms.aliasGroups.Keys
        invariant done.Keys == terms.aliasGroups.Keys - languages
        invariant forall l :: l in done ==> done[l] == terms.aliasGroups[l]
        invariant Tally(db.TermRecords(kind, entityId), terms.labels, terms.descriptions, done)
        decreases languages
      {
        var language :| language in languages;
        InsertAliasGroup(entityId, language, terms.aliasGroups[language],
                         terms.labels, terms.descriptions, done, pools0, links0, otherLinks0);
        done := done[language := terms.aliasGroups[language]];
        languages := languages - {language};
      }
      assert done == terms.aliasGroups;
    }

    /** The inner loop of insertTerms: one link per alias of one language's group, in group order. */
    method InsertAliasGroup(entityId: nat, language: string, aliases: seq<string>,
                            ghost labels: map<string, string>, ghost descriptions: map<string, string>,
                            ghost groups: map<string, seq<string>>,
                            ghost pools0: PoolTables, ghost links0: seq<LinkRow>, ghost otherLinks0: seq<LinkRow>)
      requires Valid() && !db.broken
      requires Keeps(entityId, pools0, links0, otherLinks0)
      requires Tally(db.TermRecords(kind, entityId), labels, descriptions, groups)
      requires language !in groups
      modifies db
      ensures Valid() && Keeps(entityId, pools0, links0, otherLinks0)
      ensures Tally(db.TermRecords(kind, entityId), labels, descriptions, groups[language := aliases])
    {
      TallyEmptyGroup(db.TermRecords(kind, entityId), labels, descriptions, groups, language);
      for k := 0 to |aliases|
        invariant Valid() && Keeps(entityId, pools0, links0, otherLinks0)
        invariant Tally(db.TermRecords(kind, entityId), labels, descriptions, groups[language := aliases[..k]])
      {
        TallyAddAliasAt(db.TermRecords(kind, entityId), labels, descriptions, groups, language, aliases, k);
        InsertTerm(entityId, Term(language, aliases[k]), TYPE_ALIAS, pools0, links0, otherLinks0);
      }
      assert aliases[..|aliases|] == aliases;
      assert groups[language := aliases[..|aliases|]] == groups[language := aliases];
    }

    /** insertTerm: acquire the term's term_in_lang id and link the entity to it. */
    method InsertTerm(entityId: nat, term: Term, termType: int,
                      ghost pools0: PoolTables, ghost links0: seq<LinkRow>, ghost otherLinks0: seq<LinkRow>)
      requires Valid() && !db.broken
      requires Keeps(entityId, pools0, links0, otherLinks0)
      modifies db
      ensures Valid() && Keeps(entityId, pools0, links0, otherLinks0)
      ensures db.TermRecords(kind, entityId)
        == old(db.TermRecords(kind, entityId)) + [TermRecord(term.text, term.languageCode, termType)]
    {
      ghost var p, links := db.PoolState(), db.Links(kind);
      var acquired := normalized.AcquireTermInLanguageId(term, termType);
      var id := db.InsertLink(kind, entityId, acquired.value);
      InsertTermStep(pools0, links0, p, links, term, termType, db.PoolState(), LinkRow(id, entityId, acquired.value));
      db.ValidByKind(kind);
    }

    /** deleteTerms: remove the entity's links; the shared tables are not touched. */
    method DeleteTerms(entityId: nat) returns (r: Outcome<StoreError>)
      requires Valid()
      modifies db
      ensures Valid()
      ensures r == if db.broken then Fail(TermStoreException) else Pass
      ensures db.broken ==> unchanged(db)
      ensures !db.broken ==> db.Links(kind) == Without(old(db.Links(kind)), entityId)
      ensures db.PoolState() == old(db.PoolState())
      ensures db.Links(Other(kind)) == old(db.Links(Other(kind)))
      ensures LinksOf(db.Links(kind), entityId) == [] || db.broken
      ensures forall e :: e != entityId ==> LinksOf(db.Links(kind), e) == LinksOf(old(db.Links(kind)), e)
    {
      if db.broken {
        return Fail(TermStoreException);
      }
      ghost var links := db.Links(kind);
      db.DeleteLinks(kind, entityId);
      WithoutSplits(links, entityId);
      db.ValidByKind(kind);
      r := Pass;
    }

    /** getTerms: the entity's join rows regrouped into a fingerprint. */
    method GetTerms(entityId: nat) returns (r: Result<Fingerprint, StoreError>)
      requires Valid()
      ensures r.Failure? <==> db.broken
      ensures db.broken ==> r == Failure(TermStoreException)
      ensures r.Success? ==> r.value == Fold(db.TermRecords(kind, entityId))
      ensures r.Success? && LinksOf(db.Links(kind), entityId) == [] ==> r.value == EmptyFingerprint
    {
      if db.broken {
        return Failure(TermStoreException);
      }
      var fingerprint := RecordsToFingerprint(db.TermRecords(kind, entityId));
      r := Success(fingerprint);
    }
  }
}
