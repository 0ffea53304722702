/**
 * The three shared, append-only tables as values: text, text_in_lang and
 * term_in_lang, with the acquire-or-insert protocol over them, and the link
 * rows that tie an entity to term_in_lang rows, with the join that reads them
 * back. The row at index i of a shared table has id i + 1 (auto-increment,
 * and these rows are never deleted).
 */
module Pools {
  import opened Wrappers
  import opened Terms

  /** A text_in_lang row: a language and the id of a text row. */
  datatype TextInLangRow = TextInLangRow(language: string, textId: nat)

  /** A term_in_lang row: a type code and the id of a text_in_lang row. */
  datatype TermInLangRow = TermInLangRow(typeId: int, textInLangId: nat)

  /** A row of an entity link table (item_terms or property_terms). */
  datatype LinkRow = LinkRow(id: nat, entityId: nat, termInLangId: nat)

  datatype PoolTables = PoolTables(texts: seq<string>, textInLangs: seq<TextInLangRow>, termInLangs: seq<TermInLangRow>)

  const EmptyPools := PoolTables([], [], [])

  /** The tables after an acquire, and the id it returned. */
  datatype Acquired = Acquired(pools: PoolTables, id: nat)

  /** The first index of x in s: the lookup SELECT ... WHERE <content> = ?. */
  function IndexOf<T(==)>(s: seq<T>, x: T): (r: Option<nat>)
    ensures r.Some? ==> r.value < |s| && s[r.value] == x && x !in s[..r.value]
    ensures r.None? <==> x !in s
  {
    if s == [] then None
    else if s[0] == x then Some(0)
    else match IndexOf(s[1..], x)
      case None => None
      case Some(i) => assert s[..i + 1] == [s[0]] + s[1..][..i]; Some(i + 1)
  }

  ghost predicate Distinct<T>(s: seq<T>) {
    forall i, j :: 0 <= i < j < |s| ==> s[i] != s[j]
  }

  /**
   * The uniqueness invariants of the three tables and their references:
   * no two text rows share a text, no two text_in_lang rows share
   * (language, text id), no two term_in_lang rows share (type, text_in_lang id),
   * and every reference names an existing row.
   */
  ghost predicate PoolsValid(p: PoolTables) {
    && Distinct(p.texts)
    && Distinct(p.textInLangs)
    && Distinct(p.termInLangs)
    && (forall i :: 0 <= i < |p.textInLangs| ==> 1 <= p.textInLangs[i].textId <= |p.texts|)
    && (forall i :: 0 <= i < |p.termInLangs| ==> 1 <= p.termInLangs[i].textInLangId <= |p.textInLangs|)
  }

  /** q holds every row of p, under the same id. */
  ghost predicate Extends(p: PoolTables, q: PoolTables) {
    p.texts <= q.texts && p.textInLangs <= q.textInLangs && p.termInLangs <= q.termInLangs
  }

  /** The (text, language, type) a term_in_lang id stands for, through the chain of references. */
  function Resolve(p: PoolTables, termInLangId: nat): Option<TermRecord> {
    if 1 <= termInLangId <= |p.termInLangs| then
      var t := p.termInLangs[termInLangId - 1];
      if 1 <= t.textInLangId <= |p.textInLangs| then
        var x := p.textInLangs[t.textInLangId - 1];
        if 1 <= x.textId <= |p.texts| then Some(TermRecord(p.texts[x.textId - 1], x.language, t.typeId))
        else None
      else None
    else None
  }

  /** acquireTextId: the id of the text row holding text, appending one if there is none. */
  function AcquireText(p: PoolTables, text: string): Acquired {
    match IndexOf(p.texts, text)
    case Some(i) => Acquired(p, i + 1)
    case None => Acquired(p.(texts := p.texts + [text]), |p.texts| + 1)
  }

  /** acquireTextInLanguageId: acquire the text, then the (language, text id) row. */
  function AcquireTextInLanguage(p: PoolTables, term: Term): Acquired {
    var a := AcquireText(p, term.text);
    var row := TextInLangRow(term.languageCode, a.id);
    match IndexOf(a.pools.textInLangs, row)
    case Some(i) => Acquired(a.pools, i + 1)
    case None => Acquired(a.pools.(textInLangs := a.pools.textInLangs + [row]), |a.pools.textInLangs| + 1)
  }

  /** acquireTermInLanguageId: acquire the text in its language, then the (type, text_in_lang id) row. */
  function AcquireTermInLanguage(p: PoolTables, term: Term, typeId: int): Acquired {
    var a := AcquireTextInLanguage(p, term);
    var row := TermInLangRow(typeId, a.id);
    match IndexOf(a.pools.termInLangs, row)
    case Some(i) => Acquired(a.pools, i + 1)
    case None => Acquired(a.pools.(termInLangs := a.pools.termInLangs + [row]), |a.pools.termInLangs| + 1)
  }

  lemma DistinctAppend<T>(s: seq<T>, x: T)
    requires Distinct(s) && x !in s
    ensures Distinct(s + [x])
  {
    forall i, j | 0 <= i < j < |s| + 1
      ensures (s + [x])[i] != (s + [x])[j]
    {
      if j == |s| {
        assert (s + [x])[i] == s[i];
      }
    }
  }

  /** acquireTextId returns the id of a text row holding the text; only the text table can grow. */
  lemma AcquireTextFinds(p: PoolTables, text: string)
    ensures var a := AcquireText(p, text);
      && Extends(p, a.pools)
      && 1 <= a.id <= |a.pools.texts| && a.pools.texts[a.id - 1] == text
      && a.pools.textInLangs == p.textInLangs && a.pools.termInLangs == p.termInLangs
  {
  }

  /** acquireTextInLanguageId returns the id of a (language, text) row; term_in_lang is untouched. */
  lemma AcquireTextInLanguageFinds(p: PoolTables, term: Term)
    ensures var a := AcquireTextInLanguage(p, term);
      && Extends(p, a.pools)
      && 1 <= a.id <= |a.pools.textInLangs|
      && var x := a.pools.textInLangs[a.id - 1];
      && x.language == term.languageCode
      && 1 <= x.textId <= |a.pools.texts| && a.pools.texts[x.textId - 1] == term.text
      && a.pools.termInLangs == p.termInLangs
  {
    AcquireTextFinds(p, term.text);
    var a1 := AcquireText(p, term.text);
    var row := TextInLangRow(term.languageCode, a1.id);
    var a := AcquireTextInLanguage(p, term);
    match IndexOf(a1.pools.textInLangs, row)
    case Some(i) =>
      assert a == Acquired(a1.pools, i + 1);
    case None =>
      assert a.pools == a1.pools.(textInLangs := a1.pools.textInLangs + [row]);
    assert a.pools.textInLangs[a.id - 1] == row;
  }

  /** acquireTermInLanguageId returns an id that resolves to exactly (text, language, type). */
  lemma AcquireFinds(p: PoolTables, term: Term, typeId: int)
    ensures var a := AcquireTermInLanguage(p, term, typeId);
      && Extends(p, a.pools)
      && Resolve(a.pools, a.id) == Some(TermRecord(term.text, term.languageCode, typeId))
  {
    AcquireTextInLanguageFinds(p, term);
    var a2 := AcquireTextInLanguage(p, term);
    var row := TermInLangRow(typeId, a2.id);
    var a := AcquireTermInLanguage(p, term, typeId);
    match IndexOf(a2.pools.termInLangs, row)
    case Some(i) =>
      assert a == Acquired(a2.pools, i + 1);
    case None =>
      assert a.pools == a2.pools.(termInLangs := a2.pools.termInLangs + [row]);
    assert 1 <= a.id <= |a.pools.termInLangs| && a.pools.termInLangs[a.id - 1] == row;
    assert a.pools.textInLangs == a2.pools.textInLangs && a.pools.texts == a2.pools.texts;
  }

  /** acquireTextId keeps the uniqueness invariants. */
  lemma AcquireTextValid(p: PoolTables, text: string)
    requires PoolsValid(p)
    ensures PoolsValid(AcquireText(p, text).pools)
  {
    if IndexOf(p.texts, text).None? {
      DistinctAppend(p.texts, text);
    }
  }

  /** acquireTextInLanguageId keeps the uniqueness invariants. */
  lemma AcquireTextInLanguageValid(p: PoolTables, term: Term)
    requires PoolsValid(p)
    ensures PoolsValid(AcquireTextInLanguage(p, term).pools)
  {
    AcquireTextValid(p, term.text);
    AcquireTextFinds(p, term.text);
    var a1 := AcquireText(p, term.text);
    var row := TextInLangRow(term.languageCode, a1.id);
    if IndexOf(a1.pools.textInLangs, row).None? {
      DistinctAppend(a1.pools.textInLangs, row);
    }
  }

  /**
   * The id acquired for (term, type) names a term_in_lang row of that type,
   * whose text_in_lang row has the term's language and whose text row has
   * the term's text; the tables keep their invariants and their old rows.
   */
  lemma AcquireResolves(p: PoolTables, term: Term, typeId: int)
    requires PoolsValid(p)
    ensures var a := AcquireTermInLanguage(p, term, typeId);
      && PoolsValid(a.pools)
      && Extends(p, a.pools)
      && Resolve(a.pools, a.id) == Some(TermRecord(term.text, term.languageCode, typeId))
  {
    AcquireTextInLanguageValid(p, term);
    AcquireTextInLanguageFinds(p, term);
    AcquireFinds(p, term, typeId);
    var a2 := AcquireTextInLanguage(p, term);
    var row := TermInLangRow(typeId, a2.id);
    if IndexOf(a2.pools.termInLangs, row).None? {
      DistinctAppend(a2.pools.termInLangs, row);
    }
  }

  /** Each acquire appends at most one row to each table and changes no existing row. */
  lemma AcquireAppendsAtMostOne(p: PoolTables, term: Term, typeId: int)
    ensures var q := AcquireTermInLanguage(p, term, typeId).pools;
      && Extends(p, q)
      && |q.texts| <= |p.texts| + 1
      && |q.textInLangs| <= |p.textInLangs| + 1
      && |q.termInLangs| <= |p.termInLangs| + 1
  {
  }

  lemma IndexOfAppended<T>(s: seq<T>, x: T)
    requires x !in s
    ensures IndexOf(s + [x], x) == Some(|s|)
  {
    assert (s + [x])[..|s|] == s;
  }

  lemma IndexOfExtended<T>(s: seq<T>, t: seq<T>, x: T)
    requires s <= t && x in s
    ensures IndexOf(t, x) == IndexOf(s, x)
  {
    var i := IndexOf(s, x).value;
    assert t[..i] == s[..i];
  }

  /** The lookup of a text finds the same row before and after a later acquire. */
  lemma AcquireTextAgain(p: PoolTables, q: PoolTables, text: string)
    requires Extends(AcquireText(p, text).pools, q)
    ensures AcquireText(q, text) == Acquired(q, AcquireText(p, text).id)
  {
    var a := AcquireText(p, text);
    if IndexOf(p.texts, text).None? {
      IndexOfAppended(p.texts, text);
    }
    IndexOfExtended(a.pools.texts, q.texts, text);
  }

  lemma AcquireTextInLanguageAgain(p: PoolTables, q: PoolTables, term: Term)
    requires Extends(AcquireTextInLanguage(p, term).pools, q)
    ensures AcquireTextInLanguage(q, term) == Acquired(q, AcquireTextInLanguage(p, term).id)
  {
    var a1 := AcquireText(p, term.text);
    var a2 := AcquireTextInLanguage(p, term);
    AcquireTextAgain(p, q, term.text);
    var row := TextInLangRow(term.languageCode, a1.id);
    if IndexOf(a1.pools.textInLangs, row).None? {
      IndexOfAppended(a1.pools.textInLangs, row);
    }
    IndexOfExtended(a2.pools.textInLangs, q.textInLangs, row);
  }

  /** Acquiring the same (term, type) twice returns the same id, and the second call adds no rows. */
  lemma AcquireIdempotent(p: PoolTables, term: Term, typeId: int)
    ensures var a := AcquireTermInLanguage(p, term, typeId);
      AcquireTermInLanguage(a.pools, term, typeId) == a
  {
    var a2 := AcquireTextInLanguage(p, term);
    var a3 := AcquireTermInLanguage(p, term, typeId);
    AcquireTextInLanguageAgain(p, a3.pools, term);
    var row := TermInLangRow(typeId, a2.id);
    if IndexOf(a2.pools.termInLangs, row).None? {
      IndexOfAppended(a2.pools.termInLangs, row);
    }
    IndexOfExtended(a3.pools.termInLangs, a3.pools.termInLangs, row);
  }

  lemma IndexOfDistinct<T>(s: seq<T>, i: nat)
    requires Distinct(s) && i < |s|
    ensures IndexOf(s, s[i]) == Some(i)
  {
  }

  /**
   * Dedup: when a term_in_lang row already stands for (term, type), the
   * acquire returns that row's id and adds nothing.
   */
  lemma AcquireReusesExisting(p: PoolTables, term: Term, typeId: int, termInLangId: nat)
    requires PoolsValid(p)
    requires Resolve(p, termInLangId) == Some(TermRecord(term.text, term.languageCode, typeId))
    ensures AcquireTermInLanguage(p, term, typeId) == Acquired(p, termInLangId)
  {
    var t := p.termInLangs[termInLangId - 1];
    var x := p.textInLangs[t.textInLangId - 1];
    IndexOfDistinct(p.texts, x.textId - 1);
    assert AcquireText(p, term.text) == Acquired(p, x.textId);
    IndexOfDistinct(p.textInLangs, t.textInLangId - 1);
    assert AcquireTextInLanguage(p, term) == Acquired(p, t.textInLangId);
    IndexOfDistinct(p.termInLangs, termInLangId - 1);
  }

  lemma ResolveStable(p: PoolTables, q: PoolTables, termInLangId: nat)
    requires Extends(p, q) && Resolve(p, termInLangId).Some?
    ensures Resolve(q, termInLangId) == Resolve(p, termInLangId)
  {
    var t := p.termInLangs[termInLangId - 1];
    assert q.termInLangs[termInLangId - 1] == t;
    var x := p.textInLangs[t.textInLangId - 1];
    assert q.textInLangs[t.textInLangId - 1] == x;
    assert q.texts[x.textId - 1] == p.texts[x.textId - 1];
  }

  /** Every link names a term_in_lang row that resolves to a text. */
  ghost predicate LinksResolve(p: PoolTables, links: seq<LinkRow>) {
    forall i :: 0 <= i < |links| ==> Resolve(p, links[i].termInLangId).Some?
  }

  /** The link rows of one entity, in table order: the WHERE <entity>_id = ? filter. */
  function LinksOf(links: seq<LinkRow>, entityId: nat): (r: seq<LinkRow>)
    ensures |r| <= |links|
    ensures forall i :: 0 <= i < |r| ==> r[i].entityId == entityId && r[i] in links
    decreases |links|
  {
    if links == [] then []
    else
      var l := links[|links| - 1];
      LinksOf(links[..|links| - 1], entityId) + (if l.entityId == entityId then [l] else [])
  }

  /** The link table after DELETE ... WHERE <entity>_id = ?. */
  function Without(links: seq<LinkRow>, entityId: nat): (r: seq<LinkRow>)
    ensures forall i :: 0 <= i < |r| ==> r[i].entityId != entityId && r[i] in links
    decreases |links|
  {
    if links == [] then []
    else
      var l := links[|links| - 1];
      Without(links[..|links| - 1], entityId) + (if l.entityId != entityId then [l] else [])
  }

  /** The inner join of links with term_in_lang, text_in_lang and text: one row per resolving link. */
  function Join(p: PoolTables, links: seq<LinkRow>): seq<TermRecord>
    decreases |links|
  {
    if links == [] then []
    else
      var r := Resolve(p, links[|links| - 1].termInLangId);
      Join(p, links[..|links| - 1]) + (if r.Some? then [r.value] else [])
  }

  lemma LinksOfSnoc(links: seq<LinkRow>, l: LinkRow)
    ensures forall e {:trigger LinksOf(links + [l], e)} ::
      LinksOf(links + [l], e) == LinksOf(links, e) + (if l.entityId == e then [l] else [])
  {
    assert (links + [l])[..|links|] == links;
  }

  lemma JoinSnoc(p: PoolTables, links: seq<LinkRow>, l: LinkRow)
    ensures Join(p, links + [l])
      == Join(p, links) + (if Resolve(p, l.termInLangId).Some? then [Resolve(p, l.termInLangId).value] else [])
  {
    assert (links + [l])[..|links|] == links;
  }

  /** Deleting an entity's links leaves it none. */
  lemma {:induction false} WithoutClears(links: seq<LinkRow>, entityId: nat)
    ensures LinksOf(Without(links, entityId), entityId) == []
    decreases |links|
  {
    if links != [] {
      var init, l := links[..|links| - 1], links[|links| - 1];
      WithoutClears(init, entityId);
      assert Without(links, entityId) == Without(init, entityId) + (if l.entityId != entityId then [l] else []);
      if l.entityId != entityId {
        LinksOfSnoc(Without(init, entityId), l);
        assert LinksOf(Without(init, entityId) + [l], entityId) == LinksOf(Without(init, entityId), entityId);
      } else {
        assert Without(links, entityId) == Without(init, entityId);
      }
    }
  }

  /** Deleting one entity's links leaves every other entity's links as they were, in order. */
  lemma {:induction false} WithoutKeepsOthers(links: seq<LinkRow>, entityId: nat, other: nat)
    requires other != entityId
    ensures LinksOf(Without(links, entityId), other) == LinksOf(links, other)
    decreases |links|
  {
    if links != [] {
      var init, l := links[..|links| - 1], links[|links| - 1];
      WithoutKeepsOthers(init, entityId, other);
      assert Without(links, entityId) == Without(init, entityId) + (if l.entityId != entityId then [l] else []);
      assert LinksOf(links, other) == LinksOf(init, other) + (if l.entityId == other then [l] else []);
      if l.entityId != entityId {
        LinksOfSnoc(Without(init, entityId), l);
        assert LinksOf(Without(init, entityId) + [l], other)
          == LinksOf(Without(init, entityId), other) + (if l.entityId == other then [l] else []);
      } else {
        assert Without(links, entityId) == Without(init, entityId);
        assert LinksOf(links, other) == LinksOf(init, other);
      }
    }
  }

  /** Links that resolve keep resolving, to the same rows, once the shared tables grow. */
  lemma {:induction false} JoinStable(p: PoolTables, q: PoolTables, links: seq<LinkRow>)
    requires Extends(p, q) && LinksResolve(p, links)
    ensures Join(q, links) == Join(p, links)
    decreases |links|
  {
    if links != [] {
      JoinStable(p, q, links[..|links| - 1]);
      ResolveStable(p, q, links[|links| - 1].termInLangId);
    }
  }

  /** With resolving links the inner join drops nothing. */
  lemma {:induction false} JoinLength(p: PoolTables, links: seq<LinkRow>)
    requires LinksResolve(p, links)
    ensures |Join(p, links)| == |links|
    decreases |links|
  {
    if links != [] {
      JoinLength(p, links[..|links| - 1]);
    }
  }

  lemma LinksResolveStable(p: PoolTables, q: PoolTables, links: seq<LinkRow>)
    requires Extends(p, q) && LinksResolve(p, links)
    ensures LinksResolve(q, links)
  {
    forall i | 0 <= i < |links|
      ensures Resolve(q, links[i].termInLangId).Some?
    {
      ResolveStable(p, q, links[i].termInLangId);
    }
  }

  lemma LinksResolveSub(p: PoolTables, links: seq<LinkRow>, sub: seq<LinkRow>)
    requires LinksResolve(p, links)
    requires forall i :: 0 <= i < |sub| ==> sub[i] in links
    ensures LinksResolve(p, sub)
  {
    forall i | 0 <= i < |sub|
      ensures Resolve(p, sub[i].termInLangId).Some?
    {
      var j :| 0 <= j < |links| && links[j] == sub[i];
    }
  }

  /** Some row of rs has this text. */
  ghost predicate TextFor(text: string, rs: seq<TermRecord>) {
    exists r :: r in rs && r.text == text
  }

  /** Some row of rs has this text_in_lang row's language and text. */
  ghost predicate TextInLangFor(q: PoolTables, row: TextInLangRow, rs: seq<TermRecord>) {
    1 <= row.textId <= |q.texts| && exists r :: r in rs && r.language == row.language && r.text == q.texts[row.textId - 1]
  }

  /** The term_in_lang row at this index (id index + 1) stands for a row of rs. */
  ghost predicate TermInLangFor(q: PoolTables, index: nat, rs: seq<TermRecord>) {
    Resolve(q, index + 1).Some? && Resolve(q, index + 1).value in rs
  }

  /** Every row that q has beyond p was created for one of the terms rs. */
  ghost predicate NewRowsFor(p: PoolTables, q: PoolTables, rs: seq<TermRecord>) {
    && (forall i :: |p.texts| <= i < |q.texts| ==> TextFor(q.texts[i], rs))
    && (forall i :: |p.textInLangs| <= i < |q.textInLangs| ==> TextInLangFor(q, q.textInLangs[i], rs))
    && (forall i :: |p.termInLangs| <= i < |q.termInLangs| ==> TermInLangFor(q, i, rs))
  }

  /** The rows an acquire creates are all for the acquired term. */
  lemma AcquireNewRows(p: PoolTables, term: Term, typeId: int)
    ensures NewRowsFor(p, AcquireTermInLanguage(p, term, typeId).pools, [TermRecord(term.text, term.languageCode, typeId)])
  {
    var rec := TermRecord(term.text, term.languageCode, typeId);
    AcquireTextFinds(p, term.text);
    AcquireTextInLanguageFinds(p, term);
    AcquireFinds(p, term, typeId);
    var a1 := AcquireText(p, term.text);
    var a2 := AcquireTextInLanguage(p, term);
    var a := AcquireTermInLanguage(p, term, typeId);
    assert a.pools.texts == a2.pools.texts == a1.pools.texts;
    forall i | |p.texts| <= i < |a.pools.texts|
      ensures TextFor(a.pools.texts[i], [rec])
    {
      assert a.pools.texts[i] == term.text;
      assert rec in [rec];
    }
    forall i | |p.textInLangs| <= i < |a.pools.textInLangs|
      ensures TextInLangFor(a.pools, a.pools.textInLangs[i], [rec])
    {
      assert i + 1 == a2.id;
      assert rec in [rec];
    }
    forall i | |p.termInLangs| <= i < |a.pools.termInLangs|
      ensures TermInLangFor(a.pools, i, [rec])
    {
      assert i + 1 == a.id;
    }
  }

  /**
   * Rows created for rs1 from p0 to p1, and then for step from p1 to p2,
   * were created for rs2 when rs2 keeps every row of rs1 and of step.
   */
  lemma NewRowsForTrans(p0: PoolTables, p1: PoolTables, p2: PoolTables, rs1: seq<TermRecord>, step: seq<TermRecord>, rs2: seq<TermRecord>)
    requires Extends(p0, p1) && Extends(p1, p2)
    requires NewRowsFor(p0, p1, rs1) && NewRowsFor(p1, p2, step)
    requires forall r :: r in rs1 ==> r in rs2
    requires forall r :: r in step ==> r in rs2
    ensures NewRowsFor(p0, p2, rs2)
  {
    forall i | |p0.texts| <= i < |p2.texts|
      ensures TextFor(p2.texts[i], rs2)
    {
      if i < |p1.texts| {
        assert p2.texts[i] == p1.texts[i];
        var r :| r in rs1 && r.text == p1.texts[i];
      } else {
        assert TextFor(p2.texts[i], step);
        var r :| r in step && r.text == p2.texts[i];
      }
    }
    forall i | |p0.textInLangs| <= i < |p2.textInLangs|
      ensures TextInLangFor(p2, p2.textInLangs[i], rs2)
    {
      var row := p2.textInLangs[i];
      if i < |p1.textInLangs| {
        assert p1.textInLangs[i] == row;
        assert p2.texts[row.textId - 1] == p1.texts[row.textId - 1];
        var r :| r in rs1 && r.language == row.language && r.text == p1.texts[row.textId - 1];
      } else {
        assert TextInLangFor(p2, row, step);
        var r :| r in step && r.language == row.language && r.text == p2.texts[row.textId - 1];
      }
    }
    forall i | |p0.termInLangs| <= i < |p2.termInLangs|
      ensures TermInLangFor(p2, i, rs2)
    {
      if i < |p1.termInLangs| {
        assert TermInLangFor(p1, i, rs1);
        ResolveStable(p1, p2, i + 1);
      } else {
        assert TermInLangFor(p2, i, step);
      }
    }
  }

  /** Appending a resolving link for an entity adds its row to the end of that entity's join rows. */
  lemma AppendLinkJoin(p: PoolTables, q: PoolTables, links: seq<LinkRow>, l: LinkRow, rec: TermRecord)
    requires Extends(p, q) && LinksResolve(p, links)
    requires Resolve(q, l.termInLangId) == Some(rec)
    ensures Join(q, LinksOf(links + [l], l.entityId)) == Join(p, LinksOf(links, l.entityId)) + [rec]
  {
    LinksOfSnoc(links, l);
    JoinSnoc(q, LinksOf(links, l.entityId), l);
    LinksResolveSub(p, links, LinksOf(links, l.entityId));
    JoinStable(p, q, LinksOf(links, l.entityId));
  }

  /** A new link of one entity leaves every other entity's links as they were. */
  lemma AppendLinkOthers(links: seq<LinkRow>, l: LinkRow)
    ensures forall e :: e != l.entityId ==> LinksOf(links + [l], e) == LinksOf(links, e)
  {
    LinksOfSnoc(links, l);
  }

  /** A link to a resolving row keeps the whole table resolving once the pools grow. */
  lemma AppendLinkResolves(p: PoolTables, q: PoolTables, links: seq<LinkRow>, l: LinkRow)
    requires Extends(p, q) && LinksResolve(p, links)
    requires Resolve(q, l.termInLangId).Some?
    ensures LinksResolve(q, links + [l])
  {
    LinksResolveStable(p, q, links);
  }

  /**
   * A write for entityId, from (pools0, links0) to (pools, links), stayed
   * within its bounds: the shared tables only grew, and only by rows for the
   * entity's current join rows; every other entity kept its links.
   */
  ghost predicate Confined(entityId: nat, pools0: PoolTables, links0: seq<LinkRow>, pools: PoolTables, links: seq<LinkRow>) {
    && Extends(pools0, pools)
    && NewRowsFor(pools0, pools, Join(pools, LinksOf(links, entityId)))
    && (forall e :: e != entityId ==> LinksOf(links, e) == LinksOf(links0, e))
  }

  /** The delete takes every link of the entity and no link of any other entity. */
  lemma WithoutSplits(links: seq<LinkRow>, entityId: nat)
    ensures LinksOf(Without(links, entityId), entityId) == []
    ensures forall e :: e != entityId ==> LinksOf(Without(links, entityId), e) == LinksOf(links, e)
  {
    WithoutClears(links, entityId);
    forall e | e != entityId
      ensures LinksOf(Without(links, entityId), e) == LinksOf(links, e)
    {
      WithoutKeepsOthers(links, entityId, e);
    }
  }

  /** deleteTerms, on values: the entity is left without join rows, confined to itself. */
  lemma DeleteStep(pools0: PoolTables, links0: seq<LinkRow>, entityId: nat)
    ensures Join(pools0, LinksOf(Without(links0, entityId), entityId)) == []
    ensures Confined(entityId, pools0, links0, pools0, Without(links0, entityId))
  {
    WithoutSplits(links0, entityId);
  }

  /**
   * One insertTerm, on values: acquiring the term and appending a link to it
   * keeps the pools valid, adds exactly the term to the entity's join rows
   * and keeps the write confined to the entity.
   */
  lemma InsertTermStep(pools0: PoolTables, links0: seq<LinkRow>, p: PoolTables, links: seq<LinkRow>,
                       term: Term, typeId: int, q: PoolTables, l: LinkRow)
    requires PoolsValid(p) && LinksResolve(p, links)
    requires Confined(l.entityId, pools0, links0, p, links)
    requires q == AcquireTermInLanguage(p, term, typeId).pools
    requires l.termInLangId == AcquireTermInLanguage(p, term, typeId).id
    ensures PoolsValid(q) && LinksResolve(q, links + [l])
    ensures Join(q, LinksOf(links + [l], l.entityId))
         == Join(p, LinksOf(links, l.entityId)) + [TermRecord(term.text, term.languageCode, typeId)]
    ensures Confined(l.entityId, pools0, links0, q, links + [l])
  {
    var rec := TermRecord(term.text, term.languageCode, typeId);
    var records := Join(p, LinksOf(links, l.entityId));
    AcquireResolves(p, term, typeId);
    AcquireNewRows(p, term, typeId);
    AppendLinkJoin(p, q, links, l, rec);
    AppendLinkOthers(links, l);
    AppendLinkResolves(p, q, links, l);
    NewRowsForTrans(pools0, p, q, records, [rec], records + [rec]);
  }

  /** A join that gives a row read it from some term_in_lang row. */
  lemma {:induction false} JoinNonEmpty(p: PoolTables, links: seq<LinkRow>)
    requires Join(p, links) != []
    ensures |p.termInLangs| >= 1
    decreases |links|
  {
    if Resolve(p, links[|links| - 1].termInLangId).None? {
      JoinNonEmpty(p, links[..|links| - 1]);
    }
  }

  /**
   * Tables grown from empty only by rows for one term hold exactly one row
   * each, once that term has a term_in_lang row: the uniqueness invariants
   * leave no room for a second.
   */
  lemma OneRowEach(p: PoolTables, rec: TermRecord)
    requires PoolsValid(p) && NewRowsFor(EmptyPools, p, [rec]) && |p.termInLangs| >= 1
    ensures |p.texts| == 1 && |p.textInLangs| == 1 && |p.termInLangs| == 1
  {
    assert 1 <= p.termInLangs[0].textInLangId <= |p.textInLangs|;
    assert 1 <= p.textInLangs[0].textId <= |p.texts|;
    forall i | 0 <= i < |p.texts|
      ensures p.texts[i] == rec.text
    {
      assert TextFor(p.texts[i], [rec]);
    }
    AtMostOne(p.texts, rec.text);
    forall i | 0 <= i < |p.textInLangs|
      ensures p.textInLangs[i] == TextInLangRow(rec.language, 1)
    {
      assert TextInLangFor(p, p.textInLangs[i], [rec]);
    }
    AtMostOne(p.textInLangs, TextInLangRow(rec.language, 1));
    forall i | 0 <= i < |p.termInLangs|
      ensures p.termInLangs[i] == TermInLangRow(rec.typeId, 1)
    {
      assert TermInLangFor(p, i, [rec]);
    }
    AtMostOne(p.termInLangs, TermInLangRow(rec.typeId, 1));
  }

  lemma AtMostOne<T>(s: seq<T>, x: T)
    requires Distinct(s) && forall i :: 0 <= i < |s| ==> s[i] == x
    ensures |s| <= 1
  {
    if |s| >= 2 {
      FirstTwoDiffer(s);
      assert false;
    }
  }

  lemma FirstTwoDiffer<T>(s: seq<T>)
    requires Distinct(s) && |s| >= 2
    ensures s[0] != s[1]
  {
  }

  /** Narrowing the rows a growth was for: rows created for rs were created for any superset. */
  lemma NewRowsForWider(p: PoolTables, q: PoolTables, rs: seq<TermRecord>, wider: seq<TermRecord>)
    requires Extends(p, q) && NewRowsFor(p, q, rs)
    requires forall r :: r in rs ==> r in wider
    ensures NewRowsFor(p, q, wider)
  {
    NewRowsForTrans(p, p, q, [], rs, wider);
  }
}
