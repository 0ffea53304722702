/**
 * The term values the store reads and writes: terms, fingerprints, the flat
 * rows of the getTerms join, and the regrouping of those rows into a
 * fingerprint (recordsToFingerprint).
 */
module Terms {

  /** Type codes of the term_in_lang table. */
  const TYPE_LABEL: int := 1
  const TYPE_DESCRIPTION: int := 2
  const TYPE_ALIAS: int := 3

  predicate IsKnownType(typeId: int) {
    typeId == TYPE_LABEL || typeId == TYPE_DESCRIPTION || typeId == TYPE_ALIAS
  }

  /** A text in one language. */
  datatype Term = Term(languageCode: string, text: string)

  /** One row of the getTerms join: the text, its language and its type code. */
  datatype TermRecord = TermRecord(text: string, language: string, typeId: int)

  /**
   * The terms of one entity: at most one label and one description per
   * language, and a list of aliases per language.
   */
  datatype Fingerprint = Fingerprint(
    labels: map<string, string>,
    descriptions: map<string, string>,
    aliasGroups: map<string, seq<string>>)

  const EmptyFingerprint := Fingerprint(map[], map[], map[])

  /** Alias groups are never empty in a fingerprint built by the host system. */
  ghost predicate WellFormed(fp: Fingerprint) {
    forall lang :: lang in fp.aliasGroups ==> fp.aliasGroups[lang] != []
  }

  /** The fingerprint with its empty alias groups dropped. */
  function Canonical(fp: Fingerprint): (c: Fingerprint)
    ensures WellFormed(c)
    ensures c.labels == fp.labels && c.descriptions == fp.descriptions
    ensures forall lang :: lang in c.aliasGroups <==> lang in fp.aliasGroups && fp.aliasGroups[lang] != []
  {
    fp.(aliasGroups := map lang | lang in fp.aliasGroups && fp.aliasGroups[lang] != [] :: fp.aliasGroups[lang])
  }

  lemma CanonicalOfWellFormed(fp: Fingerprint)
    requires WellFormed(fp)
    ensures Canonical(fp) == fp
  {
    assert Canonical(fp).aliasGroups == fp.aliasGroups;
  }

  /** The texts of a map entry as a list: one text, or none. */
  function Single(m: map<string, string>, lang: string): seq<string> {
    if lang in m then [m[lang]] else []
  }

  /** The alias group of a language, or the empty list. */
  function GroupOf(m: map<string, seq<string>>, lang: string): seq<string> {
    if lang in m then m[lang] else []
  }

  /** One step of recordsToFingerprint. */
  function ApplyRecord(fp: Fingerprint, r: TermRecord): Fingerprint {
    if r.typeId == TYPE_LABEL then
      fp.(labels := fp.labels[r.language := r.text])
    else if r.typeId == TYPE_DESCRIPTION then
      fp.(descriptions := fp.descriptions[r.language := r.text])
    else if r.typeId == TYPE_ALIAS then
      fp.(aliasGroups := fp.aliasGroups[r.language := GroupOf(fp.aliasGroups, r.language) + [r.text]])
    else
      fp
  }

  /** recordsToFingerprint as a left fold over the rows. */
  function Fold(rs: seq<TermRecord>): Fingerprint
    decreases |rs|
  {
    if rs == [] then EmptyFingerprint else ApplyRecord(Fold(rs[..|rs| - 1]), rs[|rs| - 1])
  }

  /** The texts, in row order, of the rows with a given type and language. */
  function TextsOf(rs: seq<TermRecord>, typeId: int, lang: string): seq<string>
    decreases |rs|
  {
    if rs == [] then []
    else
      var r := rs[|rs| - 1];
      TextsOf(rs[..|rs| - 1], typeId, lang) + (if r.typeId == typeId && r.language == lang then [r.text] else [])
  }

  /** The rows whose type is label, description or alias. */
  function KnownOnly(rs: seq<TermRecord>): seq<TermRecord>
    decreases |rs|
  {
    if rs == [] then []
    else KnownOnly(rs[..|rs| - 1]) + (if IsKnownType(rs[|rs| - 1].typeId) then [rs[|rs| - 1]] else [])
  }

  lemma TextsOfSnoc(rs: seq<TermRecord>, r: TermRecord, typeId: int, lang: string)
    ensures TextsOf(rs + [r], typeId, lang)
      == TextsOf(rs, typeId, lang) + (if r.typeId == typeId && r.language == lang then [r.text] else [])
  {
    assert (rs + [r])[..|rs|] == rs;
  }

  lemma FoldSnoc(rs: seq<TermRecord>, r: TermRecord)
    ensures Fold(rs + [r]) == ApplyRecord(Fold(rs), r)
  {
    assert (rs + [r])[..|rs|] == rs;
  }

  /** Labels: a language has a label iff some label row has that language, and the last such row wins. */
  lemma {:induction false} FoldLabelAt(rs: seq<TermRecord>, lang: string)
    ensures lang in Fold(rs).labels <==> TextsOf(rs, TYPE_LABEL, lang) != []
    ensures var ts := TextsOf(rs, TYPE_LABEL, lang);
      lang in Fold(rs).labels ==> Fold(rs).labels[lang] == ts[|ts| - 1]
    decreases |rs|
  {
    if rs != [] {
      FoldLabelAt(rs[..|rs| - 1], lang);
    }
  }

  /** Descriptions: as for labels, the last description row of a language wins. */
  lemma {:induction false} FoldDescriptionAt(rs: seq<TermRecord>, lang: string)
    ensures lang in Fold(rs).descriptions <==> TextsOf(rs, TYPE_DESCRIPTION, lang) != []
    ensures var ts := TextsOf(rs, TYPE_DESCRIPTION, lang);
      lang in Fold(rs).descriptions ==> Fold(rs).descriptions[lang] == ts[|ts| - 1]
    decreases |rs|
  {
    if rs != [] {
      FoldDescriptionAt(rs[..|rs| - 1], lang);
    }
  }

  /** Aliases: the group of a language is exactly its alias rows' texts, in row order. */
  lemma {:induction false} FoldAliasAt(rs: seq<TermRecord>, lang: string)
    ensures lang in Fold(rs).aliasGroups <==> TextsOf(rs, TYPE_ALIAS, lang) != []
    ensures lang in Fold(rs).aliasGroups ==> Fold(rs).aliasGroups[lang] == TextsOf(rs, TYPE_ALIAS, lang)
    decreases |rs|
  {
    if rs != [] {
      FoldAliasAt(rs[..|rs| - 1], lang);
    }
  }

  /** Rows of any other type code are skipped: the switch has no default branch. */
  lemma {:induction false} FoldIgnoresUnknownTypes(rs: seq<TermRecord>)
    ensures Fold(KnownOnly(rs)) == Fold(rs)
    decreases |rs|
  {
    if rs != [] {
      var init, r := rs[..|rs| - 1], rs[|rs| - 1];
      FoldIgnoresUnknownTypes(init);
      if IsKnownType(r.typeId) {
        FoldSnoc(KnownOnly(init), r);
      } else {
        assert KnownOnly(rs) == KnownOnly(init);
      }
    }
  }

  /**
   * The rows rs carry exactly the given labels, descriptions and alias groups:
   * per language one row per label, one per description and one per alias
   * string, in group order, and no row of another type.
   */
  ghost predicate Tally(rs: seq<TermRecord>, labels: map<string, string>,
                        descriptions: map<string, string>, aliasGroups: map<string, seq<string>>)
  {
    && (forall i :: 0 <= i < |rs| ==> IsKnownType(rs[i].typeId))
    && (forall lang :: TextsOf(rs, TYPE_LABEL, lang) == Single(labels, lang))
    && (forall lang :: TextsOf(rs, TYPE_DESCRIPTION, lang) == Single(descriptions, lang))
    && (forall lang :: TextsOf(rs, TYPE_ALIAS, lang) == GroupOf(aliasGroups, lang))
  }

  /** The rows rs are exactly the terms of fp. */
  ghost predicate Represents(rs: seq<TermRecord>, fp: Fingerprint) {
    Tally(rs, fp.labels, fp.descriptions, fp.aliasGroups)
  }

  /** A row of another type leaves the single texts of this type, per language, as they were. */
  lemma KeepsSingles(rs: seq<TermRecord>, r: TermRecord, typeId: int, m: map<string, string>)
    requires r.typeId != typeId
    requires forall l :: TextsOf(rs, typeId, l) == Single(m, l)
    ensures forall l :: TextsOf(rs + [r], typeId, l) == Single(m, l)
  {
    forall l ensures TextsOf(rs + [r], typeId, l) == Single(m, l) {
      TextsOfSnoc(rs, r, typeId, l);
    }
  }

  /** A row that is not an alias leaves the alias groups as they were. */
  lemma KeepsGroups(rs: seq<TermRecord>, r: TermRecord, groups: map<string, seq<string>>)
    requires r.typeId != TYPE_ALIAS
    requires forall l :: TextsOf(rs, TYPE_ALIAS, l) == GroupOf(groups, l)
    ensures forall l :: TextsOf(rs + [r], TYPE_ALIAS, l) == GroupOf(groups, l)
  {
    forall l ensures TextsOf(rs + [r], TYPE_ALIAS, l) == GroupOf(groups, l) {
      TextsOfSnoc(rs, r, TYPE_ALIAS, l);
    }
  }

  /** A row for a language that has no text of its type yet sets that language's text. */
  lemma AddsSingle(rs: seq<TermRecord>, r: TermRecord, m: map<string, string>)
    requires r.language !in m
    requires forall l :: TextsOf(rs, r.typeId, l) == Single(m, l)
    ensures forall l :: TextsOf(rs + [r], r.typeId, l) == Single(m[r.language := r.text], l)
  {
    forall l ensures TextsOf(rs + [r], r.typeId, l) == Single(m[r.language := r.text], l) {
      TextsOfSnoc(rs, r, r.typeId, l);
    }
  }

  /** An alias row extends its language's group by its text. */
  lemma AddsToGroup(rs: seq<TermRecord>, r: TermRecord, groups: map<string, seq<string>>)
    requires r.typeId == TYPE_ALIAS
    requires forall l :: TextsOf(rs, TYPE_ALIAS, l) == GroupOf(groups, l)
    ensures forall l ::
      TextsOf(rs + [r], TYPE_ALIAS, l) == GroupOf(groups[r.language := GroupOf(groups, r.language) + [r.text]], l)
  {
    forall l ensures TextsOf(rs + [r], TYPE_ALIAS, l)
      == GroupOf(groups[r.language := GroupOf(groups, r.language) + [r.text]], l)
    {
      TextsOfSnoc(rs, r, TYPE_ALIAS, l);
    }
  }

  /** A row of a known type keeps every row of a known type. */
  lemma KeepsKnown(rs: seq<TermRecord>, r: TermRecord)
    requires IsKnownType(r.typeId)
    requires forall i :: 0 <= i < |rs| ==> IsKnownType(rs[i].typeId)
    ensures forall i :: 0 <= i < |rs + [r]| ==> IsKnownType((rs + [r])[i].typeId)
  {
  }

  /** Appending a label row for a new language adds that label. */
  lemma TallyAddLabel(rs: seq<TermRecord>, labels: map<string, string>, descriptions: map<string, string>,
                      aliasGroups: map<string, seq<string>>, lang: string, text: string)
    requires Tally(rs, labels, descriptions, aliasGroups) && lang !in labels
    ensures Tally(rs + [TermRecord(text, lang, TYPE_LABEL)], labels[lang := text], descriptions, aliasGroups)
  {
    var rec := TermRecord(text, lang, TYPE_LABEL);
    KeepsKnown(rs, rec);
    AddsSingle(rs, rec, labels);
    KeepsSingles(rs, rec, TYPE_DESCRIPTION, descriptions);
    KeepsGroups(rs, rec, aliasGroups);
  }

  /** Appending a description row for a new language adds that description. */
  lemma TallyAddDescription(rs: seq<TermRecord>, labels: map<string, string>, descriptions: map<string, string>,
                            aliasGroups: map<string, seq<string>>, lang: string, text: string)
    requires Tally(rs, labels, descriptions, aliasGroups) && lang !in descriptions
    ensures Tally(rs + [TermRecord(text, lang, TYPE_DESCRIPTION)], labels, descriptions[lang := text], aliasGroups)
  {
    var rec := TermRecord(text, lang, TYPE_DESCRIPTION);
    KeepsKnown(rs, rec);
    KeepsSingles(rs, rec, TYPE_LABEL, labels);
    AddsSingle(rs, rec, descriptions);
    KeepsGroups(rs, rec, aliasGroups);
  }

  /** Appending an alias row extends its language's group by that alias. */
  lemma TallyAddAlias(rs: seq<TermRecord>, labels: map<string, string>, descriptions: map<string, string>,
                      aliasGroups: map<string, seq<string>>, lang: string, text: string)
    requires Tally(rs, labels, descriptions, aliasGroups)
    ensures Tally(rs + [TermRecord(text, lang, TYPE_ALIAS)], labels, descriptions,
                  aliasGroups[lang := GroupOf(aliasGroups, lang) + [text]])
  {
    var rec := TermRecord(text, lang, TYPE_ALIAS);
    KeepsKnown(rs, rec);
    KeepsSingles(rs, rec, TYPE_LABEL, labels);
    KeepsSingles(rs, rec, TYPE_DESCRIPTION, descriptions);
    AddsToGroup(rs, rec, aliasGroups);
  }

  /** TallyAddAlias for the k-th alias of a group being inserted in order. */
  lemma TallyAddAliasAt(rs: seq<TermRecord>, labels: map<string, string>, descriptions: map<string, string>,
                        aliasGroups: map<string, seq<string>>, lang: string, aliases: seq<string>, k: nat)
    requires k < |aliases|
    requires Tally(rs, labels, descriptions, aliasGroups[lang := aliases[..k]])
    ensures Tally(rs + [TermRecord(aliases[k], lang, TYPE_ALIAS)], labels, descriptions,
                  aliasGroups[lang := aliases[..k + 1]])
  {
    var before := aliasGroups[lang := aliases[..k]];
    TallyAddAlias(rs, labels, descriptions, before, lang, aliases[k]);
    assert aliases[..k + 1] == aliases[..k] + [aliases[k]];
    assert before[lang := GroupOf(before, lang) + [aliases[k]]] == aliasGroups[lang := aliases[..k + 1]];
  }

  /** A language without alias rows may be given an empty alias group. */
  lemma TallyEmptyGroup(rs: seq<TermRecord>, labels: map<string, string>, descriptions: map<string, string>,
                        aliasGroups: map<string, seq<string>>, lang: string)
    requires Tally(rs, labels, descriptions, aliasGroups) && lang !in aliasGroups
    ensures Tally(rs, labels, descriptions, aliasGroups[lang := []])
  {
    forall l ensures TextsOf(rs, TYPE_ALIAS, l) == GroupOf(aliasGroups[lang := []], l) {
      assert GroupOf(aliasGroups[lang := []], l) == GroupOf(aliasGroups, l);
    }
  }

  /** Every row that represents fp is one of fp's terms. */
  lemma {:induction false} RepresentsMembers(rs: seq<TermRecord>, fp: Fingerprint, r: TermRecord)
    requires Represents(rs, fp) && r in rs
    ensures r.typeId == TYPE_LABEL ==> r.language in fp.labels && fp.labels[r.language] == r.text
    ensures r.typeId == TYPE_DESCRIPTION ==> r.language in fp.descriptions && fp.descriptions[r.language] == r.text
    ensures r.typeId == TYPE_ALIAS ==> r.language in fp.aliasGroups && r.text in fp.aliasGroups[r.language]
    ensures IsKnownType(r.typeId)
  {
    InTextsOf(rs, r);
  }

  lemma {:induction false} InTextsOf(rs: seq<TermRecord>, r: TermRecord)
    requires r in rs
    ensures r.text in TextsOf(rs, r.typeId, r.language)
    decreases |rs|
  {
    var init := rs[..|rs| - 1];
    if r != rs[|rs| - 1] {
      assert rs == init + [rs[|rs| - 1]];
      InTextsOf(init, r);
    }
  }

  /** Regrouping rows that represent fp gives back fp, without its empty alias groups. */
  lemma RepresentsFold(rs: seq<TermRecord>, fp: Fingerprint)
    requires Represents(rs, fp)
    ensures Fold(rs) == Canonical(fp)
  {
    var f, c := Fold(rs), Canonical(fp);
    forall lang
      ensures (lang in f.labels <==> lang in c.labels) && (lang in c.labels ==> f.labels[lang] == c.labels[lang])
      ensures (lang in f.descriptions <==> lang in c.descriptions)
      ensures lang in c.descriptions ==> f.descriptions[lang] == c.descriptions[lang]
      ensures (lang in f.aliasGroups <==> lang in c.aliasGroups)
      ensures lang in c.aliasGroups ==> f.aliasGroups[lang] == c.aliasGroups[lang]
    {
      FoldLabelAt(rs, lang);
      FoldDescriptionAt(rs, lang);
      FoldAliasAt(rs, lang);
      assert TextsOf(rs, TYPE_LABEL, lang) == Single(fp.labels, lang);
      assert TextsOf(rs, TYPE_DESCRIPTION, lang) == Single(fp.descriptions, lang);
      assert TextsOf(rs, TYPE_ALIAS, lang) == GroupOf(fp.aliasGroups, lang);
    }
    assert f.labels == c.labels;
    assert f.descriptions == c.descriptions;
    assert f.aliasGroups == c.aliasGroups;
  }

  /**
   * recordsToFingerprint: labels and descriptions are set per row (the last
   * row of a language wins), aliases are collected per language in row order
   * and set as groups at the end, rows of other types are skipped.
   */
  method RecordsToFingerprint(termRecords: seq<TermRecord>) returns (fingerprint: Fingerprint)
    ensures fingerprint == Fold(termRecords)
    ensures termRecords == [] ==> fingerprint == EmptyFingerprint
  {
    fingerprint := EmptyFingerprint;
    var aliasGroups: map<string, seq<string>> := map[];
    for i := 0 to |termRecords|
      invariant fingerprint.labels == Fold(termRecords[..i]).labels
      invariant fingerprint.descriptions == Fold(termRecords[..i]).descriptions
      invariant fingerprint.aliasGroups == map[]
      invariant aliasGroups == Fold(termRecords[..i]).aliasGroups
    {
      var term := termRecords[i];
      assert termRecords[..i + 1] == termRecords[..i] + [term];
      FoldSnoc(termRecords[..i], term);
      if term.typeId == TYPE_LABEL {
        fingerprint := fingerprint.(labels := fingerprint.labels[term.language := term.text]);
      } else if term.typeId == TYPE_DESCRIPTION {
        fingerprint := fingerprint.(descriptions := fingerprint.descriptions[term.language := term.text]);
      } else if term.typeId == TYPE_ALIAS {
        if term.language !in aliasGroups {
          aliasGroups := aliasGroups[term.language := []];
        }
        aliasGroups := aliasGroups[term.language := aliasGroups[term.language] + [term.text]];
      }
    }
    assert termRecords[..|termRecords|] == termRecords;
    var languages := aliasGroups.Keys;
    while languages != {}
      invariant languages <= aliasGroups.Keys
      invariant fingerprint.labels == Fold(termRecords).labels
      invariant fingerprint.descriptions == Fold(termRecords).descriptions
      invariant fingerprint.aliasGroups
        == map lang | lang in aliasGroups && lang !in languages :: aliasGroups[lang]
      decreases languages
    {
      var language :| language in languages;
      fingerprint := fingerprint.(aliasGroups := fingerprint.aliasGroups[language := aliasGroups[language]]);
      languages := languages - {language};
    }
    assert fingerprint.aliasGroups == aliasGroups;
  }

  /**
   * The round trip: rows that represent a fingerprint fold back to that
   * fingerprint, provided it has no empty alias group (which the
   * fingerprint's own alias group list never holds).
   */
  lemma FingerprintRoundTrip(rs: seq<TermRecord>, fp: Fingerprint)
    requires Represents(rs, fp) && WellFormed(fp)
    ensures Fold(rs) == fp
  {
    RepresentsFold(rs, fp);
    CanonicalOfWellFormed(fp);
  }

  /** The rows that represent a fingerprint with a single label are that label's rows, and there is one. */
  lemma SingleLabelRows(rs: seq<TermRecord>, lang: string, text: string)
    requires Represents(rs, Fingerprint(map[lang := text], map[], map[]))
    ensures rs != []
    ensures forall r :: r in rs ==> r == TermRecord(text, lang, TYPE_LABEL)
  {
    var fp := Fingerprint(map[lang := text], map[], map[]);
    assert TextsOf(rs, TYPE_LABEL, lang) == [text];
    forall r | r in rs
      ensures r == TermRecord(text, lang, TYPE_LABEL)
    {
      RepresentsMembers(rs, fp, r);
    }
  }
}
