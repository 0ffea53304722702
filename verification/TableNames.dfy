/**
 * Table names: the five tables of the store, each under a configurable
 * prefix that is put in front of the base name.
 */
module Naming {
  const ITEM_TERMS: string := "wbt_item_terms"
  const PROPERTY_TERMS: string := "wbt_property_terms"
  const TERM_IN_LANGUAGE: string := "wbt_term_in_lang"
  const TEXT_IN_LANGUAGE: string := "wbt_text_in_lang"
  const TEXT: string := "wbt_text"

  /** The prefix is accepted as given: the constructor does not check it. */
  datatype TableNames = TableNames(tableNamePrefix: string)
  {
    /** The prefix followed by s. */
    function Prefix(s: string): (r: string)
      ensures |r| == |tableNamePrefix| + |s|
      ensures r[..|tableNamePrefix|] == tableNamePrefix && r[|tableNamePrefix|..] == s
    {
      tableNamePrefix + s
    }

    /** Each table's name is the prefix followed by the table's base name. */
    function ItemTerms(): (r: string)
      ensures |r| == |tableNamePrefix| + |ITEM_TERMS|
      ensures r[..|tableNamePrefix|] == tableNamePrefix && r[|tableNamePrefix|..] == ITEM_TERMS
    {
      Prefix(ITEM_TERMS)
    }

    function PropertyTerms(): (r: string)
      ensures |r| == |tableNamePrefix| + |PROPERTY_TERMS|
      ensures r[..|tableNamePrefix|] == tableNamePrefix && r[|tableNamePrefix|..] == PROPERTY_TERMS
    {
      Prefix(PROPERTY_TERMS)
    }

    function TermInLanguage(): (r: string)
      ensures |r| == |tableNamePrefix| + |TERM_IN_LANGUAGE|
      ensures r[..|tableNamePrefix|] == tableNamePrefix && r[|tableNamePrefix|..] == TERM_IN_LANGUAGE
    {
      Prefix(TERM_IN_LANGUAGE)
    }

    function TextInLanguage(): (r: string)
      ensures |r| == |tableNamePrefix| + |TEXT_IN_LANGUAGE|
      ensures r[..|tableNamePrefix|] == tableNamePrefix && r[|tableNamePrefix|..] == TEXT_IN_LANGUAGE
    {
      Prefix(TEXT_IN_LANGUAGE)
    }

    function Text(): (r: string)
      ensures |r| == |tableNamePrefix| + |TEXT|
      ensures r[..|tableNamePrefix|] == tableNamePrefix && r[|tableNamePrefix|..] == TEXT
    {
      Prefix(TEXT)
    }

    /** The five table names, in the order item terms, property terms, term_in_lang, text_in_lang, text. */
    function All(): (r: seq<string>)
      ensures |r| == 5
    {
      [ItemTerms(), PropertyTerms(), TermInLanguage(), TextInLanguage(), Text()]
    }
  }

  /** The five base names, each of which is the name of its table under the empty prefix. */
  function BaseNames(): (r: seq<string>)
    ensures r == TableNames("").All()
  {
    [ITEM_TERMS, PROPERTY_TERMS, TERM_IN_LANGUAGE, TEXT_IN_LANGUAGE, TEXT]
  }

  /** The same prefix in front of two strings gives the same name only for the same string. */
  lemma PrefixCancels(names: TableNames, s: string, t: string)
    ensures names.Prefix(s) == names.Prefix(t) <==> s == t
  {
    if names.Prefix(s) == names.Prefix(t) {
      assert s == names.Prefix(s)[|names.tableNamePrefix|..];
    }
  }

  /** Under any prefix the five tables get five different names. */
  lemma NamesDistinct(names: TableNames)
    ensures forall i, j :: 0 <= i < j < 5 ==> names.All()[i] != names.All()[j]
  {
    var all := names.All();
    forall i, j | 0 <= i < j < 5
      ensures all[i] != all[j]
    {
      PrefixCancels(names, BaseNames()[i], BaseNames()[j]);
      assert all[i] == names.Prefix(BaseNames()[i]) && all[j] == names.Prefix(BaseNames()[j]);
    }
  }

  /** Two prefixes that give one table the same name are the same prefix. */
  lemma SuffixCancels(p: string, q: string, s: string)
    ensures p + s == q + s <==> p == q
  {
    if p + s == q + s {
      assert |p| == |q|;
      assert p == (p + s)[..|p|];
      assert q == (q + s)[..|q|];
    }
  }

  /** x starts with 'w' and has no other 'w'. */
  predicate OnlyLeadingW(x: string)
  {
    |x| > 0 && x[0] == 'w' && 'w' !in x[1..]
  }

  /** Every base name has its only 'w' in front. */
  lemma BaseNamesOnlyLeadingW(x: string)
    requires x in BaseNames()
    ensures OnlyLeadingW(x)
  {
    if x == ITEM_TERMS {
      assert x[1..] == "bt_item_terms";
    } else if x == PROPERTY_TERMS {
      assert x[1..] == "bt_property_terms";
    } else if x == TERM_IN_LANGUAGE {
      assert x[1..] == "bt_term_in_lang";
    } else if x == TEXT_IN_LANGUAGE {
      assert x[1..] == "bt_text_in_lang";
    } else {
      assert x[1..] == "bt_text";
    }
  }

  /** Under two different prefixes, no base name can be read as another one. */
  lemma PrefixedDiffer(p: string, q: string, x: string, y: string)
    requires p != q && OnlyLeadingW(x) && OnlyLeadingW(y)
    ensures p + x != q + y
  {
    if |p| == |q| {
      assert (p + x)[..|p|] == p;
      assert (q + y)[..|q|] == q;
    } else if |p + x| == |q + y| {
      if |p| < |q| {
        assert x[|q| - |p|] in x[1..];
        assert (p + x)[|q|] != (q + y)[|q|];
      } else {
        assert y[|p| - |q|] in y[1..];
        assert (p + x)[|p|] != (q + y)[|p|];
      }
    }
  }

  /** Different prefixes give the tables pairwise different names, so two stores under different prefixes share no table. */
  lemma PrefixesSeparate(a: TableNames, b: TableNames)
    requires a.tableNamePrefix != b.tableNamePrefix
    ensures forall i, j :: 0 <= i < 5 && 0 <= j < 5 ==> a.All()[i] != b.All()[j]
  {
    forall i, j | 0 <= i < 5 && 0 <= j < 5
      ensures a.All()[i] != b.All()[j]
    {
      BaseNamesOnlyLeadingW(BaseNames()[i]);
      BaseNamesOnlyLeadingW(BaseNames()[j]);
      PrefixedDiffer(a.tableNamePrefix, b.tableNamePrefix, BaseNames()[i], BaseNames()[j]);
      assert a.All()[i] == a.tableNamePrefix + BaseNames()[i];
      assert b.All()[j] == b.tableNamePrefix + BaseNames()[j];
    }
  }

  /** With no prefix the tables have their bare names. */
  lemma ExampleNoPrefix()
    ensures TableNames("").All() == BaseNames()
    ensures TableNames("").Text() == "wbt_text"
  {
  }

  /** With the prefix "prefix_" the text table is "prefix_wbt_text". */
  lemma ExamplePrefixText()
    ensures TableNames("prefix_").Text() == "prefix_wbt_text"
  {
  }

  /** With the prefix "prefix_" the text_in_lang table is "prefix_wbt_text_in_lang". */
  lemma ExamplePrefixTextInLanguage()
    ensures TableNames("prefix_").TextInLanguage() == "prefix_wbt_text_in_lang"
  {
  }

  /** With the prefix "prefix_" the term_in_lang table is "prefix_wbt_term_in_lang". */
  lemma ExamplePrefixTermInLanguage()
    ensures TableNames("prefix_").TermInLanguage() == "prefix_wbt_term_in_lang"
  {
  }

  /** With the prefix "prefix_" the property link table is "prefix_wbt_property_terms". */
  lemma ExamplePrefixPropertyTerms()
    ensures TableNames("prefix_").PropertyTerms() == "prefix_wbt_property_terms"
  {
  }

  /** With the prefix "prefix_" the item link table is "prefix_wbt_item_terms". */
  lemma ExamplePrefixItemTerms()
    ensures TableNames("prefix_").ItemTerms() == "prefix_wbt_item_terms"
  {
  }
}
