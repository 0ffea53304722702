# Doctrine term store, modelled in Dafny

This project models the term store of Wikibase, built on Doctrine DBAL. The
store keeps the labels, descriptions and aliases (the *fingerprint*) of items
and properties in five relational tables:

- `wbt_text`: one row per distinct text.
- `wbt_text_in_lang`: one row per distinct (language, text id) pair.
- `wbt_term_in_lang`: one row per distinct (type, text_in_lang id) pair. The
  type is 1 for a label, 2 for a description and 3 for an alias.
- `wbt_item_terms` and `wbt_property_terms`: the link tables; each row links
  an entity id to a term_in_lang id. The same pair can occur twice, for
  example for an alias repeated within one group.

The first three tables are shared pools: a term used by many entities is
stored once, and pool rows are never deleted.

What the model covers:

- **Acquire-or-insert chain** (`Database.NormalizedStore`). It looks up the
  text, then the text in its language, then the term in its language, and
  inserts each missing row. Its result is proved equal to a value-level
  specification (`Pools.AcquireTermInLanguage`). The lemmas about that
  specification give:
  - the returned id resolves to the term;
  - a second acquire returns the same id and adds nothing;
  - an existing row is reused;
  - each table grows by at most one row;
  - no table ever holds a duplicate.
- **The entity stores** (`EntityTermStores.EntityTermStore`). One class,
  parameterised by the entity kind, stands for both the item store and the
  property store.
  - `StoreTerms` deletes the entity's links, then inserts one link per label,
    per description and per alias, through loops with invariants.
  - `DeleteTerms` removes the entity's links.
  - `GetTerms` joins the link table with the three pools and regroups the
    rows with `Terms.RecordsToFingerprint`.
- **The database** (`Database.TermDatabase`). Each table is a sequence
  field, and the link tables carry auto-increment counters. A failing
  connection is the constant `broken`; every store operation then ends in
  the one `TermStoreException`.
- **Table names** (`Naming.TableNames`). Each name is the configured prefix
  in front of the table's base name.

`Scenarios` states the store's documented behaviours as sequences of calls
and proves them:

- the round trip;
- replacement, not merge;
- isolation between entities and between the two kinds;
- deletion;
- the empty fingerprint for an unknown entity;
- failures on a broken connection;
- sharing of pool rows between two entities of one kind.

## Model

| member | source | states |
|---|---|---|
| Terms.RecordsToFingerprint | src/PackagePrivate/Doctrine/NormalizedStore.php:125-154 | The loop over the rows, plus the final loop that sets the alias groups, computes exactly the left fold `Fold` of the rows. No rows gives the empty fingerprint. |
| Terms.ApplyRecord | src/PackagePrivate/Doctrine/NormalizedStore.php:131-146 | definition, no contract: one pass of the switch (set label, set description, append alias, or skip). |
| Terms.Fold | src/PackagePrivate/Doctrine/NormalizedStore.php:125-154 | definition, no contract: the switch applied to every row in order; `FoldLabelAt`, `FoldDescriptionAt`, `FoldAliasAt` and `FoldIgnoresUnknownTypes` state its properties. |
| Terms.FoldLabelAt | src/PackagePrivate/Doctrine/DoctrineItemTermStore.php:218-221 | A language has a label iff some label row has that language. The label is the text of the last such row (the last one wins). |
| Terms.FoldDescriptionAt | src/PackagePrivate/Doctrine/DoctrineItemTermStore.php:222-224 | A language has a description iff some description row has that language. The description is the text of the last such row. |
| Terms.FoldAliasAt | src/PackagePrivate/Doctrine/DoctrineItemTermStore.php:225-238 | A language has an alias group iff some alias row has that language. The group is the texts of those rows, in row order. |
| Terms.FoldIgnoresUnknownTypes | src/PackagePrivate/Doctrine/DoctrineItemTermStore.php:217-233 | Rows whose type is not 1, 2 or 3 do not affect the result, because the switch has no default branch. |
| Terms.RepresentsMembers | src/PackagePrivate/Doctrine/DoctrineItemTermStore.php:39-57 | Every row written for a fingerprint is one of its labels, descriptions or aliases, with a known type code. |
| Terms.RepresentsFold | src/PackagePrivate/Doctrine/DoctrineItemTermStore.php:212-241 | Regrouping the rows written for a fingerprint gives that fingerprint back, minus any empty alias groups. |
| Terms.FingerprintRoundTrip | src/PackagePrivate/Doctrine/DoctrineItemTermStore.php:212-241 | For a fingerprint with no empty alias group, regrouping its rows gives it back exactly. |
| Pools.IndexOf | src/PackagePrivate/Doctrine/NormalizedStore.php:100-108 | The lookup gives the first row equal to the key, or nothing iff no row equals it. |
| Pools.AcquireText | src/PackagePrivate/Doctrine/NormalizedStore.php:88-98 | definition, no contract: the found text row's id, or a new row appended with the next id; `AcquireTextFinds` and `AcquireTextValid` state its properties. |
| Pools.AcquireTextInLanguage | src/PackagePrivate/Doctrine/NormalizedStore.php:54-66 | definition, no contract: acquire the text, then the found or appended (language, text id) row; `AcquireTextInLanguageFinds` and `AcquireTextInLanguageValid` state its properties. |
| Pools.AcquireTermInLanguage | src/PackagePrivate/Doctrine/NormalizedStore.php:20-32 | definition, no contract: acquire the text in its language, then the found or appended (type, text_in_lang id) row; the acquire lemmas below state its properties. |
| Pools.Resolve | src/PackagePrivate/Doctrine/DoctrineItemTermStore.php:192-210 | definition, no contract: following one term_in_lang id through the two inner joins to (text, language, type), or nothing when a reference is dangling. |
| Pools.Join | src/PackagePrivate/Doctrine/DoctrineItemTermStore.php:192-210 | definition, no contract: one result row per link whose chain resolves, in link order; `JoinStable` and `JoinLength` state its properties. |
| Pools.AcquireTextFinds | src/PackagePrivate/Doctrine/NormalizedStore.php:88-98 | The id returned for a text names a text row holding that text. Only the text table can grow, and no existing row changes. |
| Pools.AcquireTextValid | src/PackagePrivate/Doctrine/NormalizedStore.php:88-98 | Acquiring a text keeps the text table free of duplicates and every reference valid. |
| Pools.AcquireTextInLanguageFinds | src/PackagePrivate/Doctrine/NormalizedStore.php:54-66 | The id returned names a text_in_lang row with the term's language, whose text id names a row holding the term's text. term_in_lang is untouched. |
| Pools.AcquireTextInLanguageValid | src/PackagePrivate/Doctrine/NormalizedStore.php:54-66 | Acquiring a text in a language keeps both tables free of duplicates and every reference valid. |
| Pools.AcquireFinds | src/PackagePrivate/Doctrine/NormalizedStore.php:20-32 | The term_in_lang id returned resolves, through the chain, to exactly (text, language, type), whatever state the tables are in. |
| Pools.AcquireResolves | src/PackagePrivate/Doctrine/NormalizedStore.php:20-32 | The term_in_lang id returned resolves, through the chain, to exactly (text, language, type). The pools stay valid and only grow. |
| Pools.AcquireAppendsAtMostOne | src/PackagePrivate/Doctrine/NormalizedStore.php:20-32 | One acquire adds at most one row to each of the three pool tables and changes no existing row. |
| Pools.AcquireIdempotent | src/PackagePrivate/Doctrine/NormalizedStore.php:20-32 | Acquiring the same term and type a second time returns the same id and adds no row. |
| Pools.AcquireReusesExisting | src/PackagePrivate/Doctrine/NormalizedStore.php:34-42 | If a term_in_lang row already resolves to the term and type, the acquire returns its id and leaves the pools untouched. |
| Pools.ResolveStable | src/PackagePrivate/Doctrine/NormalizedStore.php:44-52 | Inserting new pool rows never changes what an existing id resolves to. |
| Pools.LinksOf | src/PackagePrivate/Doctrine/DoctrineItemTermStore.php:192-210 | Filtering on the entity id keeps only that entity's link rows, all taken from the table. |
| Pools.Without | src/PackagePrivate/Doctrine/DoctrineItemTermStore.php:168-179 | After the delete, every remaining link belongs to another entity and was in the table before. |
| Pools.WithoutClears | src/PackagePrivate/Doctrine/DoctrineItemTermStore.php:168-179 | After deleting an entity's links, it has none. |
| Pools.WithoutSplits | src/PackagePrivate/Doctrine/DoctrineItemTermStore.php:168-179 | The delete takes every link of the entity and leaves every other entity's links as they were. |
| Pools.WithoutKeepsOthers | src/PackagePrivate/Doctrine/DoctrineItemTermStore.php:168-179 | Deleting one entity's links leaves every other entity's links unchanged, in order. |
| Pools.JoinStable | src/PackagePrivate/Doctrine/DoctrineItemTermStore.php:192-210 | While the pools only grow, the join rows of links that already resolve stay the same. |
| Pools.JoinLength | src/PackagePrivate/Doctrine/DoctrineItemTermStore.php:192-210 | When every link resolves, the inner join gives one row per link. |
| Pools.AcquireNewRows | src/PackagePrivate/Doctrine/NormalizedStore.php:20-32 | Every row an acquire creates belongs to the acquired term: its text, its (language, text), or its (type, text_in_lang). |
| Pools.DeleteStep | src/PackagePrivate/Doctrine/DoctrineItemTermStore.php:168-179 | After the delete the entity has no join rows. The pools are untouched and so are other entities' links. |
| Pools.InsertTermStep | src/PackagePrivate/Doctrine/DoctrineItemTermStore.php:59-67 | Inserting one link after an acquire adds exactly one join row for the entity, namely (text, language, type). Only rows for that term are created, and other entities' links stay the same. |
| Pools.OneRowEach | src/PackagePrivate/Doctrine/NormalizedStore.php:20-32 | Pools built from empty tables, holding only rows for one term, hold exactly one row in each table. |
| Database.TermDatabase.constructor | tests/Integration/Doctrine/DoctrineItemTermStoreTest.php:42-54 | A new database, as installed by the test set-up (or, with `broken`, the always-throwing connection of lines 260-268), is valid, has empty tables, and keeps the given failure flag. |
| Database.NormalizedStore.constructor | src/PackagePrivate/Doctrine/NormalizedStore.php:15-18 | The acquire chain works on the database it is given. |
| Database.TermDatabase.TermRecords | src/PackagePrivate/Doctrine/DoctrineItemTermStore.php:192-210 | definition, no contract: the 4-way inner join (`Join`) of the entity's links (`LinksOf`) with the three pools. |
| Database.TermDatabase.InsertText | src/PackagePrivate/Doctrine/NormalizedStore.php:110-117 | The insert appends the text, and lastInsertId is the new row's id. |
| Database.TermDatabase.InsertTextInLang | src/PackagePrivate/Doctrine/NormalizedStore.php:78-86 | The insert appends the (language, text id) row, and lastInsertId is its id. |
| Database.TermDatabase.InsertTermInLang | src/PackagePrivate/Doctrine/NormalizedStore.php:44-52 | The insert appends the (type, text_in_lang id) row, and lastInsertId is its id. |
| Database.TermDatabase.InsertLink | src/PackagePrivate/Doctrine/DoctrineItemTermStore.php:59-67 | The link is appended under the next auto-increment id. The other link table is untouched, and issued ids stay at or below the counter. |
| Database.TermDatabase.DeleteLinks | src/PackagePrivate/Doctrine/DoctrineItemTermStore.php:168-179 | The link table becomes `Without` of the old table and stays valid. The other link table is untouched. |
| Database.KeepOthers | src/PackagePrivate/Doctrine/DoctrineItemTermStore.php:168-179 | The scan over the link table keeps exactly the rows of other entities, in table order (`Without`). |
| Database.NormalizedStore.AcquireTermInLanguageId | src/PackagePrivate/Doctrine/NormalizedStore.php:20-32 | On a working connection the id and the new pools are those of the acquire specification, and the database stays valid. On a failing connection it returns an error and changes nothing. |
| Database.NormalizedStore.FindOrInsertTermInLanguage | src/PackagePrivate/Doctrine/NormalizedStore.php:20-52 | Lookup-else-insert on term_in_lang, after the text_in_lang acquire, matches `AcquireTermInLanguage`. |
| Database.NormalizedStore.AcquireTextInLanguageId | src/PackagePrivate/Doctrine/NormalizedStore.php:54-86 | Lookup-else-insert on text_in_lang, after the text acquire, matches `AcquireTextInLanguage`. |
| Database.NormalizedStore.AcquireTextId | src/PackagePrivate/Doctrine/NormalizedStore.php:88-117 | Lookup-else-insert on text matches `AcquireText`. |
| EntityTermStores.EntityTermStore.constructor | src/PackagePrivate/Doctrine/DoctrineItemTermStore.php:23-26 | The store keeps the database it is given, and its acquire chain works on that same database. |
| EntityTermStores.EntityTermStore.StoreTerms | src/PackagePrivate/Doctrine/DoctrineItemTermStore.php:28-37 | Afterwards the entity's join rows are exactly the fingerprint's terms, so the old ones are replaced, not merged. Other entities, the other kind and existing pool rows are unchanged, and only rows for the new terms are added. A failing connection gives the store error and changes nothing. |
| EntityTermStores.EntityTermStore.InsertTerms | src/PackagePrivate/Doctrine/DoctrineItemTermStore.php:39-57 | Starting with no rows for the entity, it leaves the entity's rows representing the fingerprint and keeps everything else. |
| EntityTermStores.EntityTermStore.InsertLabels | src/PackagePrivate/Doctrine/DoctrineItemTermStore.php:40-42 | One label row per language of the label map. |
| EntityTermStores.EntityTermStore.InsertDescriptions | src/PackagePrivate/Doctrine/DoctrineItemTermStore.php:44-46 | One description row per language of the description map. |
| EntityTermStores.EntityTermStore.InsertLabel | src/PackagePrivate/Doctrine/DoctrineItemTermStore.php:40-42 | One pass of the labels loop adds the label of a language not yet linked, and keeps everything else. |
| EntityTermStores.EntityTermStore.InsertDescription | src/PackagePrivate/Doctrine/DoctrineItemTermStore.php:44-46 | One pass of the descriptions loop adds the description of a language not yet linked, and keeps everything else. |
| EntityTermStores.EntityTermStore.InsertAliases | src/PackagePrivate/Doctrine/DoctrineItemTermStore.php:48-56 | Per language, one alias row per alias, in group order. |
| EntityTermStores.EntityTermStore.InsertAliasGroup | src/PackagePrivate/Doctrine/DoctrineItemTermStore.php:49-55 | The aliases of one group are added as rows in their order. |
| EntityTermStores.EntityTermStore.InsertTerm | src/PackagePrivate/Doctrine/DoctrineItemTermStore.php:59-67 | Exactly one join row (text, language, type) is appended for the entity, and everything else is kept. |
| EntityTermStores.EntityTermStore.DeleteTerms | src/PackagePrivate/Doctrine/DoctrineItemTermStore.php:168-179 | The entity ends with no links. Pool tables, the other kind and other entities' links are unchanged. A failing connection gives the store error and changes nothing. |
| EntityTermStores.EntityTermStore.GetTerms | src/PackagePrivate/Doctrine/DoctrineItemTermStore.php:181-190 | The result is the regrouping of the entity's join rows, and the empty fingerprint when the entity has no links. It fails, with the store error, exactly on a failing connection. |
| Naming.TableNames.Prefix | src/PackagePrivate/Doctrine/TableNames.php:41-43 | The result starts with the prefix and continues with the given string. |
| Naming.TableNames.ItemTerms | src/PackagePrivate/Doctrine/TableNames.php:21-23 | The name is the prefix followed by `wbt_item_terms`. |
| Naming.TableNames.PropertyTerms | src/PackagePrivate/Doctrine/TableNames.php:25-27 | The name is the prefix followed by `wbt_property_terms`. |
| Naming.TableNames.TermInLanguage | src/PackagePrivate/Doctrine/TableNames.php:29-31 | The name is the prefix followed by `wbt_term_in_lang`. |
| Naming.TableNames.TextInLanguage | src/PackagePrivate/Doctrine/TableNames.php:33-35 | The name is the prefix followed by `wbt_text_in_lang`. |
| Naming.TableNames.Text | src/PackagePrivate/Doctrine/TableNames.php:37-39 | The name is the prefix followed by `wbt_text`. |
| Naming.BaseNames | src/PackagePrivate/Doctrine/TableNames.php:9-13 | The five base names are the table names under the empty prefix. |
| Naming.PrefixCancels | src/PackagePrivate/Doctrine/TableNames.php:41-43 | Under one prefix, two strings give the same name iff they are equal. |
| Naming.NamesDistinct | src/PackagePrivate/Doctrine/TableNames.php:9-39 | Under any prefix the five tables have five different names. |
| Naming.PrefixesSeparate | src/PackagePrivate/Doctrine/TableNames.php:17-39 | Under two different prefixes every name of one store differs from every name of the other, the same table or not, so stores under different prefixes share no table. |
| Naming.ExampleNoPrefix | tests/Unit/Doctrine/TableNamesTest.php:15-20 | With the empty prefix the names are the bare names, and the text table is `wbt_text`. |
| Naming.ExamplePrefixText | tests/Unit/Doctrine/TableNamesTest.php:22-27 | With prefix `prefix_` the text table is `prefix_wbt_text`. |
| Naming.ExamplePrefixTextInLanguage | tests/Unit/Doctrine/TableNamesTest.php:29-34 | With prefix `prefix_` the text_in_lang table is `prefix_wbt_text_in_lang`. |
| Naming.ExamplePrefixTermInLanguage | tests/Unit/Doctrine/TableNamesTest.php:36-41 | With prefix `prefix_` the term_in_lang table is `prefix_wbt_term_in_lang`. |
| Naming.ExamplePrefixPropertyTerms | tests/Unit/Doctrine/TableNamesTest.php:43-48 | With prefix `prefix_` the property link table is `prefix_wbt_property_terms`. |
| Naming.ExamplePrefixItemTerms | tests/Unit/Doctrine/TableNamesTest.php:50-55 | With prefix `prefix_` the item link table is `prefix_wbt_item_terms`. |
| Scenarios.StoreThenGet | tests/Integration/Doctrine/DoctrineItemTermStoreTest.php:66-75 | Storing a fingerprint and reading it back gives the same fingerprint. |
| Scenarios.Replace | tests/Integration/Doctrine/DoctrineItemTermStoreTest.php:224-248 | A second store replaces the first fingerprint; nothing of the first remains. |
| Scenarios.StoreOther | tests/Integration/Doctrine/DoctrineItemTermStoreTest.php:124-162 | Storing terms for another entity does not change what this entity reads back. |
| Scenarios.ItemAndProperty | src/PackagePrivate/Doctrine/DoctrinePropertyTermStore.php:61-69 | An item and a property with the same numeric id, stored in the same database, keep separate terms. |
| Scenarios.StoreThenDelete | tests/Integration/Doctrine/DoctrineItemTermStoreTest.php:164-178 | After deleteTerms, getTerms gives the empty fingerprint. |
| Scenarios.DeleteOther | tests/Integration/Doctrine/DoctrineItemTermStoreTest.php:180-194 | Deleting another entity's terms leaves this entity's terms intact. |
| Scenarios.UnknownEntity | tests/Integration/Doctrine/DoctrineItemTermStoreTest.php:56-61 | On an empty database, reading any entity gives the empty fingerprint. |
| Scenarios.FailingConnection | tests/Integration/Doctrine/DoctrineItemTermStoreTest.php:250-282 | On a failing connection, storeTerms, deleteTerms and getTerms each end in the one store error. |
| Scenarios.SharedRows | tests/Integration/Doctrine/DoctrineItemTermStoreTest.php:196-214 | For either kind (the property version is DoctrinePropertyTermStoreTest.php:198-216), after two entities store the same single label, each pool table holds exactly one row, and the second entity reads the label back. |

## Left out

- Schema creation, install and uninstall (`DoctrineSchemaCreator`, `DoctrineTermStore`), the store factory and the interfaces are not part of this model. They create tables and wire objects, and hold no term logic.
- SQL text, PDO parameter types and the DBAL driver are not modelled. Each table is a sequence of rows, a lookup is the first equal row (`IndexOf`), and the join is a filter over the link table.
- Result order of the getTerms join: SQL gives no order. The model returns the rows in link-table order, so "the last label wins" and "aliases in row order" refer to that order.
- String comparison in the lookups is exact equality of character sequences. Database collations that fold case or trailing spaces are not modelled.
- Transactions and concurrency: the source runs none, and the model runs each operation alone.
- EntityTermStores.EntityTermStore.StoreTerms: the connection either works for the whole call or fails at once. A failure partway through, after some rows have been written, is not modelled, so the model's failure case changes nothing.
- Exception message and code: failures are the single value `TermStoreException`, and the DBAL message and code it carries are dropped.
- The item store and the property store each hold their own copy of the acquire chain and of recordsToFingerprint, with different column names. Both copies are modelled once: by `Database.NormalizedStore` and `Terms.RecordsToFingerprint`, and by the one `EntityTermStore` class parameterised by kind.
- `NormalizedStore.getFingerprint` (NormalizedStore.php:119-123) only fetches a statement and passes the rows to recordsToFingerprint; it is covered by `Terms.RecordsToFingerprint`.
- Table names are not threaded through the in-memory tables. Each table is its own field, and `Naming` proves separately that the names it produces are distinct.
- Prefix validation: the tests expect the constructor to refuse prefixes that are not alphanumeric (TableNamesTest.php:57-74). The constructor in TableNames.php:17-19 accepts every prefix, and the model follows the code.
- Removal of pool rows that no link uses any more is not done by the source. The model keeps every pool row, which the store contracts state.
- Entity ids are their numeric ids as `nat`, and the `Q`/`P` id syntax belongs to the host data model. Auto-increment ids are unbounded naturals: a pool row's id is its position plus one, and a link's id comes from a counter that deletes do not reset.
- The host data model's own normalisation of fingerprints (for example, how an alias group list treats empty or repeated aliases) is not modelled. `Terms.FingerprintRoundTrip` therefore requires that no alias group is empty, as is true of any fingerprint the host builds, and a fingerprint that has empty groups comes back without them (`Terms.RepresentsFold`).

