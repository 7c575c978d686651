# RapidFTR child repository, modelled in Dafny

RapidFTR-Android keeps the child records on the phone in a SQLite table `children`.
`ChildRepository` is the class that reads and writes that table. Each row holds:
- the record's unique id;
- its JSON body;
- a synced flag;
- the owner;
- a creation time;
- the server's internal id and revision (`_id`, `_rev`).

The model covers these parts of `ChildRepository`:
- lookup by id (`get`, `exists`);
- the owner-scoped queries (`size`, `getChildrenByOwner`, `getRecordIdsByOwner`, `deleteChildrenByOwner`);
- the two-stage search (`getMatchingChildren`): a SQL `LIKE` pre-filter, then a regular expression over the short id and the highlighted form fields;
- the writes (`createOrUpdate` with `addHistory`, and `update`);
- the sync queries (`toBeSynced`, `currentUsersUnsyncedRecords`, `getAllIdsAndRevs`);
- the batch lookups (`getChildrenByIds`, `getAllWithInternalIds`).

The table is a sequence of `Row`s in insertion order. The class `Repository.ChildRepository` holds it as the field `rows`, and its invariant is that ids are unique. SQLite's `replace` removes the row with the same id and appends the new one (`ChildTable.Upsert`).

Modules:
- `Outcomes`: `Option`, `Result`, `Outcome` (the result of an operation that returns nothing or throws) and `Error`, the three failures the repository lets escape: `NullPointer` from `get`, `IllegalArgument` from `createOrUpdate`, and `SqlSyntax` for the SQLiteException `rawQuery` throws on an empty condition.
- `Text`: joining strings with a separator, and where each piece lands.
- `JavaSplit`: Java's `String.split("\\s+")`, modelled character by character, with `\s` as Android's ICU-backed regular expressions read it (Unicode White_Space, not only the six ASCII characters of Java SE):
  - input with no whitespace is one token, so `""` gives `[""]`;
  - a leading whitespace run gives a leading `""`;
  - trailing empty strings are dropped, so all-whitespace input gives no token.
  - the cuts fall exactly at the whitespace runs: the tokens, the runs between them and the trailing whitespace give back the input (`SplitRoundTrip`).
- `SearchQuery`: the two string builders, the SQL pre-filter and the regular-expression source. Each is a method with its loop, proved equal to a specification function (`SearchSql`, `PatternSource`). Those functions apply `SqlFor` and `PatternFor` to the tokens of the search. The shape lemmas are stated for any token list, so they hold for the tokens of every search.
- `ChildTable`: rows, the `Child` value (`childFrom`), and the JSON accessors `Child` offers. Those accessors are a parameter record, `ChildJson`. The module also has the table queries (`Where`, `Find`) and the two writes (`Upsert`, `Patched`).
- `SearchFilter`: the second-stage filter as a method with its nested loops. It is proved equal to a left fold (`Criteria.Filtered`). The module also proves order, soundness and completeness.
- `Repository`: the class `ChildRepository`.

Whether a string matches a pattern is a parameter, `Matcher`. So is the set of rows SQLite returns for the pre-filter query, `QueryEngine`.

A whitespace-only search has no tokens at all:
- the query's condition is empty: `WHERE ()` for a verified user, `WHERE ( child_owner = '<user>' AND )` otherwise (`SearchQuery.BlankSearch`);
- SQLite cannot parse either query, so `rawQuery` throws before the filter runs;
- the model's `GetMatchingChildren` fails with `SqlSyntax` exactly for such searches (`SearchQuery.EmptyConditionIff`).

A search with leading whitespace gets an empty first token. That token's clause admits every row, and its alternative admits every value without a line terminator (`SearchQuery.LeadingWhitespaceClause`, `SearchQuery.LeadingWhitespaceAlternative`).

Four behaviours of the code worth knowing:
- for an unverified user the owner test is spliced, ending in ` AND `, in front of the first token's clause, and the clauses are not parenthesised; under SQL precedence (AND before OR) it restricts only the first `child_json LIKE`, so other owners' rows whose id contains a token, or any row at all for the empty search, pass the pre-filter (`SearchQuery.SqlClauseAt`, `SearchQuery.OwnerClauseIff`), and the regular-expression stage does not look at the owner;
- `get` of a missing id raises `NullPointerException(id)`; there is no dedicated not-found error.
- `update` of a missing id writes nothing and adds no row.
- `getChildrenByIds` fails at the first missing id and returns nothing for the ids before it.

## Model

| member | source | states |
|---|---|---|
| `JavaSplit.SplitRoundTrip` | RapidFTR-Android/src/main/java/com/rapidftr/repository/ChildRepository.java:90 | the tokens, with a non-empty whitespace run between each two of them and the whitespace after the last, give back the input; with no token, the input is all whitespace |
| `JavaSplit.SplitTokensAreWords` | RapidFTR-Android/src/main/java/com/rapidftr/repository/ChildRepository.java:90 | no token contains a whitespace character |
| `JavaSplit.SplitTokensNonEmpty` | RapidFTR-Android/src/main/java/com/rapidftr/repository/ChildRepository.java:121 | only the first token can be empty |
| `JavaSplit.SplitEmptyIff` | RapidFTR-Android/src/main/java/com/rapidftr/repository/ChildRepository.java:121 | there are no tokens exactly when the input is non-empty and all whitespace |
| `JavaSplit.LeadingWhitespaceToken` | RapidFTR-Android/src/main/java/com/rapidftr/repository/ChildRepository.java:90 | leading whitespace before a non-blank input gives an empty first token followed by at least one more |
| `SearchQuery.BuildSqlQueryForSearch` | RapidFTR-Android/src/main/java/com/rapidftr/repository/ChildRepository.java:88-98 | the string built by the loop is the head, the owner filter, one LIKE clause per token joined by " OR ", and ")" (`SearchSql`) |
| `SearchQuery.SqlClauseAt` | RapidFTR-Android/src/main/java/com/rapidftr/repository/ChildRepository.java:91-96 | token k's clause `child_json LIKE '%t%' OR id LIKE '%t%'` stands at its offset, in token order; exactly one " OR " follows every clause but the last, and the last is followed only by ")" |
| `SearchQuery.SqlFrame` | RapidFTR-Android/src/main/java/com/rapidftr/repository/ChildRepository.java:89-97 | the query begins with `SELECT child_json, synced FROM children WHERE (` and the owner filter and ends with ")"; nothing lies between them iff there is no token |
| `SearchQuery.OwnerClauseIff` | RapidFTR-Android/src/main/java/com/rapidftr/repository/ChildRepository.java:132-138 | ` child_owner = '<user>' AND ` stands right after the opening parenthesis iff the current user is not verified |
| `SearchQuery.OwnerClausePresent` | RapidFTR-Android/src/main/java/com/rapidftr/repository/ChildRepository.java:133-134 | an unverified user's query has ` child_owner = '<user>' AND ` right after the opening parenthesis |
| `SearchQuery.OwnerClauseAbsent` | RapidFTR-Android/src/main/java/com/rapidftr/repository/ChildRepository.java:135-136 | a verified user's query has no owner filter there |
| `SearchQuery.BuildPatternFromSearchString` | RapidFTR-Android/src/main/java/com/rapidftr/repository/ChildRepository.java:120-130 | the string built by the loop is the tokens, each wrapped as `.*(t)+.*`, joined by "\|" (`PatternSource`) |
| `SearchQuery.PatternAlternativeAt` | RapidFTR-Android/src/main/java/com/rapidftr/repository/ChildRepository.java:123-128 | token k's alternative stands at its offset, in token order; exactly one "\|" follows every alternative but the last, which ends the pattern |
| `SearchQuery.EmptySearch` | RapidFTR-Android/src/main/java/com/rapidftr/repository/ChildRepository.java:88-130 | the empty search is one empty token: the pattern `.*()+.*` and the clause `child_json LIKE '%%' OR id LIKE '%%'` |
| `SearchQuery.BlankSearch` | RapidFTR-Android/src/main/java/com/rapidftr/repository/ChildRepository.java:88-130 | a whitespace-only search gives the empty pattern and a query whose condition is empty, "()" |
| `SearchQuery.EmptyConditionIff` | RapidFTR-Android/src/main/java/com/rapidftr/repository/ChildRepository.java:88-98 | the built query has an empty condition (`WHERE ()`, or `WHERE ( child_owner = '<user>' AND )`) exactly when the search is non-empty and all whitespace |
| `SearchQuery.FirstClause` | RapidFTR-Android/src/main/java/com/rapidftr/repository/ChildRepository.java:91-95 | with two tokens or more, the first token's clause opens the condition and one " OR " follows it |
| `SearchQuery.LeadingWhitespaceClause` | RapidFTR-Android/src/main/java/com/rapidftr/repository/ChildRepository.java:88-98 | a search with leading whitespace puts the empty token's clause `child_json LIKE '%%' OR id LIKE '%%'` first, followed by " OR " |
| `SearchQuery.LeadingWhitespaceAlternative` | RapidFTR-Android/src/main/java/com/rapidftr/repository/ChildRepository.java:120-130 | a search with leading whitespace puts the alternative `.*()+.*` first, followed by "\|" |
| `SearchFilter.FilterChildrenWithRegularExpression` | RapidFTR-Android/src/main/java/com/rapidftr/repository/ChildRepository.java:100-118 | the nested loops compute the fold `Criteria.Filtered`: a row's child is added if its short id matches, or if a highlighted field's value matches and the child is not already in the result |
| `SearchFilter.FilteredInOrder` | RapidFTR-Android/src/main/java/com/rapidftr/repository/ChildRepository.java:104-116 | every result is the child of a candidate row whose short id or some highlighted field matches; results keep candidate order (strictly increasing row indices) |
| `SearchFilter.FilteredComplete` | RapidFTR-Android/src/main/java/com/rapidftr/repository/ChildRepository.java:104-116 | every candidate whose short id or some highlighted field matches is in the result |
| `SearchFilter.FilteredExact` | RapidFTR-Android/src/main/java/com/rapidftr/repository/ChildRepository.java:104-116 | with distinct candidates, the result is exactly the children of the matching candidates, in order |
| `SearchFilter.ShortIdOnly` | RapidFTR-Android/src/main/java/com/rapidftr/repository/ChildRepository.java:106-113 | with no highlighted fields, only the short-id test admits a row |
| `ChildTable.Find` | RapidFTR-Android/src/main/java/com/rapidftr/repository/ChildRepository.java:42-43 | a single-row query answers the first matching row, and none only when no row matches |
| `ChildTable.WhereMembers` | RapidFTR-Android/src/main/java/com/rapidftr/repository/ChildRepository.java:63 | a `WHERE` query returns exactly the rows that satisfy its condition |
| `ChildTable.WherePartition` | RapidFTR-Android/src/main/java/com/rapidftr/repository/ChildRepository.java:78 | a condition and its negation split the table between them |
| `ChildTable.WhereWhere` | RapidFTR-Android/src/main/java/com/rapidftr/repository/ChildRepository.java:187 | filtering twice is filtering by the conjunction |
| `ChildTable.WhereUnique` | RapidFTR-Android/src/main/java/com/rapidftr/repository/ChildRepository.java:78 | deleting rows keeps ids unique |
| `ChildTable.FindUnique` | RapidFTR-Android/src/main/java/com/rapidftr/repository/ChildRepository.java:41-48 | with unique ids, the lookup of a stored row's id answers that row |
| `ChildTable.UpsertThenFind` | RapidFTR-Android/src/main/java/com/rapidftr/repository/ChildRepository.java:153 | after `replace`, looking up the written id answers the written row |
| `ChildTable.UpsertUnique` | RapidFTR-Android/src/main/java/com/rapidftr/repository/ChildRepository.java:153 | `replace` keeps ids unique |
| `ChildTable.UpsertKeepsOthers` | RapidFTR-Android/src/main/java/com/rapidftr/repository/ChildRepository.java:153 | `replace` leaves every other id's lookup as it was |
| `ChildTable.AtMostOneWithId` | RapidFTR-Android/src/main/java/com/rapidftr/repository/ChildRepository.java:51-54 | with unique ids, an id names one row if present and none otherwise |
| `ChildTable.UpsertSize` | RapidFTR-Android/src/main/java/com/rapidftr/repository/ChildRepository.java:153 | `replace` adds a row only for a new id |
| `ChildTable.IdRevsLast` | RapidFTR-Android/src/main/java/com/rapidftr/repository/ChildRepository.java:198-200 | the map has a key for each internal id in the table, and its value is the revision of the last row with that id |
| `ChildTable.HitEmptyIff` | RapidFTR-Android/src/main/java/com/rapidftr/repository/ChildRepository.java:243-245 | a per-id lookup gives nothing exactly when no row has that internal id |
| `ChildTable.FlatLookupAppend` | RapidFTR-Android/src/main/java/com/rapidftr/repository/ChildRepository.java:242-246 | a loop that appends each key's lookup result, in key order, over two key lists is the two results concatenated |
| `ChildTable.FlatLookupSkip` | RapidFTR-Android/src/main/java/com/rapidftr/repository/ChildRepository.java:244 | a key whose lookup finds nothing leaves no trace in the result |
| `ChildTable.FlatLookupLength` | RapidFTR-Android/src/main/java/com/rapidftr/repository/ChildRepository.java:242-246 | with at most one result per key, the result is at most as long as the keys, and exactly as long iff every key finds something |
| `ChildTable.FlatLookupAllPresent` | RapidFTR-Android/src/main/java/com/rapidftr/repository/ChildRepository.java:242-246 | when every key finds something, result k is key k's result |
| `ChildTable.WithInternalIdsAppend` | RapidFTR-Android/src/main/java/com/rapidftr/repository/ChildRepository.java:242-246 | the lenient lookup of a concatenation is the concatenation of the lookups (input order) |
| `ChildTable.SkipsMissingInternalId` | RapidFTR-Android/src/main/java/com/rapidftr/repository/ChildRepository.java:244 | an internal id no row has is silently skipped |
| `ChildTable.WithInternalIdsLength` | RapidFTR-Android/src/main/java/com/rapidftr/repository/ChildRepository.java:240-248 | the lenient lookup returns at most one child per id, and exactly one per id iff every id is present |
| `ChildTable.WithInternalIdsAllPresent` | RapidFTR-Android/src/main/java/com/rapidftr/repository/ChildRepository.java:240-248 | when every id is present, result k is the child of the first row with id k |
| `Repository.ToChildren` | RapidFTR-Android/src/main/java/com/rapidftr/repository/ChildRepository.java:213-219 | the cursor loop gives one child per cursor row, in order |
| `Repository.ChildRepository.constructor` | RapidFTR-Android/src/main/java/com/rapidftr/repository/ChildRepository.java:35-38 | the repository holds the user name and the session's table |
| `Repository.ChildRepository.Get` | RapidFTR-Android/src/main/java/com/rapidftr/repository/ChildRepository.java:41-48 | succeeds iff some row has the id; the value is the first such row's child; otherwise `NullPointerException(id)` |
| `Repository.ChildRepository.Exists` | RapidFTR-Android/src/main/java/com/rapidftr/repository/ChildRepository.java:51-54 | true iff some row has the id, a null id being looked up as "" |
| `Repository.ChildRepository.Size` | RapidFTR-Android/src/main/java/com/rapidftr/repository/ChildRepository.java:57-60 | at most the table size, and zero iff the current user owns no row |
| `Repository.ChildRepository.GetChildrenByOwner` | RapidFTR-Android/src/main/java/com/rapidftr/repository/ChildRepository.java:62-65 | the children of exactly the current user's rows |
| `Repository.ChildRepository.GetRecordIdsByOwner` | RapidFTR-Android/src/main/java/com/rapidftr/repository/ChildRepository.java:68-75 | the internal ids of the current user's rows, as many as `size` counts |
| `Repository.ChildRepository.DeleteChildrenByOwner` | RapidFTR-Android/src/main/java/com/rapidftr/repository/ChildRepository.java:77-79 | exactly the current user's rows are removed: the rest stay in order, `size` becomes 0, and the table shrinks by the old `size` |
| `Repository.DeleteLeavesOthers` | RapidFTR-Android/src/main/java/com/rapidftr/repository/ChildRepository.java:77-79 | a row survives the delete iff its owner is someone else; none of the user's rows remain |
| `Repository.ChildRepository.GetMatchingChildren` | RapidFTR-Android/src/main/java/com/rapidftr/repository/ChildRepository.java:81-86 | in this model, fails with a SQL syntax error exactly when the search is whitespace only (the query's condition is empty); otherwise a null field list is treated as empty and the result is the regular-expression filter over SQLite's rows for the built query |
| `Repository.ChildRepository.AddHistory` | RapidFTR-Android/src/main/java/com/rapidftr/repository/ChildRepository.java:162-168 | the stored version's change log goes into the history field only when it is non-empty; otherwise the child is unchanged |
| `Repository.ChildRepository.CreateOrUpdate` | RapidFTR-Android/src/main/java/com/rapidftr/repository/ChildRepository.java:141-160 | history is merged only when the id exists, last-updated is set before the write; a positive row id from `replace` writes every column and the id reads back the saved child; otherwise IllegalArgument(row id) and no change |
| `Repository.WriteThenRead` | RapidFTR-Android/src/main/java/com/rapidftr/repository/ChildRepository.java:141-155 | after a write the id reads back the saved child, other ids read as before, ids stay unique, and the table grows only for a new id |
| `Repository.ChildRepository.Update` | RapidFTR-Android/src/main/java/com/rapidftr/repository/ChildRepository.java:171-177 | the row with the id gets the new body, synced flag, `_id` and `_rev`; ids, owners and creation times are unchanged; the id then reads back the child |
| `Repository.PatchedThenFind` | RapidFTR-Android/src/main/java/com/rapidftr/repository/ChildRepository.java:171-177 | `update` of an absent id leaves the table as it was; of a present id, the lookup answers the new body and flag |
| `Repository.ChildRepository.ToBeSynced` | RapidFTR-Android/src/main/java/com/rapidftr/repository/ChildRepository.java:180-183 | the children of exactly the unsynced rows |
| `Repository.ChildRepository.CurrentUsersUnsyncedRecords` | RapidFTR-Android/src/main/java/com/rapidftr/repository/ChildRepository.java:186-189 | the children of exactly the current user's unsynced rows |
| `Repository.UnsyncedScoping` | RapidFTR-Android/src/main/java/com/rapidftr/repository/ChildRepository.java:180-189 | the current user's unsynced records are the unsynced records restricted to that owner |
| `Repository.ChildRepository.GetAllIdsAndRevs` | RapidFTR-Android/src/main/java/com/rapidftr/repository/ChildRepository.java:192-202 | the loop builds the map of internal id to revision over the whole table, later rows overwriting earlier ones |
| `Repository.ChildRepository.GetChildrenByIds` | RapidFTR-Android/src/main/java/com/rapidftr/repository/ChildRepository.java:232-238 | succeeds iff every id is present, with one child per id in input order, each what `get` answers; otherwise fails with the first missing id's NullPointerException |
| `Repository.ChildRepository.GetAllWithInternalIds` | RapidFTR-Android/src/main/java/com/rapidftr/repository/ChildRepository.java:240-248 | the loop gives, in input order, the child of the first row with each internal id, skipping ids no row has |

## Left out

- SQLite, `Cursor`, `ContentValues` and `DatabaseSession` are replaced by a sequence of rows. The search's `LIKE` pre-filter is not evaluated: its answer is the `QueryEngine` parameter, and the query string is modelled exactly.
- Java regular expressions (syntax, matching, `CASE_INSENSITIVE`) are the `Matcher` parameter. Tokens are spliced in unescaped, so `Pattern.compile` may throw `PatternSyntaxException`; that exception is not modelled.
- Whether SQLite can parse a query: the model recognises only the empty condition the builder itself produces for a whitespace-only search. Quotes inside the user name or the search tokens can also break the SQL, and that is not modelled.
- `Repository.ChildRepository.GetMatchingChildren`: raises `SqlSyntax` only for the empty condition. The source also throws `SQLiteException` for a `'` in a token or in the user name (the search `o'neil`), and `PatternSyntaxException` for a token that is not a valid regular expression (the search `(`). Neither is modelled, because SQL parsing and regular-expression syntax are parameters here.
- SQL injection through the user name or the search tokens: the strings are built as written, but what SQLite makes of them is not modelled.
- `Repository.ChildRepository.GetChildrenByOwner`: returns the rows in table order; the `ORDER BY id` sort is not modelled.
- The `Child` JSON object (parsing, `getUniqueId`, `optString`, `changeLogs`, `put`, `setLastUpdatedAt`) is the `ChildJson` parameter record. The column `_id` queried by `getRecordIdsByOwner` and `getAllWithInternalIds` is taken to be the `internal_id` column that `populateInternalColumns` writes; `Database.java` is not part of this model.
- `Repository.ChildRepository.CreateOrUpdate` and `Repository.ChildRepository.AddHistory` return the new child value instead of mutating the caller's `Child` in place, so aliasing of that object is not modelled.
- `Repository.ChildRepository.CreateOrUpdate`: the row id `replace` reports is a parameter; what makes SQLite report a non-positive id is not modelled.
- The clock (`getTimeStamp`, `RapidFtrDateTime`) is a timestamp parameter. The current user's verified flag, read from the global application instance, is a parameter of `GetMatchingChildren`.
- `close` only closes the session; it has no effect on the table model. Dependency injection and the `Repository<Child>` interface are not modelled.
- Null ids passed to `get`, `getChildrenByIds` or `getAllWithInternalIds`, and a null `listOfIds`, are not modelled; only `exists` handles null, and it is modelled.
- The cursor that `getAllWithInternalIds` never closes: resource leaks are out of scope.
- `JSONException` from parsing a stored body is not modelled: stored bodies are taken to be well-formed.
- `Child.equals` is not part of this model: the filter's `children.contains(child)` compares children as values, that is by JSON body and synced flag. `SearchFilter.FilteredExact` does not depend on this, because it requires distinct candidates.
