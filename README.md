# Campus lost-and-found portal: item core

This project models the core of a campus lost-and-found portal in Dafny and proves properties of that model. The core has four parts:

- **Listing query** (`GET /api/items`). The server builds a parameterised SQL query from the optional `status`, `category` and `search` filters and runs it.
  - The base query lists unresolved items joined with their reporter's username.
  - Each given filter adds one `AND` clause with bound `?` parameters. The search filter matches title OR description with `LIKE '%term%'`.
  - Rows come back newest first.
- **Item store** (`POST /api/items`, `PATCH /api/items/:id/resolve`). A report inserts one row under a fresh id, with `is_resolved` at its default 0. A resolve sets `is_resolved = 1` on the row with that id.
- **Client filter** (`filterItems`). The page re-filters the listing it last fetched by a case-insensitive search term, a status and a category, without asking the server again.
- **Resolve button**. A card shows "Mark as Resolved" only when the logged-in user is the item's reporter.

## Modules

| file | module | contents |
|---|---|---|
| `wrappers.dfy` | `Wrappers` | `Option`, `Result` |
| `text.dfy` | `Text` | ASCII lower-casing, substring containment |
| `items.dfy` | `Items` | `Item`, `Listing`, `User`; the users join, row selection, the newest-first order |
| `sql.dfy` | `Sql` | query fragments and their text, preparing (parsing) the text, positional binding of parameters, `LIKE`, execution |
| `query.dfy` | `Query` | the query builder (`BuildQuery`, a method, as in the handler) and what the query it builds means |
| `store.dfy` | `Store` | the `items` table as a class with `Report`, `Resolve` and `List` |
| `client.dfy` | `Client` | `filterItems`, the resolve-button predicate, and the agreement of the client filter with the server query |

## Modelling choices

- **Query text as fragments.** The query text is kept as a sequence of fixed fragments. `Sql.Render` spells a sequence out to the exact SQL text of the handler, and `Sql.Parse` reads it back (`Sql.ParseRender`).
  - User values never enter the text. `Query.TextIndependentOfValues` proves the text depends only on which filters are given.
- **Preparing and binding.** better-sqlite3's prepare-and-bind is `Sql.Bind`. It binds the parameters positionally, in fragment order. It fails (the library throws) when the number of parameters differs from the number of `?` marks.
- **Creation time.** `CURRENT_TIMESTAMP` is a counter that grows by one per inserted row. The store therefore never holds two rows with the same creation time.
- **Fresh id.** The uuid generator is a parameter (the fresh id). The insert fails when the id is already in the table. It also fails when `reporter_id` is not a user's id, because the schema declares `FOREIGN KEY(reporter_id) REFERENCES users(id)` (server.js:35) and better-sqlite3 enforces foreign keys. Both failures take the handler's `catch` path, answered with `InsertFailed`.
- **Users.** The `users` table is a map from user id to username. The `JOIN` is an inner join: an item whose reporter is not a user is not listed.

### Checks the code does not make

- **Resolving** (server.js:120-128). The handler checks nobody's identity: anyone may resolve any item. It updates by id and answers `{success: true}` even when no row has that id, and resolving an already resolved item succeeds again. `Store.ItemStore.Resolve` models that behaviour. `Store.ResolveUnknownId` and `Store.ResolveIdempotent` state it.
- **Validation** (server.js:102-112). The handler does not validate the title or any other field. It inserts whatever the form holds.
- **Sort order** (server.js:97). The query orders by `created_at DESC` only, with no tie-break by id, so SQLite may return rows with equal creation times in any order. `Items.SortNewestFirst` sorts by creation time with no id tie-break; keeping tied rows in table order is the model's choice, not a promise SQLite makes.

## Model

| member | source | states |
|---|---|---|
| Text.Lower | script.js:197 | lower-casing keeps the length, turns each ASCII capital into its own small letter and leaves every other character as it is |
| Text.LowerIdempotent | script.js:197 | lower-casing twice is lower-casing once |
| Text.ContainsIffOccurs | script.js:202 | `includes` holds exactly when the needle occurs at some offset of the haystack |
| Text.ContainsEmpty | script.js:202 | every string includes the empty string |
| Items.Join | server.js:81 | the join lists an item exactly when its reporter is a user, paired with that user's name, and lists no more rows than the table has |
| Items.JoinAppend | server.js:81 | joining a table split in two is joining each part, in order |
| Items.Select | server.js:81 | the selected rows are exactly the rows satisfying the predicate |
| Items.SelectMultiplicity | script.js:201 | a kept row is kept as many times as it occurs; a dropped row does not occur at all |
| Items.SelectIsSubsequence | script.js:201 | filtering keeps rows in their order and adds none |
| Items.SelectIdempotent | script.js:201-206 | filtering twice by the same predicate is filtering once |
| Items.SelectSelect | server.js:84-95 | filtering by p and then by q is filtering by p AND q |
| Items.SelectCongruent | script.js:201-206 | predicates that agree on the rows select the same rows |
| Items.SelectAll | script.js:201-206 | a predicate every row satisfies keeps the whole sequence |
| Items.SelectAppend | server.js:81 | filtering distributes over concatenation |
| Items.InsertByAge | server.js:97 | inserting a row adds exactly that row to the multiset of rows |
| Items.ConsNewestFirst | server.js:97 | a row at least as new as all of a newest-first sequence can go in front |
| Items.InsertByAgeKeepsOrder | server.js:97 | inserting into a newest-first sequence keeps it newest first |
| Items.SortNewestFirst | server.js:97 | `ORDER BY created_at DESC` returns a permutation of its input, newest first |
| Items.SelectInsert | server.js:97 | filtering commutes with inserting a row by age |
| Items.SelectKeepsOrder | server.js:97 | filtering a newest-first sequence leaves it newest first, with a first row no newer than the original first |
| Items.SelectSortCommute | server.js:97 | sorting then filtering equals filtering then sorting |
| Items.SortNewestFirstPutsNewestFirst | server.js:97 | a row newer than all others is listed first, with the others in their sorted order after it |
| Sql.Spelling | server.js:81-97 | every fragment of the query text is non-empty text |
| Sql.PlaceholdersAppend | server.js:81-97 | the `?` count of concatenated text is the sum of the counts |
| Sql.NoPlaceholders | server.js:81 | text without `?` holds no placeholder |
| Sql.HeadWordHasNoPlaceholder | server.js:81 | the words of the base query hold no `?` |
| Sql.TailWordHasNoPlaceholder | server.js:85-97 | the fixed words of the filter clauses and the ORDER BY hold no `?` |
| Sql.WordHasNoPlaceholder | server.js:81-97 | no fixed word of the query holds a `?` |
| Sql.HeadPlaceholders | server.js:81 | the base query holds no placeholder |
| Sql.SearchPlaceholders | server.js:93 | the search clause holds exactly two placeholders |
| Sql.SpellingPlaceholders | server.js:81-97 | each clause holds exactly as many `?` as it takes parameters |
| Sql.RenderPlaceholders | server.js:81-98 | the `?` count of the rendered query is the number of parameters its clauses take |
| Sql.Leading | server.js:98 | a recognised leading clause really is a prefix of the text |
| Sql.SpellingMarks | server.js:81-97 | the characters that tell the clauses apart |
| Sql.LeadingSpelling | server.js:98 | a clause's text followed by anything is recognised as that clause |
| Sql.ParseRender | server.js:98 | preparing the rendered text recovers exactly the clauses it was built from |
| Sql.BindSucceedsIff | server.js:98 | binding succeeds if and only if the parameter count equals the placeholder count |
| Sql.AttachCombine | server.js:98 | binding a clause in front of a bound statement commutes with joining statements |
| Sql.BindAppend | server.js:98 | binding a query made of two parts binds each part to its own share of the parameters, in order |
| Sql.LikeSurrounded | server.js:93-94 | `LIKE '%t%'` is case-insensitive containment of `t` |
| Sql.BindKeepsActive | server.js:81 | a bound query whose text has the base clause keeps the `is_resolved = 0` condition |
| Sql.ExecuteOnlyActive | server.js:81-98 | running such a query never returns a resolved item |
| Query.BuildQuery | server.js:79-97 | the built query starts with the base clause, adds one clause per given filter in the order status, category, search, ends with ORDER BY, and takes exactly as many parameters as the builder pushed |
| Query.TotalArityAppend | server.js:82-94 | placeholder counts add over concatenated clause lists |
| Query.ArityMatchesParams | server.js:82-95 | the clauses take exactly as many parameters as the builder pushed |
| Query.TextMatchesParams | server.js:81-98 | the rendered query text has as many `?` as there are parameters, and preparing it yields the clauses built |
| Query.TextIndependentOfValues | server.js:84-95 | the query text and parameter count depend only on which filters are given, never on their values |
| Query.SinglePartBindsAlone | server.js:84-94 | a one-clause filter part binds to its own condition |
| Query.PartsBindAlone | server.js:84-94 | the status, category and search parts each bind to their own conditions, and an absent filter adds nothing |
| Query.BindPart | server.js:84-98 | a filter part in front of a bound query contributes its conditions, in front |
| Query.BindFilterParts | server.js:84-98 | the filter clauses bind to their conditions in order, and the query ends newest first |
| Query.BindFragmentsFor | server.js:81-98 | the built query binds with its parameters to the base condition, then the given filters' conditions in order, newest first |
| Query.SatisfiesConditionsFor | server.js:81-95 | an item meets the bound conditions exactly when it is unresolved and matches every given filter (search over title OR description) |
| Query.QueryMeaning | server.js:79-99 | executing the built query with its parameters succeeds and returns the joined, unresolved, matching rows, newest first |
| Query.ListingsActiveAndMatching | server.js:81-95 | every listed row is an unresolved table row matching every given filter |
| Query.NoFiltersListsAllActive | server.js:84-97 | with no filter given the query is the base clause and ORDER BY with no parameter, and lists every unresolved joined row |
| Query.MoreFiltersNarrow | server.js:84-95 | adding filters only removes rows from the listing |
| Store.Created | server.js:103-112 | the inserted row carries every form field (title, description, category, location, date, status, reporter id, contact info) and the new id, is unresolved, and has an image URL `/uploads/<file>` exactly when a file was uploaded |
| Store.ItemStore.constructor | server.js:22-36 | on a fresh database the table starts empty and well formed |
| Store.ItemStore.Report | server.js:102-118 | succeeds with the new id exactly when the id is fresh and the reporter id is a user's id (the foreign key at server.js:35), and then appends exactly one row and nothing else changes; on failure nothing changes |
| Store.ItemStore.Resolve | server.js:120-128 | marks exactly the rows with that id resolved, changes nothing else, and answers success whether or not such a row exists (the failing-UPDATE path is not modelled) |
| Store.ItemStore.List | server.js:79-99 | the listing returned is the listing the built query means on the current table |
| Store.ReportPreservesWellFormed | server.js:108-112 | inserting a row with a fresh id at the current time keeps ids unique and creation times increasing |
| Store.ResolvePreservesWellFormed | server.js:123 | resolving keeps the table well formed |
| Store.ResolveChangesOnlyTarget | server.js:123 | only rows with the target id change, and only in their resolved flag |
| Store.ResolveMonotone | server.js:123 | a resolved row stays resolved |
| Store.ResolveIdempotent | server.js:123 | resolving twice is resolving once |
| Store.ResolveUnknownId | server.js:123-124 | resolving an unknown id changes nothing |
| Store.ResolvedAtCons | server.js:123 | resolving acts row by row |
| Store.SelectJoinResolved | server.js:123 | after resolving, the matching joined rows are the former ones without the resolved id |
| Store.ResolveUnlists | server.js:120-128 | resolving takes that item, and only it, out of every listing, keeping the rest in order |
| Store.ReportListedFirst | server.js:108-112 | a new report by a user that matches the filters is listed first, ahead of the unchanged former listing; any other report leaves the listing as it was |
| Store.ReportNotInOtherCategory | server.js:88-90 | a report never appears under a category filter it does not match |
| Store.ReportThenResolve | server.js:79-128 | a report appears first in the unfiltered listing, not under another category, and disappears once resolved |
| Client.Filter | script.js:196-209 | a listing is kept exactly when it is in the snapshot and passes the filter's test |
| Client.KeepsIff | script.js:201-206 | a listing passes exactly when the lower-cased term occurs at some position of the lower-cased title or description (the reference definition of `includes`), AND status, AND category, where "" constrains nothing |
| Client.FilterIsSubsequence | script.js:201 | the result is an ordered subsequence of the snapshot |
| Client.FilterMultiplicity | script.js:201-206 | a kept listing is kept as many times as it occurs in the snapshot |
| Client.FilterIdempotent | script.js:201-206 | filtering a filtered list again changes nothing |
| Client.EmptyControlsKeepAll | script.js:197-206 | empty search and "All" selects keep every listing |
| Client.FilterIgnoresSearchCase | script.js:197-202 | search terms that differ only in case filter alike |
| Client.KeepsIffServerMatches | script.js:201-206 | for an unresolved item the client test agrees with the server's conditions for the same controls |
| Client.FilterAgreesWithServer | script.js:196-209 | re-filtering the unfiltered listing on the client gives exactly the server's listing for the same controls, in the same order, when the term has no LIKE wildcard and the title, description and term are ASCII; the order among rows with equal creation times is the model's stable sort |
| Client.SearchIgnoresCaseExample | script.js:197-202 | "wallet" and "WALLET" both find "Lost Wallet" |
| Client.WalletInLostWallet | script.js:202 | "lost wallet" includes "wallet" |
| Client.ConjunctionExample | script.js:203-205 | status and category combine by AND: lost keys are kept, found keys are not |
| Client.ResolveButtonOnlyForReporter | script.js:180-181 | once a report is listed, its card shows the resolve button to exactly the logged-in user whose id the report form carried (the page sends `currentUser.id`, script.js:122), and never to a visitor |

## Left out

- Express routing, CORS, static file serving and the JSON responses: only what each handler computes is modelled.
- The multer upload and the uuid generator: the stored file name and the fresh id are parameters.
- User registration and login: the users table is a parameter mapping user ids to usernames.
- SQLite internals: `LIKE` is modelled as case-insensitive containment. Its `%` and `_` wildcards inside a search term are not modelled.
- Client.FilterAgreesWithServer: the agreement holds only for search terms without `%` or `_`, and only when the title, description and term are ASCII. For other terms `LIKE` and `includes` differ. JavaScript's `toLowerCase` also folds non-ASCII letters, which SQLite's `LIKE` does not: for a title "ÉTUI" and the search "étui", the page keeps the item and the server drops it. The model folds ASCII only on both sides, so it does not show this difference.
- Client.FilterAgreesWithServer: the claim "in the same order" assumes distinct creation times. `CURRENT_TIMESTAMP` counts whole seconds, and SQLite orders rows of the same second arbitrarily, so the unfiltered and the filtered query may return such rows in different orders. The store's counter never produces ties (`Store.WellFormed`), but the lemma is stated for every table.
- Store.ItemStore.Resolve: a failure of the UPDATE itself (server.js:125-127), such as an I/O error or a locked database, is not modelled. The handler then answers 500 with `{success: false}`; the model always answers success.
- Text.Lower: folds ASCII letters only. JavaScript's `toLowerCase` and SQLite's `LIKE` treat other letters in their own ways, which are not modelled.
- Real timestamps: `created_at` is a counter, so second-granularity ties between rows are not modelled.
- Array-valued query parameters (`?status=a&status=b`) and missing form fields (bound as NULL): filters are optional strings, and form fields are strings.
- Store.ItemStore.Report: insert failures other than an id collision and an unknown reporter id (the foreign key) are not modelled, for example a full disk.
- Store.ItemStore.List: an exception thrown by the `GET` handler, which the handler does not catch, is not modelled. The query it builds always prepares and binds (Query.QueryMeaning).
- The client's `fetch` calls, DOM rendering and the `confirm` dialog before resolving.
