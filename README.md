# Ecoleta collection-point registry in Dafny

Ecoleta is a registry of recycling collection points. Its server keeps three
tables:

- `points`: the collection points, each with a stored image filename.
- `categories`: a seeded catalogue of waste categories.
- `point_category`: the association between points and categories.

The server has three endpoints:

- `POST /points` (`create`) stores a point and one association row per
  category id in the comma-separated `categories` field, in one transaction.
- `GET /points` (`index`) lists the points of a city and UF that carry at
  least one of the requested categories.
- `GET /points/:id` (`show`) answers one point and the titles of its
  categories.

`GET /categories` lists the catalogue. The catalogue listing, `index` and a
found `show` publish each image as a fixed uploads URL plus the stored
filename; `create` answers the raw stored filename. A web form builds the creation
request: the user toggles category icons, picks a UF and city from the IBGE
lists, and clicks a map position.

The model has six modules:

- `CategoryParsing` (`parsing.dfy`): the `categories` string as both
  endpoints read it. It splits on ",", trims each token with ECMAScript's
  white-space set, and converts it with `Number`.
- `Tables` (`tables.dfy`): the row types, the uploads URL and its inverse,
  and the key invariants of `points` and `categories`.
- `PointCategoryMigration` (`migration.dfy`): the `point_category` migration
  (`up`/`down` over a schema) and what its column definitions demand of the
  stored rows.
- `PointsController` (`points_controller.dfy`):
  - `index` and `show` as functions over the table contents.
  - `create` as a method of the `Registry` class. The class holds the three
    tables and the auto-increment counters, and its invariant is the
    foreign-key discipline of the schema.
- `CategoriesController` (`categories_controller.dfy`): the catalogue
  listing.
- `CreatePointPage` (`create_point.dfy`):
  - the category toggle (`handleSelectCategory`);
  - the renaming of the IBGE UF and city lists;
  - the payload `handleSubmit` posts.

## Model

| member | source | states |
|---|---|---|
| CategoryParsing.Split | server/src/controllers/pointsController.ts:8 | `split(',')` always yields at least one token |
| CategoryParsing.SplitTokensHaveNoComma | server/src/controllers/pointsController.ts:8 | no token produced by the split contains a comma |
| CategoryParsing.SplitCount | server/src/controllers/pointsController.ts:8 | there is exactly one token more than there are commas |
| CategoryParsing.JoinSplit | server/src/controllers/pointsController.ts:8 | joining the tokens with "," gives back the input |
| CategoryParsing.SplitJoin | server/src/controllers/pointsController.ts:8 | splitting comma-free tokens joined with "," gives back those tokens |
| CategoryParsing.SplitCommaFreePrefix | server/src/controllers/pointsController.ts:8 | a comma-free prefix only extends the first token |
| CategoryParsing.TrimStart | server/src/controllers/pointsController.ts:9 | the result is a suffix whose cut-off prefix is all white space and which does not start with white space |
| CategoryParsing.TrimEnd | server/src/controllers/pointsController.ts:9 | the result is a prefix whose cut-off suffix is all white space and which does not end with white space |
| CategoryParsing.TrimShape | server/src/controllers/pointsController.ts:9 | `trim` returns a middle slice of its input, cuts only white space from either end, and leaves none at either end |
| CategoryParsing.TrimPadded | server/src/controllers/pointsController.ts:9 | `trim` recovers any core that does not start or end with white space from any white-space padding |
| CategoryParsing.TrimOfTrimmed | server/src/controllers/pointsController.ts:9 | a string without surrounding white space is left as it is |
| CategoryParsing.TrimIdempotent | server/src/controllers/pointsController.ts:9 | trimming twice is trimming once |
| CategoryParsing.Decimal | server/src/controllers/pointsController.ts:79 | the decimal notation of a natural number is a non-empty run of digits |
| CategoryParsing.DecimalValue | server/src/controllers/pointsController.ts:79 | the digits of the decimal notation of n have the value n |
| CategoryParsing.ToNumberDecimal | server/src/controllers/pointsController.ts:79 | `Number(String(n).trim())` is n for every natural n |
| CategoryParsing.ToNumberWord | server/src/controllers/pointsController.ts:9 | a token that starts with neither a sign nor a digit is not a number |
| CategoryParsing.ParseCategoriesTokens | server/src/controllers/pointsController.ts:7-9 | parsing gives one number per comma-separated token, in order, each being `Number` of the trimmed token |
| CategoryParsing.ParseSingleToken | server/src/controllers/pointsController.ts:7-9 | a string without commas parses to the one number of its trimmed text |
| CategoryParsing.ParseJoined | server/src/controllers/pointsController.ts:77-79 | comma-free tokens joined with "," parse to the conversion of each token |
| CategoryParsing.ParseWord | server/src/controllers/pointsController.ts:7-9 | a single trimmed word that is not a number parses to one non-integer |
| CategoryParsing.ParsePaddedDecimals | server/src/controllers/pointsController.ts:77-79 | ids written in decimal, each with any surrounding white space, joined with "," parse back to exactly those ids in order |
| CategoryParsing.ParseExample | server/src/controllers/pointsController.ts:7-9 | "1, 2,3" parses to 1, 2, 3 |
| CategoryParsing.ParseOneTwo | server/src/controllers/pointsController.ts:7-9 | "1,2" parses to 1, 2 |
| CategoryParsing.JoinExample | server/src/controllers/pointsController.ts:8 | the tokens "1", " 2", "3" joined with "," are "1, 2,3" |
| CategoryParsing.ParseEmpty | server/src/controllers/pointsController.ts:7-9 | an empty string parses to the single number 0 |
| Tables.ImageUrlRoundTrip | server/src/controllers/pointsController.ts:22 | the stored filename can always be read back from the published URL |
| Tables.ImageOfUrlInverse | server/src/controllers/categoriesController.ts:12 | every URL that names a filename is the published URL of that filename |
| Tables.ImageUrlInjective | server/src/controllers/pointsController.ts:43 | different filenames are published under different URLs |
| PointCategoryMigration.UpAddsOnlyTheTable | server/src/database/migrations/02_create_point_category.ts:2-15 | `up` succeeds exactly when the table is absent; it then adds exactly `point_category` with the three column definitions and keeps every other table |
| PointCategoryMigration.DownUndoesUp | server/src/database/migrations/02_create_point_category.ts:19-21 | `down` after `up` restores the schema |
| PointCategoryMigration.UpUndoesDown | server/src/database/migrations/02_create_point_category.ts:2-21 | `up` after `down` restores a schema that held this table |
| PointCategoryMigration.LinksValidMeansSchemaHolds | server/src/database/migrations/02_create_point_category.ts:4-14 | the store invariant on association rows holds exactly when each row satisfies the NOT NULL and REFERENCES constraints and the primary key is unique (both directions) |
| PointCategoryMigration.DuplicatePairsAdmitted | server/src/database/migrations/02_create_point_category.ts:3-15 | no constraint stops the same (point_id, category_id) pair from being stored twice |
| PointsController.JoinOne | server/src/controllers/pointsController.ts:11-15 | one association row contributes exactly the points with its point id, a requested category, and the exact city and UF |
| PointsController.JoinRows | server/src/controllers/pointsController.ts:11-15 | a point is in the join exactly when it is stored, has the exact city and UF, and some association row links it to a requested category |
| PointsController.Distinct | server/src/controllers/pointsController.ts:16 | DISTINCT keeps exactly the same members and repeats none |
| PointsController.IndexSelects | server/src/controllers/pointsController.ts:5-26 | a point is listed exactly when its city and UF equal the query strings verbatim and one of its links names a parsed id; it is listed with all stored columns and its `image_url` |
| PointsController.IndexListsEachPointOnce | server/src/controllers/pointsController.ts:16-24 | with a unique point key, no point is listed twice |
| PointsController.IndexNeedsDistinct | server/src/controllers/pointsController.ts:11-17 | a point linked to two requested categories appears twice in the join and once in the answer |
| PointsController.JoinTwice | server/src/controllers/pointsController.ts:11-13 | example: a point linked to two requested categories is in the join twice |
| PointsController.JoinOneCount | server/src/controllers/pointsController.ts:11-15 | one association row contributes every stored copy of a qualifying point once when it links that point to a requested category, and none otherwise |
| PointsController.JoinRowsCount | server/src/controllers/pointsController.ts:11-15 | a point stored once, in the requested city and UF, is in the join once per association row linking it to a requested category |
| PointsController.StoredOnce | server/src/controllers/pointsController.ts:11 | with a unique `points.id` a stored point is stored once |
| PointsController.JoinCopies | server/src/controllers/pointsController.ts:11-17 | with a unique `points.id`, before DISTINCT a qualifying point appears exactly once per association row that links it to a requested category |
| PointsController.IndexNoMatchingCategory | server/src/controllers/pointsController.ts:13 | when no association row names a parsed id, the answer is empty |
| PointsController.IndexEmptyCategories | server/src/controllers/pointsController.ts:7-13 | an empty `categories` parameter lists nothing unless some link names category 0 |
| PointsController.IndexMissingCategories | server/src/controllers/pointsController.ts:6-13 | a missing `categories` parameter reads "undefined" and lists nothing |
| PointsController.ParseUndefined | server/src/controllers/pointsController.ts:7-9 | "undefined" parses to one non-integer |
| PointsController.RepeatedCategoriesParameter | server/src/controllers/pointsController.ts:6-9 | a repeated parameter is read as its values joined with ",", one number per value |
| PointsController.FindPoint | server/src/controllers/pointsController.ts:30 | the lookup finds nothing exactly when no row has the id, else a stored row with that id |
| PointsController.TitlesWithId | server/src/controllers/pointsController.ts:36-39 | exactly the titles of the catalogue rows with the given id |
| PointsController.TitlesFor | server/src/controllers/pointsController.ts:36-39 | a title is listed exactly when some association row of the point names a category with that title |
| PointsController.ShowAnswers | server/src/controllers/pointsController.ts:28-50 | an unknown id gets status 400 and 'Point not found!'; a known one gets that stored point, its `image_url`, and exactly its categories' titles |
| PointsController.TitlesWithIdUnique | server/src/controllers/pointsController.ts:36-39 | with a unique catalogue key, a known category id yields exactly one title |
| PointsController.TitlesWithIdAbsent | server/src/controllers/pointsController.ts:36-39 | an id no category has yields no title |
| PointsController.ShowTitleCount | server/src/controllers/pointsController.ts:36-39 | under the store invariant, `show` lists one title per association row of the point |
| PointsController.FirstUnknown | server/src/controllers/pointsController.ts:87 | the insert is refused exactly when some parsed token names no category; the model then names one such token as its witness (the program answers nothing) |
| PointsController.CreatePreservesInvariant | server/src/controllers/pointsController.ts:73-88 | a committed create keeps unique keys, ids below the counters, and every link referring to a stored point and a known category |
| PointsController.FindPointAppend | server/src/controllers/pointsController.ts:30 | after appending a row with a fresh id, the lookup finds it by that id and finds every other id as before |
| PointsController.TitlesForAppend | server/src/controllers/pointsController.ts:36-39 | the titles over two batches of association rows are the titles of each batch, in order |
| PointsController.TitlesForNone | server/src/controllers/pointsController.ts:36-39 | a point with no association rows gets no titles |
| PointsController.TitlesOfNewLinks | server/src/controllers/pointsController.ts:77-87 | the rows a create adds yield one title per parsed id, in order, each the title of the category with that id |
| PointsController.ShowAfterCreate | server/src/controllers/pointsController.ts:28-94 | `show` right after a committed create finds the new point and exactly one title per parsed id, in order |
| PointsController.ShowOthersUnchanged | server/src/controllers/pointsController.ts:28-94 | `show` of every other id answers after a create what it answered before |
| PointsController.NewIdIsFresh | server/src/controllers/pointsController.ts:74-76 | the next auto-increment id is not taken |
| PointsController.OldLinksOfOldPoints | server/src/database/migrations/02_create_point_category.ts:6-9 | under the invariant every stored link refers to an id below the next point id |
| PointsController.LinkedAfterCreate | server/src/controllers/pointsController.ts:77-87 | after a create, a point is linked to a requested category exactly when it was before or it is the new point and one of its parsed ids is requested |
| PointsController.IndexAfterCreate | server/src/controllers/pointsController.ts:5-94 | after a committed create, `index` lists what it listed before plus the new point exactly when its city and UF match and one of its parsed ids is requested |
| PointsController.CreateEmptyCategoriesRejected | server/src/controllers/pointsController.ts:77-87 | an empty `categories` field parses to the id 0, so the insert is refused when no category has id 0 |
| PointsController.Registry.constructor | server/src/database/migrations/02_create_point_category.ts:3-15 | a migrated database with the seeded catalogue satisfies the invariant; the tables start empty and the counters at 1 |
| PointsController.Registry.Create | server/src/controllers/pointsController.ts:51-94 | create parses the field and either commits the point with one link per parsed id, or leaves every table unchanged, with a refused token as the model's witness (the program sends no response); a committed point has at least one link and `show` finds it with one title per parsed id |
| PointsController.Registry.Insert | server/src/controllers/pointsController.ts:73-93 | the transaction stages the point, inserts the links and commits only when every parsed token names a category; the response is the new row; the invariant is kept |
| CategoriesController.ListCategoriesServesEveryRow | server/src/controllers/categoriesController.ts:6-16 | every catalogue row is answered once, in order, with its id and title and a URL from which its filename can be read back |
| CategoriesController.ListCategoriesDistinct | server/src/controllers/categoriesController.ts:8-15 | with a unique catalogue key the answered ids are distinct, and different icons get different URLs |
| CreatePointPage.FindIndex | web/src/pages/CreatePoint/index.tsx:116 | `findIndex` is -1 exactly when the id is absent, else the first position of the id |
| CreatePointPage.RemoveAll | web/src/pages/CreatePoint/index.tsx:118 | the filter keeps exactly the other ids and never grows the list |
| CreatePointPage.ToggleCases | web/src/pages/CreatePoint/index.tsx:115-124 | a selected id is filtered out, every copy of it; an unselected one is appended at the end |
| CreatePointPage.ToggleFlipsMembership | web/src/pages/CreatePoint/index.tsx:115-124 | the toggled id flips membership and no other id changes membership |
| CreatePointPage.RemoveAllConcat | web/src/pages/CreatePoint/index.tsx:118 | the filter distributes over concatenation, so the other ids keep their order |
| CreatePointPage.RemoveAllAbsent | web/src/pages/CreatePoint/index.tsx:118 | filtering out an absent id changes nothing |
| CreatePointPage.ToggleTwiceAbsent | web/src/pages/CreatePoint/index.tsx:115-124 | toggling an unselected id twice restores the selection |
| CreatePointPage.ToggleTwicePresent | web/src/pages/CreatePoint/index.tsx:115-124 | toggling a selected id twice moves it, once, to the end |
| CreatePointPage.RemoveAllNoDuplicates | web/src/pages/CreatePoint/index.tsx:118 | filtering keeps a list free of duplicates |
| CreatePointPage.ToggleKeepsNoDuplicates | web/src/pages/CreatePoint/index.tsx:115-124 | a toggle keeps a selection free of duplicates |
| CreatePointPage.ApplyTogglesNoDuplicates | web/src/pages/CreatePoint/index.tsx:115-124 | any series of clicks from the empty selection yields a selection without duplicates |
| CreatePointPage.SerializeUfsKeepsItems | web/src/pages/CreatePoint/index.tsx:66-72 | the UF list keeps length and order, maps each item to `{id, acronym: sigla, name: nome}`, and can be turned back into the IBGE items |
| CreatePointPage.SerializeCitiesKeepsItems | web/src/pages/CreatePoint/index.tsx:81-86 | the city list keeps length and order, maps each item to `{id, name: nome}`, and can be turned back into the IBGE items |
| CreatePointPage.SubmitPayloadFields | web/src/pages/CreatePoint/index.tsx:129-144 | the payload carries the form's text fields, `uf` and `city` from the selects, latitude then longitude from the marker, and the selected ids in order without duplicates |
| CreatePointPage.SelectionReadByServer | web/src/pages/CreatePoint/index.tsx:133 | a non-empty selection written as text is parsed by the server as exactly those ids in order; an empty one as the id 0 |
| CategoryParsing.Join | server/src/controllers/pointsController.ts:7 | `String(array)` and `Array.prototype.join(",")`; its meaning is stated by JoinSplit and SplitJoin |
| CategoryParsing.Trim | server/src/controllers/pointsController.ts:9 | `item.trim()`; its meaning is stated by TrimShape, TrimPadded and TrimIdempotent |
| CategoryParsing.ToNumber | server/src/controllers/pointsController.ts:9 | `Number` on a trimmed token: "" is 0, an optionally signed digit run is its value, anything else is not an integer; stated by ToNumberDecimal and ToNumberWord |
| CategoryParsing.ConvertTokens | server/src/controllers/pointsController.ts:9 | `.map(item => Number(item.trim()))`, one number per token in order |
| CategoryParsing.ParseCategories | server/src/controllers/pointsController.ts:7-9 | the parse of `categories` in `index` and in `create` (lines 77-79) always yields at least one number |
| Tables.ImageUrl | server/src/controllers/pointsController.ts:22 | the published URL of a stored image, the same at lines 43 and categoriesController.ts:12; its inverse is ImageOfUrl (ImageUrlRoundTrip, ImageOfUrlInverse) |
| PointCategoryMigration.Up | server/src/database/migrations/02_create_point_category.ts:2-15 | `createTable('point_category', ...)`; stated by UpAddsOnlyTheTable |
| PointCategoryMigration.Down | server/src/database/migrations/02_create_point_category.ts:19-21 | `dropTable('point_category')`; stated by DownUndoesUp and UpUndoesDown |
| PointsController.QueryString | server/src/controllers/pointsController.ts:6-7 | `String(value)` of a query parameter, also at lines 14-15: "undefined" when absent, the values joined with "," when repeated |
| PointsController.Index | server/src/controllers/pointsController.ts:5-27 | the discovery query; its meaning is stated by IndexSelects and IndexListsEachPointOnce |
| PointsController.Show | server/src/controllers/pointsController.ts:28-50 | the lookup of one point and its titles; its meaning is stated by ShowAnswers |
| PointsController.NewPoint | server/src/controllers/pointsController.ts:63-72 | the row inserted into `points`: the uploaded filename and the form fields, with the assigned id |
| PointsController.NewLinks | server/src/controllers/pointsController.ts:80-85 | the rows `{ category_id, point_id }` inserted into `point_category`, one per parsed id; stated by TitlesOfNewLinks and LinkedAfterCreate |
| CategoriesController.ListCategories | server/src/controllers/categoriesController.ts:6-16 | the catalogue listing; stated by ListCategoriesServesEveryRow |
| CreatePointPage.Toggle | web/src/pages/CreatePoint/index.tsx:115-124 | `handleSelectCategory`; stated by ToggleCases and ToggleFlipsMembership |
| CreatePointPage.SerializeUfs | web/src/pages/CreatePoint/index.tsx:66-72 | the UF list; stated by SerializeUfsKeepsItems |
| CreatePointPage.SerializeCities | web/src/pages/CreatePoint/index.tsx:81-86 | the city list; stated by SerializeCitiesKeepsItems |
| CreatePointPage.SubmitPayload | web/src/pages/CreatePoint/index.tsx:129-144 | the body `handleSubmit` posts; stated by SubmitPayloadFields |
| CreatePointPage.ArrayToString | web/src/pages/CreatePoint/index.tsx:133 | the selection as `String(array)` renders it; stated by SelectionReadByServer |

## Left out

- HTTP and Express plumbing: routing, status codes other than the one `show` sets, JSON encoding, the multer upload and the knex/SQLite connection. The tables are sequences and the SQL statements are functions over them.
- A missing upload (`request.file` undefined) makes `create` throw before the transaction opens. The model always receives a filename.
- A `categories` field in `create` that is missing, or is not a string, throws at `.split`. An array, which is what the web form's JSON body sends, is one such case. The throw comes after the point insert, inside the open transaction, which is then never committed. The model takes the field as a string and does not model this path.
- `CreatePointPage.SelectionReadByServer` states what the server would read if the selection arrived as text (`String(array)`). It does not model the JSON request `api.post` sends.
- CategoryParsing.ToNumber: only the empty string and optionally signed runs of decimal digits are read as integers. Fractions ("2.0", "2.5"), exponents ("1e2"), hexadecimal, binary and octal literals and "Infinity" all become `NotInteger`, although `Number` reads some of them as integers. So such a token never matches an id in the model.
- CategoryParsing.ToNumber: a run of digits is read exactly, as an unbounded integer. `Number` returns an IEEE double, so a value above 2^53 is rounded ("9007199254740993" reads as 9007199254740992). CategoryParsing.ParsePaddedDecimals, CategoryParsing.ToNumberDecimal and CreatePointPage.SelectionReadByServer therefore hold in the program only for ids up to 2^53.
- The `:id` route parameter is compared with the `id` column as an integer. SQLite's conversion of a non-numeric parameter is not modelled.
- Query results are modelled in one fixed order: stored order for the join, first occurrence for DISTINCT, association rows in insertion order for the titles of `show`. The SQL has no ORDER BY, so the program promises no order.
- PointsController.ShowAfterCreate and PointsController.TitlesOfNewLinks state the titles position by position. That relies on the model's order; what the program promises is only that the titles, counted with repetition, are those of the parsed ids.
- `show` responds with `categories` as objects `{ title }`. The model lists the bare titles.
- PointsController.Registry.Insert: foreign-key enforcement is taken as the rule that refuses an association row naming an unknown category or a non-integer. SQLite enforces REFERENCES only with its `foreign_keys` pragma on, and that setting is not part of this model.
- PointsController.Registry.Insert: when the insert is refused, the source neither rolls back nor commits the open transaction. The model leaves the committed tables unchanged and does not model the dangling transaction, its lock or the id it may have consumed.
- The `points` and `categories` migrations and the category seed are not part of this model. The `categories` table is only read, and its key is taken as unique.
- Latitude and longitude are carried through unchanged as reals and never computed on.
- UI behaviour is not modelled: the IBGE HTTP requests, browser geolocation, the Leaflet map, React state hooks, `alert` and navigation. Nor is the mobile app's home screen.
- Concurrency between requests is not modelled. Each operation is one atomic step on the registry.
- Behaviour the model keeps as the program has it:
  - an unknown id in `show` answers status 400 with 'Point not found!';
  - an empty `categories` string parses to the id 0, not to an empty filter;
  - no input validation precedes the storage calls;
  - a refused association insert is neither rolled back nor answered.
