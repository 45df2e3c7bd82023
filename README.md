# Library recommender, fiscal-year usage transform and joke importer — a Dafny model

This project models three pieces of logic from three small services, and proves properties of them.

- **Book recommender.** This is `RecommendationService.recommendForUser` of the library catalog service. For a user it builds a list of at most `limit` books in three stages:
  - **Stage A.** Unread books from the user's favourite categories. Categories are ranked by how often they occur in the user's reading history.
  - **Stage B.** Unread books ranked by how many READ events all users logged for them.
  - **Stage C.** Any unread catalog book.

  The repositories become plain values: the user list, the catalog in its `findAll` order, and the whole reading-history log. The pure stream pipelines (read set, category counts, popularity ranking) are functions (`RecommendationSpec`, `Frequency`). The three stages are loops with `break`/`continue` that append to the result list (`RecommendationService`). Each loop is proved equal to a specification function. The properties are proved about those functions (`RecommendationLemmas`, `RecommendationProperties`). Two worked examples on the seeded catalog are in `RecommendationScenarios`.
- **Usage transform.** This is `UsageService.transformAndSave`. One request row holds twelve month columns, a fiscal year `Fyear`, a location, a category and a unit. It turns them into one output row per month with a nonzero value. Each row carries the month's calendar number and calendar year (April–December fall in `Fyear - 1`). A matching entity is built for each row and handed to `saveAll`. The early returns and the month loop are a method (`UsageService`) proved equal to `UsageSpec.Transform`. The calendar facts are in `UsageProperties`.
- **Joke importer.** This is `import_jokes` and `transform_joke`. It checks the target, fetches raw jokes, and keeps the first raw joke of each non-null id. It normalises each kept joke according to its type. Then it inserts or updates rows of the `jokes` table keyed by `joke_id`, counting inserts and updates. The specification is `JokeSpec`, the two loops are `JokeImport`, and the properties are `JokeProperties`. The table is a `map<int, Joke>` passed in and returned.

Java `int` arithmetic is modelled where it matters, as `UsageSpec.Wrap32`. Doubles are `real`. `Integer.parseInt` and `Double.parseDouble` are parameters: partial functions the model does not look inside. So is the JokeAPI fetch.

Two behaviours of the code are worth stating outright:
- **Non-positive limit.** An unknown user gets an empty list before `limit` is looked at. For a known user with `limit == 0`, the read set and the favourite ranking are computed and the list stays empty. The popularity ranking is not computed, because it sits behind the `size() < limit` guard at `RecommendationService.java` line 72. A negative limit for a known user reaches `stream().limit(limit)`, which throws `IllegalArgumentException`. The model's outcome for that case is `IllegalLimit`.
- **Equal counts.** Both rankings sort `HashMap` entries by count alone, so equal counts come out in `HashMap` iteration order, which is unspecified. The model fixes first-occurrence order for them. Every property except the two worked examples is proved for an arbitrary favourite ranking and popularity ranking, or holds whatever the tie order.

## Model

| member | source | states |
|---|---|---|
| RecommendationSpec.UserHistory | java/src/main/java/com/example/library/service/RecommendationService.java:39 | an entry is in the user's history iff it is in the log and belongs to that user |
| RecommendationSpec.UserHistoryAppend | java/src/main/java/com/example/library/service/RecommendationService.java:39 | the history follows log order: a new log entry of the user is appended to the history, and any other entry leaves it unchanged |
| RecommendationSpec.UserHistoryCounts | java/src/main/java/com/example/library/service/RecommendationService.java:39 | every entry of the user occurs in the history exactly as often as in the log, and no other entry occurs |
| RecommendationSpec.ReadKeys | java/src/main/java/com/example/library/service/RecommendationService.java:40-43 | an id is listed iff some entry of the history is READ for a book with that id |
| RecommendationSpec.CategoryKeys | java/src/main/java/com/example/library/service/RecommendationService.java:46-51 | a category is listed iff some entry, whatever its status, has a book of that category |
| Frequency.CountsAppend | java/src/main/java/com/example/library/service/RecommendationService.java:51 | `counting()` element by element: appending `x` raises its count by one, from zero when it is new, and leaves every other key and count unchanged |
| Frequency.RankByCount | java/src/main/java/com/example/library/service/RecommendationService.java:58 | the result is a permutation of the keys, sorted by non-increasing count |
| Frequency.Ranking | java/src/main/java/com/example/library/service/RecommendationService.java:57-60 | each distinct element exactly once, no repetitions, and earlier elements occur at least as often as later ones |
| RecommendationSpec.FindBook | java/src/main/java/com/example/library/service/RecommendationService.java:86 | returns a catalog book with the id, and None exactly when no catalog book has it |
| RecommendationService.ScanCatalog | java/src/main/java/com/example/library/service/RecommendationService.java:63-68 | the inner catalog loop, with its break at the limit, computes the scan specification `Scan` |
| RecommendationService.FillByCategory | java/src/main/java/com/example/library/service/RecommendationService.java:62-70 | the stage-A loops, with both breaks, compute `StageA` |
| RecommendationService.FillByPopularity | java/src/main/java/com/example/library/service/RecommendationService.java:83-87 | the stage-B loop, with its break and its `continue` on read ids, computes `StageB` |
| RecommendationService.RecommendForUser | java/src/main/java/com/example/library/service/RecommendationService.java:34-99 | the method's outcome is `Recommend`: empty for an unknown user, `IllegalLimit` for a negative limit, otherwise the three stages cut to `limit` |
| RecommendationLemmas.ScanStaysFull | java/src/main/java/com/example/library/service/RecommendationService.java:64 | once a scan is full, the rest of the catalog changes nothing, which justifies the break |
| RecommendationLemmas.StageBStaysFull | java/src/main/java/com/example/library/service/RecommendationService.java:84 | once stage B is full, the rest of the ranking changes nothing |
| RecommendationLemmas.StageAStaysFull | java/src/main/java/com/example/library/service/RecommendationService.java:69 | once stage A is full, the remaining categories change nothing |
| RecommendationLemmas.ScanStepKeeps | java/src/main/java/com/example/library/service/RecommendationService.java:64-66 | one scan step appends at most the current book, of the wanted category, and keeps ids distinct, catalog-only and unread |
| RecommendationLemmas.ScanKeeps | java/src/main/java/com/example/library/service/RecommendationService.java:63-68 | a scan only extends its start list, stays within the limit, adds only wanted unread catalog books with new ids, in catalog order |
| RecommendationLemmas.PopularStepKeeps | java/src/main/java/com/example/library/service/RecommendationService.java:84-86 | one stage-B step appends at most the book with the current id, keeping the list admissible and within the limit |
| RecommendationLemmas.StageBKeeps | java/src/main/java/com/example/library/service/RecommendationService.java:83-87 | stage B only extends its start list with admissible books whose ids follow the ranking order, within the limit |
| RecommendationLemmas.StageAKeeps | java/src/main/java/com/example/library/service/RecommendationService.java:62-70 | stage A's list is admissible, within the limit, and every book's category is a favourite |
| RecommendationLemmas.ScanGrows | java/src/main/java/com/example/library/service/RecommendationService.java:63-68 | a catalog scan never shrinks the list and never loses an id already listed |
| RecommendationLemmas.ScanComplete | java/src/main/java/com/example/library/service/RecommendationService.java:63-68 | a scan that ends short lists an id for every unread scanned book of the wanted category, or every unread scanned book when no category is wanted (stage C, lines 91-96) |
| RecommendationLemmas.StageAComplete | java/src/main/java/com/example/library/service/RecommendationService.java:62-70 | a stage A that ends short lists every unread catalog book of every favourite category |
| RecommendationLemmas.StageBComplete | java/src/main/java/com/example/library/service/RecommendationService.java:83-87 | a stage B that ends short lists every unread id of the popularity ranking that `findById` resolves to a catalog book |
| RecommendationLemmas.StageAPrefix | java/src/main/java/com/example/library/service/RecommendationService.java:62-70 | stage A over the first n categories is a prefix of stage A over all of them |
| RecommendationProperties.PipelineShape | java/src/main/java/com/example/library/service/RecommendationService.java:62-96 | for any rankings: admissible, at most `limit`, stage A then B then C as prefixes, B's ids in ranking order, C's books in catalog order, full after a stage means later stages add nothing; a short stage A holds every unread book of a favourite category, a short stage B every unread ranked id with a catalog book, and a short result every unread catalog book |
| RecommendationProperties.LimitRespected | java/src/main/java/com/example/library/service/RecommendationService.java:34-98 | unknown user gives empty; known user with negative limit gives the exception; otherwise at most `limit` books, none for 0 |
| RecommendationProperties.OnlyUnreadCatalogBooks | java/src/main/java/com/example/library/service/RecommendationService.java:40-96 | no id twice, only catalog books, and none the user has a READ entry for |
| RecommendationProperties.StagesInOrder | java/src/main/java/com/example/library/service/RecommendationService.java:62-96 | the result is stage A, then stage B's books in popularity order, then stage C's in catalog order; stage A full means the result is stage A; a short result holds every unread catalog book |
| RecommendationProperties.BoundedByUnread | java/src/main/java/com/example/library/service/RecommendationService.java:91-96 | the result is no longer than the number of unread catalog ids |
| RecommendationProperties.StageAGroupedByFavorite | java/src/main/java/com/example/library/service/RecommendationService.java:62-70 | the books of the n-th favourite's pass follow those of earlier ones, are all of that category, and are in catalog order |
| RecommendationProperties.CategoryCountAppend | java/src/main/java/com/example/library/service/RecommendationService.java:46-51 | each entry with a categorised book adds one to that category's count, whatever its status |
| RecommendationProperties.PopularityCountAppend | java/src/main/java/com/example/library/service/RecommendationService.java:74-76 | each READ entry of any user adds one to its book's popularity, other entries nothing |
| RecommendationScenarios.AliceGetsHobbitThenUnread | java/src/main/java/com/example/library/config/DataInitializer.java:21-25 | on the five seeded books, a user who read both science books and listed the fantasy one gets The Hobbit from the favourite categories, then 1984 and Sapiens in catalog order, for limit 3 |
| RecommendationScenarios.BobGetsMostRead | java/src/main/java/com/example/library/config/DataInitializer.java:21-25 | a user with no history gets the two most-read books, most-read first |
| RecommendationScenarios.SharedPopularity | java/src/main/java/com/example/library/service/RecommendationService.java:78-81 | a book read three times ranks above one read once, even when the latter is read first |
| UsageSpec.Wrap32 | java-Q2/src/main/java/com/example/usage/service/UsageService.java:93 | Java `int` subtraction: the exact result whenever it is in range |
| UsageSpec.Trim | java-Q2/src/main/java/com/example/usage/service/UsageService.java:66 | the result is a slice of the input with only characters up to U+0020 cut on either side, and it neither starts nor ends with one |
| UsageSpec.StripCommas | java-Q2/src/main/java/com/example/usage/service/UsageService.java:82 | no comma is left, the other characters keep their order, and exactly the commas are dropped |
| UsageService.TransformAndSave | java-Q2/src/main/java/com/example/usage/service/UsageService.java:46-107 | returns `Transform`; `saveAll` receives a list exactly when rows were produced, and it matches the returned rows element by element |
| UsageService.MonthlyRows | java-Q2/src/main/java/com/example/usage/service/UsageService.java:75-100 | the month loop, with its `continue`s, computes `Rows` over the fiscal months, with one matching entity per row |
| UsageProperties.FiscalMonth | java-Q2/src/main/java/com/example/usage/service/UsageService.java:17-42 | every fiscal month name is in the number table, so -1 never occurs; the k-th is calendar month k+4 for k < 9 and k-8 after; it is in Apr–Dec iff k < 9 |
| UsageProperties.FiscalMonthsDistinct | java-Q2/src/main/java/com/example/usage/service/UsageService.java:25-38 | different fiscal months have different month numbers |
| UsageProperties.RowsAreMonthRows | java-Q2/src/main/java/com/example/usage/service/UsageService.java:78-100 | the rows are exactly the rows of individual months, and there are no more rows than months |
| UsageProperties.RowsDistinctMonths | java-Q2/src/main/java/com/example/usage/service/UsageService.java:78-100 | no two rows have the same month: at most one row per month |
| UsageProperties.MonthRowFacts | java-Q2/src/main/java/com/example/usage/service/UsageService.java:79-95 | a month's row has its table number, the year rule, a nonzero value, the shared fields, and its chronological position |
| UsageProperties.RowsInOrder | java-Q2/src/main/java/com/example/usage/service/UsageService.java:78-96 | rows of the first n fiscal months are strictly increasing in (year, month) and all before month n |
| UsageProperties.RejectedRequests | java-Q2/src/main/java/com/example/usage/service/UsageService.java:47-69 | a null request, non-map `content`, missing `Fyear` or unparseable trimmed `Fyear` gives no rows |
| UsageProperties.AllRowFields | java-Q2/src/main/java/com/example/usage/service/UsageService.java:71-96 | at most 12 rows, each with month in 1..12, year `fyear - 1` for Apr–Dec and `fyear` for Jan–March, nonzero value, shared location, code and unit |
| UsageProperties.AcceptedRequestRows | java-Q2/src/main/java/com/example/usage/service/UsageService.java:71-96 | the same for every request that passes the guards |
| UsageProperties.MonthHasRow | java-Q2/src/main/java/com/example/usage/service/UsageService.java:78-89 | a month has a row iff its exact key is present, its comma-stripped value parses, and the value is not zero |
| UsageProperties.Chronological | java-Q2/src/main/java/com/example/usage/service/UsageService.java:78-96 | for `Fyear` above the smallest `int`, successive rows are strictly increasing in calendar time |
| UsageProperties.YearWrapsAtMinInt | java-Q2/src/main/java/com/example/usage/service/UsageService.java:93 | at the smallest `int`, an April row is dated 2147483647 |
| JokeSpec.TransformJoke | python/Q2/app/main.py:59-81 | fails exactly when `flags` is present but null, and otherwise keeps the raw id |
| JokeSpec.TransformAll | python/Q2/app/main.py:99 | fails iff some kept raw joke has a null `flags`; otherwise one transformed joke per raw joke, in order |
| JokeSpec.FirstById | python/Q2/app/main.py:90-97 | every kept raw joke has an id |
| JokeImport.DedupById | python/Q2/app/main.py:90-97 | the loop over the seen-id set computes `FirstById` |
| JokeImport.UpsertJokes | python/Q2/app/main.py:101-112 | the upsert loop's table and counters are `UpsertAll` |
| JokeImport.ImportJokes | python/Q2/app/main.py:83-119 | the endpoint's outcome is `Import` |
| JokeProperties.TransformJokeFields | python/Q2/app/main.py:60-80 | missing flags read false, missing `safe` true, null flags or `safe` stay null, given values and id/category/type/lang copied; "single" keeps only `joke`, "twopart" only `setup`/`delivery`, other types none |
| JokeProperties.TransformMatchesType | python/Q2/app/main.py:75-80 | every transformed joke has text fields in line with its type |
| JokeProperties.TransformRoundTrip | python/Q2/app/main.py:59-81 | transforming the raw joke carrying a joke's fields gives it back iff its text fields match its type |
| JokeProperties.FirstByIdIds | python/Q2/app/main.py:90-97 | kept ids are pairwise distinct, every non-null input id is kept, and there are as many jokes as distinct ids |
| JokeProperties.FirstByIdOrder | python/Q2/app/main.py:90-97 | the kept jokes are a subsequence of the input, each the first with its id |
| JokeProperties.FirstByIdFirstAppearance | python/Q2/app/main.py:90-97 | the kept jokes follow the order in which their ids first appear in the input: wherever a later kept joke's id occurs, an earlier kept joke's id has already occurred before it |
| JokeProperties.FirstIsKept | python/Q2/app/main.py:90-97 | the first raw joke of any id is kept |
| JokeProperties.UpsertCounted | python/Q2/app/main.py:101-112 | inserted plus updated equals the number of jokes |
| JokeProperties.UpsertOneKeys | python/Q2/app/main.py:103-111 | one turn of the loop adds the joke's id to the keys, counts an insert exactly when the id was not yet a key, and leaves every other row as it was |
| JokeProperties.UpsertKeySet | python/Q2/app/main.py:101-112 | the keys after the loop are the old keys together with the jokes' ids |
| JokeProperties.UpsertSize | python/Q2/app/main.py:101-112 | the table grows by exactly one row per insert counted |
| JokeProperties.UpsertOthers | python/Q2/app/main.py:101-112 | a row whose id no joke carries is still there, unchanged |
| JokeProperties.UpsertKeys | python/Q2/app/main.py:101-112 | the table gains exactly the jokes' ids, one row per insert, and other rows are unchanged |
| JokeProperties.UpsertRows | python/Q2/app/main.py:103-111 | with distinct ids, each joke becomes the row of its id |
| JokeProperties.UpsertSplitCounts | python/Q2/app/main.py:103-111 | with distinct ids, inserted counts the ids new to the table and updated those already there |
| JokeProperties.TargetChecked | python/Q2/app/main.py:85-86 | exactly the targets below 1 are refused with 400, whatever the fetch would return |
| JokeProperties.ImportFails | python/Q2/app/main.py:99 | the import fails before any write iff a kept raw joke has a null `flags` |
| JokeProperties.ImportCounts | python/Q2/app/main.py:114-119 | the response echoes the target, `fetched` is the number of distinct non-null ids, and inserted/updated split it into new and existing ids |
| JokeProperties.ImportKeeps | python/Q2/app/main.py:101-112 | after an import the table has a row for each fetched id, and every other row is unchanged |
| JokeProperties.ImportRows | python/Q2/app/main.py:90-112 | after an import each fetched id holds the transform of the first raw joke with that id |

## Left out

- **Persistence.** Persistence is left out because it is I/O. The repositories, `saveAll`, `db.query`/`add`/`commit` and transaction semantics are replaced by values passed in and returned. Database constraints at commit are not modelled: `NOT NULL` on `category`, `type` and `lang`, and the unique `joke_id`.
- **`fetch_jokes_from_api`.** The fetch is left out because it is network I/O with batching. It is the parameter `fetch`, and its HTTP 502 errors are not modelled.
- **Default target.** The default `target` of `DEFAULT_TARGET_JOKES` (100), used when the request gives none, is left out because it is request parsing. In the model, `target` is always given.
- **Parsing.** `Integer.parseInt` and `Double.parseDouble` are opaque parameters.
  - Double values are `real`, so NaN and -0.0 are not modelled. `Double.compare(val, 0.0)` keeps a row for -0.0 and for NaN; the model drops every value equal to zero.
  - JSON parsing and `Objects.toString` are not modelled: a request value is given with its text.
  - An explicit JSON `null` under a key is modelled as an absent key. In `transformAndSave` the two behave the same.
  - Non-integer joke ids, and non-object or non-boolean `flags`/`safe` values, are not modelled.
- **Tie order.** The order of equal counts in both rankings is `HashMap` iteration order, which is unspecified. The model fixes first-occurrence order.
- **Book equality.** `recommendations.contains(b)` uses `Book.equals`, whose definition is not part of this model. Duplicates are detected by book id.
- **Null books.** A history entry's book is never null in the model. In the code, a READ entry with a null book throws in `RecommendationService.java`: in the user's read set at line 42, and for any user's entry in the popularity count at line 76. The category count filters null books out at line 48.
- **Chronological.** This lemma requires `Fyear` above the smallest `int`. At that value `fyear - 1` wraps to 2147483647; `YearWrapsAtMinInt` exhibits this.
- **Other files.** `python/Q1/etl.py` (pandas, floating point, CSV and SQLite I/O) is left out. So are `BookService`, `UserService`, the controllers, the exception class and the repository interfaces, since they are routing and thin repository wrappers. The record shapes become datatypes, and the seeded books' fields appear in the worked examples.
