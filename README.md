# Recipe recommendation engine — a verified Dafny model

This project models the recipe recommendation routine of a household
inventory backend. The routine is `RecipeService.getRecipesByGroceriesAndExpirationDates`,
together with its shared duplicate cursor `lastDuplicateIndex` and `convertToDTOs`.

Given the groceries stored in a refrigerator and the recipe-ingredient table,
the routine works in stages:

1. It rejects a missing refrigerator id, an empty inventory, and an inventory
   in which everything has expired.
2. It counts the fresh units of each grocery kind in that refrigerator.
3. It fetches, in one batched lookup, every ingredient row for the fresh kinds,
   and fails if there are none.
4. It counts, for each recipe, the ingredient rows whose required quantity is
   available.
5. It ranks the recipes that have at least one satisfied row, by that count,
   descending.
6. It returns either the whole ranking, or one page of `numRecipes` recipes.
   A page takes unseen recipes first, in rank order. It then fills any empty
   slots with duplicates, taken from a rotating cursor that lives across calls.

Files:

- `recipe_model.dfy` (module `RecipeModel`): the records. These are inventory
  items (`RefrigeratorGrocery`), ingredient rows (`RecipeGrocery`), the request
  (`FetchRecipesDto`), the result record (`RecipeDto`), and the error outcomes
  (`Error`, `Result`).
- `recipe_matching.dfy` (module `RecipeMatching`): stages 1–5. Each stream
  pipeline is a function. Next to them are reference definitions written from
  what each stage means: `Available`, `Stocked`, `Contributes`,
  `MatchStrength`, `RecipeRows`. Lemmas connect the functions to these
  definitions.
- `recipe_paging.dfy` (module `RecipePaging`): the page stage and the whole
  call as functions (`Novel`, `NovelStage`, `Rotation`, `Paginate`,
  `Recommend`), plus lemmas about them.
- `recipe_service.dfy` (module `Recommendation`): `ConvertToDtos`, and the class
  `RecipeService`. The class holds the cursor field `lastDuplicateIndex`. Its
  two page loops are methods with loop invariants, proved against
  `RecipePaging`. Its main method is proved against `Recommend`.
- `recipe_scenarios.dfy` (module `RecipeScenarios`): concrete inputs. These are
  the four failures, a ranking worked by hand, a page, and an input that
  reaches the division by zero.

Modelling choices:

- Dates are integers. `after(new Date())` becomes `physicalExpireDate > now`,
  where `now` is a parameter.
- The two repository calls are parameters. `inventory` is the list that
  `findAllByRefrigeratorId` returned. `catalog` is the recipe-ingredient table,
  and `findAllByGroceryIn` is the filter `FindAllByGroceryIn` over it.
- The `inventory` parameter may hold items of other refrigerators. This keeps
  visible the redundant refrigerator filter at line 62.
- Recipes are identified by id. `RecipeDto` holds only the id.
- Each `NoSuchElementException` message is an `Error` constructor.
  `ArithmeticException` becomes `DivisionByZero`.

Behaviour of the code that the model keeps as written:

- **Empty ranking.** Ingredient rows can exist for fresh kinds while none of
  them is satisfied. The ranked list is then empty. With `numRecipes > 0`, the
  duplicate loop computes `% 0` and throws. There is no full-page guarantee in
  that case (`RecommendErrors`, `EmptyRankingDividesByZero`).
- **Negative page size.** A negative `numRecipes` is accepted and yields an
  empty page.
- **Batched lookup scope.** The lookup uses the kinds of all fresh loaded
  items. The counts use only items whose refrigerator id matches.
- **Tie order.** The order among equal match counts comes from hash-map
  iteration. It is neither stable nor specified.
- **Cursor scope.** The cursor is one static field shared by all callers and
  refrigerators.

## Model

| member | source | states |
|---|---|---|
| RecipeMatching.IsFresh | backend/src/main/java/ntnu/idatt2106/backend/service/RecipeService.java:54 | an item is usable iff its expiry date is strictly after now; defined as written, and used by NonExpired, Available and Stocked |
| RecipeMatching.NonExpired | backend/src/main/java/ntnu/idatt2106/backend/service/RecipeService.java:52-54 | keeps exactly the items expiring strictly after now, each with its original multiplicity |
| RecipeMatching.GroceryCount | backend/src/main/java/ntnu/idatt2106/backend/service/RecipeService.java:60-63 | a kind is a key iff some item of that refrigerator has it, and every count is at least 1 |
| RecipeMatching.AvailableCountExact | backend/src/main/java/ntnu/idatt2106/backend/service/RecipeService.java:53-63 | the count for a kind equals the number of loaded items of that kind that are fresh and belong to the requested refrigerator |
| RecipeMatching.ExpiredItemsDoNotCount | backend/src/main/java/ntnu/idatt2106/backend/service/RecipeService.java:53-63 | a kind whose items in the refrigerator have all expired has available count 0 |
| RecipeMatching.GroceryCountCons | backend/src/main/java/ntnu/idatt2106/backend/service/RecipeService.java:61-63 | one more item raises only its own kind's count, by one, and only when it is in the refrigerator |
| RecipeMatching.Kinds | backend/src/main/java/ntnu/idatt2106/backend/service/RecipeService.java:67 | the lookup key list holds exactly the kinds of the fresh items |
| RecipeMatching.FindAllByGroceryIn | backend/src/main/java/ntnu/idatt2106/backend/service/RecipeService.java:66-67 | returns exactly the catalog rows whose kind is listed, each as often as in the catalog |
| RecipeMatching.LookupEmpty | backend/src/main/java/ntnu/idatt2106/backend/service/RecipeService.java:66-71 | the lookup is empty iff no catalog row names a kind of a fresh item |
| RecipeModel.GetOrZero | backend/src/main/java/ntnu/idatt2106/backend/service/RecipeService.java:75 | a missing kind counts as 0; defined as written, and its use is stated through RecipeMatchCount and AvailableCountExact |
| RecipeMatching.Satisfied | backend/src/main/java/ntnu/idatt2106/backend/service/RecipeService.java:75 | a row passes iff the available count of its kind, 0 when absent, is at least its quantity; defined as written, and related to the reference Contributes by LookupCountAgrees |
| RecipeMatching.RecipeMatchCount | backend/src/main/java/ntnu/idatt2106/backend/service/RecipeService.java:73-76 | each recipe maps to its number of rows with quantity ≤ available count (absent kind = 0), and a recipe is a key iff that number is ≥ 1 |
| RecipeMatching.MatchedRecipes | backend/src/main/java/ntnu/idatt2106/backend/service/RecipeService.java:79-80 | the entry sequence holds each recipe with a satisfied row exactly once and nothing else |
| RecipeMatching.SortedCons | backend/src/main/java/ntnu/idatt2106/backend/service/RecipeService.java:81 | prepending a recipe whose count bounds the rest keeps descending order |
| RecipeMatching.InsertByMatchCount | backend/src/main/java/ntnu/idatt2106/backend/service/RecipeService.java:81 | insertion adds exactly one occurrence of the recipe |
| RecipeMatching.InsertKeepsOrder | backend/src/main/java/ntnu/idatt2106/backend/service/RecipeService.java:81 | inserting into a descending list keeps it descending |
| RecipeMatching.SortByMatchCount | backend/src/main/java/ntnu/idatt2106/backend/service/RecipeService.java:79-83 | the result is a permutation of the input with match counts non-increasing |
| RecipeMatching.LookupCountAgrees | backend/src/main/java/ntnu/idatt2106/backend/service/RecipeService.java:66-76 | counting satisfied lookup rows equals counting contributing catalog rows, given exact kinds and counts |
| RecipeMatching.MatchStrengthAgrees | backend/src/main/java/ntnu/idatt2106/backend/service/RecipeService.java:53-76 | the computed match count of a recipe equals the reference count of its catalog rows that are stocked and satisfied |
| RecipeMatching.MatchStrengthBounded | backend/src/main/java/ntnu/idatt2106/backend/service/RecipeService.java:74-76 | a recipe's match count never exceeds its number of ingredient rows |
| RecipeMatching.RankRecipes | backend/src/main/java/ntnu/idatt2106/backend/service/RecipeService.java:38-83 | the guards in source order, then the count, lookup, match and rank stages; defined as written, with errors in RankErrors, contents and order in RankedRecipes and bounds in RankedMatchBounds |
| RecipeMatching.RankErrors | backend/src/main/java/ntnu/idatt2106/backend/service/RecipeService.java:38-71 | each error happens exactly under its condition, in order: id -1; empty inventory; every item expiring at or before now; no catalog row for a fresh kind; otherwise success |
| RecipeMatching.RankedRecipes | backend/src/main/java/ntnu/idatt2106/backend/service/RecipeService.java:73-83 | the ranked list holds each recipe with match count ≥ 1 exactly once and no other, in non-increasing match count |
| RecipeMatching.RankedMatchBounds | backend/src/main/java/ntnu/idatt2106/backend/service/RecipeService.java:74-83 | every ranked recipe has between 1 and its row count satisfied rows |
| RecipePaging.Novel | backend/src/main/java/ntnu/idatt2106/backend/service/RecipeService.java:93-94 | the novel recipes are the ranked ones not in fetchedRecipeIds, with their multiplicity |
| RecipePaging.NovelKeepsOrder | backend/src/main/java/ntnu/idatt2106/backend/service/RecipeService.java:93-95 | the novel recipes are a subsequence of the ranking: a strictly increasing index witness places each one in the ranked list |
| RecipePaging.NovelStage | backend/src/main/java/ntnu/idatt2106/backend/service/RecipeService.java:90-97 | the first loop as a function; defined as a prefix of Novel, with its length, contents and order in NovelStageContents and its step in NovelStageAppend |
| RecipePaging.NovelStageAppend | backend/src/main/java/ntnu/idatt2106/backend/service/RecipeService.java:93-97 | one more ranked recipe is appended iff it is novel and the page is not yet full |
| RecipePaging.NovelStageStep | backend/src/main/java/ntnu/idatt2106/backend/service/RecipeService.java:93-97 | the same step stated on prefixes of the ranked list |
| RecipePaging.NovelStageContents | backend/src/main/java/ntnu/idatt2106/backend/service/RecipeService.java:90-97 | the novel stage is the first min(max(numRecipes,0), #novel) novel recipes, all ranked, none already fetched, and in the ranking's order (an index witness) |
| RecipePaging.Rotation | backend/src/main/java/ntnu/idatt2106/backend/service/RecipeService.java:104-108 | the k duplicates the second loop appends; defined as written, with the step in RotationStep and the reduced cursor in CursorStep |
| RecipePaging.RotationStep | backend/src/main/java/ntnu/idatt2106/backend/service/RecipeService.java:104-108 | one more duplicate is the recipe at the next cursor position |
| RecipePaging.Paginate | backend/src/main/java/ntnu/idatt2106/backend/service/RecipeService.java:89-109 | the page stage as a function; defined as written, with failure in PaginateFails, size and contents in PageIsFullAndRanked, layout in PageLayout and the cursor in CursorStaysInRange |
| RecipePaging.PaginateFails | backend/src/main/java/ntnu/idatt2106/backend/service/RecipeService.java:100-109 | a page fails iff the ranked list is empty and numRecipes > 0, and then with DivisionByZero |
| RecipePaging.PageIsFullAndRanked | backend/src/main/java/ntnu/idatt2106/backend/service/RecipeService.java:89-109 | a page has exactly max(numRecipes, 0) recipes, all from the ranked list |
| RecipePaging.PageLayout | backend/src/main/java/ntnu/idatt2106/backend/service/RecipeService.java:89-109 | the page starts with the novel stage, and the k-th duplicate after it is ranked[(c + 1 + k) % n] |
| RecipePaging.NoveltyPreference | backend/src/main/java/ntnu/idatt2106/backend/service/RecipeService.java:90-109 | with enough novel recipes no fetched one appears; otherwise every novel recipe is on the page |
| RecipePaging.CursorStaysInRange | backend/src/main/java/ntnu/idatt2106/backend/service/RecipeService.java:101-109 | the cursor changes only when duplicates are added, and then ends in [0, n) |
| RecipePaging.Recommend | backend/src/main/java/ntnu/idatt2106/backend/service/RecipeService.java:36-111 | one whole call as a function; defined as written, with errors in RecommendErrors, results in RecommendedRecipesMatch and AllRecipesMode |
| RecipePaging.RecommendedRecipesMatch | backend/src/main/java/ntnu/idatt2106/backend/service/RecipeService.java:36-111 | every recipe a successful call returns has between 1 and all of its ingredient rows satisfied |
| RecipePaging.RecommendErrors | backend/src/main/java/ntnu/idatt2106/backend/service/RecipeService.java:36-111 | a call fails with the ranking's error when ranking fails, and with DivisionByZero iff the ranking is empty, page mode is on and numRecipes > 0 |
| RecipePaging.AllRecipesMode | backend/src/main/java/ntnu/idatt2106/backend/service/RecipeService.java:85-87 | in all-recipes mode the call succeeds with exactly the ranked list, so each matched recipe appears once in non-increasing match count, and the cursor is unchanged |
| Recommendation.ConvertToDtos | backend/src/main/java/ntnu/idatt2106/backend/service/RecipeService.java:118-120 | one record per recipe, same length, same order, carrying that recipe's id |
| Recommendation.ModUnique | backend/src/main/java/ntnu/idatt2106/backend/service/RecipeService.java:106 | the remainder of q·n + r with 0 ≤ r < n is r |
| Recommendation.ModStep | backend/src/main/java/ntnu/idatt2106/backend/service/RecipeService.java:106 | stepping the reduced cursor equals stepping the unreduced one modulo n |
| Recommendation.CursorStep | backend/src/main/java/ntnu/idatt2106/backend/service/RecipeService.java:104-107 | after i steps from c the next step reads (c + i + 1) % n |
| Recommendation.RecipeService.constructor | backend/src/main/java/ntnu/idatt2106/backend/service/RecipeService.java:29 | the cursor starts at 0 |
| Recommendation.RecipeService.SelectNovel | backend/src/main/java/ntnu/idatt2106/backend/service/RecipeService.java:89-97 | the first loop returns exactly the novel stage |
| Recommendation.RecipeService.AddDuplicates | backend/src/main/java/ntnu/idatt2106/backend/service/RecipeService.java:100-109 | the second loop appends ranked[(c+1+j) % n] for each missing slot j and leaves the cursor at (c + missing) % n; it does nothing when the page is full; it fails with DivisionByZero, cursor unchanged, when the list is empty |
| Recommendation.RecipeService.BuildPage | backend/src/main/java/ntnu/idatt2106/backend/service/RecipeService.java:89-111 | both loops together return the page that Paginate describes and leave the cursor where it says |
| Recommendation.RecipeService.GetRecipesByGroceriesAndExpirationDates | backend/src/main/java/ntnu/idatt2106/backend/service/RecipeService.java:36-113 | the call returns the converted records of Recommend, or its error, and sets the cursor as Recommend says; on error the cursor is unchanged |
| RecipeScenarios.HandRankedExample | backend/src/main/java/ntnu/idatt2106/backend/service/RecipeService.java:53-83 | two flour and one egg rank [flour+egg, one flour]; the recipe with three flour is left out |
| RecipeScenarios.MissingRefrigeratorExample | backend/src/main/java/ntnu/idatt2106/backend/service/RecipeService.java:38-41 | id -1 fails with NoRefrigeratorIdProvided |
| RecipeScenarios.EmptyInventoryExample | backend/src/main/java/ntnu/idatt2106/backend/service/RecipeService.java:46-50 | an empty inventory fails with NoGroceriesFound |
| RecipeScenarios.ExpiredExample | backend/src/main/java/ntnu/idatt2106/backend/service/RecipeService.java:52-58 | an item expiring before now, or exactly now, leaves AllGroceriesExpired |
| RecipeScenarios.UnknownKindExample | backend/src/main/java/ntnu/idatt2106/backend/service/RecipeService.java:66-71 | a fresh kind no recipe uses fails with NoMatchingRecipes |
| RecipeScenarios.EmptyRankingDividesByZero | backend/src/main/java/ntnu/idatt2106/backend/service/RecipeService.java:101-107 | an unsatisfied ingredient row gives an empty ranking; a page of 2 then fails with DivisionByZero, while all-recipes mode returns [] |
| RecipeScenarios.PageExample | backend/src/main/java/ntnu/idatt2106/backend/service/RecipeService.java:89-109 | ranking [1, 3], fetched [1], three slots, cursor 0: page [3, 3, 1], cursor 0 |

## Left out

- The clock: `new Date()` is read once per filtered item in the source. The model uses one `now` for the whole call.
- Concurrency: the static cursor is read and written without synchronisation. The model is sequential, and one service object stands for the static field.
- Tie order among equal match counts: the source takes it from hash-map iteration. The model fixes one order (last satisfied row, then stable insertion). The lemmas state only sortedness and "each matched recipe exactly once", which hold for any order.
- Java integer widths: `summingInt` counts and the `int` cursor could overflow only past 2^31 items or recipes. Counts are unbounded in the model. The cursor is kept at 0 or above, where Java's truncating `%` and Dafny's Euclidean `%` agree.
- Entity equality: grouping by `Grocery` and `Recipe` objects is modelled as grouping by their ids.
- Recipe content: `RecipeDTO` carries only the id, because the ranking never reads other recipe fields.
- Persistence: the repository queries (`findAllByRefrigeratorId`, `findAllByGroceryIn`) are taken as given sequences.
- Logging.
- The rest of the repository: controllers, the shopping-list, grocery and refrigerator services, repositories and front-end. These are CRUD, authorization and routing around the engine, not part of this model.
