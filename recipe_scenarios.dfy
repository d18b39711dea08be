/**
 * Concrete calls of the recommendation routine: the four failures on
 * small inputs, a ranking worked out by hand, and a page request that
 * reaches the division by zero of the duplicate stage.
 */
module RecipeScenarios {
  import opened RecipeModel
  import opened RecipeMatching
  import opened RecipePaging

  const Fridge: RefrigeratorId := 7
  const Flour: GroceryId := 1
  const Egg: GroceryId := 2

  /** Two units of flour and one egg, all expiring at 100, looked at at time 50. */
  function Pantry(): seq<RefrigeratorGrocery>
  {
    [RefrigeratorGrocery(1, 100, Fridge, Flour),
     RefrigeratorGrocery(2, 100, Fridge, Flour),
     RefrigeratorGrocery(3, 100, Fridge, Egg)]
  }

  /** Recipe 1 needs a flour and an egg, recipe 2 three flour, recipe 3 one flour. */
  function Cookbook(): seq<RecipeGrocery>
  {
    [RecipeGrocery(1, Flour, 1), RecipeGrocery(1, Egg, 1),
     RecipeGrocery(2, Flour, 3),
     RecipeGrocery(3, Flour, 1)]
  }

  function PantryCounts(): map<GroceryId, nat>
  {
    map[Egg := 1, Flour := 2]
  }

  lemma PantryFresh()
    ensures NonExpired(Pantry(), 50) == Pantry()
  {
    var pantry := Pantry();
    assert pantry[1..] == [pantry[1], pantry[2]];
    assert pantry[1..][1..] == [pantry[2]];
    assert NonExpired([pantry[2]], 50) == [pantry[2]];
  }

  lemma PantryCountsExact()
    ensures GroceryCount(Pantry(), Fridge) == PantryCounts()
  {
    var pantry := Pantry();
    assert pantry[1..] == [pantry[1], pantry[2]];
    assert pantry[1..][1..] == [pantry[2]];
    assert GroceryCount([pantry[2]], Fridge) == map[Egg := 1];
    assert GroceryCount(pantry[1..], Fridge) == map[Egg := 1, Flour := 1];
  }

  lemma PantryKinds()
    ensures Kinds(Pantry()) == [Flour, Flour, Egg]
  {
    var pantry := Pantry();
    assert pantry[1..] == [pantry[1], pantry[2]];
    assert pantry[1..][1..] == [pantry[2]];
    assert Kinds([pantry[2]]) == [Egg];
  }

  lemma CookbookLookup()
    ensures FindAllByGroceryIn(Cookbook(), [Flour, Flour, Egg]) == Cookbook()
  {
    var book := Cookbook();
    var a, b, c, d := book[0], book[1], book[2], book[3];
    assert book == [a] + [b, c, d];
    assert FindAllByGroceryIn([d], [Flour, Flour, Egg]) == [d];
    assert FindAllByGroceryIn([c, d], [Flour, Flour, Egg]) == [c, d];
    assert FindAllByGroceryIn([b, c, d], [Flour, Flour, Egg]) == [b, c, d];
  }

  lemma CookbookMatches()
    ensures MatchedRecipes(Cookbook(), PantryCounts()) == [1, 3]
    ensures RecipeMatchCount(Cookbook(), PantryCounts()) == map[3 := 1, 1 := 2]
  {
    var book, counts := Cookbook(), PantryCounts();
    var a, b, c, d := book[0], book[1], book[2], book[3];
    assert book == [a] + [b, c, d];
    assert MatchedRecipes([d], counts) == [3];
    assert MatchedRecipes([c, d], counts) == [3];
    assert MatchedRecipes([b, c, d], counts) == [1, 3];
    assert RecipeMatchCount([d], counts) == map[3 := 1];
    assert RecipeMatchCount([c, d], counts) == map[3 := 1];
    assert RecipeMatchCount([b, c, d], counts) == map[3 := 1, 1 := 1];
  }

  lemma SortExample()
    ensures SortByMatchCount([1, 3], map[3 := 1, 1 := 2]) == [1, 3]
  {
    var matches := map[3 := 1, 1 := 2];
    assert [1, 3][1..] == [3];
    assert [3][1..] == [];
    assert SortByMatchCount([3], matches) == InsertByMatchCount(3, [], matches) == [3];
    assert GetOrZero(matches, 3) <= GetOrZero(matches, 1);
    assert InsertByMatchCount(1, [3], matches) == [1, 3];
  }

  /** Recipe 2 asks for more flour than there is and drops out; recipe 1 matches twice and leads. */
  lemma HandRankedExample()
    ensures RankRecipes(Fridge, Pantry(), Cookbook(), 50) == Ok([1, 3])
  {
    PantryFresh();
    PantryCountsExact();
    PantryKinds();
    CookbookLookup();
    CookbookMatches();
    SortExample();
  }

  /** A missing refrigerator id fails first, whatever the inventory and catalog hold. */
  lemma MissingRefrigeratorExample()
    ensures RankRecipes(-1, Pantry(), Cookbook(), 50) == Err(NoRefrigeratorIdProvided)
  {
  }

  lemma EmptyInventoryExample()
    ensures RankRecipes(Fridge, [], Cookbook(), 50) == Err(NoGroceriesFound)
  {
  }

  /** An item that expired before now, or expires exactly now, is not usable. */
  lemma ExpiredExample()
    ensures RankRecipes(Fridge, [RefrigeratorGrocery(1, 49, Fridge, Flour)], Cookbook(), 50) == Err(AllGroceriesExpired)
    ensures RankRecipes(Fridge, [RefrigeratorGrocery(1, 50, Fridge, Flour)], Cookbook(), 50) == Err(AllGroceriesExpired)
  {
    assert NonExpired([RefrigeratorGrocery(1, 49, Fridge, Flour)], 50) == [];
    assert NonExpired([RefrigeratorGrocery(1, 50, Fridge, Flour)], 50) == [];
  }

  /** A fresh item of a kind no recipe uses. */
  lemma UnknownKindExample()
    ensures RankRecipes(Fridge, [RefrigeratorGrocery(1, 100, Fridge, 9)], Cookbook(), 50) == Err(NoMatchingRecipes)
  {
    var unknownKind := [RefrigeratorGrocery(1, 100, Fridge, 9)];
    assert NonExpired(unknownKind, 50) == unknownKind;
    assert Kinds(unknownKind) == [9];
    var book := Cookbook();
    assert book[1..] == [book[1], book[2], book[3]];
    assert book[1..][1..] == [book[2], book[3]];
    assert book[1..][1..][1..] == [book[3]];
    assert FindAllByGroceryIn([book[3]], [9]) == [];
    assert FindAllByGroceryIn(book[1..][1..], [9]) == [];
    assert FindAllByGroceryIn(book[1..], [9]) == [];
    assert FindAllByGroceryIn(book, [9]) == [];
  }

  /**
   * Ingredient rows exist for the fresh flour, but none is satisfied, so
   * the ranking is empty; a page of two then has to fill from an empty
   * list, and the remainder by its length divides by zero.
   */
  lemma EmptyRankingDividesByZero()
    ensures RankRecipes(Fridge, [RefrigeratorGrocery(1, 100, Fridge, Flour)], [RecipeGrocery(2, Flour, 3)], 50) == Ok([])
    ensures Recommend(FetchRecipesDto(Fridge, 2, []), false, [RefrigeratorGrocery(1, 100, Fridge, Flour)],
                      [RecipeGrocery(2, Flour, 3)], 50, 0) == Err(DivisionByZero)
    ensures Recommend(FetchRecipesDto(Fridge, 2, []), true, [RefrigeratorGrocery(1, 100, Fridge, Flour)],
                      [RecipeGrocery(2, Flour, 3)], 50, 0) == Ok(Page([], 0))
  {
    var items := [RefrigeratorGrocery(1, 100, Fridge, Flour)];
    var catalog := [RecipeGrocery(2, Flour, 3)];
    assert NonExpired(items, 50) == items;
    assert Kinds(items) == [Flour];
    assert FindAllByGroceryIn(catalog, [Flour]) == catalog;
    assert GroceryCount(items, Fridge) == map[Flour := 1];
    assert MatchedRecipes(catalog, map[Flour := 1]) == [];
  }

  lemma NovelExample()
    ensures Novel([1, 3], [1]) == [3]
  {
    assert [1, 3][..1] == [1];
    assert [1][..0] == [];
    assert Novel([1], [1]) == [];
  }

  lemma RotationExample()
    ensures Rotation([1, 3], 0, 2) == [3, 1]
  {
    var dups := Rotation([1, 3], 0, 2);
    assert dups[0] == [1, 3][1 % 2] == 3;
    assert dups[1] == [1, 3][2 % 2] == 1;
  }

  /** A page of three over the ranking [1, 3] with recipe 1 already sent: 3 first, then duplicates from the cursor. */
  lemma PageExample()
    ensures Paginate([1, 3], [1], 3, 0) == Ok(Page([3, 3, 1], 0))
  {
    NovelExample();
    RotationExample();
    assert NovelStage([1, 3], [1], 3) == [3];
    assert [3] + [3, 1] == [3, 3, 1];
  }
}
