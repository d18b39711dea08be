/**
 * The recommendation service: the routine that ranks recipes against a
 * refrigerator's inventory and returns either the whole ranking or one
 * page of it, and the duplicate cursor that the routine keeps between
 * calls.  The two loops of the page stage are methods proved against the
 * functions of RecipePaging; the whole call is proved against Recommend.
 */
module Recommendation {
  import opened RecipeModel
  import opened RecipeMatching
  import opened RecipePaging

  /** `convertToDTOs`: one caller-facing record per recipe, in the same order. */
  function ConvertToDtos(recipes: seq<RecipeId>): (dtos: seq<RecipeDto>)
    ensures |dtos| == |recipes|
    ensures forall i :: 0 <= i < |recipes| ==> dtos[i].id == recipes[i]
  {
    if recipes == [] then [] else [RecipeDto(recipes[0])] + ConvertToDtos(recipes[1..])
  }

  lemma MulAtLeast(d: int, n: int)
    requires d >= 1 && n > 0
    ensures d * n >= n
  {
  }

  /** Euclidean remainders are unique: `q * n + r` with `0 <= r < n` leaves `r`. */
  lemma ModUnique(a: int, n: int, q: int, r: int)
    requires n > 0 && 0 <= r < n && a == q * n + r
    ensures a % n == r
  {
    var q0, r0 := a / n, a % n;
    assert a == q0 * n + r0;
    assert (q - q0) * n == r0 - r;
    if q > q0 { MulAtLeast(q - q0, n); }
    if q0 > q { MulAtLeast(q0 - q, n); }
  }

  /** Stepping a reduced cursor is stepping the unreduced one: `(a % n + 1) % n == (a + 1) % n`. */
  lemma ModStep(a: int, n: int)
    requires n > 0
    ensures (a % n + 1) % n == (a + 1) % n
  {
    var q, r := a / n, a % n;
    assert a == q * n + r;
    if r + 1 < n {
      ModUnique(r + 1, n, 0, r + 1);
      ModUnique(a + 1, n, q, r + 1);
    } else {
      ModUnique(r + 1, n, 1, 0);
      ModUnique(a + 1, n, q + 1, 0);
    }
  }

  /** After `i` steps from `start` the cursor reads `(start + i) % n`; one more step reads `(start + i + 1) % n`. */
  lemma CursorStep(start: int, i: nat, cursor: int, n: int)
    requires n > 0
    requires cursor == if i == 0 then start else (start + i) % n
    ensures (cursor + 1) % n == (start + i + 1) % n
  {
    if i > 0 {
      ModStep(start + i, n);
    }
  }

  class RecipeService {
    /**
     * `lastDuplicateIndex`: where the last duplicate was taken from.  The
     * routine keeps it in a static field shared by every caller; one
     * service object stands for it here.
     */
    var lastDuplicateIndex: int

    /**
     * The cursor is never negative: it starts at 0 and is only ever set to
     * a remainder.  So Java's remainder, which truncates, agrees with
     * Dafny's on it.
     */
    ghost predicate Valid()
      reads this
    {
      lastDuplicateIndex >= 0
    }

    constructor ()
      ensures Valid() && lastDuplicateIndex == 0
    {
      lastDuplicateIndex := 0;
    }

    /** The first loop of the page stage: novel recipes in rank order, at most `numRecipes` of them. */
    method SelectNovel(sortedRecipes: seq<RecipeId>, fetchedRecipeIds: seq<RecipeId>, numRecipes: int)
      returns (newRecipes: seq<RecipeId>)
      ensures newRecipes == NovelStage(sortedRecipes, fetchedRecipeIds, numRecipes)
    {
      newRecipes := [];
      for i := 0 to |sortedRecipes|
        invariant newRecipes == NovelStage(sortedRecipes[..i], fetchedRecipeIds, numRecipes)
      {
        NovelStageStep(sortedRecipes, i, fetchedRecipeIds, numRecipes);
        if sortedRecipes[i] !in fetchedRecipeIds && |newRecipes| < numRecipes {
          newRecipes := newRecipes + [sortedRecipes[i]];
        }
      }
      assert sortedRecipes[..|sortedRecipes|] == sortedRecipes;
    }

    /**
     * The second loop of the page stage: when the page is short, append
     * duplicates, stepping the cursor once modulo the ranked list's length
     * before each.  Stepping on an empty list divides by zero before the
     * cursor is written.
     */
    method AddDuplicates(sortedRecipes: seq<RecipeId>, newRecipes: seq<RecipeId>, numRecipes: int)
      returns (result: Result<seq<RecipeId>>)
      requires Valid()
      modifies this
      ensures Valid()
      ensures numRecipes <= |newRecipes| ==>
        result == Ok(newRecipes) && lastDuplicateIndex == old(lastDuplicateIndex)
      ensures |newRecipes| < numRecipes && sortedRecipes == [] ==>
        result == Err(DivisionByZero) && lastDuplicateIndex == old(lastDuplicateIndex)
      ensures |newRecipes| < numRecipes && sortedRecipes != [] ==>
        result == Ok(newRecipes + Rotation(sortedRecipes, old(lastDuplicateIndex), numRecipes - |newRecipes|))
        && lastDuplicateIndex == (old(lastDuplicateIndex) + numRecipes - |newRecipes|) % |sortedRecipes|
    {
      var page := newRecipes;
      if |page| < numRecipes {
        var remainingRecipes := numRecipes - |page|;
        ghost var start := lastDuplicateIndex;
        var i := 0;
        while i < remainingRecipes
          invariant 0 <= i <= remainingRecipes
          invariant Valid()
          invariant sortedRecipes == [] ==> i == 0
          invariant sortedRecipes != [] ==> page == newRecipes + Rotation(sortedRecipes, start, i)
          invariant lastDuplicateIndex == if i == 0 then start else (start + i) % |sortedRecipes|
        {
          if |sortedRecipes| == 0 {
            return Err(DivisionByZero);
          }
          CursorStep(start, i, lastDuplicateIndex, |sortedRecipes|);
          RotationStep(sortedRecipes, start, i);
          lastDuplicateIndex := (lastDuplicateIndex + 1) % |sortedRecipes|;
          page := page + [sortedRecipes[lastDuplicateIndex]];
          i := i + 1;
        }
      }
      return Ok(page);
    }

    /**
     * The page stage (both loops): novel recipes first, then rotating
     * duplicates up to `numRecipes`.
     */
    method BuildPage(sortedRecipes: seq<RecipeId>, fetchedRecipeIds: seq<RecipeId>, numRecipes: int)
      returns (result: Result<seq<RecipeId>>)
      requires Valid()
      modifies this
      ensures Valid()
      ensures var outcome := Paginate(sortedRecipes, fetchedRecipeIds, numRecipes, old(lastDuplicateIndex));
        if outcome.Ok? then result == Ok(outcome.value.recipes) && lastDuplicateIndex == outcome.value.cursor
        else result == Err(outcome.error) && lastDuplicateIndex == old(lastDuplicateIndex)
    {
      var newRecipes := SelectNovel(sortedRecipes, fetchedRecipeIds, numRecipes);
      result := AddDuplicates(sortedRecipes, newRecipes, numRecipes);
    }

    /**
     * `getRecipesByGroceriesAndExpirationDates`: rank the recipes against
     * the inventory `findAllByRefrigeratorId` returned, then return the
     * whole ranking or one page of it.  `catalog` stands for the
     * recipe-ingredient table and `now` for the clock.
     */
    method GetRecipesByGroceriesAndExpirationDates(fetchRecipesDto: FetchRecipesDto, allRecipes: bool,
                                                   inventory: seq<RefrigeratorGrocery>,
                                                   catalog: seq<RecipeGrocery>, now: int)
      returns (result: Result<seq<RecipeDto>>)
      requires Valid()
      modifies this
      ensures Valid()
      ensures var outcome := Recommend(fetchRecipesDto, allRecipes, inventory, catalog, now, old(lastDuplicateIndex));
        if outcome.Ok? then
          result == Ok(ConvertToDtos(outcome.value.recipes)) && lastDuplicateIndex == outcome.value.cursor
        else
          result == Err(outcome.error) && lastDuplicateIndex == old(lastDuplicateIndex)
    {
      var ranking := RankRecipes(fetchRecipesDto.refrigeratorId, inventory, catalog, now);
      if ranking.Err? {
        return Err(ranking.error);
      }
      var sortedRecipes := ranking.value;
      if allRecipes {
        return Ok(ConvertToDtos(sortedRecipes));
      }
      var page := BuildPage(sortedRecipes, fetchRecipesDto.fetchedRecipeIds, fetchRecipesDto.numRecipes);
      if page.Err? {
        return Err(page.error);
      }
      return Ok(ConvertToDtos(page.value));
    }
  }
}
