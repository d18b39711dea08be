/**
 * Records consumed and produced by the recipe recommendation routine of
 * the household inventory backend.  Identities of refrigerators, grocery
 * kinds and recipes are plain integers; an expiry date is an integer instant.
 */
module RecipeModel {

  type RefrigeratorId = int
  type GroceryId = int
  type RecipeId = int

  /** The refrigerator id a caller sends when no refrigerator is selected. */
  const NoRefrigerator: RefrigeratorId := -1

  /** One unit of a grocery kind stored in a refrigerator (a RefrigeratorGrocery row). */
  datatype RefrigeratorGrocery = RefrigeratorGrocery(
    id: int,
    physicalExpireDate: int,
    refrigeratorId: RefrigeratorId,
    grocery: GroceryId)

  /** One ingredient line of a recipe: the recipe needs `quantity` units of `grocery`. */
  datatype RecipeGrocery = RecipeGrocery(recipe: RecipeId, grocery: GroceryId, quantity: int)

  /** The request: which refrigerator, how many recipes, and which ones the caller has seen. */
  datatype FetchRecipesDto = FetchRecipesDto(
    refrigeratorId: RefrigeratorId,
    numRecipes: int,
    fetchedRecipeIds: seq<RecipeId>)

  /** The caller-facing record of one recipe. */
  datatype RecipeDto = RecipeDto(id: RecipeId)

  /** The reasons the routine can fail. */
  datatype Error =
    | NoRefrigeratorIdProvided   // "No refrigerator ID provided."
    | NoGroceriesFound           // "No groceries found for the given refrigerator ID."
    | AllGroceriesExpired        // "No valid groceries found. All groceries have expired."
    | NoMatchingRecipes          // "No matching recipes found for the available groceries."
    | DivisionByZero             // a remainder by the length of an empty ranked list

  datatype Result<T> = Ok(value: T) | Err(error: Error)

  /** The entry of `k` in `m`, or 0 when `k` has none. */
  function GetOrZero<K>(m: map<K, nat>, k: K): nat
  {
    if k in m then m[k] else 0
  }
}
