/**
 * The pure stages of the recommendation routine: the guards on the request
 * and the inventory, the expiry filter, the per-kind available count, the
 * batched ingredient lookup, the per-recipe match count and the ranking.
 * Each stream pipeline of the routine is one function here; beside them
 * stand reference definitions written straight from the meaning of each
 * stage (MatchStrength, Available, Stocked) and the lemmas that tie the two.
 */
module RecipeMatching {
  import opened RecipeModel

  // ---------------------------------------------------------------------
  // Reference definitions: what the stages are meant to compute.
  // ---------------------------------------------------------------------

  /** An item is still usable when it expires strictly after `now`. */
  predicate IsFresh(item: RefrigeratorGrocery, now: int)
  {
    item.physicalExpireDate > now
  }

  /** Number of fresh items of kind `g` that belong to refrigerator `fridge`. */
  function Available(items: seq<RefrigeratorGrocery>, fridge: RefrigeratorId, now: int, g: GroceryId): nat
  {
    if items == [] then 0
    else
      (if IsFresh(items[0], now) && items[0].refrigeratorId == fridge && items[0].grocery == g then 1 else 0)
      + Available(items[1..], fridge, now, g)
  }

  /** Some fresh item of the loaded inventory is of kind `g`. */
  predicate Stocked(items: seq<RefrigeratorGrocery>, now: int, g: GroceryId)
  {
    exists item :: item in items && IsFresh(item, now) && item.grocery == g
  }

  /** An ingredient line of recipe `r` that the inventory satisfies. */
  predicate Contributes(row: RecipeGrocery, items: seq<RefrigeratorGrocery>, fridge: RefrigeratorId, now: int, r: RecipeId)
  {
    row.recipe == r && Stocked(items, now, row.grocery)
    && row.quantity <= Available(items, fridge, now, row.grocery)
  }

  /** How many ingredient lines of recipe `r` in the catalog the inventory satisfies. */
  function MatchStrength(catalog: seq<RecipeGrocery>, items: seq<RefrigeratorGrocery>, fridge: RefrigeratorId, now: int, r: RecipeId): nat
  {
    if catalog == [] then 0
    else
      (if Contributes(catalog[0], items, fridge, now, r) then 1 else 0)
      + MatchStrength(catalog[1..], items, fridge, now, r)
  }

  /** How many ingredient lines recipe `r` has in the catalog. */
  function RecipeRows(catalog: seq<RecipeGrocery>, r: RecipeId): nat
  {
    if catalog == [] then 0
    else (if catalog[0].recipe == r then 1 else 0) + RecipeRows(catalog[1..], r)
  }

  // ---------------------------------------------------------------------
  // The stages as the routine computes them.
  // ---------------------------------------------------------------------

  /** The loaded items that expire strictly after `now`, in their original order. */
  function NonExpired(items: seq<RefrigeratorGrocery>, now: int): (valid: seq<RefrigeratorGrocery>)
    ensures forall item :: multiset(valid)[item] == if IsFresh(item, now) then multiset(items)[item] else 0
    ensures forall item :: item in valid <==> item in items && IsFresh(item, now)
  {
    if items == [] then []
    else
      assert items == [items[0]] + items[1..];
      (if IsFresh(items[0], now) then [items[0]] else []) + NonExpired(items[1..], now)
  }

  /**
   * The number of items of each kind among the items of refrigerator
   * `fridge`: a kind is a key exactly when such an item has it.
   */
  function GroceryCount(valid: seq<RefrigeratorGrocery>, fridge: RefrigeratorId): (counts: map<GroceryId, nat>)
    ensures forall g :: g in counts <==> exists item :: item in valid && item.refrigeratorId == fridge && item.grocery == g
    ensures forall g :: g in counts ==> counts[g] >= 1
  {
    if valid == [] then map[]
    else
      var rest := GroceryCount(valid[1..], fridge);
      assert forall item :: item in valid[1..] ==> item in valid;
      if valid[0].refrigeratorId == fridge
      then rest[valid[0].grocery := GetOrZero(rest, valid[0].grocery) + 1]
      else rest
  }

  /** The kinds of the fresh items, one entry per item: the key list of the batched lookup. */
  function Kinds(valid: seq<RefrigeratorGrocery>): (kinds: seq<GroceryId>)
    ensures forall g :: g in kinds <==> exists item :: item in valid && item.grocery == g
  {
    if valid == [] then []
    else
      assert forall item :: item in valid[1..] ==> item in valid;
      [valid[0].grocery] + Kinds(valid[1..])
  }

  /** The batched lookup `findAllByGroceryIn`: the catalog rows of the listed kinds, with their multiplicity. */
  function FindAllByGroceryIn(catalog: seq<RecipeGrocery>, groceries: seq<GroceryId>): (rows: seq<RecipeGrocery>)
    ensures forall row :: multiset(rows)[row] == if row.grocery in groceries then multiset(catalog)[row] else 0
  {
    if catalog == [] then []
    else
      assert catalog == [catalog[0]] + catalog[1..];
      (if catalog[0].grocery in groceries then [catalog[0]] else []) + FindAllByGroceryIn(catalog[1..], groceries)
  }

  /** The refrigerator holds at least the row's quantity of its kind; a kind with no count holds none. */
  predicate Satisfied(row: RecipeGrocery, counts: map<GroceryId, nat>)
  {
    GetOrZero(counts, row.grocery) >= row.quantity
  }

  /** Number of rows of recipe `r` that pass the quantity filter. */
  function SatisfiedCount(rows: seq<RecipeGrocery>, counts: map<GroceryId, nat>, r: RecipeId): nat
  {
    if rows == [] then 0
    else (if rows[0].recipe == r && Satisfied(rows[0], counts) then 1 else 0) + SatisfiedCount(rows[1..], counts, r)
  }

  /**
   * The satisfied rows grouped by recipe and counted: each recipe with at
   * least one satisfied row, mapped to its number of them.
   */
  function RecipeMatchCount(rows: seq<RecipeGrocery>, counts: map<GroceryId, nat>): (matches: map<RecipeId, nat>)
    ensures forall r :: GetOrZero(matches, r) == SatisfiedCount(rows, counts, r)
    ensures forall r :: r in matches ==> matches[r] >= 1
  {
    if rows == [] then map[]
    else
      var rest := RecipeMatchCount(rows[1..], counts);
      if Satisfied(rows[0], counts)
      then rest[rows[0].recipe := GetOrZero(rest, rows[0].recipe) + 1]
      else rest
  }

  /**
   * The keys of the match-count map as a sequence.  The routine iterates a
   * hash map here, whose order it does not fix; the model fixes one: the
   * recipes in the order of their last satisfied rows.
   */
  function MatchedRecipes(rows: seq<RecipeGrocery>, counts: map<GroceryId, nat>): (recipes: seq<RecipeId>)
    ensures forall r :: multiset(recipes)[r] == if SatisfiedCount(rows, counts, r) >= 1 then 1 else 0
  {
    if rows == [] then []
    else
      var rest := MatchedRecipes(rows[1..], counts);
      if Satisfied(rows[0], counts) && rows[0].recipe !in rest then [rows[0].recipe] + rest else rest
  }

  /** Match counts never increase along `s`. */
  predicate SortedByMatchCount(s: seq<RecipeId>, matches: map<RecipeId, nat>)
  {
    forall i, j :: 0 <= i < j < |s| ==> GetOrZero(matches, s[i]) >= GetOrZero(matches, s[j])
  }

  /** Prepending a recipe whose match count bounds the rest keeps the order. */
  lemma SortedCons(x: RecipeId, t: seq<RecipeId>, matches: map<RecipeId, nat>)
    requires SortedByMatchCount(t, matches)
    requires forall y :: y in t ==> GetOrZero(matches, x) >= GetOrZero(matches, y)
    ensures SortedByMatchCount([x] + t, matches)
  {
    forall i, j | 0 <= i < j < |[x] + t|
      ensures GetOrZero(matches, ([x] + t)[i]) >= GetOrZero(matches, ([x] + t)[j])
    {
      assert ([x] + t)[j] == t[j - 1];
      if i > 0 {
        assert ([x] + t)[i] == t[i - 1];
      } else {
        assert t[j - 1] in t;
      }
    }
  }

  /** Puts `r` before the first element whose match count is not above its own. */
  function InsertByMatchCount(r: RecipeId, s: seq<RecipeId>, matches: map<RecipeId, nat>): (t: seq<RecipeId>)
    ensures multiset(t) == multiset(s) + multiset{r}
  {
    if s == [] then [r]
    else if GetOrZero(matches, s[0]) <= GetOrZero(matches, r) then [r] + s
    else
      assert s == [s[0]] + s[1..];
      [s[0]] + InsertByMatchCount(r, s[1..], matches)
  }

  /** Inserting into a list ordered by match count keeps it ordered. */
  lemma {:induction false} InsertKeepsOrder(r: RecipeId, s: seq<RecipeId>, matches: map<RecipeId, nat>)
    requires SortedByMatchCount(s, matches)
    ensures SortedByMatchCount(InsertByMatchCount(r, s, matches), matches)
  {
    if s == [] {
    } else if GetOrZero(matches, s[0]) <= GetOrZero(matches, r) {
      SortedCons(r, s, matches);
    } else {
      assert s == [s[0]] + s[1..];
      var tail := InsertByMatchCount(r, s[1..], matches);
      InsertKeepsOrder(r, s[1..], matches);
      forall y | y in tail ensures GetOrZero(matches, s[0]) >= GetOrZero(matches, y) {
        assert y in multiset(tail);
        if y != r {
          assert y in multiset(s[1..]);
          var j :| 0 <= j < |s[1..]| && s[1..][j] == y;
          assert s[j + 1] == y;
        }
      }
      SortedCons(s[0], tail, matches);
    }
  }

  /** The matched recipes reordered so that match counts never increase along the list. */
  function SortByMatchCount(s: seq<RecipeId>, matches: map<RecipeId, nat>): (t: seq<RecipeId>)
    ensures multiset(t) == multiset(s)
    ensures SortedByMatchCount(t, matches)
  {
    if s == [] then []
    else
      assert s == [s[0]] + s[1..];
      var rest := SortByMatchCount(s[1..], matches);
      InsertKeepsOrder(s[0], rest, matches);
      InsertByMatchCount(s[0], rest, matches)
  }

  /**
   * Stages 1 to 5 of the routine: the three guards, the count, the batched
   * lookup and its guard, the match count and the ranking.  `inventory` is
   * what `findAllByRefrigeratorId` returned for the id.
   */
  function RankRecipes(refrigeratorId: RefrigeratorId, inventory: seq<RefrigeratorGrocery>, catalog: seq<RecipeGrocery>, now: int): Result<seq<RecipeId>>
  {
    if refrigeratorId == NoRefrigerator then Err(NoRefrigeratorIdProvided)
    else if inventory == [] then Err(NoGroceriesFound)
    else
      var valid := NonExpired(inventory, now);
      if valid == [] then Err(AllGroceriesExpired)
      else
        var counts := GroceryCount(valid, refrigeratorId);
        var rows := FindAllByGroceryIn(catalog, Kinds(valid));
        if rows == [] then Err(NoMatchingRecipes)
        else
          var matches := RecipeMatchCount(rows, counts);
          Ok(SortByMatchCount(MatchedRecipes(rows, counts), matches))
  }

  // ---------------------------------------------------------------------
  // Lemmas tying the stages to the reference definitions.
  // ---------------------------------------------------------------------

  /** Counting one more item adds one to its own kind, if it is in the refrigerator, and nothing elsewhere. */
  lemma GroceryCountCons(item: RefrigeratorGrocery, rest: seq<RefrigeratorGrocery>, fridge: RefrigeratorId, g: GroceryId)
    ensures GetOrZero(GroceryCount([item] + rest, fridge), g)
      == (if item.refrigeratorId == fridge && item.grocery == g then 1 else 0) + GetOrZero(GroceryCount(rest, fridge), g)
  {
    assert ([item] + rest)[1..] == rest;
  }

  /** The available count of a kind is exactly the number of fresh items of that kind in that refrigerator. */
  lemma {:induction false} AvailableCountExact(items: seq<RefrigeratorGrocery>, fridge: RefrigeratorId, now: int, g: GroceryId)
    ensures GetOrZero(GroceryCount(NonExpired(items, now), fridge), g) == Available(items, fridge, now, g)
  {
    if items != [] {
      AvailableCountExact(items[1..], fridge, now, g);
      var rest := NonExpired(items[1..], now);
      if IsFresh(items[0], now) {
        assert NonExpired(items, now) == [items[0]] + rest;
        GroceryCountCons(items[0], rest, fridge, g);
      } else {
        assert NonExpired(items, now) == rest;
      }
    }
  }

  /** Expired items and items of other refrigerators never make a kind available. */
  lemma {:induction false} ExpiredItemsDoNotCount(items: seq<RefrigeratorGrocery>, fridge: RefrigeratorId, now: int, g: GroceryId)
    requires forall item :: item in items && item.grocery == g && item.refrigeratorId == fridge ==> !IsFresh(item, now)
    ensures GetOrZero(GroceryCount(NonExpired(items, now), fridge), g) == 0
  {
    AvailableNone(items, fridge, now, g);
    AvailableCountExact(items, fridge, now, g);
  }

  lemma {:induction false} AvailableNone(items: seq<RefrigeratorGrocery>, fridge: RefrigeratorId, now: int, g: GroceryId)
    requires forall item :: item in items && item.grocery == g && item.refrigeratorId == fridge ==> !IsFresh(item, now)
    ensures Available(items, fridge, now, g) == 0
  {
    if items != [] {
      assert items[0] in items;
      assert forall item :: item in items[1..] ==> item in items;
      AvailableNone(items[1..], fridge, now, g);
    }
  }

  /**
   * Counting the satisfied rows of the lookup over `kinds` with `counts`
   * is counting contributing catalog rows, once `kinds` lists exactly the
   * stocked kinds and `counts` gives exactly the available counts.
   */
  lemma {:induction false} LookupCountAgrees(catalog: seq<RecipeGrocery>, kinds: seq<GroceryId>, counts: map<GroceryId, nat>,
                                             items: seq<RefrigeratorGrocery>, fridge: RefrigeratorId, now: int, r: RecipeId)
    requires forall g :: g in kinds <==> Stocked(items, now, g)
    requires forall g :: GetOrZero(counts, g) == Available(items, fridge, now, g)
    ensures SatisfiedCount(FindAllByGroceryIn(catalog, kinds), counts, r) == MatchStrength(catalog, items, fridge, now, r)
  {
    if catalog != [] {
      LookupCountAgrees(catalog[1..], kinds, counts, items, fridge, now, r);
      var row := catalog[0];
      var rest := FindAllByGroceryIn(catalog[1..], kinds);
      assert row.grocery in kinds <==> Stocked(items, now, row.grocery);
      assert GetOrZero(counts, row.grocery) == Available(items, fridge, now, row.grocery);
      if row.grocery in kinds {
        assert FindAllByGroceryIn(catalog, kinds) == [row] + rest;
        assert ([row] + rest)[1..] == rest;
      } else {
        assert FindAllByGroceryIn(catalog, kinds) == rest;
      }
    }
  }

  /** Matching a batched lookup row is the same as satisfying the reference definition. */
  lemma MatchStrengthAgrees(catalog: seq<RecipeGrocery>, items: seq<RefrigeratorGrocery>, fridge: RefrigeratorId, now: int, r: RecipeId)
    ensures var valid := NonExpired(items, now);
      SatisfiedCount(FindAllByGroceryIn(catalog, Kinds(valid)), GroceryCount(valid, fridge), r)
      == MatchStrength(catalog, items, fridge, now, r)
  {
    var valid := NonExpired(items, now);
    var kinds := Kinds(valid);
    var counts := GroceryCount(valid, fridge);
    forall g ensures g in kinds <==> Stocked(items, now, g) {
    }
    forall g ensures GetOrZero(counts, g) == Available(items, fridge, now, g) {
      AvailableCountExact(items, fridge, now, g);
    }
    LookupCountAgrees(catalog, kinds, counts, items, fridge, now, r);
  }

  /** A recipe never matches more ingredient lines than it has. */
  lemma {:induction false} MatchStrengthBounded(catalog: seq<RecipeGrocery>, items: seq<RefrigeratorGrocery>, fridge: RefrigeratorId, now: int, r: RecipeId)
    ensures MatchStrength(catalog, items, fridge, now, r) <= RecipeRows(catalog, r)
  {
    if catalog != [] {
      MatchStrengthBounded(catalog[1..], items, fridge, now, r);
    }
  }

  /** The lookup comes back empty exactly when no catalog row names a stocked kind. */
  lemma LookupEmpty(catalog: seq<RecipeGrocery>, items: seq<RefrigeratorGrocery>, now: int)
    ensures FindAllByGroceryIn(catalog, Kinds(NonExpired(items, now))) == []
      <==> forall row :: row in catalog ==> !Stocked(items, now, row.grocery)
  {
    var rows := FindAllByGroceryIn(catalog, Kinds(NonExpired(items, now)));
    if rows != [] {
      assert multiset(rows)[rows[0]] > 0;
    }
    forall row | row in catalog && Stocked(items, now, row.grocery)
      ensures rows != []
    {
      assert multiset(rows)[row] > 0;
    }
  }

  /** Each failure of stages 1 to 5 happens exactly under its condition, and in the routine's order. */
  lemma RankErrors(refrigeratorId: RefrigeratorId, inventory: seq<RefrigeratorGrocery>, catalog: seq<RecipeGrocery>, now: int)
    ensures RankRecipes(refrigeratorId, inventory, catalog, now) == Err(NoRefrigeratorIdProvided)
      <==> refrigeratorId == -1
    ensures RankRecipes(refrigeratorId, inventory, catalog, now) == Err(NoGroceriesFound)
      <==> refrigeratorId != -1 && inventory == []
    ensures RankRecipes(refrigeratorId, inventory, catalog, now) == Err(AllGroceriesExpired)
      <==> refrigeratorId != -1 && inventory != [] && forall item :: item in inventory ==> item.physicalExpireDate <= now
    ensures RankRecipes(refrigeratorId, inventory, catalog, now) == Err(NoMatchingRecipes)
      <==> refrigeratorId != -1 && (exists item :: item in inventory && IsFresh(item, now))
           && forall row :: row in catalog ==> !Stocked(inventory, now, row.grocery)
    ensures RankRecipes(refrigeratorId, inventory, catalog, now).Ok?
      <==> refrigeratorId != -1 && exists row :: row in catalog && Stocked(inventory, now, row.grocery)
  {
    var valid := NonExpired(inventory, now);
    LookupEmpty(catalog, inventory, now);
    if valid != [] {
      assert valid[0] in valid;
    }
  }

  /**
   * On success the ranked list holds every recipe with a satisfied
   * ingredient line exactly once, and nothing else, ordered by
   * non-increasing match strength.
   */
  lemma RankedRecipes(refrigeratorId: RefrigeratorId, inventory: seq<RefrigeratorGrocery>, catalog: seq<RecipeGrocery>, now: int)
    requires RankRecipes(refrigeratorId, inventory, catalog, now).Ok?
    ensures var ranked := RankRecipes(refrigeratorId, inventory, catalog, now).value;
      (forall r :: multiset(ranked)[r] == if MatchStrength(catalog, inventory, refrigeratorId, now, r) >= 1 then 1 else 0)
      && (forall i, j :: 0 <= i < j < |ranked| ==>
            MatchStrength(catalog, inventory, refrigeratorId, now, ranked[i])
            >= MatchStrength(catalog, inventory, refrigeratorId, now, ranked[j]))
  {
    var valid := NonExpired(inventory, now);
    var counts := GroceryCount(valid, refrigeratorId);
    var rows := FindAllByGroceryIn(catalog, Kinds(valid));
    var matches := RecipeMatchCount(rows, counts);
    forall r ensures GetOrZero(matches, r) == MatchStrength(catalog, inventory, refrigeratorId, now, r) {
      MatchStrengthAgrees(catalog, inventory, refrigeratorId, now, r);
    }
  }

  /** A recipe in the ranked list has at least one and at most all of its ingredient lines satisfied. */
  lemma RankedMatchBounds(refrigeratorId: RefrigeratorId, inventory: seq<RefrigeratorGrocery>, catalog: seq<RecipeGrocery>, now: int, r: RecipeId)
    requires RankRecipes(refrigeratorId, inventory, catalog, now).Ok?
    requires r in RankRecipes(refrigeratorId, inventory, catalog, now).value
    ensures 1 <= MatchStrength(catalog, inventory, refrigeratorId, now, r) <= RecipeRows(catalog, r)
  {
    RankedRecipes(refrigeratorId, inventory, catalog, now);
    MatchStrengthBounded(catalog, inventory, refrigeratorId, now, r);
  }
}
