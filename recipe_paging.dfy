/**
 * What one call of the recommendation routine returns and where it leaves
 * the shared duplicate cursor, as functions: the page of novel recipes, the
 * rotating duplicates that fill it, and the whole call.  The loops of the
 * class RecipeService in recipe_service.dfy are proved against these.
 */
module RecipePaging {
  import opened RecipeModel
  import opened RecipeMatching

  /** The ranked recipes whose ids the caller has not been sent yet, in rank order. */
  function Novel(ranked: seq<RecipeId>, fetched: seq<RecipeId>): (novel: seq<RecipeId>)
    ensures forall r :: multiset(novel)[r] == if r in fetched then 0 else multiset(ranked)[r]
  {
    if ranked == [] then []
    else
      var init, last := ranked[..|ranked| - 1], ranked[|ranked| - 1];
      assert ranked == init + [last];
      Novel(init, fetched) + (if last in fetched then [] else [last])
  }

  /**
   * `s` is `t` with some elements dropped and the rest in their original
   * order: `idx` names, strictly increasing, the position in `t` of each
   * element of `s`.
   */
  ghost predicate KeepsOrderIn(s: seq<RecipeId>, t: seq<RecipeId>, idx: seq<int>)
  {
    |idx| == |s|
    && (forall j :: 0 <= j < |idx| ==> 0 <= idx[j] < |t| && t[idx[j]] == s[j])
    && (forall j, k :: 0 <= j < k < |idx| ==> idx[j] < idx[k])
  }

  ghost predicate KeepsOrder(s: seq<RecipeId>, t: seq<RecipeId>)
  {
    exists idx :: KeepsOrderIn(s, t, idx)
  }

  /** Appending `x` to `t` keeps an order witness, and appending it to both extends the witness by its position. */
  lemma KeepsOrderExtend(s: seq<RecipeId>, t: seq<RecipeId>, idx: seq<int>, x: RecipeId)
    requires KeepsOrderIn(s, t, idx)
    ensures KeepsOrderIn(s, t + [x], idx)
    ensures KeepsOrderIn(s + [x], t + [x], idx + [|t|])
  {
    var t', s', idx' := t + [x], s + [x], idx + [|t|];
    forall j | 0 <= j < |idx'| ensures 0 <= idx'[j] < |t'| && t'[idx'[j]] == s'[j] {
      if j < |idx| {
        assert idx'[j] == idx[j] && s'[j] == s[j];
      }
    }
  }

  /** The novel recipes come in the order the ranking gives them. */
  lemma {:induction false} NovelKeepsOrder(ranked: seq<RecipeId>, fetched: seq<RecipeId>)
    ensures KeepsOrder(Novel(ranked, fetched), ranked)
  {
    if ranked == [] {
      assert KeepsOrderIn([], ranked, []);
    } else {
      var init, last := ranked[..|ranked| - 1], ranked[|ranked| - 1];
      assert ranked == init + [last];
      var before := Novel(init, fetched);
      assert Novel(ranked, fetched) == before + (if last in fetched then [] else [last]);
      NovelKeepsOrder(init, fetched);
      var idx :| KeepsOrderIn(before, init, idx);
      KeepsOrderExtend(before, init, idx, last);
      if last in fetched {
        assert KeepsOrderIn(Novel(ranked, fetched), ranked, idx);
      } else {
        assert KeepsOrderIn(Novel(ranked, fetched), ranked, idx + [|init|]);
      }
    }
  }

  /** The first `n` elements of `s`; all of them when `s` is shorter, none when `n` is not positive. */
  function Take(s: seq<RecipeId>, n: int): (t: seq<RecipeId>)
    ensures |t| == if n <= 0 then 0 else if n < |s| then n else |s|
    ensures t == s[..|t|]
  {
    if n <= 0 then [] else if n < |s| then s[..n] else s
  }

  /** The first loop of the page stage: at most `numRecipes` novel recipes. */
  function NovelStage(ranked: seq<RecipeId>, fetched: seq<RecipeId>, numRecipes: int): seq<RecipeId>
  {
    Take(Novel(ranked, fetched), numRecipes)
  }

  /** The `k` duplicates of the second loop: the cursor steps once, modulo the list length, before each pick. */
  function Rotation(ranked: seq<RecipeId>, cursor: int, k: nat): (dups: seq<RecipeId>)
    requires |ranked| > 0
  {
    seq(k, j requires 0 <= j < k => ranked[(cursor + 1 + j) % |ranked|])
  }

  /** One more duplicate is the next cursor step's recipe appended. */
  lemma RotationStep(ranked: seq<RecipeId>, cursor: int, k: nat)
    requires |ranked| > 0
    ensures Rotation(ranked, cursor, k + 1) == Rotation(ranked, cursor, k) + [ranked[(cursor + 1 + k) % |ranked|]]
  {
  }

  /** One more ranked recipe extends the novel stage exactly when it is novel and the stage is not yet full. */
  lemma NovelStageAppend(ranked: seq<RecipeId>, r: RecipeId, fetched: seq<RecipeId>, numRecipes: int)
    ensures NovelStage(ranked + [r], fetched, numRecipes)
      == if r !in fetched && |NovelStage(ranked, fetched, numRecipes)| < numRecipes
         then NovelStage(ranked, fetched, numRecipes) + [r]
         else NovelStage(ranked, fetched, numRecipes)
  {
    var before := Novel(ranked, fetched);
    assert (ranked + [r])[..|ranked|] == ranked;
    var after := Novel(ranked + [r], fetched);
    assert after == before + (if r in fetched then [] else [r]);
    if r !in fetched && |NovelStage(ranked, fetched, numRecipes)| >= numRecipes && numRecipes > 0 {
      assert after[..numRecipes] == before[..numRecipes];
    }
  }

  /** The novel stage of the first `i + 1` ranked recipes, from that of the first `i`. */
  lemma NovelStageStep(ranked: seq<RecipeId>, i: nat, fetched: seq<RecipeId>, numRecipes: int)
    requires i < |ranked|
    ensures NovelStage(ranked[..i + 1], fetched, numRecipes)
      == if ranked[i] !in fetched && |NovelStage(ranked[..i], fetched, numRecipes)| < numRecipes
         then NovelStage(ranked[..i], fetched, numRecipes) + [ranked[i]]
         else NovelStage(ranked[..i], fetched, numRecipes)
  {
    assert ranked[..i + 1] == ranked[..i] + [ranked[i]];
    NovelStageAppend(ranked[..i], ranked[i], fetched, numRecipes);
  }

  /** A successful page-mode call: the recipes returned and the cursor left behind. */
  datatype Page = Page(recipes: seq<RecipeId>, cursor: int)

  /**
   * The page stage: novel recipes first; when they fall short of
   * `numRecipes`, duplicates from the rotating cursor.  Filling from an
   * empty ranked list divides by zero.
   */
  function Paginate(ranked: seq<RecipeId>, fetched: seq<RecipeId>, numRecipes: int, cursor: int): Result<Page>
  {
    var novel := NovelStage(ranked, fetched, numRecipes);
    if |novel| < numRecipes then
      if |ranked| == 0 then Err(DivisionByZero)
      else
        var remaining := numRecipes - |novel|;
        Ok(Page(novel + Rotation(ranked, cursor, remaining), (cursor + remaining) % |ranked|))
    else Ok(Page(novel, cursor))
  }

  /** One whole call of the routine, given the cursor it starts from. */
  function Recommend(request: FetchRecipesDto, allRecipes: bool, inventory: seq<RefrigeratorGrocery>,
                     catalog: seq<RecipeGrocery>, now: int, cursor: int): Result<Page>
  {
    match RankRecipes(request.refrigeratorId, inventory, catalog, now)
    case Err(e) => Err(e)
    case Ok(ranked) =>
      if allRecipes then Ok(Page(ranked, cursor))
      else Paginate(ranked, request.fetchedRecipeIds, request.numRecipes, cursor)
  }

  // ---------------------------------------------------------------------
  // Lemmas about the page.
  // ---------------------------------------------------------------------

  /** The novel stage takes `min(numRecipes, #novel)` recipes, all ranked and none already sent. */
  lemma NovelStageContents(ranked: seq<RecipeId>, fetched: seq<RecipeId>, numRecipes: int)
    ensures var novel, stage := Novel(ranked, fetched), NovelStage(ranked, fetched, numRecipes);
      |stage| == (if numRecipes <= 0 then 0 else if numRecipes < |novel| then numRecipes else |novel|)
      && stage == novel[..|stage|]
      && (forall r :: r in stage ==> r in ranked && r !in fetched)
      && KeepsOrder(stage, ranked)
  {
    var novel, stage := Novel(ranked, fetched), NovelStage(ranked, fetched, numRecipes);
    NovelKeepsOrder(ranked, fetched);
    var idx :| KeepsOrderIn(novel, ranked, idx);
    assert KeepsOrderIn(stage, ranked, idx[..|stage|]);
    forall r | r in stage ensures r in ranked && r !in fetched {
      assert multiset(stage)[r] <= multiset(novel)[r] by {
        assert novel == stage + novel[|stage|..];
      }
    }
  }

  /** A page can fail only by filling from an empty ranked list. */
  lemma PaginateFails(ranked: seq<RecipeId>, fetched: seq<RecipeId>, numRecipes: int, cursor: int)
    ensures Paginate(ranked, fetched, numRecipes, cursor).Err? <==> ranked == [] && numRecipes > 0
    ensures Paginate(ranked, fetched, numRecipes, cursor).Err? ==>
      Paginate(ranked, fetched, numRecipes, cursor).error == DivisionByZero
  {
    if ranked == [] {
      assert Novel(ranked, fetched) == [];
    }
  }

  /** A page is exactly `max(numRecipes, 0)` long, and holds only ranked recipes. */
  lemma PageIsFullAndRanked(ranked: seq<RecipeId>, fetched: seq<RecipeId>, numRecipes: int, cursor: int)
    requires Paginate(ranked, fetched, numRecipes, cursor).Ok?
    ensures var page := Paginate(ranked, fetched, numRecipes, cursor).value.recipes;
      |page| == (if numRecipes <= 0 then 0 else numRecipes)
      && forall r :: r in page ==> r in ranked
  {
    var page := Paginate(ranked, fetched, numRecipes, cursor).value.recipes;
    var stage := NovelStage(ranked, fetched, numRecipes);
    NovelStageContents(ranked, fetched, numRecipes);
    if |stage| < numRecipes {
      var dups := Rotation(ranked, cursor, numRecipes - |stage|);
      assert page == stage + dups;
      forall r | r in page ensures r in ranked {
        if r !in stage {
          var j :| 0 <= j < |dups| && dups[j] == r;
        }
      }
    }
  }

  /**
   * The page starts with the novel stage, and the k-th duplicate after it
   * is the ranked recipe k+1 steps past the starting cursor.
   */
  lemma PageLayout(ranked: seq<RecipeId>, fetched: seq<RecipeId>, numRecipes: int, cursor: int)
    requires Paginate(ranked, fetched, numRecipes, cursor).Ok?
    ensures var page, stage := Paginate(ranked, fetched, numRecipes, cursor).value.recipes, NovelStage(ranked, fetched, numRecipes);
      |stage| <= |page| && page[..|stage|] == stage
      && forall k :: |stage| <= k < |page| ==> page[k] == ranked[(cursor + 1 + (k - |stage|)) % |ranked|]
  {
    var page, stage := Paginate(ranked, fetched, numRecipes, cursor).value.recipes, NovelStage(ranked, fetched, numRecipes);
    if |stage| < numRecipes {
      assert page == stage + Rotation(ranked, cursor, numRecipes - |stage|);
    }
  }

  /**
   * Already-sent recipes are left out whenever enough novel ones exist; once
   * they appear, every novel recipe is on the page.
   */
  lemma NoveltyPreference(ranked: seq<RecipeId>, fetched: seq<RecipeId>, numRecipes: int, cursor: int)
    requires Paginate(ranked, fetched, numRecipes, cursor).Ok?
    ensures var page := Paginate(ranked, fetched, numRecipes, cursor).value.recipes;
      (numRecipes <= |Novel(ranked, fetched)| ==> forall r :: r in page ==> r !in fetched)
      && (|Novel(ranked, fetched)| < numRecipes ==> forall r :: r in Novel(ranked, fetched) ==> r in page)
  {
    NovelStageContents(ranked, fetched, numRecipes);
    PageLayout(ranked, fetched, numRecipes, cursor);
    var page := Paginate(ranked, fetched, numRecipes, cursor).value.recipes;
    var stage := NovelStage(ranked, fetched, numRecipes);
    if |Novel(ranked, fetched)| < numRecipes {
      assert stage == Novel(ranked, fetched);
      forall r | r in stage ensures r in page {
        assert page == stage + page[|stage|..];
      }
    }
  }

  /** The cursor moves only when duplicates are needed, and then ends inside the ranked list. */
  lemma CursorStaysInRange(ranked: seq<RecipeId>, fetched: seq<RecipeId>, numRecipes: int, cursor: int)
    requires Paginate(ranked, fetched, numRecipes, cursor).Ok?
    ensures var after := Paginate(ranked, fetched, numRecipes, cursor).value.cursor;
      if |NovelStage(ranked, fetched, numRecipes)| < numRecipes then 0 <= after < |ranked|
      else after == cursor
  {
  }

  // ---------------------------------------------------------------------
  // Lemmas about the whole call.
  // ---------------------------------------------------------------------

  /** Every recipe a call returns has at least one satisfied ingredient line. */
  lemma RecommendedRecipesMatch(request: FetchRecipesDto, allRecipes: bool, inventory: seq<RefrigeratorGrocery>,
                                catalog: seq<RecipeGrocery>, now: int, cursor: int, r: RecipeId)
    requires Recommend(request, allRecipes, inventory, catalog, now, cursor).Ok?
    requires r in Recommend(request, allRecipes, inventory, catalog, now, cursor).value.recipes
    ensures 1 <= MatchStrength(catalog, inventory, request.refrigeratorId, now, r) <= RecipeRows(catalog, r)
  {
    var ranked := RankRecipes(request.refrigeratorId, inventory, catalog, now).value;
    if !allRecipes {
      PageIsFullAndRanked(ranked, request.fetchedRecipeIds, request.numRecipes, cursor);
    }
    RankedMatchBounds(request.refrigeratorId, inventory, catalog, now, r);
  }

  /**
   * The call fails with one of the ranking errors, or with a division by
   * zero exactly when a page must be filled from an empty ranked list.
   */
  lemma RecommendErrors(request: FetchRecipesDto, allRecipes: bool, inventory: seq<RefrigeratorGrocery>,
                        catalog: seq<RecipeGrocery>, now: int, cursor: int)
    ensures var ranking := RankRecipes(request.refrigeratorId, inventory, catalog, now);
      Recommend(request, allRecipes, inventory, catalog, now, cursor) == Err(DivisionByZero)
      <==> ranking == Ok([]) && !allRecipes && request.numRecipes > 0
    ensures RankRecipes(request.refrigeratorId, inventory, catalog, now).Err? ==>
      Recommend(request, allRecipes, inventory, catalog, now, cursor).Err?
      && Recommend(request, allRecipes, inventory, catalog, now, cursor).error
         == RankRecipes(request.refrigeratorId, inventory, catalog, now).error
  {
    var ranking := RankRecipes(request.refrigeratorId, inventory, catalog, now);
    if ranking.Ok? && !allRecipes {
      PaginateFails(ranking.value, request.fetchedRecipeIds, request.numRecipes, cursor);
    }
  }

  /** In all-recipes mode the call returns the ranked list itself, in rank order, and leaves the cursor alone. */
  lemma AllRecipesMode(request: FetchRecipesDto, inventory: seq<RefrigeratorGrocery>,
                       catalog: seq<RecipeGrocery>, now: int, cursor: int)
    requires RankRecipes(request.refrigeratorId, inventory, catalog, now).Ok?
    ensures var page := Recommend(request, true, inventory, catalog, now, cursor);
      page.Ok? && page.value.cursor == cursor
      && page.value.recipes == RankRecipes(request.refrigeratorId, inventory, catalog, now).value
      && (forall i, j :: 0 <= i < j < |page.value.recipes| ==>
            MatchStrength(catalog, inventory, request.refrigeratorId, now, page.value.recipes[i])
            >= MatchStrength(catalog, inventory, request.refrigeratorId, now, page.value.recipes[j]))
      && forall r :: multiset(page.value.recipes)[r]
                     == if MatchStrength(catalog, inventory, request.refrigeratorId, now, r) >= 1 then 1 else 0
  {
    RankedRecipes(request.refrigeratorId, inventory, catalog, now);
  }
}
