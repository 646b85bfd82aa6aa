/**
 * The `POST /recipes/search` endpoint: normalise the searched names, merge
 * the meals TheMealDB lists for each name, look each merged meal up, map and
 * score it, and rank the scored recipes.
 *
 * The two TheMealDB requests are parameters: `filter(ing)` is the `meals`
 * list of `filter.php?i=<ing>` (`[]` when null), and `lookup(id)` is the
 * first meal of `lookup.php?i=<id>`, or `None` when its `meals` is null or
 * empty. The method also returns the ids it looked up, in request order.
 */
module Search {
  import opened Wrappers
  import opened Text
  import opened Models
  import opened Normalize
  import opened Merge
  import opened Mapping
  import opened Scoring
  import opened Ranking
  import opened Seqs

  /**
   * The 500 error of a detail object without `idMeal`: the `KeyError` of
   * `meal_data['idMeal']` caught by the generic handler, whose message is
   * `str(KeyError('idMeal'))`.
   */
  const MissingIdMeal := HttpError(500, "Failed to search recipes: 'idMeal'")

  /** The detail of `id` exists but has no `idMeal` key, so mapping it fails. */
  predicate MissingId(lookup: string -> Option<Record>, id: string) {
    lookup(id).Some? && "idMeal" !in lookup(id).value
  }

  /** `_map_recipe_from_themealdb` fails, with its `KeyError`, exactly on a detail without `idMeal`. */
  ghost predicate FailsOnlyWithoutId(mapRecipe: Record -> Option<Recipe>) {
    forall d :: mapRecipe(d).None? <==> "idMeal" !in d
  }

  lemma RecipeOfFailsOnlyWithoutId()
    ensures FailsOnlyWithoutId(RecipeOf)
  {
    forall d ensures RecipeOf(d).None? <==> "idMeal" !in d {
    }
  }

  /**
   * The scored recipes of the meals `ids`, taken in turn, with `mapRecipe`
   * mapping each detail: a meal without detail is skipped, the first
   * detail that does not map aborts the search.
   */
  function ScoredBy(searched: seq<string>, ids: seq<string>, lookup: string -> Option<Record>,
                    mapRecipe: Record -> Option<Recipe>): (r: Result<seq<Recipe>, HttpError>)
    ensures r.Failure? ==> r.error == MissingIdMeal
    ensures r.Success? ==> |r.value| <= |ids|
    ensures r.Success? ==> forall t :: 0 <= t < |r.value| ==>
              r.value[t].totalSearched == |searched| && 0 <= r.value[t].matchCount <= |searched|
  {
    if ids == [] then Success([])
    else
      var n := |ids| - 1;
      match ScoredBy(searched, ids[..n], lookup, mapRecipe)
      case Failure(e) => Failure(e)
      case Success(rs) =>
        match lookup(ids[n])
        case None => Success(rs)
        case Some(detail) =>
          match mapRecipe(detail)
          case None => Failure(MissingIdMeal)
          case Some(recipe) => Success(rs + [Score(searched, recipe)])
  }

  /**
   * The scoring loop of `search_recipes`, mapping each detail with
   * `_map_recipe_from_themealdb`: it fails exactly when some meal's detail
   * has no `idMeal`, and otherwise yields one scored recipe per meal with
   * detail, in merge order.
   */
  function Scored(searched: seq<string>, ids: seq<string>, lookup: string -> Option<Record>): (r: Result<seq<Recipe>, HttpError>)
    ensures r.Failure? <==> exists k :: 0 <= k < |ids| && MissingId(lookup, ids[k])
    ensures r.Success? ==>
              var p := WithDetail(ids, lookup);
              && |r.value| == |p|
              && forall t :: 0 <= t < |p| ==>
                   RecipeOf(lookup(p[t]).value).Some?
                   && r.value[t] == Score(searched, RecipeOf(lookup(p[t]).value).value)
  {
    RecipeOfFailsOnlyWithoutId();
    ScoredFailsOnMissingId(searched, ids, lookup, RecipeOf);
    var r := ScoredBy(searched, ids, lookup, RecipeOf);
    if r.Success? then
      ScoredOnePerDetail(searched, ids, lookup, RecipeOf);
      r
    else
      r
  }

  /** The meals of `ids` whose lookup returns a detail object, in order. */
  function WithDetail(ids: seq<string>, lookup: string -> Option<Record>): (p: seq<string>)
    ensures forall t :: 0 <= t < |p| ==> lookup(p[t]).Some? && p[t] in ids
  {
    if ids == [] then []
    else
      var n := |ids| - 1;
      var init := WithDetail(ids[..n], lookup);
      if lookup(ids[n]).Some? then init + [ids[n]] else init
  }

  /**
   * A successful scoring yields one recipe per meal with detail, in merge
   * order: the detail mapped and scored.
   */
  lemma {:induction false} ScoredOnePerDetail(searched: seq<string>, ids: seq<string>, lookup: string -> Option<Record>,
                                              mapRecipe: Record -> Option<Recipe>)
    requires ScoredBy(searched, ids, lookup, mapRecipe).Success?
    ensures var rs := ScoredBy(searched, ids, lookup, mapRecipe).value;
      var p := WithDetail(ids, lookup);
      && |rs| == |p|
      && forall t :: 0 <= t < |p| ==>
           mapRecipe(lookup(p[t]).value).Some?
           && rs[t] == Score(searched, mapRecipe(lookup(p[t]).value).value)
  {
    if ids != [] {
      var n := |ids| - 1;
      ScoredOnePerDetail(searched, ids[..n], lookup, mapRecipe);
    }
  }

  /** One more meal makes the scoring fail exactly when it already failed or that meal's detail has no `idMeal`. */
  lemma ScoredFailsStep(searched: seq<string>, ids: seq<string>, lookup: string -> Option<Record>,
                        mapRecipe: Record -> Option<Recipe>)
    requires FailsOnlyWithoutId(mapRecipe) && ids != []
    ensures ScoredBy(searched, ids, lookup, mapRecipe).Failure? <==>
              ScoredBy(searched, ids[..|ids| - 1], lookup, mapRecipe).Failure? || MissingId(lookup, ids[|ids| - 1])
  {
  }

  /** Some id of `ids` lacks `idMeal` exactly when one before the last does or the last does. */
  lemma MissingIdSnoc(ids: seq<string>, n: nat, lookup: string -> Option<Record>)
    requires n + 1 == |ids|
    ensures (exists k :: 0 <= k < |ids| && MissingId(lookup, ids[k])) <==>
              (exists k :: 0 <= k < n && MissingId(lookup, ids[..n][k])) || MissingId(lookup, ids[n])
  {
    var init := ids[..n];
    if exists k :: 0 <= k < |ids| && MissingId(lookup, ids[k]) {
      var k :| 0 <= k < |ids| && MissingId(lookup, ids[k]);
      if k < |init| {
        assert init[k] == ids[k];
      }
    }
    if exists k :: 0 <= k < |init| && MissingId(lookup, init[k]) {
      var k :| 0 <= k < |init| && MissingId(lookup, init[k]);
      assert ids[k] == init[k];
    }
  }

  /** Scoring fails exactly when some meal's detail has no `idMeal`. */
  lemma {:induction false} ScoredFailsOnMissingId(searched: seq<string>, ids: seq<string>, lookup: string -> Option<Record>,
                                                  mapRecipe: Record -> Option<Recipe>)
    requires FailsOnlyWithoutId(mapRecipe)
    ensures ScoredBy(searched, ids, lookup, mapRecipe).Failure? <==>
              exists k :: 0 <= k < |ids| && MissingId(lookup, ids[k])
  {
    if ids != [] {
      ScoredFailsOnMissingId(searched, ids[..|ids| - 1], lookup, mapRecipe);
      ScoredFailsStep(searched, ids, lookup, mapRecipe);
      MissingIdSnoc(ids, |ids| - 1, lookup);
    }
  }

  /** One more meal extends the scoring by its mapped and scored detail, if any. */
  lemma ScoredStep(searched: seq<string>, ids: seq<string>, i: nat, lookup: string -> Option<Record>,
                   mapRecipe: Record -> Option<Recipe>, rs: seq<Recipe>)
    requires i < |ids| && ScoredBy(searched, ids[..i], lookup, mapRecipe) == Success(rs)
    ensures lookup(ids[i]).None? ==> ScoredBy(searched, ids[..i + 1], lookup, mapRecipe) == Success(rs)
    ensures lookup(ids[i]).Some? && mapRecipe(lookup(ids[i]).value).Some? ==>
              ScoredBy(searched, ids[..i + 1], lookup, mapRecipe)
                == Success(rs + [Score(searched, mapRecipe(lookup(ids[i]).value).value)])
  {
    assert ids[..i + 1][..i] == ids[..i];
  }

  /**
   * The detail loop of `search_recipes`: looks up each merged meal in turn,
   * maps and scores each detail, and stops at the first detail without
   * `idMeal`.
   */
  method LookUpAndScore(searched: seq<string>, order: seq<string>, lookup: string -> Option<Record>)
    returns (scored: Result<seq<Recipe>, HttpError>, looked: seq<string>)
    ensures scored == Scored(searched, order, lookup)
    ensures scored.Success? ==> looked == order
    ensures scored.Failure? ==>
              && 1 <= |looked| <= |order| && looked == order[..|looked|]
              && Scored(searched, looked[..|looked| - 1], lookup).Success?
              && MissingId(lookup, looked[|looked| - 1])
  {
    looked := [];
    var recipes: seq<Recipe> := [];
    for i := 0 to |order|
      invariant looked == order[..i]
      invariant Scored(searched, order[..i], lookup) == Success(recipes)
    {
      var id := order[i];
      ScoredStep(searched, order, i, lookup, RecipeOf, recipes);
      PrefixSnoc(order, i);
      looked := looked + [id];
      var detail := lookup(id);
      if detail.Some? {
        var recipe := MapRecipe(detail.value);
        if recipe.None? {
          RecipeOfFailsOnlyWithoutId();
          ScoredFailsOnMissingId(searched, order, lookup, RecipeOf);
          assert MissingId(lookup, order[i]);
          assert looked[..i] == order[..i];
          return Failure(MissingIdMeal), looked;
        }
        recipes := recipes + [Score(searched, recipe.value)];
      }
    }
    assert order[..|order|] == order;
    scored := Success(recipes);
  }

  /** Ranking keeps the bounds of the scored recipes. */
  lemma RankedBounds(searched: seq<string>, rs: seq<Recipe>, sorted: seq<Recipe>)
    requires IsStableSortDesc(rs, sorted)
    requires forall t :: 0 <= t < |rs| ==> rs[t].totalSearched == |searched| && 0 <= rs[t].matchCount <= |searched|
    ensures forall t :: 0 <= t < |sorted| ==> sorted[t].totalSearched == |searched| && 0 <= sorted[t].matchCount <= |searched|
  {
    SortKeepsElements(rs, sorted);
    forall t | 0 <= t < |sorted|
      ensures sorted[t].totalSearched == |searched| && 0 <= sorted[t].matchCount <= |searched|
    {
      assert sorted[t] in rs;
    }
  }

  /**
   * `search_recipes` after normalisation: `[]` without looking anything up
   * when no meal is found, the 500 error at the first detail without
   * `idMeal`, and otherwise the scored recipes ranked by `match_count`,
   * highest first, ties in merge order.
   */
  method SearchNormalized(ings: seq<string>, filter: string -> seq<MealSummary>, lookup: string -> Option<Record>)
    returns (outcome: Result<seq<Recipe>, HttpError>, looked: seq<string>)
    ensures var order := DistinctIds(Fetched(ings, filter));
      var scored := Scored(ings, order, lookup);
      && (order == [] ==> outcome == Success([]) && looked == [])
      && (scored.Failure? ==> outcome == Failure(MissingIdMeal))
      && (scored.Failure? ==>
            && 1 <= |looked| <= |order| && looked == order[..|looked|]
            && Scored(ings, looked[..|looked| - 1], lookup).Success?
            && MissingId(lookup, looked[|looked| - 1]))
      && (scored.Success? ==>
            && looked == order
            && outcome.Success?
            && IsStableSortDesc(scored.value, outcome.value)
            && forall t :: 0 <= t < |outcome.value| ==>
                 outcome.value[t].totalSearched == |ings|
                 && 0 <= outcome.value[t].matchCount <= |ings|)
  {
    var order, allMeals := MergeMeals(ings, filter);
    if allMeals == map[] {
      MergedEmpty(Fetched(ings, filter));
      return Success([]), [];
    }
    var scored;
    scored, looked := LookUpAndScore(ings, order, lookup);
    if scored.Failure? {
      return scored, looked;
    }
    var sorted := SortByMatchDesc(scored.value);
    RankedBounds(ings, scored.value, sorted);
    outcome := Success(sorted);
  }

  /**
   * `search_recipes`: the 400 error when every searched name is blank,
   * otherwise the search of the normalised names.
   */
  method SearchRecipes(raw: seq<string>, filter: string -> seq<MealSummary>, lookup: string -> Option<Record>)
    returns (outcome: Result<seq<Recipe>, HttpError>, looked: seq<string>)
    ensures (forall i :: 0 <= i < |raw| ==> AllSpace(raw[i])) ==> outcome == Failure(NoIngredients) && looked == []
    ensures Normalize.Normalize(raw).Success? ==>
              var ings := Normalize.Normalize(raw).value;
              var order := DistinctIds(Fetched(ings, filter));
              var scored := Scored(ings, order, lookup);
              && (order == [] ==> outcome == Success([]) && looked == [])
              && (scored.Failure? ==> outcome == Failure(MissingIdMeal))
              && (scored.Failure? ==>
                    && 1 <= |looked| <= |order| && looked == order[..|looked|]
                    && Scored(ings, looked[..|looked| - 1], lookup).Success?
                    && MissingId(lookup, looked[|looked| - 1]))
              && (scored.Success? ==>
                    && looked == order
                    && outcome.Success?
                    && IsStableSortDesc(scored.value, outcome.value)
                    && forall t :: 0 <= t < |outcome.value| ==>
                         outcome.value[t].totalSearched == |ings|
                         && 0 <= outcome.value[t].matchCount <= |ings|)
  {
    var normalized := Normalize.Normalize(raw);
    if normalized.Failure? {
      return Failure(normalized.error), [];
    }
    outcome, looked := SearchNormalized(normalized.value, filter, lookup);
  }
}
