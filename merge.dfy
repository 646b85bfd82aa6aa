/**
 * The merge of the per-ingredient search replies into the `all_meals`
 * dictionary of the recipe search: one entry per meal id, holding the meal
 * object of the id's first occurrence, iterated in first-seen order.
 *
 * Python's dictionary keeps insertion order; it is modelled as the pair of
 * its key order (`order`) and its contents (`allMeals`).
 */
module Merge {
  import opened Models
  import opened Seqs

  /** One entry of a `filter.php?i=<ingredient>` reply: the meal id and the meal object. */
  datatype MealSummary = MealSummary(idMeal: string, meal: Record)

  /**
   * The replies for the searched ingredients, in search order, one after the
   * other. `filter(ing)` is the reply's `meals` list, `[]` when it is null.
   */
  function Fetched(ings: seq<string>, filter: string -> seq<MealSummary>): seq<MealSummary> {
    if ings == [] then [] else Fetched(ings[..|ings| - 1], filter) + filter(ings[|ings| - 1])
  }

  /** Some summary of `s` carries meal id `id`. */
  predicate Seen(s: seq<MealSummary>, id: string) {
    exists k :: 0 <= k < |s| && s[k].idMeal == id
  }

  /** A meal id seen in `s` is seen before its last element or is that element's id. */
  lemma SeenSnoc(s: seq<MealSummary>)
    requires s != []
    ensures forall id :: Seen(s, id) <==> Seen(s[..|s| - 1], id) || s[|s| - 1].idMeal == id
  {
    var n := |s| - 1;
    forall id ensures Seen(s, id) <==> Seen(s[..n], id) || s[n].idMeal == id {
      if Seen(s, id) && s[n].idMeal != id {
        var k :| 0 <= k < |s| && s[k].idMeal == id;
        assert s[..n][k] == s[k];
      }
      if Seen(s[..n], id) {
        var k :| 0 <= k < n && s[..n][k].idMeal == id;
        assert s[k] == s[..n][k];
      }
    }
  }

  /** The position of the first summary of `s` with meal id `id`. */
  function FirstIndex(s: seq<MealSummary>, id: string): (k: nat)
    requires Seen(s, id)
    ensures k < |s| && s[k].idMeal == id
    ensures forall j :: 0 <= j < k ==> s[j].idMeal != id
  {
    var n := |s| - 1;
    SeenSnoc(s);
    if Seen(s[..n], id) then
      var k := FirstIndex(s[..n], id);
      assert forall j :: 0 <= j <= k ==> s[..n][j] == s[j];
      k
    else
      assert forall j :: 0 <= j < n ==> s[j].idMeal != id by {
        forall j | 0 <= j < n ensures s[j].idMeal != id {
          assert s[..n][j] == s[j];
        }
      }
      n
  }

  /** The keys of `all_meals` in insertion order, after the summaries of `s` are merged in turn. */
  function DistinctIds(s: seq<MealSummary>): seq<string> {
    if s == [] then []
    else
      var d := DistinctIds(s[..|s| - 1]);
      var id := s[|s| - 1].idMeal;
      if id in d then d else d + [id]
  }

  /** The contents of `all_meals` after the summaries of `s` are merged in turn. */
  function FirstRecords(s: seq<MealSummary>): map<string, Record> {
    if s == [] then map[]
    else
      var m := FirstRecords(s[..|s| - 1]);
      var last := s[|s| - 1];
      if last.idMeal in m then m else m[last.idMeal := last.meal]
  }

  /** Both the key order and the dictionary hold exactly the meal ids that occur. */
  lemma {:induction false} MergedKeys(s: seq<MealSummary>)
    ensures forall id :: id in DistinctIds(s) <==> Seen(s, id)
    ensures forall id :: id in FirstRecords(s) <==> Seen(s, id)
  {
    if s != [] {
      MergedKeys(s[..|s| - 1]);
      SeenSnoc(s);
    }
  }

  /** No meal id appears twice in the merge order. */
  lemma {:induction false} DistinctIdsUnique(s: seq<MealSummary>)
    ensures forall p, q :: 0 <= p < q < |DistinctIds(s)| ==> DistinctIds(s)[p] != DistinctIds(s)[q]
  {
    if s != [] {
      DistinctIdsUnique(s[..|s| - 1]);
    }
  }

  /** Each merged id holds the meal object of its first occurrence. */
  lemma {:induction false} FirstRecordsFirst(s: seq<MealSummary>)
    ensures forall id :: Seen(s, id) ==>
              id in FirstRecords(s) && FirstRecords(s)[id] == s[FirstIndex(s, id)].meal
  {
    if s != [] {
      var n := |s| - 1;
      FirstRecordsFirst(s[..n]);
      MergedKeys(s[..n]);
      SeenSnoc(s);
      forall id | Seen(s, id)
        ensures id in FirstRecords(s) && FirstRecords(s)[id] == s[FirstIndex(s, id)].meal
      {
        if Seen(s[..n], id) {
          assert s[..n][FirstIndex(s[..n], id)] == s[FirstIndex(s[..n], id)];
        }
      }
    }
  }

  /** The merge order is the order of first occurrence. */
  lemma {:induction false} DistinctIdsFirstSeen(s: seq<MealSummary>)
    ensures forall p :: 0 <= p < |DistinctIds(s)| ==> Seen(s, DistinctIds(s)[p])
    ensures forall p, q :: 0 <= p < q < |DistinctIds(s)| ==>
              FirstIndex(s, DistinctIds(s)[p]) < FirstIndex(s, DistinctIds(s)[q])
  {
    MergedKeys(s);
    if s != [] {
      var n := |s| - 1;
      var d := DistinctIds(s[..n]);
      DistinctIdsFirstSeen(s[..n]);
      MergedKeys(s[..n]);
      SeenSnoc(s);
      forall p | 0 <= p < |d| ensures FirstIndex(s, d[p]) == FirstIndex(s[..n], d[p]) {
      }
    }
  }

  /** Nothing is merged exactly when no reply lists a meal. */
  lemma DistinctIdsEmpty(s: seq<MealSummary>)
    ensures DistinctIds(s) == [] <==> s == []
  {
    if s != [] {
      MergedKeys(s);
      assert Seen(s, s[|s| - 1].idMeal);
    }
  }

  /** The dictionary is empty exactly when the key order is. */
  lemma MergedEmpty(s: seq<MealSummary>)
    ensures FirstRecords(s) == map[] <==> DistinctIds(s) == []
  {
    MergedKeys(s);
    if DistinctIds(s) != [] {
      assert DistinctIds(s)[0] in FirstRecords(s);
    }
  }

  /** Merging one more summary adds its id and meal exactly when the id is new. */
  lemma MergeStep(done: seq<MealSummary>, meal: MealSummary)
    ensures var m := FirstRecords(done);
      && DistinctIds(done + [meal]) == (if meal.idMeal in m then DistinctIds(done) else DistinctIds(done) + [meal.idMeal])
      && FirstRecords(done + [meal]) == (if meal.idMeal in m then m else m[meal.idMeal := meal.meal])
  {
    MergedKeys(done);
    assert (done + [meal])[..|done|] == done;
  }

  /** The replies for one more ingredient follow those already fetched. */
  lemma FetchedStep(ings: seq<string>, i: nat, filter: string -> seq<MealSummary>)
    requires i < |ings|
    ensures Fetched(ings[..i + 1], filter) == Fetched(ings[..i], filter) + filter(ings[i])
  {
    assert ings[..i + 1][..i] == ings[..i];
  }

  /**
   * `for ingredient in ingredients: ... for meal in meals: if meal_id not in
   * all_meals: all_meals[meal_id] = meal`, with `filter` standing for the
   * HTTP request of each ingredient.
   */
  method MergeMeals(ings: seq<string>, filter: string -> seq<MealSummary>)
    returns (order: seq<string>, allMeals: map<string, Record>)
    ensures order == DistinctIds(Fetched(ings, filter))
    ensures allMeals == FirstRecords(Fetched(ings, filter))
  {
    order, allMeals := [], map[];
    ghost var done: seq<MealSummary> := [];
    for i := 0 to |ings|
      invariant done == Fetched(ings[..i], filter)
      invariant order == DistinctIds(done) && allMeals == FirstRecords(done)
    {
      var meals := filter(ings[i]);
      for j := 0 to |meals|
        invariant done == Fetched(ings[..i], filter) + meals[..j]
        invariant order == DistinctIds(done) && allMeals == FirstRecords(done)
      {
        var meal := meals[j];
        MergeStep(done, meal);
        if meal.idMeal !in allMeals {
          allMeals := allMeals[meal.idMeal := meal.meal];
          order := order + [meal.idMeal];
        }
        PrefixSnoc(meals, j);
        AppendSnoc(Fetched(ings[..i], filter), meals[..j], meal);
        done := done + [meal];
      }
      FetchedStep(ings, i, filter);
      assert meals[..|meals|] == meals;
    }
    assert ings[..|ings|] == ings;
  }
}
