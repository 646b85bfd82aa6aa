/**
 * `_map_recipe_from_themealdb`: the mapping of a TheMealDB meal object
 * (a `lookup.php` reply) to a `Recipe`.
 */
module Mapping {
  import opened Wrappers
  import opened Text
  import opened Models
  import opened Normalize

  /** TheMealDB numbers its ingredient and measure fields 1 to 20. */
  const MaxSlots := 20

  function IngredientKey(i: nat): string {
    "strIngredient" + Decimal(i)
  }

  function MeasureKey(i: nat): string {
    "strMeasure" + Decimal(i)
  }

  /** The key of slot `i` determines `i`: no two slots read the same field. */
  lemma SlotKeysDistinct(i: nat, j: nat)
    requires IngredientKey(i) == IngredientKey(j)
    ensures i == j
  {
    var n := |"strIngredient"|;
    assert Decimal(i) == IngredientKey(i)[n..];
    assert Decimal(j) == IngredientKey(j)[n..];
    DecimalRoundTrip(i);
    DecimalRoundTrip(j);
  }

  /**
   * What slot `i` contributes: an ingredient when its name is present and
   * not blank, with the name stripped and the measure stripped or `""`.
   */
  function SlotIngredient(rec: Record, i: nat): (r: Option<Ingredient>)
    ensures r.Some? <==> Get(rec, IngredientKey(i)).Some? && !AllSpace(Get(rec, IngredientKey(i)).value)
    ensures r.Some? ==> r.value.name != "" && IsStripped(r.value.name) && IsStripped(r.value.measure)
    ensures r.Some? ==> r.value.name == Strip(Get(rec, IngredientKey(i)).value)
    ensures r.Some? && Get(rec, MeasureKey(i)).Some? ==> r.value.measure == Strip(Get(rec, MeasureKey(i)).value)
    ensures r.Some? && Get(rec, MeasureKey(i)).None? ==> r.value.measure == ""
  {
    var name := Get(rec, IngredientKey(i));
    var measure := Get(rec, MeasureKey(i));
    if name.Some? && name.value != "" && Strip(name.value) != "" then
      Some(Ingredient(Strip(name.value), if measure.Some? && measure.value != "" then Strip(measure.value) else ""))
    else
      None
  }

  /**
   * The ingredients read from slots 1 to `n`, in slot order: at most one per
   * slot, each with a non-empty stripped name and a stripped measure.
   */
  function SlotIngredients(rec: Record, n: nat): (r: seq<Ingredient>)
    ensures |r| <= n
    ensures forall t :: 0 <= t < |r| ==>
              r[t].name != "" && IsStripped(r[t].name) && IsStripped(r[t].measure)
  {
    if n == 0 then []
    else
      SlotIngredients(rec, n - 1) + match SlotIngredient(rec, n) case Some(ing) => [ing] case None => []
  }

  /** The slots among 1 to `n` that hold an ingredient, in increasing order. */
  function UsedSlots(rec: Record, n: nat): (ks: seq<nat>)
    ensures |ks| <= n
    ensures forall t :: 0 <= t < |ks| ==> 1 <= ks[t] <= n && SlotIngredient(rec, ks[t]).Some?
    ensures forall t, u :: 0 <= t < u < |ks| ==> ks[t] < ks[u]
  {
    if n == 0 then []
    else
      var init := UsedSlots(rec, n - 1);
      if SlotIngredient(rec, n).Some? then init + [n] else init
  }

  /** Every slot among 1 to `n` that holds an ingredient is among the used slots. */
  lemma {:induction false} UsedSlotsComplete(rec: Record, n: nat)
    ensures forall k :: 1 <= k <= n && SlotIngredient(rec, k).Some? ==> k in UsedSlots(rec, n)
  {
    if n > 0 {
      UsedSlotsComplete(rec, n - 1);
      var init := UsedSlots(rec, n - 1);
      var ks := UsedSlots(rec, n);
      assert ks == init + [n] || ks == init;
      assert init <= ks;
      forall k | 1 <= k <= n && SlotIngredient(rec, k).Some? ensures k in ks {
        if k < n {
          assert k in init;
        } else {
          assert ks == init + [n];
        }
      }
    }
  }

  /**
   * The ingredient list holds one entry per used slot, in slot order, each
   * the one that slot contributes; so at most `n` entries.
   */
  lemma {:induction false} SlotIngredientsFromSlots(rec: Record, n: nat)
    ensures |SlotIngredients(rec, n)| == |UsedSlots(rec, n)| <= n
    ensures forall t :: 0 <= t < |SlotIngredients(rec, n)| ==>
              SlotIngredient(rec, UsedSlots(rec, n)[t]) == Some(SlotIngredients(rec, n)[t])
  {
    if n > 0 {
      SlotIngredientsFromSlots(rec, n - 1);
      var init := SlotIngredients(rec, n - 1);
      var ks := UsedSlots(rec, n - 1);
      match SlotIngredient(rec, n)
      case Some(ing) =>
        assert SlotIngredients(rec, n) == init + [ing];
        assert UsedSlots(rec, n) == ks + [n];
      case None =>
        assert SlotIngredients(rec, n) == init;
        assert UsedSlots(rec, n) == ks;
    }
  }

  /** `c` does not occur in `s.strip()` when it does not occur in `s`. */
  lemma StripKeepsOut(s: string, c: char)
    requires c !in s
    ensures c !in Strip(s)
  {
    StripIsInfix(s);
    var r := Strip(s);
    var i :| 0 <= i <= |s| - |r| && r == s[i..i + |r|] && AllSpace(s[..i]) && AllSpace(s[i + |r|..]);
    forall k | 0 <= k < |r| ensures r[k] != c {
      assert r[k] == s[i + k];
    }
  }

  /**
   * `[p.strip() for p in text.split(sep) if p.strip()]`: the non-blank pieces
   * between separators, stripped; none is empty or holds the separator.
   */
  function Pieces(text: string, sep: char): (r: seq<string>)
    ensures forall t :: 0 <= t < |r| ==> r[t] != "" && IsStripped(r[t]) && sep !in r[t]
    ensures text == "" ==> r == []
    ensures var parts := Split(text, sep);
      && |r| == |NonBlankPositions(parts)|
      && forall t :: 0 <= t < |r| ==> r[t] == Strip(parts[NonBlankPositions(parts)[t]])
  {
    var parts := Split(text, sep);
    StrippedNonBlankSelects(parts);
    var r := StrippedNonBlank(parts);
    assert forall t :: 0 <= t < |r| ==> sep !in r[t] by {
      forall t | 0 <= t < |r| ensures sep !in r[t] {
        var k := NonBlankPositions(parts)[t];
        StripKeepsOut(parts[k], sep);
      }
    }
    assert text == "" ==> parts == [""];
    r
  }

  /** Python's `str(v)` for an optional string: the string itself, and `"None"` for `None`. */
  function PyStr(v: Option<string>): (r: string)
    ensures v.Some? ==> r == v.value
    ensures v.None? ==> r == "None"
  {
    match v
    case Some(s) => s
    case None => "None"
  }

  /**
   * The recipe a meal object maps to, or `None` when the object has no
   * `idMeal` key (the `KeyError` of `meal_data['idMeal']`).
   */
  function RecipeOf(rec: Record): (r: Option<Recipe>)
    ensures r.Some? <==> "idMeal" in rec
    ensures r.Some? ==> r.value.id == "mealdb_" + PyStr(rec["idMeal"])
    ensures r.Some? ==> r.value.matchCount == 0 && r.value.totalSearched == 0
    ensures r.Some? ==> r.value.title != "" && r.value.cuisine != "" && r.value.mealType != ""
    ensures r.Some? && Get(rec, "strMeal") in {None, Some("")} ==> r.value.title == "Unknown Recipe"
    ensures r.Some? && Get(rec, "strMealThumb") in {None, Some("")} ==> r.value.image == ""
    ensures r.Some? && Get(rec, "strArea") in {None, Some("")} ==> r.value.cuisine == "Unknown"
    ensures r.Some? && Get(rec, "strCategory") in {None, Some("")} ==> r.value.mealType == "Unknown"
    ensures r.Some? && Get(rec, "strMeal").Some? && Get(rec, "strMeal").value != "" ==> r.value.title == Get(rec, "strMeal").value
    ensures r.Some? && Get(rec, "strMealThumb").Some? && Get(rec, "strMealThumb").value != "" ==> r.value.image == Get(rec, "strMealThumb").value
    ensures r.Some? && Get(rec, "strArea").Some? && Get(rec, "strArea").value != "" ==> r.value.cuisine == Get(rec, "strArea").value
    ensures r.Some? && Get(rec, "strCategory").Some? && Get(rec, "strCategory").value != "" ==> r.value.mealType == Get(rec, "strCategory").value
    ensures r.Some? ==> r.value.instructions == Pieces(OrDefault(Get(rec, "strInstructions"), ""), '.')
    ensures r.Some? && Get(rec, "strTags") in {None, Some("")} ==> r.value.tags == []
    ensures r.Some? && Get(rec, "strTags").Some? && Get(rec, "strTags").value != "" ==> r.value.tags == Pieces(Get(rec, "strTags").value, ',')
  {
    if "idMeal" !in rec then None
    else
      var ingredients := SlotIngredients(rec, MaxSlots);
      var tagsText := OrDefault(Get(rec, "strTags"), "");
      Some(Recipe(
        id := "mealdb_" + PyStr(rec["idMeal"]),
        title := OrDefault(Get(rec, "strMeal"), "Unknown Recipe"),
        image := OrDefault(Get(rec, "strMealThumb"), ""),
        cuisine := OrDefault(Get(rec, "strArea"), "Unknown"),
        mealType := OrDefault(Get(rec, "strCategory"), "Unknown"),
        tags := if tagsText != "" then Pieces(tagsText, ',') else [],
        ingredients := ingredients,
        instructions := Pieces(OrDefault(Get(rec, "strInstructions"), ""), '.'),
        matchCount := 0,
        totalSearched := 0))
  }

  /** Meal objects with different present `idMeal` strings map to recipes with different ids. */
  lemma RecipeIdsDistinct(a: Record, b: Record)
    requires "idMeal" in a && "idMeal" in b && a["idMeal"].Some? && b["idMeal"].Some?
    requires a["idMeal"].value != b["idMeal"].value
    ensures RecipeOf(a).value.id != RecipeOf(b).value.id
  {
    var p := "mealdb_";
    assert RecipeOf(a).value.id[|p|..] == a["idMeal"].value;
    assert RecipeOf(b).value.id[|p|..] == b["idMeal"].value;
  }

  /**
   * The lists of a mapped recipe: at most 20 ingredients, each with a
   * non-empty stripped name and a stripped measure; instruction sentences
   * and tags non-empty, stripped and free of their separator; both empty
   * when their field is missing.
   */
  lemma MappedLists(rec: Record)
    requires "idMeal" in rec
    ensures var r := RecipeOf(rec).value;
      && |r.ingredients| <= MaxSlots
      && (forall t :: 0 <= t < |r.ingredients| ==>
            r.ingredients[t].name != "" && IsStripped(r.ingredients[t].name) && IsStripped(r.ingredients[t].measure))
      && (forall t :: 0 <= t < |r.instructions| ==>
            r.instructions[t] != "" && IsStripped(r.instructions[t]) && '.' !in r.instructions[t])
      && (forall t :: 0 <= t < |r.tags| ==> r.tags[t] != "" && IsStripped(r.tags[t]) && ',' !in r.tags[t])
      && (Get(rec, "strInstructions").None? ==> r.instructions == [])
      && (Get(rec, "strTags").None? ==> r.tags == [])
  {
    var ingredients := RecipeOf(rec).value.ingredients;
    SlotIngredientsFromSlots(rec, MaxSlots);
    forall t | 0 <= t < |ingredients|
      ensures ingredients[t].name != "" && IsStripped(ingredients[t].name) && IsStripped(ingredients[t].measure)
    {
      assert SlotIngredient(rec, UsedSlots(rec, MaxSlots)[t]) == Some(ingredients[t]);
    }
  }

  /** The ingredients of a mapped recipe are those of the used slots 1 to 20, in slot order. */
  lemma MappedIngredientsFromSlots(rec: Record)
    requires "idMeal" in rec
    ensures var ings := RecipeOf(rec).value.ingredients;
      && |ings| == |UsedSlots(rec, MaxSlots)|
      && forall t :: 0 <= t < |ings| ==> SlotIngredient(rec, UsedSlots(rec, MaxSlots)[t]) == Some(ings[t])
  {
    SlotIngredientsFromSlots(rec, MaxSlots);
  }

  /**
   * `_map_recipe_from_themealdb(meal_data)`: reads slots 1 to 20 in a loop,
   * then splits the instructions and tags and fills the defaults.
   */
  method MapRecipe(rec: Record) returns (r: Option<Recipe>)
    ensures r == RecipeOf(rec)
  {
    var ingredients: seq<Ingredient> := [];
    for i := 1 to MaxSlots + 1
      invariant ingredients == SlotIngredients(rec, i - 1)
    {
      var name := Get(rec, IngredientKey(i));
      var measure := Get(rec, MeasureKey(i));
      if name.Some? && name.value != "" && Strip(name.value) != "" {
        var m := if measure.Some? && measure.value != "" then Strip(measure.value) else "";
        ingredients := ingredients + [Ingredient(Strip(name.value), m)];
      }
    }
    var instructions := Pieces(OrDefault(Get(rec, "strInstructions"), ""), '.');
    var tagsText := OrDefault(Get(rec, "strTags"), "");
    var tags := if tagsText != "" then Pieces(tagsText, ',') else [];
    if "idMeal" !in rec {
      return None;
    }
    r := Some(Recipe(
      id := "mealdb_" + PyStr(rec["idMeal"]),
      title := OrDefault(Get(rec, "strMeal"), "Unknown Recipe"),
      image := OrDefault(Get(rec, "strMealThumb"), ""),
      cuisine := OrDefault(Get(rec, "strArea"), "Unknown"),
      mealType := OrDefault(Get(rec, "strCategory"), "Unknown"),
      tags := tags,
      ingredients := ingredients,
      instructions := instructions,
      matchCount := 0,
      totalSearched := 0));
  }
}
