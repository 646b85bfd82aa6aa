/**
 * The values the search pipeline passes around: TheMealDB JSON records,
 * the `Ingredient` and `Recipe` models of backend/models.py, and the
 * HTTP errors the endpoints raise.
 */
module Models {
  import opened Wrappers

  datatype Ingredient = Ingredient(name: string, measure: string)

  /** `matchCount` and `totalSearched` are 0 until the search scores the recipe. */
  datatype Recipe = Recipe(
    id: string,
    title: string,
    image: string,
    cuisine: string,
    mealType: string,
    tags: seq<string>,
    ingredients: seq<Ingredient>,
    instructions: seq<string>,
    matchCount: int,
    totalSearched: int)

  /** A TheMealDB JSON object with string fields; a JSON `null` is `None`. */
  type Record = map<string, Option<string>>

  /** `record.get(key)`: `None` both for an absent key and for a `null` value. */
  function Get(rec: Record, key: string): (r: Option<string>)
    ensures key !in rec ==> r.None?
    ensures key in rec ==> r == rec[key]
  {
    if key in rec then rec[key] else None
  }

  /** Python's `value or default` on an optional string: the default for `None` and for `""`. */
  function OrDefault(v: Option<string>, default: string): (r: string)
    ensures v.Some? && v.value != "" ==> r == v.value
    ensures v.None? || v.value == "" ==> r == default
    ensures default != "" ==> r != ""
  {
    if v.Some? && v.value != "" then v.value else default
  }

  /** An `HTTPException`: status code and detail message. */
  datatype HttpError = HttpError(status: int, detail: string)
}
