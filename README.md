# Recipe search by ingredients — a Dafny model

This project models the recipe-search core of the backend in
`backend/main.py`. It also proves properties of that model.

The core is the `POST /recipes/search` endpoint together with the fallback
that the AI recipe endpoint uses to pull JSON out of a fenced reply. The
modules follow the steps of the endpoint:

- `Text`: the Python `str` operations the code relies on, over ASCII text.
  These are `strip`, `lower`, `split`, `join`, `in`, `find` and `str(n)`.
- `Normalize`: normalising the searched names. Each name is stripped and
  lower-cased, blank names are dropped, and an empty result is the 400
  error. The AI endpoint repeats the same step at `backend/main.py:606-612`,
  and the same function covers it.
- `Merge`: the merge of the per-ingredient `filter.php` replies into the
  `all_meals` dictionary. A Python dictionary keeps insertion order, so it
  is modelled as its key order plus its contents.
- `Mapping`: `_map_recipe_from_themealdb`, which maps a `lookup.php` meal
  object to a `Recipe`.
- `Scoring`: `match_count` and `total_searched` for one recipe.
- `Ranking`: the stable descending sort by `match_count`.
- `Search`: the endpoint as a whole. It looks up each merged meal, maps
  and scores it, and ranks the results. It also covers the error outcomes.
- `Fence`: the extraction of the text between "```json" and the next "```",
  with its two `JSONDecodeError` messages.

The two TheMealDB requests are parameters of the model:

- `filter(ing)` is the `meals` list of `filter.php?i=<ing>`, or `[]` when
  that list is null.
- `lookup(id)` is the first meal of `lookup.php?i=<id>`, or `None` when the
  reply lists no meal.

A meal object is a map from field names to optional strings. A missing key
and a JSON `null` both read as `None` through `.get`. Only the `KeyError`
of `meal_data['idMeal']` tells them apart: the search fails with the 500
error "Failed to search recipes: 'idMeal'".

The search methods also return the ids they looked up, in request order.
This lets their contracts say that nothing is looked up when no meal was
found, and that the loop stops at the first detail without an id.

Three behaviours of the code are worth knowing, because a reader might
expect otherwise:

- `match_count` counts positions of the searched list, not distinct
  names, so a repeated name counts twice. See
  `Scoring.MatchCountCountsPositions` and `Scoring.MatchCountDuplicates`.
- A name is matched against all ingredient names joined with spaces, not
  against each ingredient name on its own, so it can match across the
  joining space. See `Scoring.MatchAcrossBoundary`.
- The search endpoint computes no "full match" flag, and the backend code
  modelled here has no pantry ordering.

## Model

| member | source | states |
|---|---|---|
| Text.Strip | backend/main.py:366 | `s.strip()` is stripped; it is empty exactly when `s` is all whitespace; it leaves a stripped string unchanged |
| Text.StripIsInfix | backend/main.py:366 | `strip()` removes only whitespace, and only at the two ends |
| Text.Lower | backend/main.py:366 | `lower()` turns each letter A–Z into its lower-case letter and leaves every other character as it is; so it keeps the length, leaves no upper-case letter and keeps strippedness |
| Text.Contains | backend/main.py:411 | `pat in s`: the empty pattern is in every text, and no pattern longer than the text is in it |
| Text.Find | backend/main.py:661-662 | `find` returns the least match index at or after `start`, or -1 exactly when nothing matches there |
| Text.Split | backend/main.py:459 | `split(sep)` gives at least one piece, and no piece holds the separator |
| Text.Join | backend/main.py:410 | `sep.join(parts)`: empty for no parts, the part itself for one part, and otherwise starts with the first part |
| Text.JoinSplit | backend/main.py:459 | joining the pieces of `split(sep)` with `sep` gives back the text |
| Text.SplitJoin | backend/main.py:459 | splitting a join of separator-free parts gives back the parts |
| Text.Decimal | backend/main.py:445-446 | `str(i)` is a non-empty string of digits with no leading zero |
| Text.DecimalRoundTrip | backend/main.py:444-446 | `str(i)` of a slot number reads back as `i` |
| Text.JoinHasPart | backend/main.py:410 | each part of a join occurs in the joined text |
| Text.JoinHasParts | backend/main.py:410 | every part of a join occurs in the joined text |
| Normalize.StrippedNonBlank | backend/main.py:366 | the comprehension's entries are non-empty and stripped, and there are no more of them than inputs |
| Normalize.NonBlankPositions | backend/main.py:366 | lists, in increasing order, exactly the input positions that are not blank |
| Normalize.StrippedNonBlankSelects | backend/main.py:366 | the comprehension keeps exactly the non-blank entries, in input order, each one stripped |
| Normalize.StrippedNonBlankKeeps | backend/main.py:366 | a list of non-blank stripped entries passes through unchanged |
| Normalize.LowerAll | backend/main.py:366 | lower-casing a list keeps its length and each entry's length and strippedness, and leaves each entry lower-case |
| Normalize.LowerAllKeeps | backend/main.py:366 | lower-casing lower-case entries changes nothing |
| Normalize.Normalize | backend/main.py:366-372 | fails, with the 400 error, exactly when every name is blank; otherwise yields the non-blank names, stripped and lower-cased, in input order |
| Normalize.NormalizeIdempotent | backend/main.py:366-372 | normalising a normalised list changes nothing |
| Merge.SeenSnoc | backend/main.py:388-391 | an id occurs in the replies exactly when it occurs before the last summary or is the last summary's id |
| Merge.FirstIndex | backend/main.py:388-391 | the position of an id's first occurrence in the replies |
| Merge.MergedKeys | backend/main.py:379-391 | the key order and the dictionary both hold exactly the meal ids that occur in the replies |
| Merge.DistinctIdsUnique | backend/main.py:390 | no meal id occurs twice in the key order |
| Merge.FirstRecordsFirst | backend/main.py:390-391 | each merged id holds the meal object of its first occurrence |
| Merge.DistinctIdsFirstSeen | backend/main.py:379-391 | the key order is the order of first occurrence |
| Merge.DistinctIdsEmpty | backend/main.py:387-394 | nothing is merged exactly when no reply lists a meal |
| Merge.MergedEmpty | backend/main.py:393 | the dictionary is empty exactly when its key order is |
| Merge.MergeStep | backend/main.py:389-391 | merging one more summary adds its id and meal exactly when the id is new, and otherwise changes nothing |
| Merge.FetchedStep | backend/main.py:381-388 | the replies for one more ingredient follow those already fetched |
| Merge.MergeMeals | backend/main.py:379-391 | the nested loops build the key order and the contents that `DistinctIds` and `FirstRecords` define over all replies in search order |
| Mapping.SlotKeysDistinct | backend/main.py:444-446 | different slot numbers read different fields |
| Mapping.SlotIngredient | backend/main.py:448-455 | a slot yields an ingredient exactly when its name is present and not blank; the name is the field value stripped, and is non-empty; the measure is its field value stripped, or `""` when missing |
| Mapping.SlotIngredients | backend/main.py:443-455 | the slots 1..n give at most n ingredients, each with a non-empty stripped name and a stripped measure |
| Mapping.UsedSlots | backend/main.py:444-455 | lists, in increasing order, slots among 1..n that yield an ingredient |
| Mapping.UsedSlotsComplete | backend/main.py:444-455 | every slot among 1..n that yields an ingredient is listed |
| Mapping.SlotIngredientsFromSlots | backend/main.py:443-455 | the ingredient list holds one entry per used slot, in slot order, so at most n entries |
| Mapping.StripKeepsOut | backend/main.py:459 | stripping does not bring in a character |
| Mapping.Pieces | backend/main.py:459 | the result is the non-blank pieces of `split(sep)`, in order, each stripped; so they are non-empty, stripped and free of the separator, and empty text gives none |
| Mapping.PyStr | backend/main.py:466 | `str(v)` of a present string is that string; of `None` it is "None" |
| Models.Get | backend/main.py:448-449 | `.get(key)` is the stored value, or `None` for an absent key |
| Models.OrDefault | backend/main.py:458 | `v or default` is `v` when present and non-empty, otherwise the default; so it is non-empty when the default is |
| Mapping.RecipeOf | backend/main.py:440-474 | maps exactly the objects that have `idMeal`; the id is "mealdb_" + str(idMeal); title, image, cuisine and category are the field value when it is present and non-empty, and otherwise their defaults; the instructions are the pieces of the text split at "."; the tags are the pieces of the text split at ",", or [] when that text is missing or empty; both counts are 0 |
| Mapping.RecipeIdsDistinct | backend/main.py:466 | meal objects with different present `idMeal` strings get different recipe ids |
| Mapping.MappedLists | backend/main.py:443-463 | at most 20 ingredients, each with a non-empty stripped name and a stripped measure; instructions and tags non-empty, stripped and without their separator; both empty when their field is missing |
| Mapping.MappedIngredientsFromSlots | backend/main.py:443-455 | the ingredients are those of the used slots 1..20, in slot order |
| Mapping.MapRecipe | backend/main.py:440-474 | the loop over slots 1..20 and the field defaults compute `RecipeOf` |
| Scoring.MatchCount | backend/main.py:411 | the count never exceeds the number of searched names |
| Scoring.MatchCountCountsPositions | backend/main.py:411 | the count is the number of searched positions whose name occurs in the text |
| Scoring.MatchCountAppend | backend/main.py:411 | the count over a concatenation is the sum of the counts |
| Scoring.MatchCountDuplicates | backend/main.py:411 | searching every name twice doubles the count |
| Scoring.IngredientsText | backend/main.py:410 | every ingredient name, lower-cased, occurs in the joined text; a recipe without ingredients gives "" |
| Scoring.Matches | backend/main.py:411 | `ing.lower() in text`: an entry already in lower case is looked up as it is; an empty entry matches any text, and none longer than the text matches |
| Scoring.Score | backend/main.py:410-415 | sets `total_searched` to the number of searched names and `match_count` to the number of searched positions whose entry occurs in the joined ingredient text, within [0, total_searched]; every other field is unchanged |
| Scoring.InSomeNameInText | backend/main.py:410 | a name inside one ingredient name also occurs in the joined text |
| Scoring.NameMatchesAtMostMatchCount | backend/main.py:410-411 | the joined-text count is at least the per-ingredient-name count |
| Scoring.ChickenAndRiceNames | backend/main.py:410 | the lower-cased names of the ingredients "chicken" and "rice" are those two strings |
| Scoring.ChickenAndRiceText | backend/main.py:410 | the joined text of the ingredients "chicken" and "rice" is "chicken rice" |
| Scoring.NoNameHoldsNR | backend/main.py:410-411 | "n r" occurs in neither "chicken" nor "rice" |
| Scoring.TextHoldsNR | backend/main.py:410-411 | "n r" matches the joined text "chicken rice" once |
| Scoring.MatchAcrossBoundary | backend/main.py:410-411 | "n r" matches "chicken rice" once, although it occurs in no single ingredient name |
| Ranking.InsertionPoint | backend/main.py:420 | the first position whose count is below x: all counts before it are at least x, all after it are below x |
| Ranking.InsertAfterNotSmaller | backend/main.py:420 | inserting after the counts that are not smaller extends a stable descending sort by one element |
| Ranking.SortByMatchDesc | backend/main.py:420 | the result is ordered by non-increasing `match_count`, is a permutation of the input and keeps each group of equal counts in input order |
| Ranking.SortKeepsElements | backend/main.py:420 | sorting neither adds nor drops a recipe |
| Ranking.StableSortUnique | backend/main.py:420 | two stable descending sorts of one list are equal, so the three properties pin down Python's result |
| Search.RecipeOfFailsOnlyWithoutId | backend/main.py:466 | the mapping fails exactly on an object without `idMeal` |
| Search.ScoredBy | backend/main.py:397-417 | the only failure is the missing-`idMeal` 500 error; there are at most as many recipes as ids; every recipe has the search's bounds |
| Search.Scored | backend/main.py:397-417 | the detail loop fails exactly when some meal's detail has no `idMeal`; otherwise it gives one scored recipe per meal with detail, in merge order |
| Search.WithDetail | backend/main.py:405 | the meals whose lookup returns an object, in order |
| Search.ScoredOnePerDetail | backend/main.py:397-417 | a successful scoring has one recipe per meal with detail, in merge order, each one that meal's detail mapped and scored |
| Search.ScoredFailsStep | backend/main.py:405-407 | one more meal makes the scoring fail exactly when it already failed or that meal's detail has no `idMeal` |
| Search.MissingIdSnoc | backend/main.py:405-407 | some id lacks `idMeal` exactly when one before the last does or the last does |
| Search.ScoredFailsOnMissingId | backend/main.py:405-407 | scoring fails exactly when some meal's detail has no `idMeal` |
| Search.ScoredStep | backend/main.py:405-417 | one more meal extends the scoring by its mapped and scored detail, if it has one |
| Search.LookUpAndScore | backend/main.py:397-417 | the loop computes the scoring; on success it looked up every merged id; on failure it stopped at the first id whose detail has no `idMeal` |
| Search.RankedBounds | backend/main.py:415-420 | ranking keeps every recipe's `total_searched` and the bound on its `match_count` |
| Search.SearchNormalized | backend/main.py:374-437 | returns [] without lookups when nothing merges; returns the 500 error at the first detail without `idMeal`; otherwise returns the scored recipes as a stable descending sort |
| Search.SearchRecipes | backend/main.py:359-437 | returns the 400 error without lookups when every name is blank, and otherwise the result of `SearchNormalized` on the normalised names |
| Fence.NoCloseInside | backend/main.py:662-664 | the stripped text before the first closing fence contains no fence |
| Fence.ExtractFenced | backend/main.py:660-669 | fails with "Invalid JSON format" exactly when there is no "```json"; the only other failure is "No JSON found"; the extracted text is stripped and holds no "```" |
| Fence.ExtractFencedBetween | backend/main.py:660-667 | given the first "```json", extraction succeeds exactly when the next "```" leaves text between them, and then returns that text stripped; otherwise it fails with "No JSON found" |
| Fence.ExtractFencedWrapped | backend/main.py:660-665 | a backtick-free text fenced after a backtick-free preamble comes back stripped |
| Fence.ExtractFencedEmpty | backend/main.py:663-667 | a fence closed right after it opens gives "No JSON found" |

## Left out

- HTTP: `raise_for_status`, the `httpx.HTTPError` handler with its 503 error, and the JSON decoding of replies. The two requests are the parameters `filter` and `lookup`, so a failed request is not modelled.
- Other exceptions that reach the generic 500 handler are not modelled. The one that is modelled is the `KeyError` of `meal_data['idMeal']`.
- `Merge.MealSummary` always carries an id. So the `KeyError` of `meal["idMeal"]` in a `filter.php` reply is not modelled.
- `Search.LookUpAndScore` calls `lookup` once per id and keeps no state between calls. It does not model a TheMealDB reply that changes between requests.
- The AI recipe endpoint beyond the fence extraction is not modelled. This covers the Gemini call, the prompt, `json.loads` of the reply and the construction of `AIRecipe` objects with `uuid` ids. They are external services, random ids or a JSON parser outside this core.
- Authentication, the database, and the saved-recipe and pantry endpoints are not modelled. They are persistence plumbing outside the search core.
- `Text.Lower`, `Text.Strip`: only ASCII is modelled. `lower()` maps A–Z only, and whitespace is the ASCII set that `str.isspace` accepts. Unicode case mapping and Unicode whitespace are not modelled.
- `Ranking.SortByMatchDesc` works on a sequence value, not on the list in place. Its contract is the full stable-sort property, so the order matches Python's result (see `Ranking.StableSortUnique`). The model does not capture Timsort's particular steps or the mutation of the list.
