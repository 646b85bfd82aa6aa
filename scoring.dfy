/**
 * Match scoring of a mapped recipe against the searched ingredient names:
 * the recipe's lower-cased ingredient names are joined with spaces, and
 * `match_count` counts the searched entries that occur in that text.
 */
module Scoring {
  import opened Text
  import opened Models
  import opened Seqs

  /** `[ing.name.lower() for ing in ingredients]`. */
  function LowerNames(ings: seq<Ingredient>): seq<string> {
    seq(|ings|, i requires 0 <= i < |ings| => Lower(ings[i].name))
  }

  /**
   * `' '.join(...)` of the lower-cased ingredient names: every name occurs
   * in it, lower-cased; it is empty for a recipe without ingredients.
   */
  function IngredientsText(r: Recipe): (t: string)
    ensures r.ingredients == [] ==> t == ""
    ensures forall k :: 0 <= k < |r.ingredients| ==> Contains(t, Lower(r.ingredients[k].name))
  {
    var names := LowerNames(r.ingredients);
    JoinHasParts(names, " ");
    assert forall k :: 0 <= k < |r.ingredients| ==> names[k] == Lower(r.ingredients[k].name);
    Join(names, " ")
  }

  /**
   * `entry.lower() in text`: an entry already in lower case is looked up
   * as it is; an empty entry matches any text, and none longer than the text matches.
   */
  predicate Matches(text: string, entry: string): (b: bool)
    ensures entry == "" ==> b
    ensures b ==> |entry| <= |text|
    ensures IsLowerCase(entry) ==> (b <==> Contains(text, entry))
  {
    Contains(text, Lower(entry))
  }

  /** `sum(1 for ing in searched if ing.lower() in text)`. */
  function MatchCount(searched: seq<string>, text: string): (c: nat)
    ensures c <= |searched|
  {
    if searched == [] then 0
    else
      var n := |searched| - 1;
      MatchCount(searched[..n], text) + if Matches(text, searched[n]) then 1 else 0
  }

  /** The positions of the searched entries that occur in `text`. */
  function MatchingPositions(searched: seq<string>, text: string): set<nat> {
    set i: nat | i < |searched| && Matches(text, searched[i])
  }

  /**
   * `match_count` is the number of positions of the searched list whose
   * entry occurs in the text: a repeated entry counts once per position.
   */
  lemma {:induction false} MatchCountCountsPositions(searched: seq<string>, text: string)
    ensures MatchCount(searched, text) == |MatchingPositions(searched, text)|
  {
    if searched != [] {
      var n := |searched| - 1;
      MatchCountCountsPositions(searched[..n], text);
      var before := MatchingPositions(searched[..n], text);
      var all := MatchingPositions(searched, text);
      forall i: nat ensures i in all <==> i in before || (i == n && Matches(text, searched[n])) {
        if i < n {
          assert searched[..n][i] == searched[i];
        }
      }
      assert n !in before;
      if Matches(text, searched[n]) {
        assert all == before + {n};
      } else {
        assert all == before;
      }
    }
  }

  /** The count over a concatenation of searched lists is the sum of the counts. */
  lemma {:induction false} MatchCountAppend(a: seq<string>, b: seq<string>, text: string)
    ensures MatchCount(a + b, text) == MatchCount(a, text) + MatchCount(b, text)
  {
    if b != [] {
      var n := |b| - 1;
      MatchCountAppend(a, b[..n], text);
      AppendDropLast(a, b);
    } else {
      assert a + b == a;
    }
  }

  /** Searching every entry twice doubles the count: duplicates are not merged. */
  lemma MatchCountDuplicates(searched: seq<string>, text: string)
    ensures MatchCount(searched + searched, text) == 2 * MatchCount(searched, text)
  {
    MatchCountAppend(searched, searched, text);
  }

  /**
   * The recipe with `match_count` and `total_searched` filled in: the count
   * is the number of searched positions whose entry occurs in the joined
   * ingredient text; nothing else changes.
   */
  function Score(searched: seq<string>, r: Recipe): (s: Recipe)
    ensures s.totalSearched == |searched|
    ensures s.matchCount == |MatchingPositions(searched, IngredientsText(r))|
    ensures 0 <= s.matchCount <= s.totalSearched
    ensures s.(matchCount := r.matchCount, totalSearched := r.totalSearched) == r
  {
    MatchCountCountsPositions(searched, IngredientsText(r));
    r.(matchCount := MatchCount(searched, IngredientsText(r)), totalSearched := |searched|)
  }

  /** Some single ingredient name of `r`, lower-cased, contains `entry`. */
  predicate InSomeName(r: Recipe, entry: string) {
    exists k :: 0 <= k < |r.ingredients| && Contains(Lower(r.ingredients[k].name), entry)
  }

  /** How many searched entries occur inside one single ingredient name. */
  function NameMatchCount(searched: seq<string>, r: Recipe): nat {
    if searched == [] then 0
    else
      var n := |searched| - 1;
      NameMatchCount(searched[..n], r) + if InSomeName(r, Lower(searched[n])) then 1 else 0
  }

  /** An entry inside one ingredient name also occurs in the joined text. */
  lemma InSomeNameInText(r: Recipe, entry: string)
    requires InSomeName(r, entry)
    ensures Contains(IngredientsText(r), entry)
  {
    var k :| 0 <= k < |r.ingredients| && Contains(Lower(r.ingredients[k].name), entry);
    var names := LowerNames(r.ingredients);
    JoinHasPart(names, " ", k);
    var o: nat :| OccursAt(Join(names, " "), names[k], o);
    assert Contains(IngredientsText(r), names[k]);
    ContainsTransitive(IngredientsText(r), names[k], entry);
  }

  /**
   * Matching against the joined text finds at least every entry that one
   * ingredient name contains; it may find more, across a joining space.
   */
  lemma {:induction false} NameMatchesAtMostMatchCount(searched: seq<string>, r: Recipe)
    ensures NameMatchCount(searched, r) <= MatchCount(searched, IngredientsText(r))
  {
    if searched != [] {
      var n := |searched| - 1;
      NameMatchesAtMostMatchCount(searched[..n], r);
      if InSomeName(r, Lower(searched[n])) {
        InSomeNameInText(r, Lower(searched[n]));
      }
    }
  }

  /** A recipe with the two ingredients "chicken" and "rice". */
  const ChickenAndRice := Recipe("mealdb_1", "", "", "", "", [], [Ingredient("chicken", ""), Ingredient("rice", "")], [], 0, 0)

  lemma ChickenAndRiceNames()
    ensures LowerNames(ChickenAndRice.ingredients) == ["chicken", "rice"]
  {
    assert IsLowerCase("chicken") && IsLowerCase("rice");
  }

  lemma ChickenAndRiceText()
    ensures IngredientsText(ChickenAndRice) == "chicken rice"
  {
    ChickenAndRiceNames();
    JoinCons("chicken", ["rice"], " ");
  }

  /** "n r" holds a space, which neither ingredient name does. */
  lemma NoNameHoldsNR()
    ensures NameMatchCount(["n r"], ChickenAndRice) == 0
  {
    assert IsLowerCase("n r");
    assert IsLowerCase("chicken") && IsLowerCase("rice");
    MissingCharNotContained("chicken", "n r", ' ');
    MissingCharNotContained("rice", "n r", ' ');
    assert !InSomeName(ChickenAndRice, "n r");
    assert ["n r"][..0] == [];
  }

  /** "n r" occurs in "chicken rice" at index 6. */
  lemma TextHoldsNR()
    ensures MatchCount(["n r"], IngredientsText(ChickenAndRice)) == 1
  {
    ChickenAndRiceText();
    assert IsLowerCase("n r");
    assert OccursAt("chicken rice", "n r", 6);
    assert Matches("chicken rice", "n r");
    assert ["n r"][..0] == [];
  }

  /** The two counts differ: "n r" occurs in "chicken rice" only across the joining space. */
  lemma MatchAcrossBoundary()
    ensures NameMatchCount(["n r"], ChickenAndRice) == 0
    ensures MatchCount(["n r"], IngredientsText(ChickenAndRice)) == 1
  {
    NoNameHoldsNR();
    TextHoldsNR();
  }
}
