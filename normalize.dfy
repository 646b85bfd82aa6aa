/**
 * Normalisation of the searched ingredient names, done the same way by the
 * recipe search and by the AI recipe endpoint: strip each entry, drop the
 * blank ones, lower-case the rest, and reject an empty result.
 */
module Normalize {
  import opened Wrappers
  import opened Text
  import opened Models

  /** A searched name after normalisation: non-empty, stripped and lower-case. */
  predicate IsNormalized(s: string) {
    s != "" && IsStripped(s) && IsLowerCase(s)
  }

  /** `[x.strip() for x in xs if x.strip()]`. */
  function StrippedNonBlank(xs: seq<string>): (r: seq<string>)
    ensures |r| <= |xs|
    ensures forall t :: 0 <= t < |r| ==> r[t] != "" && IsStripped(r[t])
  {
    if xs == [] then []
    else
      var init := StrippedNonBlank(xs[..|xs| - 1]);
      var s := Strip(xs[|xs| - 1]);
      if s != "" then init + [s] else init
  }

  /** The positions of `xs` whose entry is not all whitespace, in increasing order. */
  function NonBlankPositions(xs: seq<string>): (ks: seq<nat>)
    ensures forall t :: 0 <= t < |ks| ==> ks[t] < |xs| && !AllSpace(xs[ks[t]])
    ensures forall t, u :: 0 <= t < u < |ks| ==> ks[t] < ks[u]
    ensures forall i :: 0 <= i < |xs| && !AllSpace(xs[i]) ==> i in ks
  {
    if xs == [] then []
    else
      var n := |xs| - 1;
      var init := NonBlankPositions(xs[..n]);
      assert forall i :: 0 <= i < n ==> xs[..n][i] == xs[i];
      if !AllSpace(xs[n]) then init + [n] else init
  }

  /**
   * The comprehension keeps exactly the non-blank entries, in input order,
   * each one stripped.
   */
  lemma {:induction false} StrippedNonBlankSelects(xs: seq<string>)
    ensures |StrippedNonBlank(xs)| == |NonBlankPositions(xs)|
    ensures forall t :: 0 <= t < |StrippedNonBlank(xs)| ==>
              StrippedNonBlank(xs)[t] == Strip(xs[NonBlankPositions(xs)[t]])
  {
    if xs != [] {
      var n := |xs| - 1;
      var init := xs[..n];
      StrippedNonBlankSelects(init);
      var r, ks := StrippedNonBlank(init), NonBlankPositions(init);
      forall t | 0 <= t < |ks| ensures xs[ks[t]] == init[ks[t]] {
      }
      var last := Strip(xs[n]);
      if last != "" {
        assert StrippedNonBlank(xs) == r + [last];
        assert NonBlankPositions(xs) == ks + [n];
      } else {
        assert StrippedNonBlank(xs) == r;
        assert NonBlankPositions(xs) == ks;
      }
    }
  }

  /** A list of non-blank stripped entries passes through the comprehension unchanged. */
  lemma {:induction false} StrippedNonBlankKeeps(xs: seq<string>)
    requires forall t :: 0 <= t < |xs| ==> xs[t] != "" && IsStripped(xs[t])
    ensures StrippedNonBlank(xs) == xs
  {
    if xs != [] {
      StrippedNonBlankKeeps(xs[..|xs| - 1]);
      assert xs[..|xs| - 1] + [xs[|xs| - 1]] == xs;
    }
  }

  /** `[x.lower() for x in xs]`: one lower-case entry per input, of the same length. */
  function LowerAll(xs: seq<string>): (r: seq<string>)
    ensures |r| == |xs|
    ensures forall t :: 0 <= t < |r| ==> IsLowerCase(r[t]) && |r[t]| == |xs[t]|
    ensures forall t :: 0 <= t < |r| ==> IsStripped(xs[t]) ==> IsStripped(r[t])
  {
    seq(|xs|, t requires 0 <= t < |xs| => Lower(xs[t]))
  }

  /** Lower-casing a list of lower-case entries changes nothing. */
  lemma LowerAllKeeps(xs: seq<string>)
    requires forall t :: 0 <= t < |xs| ==> IsLowerCase(xs[t])
    ensures LowerAll(xs) == xs
  {
    forall t | 0 <= t < |xs| ensures LowerAll(xs)[t] == xs[t] {
      assert IsLowerCase(xs[t]);
    }
  }

  const NoIngredients := HttpError(400, "At least one ingredient is required")

  /**
   * `[i.strip().lower() for i in raw if i.strip()]`, and the 400 error when
   * that list is empty.
   */
  function Normalize(raw: seq<string>): (r: Result<seq<string>, HttpError>)
    ensures r.Failure? <==> forall i :: 0 <= i < |raw| ==> AllSpace(raw[i])
    ensures r.Failure? ==> r.error == NoIngredients
    ensures r.Success? ==> forall t :: 0 <= t < |r.value| ==> IsNormalized(r.value[t])
    ensures r.Success? ==>
              && |r.value| == |NonBlankPositions(raw)|
              && forall t :: 0 <= t < |r.value| ==>
                   r.value[t] == Lower(Strip(raw[NonBlankPositions(raw)[t]]))
  {
    var kept := StrippedNonBlank(raw);
    StrippedNonBlankSelects(raw);
    var ks := NonBlankPositions(raw);
    var ings := LowerAll(kept);
    if ings == [] then
      assert forall i :: 0 <= i < |raw| ==> AllSpace(raw[i]) by {
        forall i | 0 <= i < |raw| ensures AllSpace(raw[i]) {
          assert !AllSpace(raw[i]) ==> i in ks;
        }
      }
      Failure(NoIngredients)
    else
      assert !AllSpace(raw[ks[0]]);
      Success(ings)
  }

  /** Normalising an already normalised list changes nothing. */
  lemma NormalizeIdempotent(raw: seq<string>)
    requires Normalize(raw).Success?
    ensures Normalize(Normalize(raw).value) == Normalize(raw)
  {
    var ings := Normalize(raw).value;
    StrippedNonBlankKeeps(ings);
    LowerAllKeeps(ings);
    assert LowerAll(StrippedNonBlank(ings)) == ings;
  }
}
