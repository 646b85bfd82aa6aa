/**
 * The fallback of the AI recipe endpoint when the model's reply is not bare
 * JSON: take the text between the first "```json" and the next "```",
 * stripped, or fail with the message of the `JSONDecodeError` it raises.
 */
module Fence {
  import opened Wrappers
  import opened Text

  const Open := "```json"
  const Close := "```"

  const InvalidFormat := "Invalid JSON format"
  const NoJson := "No JSON found"

  /** A fence found inside the stripped text would be one before `end`, contradicting `Find`. */
  lemma NoCloseInside(reply: string, start: nat, end: nat)
    requires start < end && end == Find(reply, Close, start)
    ensures !Contains(Strip(reply[start..end]), Close)
  {
    var seg := reply[start..end];
    var a := SkipSpaces(seg, 0);
    var b := SkipSpacesBack(seg, a, |seg|);
    if Contains(Strip(seg), Close) {
      ContainsInSlice(seg, a, b, Close);
      var k: nat :| a <= k && k + |Close| <= b && OccursAt(seg, Close, k);
      ContainsInSlice(reply, start, end, Close);
      assert false;
    }
  }

  /**
   * The extraction in `generate_ai_recipes`: `Failure(msg)` is the
   * `JSONDecodeError(msg, ...)` it raises. A text it extracts is stripped
   * and holds no "```".
   */
  function ExtractFenced(reply: string): (r: Result<string, string>)
    ensures r == Failure(InvalidFormat) <==> !Contains(reply, Open)
    ensures r.Failure? ==> r.error == InvalidFormat || r.error == NoJson
    ensures r.Success? ==> IsStripped(r.value) && !Contains(r.value, Close)
  {
    if !Contains(reply, Open) then Failure(InvalidFormat)
    else
      var start := Find(reply, Open, 0) + 7;
      var end := Find(reply, Close, start);
      if end > start then
        NoCloseInside(reply, start, end);
        Success(Strip(reply[start..end]))
      else
        Failure(NoJson)
  }

  /** `p` is where the first "```json" of `reply` starts. */
  predicate FirstOpenAt(reply: string, p: nat) {
    OccursAt(reply, Open, p) && forall i: nat :: i < p ==> !OccursAt(reply, Open, i)
  }

  /** `e` is where the first "```" at or after `s` starts. */
  predicate FirstCloseFrom(reply: string, s: nat, e: nat) {
    s <= e && OccursAt(reply, Close, e) && forall i: nat :: s <= i < e ==> !OccursAt(reply, Close, i)
  }

  /** `e` is where the first "```" after the "```json" at `p` starts, and it leaves text between them. */
  predicate ClosesAfter(reply: string, p: nat, e: nat) {
    p + 7 < e && FirstCloseFrom(reply, p + 7, e)
  }

  /**
   * Given where the first "```json" is, the extraction succeeds exactly when
   * the next "```" does not follow it directly, and returns the stripped
   * text between the two.
   */
  lemma ExtractFencedBetween(reply: string, p: nat)
    requires FirstOpenAt(reply, p)
    ensures ExtractFenced(reply).Success? <==> exists e: nat :: ClosesAfter(reply, p, e)
    ensures forall e: nat :: ClosesAfter(reply, p, e) ==>
              ExtractFenced(reply) == Success(Strip(reply[p + 7..e]))
    ensures ExtractFenced(reply).Failure? ==> ExtractFenced(reply).error == NoJson
  {
    assert Contains(reply, Open);
    assert Find(reply, Open, 0) == p;
    var s := p + 7;
    var end := Find(reply, Close, s);
    if end > s {
      assert ClosesAfter(reply, p, end);
    }
    forall e: nat | ClosesAfter(reply, p, e) ensures end == e {
    }
  }

  /** No fence starts where the text has no backtick. */
  lemma NoFenceWithoutTick(reply: string, pat: string, lo: nat, hi: nat)
    requires pat != [] && pat[0] == '`'
    requires forall i :: lo <= i < hi && i < |reply| ==> reply[i] != '`'
    ensures forall i: nat :: lo <= i < hi ==> !OccursAt(reply, pat, i)
  {
  }

  /**
   * A reply that wraps a backtick-free text in a "```json" fence after a
   * backtick-free preamble gives back that text, stripped.
   */
  lemma ExtractFencedWrapped(pre: string, body: string, post: string)
    requires '`' !in pre && '`' !in body && body != ""
    ensures ExtractFenced(pre + Open + body + Close + post) == Success(Strip(body))
  {
    var head := pre + Open;
    var mid := head + body;
    var reply := mid + Close + post;
    var p := |pre|;
    var s := p + 7;
    var e := s + |body|;
    assert reply[..|mid|] == mid;
    assert reply[p..s] == Open by {
      assert mid[..|head|] == head;
    }
    assert forall i :: 0 <= i < p ==> reply[i] == pre[i] by {
      assert mid[..|head|] == head;
    }
    NoFenceWithoutTick(reply, Open, 0, p);
    assert FirstOpenAt(reply, p);
    assert reply[e..e + 3] == Close;
    assert reply[s..e] == body;
    assert forall i :: s <= i < e ==> reply[i] == body[i - s];
    NoFenceWithoutTick(reply, Close, s, e);
    assert ClosesAfter(reply, p, e);
    ExtractFencedBetween(reply, p);
  }

  /** A fence closed straight after it opens holds nothing, which is the "No JSON found" error. */
  lemma ExtractFencedEmpty(pre: string, post: string)
    requires '`' !in pre
    ensures ExtractFenced(pre + Open + Close + post) == Failure(NoJson)
  {
    var head := pre + Open;
    var mid := head + Close;
    var reply := mid + post;
    var p := |pre|;
    assert reply[..|mid|] == mid;
    assert reply[p..p + 7] == Open by {
      assert mid[..|head|] == head;
    }
    assert forall i :: 0 <= i < p ==> reply[i] == pre[i] by {
      assert mid[..|head|] == head;
    }
    NoFenceWithoutTick(reply, Open, 0, p);
    assert FirstOpenAt(reply, p);
    assert OccursAt(reply, Close, p + 7) by {
      assert reply[p + 7..p + 10] == mid[|head|..];
    }
    ExtractFencedBetween(reply, p);
  }
}
