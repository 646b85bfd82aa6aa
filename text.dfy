/**
 * The Python `str` operations the search pipeline relies on, over ASCII text:
 * `s.strip()`, `s.lower()`, `s.split(sep)`, `sep.join(parts)`, `pat in s`,
 * `s.find(pat, start)` and `str(n)` for a natural number.
 */
module Text {

  /** `c.isspace()` for an ASCII character: space, \t \n \v \f \r and the separators \x1c-\x1f. */
  predicate IsSpace(c: char) {
    c == ' ' || ('\U{9}' <= c <= '\U{d}') || ('\U{1c}' <= c <= '\U{1f}')
  }

  predicate AllSpace(s: string) {
    forall i :: 0 <= i < |s| ==> IsSpace(s[i])
  }

  /** Neither starts nor ends with whitespace: what `strip()` returns. */
  predicate IsStripped(s: string) {
    s == [] || (!IsSpace(s[0]) && !IsSpace(s[|s| - 1]))
  }

  predicate IsUpper(c: char) {
    'A' <= c <= 'Z'
  }

  /** Holds no upper-case letter: what `lower()` returns. */
  predicate IsLowerCase(s: string) {
    forall i :: 0 <= i < |s| ==> !IsUpper(s[i])
  }

  function LowerChar(c: char): (d: char)
    ensures !IsUpper(d)
    ensures IsSpace(d) <==> IsSpace(c)
    ensures !IsUpper(c) ==> d == c
  {
    if IsUpper(c) then (c as int + 32) as char else c
  }

  /** `s.lower()`: each letter A-Z becomes its lower-case letter, every other character stays. */
  function Lower(s: string): (r: string)
    ensures |r| == |s| && IsLowerCase(r)
    ensures forall i :: 0 <= i < |s| ==>
              (IsUpper(s[i]) ==> r[i] as int == s[i] as int + 32) && (!IsUpper(s[i]) ==> r[i] == s[i])
    ensures IsLowerCase(s) ==> r == s
    ensures IsStripped(s) ==> IsStripped(r)
    ensures r == [] <==> s == []
  {
    seq(|s|, i requires 0 <= i < |s| => LowerChar(s[i]))
  }

  /** The index of the first non-space character of `s` at or after `i`, or `|s|`. */
  function SkipSpaces(s: string, i: nat): (k: nat)
    requires i <= |s|
    ensures i <= k <= |s|
    ensures forall m :: i <= m < k ==> IsSpace(s[m])
    ensures k < |s| ==> !IsSpace(s[k])
    decreases |s| - i
  {
    if i < |s| && IsSpace(s[i]) then SkipSpaces(s, i + 1) else i
  }

  /** The index just after the last non-space character of `s[lo..j]`, or `lo`. */
  function SkipSpacesBack(s: string, lo: nat, j: nat): (k: nat)
    requires lo <= j <= |s|
    ensures lo <= k <= j
    ensures forall m :: k <= m < j ==> IsSpace(s[m])
    ensures k > lo ==> !IsSpace(s[k - 1])
  {
    if j > lo && IsSpace(s[j - 1]) then SkipSpacesBack(s, lo, j - 1) else j
  }

  /**
   * `s.strip()`: `s` without its leading and trailing whitespace; empty
   * exactly when `s` is all whitespace.
   */
  function Strip(s: string): (r: string)
    ensures IsStripped(r)
    ensures r == [] <==> AllSpace(s)
    ensures IsStripped(s) ==> r == s
  {
    var a := SkipSpaces(s, 0);
    s[a..SkipSpacesBack(s, a, |s|)]
  }

  /** What `strip()` removes is whitespace at the two ends: the result is an infix of `s`. */
  lemma StripIsInfix(s: string)
    ensures var r := Strip(s);
      exists i :: 0 <= i <= |s| - |r| && r == s[i..i + |r|] && AllSpace(s[..i]) && AllSpace(s[i + |r|..])
  {
    var a := SkipSpaces(s, 0);
    var b := SkipSpacesBack(s, a, |s|);
    assert AllSpace(s[..a]);
    assert AllSpace(s[b..]);
  }

  /** `pat` occurs in `s` at index `i`. */
  predicate OccursAt(s: string, pat: string, i: nat) {
    i + |pat| <= |s| && s[i..i + |pat|] == pat
  }

  /** Python's `pat in s`: the empty pattern is in every text, and a longer pattern than the text is in none. */
  predicate Contains(s: string, pat: string): (b: bool)
    ensures pat == [] ==> b
    ensures b ==> |pat| <= |s|
  {
    assert pat == [] ==> OccursAt(s, pat, 0);
    exists i: nat :: i <= |s| && OccursAt(s, pat, i)
  }

  /** `s.find(pat, start)`: the least index at or after `start` where `pat` occurs, or -1. */
  function Find(s: string, pat: string, start: nat): (r: int)
    ensures r == -1 <==> forall i: nat :: start <= i ==> !OccursAt(s, pat, i)
    ensures r != -1 ==> start <= r && OccursAt(s, pat, r)
    ensures r != -1 ==> forall i: nat :: start <= i < r ==> !OccursAt(s, pat, i)
    decreases |s| - start
  {
    if start > |s| then -1
    else if OccursAt(s, pat, start) then start
    else if start == |s| then -1
    else Find(s, pat, start + 1)
  }

  /** `s.split(sep)` for a one-character separator: the pieces between separators, at least one. */
  function Split(s: string, sep: char): (parts: seq<string>)
    ensures |parts| >= 1
    ensures forall p :: p in parts ==> sep !in p
  {
    if s == [] then [[]]
    else
      var rest := Split(s[1..], sep);
      if s[0] == sep then [[]] + rest else [[s[0]] + rest[0]] + rest[1..]
  }

  /**
   * `sep.join(parts)`: empty for no parts, the part itself for one, and
   * otherwise the first part, then the separator, then the rest.
   */
  function Join(parts: seq<string>, sep: string): (r: string)
    ensures parts == [] ==> r == []
    ensures |parts| == 1 ==> r == parts[0]
    ensures |parts| >= 1 ==> parts[0] <= r
  {
    if parts == [] then []
    else if |parts| == 1 then parts[0]
    else parts[0] + sep + Join(parts[1..], sep)
  }

  /** Joining a first part before further parts puts the separator between them. */
  lemma JoinCons(p: string, rest: seq<string>, sep: string)
    requires rest != []
    ensures Join([p] + rest, sep) == p + sep + Join(rest, sep)
  {
    assert ([p] + rest)[1..] == rest;
  }

  /** Joining the pieces of a split with the separator gives back the text. */
  lemma {:induction false} JoinSplit(s: string, sep: char)
    ensures Join(Split(s, sep), [sep]) == s
  {
    if s != [] {
      var rest := Split(s[1..], sep);
      JoinSplit(s[1..], sep);
      assert s == [s[0]] + s[1..];
      if s[0] == sep {
        JoinCons([], rest, [sep]);
      } else if |rest| == 1 {
        assert Split(s, sep) == [[s[0]] + rest[0]];
      } else {
        assert rest == [rest[0]] + rest[1..];
        JoinCons(rest[0], rest[1..], [sep]);
        JoinCons([s[0]] + rest[0], rest[1..], [sep]);
      }
    }
  }

  /** A separator-free piece followed by the separator splits off as one piece. */
  lemma {:induction false} SplitAfterPiece(p: string, sep: char, t: string)
    requires sep !in p
    ensures Split(p + [sep] + t, sep) == [p] + Split(t, sep)
  {
    if p == [] {
      assert ([sep] + t)[1..] == t;
    } else {
      SplitAfterPiece(p[1..], sep, t);
      assert p[0] in p;
      assert (p + [sep] + t)[1..] == p[1..] + [sep] + t;
      assert [p[0]] + p[1..] == p;
    }
  }

  /** A separator-free text splits into itself alone. */
  lemma {:induction false} SplitOfPiece(p: string, sep: char)
    requires sep !in p
    ensures Split(p, sep) == [p]
  {
    if p != [] {
      SplitOfPiece(p[1..], sep);
      assert p[0] in p;
      assert [p[0]] + p[1..] == p;
    }
  }

  /** Splitting a join of separator-free pieces gives back the pieces. */
  lemma {:induction false} SplitJoin(parts: seq<string>, sep: char)
    requires |parts| >= 1
    requires forall p :: p in parts ==> sep !in p
    ensures Split(Join(parts, [sep]), sep) == parts
  {
    if |parts| == 1 {
      SplitOfPiece(parts[0], sep);
    } else {
      SplitJoin(parts[1..], sep);
      SplitAfterPiece(parts[0], sep, Join(parts[1..], [sep]));
    }
  }

  function DigitChar(d: nat): char
    requires d < 10
  {
    ('0' as int + d) as char
  }

  predicate IsDigits(s: string) {
    forall i :: 0 <= i < |s| ==> '0' <= s[i] <= '9'
  }

  /** `str(n)` for a natural number: its decimal digits without leading zeros. */
  function Decimal(n: nat): (s: string)
    ensures |s| >= 1 && IsDigits(s)
    ensures |s| > 1 ==> s[0] != '0'
  {
    if n < 10 then [DigitChar(n)] else Decimal(n / 10) + [DigitChar(n % 10)]
  }

  /** The number a string of decimal digits denotes (`int(s)`). */
  function DecimalValue(s: string): nat
    requires IsDigits(s)
  {
    if s == [] then 0 else DecimalValue(s[..|s| - 1]) * 10 + (s[|s| - 1] as int - '0' as int)
  }

  /** `int(str(n)) == n`, so distinct numbers give distinct strings. */
  lemma {:induction false} DecimalRoundTrip(n: nat)
    ensures DecimalValue(Decimal(n)) == n
  {
    if n >= 10 {
      DecimalRoundTrip(n / 10);
      var s := Decimal(n);
      assert s[..|s| - 1] == Decimal(n / 10);
    }
  }
  /** Each part occurs in the joined text, at the offset where the join places it. */
  lemma {:induction false} JoinHasPart(parts: seq<string>, sep: string, k: nat)
    requires k < |parts|
    ensures exists o: nat :: OccursAt(Join(parts, sep), parts[k], o)
  {
    if |parts| > 1 {
      var rest := Join(parts[1..], sep);
      var j := Join(parts, sep);
      assert j == parts[0] + sep + rest;
      if k == 0 {
        assert OccursAt(j, parts[0], 0) by {
          assert j[0..|parts[0]|] == parts[0];
        }
      } else {
        JoinHasPart(parts[1..], sep, k - 1);
        var o: nat :| OccursAt(rest, parts[1..][k - 1], o);
        var off := |parts[0]| + |sep|;
        assert j[off + o..off + o + |parts[k]|] == rest[o..o + |parts[k]|];
        assert OccursAt(j, parts[k], off + o);
      }
    } else {
      assert OccursAt(Join(parts, sep), parts[k], 0) by {
        assert Join(parts, sep)[0..|parts[k]|] == parts[k];
      }
    }
  }

  /** An occurrence in a slice of `s` is an occurrence in `s`, inside the slice's bounds. */
  lemma ContainsInSlice(s: string, a: nat, b: nat, pat: string)
    requires a <= b <= |s| && Contains(s[a..b], pat)
    ensures exists k: nat :: a <= k && k + |pat| <= b && OccursAt(s, pat, k)
  {
    var j: nat :| j <= b - a && OccursAt(s[a..b], pat, j);
    forall t | 0 <= t < |pat| ensures s[a + j + t] == pat[t] {
      assert pat[t] == s[a..b][j..j + |pat|][t];
    }
    assert s[a + j..a + j + |pat|] == pat;
    assert OccursAt(s, pat, a + j);
  }

  /** A text without some character of `pat` does not contain `pat`. */
  lemma MissingCharNotContained(s: string, pat: string, c: char)
    requires c in pat && c !in s
    ensures !Contains(s, pat)
  {
    var m :| 0 <= m < |pat| && pat[m] == c;
    forall i: nat | i <= |s| ensures !OccursAt(s, pat, i) {
      if i + |pat| <= |s| {
        assert s[i..i + |pat|][m] == s[i + m];
      }
    }
  }

  /** Every part occurs in the joined text. */
  lemma JoinHasParts(parts: seq<string>, sep: string)
    ensures forall k :: 0 <= k < |parts| ==> Contains(Join(parts, sep), parts[k])
  {
    forall k | 0 <= k < |parts| ensures Contains(Join(parts, sep), parts[k]) {
      JoinHasPart(parts, sep, k);
    }
  }

  /** `a in b` and `b in c` give `a in c`. */
  lemma ContainsTransitive(c: string, b: string, a: string)
    requires Contains(c, b) && Contains(b, a)
    ensures Contains(c, a)
  {
    var i: nat :| i <= |c| && OccursAt(c, b, i);
    var j: nat :| j <= |b| && OccursAt(b, a, j);
    assert b == c[i..i + |b|];
    forall t | 0 <= t < |a| ensures c[i + j + t] == a[t] {
      assert a[t] == b[j + t];
    }
    assert c[i + j..i + j + |a|] == a;
    assert OccursAt(c, a, i + j);
  }
}
