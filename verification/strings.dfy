/** Python `str` operations the pipeline relies on: ordering (used by
    `sort_values` on the package column), `startswith`, `endswith` and plain
    substring search. Strings are sequences of code points. */
module Strings {

  /** Python's `a < b` on strings: code-point lexicographic order, a proper
      prefix sorting first. */
  predicate StringLess(a: string, b: string)
    decreases |a|
  {
    if |a| == 0 then |b| > 0
    else if |b| == 0 then false
    else if a[0] != b[0] then a[0] < b[0]
    else StringLess(a[1..], b[1..])
  }

  lemma {:induction false} StringLessIrreflexive(a: string)
    ensures !StringLess(a, a)
    decreases |a|
  {
    if |a| > 0 {
      StringLessIrreflexive(a[1..]);
    }
  }

  lemma {:induction false} StringLessTransitive(a: string, b: string, c: string)
    requires StringLess(a, b) && StringLess(b, c)
    ensures StringLess(a, c)
    decreases |a|
  {
    if |a| > 0 && a[0] == b[0] && b[0] == c[0] {
      StringLessTransitive(a[1..], b[1..], c[1..]);
    }
  }

  /** Any two different strings are ordered one way or the other. */
  lemma {:induction false} StringLessTotal(a: string, b: string)
    requires a != b
    ensures StringLess(a, b) || StringLess(b, a)
    decreases |a|
  {
    if |a| > 0 && |b| > 0 && a[0] == b[0] {
      assert a == [a[0]] + a[1..] && b == [b[0]] + b[1..];
      StringLessTotal(a[1..], b[1..]);
    }
  }

  /** `s.startswith(p)`. */
  predicate StartsWith(s: string, p: string) {
    |p| <= |s| && s[..|p|] == p
  }

  /** `s.endswith(p)`. */
  predicate EndsWith(s: string, p: string) {
    |p| <= |s| && s[|s| - |p|..] == p
  }

  /** `w in s`: try every start position from left to right. */
  predicate ContainsWord(s: string, w: string)
    decreases |s|
  {
    StartsWith(s, w) || (|s| > 0 && ContainsWord(s[1..], w))
  }

  /** `p` is a prefix of `s` exactly when `s` is `p` followed by something. */
  lemma StartsWithMeansPrefix(s: string, p: string)
    ensures StartsWith(s, p) <==> exists rest :: s == p + rest
  {
    if StartsWith(s, p) {
      assert s == p + s[|p|..];
    }
  }

  /** `p` is a suffix of `s` exactly when `s` is something followed by `p`. */
  lemma EndsWithMeansSuffix(s: string, p: string)
    ensures EndsWith(s, p) <==> exists head :: s == head + p
  {
    if EndsWith(s, p) {
      assert s == s[..|s| - |p|] + p;
    }
    if exists head :: s == head + p {
      var head :| s == head + p;
      assert s[|s| - |p|..] == p;
    }
  }

  /** `w` occurs in `s` starting at position `i`. */
  predicate OccursAt(w: string, s: string, i: int) {
    0 <= i <= |s| - |w| && s[i..i + |w|] == w
  }

  /** `w` occurs in `s` at some start position. */
  ghost predicate OccursIn(w: string, s: string) {
    exists i :: OccursAt(w, s, i)
  }

  /** The left-to-right scan answers exactly whether `w` occurs somewhere in `s`. */
  lemma ContainsWordMeansOccurs(s: string, w: string)
    ensures ContainsWord(s, w) <==> OccursIn(w, s)
  {
    if ContainsWord(s, w) {
      var i := ContainsWordPosition(s, w);
      assert OccursAt(w, s, i);
    }
    if OccursIn(w, s) {
      var i :| OccursAt(w, s, i);
      OccurrenceIsFound(s, w, i);
    }
  }

  lemma {:induction false} ContainsWordPosition(s: string, w: string) returns (i: nat)
    requires ContainsWord(s, w)
    ensures i <= |s| - |w| && s[i..i + |w|] == w
    decreases |s|
  {
    if StartsWith(s, w) {
      i := 0;
    } else {
      var k := ContainsWordPosition(s[1..], w);
      assert s[1..][k..k + |w|] == s[k + 1..k + 1 + |w|];
      i := k + 1;
    }
  }

  lemma {:induction false} OccurrenceIsFound(s: string, w: string, i: nat)
    requires i <= |s| - |w| && s[i..i + |w|] == w
    ensures ContainsWord(s, w)
    decreases i
  {
    if i > 0 {
      assert s[1..][i - 1..i - 1 + |w|] == s[i..i + |w|];
      OccurrenceIsFound(s[1..], w, i - 1);
    }
  }
}
