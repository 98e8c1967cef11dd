/** Small sequence toolkit shared by the release and dependency pipelines:
    element-wise mapping, order-preserving filtering (a dataframe row mask),
    first-occurrence deduplication (`drop_duplicates` on one column), and the
    facts about permutations the ranking proofs rest on. */
module Seqs {

  /** Apply `f` to every element, keeping positions. */
  function Map<A, B>(f: A -> B, s: seq<A>): (r: seq<B>)
    ensures |r| == |s|
    ensures forall i :: 0 <= i < |s| ==> r[i] == f(s[i])
  {
    seq(|s|, i requires 0 <= i < |s| => f(s[i]))
  }

  /** The sequence 1, 2, ..., n: the values of a 1-based running count. */
  function Iota(n: nat): (r: seq<nat>)
    ensures |r| == n
    ensures forall i :: 0 <= i < n ==> r[i] == i + 1
  {
    seq(n, i requires 0 <= i < n => i + 1)
  }

  /** A column holding `n` ones, as `assign(N=1).N` adds to an `n`-row frame. */
  function Ones(n: nat): (r: seq<int>)
    ensures |r| == n
    ensures forall i :: 0 <= i < n ==> r[i] == 1
  {
    seq(n, _ => 1)
  }

  /** The sum of the entries of `xs`. */
  function Sum(xs: seq<int>): int {
    if |xs| == 0 then 0 else xs[0] + Sum(xs[1..])
  }

  /** The running totals of `xs`, continued from `start`. */
  function CumSumFrom(start: int, xs: seq<int>): (r: seq<int>)
    ensures |r| == |xs|
    decreases |xs|
  {
    if |xs| == 0 then [] else [start + xs[0]] + CumSumFrom(start + xs[0], xs[1..])
  }

  /** `Series.cumsum()`: the running totals of a column, from the top. */
  function CumSum(xs: seq<int>): (r: seq<int>)
    ensures |r| == |xs|
  {
    CumSumFrom(0, xs)
  }

  /** Entry `i` of the running totals is the sum of the first `i + 1` entries. */
  lemma CumSumIsPrefixSum(xs: seq<int>)
    ensures forall i :: 0 <= i < |xs| ==> CumSum(xs)[i] == Sum(xs[..i + 1])
  {
    forall i | 0 <= i < |xs| ensures CumSum(xs)[i] == Sum(xs[..i + 1]) {
      CumSumFromIsPrefixSum(0, xs, i);
    }
  }

  lemma {:induction false} CumSumFromIsPrefixSum(start: int, xs: seq<int>, i: nat)
    requires i < |xs|
    ensures CumSumFrom(start, xs)[i] == start + Sum(xs[..i + 1])
    decreases i
  {
    if i == 0 {
      assert xs[..1] == [xs[0]];
      assert Sum([xs[0]]) == xs[0] + Sum([]);
    } else {
      CumSumFromIsPrefixSum(start + xs[0], xs[1..], i - 1);
      assert xs[..i + 1][1..] == xs[1..][..i];
      assert CumSumFrom(start, xs)[i] == CumSumFrom(start + xs[0], xs[1..])[i - 1];
    }
  }

  /** The running count of a column of ones is the 1-based row position. */
  lemma CumSumOfOnes(n: nat)
    ensures forall i :: 0 <= i < n ==> CumSum(Ones(n))[i] == i + 1
  {
    forall i | 0 <= i < n ensures CumSum(Ones(n))[i] == i + 1 {
      CumSumFromOnes(0, n, i);
    }
  }

  lemma {:induction false} CumSumFromOnes(start: int, n: nat, i: nat)
    requires i < n
    ensures CumSumFrom(start, Ones(n))[i] == start + i + 1
    decreases i
  {
    if i > 0 {
      assert Ones(n)[1..] == Ones(n - 1);
      CumSumFromOnes(start + 1, n - 1, i - 1);
      assert CumSumFrom(start, Ones(n))[i] == CumSumFrom(start + 1, Ones(n)[1..])[i - 1];
    }
  }

  ghost predicate NoDuplicates<T>(s: seq<T>) {
    forall i, j :: 0 <= i < j < |s| ==> s[i] != s[j]
  }

  /** Keep the elements satisfying `keep`, in their original order. Every kept
      value keeps its full multiplicity and every other value disappears. */
  function Filter<T(!new)>(s: seq<T>, keep: T -> bool): (r: seq<T>)
    ensures forall x :: multiset(r)[x] == if keep(x) then multiset(s)[x] else 0
    ensures forall x :: x in r <==> x in s && keep(x)
    ensures |r| <= |s|
  {
    if |s| == 0 then []
    else
      assert s == [s[0]] + s[1..];
      (if keep(s[0]) then [s[0]] else []) + Filter(s[1..], keep)
  }

  /** Filtering a non-empty sequence: its head counts once when kept. */
  lemma FilterLength<T(!new)>(s: seq<T>, keep: T -> bool)
    requires |s| > 0
    ensures |Filter(s, keep)| == (if keep(s[0]) then 1 else 0) + |Filter(s[1..], keep)|
  {
  }

  /** The distinct values of `s`, each at the position of its first occurrence. */
  function Distinct<T(==,!new)>(s: seq<T>): (r: seq<T>)
    ensures forall x :: x in r <==> x in s
    ensures NoDuplicates(r)
  {
    if |s| == 0 then []
    else
      var r := Distinct(s[..|s| - 1]);
      assert s == s[..|s| - 1] + [s[|s| - 1]];
      if s[|s| - 1] in r then r else r + [s[|s| - 1]]
  }

  /** A sequence has no distinct values exactly when it is empty. */
  lemma DistinctIsEmptyOnlyWhenEmpty<T(!new)>(s: seq<T>)
    ensures |Distinct(s)| == 0 <==> |s| == 0
  {
    if |s| > 0 {
      assert s[0] in Distinct(s);
    }
  }

  lemma MapAppend<A, B>(f: A -> B, s: seq<A>, t: seq<A>)
    ensures Map(f, s + t) == Map(f, s) + Map(f, t)
  {
  }

  /** Mapping the same function over two permutations of each other yields two
      permutations of each other. */
  lemma {:induction false} MapPreservesPermutation<A, B>(f: A -> B, s: seq<A>, t: seq<A>)
    requires multiset(s) == multiset(t)
    ensures multiset(Map(f, s)) == multiset(Map(f, t))
    decreases |s|
  {
    if |s| == 0 {
      assert |t| == |multiset(t)| == 0;
    } else {
      var x := s[0];
      assert x in multiset(t);
      var k :| 0 <= k < |t| && t[k] == x;
      var t' := t[..k] + t[k + 1..];
      assert t == t[..k] + [x] + t[k + 1..];
      assert s == [x] + s[1..];
      assert multiset(t) == multiset(t[..k]) + multiset{x} + multiset(t[k + 1..]);
      assert multiset(t') == multiset(t[..k]) + multiset(t[k + 1..]);
      assert multiset(s) == multiset{x} + multiset(s[1..]);
      assert multiset(t') == multiset(t) - multiset{x};
      assert multiset(s[1..]) == multiset(s) - multiset{x};
      MapPreservesPermutation(f, s[1..], t');
      MapAppend(f, [x], s[1..]);
      MapAppend(f, t[..k] + [x], t[k + 1..]);
      MapAppend(f, t[..k], [x]);
      MapAppend(f, t[..k], t[k + 1..]);
    }
  }

  /** A sequence has no repeated value exactly when every value occurs at most once. */
  lemma NoDuplicatesCounts<T>(s: seq<T>)
    ensures NoDuplicates(s) <==> forall x :: multiset(s)[x] <= 1
  {
    if NoDuplicates(s) {
      NoDuplicatesCountsAtMostOne(s);
    }
    if forall x :: multiset(s)[x] <= 1 {
      forall i, j | 0 <= i < j < |s| ensures s[i] != s[j] {
        assert s == s[..i] + [s[i]] + s[i + 1..j] + [s[j]] + s[j + 1..];
        assert multiset(s) == multiset(s[..i]) + multiset{s[i]} + multiset(s[i + 1..j]) + multiset{s[j]} + multiset(s[j + 1..]);
        assert multiset(s)[s[j]] >= multiset{s[i]}[s[j]] + 1;
      }
    }
  }

  lemma {:induction false} NoDuplicatesCountsAtMostOne<T>(s: seq<T>)
    requires NoDuplicates(s)
    ensures forall x :: multiset(s)[x] <= 1
  {
    if |s| > 0 {
      var tail := s[1..];
      assert NoDuplicates(tail) by {
        forall i, j | 0 <= i < j < |tail| ensures tail[i] != tail[j] {
          assert tail[i] == s[i + 1] && tail[j] == s[j + 1];
        }
      }
      NoDuplicatesCountsAtMostOne(tail);
      assert s == [s[0]] + tail;
      assert multiset(s) == multiset{s[0]} + multiset(tail);
      assert s[0] !in tail;
    }
  }

  /** Rearranging a sequence cannot create or remove a repeated value. */
  lemma PermutationKeepsNoDuplicates<T>(s: seq<T>, t: seq<T>)
    requires multiset(s) == multiset(t)
    requires NoDuplicates(s)
    ensures NoDuplicates(t)
  {
    NoDuplicatesCounts(s);
    NoDuplicatesCounts(t);
  }
}
