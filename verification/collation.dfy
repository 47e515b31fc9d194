/** The drop-down option lists: `[...new Set(values)].filter(Boolean).sort()`.
    Strings compare as `Array.prototype.sort` compares them by default,
    character by character, a proper prefix first. */
module Collation {
  import opened Seqs

  /** `a` sorts strictly before `b`. */
  predicate Less(a: string, b: string)
    decreases |a|
  {
    if |a| == 0 then |b| > 0
    else if |b| == 0 then false
    else if a[0] != b[0] then a[0] < b[0]
    else Less(a[1..], b[1..])
  }

  predicate LessEq(a: string, b: string) {
    a == b || Less(a, b)
  }

  lemma {:induction false} LessIrreflexive(a: string)
    ensures !Less(a, a)
    decreases |a|
  {
    if |a| > 0 {
      LessIrreflexive(a[1..]);
    }
  }

  lemma {:induction false} LessTransitive(a: string, b: string, c: string)
    requires Less(a, b) && Less(b, c)
    ensures Less(a, c)
    decreases |a|
  {
    if |a| > 0 && a[0] == b[0] && b[0] == c[0] {
      LessTransitive(a[1..], b[1..], c[1..]);
    }
  }

  /** Any two different strings are ordered one way or the other. */
  lemma {:induction false} LessTotal(a: string, b: string)
    ensures a == b || Less(a, b) || Less(b, a)
    decreases |a|
  {
    if |a| > 0 && |b| > 0 && a[0] == b[0] {
      LessTotal(a[1..], b[1..]);
      if a[1..] == b[1..] {
        assert a == [a[0]] + a[1..] && b == [b[0]] + b[1..];
      }
    }
  }

  lemma LessAsymmetric(a: string, b: string)
    ensures !(Less(a, b) && Less(b, a))
  {
    if Less(a, b) && Less(b, a) {
      LessTransitive(a, b, a);
      LessIrreflexive(a);
    }
  }

  lemma LessEqTransitive(a: string, b: string, c: string)
    requires LessEq(a, b) && LessEq(b, c)
    ensures LessEq(a, c)
  {
    if a != b && b != c {
      LessTransitive(a, b, c);
    }
  }

  predicate Sorted(s: seq<string>) {
    forall i, j | 0 <= i < j < |s| :: LessEq(s[i], s[j])
  }

  predicate StrictlySorted(s: seq<string>) {
    forall i, j | 0 <= i < j < |s| :: Less(s[i], s[j])
  }

  /** `x` placed into sorted `s` before the first element it does not follow. */
  function Insert(x: string, s: seq<string>): (r: seq<string>)
    requires Sorted(s)
    ensures Sorted(r)
    ensures multiset(r) == multiset(s) + multiset{x}
    decreases |s|
  {
    if |s| == 0 then [x]
    else if LessEq(x, s[0]) then
      var r := [x] + s;
      assert s == [s[0]] + s[1..];
      forall j | 0 < j < |r| ensures LessEq(r[0], r[j]) {
        LessEqTransitive(x, s[0], r[j]);
      }
      r
    else
      LessTotal(x, s[0]);
      assert s == [s[0]] + s[1..];
      var rest := Insert(x, s[1..]);
      var r := [s[0]] + rest;
      forall j | 0 < j < |r| ensures LessEq(r[0], r[j]) {
        assert r[j] in multiset(rest);
        if r[j] != x {
          assert r[j] in s[1..];
        }
      }
      r
  }

  /** Insertion sort: a sorted permutation of `s`. */
  function Sort(s: seq<string>): (r: seq<string>)
    ensures Sorted(r)
    ensures multiset(r) == multiset(s)
    decreases |s|
  {
    if |s| == 0 then []
    else
      assert s == [s[0]] + s[1..];
      Insert(s[0], Sort(s[1..]))
  }

  /** The elements of `s` in order of first occurrence, each once (the
      iteration order of `new Set(s)`). */
  function Distinct<T(==)>(s: seq<T>): (r: seq<T>)
    ensures NoDuplicates(r)
    ensures forall k | 0 <= k < |r| :: r[k] in s
    ensures forall k | 0 <= k < |s| :: s[k] in r
    decreases |s|
  {
    if |s| == 0 then []
    else
      var init := s[..|s| - 1];
      var d := Distinct(init);
      assert forall k | 0 <= k < |s| - 1 :: s[k] == init[k];
      if s[|s| - 1] in d then d else d + [s[|s| - 1]]
  }

  lemma {:induction false} DistinctCount<T>(s: seq<T>, x: T)
    requires NoDuplicates(s)
    ensures multiset(s)[x] <= 1
    decreases |s|
  {
    if |s| > 0 {
      assert s == [s[0]] + s[1..];
      DistinctCount(s[1..], x);
      if x == s[0] {
        assert x !in s[1..];
      }
    }
  }

  /** Rearranging a duplicate-free sequence cannot create a duplicate. */
  lemma PermutationKeepsDistinct<T>(a: seq<T>, b: seq<T>)
    requires NoDuplicates(a) && multiset(a) == multiset(b)
    ensures NoDuplicates(b)
  {
    forall i, j | 0 <= i < j < |b| ensures b[i] != b[j] {
      if b[i] == b[j] {
        assert b == b[..j] + b[j..];
        assert b[i] in b[..j] && b[j] == b[j..][0];
        assert multiset(b)[b[i]] >= 2;
        DistinctCount(a, b[i]);
      }
    }
  }

  lemma SortedDistinctIsStrict(s: seq<string>)
    requires Sorted(s) && NoDuplicates(s)
    ensures StrictlySorted(s)
  {
  }

  /** `[...new Set(values)].filter(Boolean).sort()`: every non-empty value
      once, in ascending order. */
  function SelectOptions(values: seq<string>): (r: seq<string>)
    ensures StrictlySorted(r)
    ensures forall k | 0 <= k < |r| :: r[k] != "" && r[k] in values
    ensures forall k | 0 <= k < |values| && values[k] != "" :: values[k] in r
  {
    var d := Distinct(values);
    var present := Filter(d, (v: string) => v != "");
    var r := Sort(present);
    PermutationKeepsDistinct(present, r);
    SortedDistinctIsStrict(r);
    SameMembers(values, d, present, r);
    r
  }

  lemma SameMembers(values: seq<string>, d: seq<string>, present: seq<string>, r: seq<string>)
    requires forall k | 0 <= k < |d| :: d[k] in values
    requires forall k | 0 <= k < |values| :: values[k] in d
    requires forall k | 0 <= k < |present| :: present[k] in d && present[k] != ""
    requires forall k | 0 <= k < |d| && d[k] != "" :: d[k] in present
    requires multiset(r) == multiset(present)
    ensures forall k | 0 <= k < |r| :: r[k] != "" && r[k] in values
    ensures forall k | 0 <= k < |values| && values[k] != "" :: values[k] in r
  {
    forall k | 0 <= k < |r| ensures r[k] != "" && r[k] in values {
      assert r[k] in multiset(present);
      assert r[k] in present;
    }
    forall k | 0 <= k < |values| && values[k] != "" ensures values[k] in r {
      assert values[k] in d;
      assert values[k] in present;
      assert values[k] in multiset(r);
    }
  }

  /** The first element of a strictly ascending list precedes every other. */
  lemma HeadIsLeast(a: seq<string>, x: string)
    requires StrictlySorted(a) && |a| > 0 && x in a
    ensures LessEq(a[0], x)
  {
    var i :| 0 <= i < |a| && a[i] == x;
    if i > 0 {
      assert Less(a[0], a[i]);
    }
  }

  lemma SameHeads(a: seq<string>, b: seq<string>)
    requires StrictlySorted(a) && StrictlySorted(b) && |a| > 0 && |b| > 0
    requires a[0] in b && b[0] in a
    ensures a[0] == b[0]
  {
    HeadIsLeast(a, b[0]);
    HeadIsLeast(b, a[0]);
    LessAsymmetric(a[0], b[0]);
  }

  lemma TailsSameElements(a: seq<string>, b: seq<string>)
    requires StrictlySorted(a) && StrictlySorted(b) && |a| > 0 && |b| > 0
    requires a[0] == b[0]
    requires forall k | 0 <= k < |a| :: a[k] in b
    ensures forall k | 0 <= k < |a| - 1 :: a[1..][k] in b[1..]
  {
    forall k | 0 <= k < |a| - 1 ensures a[1..][k] in b[1..] {
      var x := a[k + 1];
      assert Less(a[0], x);
      assert x in b;
      if x == b[0] {
        LessIrreflexive(x);
      } else {
        assert b == [b[0]] + b[1..];
      }
    }
  }

  /** Two strictly ascending lists with the same elements are the same list,
      so the options depend only on which values occur, not on their order. */
  lemma {:induction false} StrictlySortedUnique(a: seq<string>, b: seq<string>)
    requires StrictlySorted(a) && StrictlySorted(b)
    requires forall k | 0 <= k < |a| :: a[k] in b
    requires forall k | 0 <= k < |b| :: b[k] in a
    ensures a == b
    decreases |a|
  {
    assert |a| > 0 ==> a[0] in b;
    assert |b| > 0 ==> b[0] in a;
    if |a| > 0 && |b| > 0 {
      SameHeads(a, b);
      TailsSameElements(a, b);
      TailsSameElements(b, a);
      StrictlySortedUnique(a[1..], b[1..]);
      assert a == [a[0]] + a[1..] && b == [b[0]] + b[1..];
    }
  }

  /** The options computed from two value lists with the same non-empty
      values are equal. */
  lemma OptionsIgnoreOrder(xs: seq<string>, ys: seq<string>)
    requires forall k | 0 <= k < |xs| && xs[k] != "" :: xs[k] in ys
    requires forall k | 0 <= k < |ys| && ys[k] != "" :: ys[k] in xs
    ensures SelectOptions(xs) == SelectOptions(ys)
  {
    var a := SelectOptions(xs);
    var b := SelectOptions(ys);
    forall k | 0 <= k < |a| ensures a[k] in b {
      var m :| 0 <= m < |ys| && ys[m] == a[k];
    }
    forall k | 0 <= k < |b| ensures b[k] in a {
      var m :| 0 <= m < |xs| && xs[m] == b[k];
    }
    StrictlySortedUnique(a, b);
  }
}
