/** `Array.prototype.filter` and the facts about it the list pages rely on. */
module Seqs {

  /** `a` can be obtained from `b` by deleting elements, keeping the order. */
  predicate IsSubsequence<T(==)>(a: seq<T>, b: seq<T>)
    decreases |b|
  {
    if |a| == 0 then true
    else if |b| == 0 then false
    else (a[0] == b[0] && IsSubsequence(a[1..], b[1..])) || IsSubsequence(a, b[1..])
  }

  predicate NoDuplicates<T(==)>(s: seq<T>) {
    forall i, j | 0 <= i < j < |s| :: s[i] != s[j]
  }

  /** `s.filter(keep)`: the elements `keep` accepts, in their original order. */
  function Filter<T(==)>(s: seq<T>, keep: T -> bool): (r: seq<T>)
    ensures |r| <= |s|
    ensures forall k | 0 <= k < |r| :: r[k] in s && keep(r[k])
    ensures forall k | 0 <= k < |s| && keep(s[k]) :: s[k] in r
    ensures IsSubsequence(r, s)
    ensures (forall k | 0 <= k < |s| :: keep(s[k])) ==> r == s
    ensures NoDuplicates(s) ==> NoDuplicates(r)
    decreases |s|
  {
    if |s| == 0 then []
    else
      var rest := Filter(s[1..], keep);
      FilterStepMembers(s, keep, rest);
      FilterStepOrder(s, keep, rest);
      if keep(s[0]) then [s[0]] + rest else rest
  }

  /** One step of `Filter`: which elements the whole list keeps. */
  lemma FilterStepMembers<T>(s: seq<T>, keep: T -> bool, rest: seq<T>)
    requires |s| > 0
    requires |rest| <= |s| - 1
    requires forall k | 0 <= k < |rest| :: rest[k] in s[1..] && keep(rest[k])
    requires forall k | 0 <= k < |s| - 1 && keep(s[1..][k]) :: s[1..][k] in rest
    ensures var r := if keep(s[0]) then [s[0]] + rest else rest;
      && |r| <= |s|
      && (forall k | 0 <= k < |r| :: r[k] in s && keep(r[k]))
      && (forall k | 0 <= k < |s| && keep(s[k]) :: s[k] in r)
  {
    assert forall k | 1 <= k < |s| :: s[k] == s[1..][k - 1];
  }

  /** One step of `Filter`: the order and distinctness the whole list keeps. */
  lemma FilterStepOrder<T>(s: seq<T>, keep: T -> bool, rest: seq<T>)
    requires |s| > 0
    requires forall k | 0 <= k < |rest| :: rest[k] in s[1..]
    requires IsSubsequence(rest, s[1..])
    requires (forall k | 0 <= k < |s| - 1 :: keep(s[1..][k])) ==> rest == s[1..]
    requires NoDuplicates(s[1..]) ==> NoDuplicates(rest)
    ensures var r := if keep(s[0]) then [s[0]] + rest else rest;
      && IsSubsequence(r, s)
      && ((forall k | 0 <= k < |s| :: keep(s[k])) ==> r == s)
      && (NoDuplicates(s) ==> NoDuplicates(r))
  {
    assert forall k | 1 <= k < |s| :: s[k] == s[1..][k - 1];
    if keep(s[0]) {
      assert ([s[0]] + rest)[1..] == rest;
    }
  }

  /** `filter` keeps every copy of an accepted element and no copy of a
      rejected one. */
  lemma {:induction false} FilterKeepsCounts<T>(s: seq<T>, keep: T -> bool)
    ensures forall k | 0 <= k < |s| ::
              multiset(Filter(s, keep))[s[k]] == (if keep(s[k]) then multiset(s)[s[k]] else 0)
    decreases |s|
  {
    if |s| > 0 {
      FilterKeepsCounts(s[1..], keep);
      FilterCount(s, keep, Filter(s[1..], keep));
    }
  }

  /** The multiplicity fact for one step of `Filter`. */
  lemma FilterCount<T>(s: seq<T>, keep: T -> bool, rest: seq<T>)
    requires |s| > 0
    requires forall k | 0 <= k < |rest| :: rest[k] in s[1..]
    requires forall k | 0 <= k < |s| - 1 ::
               multiset(rest)[s[1..][k]] == (if keep(s[1..][k]) then multiset(s[1..])[s[1..][k]] else 0)
    ensures var r := if keep(s[0]) then [s[0]] + rest else rest;
      forall k | 0 <= k < |s| :: multiset(r)[s[k]] == (if keep(s[k]) then multiset(s)[s[k]] else 0)
  {
    var r := if keep(s[0]) then [s[0]] + rest else rest;
    var tail := s[1..];
    assert s == [s[0]] + tail;
    forall k | 0 <= k < |s| ensures multiset(r)[s[k]] == (if keep(s[k]) then multiset(s)[s[k]] else 0) {
      var x := s[k];
      if x in tail {
        var j :| 0 <= j < |tail| && tail[j] == x;
        assert multiset(rest)[x] == (if keep(x) then multiset(tail)[x] else 0);
      } else {
        assert multiset(rest)[x] == 0;
      }
    }
  }
}
