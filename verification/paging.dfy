/** Pagination shared by the employee and timesheet lists: five items a
    page, `Array.prototype.slice` for the page contents, and the clamped
    Previous/Next buttons. */
module Paging {

  const ItemsPerPage: nat := 5

  function Min(a: int, b: int): int { if a <= b then a else b }

  function Max(a: int, b: int): int { if a >= b then a else b }

  /** `Math.max(1, Math.ceil(n / ItemsPerPage))`: the fewest pages, and at
      least one, that hold `n` items. */
  function TotalPages(n: nat): (t: nat)
    ensures t >= 1
    ensures n <= t * ItemsPerPage
    ensures t == 1 || (t - 1) * ItemsPerPage < n
  {
    var pages := (n + ItemsPerPage - 1) / ItemsPerPage;
    if pages < 1 then 1 else pages
  }

  /** Where a `slice` bound lands in a list of length `len`: a negative bound
      counts from the end; the result is clamped to `[0, len]`. */
  function SliceIndex(x: int, len: nat): (i: nat)
    ensures i <= len
    ensures 0 <= x ==> i == Min(x, len)
  {
    if x < 0 then (if len + x < 0 then 0 else len + x)
    else if x > len then len
    else x
  }

  /** `s.slice(start, end)`. */
  function Slice<T>(s: seq<T>, start: int, end: int): seq<T> {
    var from := SliceIndex(start, |s|);
    var to := SliceIndex(end, |s|);
    if from < to then s[from..to] else []
  }

  /** The items shown on page `page` (counted from 1). */
  function Page<T>(s: seq<T>, page: int): (r: seq<T>)
    ensures |r| <= ItemsPerPage
    ensures page >= 1 ==> |r| == Max(0, Min(ItemsPerPage, |s| - (page - 1) * ItemsPerPage))
    ensures page >= 1 ==> forall k | 0 <= k < |r| ::
              (page - 1) * ItemsPerPage + k < |s| && r[k] == s[(page - 1) * ItemsPerPage + k]
    ensures forall k | 0 <= k < |r| ::
              SliceIndex((page - 1) * ItemsPerPage, |s|) + k < |s| && r[k] == s[SliceIndex((page - 1) * ItemsPerPage, |s|) + k]
  {
    Slice(s, (page - 1) * ItemsPerPage, page * ItemsPerPage)
  }

  /** Pages `from` up to but excluding `to`, one after the other. */
  function Pages<T>(s: seq<T>, from: nat, to: nat): seq<T>
    decreases (to as int) - (from as int)
  {
    if from >= to then [] else Page(s, from) + Pages(s, from + 1, to)
  }

  lemma PageAsSlice<T>(s: seq<T>, page: nat)
    requires page >= 1
    ensures Page(s, page) == s[Min((page - 1) * ItemsPerPage, |s|)..Min(page * ItemsPerPage, |s|)]
  {
  }

  lemma {:induction false} PagesAsSlice<T>(s: seq<T>, from: nat, to: nat)
    requires 1 <= from <= to
    ensures Pages(s, from, to) == s[Min((from - 1) * ItemsPerPage, |s|)..Min((to - 1) * ItemsPerPage, |s|)]
    decreases (to as int) - (from as int)
  {
    if from < to {
      PageAsSlice(s, from);
      PagesAsSlice(s, from + 1, to);
      var a := Min((from - 1) * ItemsPerPage, |s|);
      var b := Min(from * ItemsPerPage, |s|);
      var c := Min((to - 1) * ItemsPerPage, |s|);
      assert s[a..b] + s[b..c] == s[a..c];
    }
  }

  /** Pages 1 to `TotalPages` together list every item once, in order. */
  lemma PagesCoverList<T>(s: seq<T>)
    ensures Pages(s, 1, TotalPages(|s|) + 1) == s
  {
    PagesAsSlice(s, 1, TotalPages(|s|) + 1);
  }

  /** A page past the last one is empty. */
  lemma PageBeyondLastIsEmpty<T>(s: seq<T>, page: int)
    requires page > TotalPages(|s|)
    ensures Page(s, page) == []
  {
  }

  /** Every page up to the last holds something, unless the list is empty. */
  lemma PageInRangeIsFilled<T>(s: seq<T>, page: int)
    requires |s| > 0 && 1 <= page <= TotalPages(|s|)
    ensures |Page(s, page)| > 0
  {
  }

  predicate InRange(page: int, total: int) {
    1 <= page <= total
  }

  /** The Previous button: `Math.max(prev - 1, 1)`. */
  function PreviousPage(page: int): int {
    Max(page - 1, 1)
  }

  /** The Next button: `Math.min(prev + 1, totalPages)`. */
  function NextPage(page: int, total: int): int {
    Min(page + 1, total)
  }

  /** Previous is disabled on the first page, Next on the last. */
  predicate PreviousDisabled(page: int) { page == 1 }

  predicate NextDisabled(page: int, total: int) { page == total }

  /** Both buttons keep the page in `[1, total]`, Previous never moves
      forward and Next never moves back. */
  lemma NavigationStaysInRange(page: int, total: int)
    requires InRange(page, total)
    ensures InRange(PreviousPage(page), total) && PreviousPage(page) <= page
    ensures InRange(NextPage(page, total), total) && NextPage(page, total) >= page
  {
  }

  /** Within range a button is enabled exactly when pressing it changes the
      page, and then by one. */
  lemma EnabledButtonsMoveByOne(page: int, total: int)
    requires InRange(page, total)
    ensures !PreviousDisabled(page) <==> PreviousPage(page) == page - 1
    ensures !NextDisabled(page, total) <==> NextPage(page, total) == page + 1
  {
  }
}
