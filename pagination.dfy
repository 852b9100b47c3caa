/**
  The list screens show ten items per page: the page count is the number of
  items divided by ten, rounded up, and page p (counted from 1) is the slice
  from (p - 1) * 10 to (p - 1) * 10 + 10, with JavaScript's `slice` clamping.
 */
module Pagination {

  const ItemsPerPage: nat := 10

  /** How `Array.prototype.slice` reads an index: a negative one counts from the end; both are clamped to the list. */
  function SliceIndex(i: int, len: nat): (r: nat)
    ensures r <= len
    ensures 0 <= i <= len ==> r == i
    ensures i > len ==> r == len
    ensures i < 0 ==> r == if len + i < 0 then 0 else len + i
  {
    if i < 0 then (if len + i < 0 then 0 else len + i)
    else if i > len then len
    else i
  }

  /** `s.slice(start, end)`: empty when the clamped end does not lie past the clamped start. */
  function JsSlice<T>(s: seq<T>, start: int, end: int): (r: seq<T>)
    ensures SliceIndex(start, |s|) < SliceIndex(end, |s|) ==>
      r == s[SliceIndex(start, |s|)..SliceIndex(end, |s|)]
    ensures SliceIndex(start, |s|) >= SliceIndex(end, |s|) ==> r == []
  {
    var from := SliceIndex(start, |s|);
    var to := SliceIndex(end, |s|);
    if from < to then s[from..to] else []
  }

  /** `Math.ceil(n / itemsPerPage)`: the fewest pages of ten that hold n items. */
  function TotalPages(n: nat): (t: nat)
    ensures t * ItemsPerPage >= n
    ensures t == 0 || (t - 1) * ItemsPerPage < n
  {
    (n + ItemsPerPage - 1) / ItemsPerPage
  }

  /**
    The items shown on page `currentPage`. From page 1 on, a page holds at most
    ten items, and its i-th item is item (currentPage - 1) * 10 + i of the list.
   */
  function Page<T>(items: seq<T>, currentPage: int): (r: seq<T>)
    ensures currentPage >= 1 ==> |r| <= ItemsPerPage
    ensures currentPage >= 1 ==>
      forall i :: 0 <= i < |r| ==>
        (currentPage - 1) * ItemsPerPage + i < |items| && r[i] == items[(currentPage - 1) * ItemsPerPage + i]
  {
    var startIndex := (currentPage - 1) * ItemsPerPage;
    var endIndex := startIndex + ItemsPerPage;
    JsSlice(items, startIndex, endIndex)
  }

  /** A page past the last one is empty. */
  lemma PageBeyondRangeIsEmpty<T>(items: seq<T>, currentPage: int)
    requires currentPage > TotalPages(|items|)
    ensures Page(items, currentPage) == []
  {
  }

  /** Every page from 1 to the page count shows something; all but the last are full. */
  lemma PageInRangeIsNotEmpty<T>(items: seq<T>, currentPage: int)
    requires 1 <= currentPage <= TotalPages(|items|)
    ensures 1 <= |Page(items, currentPage)|
    ensures currentPage < TotalPages(|items|) ==> |Page(items, currentPage)| == ItemsPerPage
  {
  }

  /** Pages 1 to k, one after the other. */
  function PagesUpTo<T>(items: seq<T>, k: nat): seq<T> {
    if k == 0 then [] else PagesUpTo(items, k - 1) + Page(items, k)
  }

  /** Pages 1 to k together are the first 10 * k items (or all of them). */
  lemma {:induction false} PagesUpToIsPrefix<T>(items: seq<T>, k: nat)
    ensures PagesUpTo(items, k) == items[..if k * ItemsPerPage <= |items| then k * ItemsPerPage else |items|]
  {
    if k > 0 {
      PagesUpToIsPrefix(items, k - 1);
      var lo := if (k - 1) * ItemsPerPage <= |items| then (k - 1) * ItemsPerPage else |items|;
      var hi := if k * ItemsPerPage <= |items| then k * ItemsPerPage else |items|;
      assert Page(items, k) == items[lo..hi];
      assert items[..lo] + items[lo..hi] == items[..hi];
    }
  }

  /** Reading pages 1 to the page count in turn shows the whole list, in order. */
  lemma AllPagesGiveBackTheList<T>(items: seq<T>)
    ensures PagesUpTo(items, TotalPages(|items|)) == items
  {
    PagesUpToIsPrefix(items, TotalPages(|items|));
  }
}
