/**
 * The page window pageVosBy cuts out of the top-level comments: the start index is
 * page number times page size, the end index is capped at the number of top-level
 * comments, and a start outside the list gives an empty page.
 */
module CommentPaging {
  import opened Wrappers

  function Min(a: int, b: int): int { if a <= b then a else b }

  /** The window of page `pageNumber` (0-based) of `pageSize` elements, with the start
      index computed on unbounded integers. */
  function PageWindow<T>(top: seq<T>, pageNumber: nat, pageSize: nat): (r: seq<T>)
    ensures pageNumber * pageSize >= |top| ==> r == []
    ensures pageNumber * pageSize < |top| ==>
      |r| == Min(pageSize, |top| - pageNumber * pageSize) &&
      forall i :: 0 <= i < |r| ==> r[i] == top[pageNumber * pageSize + i]
  {
    WindowFrom(top, pageNumber * pageSize, pageSize)
  }

  /** The `pageSize` elements from index `start` on, fewer at the end, none past it. */
  function WindowFrom<T>(top: seq<T>, start: nat, pageSize: nat): seq<T> {
    if start >= |top| then [] else top[start..Min(start + pageSize, |top|)]
  }

  /** Every top-level comment is on exactly the page its index falls in, at the offset
      its index leaves. */
  lemma PageOfIndex<T>(top: seq<T>, pageSize: nat, i: nat)
    requires pageSize > 0 && i < |top|
    ensures var p, k := i / pageSize, i % pageSize;
      k < |PageWindow(top, p, pageSize)| && PageWindow(top, p, pageSize)[k] == top[i]
  {
    var p, k := i / pageSize, i % pageSize;
    assert p * pageSize + k == i;
    assert p * pageSize <= i;
  }

  /** The first `n` pages laid end to end. */
  function Pages<T>(top: seq<T>, pageSize: nat, n: nat): seq<T> {
    if n == 0 then [] else Pages(top, pageSize, n - 1) + PageWindow(top, n - 1, pageSize)
  }

  /** The pages in order spell out the list: the first `n` pages are its first
      `n * pageSize` elements (all of it once `n * pageSize` reaches its length). */
  lemma {:induction false} PagesArePrefix<T>(top: seq<T>, pageSize: nat, n: nat)
    ensures Pages(top, pageSize, n) == top[..Min(n * pageSize, |top|)]
  {
    if n > 0 {
      PagesArePrefix(top, pageSize, n - 1);
      var start := (n - 1) * pageSize;
      MulSucc(n - 1, pageSize);
      assert n * pageSize == start + pageSize;
      assert PageWindow(top, n - 1, pageSize) == WindowFrom(top, start, pageSize);
      WindowAt(top, start, pageSize);
    }
  }

  lemma MulSucc(a: nat, b: nat)
    ensures (a + 1) * b == a * b + b
  {
  }

  /** Appending the window that starts at `start` extends the prefix up to `start`. */
  lemma WindowAt<T>(top: seq<T>, start: nat, pageSize: nat)
    ensures top[..Min(start, |top|)] + WindowFrom(top, start, pageSize) == top[..Min(start + pageSize, |top|)]
  {
    if start < |top| {
      assert top[..start] + top[start..Min(start + pageSize, |top|)] == top[..Min(start + pageSize, |top|)];
    }
  }

  // Java int arithmetic, as pageVosBy's index computation runs on it.

  const INT_MIN: int := -0x8000_0000
  const INT_MAX: int := 0x7fff_ffff

  /** Two's complement wrap-around of a Java `int` result. */
  function Int32(x: int): (r: int)
    ensures INT_MIN <= r <= INT_MAX
    ensures (r - x) % 0x1_0000_0000 == 0
    ensures INT_MIN <= x <= INT_MAX ==> r == x
  {
    var m := x % 0x1_0000_0000;
    if m > INT_MAX then m - 0x1_0000_0000 else m
  }

  /** The window as the service computes it, with `int` multiplication and addition.
      `None` stands for the IndexOutOfBoundsException `subList` throws when `endIndex`
      wraps below `startIndex`. */
  function PageWindowAsWritten<T>(top: seq<T>, pageNumber: int, pageSize: int): Option<seq<T>>
    requires |top| <= INT_MAX
    requires 0 <= pageNumber <= INT_MAX && 0 <= pageSize <= INT_MAX
  {
    WindowFromAsWritten(top, Int32(pageNumber * pageSize), pageSize)
  }

  function WindowFromAsWritten<T>(top: seq<T>, startIndex: int, pageSize: int): Option<seq<T>>
    requires |top| <= INT_MAX
    requires INT_MIN <= startIndex <= INT_MAX && 0 <= pageSize <= INT_MAX
  {
    if startIndex >= |top| || startIndex < 0 then Some([])
    else
      var endIndex := Int32(startIndex + pageSize);
      var endIndex' := if endIndex > |top| then |top| else endIndex;
      if endIndex' < startIndex then None else Some(top[startIndex..endIndex'])
  }

  /** While the end index fits in an `int` the computation is the intended window. */
  lemma AsWrittenAgrees<T>(top: seq<T>, pageNumber: nat, pageSize: nat)
    requires |top| <= INT_MAX && pageNumber <= INT_MAX
    requires pageNumber * pageSize + pageSize <= INT_MAX
    ensures PageWindowAsWritten(top, pageNumber, pageSize) == Some(PageWindow(top, pageNumber, pageSize))
  {
    var start := pageNumber * pageSize;
    assert 0 <= start;
    AsWrittenAgreesFrom(top, start, pageSize);
  }

  lemma AsWrittenAgreesFrom<T>(top: seq<T>, start: nat, pageSize: nat)
    requires |top| <= INT_MAX && start + pageSize <= INT_MAX
    ensures Int32(start) == start
    ensures WindowFromAsWritten(top, start, pageSize) == Some(WindowFrom(top, start, pageSize))
  {
    assert Int32(start + pageSize) == start + pageSize;
  }

  /** Page 2^30 of size 4 over five top-level comments: the product 2^32 wraps to 0,
      so the service returns the first four comments where the page is empty. */
  lemma WrappedPageRepeatsFirstPage<T>(top: seq<T>)
    requires |top| == 5
    ensures PageWindowAsWritten(top, 0x4000_0000, 4) == Some(top[..4])
    ensures PageWindow(top, 0x4000_0000, 4) == []
  {
    assert Int32(0x4000_0000 * 4) == 0;
    assert Int32(0 + 4) == 4;
  }
}
