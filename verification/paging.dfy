/**
 The page arithmetic of `updateResultsCount`: the number of pages, the clamp
 of the current page, the window `[startFeature, endFeature)` of the working
 set that the current page shows, and the results label.
 */
module Paging {
  import Decimal

  /** `totalPages`: one page for an empty set, otherwise the quotient, plus one
      when the division leaves a remainder. */
  function TotalPages(len: nat, size: nat): (t: nat)
    requires size >= 1
    ensures t >= 1
    ensures len == 0 ==> t == 1
    ensures len > 0 ==> (t - 1) * size < len <= t * size
  {
    if len == 0 then 1
    else if len % size == 0 then len / size
    else len / size + 1
  }

  /** The fields `updateResultsCount` writes, apart from the label. */
  datatype Window = Window(page: int, totalPages: nat, start: int, end: int)

  /** Pages, clamp and window for a working set of `len` entries, pages of
      `size` and the requested current `page`. */
  function ComputeWindow(len: nat, size: nat, page: int): (w: Window)
    requires size >= 1
    ensures w.totalPages == TotalPages(len, size)
    ensures len == 0 ==> w.page == 1
    ensures len > 0 ==> w.page == if page > w.totalPages then w.totalPages else page
    ensures w.start == (w.page - 1) * size
    ensures w.page == w.totalPages ==> w.end == len
    ensures w.page != w.totalPages ==> w.end == w.start + size
    ensures page >= 1 ==> 1 <= w.page <= w.totalPages && 0 <= w.start <= w.end <= len
  {
    var total := TotalPages(len, size);
    var p := if len == 0 then 1 else if page > total then total else page;
    var start := (p - 1) * size;
    var end := if p == total then len else start + size;
    WindowBounds(len, size, p);
    Window(p, total, start, end)
  }

  /** For a page between 1 and the last, the window lies inside the data. */
  lemma WindowBounds(len: nat, size: nat, p: int)
    requires size >= 1
    ensures 1 <= p <= TotalPages(len, size) ==> 0 <= (p - 1) * size <= len
    ensures 1 <= p < TotalPages(len, size) ==> (p - 1) * size + size <= len
  {
    var t := TotalPages(len, size);
    if 1 <= p <= t {
      MulMonotone(p - 1, t - 1, size);
      if p < t {
        MulMonotone(p, t - 1, size);
        assert (p - 1) * size + size == p * size;
      }
    }
  }

  lemma MulMonotone(a: nat, b: nat, size: nat)
    requires a <= b
    ensures a * size <= b * size
  {
  }

  /** The label under the table: "No items", or "first - last of total items". */
  function ResultsLabel(len: nat, start: int, end: int): (s: string)
    ensures s == "No items" <==> len == 0
  {
    if len == 0 then "No items"
    else
      var first := Decimal.IntToString(start + 1);
      assert first[0] == '-' || Decimal.IsDigit(first[0]);
      first + " - " + Decimal.IntToString(end) + " of " + Decimal.NatToString(len) + " items"
  }

  /** The entries page `p` shows. */
  function PageSlice<T>(data: seq<T>, size: nat, p: int): (r: seq<T>)
    requires size >= 1 && 1 <= p <= TotalPages(|data|, size)
    ensures |r| <= size
  {
    var w := ComputeWindow(|data|, size, p);
    data[w.start..w.end]
  }

  /** Pages 1 to `k` shown one after another. */
  function PagesUpTo<T>(data: seq<T>, size: nat, k: nat): seq<T>
    requires size >= 1 && k <= TotalPages(|data|, size)
  {
    if k == 0 then [] else PagesUpTo(data, size, k - 1) + PageSlice(data, size, k)
  }

  /** The first `k` pages are exactly the prefix up to the end of page `k`. */
  lemma {:induction false} PagesUpToPrefix<T>(data: seq<T>, size: nat, k: nat)
    requires size >= 1 && 1 <= k <= TotalPages(|data|, size)
    ensures PagesUpTo(data, size, k) == data[..ComputeWindow(|data|, size, k).end]
    decreases k
  {
    var w := ComputeWindow(|data|, size, k);
    if k == 1 {
      assert PagesUpTo(data, size, 0) == [];
      assert w.start == 0;
    } else {
      PagesUpToPrefix(data, size, k - 1);
      var prev := ComputeWindow(|data|, size, k - 1);
      ConsecutivePages(|data|, size, k);
      assert data[..w.end] == data[..prev.end] + data[prev.end..w.end];
    }
  }

  /** Each page starts where the one before it ends. */
  lemma ConsecutivePages(len: nat, size: nat, k: int)
    requires size >= 1 && 2 <= k <= TotalPages(len, size)
    ensures ComputeWindow(len, size, k - 1).end == ComputeWindow(len, size, k).start
  {
    var prev := ComputeWindow(len, size, k - 1);
    assert len > 0;
    assert prev.page == k - 1 && prev.page != prev.totalPages;
    assert (k - 2) * size + size == (k - 1) * size;
  }

  /** The pages tile the working set: shown in order they reproduce it
      exactly, with no gap and no overlap. */
  lemma PagesTile<T>(data: seq<T>, size: nat)
    requires size >= 1
    ensures PagesUpTo(data, size, TotalPages(|data|, size)) == data
  {
    var t := TotalPages(|data|, size);
    PagesUpToPrefix(data, size, t);
    assert data[..|data|] == data;
  }
}
