/** `paginate_questions`: the page of an ordered selection that a 1-based page
    number picks, with Python's slice semantics for the bounds. */
module Pagination {

  const QuestionsPerPage: nat := 10

  function Min(a: int, b: int): int { if a <= b then a else b }

  function Max(a: int, b: int): int { if a >= b then a else b }

  /** How Python normalises one bound of `s[start:end]` against `len(s) == n`:
      a negative bound counts from the end, and the result is clamped to `[0, n]`. */
  function SliceBound(i: int, n: nat): (b: nat)
    ensures b <= n
    ensures 0 <= i ==> b == Min(i, n)
    ensures i < 0 ==> b <= n + i || b == 0
  {
    if i < 0 then (if i + n < 0 then 0 else i + n)
    else if i > n then n
    else i
  }

  /** Python's `s[start:end]`. */
  function PySlice<T>(s: seq<T>, start: int, end: int): (r: seq<T>)
    ensures |r| <= |s|
  {
    var lo, hi := SliceBound(start, |s|), SliceBound(end, |s|);
    if lo < hi then s[lo..hi] else []
  }

  /** Index of the first item of a page: `(page - 1) * QUESTIONS_PER_PAGE`. */
  function PageStart(page: int): int { (page - 1) * QuestionsPerPage }

  /** `paginate_questions(request, selection)` for the page number `page`. */
  function Paginate<T>(selection: seq<T>, page: int): (r: seq<T>)
    ensures |r| <= QuestionsPerPage
    ensures forall x :: x in r ==> x in selection
  {
    PySlice(selection, PageStart(page), PageStart(page) + QuestionsPerPage)
  }

  /** For a page number of at least 1 the page holds exactly the items from
      `PageStart(page)` on, at most ten of them, in the order of the selection. */
  lemma PageContents<T>(s: seq<T>, page: int)
    requires page >= 1
    ensures var r := Paginate(s, page);
      && |r| == (if PageStart(page) >= |s| then 0 else Min(QuestionsPerPage, |s| - PageStart(page)))
      && forall k :: 0 <= k < |r| ==> r[k] == s[PageStart(page) + k]
  {
  }

  /** For a page number of at least 1 the page is empty exactly when it starts
      at or beyond the end of the selection. */
  lemma PageEmptyIff<T>(s: seq<T>, page: int)
    requires page >= 1
    ensures Paginate(s, page) == [] <==> PageStart(page) >= |s|
  {
    PageContents(s, page);
  }

  /** The concatenation of `count` consecutive pages, starting at page `first`. */
  function Pages<T>(s: seq<T>, first: int, count: nat): seq<T>
    decreases count
  {
    if count == 0 then [] else Paginate(s, first) + Pages(s, first + 1, count - 1)
  }

  /** Consecutive pages from `first` on cover one contiguous stretch of the
      selection, with no gap and no overlap. */
  lemma {:induction false} PagesCover<T>(s: seq<T>, first: int, count: nat)
    requires first >= 1
    decreases count
    ensures Pages(s, first, count)
         == s[Min(PageStart(first), |s|)..Min(PageStart(first) + QuestionsPerPage * count, |s|)]
  {
    if count > 0 {
      var a := Min(PageStart(first), |s|);
      var b := Min(PageStart(first) + QuestionsPerPage, |s|);
      var c := Min(PageStart(first) + QuestionsPerPage * count, |s|);
      assert PageStart(first + 1) == PageStart(first) + QuestionsPerPage;
      assert QuestionsPerPage * count == QuestionsPerPage + QuestionsPerPage * (count - 1);
      PagesCover(s, first + 1, count - 1);
      assert Pages(s, first + 1, count - 1) == s[b..c];
      PageContents(s, first);
      assert Paginate(s, first) == s[a..b];
      assert s[a..b] + s[b..c] == s[a..c];
    }
  }

  /** The number of non-empty pages of a selection of `n` items: `ceil(n / 10)`. */
  function PageCount(n: nat): nat { (n + QuestionsPerPage - 1) / QuestionsPerPage }

  /** Pages `1..PageCount(|s|)` partition the selection: together they are the
      selection, each of them is non-empty, and the page after the last is empty. */
  lemma PagesPartition<T>(s: seq<T>)
    ensures Pages(s, 1, PageCount(|s|)) == s
    ensures forall p :: 1 <= p <= PageCount(|s|) ==> Paginate(s, p) != []
    ensures Paginate(s, PageCount(|s|) + 1) == []
  {
    var n := PageCount(|s|);
    assert QuestionsPerPage * n >= |s|;
    assert |s| > 0 ==> PageStart(n) < |s|;
    PagesCover(s, 1, n);
    assert s[0..|s|] == s;
    forall p | 1 <= p <= n ensures Paginate(s, p) != [] {
      assert PageStart(p) <= PageStart(n);
      PageEmptyIff(s, p);
    }
    PageEmptyIff(s, n + 1);
  }

  /** Page 0 is Python's `s[-10:0]`, which is always empty. */
  lemma PageZeroIsEmpty<T>(s: seq<T>)
    ensures Paginate(s, 0) == []
  {
  }

  /** A negative page number is not rejected: both bounds of the slice are
      negative and count back from the end of the selection, clamped at 0, so
      page -1 is the 10 items just before the last 10. */
  lemma NegativePageCountsFromEnd<T>(s: seq<T>, page: int)
    requires page <= -1
    ensures Paginate(s, page)
         == s[Max(0, |s| + PageStart(page))..Max(0, |s| + PageStart(page) + QuestionsPerPage)]
  {
  }
}
