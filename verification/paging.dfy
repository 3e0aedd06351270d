/** Page arithmetic of the listing: JavaScript's `Array.prototype.slice`,
    the page window `[(page - 1) * limit, (page - 1) * limit + limit)` and
    `Math.ceil(total / limit)`. */
module Paging {

  function Min(a: int, b: int): int { if a <= b then a else b }

  /** How `slice` reads one of its bounds for a list of length `n`: a
      negative index counts back from the end, and the result is clamped
      into `[0, n]`. */
  function SliceIndex(i: int, n: nat): (r: nat)
    ensures r <= n
    ensures 0 <= i <= n ==> r == i
    ensures i < 0 && 0 <= n + i ==> r == n + i
    ensures n + i < 0 ==> r == 0
    ensures n < i ==> r == n
  {
    if i < 0 then (if n + i > 0 then n + i else 0)
    else if i < n then i
    else n
  }

  /** `s.slice(start, end)`: the elements from the normalised start up to
      (not including) the normalised end, or none when the end is not past
      the start. */
  function JsSlice<T>(s: seq<T>, start: int, end: int): (r: seq<T>)
    ensures |r| == if SliceIndex(start, |s|) < SliceIndex(end, |s|)
                   then SliceIndex(end, |s|) - SliceIndex(start, |s|) else 0
    ensures forall k :: 0 <= k < |r| ==> r[k] == s[SliceIndex(start, |s|) + k]
  {
    var a := SliceIndex(start, |s|);
    var b := SliceIndex(end, |s|);
    if a < b then s[a..b] else []
  }

  /** `Math.ceil(a / b)` for integers. Its characterisation is the separate
      lemma `CeilDivBounds`, so that unfolding a page response does not
      bring multiplication facts along. */
  function CeilDiv(a: int, b: int): int
    requires b != 0
  {
    if b > 0 then (a + b - 1) / b else (-a - b - 1) / -b
  }

  /** `CeilDiv(a, b)` is the least `r` with `r * b >= a` when `b` is
      positive, and the least `r` with `r * b <= a` when it is negative. */
  lemma CeilDivBounds(a: int, b: int)
    requires b != 0
    ensures b > 0 ==> (CeilDiv(a, b) - 1) * b < a <= CeilDiv(a, b) * b
    ensures b < 0 ==> CeilDiv(a, b) * b <= a < (CeilDiv(a, b) - 1) * b
  {
    var q := CeilDiv(a, b);
    if b > 0 {
      assert a + b - 1 == q * b + (a + b - 1) % b;
    } else {
      assert -a - b - 1 == q * -b + (-a - b - 1) % -b;
    }
    assert (q - 1) * b == q * b - b;
  }

  /** Where page `page` of size `limit` starts. */
  function PageStart(page: int, limit: int): int { (page - 1) * limit }

  /** Page `page` of size `limit`: `s.slice(start, start + limit)`. */
  function Page<T>(s: seq<T>, page: int, limit: int): seq<T>
  {
    JsSlice(s, PageStart(page, limit), PageStart(page, limit) + limit)
  }

  /** A slice whose bounds are already non-negative and in order is the
      plain subsequence, cut off at the end of the list. */
  lemma SliceWindow<T>(s: seq<T>, a: int, b: int)
    requires 0 <= a <= b
    ensures a >= |s| ==> JsSlice(s, a, b) == []
    ensures a < |s| ==> JsSlice(s, a, b) == s[a..Min(b, |s|)]
  {
  }

  /** A positive page starts at a non-negative index, and the next page
      starts `limit` further on. */
  lemma PageStartFacts(page: int, limit: int)
    requires page >= 1 && limit >= 1
    ensures PageStart(page, limit) >= 0
    ensures PageStart(page, limit) + limit == page * limit
  {
    MulMonotone(0, page - 1, limit);
  }

  /** For a positive page number and size, a page is the window
      `[start, start + limit)` cut off at the end of the list: it holds at
      most `limit` elements and is empty once the start is at or past the end. */
  lemma PageWindow<T>(s: seq<T>, page: int, limit: int)
    requires page >= 1 && limit >= 1
    ensures PageStart(page, limit) >= 0
    ensures |Page(s, page, limit)| <= limit
    ensures PageStart(page, limit) >= |s| ==> Page(s, page, limit) == []
    ensures PageStart(page, limit) < |s| ==>
              Page(s, page, limit) == s[PageStart(page, limit)..Min(PageStart(page, limit) + limit, |s|)]
  {
    PageStartFacts(page, limit);
    SliceWindow(s, PageStart(page, limit), PageStart(page, limit) + limit);
  }

  /** A page is a run of consecutive elements of the list, so everything on
      it comes from the list. */
  lemma PageFrom<T>(s: seq<T>, page: int, limit: int)
    ensures forall k :: 0 <= k < |Page(s, page, limit)| ==>
              && SliceIndex(PageStart(page, limit), |s|) + k < |s|
              && Page(s, page, limit)[k] == s[SliceIndex(PageStart(page, limit), |s|) + k]
    ensures forall x :: x in Page(s, page, limit) ==> x in s
  {
    var a := SliceIndex(PageStart(page, limit), |s|);
    forall x | x in Page(s, page, limit) ensures x in s {
      var k :| 0 <= k < |Page(s, page, limit)| && Page(s, page, limit)[k] == x;
      assert s[a + k] == x;
    }
  }

  /** Pages 1 through `k`, one after the other. */
  function Pages<T>(s: seq<T>, k: nat, limit: int): seq<T>
  {
    if k == 0 then [] else Pages(s, k - 1, limit) + Page(s, k, limit)
  }

  /** If pages 1 through `k - 1` are the list's first `(k - 1) * limit`
      elements, pages 1 through `k` are its first `k * limit`. */
  lemma PagesPrefixStep<T>(s: seq<T>, k: nat, limit: int)
    requires limit >= 1 && k > 0
    requires Pages(s, k - 1, limit) == s[..Min((k - 1) * limit, |s|)]
    ensures Pages(s, k, limit) == s[..Min(k * limit, |s|)]
  {
    PageWindow(s, k, limit);
    PageStartFacts(k, limit);
    var start := PageStart(k, limit);
    var end := Min(k * limit, |s|);
    assert start == (k - 1) * limit;
    if start < |s| {
      assert s[..start] + s[start..end] == s[..end];
    }
  }

  lemma {:induction false} PagesPrefix<T>(s: seq<T>, k: nat, limit: int)
    requires limit >= 1
    ensures Pages(s, k, limit) == s[..Min(k * limit, |s|)]
  {
    var i := 0;
    while i < k
      invariant 0 <= i <= k
      invariant Pages(s, i, limit) == s[..Min(i * limit, |s|)]
    {
      i := i + 1;
      PagesPrefixStep(s, i, limit);
    }
  }

  lemma MulMonotone(a: int, b: int, c: int)
    requires a <= b && c >= 0
    ensures a * c <= b * c
  {
    assert b * c - a * c == (b - a) * c;
  }

  /** Walking the pages 1 through `Math.ceil(|s| / limit)` visits the whole
      list, in order, exactly once; every later page is empty. */
  lemma PagesCover<T>(s: seq<T>, limit: int)
    requires limit >= 1
    ensures CeilDiv(|s|, limit) >= 0
    ensures Pages(s, CeilDiv(|s|, limit), limit) == s
    ensures forall p :: p > CeilDiv(|s|, limit) ==> Page(s, p, limit) == []
  {
    var k := CeilDiv(|s|, limit);
    CeilDivBounds(|s|, limit);
    if k < 0 {
      MulMonotone(k, -1, limit);
      assert false;
    }
    PagesPrefix(s, k, limit);
    assert s[..|s|] == s;
    forall p | p > k ensures Page(s, p, limit) == [] {
      PageWindow(s, p, limit);
      MulMonotone(k, p - 1, limit);
    }
  }
}
