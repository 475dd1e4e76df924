/** The page arithmetic of the listing handler, `GET /files` (routes/uploadRoute.js,
    l.95-96 and l.116-126): the `page` and `limit` defaults, `Math.ceil` for the page
    count, and `Array.prototype.slice` for the page itself. Nothing is clamped. */
module Pagination {

  /** The Number `parseInt` returns: NaN (absent or non-numeric text) or an integer. */
  datatype JsNumber = NaN | Num(value: int)

  const DefaultPage := 1
  const DefaultLimit := 20

  /** `parseInt(...) || fallback`: NaN and 0 are falsy, so they give way to the fallback. */
  function OrDefault(n: JsNumber, fallback: int): (r: int)
    ensures n.Num? && n.value != 0 ==> r == n.value
    ensures n.NaN? || n.value == 0 ==> r == fallback
    ensures fallback != 0 ==> r != 0
  {
    match n
    case NaN => fallback
    case Num(v) => if v == 0 then fallback else v
  }

  /** `Math.ceil(totalFiles / limit)` for a non-zero integer limit. */
  function CeilDiv(total: nat, limit: int): (r: int)
    requires limit != 0
    ensures limit > 0 ==> r >= 0
    ensures limit < 0 ==> r <= 0
    ensures limit == 1 ==> r == total
  {
    if limit > 0 then (total + limit - 1) / limit else -(total / -limit)
  }

  /** `CeilDiv` is the ceiling of the quotient: the least r with total / limit <= r. */
  lemma CeilDivIsCeiling(total: nat, limit: int)
    requires limit != 0
    ensures var r := CeilDiv(total, limit);
      && (limit > 0 ==> (r - 1) * limit < total <= r * limit)
      && (limit < 0 ==> r * limit <= total < (r - 1) * limit)
  {
    var r := CeilDiv(total, limit);
    if limit > 0 {
      var q := total + limit - 1;
      assert q == limit * (q / limit) + q % limit;
    } else {
      var m := -limit;
      assert total == m * (total / m) + total % m;
      assert r * limit == m * (total / m);
    }
  }

  /** With a positive limit an empty directory has no pages, any other has at least one. */
  lemma TotalPagesZero(total: nat, limit: int)
    requires limit >= 1
    ensures CeilDiv(total, limit) >= 0
    ensures CeilDiv(total, limit) == 0 <==> total == 0
  {
    CeilDivIsCeiling(total, limit);
  }

  function Min(a: int, b: int): int {
    if a <= b then a else b
  }

  /** How `slice` turns an argument into a position: a negative one counts from the
      end, and the result is clamped into 0..len (section 23.1.3.28 of ECMA-262). */
  function RelativeIndex(k: int, len: nat): (r: nat)
    ensures r <= len
  {
    if k < 0 then (if len + k < 0 then 0 else len + k)
    else if k > len then len
    else k
  }

  /** `s.slice(start, end)`. */
  function JsSlice<T>(s: seq<T>, start: int, end: int): (r: seq<T>)
    ensures |r| <= |s|
    ensures 0 <= start <= end ==> |r| <= end - start
    ensures forall x :: x in r ==> x in s
  {
    var from := RelativeIndex(start, |s|);
    var to := RelativeIndex(end, |s|);
    if from < to then s[from..to] else []
  }

  /** For non-negative arguments `slice` keeps the positions start..end-1 that exist. */
  lemma JsSliceOfRange<T>(s: seq<T>, start: int, end: int)
    requires 0 <= start <= end
    ensures JsSlice(s, start, end) == s[Min(start, |s|)..Min(end, |s|)]
  {
  }

  /** A stretch of a list holds nothing the list does not. */
  lemma StretchInside<T>(s: seq<T>, from: nat, to: nat)
    requires from <= to <= |s|
    ensures multiset(s[from..to]) <= multiset(s)
  {
    assert s == s[..from] + s[from..to] + s[to..];
  }

  /** `fileStats.slice(startIndex, endIndex)` with startIndex = (page - 1) * limit. */
  function Page<T>(sorted: seq<T>, page: int, limit: int): (r: seq<T>)
    ensures |r| <= |sorted|
    ensures forall x :: x in r ==> x in sorted
  {
    var start := (page - 1) * limit;
    JsSlice(sorted, start, start + limit)
  }

  /** A page from 1 on with a positive limit is the stretch of `limit` entries it names, cut at the end of the list. */
  lemma PageIsStretch<T>(sorted: seq<T>, page: int, limit: int)
    requires page >= 1 && limit >= 1
    ensures (page - 1) * limit <= page * limit
    ensures Page(sorted, page, limit) == sorted[Min((page - 1) * limit, |sorted|)..Min(page * limit, |sorted|)]
  {
    var start := (page - 1) * limit;
    MulMonotonic(0, page - 1, limit);
    NextMultiple(page - 1, limit);
    JsSliceOfRange(sorted, start, start + limit);
  }

  /** With a positive limit no page holds more than `limit` entries. */
  lemma PageLength<T>(sorted: seq<T>, page: int, limit: int)
    requires limit >= 1
    ensures |Page(sorted, page, limit)| <= limit
  {
    var n := |sorted|;
    var start := (page - 1) * limit;
    var from, to := RelativeIndex(start, n), RelativeIndex(start + limit, n);
    if from < to {
      assert to - from <= limit;
    }
  }

  lemma NextMultiple(a: int, limit: int)
    ensures (a + 1) * limit == a * limit + limit
  {
  }

  lemma MulMonotonic(a: int, b: int, limit: int)
    requires a <= b && limit >= 0
    ensures a * limit <= b * limit
  {
    assert b * limit - a * limit == (b - a) * limit;
  }

  /** A page past the last one is empty; the request's page number is not clamped. */
  lemma PageBeyondLast<T>(sorted: seq<T>, page: int, limit: int)
    requires limit >= 1 && page > CeilDiv(|sorted|, limit)
    ensures Page(sorted, page, limit) == []
  {
    var n, r := |sorted|, CeilDiv(|sorted|, limit);
    CeilDivIsCeiling(n, limit);
    MulMonotonic(r, page - 1, limit);
    var start := (page - 1) * limit;
    assert n <= start;
    assert RelativeIndex(start, n) == n;
  }

  /** Every page before the last is full, and the last page is not empty. */
  lemma PagesBeforeLastAreFull<T>(sorted: seq<T>, page: int, limit: int)
    requires limit >= 1 && 1 <= page <= CeilDiv(|sorted|, limit)
    ensures page < CeilDiv(|sorted|, limit) ==> |Page(sorted, page, limit)| == limit
    ensures Page(sorted, page, limit) != []
  {
    var n, r := |sorted|, CeilDiv(|sorted|, limit);
    CeilDivIsCeiling(n, limit);
    PageIsStretch(sorted, page, limit);
    MulMonotonic(page - 1, r - 1, limit);
    MulMonotonic(0, page - 1, limit);
    var start, end := (page - 1) * limit, page * limit;
    assert end == start + limit;
    assert 0 <= start < n;
    if page < r {
      MulMonotonic(page, r - 1, limit);
      assert end <= n;
    }
  }

  /** Pages 1..k one after the other. */
  function Pages<T>(sorted: seq<T>, k: nat, limit: int): seq<T> {
    if k == 0 then [] else Pages(sorted, k - 1, limit) + Page(sorted, k, limit)
  }

  lemma {:induction false} PagesArePrefix<T>(sorted: seq<T>, k: nat, limit: int)
    requires limit >= 1
    ensures k * limit >= 0
    ensures Pages(sorted, k, limit) == sorted[..Min(k * limit, |sorted|)]
  {
    if k > 0 {
      var prev, page := Pages(sorted, k - 1, limit), Page(sorted, k, limit);
      assert Pages(sorted, k, limit) == prev + page;
      PagesArePrefix(sorted, k - 1, limit);
      PageIsStretch(sorted, k, limit);
      var a, b := Min((k - 1) * limit, |sorted|), Min(k * limit, |sorted|);
      assert prev == sorted[..a] && page == sorted[a..b];
      assert sorted[..a] + sorted[a..b] == sorted[..b];
    }
  }

  /** With a positive limit, pages 1..totalPages give back the whole sorted list, each entry once. */
  lemma PagesCoverList<T>(sorted: seq<T>, limit: int)
    requires limit >= 1
    ensures CeilDiv(|sorted|, limit) >= 0
    ensures Pages(sorted, CeilDiv(|sorted|, limit), limit) == sorted
  {
    TotalPagesZero(|sorted|, limit);
    CeilDivIsCeiling(|sorted|, limit);
    PagesArePrefix(sorted, CeilDiv(|sorted|, limit), limit);
  }

  /** 45 entries at the default limit: three pages, page 2 holds entries 21-40, and
      page 99 is empty rather than clamped to page 3. */
  lemma FortyFiveEntries<T>(sorted: seq<T>)
    requires |sorted| == 45
    ensures CeilDiv(|sorted|, DefaultLimit) == 3
    ensures Page(sorted, 2, DefaultLimit) == sorted[20..40]
    ensures Page(sorted, 99, DefaultLimit) == []
  {
    PageIsStretch(sorted, 2, DefaultLimit);
    PageBeyondLast(sorted, 99, DefaultLimit);
  }

  /** `?limit=-1` is taken as it stands: page 1 is `slice(0, -1)`, every entry but the
      last, and the page count comes out as minus the number of entries. */
  lemma MinusOneLimit<T>(sorted: seq<T>)
    requires |sorted| >= 1
    ensures Page(sorted, 1, -1) == sorted[..|sorted| - 1]
    ensures CeilDiv(|sorted|, -1) == -|sorted|
  {
  }
}
