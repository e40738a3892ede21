/** Pagination arithmetic shared by every listing: `offset = (page - 1) * size`, the page
    count `ceil(total / size)` as Go (`(total + size - 1) / size` on int64) and JavaScript
    (`Math.ceil(total / size)`) compute it, and the OFFSET/LIMIT window a query returns. */
module Paging {
  import opened Records
  import opened Numbers

  /** Go's page count; a zero size is an integer division by zero, which panics (None). */
  function GoPageCount(total: int, size: int): (r: Option<int>)
    ensures r.None? <==> size == 0
    ensures size > 0 && total >= 0 ==>
              r.Some? && r.value >= 0 && (r.value - 1) * size < total <= r.value * size
  {
    if size == 0 then None
    else
      var q := TruncDiv(total + size - 1, size);
      if size > 0 && total >= 0 then
        assert q == (total + size - 1) / size;
        assert q * size <= total + size - 1 < q * size + size;
        assert (q - 1) * size == q * size - size;
        Some(q)
      else Some(q)
  }

  /** A JavaScript number as far as `Math.ceil(total / size)` can produce one. */
  datatype JsNumber = Finite(n: int) | PosInfinity | NegInfinity | NaN

  /** Node's page count: dividing by zero gives Infinity (or NaN for 0 / 0). */
  function JsPageCount(total: int, size: int): (r: JsNumber)
    ensures size == 0 ==> r == (if total > 0 then PosInfinity else if total < 0 then NegInfinity else NaN)
    ensures size > 0 ==> r.Finite? && (r.n - 1) * size < total <= r.n * size
    ensures size > 0 && total >= 0 ==> r.n >= 0
  {
    if size == 0 then
      if total > 0 then PosInfinity else if total < 0 then NegInfinity else NaN
    else
      var c := CeilDiv(total, size);
      if size > 0 && total >= 0 && c < 0 then
        MulMonotone(c, -1, size);
        assert false;
        Finite(c)
      else Finite(c)
  }

  lemma {:induction false} MulMonotone(a: int, b: int, size: int)
    requires a <= b && size > 0
    ensures a * size <= b * size
    decreases b - a
  {
    if a < b {
      MulMonotone(a, b - 1, size);
      assert (b - 1) * size + size == b * size;
    }
  }

  /** The ceiling is the only integer with that characterisation. */
  lemma CeilUnique(total: int, size: int, k: int, j: int)
    requires size > 0
    requires (k - 1) * size < total <= k * size
    requires (j - 1) * size < total <= j * size
    ensures k == j
  {
    if k < j {
      MulMonotone(k, j - 1, size);
    } else if j < k {
      MulMonotone(j, k - 1, size);
    }
  }

  /** Both backends report the same page count for every positive page size. */
  lemma PageCountsAgree(total: int, size: int)
    requires size > 0 && total >= 0
    ensures GoPageCount(total, size) == Some(JsPageCount(total, size).n)
  {
    var g := GoPageCount(total, size);
    var js := JsPageCount(total, size);
    CeilUnique(total, size, g.value, js.n);
  }

  /** An empty table has no pages; a non-empty one has at least one. */
  lemma PageCountZeroIffEmpty(total: int, size: int)
    requires size > 0 && total >= 0
    ensures GoPageCount(total, size) == Some(0) <==> total == 0
  {
  }

  function Offset(page: int, size: int): int {
    (page - 1) * size
  }

  /** First row OFFSET skips: a non-positive offset skips nothing. */
  function Start(n: nat, offset: int): (k: nat)
    ensures k <= n
  {
    if offset <= 0 then 0 else if offset < n then offset else n
  }

  /** `OFFSET offset LIMIT limit` as the Go ORM issues it: a negative limit means no limit. */
  function Window<T>(rows: seq<T>, offset: int, limit: int): (r: seq<T>)
    ensures limit >= 0 ==> |r| <= limit
    ensures Start(|rows|, offset) + |r| <= |rows|
    ensures forall i :: 0 <= i < |r| ==> r[i] == rows[Start(|rows|, offset) + i]
    ensures multiset(r) <= multiset(rows)
  {
    var k := Start(|rows|, offset);
    var rest := rows[k..];
    var r := if 0 <= limit < |rest| then rest[..limit] else rest;
    assert rows == rows[..k] + rest;
    assert rest == r + rest[|r|..];
    r
  }

  /** Node: Sequelize renders `LIMIT offset, limit` and the database rejects negative values. */
  function NodeWindow<T>(rows: seq<T>, offset: int, limit: int): (r: Option<seq<T>>)
    ensures r.None? <==> offset < 0 || limit < 0
    ensures r.Some? ==> r.value == Window(rows, offset, limit)
  {
    if offset < 0 || limit < 0 then None else Some(Window(rows, offset, limit))
  }

  /** A page after the last one is empty rather than an error. */
  lemma PageBeyondLastIsEmpty<T>(rows: seq<T>, size: int, page: int)
    requires size > 0
    requires GoPageCount(|rows|, size).value < page
    ensures Window(rows, Offset(page, size), size) == []
  {
    var pc := GoPageCount(|rows|, size).value;
    MulMonotone(pc, page - 1, size);
  }

  /** Pages 1 .. n, concatenated. */
  function FirstPages<T>(rows: seq<T>, size: int, n: nat): seq<T>
  {
    if n == 0 then [] else FirstPages(rows, size, n - 1) + Window(rows, Offset(n, size), size)
  }

  function Min(a: int, b: int): int {
    if a < b then a else b
  }

  lemma WindowSlice<T>(rows: seq<T>, lo: int, size: int)
    requires lo >= 0 && size >= 0
    ensures Window(rows, lo, size) == rows[Min(lo, |rows|)..Min(lo + size, |rows|)]
  {
  }

  /** The first n pages are exactly the first n * size rows. */
  lemma {:induction false} FirstPagesArePrefix<T>(rows: seq<T>, size: int, n: nat)
    requires size > 0
    ensures FirstPages(rows, size, n) == rows[..Min(Offset(n + 1, size), |rows|)]
  {
    if n == 0 {
      assert Offset(n + 1, size) == 0;
    } else {
      OffsetStep(n, size);
      FirstPagesArePrefix(rows, size, n - 1);
      assert n - 1 + 1 == n;
      NextPage(rows, size, n, Offset(n, size));
    }
  }

  /** Appending page n to the rows before it extends the prefix by one page. */
  lemma NextPage<T>(rows: seq<T>, size: int, n: nat, lo: int)
    requires size > 0 && n > 0 && lo == Offset(n, size) && lo >= 0
    requires FirstPages(rows, size, n - 1) == rows[..Min(lo, |rows|)]
    ensures FirstPages(rows, size, n) == rows[..Min(lo + size, |rows|)]
  {
    var before, after := Min(lo, |rows|), Min(lo + size, |rows|);
    WindowSlice(rows, lo, size);
    assert rows[..after] == rows[..before] + rows[before..after];
  }

  /** Each page starts `size` rows after the one before it, and never before row 0. */
  lemma OffsetStep(n: nat, size: int)
    requires size > 0
    ensures Offset(n + 1, size) == Offset(n, size) + size
    ensures n > 0 ==> Offset(n, size) >= 0
  {
    if n > 0 {
      MulMonotone(0, n - 1, size);
    }
  }

  /** Walking pages 1 .. page_count of a total visits every one of at most `total` rows once,
      in order; with the rows' own count as the total it visits exactly all of them. */
  lemma PagesCoverAllRows<T>(rows: seq<T>, size: int, total: int)
    requires size > 0 && |rows| <= total
    ensures FirstPages(rows, size, GoPageCount(total, size).value) == rows
  {
    var pc := GoPageCount(total, size).value;
    FirstPagesArePrefix(rows, size, pc);
    assert Offset(pc + 1, size) == pc * size;
  }
}
