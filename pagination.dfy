/** Paging: the request and response helpers of domain/models/common.go, the
    page window gorm's Offset/Limit select, and the page arithmetic the list
    handlers do on their `page` and `page_size` query parameters. */
module Pagination {
  import opened Common
  import opened Numbers

  datatype PaginationRequest = PaginationRequest(search: string, page: int, perPage: int)

  datatype PaginationResponse = PaginationResponse(page: int, perPage: int, maxPage: int, count: int)

  /** The row offset of a 1-based page, as Go's int arithmetic computes it. */
  function Offset(page: int, pageSize: int): int {
    Wrap64((page - 1) * pageSize)
  }

  /** PaginationRequest.GetOffset. */
  function GetOffset(p: PaginationRequest): int {
    Offset(p.page, p.perPage)
  }

  /** PaginationResponse.GetLimit: the page size, unchanged. */
  function GetLimit(p: PaginationResponse): (limit: int)
    ensures limit == p.perPage
  {
    p.perPage
  }

  /** PaginationResponse.GetPage: the page number, unchanged. */
  function GetPage(p: PaginationResponse): (page: int)
    ensures page == p.page
  {
    p.page
  }

  /** Page 1 starts at row 0, and while the product fits in an int64 each
      further page starts PerPage rows later. */
  lemma GetOffsetSteps(p: PaginationRequest)
    ensures p.page == 1 ==> GetOffset(p) == 0
    ensures IsInt64((p.page - 1) * p.perPage) ==> GetOffset(p) == (p.page - 1) * p.perPage
    ensures IsInt64((p.page - 1) * p.perPage) && IsInt64(p.page * p.perPage)
            ==> GetOffset(p.(page := p.page + 1)) == GetOffset(p) + p.perPage
  {
  }

  /** Pages of 1-based number and positive size start at a non-negative row
      while the offset fits in an int64. */
  lemma GetOffsetNonNegative(p: PaginationRequest)
    requires p.page >= 1 && p.perPage >= 0
    requires (p.page - 1) * p.perPage <= MaxInt64
    ensures GetOffset(p) >= 0
  {
  }

  /** The rows that `.Offset(offset).Limit(limit)` selects: gorm writes no
      OFFSET clause for an offset that is not positive and no LIMIT clause
      for a negative limit. */
  function Window<T>(rows: seq<T>, offset: int, limit: int): (w: seq<T>)
    ensures limit >= 0 ==> |w| <= limit
    ensures offset <= 0 && limit < 0 ==> w == rows
    ensures offset >= |rows| ==> w == []
  {
    var start := if offset <= 0 then 0 else if offset < |rows| then offset else |rows|;
    var end := if limit < 0 || start + limit > |rows| then |rows| else start + limit;
    rows[start..end]
  }

  /** The rows of 1-based page `page` of size `pageSize`. */
  function PageOf<T>(rows: seq<T>, page: int, pageSize: int): seq<T> {
    Window(rows, Offset(page, pageSize), pageSize)
  }

  /** A page of results with the total number of rows. */
  datatype Paged<T> = Paged(items: seq<T>, total: nat)

  /** A page holds the rows from its offset on, as many as fit the size. */
  lemma PageOfContents<T>(rows: seq<T>, page: int, pageSize: int)
    requires page >= 1 && pageSize >= 1
    requires (page - 1) * pageSize <= MaxInt64
    ensures var start := (page - 1) * pageSize;
            var w := PageOf(rows, page, pageSize);
            |w| == (if start >= |rows| then 0 else if |rows| - start < pageSize then |rows| - start else pageSize)
            && forall k :: 0 <= k < |w| ==> w[k] == rows[start + k]
  {
    assert 0 <= (page - 1) * pageSize;
  }

  /** Every row is on exactly the page its index says: row i is entry
      i % size of page i / size + 1. */
  lemma RowOnItsPage<T>(rows: seq<T>, pageSize: int, i: nat)
    requires pageSize >= 1 && i < |rows| && i <= MaxInt64
    ensures var page := i / pageSize + 1;
            var w := PageOf(rows, page, pageSize);
            i % pageSize < |w| && w[i % pageSize] == rows[i]
  {
    var q, r := i / pageSize, i % pageSize;
    PageStart(i, pageSize);
    PageOfContents(rows, q + 1, pageSize);
  }

  /** The page of row i starts at the multiple of the size just below i. */
  lemma PageStart(i: nat, pageSize: int)
    requires pageSize >= 1
    ensures var q, r := i / pageSize, i % pageSize;
            0 <= r < pageSize && (q + 1 - 1) * pageSize == i - r && 0 <= i - r
  {
  }

  /** For a huge page number the offset wraps around to zero, and the first
      page is returned. */
  lemma OffsetWrapsToFirstPage<T>(rows: seq<T>)
    ensures Offset(0x4000_0000_0000_0001, 4) == 0
    ensures PageOf(rows, 0x4000_0000_0000_0001, 4) == PageOf(rows, 1, 4)
  {
  }

  // ---------------------------------------------------------------------------
  // The list handlers' query parameters

  /** c.DefaultQuery: the query value when the key is present, else the default. */
  function QueryOr(q: Option<string>, default: string): string {
    match q
    case Some(s) => s
    case None => default
  }

  /** A query number that falls back to `fallback` unless it parses as an int
      of at least 1. */
  function PositiveOr(text: string, fallback: int): (n: int)
    requires fallback >= 1
    ensures 1 <= n && (n <= MaxInt64 || n == fallback)
  {
    match Atoi(text)
    case Some(v) => if v < 1 then fallback else v
    case None => fallback
  }

  /** The `page` parameter of GetAllRoles, GetAllMenus and GetAllPermissions. */
  function PageParam(q: Option<string>): int {
    PositiveOr(QueryOr(q, "1"), 1)
  }

  /** The `page_size` parameter of the same handlers. */
  function PageSizeParam(q: Option<string>): int {
    PositiveOr(QueryOr(q, "10"), 10)
  }

  /** Absent parameters mean page 1 of 10 rows. */
  lemma PageParamDefaults()
    ensures PageParam(None) == 1 && PageSizeParam(None) == 10
  {
    assert Atoi("1") == Some(1) by { AtoiItoa(1); }
    assert Atoi("10") == Some(10) by { AtoiItoa(10); }
  }

  /** Every positive int64 written in decimal is taken as given. */
  lemma PageParamKeepsPositive(n: int)
    requires 1 <= n <= MaxInt64
    ensures PageParam(Some(Itoa(n))) == n && PageSizeParam(Some(Itoa(n))) == n
  {
    AtoiItoa(n);
  }

  /** A value that does not parse, or parses below 1, falls back to the default. */
  lemma PageParamFallback(s: string)
    requires Atoi(s).None? || Atoi(s).value < 1
    ensures PageParam(Some(s)) == 1 && PageSizeParam(Some(s)) == 10
  {
  }

  /** total_page as the handlers write it: (total + pageSize - 1) / pageSize in
      int64 arithmetic, which wraps and truncates toward zero. */
  function TotalPageAsWritten(total: int, pageSize: int): int
    requires pageSize >= 1
  {
    GoDiv(Wrap64(total + pageSize - 1), pageSize)
  }

  /** The number of pages of `pageSize` rows that `total` rows fill: the
      ceiling of total / pageSize, computed without overflow. */
  function TotalPage(total: nat, pageSize: int): (n: nat)
    requires pageSize >= 1
    ensures total <= n * pageSize
    ensures n == 0 || (n - 1) * pageSize < total
    ensures total <= MaxInt64 ==> n <= MaxInt64
  {
    if total == 0 then 0
    else
      var q, r := (total - 1) / pageSize, (total - 1) % pageSize;
      assert total - 1 == q * pageSize + r;
      assert q <= total - 1;
      q + 1
  }

  /** With a page size of MaxInt64 the expression wraps and five rows are
      said to fill zero pages. */
  lemma TotalPageOverflows()
    ensures TotalPageAsWritten(5, MaxInt64) == 0
    ensures TotalPage(5, MaxInt64) == 1
  {
  }

  /** The two agree whenever the sum fits in an int64. */
  lemma TotalPageAgrees(total: nat, pageSize: int)
    requires pageSize >= 1 && total + pageSize - 1 <= MaxInt64
    ensures TotalPageAsWritten(total, pageSize) == TotalPage(total, pageSize)
  {
    assert Wrap64(total + pageSize - 1) == total + pageSize - 1;
    if total == 0 {
      DivByParts(pageSize - 1, pageSize, 0, pageSize - 1);
    } else {
      var q, r := (total - 1) / pageSize, (total - 1) % pageSize;
      DivByParts(total + pageSize - 1, pageSize, q + 1, r);
    }
  }

  /** The "meta" object of a list response. */
  datatype ListMeta = ListMeta(page: int, pageSize: int, total: nat, totalPage: nat)

  function ListMetaOf(page: int, pageSize: int, total: nat): (m: ListMeta)
    requires pageSize >= 1
    ensures m.page == page && m.pageSize == pageSize && m.total == total
    ensures total <= m.totalPage * pageSize
    ensures m.totalPage == 0 || (m.totalPage - 1) * pageSize < total
  {
    ListMeta(page, pageSize, total, TotalPage(total, pageSize))
  }
}
