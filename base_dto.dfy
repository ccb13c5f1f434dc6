// The response envelopes every controller returns: a success/failure wrapper and
// the page of a paged query together with its page arithmetic.

module BaseDto {
  import opened Common
  import opened Seqs

  /** `ApiResponse<T>` */
  datatype ApiResponse<T> = ApiResponse(success: bool, message: Option<string>, data: Option<T>)

  /** `ApiResponse<T>.CreateSuccess(data, message)` */
  function CreateSuccess<T>(data: T, message: Option<string>): (r: ApiResponse<T>)
    ensures r.success && r.data == Some(data) && r.message == message
  {
    ApiResponse(true, message, Some(data))
  }

  /** `ApiResponse<T>.CreateFailure(message)`: no data, the message always set. */
  function CreateFailure<T>(message: string): (r: ApiResponse<T>)
    ensures !r.success && r.data.None? && r.message == Some(message)
  {
    ApiResponse(false, Some(message), None)
  }

  /** `PagedResponse<T>` */
  datatype PagedResponse<T> = PagedResponse(page: int, pageSize: int, totalCount: int, items: seq<T>)
  {
    /** `(int)Math.Ceiling(TotalCount / (double)PageSize)`: the exact ceiling of the quotient. */
    function TotalPages(): (r: int)
      requires pageSize > 0
      ensures (r - 1) * pageSize < totalCount <= r * pageSize
    {
      var q := (-totalCount) / pageSize;
      assert -totalCount == q * pageSize + (-totalCount) % pageSize;
      assert (-q) * pageSize == -(q * pageSize);
      assert (-q - 1) * pageSize == -(q * pageSize) - pageSize;
      -q
    }

    predicate HasNextPage()
      requires pageSize > 0
    {
      page < TotalPages()
    }

    predicate HasPreviousPage() {
      page > 1
    }
  }

  lemma MulMonotone(a: int, b: int, s: int)
    requires a <= b && s > 0
    ensures a * s <= b * s
  {
    assert b * s - a * s == (b - a) * s;
  }

  /** There is a next page exactly when the rows so far do not cover the total. */
  lemma HasNextPageIff<T>(r: PagedResponse<T>)
    requires r.pageSize > 0
    ensures r.HasNextPage() <==> r.page * r.pageSize < r.totalCount
  {
    var n := r.TotalPages();
    if r.page < n {
      MulMonotone(r.page, n - 1, r.pageSize);
    } else {
      MulMonotone(n, r.page, r.pageSize);
    }
  }

  /** The page `PageOf` cuts for a query, wrapped with the query's total. */
  function PageResponse<T(!new)>(rows: seq<T>, page: int, pageSize: int): (r: PagedResponse<T>)
    ensures r.totalCount == |rows| && r.page == page && r.pageSize == pageSize
    ensures |r.items| <= if pageSize <= 0 then 0 else pageSize
    ensures forall x :: x in r.items ==> x in rows
  {
    PagedResponse(page, pageSize, |rows|, PageOf(rows, page, pageSize))
  }

  /** A next page is announced exactly when rows exist after the ones on this page. */
  lemma NextPageMeansMoreRows<T(!new)>(rows: seq<T>, page: int, pageSize: int)
    requires page >= 1 && pageSize >= 1
    ensures PageResponse(rows, page, pageSize).HasNextPage() <==>
            |rows| > Offset(page, pageSize) + |PageOf(rows, page, pageSize)|
  {
    HasNextPageIff(PageResponse(rows, page, pageSize));
    assert Offset(page, pageSize) + pageSize == page * pageSize;
  }

  /**
   * A previous page is announced exactly when the query skipped rows to reach this page,
   * and then it skipped at least a whole page of them.
   */
  lemma PreviousPageMeansSkippedRows<T(!new)>(rows: seq<T>, page: int, pageSize: int)
    requires page >= 1 && pageSize >= 1
    ensures PageResponse(rows, page, pageSize).HasPreviousPage() <==> Offset(page, pageSize) > 0
    ensures PageResponse(rows, page, pageSize).HasPreviousPage() ==> Offset(page, pageSize) >= pageSize
  {
    if page >= 2 {
      MulMonotone(1, page - 1, pageSize);
    }
  }
}
