/** The paginated measurement table: its pagination state and the page requests it issues. */
module MeasurementTable {
  import opened Wrappers
  import opened Sequences
  import Store

  type Measurement = Store.Measurement

  /** The table's pagination record. */
  datatype Pagination = Pagination(current: int, pageSize: int, total: int)

  /** The page request sent to GET /measurements. */
  datatype PageRequest = PageRequest(offset: int, limit: int)

  /** The first row of page `page` (pages count from 1). */
  function PageOffset(page: int, pageSize: int): int {
    (page - 1) * pageSize
  }

  class Table {
    var loading: bool
    var data: seq<Measurement>
    var pagination: Pagination

    /** Not loading, no data, page 1 of size 10, total 0. */
    constructor()
      ensures !loading && data == [] && pagination == Pagination(1, 10, 0)
    {
      loading := false;
      data := [];
      pagination := Pagination(1, 10, 0);
    }

    /** `fetchMeasurements` up to the request: loading is set and page `page` is requested. */
    method FetchMeasurements(page: int, pageSize: int) returns (request: PageRequest)
      modifies this
      ensures loading
      ensures request.offset == PageOffset(page, pageSize) && request.limit == pageSize
      ensures data == old(data) && pagination == old(pagination)
    {
      loading := true;
      var offset := (page - 1) * pageSize;
      request := PageRequest(offset, pageSize);
    }

    /**
     * The settled request (None: it failed). On success the data and the total come from the response and
     * the current page and page size stay; either way loading ends.
     */
    method OnFetchSettled(response: Option<(seq<Measurement>, int)>)
      modifies this
      ensures !loading
      ensures response.Some? ==> data == response.value.0
                                 && pagination == Pagination(old(pagination.current), old(pagination.pageSize), response.value.1)
      ensures response.None? ==> data == old(data) && pagination == old(pagination)
    {
      if response.Some? {
        data := response.value.0;
        pagination := pagination.(total := response.value.1);
      }
      loading := false;
    }

    /** `handleTableChange`: the new pagination replaces the old one wholesale. */
    method HandleTableChange(newPagination: Pagination)
      modifies this
      ensures pagination == newPagination
      ensures loading == old(loading) && data == old(data)
    {
      pagination := newPagination;
    }
  }

  /** Page p + 1 starts where page p ends, and pages from 1 on never start before the first row. */
  lemma {:induction false} ConsecutivePagesAreAdjacent(page: int, pageSize: nat)
    requires page >= 1
    ensures PageOffset(page, pageSize) >= 0
    ensures PageOffset(page + 1, pageSize) == PageOffset(page, pageSize) + pageSize
  {
    NonNegativeProduct(page - 1, pageSize);
    assert page * pageSize == (page - 1) * pageSize + pageSize;
  }

  lemma NonNegativeProduct(a: nat, b: nat)
    ensures a * b >= 0
  {
  }

  /**
   * Without ties in the timestamp, the rows of two consecutive pages are the rows of one page twice as large:
   * they neither overlap nor leave a gap.
   */
  lemma {:induction false} ConsecutivePagesTile(rows: seq<Measurement>, page: int, pageSize: nat, offset: int, next: int)
    requires Store.NoTies(rows)
    requires page >= 1 && offset == PageOffset(page, pageSize) && next == PageOffset(page + 1, pageSize)
    ensures var a := Store.GetAllMeasurements(rows, pageSize, offset);
      var b := Store.GetAllMeasurements(rows, pageSize, next);
      a.Success? && b.Success? && a.value + b.value == Store.Window(SortBy(rows, Store.NewestFirst), pageSize + pageSize, offset)
  {
    ConsecutivePagesAreAdjacent(page, pageSize);
    TileAt(rows, pageSize, offset, next);
  }

  lemma {:induction false} TileAt(rows: seq<Measurement>, pageSize: nat, offset: nat, next: int)
    requires Store.NoTies(rows)
    requires next == offset + pageSize
    ensures Store.GetAllMeasurements(rows, pageSize, offset).Success?
    ensures Store.GetAllMeasurements(rows, pageSize, next).Success?
    ensures Store.GetAllMeasurements(rows, pageSize, offset).value + Store.GetAllMeasurements(rows, pageSize, next).value
         == Store.Window(SortBy(rows, Store.NewestFirst), pageSize + pageSize, offset)
  {
    var sorted := SortBy(rows, Store.NewestFirst);
    var w1, w2 := Store.Window(sorted, pageSize, offset), Store.Window(sorted, pageSize, next);
    assert w1 + w2 == Store.Window(sorted, pageSize + pageSize, offset) by {
      Store.AdjacentWindows(sorted, pageSize, pageSize, offset);
    }
    assert Store.GetAllMeasurements(rows, pageSize, offset) == Success(w1) by {
      Store.PageIsWindow(rows, pageSize, offset);
    }
    assert Store.GetAllMeasurements(rows, pageSize, next) == Success(w2) by {
      Store.PageIsWindow(rows, pageSize, next);
    }
    assert Store.GetAllMeasurements(rows, pageSize, offset).value + Store.GetAllMeasurements(rows, pageSize, next).value
        == w1 + w2;
  }

  /** Page 0 or below with a positive page size asks for a negative offset, which the server rejects. */
  lemma {:induction false} PageBeforeFirstIsRejected(rows: seq<Measurement>, page: int, pageSize: int)
    requires page < 1 && pageSize > 0
    ensures Store.GetAllMeasurements(rows, pageSize, PageOffset(page, pageSize)).Failure?
  {
    assert (page - 1) * pageSize <= -pageSize by {
      assert (page - 1) * pageSize == (page - 1) * (pageSize - 1) + (page - 1);
      NonPositiveProduct(page - 1, pageSize - 1);
    }
  }

  lemma NonPositiveProduct(a: int, b: nat)
    requires a <= 0
    ensures a * b <= 0
  {
  }
}
