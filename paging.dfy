/**
 * The collaborators of the reactive pagination core, reduced to what the core
 * consumes: the page descriptor (a `PageRequest`, absent when the slice is
 * unpaged), its sort order, the optional-value and error-result shapes that
 * stand for Java's nullable references and `IllegalArgumentException`.
 */
module Paging {

  /** A nullable reference: `None` is Java's `null`. */
  datatype Option<+T> = None | Some(value: T)

  /** What `Assert.notNull` throws. */
  datatype Error = IllegalArgument(message: string)

  /** A value, or the exception a constructor or `map` raises instead. */
  datatype Result<+T> = Success(value: T) | Failure(error: Error)

  /** Stand-in for Spring's `Sort`: an ordered list of property orders. */
  datatype Direction = Asc | Desc
  datatype Order = Order(property: string, direction: Direction)
  datatype Sort = Sort(orders: seq<Order>)

  /**
   * The page descriptor (`Pageable`/`PageRequest`): a zero-based page number,
   * a page size and an optional sort (`new PageRequest(page, size)` leaves
   * the sort `null`).
   */
  datatype PageRequest = PageRequest(page: nat, size: nat, sort: Option<Sort>) {

    /**
     * Index of the first element of this page in the whole collection: the
     * elements of all preceding pages. It is 0 exactly on the first page or
     * for size 0.
     */
    function Offset(): (r: nat)
      ensures r == 0 <==> page == 0 || size == 0
    {
      page * size
    }

    /** The descriptor of the following page, same size and sort. */
    function Next(): (r: PageRequest)
      ensures r.page == page + 1 && r.size == size && r.sort == sort
      ensures r.Offset() == Offset() + size
    {
      MulSucc(page, size);
      PageRequest(page + 1, size, sort)
    }

    /**
     * The descriptor of the preceding page, or the first page (this one)
     * when this is already the first.
     */
    function PreviousOrFirst(): (r: PageRequest)
      ensures page == 0 ==> r == this
      ensures page > 0 ==> r.page == page - 1 && r.size == size && r.sort == sort
      ensures page > 0 ==> r.Offset() + size == Offset()
    {
      if page == 0 then this
      else
        MulSucc(page - 1, size);
        PageRequest(page - 1, size, sort)
    }
  }

  /** `(k + 1) * n` distributes. */
  lemma MulSucc(k: nat, n: nat)
    ensures (k + 1) * n == k * n + n
  {
  }

  /** Multiplication by a natural number is monotone. */
  lemma MulMonotone(x: nat, y: nat, n: nat)
    requires x <= y
    ensures x * n <= y * n
  {
    assert y * n == x * n + (y - x) * n;
  }
}
