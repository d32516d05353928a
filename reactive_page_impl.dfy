/**
 * The page variant: a slice that also knows the total number of elements,
 * supplied by a separate query and reconciled against the observed element
 * count of this page, and derives the number of pages and `hasNext` from it.
 */
module PageImpl {
  import opened Paging
  import opened ChunkPublisher

  /**
   * The total-element reconciliation. When the page is non-empty, paged, and
   * the supplied total says this page reaches the end (its offset plus its
   * requested size exceeds the total), the page's own tail is taken as the
   * end: the total becomes offset plus observed elements, which can move it
   * down (deletions) as well as up (insertions). Otherwise the supplied total
   * stands.
   */
  function Reconcile(elements: nat, pageable: Option<PageRequest>, total: nat): (r: nat)
    ensures elements == 0 || pageable.None? ==> r == total
    ensures pageable.Some? && pageable.value.Offset() + pageable.value.size <= total ==> r == total
    ensures elements > 0 && pageable.Some? && pageable.value.Offset() + pageable.value.size > total ==>
              r == pageable.value.Offset() + elements
  {
    if elements > 0 && pageable.Some? && pageable.value.Offset() + pageable.value.size > total
    then pageable.value.Offset() + elements
    else total
  }

  /**
   * Reconciling an already reconciled total against the same element count
   * and descriptor changes nothing.
   */
  lemma ReconcileIdempotent(elements: nat, pageable: Option<PageRequest>, total: nat)
    ensures Reconcile(elements, pageable, Reconcile(elements, pageable, total))
            == Reconcile(elements, pageable, total)
  {
  }

  /**
   * For a non-empty page that holds no more than its requested size, the
   * reconciled total always covers the page: its last element lies within
   * the total, whatever total was supplied.
   */
  lemma ReconciledTotalCoversPage(elements: nat, p: PageRequest, total: nat)
    requires 0 < elements <= p.size
    ensures p.Offset() + elements <= Reconcile(elements, Some(p), total)
  {
  }

  /** Integer ceiling of `a / b`: the least number of `b`-sized pages holding `a` elements. */
  function CeilDiv(a: nat, b: nat): (r: nat)
    requires b > 0
    ensures a <= r * b
    ensures r > 0 ==> (r - 1) * b < a
  {
    var q := (a + b - 1) / b;
    assert a + b - 1 == q * b + (a + b - 1) % b;
    MulSucc(if q > 0 then q - 1 else 0, b);
    q
  }

  /** For a positive page size, `k` full pages end before `a` exactly when `k` is below the page count. */
  lemma CeilDivBound(a: nat, b: nat, k: nat)
    ensures b > 0 ==> (k < CeilDiv(a, b) <==> k * b < a)
  {
    if b > 0 {
      var c := CeilDiv(a, b);
      if k < c {
        MulMonotone(k, c - 1, b);
      } else {
        MulMonotone(c, k, b);
      }
    }
  }

  /**
   * A page: a chunk plus the total supplied at construction. The reconciled
   * total is derived from them on demand; it is not stored.
   */
  datatype ReactivePageImpl<T> = ReactivePageImpl(chunk: Chunk<T>, total: nat) {

    /**
     * The reconciled total. An empty or unpaged page reports the supplied
     * total; any other correction puts the end of the collection exactly at
     * the end of this page.
     */
    function TotalElements(): (r: nat)
      ensures !chunk.HasElements() || chunk.pageable.None? ==> r == total
      ensures r != total ==> chunk.pageable.Some? && r == chunk.pageable.value.Offset() + chunk.Count()
    {
      Reconcile(chunk.Count(), chunk.pageable, total)
    }

    /**
     * The number of pages: 1 for an unpaged or zero-size page; otherwise the
     * least number of pages of this size holding the reconciled total (so 0
     * when that total is 0).
     */
    function TotalPages(): (r: nat)
      ensures chunk.Size() == 0 ==> r == 1
      ensures chunk.Size() > 0 ==> TotalElements() <= r * chunk.Size()
      ensures chunk.Size() > 0 && r > 0 ==> (r - 1) * chunk.Size() < TotalElements()
      ensures chunk.Size() > 0 ==> (r == 0 <==> TotalElements() == 0)
    {
      if chunk.Size() == 0 then 1 else CeilDiv(TotalElements(), chunk.Size())
    }

    /**
     * Whether a next page exists: the next page number is below the page
     * count, that is, elements remain after the end of this page.
     */
    function HasNext(): (r: bool)
      ensures r <==> chunk.Number() + 1 < TotalPages()
      ensures chunk.Size() == 0 ==> !r
      ensures chunk.Size() > 0 ==> (r <==> (chunk.Number() + 1) * chunk.Size() < TotalElements())
    {
      CeilDivBound(TotalElements(), chunk.Size(), chunk.Number() + 1);
      chunk.Number() + 1 < TotalPages()
    }

    /** Whether this is the last page: exactly when no next page exists. */
    function IsLast(): (r: bool)
      ensures r <==> !HasNext()
      ensures chunk.Size() > 0 ==> (r <==> TotalElements() <= (chunk.Number() + 1) * chunk.Size())
    {
      chunk.IsLast(HasNext())
    }

    /** The descriptor of the next page when one exists; never dereferences a missing descriptor. */
    function NextPageable(): (r: Option<PageRequest>)
      ensures r.Some? <==> HasNext()
      ensures r.Some? ==> chunk.pageable.Some? && r.value == chunk.pageable.value.Next()
    {
      chunk.NextPageable(HasNext())
    }

    /**
     * A new page over the converted content, with the same descriptor and
     * this page's reconciled total as its supplied total; a missing converter
     * is rejected.
     */
    function Map<S>(converter: Option<T -> S>): (r: Result<ReactivePageImpl<S>>)
      ensures r.Failure? <==> converter.None?
      ensures r.Success? ==> r.value.chunk.pageable == chunk.pageable
      ensures r.Success? ==> r.value.total == TotalElements()
      ensures r.Success? ==> |r.value.chunk.upstream| == |chunk.upstream|
      ensures r.Success? ==> forall i :: 0 <= i < |chunk.upstream| ==>
                r.value.chunk.upstream[i] == converter.value(chunk.upstream[i])
    {
      match chunk.ConvertedContent(converter)
      case Failure(e) => Failure(e)
      case Success(content) => Success(ReactivePageImpl(Chunk(content, chunk.pageable), TotalElements()))
    }
  }

  /**
   * Constructs a page. A missing upstream is rejected first (by the chunk),
   * then a missing total.
   */
  function NewPage<T>(upstream: Option<seq<T>>, pageable: Option<PageRequest>, total: Option<nat>)
    : (r: Result<ReactivePageImpl<T>>)
    ensures upstream.None? ==> r == Failure(IllegalArgument("Flux must not be null!"))
    ensures upstream.Some? && total.None? ==> r == Failure(IllegalArgument("Total must not be null!"))
    ensures r.Success? <==> upstream.Some? && total.Some?
    ensures r.Success? ==> r.value.chunk == Chunk(upstream.value, pageable) && r.value.total == total.value
  {
    match NewChunk(upstream, pageable)
    case Failure(e) => Failure(e)
    case Success(c) =>
      if total.None? then Failure(IllegalArgument("Total must not be null!"))
      else Success(ReactivePageImpl(c, total.value))
  }

  /**
   * Page equality: equal reconciled totals and equal chunks. Two pages can be
   * equal with different supplied totals when these reconcile alike.
   */
  function PageEquals<T(==)>(a: ReactivePageImpl<T>, b: ReactivePageImpl<T>): (r: bool)
    ensures r <==> a.chunk == b.chunk && a.TotalElements() == b.TotalElements()
    ensures a == b ==> r
  {
    a.TotalElements() == b.TotalElements() && ChunkEquals(a.chunk, b.chunk)
  }

  /**
   * Mapping a page keeps its totals: the mapped page re-reconciles the
   * already reconciled total against the same element count and descriptor,
   * so total elements, total pages, `hasNext`, `isLast` and the next
   * descriptor all carry over.
   */
  lemma {:induction false} MapKeepsTotals<T, S>(p: ReactivePageImpl<T>, f: T -> S)
    ensures p.Map(Some(f)).Success?
    ensures p.Map(Some(f)).value.TotalElements() == p.TotalElements()
    ensures p.Map(Some(f)).value.TotalPages() == p.TotalPages()
    ensures p.Map(Some(f)).value.HasNext() == p.HasNext()
    ensures p.Map(Some(f)).value.IsLast() == p.IsLast()
    ensures p.Map(Some(f)).value.NextPageable() == p.NextPageable()
  {
    var m := p.Map(Some(f)).value;
    assert m.chunk.Count() == p.chunk.Count();
    ReconcileIdempotent(p.chunk.Count(), p.chunk.pageable, p.total);
  }

  /**
   * When the correction applies to a page holding at most its requested size,
   * the page becomes the last one: the reconciled total ends on this page.
   */
  lemma {:induction false} CorrectedPageIsLast<T>(p: ReactivePageImpl<T>)
    requires p.chunk.pageable.Some?
    requires 0 < p.chunk.Count() <= p.chunk.Size()
    requires p.chunk.pageable.value.Offset() + p.chunk.Size() > p.total
    ensures p.TotalElements() == p.chunk.pageable.value.Offset() + p.chunk.Count()
    ensures p.TotalPages() == p.chunk.Number() + 1
    ensures p.IsLast() && p.NextPageable().None?
  {
    var pr := p.chunk.pageable.value;
    MulSucc(pr.page, pr.size);
    var c := p.TotalPages();
    if c < pr.page + 1 {
      MulMonotone(c, pr.page, pr.size);
    } else if c > pr.page + 1 {
      MulMonotone(pr.page + 1, c - 1, pr.size);
    }
  }

  /**
   * When the supplied total puts the end of the collection at or beyond the
   * end of this page, the total is kept as is, and a next page exists exactly
   * when the total reaches past the end of this page.
   */
  lemma NonFinalPageKeepsTotal<T>(p: ReactivePageImpl<T>)
    requires p.chunk.pageable.Some?
    requires p.chunk.pageable.value.Offset() + p.chunk.Size() <= p.total
    ensures p.TotalElements() == p.total
    ensures p.chunk.Size() > 0 ==> (p.HasNext() <==> p.chunk.pageable.value.Offset() + p.chunk.Size() < p.total)
  {
    MulSucc(p.chunk.Number(), p.chunk.Size());
  }
}
