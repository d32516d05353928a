/**
 * The capability contracts: a reactive slice is one of the two variants, and
 * a reactive page is a slice of the page variant, with two more observables
 * and a `map` that keeps it a page.
 */
module Slices {
  import opened Paging
  import opened ChunkPublisher
  import opened SliceImpl
  import opened PageImpl

  /** A reactive slice: the flagged slice variant or the total-aware page variant. */
  datatype ReactiveSlice<T> = Slice(slice: ReactiveSliceImpl<T>) | Page(page: ReactivePageImpl<T>) {

    /** The chunk both variants are built on. */
    function Base(): Chunk<T> {
      match this
      case Slice(s) => s.chunk
      case Page(p) => p.chunk
    }

    /** Number of the slice; a `nat`, so never negative. */
    function Number(): (r: nat)
      ensures Base().pageable.Some? ==> r == Base().pageable.value.page
      ensures Base().pageable.None? ==> r == 0
    {
      Base().Number()
    }

    /** The number of elements currently on the slice. */
    function Count(): (r: nat)
      ensures r == |Base().upstream|
    {
      Base().Count()
    }

    /** Whether a next slice exists, as the variant decides it. */
    function HasNext(): (r: bool)
      ensures Slice? ==> r == slice.hasNextFlag
      ensures Page? ==> (r <==> Number() + 1 < page.TotalPages())
    {
      match this
      case Slice(s) => s.HasNext()
      case Page(p) => p.HasNext()
    }

    /** Whether this is the last slice: for every variant, exactly when no next slice exists. */
    function IsLast(): (r: bool)
      ensures r <==> !HasNext()
    {
      match this
      case Slice(s) => s.IsLast()
      case Page(p) => p.IsLast()
    }

    /** Whether this is the first slice: exactly when its number is 0. */
    function IsFirst(): (r: bool)
      ensures r <==> Number() == 0
    {
      Base().IsFirst()
    }

    /**
     * The descriptor of the next slice; nothing exactly when this is the
     * last slice.
     */
    function NextPageable(): (r: Option<PageRequest>)
      requires HasNext() ==> Base().pageable.Some?
      ensures r.None? <==> IsLast()
      ensures r.Some? ==> r.value == Base().pageable.value.Next()
    {
      match this
      case Slice(s) => s.NextPageable()
      case Page(p) => p.NextPageable()
    }

    /**
     * The descriptor of the previous slice; nothing exactly when this is the
     * first slice.
     */
    function PreviousPageable(): (r: Option<PageRequest>)
      ensures r.None? <==> IsFirst()
      ensures r.Some? ==> r.value == Base().pageable.value.PreviousOrFirst()
    {
      Base().PreviousPageable()
    }

    /**
     * A new slice of the same kind whose content is this content mapped by
     * the converter, with the same descriptor; a missing converter is
     * rejected.
     */
    function Map<S>(converter: Option<T -> S>): (r: Result<ReactiveSlice<S>>)
      ensures r.Failure? <==> converter.None?
      ensures r.Success? ==> (r.value.Page? <==> Page?)
      ensures r.Success? ==> r.value.Base().pageable == Base().pageable
      ensures r.Success? ==> |r.value.Base().upstream| == |Base().upstream|
      ensures r.Success? ==> forall i :: 0 <= i < |Base().upstream| ==>
                r.value.Base().upstream[i] == converter.value(Base().upstream[i])
    {
      match this
      case Slice(s) =>
        (match s.Map(converter)
         case Failure(e) => Failure(e)
         case Success(m) => Success(Slice(m)))
      case Page(p) =>
        (match p.Map(converter)
         case Failure(e) => Failure(e)
         case Success(m) => Success(Page(m)))
    }
  }

  /** A reactive page: a reactive slice of the page variant. */
  type ReactivePage<T> = s: ReactiveSlice<T> | s.Page? witness Page(ReactivePageImpl(Chunk([], None), 0))

  /** The number of pages of a reactive page. */
  function TotalPages<T>(p: ReactivePage<T>): (r: nat)
    ensures p.Base().Size() == 0 ==> r == 1
    ensures p.Base().Size() > 0 ==> (p.HasNext() <==> p.Number() + 1 < r)
  {
    p.page.TotalPages()
  }

  /** The reconciled total number of elements of a reactive page. */
  function TotalElements<T>(p: ReactivePage<T>): (r: nat)
    ensures !p.Base().HasElements() || p.Base().pageable.None? ==> r == p.page.total
  {
    p.page.TotalElements()
  }

  /**
   * `map` on a page yields a page, not merely a slice, with the same totals
   * and the same answer to `hasNext`.
   */
  function MapPage<T, S>(p: ReactivePage<T>, converter: Option<T -> S>): (r: Result<ReactivePage<S>>)
    ensures r.Failure? <==> converter.None?
    ensures r.Success? ==> TotalElements(r.value) == TotalElements(p)
    ensures r.Success? ==> TotalPages(r.value) == TotalPages(p)
    ensures r.Success? ==> r.value.HasNext() == p.HasNext()
    ensures r.Success? ==> r.value.Base().pageable == p.Base().pageable
    ensures r.Success? ==> |r.value.Base().upstream| == |p.Base().upstream|
    ensures r.Success? ==> forall i :: 0 <= i < |p.Base().upstream| ==>
              r.value.Base().upstream[i] == converter.value(p.Base().upstream[i])
  {
    match p.page.Map(converter)
    case Failure(e) => Failure(e)
    case Success(m) =>
      assert m.TotalElements() == p.page.TotalElements() && m.TotalPages() == p.page.TotalPages()
             && m.HasNext() == p.page.HasNext() by {
        MapKeepsTotals(p.page, converter.value);
      }
      Success(Page(m))
  }

  /**
   * A page never claims a next page without a descriptor: an unpaged page
   * has size 0, hence one page, hence no next page. So `NextPageable` is
   * defined on every page.
   */
  lemma {:induction false} PageHasNextOnlyWhenPaged<T>(p: ReactivePage<T>)
    ensures p.HasNext() ==> p.Base().pageable.Some?
    ensures p.Base().pageable.None? ==> TotalPages(p) == 1 && p.IsLast() && p.IsFirst()
  {
  }

  /**
   * Mapping keeps every paging fact of either kind: number, size, sort,
   * count, emptiness and the first/last/next/previous answers and
   * descriptors.
   */
  lemma {:induction false} MapKeepsPagingFacts<T, S>(s: ReactiveSlice<T>, f: T -> S)
    ensures s.Map(Some(f)).Success?
    ensures var m := s.Map(Some(f)).value;
      && m.Number() == s.Number() && m.Base().Size() == s.Base().Size()
      && m.Base().Sorting() == s.Base().Sorting()
      && m.Count() == s.Count() && m.Base().HasElements() == s.Base().HasElements()
      && m.HasNext() == s.HasNext() && m.IsLast() == s.IsLast()
      && m.IsFirst() == s.IsFirst() && m.PreviousPageable() == s.PreviousPageable()
  {
    if s.Page? {
      MapKeepsTotals(s.page, f);
    }
  }

  /**
   * Equality across the interface: slices compare as slices, pages as pages,
   * and a slice never equals a page.
   */
  function SlicesEqual<T(==)>(a: ReactiveSlice<T>, b: ReactiveSlice<T>): (r: bool)
    ensures r ==> (a.Page? <==> b.Page?)
    ensures a.Slice? && b.Slice? ==> (r <==> a == b)
    ensures a.Page? && b.Page? ==>
              (r <==> a.Base() == b.Base() && TotalElements(a) == TotalElements(b))
  {
    match (a, b)
    case (Slice(x), Slice(y)) => SliceEquals(x, y)
    case (Page(x), Page(y)) => PageEquals(x, y)
    case _ => false
  }

  /** Equality of reactive slices is reflexive, symmetric and transitive. */
  lemma SlicesEqualIsEquivalence<T>(a: ReactiveSlice<T>, b: ReactiveSlice<T>, c: ReactiveSlice<T>)
    ensures SlicesEqual(a, a)
    ensures SlicesEqual(a, b) == SlicesEqual(b, a)
    ensures SlicesEqual(a, b) && SlicesEqual(b, c) ==> SlicesEqual(a, c)
  {
  }
}
