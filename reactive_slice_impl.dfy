/**
 * The slice variant: whether a next slice exists is known out of band and
 * stored as a flag, so answering it never consults the upstream.
 */
module SliceImpl {
  import opened Paging
  import opened ChunkPublisher

  datatype ReactiveSliceImpl<T> = ReactiveSliceImpl(chunk: Chunk<T>, hasNextFlag: bool) {

    /** Whether a next slice exists: the stored flag, whatever the upstream holds. */
    function HasNext(): (r: bool)
      ensures r == hasNextFlag
    {
      hasNextFlag
    }

    /** Whether this is the last slice: exactly when the stored flag is false. */
    function IsLast(): (r: bool)
      ensures r <==> !hasNextFlag
    {
      chunk.IsLast(HasNext())
    }

    /**
     * The descriptor of the next slice when the flag is set. A set flag
     * without a descriptor dereferences `null` in the source.
     */
    function NextPageable(): (r: Option<PageRequest>)
      requires hasNextFlag ==> chunk.pageable.Some?
      ensures r.Some? <==> hasNextFlag
      ensures r.Some? ==> r.value == chunk.pageable.value.Next()
    {
      chunk.NextPageable(HasNext())
    }

    /**
     * A new slice over the converted content, with the same descriptor and
     * the same flag; a missing converter is rejected.
     */
    function Map<S>(converter: Option<T -> S>): (r: Result<ReactiveSliceImpl<S>>)
      ensures r.Failure? <==> converter.None?
      ensures r.Success? ==> r.value.chunk.pageable == chunk.pageable
      ensures r.Success? ==> r.value.hasNextFlag == hasNextFlag
      ensures r.Success? ==> |r.value.chunk.upstream| == |chunk.upstream|
      ensures r.Success? ==> forall i :: 0 <= i < |chunk.upstream| ==>
                r.value.chunk.upstream[i] == converter.value(chunk.upstream[i])
    {
      match chunk.ConvertedContent(converter)
      case Failure(e) => Failure(e)
      case Success(content) => Success(ReactiveSliceImpl(Chunk(content, chunk.pageable), hasNextFlag))
    }
  }

  /**
   * Constructs a slice from content, an optional descriptor and the flag; a
   * missing upstream is rejected by the chunk.
   */
  function NewSlice<T>(upstream: Option<seq<T>>, pageable: Option<PageRequest>, hasNext: bool)
    : (r: Result<ReactiveSliceImpl<T>>)
    ensures r.Failure? <==> upstream.None?
    ensures r.Success? ==> r.value.chunk == Chunk(upstream.value, pageable) && r.value.hasNextFlag == hasNext
  {
    match NewChunk(upstream, pageable)
    case Failure(e) => Failure(e)
    case Success(c) => Success(ReactiveSliceImpl(c, hasNext))
  }

  /**
   * The single-argument constructor: the slice is the whole content, unpaged
   * and without a next slice. So it is both first and last, has number and
   * size 0, and offers neither a next nor a previous descriptor.
   */
  function NewWholeSlice<T>(content: Option<seq<T>>): (r: Result<ReactiveSliceImpl<T>>)
    ensures r.Failure? <==> content.None?
    ensures r.Success? ==> r.value.chunk.upstream == content.value && r.value.chunk.Count() == |content.value|
    ensures r.Success? ==> r.value.chunk.Number() == 0 && r.value.chunk.Size() == 0
    ensures r.Success? ==> r.value.chunk.IsFirst() && r.value.IsLast()
    ensures r.Success? ==> r.value.NextPageable().None? && r.value.chunk.PreviousPageable().None?
  {
    NewSlice(content, None, false)
  }

  /**
   * Slice equality: equal flags and equal chunks. It coincides with equality
   * of the slice values.
   */
  function SliceEquals<T(==)>(a: ReactiveSliceImpl<T>, b: ReactiveSliceImpl<T>): (r: bool)
    ensures r <==> a == b
  {
    a.hasNextFlag == b.hasNextFlag && ChunkEquals(a.chunk, b.chunk)
  }

  /**
   * Mapping a slice keeps every paging fact: number, size, sort, count,
   * first/last/next/previous answers and descriptors.
   */
  lemma MapKeepsPagingFacts<T, S>(s: ReactiveSliceImpl<T>, f: T -> S)
    ensures s.Map(Some(f)).Success?
    ensures var m := s.Map(Some(f)).value;
      && m.chunk.Number() == s.chunk.Number() && m.chunk.Size() == s.chunk.Size()
      && m.chunk.Sorting() == s.chunk.Sorting() && m.chunk.Count() == s.chunk.Count()
      && m.chunk.HasElements() == s.chunk.HasElements()
      && m.HasNext() == s.HasNext() && m.IsLast() == s.IsLast()
      && m.chunk.IsFirst() == s.chunk.IsFirst() && m.chunk.HasPrevious() == s.chunk.HasPrevious()
      && m.chunk.PreviousPageable() == s.chunk.PreviousPageable()
    ensures (s.hasNextFlag ==> s.chunk.pageable.Some?) ==>
      s.Map(Some(f)).value.NextPageable() == s.NextPageable()
  {
  }
}
