/**
 * The shared base of every reactive slice: one upstream sequence of elements
 * and one optional page descriptor. Every paging fact that does not depend on
 * whether a next slice exists is derived here; the two facts that do
 * (`isLast`, `nextPageable`) take the variant's own `hasNext` answer.
 */
module ChunkPublisher {
  import opened Paging

  /** Element-wise conversion of a sequence, in order (`Flux.map`). */
  function Convert<T, S>(s: seq<T>, f: T -> S): (r: seq<S>)
    ensures |r| == |s|
    ensures forall i :: 0 <= i < |s| ==> r[i] == f(s[i])
  {
    if s == [] then [] else [f(s[0])] + Convert(s[1..], f)
  }

  /**
   * A chunk of data restricted by an optional page descriptor. `upstream`
   * is the finite sequence the publisher yields; `pageable` is `None` for an
   * unpaged chunk.
   */
  datatype Chunk<T> = Chunk(upstream: seq<T>, pageable: Option<PageRequest>) {

    /** Zero-based number of this slice; 0 when unpaged. */
    function Number(): (r: nat)
      ensures pageable.None? ==> r == 0
      ensures pageable.Some? ==> r == pageable.value.page
    {
      if pageable.None? then 0 else pageable.value.page
    }

    /** Requested size of this slice; 0 when unpaged. */
    function Size(): (r: nat)
      ensures pageable.None? ==> r == 0
      ensures pageable.Some? ==> r == pageable.value.size
    {
      if pageable.None? then 0 else pageable.value.size
    }

    /** Number of elements the upstream yields. */
    function Count(): (r: nat)
      ensures r == |upstream|
    {
      |upstream|
    }

    /** Whether a previous slice exists: exactly when this is not page 0. */
    function HasPrevious(): (r: bool)
      ensures r <==> pageable.Some? && pageable.value.page > 0
    {
      Number() > 0
    }

    /** Whether this is the first slice: exactly when it is page 0 (or unpaged). */
    function IsFirst(): (r: bool)
      ensures r <==> Number() == 0
    {
      !HasPrevious()
    }

    /** The base rule for `isLast`: the negation of the variant's `hasNext`. */
    function IsLast(hasNext: bool): (r: bool)
      ensures r != hasNext
    {
      !hasNext
    }

    /**
     * The descriptor of the next slice when the variant says one exists,
     * nothing otherwise. A variant that answers `hasNext` without a
     * descriptor makes the source dereference `null`, hence the requires.
     */
    function NextPageable(hasNext: bool): (r: Option<PageRequest>)
      requires hasNext ==> pageable.Some?
      ensures r.Some? <==> hasNext
      ensures r.Some? ==> r.value.page == Number() + 1 && r.value.size == Size()
                          && r.value.sort == Sorting()
      ensures r.Some? ==> r.value.Offset() == pageable.value.Offset() + Size()
    {
      if hasNext then Some(pageable.value.Next()) else None
    }

    /** The descriptor of the previous slice when one exists, nothing on the first. */
    function PreviousPageable(): (r: Option<PageRequest>)
      ensures r.None? <==> IsFirst()
      ensures r.Some? ==> r.value.page + 1 == Number() && r.value.size == Size()
                          && r.value.sort == Sorting()
      ensures r.Some? ==> r.value.Offset() + Size() == pageable.value.Offset()
    {
      if HasPrevious() then Some(pageable.value.PreviousOrFirst()) else None
    }

    /** Whether the upstream yields anything at all. */
    function HasElements(): (r: bool)
      ensures r <==> Count() > 0
    {
      upstream != []
    }

    /** The descriptor's sort; nothing when unpaged. */
    function Sorting(): (r: Option<Sort>)
      ensures pageable.None? ==> r.None?
      ensures pageable.Some? ==> r == pageable.value.sort
    {
      if pageable.None? then None else pageable.value.sort
    }

    /**
     * The upstream converted element by element; a missing converter is
     * rejected as an illegal argument.
     */
    function ConvertedContent<S>(converter: Option<T -> S>): (r: Result<seq<S>>)
      ensures r.Failure? <==> converter.None?
      ensures r.Success? ==> |r.value| == |upstream|
      ensures r.Success? ==>
                forall i :: 0 <= i < |upstream| ==> r.value[i] == converter.value(upstream[i])
    {
      if converter.None? then Failure(IllegalArgument("Converter must not be null!"))
      else Success(Convert(upstream, converter.value))
    }
  }

  /**
   * Constructs a chunk; a missing upstream is rejected, a missing descriptor
   * is allowed and means unpaged.
   */
  function NewChunk<T>(upstream: Option<seq<T>>, pageable: Option<PageRequest>): (r: Result<Chunk<T>>)
    ensures r.Failure? <==> upstream.None?
    ensures r.Success? ==> r.value.upstream == upstream.value && r.value.pageable == pageable
  {
    if upstream.None? then Failure(IllegalArgument("Flux must not be null!"))
    else Success(Chunk(upstream.value, pageable))
  }

  /**
   * Chunk equality: equal upstreams and descriptors that are both absent or
   * equal. It coincides with equality of the chunk values.
   */
  function ChunkEquals<T(==)>(a: Chunk<T>, b: Chunk<T>): (r: bool)
    ensures r <==> a == b
  {
    var contentEqual := a.upstream == b.upstream;
    var pageableEqual := if a.pageable.None? then b.pageable.None? else a.pageable == b.pageable;
    contentEqual && pageableEqual
  }

  /** An unpaged chunk is the first slice, of number and size 0, with no previous slice. */
  lemma UnpagedChunkFacts<T>(c: Chunk<T>)
    requires c.pageable.None?
    ensures c.Number() == 0 && c.Size() == 0 && c.Sorting().None?
    ensures c.IsFirst() && !c.HasPrevious() && c.PreviousPageable().None?
  {
  }

  /** Converting the content never changes how many elements there are. */
  lemma ConvertKeepsCount<T, S>(c: Chunk<T>, f: T -> S)
    ensures c.ConvertedContent(Some(f)).Success?
    ensures Chunk(c.ConvertedContent(Some(f)).value, c.pageable).Count() == c.Count()
    ensures Chunk(c.ConvertedContent(Some(f)).value, c.pageable).HasElements() == c.HasElements()
  {
  }
}
