# Reactive slices and pages, modelled in Dafny

This project models the pagination core of Spring Data Commons'
`org.springframework.data.domain.reactive` package. A reactive slice wraps
an upstream publisher of elements and an optional page descriptor
(`Pageable`). From these it derives the paging facts: page number and size,
sort, element count, emptiness, first/last, whether a next or previous slice
exists, and the descriptors that request them. It comes in two kinds:

- `ReactiveSliceImpl` stores whether a next slice exists as a flag.
- `ReactivePageImpl` also receives the total number of elements from a
  separate query. It reconciles that total with the number of elements the
  page actually holds, and derives the page count and `hasNext` from the
  reconciled total.

With the Reactor types stripped away, every observable is a plain function
of three inputs: the descriptor, the element sequence and the supplied
total. The model has these parts:

- The upstream `Flux<T>` is a finite `seq<T>`.
- A `Mono<Long>` total is a `nat`.
- `Pageable` is `Option<PageRequest>`. `None` stands for `null`, meaning
  unpaged.
- A `Converter` is a total function `T -> S`. An absent converter is `None`.
- `IllegalArgumentException` from `Assert.notNull` is
  `Failure(IllegalArgument(message))`, with the source's message.

Modules follow the source files:

- `Paging`: the collaborators, reduced to what the core uses. These are
  `PageRequest` with `Offset`, `Next` and `PreviousOrFirst`, plus a
  stand-in `Sort`, `Option` and `Result`.
- `ChunkPublisher` (`ChunkPublisher.java`): the `Chunk<T>` value and every
  fact that does not depend on the variant. The two template methods,
  `isLast` and `nextPageable`, take the variant's `hasNext` answer as a
  parameter.
- `SliceImpl` (`ReactiveSliceImpl.java`) and `PageImpl`
  (`ReactivePageImpl.java`): the two variants.
- `Slices` (`ReactiveSlice.java`, `ReactivePage.java`): the capability
  contracts. They are a closed datatype `ReactiveSlice<T> = Slice(..) |
  Page(..)` and a subset type `ReactivePage<T>` of its page variant, so
  "every page is a slice" holds by construction. `MapPage` returns a
  `ReactivePage`, so `map` keeps a page a page.
- `Scenarios`: the unit tests' concrete scenarios.

A slice's number is a `nat`, so it is never negative, as `ReactiveSlice`
promises at lines 36-41.

The page stores the total as supplied. `TotalElements` recomputes the
reconciliation from the stored inputs, as the source's `total` Mono does on
every subscription. `Map` passes the reconciled total as the new supplied
total. Reconciliation is idempotent and conversion keeps the count, so the
mapped page reports the same totals (`PageImpl.MapKeepsTotals`).

Three facts about the code shape the page model:

- The correction guard compares `offset + pageSize` with the total
  (`ReactivePageImpl.java:60`). So page (0, 5) with total 3 and 2 elements
  reports 2.
- `getTotalPages` is 0 when the total is 0 and the size is positive
  (`ReactivePageImpl.java:77`).
- `total` is a plain `Mono` without `.cache()` (`ReactivePageImpl.java:55`).
  In the model the reconciled total is a deterministic function of the
  page's fields.

## Model

| member | source | states |
|---|---|---|
| `Paging.PageRequest.Offset` | src/main/java/org/springframework/data/domain/reactive/ReactivePageImpl.java:60-61 | the page's offset is page number times page size, the elements of all preceding pages; it is 0 exactly on the first page or for size 0 |
| `Paging.PageRequest.Next` | src/test/java/org/springframework/data/domain/reactive/ReactivePageImplUnitTests.java:107 | the next descriptor has page number + 1, the same size and sort, and starts exactly one page size further on |
| `Paging.PageRequest.PreviousOrFirst` | src/test/java/org/springframework/data/domain/reactive/ReactivePageImplUnitTests.java:121 | on page 0 it is the descriptor itself; otherwise it has page number - 1, the same size and sort, and ends where this page starts |
| `ChunkPublisher.Convert` | src/main/java/org/springframework/data/domain/reactive/ChunkPublisher.java:158-162 | element-wise conversion keeps the length, and element i of the result is the converter applied to element i of the input |
| `ChunkPublisher.NewChunk` | src/main/java/org/springframework/data/domain/reactive/ChunkPublisher.java:49-55 | construction fails with an illegal argument exactly when the upstream is missing; a missing descriptor is accepted and kept |
| `ChunkPublisher.Chunk.Number` | src/main/java/org/springframework/data/domain/reactive/ChunkPublisher.java:68-70 | 0 when unpaged, otherwise the descriptor's page number |
| `ChunkPublisher.Chunk.Size` | src/main/java/org/springframework/data/domain/reactive/ChunkPublisher.java:75-77 | 0 when unpaged, otherwise the descriptor's page size |
| `ChunkPublisher.Chunk.Count` | src/main/java/org/springframework/data/domain/reactive/ChunkPublisher.java:83-85 | the count is the length of the upstream |
| `ChunkPublisher.Chunk.HasPrevious` | src/main/java/org/springframework/data/domain/reactive/ChunkPublisher.java:90-92 | a previous slice exists exactly when the slice is paged and its page number is positive |
| `ChunkPublisher.Chunk.IsFirst` | src/main/java/org/springframework/data/domain/reactive/ChunkPublisher.java:97-99 | the slice is first exactly when its number is 0 |
| `ChunkPublisher.Chunk.IsLast` | src/main/java/org/springframework/data/domain/reactive/ChunkPublisher.java:104-106 | whatever `hasNext` the variant gives, `isLast` is its negation |
| `ChunkPublisher.Chunk.NextPageable` | src/main/java/org/springframework/data/domain/reactive/ChunkPublisher.java:111-119 | a descriptor is returned exactly when `hasNext` holds; it names page number + 1 with the same size and sort, and starts one page size after this page |
| `ChunkPublisher.Chunk.PreviousPageable` | src/main/java/org/springframework/data/domain/reactive/ChunkPublisher.java:124-132 | nothing is returned exactly on the first slice; otherwise the result names page number - 1 with the same size and sort, and ends where this page starts |
| `ChunkPublisher.Chunk.HasElements` | src/main/java/org/springframework/data/domain/reactive/ChunkPublisher.java:138-140 | true exactly when the count is positive |
| `ChunkPublisher.Chunk.Sorting` | src/main/java/org/springframework/data/domain/reactive/ChunkPublisher.java:145-147 | no sort when unpaged, otherwise the descriptor's sort |
| `ChunkPublisher.Chunk.ConvertedContent` | src/main/java/org/springframework/data/domain/reactive/ChunkPublisher.java:155-163 | fails exactly when the converter is missing; otherwise the result has the upstream's length and holds the converted elements in order |
| `ChunkPublisher.ChunkEquals` | src/main/java/org/springframework/data/domain/reactive/ChunkPublisher.java:170-186 | chunks are equal exactly when upstreams are equal and descriptors are both absent or equal, which coincides with equality of the chunk values |
| `ChunkPublisher.UnpagedChunkFacts` | src/main/java/org/springframework/data/domain/reactive/ChunkPublisher.java:68-99 | an unpaged chunk has number and size 0 and no sort, is first, and has no previous slice or previous descriptor |
| `ChunkPublisher.ConvertKeepsCount` | src/main/java/org/springframework/data/domain/reactive/ChunkPublisher.java:155-163 | conversion with a converter present succeeds and keeps the count and emptiness |
| `SliceImpl.ReactiveSliceImpl.HasNext` | src/main/java/org/springframework/data/domain/reactive/ReactiveSliceImpl.java:64-66 | `hasNext` is the stored flag, independent of the upstream |
| `SliceImpl.ReactiveSliceImpl.IsLast` | src/main/java/org/springframework/data/domain/reactive/ReactiveSliceImpl.java:64-66 | a slice is last exactly when its stored flag is false |
| `SliceImpl.ReactiveSliceImpl.NextPageable` | src/main/java/org/springframework/data/domain/reactive/ReactiveSliceImpl.java:44-49 | when the flag is set a descriptor must be present (the source dereferences it); the next descriptor is returned exactly when the flag is set |
| `SliceImpl.ReactiveSliceImpl.Map` | src/main/java/org/springframework/data/domain/reactive/ReactiveSliceImpl.java:72-74 | fails exactly when the converter is missing; otherwise a slice with the same descriptor, the same flag and the converted content in order |
| `SliceImpl.NewSlice` | src/main/java/org/springframework/data/domain/reactive/ReactiveSliceImpl.java:44-49 | fails exactly when the upstream is missing; otherwise holds the content, the descriptor and the flag as given |
| `SliceImpl.NewWholeSlice` | src/main/java/org/springframework/data/domain/reactive/ReactiveSliceImpl.java:57-59 | the one-argument slice is unpaged with no next slice: number and size 0, first and last, no next or previous descriptor, count equal to the content's length |
| `SliceImpl.SliceEquals` | src/main/java/org/springframework/data/domain/reactive/ReactiveSliceImpl.java:93-106 | slices are equal exactly when flags and chunks are equal, which coincides with equality of the slice values |
| `SliceImpl.MapKeepsPagingFacts` | src/main/java/org/springframework/data/domain/reactive/ReactiveSliceImpl.java:72-74 | the mapped slice has the same number, size, sort, count, emptiness, first/last/next/previous answers and descriptors |
| `PageImpl.Reconcile` | src/main/java/org/springframework/data/domain/reactive/ReactivePageImpl.java:55-64 | an empty or unpaged page keeps the supplied total; so does a page that the supplied total reaches past; a non-empty page that the total says reaches the end gets offset plus element count |
| `PageImpl.ReconcileIdempotent` | src/main/java/org/springframework/data/domain/reactive/ReactivePageImpl.java:107-109 | reconciling an already reconciled total with the same count and descriptor yields it unchanged |
| `PageImpl.ReconciledTotalCoversPage` | src/main/java/org/springframework/data/domain/reactive/ReactivePageImpl.java:58-63 | for a non-empty page no larger than its size, the reconciled total is at least offset plus element count, whatever total was supplied |
| `PageImpl.CeilDiv` | src/main/java/org/springframework/data/domain/reactive/ReactivePageImpl.java:77 | the result is the least page count whose pages hold all elements |
| `PageImpl.CeilDivBound` | src/main/java/org/springframework/data/domain/reactive/ReactivePageImpl.java:92-94 | k is below the page count exactly when k full pages end before the last element |
| `PageImpl.ReactivePageImpl.TotalElements` | src/main/java/org/springframework/data/domain/reactive/ReactivePageImpl.java:84-86 | empty or unpaged pages report the supplied total; any change puts the end of the collection exactly at the end of this page's elements |
| `PageImpl.ReactivePageImpl.TotalPages` | src/main/java/org/springframework/data/domain/reactive/ReactivePageImpl.java:72-78 | 1 for size 0; otherwise the ceiling of total elements over size, 0 exactly when the total is 0 |
| `PageImpl.ReactivePageImpl.HasNext` | src/main/java/org/springframework/data/domain/reactive/ReactivePageImpl.java:92-94 | next page number below the page count; never for size 0; for positive size, exactly when elements remain after the end of this page |
| `PageImpl.ReactivePageImpl.IsLast` | src/main/java/org/springframework/data/domain/reactive/ReactivePageImpl.java:99-101 | last exactly when no next page exists; for positive size, exactly when the total ends within this page |
| `PageImpl.ReactivePageImpl.NextPageable` | src/main/java/org/springframework/data/domain/reactive/ChunkPublisher.java:111-119 | a page returns the next descriptor exactly when it has a next page, and a page with a next page always has a descriptor |
| `PageImpl.ReactivePageImpl.Map` | src/main/java/org/springframework/data/domain/reactive/ReactivePageImpl.java:107-109 | fails exactly when the converter is missing; otherwise a page with the same descriptor, this page's reconciled total as its supplied total, and the converted content in order |
| `PageImpl.NewPage` | src/main/java/org/springframework/data/domain/reactive/ReactivePageImpl.java:48-56 | a missing upstream is rejected first, then a missing total; otherwise the page holds the content, descriptor and supplied total |
| `PageImpl.PageEquals` | src/main/java/org/springframework/data/domain/reactive/ReactivePageImpl.java:116-129 | pages are equal exactly when chunks and reconciled totals are equal; equal page values are always equal |
| `PageImpl.MapKeepsTotals` | src/main/java/org/springframework/data/domain/reactive/ReactivePageImpl.java:107-109 | the mapped page has the same total elements, total pages, `hasNext`, `isLast` and next descriptor |
| `PageImpl.CorrectedPageIsLast` | src/main/java/org/springframework/data/domain/reactive/ReactivePageImpl.java:58-63 | when the correction applies to a page no larger than its size, the total ends on this page, the page count is the page number + 1, and the page is last |
| `PageImpl.NonFinalPageKeepsTotal` | src/main/java/org/springframework/data/domain/reactive/ReactivePageImpl.java:58-63 | when the supplied total reaches the end of this page the total is kept, and a next page exists exactly when the total reaches past it |
| `Slices.ReactiveSlice.Number` | src/main/java/org/springframework/data/domain/reactive/ReactiveSlice.java:36-41 | the number is the descriptor's page number, or 0 when unpaged |
| `Slices.ReactiveSlice.Count` | src/main/java/org/springframework/data/domain/reactive/ReactiveSlice.java:50-55 | the count is the number of elements on the slice |
| `Slices.ReactiveSlice.HasNext` | src/main/java/org/springframework/data/domain/reactive/ReactiveSlice.java:85-90 | a flagged slice answers its flag; a page answers whether the next page number is below its page count |
| `Slices.ReactiveSlice.IsLast` | src/main/java/org/springframework/data/domain/reactive/ReactiveSlice.java:78-83 | for both kinds, last exactly when no next slice exists |
| `Slices.ReactiveSlice.IsFirst` | src/main/java/org/springframework/data/domain/reactive/ReactiveSlice.java:71-76 | first exactly when the number is 0 |
| `Slices.ReactiveSlice.NextPageable` | src/main/java/org/springframework/data/domain/reactive/ReactiveSlice.java:99-106 | no descriptor exactly when the slice is the last one; otherwise the descriptor's `next()` |
| `Slices.ReactiveSlice.PreviousPageable` | src/main/java/org/springframework/data/domain/reactive/ReactiveSlice.java:108-115 | no descriptor exactly when the slice is the first one; otherwise the descriptor's `previousOrFirst()` |
| `Slices.ReactiveSlice.Map` | src/main/java/org/springframework/data/domain/reactive/ReactiveSlice.java:117-124 | fails exactly when the converter is missing; otherwise a slice of the same kind with the same descriptor whose content is this content mapped in order |
| `Slices.TotalPages` | src/main/java/org/springframework/data/domain/reactive/ReactivePage.java:32-37 | a page exposes its page count: 1 for size 0, and for positive size `hasNext` holds exactly when the next page number is below it |
| `Slices.TotalElements` | src/main/java/org/springframework/data/domain/reactive/ReactivePage.java:39-44 | a page exposes its total; for an empty or unpaged page it is the supplied total |
| `Slices.MapPage` | src/main/java/org/springframework/data/domain/reactive/ReactivePage.java:46-53 | `map` on a page returns a page; it fails exactly when the converter is missing, and keeps total elements, total pages, `hasNext`, the descriptor and the converted content |
| `Slices.PageHasNextOnlyWhenPaged` | src/main/java/org/springframework/data/domain/reactive/ReactivePageImpl.java:72-78 | an unpaged page has one page and is first and last, so a page with a next page always has a descriptor |
| `Slices.MapKeepsPagingFacts` | src/main/java/org/springframework/data/domain/reactive/ReactiveSlice.java:117-124 | mapping either kind keeps number, size, sort, count, emptiness, first/last/next answers and the previous descriptor |
| `Slices.SlicesEqual` | src/main/java/org/springframework/data/domain/reactive/ReactivePageImpl.java:116-129 | a slice never equals a page; slices compare as values; pages compare by chunk and reconciled total |
| `Slices.SlicesEqualIsEquivalence` | src/main/java/org/springframework/data/domain/reactive/ReactiveSliceImpl.java:93-106 | equality is reflexive, symmetric and transitive |
| `Scenarios.RejectsMissingUpstream` | src/test/java/org/springframework/data/domain/reactive/ReactivePageImplUnitTests.java:79-90 | a page without an upstream is rejected, with or without a total |
| `Scenarios.FirstOfManyPages` | src/test/java/org/springframework/data/domain/reactive/ReactivePageImplUnitTests.java:95-108 | page (0, 1) of 100 is first with no previous, not last, and has next (1, 1) |
| `Scenarios.LastOfTwoPages` | src/test/java/org/springframework/data/domain/reactive/ReactivePageImplUnitTests.java:113-126 | page (1, 1) of 2 has previous (0, 1), is last, and has no next |
| `Scenarios.UnpagedTotalIsCount` | src/test/java/org/springframework/data/domain/reactive/ReactivePageImplUnitTests.java:131-147 | an unpaged page of three elements with total 3 is first and reports 3 |
| `Scenarios.EmptyUnpagedPage` | src/test/java/org/springframework/data/domain/reactive/ReactivePageImplUnitTests.java:186-202 | an empty unpaged page of total 0 has number, size and count 0, no sort, one page, is first and last, and has no elements |
| `Scenarios.SingleElementUnpagedPage` | src/test/java/org/springframework/data/domain/reactive/ReactivePageImplUnitTests.java:207-215 | an unpaged page of one element with total 1 has one page and neither next nor previous |
| `Scenarios.MapsByLength` | src/test/java/org/springframework/data/domain/reactive/ReactivePageImplUnitTests.java:220-231 | ["foo", "bar"] mapped by length is [3, 3] |
| `Scenarios.LastPageCorrection` | src/test/java/org/springframework/data/domain/reactive/ReactivePageImplUnitTests.java:236-267 | (0, 5) with totals 3 and 1 gives 2; (1, 10) with totals 13 and 11 gives 12 |
| `Scenarios.EmptyPageKeepsTotal` | src/test/java/org/springframework/data/domain/reactive/ReactivePageImplUnitTests.java:272-278 | an empty page (1, 10) of total 0 keeps total 0 |
| `Scenarios.ZeroTotalHasZeroPages` | src/main/java/org/springframework/data/domain/reactive/ReactivePageImpl.java:72-78 | a paged page of positive size and total 0 has 0 pages |

## Left out

- Reactive Streams machinery is not modelled. This covers `subscribe` (`ChunkPublisher.java:61-63`), `Mono.when` pairing, laziness, cancellation and error propagation. The upstream is a finite sequence that the model reads as often as needed.
- Re-subscribing an uncached `Flux` fails with `IllegalStateException` (`ReactivePageImplUnitTests.java:152-160`). The model does not capture this, because its sequences can be read any number of times.
- Memoisation is not modelled, because the code has none: the reconciled total is recomputed on every subscription.
- `PageImpl.CeilDiv`: integer ceiling division replaces `(int) Math.ceil((double) total / size)`. The two agree except where double rounding or the `int` cast would change the result.
- Java `int`/`long` overflow is not modelled: numbers, sizes, offsets and totals are unbounded naturals. A negative total from the total publisher cannot be expressed.
- `hashCode`, `toString` and `serialVersionUID` have no behaviour beyond hashing and formatting, so they are not modelled.
- `ChunkPublisher.ChunkEquals`: the source compares upstream publishers with `Flux.equals`, which is reference identity. The model compares element sequences, so equal content counts as equal.
- `PageImpl.PageEquals`: the source compares the reconciled-total publishers by reference. The model compares the reconciled values.
- The `@Ignore`d equality tests (`ReactivePageImplUnitTests.java:46,61`) are disabled and are not modelled.
- `SliceImpl.ReactiveSliceImpl.NextPageable`: a slice whose flag is set but whose descriptor is `null` makes `nextPageable` dereference `null` (`ChunkPublisher.java:116`) and fail with a `NullPointerException`. The model excludes that case with a `requires`, as `Slices.ReactiveSlice.NextPageable` does, and does not model the exception.
- `PageRequest`, `Sort` and `Converter` internals are not part of this model. `PageRequest`'s own argument checks (page at least 0, size at least 1) are absent, so a size of 0 is representable. `Sort` is a minimal stand-in.
- `ReactiveCrudRepository.java`, `FindPublisher.java` and `ReactivePagingAndSortingPublisher.java` are data-access interfaces without logic, so they are not part of this model.
