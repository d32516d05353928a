/**
 * The concrete scenarios the page's unit tests pin down, stated against the
 * model through the reactive page interface.
 */
module Scenarios {
  import opened Paging
  import opened ChunkPublisher
  import opened PageImpl
  import opened Slices

  /** `new PageRequest(page, size)`: no sort. */
  function Request(page: nat, size: nat): PageRequest {
    PageRequest(page, size, None)
  }

  /** A missing upstream is rejected, whether or not the total is missing too. */
  lemma RejectsMissingUpstream()
    ensures NewPage<int>(None, None, None) == Failure(IllegalArgument("Flux must not be null!"))
    ensures NewPage<int>(None, None, Some(100)) == Failure(IllegalArgument("Flux must not be null!"))
  {
  }

  /** Page 0 of size 1 out of 100: first, not last, next is page 1 of size 1. */
  lemma FirstOfManyPages()
    ensures NewPage(Some([0]), Some(Request(0, 1)), Some(100)).Success?
    ensures var p: ReactivePage<int> := Page(NewPage(Some([0]), Some(Request(0, 1)), Some(100)).value);
      && p.IsFirst() && !p.Base().HasPrevious() && p.PreviousPageable().None?
      && !p.IsLast() && p.HasNext() && p.NextPageable() == Some(Request(1, 1))
  {
  }

  /** Page 1 of size 1 out of 2: not first, previous is page 0, last, no next. */
  lemma LastOfTwoPages()
    ensures NewPage(Some([0]), Some(Request(1, 1)), Some(2)).Success?
    ensures var p: ReactivePage<int> := Page(NewPage(Some([0]), Some(Request(1, 1)), Some(2)).value);
      && !p.IsFirst() && p.Base().HasPrevious() && p.PreviousPageable() == Some(Request(0, 1))
      && p.IsLast() && !p.HasNext() && p.NextPageable().None?
  {
  }

  /** An unpaged page whose total is its own count reports that count. */
  lemma UnpagedTotalIsCount()
    ensures var p: ReactivePage<string> := Page(ReactivePageImpl(Chunk(["Foo", "Bar", "Baz"], None), 3));
      && p.IsFirst() && !p.Base().HasPrevious() && TotalElements(p) == 3 && p.Count() == 3
  {
  }

  /** An empty unpaged page with total 0: one page, first and last, no elements. */
  lemma EmptyUnpagedPage()
    ensures var p: ReactivePage<string> := Page(ReactivePageImpl(Chunk([], None), 0));
      && p.Number() == 0 && p.Count() == 0 && p.Base().Size() == 0 && p.Base().Sorting().None?
      && TotalElements(p) == 0 && TotalPages(p) == 1
      && !p.HasNext() && !p.Base().HasPrevious() && p.IsFirst() && p.IsLast()
      && !p.Base().HasElements()
  {
  }

  /** An unpaged page of one element out of 1: one page, no next, no previous. */
  lemma SingleElementUnpagedPage()
    ensures var p: ReactivePage<string> := Page(ReactivePageImpl(Chunk(["a"], None), 1));
      && TotalPages(p) == 1 && !p.HasNext() && !p.Base().HasPrevious()
  {
  }

  /** Mapping ["foo", "bar"] by length gives [3, 3]. */
  lemma MapsByLength()
    ensures var p: ReactivePage<string> := Page(ReactivePageImpl(Chunk(["foo", "bar"], Some(Request(0, 2))), 10));
      && MapPage(p, Some((s: string) => |s| as int)).Success?
      && MapPage(p, Some((s: string) => |s| as int)).value.Base().upstream == [3, 3]
  {
    var p: ReactivePage<string> := Page(ReactivePageImpl(Chunk(["foo", "bar"], Some(Request(0, 2))), 10));
    var m := MapPage(p, Some((s: string) => |s| as int)).value.Base().upstream;
    assert |m| == 2 && m[0] == 3 && m[1] == 3;
  }

  /** The last-page correction moves the total down as well as up. */
  lemma LastPageCorrection()
    ensures TotalElements(Page(ReactivePageImpl(Chunk(["foo", "bar"], Some(Request(0, 5))), 3))) == 2
    ensures TotalElements(Page(ReactivePageImpl(Chunk(["foo", "bar"], Some(Request(0, 5))), 1))) == 2
    ensures TotalElements(Page(ReactivePageImpl(Chunk(["foo", "bar"], Some(Request(1, 10))), 13))) == 12
    ensures TotalElements(Page(ReactivePageImpl(Chunk(["foo", "bar"], Some(Request(1, 10))), 11))) == 12
  {
  }

  /** An empty page never corrects the total. */
  lemma EmptyPageKeepsTotal()
    ensures TotalElements<string>(Page(ReactivePageImpl(Chunk([], Some(Request(1, 10))), 0))) == 0
  {
  }

  /** A paged page with total 0 and positive size has no pages at all. */
  lemma ZeroTotalHasZeroPages()
    ensures TotalPages<string>(Page(ReactivePageImpl(Chunk([], Some(Request(0, 10))), 0))) == 0
  {
  }
}
