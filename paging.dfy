/** The page count of the unified listing and the decision of the random
    sample endpoint. */
module Paging {
  import opened Wrappers

  /** `FifteenItemPagination.page_size` and `max_page_size`. */
  const DefaultPageSize := 15
  const MaxPageSize := 50

  /** `ceil(count / size)` for a positive size. */
  function Ceil(count: nat, size: nat): (r: nat)
    requires size > 0
    ensures r * size >= count
    ensures r > 0 ==> (r - 1) * size < count
  {
    (count + size - 1) / size
  }

  /** The `total_pages` the listing reports, as written: the count divided
      by the class's page size, whatever size the request asked for. */
  function TotalPages(count: nat, requested: Option<int>): nat {
    Ceil(count, DefaultPageSize)
  }

  /** The page size the paginator actually uses: a positive `page_size`
      parameter capped at 50, otherwise 15. */
  function EffectiveSize(requested: Option<int>): (r: nat)
    ensures 1 <= r <= MaxPageSize
    ensures requested.Some? && requested.value > 0 ==> r == if requested.value < MaxPageSize then requested.value else MaxPageSize
    ensures requested.None? || requested.value <= 0 ==> r == DefaultPageSize
  {
    if requested.Some? && requested.value > 0 then
      if requested.value < MaxPageSize then requested.value else MaxPageSize
    else DefaultPageSize
  }

  /** The number of pages of the size actually served. */
  function PageCount(count: nat, requested: Option<int>): nat {
    Ceil(count, EffectiveSize(requested))
  }

  /** The corrected page count is the least number of pages of the served
      size that hold every dish. */
  lemma PageCountIsLeast(count: nat, requested: Option<int>, pages: nat)
    requires pages * EffectiveSize(requested) >= count
    ensures PageCount(count, requested) <= pages
  {
    var size := EffectiveSize(requested);
    var r := PageCount(count, requested);
    if r > pages {
      assert (r - 1) * size >= pages * size by {
        MulMonotone(pages, r - 1, size);
      }
    }
  }

  lemma MulMonotone(a: nat, b: nat, c: nat)
    requires a <= b
    ensures a * c <= b * c
  {
  }

  /** Without a `page_size` parameter the two counts agree. */
  lemma TotalPagesWithoutParameter(count: nat)
    ensures TotalPages(count, None) == PageCount(count, None)
  {
  }

  /** With 100 dishes and `page_size=50` the listing serves 2 pages but
      reports 7. */
  lemma TotalPagesIgnoresPageSize()
    ensures TotalPages(100, Some(50)) == 7
    ensures PageCount(100, Some(50)) == 2
  {
  }

  /** The random endpoint's choice among `total` items for a requested
      `count`. */
  datatype Choice = NoItems | Everything | SampleOf(size: nat) | SampleError

  /** `MenuRandomAPI.get`: no items gives an empty list; a count at least
      the total returns every item; a smaller non-negative count samples
      that many; a negative count makes `sample` raise. */
  function RandomChoice(total: nat, count: int): (r: Choice)
    ensures r == NoItems <==> total == 0
    ensures r == Everything <==> total > 0 && count >= total
    ensures r.SampleOf? <==> 0 <= count < total
    ensures r.SampleOf? ==> r.size == count
    ensures r == SampleError <==> total > 0 && count < 0
  {
    if total == 0 then NoItems
    else if count >= total then Everything
    else if count < 0 then SampleError
    else SampleOf(count)
  }

  /** The `count` query parameter: absent, an integer, or text that `int()`
      rejects. */
  datatype CountParam = NoCount | CountOf(n: int) | NotAnInteger

  /** The count taken when the parameter is absent. */
  const DefaultCount := 10

  /** The endpoint's answer: the choice for the parsed count, or the error
      `int()` raises before the items are looked at (a server error). */
  datatype RandomAnswer = Answer(choice: Choice) | BadCount

  /** `int(request.GET.get('count', 10))` followed by the choice. */
  function RandomRequest(total: nat, param: CountParam): (r: RandomAnswer)
    ensures r == BadCount <==> param.NotAnInteger?
    ensures param.NoCount? ==> r == Answer(RandomChoice(total, DefaultCount))
    ensures param.CountOf? ==> r == Answer(RandomChoice(total, param.n))
  {
    match param
    case NoCount => Answer(RandomChoice(total, DefaultCount))
    case CountOf(n) => Answer(RandomChoice(total, n))
    case NotAnInteger => BadCount
  }

  /** Without a count the endpoint returns ten items, or every item when it
      has fewer than ten; an unparsable count fails even with no items. */
  lemma RandomDefaultsToTen(total: nat)
    ensures RandomRequest(total, NoCount).Answer?
    ensures Returned(total, RandomRequest(total, NoCount).choice) == if total < DefaultCount then total else DefaultCount
    ensures RandomRequest(0, NotAnInteger) == BadCount
  {
  }

  /** The number of items the endpoint returns, when it returns. */
  function Returned(total: nat, c: Choice): nat {
    match c
    case NoItems => 0
    case Everything => total
    case SampleOf(n) => n
    case SampleError => 0
  }

  /** The endpoint never returns more than it has, and returns exactly the
      requested number when it has that many. */
  lemma RandomReturnsAtMostTotal(total: nat, count: int)
    requires RandomChoice(total, count) != SampleError
    ensures Returned(total, RandomChoice(total, count)) <= total
    ensures 0 <= count <= total ==> Returned(total, RandomChoice(total, count)) == count
  {
  }
}
