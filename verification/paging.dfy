/**
 * Page requests, the page a paged query returns, the sort-direction rule, and the page
 * envelope every listing builds from a page (buildPageResponse). The page arithmetic is
 * Spring Data's PageRequest / PageImpl; it is modelled here as the store's paging contract.
 */
module Paging {
  import opened Outcomes
  import opened Ascii

  datatype Direction = Ascending | Descending

  /** sortDir.equalsIgnoreCase("asc") selects ascending order; every other string selects descending. */
  function SortDirection(dir: string): (d: Direction)
    ensures d == Ascending <==>
      |dir| == 3 && ToLower(dir[0]) == 'a' && ToLower(dir[1]) == 's' && ToLower(dir[2]) == 'c'
  {
    assert Lower("asc") == "asc";
    if EqualsIgnoreCase(dir, "asc") then Ascending else Descending
  }

  /** PageRequest.of refuses a negative page index and a page size below one. */
  function PageRequest(page: int, size: int): (r: Result<(nat, nat)>)
    ensures r.Ok? <==> page >= 0 && size >= 1
    ensures r.Ok? ==> r.value == (page, size)
    ensures r.Err? ==> r.error == InvalidPageRequest(page, size)
  {
    if page < 0 || size < 1 then Err(InvalidPageRequest(page, size)) else Ok((page, size))
  }

  /** One page of a query result together with its metadata. */
  datatype Page<T> = Page(
    content: seq<T>,
    number: int,
    size: int,
    totalElements: int,
    totalPages: int,
    first: bool,
    last: bool)

  function Min(a: int, b: int): int {
    if a <= b then a else b
  }

  /** The pages up to and including the page'th, of size elements each, hold all total elements. */
  predicate ReachesEnd(page: int, size: int, total: int) {
    (page + 1) * size >= total
  }

  /** The page'th window of size elements of all: its elements from page * size on, at most size of them. */
  function Window<T>(all: seq<T>, page: nat, size: nat): (w: seq<T>)
    requires size >= 1
    ensures page * size <= |all| ==> |w| == Min(size, |all| - page * size)
    ensures page * size > |all| ==> w == []
    ensures forall k :: 0 <= k < |w| ==> 0 <= page * size + k < |all| && w[k] == all[page * size + k]
  {
    var offset := page * size;
    if offset <= |all| then all[offset..Min(offset + size, |all|)] else []
  }

  /** Every element of a result is on a page: element k is entry k % size of page k / size. */
  lemma {:induction false} EveryElementOnItsPage<T>(all: seq<T>, size: nat, k: nat)
    requires size >= 1 && k < |all|
    ensures 0 <= k / size && 0 <= k % size < |Window(all, k / size, size)|
    ensures Window(all, k / size, size)[k % size] == all[k]
  {
    var page := k / size;
    assert k == page * size + k % size;
  }

  /** The page'th window of size elements of the ordered result, with the totals of the whole result. */
  function PageOf<T>(all: seq<T>, page: nat, size: nat): (p: Page<T>)
    requires size >= 1
    ensures p.number == page && p.size == size && p.totalElements == |all|
    ensures p.content == Window(all, page, size)
    ensures page * size <= |all| ==> |p.content| == Min(size, |all| - page * size)
    ensures page * size > |all| ==> p.content == []
    ensures |p.content| <= size
    ensures forall k :: 0 <= k < |p.content| ==> 0 <= page * size + k < |all| && p.content[k] == all[page * size + k]
    ensures p.first <==> page == 0
    ensures p.totalPages == PageCount(|all|, size)
    ensures p.last <==> ReachesEnd(page, size, |all|)
  {
    var content := Window(all, page, size);
    var totalPages := PageCount(|all|, size);
    LastPage(|all|, page, size);
    Page(content, page, size, |all|, totalPages, page == 0, !(page + 1 < totalPages))
  }

  /** The number of pages of size elements that hold total elements: the ceiling of total / size. */
  function PageCount(total: nat, size: nat): (n: nat)
    requires size >= 1
    ensures (n - 1) * size < total <= n * size
  {
    var q := (total + size - 1) / size;
    var rem := (total + size - 1) % size;
    assert total + size - 1 == q * size + rem;
    assert (q - 1) * size == q * size - size;
    q
  }

  /** A page is the last one exactly when the pages up to and including it hold every element. */
  lemma {:induction false} LastPage(total: nat, page: nat, size: nat)
    requires size >= 1
    ensures page + 1 >= PageCount(total, size) <==> (page + 1) * size >= total
  {
    var n := PageCount(total, size);
    if page + 1 >= n {
      MulMonotone(n, page + 1, size);
    } else {
      MulMonotone(page + 1, n - 1, size);
    }
  }

  lemma {:induction false} MulMonotone(a: int, b: int, c: nat)
    requires a <= b
    ensures a * c <= b * c
  {
    assert b * c - a * c == (b - a) * c;
  }

  /** The envelope a listing returns. */
  datatype PageResponse<T> = PageResponse(
    content: seq<T>,
    pageNumber: int,
    pageSize: int,
    totalElements: int,
    totalPages: int,
    last: bool,
    first: bool)

  /** buildPageResponse: the mapped content, and the page's metadata copied through unchanged. */
  function BuildPageResponse<T, U>(page: Page<T>, content: seq<U>): (r: PageResponse<U>)
    ensures r.content == content
    ensures r.pageNumber == page.number && r.pageSize == page.size
    ensures r.totalElements == page.totalElements && r.totalPages == page.totalPages
    ensures r.first == page.first && r.last == page.last
  {
    PageResponse(content, page.number, page.size, page.totalElements, page.totalPages, page.last, page.first)
  }
}
