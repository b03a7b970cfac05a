/**
 The paging arithmetic of the mock message service: page `p` is the slice of
 the full list from `p * PageSize`, at most `PageSize` long, together with a
 flag saying whether anything follows it.
 */
module Paging {
  const PageSize: nat := 10

  /** One page of results and whether another page follows. */
  datatype Page<T> = Page(items: seq<T>, hasMore: bool)

  /** The end index of page `page`: `min(start + PageSize, n)`. */
  function PageEnd(n: nat, page: nat): nat {
    if page * PageSize + PageSize < n then page * PageSize + PageSize else n
  }

  /** `fetchMessages(page:)`: the empty final page past the end, otherwise the slice up to `PageEnd`. */
  function FetchPage<T>(all: seq<T>, page: nat): (r: Page<T>)
    ensures page * PageSize >= |all| ==> r == Page([], false)
    ensures page * PageSize < |all| ==>
              && r.items == all[page * PageSize..PageEnd(|all|, page)]
              && (r.hasMore <==> PageEnd(|all|, page) < |all|)
    ensures |r.items| <= PageSize
    ensures r.hasMore ==> |r.items| == PageSize
    ensures r.hasMore <==> (page + 1) * PageSize < |all|
  {
    var start := page * PageSize;
    var end := PageEnd(|all|, page);
    if start >= |all| then Page([], false)
    else Page(all[start..end], end < |all|)
  }

  /**
   What a client sees by loading page `page` and then the following pages for
   as long as the previous one reported more.
   */
  function PagesFrom<T>(all: seq<T>, page: nat): seq<T>
    decreases if page * PageSize <= |all| then |all| - page * PageSize else 0
  {
    var r := FetchPage(all, page);
    if r.hasMore then r.items + PagesFrom(all, page + 1) else r.items
  }

  /** Loading from page `page` to the last page yields exactly the rest of the list. */
  lemma {:induction false} PagesFromRest<T>(all: seq<T>, page: nat)
    decreases if page * PageSize <= |all| then |all| - page * PageSize else 0
    ensures page * PageSize <= |all| ==> PagesFrom(all, page) == all[page * PageSize..]
    ensures page * PageSize > |all| ==> PagesFrom(all, page) == []
  {
    var r := FetchPage(all, page);
    var start := page * PageSize;
    if r.hasMore {
      PagesFromRest(all, page + 1);
      assert (page + 1) * PageSize == start + PageSize;
      assert all[start..] == all[start..start + PageSize] + all[start + PageSize..];
    } else if start < |all| {
      assert PageEnd(|all|, page) == |all|;
    }
  }

  /** Loading pages from the first until one reports no more yields the whole list, in order. */
  lemma AllPages<T>(all: seq<T>)
    ensures PagesFrom(all, 0) == all
  {
    PagesFromRest(all, 0);
  }

  /** Consecutive pages neither overlap nor leave gaps: each starts where the previous one ended. */
  lemma PagesAdjacent<T>(all: seq<T>, page: nat)
    requires FetchPage(all, page).hasMore
    ensures FetchPage(all, page).items + FetchPage(all, page + 1).items
            == all[page * PageSize..PageEnd(|all|, page + 1)]
  {
    var start := page * PageSize;
    assert (page + 1) * PageSize == start + PageSize;
    assert all[start..PageEnd(|all|, page + 1)]
        == all[start..start + PageSize] + all[start + PageSize..PageEnd(|all|, page + 1)];
  }
}
