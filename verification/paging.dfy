/** Paginated listings. The provider serves a listing as a run of pages and
    the copier's callback asks for more while its page counter is at most
    `PageCeiling`; the items of every page handed to it are appended in
    order. */
module Paging {
  import opened Wrappers
  import opened Rds

  /** What the provider would serve: the pages it delivers, in order, and
      what happens after the last one. `failure == None` means the last page
      is flagged as final; `Some(e)` means fetching the page after it fails
      with `e`. */
  datatype Pages<T> = Pages(pages: seq<seq<T>>, failure: Option<Error>)

  /** A listing as the copier returns it: the items gathered and, at the
      same time, the error the paginator reported (if any). */
  datatype Listing<T> = Listing(items: seq<T>, err: Option<Error>)

  /** The callback keeps paging while its counter is at most this value. */
  const PageCeiling: nat := 1000

  /** The pages concatenated in order. */
  function Flatten<T>(ps: seq<seq<T>>): seq<T>
  {
    if |ps| == 0 then [] else Flatten(ps[..|ps| - 1]) + ps[|ps| - 1]
  }

  /** How many of `n` available pages the callback consumes: every one of
      them up to the page that pushes its counter past the ceiling. */
  function ConsumedPages(n: nat): (k: nat)
    ensures k <= n && k <= PageCeiling + 1
    ensures k == n || k == PageCeiling + 1
  {
    if n <= PageCeiling + 1 then n else PageCeiling + 1
  }

  /** The listing the paginator produces from `src`. An error surfaces only
      when the paginator is still asking for pages once the provider's pages
      run out, that is when there are at most `PageCeiling` of them. */
  function Collect<T>(src: Pages<T>): Listing<T>
  {
    Listing(
      Flatten(src.pages[..ConsumedPages(|src.pages|)]),
      if |src.pages| <= PageCeiling then src.failure else None)
  }

  /** Taking one more page of a run appends that page's items. */
  lemma FlattenSnoc<T>(ps: seq<seq<T>>, k: nat)
    requires k < |ps|
    ensures Flatten(ps[..k + 1]) == Flatten(ps[..k]) + ps[k]
  {
    assert ps[..k + 1][..k] == ps[..k];
  }

  /** A run of pages of at most `m` items each holds at most `m` items per
      page, and exactly that many when every page is full. */
  lemma {:induction false} FlattenLength<T>(ps: seq<seq<T>>, m: nat)
    ensures (forall i :: 0 <= i < |ps| ==> |ps[i]| <= m) ==> |Flatten(ps)| <= m * |ps|
    ensures (forall i :: 0 <= i < |ps| ==> |ps[i]| == m) ==> |Flatten(ps)| == m * |ps|
    decreases |ps|
  {
    if |ps| > 0 {
      var front := ps[..|ps| - 1];
      assert forall i :: 0 <= i < |front| ==> front[i] == ps[i];
      FlattenLength(front, m);
      assert m * |ps| == m * |front| + m;
    }
  }

  /** The paging loop: hand each page to the callback, which appends it and
      continues while its counter is at most `PageCeiling`. */
  method Paginate<T>(src: Pages<T>) returns (items: seq<T>, err: Option<Error>)
    ensures items == Flatten(src.pages[..ConsumedPages(|src.pages|)])
    ensures err == (if |src.pages| <= PageCeiling then src.failure else None)
    ensures Listing(items, err) == Collect(src)
  {
    items := [];
    var pageNum := 0;
    var more := true;
    while more && pageNum < |src.pages|
      invariant 0 <= pageNum <= |src.pages|
      invariant more <==> pageNum <= PageCeiling
      invariant pageNum <= PageCeiling + 1
      invariant items == Flatten(src.pages[..pageNum])
      decreases |src.pages| - pageNum
    {
      FlattenSnoc(src.pages, pageNum);
      items := items + src.pages[pageNum];
      pageNum := pageNum + 1;
      more := pageNum <= PageCeiling;
    }
    // Either the callback asked to stop (no error is reported), or the
    // provider ran out of pages while the callback still wanted more.
    err := if more then src.failure else None;
  }

  /** A listing of at most `PageCeiling + 1` pages is their whole in-order
      concatenation. */
  lemma ShortListingIsWhole<T>(src: Pages<T>)
    requires |src.pages| <= PageCeiling + 1
    ensures Collect(src).items == Flatten(src.pages)
  {
    assert src.pages[..|src.pages|] == src.pages;
  }

  /** Pages the provider would serve past the ceiling page never reach the
      result, and no error is reported once the ceiling is reached. */
  lemma PagesPastCeilingIgnored<T>(first: seq<seq<T>>, rest: seq<seq<T>>, failure: Option<Error>)
    requires |first| == PageCeiling + 1
    ensures Collect(Pages(first + rest, failure)) == Listing(Flatten(first), None)
  {
    assert (first + rest)[..PageCeiling + 1] == first;
  }
}
