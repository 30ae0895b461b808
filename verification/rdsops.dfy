/** Instance listing and filtering: which database instances in the source
    region are in scope for copying. */
module RdsOps {
  import opened Wrappers
  import opened Rds
  import opened Wiring
  import opened Paging

  /** The page size the instance listing requests. */
  const MaxRecords: nat := 50

  /** All instances of the region, gathered page by page. */
  method List(src: Pages<Instance>) returns (items: seq<Instance>, err: Option<Error>)
    ensures items == Flatten(src.pages[..ConsumedPages(|src.pages|)])
    ensures err.Some? <==> |src.pages| <= PageCeiling && src.failure.Some?
    ensures err.Some? ==> err == src.failure
  {
    items, err := Paginate(src);
  }

  /** With pages of at most `MaxRecords` instances, the listing holds at most
      `MaxRecords * (PageCeiling + 1)` = 50050 of them: the ceiling check
      lets the 1001st page through. */
  lemma ListingBound(src: Pages<Instance>)
    requires forall i :: 0 <= i < |src.pages| ==> |src.pages[i]| <= MaxRecords
    ensures |Collect(src).items| <= MaxRecords * (PageCeiling + 1)
  {
    var used := src.pages[..ConsumedPages(|src.pages|)];
    assert forall i :: 0 <= i < |used| ==> used[i] == src.pages[i];
    FlattenLength(used, MaxRecords);
  }

  /** The bound is reached: 1001 full pages give 50050 instances, more than
      the 50000 the function's comment states. */
  lemma ListingCanExceedFiftyThousand(inst: Instance)
    ensures var full := seq(PageCeiling + 1, _ => seq(MaxRecords, _ => inst));
      |Collect(Pages(full, None)).items| == MaxRecords * (PageCeiling + 1) > 50000
  {
    var full := seq(PageCeiling + 1, _ => seq(MaxRecords, _ => inst));
    ShortListingIsWhole(Pages(full, None));
    FlattenLength(full, MaxRecords);
  }

  /** The first `i` tags all carry a key other than `key`. */
  predicate NoKeyBefore(tags: seq<Tag>, key: string, i: int)
    requires 0 <= i <= |tags|
  {
    forall j :: 0 <= j < i ==> tags[j].key != key
  }

  /** The value of the first tag whose key is `key`, if any. */
  function FirstMatch(tags: seq<Tag>, key: string): (r: Option<string>)
    ensures r.None? <==> NoKeyBefore(tags, key, |tags|)
    ensures forall i :: 0 <= i < |tags| && tags[i].key == key && NoKeyBefore(tags, key, i) ==>
      r == Some(tags[i].value)
  {
    if |tags| == 0 then None
    else if tags[0].key == key then Some(tags[0].value)
    else
      var rest := FirstMatch(tags[1..], key);
      assert forall i :: 1 <= i <= |tags| ==> (NoKeyBefore(tags, key, i) <==> NoKeyBefore(tags[1..], key, i - 1));
      rest
  }

  /** The value of tag `key` on a resource, given the provider's answer to
      the tag listing: the listing's error if it failed, the first matching
      tag's value if there is one, and the empty string otherwise. */
  function GetTag(resp: TagsResponse, key: string): (r: Result<string, Error>)
    ensures r.Failure? <==> resp.Failure?
    ensures r.Failure? ==> r.error == resp.error
    ensures resp.Success? && NoKeyBefore(resp.value, key, |resp.value|) ==> r == Success("")
    ensures resp.Success? ==>
      forall i :: 0 <= i < |resp.value| && resp.value[i].key == key && NoKeyBefore(resp.value, key, i) ==>
        r == Success(resp.value[i].value)
  {
    match resp
    case Failure(e) => Failure(e)
    case Success(tags) =>
      match FirstMatch(tags, key)
      case Some(v) => Success(v)
      case None => Success("")
  }

  /** An instance is in scope when it is available and its tag lookup
      succeeds with a non-empty value. An absent tag and a tag with an empty
      value are not told apart. */
  predicate InScope(cfg: Config, inst: Instance, tagsOf: string -> TagsResponse) {
    && inst.status == Available
    && var t := GetTag(tagsOf(inst.arn), cfg.tag);
    && t.Success?
    && t.value != ""
  }

  /** `a` is `b` with some elements left out, order kept. */
  predicate IsSubsequence<T(==)>(a: seq<T>, b: seq<T>)
    decreases |b|
  {
    || |a| == 0
    || (|b| > 0 && ((a[0] == b[0] && IsSubsequence(a[1..], b[1..])) || IsSubsequence(a, b[1..])))
  }

  /** The in-scope instances, in input order. A tag-lookup failure skips
      that instance; the batch itself never fails. */
  function Filter(cfg: Config, insts: seq<Instance>, tagsOf: string -> TagsResponse): (r: seq<Instance>)
    ensures forall x :: x in r <==> x in insts && InScope(cfg, x, tagsOf)
    ensures IsSubsequence(r, insts)
    ensures |r| <= |insts|
  {
    if |insts| == 0 then []
    else
      var rest := Filter(cfg, insts[1..], tagsOf);
      if InScope(cfg, insts[0], tagsOf) then [insts[0]] + rest else rest
  }

  /** Filtering keeps or drops each instance on its own, so filtering a
      listing page by page is filtering it whole. */
  lemma {:induction false} FilterConcat(cfg: Config, a: seq<Instance>, b: seq<Instance>, tagsOf: string -> TagsResponse)
    ensures Filter(cfg, a + b, tagsOf) == Filter(cfg, a, tagsOf) + Filter(cfg, b, tagsOf)
    decreases |a|
  {
    if |a| == 0 {
      assert a + b == b;
    } else {
      assert (a + b)[0] == a[0];
      assert (a + b)[1..] == a[1..] + b;
      FilterConcat(cfg, a[1..], b, tagsOf);
    }
  }

  /** Filtering an already filtered list changes nothing. */
  lemma {:induction false} FilterIdempotent(cfg: Config, insts: seq<Instance>, tagsOf: string -> TagsResponse)
    ensures Filter(cfg, Filter(cfg, insts, tagsOf), tagsOf) == Filter(cfg, insts, tagsOf)
    decreases |insts|
  {
    if |insts| > 0 {
      var rest := Filter(cfg, insts[1..], tagsOf);
      FilterIdempotent(cfg, insts[1..], tagsOf);
      if InScope(cfg, insts[0], tagsOf) {
        assert ([insts[0]] + rest)[1..] == rest;
      }
    }
  }
}
