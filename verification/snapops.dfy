/** The snapshot catalog: listing, describing, windowing and retention
    selection over one instance's snapshots, and counting deletions. */
module SnapOps {
  import opened Wrappers
  import opened Rds
  import opened Wiring
  import opened Paging

  function Min(a: int, b: int): int { if a <= b then a else b }
  function Max(a: int, b: int): int { if a <= b then b else a }

  // ---------------------------------------------------------------------
  // Listing and describing

  /** All snapshots of one instance, gathered page by page. */
  method List(src: Pages<Snapshot>) returns (items: seq<Snapshot>, err: Option<Error>)
    ensures items == Flatten(src.pages[..ConsumedPages(|src.pages|)])
    ensures err.Some? <==> |src.pages| <= PageCeiling && src.failure.Some?
    ensures err.Some? ==> err == src.failure
  {
    items, err := Paginate(src);
  }

  /** Describe exactly as written. The not-found test rebinds the error to
      its AWS-typed view; when the error is not an AWS error that view is
      nil, and returning it returns no error at all. So a non-AWS error
      reads as "absent". */
  function DescribeAsWritten(resp: DescribeResponse): (r: Result<Option<Snapshot>, Error>)
    ensures r.Failure? <==> resp.Failure? && resp.error.AwsError? && !IsSnapshotNotFound(resp.error)
    ensures r.Failure? ==> r.error == resp.error
    ensures r.Success? && r.value.Some? <==> resp.Success? && |resp.value| == 1
    ensures r.Success? && r.value.Some? ==> r.value.value == resp.value[0]
  {
    match resp
    case Failure(e) =>
      if e.OtherError? then Success(None)
      else if IsSnapshotNotFound(e) then Success(None)
      else Failure(e)
    case Success(found) => if |found| == 1 then Success(Some(found[0])) else Success(None)
  }

  /** Describe as intended: a not-found fault is "absent", every other
      error propagates; one result is that snapshot, zero or several are
      "absent". */
  function Describe(resp: DescribeResponse): (r: Result<Option<Snapshot>, Error>)
    ensures r.Failure? <==> resp.Failure? && !IsSnapshotNotFound(resp.error)
    ensures r.Failure? ==> r.error == resp.error
    ensures r.Success? && r.value.Some? <==> resp.Success? && |resp.value| == 1
    ensures r.Success? && r.value.Some? ==> r.value.value == resp.value[0]
  {
    match resp
    case Failure(e) => if IsSnapshotNotFound(e) then Success(None) else Failure(e)
    case Success(found) => if |found| == 1 then Success(Some(found[0])) else Success(None)
  }

  /** The written describe turns any non-AWS error into "absent, no
      error", where the intended one reports the error. */
  lemma NonAwsErrorReadAsAbsent(e: Error)
    requires e.OtherError?
    ensures DescribeAsWritten(Failure(e)) == Success(None)
    ensures Describe(Failure(e)) == Failure(e)
  {
  }

  /** On every other answer the written and intended describe agree. */
  lemma DescribeAgreesOnAwsAnswers(resp: DescribeResponse)
    requires resp.Failure? ==> resp.error.AwsError?
    ensures DescribeAsWritten(resp) == Describe(resp)
  {
  }

  /** True when describing `name` through `describe` finds a snapshot. */
  predicate Present(describe: string -> DescribeResponse, name: string) {
    var d := Describe(describe(name));
    d.Success? && d.value.Some?
  }

  // ---------------------------------------------------------------------
  // The window selector, as written

  /** The slice bounds the selector computes, after clamping. A negative
      `start` first moves `start` back by `num - 1` from the end and then
      derives the end bound from that already-moved `start`. */
  function Bounds(lena: int, start: int, num: int): (b: (int, int))
    requires lena >= 0
    ensures 0 <= b.0 <= lena && b.1 <= lena
  {
    var moved := lena + start - num + 1;
    var s0 := if start >= 0 then start else moved;
    var e0 := if start >= 0 then start + num else lena + moved;
    var s1 := if s0 > lena then lena else s0;
    var s2 := if s1 < 0 then 0 else s1;
    var e1 := if e0 > lena then lena else e0;
    (s2, e1)
  }

  /** The selector does not panic: the input is empty, or the clamped
      bounds form a valid slice. */
  predicate SliceDefined(lena: nat, start: int, num: int) {
    lena == 0 || Bounds(lena, start, num).0 <= Bounds(lena, start, num).1
  }

  /** The window selector exactly as written. For the reverse form
      (`start == -1`) it returns the last `num` elements only while
      `num <= |all|`; between `|all|` and `2 * |all|` it returns the first
      `2 * |all| - num` elements instead. */
  function GetSlice<T>(all: seq<T>, start: int, num: int): (r: seq<T>)
    requires SliceDefined(|all|, start, num)
    ensures |all| == 0 ==> r == []
    ensures start >= 0 && num >= 0 ==> r == all[Min(start, |all|)..Min(start + num, |all|)]
    ensures start == -1 && 0 <= num <= |all| ==> r == all[|all| - num..]
    ensures start == -1 && |all| < num <= 2 * |all| ==> r == all[..2 * |all| - num]
  {
    if |all| == 0 then []
    else
      var b := Bounds(|all|, start, num);
      all[b.0..b.1]
  }

  /** Where the reverse form panics: exactly when `num` exceeds twice the
      length of a non-empty input. */
  lemma ReverseSliceDefinedIff(n: nat, num: int)
    ensures SliceDefined(n, -1, num) <==> n == 0 || num <= 2 * n
  {
  }

  /** Where the forward form panics: a negative `num` that pulls the end
      bound below a start bound that is still inside the input. */
  lemma ForwardSliceDefinedIff(n: nat, start: int, num: int)
    requires start >= 0
    ensures SliceDefined(n, start, num) <==> n == 0 || num >= 0 || start + num >= n
  {
  }

  /** The reverse form with `|all| < num <= 2 * |all|` does not return the
      whole input, as the intended window (`SliceWindow`) would: it drops
      the newest `num - |all|` snapshots. */
  lemma ReverseOvershootDropsNewest<T>(all: seq<T>, num: int)
    requires |all| < num <= 2 * |all|
    ensures |GetSlice(all, -1, num)| == 2 * |all| - num < |all|
    ensures GetSlice(all, -1, num) != SliceWindow(all, -1, num)
  {
  }

  /** A concrete instance: asking for the 4 newest of 3 snapshots yields
      only the 2 oldest. */
  lemma ReverseOvershootExample()
    ensures GetSlice([1, 2, 3], -1, 4) == [1, 2]
    ensures SliceWindow([1, 2, 3], -1, 4) == [1, 2, 3]
  {
  }

  // ---------------------------------------------------------------------
  // The window selector, corrected

  /** The bounds with the end of the reverse form taken from the original
      `start` (one past the element it names) rather than the moved one. */
  function FixedBounds(lena: int, start: int, num: int): (b: (int, int))
    requires lena >= 0
    ensures 0 <= b.0 <= lena && b.1 <= lena
  {
    var moved := lena + start - num + 1;
    var s0 := if start >= 0 then start else moved;
    var e0 := if start >= 0 then start + num else lena + start + 1;
    var s1 := if s0 > lena then lena else s0;
    var s2 := if s1 < 0 then 0 else s1;
    var e1 := if e0 > lena then lena else e0;
    (s2, e1)
  }

  /** The intended window selector: `[start, start + num)` clamped to the
      input for a forward start, and the `num` most recent elements (all of
      them when there are fewer) for `start == -1`, the reading `GetLatest`
      relies on (snapops.go:174-176). */
  function SliceWindow<T>(all: seq<T>, start: int, num: int): (r: seq<T>)
    requires start >= 0 || start == -1
    requires num >= 0
    ensures start >= 0 ==> r == all[Min(start, |all|)..Min(start + num, |all|)]
    ensures start == -1 ==> |r| == Min(num, |all|) && r == all[|all| - |r|..]
    ensures |r| <= num
  {
    if |all| == 0 then []
    else
      var b := FixedBounds(|all|, start, num);
      all[b.0..b.1]
  }

  /** On every input where the written selector already gives the
      intended window, the two coincide; in particular at the two call sites
      of the program, `(all, -1, 1)` and `(ls, 0, k)` with `k >= 0`. */
  lemma GetSliceAgreesWithWindow<T>(all: seq<T>, start: int, num: int)
    requires (start >= 0 && num >= 0) || (start == -1 && 0 <= num <= |all|)
    ensures SliceDefined(|all|, start, num)
    ensures GetSlice(all, start, num) == SliceWindow(all, start, num)
  {
  }

  lemma CallSitesAgree<T>(all: seq<T>, k: int)
    requires k >= 0
    ensures SliceDefined(|all|, -1, 1) && GetSlice(all, -1, 1) == SliceWindow(all, -1, 1)
    ensures SliceDefined(|all|, 0, k) && GetSlice(all, 0, k) == SliceWindow(all, 0, k)
  {
    if |all| > 0 {
      GetSliceAgreesWithWindow(all, -1, 1);
    }
    GetSliceAgreesWithWindow(all, 0, k);
  }

  // ---------------------------------------------------------------------
  // Latest and expired

  /** The most recent snapshot (the last in listing order), or none for an
      empty listing. */
  function GetLatest(all: seq<Snapshot>): (r: Option<Snapshot>)
    ensures r.None? <==> |all| == 0
    ensures r.Some? ==> r.value == all[|all| - 1]
  {
    var w := SliceWindow(all, -1, 1);
    if |w| == 0 then None else Some(w[0])
  }

  /** The snapshots to expire when `maxSnap` are kept: none while the
      listing holds at most `maxSnap`, otherwise the oldest ones, all but
      the `maxSnap` most recent (all of them for `maxSnap <= 0`). */
  function SelectExpired(ls: seq<Snapshot>, maxSnap: int): (r: seq<Snapshot>)
    ensures |ls| <= maxSnap ==> r == []
    ensures |ls| > maxSnap ==> |r| == |ls| - Max(maxSnap, 0) && r == ls[..|r|]
    ensures maxSnap <= 0 ==> r == ls
  {
    if |ls| <= maxSnap then []
    else SliceWindow(ls, 0, |ls| - maxSnap)
  }

  /** The `maxSnap` most recent snapshots, the ones retention keeps. */
  function Retained(ls: seq<Snapshot>, maxSnap: int): seq<Snapshot>
  {
    SliceWindow(ls, -1, Max(maxSnap, 0))
  }

  /** The expired snapshots of an instance in the target region: the
      listing's error if it failed, else the selection above. */
  function ListExpired(cfg: Config, src: Pages<Snapshot>): (r: Result<seq<Snapshot>, Error>)
    ensures r.Failure? <==> Collect(src).err.Some?
    ensures r.Failure? ==> r.error == Collect(src).err.value
    ensures r.Success? ==> r.value == SelectExpired(Collect(src).items, cfg.maxSnap)
  {
    var listing := Collect(src);
    if listing.err.Some? then Failure(listing.err.value)
    else Success(SelectExpired(listing.items, cfg.maxSnap))
  }

  /** Expired followed by retained is the listing itself: the two split it
      in order, with no snapshot left out or counted twice. */
  lemma ExpiredThenRetainedIsListing(ls: seq<Snapshot>, maxSnap: int)
    ensures SelectExpired(ls, maxSnap) + Retained(ls, maxSnap) == ls
  {
    var e := SelectExpired(ls, maxSnap);
    var k := Retained(ls, maxSnap);
    assert |e| + |k| == |ls|;
    assert e == ls[..|e|] && k == ls[|e|..];
  }

  /** No two snapshots in the listing share an identifier. */
  predicate DistinctIds(ls: seq<Snapshot>) {
    forall i, j :: 0 <= i < j < |ls| ==> ls[i].snapshotId != ls[j].snapshotId
  }

  /** With distinct identifiers, no snapshot that retention keeps is ever
      selected for deletion. */
  lemma RetainedNeverExpired(ls: seq<Snapshot>, maxSnap: int)
    requires DistinctIds(ls)
    ensures forall s :: s in Retained(ls, maxSnap) ==> s !in SelectExpired(ls, maxSnap)
  {
    var e := SelectExpired(ls, maxSnap);
    var k := Retained(ls, maxSnap);
    ExpiredThenRetainedIsListing(ls, maxSnap);
    var p := |e|;
    assert e == ls[..p] && k == ls[p..];
  }

  /** The retention cases of the program's own test table: three snapshots
      kept 1, 2, 3, 4 and 0 at a time. */
  lemma RetentionScenarios(a: Snapshot, b: Snapshot, c: Snapshot)
    ensures SelectExpired([a, b, c], 1) == [a, b]
    ensures SelectExpired([a, b, c], 2) == [a]
    ensures SelectExpired([a, b, c], 3) == [] && SelectExpired([a, b, c], 4) == []
    ensures SelectExpired([a, b, c], 0) == [a, b, c]
  {
  }

  /** Creation times never decrease along the listing. */
  predicate Chronological(ls: seq<Snapshot>) {
    forall i, j :: 0 <= i < j < |ls| ==> ls[i].createTime <= ls[j].createTime
  }

  /** On a chronological listing the latest snapshot is the newest one. */
  lemma LatestIsNewest(all: seq<Snapshot>)
    requires Chronological(all)
    ensures GetLatest(all).Some? ==>
      forall t :: t in all ==> t.createTime <= GetLatest(all).value.createTime
  {
    if |all| > 0 {
      forall t | t in all
        ensures t.createTime <= all[|all| - 1].createTime
      {
        var i :| 0 <= i < |all| && all[i] == t;
        if i < |all| - 1 {
          assert all[i].createTime <= all[|all| - 1].createTime;
        }
      }
    }
  }

  /** Splitting a chronological listing anywhere leaves every snapshot of
      the front no newer than any of the back. */
  lemma FrontNoNewerThanBack(front: seq<Snapshot>, back: seq<Snapshot>)
    requires Chronological(front + back)
    ensures forall e, k :: e in front && k in back ==> e.createTime <= k.createTime
  {
    var ls := front + back;
    forall e, k | e in front && k in back
      ensures e.createTime <= k.createTime
    {
      var i :| 0 <= i < |front| && front[i] == e;
      var j :| 0 <= j < |back| && back[j] == k;
      assert ls[i] == e && ls[|front| + j] == k;
    }
  }

  /** On a chronological listing every expired snapshot is at least as old
      as every retained one. */
  lemma ExpiredAreOldest(ls: seq<Snapshot>, maxSnap: int)
    requires Chronological(ls)
    ensures forall e, k :: e in SelectExpired(ls, maxSnap) && k in Retained(ls, maxSnap) ==>
      e.createTime <= k.createTime
  {
    ExpiredThenRetainedIsListing(ls, maxSnap);
    FrontNoNewerThanBack(SelectExpired(ls, maxSnap), Retained(ls, maxSnap));
  }

  // ---------------------------------------------------------------------
  // Deleting

  /** The first `i` delete requests all succeed. */
  predicate FirstAttempts(snaps: seq<Snapshot>, respond: Snapshot -> DeleteResponse, i: int)
    requires 0 <= i <= |snaps|
  {
    forall j :: 0 <= j < i ==> respond(snaps[j]).Success?
  }

  /** The error of the first delete request that fails, if any. */
  function FirstFailure(snaps: seq<Snapshot>, respond: Snapshot -> DeleteResponse): (r: Option<Error>)
    ensures r.None? <==> forall i :: 0 <= i < |snaps| ==> respond(snaps[i]).Success?
    ensures forall i :: 0 <= i < |snaps| && respond(snaps[i]).Failure? && FirstAttempts(snaps, respond, i) ==>
      r == Some(respond(snaps[i]).error)
  {
    if |snaps| == 0 then None
    else
      var front := snaps[..|snaps| - 1];
      var earlier := FirstFailure(front, respond);
      if earlier.Some? then earlier
      else
        match respond(snaps[|snaps| - 1])
        case Failure(e) => Some(e)
        case Success(_) => None
  }

  /** How many delete requests the provider answers with a deleted status. */
  function DeletedCount(snaps: seq<Snapshot>, respond: Snapshot -> DeleteResponse): (n: nat)
    ensures n <= |snaps|
    ensures n == |snaps| <==> forall i :: 0 <= i < |snaps| ==> respond(snaps[i]) == Success(Deleted)
  {
    if |snaps| == 0 then 0
    else
      var front := snaps[..|snaps| - 1];
      assert forall i :: 0 <= i < |front| ==> front[i] == snaps[i];
      DeletedCount(front, respond) + (if respond(snaps[|snaps| - 1]) == Success(Deleted) then 1 else 0)
  }

  /** Deletion counts add up over consecutive runs of snapshots. */
  lemma {:induction false} DeletedCountConcat(a: seq<Snapshot>, b: seq<Snapshot>, respond: Snapshot -> DeleteResponse)
    ensures DeletedCount(a + b, respond) == DeletedCount(a, respond) + DeletedCount(b, respond)
    decreases |b|
  {
    if |b| == 0 {
      assert a + b == a;
    } else {
      var b' := b[..|b| - 1];
      assert (a + b)[..|a + b| - 1] == a + b';
      DeletedCountConcat(a, b', respond);
    }
  }

  /** Delete each snapshot in turn. The first failing request ends the pass
      with its error and a count of zero, whatever was deleted before it;
      otherwise the count is the number of requests the provider confirmed
      as deleted. */
  method Delete(snaps: seq<Snapshot>, respond: Snapshot -> DeleteResponse) returns (count: int, err: Option<Error>)
    ensures err == FirstFailure(snaps, respond)
    ensures err.Some? ==> count == 0
    ensures err.None? ==> count == DeletedCount(snaps, respond)
    ensures 0 <= count <= |snaps|
  {
    count := 0;
    var i := 0;
    while i < |snaps|
      invariant 0 <= i <= |snaps|
      invariant forall j :: 0 <= j < i ==> respond(snaps[j]).Success?
      invariant count == DeletedCount(snaps[..i], respond)
    {
      var r := respond(snaps[i]);
      if r.Failure? {
        count, err := 0, Some(r.error);
        return;
      }
      assert snaps[..i + 1][..i] == snaps[..i];
      if r.value == Deleted {
        count := count + 1;
      }
      i := i + 1;
    }
    assert snaps[..i] == snaps;
    err := None;
  }
}
