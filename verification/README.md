# rds-snapshot-copier, modelled in Dafny

This project models the sequential logic of rds-snapshot-copier. The tool copies the latest
database snapshot of every tagged, available RDS instance from a source region to a target
region. It can re-encrypt the copy with a target-side KMS key. It can also select old copies for
deletion once a retention count is exceeded.

The provider is not modelled. Its answers are inputs to the model:

- a paginated listing is a `Pages` value: the pages the provider would serve, plus whether fetching past the last page fails;
- a describe-snapshots answer and a list-tags answer are `Result` values, supplied by an oracle keyed by snapshot name or ARN;
- each delete request's answer is an oracle from snapshot to status or error;
- a copy request's answer is an oracle from request to new snapshot or error.

Modules follow the program's packages:

| module | models |
|---|---|
| `Wrappers` | `Option` (a possibly nil pointer) and `Result` (a value or an error) |
| `Rds` | the provider records the core reads (snapshot, instance, tag, error) and the not-found code |
| `Wiring` | the configuration record (`MaxSnap`, `Tag`, source/target region, `TargetKMS`) |
| `Paging` | the page-callback loop shared by both `List` functions, with its 1000-page counter rule |
| `SnapOps` | `internal/snapops`: `List`, `Describe`, `GetSlice`, `GetLatest`, `ListExpired`, `Delete` |
| `RdsOps` | `internal/rdsops`: `List`, `GetTag`, `Filter` |
| `Strings` | the left-to-right, non-overlapping `strings.Replace(s, old, new, -1)` |
| `Worker` | `internal/worker`: the target-name rule, `copySnap` path selection, `buildQueue` |

Four points where the program's own names and comments differ from what its code does; the
model follows the code:

- **Target name.** The worker pool computes a `-copyfrom-<sourceRegion>` name (worker.go:90) and only logs it (worker.go:99). The name that is actually copied to and checked for is the `-cf-` one, in `copySnap` (worker.go:145) and `buildQueue` (worker.go:188).
- **Reverse window.** `GetSlice`'s reverse form is meant to give the `num` most recent snapshots, as `GetLatest` uses it (snapops.go:174-176). For `num > len` it does not (see Findings).
- **Ordering.** `GetSlice` describes its input as ordered by date (snapops.go:148), but the code never sorts: "latest" is the last element in the provider's listing order. The lemmas about creation times (`LatestIsNewest`, `ExpiredAreOldest`) therefore assume a `Chronological` listing.
- **Instance count.** The comment on the instance `List` says "Max of 50000" (rdsops.go:16). The code requests pages of `MaxRecords` = 50 (rdsops.go:21), and its callback `return pageNum <= 1000` (rdsops.go:30) still accepts page 1001, so up to 50050 instances come back. Page size is the provider's side here, so `RdsOps.ListingBound` assumes pages of at most 50 instances; `RdsOps.ListingCanExceedFiftyThousand` shows a listing that reaches 50050.

The two defects under Findings are modelled twice: an as-written member beside a corrected one.

## Model

| member | source | states |
|---|---|---|
| Paging.Paginate | internal/snapops/snapops.go:27-37 | the paging loop returns the in-order concatenation of the first min(n, 1001) pages (the callback continues while its counter is at most 1000); an error is reported only when the provider fails before the counter stops the loop |
| Paging.PagesPastCeilingIgnored | internal/snapops/snapops.go:31-34 | pages the provider would serve after the 1001st never reach the result, and no later fetch error is reported |
| Paging.ShortListingIsWhole | internal/rdsops/rdsops.go:24-31 | a listing of at most 1001 pages is the concatenation of all its pages |
| SnapOps.List | internal/snapops/snapops.go:18-38 | the snapshot listing is the in-order concatenation of the consumed pages, and it returns the paginator's error alongside the items |
| RdsOps.List | internal/rdsops/rdsops.go:17-34 | the instance listing follows the same concatenation and the same 1001-page ceiling |
| Paging.FlattenLength | internal/rdsops/rdsops.go:24-31 | a run of pages of at most m items each holds at most m times the number of pages, and exactly that many when every page is full |
| RdsOps.ListingBound | internal/rdsops/rdsops.go:16-33 | with pages of at most 50 instances (MaxRecords), the listing holds at most 50 * 1001 = 50050 instances |
| RdsOps.ListingCanExceedFiftyThousand | internal/rdsops/rdsops.go:16-33 | 1001 full pages give a listing of exactly 50050 instances, more than the 50000 the comment states |
| SnapOps.DescribeAsWritten | internal/snapops/snapops.go:48-61 | as written: a not-found fault gives absent with no error; any other AWS error propagates unchanged; a non-AWS error gives absent with no error; exactly one result gives that snapshot; zero or several results give absent with no error |
| SnapOps.Describe | internal/snapops/snapops.go:41-62 | corrected: a not-found fault gives absent with no error; every other error propagates unchanged; exactly one result gives that snapshot; zero or several results give absent with no error |
| SnapOps.NonAwsErrorReadAsAbsent | internal/snapops/snapops.go:50-54 | a non-AWS error comes back as absent with no error as written, and as that error when corrected |
| SnapOps.DescribeAgreesOnAwsAnswers | internal/snapops/snapops.go:48-61 | on every answer that is not a non-AWS error, the written and corrected describe agree |
| SnapOps.GetSlice | internal/snapops/snapops.go:150-172 | as written: empty input gives empty; for start >= 0 and num >= 0 it is all[min(start,len)..min(start+num,len)], so empty when start >= len; for start = -1 it gives the last num elements when 0 <= num <= len, but the first 2*len-num elements when len < num <= 2*len |
| SnapOps.ReverseSliceDefinedIff | internal/snapops/snapops.go:158-171 | the reverse form on a non-empty input is free of slice panics exactly when num <= 2*len |
| SnapOps.ForwardSliceDefinedIff | internal/snapops/snapops.go:156-171 | the forward form on a non-empty input panics exactly when num < 0 and start+num < len |
| SnapOps.ReverseOvershootDropsNewest | internal/snapops/snapops.go:159-160 | for len < num <= 2*len the reverse form returns fewer than len elements, so it differs from the intended window `SliceWindow` (the num most recent elements, all of them when num > len, as GetLatest uses it at snapops.go:174-176) |
| SnapOps.ReverseOvershootExample | internal/snapops/snapops.go:159-160 | asking for the 4 newest of [1,2,3] gives [1,2] as written, [1,2,3] when corrected |
| SnapOps.SliceWindow | internal/snapops/snapops.go:148-172 | corrected selector: forward windows are clamped as before; start = -1 gives exactly the min(num,len) most recent elements in order |
| SnapOps.GetSliceAgreesWithWindow | internal/snapops/snapops.go:150-172 | the written and corrected selectors coincide whenever start >= 0 and num >= 0, or start = -1 and num <= len |
| SnapOps.CallSitesAgree | internal/snapops/snapops.go:176 | at the program's two call sites, (all, -1, 1) here and (ls, 0, k) at line 115, the written selector never panics and equals the corrected one |
| SnapOps.GetLatest | internal/snapops/snapops.go:175-184 | absent exactly for an empty listing; otherwise the last element |
| SnapOps.LatestIsNewest | internal/snapops/snapops.go:174-184 | on a chronological listing no snapshot is newer than the latest |
| SnapOps.SelectExpired | internal/snapops/snapops.go:110-120 | empty when len <= MaxSnap; otherwise exactly the first len - max(MaxSnap,0) elements in order; all of them when MaxSnap <= 0 |
| SnapOps.ListExpired | internal/snapops/snapops.go:104-121 | a listing error propagates (partial items discarded); otherwise the result is the expired selection of the listing |
| SnapOps.RetentionScenarios | internal/snapops/snapops_test.go:353-442 | three snapshots kept 1, 2, 3, 4 and 0 at a time expire the first two, the first, none, none and all three |
| SnapOps.ExpiredThenRetainedIsListing | internal/snapops/snapops.go:110-120 | expired followed by the MaxSnap most recent reconstructs the listing |
| SnapOps.RetainedNeverExpired | internal/snapops/snapops.go:110-120 | with distinct snapshot identifiers, no retained snapshot is in the expired selection |
| SnapOps.ExpiredAreOldest | internal/snapops/snapops.go:103-120 | on a chronological listing every expired snapshot is no newer than any retained one |
| SnapOps.FirstFailure | internal/snapops/snapops.go:130-137 | absent exactly when every delete request succeeds; otherwise the error of the first failing request |
| SnapOps.DeletedCount | internal/snapops/snapops.go:139-141 | at most the number of requests, and equal to it exactly when every response reports "deleted" |
| SnapOps.DeletedCountConcat | internal/snapops/snapops.go:129-142 | the deleted count of consecutive runs of snapshots is the sum of their counts |
| SnapOps.Delete | internal/snapops/snapops.go:124-146 | empty input gives 0 and no error; the first delete error gives 0 and that error, discarding earlier counts; otherwise the count of "deleted" responses, so 0 <= count <= len |
| RdsOps.FirstMatch | internal/rdsops/rdsops.go:46-51 | absent exactly when no tag has the key; otherwise the value of the first tag with the key |
| RdsOps.GetTag | internal/rdsops/rdsops.go:37-52 | a failed tag listing gives its error; the first tag whose key matches gives its value; no match gives "" with no error |
| RdsOps.Filter | internal/rdsops/rdsops.go:56-82 | an instance is kept iff its status is "available" and its tag lookup succeeds with a non-empty value (so a lookup error only skips it); the output is an order-preserving subsequence of the input; no error is possible |
| RdsOps.FilterConcat | internal/rdsops/rdsops.go:58-79 | filtering a concatenation is concatenating the filtered parts |
| RdsOps.FilterIdempotent | internal/rdsops/rdsops.go:58-79 | filtering a filtered list changes nothing |
| Strings.ReplaceAll | internal/worker/worker.go:145 | a string without the pattern comes back unchanged; a replacement no longer than the pattern never lengthens the string |
| Strings.NoOccurrenceAcrossSeparator | internal/worker/worker.go:188 | joining two pattern-free strings with a separator of foreign characters creates no occurrence of the pattern |
| Worker.TargetName | internal/worker/worker.go:145 | the name is id + "-cf-" + region with each left-to-right, non-overlapping "rds:" removed (the result may still contain "rds:"); it is no longer than the plain concatenation |
| Worker.TargetNamePlain | internal/worker/worker.go:188 | if neither id nor region contains "rds:" the name is the plain concatenation |
| Worker.TargetNameStripsPrefix | internal/worker/worker.go:145 | "rds:x" is named "x-cf-<region>" when x and the region contain no "rds:" |
| Worker.TargetNameMayKeepPrefix | internal/worker/worker.go:145 | removal is a single pass: the id "rrds:ds:" is named "rds:-cf-<region>", which still contains "rds:" |
| Worker.CopySnap | internal/worker/worker.go:143-161 | the encrypted path is taken iff TargetKMS is non-empty, and it carries the source region used for presigning; the request names the copy TargetName(id, sourceRegion) from the snapshot's ARN; a copy error gives no snapshot and that error |
| Worker.Pick | internal/worker/worker.go:170-201 | under a given reading of the describe answer (the program's is `DescribeAsWritten`), an instance contributes a snapshot iff its listing succeeds, is non-empty, and the reading of the target name succeeds and finds nothing; that snapshot is the listing's last element |
| Worker.NonAwsDescribeErrorEnqueues | internal/worker/worker.go:189-201 | an instance listing one snapshot whose target name fails to describe with a non-AWS error is enqueued as written and skipped when corrected |
| Worker.PicksAgreeOnProviderAnswers | internal/worker/worker.go:189-201 | when no describe answer is a non-AWS failure, the written and corrected steps pick the same snapshot |
| Worker.BuildQueue | internal/worker/worker.go:164-204 | under a given reading of the describe answer (the program's is `DescribeAsWritten`), the queue holds exactly the instances' picks, at most one per instance, so its length is at most the number of instances; building it never fails |
| Worker.BuildQueueConcat | internal/worker/worker.go:167-201 | queue order follows instance order: the queue of a concatenation is the concatenation of the queues |
| Worker.EmptyQueueIff | internal/worker/worker.go:167-203 | the queue is empty exactly when no instance has a pick |
| Worker.QueuesAgreeOnProviderAnswers | internal/worker/worker.go:189-201 | when no describe answer is a non-AWS failure, the program's queue equals the corrected one |
| Worker.NonAwsDescribeErrorQueues | internal/worker/worker.go:189-201 | for one instance listing one snapshot whose target name fails to describe with a non-AWS error, the program's queue is that snapshot and the corrected queue is empty |
| Worker.AlreadyCopiedNotQueued | internal/worker/worker.go:188-198 | if the target reports every computed target name as present, the queue is empty under both the written and the corrected describe |
| Worker.SecondRunEnqueuesNothing | internal/worker/worker.go:187-201 | for any reading that takes a single described snapshot as found: with unchanged source listings and the first run's copies present in the target, a second run enqueues nothing |
| Worker.ReadingsFindSingle | internal/snapops/snapops.go:57-61 | both the written and the corrected describe take a single described snapshot as found, so the second-run property holds for both |
| Worker.QueuedCopyTargetsCheckedName | internal/worker/worker.go:145-189 | under either reading, every queued snapshot is copied to exactly the name that buildQueue found absent in the target region |

## Findings

| source | as written | input that shows it | evidently intended | confidence | as-written member | corrected member |
|---|---|---|---|---|---|---|
| internal/snapops/snapops.go:50-54 | the not-found test rebinds `err` to its `awserr.Error` view; for a non-AWS error that view is nil, so `return nil, err` returns no error | `DescribeDBSnapshots` fails with an error that is not an `awserr.Error`: `Describe` returns no snapshot and no error, and `buildQueue` then enqueues a copy as if the target name were free | the error propagates to the caller | high for the code as written, though the SDK rarely produces non-AWS errors; not executed | SnapOps.DescribeAsWritten, SnapOps.NonAwsErrorReadAsAbsent, Worker.NonAwsDescribeErrorEnqueues, Worker.NonAwsDescribeErrorQueues | SnapOps.Describe, Worker.PicksAgreeOnProviderAnswers, Worker.QueuesAgreeOnProviderAnswers |
| internal/snapops/snapops.go:159-160 | the reverse branch computes `end = lena + start` from the already-moved `start`, giving `end = 2*len - num` | `GetSlice([s1,s2,s3], -1, 4)` returns `[s1,s2]`; with `num > 6` the slice expression panics | the `num` most recent elements, all of them when `num > len` (end = `lena`) | medium, not executed | SnapOps.GetSlice, SnapOps.ReverseOvershootDropsNewest | SnapOps.SliceWindow |

`BuildQueue` takes the reading of the describe answer as a parameter. `BuildQueue(DescribeAsWritten, ...)`
is the program's queue and `BuildQueue(Describe, ...)` the corrected one. `Pick` under the same
reading is the per-instance step of each. `NonAwsDescribeErrorEnqueues` and
`NonAwsDescribeErrorQueues` show the two differ on a non-AWS describe failure.
`PicksAgreeOnProviderAnswers` and `QueuesAgreeOnProviderAnswers` show they agree on every
other answer.

`GetLatest` and `ListExpired` use the corrected `SliceWindow`. `CallSitesAgree` proves that the
written selector gives the same result at both places the program calls it. So the defect is
latent in the current program.

## Left out

- The `copySnapShots` worker pool (worker.go:64-140) is left out because it is concurrency and unbounded wall-clock polling. That covers its goroutines, job channel, mutex, WaitGroup and 10-second poll loop. Two defects there are not modelled: the failure-path `continue` at worker.go:96 skips `wg.Done()`, and worker.go:110 dereferences the status even when describe returned absent or an error.
- `Looper` and `Run` (worker.go:20-62) are left out because they are session creation, fatal logging, `os.Exit(1)` and sleeping. The exit after the first pass is among them. Retention (`ListExpired`, `Delete`) is never called there.
- `PullSnapShot` and `PullEncryptedSnapShot` (snapops.go:65-101) are left out because they build and presign SDK requests. They appear only as the `CopyRequest` handed to the copy oracle. A presign failure is one of that oracle's error outcomes.
- `time.Sleep(AntiRateLimit)` pacing and all zap logging are left out because they do not affect results.
- `GetLatest`'s error branch (snapops.go:177-179) and `ListExpired`'s `GetSlice` error branch (snapops.go:116-118) are left out because `GetSlice` never returns an error.
- `Filter` and `buildQueue` return only the list: their error result is always nil.
- The request fields `IncludePublic` and `IncludeShared` are left out because the provider is an input here. `MaxRecords` is not enforced on the pages the provider serves; `RdsOps.ListingBound` takes it as an assumption about them.
- Go's 64-bit `int` is modelled as unbounded `int`, because `start + num` and `len - MaxSnap` overflow only for values near 2^63.
- `Delete` takes one provider response per snapshot from an oracle keyed by the snapshot. A nil `Status` pointer (which would panic) is not modelled.
- CLI flag parsing, logger setup and AWS session wiring are left out because they are bootstrapping. The configuration is the `Wiring.Config` record with the fields the core reads.
