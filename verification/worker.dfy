/** Building the copy queue: for each in-scope instance, whether its latest
    snapshot still has to be copied to the target region, and how a copy is
    requested. */
module Worker {
  import opened Wrappers
  import opened Rds
  import opened Wiring
  import opened Paging
  import opened Strings
  import opened SnapOps

  /** The literal prefix automated snapshot identifiers carry. */
  const RdsPrefix: string := "rds:"

  /** What joins the snapshot identifier and the source region. */
  const CopySuffix: string := "-cf-"

  /** The name a copy of snapshot `id` from `sourceRegion` gets in the
      target region; it doubles as the key for "already copied". */
  function TargetName(id: string, sourceRegion: string): (r: string)
    ensures |r| <= |id| + |CopySuffix| + |sourceRegion|
  {
    ReplaceAll(id + CopySuffix + sourceRegion, RdsPrefix, "")
  }

  /** When neither part contains the prefix, the name is the plain
      concatenation: the suffix cannot create an occurrence. */
  lemma TargetNamePlain(id: string, sourceRegion: string)
    requires !Occurs(id, RdsPrefix) && !Occurs(sourceRegion, RdsPrefix)
    ensures TargetName(id, sourceRegion) == id + CopySuffix + sourceRegion
  {
    NoOccurrenceAcrossSeparator(id, CopySuffix, sourceRegion, RdsPrefix);
  }

  /** An automated snapshot `rds:x` is copied as `x-cf-<region>`. */
  lemma TargetNameStripsPrefix(x: string, sourceRegion: string)
    requires !Occurs(x, RdsPrefix) && !Occurs(sourceRegion, RdsPrefix)
    ensures TargetName(RdsPrefix + x, sourceRegion) == x + CopySuffix + sourceRegion
  {
    var s := RdsPrefix + x + CopySuffix + sourceRegion;
    assert s[..|RdsPrefix|] == RdsPrefix;
    assert s[|RdsPrefix|..] == x + CopySuffix + sourceRegion;
    TargetNamePlain(x, sourceRegion);
  }

  /** Regrouping the name `[c] + p + d` joined with suffix and region. */
  lemma Regroup(c: char, p: string, d: string, x: string, y: string)
    ensures [c] + p + d + x + y == [c] + (p + (d + x + y))
    ensures [c] + (d + x + y) == [c] + d + x + y
  {
  }

  /** Removal is a single left-to-right pass, so removing one occurrence
      can join its neighbours into a new one: the name of `rrds:ds:` still
      contains the prefix. */
  lemma TargetNameMayKeepPrefix(sourceRegion: string)
    requires !Occurs(sourceRegion, RdsPrefix)
    ensures TargetName("rrds:ds:", sourceRegion) == RdsPrefix + CopySuffix + sourceRegion
    ensures Occurs(TargetName("rrds:ds:", sourceRegion), RdsPrefix)
  {
    var tail := "ds:" + CopySuffix + sourceRegion;
    var rest := RdsPrefix + tail;
    var r := RdsPrefix + CopySuffix + sourceRegion;
    calc {
      TargetName("rrds:ds:", sourceRegion);
      ReplaceAll("rrds:ds:" + CopySuffix + sourceRegion, RdsPrefix, "");
      { assert "rrds:ds:" == ['r'] + RdsPrefix + "ds:";
        Regroup('r', RdsPrefix, "ds:", CopySuffix, sourceRegion); }
      ReplaceAll(['r'] + rest, RdsPrefix, "");
      { ReplaceAllSkipThenHit('r', RdsPrefix, tail, "");
        assert "" + ReplaceAll(tail, RdsPrefix, "") == ReplaceAll(tail, RdsPrefix, ""); }
      ['r'] + ReplaceAll(tail, RdsPrefix, "");
      { assert !Occurs("ds:", RdsPrefix);
        TargetNamePlain("ds:", sourceRegion); }
      ['r'] + tail;
      { assert ['r'] + "ds:" == RdsPrefix;
        Regroup('r', RdsPrefix, "ds:", CopySuffix, sourceRegion); }
      r;
    }
    assert MatchAt(r, RdsPrefix, 0) by { assert r[..|RdsPrefix|] == RdsPrefix; }
  }

  /** A copy request as issued to the provider. */
  datatype CopyRequest =
    | PlainCopy(sourceArn: string, targetName: string, destinationRegion: string, kmsKeyId: string)
    | EncryptedCopy(sourceArn: string, targetName: string, destinationRegion: string,
                    sourceRegion: string, kmsKeyId: string)

  /** A copy attempt: the request issued and the provider's outcome, the
      new snapshot or the error. */
  datatype CopyAttempt = CopyAttempt(request: CopyRequest, outcome: Result<Snapshot, Error>)

  /** Copy one snapshot: the encrypted (pre-signed) path when a target key is
      configured, the plain path otherwise; either names the copy by
      `TargetName`. `pull` is the provider's answer to the request. */
  function CopySnap(cfg: Config, s: Snapshot, pull: CopyRequest -> Result<Snapshot, Error>): (r: CopyAttempt)
    ensures r.request.EncryptedCopy? <==> cfg.targetKms != ""
    ensures r.request.targetName == TargetName(s.snapshotId, cfg.sourceRegion)
    ensures r.request.sourceArn == s.arn && r.request.kmsKeyId == cfg.targetKms
    ensures r.request.destinationRegion == cfg.targetRegion
    ensures r.request.EncryptedCopy? ==> r.request.sourceRegion == cfg.sourceRegion
    ensures r.outcome.Failure? <==> pull(r.request).Failure?
    ensures r.outcome.Failure? ==> r.outcome.error == pull(r.request).error
    ensures r.outcome.Success? ==> r.outcome.value == pull(r.request).value
  {
    var name := TargetName(s.snapshotId, cfg.sourceRegion);
    var req :=
      if cfg.targetKms != "" then EncryptedCopy(s.arn, name, cfg.targetRegion, cfg.sourceRegion, cfg.targetKms)
      else PlainCopy(s.arn, name, cfg.targetRegion, cfg.targetKms);
    match pull(req)
    case Failure(e) => CopyAttempt(req, Failure(e))
    case Success(copy) => CopyAttempt(req, Success(copy))
  }

  /** How the answer to "describe the target name" is read: the corrected
      `Describe` or the code's `DescribeAsWritten`. */
  type DescribeReading = DescribeResponse -> Result<Option<Snapshot>, Error>

  /** One instance's contribution to the queue under a given reading of the
      describe answer: its latest snapshot, unless listing fails, the
      listing is empty, the reading fails, or it finds a snapshot by the
      target name. `Pick(DescribeAsWritten, ...)` is the program's step;
      `Pick(Describe, ...)` is the corrected one. */
  function Pick(read: DescribeReading, cfg: Config, inst: Instance, listingOf: string -> Pages<Snapshot>,
                describeTarget: string -> DescribeResponse): (r: Option<Snapshot>)
    ensures var l := Collect(listingOf(inst.id));
      && (r.Some? <==>
           && l.err.None?
           && |l.items| > 0
           && read(describeTarget(TargetName(l.items[|l.items| - 1].snapshotId, cfg.sourceRegion))) == Success(None))
      && (r.Some? ==> r.value == l.items[|l.items| - 1])
  {
    var listing := Collect(listingOf(inst.id));
    if listing.err.Some? then None
    else
      match GetLatest(listing.items)
      case None => None
      case Some(latest) =>
        match read(describeTarget(TargetName(latest.snapshotId, cfg.sourceRegion)))
        case Failure(_) => None
        case Success(Some(_)) => None
        case Success(None) => Some(latest)
  }

  /** As written, an instance whose target name cannot be described for a
      reason other than a provider error is queued anyway; the corrected
      step skips it. */
  lemma NonAwsDescribeErrorEnqueues(cfg: Config, inst: Instance, s: Snapshot, listingOf: string -> Pages<Snapshot>,
                                    describeTarget: string -> DescribeResponse)
    requires listingOf(inst.id) == Pages([[s]], None)
    requires describeTarget(TargetName(s.snapshotId, cfg.sourceRegion)).Failure?
    requires describeTarget(TargetName(s.snapshotId, cfg.sourceRegion)).error.OtherError?
    ensures Pick(DescribeAsWritten, cfg, inst, listingOf, describeTarget) == Some(s)
    ensures Pick(Describe, cfg, inst, listingOf, describeTarget) == None
  {
    var pages: seq<seq<Snapshot>> := [[s]];
    assert pages[..|pages| - 1] == [];
    assert Flatten(pages) == [s];
    ShortListingIsWhole(Pages(pages, None));
  }

  /** When no describe answer is a non-provider failure, the written and the
      corrected step pick the same snapshot. */
  lemma PicksAgreeOnProviderAnswers(cfg: Config, inst: Instance, listingOf: string -> Pages<Snapshot>,
                                    describeTarget: string -> DescribeResponse)
    requires forall n :: describeTarget(n).Failure? ==> describeTarget(n).error.AwsError?
    ensures Pick(DescribeAsWritten, cfg, inst, listingOf, describeTarget) == Pick(Describe, cfg, inst, listingOf, describeTarget)
  {
    var l := Collect(listingOf(inst.id));
    if l.err.None? && |l.items| > 0 {
      DescribeAgreesOnAwsAnswers(describeTarget(TargetName(l.items[|l.items| - 1].snapshotId, cfg.sourceRegion)));
    }
  }

  /** The copy queue under a reading of the describe answer: each
      instance's pick, in instance order. Every per-instance failure only
      skips that instance; building the queue never fails. The program's
      queue is `BuildQueue(DescribeAsWritten, ...)`; the corrected one is
      `BuildQueue(Describe, ...)`. */
  function BuildQueue(read: DescribeReading, cfg: Config, insts: seq<Instance>,
                      listingOf: string -> Pages<Snapshot>,
                      describeTarget: string -> DescribeResponse): (q: seq<Snapshot>)
    ensures |q| <= |insts|
    ensures forall s :: s in q <==>
      exists i :: i in insts && Pick(read, cfg, i, listingOf, describeTarget) == Some(s)
  {
    if |insts| == 0 then []
    else
      var rest := BuildQueue(read, cfg, insts[1..], listingOf, describeTarget);
      assert forall i :: i in insts <==> i == insts[0] || i in insts[1..];
      match Pick(read, cfg, insts[0], listingOf, describeTarget)
      case Some(s) => [s] + rest
      case None => rest
  }

  /** The queue follows instance order: the queue of a concatenation is the
      concatenation of the queues. */
  lemma {:induction false} BuildQueueConcat(read: DescribeReading, cfg: Config, a: seq<Instance>, b: seq<Instance>,
                                            listingOf: string -> Pages<Snapshot>,
                                            describeTarget: string -> DescribeResponse)
    ensures BuildQueue(read, cfg, a + b, listingOf, describeTarget) ==
            BuildQueue(read, cfg, a, listingOf, describeTarget) + BuildQueue(read, cfg, b, listingOf, describeTarget)
    decreases |a|
  {
    if |a| == 0 {
      assert a + b == b;
    } else {
      assert (a + b)[0] == a[0];
      assert (a + b)[1..] == a[1..] + b;
      BuildQueueConcat(read, cfg, a[1..], b, listingOf, describeTarget);
    }
  }

  /** The queue is empty exactly when no instance has a pick. */
  lemma EmptyQueueIff(read: DescribeReading, cfg: Config, insts: seq<Instance>,
                      listingOf: string -> Pages<Snapshot>, describeTarget: string -> DescribeResponse)
    ensures BuildQueue(read, cfg, insts, listingOf, describeTarget) == [] <==>
      forall i :: i in insts ==> Pick(read, cfg, i, listingOf, describeTarget).None?
  {
    var q := BuildQueue(read, cfg, insts, listingOf, describeTarget);
    if q != [] {
      assert q[0] in q;
    }
  }

  /** The program's queue and the corrected one coincide when no describe
      answer is a non-provider failure. */
  lemma {:induction false} QueuesAgreeOnProviderAnswers(cfg: Config, insts: seq<Instance>,
                                                        listingOf: string -> Pages<Snapshot>,
                                                        describeTarget: string -> DescribeResponse)
    requires forall n :: describeTarget(n).Failure? ==> describeTarget(n).error.AwsError?
    ensures BuildQueue(DescribeAsWritten, cfg, insts, listingOf, describeTarget) ==
            BuildQueue(Describe, cfg, insts, listingOf, describeTarget)
    decreases |insts|
  {
    if |insts| > 0 {
      PicksAgreeOnProviderAnswers(cfg, insts[0], listingOf, describeTarget);
      QueuesAgreeOnProviderAnswers(cfg, insts[1..], listingOf, describeTarget);
    }
  }

  /** For one instance listing one snapshot whose target name fails to
      describe with a non-provider error, the program's queue holds that
      snapshot and the corrected queue is empty. */
  lemma NonAwsDescribeErrorQueues(cfg: Config, inst: Instance, s: Snapshot, listingOf: string -> Pages<Snapshot>,
                                  describeTarget: string -> DescribeResponse)
    requires listingOf(inst.id) == Pages([[s]], None)
    requires describeTarget(TargetName(s.snapshotId, cfg.sourceRegion)).Failure?
    requires describeTarget(TargetName(s.snapshotId, cfg.sourceRegion)).error.OtherError?
    ensures BuildQueue(DescribeAsWritten, cfg, [inst], listingOf, describeTarget) == [s]
    ensures BuildQueue(Describe, cfg, [inst], listingOf, describeTarget) == []
  {
    NonAwsDescribeErrorEnqueues(cfg, inst, s, listingOf, describeTarget);
    assert [inst][1..] == [];
  }

  /** Idempotency: when the target region already holds exactly one
      snapshot under every name the queue would check, nothing is enqueued,
      under either reading of the describe answer. */
  lemma AlreadyCopiedNotQueued(cfg: Config, insts: seq<Instance>, listingOf: string -> Pages<Snapshot>,
                               describeTarget: string -> DescribeResponse)
    requires forall i :: i in insts ==>
      var l := Collect(listingOf(i.id));
      l.err.None? && |l.items| > 0 ==>
        Present(describeTarget, TargetName(l.items[|l.items| - 1].snapshotId, cfg.sourceRegion))
    ensures BuildQueue(Describe, cfg, insts, listingOf, describeTarget) == []
    ensures BuildQueue(DescribeAsWritten, cfg, insts, listingOf, describeTarget) == []
  {
    EmptyQueueIff(Describe, cfg, insts, listingOf, describeTarget);
    EmptyQueueIff(DescribeAsWritten, cfg, insts, listingOf, describeTarget);
  }

  /** The target region after the copies of `q` have landed: each copied
      name now describes as one snapshot, every other name as before. */
  function AfterCopies(describeTarget: string -> DescribeResponse, q: seq<Snapshot>, sourceRegion: string,
                       made: string -> Snapshot): string -> DescribeResponse
  {
    var names := set s | s in q :: TargetName(s.snapshotId, sourceRegion);
    (n: string) => if n in names then Success([made(n)]) else describeTarget(n)
  }

  /** A reading that takes a single described snapshot as found, as both
      the written and the corrected describe do. */
  ghost predicate FindsSingle(read: DescribeReading) {
    forall x: Snapshot :: read(Success([x])) == Success(Some(x))
  }

  /** Running the queue builder a second time, against the same source
      listings and a target region where the first queue's copies exist,
      enqueues nothing. */
  lemma SecondRunEnqueuesNothing(read: DescribeReading, cfg: Config, insts: seq<Instance>,
                                 listingOf: string -> Pages<Snapshot>,
                                 describeTarget: string -> DescribeResponse, made: string -> Snapshot)
    requires FindsSingle(read)
    ensures var q := BuildQueue(read, cfg, insts, listingOf, describeTarget);
      BuildQueue(read, cfg, insts, listingOf, AfterCopies(describeTarget, q, cfg.sourceRegion, made)) == []
  {
    var q := BuildQueue(read, cfg, insts, listingOf, describeTarget);
    var after := AfterCopies(describeTarget, q, cfg.sourceRegion, made);
    var names := set s | s in q :: TargetName(s.snapshotId, cfg.sourceRegion);
    forall i | i in insts
      ensures Pick(read, cfg, i, listingOf, after).None?
    {
      var l := Collect(listingOf(i.id));
      if l.err.None? && |l.items| > 0 {
        var latest := l.items[|l.items| - 1];
        var name := TargetName(latest.snapshotId, cfg.sourceRegion);
        var first := Pick(read, cfg, i, listingOf, describeTarget);
        if first.Some? {
          assert latest in q;
          assert name in names;
          assert after(name) == Success([made(name)]);
          assert read(Success([made(name)])) == Success(Some(made(name)));
        } else {
          assert after(name) == describeTarget(name) || after(name) == Success([made(name)]);
          assert read(Success([made(name)])) == Success(Some(made(name)));
        }
      }
    }
    EmptyQueueIff(read, cfg, insts, listingOf, after);
  }

  /** Both readings of the describe answer take a single snapshot as found,
      so a second run enqueues nothing under either. */
  lemma ReadingsFindSingle()
    ensures FindsSingle(Describe) && FindsSingle(DescribeAsWritten)
  {
  }

  /** Every queued snapshot is copied to the very name the queue builder
      found absent in the target region. */
  lemma QueuedCopyTargetsCheckedName(read: DescribeReading, cfg: Config, insts: seq<Instance>,
                                     listingOf: string -> Pages<Snapshot>,
                                     describeTarget: string -> DescribeResponse,
                                     pull: CopyRequest -> Result<Snapshot, Error>)
    ensures forall s :: s in BuildQueue(read, cfg, insts, listingOf, describeTarget) ==>
      read(describeTarget(CopySnap(cfg, s, pull).request.targetName)) == Success(None)
  {
    forall s | s in BuildQueue(read, cfg, insts, listingOf, describeTarget)
      ensures read(describeTarget(CopySnap(cfg, s, pull).request.targetName)) == Success(None)
    {
      var i :| i in insts && Pick(read, cfg, i, listingOf, describeTarget) == Some(s);
    }
  }
}
