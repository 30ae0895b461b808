/** The provider's records, as far as the copier reads them, and the
    responses its calls come back with. */
module Rds {
  import opened Wrappers

  /** A database snapshot: owning instance, identifier, ARN, creation
      time and provider-reported status. */
  datatype Snapshot = Snapshot(
    instanceId: string,
    snapshotId: string,
    arn: string,
    createTime: int,
    status: string)

  /** A database instance: identifier, operational status and ARN. */
  datatype Instance = Instance(id: string, status: string, arn: string)

  /** A key/value tag attached to an instance. */
  datatype Tag = Tag(key: string, value: string)

  /** A failed provider call: either an AWS error, which carries a code,
      or any other error value. */
  datatype Error = AwsError(code: string, message: string) | OtherError(message: string)

  /** The code the provider uses for "no snapshot with that identifier". */
  const SnapshotNotFoundCode: string := "DBSnapshotNotFound"

  /** Operational status of an instance that is ready, and the status a
      snapshot has once the provider has deleted it. */
  const Available: string := "available"
  const Deleted: string := "deleted"

  predicate IsSnapshotNotFound(e: Error) {
    e.AwsError? && e.code == SnapshotNotFoundCode
  }

  /** The answer to a describe-snapshots request by identifier. */
  type DescribeResponse = Result<seq<Snapshot>, Error>

  /** The answer to a list-tags-for-resource request. */
  type TagsResponse = Result<seq<Tag>, Error>

  /** The answer to one delete-snapshot request: the status of the snapshot
      the provider returns. */
  type DeleteResponse = Result<string, Error>
}
