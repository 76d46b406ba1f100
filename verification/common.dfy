/**
 Shared vocabulary of the Trac-to-GitLab migration model: optional values,
 results with an error, and the opaque timestamp type.
 */
module Common {

  /** A value that may be missing (Python's `None`, or an absent dictionary key). */
  datatype Option<+T> = None | Some(value: T)

  /** The outcome of a step that can abort the migration. */
  datatype Result<+T, +E> = Success(value: T) | Failure(error: E)

  /**
   An XML-RPC date-time as the tracker delivers it. Its conversion to a
   Python datetime is a thin wrapper over strptime and is not modelled:
   timestamps are carried through unchanged.
   */
  type Timestamp = string

  /** The errors that stop a migration run. */
  datatype MigrationError =
    | ProjectNotFound(project: string)
    | UnknownMilestone(name: string)
}
