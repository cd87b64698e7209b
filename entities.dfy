/**
 * The persisted entities and transfer objects of the file-monitoring service.
 * They carry no behaviour; each mirrors the fields of its Java class.
 */
module Entities {
  import opened Wrappers

  /** A point in time (`LocalDateTime`), ordered. */
  type Time = int

  /** The request body of "follow a file". */
  datatype CreateSubscriptionCommand = CreateSubscriptionCommand(
    filePath: string,
    email: string,
    jobId: Option<string>)

  /** A subscription row. `id` and `version` are assigned by persistence. */
  datatype Subscription = Subscription(
    id: Option<nat>,
    filePath: string,
    email: string,
    jobId: Option<string>,
    active: bool,
    version: Option<nat>)

  /** What the API returns for a subscription. */
  datatype SubscriptionDto = SubscriptionDto(
    filePath: string,
    email: string,
    jobId: Option<string>,
    active: bool)

  /** A change record: the delta (or the initial content) captured for a file, and when
      a notification was last sent for it (`None` while it is pending). */
  datatype FileChange = FileChange(
    id: Option<nat>,
    filePath: string,
    content: string,
    changeTime: Time,
    lastNotificationSent: Option<Time>)
  {
    predicate Pending() { lastNotificationSent.None? }
  }

  /** One mail handed to the e-mail service. */
  datatype Email = Email(to: string, subject: string, content: string)

  /** The exceptions the core raises towards its callers. */
  datatype Failure =
    | FileNotFound(message: string)
    | WatcherRegistration(message: string)
    | EntityNotFound(message: string)
    /** An `UncheckedIOException` raised while the lines of a file are read; no catch of
        the core handles it, so it reaches the caller. */
    | UncheckedIo
}
