/** SubscriptionMapper: field copying between the command, the entity and the DTO. */
module Mapper {
  import opened Wrappers
  import opened Entities

  /** `fromCreateCommand`: a fresh subscription with the command's path, e-mail and job id;
      nothing else is set, so it is inactive and has no id or version yet. */
  function FromCreateCommand(command: CreateSubscriptionCommand): (s: Subscription)
    ensures s.filePath == command.filePath && s.email == command.email && s.jobId == command.jobId
    ensures !s.active
    ensures s.id.None? && s.version.None?
  {
    Subscription(None, command.filePath, command.email, command.jobId, false, None)
  }

  /** `toDTO`: copies path, e-mail and job id; `active` is never copied, so it keeps the
      default `false` whatever the subscription says. */
  function ToDto(s: Subscription): (d: SubscriptionDto)
    ensures d.filePath == s.filePath && d.email == s.email && d.jobId == s.jobId
    ensures !d.active
  {
    SubscriptionDto(s.filePath, s.email, s.jobId, false)
  }

  /** The DTO depends only on path, e-mail and job id: persistence fields and the
      active flag of the subscription do not show through. */
  lemma ToDtoIgnoresStateFields(s: Subscription, t: Subscription)
    requires s.filePath == t.filePath && s.email == t.email && s.jobId == t.jobId
    ensures ToDto(s) == ToDto(t)
  {
  }

  /** Mapping a command to an entity and back to a DTO keeps the command's data. */
  lemma CommandRoundTrip(command: CreateSubscriptionCommand)
    ensures ToDto(FromCreateCommand(command)) == SubscriptionDto(command.filePath, command.email, command.jobId, false)
  {
  }
}
