/** The stored activity record (the `user_activities` row), without the
    identifier, which storage assigns on write. */
module Entity {
  import opened Wrappers
  import opened JavaLang
  import opened JavaTime

  /** `metadata` is `None` when the record carries SQL NULL, which is distinct
      from `Some("")`. */
  datatype UserActivity = UserActivity(
    userId: Int32,
    eventType: string,
    timestamp: LocalDateTime,
    metadata: Option<string>)
}
