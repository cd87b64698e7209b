# FileMonitoring-api change tracking, in Dafny

This project models the core of the FileMonitoring-api service. Users subscribe an e-mail
address to a file path. The service watches each subscribed file. When the file is modified,
it stores the lines appended since the last stored record as a new "pending" change record.
A scheduled batch then mails each pending delta to the path's active subscribers and marks those
records as notified.

Modules, one per part of the program:

- `Wrappers`: `Option` and `Result`.
- `Entities`: the records `Subscription`, `SubscriptionDto`, `CreateSubscriptionCommand`,
  `FileChange` and `Email`, and the exceptions the core raises (`Failure`).
- `Delta`: `extractNewChanges`, with Java's `split("\\r?\\n")`, `List.lastIndexOf` and
  `String.join("\n", …)` written out exactly.
- `Mapper`: `SubscriptionMapper`.
- `Repositories`: the two JPA repositories as classes over a sequence of rows. Their derived
  queries are functions. The e-mail service is an outbox.
- `Notifications`: what one batch run sends and marks, as pure functions, with the lemmas about
  them.
- `Watcher`: the class `FileWatcherService`. It holds the registry of watched paths and the
  modify-event handler. Its batch method is proved to send exactly the `Notifications` outbox and
  to leave the store in the `Notifications` after-state.
- `Subscriptions`: the class `SubscriptionService`.

Things the program gets from its environment are parameters of the operations:

- whether a file exists;
- the result of reading a file: `Content(text)`, `ReadFailed` for an `IOException`, or
  `LinesFailed` for an error while the lines are read;
- the result of opening a native watch;
- the generated job id;
- the current time (`now`), and in the mail header the formatted time (`stamp`).

Points where the code's behaviour is easy to misread:

- **Reading against no earlier record.** `extractNewChanges("", X)` is not always `X`. The code
  splits `""` into the single line `""`. A blank line in `X` then serves as the anchor, and only
  what follows the last blank line counts as new (`Delta.ExtractFromEmptyAnchorsOnBlankLine`).
  The last known content is `""` in two cases. The first is a file that was empty at
  registration: its initial record holds `""` (`Watcher.EmptyInitialRecordExample`). The second
  is a path with no record at all, which happens when the first read failed during registration.
- **Notification field.** `FileChange` records carry a notification time (`lastNotificationSent`),
  as `FileWatcherService` uses them (the four-argument constructor, `setLastNotificationSent`).
  The entity class `file/FileChange.java` in the repository lacks that field.
- **Undeclared queries.** `findTopByFilePathOrderByChangeTimeDesc`,
  `findByLastNotificationSentIsNull` and `findByFilePathAndActive` are called but not declared in
  the repository interfaces. They are modelled with the meaning their Spring Data names give them.
  The names fix which rows are returned. Only `findTopByFilePathOrderByChangeTimeDesc` names an
  order; the other two leave the order of their rows to the database.
- **Inactive subscriptions.** `SubscriptionMapper` never copies `active`, so a subscription created
  through `SubscriptionService` is inactive. Such a subscription never receives a mail, because
  every mail goes to an active subscription (`Notifications.EmailsOnlyToActiveSubscribers`).
  The DTO always reports `active == false`.
- **Failed read after registration.** When the initial read fails during registration, the path
  stays registered and the subscription stays saved, yet an error is raised. The model keeps this
  partial state. `readFileContent` catches only `IOException` (FileWatcherService.java:169-174).
  An error while the lines are read (a malformed UTF-8 byte sequence, say) comes out of
  `BufferedReader.lines()` as an `UncheckedIOException`. No catch of `registerFileWatcher`
  handles it, so it reaches the caller of `createSubscription` as `UncheckedIo`; the partial state
  is the same. On a modify event both failures change nothing: the watcher loop catches any
  exception (line 110).

## Model

Paths are relative to the repository root. `FileWatcherService.java` is
`src/main/java/org/example/filemonitoringapi/listener/FileWatcherService.java`.

| member | source | states |
|---|---|---|
| Delta.Pieces | src/main/java/org/example/filemonitoringapi/listener/FileWatcherService.java:178-179 | cutting at every `\r?\n` match leaves at least one piece, the empty text included |
| Delta.PiecesOfLine | src/main/java/org/example/filemonitoringapi/listener/FileWatcherService.java:178-179 | a text without a line feed is its own single piece |
| Delta.PiecesHaveNoBreak | src/main/java/org/example/filemonitoringapi/listener/FileWatcherService.java:178-179 | no piece holds a line feed |
| Delta.DropTrailingEmpty | src/main/java/org/example/filemonitoringapi/listener/FileWatcherService.java:178-179 | the result is a prefix of the input, does not end in an empty string, and only empty strings were removed |
| Delta.Split | src/main/java/org/example/filemonitoringapi/listener/FileWatcherService.java:178-179 | `split("\\r?\\n")`: the result is `[""]` (for `""`), no line at all, or lines whose last is not empty |
| Delta.SplitOfLine | src/main/java/org/example/filemonitoringapi/listener/FileWatcherService.java:178-179 | Java's no-match case: a text without a line feed splits to itself alone |
| Delta.SplitHasNoBreak | src/main/java/org/example/filemonitoringapi/listener/FileWatcherService.java:178-179 | no line of a split holds a line feed |
| Delta.Join | src/main/java/org/example/filemonitoringapi/listener/FileWatcherService.java:189 | `String.join("\n", lines)`: the lines with a line feed between each two; its properties are `JoinEmpty`, `JoinSnoc`, `JoinPieces` and `JoinContains` |
| Delta.JoinEmpty | src/main/java/org/example/filemonitoringapi/listener/FileWatcherService.java:189 | a join is empty exactly for no lines or one empty line |
| Delta.LastIndexOf | src/main/java/org/example/filemonitoringapi/listener/FileWatcherService.java:184 | `-1` exactly when the line is absent; otherwise an index holding it with no later occurrence |
| Delta.NewLines | src/main/java/org/example/filemonitoringapi/listener/FileWatcherService.java:181-187 | the new lines are always a suffix of the current lines |
| Delta.ExtractNewChanges | src/main/java/org/example/filemonitoringapi/listener/FileWatcherService.java:177-190 | `extractNewChanges`: the new lines joined with a line feed; what it yields is stated by `ExtractIsJoinedSuffix` and the `Extract…` lemmas below |
| Delta.ExtractIsJoinedSuffix | src/main/java/org/example/filemonitoringapi/listener/FileWatcherService.java:177-190 | the delta is the join of the current lines from some index on |
| Delta.ExtractUnchanged | src/main/java/org/example/filemonitoringapi/listener/FileWatcherService.java:177-190 | unchanged content yields the empty delta, whatever the content |
| Delta.ExtractAfterLastAnchor | src/main/java/org/example/filemonitoringapi/listener/FileWatcherService.java:181-187 | when the old last line occurs in the current lines, the delta is exactly the lines after its last occurrence |
| Delta.ExtractWithoutAnchor | src/main/java/org/example/filemonitoringapi/listener/FileWatcherService.java:182-187 | when the old content has no lines or its last line is absent, the delta is the whole current content re-joined |
| Delta.ExtractAppendedLines | src/main/java/org/example/filemonitoringapi/listener/FileWatcherService.java:177-190 | appending lines that do not repeat the old last line yields exactly the appended lines |
| Delta.AnchorBeforeAdded | src/main/java/org/example/filemonitoringapi/listener/FileWatcherService.java:184-187 | the old last line, absent from the added lines, is last found where the old lines end, and the lines after it are the added ones |
| Delta.PiecesLast | src/main/java/org/example/filemonitoringapi/listener/FileWatcherService.java:178-179 | the last piece of `a + "\n" + b` is `b` when `b` holds no line feed |
| Delta.PiecesLine | src/main/java/org/example/filemonitoringapi/listener/FileWatcherService.java:178-179 | a first line without line feed or final carriage return is cut off whole |
| Delta.JoinSnoc | src/main/java/org/example/filemonitoringapi/listener/FileWatcherService.java:189 | a join of two or more lines is the join of all but the last, a line feed, and the last |
| Delta.SplitJoinLast | src/main/java/org/example/filemonitoringapi/listener/FileWatcherService.java:178-189 | splitting a joined delta gives back its last line, so a stored delta supplies the next anchor |
| Delta.JoinPieces | src/main/java/org/example/filemonitoringapi/listener/FileWatcherService.java:178-189 | without carriage returns, joining the pieces rebuilds the text |
| Delta.SplitJoinRoundTrip | src/main/java/org/example/filemonitoringapi/listener/FileWatcherService.java:178-189 | round trip: text without carriage returns and without a final line feed is rebuilt by joining its lines |
| Delta.LastBreak | src/main/java/org/example/filemonitoringapi/listener/FileWatcherService.java:178-179 | a text with a line feed at `k` has a last line feed at or after `k` |
| Delta.JoinContains | src/main/java/org/example/filemonitoringapi/listener/FileWatcherService.java:152-154 | every joined line occurs in the join, with the text before and after it returned |
| Delta.ExtractAnchoredAtEnd | src/main/java/org/example/filemonitoringapi/listener/FileWatcherService.java:181-189 | old content whose last line is the current last line yields the empty delta |
| Delta.SuffixEnd | src/main/java/org/example/filemonitoringapi/listener/FileWatcherService.java:181-187 | a non-empty suffix of split lines ends with their last line, which is blank only when the suffix is one line |
| Delta.NewLinesEnd | src/main/java/org/example/filemonitoringapi/listener/FileWatcherService.java:181-187 | non-empty new lines end with the file's last line, which holds no line feed and is blank only when it is the only new line |
| Delta.DeltaAnchor | src/main/java/org/example/filemonitoringapi/listener/FileWatcherService.java:177-190 | the last line of a non-empty delta is the file's last line |
| Delta.ExtractStable | src/main/java/org/example/filemonitoringapi/listener/FileWatcherService.java:177-190 | extracting again from the same content, against the delta just extracted, yields nothing |
| Delta.SplitEmpty | src/main/java/org/example/filemonitoringapi/listener/FileWatcherService.java:178 | `"".split(…)` is `[""]` |
| Delta.SplitOnlyBreaks | src/main/java/org/example/filemonitoringapi/listener/FileWatcherService.java:178 | text made only of line breaks (`\n`, `\r\n\n`) splits to no lines |
| Delta.PiecesOfBlankLinesExample | src/main/java/org/example/filemonitoringapi/listener/FileWatcherService.java:178 | `"a\n\nb\n\n"` cuts into `a`, ``, `b`, ``, `` before trailing empties go |
| Delta.SplitDropsOnlyTrailingBlanks | src/main/java/org/example/filemonitoringapi/listener/FileWatcherService.java:178 | inner blank lines are kept, trailing ones dropped: `"a\n\nb\n\n"` splits to `a`, ``, `b` |
| Delta.ExtractOneAppendedLine | src/main/java/org/example/filemonitoringapi/listener/FileWatcherService.java:177-190 | one non-blank line appended to a single line (one that does not end in a carriage return) is the delta |
| Delta.ExtractExample | src/main/java/org/example/filemonitoringapi/listener/FileWatcherService.java:177-190 | old `line1`, new `line1\nline2`: the delta is `line2` |
| Delta.ExtractFromEmptyAnchorsOnBlankLine | src/main/java/org/example/filemonitoringapi/listener/FileWatcherService.java:178-187 | against no old content, a blank line anchors: `"a\n\nb"` yields `b` |
| Mapper.FromCreateCommand | src/main/java/org/example/filemonitoringapi/subscription/model/SubscriptionMapper.java:10-16 | path, e-mail and job id come from the command; the subscription is inactive, with no id and no version |
| Mapper.ToDto | src/main/java/org/example/filemonitoringapi/subscription/model/SubscriptionMapper.java:19-25 | path, e-mail and job id are copied; `active` is never copied and stays false |
| Mapper.ToDtoIgnoresStateFields | src/main/java/org/example/filemonitoringapi/subscription/model/SubscriptionMapper.java:19-25 | subscriptions that agree on path, e-mail and job id give the same DTO |
| Mapper.CommandRoundTrip | src/main/java/org/example/filemonitoringapi/subscription/model/SubscriptionMapper.java:10-25 | command to entity to DTO keeps the command's path, e-mail and job id |
| Repositories.IndexOfId | src/main/java/org/example/filemonitoringapi/subscription/SubscriptionRepository.java:11 | the row holding an id, or -1 for no id or an unknown one |
| Repositories.WithoutId | src/main/java/org/example/filemonitoringapi/subscription/SubscriptionRepository.java:11 | deleting by id keeps exactly the rows with another id, and deleting an unsaved or absent entity changes nothing |
| Repositories.FindByJobId | src/main/java/org/example/filemonitoringapi/subscription/SubscriptionRepository.java:14 | found exactly when some row has the job id, and then a stored row with that job id |
| Repositories.FindByFilePathAndActive | src/main/java/org/example/filemonitoringapi/listener/FileWatcherService.java:149 | exactly the stored subscriptions with that path and flag, no more rows than stored |
| Repositories.FindByFilePathAndActiveConcat | src/main/java/org/example/filemonitoringapi/listener/FileWatcherService.java:149 | the query distributes over concatenation, so found subscriptions keep their store order |
| Repositories.FindByFilePathAndActiveSingle | src/main/java/org/example/filemonitoringapi/listener/FileWatcherService.java:149 | a single subscription is found exactly when its path and flag match |
| Repositories.FindAll | src/main/java/org/example/filemonitoringapi/subscription/SubscriptionService.java:71 | the requested page: the rows starting at `page*size` in store order, exactly `size` of them when the store is long enough, all remaining rows on a partial last page, none past the end |
| Repositories.FindAllPartialPage | src/test/java/org/example/filemonitoringapi/subscription/SubscriptionServiceTest.java:127-131 | two stored rows and the first page of ten: the page holds both rows, in order |
| Repositories.SubscriptionRepository.Save | src/main/java/org/example/filemonitoringapi/subscription/SubscriptionService.java:40 | a subscription whose id is stored replaces its row; any other one is appended under the next id; ids stay distinct |
| Repositories.SubscriptionRepository.Delete | src/main/java/org/example/filemonitoringapi/subscription/SubscriptionService.java:53 | the store loses the row of the entity's id and nothing else; ids stay valid |
| Repositories.WithoutIdKeepsValid | src/main/java/org/example/filemonitoringapi/subscription/SubscriptionService.java:53 | deleting keeps stored ids distinct and below the id counter |
| Repositories.SnocKeepsValid | src/main/java/org/example/filemonitoringapi/subscription/SubscriptionService.java:40 | a row with an unused id below the counter can be appended and ids stay valid |
| Repositories.FindTopByFilePath | src/main/java/org/example/filemonitoringapi/listener/FileWatcherService.java:127 | none exactly when the path has no record; otherwise a record of the path with the latest change time |
| Repositories.FindByLastNotificationSentIsNull | src/main/java/org/example/filemonitoringapi/listener/FileWatcherService.java:144 | exactly the stored records with no notification time |
| Repositories.PendingConcat | src/main/java/org/example/filemonitoringapi/listener/FileWatcherService.java:144 | the query distributes over concatenation, so pending records keep their store order |
| Repositories.PendingSingle | src/main/java/org/example/filemonitoringapi/listener/FileWatcherService.java:144 | a single record is returned exactly when it is pending |
| Repositories.FileChangeRepository.Save | src/main/java/org/example/filemonitoringapi/listener/FileWatcherService.java:133-134 | a record with a stored id replaces its row; any other is appended under the next id (row index) |
| Repositories.EmailService.SendEmail | src/main/java/org/example/filemonitoringapi/email/EmailService.java:18 | the mail is appended to the outbox |
| Notifications.GenerateEmailBody | src/main/java/org/example/filemonitoringapi/listener/FileWatcherService.java:193-197 | the body is the "Dnia <stamp> zmieniono plik <path> dopisano do niego:" header line followed by the changes |
| Notifications.EmailHeader | src/main/java/org/example/filemonitoringapi/listener/FileWatcherService.java:196 | the header line of a mail body; its text is stated by `GenerateEmailBody` |
| Notifications.Subject | src/main/java/org/example/filemonitoringapi/listener/FileWatcherService.java:156 | the subject "Zmiana w pliku: " followed by the path; `SubjectInjective` states that it tells paths apart |
| Notifications.SubjectInjective | src/main/java/org/example/filemonitoringapi/listener/FileWatcherService.java:156 | different paths give different subjects |
| Notifications.OfPath | src/main/java/org/example/filemonitoringapi/listener/FileWatcherService.java:145-146 | exactly the records of one path; `OfPathConcat` and `OfPathSingle` fix their order |
| Notifications.OfPathConcat | src/main/java/org/example/filemonitoringapi/listener/FileWatcherService.java:145-146 | filtering by path distributes over concatenation, so a group keeps the order of retrieval |
| Notifications.OfPathSingle | src/main/java/org/example/filemonitoringapi/listener/FileWatcherService.java:145-146 | a single record is kept exactly when it is of the path |
| Notifications.DistinctPaths | src/main/java/org/example/filemonitoringapi/listener/FileWatcherService.java:145-146 | each path of the records once, each with at least one record |
| Notifications.GroupByFilePath | src/main/java/org/example/filemonitoringapi/listener/FileWatcherService.java:145-146 | one group per distinct path, holding that path's records |
| Notifications.GroupsPartitionPending | src/main/java/org/example/filemonitoringapi/listener/FileWatcherService.java:144-146 | the groups partition the pending records: distinct paths, none empty, each record in the group of its path |
| Notifications.GroupRecord | src/main/java/org/example/filemonitoringapi/listener/FileWatcherService.java:145-146 | a record of a group is a pending record of that group's path |
| Notifications.Contents | src/main/java/org/example/filemonitoringapi/listener/FileWatcherService.java:152-153 | the record contents in order |
| Notifications.GroupBody | src/main/java/org/example/filemonitoringapi/listener/FileWatcherService.java:152-155 | the body of a group's mails: the header, then the group's contents joined with `\n` |
| Notifications.ActiveFor | src/main/java/org/example/filemonitoringapi/listener/FileWatcherService.java:149 | the active subscriptions of a path (`findByFilePathAndActive(path, true)`) |
| Notifications.GroupEmails | src/main/java/org/example/filemonitoringapi/listener/FileWatcherService.java:151-156 | one mail per subscription, in order, to its address, with the path's subject and the group body |
| Notifications.EmailsOfGroup | src/main/java/org/example/filemonitoringapi/listener/FileWatcherService.java:149-163 | the mails of one group: `GroupEmails` for its active subscriptions and its body |
| Notifications.BatchEmails | src/main/java/org/example/filemonitoringapi/listener/FileWatcherService.java:148-164 | the mails of a sequence of groups, group after group; stated by `BatchIsMailsOf`, `EmailsPerPath` and `EmailsOnlyToActiveSubscribers` |
| Notifications.BatchOutbox | src/main/java/org/example/filemonitoringapi/listener/FileWatcherService.java:142-165 | the mails of one run: `BatchEmails` of the groups of the pending records; `SendPendingNotifications` is proved to send exactly these |
| Notifications.WithSubjectMember | src/main/java/org/example/filemonitoringapi/listener/FileWatcherService.java:156 | filtering by subject keeps exactly the mails with that subject |
| Notifications.Mark | src/main/java/org/example/filemonitoringapi/listener/FileWatcherService.java:158-161 | marking keeps the number of records |
| Notifications.Ids | src/main/java/org/example/filemonitoringapi/listener/FileWatcherService.java:158-161 | the ids of a group's records; stated by `IdsSource` and `IdsCover` |
| Notifications.NotifiableIds | src/main/java/org/example/filemonitoringapi/listener/FileWatcherService.java:144-161 | the ids of pending records whose path has an active subscription |
| Notifications.MarkedIds | src/main/java/org/example/filemonitoringapi/listener/FileWatcherService.java:148-163 | the ids marked group by group; `MarkedIdsIsNotifiable` proves them equal to `NotifiableIds` |
| Notifications.AfterBatch | src/main/java/org/example/filemonitoringapi/listener/FileWatcherService.java:142-165 | after a run, every record keeps id, path, content and time; it is stamped `now` exactly when it was pending and its path has an active subscription |
| Notifications.IdsSource | src/main/java/org/example/filemonitoringapi/listener/FileWatcherService.java:158-161 | an id among a group's ids is the id of one of its records |
| Notifications.IdsCover | src/main/java/org/example/filemonitoringapi/listener/FileWatcherService.java:158-161 | the id of every record of a group is among its ids |
| Notifications.MarkedIdsSource | src/main/java/org/example/filemonitoringapi/listener/FileWatcherService.java:148-163 | a marked id belongs to some group whose path has an active subscription |
| Notifications.MarkedIdsCover | src/main/java/org/example/filemonitoringapi/listener/FileWatcherService.java:148-163 | every id of a group whose path has an active subscription is marked |
| Notifications.MarkedIsNotifiable | src/main/java/org/example/filemonitoringapi/listener/FileWatcherService.java:144-163 | a marked id is that of a pending record whose path has an active subscription |
| Notifications.NotifiableIsMarked | src/main/java/org/example/filemonitoringapi/listener/FileWatcherService.java:144-163 | the id of a pending record whose path has an active subscription is marked |
| Notifications.MarkedIdsIsNotifiable | src/main/java/org/example/filemonitoringapi/listener/FileWatcherService.java:144-163 | marking group by group marks exactly the pending records whose path has an active subscription |
| Notifications.MarkOne | src/main/java/org/example/filemonitoringapi/listener/FileWatcherService.java:159-160 | setting one record's notification time and saving it is marking one more id |
| Notifications.WithSubjectConcat | src/main/java/org/example/filemonitoringapi/listener/FileWatcherService.java:156 | filtering by subject distributes over concatenation |
| Notifications.WithSubjectOfGroup | src/main/java/org/example/filemonitoringapi/listener/FileWatcherService.java:156 | a group's mails carry its path's subject and no other |
| Notifications.BatchIsMailsOf | src/main/java/org/example/filemonitoringapi/listener/FileWatcherService.java:148-164 | the mails of a run are the group mails in group order, each group's body built from its records |
| Notifications.MailsSubjectAbsent | src/main/java/org/example/filemonitoringapi/listener/FileWatcherService.java:148-164 | when no group has a path, no mail of the run carries its subject |
| Notifications.MailsSubjectFound | src/main/java/org/example/filemonitoringapi/listener/FileWatcherService.java:148-164 | with distinct group paths, the mails carrying a path's subject are exactly the mails of that path's group |
| Notifications.EmailsPerPath | src/main/java/org/example/filemonitoringapi/listener/FileWatcherService.java:142-165 | in one run, a path's mails are one per active subscription, in store order, with the header and the pending contents joined in order; no pending record, no mail |
| Notifications.EmailsOnlyToActiveSubscribers | src/main/java/org/example/filemonitoringapi/listener/FileWatcherService.java:149-156 | every mail goes to an active subscription, with the subject of that subscription's path |
| Notifications.BodyContainsContent | src/main/java/org/example/filemonitoringapi/listener/FileWatcherService.java:152-155 | a mail body contains each content joined into it |
| Notifications.BodyContainsPendingContent | src/test/java/org/example/filemonitoringapi/fileWatcher/FileWatcherServiceTest.java:68-74 | the body for a path contains every pending content of that path |
| Notifications.BatchEmailsWithoutSubscribers | src/main/java/org/example/filemonitoringapi/listener/FileWatcherService.java:149-151 | groups with no active subscription produce no mail |
| Notifications.QuietOutbox | src/main/java/org/example/filemonitoringapi/listener/FileWatcherService.java:144-156 | when no pending record has an active subscriber for its path, a run sends nothing |
| Notifications.QuietMarks | src/main/java/org/example/filemonitoringapi/listener/FileWatcherService.java:144-161 | when no pending record has an active subscriber for its path, a run changes no record |
| Notifications.SecondRunSendsNothing | src/main/java/org/example/filemonitoringapi/listener/FileWatcherService.java:144-161 | a second run with no new records sends nothing and marks nothing more |
| Notifications.NoActiveSubscriptionNoEffect | src/main/java/org/example/filemonitoringapi/listener/FileWatcherService.java:149-161 | with no active subscription, a run sends nothing and changes no record |
| Watcher.LastKnownContent | src/main/java/org/example/filemonitoringapi/listener/FileWatcherService.java:127-128 | the content of the path's most recent record, or `""` |
| Watcher.AfterModification | src/main/java/org/example/filemonitoringapi/listener/FileWatcherService.java:126-135 | the store after a modify event; stated by `ModificationRecordsDelta` and `ModificationIdempotent` |
| Watcher.ModificationRecordsDelta | src/main/java/org/example/filemonitoringapi/listener/FileWatcherService.java:124-139 | a modify event appends one pending record exactly when the delta is non-empty; the record holds the delta, `now` and the next id; earlier records are untouched |
| Watcher.AppendKeepsIds | src/main/java/org/example/filemonitoringapi/listener/FileWatcherService.java:133-134 | a record saved under the next id leaves every row at the index of its id |
| Watcher.TopAfterAppend | src/main/java/org/example/filemonitoringapi/listener/FileWatcherService.java:127 | a record appended strictly later than every record of its path is the path's most recent one |
| Watcher.ModificationIdempotent | src/main/java/org/example/filemonitoringapi/listener/FileWatcherService.java:124-139 | a second event with unchanged content records nothing more, when the first event came later than every stored record of the path |
| Watcher.RegisterThenAppendExample | src/main/java/org/example/filemonitoringapi/listener/FileWatcherService.java:124-135 | initial record `line1`, then content `line1\nline2`: one new pending record `line2` |
| Watcher.EmptyInitialRecordExample | src/main/java/org/example/filemonitoringapi/listener/FileWatcherService.java:53-56 | a file empty at registration stores a `""` record, so `a\n\nb` then records only `b` |
| Watcher.FileWatcherService.RegisterFileWatcher | src/main/java/org/example/filemonitoringapi/listener/FileWatcherService.java:42-64 | an already watched path changes nothing; a watch that cannot be opened raises the registration error and changes nothing; otherwise the path is registered and the subscription saved, then the read either stores the whole content as an already-notified record, or keeps that partial state and raises the read error for an `IOException` and `UncheckedIo` for a failure while the lines are read |
| Watcher.FileWatcherService.UnregisterFileWatcher | src/main/java/org/example/filemonitoringapi/listener/FileWatcherService.java:67-83 | no subscription, no effect; otherwise its path leaves the registry, other paths stay, and the subscription is deleted |
| Watcher.FileWatcherService.HandleFileModification | src/main/java/org/example/filemonitoringapi/listener/FileWatcherService.java:124-139 | the store becomes `AfterModification` of the read content; either kind of failed read changes nothing |
| Watcher.FileWatcherService.SendPendingNotifications | src/main/java/org/example/filemonitoringapi/listener/FileWatcherService.java:142-165 | the outbox grows by exactly `BatchOutbox`, and the store becomes `AfterBatch` |
| Watcher.FileWatcherService.NotifyGroups | src/main/java/org/example/filemonitoringapi/listener/FileWatcherService.java:148-164 | processing the groups in order sends their mails in order and marks their notifiable ids |
| Watcher.FileWatcherService.NotifyGroup | src/main/java/org/example/filemonitoringapi/listener/FileWatcherService.java:149-163 | one group sends its mails and marks its records exactly when its path has an active subscription |
| Watcher.FileWatcherService.NotifySubscribers | src/main/java/org/example/filemonitoringapi/listener/FileWatcherService.java:151-162 | the loop over a path's active subscriptions sends one mail to each, in order, and marks the group's records when there is at least one |
| Watcher.FileWatcherService.NotifySubscriber | src/main/java/org/example/filemonitoringapi/listener/FileWatcherService.java:152-161 | one pass: the mail with the path's subject and the group body, then every record of the group marked |
| Watcher.FileWatcherService.MarkNotified | src/main/java/org/example/filemonitoringapi/listener/FileWatcherService.java:158-161 | each record of the group is stamped `now` and saved in place |
| Subscriptions.FoundAfterCreate | src/main/java/org/example/filemonitoringapi/subscription/SubscriptionService.java:36-40 | a subscription saved under an unused job id is the one that job id finds |
| Subscriptions.NotFoundAfterCancel | src/main/java/org/example/filemonitoringapi/subscription/SubscriptionService.java:49-57 | once the only subscription with a job id is deleted, that job id finds nothing |
| Subscriptions.WithoutIdIdempotent | src/main/java/org/example/filemonitoringapi/subscription/SubscriptionService.java:53-54 | deleting twice (the service's delete, then the watcher's) is deleting once |
| Subscriptions.SubscriptionService.CreateSubscription | src/main/java/org/example/filemonitoringapi/subscription/SubscriptionService.java:31-45 | a missing file raises "Plik … nie istnieje." and changes nothing; otherwise exactly one subscription with the generated job id is stored under a new id, registration proceeds as in `RegisterFileWatcher` (both read errors included), its DTO is returned unless registration raised, and with an unused job id the lookup returns that DTO |
| Subscriptions.SubscriptionService.CancelSubscription | src/main/java/org/example/filemonitoringapi/subscription/SubscriptionService.java:49-59 | true exactly when a subscription has the job id; that subscription is then gone and its path unwatched; otherwise nothing changes |
| Subscriptions.SubscriptionService.GetSubscriptionByJobId | src/main/java/org/example/filemonitoringapi/subscription/SubscriptionService.java:62-66 | not found exactly when no subscription has the job id, with "Nie ma takiej subskrypcji o id: " and the id; otherwise the DTO of a subscription with that job id |
| Subscriptions.SubscriptionService.GetAllSubscriptions | src/main/java/org/example/filemonitoringapi/subscription/SubscriptionService.java:69-73 | one DTO per element of the requested page, the same number and in the same order |

## Left out

- `watchFileChanges` (FileWatcherService.java:85-121) is not modelled. It is the watcher thread's
  loop over `WatchService.take`, skipping `OVERFLOW` and resetting keys. A modify event is a direct
  call of `HandleFileModification`. The watch is on the parent directory, so other files there
  raise events for the same path too; `Watcher.ModificationIdempotent` shows such repeats record
  nothing.
- Threads and scheduling are not modelled: the executor, the `@Scheduled` cron, the concurrent map,
  and races between the watcher thread and the batch. So is closing a `WatchService` (an
  `IOException` there is only printed), and logging.
- `readFileContent` is file I/O. Its result comes in as a `Watcher.ReadOutcome`: the content, or
  one of the two failures. Which separator `System.lineSeparator()` joins the lines with is part
  of that input. The message of the unchecked error is not modelled.
- `LocalDateTime.now()` is a parameter. Watcher.FileWatcherService.SendPendingNotifications:
  uses one `now` for the whole run, where the source reads the clock again for each record (line
  159). Watcher.FileWatcherService.RegisterFileWatcher: uses one `now` for both times of the
  initial record, where line 55 reads the clock twice.
- Notifications.GroupEmails: gives every mail of one path the same body. The source formats the
  header time once per mail (line 155 calls `generateEmailBody`, which reads the clock at line
  194), so two subscribers of one path can get different header times. The model uses one
  `stamp` for the whole run, and `Notifications.EmailsPerPath` states identical bodies.
- The `yyyy-MM-dd HH:mm:ss` format of the mail header is not modelled. The formatted time is the
  `stamp` parameter.
- Notifications.GroupByFilePath: returns groups in order of first occurrence. The source's hash
  map leaves their order unspecified, so the model fixes one possible order.
- A path with no parent directory makes `path.register` throw a `NullPointerException` (line 48).
  The model has no such outcome. `OpenFailed` stands for the `IOException` case only. It covers
  both `newWatchService()` failing (line 47) and `path.register` failing (line 48). In the second
  case the source leaves the watch service it just created unclosed; the model has no such resource.
- The UUID generator and `File.exists` are not modelled. Their results are the `freshJobId`
  and `fileExists` parameters. Uniqueness of the job id is assumed only where a lemma says so
  (`UnusedJobId`).
- Repositories.FindTopByFilePath: of several records with the same latest change time, returns the
  one stored last. The derived query leaves the order of such ties to the database. The lemmas
  built on it (`Watcher.TopAfterAppend`, `Watcher.ModificationIdempotent`) require a strictly
  later time, so they do not depend on this choice.
- Repositories.FindByLastNotificationSentIsNull: returns the matching records in store order.
  The derived query has no ordering, so the database decides it. That order decides the order of
  the contents in each mail body (FileWatcherService.java:144, 152-154). The model fixes one
  possible order. `Repositories.PendingConcat` and `Notifications.EmailsPerPath` state results in
  that order.
- Repositories.FindByFilePathAndActive: returns the matching subscriptions in store order. The
  derived query has no ordering, so the database decides the order of the mails to one path's
  subscribers (FileWatcherService.java:149-151). The model fixes one possible order.
  `Repositories.FindByFilePathAndActiveConcat` and `Notifications.EmailsPerPath` state results in
  that order.
- Repositories.FindByJobId: on duplicate job ids, returns the first match. Spring Data would raise
  an exception there instead.
- Repositories.FindAll: returns only the page content. It leaves out the page metadata (total
  count, number of pages) and sorting.
- Repositories.SubscriptionRepository.Save: does not maintain `version` (optimistic locking). A
  subscription whose id is set but not stored is inserted under a new id, not merged.
- Repositories.FileChangeRepository.Save: a record whose id is set but not stored is appended under
  the next id.
- Repositories.EmailService.SendEmail: keeps an outbox only. Mail transport (`JavaMailSender`, the
  RabbitMQ sender) is out of scope.
- The REST controller, the global exception handler, the configuration classes and the HTTP status
  mapping are outside the core and are not modelled.
