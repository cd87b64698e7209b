/**
 * FileWatcherService: the registry of watched paths, the handling of a modify
 * event, and the notification batch.
 *
 * The native watch, the thread that waits on it and the file read are outside
 * the model: their outcomes are parameters. A modify event is a direct call of
 * HandleFileModification; a scheduled run is a call of SendPendingNotifications.
 */
module Watcher {
  import opened Wrappers
  import opened Entities
  import opened Delta
  import opened Repositories
  import opened Notifications

  /** An open native watch service (opaque). */
  type WatchHandle = nat

  /** The outcome of creating a watch service and registering the parent directory with it. */
  datatype NativeWatch = Opened(handle: WatchHandle) | OpenFailed

  /** The outcome of `readFileContent`: the content; an `IOException` on opening or closing
      the reader, rethrown as a read error; or an error while the lines are read (a
      malformed byte sequence included), which `BufferedReader.lines()` raises unchecked. */
  datatype ReadOutcome = Content(text: string) | ReadFailed | LinesFailed

  const RegistrationErrorPrefix: string := "Błąd podczas rejestracji FileWatcher dla: "
  const ReadErrorPrefix: string := "Błąd podczas odczytu pliku: "

  /** The content of the most recent record for `filePath`, or "" when there is none. */
  function LastKnownContent(rows: seq<FileChange>, filePath: string): string {
    match FindTopByFilePath(rows, filePath)
    case Some(c) => c.content
    case None => ""
  }

  /** The record store after a modify event for `filePath` whose read gave `content`. */
  function AfterModification(rows: seq<FileChange>, filePath: string, content: string, now: Time): seq<FileChange> {
    var newChanges := ExtractNewChanges(LastKnownContent(rows, filePath), content);
    if newChanges == "" then rows
    else rows + [FileChange(Some(|rows|), filePath, newChanges, now, None)]
  }

  /** A modify event appends at most one record, and only a non-empty delta against the
      most recent record of the path (or ""): pending, stamped `now`, under the next id.
      Existing records are untouched. */
  lemma ModificationRecordsDelta(rows: seq<FileChange>, filePath: string, content: string, now: Time)
    requires ChangeRowsValid(rows)
    ensures var after := AfterModification(rows, filePath, content, now);
            var newChanges := ExtractNewChanges(LastKnownContent(rows, filePath), content);
            && ChangeRowsValid(after)
            && after[..|rows|] == rows
            && (|after| == |rows| <==> newChanges == "")
            && (|after| == |rows| + 1 <==> newChanges != "")
            && (|after| > |rows| ==> after[|rows|] == FileChange(Some(|rows|), filePath, newChanges, now, None))
  {
    var newChanges := ExtractNewChanges(LastKnownContent(rows, filePath), content);
    if newChanges != "" {
      AppendKeepsIds(rows, FileChange(Some(|rows|), filePath, newChanges, now, None));
    }
  }

  /** A record appended under the next id keeps every record at the index of its id. */
  lemma AppendKeepsIds(rows: seq<FileChange>, record: FileChange)
    requires ChangeRowsValid(rows) && record.id == Some(|rows|)
    ensures ChangeRowsValid(rows + [record]) && (rows + [record])[..|rows|] == rows
  {
    var after := rows + [record];
    forall i | 0 <= i < |after| ensures after[i].id == Some(i) {
      if i < |rows| {
        assert after[i] == rows[i];
      }
    }
  }

  /** A change time later than every record of the path: the clock has moved on. */
  ghost predicate NotBefore(rows: seq<FileChange>, filePath: string, now: Time) {
    forall c :: c in rows && c.filePath == filePath ==> c.changeTime < now
  }

  /** A record appended later than every record of its path is the path's most recent one;
      with strictly later times this does not depend on how ties are broken. */
  lemma TopAfterAppend(rows: seq<FileChange>, c: FileChange)
    requires NotBefore(rows, c.filePath, c.changeTime)
    ensures FindTopByFilePath(rows + [c], c.filePath) == Some(c)
  {
    assert (rows + [c])[..|rows|] == rows;
  }

  /** A repeated event with unchanged content (a second event, or an event for another file
      of the watched directory) appends nothing more, when the first event came later than
      every stored record of the path; the time of the repeated event does not matter. */
  lemma ModificationIdempotent(rows: seq<FileChange>, filePath: string, content: string, now: Time, later: Time)
    requires NotBefore(rows, filePath, now)
    ensures var once := AfterModification(rows, filePath, content, now);
            AfterModification(once, filePath, content, later) == once
  {
    var newChanges := ExtractNewChanges(LastKnownContent(rows, filePath), content);
    if newChanges != "" {
      var record := FileChange(Some(|rows|), filePath, newChanges, now, None);
      TopAfterAppend(rows, record);
      ExtractStable(LastKnownContent(rows, filePath), content);
    }
  }

  /** The worked example: registered with "line1", then modified to "line1\nline2":
      one new pending record holding "line2". */
  lemma RegisterThenAppendExample(path: string, t0: Time, t1: Time)
    ensures var initial := [FileChange(Some(0), path, "line1", t0, Some(t0))];
            AfterModification(initial, path, "line1\nline2", t1)
              == initial + [FileChange(Some(1), path, "line2", t1, None)]
  {
    var initial := [FileChange(Some(0), path, "line1", t0, Some(t0))];
    assert initial == [] + [initial[0]];
    assert FindTopByFilePath(initial, path) == Some(initial[0]);
    ExtractExample("line1", "line1\nline2");
  }

  /** A file that was empty at registration has an initial record holding "", so the next
      read is anchored on its last blank line: "a\n\nb" records only "b". */
  lemma EmptyInitialRecordExample(path: string, t0: Time, t1: Time)
    ensures var initial := [FileChange(Some(0), path, "", t0, Some(t0))];
            AfterModification(initial, path, "a\n\nb", t1)
              == initial + [FileChange(Some(1), path, "b", t1, None)]
  {
    var initial := [FileChange(Some(0), path, "", t0, Some(t0))];
    assert initial == [] + [initial[0]];
    assert FindTopByFilePath(initial, path) == Some(initial[0]);
    ExtractFromEmptyAnchorsOnBlankLine();
  }

  class FileWatcherService {
    var watchServices: map<string, WatchHandle>
    const emailService: EmailService
    const subscriptionRepository: SubscriptionRepository
    const fileChangeRepository: FileChangeRepository

    ghost predicate Valid()
      reads this, subscriptionRepository, fileChangeRepository
    {
      subscriptionRepository.Valid() && fileChangeRepository.Valid()
    }

    constructor (emailService: EmailService, subscriptionRepository: SubscriptionRepository, fileChangeRepository: FileChangeRepository)
      requires subscriptionRepository.Valid() && fileChangeRepository.Valid()
      ensures Valid() && watchServices == map[]
      ensures this.emailService == emailService
      ensures this.subscriptionRepository == subscriptionRepository
      ensures this.fileChangeRepository == fileChangeRepository
    {
      this.emailService := emailService;
      this.subscriptionRepository := subscriptionRepository;
      this.fileChangeRepository := fileChangeRepository;
      watchServices := map[];
    }

    /** `registerFileWatcher`. A path that is already watched changes nothing. Otherwise,
        when the native watch cannot be set up, nothing changes and a registration error is
        raised; when it can, the path is entered into the registry, the subscription is
        saved, and then the file is read: on success an initial record with the whole
        content, already marked as notified, is stored; on a failed read the registry
        entry and the saved subscription stay and an error is raised: the read error for
        an `IOException`, the unchecked error itself when reading the lines failed. */
    method RegisterFileWatcher(subscription: Subscription, watch: NativeWatch, read: ReadOutcome, now: Time)
      returns (result: Result<(), Failure>)
      requires Valid()
      modifies this, subscriptionRepository, fileChangeRepository
      ensures Valid()
      ensures var filePath := subscription.filePath;
        if filePath in old(watchServices) then
          && result == Ok(())
          && watchServices == old(watchServices)
          && subscriptionRepository.rows == old(subscriptionRepository.rows)
          && subscriptionRepository.nextId == old(subscriptionRepository.nextId)
          && fileChangeRepository.rows == old(fileChangeRepository.rows)
        else if watch.OpenFailed? then
          && result == Err(WatcherRegistration(RegistrationErrorPrefix + filePath))
          && watchServices == old(watchServices)
          && subscriptionRepository.rows == old(subscriptionRepository.rows)
          && subscriptionRepository.nextId == old(subscriptionRepository.nextId)
          && fileChangeRepository.rows == old(fileChangeRepository.rows)
        else
          && watchServices == old(watchServices)[filePath := watch.handle]
          && (var i := IndexOfId(old(subscriptionRepository.rows), subscription.id);
              if 0 <= i then
                && subscriptionRepository.rows == old(subscriptionRepository.rows)[i := subscription]
                && subscriptionRepository.nextId == old(subscriptionRepository.nextId)
              else
                && subscriptionRepository.rows == old(subscriptionRepository.rows) + [subscription.(id := Some(old(subscriptionRepository.nextId)))]
                && subscriptionRepository.nextId == old(subscriptionRepository.nextId) + 1)
          && match read
             case ReadFailed =>
               && result == Err(WatcherRegistration(ReadErrorPrefix + filePath))
               && fileChangeRepository.rows == old(fileChangeRepository.rows)
             case LinesFailed =>
               && result == Err(UncheckedIo)
               && fileChangeRepository.rows == old(fileChangeRepository.rows)
             case Content(text) =>
               && result == Ok(())
               && fileChangeRepository.rows == old(fileChangeRepository.rows)
                    + [FileChange(Some(|old(fileChangeRepository.rows)|), filePath, text, now, Some(now))]
    {
      var filePath := subscription.filePath;
      if filePath !in watchServices {
        if watch.OpenFailed? {
          return Err(WatcherRegistration(RegistrationErrorPrefix + filePath));
        }
        watchServices := watchServices[filePath := watch.handle];
        var _ := subscriptionRepository.Save(subscription);
        if read.ReadFailed? {
          return Err(WatcherRegistration(ReadErrorPrefix + filePath));
        } else if read.LinesFailed? {
          return Err(UncheckedIo);
        }
        var initialChange := FileChange(None, filePath, read.text, now, Some(now));
        var _ := fileChangeRepository.Save(initialChange);
      }
      result := Ok(());
    }

    /** `unregisterFileWatcher`. No subscription: nothing happens. Otherwise the path leaves
        the registry (whether or not it was in it, and even if other subscriptions use it),
        the other paths stay, and the subscription is deleted from the store. */
    method UnregisterFileWatcher(subscription: Option<Subscription>)
      requires Valid()
      modifies this, subscriptionRepository
      ensures Valid()
      ensures subscription.None? ==>
        && watchServices == old(watchServices)
        && subscriptionRepository.rows == old(subscriptionRepository.rows)
      ensures subscription.Some? ==>
        && watchServices == old(watchServices) - {subscription.value.filePath}
        && subscriptionRepository.rows == WithoutId(old(subscriptionRepository.rows), subscription.value.id)
      ensures subscriptionRepository.nextId == old(subscriptionRepository.nextId)
    {
      if subscription.Some? {
        var filePath := subscription.value.filePath;
        if filePath in watchServices {
          watchServices := watchServices - {filePath};
        }
        subscriptionRepository.Delete(subscription.value);
      }
    }

    /** `handleFileModification`: on a successful read, the store grows by the delta
        against the path's most recent record, if that delta is non-empty; a failed read
        changes nothing (the read error is logged here, the unchecked error by the watcher
        loop that called it). */
    method HandleFileModification(filePath: string, read: ReadOutcome, now: Time)
      requires Valid()
      modifies fileChangeRepository
      ensures Valid()
      ensures !read.Content? ==> fileChangeRepository.rows == old(fileChangeRepository.rows)
      ensures read.Content? ==>
        fileChangeRepository.rows == AfterModification(old(fileChangeRepository.rows), filePath, read.text, now)
    {
      if read.Content? {
        var lastChange := FindTopByFilePath(fileChangeRepository.rows, filePath);
        var lastKnownChangeContent := if lastChange.Some? then lastChange.value.content else "";
        var newChanges := ExtractNewChanges(lastKnownChangeContent, read.text);
        if newChanges != "" {
          var change := FileChange(None, filePath, newChanges, now, None);
          var _ := fileChangeRepository.Save(change);
        }
      }
    }

    /** `sendPendingNotifications`: groups the pending records by path; for each active
        subscription of a group's path sends one mail and marks the group's records as
        notified at `now`. `stamp` is `now` as the header prints it. */
    method SendPendingNotifications(now: Time, stamp: string)
      requires Valid()
      modifies fileChangeRepository, emailService
      ensures Valid()
      ensures fileChangeRepository.rows == AfterBatch(old(fileChangeRepository.rows), subscriptionRepository.rows, now)
      ensures emailService.sent == old(emailService.sent) + BatchOutbox(old(fileChangeRepository.rows), subscriptionRepository.rows, stamp)
    {
      ghost var rows0 := fileChangeRepository.rows;
      var pendingChanges := FindByLastNotificationSentIsNull(fileChangeRepository.rows);
      var changesByFilePath := GroupByFilePath(pendingChanges);
      PendingGroupsStored(rows0);
      MarkNone(rows0, now);
      NotifyGroups(changesByFilePath, now, stamp, rows0);
      MarkedIdsIsNotifiable(rows0, subscriptionRepository.rows);
    }

    /** The loop over the groups. */
    method NotifyGroups(groups: seq<Group>, now: Time, stamp: string, ghost rows0: seq<FileChange>)
      requires Valid()
      requires fileChangeRepository.rows == Mark(rows0, {}, now)
      requires forall k, c :: 0 <= k < |groups| && c in groups[k].changes ==> StoredIn(c, rows0)
      modifies fileChangeRepository, emailService
      ensures Valid()
      ensures fileChangeRepository.rows == Mark(rows0, MarkedIds(groups, subscriptionRepository.rows), now)
      ensures emailService.sent == old(emailService.sent) + BatchEmails(groups, subscriptionRepository.rows, stamp)
    {
      ghost var subs := subscriptionRepository.rows;
      ghost var sent0 := emailService.sent;
      var g := 0;
      while g < |groups|
        invariant 0 <= g <= |groups|
        invariant fileChangeRepository.Valid()
        invariant fileChangeRepository.rows == Mark(rows0, MarkedIds(groups[..g], subs), now)
        invariant emailService.sent == sent0 + BatchEmails(groups[..g], subs, stamp)
      {
        NotifyGroup(groups[g], now, stamp, rows0, MarkedIds(groups[..g], subs));
        BatchSnoc(groups, g, subs, stamp);
        Concat3(sent0, BatchEmails(groups[..g], subs, stamp), EmailsOfGroup(groups[g], subs, stamp));
        g := g + 1;
      }
      assert groups[..g] == groups;
    }

    /** The body of the loop over groups: one mail per active subscription of the group's
        path, each followed by marking and saving the group's records. */
    method NotifyGroup(group: Group, now: Time, stamp: string, ghost rows0: seq<FileChange>, ghost marked: set<nat>)
      requires fileChangeRepository.Valid()
      requires fileChangeRepository.rows == Mark(rows0, marked, now)
      requires forall c :: c in group.changes ==> StoredIn(c, rows0)
      modifies fileChangeRepository, emailService
      ensures fileChangeRepository.Valid()
      ensures fileChangeRepository.rows == Mark(rows0,
        marked + (if ActiveFor(subscriptionRepository.rows, group.filePath) != [] then Ids(group.changes) else {}), now)
      ensures emailService.sent == old(emailService.sent) + EmailsOfGroup(group, subscriptionRepository.rows, stamp)
    {
      var activeSubscriptions := FindByFilePathAndActive(subscriptionRepository.rows, group.filePath, true);
      NotifySubscribers(activeSubscriptions, group, now, stamp, rows0, marked);
    }

    /** The loop over the active subscriptions of the group's path. */
    method NotifySubscribers(activeSubscriptions: seq<Subscription>, group: Group, now: Time, stamp: string,
                             ghost rows0: seq<FileChange>, ghost marked: set<nat>)
      requires fileChangeRepository.Valid()
      requires fileChangeRepository.rows == Mark(rows0, marked, now)
      requires forall c :: c in group.changes ==> StoredIn(c, rows0)
      modifies fileChangeRepository, emailService
      ensures fileChangeRepository.Valid()
      ensures fileChangeRepository.rows == Mark(rows0, if activeSubscriptions != [] then marked + Ids(group.changes) else marked, now)
      ensures emailService.sent == old(emailService.sent) + GroupEmails(activeSubscriptions, group.filePath, GroupBody(stamp, group))
    {
      var filePath := group.filePath;
      ghost var body := GroupBody(stamp, group);
      ghost var sent0 := emailService.sent;
      ghost var ids := marked;
      var s := 0;
      while s < |activeSubscriptions|
        invariant 0 <= s <= |activeSubscriptions|
        invariant fileChangeRepository.Valid()
        invariant ids == if s == 0 then marked else marked + Ids(group.changes)
        invariant fileChangeRepository.rows == Mark(rows0, ids, now)
        invariant emailService.sent == sent0 + GroupEmails(activeSubscriptions[..s], filePath, body)
      {
        NotifySubscriber(activeSubscriptions[s].email, group, now, stamp, rows0, ids);
        GroupEmailsSnoc(activeSubscriptions, s, filePath, body);
        ids := marked + Ids(group.changes);
        s := s + 1;
      }
      assert activeSubscriptions[..s] == activeSubscriptions;
    }

    /** One pass of the loop over active subscriptions: the mail to `email`, whose body
        joins the contents of the group's records, then every record marked as notified. */
    method NotifySubscriber(email: string, group: Group, now: Time, stamp: string,
                            ghost rows0: seq<FileChange>, ghost base: set<nat>)
      requires fileChangeRepository.Valid()
      requires fileChangeRepository.rows == Mark(rows0, base, now)
      requires forall c :: c in group.changes ==> StoredIn(c, rows0)
      modifies fileChangeRepository, emailService
      ensures fileChangeRepository.Valid()
      ensures fileChangeRepository.rows == Mark(rows0, base + Ids(group.changes), now)
      ensures emailService.sent == old(emailService.sent) + [Email(email, Subject(group.filePath), GroupBody(stamp, group))]
    {
      var changesContent := Join(Contents(group.changes));
      var emailBody := GenerateEmailBody(stamp, group.filePath, changesContent);
      emailService.SendEmail(email, Subject(group.filePath), emailBody);
      MarkNotified(group.changes, now, rows0, base);
    }

    /** The innermost loop: each record is marked as notified at `now` and saved. */
    method MarkNotified(changes: seq<FileChange>, now: Time, ghost rows0: seq<FileChange>, ghost base: set<nat>)
      requires fileChangeRepository.Valid()
      requires fileChangeRepository.rows == Mark(rows0, base, now)
      requires forall c :: c in changes ==> StoredIn(c, rows0)
      modifies fileChangeRepository
      ensures fileChangeRepository.Valid()
      ensures fileChangeRepository.rows == Mark(rows0, base + Ids(changes), now)
    {
      var c := 0;
      while c < |changes|
        invariant 0 <= c <= |changes|
        invariant fileChangeRepository.Valid()
        invariant fileChangeRepository.rows == Mark(rows0, base + Ids(changes[..c]), now)
      {
        assert changes[c] in changes;
        var i := changes[c].id.value;
        var change := changes[c].(lastNotificationSent := Some(now));
        MarkOne(rows0, base + Ids(changes[..c]), i, now);
        var _ := fileChangeRepository.Save(change);
        assert changes[..c + 1][..c] == changes[..c];
        c := c + 1;
      }
      assert changes[..c] == changes;
    }
  }

  /** Every record of a group of the pending records is the row stored under its identifier. */
  lemma PendingGroupsStored(rows: seq<FileChange>)
    requires ChangeRowsValid(rows)
    ensures var groups := GroupByFilePath(FindByLastNotificationSentIsNull(rows));
            forall k, c :: 0 <= k < |groups| && c in groups[k].changes ==> StoredIn(c, rows)
  {
    var pending := FindByLastNotificationSentIsNull(rows);
    var groups := GroupByFilePath(pending);
    GroupsPartitionPending(pending);
    forall k, c | 0 <= k < |groups| && c in groups[k].changes ensures StoredIn(c, rows) {
      assert c in pending;
      var j :| 0 <= j < |rows| && rows[j] == c;
    }
  }

  lemma Concat3<T>(a: seq<T>, b: seq<T>, c: seq<T>)
    ensures (a + b) + c == a + (b + c)
  {
  }

  lemma MarkNone(rows: seq<FileChange>, now: Time)
    ensures Mark(rows, {}, now) == rows
  {
  }

  lemma BatchSnoc(groups: seq<Group>, g: nat, subscriptions: seq<Subscription>, stamp: string)
    requires g < |groups|
    ensures BatchEmails(groups[..g + 1], subscriptions, stamp)
            == BatchEmails(groups[..g], subscriptions, stamp) + EmailsOfGroup(groups[g], subscriptions, stamp)
    ensures MarkedIds(groups[..g + 1], subscriptions)
            == MarkedIds(groups[..g], subscriptions)
               + (if ActiveFor(subscriptions, groups[g].filePath) != [] then Ids(groups[g].changes) else {})
  {
    assert groups[..g + 1][..g] == groups[..g];
  }

  lemma GroupEmailsSnoc(subscriptions: seq<Subscription>, s: nat, filePath: string, body: string)
    requires s < |subscriptions|
    ensures GroupEmails(subscriptions[..s + 1], filePath, body)
            == GroupEmails(subscriptions[..s], filePath, body) + [Email(subscriptions[s].email, Subject(filePath), body)]
  {
    assert subscriptions[..s + 1][..s] == subscriptions[..s];
  }

  /** `c` is the record stored in `rows` under its own identifier. */
  ghost predicate StoredIn(c: FileChange, rows: seq<FileChange>) {
    c.id.Some? && c.id.value < |rows| && rows[c.id.value] == c
  }
}
