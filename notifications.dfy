/**
 * What one run of the notification batch produces: the pending change records
 * grouped by file path, one mail per active subscription of each group's path,
 * and the group's records marked as notified when the path has an active
 * subscription. FileWatcherService.SendPendingNotifications is proved to do
 * exactly this.
 */
module Notifications {
  import opened Wrappers
  import opened Entities
  import opened Delta
  import opened Repositories

  const SubjectPrefix: string := "Zmiana w pliku: "

  /** The subject of a change mail for `filePath`. */
  function Subject(filePath: string): string {
    SubjectPrefix + filePath
  }

  /** `generateEmailBody`: a header naming the time and the file, then the changes. */
  function GenerateEmailBody(stamp: string, filePath: string, changes: string): (body: string)
    ensures |changes| <= |body| && body[|body| - |changes|..] == changes
    ensures body[..|body| - |changes|] == "Dnia " + stamp + " zmieniono plik " + filePath + " dopisano do niego:\n"
  {
    var header := EmailHeader(stamp, filePath);
    assert (header + changes)[|header|..] == changes;
    assert (header + changes)[..|header|] == header;
    header + changes
  }

  function EmailHeader(stamp: string, filePath: string): string {
    "Dnia " + stamp + " zmieniono plik " + filePath + " dopisano do niego:\n"
  }

  /** Different paths give different subjects, so mails can be told apart by subject. */
  lemma SubjectInjective(p: string, q: string)
    requires Subject(p) == Subject(q)
    ensures p == q
  {
    assert Subject(p)[|SubjectPrefix|..] == p;
    assert Subject(q)[|SubjectPrefix|..] == q;
  }

  // ---------------------------------------------------------------------------
  // Grouping by path (`Collectors.groupingBy(FileChange::getFilePath)`)

  datatype Group = Group(filePath: string, changes: seq<FileChange>)

  /** The records of `cs` for `filePath`, in their order in `cs`. */
  function OfPath(cs: seq<FileChange>, filePath: string): (r: seq<FileChange>)
    ensures |r| <= |cs|
    ensures forall c :: c in r <==> c in cs && c.filePath == filePath
  {
    if |cs| == 0 then []
    else
      var rest := OfPath(cs[1..], filePath);
      assert cs == [cs[0]] + cs[1..];
      if cs[0].filePath == filePath then [cs[0]] + rest else rest
  }

  /** Filtering by path distributes over concatenation: records keep their relative order. */
  lemma {:induction false} OfPathConcat(a: seq<FileChange>, b: seq<FileChange>, filePath: string)
    ensures OfPath(a + b, filePath) == OfPath(a, filePath) + OfPath(b, filePath)
    decreases |a|
  {
    if |a| == 0 {
      assert a + b == b;
    } else {
      assert (a + b)[1..] == a[1..] + b;
      OfPathConcat(a[1..], b, filePath);
    }
  }

  /** A single record is kept exactly when it is of the path. */
  lemma OfPathSingle(c: FileChange, filePath: string)
    ensures OfPath([c], filePath) == if c.filePath == filePath then [c] else []
  {
  }

  /** The paths occurring in `cs`, each once, in order of first occurrence. */
  function DistinctPaths(cs: seq<FileChange>): (ps: seq<string>)
    ensures forall i, j :: 0 <= i < j < |ps| ==> ps[i] != ps[j]
    ensures forall c :: c in cs ==> c.filePath in ps
    ensures forall p :: p in ps ==> OfPath(cs, p) != []
  {
    if |cs| == 0 then []
    else
      var init := cs[..|cs| - 1];
      var last := cs[|cs| - 1];
      assert cs == init + [last];
      var ps := DistinctPaths(init);
      assert forall p :: p in ps ==> OfPath(cs, p) != [] by {
        forall p | p in ps ensures OfPath(cs, p) != [] {
          var c := OfPath(init, p)[0];
          assert c in cs;
          assert c in OfPath(cs, p);
        }
      }
      assert last in OfPath(cs, last.filePath);
      if last.filePath in ps then ps else ps + [last.filePath]
  }

  /** The groups of `pending`: one per distinct path, holding that path's records in
      retrieval order. (The source collects them into a hash map, whose iteration
      order it leaves unspecified; here groups come in order of first occurrence.) */
  function GroupByFilePath(pending: seq<FileChange>): (groups: seq<Group>)
    ensures |groups| == |DistinctPaths(pending)|
    ensures forall k :: 0 <= k < |groups| ==> groups[k] == Group(DistinctPaths(pending)[k], OfPath(pending, DistinctPaths(pending)[k]))
  {
    var ps := DistinctPaths(pending);
    seq(|ps|, k requires 0 <= k < |ps| => Group(ps[k], OfPath(pending, ps[k])))
  }

  /** The groups partition the pending records: distinct paths, no empty group, every
      record in the group of its path and only there. */
  lemma GroupsPartitionPending(pending: seq<FileChange>)
    ensures var groups := GroupByFilePath(pending);
            && (forall i, j :: 0 <= i < j < |groups| ==> groups[i].filePath != groups[j].filePath)
            && (forall k :: 0 <= k < |groups| ==> groups[k].changes != [])
            && (forall k, c :: 0 <= k < |groups| && c in groups[k].changes ==> c in pending && c.filePath == groups[k].filePath)
            && (forall c :: c in pending ==> exists k :: 0 <= k < |groups| && c in groups[k].changes)
  {
    var groups := GroupByFilePath(pending);
    var ps := DistinctPaths(pending);
    forall c | c in pending ensures exists k :: 0 <= k < |groups| && c in groups[k].changes {
      var k :| 0 <= k < |ps| && ps[k] == c.filePath;
      assert c in groups[k].changes;
    }
  }

  /** A record of group `k` is a pending record of that group's path. */
  lemma GroupRecord(pending: seq<FileChange>, k: nat, c: FileChange)
    requires k < |GroupByFilePath(pending)| && c in GroupByFilePath(pending)[k].changes
    ensures c in pending && c.filePath == GroupByFilePath(pending)[k].filePath
  {
  }

  // ---------------------------------------------------------------------------
  // The mails of one run

  /** The record contents, in order (`changes.stream().map(FileChange::getContent)`). */
  function Contents(changes: seq<FileChange>): (r: seq<string>)
    ensures |r| == |changes|
    ensures forall k :: 0 <= k < |r| ==> r[k] == changes[k].content
  {
    seq(|changes|, k requires 0 <= k < |changes| => changes[k].content)
  }

  /** The body of the mail for a group: the header, then the contents joined with line feeds. */
  function GroupBody(stamp: string, group: Group): string {
    GenerateEmailBody(stamp, group.filePath, Join(Contents(group.changes)))
  }

  /** The active subscriptions of a path (`findByFilePathAndActive(path, true)`). */
  function ActiveFor(subscriptions: seq<Subscription>, filePath: string): seq<Subscription> {
    FindByFilePathAndActive(subscriptions, filePath, true)
  }

  /** One mail per subscription, all with the subject of `filePath` and the same body. */
  function GroupEmails(subscriptions: seq<Subscription>, filePath: string, body: string): (r: seq<Email>)
    ensures |r| == |subscriptions|
    ensures forall k :: 0 <= k < |r| ==> r[k] == Email(subscriptions[k].email, Subject(filePath), body)
  {
    if |subscriptions| == 0 then []
    else
      GroupEmails(subscriptions[..|subscriptions| - 1], filePath, body)
        + [Email(subscriptions[|subscriptions| - 1].email, Subject(filePath), body)]
  }

  function EmailsOfGroup(group: Group, subscriptions: seq<Subscription>, stamp: string): seq<Email> {
    GroupEmails(ActiveFor(subscriptions, group.filePath), group.filePath, GroupBody(stamp, group))
  }

  /** The mails for a sequence of groups, group after group. */
  function BatchEmails(groups: seq<Group>, subscriptions: seq<Subscription>, stamp: string): seq<Email> {
    if |groups| == 0 then []
    else
      BatchEmails(groups[..|groups| - 1], subscriptions, stamp)
        + EmailsOfGroup(groups[|groups| - 1], subscriptions, stamp)
  }

  /** All mails one run sends for the records `rows`. */
  function BatchOutbox(rows: seq<FileChange>, subscriptions: seq<Subscription>, stamp: string): seq<Email> {
    BatchEmails(GroupByFilePath(FindByLastNotificationSentIsNull(rows)), subscriptions, stamp)
  }

  /** The mails of `emails` with subject `subject`, in order. */
  function WithSubject(emails: seq<Email>, subject: string): seq<Email> {
    if |emails| == 0 then []
    else
      var last := emails[|emails| - 1];
      WithSubject(emails[..|emails| - 1], subject) + (if last.subject == subject then [last] else [])
  }

  /** `WithSubject` keeps exactly the mails with that subject. */
  lemma {:induction false} WithSubjectMember(emails: seq<Email>, subject: string)
    ensures forall e :: e in WithSubject(emails, subject) <==> e in emails && e.subject == subject
    decreases |emails|
  {
    if |emails| > 0 {
      var init := emails[..|emails| - 1];
      WithSubjectMember(init, subject);
      assert emails == init + [emails[|emails| - 1]];
    }
  }

  // ---------------------------------------------------------------------------
  // Marking

  /** The identifiers of the records in `changes`. */
  function Ids(changes: seq<FileChange>): set<nat> {
    if |changes| == 0 then {}
    else
      var last := changes[|changes| - 1];
      Ids(changes[..|changes| - 1]) + (if last.id.Some? then {last.id.value} else {})
  }

  /** `rows` with the records whose identifiers are in `ids` marked as notified at `now`. */
  function Mark(rows: seq<FileChange>, ids: set<nat>, now: Time): (r: seq<FileChange>)
    ensures |r| == |rows|
  {
    seq(|rows|, i requires 0 <= i < |rows| =>
      if i in ids then rows[i].(lastNotificationSent := Some(now)) else rows[i])
  }

  /** The rows a run marks: those pending whose path has an active subscription. */
  function NotifiableIds(rows: seq<FileChange>, subscriptions: seq<Subscription>): set<nat> {
    set i | 0 <= i < |rows| && rows[i].Pending() && ActiveFor(subscriptions, rows[i].filePath) != []
  }

  /** The record store after a run at `now`. */
  function AfterBatch(rows: seq<FileChange>, subscriptions: seq<Subscription>, now: Time): (r: seq<FileChange>)
    ensures |r| == |rows|
    ensures forall i :: 0 <= i < |rows| ==>
      r[i].id == rows[i].id && r[i].filePath == rows[i].filePath
      && r[i].content == rows[i].content && r[i].changeTime == rows[i].changeTime
    ensures forall i :: 0 <= i < |rows| ==>
      r[i].lastNotificationSent ==
        if rows[i].Pending() && ActiveFor(subscriptions, rows[i].filePath) != [] then Some(now)
        else rows[i].lastNotificationSent
  {
    Mark(rows, NotifiableIds(rows, subscriptions), now)
  }

  /** The identifiers marked while processing `groups`: those of every group whose path
      has an active subscription. */
  function MarkedIds(groups: seq<Group>, subscriptions: seq<Subscription>): set<nat> {
    if |groups| == 0 then {}
    else
      var last := groups[|groups| - 1];
      MarkedIds(groups[..|groups| - 1], subscriptions)
        + (if ActiveFor(subscriptions, last.filePath) != [] then Ids(last.changes) else {})
  }

  // ---------------------------------------------------------------------------
  // Facts used by the batch method

  /** An id in `Ids(changes)` is the id of one of the records. */
  lemma {:induction false} IdsSource(changes: seq<FileChange>, i: nat) returns (c: FileChange)
    requires i in Ids(changes)
    ensures c in changes && c.id == Some(i)
    decreases |changes|
  {
    var init := changes[..|changes| - 1];
    var last := changes[|changes| - 1];
    if i in Ids(init) {
      c := IdsSource(init, i);
      assert c in changes by {
        assert c in init;
        assert changes == init + [last];
      }
    } else {
      c := last;
    }
  }

  /** The id of every record with one is in `Ids(changes)`. */
  lemma {:induction false} IdsCover(changes: seq<FileChange>, c: FileChange)
    requires c in changes && c.id.Some?
    ensures c.id.value in Ids(changes)
    decreases |changes|
  {
    var init := changes[..|changes| - 1];
    var last := changes[|changes| - 1];
    if c != last {
      assert changes == init + [last];
      IdsCover(init, c);
    }
  }

  /** A marked id comes from a group whose path has an active subscription. */
  lemma {:induction false} MarkedIdsSource(groups: seq<Group>, subscriptions: seq<Subscription>, i: nat) returns (k: nat)
    requires i in MarkedIds(groups, subscriptions)
    ensures k < |groups| && ActiveFor(subscriptions, groups[k].filePath) != [] && i in Ids(groups[k].changes)
    decreases |groups|
  {
    var init := groups[..|groups| - 1];
    var last := groups[|groups| - 1];
    if i in MarkedIds(init, subscriptions) {
      k := MarkedIdsSource(init, subscriptions, i);
      assert groups[k] == init[k];
    } else {
      k := |groups| - 1;
    }
  }

  /** Every id of a group whose path has an active subscription is marked. */
  lemma {:induction false} MarkedIdsCover(groups: seq<Group>, subscriptions: seq<Subscription>, i: nat, k: nat)
    requires k < |groups| && ActiveFor(subscriptions, groups[k].filePath) != [] && i in Ids(groups[k].changes)
    ensures i in MarkedIds(groups, subscriptions)
    decreases |groups|
  {
    var init := groups[..|groups| - 1];
    if k < |init| {
      assert init[k] == groups[k];
      MarkedIdsCover(init, subscriptions, i, k);
    }
  }

  lemma MarkedIsNotifiable(rows: seq<FileChange>, subscriptions: seq<Subscription>, i: nat)
    requires ChangeRowsValid(rows)
    requires i in MarkedIds(GroupByFilePath(FindByLastNotificationSentIsNull(rows)), subscriptions)
    ensures i in NotifiableIds(rows, subscriptions)
  {
    var pending := FindByLastNotificationSentIsNull(rows);
    var groups := GroupByFilePath(pending);
    var k := MarkedIdsSource(groups, subscriptions, i);
    var c := IdsSource(groups[k].changes, i);
    GroupRecord(pending, k, c);
    var j :| 0 <= j < |rows| && rows[j] == c;
    assert j == i;
  }

  lemma NotifiableIsMarked(rows: seq<FileChange>, subscriptions: seq<Subscription>, i: nat)
    requires ChangeRowsValid(rows)
    requires i in NotifiableIds(rows, subscriptions)
    ensures i in MarkedIds(GroupByFilePath(FindByLastNotificationSentIsNull(rows)), subscriptions)
  {
    var pending := FindByLastNotificationSentIsNull(rows);
    var groups := GroupByFilePath(pending);
    var c := rows[i];
    assert c in pending;
    var ps := DistinctPaths(pending);
    var k :| 0 <= k < |ps| && ps[k] == c.filePath;
    assert c in groups[k].changes;
    IdsCover(groups[k].changes, c);
    MarkedIdsCover(groups, subscriptions, i, k);
  }

  /** Marking group by group marks exactly the pending records with an active subscription. */
  lemma MarkedIdsIsNotifiable(rows: seq<FileChange>, subscriptions: seq<Subscription>)
    requires ChangeRowsValid(rows)
    ensures MarkedIds(GroupByFilePath(FindByLastNotificationSentIsNull(rows)), subscriptions) == NotifiableIds(rows, subscriptions)
  {
    var marked := MarkedIds(GroupByFilePath(FindByLastNotificationSentIsNull(rows)), subscriptions);
    forall i | i in marked ensures i in NotifiableIds(rows, subscriptions) {
      MarkedIsNotifiable(rows, subscriptions, i);
    }
    forall i | i in NotifiableIds(rows, subscriptions) ensures i in marked {
      NotifiableIsMarked(rows, subscriptions, i);
    }
  }

  /** Marking one more record. */
  lemma MarkOne(rows: seq<FileChange>, ids: set<nat>, i: nat, now: Time)
    requires i < |rows|
    ensures Mark(rows, ids, now)[i := rows[i].(lastNotificationSent := Some(now))] == Mark(rows, ids + {i}, now)
  {
  }

  // ---------------------------------------------------------------------------
  // What a run promises

  lemma {:induction false} WithSubjectConcat(a: seq<Email>, b: seq<Email>, subject: string)
    ensures WithSubject(a + b, subject) == WithSubject(a, subject) + WithSubject(b, subject)
    decreases |b|
  {
    if |b| == 0 {
      assert a + b == a;
    } else {
      var init := b[..|b| - 1];
      WithSubjectConcat(a, init, subject);
      assert (a + b)[..|a + b| - 1] == a + init;
      assert (a + b)[|a + b| - 1] == b[|b| - 1];
    }
  }

  /** The mails of one group carry the subject of its path, and only that one. */
  lemma {:induction false} WithSubjectOfGroup(subscriptions: seq<Subscription>, q: string, body: string, p: string)
    ensures WithSubject(GroupEmails(subscriptions, q, body), Subject(p)) ==
            if q == p then GroupEmails(subscriptions, q, body) else []
    decreases |subscriptions|
  {
    if |subscriptions| > 0 {
      WithSubjectOfGroup(subscriptions[..|subscriptions| - 1], q, body, p);
      if q != p && Subject(q) == Subject(p) {
        SubjectInjective(q, p);
      }
      var r := GroupEmails(subscriptions, q, body);
      assert r[..|r| - 1] == GroupEmails(subscriptions[..|subscriptions| - 1], q, body);
    }
  }

  /** The mails for `groups` with the body of each group given by `body`; the batch is
      the case `BodyOf(stamp)`. Reasoning about subjects needs nothing about bodies. */
  function MailsOf(groups: seq<Group>, subscriptions: seq<Subscription>, body: Group -> string): seq<Email> {
    if |groups| == 0 then []
    else
      var last := groups[|groups| - 1];
      MailsOf(groups[..|groups| - 1], subscriptions, body)
        + GroupEmails(ActiveFor(subscriptions, last.filePath), last.filePath, body(last))
  }

  function BodyOf(stamp: string): Group -> string {
    group => GroupBody(stamp, group)
  }

  lemma {:induction false} BatchIsMailsOf(groups: seq<Group>, subscriptions: seq<Subscription>, stamp: string)
    ensures BatchEmails(groups, subscriptions, stamp) == MailsOf(groups, subscriptions, BodyOf(stamp))
    decreases |groups|
  {
    if |groups| > 0 {
      BatchIsMailsOf(groups[..|groups| - 1], subscriptions, stamp);
    }
  }

  /** A path with no group gets no mail. */
  lemma {:induction false} MailsSubjectAbsent(groups: seq<Group>, subscriptions: seq<Subscription>, body: Group -> string, p: string)
    requires forall k :: 0 <= k < |groups| ==> groups[k].filePath != p
    ensures WithSubject(MailsOf(groups, subscriptions, body), Subject(p)) == []
    decreases |groups|
  {
    if |groups| > 0 {
      var init := groups[..|groups| - 1];
      var last := groups[|groups| - 1];
      assert forall k :: 0 <= k < |init| ==> init[k] == groups[k];
      MailsSubjectAbsent(init, subscriptions, body, p);
      var mails := GroupEmails(ActiveFor(subscriptions, last.filePath), last.filePath, body(last));
      WithSubjectConcat(MailsOf(init, subscriptions, body), mails, Subject(p));
      WithSubjectOfGroup(ActiveFor(subscriptions, last.filePath), last.filePath, body(last), p);
    }
  }

  /** With distinct group paths, the mails about the path of group `k` are exactly that
      group's mails. */
  lemma {:induction false} MailsSubjectFound(groups: seq<Group>, subscriptions: seq<Subscription>, body: Group -> string, p: string, k: nat)
    requires forall i, j :: 0 <= i < j < |groups| ==> groups[i].filePath != groups[j].filePath
    requires k < |groups| && groups[k].filePath == p
    ensures WithSubject(MailsOf(groups, subscriptions, body), Subject(p))
            == GroupEmails(ActiveFor(subscriptions, p), p, body(groups[k]))
    decreases |groups|
  {
    var init := groups[..|groups| - 1];
    var last := groups[|groups| - 1];
    var before := MailsOf(init, subscriptions, body);
    var mails := GroupEmails(ActiveFor(subscriptions, last.filePath), last.filePath, body(last));
    WithSubjectConcat(before, mails, Subject(p));
    WithSubjectOfGroup(ActiveFor(subscriptions, last.filePath), last.filePath, body(last), p);
    assert MailsOf(groups, subscriptions, body) == before + mails;
    assert forall i :: 0 <= i < |init| ==> init[i] == groups[i];
    if k == |groups| - 1 {
      MailsSubjectAbsent(init, subscriptions, body, p);
      assert WithSubject(mails, Subject(p)) == mails;
      assert WithSubject(before, Subject(p)) + mails == mails;
    } else {
      assert groups[k].filePath != last.filePath;
      assert WithSubject(mails, Subject(p)) == [];
      MailsSubjectFound(init, subscriptions, body, p, k);
      assert WithSubject(before, Subject(p)) + [] == WithSubject(before, Subject(p));
    }
  }

  /** In one run, the mails about a path are exactly one per active subscription of that
      path, in store order, each with the path's subject and a body made of the header and
      the path's pending contents joined in retrieval order; a path without pending
      records gets no mail. Inactive subscriptions and notified records play no part. */
  lemma EmailsPerPath(rows: seq<FileChange>, subscriptions: seq<Subscription>, stamp: string, p: string)
    ensures var group := OfPath(FindByLastNotificationSentIsNull(rows), p);
            WithSubject(BatchOutbox(rows, subscriptions, stamp), Subject(p)) ==
              if group == [] then []
              else GroupEmails(ActiveFor(subscriptions, p), p, GenerateEmailBody(stamp, p, Join(Contents(group))))
  {
    var pending := FindByLastNotificationSentIsNull(rows);
    var groups := GroupByFilePath(pending);
    var ps := DistinctPaths(pending);
    GroupsPartitionPending(pending);
    BatchIsMailsOf(groups, subscriptions, stamp);
    if OfPath(pending, p) != [] {
      var c := OfPath(pending, p)[0];
      assert c in pending;
      var k :| 0 <= k < |ps| && ps[k] == p;
      MailsSubjectFound(groups, subscriptions, BodyOf(stamp), p, k);
    } else {
      forall k | 0 <= k < |groups| ensures groups[k].filePath != p {
        assert groups[k].changes != [];
      }
      MailsSubjectAbsent(groups, subscriptions, BodyOf(stamp), p);
    }
  }

  /** Every mail of a run goes to an active subscription of the path it is about. */
  lemma {:induction false} EmailsOnlyToActiveSubscribers(groups: seq<Group>, subscriptions: seq<Subscription>, stamp: string)
    ensures forall e :: e in BatchEmails(groups, subscriptions, stamp) ==>
      exists s :: s in subscriptions && s.active && e.to == s.email && e.subject == Subject(s.filePath)
    decreases |groups|
  {
    if |groups| > 0 {
      var init := groups[..|groups| - 1];
      var last := groups[|groups| - 1];
      EmailsOnlyToActiveSubscribers(init, subscriptions, stamp);
      var active := ActiveFor(subscriptions, last.filePath);
      var mails := EmailsOfGroup(last, subscriptions, stamp);
      forall e | e in mails
        ensures exists s :: s in subscriptions && s.active && e.to == s.email && e.subject == Subject(s.filePath)
      {
        var k :| 0 <= k < |mails| && mails[k] == e;
        assert active[k] in active;
      }
    }
  }

  /** A mail body contains each of the contents it joins. */
  lemma BodyContainsContent(stamp: string, p: string, lines: seq<string>, k: nat) returns (before: string, after: string)
    requires k < |lines|
    ensures GenerateEmailBody(stamp, p, Join(lines)) == before + lines[k] + after
  {
    var pre, post := JoinContains(lines, k);
    var header := EmailHeader(stamp, p);
    assert GenerateEmailBody(stamp, p, Join(lines)) == header + (pre + lines[k] + post);
    before, after := header + pre, post;
  }

  /** The body a subscriber gets contains every pending content of its path. */
  lemma BodyContainsPendingContent(rows: seq<FileChange>, stamp: string, p: string, c: FileChange)
    requires c in OfPath(FindByLastNotificationSentIsNull(rows), p)
    ensures exists pre, post ::
      GenerateEmailBody(stamp, p, Join(Contents(OfPath(FindByLastNotificationSentIsNull(rows), p)))) == pre + c.content + post
  {
    var group := OfPath(FindByLastNotificationSentIsNull(rows), p);
    var k :| 0 <= k < |group| && group[k] == c;
    var before, after := BodyContainsContent(stamp, p, Contents(group), k);
    assert Contents(group)[k] == c.content;
  }

  lemma {:induction false} BatchEmailsWithoutSubscribers(groups: seq<Group>, subscriptions: seq<Subscription>, stamp: string)
    requires forall k :: 0 <= k < |groups| ==> ActiveFor(subscriptions, groups[k].filePath) == []
    ensures BatchEmails(groups, subscriptions, stamp) == []
    decreases |groups|
  {
    if |groups| > 0 {
      var init := groups[..|groups| - 1];
      assert forall k :: 0 <= k < |init| ==> init[k] == groups[k];
      BatchEmailsWithoutSubscribers(init, subscriptions, stamp);
    }
  }

  /** No pending record of `rows` has an active subscriber for its path. */
  ghost predicate NothingNotifiable(rows: seq<FileChange>, subscriptions: seq<Subscription>) {
    forall i :: 0 <= i < |rows| && rows[i].Pending() ==> ActiveFor(subscriptions, rows[i].filePath) == []
  }

  /** When no pending record has an active subscriber, a run sends nothing. */
  lemma QuietOutbox(rows: seq<FileChange>, subscriptions: seq<Subscription>, stamp: string)
    requires NothingNotifiable(rows, subscriptions)
    ensures BatchOutbox(rows, subscriptions, stamp) == []
  {
    var pending := FindByLastNotificationSentIsNull(rows);
    var groups := GroupByFilePath(pending);
    GroupsPartitionPending(pending);
    forall k | 0 <= k < |groups| ensures ActiveFor(subscriptions, groups[k].filePath) == [] {
      var c := groups[k].changes[0];
      assert c in pending;
      var i :| 0 <= i < |rows| && rows[i] == c;
    }
    BatchEmailsWithoutSubscribers(groups, subscriptions, stamp);
  }

  /** When no pending record has an active subscriber, a run changes no record. */
  lemma QuietMarks(rows: seq<FileChange>, subscriptions: seq<Subscription>, now: Time)
    requires NothingNotifiable(rows, subscriptions)
    ensures AfterBatch(rows, subscriptions, now) == rows
  {
    var after := AfterBatch(rows, subscriptions, now);
    assert forall i :: 0 <= i < |rows| ==> after[i] == rows[i];
  }

  /** A second run with no new records in between sends nothing and marks nothing more. */
  lemma SecondRunSendsNothing(rows: seq<FileChange>, subscriptions: seq<Subscription>, now: Time, later: Time, stamp: string)
    ensures BatchOutbox(AfterBatch(rows, subscriptions, now), subscriptions, stamp) == []
    ensures AfterBatch(AfterBatch(rows, subscriptions, now), subscriptions, later) == AfterBatch(rows, subscriptions, now)
  {
    var after := AfterBatch(rows, subscriptions, now);
    assert NothingNotifiable(after, subscriptions);
    QuietOutbox(after, subscriptions, stamp);
    QuietMarks(after, subscriptions, later);
  }

  /** With no active subscription at all, a run sends nothing and leaves every record as it was. */
  lemma NoActiveSubscriptionNoEffect(rows: seq<FileChange>, subscriptions: seq<Subscription>, now: Time, stamp: string)
    requires forall s :: s in subscriptions ==> !s.active
    ensures BatchOutbox(rows, subscriptions, stamp) == []
    ensures AfterBatch(rows, subscriptions, now) == rows
  {
    forall p ensures ActiveFor(subscriptions, p) == [] {
    }
    QuietOutbox(rows, subscriptions, stamp);
    QuietMarks(rows, subscriptions, now);
  }
}
