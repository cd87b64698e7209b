/**
 * In-memory models of the two JPA repositories the core uses and of the e-mail
 * service. Derived queries (`findByJobId`, `findByFilePathAndActive`,
 * `findTopByFilePathOrderByChangeTimeDesc`, `findByLastNotificationSentIsNull`)
 * are functions over the stored rows, with the meaning their names give them.
 */
module Repositories {
  import opened Wrappers
  import opened Entities

  // ---------------------------------------------------------------------------
  // Subscriptions

  /** Every stored subscription has an id below `nextId`, and no two share one. */
  ghost predicate SubscriptionRowsValid(rows: seq<Subscription>, nextId: nat) {
    && (forall i :: 0 <= i < |rows| ==> rows[i].id.Some? && rows[i].id.value < nextId)
    && (forall i, j :: 0 <= i < j < |rows| ==> rows[i].id != rows[j].id)
  }

  /** Position of the row with identifier `id`; -1 for no id or an unknown one. */
  function IndexOfId(rows: seq<Subscription>, id: Option<nat>): (i: int)
    ensures -1 <= i < |rows|
    ensures 0 <= i ==> id.Some? && rows[i].id == id
    ensures i == -1 ==> id.None? || forall j :: 0 <= j < |rows| ==> rows[j].id != id
  {
    if id.None? || |rows| == 0 then -1
    else if rows[|rows| - 1].id == id then |rows| - 1
    else IndexOfId(rows[..|rows| - 1], id)
  }

  /** The rows left after deleting the entity with identifier `id`; deleting an entity
      that was never saved (no id) or is already gone changes nothing. */
  function WithoutId(rows: seq<Subscription>, id: Option<nat>): (r: seq<Subscription>)
    ensures id.None? ==> r == rows
    ensures id.Some? ==> forall s :: s in r <==> s in rows && s.id != id
    ensures IndexOfId(rows, id) == -1 ==> r == rows
  {
    if id.None? || |rows| == 0 then rows
    else
      var init := WithoutId(rows[..|rows| - 1], id);
      var last := rows[|rows| - 1];
      assert rows == rows[..|rows| - 1] + [last];
      if last.id == id then init else init + [last]
  }

  /** `findByJobId`: the first subscription whose job id is `jobId`. */
  function FindByJobId(rows: seq<Subscription>, jobId: string): (r: Option<Subscription>)
    ensures r.Some? ==> r.value in rows && r.value.jobId == Some(jobId)
    ensures r.None? <==> forall s :: s in rows ==> s.jobId != Some(jobId)
  {
    if |rows| == 0 then None
    else if rows[0].jobId == Some(jobId) then Some(rows[0])
    else FindByJobId(rows[1..], jobId)
  }

  /** `findByFilePathAndActive`: the subscriptions for `filePath` with the given flag, in store order. */
  function FindByFilePathAndActive(rows: seq<Subscription>, filePath: string, active: bool): (r: seq<Subscription>)
    ensures |r| <= |rows|
    ensures forall s :: s in r <==> s in rows && s.filePath == filePath && s.active == active
    ensures (forall s :: s in rows ==> s.filePath != filePath || s.active != active) ==> r == []
  {
    if |rows| == 0 then []
    else
      var rest := FindByFilePathAndActive(rows[1..], filePath, active);
      assert rows == [rows[0]] + rows[1..];
      if rows[0].filePath == filePath && rows[0].active == active then [rows[0]] + rest else rest
  }

  /** The query distributes over concatenation: subscriptions keep their store order. */
  lemma {:induction false} FindByFilePathAndActiveConcat(a: seq<Subscription>, b: seq<Subscription>, filePath: string, active: bool)
    ensures FindByFilePathAndActive(a + b, filePath, active)
            == FindByFilePathAndActive(a, filePath, active) + FindByFilePathAndActive(b, filePath, active)
    decreases |a|
  {
    if |a| == 0 {
      assert a + b == b;
    } else {
      assert (a + b)[0] == a[0];
      assert (a + b)[1..] == a[1..] + b;
      FindByFilePathAndActiveConcat(a[1..], b, filePath, active);
    }
  }

  /** A single subscription is found exactly when its path and flag match. */
  lemma FindByFilePathAndActiveSingle(s: Subscription, filePath: string, active: bool)
    ensures FindByFilePathAndActive([s], filePath, active) == if s.filePath == filePath && s.active == active then [s] else []
  {
  }

  /** A page request: page number and page size. */
  datatype Pageable = Pageable(page: nat, size: nat)

  function PageStart(pageable: Pageable): nat {
    pageable.page * pageable.size
  }

  /** `findAll(pageable)` over an unsorted store: the `page`-th window of `size` rows. */
  function FindAll(rows: seq<Subscription>, pageable: Pageable): (r: seq<Subscription>)
    ensures |r| <= pageable.size
    ensures |r| == 0 || PageStart(pageable) + |r| <= |rows|
    ensures forall k :: 0 <= k < |r| ==> r[k] == rows[PageStart(pageable) + k]
    ensures PageStart(pageable) + pageable.size <= |rows| ==> |r| == pageable.size
    ensures PageStart(pageable) < |rows| ==> r != [] || pageable.size == 0
    ensures |r| == if PageStart(pageable) >= |rows| then 0
                   else if PageStart(pageable) + pageable.size <= |rows| then pageable.size
                   else |rows| - PageStart(pageable)
  {
    var from := PageStart(pageable);
    if from >= |rows| then []
    else if from + pageable.size <= |rows| then rows[from..from + pageable.size]
    else rows[from..]
  }

  /** Two stored rows and the first page of ten: the page holds both rows, in order. */
  lemma FindAllPartialPage(a: Subscription, b: Subscription)
    ensures FindAll([a, b], Pageable(0, 10)) == [a, b]
  {
    assert [a, b][0..] == [a, b];
  }

  class SubscriptionRepository {
    var rows: seq<Subscription>
    var nextId: nat

    ghost predicate Valid()
      reads this
    {
      SubscriptionRowsValid(rows, nextId)
    }

    constructor ()
      ensures Valid() && rows == [] && nextId == 0
    {
      rows, nextId := [], 0;
    }

    /** `save`: a subscription without a stored row is inserted under a new id (the id is
        given back to the caller, as persisting sets it on the entity); one whose id is
        stored replaces that row. */
    method Save(s: Subscription) returns (saved: Subscription)
      requires Valid()
      modifies this
      ensures Valid()
      ensures saved.filePath == s.filePath && saved.email == s.email && saved.jobId == s.jobId
      ensures saved.active == s.active && saved.version == s.version
      ensures var i := IndexOfId(old(rows), s.id);
              if 0 <= i then
                saved == s && rows == old(rows)[i := s] && nextId == old(nextId)
              else
                saved == s.(id := Some(old(nextId))) && rows == old(rows) + [saved] && nextId == old(nextId) + 1
    {
      var i := IndexOfId(rows, s.id);
      if 0 <= i {
        rows := rows[i := s];
        saved := s;
      } else {
        saved := s.(id := Some(nextId));
        rows := rows + [saved];
        nextId := nextId + 1;
      }
    }

    /** `delete`: removes the row of the entity's id, if there is one. */
    method Delete(s: Subscription)
      requires Valid()
      modifies this
      ensures Valid()
      ensures rows == WithoutId(old(rows), s.id) && nextId == old(nextId)
    {
      WithoutIdKeepsValid(rows, nextId, s.id);
      rows := WithoutId(rows, s.id);
    }
  }

  lemma WithoutIdKeepsValid(rows: seq<Subscription>, nextId: nat, id: Option<nat>)
    requires SubscriptionRowsValid(rows, nextId)
    ensures SubscriptionRowsValid(WithoutId(rows, id), nextId)
  {
    if id.Some? && |rows| > 0 {
      var init := rows[..|rows| - 1];
      WithoutIdKeepsValid(init, nextId, id);
      var last := rows[|rows| - 1];
      if last.id != id {
        var r := WithoutId(init, id);
        forall i | 0 <= i < |r| ensures r[i].id != last.id {
          assert r[i] in init;
        }
        SnocKeepsValid(r, last, nextId);
      }
    }
  }

  /** A row whose id is below `nextId` and not yet used can be appended. */
  lemma SnocKeepsValid(rows: seq<Subscription>, last: Subscription, nextId: nat)
    requires SubscriptionRowsValid(rows, nextId)
    requires last.id.Some? && last.id.value < nextId
    requires forall i :: 0 <= i < |rows| ==> rows[i].id != last.id
    ensures SubscriptionRowsValid(rows + [last], nextId)
  {
  }

  // ---------------------------------------------------------------------------
  // Change records

  /** Change records are stored in insertion order and row `i` has identifier `i`. */
  ghost predicate ChangeRowsValid(rows: seq<FileChange>) {
    forall i :: 0 <= i < |rows| ==> rows[i].id == Some(i)
  }

  /** `findTopByFilePathOrderByChangeTimeDesc`: the record for `filePath` with the latest
      change time; of several with that time, the one stored last. */
  function FindTopByFilePath(rows: seq<FileChange>, filePath: string): (r: Option<FileChange>)
    ensures r.None? <==> forall c :: c in rows ==> c.filePath != filePath
    ensures r.Some? ==> r.value in rows && r.value.filePath == filePath
    ensures r.Some? ==> forall c :: c in rows && c.filePath == filePath ==> c.changeTime <= r.value.changeTime
  {
    if |rows| == 0 then None
    else
      var init := rows[..|rows| - 1];
      var last := rows[|rows| - 1];
      assert rows == init + [last];
      var best := FindTopByFilePath(init, filePath);
      if last.filePath != filePath then best
      else if best.Some? && best.value.changeTime > last.changeTime then best
      else Some(last)
  }

  /** The query distributes over concatenation: pending records keep their store order. */
  lemma {:induction false} PendingConcat(a: seq<FileChange>, b: seq<FileChange>)
    ensures FindByLastNotificationSentIsNull(a + b)
            == FindByLastNotificationSentIsNull(a) + FindByLastNotificationSentIsNull(b)
    decreases |a|
  {
    if |a| == 0 {
      assert a + b == b;
    } else {
      assert (a + b)[1..] == a[1..] + b;
      PendingConcat(a[1..], b);
    }
  }

  /** A single record is returned exactly when it is pending. */
  lemma PendingSingle(c: FileChange)
    ensures FindByLastNotificationSentIsNull([c]) == if c.Pending() then [c] else []
  {
  }

  /** `findByLastNotificationSentIsNull`: the pending records, in store order. */
  function FindByLastNotificationSentIsNull(rows: seq<FileChange>): (r: seq<FileChange>)
    ensures forall c :: c in r <==> c in rows && c.Pending()
  {
    if |rows| == 0 then []
    else
      var rest := FindByLastNotificationSentIsNull(rows[1..]);
      assert rows == [rows[0]] + rows[1..];
      if rows[0].Pending() then [rows[0]] + rest else rest
  }

  class FileChangeRepository {
    var rows: seq<FileChange>

    ghost predicate Valid()
      reads this
    {
      ChangeRowsValid(rows)
    }

    constructor ()
      ensures Valid() && rows == []
    {
      rows := [];
    }

    /** `save`: a record with the id of a stored row replaces it; any other one is
        appended under the next id. */
    method Save(c: FileChange) returns (saved: FileChange)
      requires Valid()
      modifies this
      ensures Valid()
      ensures if c.id.Some? && c.id.value < |old(rows)| then
                saved == c && rows == old(rows)[c.id.value := c]
              else
                saved == c.(id := Some(|old(rows)|)) && rows == old(rows) + [saved]
    {
      if c.id.Some? && c.id.value < |rows| {
        rows := rows[c.id.value := c];
        saved := c;
      } else {
        saved := c.(id := Some(|rows|));
        rows := rows + [saved];
      }
    }
  }

  // ---------------------------------------------------------------------------
  // Outgoing mail

  /** The e-mail service, reduced to the sequence of mails handed to it. */
  class EmailService {
    var sent: seq<Email>

    constructor ()
      ensures sent == []
    {
      sent := [];
    }

    method SendEmail(to: string, subject: string, content: string)
      modifies this
      ensures sent == old(sent) + [Email(to, subject, content)]
    {
      sent := sent + [Email(to, subject, content)];
    }
  }
}
