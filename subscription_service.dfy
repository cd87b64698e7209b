/**
 * SubscriptionService: creating, cancelling and looking up subscriptions.
 *
 * Whether the file exists on disk, the generated job id (a random UUID), and the
 * outcomes of setting up the native watch and reading the file are parameters.
 */
module Subscriptions {
  import opened Wrappers
  import opened Entities
  import opened Mapper
  import opened Repositories
  import opened Watcher

  const MissingFilePrefix: string := "Plik "
  const MissingFileSuffix: string := " nie istnieje."
  const UnknownJobPrefix: string := "Nie ma takiej subskrypcji o id: "

  /** A job id not yet used by any stored subscription. */
  ghost predicate UnusedJobId(rows: seq<Subscription>, jobId: string) {
    forall s :: s in rows ==> s.jobId != Some(jobId)
  }

  /** At most one stored subscription has job id `jobId`. */
  ghost predicate JobIdAtMostOnce(rows: seq<Subscription>, jobId: string) {
    forall i, j :: 0 <= i < |rows| && 0 <= j < |rows| && rows[i].jobId == Some(jobId) && rows[j].jobId == Some(jobId) ==> i == j
  }

  /** A subscription saved under a job id nobody used before is the one that job id finds. */
  lemma {:induction false} FoundAfterCreate(rows: seq<Subscription>, saved: Subscription, jobId: string)
    requires UnusedJobId(rows, jobId) && saved.jobId == Some(jobId)
    ensures FindByJobId(rows + [saved], jobId) == Some(saved)
    decreases |rows|
  {
    if |rows| == 0 {
      assert rows + [saved] == [saved];
    } else {
      assert (rows + [saved])[1..] == rows[1..] + [saved];
      FoundAfterCreate(rows[1..], saved, jobId);
    }
  }

  /** Once the only subscription with a job id is deleted, the job id finds nothing. */
  lemma NotFoundAfterCancel(rows: seq<Subscription>, jobId: string)
    requires JobIdAtMostOnce(rows, jobId)
    requires FindByJobId(rows, jobId).Some? && FindByJobId(rows, jobId).value.id.Some?
    ensures FindByJobId(WithoutId(rows, FindByJobId(rows, jobId).value.id), jobId).None?
  {
  }

  /** Deleting twice is deleting once: the service deletes, then unregistering deletes again. */
  lemma {:induction false} WithoutIdIdempotent(rows: seq<Subscription>, id: Option<nat>)
    ensures WithoutId(WithoutId(rows, id), id) == WithoutId(rows, id)
    decreases |rows|
  {
    if id.Some? && |rows| > 0 {
      var init := rows[..|rows| - 1];
      var last := rows[|rows| - 1];
      WithoutIdIdempotent(init, id);
      var once := WithoutId(init, id);
      if last.id != id {
        assert (once + [last])[..|once + [last]| - 1] == once;
        assert WithoutId(once + [last], id) == WithoutId(once, id) + [last];
      }
    }
  }

  class SubscriptionService {
    const subscriptionRepository: SubscriptionRepository
    const fileWatcherService: FileWatcherService

    ghost predicate Valid()
      reads this, fileWatcherService, subscriptionRepository, fileWatcherService.fileChangeRepository
    {
      && fileWatcherService.subscriptionRepository == subscriptionRepository
      && fileWatcherService.Valid()
    }

    constructor (subscriptionRepository: SubscriptionRepository, fileWatcherService: FileWatcherService)
      requires fileWatcherService.subscriptionRepository == subscriptionRepository && fileWatcherService.Valid()
      ensures Valid()
      ensures this.subscriptionRepository == subscriptionRepository && this.fileWatcherService == fileWatcherService
    {
      this.subscriptionRepository := subscriptionRepository;
      this.fileWatcherService := fileWatcherService;
    }

    /** `createSubscription`. A missing file is refused and nothing changes. Otherwise the
        subscription built from the command, with the generated job id, is saved (once,
        under a new id: the watcher's second save replaces the same row), the watcher is
        registered for it, and its DTO is returned unless registration raised. */
    method CreateSubscription(command: CreateSubscriptionCommand, fileExists: bool, freshJobId: string,
                              watch: NativeWatch, read: ReadOutcome, now: Time)
      returns (r: Result<SubscriptionDto, Failure>)
      requires Valid()
      modifies subscriptionRepository, fileWatcherService, fileWatcherService.fileChangeRepository
      ensures Valid()
      ensures !fileExists ==>
        && r == Err(FileNotFound(MissingFilePrefix + command.filePath + MissingFileSuffix))
        && subscriptionRepository.rows == old(subscriptionRepository.rows)
        && subscriptionRepository.nextId == old(subscriptionRepository.nextId)
        && fileWatcherService.watchServices == old(fileWatcherService.watchServices)
        && fileWatcherService.fileChangeRepository.rows == old(fileWatcherService.fileChangeRepository.rows)
      ensures fileExists ==>
        var saved := Subscription(Some(old(subscriptionRepository.nextId)), command.filePath, command.email, Some(freshJobId), false, None);
        var filePath := command.filePath;
        var changes := old(fileWatcherService.fileChangeRepository.rows);
        && subscriptionRepository.rows == old(subscriptionRepository.rows) + [saved]
        && subscriptionRepository.nextId == old(subscriptionRepository.nextId) + 1
        && (if filePath in old(fileWatcherService.watchServices) then
              && r == Ok(SubscriptionDto(filePath, command.email, Some(freshJobId), false))
              && fileWatcherService.watchServices == old(fileWatcherService.watchServices)
              && fileWatcherService.fileChangeRepository.rows == changes
            else if watch.OpenFailed? then
              && r == Err(WatcherRegistration(RegistrationErrorPrefix + filePath))
              && fileWatcherService.watchServices == old(fileWatcherService.watchServices)
              && fileWatcherService.fileChangeRepository.rows == changes
            else
              && fileWatcherService.watchServices == old(fileWatcherService.watchServices)[filePath := watch.handle]
              && match read
                 case ReadFailed =>
                   && r == Err(WatcherRegistration(ReadErrorPrefix + filePath))
                   && fileWatcherService.fileChangeRepository.rows == changes
                 case LinesFailed =>
                   && r == Err(UncheckedIo)
                   && fileWatcherService.fileChangeRepository.rows == changes
                 case Content(text) =>
                   && r == Ok(SubscriptionDto(filePath, command.email, Some(freshJobId), false))
                   && fileWatcherService.fileChangeRepository.rows
                        == changes + [FileChange(Some(|changes|), filePath, text, now, Some(now))])
      ensures fileExists && UnusedJobId(old(subscriptionRepository.rows), freshJobId) ==>
        GetSubscriptionByJobId(freshJobId) == Ok(SubscriptionDto(command.filePath, command.email, Some(freshJobId), false))
    {
      if !fileExists {
        return Err(FileNotFound(MissingFilePrefix + command.filePath + MissingFileSuffix));
      }
      ghost var rows0 := subscriptionRepository.rows;
      var subscription := FromCreateCommand(command);
      subscription := subscription.(jobId := Some(freshJobId));
      subscription := subscriptionRepository.Save(subscription);
      ghost var rows1 := subscriptionRepository.rows;
      assert rows1[..|rows0|] == rows0;
      assert IndexOfId(rows1, subscription.id) == |rows0|;
      var registered := fileWatcherService.RegisterFileWatcher(subscription, watch, read, now);
      assert rows1[|rows0| := subscription] == rows1;
      if fileExists && UnusedJobId(rows0, freshJobId) {
        FoundAfterCreate(rows0, subscription, freshJobId);
      }
      if registered.Err? {
        return Err(registered.error);
      }
      r := Ok(ToDto(subscription));
    }

    /** `cancelSubscription`: true exactly when some subscription has the job id; that one
        is deleted and its path leaves the watcher registry. Otherwise nothing changes. */
    method CancelSubscription(jobId: string) returns (cancelled: bool)
      requires Valid()
      modifies subscriptionRepository, fileWatcherService
      ensures Valid()
      ensures cancelled <==> old(FindByJobId(subscriptionRepository.rows, jobId)).Some?
      ensures !cancelled ==>
        && subscriptionRepository.rows == old(subscriptionRepository.rows)
        && fileWatcherService.watchServices == old(fileWatcherService.watchServices)
      ensures cancelled ==>
        var found := old(FindByJobId(subscriptionRepository.rows, jobId)).value;
        && subscriptionRepository.rows == WithoutId(old(subscriptionRepository.rows), found.id)
        && found !in subscriptionRepository.rows
        && fileWatcherService.watchServices == old(fileWatcherService.watchServices) - {found.filePath}
      ensures subscriptionRepository.nextId == old(subscriptionRepository.nextId)
      ensures fileWatcherService.fileChangeRepository.rows == old(fileWatcherService.fileChangeRepository.rows)
    {
      var subscription := FindByJobId(subscriptionRepository.rows, jobId);
      if subscription.Some? {
        ghost var rows0 := subscriptionRepository.rows;
        subscriptionRepository.Delete(subscription.value);
        fileWatcherService.UnregisterFileWatcher(subscription);
        WithoutIdIdempotent(rows0, subscription.value.id);
        cancelled := true;
      } else {
        cancelled := false;
      }
    }

    /** `getSubscriptionByJobId`: the DTO of the subscription with the job id, or
        "not found" naming the job id. */
    function GetSubscriptionByJobId(jobId: string): (r: Result<SubscriptionDto, Failure>)
      reads subscriptionRepository
      ensures r.Err? <==> forall s :: s in subscriptionRepository.rows ==> s.jobId != Some(jobId)
      ensures r.Err? ==> r.error == EntityNotFound(UnknownJobPrefix + jobId)
      ensures r.Ok? ==> r.value.jobId == Some(jobId) && !r.value.active
      ensures r.Ok? ==> exists s :: s in subscriptionRepository.rows && s.jobId == Some(jobId) && r.value == ToDto(s)
    {
      match FindByJobId(subscriptionRepository.rows, jobId)
      case None => Err(EntityNotFound(UnknownJobPrefix + jobId))
      case Some(s) => Ok(ToDto(s))
    }

    /** `getAllSubscriptions`: the DTOs of the requested page of the store, in store order. */
    function GetAllSubscriptions(pageable: Pageable): (r: seq<SubscriptionDto>)
      reads subscriptionRepository
      ensures |r| <= pageable.size
      ensures |r| == 0 || PageStart(pageable) + |r| <= |subscriptionRepository.rows|
      ensures forall k :: 0 <= k < |r| ==> r[k] == ToDto(subscriptionRepository.rows[PageStart(pageable) + k])
      ensures PageStart(pageable) + pageable.size <= |subscriptionRepository.rows| ==> |r| == pageable.size
      ensures |r| == |FindAll(subscriptionRepository.rows, pageable)|
      ensures forall k :: 0 <= k < |r| ==> r[k] == ToDto(FindAll(subscriptionRepository.rows, pageable)[k])
    {
      var page := FindAll(subscriptionRepository.rows, pageable);
      seq(|page|, k requires 0 <= k < |page| => ToDto(page[k]))
    }
  }
}
