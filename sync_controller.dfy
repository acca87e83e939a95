/** The synchronisation controller (SyncController): it lists both sides, carries out the
    reconciled actions against the store and the local folder, and reports progress. */
module Controller {
  import opened Wrappers
  import opened Text
  import opened FileModel
  import opened LocalFs
  import opened Ordering
  import opened RemoteStore
  import opened Reconciler
  import opened SyncRun
  import opened Convergence

  /** The world a folder and a store make together. */
  ghost function WorldOf(folder: LocalFolder, store: MockFileService): World
    reads folder, store
  {
    World(folder.files, store.blobs, store.sidecars, store.nextId)
  }

  /** No local file is named like a sidecar. */
  ghost predicate NoSidecarNames(files: seq<DiskFile>) {
    forall f :: f in files ==> !EndsWith(f.name, MetaSuffix)
  }

  /** From a consistent store and a folder without sidecar-like names, the listing has no
      repeated name and the run it leads to completes and brings both sides into agreement. */
  lemma ReadyRunConverges(env: Env, listed: World, order: seq<string>, collation: (string, string) -> bool,
                          remote: seq<FileMetadata>)
    requires UniqueNames(listed.local) && NoSidecarNames(listed.local)
    requires ConsistentSidecars(env.dir, listed.sidecars)
    requires IsEnumeration(order, ListedNames(env.dir, listed.blobs))
    requires forall n :: n in ListedNames(env.dir, listed.blobs) ==> n in listed.sidecars
    requires remote == SortBy(Project(order, listed.sidecars), NameOf, collation)
    ensures UniqueRecordNames(remote)
    ensures var run := RunActions(env, listed, Reconcile(listed.local, remote));
      && run.failure.None?
      && InAgreement(env.dir, run.world)
      && ConsistentSidecars(env.dir, run.world.sidecars)
  {
    StoreListingIsListing(env.dir, listed, order, collation);
    RunConverges(env, listed, remote);
  }

  lemma PrefixSnoc<T>(s: seq<T>, i: int)
    requires 0 <= i < |s|
    ensures s[..i + 1] == s[..i] + [s[i]]
  {
  }

  lemma RemotePassSnoc(localNames: set<string>, remote: seq<FileMetadata>, j: int)
    requires 0 <= j < |remote|
    ensures RemotePass(localNames, remote[..j + 1])
         == RemotePass(localNames, remote[..j])
            + (if remote[j].name in localNames then [] else [DownloadNew(remote[j])])
  {
    assert remote[..j + 1][..j] == remote[..j];
  }

  lemma RemotePassTake(localNames: set<string>, remote: seq<FileMetadata>, j: int)
    requires 0 <= j < |remote| && remote[j].name !in localNames
    ensures RemotePass(localNames, remote[..j + 1]) == RemotePass(localNames, remote[..j]) + [DownloadNew(remote[j])]
  {
    RemotePassSnoc(localNames, remote, j);
  }

  lemma RemotePassSkip(localNames: set<string>, remote: seq<FileMetadata>, j: int)
    requires 0 <= j < |remote| && remote[j].name in localNames
    ensures RemotePass(localNames, remote[..j + 1]) == RemotePass(localNames, remote[..j])
  {
    RemotePassSnoc(localNames, remote, j);
  }

  lemma RemotePassRest(localNames: set<string>, remote: seq<FileMetadata>, j: int)
    requires 0 <= j < |remote|
    ensures RemotePass(localNames, remote)
         == RemotePass(localNames, remote[..j + 1]) + RemotePass(localNames, remote[j + 1..])
  {
    assert remote[..j + 1] + remote[j + 1..] == remote;
    RemotePassSplit(localNames, remote[..j + 1], remote[j + 1..]);
  }

  /** A failure in the second pass after the record at `j` ends the run there. */
  lemma StopInRemotePass(env: Env, w: World, before: seq<SyncAction>, localNames: set<string>,
                         remote: seq<FileMetadata>, j: int)
    requires 0 <= j < |remote|
    requires RunActions(env, w, before + RemotePass(localNames, remote[..j + 1])).failure.Some?
    ensures RunActions(env, w, before + RemotePass(localNames, remote))
         == RunActions(env, w, before + RemotePass(localNames, remote[..j + 1]))
  {
    var head := before + RemotePass(localNames, remote[..j + 1]);
    RemotePassRest(localNames, remote, j);
    ActionsSplit(before, RemotePass(localNames, remote[..j + 1]), RemotePass(localNames, remote[j + 1..]));
    PrefixOfAppend(head, RemotePass(localNames, remote[j + 1..]));
    RunStopsAtFailure(env, w, before + RemotePass(localNames, remote), |head|);
  }

  lemma ActionsGrow(a: seq<SyncAction>, b: seq<SyncAction>, x: SyncAction)
    ensures (a + b) + [x] == a + (b + [x])
  {
  }

  lemma ActionsSplit(a: seq<SyncAction>, b: seq<SyncAction>, c: seq<SyncAction>)
    ensures a + (b + c) == (a + b) + c
  {
  }

  lemma PrefixOfAppend<T>(a: seq<T>, b: seq<T>)
    ensures (a + b)[..|a|] == a
  {
  }

  lemma LogGrowsOne(p: seq<string>, log: seq<string>, m: string)
    ensures (p + log) + [m] == p + (log + [m])
  {
  }

  lemma LogGrowsTwo(p: seq<string>, log: seq<string>, m1: string, m2: string)
    ensures ((p + log) + [m1]) + [m2] == p + (log + [m1, m2])
  {
    assert [m1] + [m2] == [m1, m2];
  }

  /** GetSyncStatus's loop: the local files whose first remote namesake differs from them by
      more than a second. */
  method CountDrifted(local: seq<DiskFile>, remote: seq<FileMetadata>) returns (count: int)
    ensures count == DriftCount(local, remote)
  {
    count := 0;
    var i := 0;
    while i < |local|
      invariant 0 <= i <= |local|
      invariant count == DriftCount(local[..i], remote)
    {
      var lf := local[i];
      assert local[..i + 1][..i] == local[..i];
      var found := FindRecord(remote, lf.name);
      if found.Some? {
        if Drift(lf.modifiedAt, found.value.modifiedAt) > TicksPerSecond {
          count := count + 1;
        }
      }
      i := i + 1;
    }
    assert local[..|local|] == local;
  }

  class SyncController {
    const fileService: MockFileService
    const token: string
    /** The user name uploads are attributed to. */
    const username: string
    /** The messages raised through ProgressChanged, oldest first. */
    var progress: seq<string>

    ghost predicate Valid()
      reads this, fileService
    {
      fileService.Valid()
    }

    constructor (svc: MockFileService, token: string, username: string)
      ensures fileService == svc && this.token == token && this.username == username
      ensures progress == []
    {
      fileService := svc;
      this.token := token;
      this.username := username;
      progress := [];
    }

    /** OnProgress: raises the message to the subscribers. */
    method OnProgress(msg: string)
      modifies this`progress
      ensures progress == old(progress) + [msg]
    {
      progress := progress + [msg];
    }

    /** GetLocalFilesAsync: the record of each file of an existing folder, in listing order;
        a missing folder throws DirectoryNotFoundException. */
    function GetLocalFiles(folder: LocalFolder?): (r: Result<seq<FileMetadata>>)
      reads folder
      ensures r.Err? <==> folder == null
      ensures r.Err? ==> r.error == DirectoryNotFound
      ensures r.Ok? ==>
        && |r.value| == |folder.files|
        && RecordNames(r.value) == Names(folder.files)
        && (folder.Valid() ==> UniqueRecordNames(r.value))
        && forall i :: 0 <= i < |r.value| ==> r.value[i] == LocalRecord(folder.files[i])
    {
      if folder == null then Err(DirectoryNotFound)
      else
        var recs := seq(|folder.files|, i requires 0 <= i < |folder.files| reads folder => LocalRecord(folder.files[i]));
        assert RecordNames(recs) == Names(folder.files) by {
          forall n | n in Names(folder.files) ensures n in RecordNames(recs) {
            var i :| 0 <= i < |folder.files| && folder.files[i].name == n;
            assert recs[i] in recs;
          }
        }
        Ok(recs)
    }

    /** GetRemoteFilesAsync: the store's listing for this controller's token. */
    method GetRemoteFiles() returns (r: Result<seq<FileMetadata>>, ghost order: seq<string>)
      requires Valid()
      modifies fileService`sidecars, fileService`nextId
      ensures Valid()
      ensures !old(fileService.Authorized(token)) ==> r == Err(Unauthorized) && unchanged(fileService)
      ensures old(fileService.Authorized(token)) ==>
        && r.Ok?
        && ListingOutcome(fileService.storageDir, fileService.blobs, fileService.tokens[token], fileService.collation,
                          old(fileService.sidecars), old(fileService.nextId), order,
                          fileService.sidecars, fileService.nextId, r.value)
    {
      r, order := fileService.ListFiles(token);
    }

    /** DownloadFileAsync: writes the stored file at the record's remote path into the folder
        under the record's name and gives it the record's modification time. */
    method DownloadFile(folder: LocalFolder, rf: FileMetadata, now: int) returns (r: Result<()>)
      requires folder.Valid()
      modifies folder
      ensures folder.Valid()
      ensures !fileService.Authorized(token) ==> r == Err(Unauthorized) && folder.files == old(folder.files)
      ensures fileService.Authorized(token) ==>
        match Fetch(fileService.storageDir, fileService.blobs, rf.remotePath)
        case None => r == Err(NotFound) && folder.files == old(folder.files)
        case Some(content) => r == Ok(()) && folder.files == AfterDownload(old(folder.files), rf, content, now)
    {
      var s := fileService.GetFileStream(token, rf.remotePath);
      if s.Err? {
        return Err(s.error);
      }
      WrittenNames(folder.files, rf.name, s.value, now);
      folder.WriteFile(rf.name, s.value, now);
      if folder.FileExists(rf.name) {
        folder.SetLastWriteTimeUtc(rf.name, rf.modifiedAt);
      }
      r := Ok(());
    }

    /** The fixed inputs of a run started at `now`. */
    function RunEnv(now: int): Env {
      Env(fileService.storageDir, username, now)
    }

    /** SyncFolderAsync. A missing folder throws before anything else; otherwise the start
        message is raised and the store listed (which throws for a bad token); a listing
        that repeats a name throws when it is turned into a dictionary; then the reconciled
        actions run in order until one throws, and a run that completes raises and returns
        its summary. */
    method SyncFolder(folder: LocalFolder?, now: int)
      returns (r: Result<string>, ghost remote: seq<FileMetadata>, ghost listed: World, ghost order: seq<string>)
      requires Valid() && (folder != null ==> folder.Valid())
      modifies this`progress, folder, fileService`blobs, fileService`sidecars, fileService`nextId
      ensures Valid() && (folder != null ==> folder.Valid())
      ensures folder == null ==> r == Err(DirectoryNotFound) && progress == old(progress) && unchanged(fileService)
      ensures folder != null && !old(fileService.Authorized(token)) ==>
        && r == Err(Unauthorized) && progress == old(progress) + [StartMessage]
        && unchanged(folder) && unchanged(fileService)
      ensures folder != null && old(fileService.Authorized(token)) ==>
        && listed.local == old(folder.files) && listed.blobs == old(fileService.blobs)
        && ListingOutcome(fileService.storageDir, old(fileService.blobs), fileService.tokens[token],
                          fileService.collation, old(fileService.sidecars), old(fileService.nextId), order,
                          listed.sidecars, listed.nextId, remote)
        && (!UniqueRecordNames(remote) ==>
              && r == Err(DuplicateKey) && progress == old(progress) + [StartMessage]
              && WorldOf(folder, fileService) == listed)
        && (UniqueRecordNames(remote) ==>
              var run := RunActions(RunEnv(now), listed, Reconcile(listed.local, remote));
              && WorldOf(folder, fileService) == run.world
              && (run.failure.Some? ==>
                    r == Err(run.failure.value) && progress == old(progress) + [StartMessage] + run.log)
              && (run.failure.None? ==>
                    && r == Ok(Summary(run.uploaded, run.downloaded))
                    && progress == old(progress) + [StartMessage] + run.log + [r.value]))
      ensures folder != null && old(fileService.Authorized(token))
              && ConsistentSidecars(fileService.storageDir, old(fileService.sidecars))
              && NoSidecarNames(old(folder.files)) ==>
        && r.Ok?
        && InAgreement(fileService.storageDir, WorldOf(folder, fileService))
        && ConsistentSidecars(fileService.storageDir, fileService.sidecars)
    {
      listed, order := World([], map[], map[], 0), [];
      if folder == null {
        return Err(DirectoryNotFound), [], listed, order;
      }
      OnProgress(StartMessage);
      var listing;
      listing, order := fileService.ListFiles(token);
      if listing.Err? {
        return Err(listing.error), [], listed, order;
      }
      var remoteFiles := listing.value;
      remote := remoteFiles;
      var local := folder.files;
      listed := World(local, fileService.blobs, fileService.sidecars, fileService.nextId);
      if ConsistentSidecars(fileService.storageDir, old(fileService.sidecars)) && NoSidecarNames(local) {
        ReadyRunConverges(RunEnv(now), listed, order, fileService.collation, remote);
      }
      if !UniqueRecordNames(remoteFiles) {
        return Err(DuplicateKey), remote, listed, order;
      }
      ghost var acts := Reconcile(local, remote);
      ghost var start := progress;

      var failed, uploaded, downloaded := SyncLocalFiles(folder, local, remoteFiles, now, listed);
      ghost var lp := LocalPass(local, remote);
      if failed.Some? {
        assert acts[..|lp|] == lp;
        RunStopsAtFailure(RunEnv(now), listed, acts, |lp|);
        return Err(failed.value), remote, listed, order;
      }
      failed, downloaded := SyncRemoteFiles(folder, Names(local), remoteFiles, now, listed, lp, start, downloaded);
      if failed.Some? {
        return Err(failed.value), remote, listed, order;
      }
      var result := "Synchronization complete. Uploaded: " + NatToString(uploaded)
                    + ", Downloaded: " + NatToString(downloaded);
      OnProgress(result);
      r := Ok(result);
    }

    /** The first loop of SyncFolderAsync: a check message for every local file, then its
        upload or download, stopping at the first download that throws. */
    method SyncLocalFiles(folder: LocalFolder, local: seq<DiskFile>, remote: seq<FileMetadata>, now: int,
                          ghost listed: World)
      returns (failed: Option<Error>, uploaded: nat, downloaded: nat)
      requires Valid() && folder.Valid() && fileService.Authorized(token)
      requires WorldOf(folder, fileService) == listed && local == listed.local
      modifies this`progress, folder, fileService`blobs, fileService`sidecars, fileService`nextId
      ensures Valid() && folder.Valid() && fileService.tokens == old(fileService.tokens)
      ensures var run := RunActions(RunEnv(now), listed, LocalPass(local, remote));
        && WorldOf(folder, fileService) == run.world
        && progress == old(progress) + run.log
        && failed == run.failure
        && uploaded == run.uploaded && downloaded == run.downloaded
    {
      ghost var env := RunEnv(now);
      ghost var acts := LocalPass(local, remote);
      ghost var done: seq<SyncAction> := [];
      ghost var run := Run(listed, [], 0, 0, None);
      uploaded, downloaded := 0, 0;
      var i := 0;
      while i < |local|
        invariant 0 <= i <= |local|
        invariant done == acts[..i]
        invariant run == RunActions(env, listed, done) && run.failure.None?
        invariant WorldOf(folder, fileService) == run.world
        invariant progress == old(progress) + run.log
        invariant uploaded == run.uploaded && downloaded == run.downloaded
        invariant folder.Valid() && fileService.Valid() && fileService.tokens == old(fileService.tokens)
      {
        ghost var a := Decide(local[i], remote);
        RunActionsSnoc(env, listed, done, a);
        PrefixSnoc(acts, i);
        var failedHere, up, down := SyncLocalFile(folder, local[i], remote, now, run, old(progress));
        uploaded, downloaded := uploaded + up, downloaded + down;
        done := done + [a];
        run := RunActions(env, listed, done);
        if failedHere.Some? {
          RunStopsAtFailure(env, listed, acts, i + 1);
          return failedHere, uploaded, downloaded;
        }
        i := i + 1;
      }
      assert acts[..|local|] == acts;
      failed := None;
    }

    /** One turn of the first loop: the check message, then the upload, download or nothing
        that the decision for `lf` calls for. */
    method SyncLocalFile(folder: LocalFolder, lf: DiskFile, remote: seq<FileMetadata>, now: int,
                         ghost before: Run, ghost shown: seq<string>)
      returns (failed: Option<Error>, up: nat, down: nat)
      requires Valid() && folder.Valid() && fileService.Authorized(token)
      requires before.failure.None? && WorldOf(folder, fileService) == before.world
      requires progress == shown + before.log
      modifies this`progress, folder, fileService`blobs, fileService`sidecars, fileService`nextId
      ensures Valid() && folder.Valid() && fileService.tokens == old(fileService.tokens)
      ensures var after := Step(RunEnv(now), before, Decide(lf, remote));
        && WorldOf(folder, fileService) == after.world
        && progress == shown + after.log
        && failed == after.failure
        && after.uploaded == before.uploaded + up && after.downloaded == before.downloaded + down
    {
      ghost var env := RunEnv(now);
      ghost var a := Decide(lf, remote);
      var check := CheckingMessage(lf.name);
      OnProgress(check);
      var found := FindRecord(remote, lf.name);
      if found.None? {
        assert a == UploadNew(lf);
        UploadLocal(folder, lf, now, before, shown, a, "Uploaded new file: " + lf.name);
        return None, 1, 0;
      }
      var rf := found.value;
      if lf.modifiedAt > rf.modifiedAt + TicksPerSecond {
        assert a == UploadUpdate(lf);
        UploadLocal(folder, lf, now, before, shown, a, "Updated file: " + lf.name);
        return None, 1, 0;
      }
      if rf.modifiedAt > lf.modifiedAt + TicksPerSecond {
        assert a == DownloadUpdate(lf, rf);
        var d := DownloadFile(folder, rf, now);
        if d.Err? {
          LogGrowsOne(shown, before.log, check);
          StepDownloadUpdate(env, before, lf, rf);
          return Some(d.error), 0, 0;
        }
        var msg := "Downloaded file: " + rf.name;
        OnProgress(msg);
        LogGrowsTwo(shown, before.log, check, msg);
        StepDownloadUpdate(env, before, lf, rf);
        assert Messages(a) == [check, msg];
        return None, 0, 1;
      }
      assert a == InSync(lf);
      LogGrowsOne(shown, before.log, check);
      assert Step(env, before, a) == before.(log := before.log + [check]);
      return None, 0, 0;
    }

    /** The upload branch of one turn of the first loop, after its "Checking" message: the
        upload of `lf` and the message `msg` that reports it. */
    method UploadLocal(folder: LocalFolder, lf: DiskFile, now: int, ghost before: Run, ghost shown: seq<string>,
                       ghost a: SyncAction, msg: string)
      requires Valid() && folder.Valid() && fileService.Authorized(token)
      requires a == UploadNew(lf) || a == UploadUpdate(lf)
      requires msg == Messages(a)[1]
      requires before.failure.None? && WorldOf(folder, fileService) == before.world
      requires progress == shown + before.log + [CheckingMessage(lf.name)]
      modifies this`progress, fileService`blobs, fileService`sidecars, fileService`nextId
      ensures Valid() && folder.Valid() && fileService.tokens == old(fileService.tokens)
      ensures var after := Step(RunEnv(now), before, a);
        && WorldOf(folder, fileService) == after.world
        && progress == shown + after.log
        && after.failure.None?
        && after.uploaded == before.uploaded + 1 && after.downloaded == before.downloaded
    {
      var _ := fileService.UploadFile(token, lf, username, now);
      OnProgress(msg);
      LogGrowsTwo(shown, before.log, CheckingMessage(lf.name), msg);
      StepUpload(RunEnv(now), before, a);
      assert Messages(a) == [CheckingMessage(lf.name), msg];
    }

    /** The second loop of SyncFolderAsync: a download of every remote record whose name is
        not a local name, after the actions `before`, stopping at the first that throws. */
    method SyncRemoteFiles(folder: LocalFolder, localNames: set<string>, remote: seq<FileMetadata>, now: int,
                           ghost listed: World, ghost before: seq<SyncAction>, ghost shown: seq<string>,
                           downloaded0: nat)
      returns (failed: Option<Error>, downloaded: nat)
      requires Valid() && folder.Valid() && fileService.Authorized(token)
      requires RunActions(RunEnv(now), listed, before).failure.None?
      requires WorldOf(folder, fileService) == RunActions(RunEnv(now), listed, before).world
      requires progress == shown + RunActions(RunEnv(now), listed, before).log
      requires downloaded0 == RunActions(RunEnv(now), listed, before).downloaded
      modifies this`progress, folder
      ensures folder.Valid()
      ensures var run := RunActions(RunEnv(now), listed, before + RemotePass(localNames, remote));
        && WorldOf(folder, fileService) == run.world
        && progress == shown + run.log
        && failed == run.failure
        && downloaded == run.downloaded
        && run.uploaded == RunActions(RunEnv(now), listed, before).uploaded
    {
      ghost var env := RunEnv(now);
      ghost var done := before;
      ghost var run := RunActions(env, listed, before);
      ghost var uploaded := run.uploaded;
      downloaded := downloaded0;
      var j := 0;
      while j < |remote|
        invariant 0 <= j <= |remote|
        invariant done == before + RemotePass(localNames, remote[..j])
        invariant run == RunActions(env, listed, done) && run.failure.None?
        invariant WorldOf(folder, fileService) == run.world
        invariant progress == shown + run.log
        invariant downloaded == run.downloaded && run.uploaded == uploaded
        invariant folder.Valid()
      {
        var rf := remote[j];
        if rf.name !in localNames {
          ghost var a := DownloadNew(rf);
          RemotePassTake(localNames, remote, j);
          ActionsGrow(before, RemotePass(localNames, remote[..j]), a);
          RunActionsSnoc(env, listed, done, a);
          var failedHere := SyncRemoteFile(folder, rf, now, run, shown);
          done := done + [a];
          run := RunActions(env, listed, done);
          if failedHere.Some? {
            StopInRemotePass(env, listed, before, localNames, remote, j);
            return failedHere, downloaded;
          }
          downloaded := downloaded + 1;
        } else {
          RemotePassSkip(localNames, remote, j);
        }
        j := j + 1;
      }
      assert remote[..|remote|] == remote;
      failed := None;
    }

    /** One turn of the second loop for a remote-only record: its download and message. */
    method SyncRemoteFile(folder: LocalFolder, rf: FileMetadata, now: int, ghost before: Run, ghost shown: seq<string>)
      returns (failed: Option<Error>)
      requires Valid() && folder.Valid() && fileService.Authorized(token)
      requires before.failure.None? && WorldOf(folder, fileService) == before.world
      requires progress == shown + before.log
      modifies this`progress, folder
      ensures folder.Valid()
      ensures var after := Step(RunEnv(now), before, DownloadNew(rf));
        && WorldOf(folder, fileService) == after.world
        && progress == shown + after.log
        && failed == after.failure
        && after.uploaded == before.uploaded
        && after.downloaded == before.downloaded + (if failed.None? then 1 else 0)
    {
      ghost var env := RunEnv(now);
      var d := DownloadFile(folder, rf, now);
      if d.Err? {
        StepDownloadNew(env, before, rf);
        return Some(d.error);
      }
      var msg := "Downloaded new file: " + rf.name;
      OnProgress(msg);
      LogGrowsOne(shown, before.log, msg);
      StepDownloadNew(env, before, rf);
      failed := None;
    }

    /** GetSyncStatus: -1 for a missing folder; otherwise the number of local files whose
        remote record differs from them by more than a second. */
    method GetSyncStatus(folder: LocalFolder?) returns (r: Result<int>, ghost remote: seq<FileMetadata>)
      requires Valid()
      modifies fileService`sidecars, fileService`nextId
      ensures Valid()
      ensures folder == null ==> r == Ok(-1) && unchanged(fileService)
      ensures folder != null && !old(fileService.Authorized(token)) ==> r == Err(Unauthorized) && unchanged(fileService)
      ensures folder != null && old(fileService.Authorized(token)) ==>
        && (exists order :: ListingOutcome(fileService.storageDir, fileService.blobs, fileService.tokens[token],
                                           fileService.collation, old(fileService.sidecars), old(fileService.nextId),
                                           order, fileService.sidecars, fileService.nextId, remote))
        && r == Ok(DriftCount(folder.files, remote))
    {
      remote := [];
      if folder == null {
        return Ok(-1), remote;
      }
      var listing;
      ghost var order;
      listing, order := fileService.ListFiles(token);
      if listing.Err? {
        return Err(listing.error), remote;
      }
      var remoteFiles := listing.value;
      remote := remoteFiles;
      var count := CountDrifted(folder.files, remoteFiles);
      r := Ok(count);
    }
  }
}
