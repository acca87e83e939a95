/** What carrying out the reconciled actions does, one action after the other, stopping at
    the first one that throws (SyncFolderAsync's two loops and DownloadFileAsync). */
module SyncRun {
  import opened Wrappers
  import opened Text
  import opened Paths
  import opened FileModel
  import opened LocalFs
  import opened RemoteStore
  import opened Reconciler

  /** The state a run touches: the local listing and the store's files, sidecars and id counter. */
  datatype World = World(local: seq<DiskFile>, blobs: map<string, Blob>, sidecars: map<string, FileMetadata>, nextId: nat)

  /** The fixed inputs of a run: the store's directory, the uploading user and the clock. */
  datatype Env = Env(dir: string, user: string, now: int)

  /** The outcome of a run so far: its world, progress messages, counters and the error
      that stopped it, if one did. */
  datatype Run = Run(world: World, log: seq<string>, uploaded: nat, downloaded: nat, failure: Option<Error>)

  const StartMessage: string := "Starting synchronization..."

  /** The last progress message, which is also the value SyncFolderAsync returns. */
  function Summary(uploaded: nat, downloaded: nat): string {
    "Synchronization complete. Uploaded: " + NatToString(uploaded) + ", Downloaded: " + NatToString(downloaded)
  }

  function CheckingMessage(name: string): string { "Checking " + name }

  /** The progress messages of a completed action. */
  function Messages(a: SyncAction): seq<string> {
    match a
    case UploadNew(f) => [CheckingMessage(f.name), "Uploaded new file: " + f.name]
    case UploadUpdate(f) => [CheckingMessage(f.name), "Updated file: " + f.name]
    case DownloadUpdate(f, rf) => [CheckingMessage(f.name), "Downloaded file: " + rf.name]
    case InSync(f) => [CheckingMessage(f.name)]
    case DownloadNew(rf) => ["Downloaded new file: " + rf.name]
  }

  /** The bytes GetFileStreamAsync returns for `path`, if a stored file is there. */
  function Fetch(dir: string, blobs: map<string, Blob>, path: string): Option<seq<Byte>> {
    if NameIn(dir, path).Some? && NameIn(dir, path).value in blobs
    then Some(blobs[NameIn(dir, path).value].content) else None
  }

  /** The world after UploadFileAsync of a local file. */
  function AfterUpload(env: Env, w: World, f: DiskFile): World {
    World(w.local,
          w.blobs[f.name := StoredCopy(f, env.now)],
          w.sidecars[f.name := UploadedRecord(env.dir, f, env.user, w.nextId, env.now)],
          w.nextId + 1)
  }

  /** The local listing after DownloadFileAsync wrote `content` under the record's name and set
      its modification time to the record's. */
  function AfterDownload(local: seq<DiskFile>, rf: FileMetadata, content: seq<Byte>, now: int): seq<DiskFile> {
    Touched(Written(local, rf.name, content, now), rf.name, rf.modifiedAt)
  }

  /** A download leaves exactly one file under the record's name, holding the fetched bytes
      and carrying the record's modification time, so that it no longer needs syncing
      against the record; every other file is as before. */
  lemma AfterDownloadFind(local: seq<DiskFile>, rf: FileMetadata, content: seq<Byte>, now: int, n: string)
    ensures FindFile(AfterDownload(local, rf, content, now), n)
         == if n != rf.name then FindFile(local, n)
            else Some(DiskFile(rf.name, content,
                   if FindFile(local, n).Some? then FindFile(local, n).value.createdAt else now, rf.modifiedAt))
    ensures n == rf.name ==> !NeedsSync(LocalRecord(FindFile(AfterDownload(local, rf, content, now), n).value), rf)
    ensures Names(AfterDownload(local, rf, content, now)) == Names(local) + {rf.name}
    ensures UniqueNames(local) ==> UniqueNames(AfterDownload(local, rf, content, now))
  {
    var written := Written(local, rf.name, content, now);
    WrittenFind(local, rf.name, content, now, n);
    WrittenFind(local, rf.name, content, now, rf.name);
    TouchedFind(written, rf.name, rf.modifiedAt, n);
    WrittenNames(local, rf.name, content, now);
    TouchedNames(written, rf.name, rf.modifiedAt);
  }

  /** One action. A download whose remote path holds no stored file throws NotFound after
      the action's check message. */
  function Step(env: Env, run: Run, a: SyncAction): Run
    requires run.failure.None?
  {
    var w := run.world;
    match a
    case UploadNew(f) =>
      Run(AfterUpload(env, w, f), run.log + Messages(a), run.uploaded + 1, run.downloaded, None)
    case UploadUpdate(f) =>
      Run(AfterUpload(env, w, f), run.log + Messages(a), run.uploaded + 1, run.downloaded, None)
    case InSync(f) =>
      run.(log := run.log + Messages(a))
    case DownloadUpdate(f, rf) =>
      (match Fetch(env.dir, w.blobs, rf.remotePath)
       case None => run.(log := run.log + [CheckingMessage(f.name)], failure := Some(NotFound))
       case Some(c) =>
         Run(w.(local := AfterDownload(w.local, rf, c, env.now)), run.log + Messages(a),
             run.uploaded, run.downloaded + 1, None))
    case DownloadNew(rf) =>
      match Fetch(env.dir, w.blobs, rf.remotePath)
      case None => run.(failure := Some(NotFound))
      case Some(c) =>
        Run(w.(local := AfterDownload(w.local, rf, c, env.now)), run.log + Messages(a),
            run.uploaded, run.downloaded + 1, None)
  }

  /** The actions applied in order from `w`, stopping at the first failure. */
  function RunActions(env: Env, w: World, acts: seq<SyncAction>): Run
    decreases |acts|
  {
    if acts == [] then Run(w, [], 0, 0, None)
    else
      var before := RunActions(env, w, acts[..|acts| - 1]);
      if before.failure.Some? then before else Step(env, before, acts[|acts| - 1])
  }

  lemma RunActionsSnoc(env: Env, w: World, acts: seq<SyncAction>, a: SyncAction)
    ensures RunActions(env, w, acts + [a])
         == var before := RunActions(env, w, acts);
            if before.failure.Some? then before else Step(env, before, a)
  {
    assert (acts + [a])[..|acts|] == acts;
  }

  /** An upload of a local file completes, counts one upload and stores the file. */
  lemma StepUpload(env: Env, run: Run, a: SyncAction)
    requires run.failure.None? && (a.UploadNew? || a.UploadUpdate?)
    ensures Step(env, run, a)
         == Run(AfterUpload(env, run.world, a.file), run.log + Messages(a), run.uploaded + 1, run.downloaded, None)
  {
  }

  /** A download of a shared file whose remote path holds a file completes and counts one
      download; one whose path holds none fails after the check message. */
  lemma StepDownloadUpdate(env: Env, run: Run, f: DiskFile, rf: FileMetadata)
    requires run.failure.None?
    ensures var a := DownloadUpdate(f, rf);
      match Fetch(env.dir, run.world.blobs, rf.remotePath)
      case None => Step(env, run, a) == run.(log := run.log + [CheckingMessage(f.name)], failure := Some(NotFound))
      case Some(c) =>
        Step(env, run, a)
        == Run(run.world.(local := AfterDownload(run.world.local, rf, c, env.now)), run.log + Messages(a),
               run.uploaded, run.downloaded + 1, None)
  {
  }

  /** A download of a remote-only record, as for a shared one but without a check message. */
  lemma StepDownloadNew(env: Env, run: Run, rf: FileMetadata)
    requires run.failure.None?
    ensures var a := DownloadNew(rf);
      match Fetch(env.dir, run.world.blobs, rf.remotePath)
      case None => Step(env, run, a) == run.(failure := Some(NotFound))
      case Some(c) =>
        Step(env, run, a)
        == Run(run.world.(local := AfterDownload(run.world.local, rf, c, env.now)), run.log + Messages(a),
               run.uploaded, run.downloaded + 1, None)
  {
  }

  /** A download of a remote-only record after `acts`, when its remote path holds a file. */
  lemma RunAfterDownloadNew(env: Env, w: World, acts: seq<SyncAction>, rf: FileMetadata)
    requires RunActions(env, w, acts).failure.None?
    requires Fetch(env.dir, RunActions(env, w, acts).world.blobs, rf.remotePath).Some?
    ensures var before := RunActions(env, w, acts);
      var content := Fetch(env.dir, before.world.blobs, rf.remotePath).value;
      RunActions(env, w, acts + [DownloadNew(rf)])
      == Run(before.world.(local := AfterDownload(before.world.local, rf, content, env.now)),
             before.log + ["Downloaded new file: " + rf.name], before.uploaded, before.downloaded + 1, None)
  {
    RunActionsSnoc(env, w, acts, DownloadNew(rf));
  }

  /** A download of a remote-only record after `acts`, when its remote path holds no file. */
  lemma RunAfterFailedDownload(env: Env, w: World, acts: seq<SyncAction>, rf: FileMetadata)
    requires RunActions(env, w, acts).failure.None?
    requires Fetch(env.dir, RunActions(env, w, acts).world.blobs, rf.remotePath).None?
    ensures RunActions(env, w, acts + [DownloadNew(rf)]) == RunActions(env, w, acts).(failure := Some(NotFound))
  {
    RunActionsSnoc(env, w, acts, DownloadNew(rf));
  }

  /** Once an action has failed, the later ones are not attempted. */
  lemma {:induction false} RunStopsAtFailure(env: Env, w: World, acts: seq<SyncAction>, k: nat)
    requires k <= |acts|
    requires RunActions(env, w, acts[..k]).failure.Some?
    ensures RunActions(env, w, acts) == RunActions(env, w, acts[..k])
    decreases |acts| - k
  {
    if k < |acts| {
      RunActionsSnoc(env, w, acts[..k], acts[k]);
      assert acts[..k] + [acts[k]] == acts[..k + 1];
      RunStopsAtFailure(env, w, acts, k + 1);
    } else {
      assert acts[..k] == acts;
    }
  }

  function CountUploads(acts: seq<SyncAction>): nat
    decreases |acts|
  {
    if acts == [] then 0 else CountUploads(acts[..|acts| - 1]) + (if acts[|acts| - 1].IsUpload() then 1 else 0)
  }

  function CountDownloads(acts: seq<SyncAction>): nat
    decreases |acts|
  {
    if acts == [] then 0 else CountDownloads(acts[..|acts| - 1]) + (if acts[|acts| - 1].IsDownload() then 1 else 0)
  }

  /** The progress messages of a run that completes every action. */
  function LogOf(acts: seq<SyncAction>): seq<string>
    decreases |acts|
  {
    if acts == [] then [] else LogOf(acts[..|acts| - 1]) + Messages(acts[|acts| - 1])
  }

  /** A run that did not fail performed every action: its counters are the numbers of
      upload and download actions and its messages are those of all actions in order. */
  lemma {:induction false} CompletedRunTotals(env: Env, w: World, acts: seq<SyncAction>)
    requires RunActions(env, w, acts).failure.None?
    ensures RunActions(env, w, acts).uploaded == CountUploads(acts)
    ensures RunActions(env, w, acts).downloaded == CountDownloads(acts)
    ensures RunActions(env, w, acts).log == LogOf(acts)
    decreases |acts|
  {
    if acts != [] {
      var init := acts[..|acts| - 1];
      var before := RunActions(env, w, init);
      assert before.failure.None?;
      CompletedRunTotals(env, w, init);
      StepTotals(env, before, acts[|acts| - 1]);
    }
  }

  lemma StepTotals(env: Env, run: Run, a: SyncAction)
    requires run.failure.None?
    requires Step(env, run, a).failure.None?
    ensures Step(env, run, a).uploaded == run.uploaded + (if a.IsUpload() then 1 else 0)
    ensures Step(env, run, a).downloaded == run.downloaded + (if a.IsDownload() then 1 else 0)
    ensures Step(env, run, a).log == run.log + Messages(a)
  {
  }

  /** The messages about checking a file, in order. */
  function Checks(log: seq<string>): seq<string>
    decreases |log|
  {
    if log == [] then []
    else Checks(log[..|log| - 1]) + (if IsCheck(log[|log| - 1]) then [log[|log| - 1]] else [])
  }

  predicate IsCheck(msg: string) {
    |msg| >= 9 && msg[..9] == "Checking "
  }

  lemma ChecksSingle(msg: string)
    ensures Checks([msg]) == if IsCheck(msg) then [msg] else []
  {
    assert [msg][..0] == [];
  }

  lemma {:induction false} ChecksAppend(a: seq<string>, b: seq<string>)
    ensures Checks(a + b) == Checks(a) + Checks(b)
    decreases |b|
  {
    if b == [] {
      assert a + b == a;
    } else {
      assert (a + b)[..|a + b| - 1] == a + b[..|b| - 1];
      ChecksAppend(a, b[..|b| - 1]);
    }
  }

  lemma CheckingIsCheck(name: string)
    ensures IsCheck(CheckingMessage(name))
  {
    assert CheckingMessage(name)[..9] == "Checking ";
  }

  lemma OtherIsNotCheck(prefix: string, name: string)
    requires |prefix| > 0 && prefix[0] != 'C'
    ensures !IsCheck(prefix + name)
  {
    if |prefix + name| >= 9 {
      assert (prefix + name)[..9][0] == prefix[0];
    }
  }

  lemma ChecksPair(x: string, y: string)
    ensures Checks([x, y]) == Checks([x]) + Checks([y])
  {
    assert [x, y] == [x] + [y];
    ChecksAppend([x], [y]);
  }

  lemma ChecksOfMessages(a: SyncAction)
    ensures Checks(Messages(a)) == if a.DownloadNew? then [] else [CheckingMessage(a.Name())]
  {
    match a
    case UploadNew(f) =>
      ChecksPair(CheckingMessage(f.name), "Uploaded new file: " + f.name);
      CheckingIsCheck(f.name); ChecksSingle(CheckingMessage(f.name));
      OtherIsNotCheck("Uploaded new file: ", f.name); ChecksSingle("Uploaded new file: " + f.name);
    case UploadUpdate(f) =>
      ChecksPair(CheckingMessage(f.name), "Updated file: " + f.name);
      CheckingIsCheck(f.name); ChecksSingle(CheckingMessage(f.name));
      OtherIsNotCheck("Updated file: ", f.name); ChecksSingle("Updated file: " + f.name);
    case DownloadUpdate(f, rf) =>
      ChecksPair(CheckingMessage(f.name), "Downloaded file: " + rf.name);
      CheckingIsCheck(f.name); ChecksSingle(CheckingMessage(f.name));
      OtherIsNotCheck("Downloaded file: ", rf.name); ChecksSingle("Downloaded file: " + rf.name);
    case InSync(f) =>
      CheckingIsCheck(f.name); ChecksSingle(CheckingMessage(f.name));
    case DownloadNew(rf) =>
      OtherIsNotCheck("Downloaded new file: ", rf.name); ChecksSingle("Downloaded new file: " + rf.name);
  }

  lemma {:induction false} ChecksOfLog(acts: seq<SyncAction>)
    ensures Checks(LogOf(acts)) == ChecksList(acts)
    decreases |acts|
  {
    if acts != [] {
      ChecksOfLog(acts[..|acts| - 1]);
      ChecksAppend(LogOf(acts[..|acts| - 1]), Messages(acts[|acts| - 1]));
      ChecksOfMessages(acts[|acts| - 1]);
    }
  }

  /** The check messages a list of actions produces: one per action that is not a
      remote-only download. */
  function ChecksList(acts: seq<SyncAction>): seq<string>
    decreases |acts|
  {
    if acts == [] then []
    else ChecksList(acts[..|acts| - 1])
         + (if acts[|acts| - 1].DownloadNew? then [] else [CheckingMessage(acts[|acts| - 1].Name())])
  }
  lemma {:induction false} ChecksListAppend(a: seq<SyncAction>, b: seq<SyncAction>)
    ensures ChecksList(a + b) == ChecksList(a) + ChecksList(b)
    decreases |b|
  {
    if b == [] {
      assert a + b == a;
    } else {
      assert (a + b)[..|a + b| - 1] == a + b[..|b| - 1];
      ChecksListAppend(a, b[..|b| - 1]);
    }
  }

  /** Actions that are all remote-only downloads produce no check message. */
  lemma {:induction false} ChecksListDownloadsOnly(acts: seq<SyncAction>)
    requires forall a :: a in acts ==> a.DownloadNew?
    ensures ChecksList(acts) == []
    decreases |acts|
  {
    if acts != [] {
      assert acts[|acts| - 1] in acts;
      ChecksListDownloadsOnly(acts[..|acts| - 1]);
    }
  }

  /** Actions with no remote-only download produce one check message each, in order. */
  lemma {:induction false} ChecksListNoDownloadNew(acts: seq<SyncAction>)
    requires forall i :: 0 <= i < |acts| ==> !acts[i].DownloadNew?
    ensures ChecksList(acts) == seq(|acts|, i requires 0 <= i < |acts| => CheckingMessage(acts[i].Name()))
    decreases |acts|
  {
    if acts != [] {
      var init := acts[..|acts| - 1];
      ChecksListNoDownloadNew(init);
      var want := seq(|acts|, i requires 0 <= i < |acts| => CheckingMessage(acts[i].Name()));
      assert want == seq(|init|, i requires 0 <= i < |init| => CheckingMessage(init[i].Name()))
                     + [CheckingMessage(acts[|acts| - 1].Name())];
    }
  }

  /** The progress of a run that completes reports "Checking <name>" once for every local
      file, in the directory's order, and for nothing else: remote-only downloads are
      reported without a check. */
  lemma ChecksOfReconcile(local: seq<DiskFile>, remote: seq<FileMetadata>)
    ensures Checks(LogOf(Reconcile(local, remote)))
         == seq(|local|, i requires 0 <= i < |local| => CheckingMessage(local[i].name))
  {
    ChecksBeforeDownloads(LocalPass(local, remote), Names(local), remote);
    LocalPassChecks(local, remote);
  }

  /** The local pass checks every local file once, in listing order. */
  lemma LocalPassChecks(local: seq<DiskFile>, remote: seq<FileMetadata>)
    ensures ChecksList(LocalPass(local, remote))
         == seq(|local|, i requires 0 <= i < |local| => CheckingMessage(local[i].name))
  {
    var lp := LocalPass(local, remote);
    ChecksListNoDownloadNew(lp);
    assert ChecksList(lp) == seq(|local|, i requires 0 <= i < |local| => CheckingMessage(local[i].name));
  }

  /** The remote-only downloads after `prefix` add no check message. */
  lemma ChecksBeforeDownloads(prefix: seq<SyncAction>, localNames: set<string>, remote: seq<FileMetadata>)
    ensures Checks(LogOf(prefix + RemotePass(localNames, remote))) == ChecksList(prefix)
  {
    var rp := RemotePass(localNames, remote);
    ChecksOfLog(prefix + rp);
    ChecksListAppend(prefix, rp);
    ChecksListDownloadsOnly(rp);
    assert ChecksList(prefix) + [] == ChecksList(prefix);
  }
}
