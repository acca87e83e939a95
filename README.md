# Remote Drive client: folder synchronisation, mock store and file view

This project models the core of a small Windows client for a remote file store, and
proves properties of that model. The model has three parts.

- **The synchronisation controller** (`SyncController`).
  - It lists a local folder and the store.
  - It decides per name whether to upload, download or leave a file alone. It uses a
    tolerance of one second on modification times.
  - It carries the actions out in two passes: the local files in directory order, then the
    remote-only records in listing order.
  - It counts the transfers and raises progress messages. It also reports how many shared
    files have drifted apart.
- **The mock remote store** (`MockFileService`). It is a token table plus a storage
  directory of data files and their `.meta.json` sidecar records. It offers
  authentication, a listing sorted by name, download, upload, delete, metadata lookup and
  an existence check. Every call except authentication is gated by the token.
- **The logic of the main window**:
  - the ".js & .png only" filter;
  - the stable sort by extension, whose direction a button flips;
  - the 50,000-character cut of a Kotlin preview;
  - the choice of preview by lower-cased extension.

Time is a count of 100 ns ticks, so "one second" is `TicksPerSecond = 10_000_000`. File
contents are byte sequences. The local directory is `LocalFs.LocalFolder`, and a path that
names no directory is `null`. Exceptions become `Err` values of `Wrappers.Error`:

| exception | `Error` value |
|---|---|
| `UnauthorizedAccessException` | `Unauthorized` |
| `FileNotFoundException` | `NotFound` |
| `ArgumentException` | `InvalidArgument` |
| `DirectoryNotFoundException` | `DirectoryNotFound` |
| the duplicate-key exception of `ToDictionary` | `DuplicateKey` |

## Layout

| file | module | what it holds |
|---|---|---|
| `wrappers.dfy` | `Wrappers` | `Option`, `Result`, `Error` |
| `text.dfy` | `Text` | white space, ASCII lower-casing, decimal text of counts |
| `paths.dfy` | `Paths` | `Path.Combine`, the name a path gives inside a directory, `Path.GetExtension` |
| `ordering.dfy` | `Ordering` | stable sort by a string key under a collation that is a total preorder |
| `file_model.dfy` | `FileModel` | the `FileMetadata` record, files on disk, stored blobs, lookups by name |
| `local_fs.dfy` | `LocalFs` | the local folder as a class, and what writing a file and setting its time do |
| `remote_store.dfy` | `RemoteStore` | the store as a class, with `ListingOutcome` describing what a listing returns |
| `reconcile.dfy` | `Reconciler` | the tolerance rule, the decision table, the two passes and the drift count |
| `sync_run.dfy` | `SyncRun` | a run as a function: actions applied in order, stopping at the first failure |
| `convergence.dfy` | `Convergence` | see below |
| `sync_controller.dfy` | `Controller` | the controller class, whose loops are proved against `SyncRun` |
| `main_form.dfy` | `MainFormLogic` | the filter, sort, toggle, preview cut and preview choice |

`Convergence` proves that a run leaves the folder and the store in agreement, so that a
second run changes nothing.

The controller's methods are proved against the specification functions.
- `SyncFolder`'s new folder, new store state, progress messages and result are those of
  `SyncRun.RunActions` applied to `Reconciler.Reconcile` of the two listings.
- The properties of the algorithm are lemmas about those functions:
  - one action per name;
  - uploads and downloads as the tolerance rule decides;
  - remote-only downloads after the local pass, in listing order;
  - one "Checking" message per local file;
  - counters equal to the numbers of transfers;
  - convergence.

## Model

| member | source | states |
|---|---|---|
| FileModel.FindFile | Controllers/SyncController.cs:72 | a lookup by name in a listing finds a file exactly when a file of that name is listed, and what it finds is listed under that name |
| FileModel.FindFileUnique | Controllers/SyncController.cs:72 | in a directory listing (names unique) looking a file's name up gives back that very file |
| FileModel.FindRecord | Controllers/SyncController.cs:147 | `FirstOrDefault` by name: a record exactly when the name is listed, and the record found is the first listed with that name |
| FileModel.LocalRecord | Controllers/SyncController.cs:34-41 | the record of a local file: its name, `Path.GetExtension` of it, its length, its creation and last-write times, and default values elsewhere |
| Text.Lower | Forms/MainForm.cs:276 | lower-casing keeps the length and lowers each character |
| Text.NatToString | Controllers/SyncController.cs:113 | the text of a count is a non-empty string of digits without a leading zero |
| Text.NatToStringRoundTrip | Controllers/SyncController.cs:113 | reading the digits of the summary's count back gives the count |
| Text.NatToStringInjective | Controllers/SyncController.cs:113 | different counts give different texts, so the summary determines both counters |
| Paths.NameIn | Services/MockFileService.cs:60 | a path resolved to a stored name is that name combined with the storage directory |
| Paths.NameInCombine | Services/MockFileService.cs:67 | combining a name with the storage directory and resolving the path gives the name back |
| Paths.ExtensionOf | Controllers/SyncController.cs:37 | `Path.GetExtension`: empty exactly when no dot of the last segment starts an extension, otherwise the suffix from the last such dot |
| Ordering.SortBy | Services/MockFileService.cs:54 | the sorted list is a permutation of its input |
| Ordering.SortBySorted | Services/MockFileService.cs:54 | under a total preorder the result is ordered by the key |
| Ordering.SortByStable | Forms/MainForm.cs:174-175 | elements with keys the collation ties keep their relative order |
| Ordering.FlipTotalPreorder | Forms/MainForm.cs:175 | the collation read backwards, which `OrderByDescending` uses, is again a total preorder |
| LocalFs.WrittenNames | Controllers/SyncController.cs:122-125 | writing a file adds its name to the folder and keeps the names unique |
| LocalFs.WrittenFind | Controllers/SyncController.cs:122-125 | after the write the named file holds the new bytes, keeps an existing file's creation time, and no other file changes |
| LocalFs.TouchedNames | Controllers/SyncController.cs:131 | setting a modification time keeps the names and their uniqueness |
| LocalFs.TouchedFind | Controllers/SyncController.cs:129-132 | setting the time of an existing file changes that time only, and a missing name changes nothing |
| LocalFs.LocalFolder.WriteFile | Controllers/SyncController.cs:122-125 | the folder becomes the listing with the file created or overwritten |
| LocalFs.LocalFolder.SetLastWriteTimeUtc | Controllers/SyncController.cs:131 | the folder becomes the listing with the file's time set |
| RemoteStore.SynthesizedRecord | Services/MockFileService.cs:39-50 | a file without a sidecar is described by its own name, extension, size and times, uploaded and edited by the token's user, at its stored path |
| RemoteStore.UploadedRecord | Services/MockFileService.cs:69-81 | the uploaded record has the source's name and size, the uploader as uploader and editor, and the destination path |
| RemoteStore.ListedByName | Services/MockFileService.cs:37 | testing the full stored path for the `.meta.json` suffix is testing the file name for it |
| RemoteStore.MockFileService.constructor | Services/MockFileService.cs:16-21 | the store opens on its directory with no token issued |
| RemoteStore.MockFileService.AuthorizedIffIssued | Services/MockFileService.cs:151-155 | a token passes the check exactly when it was issued, because issued tokens are never blank |
| RemoteStore.MockFileService.Authenticate | Services/MockFileService.cs:23-29 | an empty user name is refused and nothing changes; otherwise a fresh non-blank token is mapped to the user, any password is accepted, and no other entry changes |
| RemoteStore.MockFileService.ListFiles | Services/MockFileService.cs:31-55 | a bad token is refused with nothing changed. Otherwise the listing holds every stored file except sidecars: its sidecar record, or a synthesized record (fresh id, token's user) that is then saved as its sidecar. Old sidecars are kept, and the listing is sorted by name |
| RemoteStore.MockFileService.CollectRecords | Services/MockFileService.cs:35-53 | the enumeration visits every stored file except sidecars exactly once; the records it collects are, in enumeration order, the sidecars after the visit; found sidecars are kept and each file without one gets a synthesized sidecar with a fresh id |
| RemoteStore.MockFileService.RecordFor | Services/MockFileService.cs:39-52 | a file's existing sidecar is reported unchanged without using an id; otherwise a record synthesized from the file takes the next id; either way the record is saved as the file's sidecar |
| RemoteStore.CollectedStep | Services/MockFileService.cs:35-53 | visiting one more file keeps the enumeration free of repeats, keeps the sidecars it found, keeps fresh ids for the ones it synthesized, and keeps the list aligned with the visiting order |
| RemoteStore.SynthesizedKeepConsistent | Services/MockFileService.cs:39-51 | saving synthesized sidecars next to consistent ones keeps every sidecar named after its file and pointing at it |
| RemoteStore.MockFileService.GetFileStream | Services/MockFileService.cs:57-62 | bad token is refused, a path with no stored file is not found, otherwise the stored bytes |
| RemoteStore.MockFileService.UploadFile | Services/MockFileService.cs:64-84 | bad token is refused with nothing changed; otherwise the file is stored under its own name, replacing any file there, and the returned record becomes its sidecar |
| RemoteStore.MockFileService.DeleteFile | Services/MockFileService.cs:86-94 | bad token is refused; `false` and nothing changed for a missing path; otherwise `true` with the file and its sidecar removed |
| RemoteStore.MockFileService.GetFileMetadata | Services/MockFileService.cs:97-121 | bad token is refused, a missing path is not found, otherwise the sidecar record or a synthesized one (not saved) |
| RemoteStore.MockFileService.FileExists | Services/MockFileService.cs:123-127 | bad token is refused, otherwise whether a file is stored at the path, with no change of state |
| Reconciler.NeedsSync | Controllers/SyncController.cs:54-60 | holds exactly when the two modification times are more than one second apart |
| Reconciler.NeedsSyncSymmetric | Controllers/SyncController.cs:54-60 | the rule does not depend on which side is called local |
| Reconciler.Decide | Controllers/SyncController.cs:76-100 | the decision for a local file is about that file's name and is never a remote-only download |
| Reconciler.DecideShared | Controllers/SyncController.cs:85-100 | for a shared name: upload exactly when local is newer by more than a second, download exactly when remote is, never both, otherwise no transfer |
| Reconciler.LocalPass | Controllers/SyncController.cs:76-101 | one decision per local file, in directory order |
| Reconciler.RemotePass | Controllers/SyncController.cs:103-111 | only downloads of listed records whose name is not local |
| Reconciler.RemotePassComplete | Controllers/SyncController.cs:103-111 | every listed record with no local namesake is downloaded |
| Reconciler.RemotePassSplit | Controllers/SyncController.cs:103-111 | the second pass over two listings in turn is the two passes in turn |
| Reconciler.RemotePassNone | Controllers/SyncController.cs:103-111 | when every listed name is local, the second pass does nothing |
| Reconciler.RemotePassOrder | Controllers/SyncController.cs:103-111 | remote-only downloads keep the listing's order |
| Reconciler.RemotePassDistinct | Controllers/SyncController.cs:103-111 | with unique listed names no record is downloaded twice |
| Reconciler.ReconcileAt | Controllers/SyncController.cs:76-111 | the actions of a run are the first loop's decisions, one per local file in order, followed by the second loop's downloads |
| Reconciler.PassesDistinct | Controllers/SyncController.cs:105 | no remote-only download is about the name of a local file |
| Reconciler.ReconcileOneActionPerName | Controllers/SyncController.cs:76-111 | with unique names on each side, no two actions of a run are about the same name |
| Reconciler.LocalOnlyUploadedOnce | Controllers/SyncController.cs:76-84 | a local-only file is uploaded as new, at its place in the first pass, and no other action names it |
| Reconciler.RemoteOnlyDownloadedOnce | Controllers/SyncController.cs:103-111 | a remote-only record is downloaded after the whole local pass, and no other action names it |
| Reconciler.DriftCount | Controllers/SyncController.cs:143-157 | the status count lies between 0 and the number of local files |
| Reconciler.DriftCountIsSharedTransfers | Controllers/SyncController.cs:143-157 | the status count is the number of shared names that a run would transfer |
| Reconciler.LocalOnlyNotCounted | Controllers/SyncController.cs:147-148 | a local file without a remote namesake never adds to the count |
| Reconciler.RemoteOnlyNotCounted | Controllers/SyncController.cs:145-155 | a remote record without a local namesake never changes the count |
| SyncRun.AfterDownloadFind | Controllers/SyncController.cs:119-133 | after a download the file holds the fetched bytes with the record's modification time, so the tolerance rule no longer fires for it; no other file changes; names stay unique |
| SyncRun.RunAfterFailedDownload | Controllers/SyncController.cs:121 | a download whose remote path holds no stored file stops the run with not-found and changes nothing |
| SyncRun.RunStopsAtFailure | Controllers/SyncController.cs:62-116 | once an action has failed, no later action is attempted |
| SyncRun.StepUpload | Controllers/SyncController.cs:79-93 | an upload always completes: it stores the file, adds one upload and reports its check and its upload message |
| SyncRun.StepDownloadUpdate | Controllers/SyncController.cs:94-99 | a download of a shared file whose path holds a stored file writes it locally and adds one download; otherwise the run fails with not-found after the check message |
| SyncRun.StepDownloadNew | Controllers/SyncController.cs:105-109 | a remote-only download whose path holds a stored file writes it and adds one download; otherwise the run fails with not-found and reports nothing |
| SyncRun.CompletedRunTotals | Controllers/SyncController.cs:74-115 | in a run that completes, the counters are the numbers of upload and download actions, and the messages are those of every action in order |
| SyncRun.StepTotals | Controllers/SyncController.cs:76-110 | one completed action adds one to the matching counter and its own messages to the log |
| SyncRun.ChecksOfMessages | Controllers/SyncController.cs:78-109 | each local-file action raises exactly one "Checking" message, and it comes first; a remote-only download raises none |
| SyncRun.ChecksOfLog | Controllers/SyncController.cs:76-111 | the "Checking" messages of a run's log are those of its actions, in order |
| SyncRun.ChecksOfReconcile | Controllers/SyncController.cs:78 | a completed run reports "Checking <name>" once for every local file, in directory order, transferred or not, and for nothing else |
| SyncRun.ChecksBeforeDownloads | Controllers/SyncController.cs:103-111 | the second loop adds no "Checking" message to those of the first |
| SyncRun.LocalPassChecks | Controllers/SyncController.cs:76-78 | the first loop checks every local file once, in directory order |
| Convergence.UploadAgrees | Services/MockFileService.cs:64-84 | after an upload the folder and the store agree on that name and nothing else changes |
| Convergence.DownloadAgrees | Controllers/SyncController.cs:119-133 | a listed record's path holds its stored bytes; after the download the two sides agree on that name and nothing else changes |
| Convergence.StoreListingIsListing | Services/MockFileService.cs:31-55 | what a listing of a store with consistent sidecars returns has unique names, and each listed file appears with its sidecar |
| Convergence.ProjectNamesUnique | Services/MockFileService.cs:35-52 | the records of a directory enumeration, read through consistent sidecars, have unique names |
| Convergence.PermutationKeepsUniqueNames | Services/MockFileService.cs:54 | sorting the records by name does not make two of them share a name |
| Convergence.RunConverges | Controllers/SyncController.cs:62-116 | a run from a consistent store and its listing completes without error. Afterwards the local names are the listed names, and every such file has a modification time within a second of its record's. Names stay unique and sidecars consistent |
| Convergence.AgreementOnlyChecks | Controllers/SyncController.cs:76-111 | when the two sides agree, every action of a run is a check without transfer |
| Convergence.ChecksChangeNothing | Controllers/SyncController.cs:76-101 | checks alone change nothing and count nothing |
| Convergence.SecondRunIsQuiet | Controllers/SyncController.cs:62-116 | a second run right after a completed one, over any listing of the store, fails nowhere, changes nothing and counts 0 uploads and 0 downloads |
| Controller.ReadyRunConverges | Controllers/SyncController.cs:62-116 | a run started from a consistent store and a folder without sidecar-named files completes and leaves the two sides in agreement |
| Controller.SyncController.constructor | Controllers/SyncController.cs:19-24 | the controller keeps the store, token and user, and has raised no message |
| Controller.SyncController.OnProgress | Controllers/SyncController.cs:160-163 | the message is appended to the raised messages |
| Controller.SyncController.GetLocalFiles | Controllers/SyncController.cs:27-45 | a missing folder gives directory-not-found; otherwise record i is the record of file i (name, extension, size, creation and modification time), and names are unique |
| Controller.SyncController.GetRemoteFiles | Controllers/SyncController.cs:48-51 | the store's listing for the controller's token, or the token's refusal with nothing changed |
| Controller.SyncController.DownloadFile | Controllers/SyncController.cs:119-133 | a refused token or a path with no stored file changes nothing; otherwise the folder is the listing after writing the bytes and setting the record's time |
| Controller.SyncController.SyncFolder | Controllers/SyncController.cs:62-116 | the whole run (listed below this table) |
| Controller.SyncController.SyncLocalFiles | Controllers/SyncController.cs:76-101 | the first loop ends in the state, messages, counters and error of the first pass of the run |
| Controller.SyncController.SyncLocalFile | Controllers/SyncController.cs:77-100 | one turn of the first loop ends in the state, messages, counters and error of one more step of the run |
| Controller.SyncController.UploadLocal | Controllers/SyncController.cs:81-83 | the upload branch of a turn stores the file and reports it, as one upload step of the run |
| Controller.SyncController.SyncRemoteFiles | Controllers/SyncController.cs:103-111 | the second loop ends in the state, messages, download counter and error of the whole run |
| Controller.SyncController.SyncRemoteFile | Controllers/SyncController.cs:105-110 | one remote-only download ends in the state, messages, download counter and error of one more step of the run |
| Controller.SyncController.GetSyncStatus | Controllers/SyncController.cs:136-158 | -1 for a missing folder, before any listing; a refused token, with the store unchanged; otherwise the drift count of the folder against the listing |
| Controller.CountDrifted | Controllers/SyncController.cs:143-157 | the loop counts exactly the drift count: the local files whose remote namesake's time is more than a second away |
| MainFormLogic.JsPngOnlyContents | Forms/MainForm.cs:170-172 | the filter keeps every `.js` and `.png` record (compared case-sensitively) as often as it is listed, and nothing else |
| MainFormLogic.JsPngOnlyAppend | Forms/MainForm.cs:170-172 | the filter keeps the listed order: filtering a concatenation filters each part |
| MainFormLogic.Filtered | Forms/MainForm.cs:170-172 | filter index 1 applies the `.js`/`.png` filter; any other index keeps every record |
| MainFormLogic.DisplayedIsSortedView | Forms/MainForm.cs:168-175 | the grid shows a permutation of the filtered records, ordered by extension: ascending when the flag is set, descending otherwise |
| MainFormLogic.TiedWithFlip | Forms/MainForm.cs:175 | the reversed collation ties the same extensions as the collation |
| MainFormLogic.DisplayedIsStable | Forms/MainForm.cs:174-175 | in both directions, records with tied extensions keep their order from the filtered listing |
| MainFormLogic.TruncatePreview | Forms/MainForm.cs:321-324 | content of at most 50,000 characters is shown as is; longer content shows its first 50,000 characters followed by the notice |
| MainFormLogic.TruncatePreviewBounds | Forms/MainForm.cs:321-324 | the preview is never longer than the limit plus the notice, and begins with the content up to the limit |
| MainFormLogic.LowerIsSpelledAs | Forms/MainForm.cs:276 | lowering gives a lower-case word exactly when the text spells it with any letters in upper case |
| MainFormLogic.PreviewKindOfSpelling | Forms/MainForm.cs:276-299 | Kotlin preview exactly for `.kt` in any case, picture exactly for `.jpg`/`.jpeg` in any case, refusal for everything else |
| MainFormLogic.MainForm.constructor | Forms/MainForm.cs:27-39 | the window starts with the "All" filter and the ascending sort, then loads: the files become the store's listing and the grid shows their filtered, sorted view; a refused token leaves the window empty and the store unchanged |
| MainFormLogic.MainForm.ApplyFilterAndSort | Forms/MainForm.cs:168-188 | the grid is bound to the filtered, sorted records |
| MainFormLogic.MainForm.ClickSortByExtension | Forms/MainForm.cs:87 | the button flips the direction and re-sorts, so two clicks restore the direction and the grid |
| MainFormLogic.MainForm.SelectFilter | Forms/MainForm.cs:93 | a new filter choice is stored and the grid re-bound |
| MainFormLogic.MainForm.LoadFiles | Forms/MainForm.cs:155-166 | with a good token the records are the store's listing and the grid shows them; a refused token leaves the records and the grid as they were |
| MainFormLogic.MainForm.OpenPreview | Forms/MainForm.cs:271-324 | other extensions are refused without asking the store, whatever the token; Kotlin text is fetched and cut to the preview limit; pictures are fetched; store errors pass through |

What `SyncFolder` promises:

- A missing folder gives directory-not-found before any message or listing.
- A refused token leaves only the start message.
- A listing that repeats a name gives the duplicate-key error after the start message.
- Otherwise:
  - the folder, the store and the messages are those of the run of the reconciled actions;
  - a failed action leaves its error and the state at that point;
  - a completed run raises and returns `Synchronization complete. Uploaded: u, Downloaded: d`.
- From a store with consistent sidecars and a folder without sidecar-named files, the run
  completes and leaves both sides in agreement.

## Left out

- File-system and stream I/O are not modelled. Their effect on the folder listing and on the
  stored files is modelled as values.
- JSON reading and writing of sidecars is left out. A sidecar is modelled as the record it
  holds. A sidecar that does not parse, which `LoadMeta` treats as absent, is not modelled.
- `Guid.NewGuid()` is not modelled:
  - record ids are a counter that only grows, so they are fresh;
  - a token is any non-blank string not already issued.
- `async`/`await`, the `ProgressChanged` event and its marshalling to the window are not
  modelled. Progress is a sequence the controller appends to. Overlapping runs are out of
  scope.
- The clock is the parameter `now`, with one value per run.
- `File.Copy` is taken to keep the source's last-write time.
- Culture-sensitive ordering, used for `OrderBy` on names and extensions, is abstracted as
  any total preorder. Ties are allowed.
- `ToLower` is modelled on ASCII letters only.
- Text lengths count Unicode scalar values, not UTF-16 code units. So
  `MainFormLogic.TruncatePreview` does not model cutting a surrogate pair in two.
- Paths are `directory + '\' + name`.
  - A path outside the storage directory, or one into a subdirectory, addresses no stored
    file.
  - A path to a sidecar file itself addresses no stored file.
- A local file whose name ends in `.meta.json` is not modelled. The store would place it
  where the sidecar of another file lives. The convergence lemmas require a folder with no
  such file (`Controller.NoSidecarNames`).
- `MainFormLogic.MainForm.OpenPreview` does not model these:
  - the text decoding of the fetched bytes, which is a parameter;
  - image decoding;
  - the prompt for images larger than 2000 pixels;
  - the window title.
- `FormatFileSize` is left out, because it uses floating point.
- The local-time display of dates is left out.
- Column visibility, dialogs, message boxes and the login window are left out.
- Names are compared ordinally everywhere, as `ToDictionary` and `FirstOrDefault` compare
  them. Two names that differ only in case are two distinct files, both in the folder and
  in the store. On a file system that ignores case they are one physical file, which the
  model does not capture: an upload of `Notes.TXT` over a stored `notes.txt` followed by a
  download of `notes.txt` would write the same file twice. The convergence lemmas
  (`Convergence.RunConverges`, `Controller.ReadyRunConverges`) hold only for a file system
  that distinguishes case.
- `Text.EndsWith` compares ordinally. The source's `EndsWith(".meta.json")` uses the current
  culture, which ignores some code points such as a trailing soft hyphen (U+00AD). Such a
  name is classified as a sidecar by the source but not by the model.
- `Reconciler.NeedsSync` works on unbounded ticks. The source's `AddSeconds(1)` and
  `AddSeconds(-1)` throw `ArgumentOutOfRangeException` for a time within a second of
  `DateTime.MaxValue` or `DateTime.MinValue`, which aborts the run. The `DateTime` tick range
  is not modelled, and neither is that exception.
- A remote name that occurs twice in the listing makes `ToDictionary` throw. The model
  returns `DuplicateKey` after the start message and the listing. Local names cannot repeat,
  because they come from one directory.
- Every local file raises "Checking <name>", including a file within the one-second
  tolerance that is not transferred.
