/** The decisions of a synchronisation run (SyncController) as functions of the two
    listings, and the effect of carrying them out. */
module Reconciler {
  import opened Wrappers
  import opened Text
  import opened Paths
  import opened FileModel
  import opened LocalFs
  import opened RemoteStore

  /** The distance between two instants. */
  function Drift(a: int, b: int): nat {
    if a >= b then a - b else b - a
  }

  /** NeedsSync: each time is compared with the other one plus a second, both ways. */
  function NeedsSync(local: FileMetadata, remote: FileMetadata): (r: bool)
    ensures r <==> Drift(local.modifiedAt, remote.modifiedAt) > TicksPerSecond
  {
    local.modifiedAt > remote.modifiedAt + TicksPerSecond
    || remote.modifiedAt > local.modifiedAt + TicksPerSecond
  }

  /** The tolerance rule does not depend on which side is called local. */
  lemma NeedsSyncSymmetric(a: FileMetadata, b: FileMetadata)
    ensures NeedsSync(a, b) == NeedsSync(b, a)
  {
  }

  /** What one synchronisation step does with one file. */
  datatype SyncAction =
    | UploadNew(file: DiskFile)                           // local only
    | UploadUpdate(file: DiskFile)                        // local newer by more than a second
    | DownloadUpdate(file: DiskFile, record: FileMetadata) // remote newer by more than a second
    | InSync(file: DiskFile)                              // within a second: only checked
    | DownloadNew(record: FileMetadata)                   // remote only
  {
    /** The file name the action is about. */
    function Name(): string {
      if DownloadNew? then record.name else file.name
    }

    predicate IsUpload() { UploadNew? || UploadUpdate? }

    predicate IsDownload() { DownloadUpdate? || DownloadNew? }
  }

  /** The first pass's decision for one local file (SyncFolderAsync's first loop). */
  function Decide(lf: DiskFile, remote: seq<FileMetadata>): (a: SyncAction)
    ensures a.Name() == lf.name && !a.DownloadNew?
  {
    match FindRecord(remote, lf.name)
    case None => UploadNew(lf)
    case Some(rf) =>
      if lf.modifiedAt > rf.modifiedAt + TicksPerSecond then UploadUpdate(lf)
      else if rf.modifiedAt > lf.modifiedAt + TicksPerSecond then DownloadUpdate(lf, rf)
      else InSync(lf)
  }

  /** The decision table for a name present on both sides: upload exactly when the local
      time is more than a second later, download exactly when the remote one is, never
      both, and only a check when the two agree within a second. */
  lemma DecideShared(lf: DiskFile, remote: seq<FileMetadata>)
    requires FindRecord(remote, lf.name).Some?
    ensures var rf := FindRecord(remote, lf.name).value;
      && (Decide(lf, remote).UploadUpdate? <==> lf.modifiedAt > rf.modifiedAt + TicksPerSecond)
      && (Decide(lf, remote).DownloadUpdate? <==> rf.modifiedAt > lf.modifiedAt + TicksPerSecond)
      && (Decide(lf, remote).InSync? <==> !NeedsSync(LocalRecord(lf), rf))
      && !Decide(lf, remote).UploadNew?
      && (Decide(lf, remote).DownloadUpdate? ==> Decide(lf, remote).record == rf)
  {
  }

  /** The first pass: one decision per local file, in listing order. */
  function LocalPass(local: seq<DiskFile>, remote: seq<FileMetadata>): (acts: seq<SyncAction>)
    ensures |acts| == |local|
    ensures forall i :: 0 <= i < |local| ==> acts[i] == Decide(local[i], remote)
  {
    seq(|local|, i requires 0 <= i < |local| => Decide(local[i], remote))
  }

  /** The second pass: a download of every remote record whose name is not a local name,
      in remote listing order. */
  function RemotePass(localNames: set<string>, remote: seq<FileMetadata>): (acts: seq<SyncAction>)
    ensures |acts| <= |remote|
    ensures forall a :: a in acts ==> a.DownloadNew? && a.record in remote && a.record.name !in localNames
    decreases |remote|
  {
    if remote == [] then []
    else
      var last := remote[|remote| - 1];
      RemotePass(localNames, remote[..|remote| - 1])
      + (if last.name in localNames then [] else [DownloadNew(last)])
  }

  /** Every remote-only record is downloaded by the second pass. */
  lemma {:induction false} RemotePassComplete(localNames: set<string>, remote: seq<FileMetadata>, rf: FileMetadata)
    requires rf in remote && rf.name !in localNames
    ensures DownloadNew(rf) in RemotePass(localNames, remote)
    decreases |remote|
  {
    var init := remote[..|remote| - 1];
    if rf != remote[|remote| - 1] {
      assert remote == init + [remote[|remote| - 1]];
      RemotePassComplete(localNames, init, rf);
    }
  }

  /** The second pass over two listings one after the other is the two passes in turn. */
  lemma {:induction false} RemotePassSplit(localNames: set<string>, a: seq<FileMetadata>, b: seq<FileMetadata>)
    ensures RemotePass(localNames, a + b) == RemotePass(localNames, a) + RemotePass(localNames, b)
    decreases |b|
  {
    if b == [] {
      assert a + b == a;
    } else {
      var init := b[..|b| - 1];
      assert (a + b)[..|a + b| - 1] == a + init;
      RemotePassSplit(localNames, a, init);
    }
  }

  /** With every remote name also local, the second pass does nothing. */
  lemma {:induction false} RemotePassNone(localNames: set<string>, remote: seq<FileMetadata>)
    requires RecordNames(remote) <= localNames
    ensures RemotePass(localNames, remote) == []
    decreases |remote|
  {
    if remote != [] {
      var init := remote[..|remote| - 1];
      assert RecordNames(init) <= RecordNames(remote) by {
        forall n | n in RecordNames(init) ensures n in RecordNames(remote) {
          var rf :| rf in init && rf.name == n;
          assert rf in remote;
        }
      }
      assert remote[|remote| - 1] in remote;
      RemotePassNone(localNames, init);
    }
  }

  /** The second pass keeps the remote listing's order. */
  lemma {:induction false} RemotePassOrder(localNames: set<string>, remote: seq<FileMetadata>, i: int, j: int)
    requires 0 <= i < j < |RemotePass(localNames, remote)|
    ensures exists a, b :: 0 <= a < b < |remote|
              && remote[a] == RemotePass(localNames, remote)[i].record
              && remote[b] == RemotePass(localNames, remote)[j].record
    decreases |remote|
  {
    var init := remote[..|remote| - 1];
    var last := remote[|remote| - 1];
    var before := RemotePass(localNames, init);
    var acts := RemotePass(localNames, remote);
    if j < |before| {
      RemotePassOrder(localNames, init, i, j);
      var a, b :| 0 <= a < b < |init| && init[a] == before[i].record && init[b] == before[j].record;
      assert remote[a] == init[a] && remote[b] == init[b];
    } else {
      assert acts[j] == DownloadNew(last) && acts[i] == before[i];
      assert before[i] in before;
      var a :| 0 <= a < |init| && init[a] == before[i].record;
      assert remote[a] == init[a] && remote[|remote| - 1] == last;
    }
  }

  /** The actions of a run: the local pass, then the remote-only downloads. */
  function Reconcile(local: seq<DiskFile>, remote: seq<FileMetadata>): seq<SyncAction> {
    LocalPass(local, remote) + RemotePass(Names(local), remote)
  }

  /** How many actions are about `name`. */
  function CountNamed(acts: seq<SyncAction>, name: string): nat {
    if acts == [] then 0
    else (if acts[0].Name() == name then 1 else 0) + CountNamed(acts[1..], name)
  }

  lemma {:induction false} CountNamedAppend(a: seq<SyncAction>, b: seq<SyncAction>, name: string)
    ensures CountNamed(a + b, name) == CountNamed(a, name) + CountNamed(b, name)
  {
    if a == [] {
      assert a + b == b;
    } else {
      assert (a + b)[1..] == a[1..] + b;
      CountNamedAppend(a[1..], b, name);
    }
  }

  lemma {:induction false} CountNamedAbsent(acts: seq<SyncAction>, name: string)
    requires forall a :: a in acts ==> a.Name() != name
    ensures CountNamed(acts, name) == 0
  {
    if acts != [] {
      assert acts[0] in acts;
      CountNamedAbsent(acts[1..], name);
    }
  }

  lemma {:induction false} CountNamedOnce(acts: seq<SyncAction>, k: int)
    requires 0 <= k < |acts|
    requires forall i :: 0 <= i < |acts| && i != k ==> acts[i].Name() != acts[k].Name()
    ensures CountNamed(acts, acts[k].Name()) == 1
  {
    var name := acts[k].Name();
    assert acts == acts[..k] + [acts[k]] + acts[k + 1..];
    CountNamedAppend(acts[..k] + [acts[k]], acts[k + 1..], name);
    CountNamedAppend(acts[..k], [acts[k]], name);
    forall a | a in acts[..k] ensures a.Name() != name {
      var i :| 0 <= i < k && acts[..k][i] == a;
    }
    forall a | a in acts[k + 1..] ensures a.Name() != name {
      var i :| 0 <= i < |acts| - k - 1 && acts[k + 1..][i] == a;
      assert acts[k + 1 + i] == a;
    }
    CountNamedAbsent(acts[..k], name);
    CountNamedAbsent(acts[k + 1..], name);
    assert CountNamed([acts[k]], name) == 1 + CountNamed([], name);
  }

  /** Within one listing, the position of the record is the only one with its name. */
  lemma RemotePassDistinct(localNames: set<string>, remote: seq<FileMetadata>, i: int, j: int)
    requires UniqueRecordNames(remote)
    requires 0 <= i < j < |RemotePass(localNames, remote)|
    ensures RemotePass(localNames, remote)[i].Name() != RemotePass(localNames, remote)[j].Name()
  {
    var acts := RemotePass(localNames, remote);
    RemotePassOrder(localNames, remote, i, j);
  }

  /** Two actions of the local pass are about two local files, whose names differ. */
  lemma LocalPassDistinct(local: seq<DiskFile>, remote: seq<FileMetadata>, i: int, j: int)
    requires UniqueNames(local)
    requires 0 <= i < j < |local|
    ensures Reconcile(local, remote)[i].Name() != Reconcile(local, remote)[j].Name()
  {
    ReconcileAt(local, remote, i);
    ReconcileAt(local, remote, j);
  }

  /** No remote-only download is about the name of a local file. */
  lemma PassesDistinct(local: seq<DiskFile>, remote: seq<FileMetadata>, i: int, j: int)
    requires 0 <= i < |local| <= j < |Reconcile(local, remote)|
    ensures Reconcile(local, remote)[i].Name() != Reconcile(local, remote)[j].Name()
  {
    ReconcileAt(local, remote, i);
    ReconcileAt(local, remote, j);
    var rp := RemotePass(Names(local), remote);
    assert rp[j - |local|] in rp;
    assert local[i] in local;
  }

  /** Two downloads of the remote pass are about two remote records, whose names differ. */
  lemma RemotePassesDistinct(local: seq<DiskFile>, remote: seq<FileMetadata>, i: int, j: int)
    requires UniqueRecordNames(remote)
    requires |local| <= i < j < |Reconcile(local, remote)|
    ensures Reconcile(local, remote)[i].Name() != Reconcile(local, remote)[j].Name()
  {
    AfterPrefixDistinct(LocalPass(local, remote), Names(local), remote, i, j);
  }

  lemma AfterPrefixDistinct(prefix: seq<SyncAction>, localNames: set<string>, remote: seq<FileMetadata>, i: int, j: int)
    requires UniqueRecordNames(remote)
    requires |prefix| <= i < j < |prefix + RemotePass(localNames, remote)|
    ensures (prefix + RemotePass(localNames, remote))[i].Name() != (prefix + RemotePass(localNames, remote))[j].Name()
  {
    var rp := RemotePass(localNames, remote);
    assert (prefix + rp)[i] == rp[i - |prefix|] && (prefix + rp)[j] == rp[j - |prefix|];
    RemotePassDistinct(localNames, remote, i - |prefix|, j - |prefix|);
  }

  /** Each name of either listing has exactly one action: local-only names an upload of the
      local file, remote-only names a download of the remote record, shared names the
      local pass's decision; no name gets two. */
  lemma ReconcileOneActionPerName(local: seq<DiskFile>, remote: seq<FileMetadata>, i: int, j: int)
    requires UniqueNames(local) && UniqueRecordNames(remote)
    requires 0 <= i < j < |Reconcile(local, remote)|
    ensures Reconcile(local, remote)[i].Name() != Reconcile(local, remote)[j].Name()
  {
    if j < |local| {
      LocalPassDistinct(local, remote, i, j);
    } else if i < |local| {
      PassesDistinct(local, remote, i, j);
    } else {
      RemotePassesDistinct(local, remote, i, j);
    }
  }

  /** Where an action of the whole plan comes from: the local pass, then the remote pass. */
  lemma ReconcileAt(local: seq<DiskFile>, remote: seq<FileMetadata>, k: int)
    requires 0 <= k < |Reconcile(local, remote)|
    ensures k < |local| ==> Reconcile(local, remote)[k] == LocalPass(local, remote)[k]
    ensures k >= |local| ==> k - |local| < |RemotePass(Names(local), remote)|
    ensures k >= |local| ==> Reconcile(local, remote)[k] == RemotePass(Names(local), remote)[k - |local|]
  {
  }

  /** A local file with no remote namesake is uploaded as a new file, exactly once. */
  lemma LocalOnlyUploadedOnce(local: seq<DiskFile>, remote: seq<FileMetadata>, k: int)
    requires UniqueNames(local) && UniqueRecordNames(remote)
    requires 0 <= k < |local| && local[k].name !in RecordNames(remote)
    ensures Reconcile(local, remote)[k] == UploadNew(local[k])
    ensures CountNamed(Reconcile(local, remote), local[k].name) == 1
  {
    var acts := Reconcile(local, remote);
    forall i | 0 <= i < |acts| && i != k ensures acts[i].Name() != acts[k].Name() {
      if i < k { ReconcileOneActionPerName(local, remote, i, k); }
      else { ReconcileOneActionPerName(local, remote, k, i); }
    }
    CountNamedOnce(acts, k);
  }

  /** A remote record with no local namesake is downloaded as a new file, exactly once,
      after every action of the local pass. */
  lemma RemoteOnlyDownloadedOnce(local: seq<DiskFile>, remote: seq<FileMetadata>, rf: FileMetadata)
    requires UniqueNames(local) && UniqueRecordNames(remote)
    requires rf in remote && rf.name !in Names(local)
    ensures exists k :: |local| <= k < |Reconcile(local, remote)| && Reconcile(local, remote)[k] == DownloadNew(rf)
    ensures CountNamed(Reconcile(local, remote), rf.name) == 1
  {
    var lp := LocalPass(local, remote);
    var rp := RemotePass(Names(local), remote);
    var acts := Reconcile(local, remote);
    RemotePassComplete(Names(local), remote, rf);
    var m :| 0 <= m < |rp| && rp[m] == DownloadNew(rf);
    var k := |lp| + m;
    assert acts[k] == DownloadNew(rf);
    forall i | 0 <= i < |acts| && i != k ensures acts[i].Name() != acts[k].Name() {
      if i < k { ReconcileOneActionPerName(local, remote, i, k); }
      else { ReconcileOneActionPerName(local, remote, k, i); }
    }
    CountNamedOnce(acts, k);
  }

  /** GetSyncStatus's count: the local files that have a remote namesake (the first one
      listed) more than a second away. */
  function DriftCount(local: seq<DiskFile>, remote: seq<FileMetadata>): (n: int)
    ensures 0 <= n <= |local|
    decreases |local|
  {
    if local == [] then 0
    else
      var lf := local[|local| - 1];
      DriftCount(local[..|local| - 1], remote)
      + (match FindRecord(remote, lf.name)
         case Some(rf) => if Drift(lf.modifiedAt, rf.modifiedAt) > TicksPerSecond then 1 else 0
         case None => 0)
  }

  /** How many actions transfer a file whose name is on both sides. */
  function SharedTransfers(acts: seq<SyncAction>): nat
    decreases |acts|
  {
    if acts == [] then 0
    else SharedTransfers(acts[..|acts| - 1])
         + (if acts[|acts| - 1].UploadUpdate? || acts[|acts| - 1].DownloadUpdate? then 1 else 0)
  }

  /** The status count is the number of shared names the synchronisation would transfer. */
  lemma {:induction false} DriftCountIsSharedTransfers(local: seq<DiskFile>, remote: seq<FileMetadata>)
    ensures DriftCount(local, remote) == SharedTransfers(LocalPass(local, remote))
    decreases |local|
  {
    if local != [] {
      var init := local[..|local| - 1];
      var lf := local[|local| - 1];
      assert LocalPass(local, remote)[..|local| - 1] == LocalPass(init, remote);
      DriftCountIsSharedTransfers(init, remote);
      match FindRecord(remote, lf.name) {
        case None =>
        case Some(rf) => DecideShared(lf, remote);
      }
    }
  }

  /** A local file without a remote namesake never adds to the status count. */
  lemma LocalOnlyNotCounted(local: seq<DiskFile>, lf: DiskFile, remote: seq<FileMetadata>)
    requires lf.name !in RecordNames(remote)
    ensures DriftCount(local + [lf], remote) == DriftCount(local, remote)
  {
    assert (local + [lf])[..|local|] == local;
  }

  /** A remote record without a local namesake never changes the status count. */
  lemma {:induction false} RemoteOnlyNotCounted(local: seq<DiskFile>, remote: seq<FileMetadata>, rf: FileMetadata)
    requires rf.name !in Names(local)
    ensures DriftCount(local, remote + [rf]) == DriftCount(local, remote)
    decreases |local|
  {
    if local != [] {
      var init := local[..|local| - 1];
      var lf := local[|local| - 1];
      assert lf in local;
      assert Names(init) <= Names(local) by {
        forall n | n in Names(init) ensures n in Names(local) {
          var g :| g in init && g.name == n;
          assert g in local;
        }
      }
      RemoteOnlyNotCounted(init, remote, rf);
      FindRecordAppend(remote, rf, lf.name);
    }
  }

  /** Appending a record changes no lookup of a different name. */
  lemma {:induction false} FindRecordAppend(remote: seq<FileMetadata>, rf: FileMetadata, name: string)
    requires name != rf.name
    ensures FindRecord(remote + [rf], name) == FindRecord(remote, name)
  {
    if remote == [] {
      assert [rf][1..] == [];
    } else {
      assert (remote + [rf])[1..] == remote[1..] + [rf];
      FindRecordAppend(remote[1..], rf, name);
    }
  }
}
