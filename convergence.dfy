/** A completed run leaves the folder and the store in agreement, so that a second run over
    a fresh listing only checks files: synchronisation converges after one run. */
module Convergence {
  import opened Wrappers
  import opened Text
  import opened Paths
  import opened FileModel
  import opened LocalFs
  import opened Ordering
  import opened RemoteStore
  import opened Reconciler
  import opened SyncRun

  /** `remote` is a listing of the store in `w`: a sidecar per listed stored file, each
      listed file once. */
  ghost predicate ListingOf(dir: string, w: World, remote: seq<FileMetadata>) {
    && UniqueRecordNames(remote)
    && (forall rf :: rf in remote ==>
          rf.name in ListedNames(dir, w.blobs) && rf.name in w.sidecars && w.sidecars[rf.name] == rf)
    && (forall n :: n in ListedNames(dir, w.blobs) ==> n in RecordNames(remote))
  }

  /** The starting point the convergence property needs: a folder, a consistent store, a
      listing of it, and no local file whose name a listing would take for a sidecar. */
  ghost predicate Ready(dir: string, w: World, remote: seq<FileMetadata>) {
    && UniqueNames(w.local)
    && (forall f :: f in w.local ==> !EndsWith(f.name, MetaSuffix))
    && ConsistentSidecars(dir, w.sidecars)
    && ListingOf(dir, w, remote)
  }

  /** The folder and the store agree on `n`: a local file, a listed stored file and its
      sidecar, within a second of each other. */
  ghost predicate AgreeOn(dir: string, w: World, n: string) {
    && FindFile(w.local, n).Some?
    && n in ListedNames(dir, w.blobs)
    && n in w.sidecars
    && !NeedsSync(LocalRecord(FindFile(w.local, n).value), w.sidecars[n])
  }

  /** The folder and the store agree on every name: the local names are the listed names. */
  ghost predicate InAgreement(dir: string, w: World) {
    && (forall n :: n in Names(w.local) <==> n in ListedNames(dir, w.blobs))
    && (forall n :: n in Names(w.local) ==> AgreeOn(dir, w, n))
  }

  /** The two worlds look the same at name `n`. */
  ghost predicate SameAt(w: World, v: World, n: string) {
    && FindFile(w.local, n) == FindFile(v.local, n)
    && (n in w.blobs <==> n in v.blobs)
    && (n in w.blobs ==> w.blobs[n] == v.blobs[n])
    && (n in w.sidecars <==> n in v.sidecars)
    && (n in w.sidecars ==> w.sidecars[n] == v.sidecars[n])
  }

  lemma SameAtTransitive(u: World, v: World, w: World, n: string)
    requires SameAt(u, v, n) && SameAt(v, w, n)
    ensures SameAt(u, w, n)
  {
  }

  lemma ListedSameAt(dir: string, w: World, v: World, n: string)
    requires SameAt(w, v, n)
    ensures n in ListedNames(dir, w.blobs) <==> n in ListedNames(dir, v.blobs)
  {
  }

  lemma AgreeOnSameAt(dir: string, w: World, v: World, n: string)
    requires SameAt(w, v, n) && AgreeOn(dir, v, n)
    ensures AgreeOn(dir, w, n)
  {
    ListedSameAt(dir, w, v, n);
  }

  /** The names of the first `k` actions. */
  ghost function DoneNames(acts: seq<SyncAction>, k: nat): set<string>
    requires k <= |acts|
  {
    set i | 0 <= i < k :: acts[i].Name()
  }

  /** The facts about one action of Reconcile(w0.local, remote) that carrying it out needs. */
  ghost predicate FromReconcile(w0: World, remote: seq<FileMetadata>, a: SyncAction) {
    match a
    case UploadNew(f) => f in w0.local
    case UploadUpdate(f) => f in w0.local
    case InSync(f) =>
      f in w0.local && FindRecord(remote, f.name).Some?
      && !NeedsSync(LocalRecord(f), FindRecord(remote, f.name).value)
    case DownloadUpdate(f, rf) => rf in remote && rf.name == f.name
    case DownloadNew(rf) => rf in remote
  }

  lemma ReconcileActionFacts(w0: World, remote: seq<FileMetadata>, k: int)
    requires 0 <= k < |Reconcile(w0.local, remote)|
    ensures FromReconcile(w0, remote, Reconcile(w0.local, remote)[k])
  {
    ReconcileAt(w0.local, remote, k);
    if k < |w0.local| {
      var lf := w0.local[k];
      assert Reconcile(w0.local, remote)[k] == Decide(lf, remote);
      if FindRecord(remote, lf.name).Some? {
        DecideShared(lf, remote);
      }
    } else {
      var rp := RemotePass(Names(w0.local), remote);
      assert rp[k - |w0.local|] in rp;
    }
  }

  /** Carrying out one action of the run on a name nobody touched yet brings the two sides
      into agreement on that name and changes nothing about any other name. */
  lemma StepAgrees(env: Env, w0: World, remote: seq<FileMetadata>, run: Run, a: SyncAction)
    requires Ready(env.dir, w0, remote) && FromReconcile(w0, remote, a)
    requires run.failure.None? && SameAt(run.world, w0, a.Name())
    requires UniqueNames(run.world.local) && ConsistentSidecars(env.dir, run.world.sidecars)
    ensures var after := Step(env, run, a);
      && after.failure.None?
      && AgreeOn(env.dir, after.world, a.Name())
      && UniqueNames(after.world.local)
      && ConsistentSidecars(env.dir, after.world.sidecars)
      && forall n :: n != a.Name() ==> SameAt(after.world, run.world, n)
  {
    var w := run.world;
    var m := a.Name();
    var after := Step(env, run, a);
    match a
    case UploadNew(f) =>
      FindFileUnique(w0.local, f);
      UploadAgrees(env, w, f);
      assert after.world == AfterUpload(env, w, f);
      forall n | n != m ensures SameAt(after.world, w, n) { }
    case UploadUpdate(f) =>
      FindFileUnique(w0.local, f);
      UploadAgrees(env, w, f);
      assert after.world == AfterUpload(env, w, f);
      forall n | n != m ensures SameAt(after.world, w, n) { }
    case InSync(f) =>
      FindFileUnique(w0.local, f);
      var rf := FindRecord(remote, f.name).value;
      assert rf in remote;
      ListedSameAt(env.dir, w, w0, m);
      assert after.world == w;
      forall n | n != m ensures SameAt(after.world, w, n) { }
    case DownloadUpdate(f, rf) =>
      DownloadAgrees(env, w0, remote, run, rf);
      assert after.world == w.(local := AfterDownload(w.local, rf, w.blobs[rf.name].content, env.now));
      forall n | n != m ensures SameAt(after.world, w, n) { }
    case DownloadNew(rf) =>
      DownloadAgrees(env, w0, remote, run, rf);
      assert after.world == w.(local := AfterDownload(w.local, rf, w.blobs[rf.name].content, env.now));
      forall n | n != m ensures SameAt(after.world, w, n) { }
  }

  lemma UploadAgrees(env: Env, w: World, f: DiskFile)
    requires FindFile(w.local, f.name) == Some(f) && !EndsWith(f.name, MetaSuffix)
    requires ConsistentSidecars(env.dir, w.sidecars)
    ensures var after := AfterUpload(env, w, f);
      && AgreeOn(env.dir, after, f.name)
      && ConsistentSidecars(env.dir, after.sidecars)
      && after.local == w.local
      && forall n :: n != f.name ==> SameAt(after, w, n)
  {
    ListedByName(env.dir, f.name);
  }

  lemma DownloadAgrees(env: Env, w0: World, remote: seq<FileMetadata>, run: Run, rf: FileMetadata)
    requires Ready(env.dir, w0, remote) && rf in remote
    requires run.failure.None? && SameAt(run.world, w0, rf.name)
    requires UniqueNames(run.world.local)
    ensures Fetch(env.dir, run.world.blobs, rf.remotePath) == Some(run.world.blobs[rf.name].content)
    ensures var local := AfterDownload(run.world.local, rf, run.world.blobs[rf.name].content, env.now);
      var after := run.world.(local := local);
      && AgreeOn(env.dir, after, rf.name)
      && UniqueNames(local)
      && forall n :: n != rf.name ==> SameAt(after, run.world, n)
  {
    var w := run.world;
    var m := rf.name;
    assert w0.sidecars[m] == rf;
    NameInCombine(env.dir, m);
    ListedSameAt(env.dir, w, w0, m);
    var c := w.blobs[m].content;
    var local := AfterDownload(w.local, rf, c, env.now);
    AfterDownloadFind(w.local, rf, c, env.now, m);
    assert w.sidecars[m] == rf;
    assert AgreeOn(env.dir, w.(local := local), m);
    forall n | n != m ensures FindFile(local, n) == FindFile(w.local, n) {
      AfterDownloadFind(w.local, rf, c, env.now, n);
    }
  }

  /** After the first `k` actions of a run, the names they were about agree and every other
      name looks as it did before the run. */
  lemma {:induction false} PrefixAgrees(env: Env, w0: World, remote: seq<FileMetadata>, k: nat)
    requires Ready(env.dir, w0, remote) && k <= |Reconcile(w0.local, remote)|
    ensures var acts := Reconcile(w0.local, remote);
      var run := RunActions(env, w0, acts[..k]);
      && run.failure.None?
      && UniqueNames(run.world.local)
      && ConsistentSidecars(env.dir, run.world.sidecars)
      && (forall n :: n in DoneNames(acts, k) ==> AgreeOn(env.dir, run.world, n))
      && (forall n :: n !in DoneNames(acts, k) ==> SameAt(run.world, w0, n))
  {
    var acts := Reconcile(w0.local, remote);
    if k == 0 {
      assert acts[..0] == [];
      assert DoneNames(acts, 0) == {};
    } else {
      PrefixAgrees(env, w0, remote, k - 1);
      var before := RunActions(env, w0, acts[..k - 1]);
      var a := acts[k - 1];
      RunPrefixSnoc(env, w0, acts, k);
      FreshName(w0.local, remote, k - 1);
      ReconcileActionFacts(w0, remote, k - 1);
      StepAgrees(env, w0, remote, before, a);
      ExtendAgreement(env.dir, w0, before.world, Step(env, before, a).world, DoneNames(acts, k - 1), a.Name());
    }
  }

  lemma RunPrefixSnoc(env: Env, w: World, acts: seq<SyncAction>, k: nat)
    requires 0 < k <= |acts|
    ensures RunActions(env, w, acts[..k])
         == var before := RunActions(env, w, acts[..k - 1]);
            if before.failure.Some? then before else Step(env, before, acts[k - 1])
  {
    assert acts[..k] == acts[..k - 1] + [acts[k - 1]];
    RunActionsSnoc(env, w, acts[..k - 1], acts[k - 1]);
  }

  /** The k-th action of a run is about a name no earlier action was about. */
  lemma FreshName(local: seq<DiskFile>, remote: seq<FileMetadata>, k: nat)
    requires UniqueNames(local) && UniqueRecordNames(remote)
    requires k < |Reconcile(local, remote)|
    ensures Reconcile(local, remote)[k].Name() !in DoneNames(Reconcile(local, remote), k)
    ensures DoneNames(Reconcile(local, remote), k + 1)
         == DoneNames(Reconcile(local, remote), k) + {Reconcile(local, remote)[k].Name()}
  {
    var acts := Reconcile(local, remote);
    forall i | 0 <= i < k ensures acts[i].Name() != acts[k].Name() {
      ReconcileOneActionPerName(local, remote, i, k);
    }
  }

  /** Agreement on one more name, with nothing else disturbed, extends the set of agreed names. */
  lemma ExtendAgreement(dir: string, w0: World, before: World, after: World, done: set<string>, m: string)
    requires forall n :: n in done ==> AgreeOn(dir, before, n)
    requires forall n :: n !in done ==> SameAt(before, w0, n)
    requires AgreeOn(dir, after, m)
    requires forall n :: n != m ==> SameAt(after, before, n)
    ensures forall n :: n in done + {m} ==> AgreeOn(dir, after, n)
    ensures forall n :: n !in done + {m} ==> SameAt(after, w0, n)
  {
    forall n | n in done + {m} ensures AgreeOn(dir, after, n) {
      if n != m {
        AgreeOnSameAt(dir, after, before, n);
      }
    }
    forall n | n !in done + {m} ensures SameAt(after, w0, n) {
      SameAtTransitive(after, before, w0, n);
    }
  }

  /** A record occurring twice in a sequence is counted twice by its multiset. */
  lemma MultisetTwice(s: seq<FileMetadata>, i: int, j: int)
    requires 0 <= i < j < |s| && s[i] == s[j]
    ensures multiset(s)[s[i]] >= 2
  {
    assert s == s[..j] + [s[j]] + s[j + 1..];
    assert s[i] in s[..j];
  }

  /** No record occurs twice in a sequence without repeated names. */
  lemma {:induction false} UniqueNamesCountOnce(s: seq<FileMetadata>, x: FileMetadata)
    requires UniqueRecordNames(s)
    ensures multiset(s)[x] <= 1
    decreases |s|
  {
    if s != [] {
      var init := s[..|s| - 1];
      assert s == init + [s[|s| - 1]];
      UniqueNamesCountOnce(init, x);
      if x == s[|s| - 1] {
        assert x !in init;
      }
    }
  }

  /** What ListFiles returns for a consistent store (its records sorted under any collation)
      is a listing: a sidecar per listed stored file and each name once, so the dictionary
      SyncFolderAsync builds from it never meets a repeated key. */
  lemma StoreListingIsListing(dir: string, w: World, order: seq<string>, collation: (string, string) -> bool)
    requires IsEnumeration(order, ListedNames(dir, w.blobs))
    requires ConsistentSidecars(dir, w.sidecars)
    requires forall n :: n in ListedNames(dir, w.blobs) ==> n in w.sidecars
    ensures ListingOf(dir, w, SortBy(Project(order, w.sidecars), NameOf, collation))
  {
    var p := Project(order, w.sidecars);
    var r := SortBy(p, NameOf, collation);
    assert multiset(r) == multiset(p);
    ProjectNamesUnique(dir, w.sidecars, order);
    forall rf | rf in r
      ensures rf.name in ListedNames(dir, w.blobs) && rf.name in w.sidecars && w.sidecars[rf.name] == rf
    {
      assert rf in multiset(p);
      var i :| 0 <= i < |p| && p[i] == rf;
      assert order[i] in order;
    }
    forall n | n in ListedNames(dir, w.blobs) ensures n in RecordNames(r) {
      var i :| 0 <= i < |order| && order[i] == n;
      assert p[i] in multiset(r);
    }
    PermutationKeepsUniqueNames(p, r);
  }

  /** Projecting an enumeration through consistent sidecars yields records named as
      enumerated, so no two share a name. */
  lemma ProjectNamesUnique(dir: string, sidecars: map<string, FileMetadata>, order: seq<string>)
    requires forall i, j :: 0 <= i < j < |order| ==> order[i] != order[j]
    requires ConsistentSidecars(dir, sidecars)
    requires forall n :: n in order ==> n in sidecars
    ensures UniqueRecordNames(Project(order, sidecars))
  {
    var p := Project(order, sidecars);
    forall i, j | 0 <= i < j < |p| ensures p[i].name != p[j].name {
      assert order[i] in order && order[j] in order;
      assert p[i].name == order[i] && p[j].name == order[j];
    }
  }

  /** Reordering records keeps their names apart. */
  lemma PermutationKeepsUniqueNames(p: seq<FileMetadata>, r: seq<FileMetadata>)
    requires multiset(r) == multiset(p) && UniqueRecordNames(p)
    ensures UniqueRecordNames(r)
  {
    forall i, j | 0 <= i < j < |r| ensures r[i].name != r[j].name {
      if r[i].name == r[j].name {
        assert r[i] in multiset(p) && r[j] in multiset(p);
        var a :| 0 <= a < |p| && p[a] == r[i];
        var b :| 0 <= b < |p| && p[b] == r[j];
        if a == b {
          MultisetTwice(r, i, j);
          UniqueNamesCountOnce(p, r[i]);
        }
        assert false;
      }
    }
  }

  /** Every local name and every listed name is the name of some action of the run. */
  lemma ReconcileCoversNames(local: seq<DiskFile>, remote: seq<FileMetadata>, n: string)
    requires n in Names(local) || n in RecordNames(remote)
    ensures n in DoneNames(Reconcile(local, remote), |Reconcile(local, remote)|)
  {
    var acts := Reconcile(local, remote);
    var lp := LocalPass(local, remote);
    if n in Names(local) {
      var i :| 0 <= i < |local| && local[i].name == n;
      assert acts[i] == Decide(local[i], remote);
    } else {
      var rf :| rf in remote && rf.name == n;
      RemotePassComplete(Names(local), remote, rf);
      var rp := RemotePass(Names(local), remote);
      var j :| 0 <= j < |rp| && rp[j] == DownloadNew(rf);
      assert acts[|lp| + j] == DownloadNew(rf);
    }
  }

  /** A run from a consistent store and a listing of it completes without error and leaves
      the folder and the store in agreement. */
  lemma RunConverges(env: Env, w0: World, remote: seq<FileMetadata>)
    requires Ready(env.dir, w0, remote)
    ensures var run := RunActions(env, w0, Reconcile(w0.local, remote));
      && run.failure.None?
      && InAgreement(env.dir, run.world)
      && UniqueNames(run.world.local)
      && ConsistentSidecars(env.dir, run.world.sidecars)
  {
    var acts := Reconcile(w0.local, remote);
    PrefixAgrees(env, w0, remote, |acts|);
    assert acts[..|acts|] == acts;
    var w := RunActions(env, w0, acts).world;
    var done := DoneNames(acts, |acts|);
    forall n | n !in done
      ensures n !in Names(w.local) && n !in ListedNames(env.dir, w.blobs)
    {
      if n in Names(w0.local) || n in RecordNames(remote) {
        ReconcileCoversNames(w0.local, remote, n);
      }
      ListedSameAt(env.dir, w, w0, n);
    }
  }

  /** When the two sides agree, a listing of the store leads to nothing but checks. */
  lemma AgreementOnlyChecks(dir: string, w: World, remote: seq<FileMetadata>)
    requires InAgreement(dir, w) && UniqueNames(w.local) && ListingOf(dir, w, remote)
    ensures forall a :: a in Reconcile(w.local, remote) ==> a.InSync?
  {
    var lp := LocalPass(w.local, remote);
    NothingRemoteOnly(dir, w, remote);
    assert Reconcile(w.local, remote) == lp;
    forall a | a in lp ensures a.InSync? {
      var i :| 0 <= i < |lp| && lp[i] == a;
      AgreedFileChecked(dir, w, remote, w.local[i]);
    }
  }

  lemma AgreedFileChecked(dir: string, w: World, remote: seq<FileMetadata>, lf: DiskFile)
    requires InAgreement(dir, w) && UniqueNames(w.local) && ListingOf(dir, w, remote)
    requires lf in w.local
    ensures Decide(lf, remote).InSync?
  {
    assert lf.name in Names(w.local);
    FindFileUnique(w.local, lf);
    var rf := FindRecord(remote, lf.name).value;
    assert rf in remote;
    DecideShared(lf, remote);
  }

  lemma NothingRemoteOnly(dir: string, w: World, remote: seq<FileMetadata>)
    requires InAgreement(dir, w) && ListingOf(dir, w, remote)
    ensures RemotePass(Names(w.local), remote) == []
  {
    forall n | n in RecordNames(remote) ensures n in Names(w.local) {
      var rf :| rf in remote && rf.name == n;
      assert n in ListedNames(dir, w.blobs);
    }
    RemotePassNone(Names(w.local), remote);
  }

  /** Checks alone change nothing and count nothing. */
  lemma {:induction false} ChecksChangeNothing(env: Env, w: World, acts: seq<SyncAction>)
    requires forall a :: a in acts ==> a.InSync?
    ensures RunActions(env, w, acts) == Run(w, LogOf(acts), 0, 0, None)
    decreases |acts|
  {
    if acts != [] {
      var init := acts[..|acts| - 1];
      var last := acts[|acts| - 1];
      assert forall a :: a in init ==> a in acts;
      assert last in acts;
      ChecksChangeNothing(env, w, init);
      var before := RunActions(env, w, init);
      assert before == Run(w, LogOf(init), 0, 0, None);
      assert Step(env, before, last) == before.(log := before.log + Messages(last));
      assert LogOf(acts) == LogOf(init) + Messages(last);
    }
  }

  /** Synchronisation converges: after a completed run, a second run over any listing of the
      store only checks each file, transfers nothing and leaves both sides as they were. */
  lemma SecondRunIsQuiet(env: Env, env2: Env, w0: World, remote: seq<FileMetadata>, remote2: seq<FileMetadata>)
    requires Ready(env.dir, w0, remote) && env2.dir == env.dir
    requires ListingOf(env.dir, RunActions(env, w0, Reconcile(w0.local, remote)).world, remote2)
    ensures var w1 := RunActions(env, w0, Reconcile(w0.local, remote)).world;
      var second := RunActions(env2, w1, Reconcile(w1.local, remote2));
      && second.failure.None? && second.world == w1
      && second.uploaded == 0 && second.downloaded == 0
  {
    RunConverges(env, w0, remote);
    var w1 := RunActions(env, w0, Reconcile(w0.local, remote)).world;
    AgreementOnlyChecks(env.dir, w1, remote2);
    ChecksChangeNothing(env2, w1, Reconcile(w1.local, remote2));
  }
}
