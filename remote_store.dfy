/** The mock remote store (MockFileService): a token table and a storage directory whose
    files each may carry a JSON sidecar with their metadata. */
module RemoteStore {
  import opened Wrappers
  import opened Text
  import opened Paths
  import opened Ordering
  import opened FileModel

  /** The suffix of sidecar files, which listings skip. */
  const MetaSuffix: string := ".meta.json"

  /** The record built for a stored file that has no sidecar: the file's own facts,
      attributed to the user of the calling token, with the stored path as remote path. */
  function SynthesizedRecord(dir: string, name: string, b: Blob, user: string, id: nat): (m: FileMetadata)
    ensures m.name == name && m.uploadedBy == user && m.editedBy == user
    ensures m.remotePath == Combine(dir, name) && m.modifiedAt == b.modifiedAt
  {
    FileMetadata(id, name, ExtensionOf(name), |b.content|, b.createdAt, b.modifiedAt, user, user, Combine(dir, name))
  }

  /** A synthesized record, whatever fresh id it was given. */
  predicate IsSynthesized(m: FileMetadata, dir: string, name: string, b: Blob, user: string) {
    m == SynthesizedRecord(dir, name, b, user, m.id)
  }

  /** Every sidecar describes the stored file it is filed under, as the sidecars the store
      writes itself (on upload and on listing) do. */
  ghost predicate ConsistentSidecars(dir: string, sidecars: map<string, FileMetadata>) {
    forall n :: n in sidecars ==> sidecars[n].name == n && sidecars[n].remotePath == Combine(dir, n)
  }

  /** The copy File.Copy leaves in the store: the source's bytes and last-write time,
      created at `now`. */
  function StoredCopy(f: DiskFile, now: int): Blob {
    Blob(f.content, now, f.modifiedAt)
  }

  /** The record UploadFileAsync returns and writes as sidecar. */
  function UploadedRecord(dir: string, f: DiskFile, uploadedBy: string, id: nat, now: int): (m: FileMetadata)
    ensures m.name == f.name && m.uploadedBy == uploadedBy && m.editedBy == uploadedBy
    ensures m.remotePath == Combine(dir, f.name) && m.modifiedAt == f.modifiedAt
    ensures m.size == |f.content|
  {
    FileMetadata(id, f.name, ExtensionOf(f.name), |f.content|, now, f.modifiedAt, uploadedBy, uploadedBy, Combine(dir, f.name))
  }

  /** The stored files a listing reports: those whose path does not end in the sidecar suffix. */
  function ListedNames(dir: string, blobs: map<string, Blob>): set<string> {
    set n | n in blobs && !EndsWith(Combine(dir, n), MetaSuffix)
  }

  /** Testing the full path for the sidecar suffix is testing the file name for it, because
      the suffix holds no separator. */
  lemma {:induction false} ListedByName(dir: string, n: string)
    ensures EndsWith(Combine(dir, n), MetaSuffix) <==> EndsWith(n, MetaSuffix)
  {
    var p := Combine(dir, n);
    var k := |MetaSuffix|;
    if |n| >= k {
      assert p[|p| - k..] == n[|n| - k..];
    } else if |p| >= k {
      // the separator in front of n falls inside the last k characters of p
      assert p[|p| - k..][k - |n| - 1] == p[|dir|] == DirectorySeparator;
    }
  }

  /** `order` lists every name of `names` once. */
  ghost predicate IsEnumeration(order: seq<string>, names: set<string>) {
    (forall i, j :: 0 <= i < j < |order| ==> order[i] != order[j])
    && forall n :: n in order <==> n in names
  }

  /** What a listing of `blobs` by `user` returns and leaves behind: the stored files other
      than sidecars, enumerated once each in `order`; every sidecar kept, a synthesized one
      with a fresh id saved for each listed file that had none; and the records of the
      enumeration sorted by name under `collation`. */
  ghost predicate ListingOutcome(dir: string, blobs: map<string, Blob>, user: string,
                                 collation: (string, string) -> bool,
                                 sidecars0: map<string, FileMetadata>, next0: nat, order: seq<string>,
                                 sidecars1: map<string, FileMetadata>, next1: nat, result: seq<FileMetadata>)
  {
    && IsEnumeration(order, ListedNames(dir, blobs))
    && (forall n :: n in sidecars1 <==> n in sidecars0 || n in ListedNames(dir, blobs))
    && (forall n :: n in sidecars0 ==> sidecars1[n] == sidecars0[n])
    && (forall n :: n in ListedNames(dir, blobs) && n !in sidecars0 ==>
          IsSynthesized(sidecars1[n], dir, n, blobs[n], user) && next0 <= sidecars1[n].id < next1)
    && next0 <= next1
    && result == SortBy(Project(order, sidecars1), NameOf, collation)
  }

  /** The state of a listing that has enumerated `order` and has `remaining` still to go:
      each name once, every sidecar it found kept, a synthesized record with a fresh id
      saved for each name that had none, and `list` holding the records in enumeration order. */
  ghost predicate Collected(dir: string, store: map<string, Blob>, user: string, listed: set<string>,
                            before: map<string, FileMetadata>, firstId: nat,
                            remaining: set<string>, order: seq<string>, list: seq<FileMetadata>,
                            sidecars: map<string, FileMetadata>, nextId: nat)
  {
    && listed <= store.Keys
    && (forall i, j :: 0 <= i < j < |order| ==> order[i] != order[j])
    && (forall n :: n in order <==> n in listed && n !in remaining)
    && (forall n :: n in sidecars <==> n in before || n in order)
    && (forall n :: n in before ==> sidecars[n] == before[n])
    && (forall n :: n in order && n !in before ==>
          n in store && IsSynthesized(sidecars[n], dir, n, store[n], user) && firstId <= sidecars[n].id < nextId)
    && firstId <= nextId
    && |list| == |order| && (forall i :: 0 <= i < |order| ==> list[i] == sidecars[order[i]])
  }

  /** Enumerating one more name, with the record RecordFor reports for it, keeps Collected. */
  lemma CollectedStep(dir: string, store: map<string, Blob>, user: string, listed: set<string>,
                      before: map<string, FileMetadata>, firstId: nat,
                      remaining: set<string>, order: seq<string>, list: seq<FileMetadata>,
                      sidecars: map<string, FileMetadata>, nextId: nat,
                      name: string, meta: FileMetadata, sidecars1: map<string, FileMetadata>, nextId1: nat)
    requires Collected(dir, store, user, listed, before, firstId, remaining, order, list, sidecars, nextId)
    requires remaining <= listed && name in remaining
    requires name in sidecars ==> meta == sidecars[name] && nextId1 == nextId
    requires name !in sidecars ==> meta == SynthesizedRecord(dir, name, store[name], user, nextId) && nextId1 == nextId + 1
    requires sidecars1 == sidecars[name := meta]
    ensures Collected(dir, store, user, listed, before, firstId, remaining - {name}, order + [name],
                      list + [meta], sidecars1, nextId1)
  {
    assert name !in order;
    assert name in sidecars <==> name in before;
    var order1 := order + [name];
    forall i, j | 0 <= i < j < |order1| ensures order1[i] != order1[j] {
      if j == |order| {
        assert order1[i] in order;
      }
    }
    forall n | n in order1 && n !in before
      ensures n in store && IsSynthesized(sidecars1[n], dir, n, store[n], user) && firstId <= sidecars1[n].id < nextId1
    {
      if n != name {
        assert n in order;
      }
    }
    var list1 := list + [meta];
    forall i | 0 <= i < |order1| ensures list1[i] == sidecars1[order1[i]] {
      if i < |order| {
        assert order[i] in order;
      }
    }
  }

  /** Saving synthesized records beside consistent sidecars keeps every sidecar named after
      its key and pointing at the stored file of that name. */
  lemma SynthesizedKeepConsistent(dir: string, store: map<string, Blob>, user: string,
                                  before: map<string, FileMetadata>, after: map<string, FileMetadata>,
                                  order: seq<string>)
    requires ConsistentSidecars(dir, before)
    requires forall n :: n in after <==> n in before || n in order
    requires forall n :: n in before ==> after[n] == before[n]
    requires forall n :: n in order && n !in before ==> n in store && IsSynthesized(after[n], dir, n, store[n], user)
    ensures ConsistentSidecars(dir, after)
  {
    forall n | n in after ensures after[n].name == n && after[n].remotePath == Combine(dir, n) {
      if n !in before {
        assert n in order;
      }
    }
  }

  /** The records of `order`'s names, in that order. */
  function Project(order: seq<string>, sidecars: map<string, FileMetadata>): (r: seq<FileMetadata>)
    requires forall n :: n in order ==> n in sidecars
    ensures |r| == |order| && forall i :: 0 <= i < |order| ==> r[i] == sidecars[order[i]]
  {
    seq(|order|, i requires 0 <= i < |order| => sidecars[order[i]])
  }

  function NameOf(m: FileMetadata): string { m.name }

  /** A bound on the length of every string of `keys`. */
  ghost function MaxLength(keys: set<string>): (m: nat)
    ensures forall k :: k in keys ==> |k| <= m
    decreases keys
  {
    if keys == {} then 0
    else
      var k :| k in keys;
      var m := MaxLength(keys - {k});
      if |k| > m then |k| else m
  }

  class MockFileService {
    /** The storage directory (Documents\RemoteStorageMock). */
    const storageDir: string
    /** The culture's string comparer that OrderBy uses. */
    const collation: (string, string) -> bool
    /** Issued token -> user name. */
    var tokens: map<string, string>
    /** The stored data files, by file name. */
    var blobs: map<string, Blob>
    /** The sidecar of each data file that has one, by the data file's name. */
    var sidecars: map<string, FileMetadata>
    /** The next id to hand out where the source draws a new Guid. */
    var nextId: nat

    ghost predicate Valid()
      reads this
    {
      TotalPreorder(collation) && forall t :: t in tokens ==> !IsNullOrWhiteSpace(t)
    }

    /** The store opens the existing storage directory with no token issued. */
    constructor (storageDir: string, collation: (string, string) -> bool,
                 blobs: map<string, Blob>, sidecars: map<string, FileMetadata>)
      requires TotalPreorder(collation)
      ensures Valid()
      ensures this.storageDir == storageDir && this.collation == collation
      ensures this.blobs == blobs && this.sidecars == sidecars
      ensures tokens == map[] && nextId == 0
    {
      this.storageDir := storageDir;
      this.collation := collation;
      this.blobs := blobs;
      this.sidecars := sidecars;
      this.tokens := map[];
      this.nextId := 0;
    }

    /** EnsureToken lets a call through. */
    predicate Authorized(token: string)
      reads this
    {
      !IsNullOrWhiteSpace(token) && token in tokens
    }

    /** A token passes the check exactly when it was issued: issued tokens are never blank. */
    lemma AuthorizedIffIssued(token: string)
      requires Valid()
      ensures Authorized(token) <==> token in tokens
    {
    }

    /** The stored file a path addresses, if the path lies in the storage directory. */
    function NameAt(path: string): Option<string>
      reads this
    {
      NameIn(storageDir, path)
    }

    /** File.Exists on a path of the store. */
    predicate IsStored(path: string)
      reads this
    {
      NameAt(path).Some? && NameAt(path).value in blobs
    }

    /** Any password is accepted; an empty user name is refused; otherwise a fresh token is
        issued for the user and no other entry of the token table changes. */
    method Authenticate(username: string, password: string) returns (r: Result<string>)
      requires Valid()
      modifies this`tokens
      ensures Valid()
      ensures username == "" ==> r == Err(InvalidArgument) && tokens == old(tokens)
      ensures username != "" ==> r.Ok? && r.value !in old(tokens) && !IsNullOrWhiteSpace(r.value)
                                 && tokens == old(tokens)[r.value := username]
    {
      if username == "" {
        return Err(InvalidArgument);
      }
      ghost var longer := seq(MaxLength(tokens.Keys) + 1, _ => 'g');
      assert longer !in tokens && !IsNullOrWhiteSpace(longer) by {
        assert !IsWhiteSpace(longer[0]);
      }
      var token: string :| token !in tokens && !IsNullOrWhiteSpace(token);
      tokens := tokens[token := username];
      r := Ok(token);
    }

    /** The listing: every stored file except sidecars, each with its sidecar record or, when
        it has none, a synthesized record that is then saved as its sidecar; the result is
        sorted by name under the culture's collation. `order` is the order in which the
        directory enumerated the files. */
    method ListFiles(token: string) returns (r: Result<seq<FileMetadata>>, ghost order: seq<string>)
      requires Valid()
      modifies this`sidecars, this`nextId
      ensures Valid()
      ensures ConsistentSidecars(storageDir, old(sidecars)) ==> ConsistentSidecars(storageDir, sidecars)
      ensures !old(Authorized(token)) ==> r == Err(Unauthorized) && sidecars == old(sidecars) && nextId == old(nextId)
      ensures old(Authorized(token)) ==>
        && r.Ok?
        && ListingOutcome(storageDir, blobs, tokens[token], collation, old(sidecars), old(nextId),
                          order, sidecars, nextId, r.value)
        && SortedBy(r.value, NameOf, collation)
    {
      if !Authorized(token) {
        return Err(Unauthorized), [];
      }
      var list;
      list, order := CollectRecords(tokens[token]);
      if ConsistentSidecars(storageDir, old(sidecars)) {
        SynthesizedKeepConsistent(storageDir, blobs, tokens[token], old(sidecars), sidecars, order);
      }
      SortBySorted(list, NameOf, collation);
      r := Ok(SortBy(list, NameOf, collation));
    }

    /** The enumeration of the storage directory: each stored file other than a sidecar,
        once, in `order`, with the record RecordFor reports for it. */
    method CollectRecords(user: string) returns (list: seq<FileMetadata>, ghost order: seq<string>)
      modifies this`sidecars, this`nextId
      ensures IsEnumeration(order, ListedNames(storageDir, blobs))
      ensures forall n :: n in sidecars <==> n in old(sidecars) || n in order
      ensures forall n :: n in old(sidecars) ==> sidecars[n] == old(sidecars)[n]
      ensures forall n :: n in order && n !in old(sidecars) ==>
                n in blobs && IsSynthesized(sidecars[n], storageDir, n, blobs[n], user)
                && old(nextId) <= sidecars[n].id < nextId
      ensures old(nextId) <= nextId
      ensures list == Project(order, sidecars)
    {
      var listed := ListedNames(storageDir, blobs);
      ghost var store := blobs;
      ghost var before := sidecars;
      ghost var firstId := nextId;
      assert listed <= store.Keys;
      var remaining := listed;
      list := [];
      order := [];
      while remaining != {}
        invariant blobs == store && remaining <= listed
        invariant Collected(storageDir, store, user, listed, before, firstId, remaining, order, list, sidecars, nextId)
        decreases remaining
      {
        var name :| name in remaining;
        ghost var sidecarsNow, idNow := sidecars, nextId;
        var meta := RecordFor(name, user);
        CollectedStep(storageDir, store, user, listed, before, firstId, remaining, order, list,
                      sidecarsNow, idNow, name, meta, sidecars, nextId);
        list := list + [meta];
        order := order + [name];
        remaining := remaining - {name};
      }
    }

    /** The record the listing reports for the stored file `name`: its sidecar when it has
        one, otherwise a record synthesized from the file with the next id, listing `user` as
        uploader and editor; either way the record is saved as the file's sidecar. */
    method RecordFor(name: string, user: string) returns (meta: FileMetadata)
      requires name in blobs
      modifies this`sidecars, this`nextId
      ensures name in old(sidecars) ==> meta == old(sidecars)[name] && nextId == old(nextId)
      ensures name !in old(sidecars) ==>
        meta == SynthesizedRecord(storageDir, name, blobs[name], user, old(nextId)) && nextId == old(nextId) + 1
      ensures sidecars == old(sidecars)[name := meta]
    {
      if name in sidecars {
        meta := sidecars[name];
      } else {
        meta := SynthesizedRecord(storageDir, name, blobs[name], user, nextId);
        nextId := nextId + 1;
      }
      sidecars := sidecars[name := meta];
    }

    /** GetFileStreamAsync: the bytes of the stored file at `remotePath`. */
    method GetFileStream(token: string, remotePath: string) returns (r: Result<seq<Byte>>)
      ensures !Authorized(token) ==> r == Err(Unauthorized)
      ensures Authorized(token) && !IsStored(remotePath) ==> r == Err(NotFound)
      ensures Authorized(token) && IsStored(remotePath) ==> r == Ok(blobs[NameAt(remotePath).value].content)
    {
      if !Authorized(token) {
        return Err(Unauthorized);
      }
      if !IsStored(remotePath) {
        return Err(NotFound);
      }
      r := Ok(blobs[NameAt(remotePath).value].content);
    }

    /** UploadFileAsync: copies the local file into the storage directory under its own name,
        replacing any file of that name, and writes the returned record as its sidecar. */
    method UploadFile(token: string, source: DiskFile, uploadedBy: string, now: int) returns (r: Result<FileMetadata>)
      requires Valid()
      modifies this`blobs, this`sidecars, this`nextId
      ensures Valid()
      ensures ConsistentSidecars(storageDir, old(sidecars)) ==> ConsistentSidecars(storageDir, sidecars)
      ensures !old(Authorized(token)) ==>
        r == Err(Unauthorized) && blobs == old(blobs) && sidecars == old(sidecars) && nextId == old(nextId)
      ensures old(Authorized(token)) ==>
        && r == Ok(UploadedRecord(storageDir, source, uploadedBy, old(nextId), now))
        && blobs == old(blobs)[source.name := StoredCopy(source, now)]
        && sidecars == old(sidecars)[source.name := r.value]
        && nextId == old(nextId) + 1
    {
      if !Authorized(token) {
        return Err(Unauthorized);
      }
      blobs := blobs[source.name := StoredCopy(source, now)];
      var meta := UploadedRecord(storageDir, source, uploadedBy, nextId, now);
      nextId := nextId + 1;
      sidecars := sidecars[source.name := meta];
      r := Ok(meta);
    }

    /** DeleteFileAsync: false for a path that holds no file; otherwise the file and its
        sidecar are removed and the answer is true. */
    method DeleteFile(token: string, remotePath: string) returns (r: Result<bool>)
      requires Valid()
      modifies this`blobs, this`sidecars
      ensures Valid()
      ensures ConsistentSidecars(storageDir, old(sidecars)) ==> ConsistentSidecars(storageDir, sidecars)
      ensures !old(Authorized(token)) ==> r == Err(Unauthorized)
      ensures old(Authorized(token)) ==> r == Ok(old(IsStored(remotePath)))
      ensures r == Ok(true) ==> var n := NameAt(remotePath).value;
        n in old(blobs) && blobs == old(blobs) - {n} && sidecars == old(sidecars) - {n}
      ensures r != Ok(true) ==> blobs == old(blobs) && sidecars == old(sidecars)
    {
      if !Authorized(token) {
        return Err(Unauthorized);
      }
      if !IsStored(remotePath) {
        return Ok(false);
      }
      var n := NameAt(remotePath).value;
      blobs := blobs - {n};
      sidecars := sidecars - {n};
      r := Ok(true);
    }

    /** GetFileMetadataAsync: the sidecar record of the stored file, or a synthesized one
        (which, unlike in a listing, is not saved). */
    method GetFileMetadata(token: string, remotePath: string) returns (r: Result<FileMetadata>)
      requires Valid()
      modifies this`nextId
      ensures Valid()
      ensures !old(Authorized(token)) ==> r == Err(Unauthorized)
      ensures old(Authorized(token)) && !IsStored(remotePath) ==> r == Err(NotFound)
      ensures old(Authorized(token)) && IsStored(remotePath) ==>
        (r.Ok? &&
         var n := NameAt(remotePath).value;
         if n in sidecars then r.value == sidecars[n]
         else IsSynthesized(r.value, storageDir, n, blobs[n], tokens[token]) && r.value.id == old(nextId))
    {
      if !Authorized(token) {
        return Err(Unauthorized);
      }
      if !IsStored(remotePath) {
        return Err(NotFound);
      }
      var n := NameAt(remotePath).value;
      if n in sidecars {
        r := Ok(sidecars[n]);
      } else {
        r := Ok(SynthesizedRecord(storageDir, n, blobs[n], tokens[token], nextId));
        nextId := nextId + 1;
      }
    }

    /** FileExistsAsync: whether a file is stored at `remotePath`. */
    method FileExists(token: string, remotePath: string) returns (r: Result<bool>)
      ensures !Authorized(token) ==> r == Err(Unauthorized)
      ensures Authorized(token) ==> r == Ok(IsStored(remotePath))
    {
      if !Authorized(token) {
        return Err(Unauthorized);
      }
      r := Ok(IsStored(remotePath));
    }
  }
}
