/** The file record shared by the local and the remote side, and the files it describes. */
module FileModel {
  import opened Wrappers
  import opened Paths

  /** One byte of file content. */
  newtype Byte = b: int | 0 <= b < 256

  /** DateTime.AddSeconds(1) in ticks of 100 ns. */
  const TicksPerSecond: int := 10_000_000

  /** The metadata record of one file (FileMetadata). The Guid id is a number, DateTime
      values are UTC ticks, and an unset string is the empty string. */
  datatype FileMetadata = FileMetadata(
    id: nat,
    name: string,
    extension: string,
    size: int,
    createdAt: int,
    modifiedAt: int,
    uploadedBy: string,
    editedBy: string,
    remotePath: string)

  /** A file as the file system holds it: what FileInfo reports about it, and its bytes. */
  datatype DiskFile = DiskFile(name: string, content: seq<Byte>, createdAt: int, modifiedAt: int)

  /** A stored file whose name is the key it is stored under. */
  datatype Blob = Blob(content: seq<Byte>, createdAt: int, modifiedAt: int)

  function Names(files: seq<DiskFile>): set<string> {
    set f | f in files :: f.name
  }

  function RecordNames(records: seq<FileMetadata>): set<string> {
    set m | m in records :: m.name
  }

  /** No two files of a listing share a name, which a directory guarantees. */
  ghost predicate UniqueNames(files: seq<DiskFile>) {
    forall i, j :: 0 <= i < j < |files| ==> files[i].name != files[j].name
  }

  /** No two records share a name, which Enumerable.ToDictionary demands of its keys. */
  predicate UniqueRecordNames(records: seq<FileMetadata>) {
    forall i, j :: 0 <= i < j < |records| ==> records[i].name != records[j].name
  }

  /** The first file of a listing with the given name. */
  function FindFile(files: seq<DiskFile>, name: string): (r: Option<DiskFile>)
    ensures r.Some? <==> name in Names(files)
    ensures r.Some? ==> r.value in files && r.value.name == name
  {
    if files == [] then None
    else if files[0].name == name then Some(files[0])
    else FindFile(files[1..], name)
  }

  /** In a listing without repeated names, looking a file's name up finds that file. */
  lemma {:induction false} FindFileUnique(files: seq<DiskFile>, f: DiskFile)
    requires UniqueNames(files) && f in files
    ensures FindFile(files, f.name) == Some(f)
  {
    if files[0] != f {
      assert files[0].name != f.name by {
        var k :| 0 <= k < |files| && files[k] == f;
        assert k != 0;
      }
      assert f in files[1..];
      FindFileUnique(files[1..], f);
    }
  }

  /** The first record of a listing with the given name (FirstOrDefault by name). */
  function FindRecord(records: seq<FileMetadata>, name: string): (r: Option<FileMetadata>)
    ensures r.Some? <==> name in RecordNames(records)
    ensures r.Some? ==> r.value in records && r.value.name == name
    ensures r.Some? ==> exists k :: 0 <= k < |records| && records[k] == r.value
                                  && forall j :: 0 <= j < k ==> records[j].name != name
  {
    if records == [] then None
    else if records[0].name == name then Some(records[0])
    else FindRecord(records[1..], name)
  }

  /** The record GetLocalFilesAsync builds from a local file: name, extension, length and
      the two UTC times; id, attribution and remote path stay unset. */
  function LocalRecord(f: DiskFile): (m: FileMetadata)
    ensures m.name == f.name && m.size == |f.content|
    ensures m.extension == ExtensionOf(f.name)
    ensures m.createdAt == f.createdAt && m.modifiedAt == f.modifiedAt
    ensures m.uploadedBy == m.editedBy == m.remotePath == "" && m.id == 0
  {
    FileMetadata(0, f.name, ExtensionOf(f.name), |f.content|, f.createdAt, f.modifiedAt, "", "", "")
  }
}
