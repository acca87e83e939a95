/** The local directory that the synchronisation reads and writes, in the order in which
    Directory.GetFiles lists it. */
module LocalFs {
  import opened Wrappers
  import opened FileModel

  /** The listing after a FileStream in FileMode.Create has written `content` to `name` at
      time `now`: an existing file is truncated and rewritten where it is and keeps its
      creation time; a new file joins the end of the listing. */
  function Written(files: seq<DiskFile>, name: string, content: seq<Byte>, now: int): seq<DiskFile> {
    if files == [] then [DiskFile(name, content, now, now)]
    else if files[0].name == name then [DiskFile(name, content, files[0].createdAt, now)] + files[1..]
    else [files[0]] + Written(files[1..], name, content, now)
  }

  /** The listing after File.SetLastWriteTimeUtc(name, t); a missing name changes nothing. */
  function Touched(files: seq<DiskFile>, name: string, t: int): seq<DiskFile> {
    if files == [] then []
    else if files[0].name == name then [DiskFile(name, files[0].content, files[0].createdAt, t)] + files[1..]
    else [files[0]] + Touched(files[1..], name, t)
  }

  lemma NamesCons(f: DiskFile, files: seq<DiskFile>)
    ensures Names([f] + files) == {f.name} + Names(files)
  {
    var s := [f] + files;
    forall n | n in Names(s) ensures n in {f.name} + Names(files) {
      var g :| g in s && g.name == n;
      if g != f { assert g in files; }
    }
    forall n | n in Names(files) ensures n in Names(s) {
      var g :| g in files && g.name == n;
      assert g in s;
    }
  }

  lemma UniqueCons(f: DiskFile, files: seq<DiskFile>)
    ensures UniqueNames([f] + files) <==> f.name !in Names(files) && UniqueNames(files)
  {
    var s := [f] + files;
    if UniqueNames(s) {
      forall i, j | 0 <= i < j < |files| ensures files[i].name != files[j].name {
        assert s[i + 1] == files[i] && s[j + 1] == files[j];
      }
      forall g | g in files ensures g.name != f.name {
        var k :| 0 <= k < |files| && files[k] == g;
        assert s[0] == f && s[k + 1] == g;
        assert s[0].name != s[k + 1].name;
      }
    }
    if f.name !in Names(files) && UniqueNames(files) {
      forall i, j | 0 <= i < j < |s| ensures s[i].name != s[j].name {
        if i == 0 { assert s[j] in files; } else { assert s[i] == files[i - 1] && s[j] == files[j - 1]; }
      }
    }
  }

  lemma FindFileCons(f: DiskFile, files: seq<DiskFile>, n: string)
    ensures FindFile([f] + files, n) == if f.name == n then Some(f) else FindFile(files, n)
  {
    assert ([f] + files)[1..] == files;
  }

  /** Writing adds `name` to the directory's names and keeps them unique. */
  lemma {:induction false} WrittenNames(files: seq<DiskFile>, name: string, content: seq<Byte>, now: int)
    ensures Names(Written(files, name, content, now)) == Names(files) + {name}
    ensures UniqueNames(files) ==> UniqueNames(Written(files, name, content, now))
  {
    var r := Written(files, name, content, now);
    if files == [] {
      NamesCons(r[0], []);
      assert r == [r[0]] + [];
    } else {
      var f, rest := files[0], files[1..];
      assert files == [f] + rest;
      NamesCons(f, rest);
      UniqueCons(f, rest);
      if f.name == name {
        NamesCons(r[0], rest);
        UniqueCons(r[0], rest);
      } else {
        var w := Written(rest, name, content, now);
        WrittenNames(rest, name, content, now);
        NamesCons(f, w);
        UniqueCons(f, w);
      }
    }
  }

  /** After the write the file named `name` holds the new content with the write time as its
      modification time and keeps an old file's creation time; no other file changes. */
  lemma {:induction false} WrittenFind(files: seq<DiskFile>, name: string, content: seq<Byte>, now: int, n: string)
    ensures FindFile(Written(files, name, content, now), n)
         == if n != name then FindFile(files, n)
            else Some(DiskFile(name, content,
                   if FindFile(files, name).Some? then FindFile(files, name).value.createdAt else now, now))
  {
    var r := Written(files, name, content, now);
    if files == [] {
      FindFileCons(r[0], [], n);
      assert r == [r[0]] + [];
    } else {
      var f, rest := files[0], files[1..];
      assert files == [f] + rest;
      FindFileCons(f, rest, n);
      FindFileCons(f, rest, name);
      if f.name == name {
        FindFileCons(r[0], rest, n);
      } else {
        WrittenFind(rest, name, content, now, n);
        FindFileCons(f, Written(rest, name, content, now), n);
      }
    }
  }

  /** Setting the modification time of an existing file keeps the names. */
  lemma {:induction false} TouchedNames(files: seq<DiskFile>, name: string, t: int)
    ensures Names(Touched(files, name, t)) == Names(files)
    ensures UniqueNames(files) ==> UniqueNames(Touched(files, name, t))
  {
    if files != [] {
      var r := Touched(files, name, t);
      var f, rest := files[0], files[1..];
      assert files == [f] + rest;
      NamesCons(f, rest);
      UniqueCons(f, rest);
      if f.name == name {
        NamesCons(r[0], rest);
        UniqueCons(r[0], rest);
      } else {
        var w := Touched(rest, name, t);
        TouchedNames(rest, name, t);
        NamesCons(f, w);
        UniqueCons(f, w);
      }
    }
  }

  /** Setting the modification time of a file changes that time and nothing else. */
  lemma {:induction false} TouchedFind(files: seq<DiskFile>, name: string, t: int, n: string)
    ensures FindFile(Touched(files, name, t), n)
         == if n == name && FindFile(files, name).Some?
            then var f := FindFile(files, name).value; Some(DiskFile(name, f.content, f.createdAt, t))
            else FindFile(files, n)
  {
    if files != [] {
      var r := Touched(files, name, t);
      var f, rest := files[0], files[1..];
      assert files == [f] + rest;
      FindFileCons(f, rest, n);
      FindFileCons(f, rest, name);
      if f.name == name {
        FindFileCons(r[0], rest, n);
      } else {
        TouchedFind(rest, name, t, n);
        FindFileCons(f, Touched(rest, name, t), n);
      }
    }
  }

  /** A directory that exists; a path that names no directory is modelled as `null`. */
  class LocalFolder {
    var files: seq<DiskFile>

    ghost predicate Valid()
      reads this
    {
      UniqueNames(files)
    }

    constructor (files: seq<DiskFile>)
      requires UniqueNames(files)
      ensures Valid() && this.files == files
    {
      this.files := files;
    }

    /** File.Exists on a path inside this directory. */
    predicate FileExists(name: string)
      reads this
    {
      name in Names(files)
    }

    /** Creates or overwrites `name` with `content`, as a FileStream in FileMode.Create
        followed by a copy of the whole stream. */
    method WriteFile(name: string, content: seq<Byte>, now: int)
      requires Valid()
      modifies this
      ensures Valid()
      ensures files == Written(old(files), name, content, now)
    {
      WrittenNames(files, name, content, now);
      files := Written(files, name, content, now);
    }

    /** File.SetLastWriteTimeUtc on a file of this directory. */
    method SetLastWriteTimeUtc(name: string, t: int)
      requires Valid() && FileExists(name)
      modifies this
      ensures Valid()
      ensures files == Touched(old(files), name, t)
    {
      TouchedNames(files, name, t);
      files := Touched(files, name, t);
    }
  }
}
