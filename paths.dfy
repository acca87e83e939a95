/** The parts of System.IO.Path the client uses, for Windows paths. */
module Paths {
  import opened Wrappers

  const DirectorySeparator: char := '\\'

  predicate IsSeparator(c: char) { c == '\\' || c == '/' }

  /** Path.Combine of a directory that does not end in a separator with a plain file name. */
  function Combine(dir: string, name: string): string {
    dir + [DirectorySeparator] + name
  }

  /** The file name that a path gives inside `dir`, when the path lies directly under it. */
  function NameIn(dir: string, path: string): (r: Option<string>)
    ensures r.Some? ==> Combine(dir, r.value) == path
  {
    if |dir| < |path| && path[..|dir| + 1] == dir + [DirectorySeparator]
    then Some(path[|dir| + 1..])
    else None
  }

  /** Combining a name with the directory and resolving it again gives back the name. */
  lemma NameInCombine(dir: string, name: string)
    ensures NameIn(dir, Combine(dir, name)) == Some(name)
  {
    var p := Combine(dir, name);
    assert p[..|dir| + 1] == dir + [DirectorySeparator];
    assert p[|dir| + 1..] == name;
  }

  /** The extension of a path starts at position `j`: a dot that is not the last character,
      with no further dot and no separator after it. */
  predicate ExtensionStartsAt(path: string, j: int) {
    0 <= j < |path| - 1 && path[j] == '.'
    && forall i :: j < i < |path| ==> path[i] != '.' && !IsSeparator(path[i])
  }

  /** Path.GetExtension: the text from the last dot of the final path segment, dot
      included; empty when there is no dot or when the dot is the last character. */
  function ExtensionOf(path: string): (ext: string)
    ensures ext != "" ==> |ext| <= |path| && ExtensionStartsAt(path, |path| - |ext|)
                          && ext == path[|path| - |ext|..]
    ensures ext == "" <==> forall j :: 0 <= j < |path| ==> !ExtensionStartsAt(path, j)
  {
    ExtensionFrom(path, |path|)
  }

  /** Scans `path` backwards from position `k`; nothing at or after `k` is a dot or a separator. */
  function ExtensionFrom(path: string, k: nat): (ext: string)
    requires k <= |path|
    requires forall i :: k <= i < |path| ==> path[i] != '.' && !IsSeparator(path[i])
    ensures ext != "" ==> |ext| <= |path| && ExtensionStartsAt(path, |path| - |ext|)
                          && ext == path[|path| - |ext|..]
    ensures ext == "" <==> forall j :: 0 <= j < |path| ==> !ExtensionStartsAt(path, j)
    decreases k
  {
    if k == 0 then ""
    else if path[k - 1] == '.' then
      if k == |path| then "" else path[k - 1..]
    else if IsSeparator(path[k - 1]) then ""
    else ExtensionFrom(path, k - 1)
  }
}
