/** The logic of the main window: which stored files the grid shows and in which order,
    and what double-clicking a row previews. Drawing, dialogs and message boxes are not
    part of this model. */
module MainFormLogic {
  import opened Wrappers
  import opened Text
  import opened FileModel
  import opened Ordering
  import opened RemoteStore

  /** The second entry of the filter box, ".js & .png only". */
  const JsAndPngOnly := 1

  /** The extensions that filter keeps, compared exactly as written (no case folding). */
  predicate IsJsOrPng(f: FileMetadata) {
    f.extension == ".js" || f.extension == ".png"
  }

  /** The files that the ".js & .png only" filter lets through, in their listed order. */
  function JsPngOnly(files: seq<FileMetadata>): (r: seq<FileMetadata>)
    ensures |r| <= |files|
  {
    if files == [] then []
    else (if IsJsOrPng(files[0]) then [files[0]] else []) + JsPngOnly(files[1..])
  }

  /** The filter keeps every .js and .png file as often as it is listed and nothing else. */
  lemma {:induction false} JsPngOnlyContents(files: seq<FileMetadata>, f: FileMetadata)
    ensures multiset(JsPngOnly(files))[f] == if IsJsOrPng(f) then multiset(files)[f] else 0
  {
    if files != [] {
      assert files == [files[0]] + files[1..];
      JsPngOnlyContents(files[1..], f);
    }
  }

  /** Filtering a concatenation filters each part: the filter keeps the listed order. */
  lemma {:induction false} JsPngOnlyAppend(a: seq<FileMetadata>, b: seq<FileMetadata>)
    ensures JsPngOnly(a + b) == JsPngOnly(a) + JsPngOnly(b)
  {
    if a == [] {
      assert a + b == b;
    } else {
      var head := if IsJsOrPng(a[0]) then [a[0]] else [];
      assert (a + b)[0] == a[0];
      assert (a + b)[1..] == a[1..] + b;
      assert JsPngOnly(a + b) == head + JsPngOnly(a[1..] + b);
      JsPngOnlyAppend(a[1..], b);
      assert JsPngOnly(a) == head + JsPngOnly(a[1..]);
      assert head + (JsPngOnly(a[1..]) + JsPngOnly(b)) == (head + JsPngOnly(a[1..])) + JsPngOnly(b);
    }
  }

  /** The filter box: index 1 keeps the .js and .png files, every other index keeps all. */
  function Filtered(files: seq<FileMetadata>, filterIndex: int): (r: seq<FileMetadata>)
    ensures filterIndex != JsAndPngOnly ==> r == files
    ensures filterIndex == JsAndPngOnly ==> r == JsPngOnly(files)
  {
    if filterIndex == JsAndPngOnly then JsPngOnly(files) else files
  }

  function ExtensionKey(f: FileMetadata): string {
    f.extension
  }

  /** OrderBy sorts by the collation, OrderByDescending by the collation read backwards. */
  function Direction(ascending: bool, collation: (string, string) -> bool): (string, string) -> bool {
    if ascending then collation else Flip(collation)
  }

  /** The rows of the grid. */
  function Displayed(files: seq<FileMetadata>, filterIndex: int, ascending: bool,
                     collation: (string, string) -> bool): seq<FileMetadata>
  {
    SortBy(Filtered(files, filterIndex), ExtensionKey, Direction(ascending, collation))
  }

  /** The grid shows exactly the files the filter keeps, as many times as they are listed,
      ordered by extension upwards or downwards as the sort button says. */
  lemma DisplayedIsSortedView(files: seq<FileMetadata>, filterIndex: int, ascending: bool,
                              collation: (string, string) -> bool)
    requires TotalPreorder(collation)
    ensures multiset(Displayed(files, filterIndex, ascending, collation))
         == multiset(Filtered(files, filterIndex))
    ensures var r := Displayed(files, filterIndex, ascending, collation);
      ascending ==> forall i, j :: 0 <= i < j < |r| ==> collation(r[i].extension, r[j].extension)
    ensures var r := Displayed(files, filterIndex, ascending, collation);
      !ascending ==> forall i, j :: 0 <= i < j < |r| ==> collation(r[j].extension, r[i].extension)
  {
    var s := Filtered(files, filterIndex);
    if ascending {
      SortBySorted(s, ExtensionKey, collation);
    } else {
      FlipTotalPreorder(collation);
      SortBySorted(s, ExtensionKey, Flip(collation));
    }
  }

  /** Reading the collation backwards ties the same keys. */
  lemma {:induction false} TiedWithFlip<T>(s: seq<T>, key: T -> string, le: (string, string) -> bool, k: string)
    ensures TiedWith(s, key, Flip(le), k) == TiedWith(s, key, le, k)
  {
    if s != [] {
      assert Tied(Flip(le), key(s[0]), k) == Tied(le, key(s[0]), k);
      TiedWithFlip(s[1..], key, le, k);
    }
  }

  /** Both sorts are stable: files whose extensions the collation cannot tell apart keep
      the order in which the listing (after the filter) had them. */
  lemma DisplayedIsStable(files: seq<FileMetadata>, filterIndex: int, ascending: bool,
                          collation: (string, string) -> bool, k: string)
    requires TotalPreorder(collation)
    ensures TiedWith(Displayed(files, filterIndex, ascending, collation), ExtensionKey, collation, k)
         == TiedWith(Filtered(files, filterIndex), ExtensionKey, collation, k)
  {
    var s := Filtered(files, filterIndex);
    if ascending {
      SortByStable(s, ExtensionKey, collation, k);
    } else {
      FlipTotalPreorder(collation);
      SortByStable(s, ExtensionKey, Flip(collation), k);
      TiedWithFlip(SortBy(s, ExtensionKey, Flip(collation)), ExtensionKey, collation, k);
      TiedWithFlip(s, ExtensionKey, collation, k);
    }
  }

  /** The number of characters of a Kotlin file that the preview shows. */
  const PreviewLimit := 50000

  /** Appended to a preview that was cut short. */
  const TruncationNotice := "\n\n...[ФАЙЛ ЗНАЧНО ВЕЛИКИЙ, ВІДОБРАЖЕНО ЛИШЕ ПЕРШІ 50KB]..."

  /** The text placed in the preview box for a Kotlin file's content. */
  function TruncatePreview(content: string): (shown: string)
    ensures |content| <= PreviewLimit ==> shown == content
    ensures |content| > PreviewLimit ==>
      |shown| == PreviewLimit + |TruncationNotice| && shown[..PreviewLimit] == content[..PreviewLimit]
      && shown[PreviewLimit..] == TruncationNotice
  {
    if |content| > PreviewLimit then content[..PreviewLimit] + TruncationNotice else content
  }

  /** The preview never exceeds the limit plus the notice and always begins with the
      file's own text up to the limit. */
  lemma TruncatePreviewBounds(content: string)
    ensures |TruncatePreview(content)| <= PreviewLimit + |TruncationNotice|
    ensures var n := if |content| < PreviewLimit then |content| else PreviewLimit;
      TruncatePreview(content)[..n] == content[..n]
  {
    if |content| > PreviewLimit {
      assert TruncatePreview(content)[..PreviewLimit] == content[..PreviewLimit];
    }
  }

  /** What a double-click on a row opens, chosen by the row's extension in lower case. */
  datatype PreviewKind = KotlinText | Picture | NotPreviewable

  function PreviewKindOf(extension: string): PreviewKind {
    var e := Lower(extension);
    if e == ".kt" then KotlinText
    else if e == ".jpg" || e == ".jpeg" then Picture
    else NotPreviewable
  }

  /** `e` spells the lower-case word `w`, any of its letters possibly in upper case. */
  predicate SpelledAs(e: string, w: string) {
    |e| == |w|
    && forall i :: 0 <= i < |e| ==>
         e[i] == w[i] || ('a' <= w[i] <= 'z' && e[i] as int == w[i] as int - 32)
  }

  /** Lowering a string gives a word without upper-case letters exactly when the string
      spells that word. */
  lemma LowerIsSpelledAs(e: string, w: string)
    requires forall i :: 0 <= i < |w| ==> !('A' <= w[i] <= 'Z')
    ensures Lower(e) == w <==> SpelledAs(e, w)
  {
    if SpelledAs(e, w) {
      forall i | 0 <= i < |e| ensures Lower(e)[i] == w[i] {
        if e[i] != w[i] {
          assert (e[i] as int + 32) as char == w[i];
        }
      }
    }
    if Lower(e) == w {
      forall i | 0 <= i < |e|
        ensures e[i] == w[i] || ('a' <= w[i] <= 'z' && e[i] as int == w[i] as int - 32)
      {
        assert LowerChar(e[i]) == w[i];
      }
    }
  }

  /** Kotlin files are those spelled ".kt" and pictures those spelled ".jpg" or ".jpeg",
      in any mixture of cases; everything else is refused. */
  lemma PreviewKindOfSpelling(extension: string)
    ensures PreviewKindOf(extension) == KotlinText <==> SpelledAs(extension, ".kt")
    ensures PreviewKindOf(extension) == Picture
        <==> SpelledAs(extension, ".jpg") || SpelledAs(extension, ".jpeg")
    ensures PreviewKindOf(extension) == NotPreviewable
        <==> !SpelledAs(extension, ".kt") && !SpelledAs(extension, ".jpg") && !SpelledAs(extension, ".jpeg")
  {
    LowerIsSpelledAs(extension, ".kt");
    LowerIsSpelledAs(extension, ".jpg");
    LowerIsSpelledAs(extension, ".jpeg");
  }

  /** What the preview area ends up showing. */
  datatype Preview =
    | TextShown(text: string)
    | PictureShown(image: seq<Byte>)
    | Refused(extension: string)

  /** The main window's state that decides the grid's content. */
  class MainForm {
    const fileService: MockFileService
    const token: string
    var allFiles: seq<FileMetadata>
    var filterIndex: int
    var sortExtAsc: bool
    /** The rows bound to the grid. */
    var shown: seq<FileMetadata>

    ghost predicate Valid()
      reads this, fileService
    {
      fileService.Valid()
    }

    /** The window opens with the "All" filter and the ascending sort, then loads the
        listing from the store; a refused token leaves it empty. */
    constructor (fileService: MockFileService, token: string)
      requires fileService.Valid()
      modifies fileService`sidecars, fileService`nextId
      ensures Valid()
      ensures this.fileService == fileService && this.token == token
      ensures filterIndex == 0 && sortExtAsc
      ensures !old(fileService.Authorized(token)) ==>
        allFiles == [] && shown == [] && unchanged(fileService)
      ensures old(fileService.Authorized(token)) ==>
        && (exists order :: ListingOutcome(fileService.storageDir, fileService.blobs,
              fileService.tokens[token], fileService.collation, old(fileService.sidecars),
              old(fileService.nextId), order, fileService.sidecars, fileService.nextId, allFiles))
        && shown == Displayed(allFiles, filterIndex, sortExtAsc, fileService.collation)
    {
      this.fileService := fileService;
      this.token := token;
      allFiles := [];
      filterIndex := 0;
      sortExtAsc := true;
      shown := [];
      new;
      LoadFiles();
    }

    /** Rebinds the grid to the filtered and sorted files. */
    method ApplyFilterAndSort()
      modifies this`shown
      ensures shown == Displayed(allFiles, filterIndex, sortExtAsc, fileService.collation)
    {
      var query := Filtered(allFiles, filterIndex);
      shown := SortBy(query, ExtensionKey, Direction(sortExtAsc, fileService.collation));
    }

    /** The "Sort by ext" button flips the direction and re-sorts; two clicks in a row
        restore the direction. */
    method ClickSortByExtension()
      modifies this`sortExtAsc, this`shown
      ensures sortExtAsc == !old(sortExtAsc)
      ensures shown == Displayed(allFiles, filterIndex, sortExtAsc, fileService.collation)
    {
      sortExtAsc := !sortExtAsc;
      ApplyFilterAndSort();
    }

    /** A new choice in the filter box. */
    method SelectFilter(index: int)
      modifies this`filterIndex, this`shown
      ensures filterIndex == index
      ensures shown == Displayed(allFiles, filterIndex, sortExtAsc, fileService.collation)
    {
      filterIndex := index;
      ApplyFilterAndSort();
    }

    /** Reloads the listing from the store; a refused token leaves the grid as it was. */
    method LoadFiles()
      requires Valid()
      modifies this`allFiles, this`shown, fileService`sidecars, fileService`nextId
      ensures Valid()
      ensures !old(fileService.Authorized(token)) ==>
        allFiles == old(allFiles) && shown == old(shown) && unchanged(fileService)
      ensures old(fileService.Authorized(token)) ==>
        && (exists order :: ListingOutcome(fileService.storageDir, fileService.blobs,
              fileService.tokens[token], fileService.collation, old(fileService.sidecars),
              old(fileService.nextId), order, fileService.sidecars, fileService.nextId, allFiles))
        && shown == Displayed(allFiles, filterIndex, sortExtAsc, fileService.collation)
    {
      var r, order := fileService.ListFiles(token);
      if r.Ok? {
        allFiles := r.value;
        ApplyFilterAndSort();
      }
    }

    /** A double-click on a row: Kotlin text and pictures are fetched from the store and
        shown, Kotlin text cut to the preview limit; any other extension is refused without
        asking the store for the file. `decode` reads the bytes as text. */
    method OpenPreview(row: FileMetadata, decode: seq<Byte> -> string) returns (r: Result<Preview>)
      ensures PreviewKindOf(row.extension) == NotPreviewable ==> r == Ok(Refused(Lower(row.extension)))
      ensures PreviewKindOf(row.extension) != NotPreviewable && !fileService.Authorized(token) ==>
        r == Err(Unauthorized)
      ensures (PreviewKindOf(row.extension) != NotPreviewable && fileService.Authorized(token)
               && !fileService.IsStored(row.remotePath)) ==> r == Err(NotFound)
      ensures (PreviewKindOf(row.extension) == KotlinText && fileService.Authorized(token)
               && fileService.IsStored(row.remotePath)) ==>
        r == Ok(TextShown(TruncatePreview(decode(
               fileService.blobs[fileService.NameAt(row.remotePath).value].content))))
      ensures (PreviewKindOf(row.extension) == Picture && fileService.Authorized(token)
               && fileService.IsStored(row.remotePath)) ==>
        r == Ok(PictureShown(fileService.blobs[fileService.NameAt(row.remotePath).value].content))
    {
      var kind := PreviewKindOf(row.extension);
      if kind == NotPreviewable {
        return Ok(Refused(Lower(row.extension)));
      }
      var s := fileService.GetFileStream(token, row.remotePath);
      if s.Err? {
        return Err(s.error);
      }
      if kind == KotlinText {
        r := Ok(TextShown(TruncatePreview(decode(s.value))));
      } else {
        r := Ok(PictureShown(s.value));
      }
    }
  }
}
