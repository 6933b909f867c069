// The older Tauri front end's file helpers (src/hooks/useFileOperations.ts):
// the recursive directory scan that collects ".xlf" files, over an abstract
// directory tree whose listings may fail. Its parseT3FileName is the same
// text as the React front end's and is FileOperations.ParseT3FileName; its
// loadFile is FileOperations.LoadFile with an empty version falling back.

module TauriFileOperations {
  import opened Common

  /** A directory listing: readDir either throws or yields entries in order. */
  datatype Listing = Unreadable | Listed(entries: seq<Entry>)

  /** A readDir entry; `listing` is what reading it as a directory would give. */
  datatype Entry = Entry(name: string, isDirectory: bool, listing: Listing)

  datatype NamedPath = NamedPath(name: string, path: string)

  /** What scanForXliffFiles collects from a directory with this listing. */
  function XliffFilesIn(dirPath: string, listing: Listing): seq<NamedPath>
    decreases listing, 2
  {
    match listing
    case Unreadable => []
    case Listed(entries) => XliffFilesAmong(dirPath, entries)
  }

  function XliffFilesAmong(dirPath: string, entries: seq<Entry>): seq<NamedPath>
    decreases entries, 1
  {
    if entries == [] then []
    else XliffFilesAmong(dirPath, entries[..|entries| - 1]) + XliffFilesOf(dirPath, entries[|entries| - 1])
  }

  /** One loop iteration: skip a nameless entry, recurse into a directory, keep a ".xlf" file. */
  function XliffFilesOf(dirPath: string, e: Entry): seq<NamedPath>
    decreases e, 0
  {
    if e.name == "" then []
    else if e.isDirectory then XliffFilesIn(dirPath + "/" + e.name, e.listing)
    else if HasSuffix(e.name, ".xlf") then [NamedPath(e.name, dirPath + "/" + e.name)]
    else []
  }

  method ScanForXliffFiles(dirPath: string, listing: Listing) returns (xliffFiles: seq<NamedPath>)
    ensures xliffFiles == XliffFilesIn(dirPath, listing)
    decreases listing
  {
    if listing.Unreadable? {
      return [];
    }
    var entries := listing.entries;
    xliffFiles := [];
    var i := 0;
    while i < |entries|
      invariant 0 <= i <= |entries|
      invariant xliffFiles == XliffFilesAmong(dirPath, entries[..i])
    {
      var entry := entries[i];
      assert entries[..i + 1][..i] == entries[..i];
      if entry.name != "" {
        var fullPath := dirPath + "/" + entry.name;
        if entry.isDirectory {
          var subFiles := ScanForXliffFiles(fullPath, entry.listing);
          xliffFiles := xliffFiles + subFiles;
        } else if HasSuffix(entry.name, ".xlf") {
          xliffFiles := xliffFiles + [NamedPath(entry.name, fullPath)];
        }
      }
      i := i + 1;
    }
    assert entries[..|entries|] == entries;
  }

  /** Every result is a ".xlf" file below the scanned directory; ".xliff" files are never collected. */
  lemma {:induction false} CollectedAreXlf(dirPath: string, listing: Listing)
    ensures forall f :: f in XliffFilesIn(dirPath, listing) ==>
      HasSuffix(f.name, ".xlf") && HasPrefix(f.path, dirPath + "/") && HasSuffix(f.path, "/" + f.name)
    decreases listing, 2
  {
    if listing.Listed? {
      CollectedAreXlfAmong(dirPath, listing.entries);
    }
  }

  lemma {:induction false} CollectedAreXlfAmong(dirPath: string, entries: seq<Entry>)
    ensures forall f :: f in XliffFilesAmong(dirPath, entries) ==>
      HasSuffix(f.name, ".xlf") && HasPrefix(f.path, dirPath + "/") && HasSuffix(f.path, "/" + f.name)
    decreases entries, 1
  {
    if entries != [] {
      CollectedAreXlfAmong(dirPath, entries[..|entries| - 1]);
      var e := entries[|entries| - 1];
      if e.name != "" && e.isDirectory {
        var sub := dirPath + "/" + e.name;
        CollectedAreXlf(sub, e.listing);
        forall f | f in XliffFilesIn(sub, e.listing) ensures HasPrefix(f.path, dirPath + "/") {
          assert HasPrefix(f.path, sub + "/");
          assert (sub + "/")[..|dirPath + "/"|] == dirPath + "/";
        }
      }
    }
  }

  /** Results follow the entry order: the files of a listing are those of its first part, then those of the rest. */
  lemma {:induction false} CollectedInOrder(dirPath: string, a: seq<Entry>, b: seq<Entry>)
    ensures XliffFilesAmong(dirPath, a + b) == XliffFilesAmong(dirPath, a) + XliffFilesAmong(dirPath, b)
    decreases |b|
  {
    if b == [] {
      assert a + b == a;
    } else {
      var b' := b[..|b| - 1];
      assert (a + b)[..|a + b| - 1] == a + b';
      CollectedInOrder(dirPath, a, b');
    }
  }

  /** A subdirectory whose listing fails contributes nothing; its siblings are still collected. */
  lemma UnreadableSubdirectoryIsSkipped(dirPath: string, a: seq<Entry>, name: string, b: seq<Entry>)
    ensures XliffFilesAmong(dirPath, a + [Entry(name, true, Unreadable)] + b)
      == XliffFilesAmong(dirPath, a) + XliffFilesAmong(dirPath, b)
  {
    var e := Entry(name, true, Unreadable);
    CollectedInOrder(dirPath, a + [e], b);
    CollectedInOrder(dirPath, a, [e]);
    assert [e][..0] == [];
    assert XliffFilesOf(dirPath, e) == [];
    assert XliffFilesAmong(dirPath, [e]) == XliffFilesAmong(dirPath, []) + XliffFilesOf(dirPath, e);
  }

  /** Hidden directories are walked like any other. */
  lemma HiddenDirectoriesAreScanned(dirPath: string)
    ensures XliffFilesIn(dirPath, Listed([Entry(".git", true, Listed([Entry("de.x.xlf", false, Unreadable)]))]))
      == [NamedPath("de.x.xlf", dirPath + "/.git/de.x.xlf")]
  {
    var inner := [Entry("de.x.xlf", false, Unreadable)];
    assert inner[..0] == [];
    var outer := [Entry(".git", true, Listed(inner))];
    assert outer[..0] == [];
    assert dirPath + "/" + ".git" + "/" + "de.x.xlf" == dirPath + "/.git/de.x.xlf";
  }
}
