/** `FileManager`: turns a directory listing into the snapshot of `FileInfo`
    records that every other component works on. The filesystem is reached
    only through a `Listing`, the answer of the environment for the target
    directory: the entries the directory iterator produced, in iteration
    order, with each entry's kind and the outcome of reading its size. */
module Manager {

  import opened Optional
  import opened Strings
  import opened Records

  /** One entry produced by the directory iterator: its full path, whether it
      is a regular file, and what `file_size` yields for it (`None` when the
      metadata cannot be read). */
  datatype DirEntry = DirEntry(path: string, isRegularFile: bool, size: Option<nat>)

  /** What the filesystem answers for the target directory: it does not exist
      (or is not a directory), or the iterator produced `entries` and then
      either finished or threw (`interrupted`). */
  datatype Listing = Missing | Listed(entries: seq<DirEntry>, interrupted: bool)

  /** `path.filename()`: the last component of a path, after its last `/`. */
  function FileName(path: string): (r: string)
    ensures '/' !in r
    ensures |r| <= |path| && r == path[|path| - |r|..]
  {
    LastIndexOfSpec(path, '/');
    match LastIndexOf(path, '/')
    case None => path
    case Some(k) => path[k + 1..]
  }

  /** `filename()` is the whole last component: either it is the whole path
      or a `/` comes right before it. */
  lemma FileNameIsLastComponent(path: string)
    ensures var r := FileName(path); |r| < |path| ==> path[|path| - |r| - 1] == '/'
  {
    LastIndexOfSpec(path, '/');
  }

  /** Only one suffix of a path has no `/` and is either the whole path or
      preceded by a `/`: the file name. */
  lemma FileNameUnique(path: string, s: string)
    requires '/' !in s && |s| <= |path| && s == path[|path| - |s|..]
    requires |s| < |path| ==> path[|path| - |s| - 1] == '/'
    ensures s == FileName(path)
  {
    FileNameIsLastComponent(path);
  }

  /** The file name of `dir + "/" + name` is `name` when `name` has no `/`. */
  lemma FileNameOfJoin(dir: string, name: string)
    requires '/' !in name
    ensures FileName(dir + "/" + name) == name
  {
    assert dir + "/" + name == dir + ['/'] + name;
    LastIndexOfJoin(dir, '/', name);
    assert (dir + "/" + name)[|dir| + 1..] == name;
  }

  /** `extractExtension`: the suffix from the last `.`, lower-cased, provided
      that dot is not the first character; otherwise the empty string. */
  function ExtractExtension(filename: string): string
  {
    LastIndexOfSpec(filename, '.');
    match LastIndexOf(filename, '.')
    case None => ""
    case Some(k) => if k > 0 then ToLowercase(filename[k..]) else ""
  }

  /** A non-empty extension starts with a dot, holds no other dot and no
      capital, and is a proper suffix of the lower-cased name. */
  lemma ExtractExtensionShape(filename: string)
    ensures var r := ExtractExtension(filename);
      && (r != "" ==> r[0] == '.' && '.' !in r[1..] && NoUpper(r))
      && (r != "" ==> |r| < |filename| && r == ToLowercase(filename)[|filename| - |r|..])
  {
    LastIndexOfSpec(filename, '.');
    match LastIndexOf(filename, '.')
    case None =>
    case Some(k) =>
      if k > 0 {
        SuffixFromLastDot(filename, k);
      }
  }

  /** The lower-cased suffix from the last dot starts with that dot, holds no
      other dot and no capital, and is the same suffix of the lower-cased
      name. */
  lemma SuffixFromLastDot(filename: string, k: nat)
    requires k < |filename| && filename[k] == '.' && '.' !in filename[k + 1..]
    ensures var ext := ToLowercase(filename[k..]);
      && ext[0] == '.' && '.' !in ext[1..] && NoUpper(ext)
      && ext == ToLowercase(filename)[k..]
  {
    var ext := ToLowercase(filename[k..]);
    ToLowercaseSuffix(filename, k);
    ToLowercaseHasNoUpper(filename[k..]);
    forall i | 1 <= i < |ext| ensures ext[i] != '.' {
      assert filename[k..][i] == filename[k + 1..][i - 1];
    }
  }

  /** A name with no dot has no extension. */
  lemma NoDotNoExtension(filename: string)
    requires '.' !in filename
    ensures ExtractExtension(filename) == ""
  {
    LastIndexOfSpec(filename, '.');
  }

  /** When the last dot is at position `k > 0`, the extension is the
      lower-cased suffix starting at that dot. */
  lemma ExtensionAtLastDot(filename: string, k: nat)
    requires 0 < k < |filename| && filename[k] == '.' && '.' !in filename[k + 1..]
    ensures ExtractExtension(filename) == ToLowercase(filename[k..])
  {
    LastIndexOfUnique(filename, '.', k);
  }

  /** A name whose only dot is its first character (a dotfile such as
      `.gitignore`) has NO extension. */
  lemma DotfileHasNoExtension(filename: string)
    requires |filename| > 0 && filename[0] == '.' && '.' !in filename[1..]
    ensures ExtractExtension(filename) == ""
  {
    LastIndexOfUnique(filename, '.', 0);
  }

  /** There is an extension exactly when a dot occurs after the first
      character. */
  lemma HasExtensionIff(filename: string)
    ensures ExtractExtension(filename) != "" <==> exists k :: 0 < k < |filename| && filename[k] == '.'
  {
    var r := LastIndexOf(filename, '.');
    LastIndexOfSpec(filename, '.');
    if k :| 0 < k < |filename| && filename[k] == '.' {
      assert filename[k] in filename;
      assert ToLowercase(filename[r.value..])[0] == '.';
    }
  }

  /** Lower-casing a name first does not change its extension. */
  lemma ExtensionIgnoresCase(filename: string)
    ensures ExtractExtension(ToLowercase(filename)) == ExtractExtension(filename)
  {
    LastDotOfLowercase(filename);
    match LastIndexOf(filename, '.')
    case None =>
    case Some(k) =>
      if k > 0 {
        ToLowercaseSuffix(filename, k);
        ToLowercaseIdempotent(filename[k..]);
      }
  }

  /** A stem, a dot and a suffix without dots: the extension is the dot and
      the lower-cased suffix, whatever the stem holds (`archive.tar.gz` has
      the extension `.gz`, `Photo.JPG` the extension `.jpg`). */
  lemma ExtensionOfJoin(stem: string, suffix: string)
    requires |stem| > 0 && '.' !in suffix
    ensures ExtractExtension(stem + "." + suffix) == "." + ToLowercase(suffix)
  {
    var name := stem + "." + suffix;
    assert name[|stem| + 1..] == suffix;
    ExtensionAtLastDot(name, |stem|);
    assert name[|stem|..] == ['.'] + suffix;
    ToLowercaseCons('.', suffix);
  }

  lemma ExtensionOfNoDotAndDotfile()
    ensures ExtractExtension("README") == ""
    ensures ExtractExtension(".gitignore") == ""
  {
    NoDotNoExtension("README");
    DotfileHasNoExtension(".gitignore");
  }

  /** A record as `getFileInfo` builds it: its name is the last component of
      its path and its extension is extracted from that name. The default
      record qualifies too. */
  predicate WellFormed(f: FileInfo) {
    f.name == FileName(f.path) && f.extension == ExtractExtension(f.name)
  }

  /** `getFileInfo`: the record of the file at `path`, where `size` is what
      reading its size yields; when that read fails the default record is
      returned in place of an error. */
  function GetFileInfo(path: string, size: Option<nat>): (r: FileInfo)
    ensures WellFormed(r)
    ensures size.None? ==> r == Default()
    ensures size.Some? ==> r.path == path && r.size == size.value && r.hash == ""
  {
    match size
    case None =>
      assert LastIndexOf("", '/') == None;
      assert LastIndexOf("", '.') == None;
      Default()
    case Some(s) =>
      var filename := FileName(path);
      Make(filename, path, ExtractExtension(filename), s)
  }

  /** A failed metadata read cannot be told apart from an empty file whose
      name is empty. */
  lemma FailedReadLooksEmpty(path: string, other: string)
    requires FileName(other) == ""
    ensures Same(GetFileInfo(path, None), GetFileInfo(other, Some(0)))
  {
  }

  function Record(e: DirEntry): FileInfo {
    GetFileInfo(e.path, e.size)
  }

  /** The records a scan collects from `entries`: one per regular file, in
      iteration order. */
  function Snapshot(entries: seq<DirEntry>): seq<FileInfo> {
    if entries == [] then []
    else
      var last := entries[|entries| - 1];
      Snapshot(entries[..|entries| - 1]) + (if last.isRegularFile then [Record(last)] else [])
  }

  /** Scanning a listing in two parts gives the two snapshots one after the
      other: records keep the iteration order. */
  lemma {:induction false} SnapshotAppend(a: seq<DirEntry>, b: seq<DirEntry>)
    ensures Snapshot(a + b) == Snapshot(a) + Snapshot(b)
    decreases |b|
  {
    if b == [] {
      assert a + b == a;
    } else {
      var b' := b[..|b| - 1];
      assert (a + b)[..|a + b| - 1] == a + b';
      SnapshotAppend(a, b');
    }
  }

  /** One more entry adds its record when it is a regular file. */
  lemma SnapshotSnoc(entries: seq<DirEntry>, i: nat)
    requires i < |entries|
    ensures Snapshot(entries[..i + 1])
         == Snapshot(entries[..i]) + (if entries[i].isRegularFile then [Record(entries[i])] else [])
  {
    assert entries[..i + 1][..i] == entries[..i];
  }

  /** There are at most as many records as entries, and every record is
      well formed. */
  lemma {:induction false} SnapshotBounds(entries: seq<DirEntry>)
    ensures |Snapshot(entries)| <= |entries|
    ensures forall r :: r in Snapshot(entries) ==> WellFormed(r)
  {
    if entries != [] {
      SnapshotBounds(entries[..|entries| - 1]);
    }
  }

  /** `r` is the record of the regular-file entry at some position. */
  predicate RecordOfRegularFile(entries: seq<DirEntry>, r: FileInfo) {
    exists i :: 0 <= i < |entries| && entries[i].isRegularFile && Record(entries[i]) == r
  }

  lemma RecordOfRegularFileKept(entries: seq<DirEntry>, e: DirEntry, r: FileInfo)
    requires RecordOfRegularFile(entries, r)
    ensures RecordOfRegularFile(entries + [e], r)
  {
    var i :| 0 <= i < |entries| && entries[i].isRegularFile && Record(entries[i]) == r;
    assert (entries + [e])[i] == entries[i];
  }

  lemma RecordOfRegularFileLast(entries: seq<DirEntry>, e: DirEntry, r: FileInfo)
    requires e.isRegularFile && Record(e) == r
    ensures RecordOfRegularFile(entries + [e], r)
  {
    assert (entries + [e])[|entries|] == e;
  }

  /** A position of `xs + [x]` that satisfies `p` is a position of `xs` or
      the last one. */
  lemma SnocWitness<T>(xs: seq<T>, x: T, p: T -> bool, i: nat)
    requires i < |xs| + 1 && p((xs + [x])[i])
    ensures (exists k :: 0 <= k < |xs| && p(xs[k])) || p(x)
  {
    if i < |xs| {
      assert (xs + [x])[i] == xs[i];
    }
  }

  lemma RecordOfRegularFileSplit(entries: seq<DirEntry>, e: DirEntry, r: FileInfo)
    requires RecordOfRegularFile(entries + [e], r)
    ensures RecordOfRegularFile(entries, r) || (e.isRegularFile && Record(e) == r)
  {
    var all := entries + [e];
    var i :| 0 <= i < |all| && all[i].isRegularFile && Record(all[i]) == r;
    SnocWitness(entries, e, (d: DirEntry) => d.isRegularFile && Record(d) == r, i);
  }

  /** A record is in the snapshot exactly when it is the record of some
      regular-file entry. */
  lemma {:induction false} SnapshotMembers(entries: seq<DirEntry>, r: FileInfo)
    ensures r in Snapshot(entries) <==> RecordOfRegularFile(entries, r)
  {
    if entries != [] {
      var n := |entries| - 1;
      var init, last := entries[..n], entries[n];
      SnapshotMembers(init, r);
      assert init + [last] == entries;
      if r in Snapshot(init) {
        RecordOfRegularFileKept(init, last, r);
      } else if last.isRegularFile && Record(last) == r {
        RecordOfRegularFileLast(init, last, r);
      } else if RecordOfRegularFile(entries, r) {
        RecordOfRegularFileSplit(init, last, r);
      }
    }
  }

  /** A listing without regular files yields an empty snapshot. */
  lemma {:induction false} SnapshotOfNoFiles(entries: seq<DirEntry>)
    requires forall i :: 0 <= i < |entries| ==> !entries[i].isRegularFile
    ensures Snapshot(entries) == []
  {
    if entries != [] {
      SnapshotOfNoFiles(entries[..|entries| - 1]);
    }
  }

  /** `FileManager`: owns the record collection of one directory. */
  class FileManager {
    /** The records of the last scan. */
    var files: seq<FileInfo>
    /** The directory being managed. */
    const targetDirectory: string

    constructor (dirPath: string)
      ensures targetDirectory == dirPath && files == []
    {
      targetDirectory := dirPath;
      files := [];
    }

    /** `scanDirectory`, where `listing` is what the filesystem answers for
        `targetDirectory`. The previous records are always discarded. For a
        missing directory nothing is collected and 0 is returned. Otherwise
        the records of the regular files are collected in iteration order;
        the count is returned when the iteration finished, and 0 when it
        threw, although the records collected before the error are kept. */
    method ScanDirectory(listing: Listing) returns (count: int)
      modifies this
      ensures files == (if listing.Missing? then [] else Snapshot(listing.entries))
      ensures count == (if listing.Listed? && !listing.interrupted then |files| else 0)
    {
      files := [];
      if listing.Missing? {
        return 0;
      }
      var entries := listing.entries;
      var i := 0;
      while i < |entries|
        invariant 0 <= i <= |entries|
        invariant files == Snapshot(entries[..i])
      {
        var entry := entries[i];
        SnapshotSnoc(entries, i);
        if entry.isRegularFile {
          var info := GetFileInfo(entry.path, entry.size);
          files := files + [info];
        }
        i := i + 1;
      }
      assert entries[..i] == entries;
      if listing.interrupted {
        return 0;
      }
      return |files|;
    }
  }
}
