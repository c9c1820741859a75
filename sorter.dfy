/** `FileSorter`: files each record into a category folder chosen by its
    extension. The table of categories is fixed when the sorter is built, so
    it is modelled as a module-level value; reorganizing works on a
    `FileSystem` object, whose every create and rename may fail for reasons
    given by a per-record `Fault`; its `exists` checks always answer. */
module Sorter {

  import opened Optional
  import opened Strings
  import opened Records
  import opened Manager
  import opened Filesystem

  // ---------------------------------------------------------------------
  // The category table
  // ---------------------------------------------------------------------

  const DocumentExtensions: seq<string> :=
    [".txt", ".pdf", ".doc", ".docx", ".xlsx", ".xls", ".ppt", ".pptx", ".odt", ".rtf"]
  const ImageExtensions: seq<string> :=
    [".jpg", ".jpeg", ".png", ".gif", ".bmp", ".svg", ".ico", ".tiff", ".webp"]
  const VideoExtensions: seq<string> :=
    [".mp4", ".avi", ".mkv", ".mov", ".wmv", ".flv", ".webm", ".m4v"]
  const AudioExtensions: seq<string> :=
    [".mp3", ".wav", ".flac", ".aac", ".ogg", ".wma", ".m4a"]
  const ArchiveExtensions: seq<string> :=
    [".zip", ".rar", ".7z", ".tar", ".gz", ".bz2", ".xz"]
  const CodeExtensions: seq<string> :=
    [".cpp", ".h", ".hpp", ".c", ".py", ".java", ".js", ".ts", ".html", ".css", ".php", ".rb", ".go", ".rs"]
  const ExecutableExtensions: seq<string> :=
    [".exe", ".dll", ".so", ".app", ".deb", ".rpm"]

  const CategoryNames: set<string> :=
    {"Documents", "Images", "Videos", "Audio", "Archives", "Code", "Executables"}

  /** The category of every extension the table does not know. */
  const Fallback: string := "Others"

  /** The groups, each with its category, in the order `initializeCategories`
      fills the table. */
  const Groups: seq<(seq<string>, string)> := [
    (DocumentExtensions, "Documents"), (ImageExtensions, "Images"), (VideoExtensions, "Videos"),
    (AudioExtensions, "Audio"), (ArchiveExtensions, "Archives"), (CodeExtensions, "Code"),
    (ExecutableExtensions, "Executables")]

  /** One `table[extension] = category` statement per extension of a group. */
  function Assign(exts: seq<string>, category: string): seq<(string, string)>
  {
    seq(|exts|, i requires 0 <= i < |exts| => (exts[i], category))
  }

  /** The assignment statements of the first `n` groups, in source order. */
  function Statements(n: nat): seq<(string, string)>
    requires n <= |Groups|
  {
    if n == 0 then [] else Statements(n - 1) + Assign(Groups[n - 1].0, Groups[n - 1].1)
  }

  /** A sorter's table from extension to category name. */
  type CategoryTable = map<string, string>

  /** The effect of running the assignment statements `assigns` in order on
      the map `m`: a later assignment to a key overrides an earlier one. */
  function AssignAll(m: CategoryTable, assigns: seq<(string, string)>): CategoryTable
    decreases |assigns|
  {
    if assigns == [] then m
    else AssignAll(m[assigns[0].0 := assigns[0].1], assigns[1..])
  }

  /** The table once the statements of the first `n` groups have run. */
  function TableAfter(n: nat): CategoryTable
    requires n <= |Groups|
  {
    AssignAll(map[], Statements(n))
  }

  /** `initializeCategories`: the table from extension to category. */
  function InitializeCategories(): CategoryTable {
    TableAfter(|Groups|)
  }

  /** Running two lists of statements one after the other. */
  lemma {:induction false} AssignAllAppend(m: CategoryTable, a: seq<(string, string)>, b: seq<(string, string)>)
    ensures AssignAll(m, a + b) == AssignAll(AssignAll(m, a), b)
    decreases |a|
  {
    if a == [] {
      assert a + b == b;
    } else {
      assert (a + b)[1..] == a[1..] + b;
      AssignAllAppend(m[a[0].0 := a[0].1], a[1..], b);
    }
  }

  lemma TableAfterNext(n: nat)
    requires n < |Groups|
    ensures TableAfter(n + 1) == AssignAll(TableAfter(n), Assign(Groups[n].0, Groups[n].1))
  {
    AssignAllAppend(map[], Statements(n), Assign(Groups[n].0, Groups[n].1));
  }

  /** The statements of one group map each of its extensions to its
      category and leave every other key as it was. */
  lemma {:induction false} AssignGroupEffect(m: CategoryTable, exts: seq<string>, category: string)
    ensures var r := AssignAll(m, Assign(exts, category));
      && (forall e :: e in exts ==> e in r && r[e] == category)
      && (forall k :: k !in exts ==> (k in r <==> k in m) && (k in m ==> r[k] == m[k]))
    decreases |exts|
  {
    if exts != [] {
      var m' := m[exts[0] := category];
      assert Assign(exts, category)[1..] == Assign(exts[1..], category);
      AssignGroupEffect(m', exts[1..], category);
      var r := AssignAll(m, Assign(exts, category));
      assert r == AssignAll(m', Assign(exts[1..], category));
      forall e | e in exts ensures e in r && r[e] == category {
        if e != exts[0] {
          assert e in exts[1..];
        }
      }
      forall k | k !in exts ensures (k in r <==> k in m) && (k in m ==> r[k] == m[k]) {
        assert k != exts[0] && k !in exts[1..];
      }
    }
  }

  /** When the statements assign distinct keys that `m` lacks, the map grows
      by one entry per statement. */
  lemma {:induction false} AssignGroupSize(m: CategoryTable, exts: seq<string>, category: string)
    requires NoDup(exts)
    requires forall e :: e in exts ==> e !in m
    ensures |AssignAll(m, Assign(exts, category))| == |m| + |exts|
    decreases |exts|
  {
    if exts != [] {
      var m' := m[exts[0] := category];
      assert Assign(exts, category)[1..] == Assign(exts[1..], category);
      forall e | e in exts[1..] ensures e !in m' {
        var i :| 0 <= i < |exts[1..]| && exts[1..][i] == e;
        assert exts[i + 1] == e;
      }
      AssignGroupSize(m', exts[1..], category);
    }
  }

  /** `AssignGroupEffect` for one key. */
  lemma AssignGroupAt(m: CategoryTable, exts: seq<string>, category: string, e: string)
    ensures var r := AssignAll(m, Assign(exts, category));
      && (e in exts ==> e in r && r[e] == category)
      && (e !in exts ==> (e in r <==> e in m) && (e in m ==> r[e] == m[e]))
  {
    AssignGroupEffect(m, exts, category);
  }

  /** Once its group has run, an extension keeps its category unless a later
      group lists it again. */
  lemma {:induction false} FiledAfter(j: nat, e: string, n: nat)
    requires j < n <= |Groups| && e in Groups[j].0
    requires forall k :: j < k < n ==> e !in Groups[k].0
    ensures e in TableAfter(n) && TableAfter(n)[e] == Groups[j].1
    decreases n
  {
    TableAfterNext(n - 1);
    AssignGroupAt(TableAfter(n - 1), Groups[n - 1].0, Groups[n - 1].1, e);
    if j < n - 1 {
      FiledAfter(j, e, n - 1);
    }
  }

  lemma GroupCategoriesAreNames()
    ensures forall j :: 0 <= j < |Groups| ==> Groups[j].1 in CategoryNames
  {
  }

  /** The values of the table are category names at every stage. */
  lemma {:induction false} TableAfterValues(n: nat)
    requires n <= |Groups|
    ensures forall k :: k in TableAfter(n) ==> TableAfter(n)[k] in CategoryNames
  {
    if n > 0 {
      TableAfterValues(n - 1);
      TableAfterNext(n - 1);
      AssignGroupEffect(TableAfter(n - 1), Groups[n - 1].0, Groups[n - 1].1);
      GroupCategoriesAreNames();
    }
  }

  /** The keys of the table are the extensions of the groups run so far. */
  lemma {:induction false} TableAfterKeys(n: nat)
    requires n <= |Groups|
    ensures forall k :: k in TableAfter(n) ==> exists j :: 0 <= j < n && k in Groups[j].0
  {
    if n > 0 {
      TableAfterKeys(n - 1);
      TableAfterNext(n - 1);
      AssignGroupEffect(TableAfter(n - 1), Groups[n - 1].0, Groups[n - 1].1);
    }
  }

  predicate NoDup(s: seq<string>) {
    forall i, j :: 0 <= i < j < |s| ==> s[i] != s[j]
  }

  predicate Disjoint(a: seq<string>, b: seq<string>) {
    forall i, j :: 0 <= i < |a| && 0 <= j < |b| ==> a[i] != b[j]
  }

  lemma DisjointMeansAbsent(a: seq<string>, b: seq<string>, e: string)
    requires Disjoint(a, b)
    ensures e in a ==> e !in b
    ensures e in b ==> e !in a
  {
  }

  lemma GroupsHaveNoDuplicates()
    ensures NoDup(DocumentExtensions) && NoDup(ImageExtensions) && NoDup(VideoExtensions)
    ensures NoDup(AudioExtensions) && NoDup(ArchiveExtensions) && NoDup(CodeExtensions)
    ensures NoDup(ExecutableExtensions)
  {
  }

  lemma DocumentsAreNotLater()
    ensures Disjoint(DocumentExtensions, ImageExtensions)
    ensures Disjoint(DocumentExtensions, VideoExtensions)
    ensures Disjoint(DocumentExtensions, AudioExtensions)
    ensures Disjoint(DocumentExtensions, ArchiveExtensions)
    ensures Disjoint(DocumentExtensions, CodeExtensions)
    ensures Disjoint(DocumentExtensions, ExecutableExtensions)
  {
  }

  lemma ImagesAreNotLater()
    ensures Disjoint(ImageExtensions, VideoExtensions)
    ensures Disjoint(ImageExtensions, AudioExtensions)
    ensures Disjoint(ImageExtensions, ArchiveExtensions)
    ensures Disjoint(ImageExtensions, CodeExtensions)
    ensures Disjoint(ImageExtensions, ExecutableExtensions)
  {
  }

  lemma VideosAreNotLater()
    ensures Disjoint(VideoExtensions, AudioExtensions)
    ensures Disjoint(VideoExtensions, ArchiveExtensions)
    ensures Disjoint(VideoExtensions, CodeExtensions)
    ensures Disjoint(VideoExtensions, ExecutableExtensions)
  {
  }

  lemma AudioIsNotLater()
    ensures Disjoint(AudioExtensions, ArchiveExtensions)
    ensures Disjoint(AudioExtensions, CodeExtensions)
    ensures Disjoint(AudioExtensions, ExecutableExtensions)
  {
  }

  lemma ArchivesAreNotLater()
    ensures Disjoint(ArchiveExtensions, CodeExtensions)
    ensures Disjoint(ArchiveExtensions, ExecutableExtensions)
  {
  }

  lemma CodeIsNotLater()
    ensures Disjoint(CodeExtensions, ExecutableExtensions)
  {
  }

  lemma GroupsAreDisjoint()
    ensures forall j, k :: 0 <= j < k < |Groups| ==> Disjoint(Groups[j].0, Groups[k].0)
  {
    DocumentsAreNotLater();
    ImagesAreNotLater();
    VideosAreNotLater();
    AudioIsNotLater();
    ArchivesAreNotLater();
    CodeIsNotLater();
  }

  /** The size of the first `n` groups together. */
  function GroupSizes(n: nat): nat
    requires n <= |Groups|
  {
    if n == 0 then 0 else GroupSizes(n - 1) + |Groups[n - 1].0|
  }

  /** No extension of a group is already in the table when the group runs. */
  lemma GroupIsNew(n: nat)
    requires n < |Groups|
    ensures forall e :: e in Groups[n].0 ==> e !in TableAfter(n)
  {
    TableAfterKeys(n);
    GroupsAreDisjoint();
    var exts := Groups[n].0;
    forall e | e in exts ensures e !in TableAfter(n) {
      forall j | 0 <= j < n ensures e !in Groups[j].0 {
        DisjointMeansAbsent(Groups[j].0, exts, e);
      }
    }
  }

  /** No extension is listed twice, in one group or across groups, so the
      table has one entry per statement. */
  lemma {:induction false} TableAfterSize(n: nat)
    requires n <= |Groups|
    ensures |TableAfter(n)| == GroupSizes(n)
  {
    if n > 0 {
      TableAfterSize(n - 1);
      TableAfterNext(n - 1);
      GroupsHaveNoDuplicates();
      GroupIsNew(n - 1);
      AssignGroupSize(TableAfter(n - 1), Groups[n - 1].0, Groups[n - 1].1);
    }
  }

  /** A dot followed by at least one character, none of them a dot or a
      capital letter: the shape `extractExtension` gives a name with at least
      one character after its last dot (a name ending in a dot yields the
      bare `.`, which no table key matches). */
  predicate ExtensionShaped(e: string) {
    |e| >= 2 && e[0] == '.' && '.' !in e[1..] && NoUpper(e)
  }

  predicate AllExtensionShaped(s: seq<string>) {
    forall i :: 0 <= i < |s| ==> ExtensionShaped(s[i])
  }

  lemma DocumentExtensionsAreShaped()
    ensures AllExtensionShaped(DocumentExtensions)
  {
    var s := DocumentExtensions;
    forall i | 0 <= i < 5 ensures ExtensionShaped(s[i]) {
    }
    forall i | 5 <= i < |s| ensures ExtensionShaped(s[i]) {
    }
  }

  lemma ImageExtensionsAreShaped()
    ensures AllExtensionShaped(ImageExtensions)
  {
    var s := ImageExtensions;
    forall i | 0 <= i < 4 ensures ExtensionShaped(s[i]) {
    }
    forall i | 4 <= i < |s| ensures ExtensionShaped(s[i]) {
    }
  }

  lemma VideoExtensionsAreShaped()
    ensures AllExtensionShaped(VideoExtensions)
  {
  }

  lemma AudioExtensionsAreShaped()
    ensures AllExtensionShaped(AudioExtensions)
  {
  }

  lemma ArchiveExtensionsAreShaped()
    ensures AllExtensionShaped(ArchiveExtensions)
  {
  }

  lemma CodeExtensionsAreShaped()
    ensures AllExtensionShaped(CodeExtensions)
  {
    var s := CodeExtensions;
    forall i | 0 <= i < 7 ensures ExtensionShaped(s[i]) {
    }
    forall i | 7 <= i < |s| ensures ExtensionShaped(s[i]) {
    }
  }

  lemma ExecutableExtensionsAreShaped()
    ensures AllExtensionShaped(ExecutableExtensions)
  {
  }

  lemma GroupsAreShaped()
    ensures forall j :: 0 <= j < |Groups| ==> AllExtensionShaped(Groups[j].0)
  {
    DocumentExtensionsAreShaped();
    ImageExtensionsAreShaped();
    VideoExtensionsAreShaped();
    AudioExtensionsAreShaped();
    ArchiveExtensionsAreShaped();
    CodeExtensionsAreShaped();
    ExecutableExtensionsAreShaped();
  }

  /** Every value of the table is one of the seven category names, and
      hence never the fallback. */
  lemma CategoryTableValues()
    ensures forall k :: k in InitializeCategories() ==> InitializeCategories()[k] in CategoryNames
    ensures Fallback !in CategoryNames
  {
    TableAfterValues(|Groups|);
  }

  /** The table has 61 entries, one per statement. */
  lemma CategoryTableSize()
    ensures |InitializeCategories()| == 61
  {
    TableAfterSize(|Groups|);
    assert GroupSizes(1) == 10;
    assert GroupSizes(2) == 19;
    assert GroupSizes(3) == 27;
    assert GroupSizes(4) == 34;
    assert GroupSizes(5) == 41;
    assert GroupSizes(6) == 55;
    assert GroupSizes(7) == 61;
  }

  /** Every key of the table has the shape of an extracted extension. */
  lemma CategoryTableKeysAreExtensions()
    ensures forall k :: k in InitializeCategories() ==> ExtensionShaped(k)
  {
    TableAfterKeys(|Groups|);
    GroupsAreShaped();
    forall k | k in InitializeCategories() ensures ExtensionShaped(k) {
      var j :| 0 <= j < |Groups| && k in Groups[j].0;
      var i :| 0 <= i < |Groups[j].0| && Groups[j].0[i] == k;
    }
  }

  /** The lookup of `getCategoryForExtension` in the table `categories`. */
  function Category(categories: CategoryTable, extension: string): string {
    if extension in categories then categories[extension] else Fallback
  }

  /** `getCategoryForExtension`: the category the table gives the extension,
      or the fallback for an extension it does not know. The lookup is exact:
      it does not add the key, and it does not fold case. */
  function GetCategoryForExtension(extension: string): (category: string)
    ensures category in CategoryNames || category == Fallback
    ensures category == Fallback <==> extension !in InitializeCategories()
  {
    CategoryTableValues();
    Category(InitializeCategories(), extension)
  }

  /** An extension of group `j` that no later group lists is filed under
      group `j`'s category. */
  lemma GroupFiled(j: nat, e: string)
    requires j < |Groups| && e in Groups[j].0
    requires forall k :: j < k < |Groups| ==> e !in Groups[k].0
    ensures GetCategoryForExtension(e) == Groups[j].1
  {
    FiledAfter(j, e, |Groups|);
  }

  lemma DocumentsFiled()
    ensures forall e :: e in DocumentExtensions ==> GetCategoryForExtension(e) == "Documents"
  {
    DocumentsAreNotLater();
    forall e | e in DocumentExtensions ensures GetCategoryForExtension(e) == "Documents" {
      DisjointMeansAbsent(DocumentExtensions, ImageExtensions, e);
      DisjointMeansAbsent(DocumentExtensions, VideoExtensions, e);
      DisjointMeansAbsent(DocumentExtensions, AudioExtensions, e);
      DisjointMeansAbsent(DocumentExtensions, ArchiveExtensions, e);
      DisjointMeansAbsent(DocumentExtensions, CodeExtensions, e);
      DisjointMeansAbsent(DocumentExtensions, ExecutableExtensions, e);
      GroupFiled(0, e);
    }
  }

  lemma ImagesFiled()
    ensures forall e :: e in ImageExtensions ==> GetCategoryForExtension(e) == "Images"
  {
    ImagesAreNotLater();
    forall e | e in ImageExtensions ensures GetCategoryForExtension(e) == "Images" {
      DisjointMeansAbsent(ImageExtensions, VideoExtensions, e);
      DisjointMeansAbsent(ImageExtensions, AudioExtensions, e);
      DisjointMeansAbsent(ImageExtensions, ArchiveExtensions, e);
      DisjointMeansAbsent(ImageExtensions, CodeExtensions, e);
      DisjointMeansAbsent(ImageExtensions, ExecutableExtensions, e);
      GroupFiled(1, e);
    }
  }

  lemma VideosFiled()
    ensures forall e :: e in VideoExtensions ==> GetCategoryForExtension(e) == "Videos"
  {
    VideosAreNotLater();
    forall e | e in VideoExtensions ensures GetCategoryForExtension(e) == "Videos" {
      DisjointMeansAbsent(VideoExtensions, AudioExtensions, e);
      DisjointMeansAbsent(VideoExtensions, ArchiveExtensions, e);
      DisjointMeansAbsent(VideoExtensions, CodeExtensions, e);
      DisjointMeansAbsent(VideoExtensions, ExecutableExtensions, e);
      GroupFiled(2, e);
    }
  }

  lemma AudioFiled()
    ensures forall e :: e in AudioExtensions ==> GetCategoryForExtension(e) == "Audio"
  {
    AudioIsNotLater();
    forall e | e in AudioExtensions ensures GetCategoryForExtension(e) == "Audio" {
      DisjointMeansAbsent(AudioExtensions, ArchiveExtensions, e);
      DisjointMeansAbsent(AudioExtensions, CodeExtensions, e);
      DisjointMeansAbsent(AudioExtensions, ExecutableExtensions, e);
      GroupFiled(3, e);
    }
  }

  lemma ArchivesFiled()
    ensures forall e :: e in ArchiveExtensions ==> GetCategoryForExtension(e) == "Archives"
  {
    ArchivesAreNotLater();
    forall e | e in ArchiveExtensions ensures GetCategoryForExtension(e) == "Archives" {
      DisjointMeansAbsent(ArchiveExtensions, CodeExtensions, e);
      DisjointMeansAbsent(ArchiveExtensions, ExecutableExtensions, e);
      GroupFiled(4, e);
    }
  }

  lemma CodeFiled()
    ensures forall e :: e in CodeExtensions ==> GetCategoryForExtension(e) == "Code"
  {
    CodeIsNotLater();
    forall e | e in CodeExtensions ensures GetCategoryForExtension(e) == "Code" {
      DisjointMeansAbsent(CodeExtensions, ExecutableExtensions, e);
      GroupFiled(5, e);
    }
  }

  lemma ExecutablesFiled()
    ensures forall e :: e in ExecutableExtensions ==> GetCategoryForExtension(e) == "Executables"
  {
    forall e | e in ExecutableExtensions ensures GetCategoryForExtension(e) == "Executables" {
      GroupFiled(6, e);
    }
  }

  /** An empty extension, one that still has a capital letter, or one
      without the leading dot is filed under the fallback. */
  lemma UnknownExtensionCategory(extension: string)
    requires extension == "" || !NoUpper(extension) || extension[0] != '.'
    ensures GetCategoryForExtension(extension) == Fallback
  {
    CategoryTableKeysAreExtensions();
  }

  /** Because extensions are lower-cased when records are built, a file's
      category does not depend on the case of its name. */
  lemma CategoryIgnoresCase(name: string)
    ensures GetCategoryForExtension(ExtractExtension(ToLowercase(name)))
         == GetCategoryForExtension(ExtractExtension(name))
  {
    ExtensionIgnoresCase(name);
  }

  // ---------------------------------------------------------------------
  // Reorganizing
  // ---------------------------------------------------------------------

  /** What the environment does to one record's filesystem calls: nothing
      unusual, a `create_directories` that fails after creating the missing
      ancestors shorter than `made` characters, or a failing `rename`. */
  datatype Fault = NoFault | CreateFails(made: nat) | RenameFails

  /** The failure point `create_directories` meets under `fault`. */
  function CreateFailure(fault: Fault): Option<nat> {
    if fault.CreateFails? then Some(fault.made) else None
  }

  /** The fault for the record at position `i`; records beyond the given
      faults meet none. */
  function FaultAt(faults: seq<Fault>, i: nat): Fault {
    if i < |faults| then faults[i] else NoFault
  }

  /** What happened to one record: moved, skipped because the destination
      exists, or given up because creating the folder or renaming failed. */
  datatype Outcome = Moved | SkippedExists | CreateFailed | RenameFailed

  /** The folder a record belongs in. */
  function CategoryPath(categories: CategoryTable, base: string, f: FileInfo): (p: string)
    ensures |p| > |base|
  {
    base + "/" + Category(categories, f.extension)
  }

  /** Where a record is moved to: its folder, then its name. */
  function Destination(categories: CategoryTable, base: string, f: FileInfo): (p: string)
    ensures |p| > |CategoryPath(categories, base, f)|
  {
    CategoryPath(categories, base, f) + "/" + f.name
  }

  datatype Ensured = Ensured(tree: Tree, ok: bool)

  /** `createDirectoryIfNotExists` on a tree: an existing path (of any kind)
      is accepted as is; otherwise `create_directories` is attempted. It
      fails at once when an ancestor is a regular file, and part of the way
      when the environment says so, leaving the ancestors made so far. */
  function EnsureDirectory(t: Tree, p: string, failure: Option<nat>): Ensured {
    if p in t then Ensured(t, true)
    else if !CanCreate(t, p) then Ensured(t, false)
    else if failure.None? then Ensured(CreateDirectoriesIn(t, p), true)
    else Ensured(PartlyCreatedIn(t, p, failure.value), false)
  }

  /** The folder exists exactly when the call reports success; whatever the
      result, every entry is kept and the only entries added are folders on
      the way to `p` (or `p` itself); a failure adds nothing but ancestors of
      the folder. */
  lemma EnsureDirectoryEffect(t: Tree, p: string, failure: Option<nat>)
    ensures var r := EnsureDirectory(t, p, failure);
      && (r.ok <==> p in r.tree)
      && (!r.ok ==> forall k :: k in r.tree && k !in t ==> k in Ancestors(p))
      && (p !in t && r.ok ==> r.tree[p] == Directory)
      && (forall k :: k in t ==> k in r.tree && r.tree[k] == t[k])
      && (forall k :: k in r.tree && k !in t ==> r.tree[k] == Directory && (k == p || k in Ancestors(p)) && |k| <= |p|)
  {
    if p !in t && CanCreate(t, p) {
      match failure
      case None => CreateDirectoriesEffect(t, p);
      case Some(made) =>
        PartlyCreatedEffect(t, p, made);
        AncestorsAreShorter(p);
    }
  }

  datatype StepResult = StepResult(tree: Tree, outcome: Outcome)

  /** The second half of one iteration, once the folder is there: skip when
      the destination exists, otherwise attempt the rename. */
  function Place(t: Tree, src: string, dest: string, fails: bool): StepResult {
    if dest in t then StepResult(t, SkippedExists)
    else if !fails && CanRename(t, src, dest) then StepResult(RenameIn(t, src, dest), Moved)
    else StepResult(t, RenameFailed)
  }

  /** A skip happens exactly when the destination exists; only a move
      changes the tree, and it takes a regular file from `src` to the free
      path `dest`, keeping every other entry. */
  lemma PlaceEffect(t: Tree, src: string, dest: string, fails: bool)
    ensures var r := Place(t, src, dest, fails);
      && (r.outcome == SkippedExists <==> dest in t)
      && r.outcome in {Moved, SkippedExists, RenameFailed}
      && (r.outcome != Moved ==> r.tree == t)
      && (r.outcome == Moved ==>
            src in t && t[src].RegularFile? && dest !in t
            && dest in r.tree && r.tree[dest] == t[src] && src !in r.tree
            && forall k :: k in t && k != src ==> k in r.tree && r.tree[k] == t[k])
      && (forall k :: k in r.tree && k !in t ==> r.outcome == Moved && k == dest)
  {
    if dest !in t && !fails && CanRename(t, src, dest) {
      RenameEffect(t, src, dest);
    }
  }

  /** `k` is the category folder of `f`, or a folder on the way to it: the
      paths that making sure of that folder may create. */
  predicate OnTheWay(categories: CategoryTable, base: string, f: FileInfo, k: string) {
    k == CategoryPath(categories, base, f) || k in Ancestors(CategoryPath(categories, base, f))
  }

  /** One iteration of the loop of `organizeByExtension`, for the record `f`
      and the fault `fault`: make sure the folder exists, then place the file
      in it. */
  function Step(categories: CategoryTable, t: Tree, f: FileInfo, base: string, fault: Fault): StepResult {
    var e := EnsureDirectory(t, CategoryPath(categories, base, f), CreateFailure(fault));
    if !e.ok then StepResult(e.tree, CreateFailed)
    else Place(e.tree, f.path, Destination(categories, base, f), fault == RenameFails)
  }

  /** What one iteration does to the tree. */
  lemma StepEffect(categories: CategoryTable, t: Tree, f: FileInfo, base: string, fault: Fault)
    ensures var r := Step(categories, t, f, base, fault);
      // a creation failure adds nothing but folders on the way to the
      // category folder
      && (r.outcome == CreateFailed ==>
            forall k :: k in r.tree && k !in t ==> k in Ancestors(CategoryPath(categories, base, f)))
      // a record that is not moved loses nothing and overwrites nothing
      && (r.outcome != Moved ==> forall k :: k in t ==> k in r.tree && r.tree[k] == t[k])
      // a moved record was a regular file whose destination was free; it is
      // now at the destination and no longer where it was, and every other
      // entry is kept
      && (r.outcome == Moved ==>
            f.path in t && t[f.path].RegularFile? && Destination(categories, base, f) !in t
            && Destination(categories, base, f) in r.tree && r.tree[Destination(categories, base, f)] == t[f.path] && f.path !in r.tree
            && forall k :: k in t && k != f.path ==> k in r.tree && r.tree[k] == t[k])
      // the only new entries are the category folder and the folders on the
      // way to it, and the destination of a move
      && (forall k :: k in r.tree && k !in t ==>
            (r.tree[k] == Directory && OnTheWay(categories, base, f, k))
            || (r.outcome == Moved && k == Destination(categories, base, f)))
      // a skip happens exactly when the destination exists (once the folder
      // is there)
      && (r.outcome == SkippedExists ==> Destination(categories, base, f) in t)
  {
    EnsureDirectoryEffect(t, CategoryPath(categories, base, f), CreateFailure(fault));
    var e := EnsureDirectory(t, CategoryPath(categories, base, f), CreateFailure(fault));
    if e.ok {
      PlaceEffect(e.tree, f.path, Destination(categories, base, f), fault == RenameFails);
    }
  }

  datatype Run = Run(tree: Tree, outcomes: seq<Outcome>)

  /** The tree before record `i` is processed: the records are taken in
      order, each with its own fault, and every record gets its step whatever
      happened to the ones before it. */
  function StateBefore(categories: CategoryTable, t: Tree, files: seq<FileInfo>, base: string, faults: seq<Fault>, i: nat): Tree
    requires i <= |files|
  {
    if i == 0 then t
    else Step(categories, StateBefore(categories, t, files, base, faults, i - 1), files[i - 1], base, FaultAt(faults, i - 1)).tree
  }

  /** The outcome of record `i`: one step from the tree left by the records
      before it, with its own fault. */
  function OutcomeOf(categories: CategoryTable, t: Tree, files: seq<FileInfo>, base: string, faults: seq<Fault>, i: nat): Outcome
    requires i < |files|
  {
    Step(categories, StateBefore(categories, t, files, base, faults, i), files[i], base, FaultAt(faults, i)).outcome
  }

  /** `organizeByExtension` on a tree: the tree after the whole loop, and the
      outcome of every record. */
  function Organize(categories: CategoryTable, t: Tree, files: seq<FileInfo>, base: string, faults: seq<Fault>): (r: Run)
    ensures |r.outcomes| == |files|
  {
    Run(StateBefore(categories, t, files, base, faults, |files|), Outcomes(categories, t, files, base, faults, |files|))
  }

  /** The outcomes of the first `n` records, in order. */
  function Outcomes(categories: CategoryTable, t: Tree, files: seq<FileInfo>, base: string, faults: seq<Fault>, n: nat): (r: seq<Outcome>)
    requires n <= |files|
    ensures |r| == n
  {
    if n == 0 then []
    else Outcomes(categories, t, files, base, faults, n - 1) + [OutcomeOf(categories, t, files, base, faults, n - 1)]
  }

  lemma {:induction false} OutcomesAt(categories: CategoryTable, t: Tree, files: seq<FileInfo>, base: string, faults: seq<Fault>, n: nat, i: nat)
    requires i < n <= |files|
    ensures Outcomes(categories, t, files, base, faults, n)[i] == OutcomeOf(categories, t, files, base, faults, i)
    decreases n
  {
    if i < n - 1 {
      var prev := Outcomes(categories, t, files, base, faults, n - 1);
      assert Outcomes(categories, t, files, base, faults, n) == prev + [OutcomeOf(categories, t, files, base, faults, n - 1)];
      OutcomesAt(categories, t, files, base, faults, n - 1, i);
    }
  }

  /** Record `i`'s entry in the run is its outcome. */
  lemma OutcomeAt(categories: CategoryTable, t: Tree, files: seq<FileInfo>, base: string, faults: seq<Fault>, i: nat)
    requires i < |files|
    ensures Organize(categories, t, files, base, faults).outcomes[i] == OutcomeOf(categories, t, files, base, faults, i)
  {
    OutcomesAt(categories, t, files, base, faults, |files|, i);
  }

  /** The number of records moved. */
  function CountMoved(outcomes: seq<Outcome>): (n: nat)
    ensures n <= |outcomes|
    ensures n == 0 <==> Moved !in outcomes
  {
    if outcomes == [] then 0
    else
      var n := |outcomes| - 1;
      assert outcomes == outcomes[..n] + [outcomes[n]];
      CountMoved(outcomes[..n]) + (if outcomes[n] == Moved then 1 else 0)
  }

  lemma CountMovedSnoc(outcomes: seq<Outcome>, o: Outcome)
    ensures CountMoved(outcomes + [o]) == CountMoved(outcomes) + (if o == Moved then 1 else 0)
  {
    assert (outcomes + [o])[..|outcomes|] == outcomes;
  }

  /** A record whose step is not a move leaves every entry in place and adds
      only its category folder and the folders on the way to it; one whose
      folder could not be created adds nothing but folders on the way. A failure on one record does not
      stop the later ones. */
  lemma FailedRecordChangesNoEntry(categories: CategoryTable, t: Tree, files: seq<FileInfo>, base: string, faults: seq<Fault>, i: nat)
    requires i < |files|
    requires Organize(categories, t, files, base, faults).outcomes[i] != Moved
    ensures var before, after := StateBefore(categories, t, files, base, faults, i), StateBefore(categories, t, files, base, faults, i + 1);
            (forall k :: k in before ==> k in after && after[k] == before[k])
            && (forall k :: k in after && k !in before ==> after[k] == Directory && OnTheWay(categories, base, files[i], k))
    ensures Organize(categories, t, files, base, faults).outcomes[i] == CreateFailed ==>
            var before, after := StateBefore(categories, t, files, base, faults, i), StateBefore(categories, t, files, base, faults, i + 1);
            forall k :: k in after && k !in before ==> k in Ancestors(CategoryPath(categories, base, files[i]))
  {
    OutcomeAt(categories, t, files, base, faults, i);
    StepEffect(categories, StateBefore(categories, t, files, base, faults, i), files[i], base, FaultAt(faults, i));
  }

  /** A record is moved only to a path that was free. */
  lemma StepMovesToFreePath(categories: CategoryTable, t: Tree, f: FileInfo, base: string, fault: Fault)
    requires Step(categories, t, f, base, fault).outcome == Moved
    ensures Destination(categories, base, f) !in t
  {
    StepEffect(categories, t, f, base, fault);
  }

  /** A record whose folder is there and whose destination is taken is
      skipped, whatever the fault. */
  lemma StepSkipsPlacedRecord(categories: CategoryTable, t: Tree, f: FileInfo, base: string, fault: Fault)
    requires CategoryPath(categories, base, f) in t && Destination(categories, base, f) in t
    ensures Step(categories, t, f, base, fault).outcome == SkippedExists
  {
  }

  /** An entry is kept by a step unless it is the path of the record and
      the record is moved. */
  lemma StepKeepsUnmoved(categories: CategoryTable, t: Tree, f: FileInfo, base: string, fault: Fault, k: string)
    requires k in t
    requires f.path == k ==> Step(categories, t, f, base, fault).outcome != Moved
    ensures var t' := Step(categories, t, f, base, fault).tree; k in t' && t'[k] == t[k]
  {
    StepEffect(categories, t, f, base, fault);
  }

  /** Nothing else changes: an entry that was there before the run is still
      there, unchanged, after the first `n` records when no record at that
      path among them has been moved. */
  lemma {:induction false} OrganizeKeepsUnmoved(categories: CategoryTable, t: Tree, files: seq<FileInfo>, base: string,
                                                faults: seq<Fault>, n: nat, k: string)
    requires n <= |files| && k in t
    requires forall i {:trigger OutcomeOf(categories, t, files, base, faults, i)} ::
               0 <= i < n && files[i].path == k ==> OutcomeOf(categories, t, files, base, faults, i) != Moved
    ensures var after := StateBefore(categories, t, files, base, faults, n); k in after && after[k] == t[k]
  {
    if n > 0 {
      OrganizeKeepsUnmoved(categories, t, files, base, faults, n - 1, k);
      assert files[n - 1].path == k ==> OutcomeOf(categories, t, files, base, faults, n - 1) != Moved;
      StepKeepsUnmoved(categories, StateBefore(categories, t, files, base, faults, n - 1), files[n - 1], base, FaultAt(faults, n - 1), k);
    }
  }

  /** A step adds only the record's category folder and the folders on the
      way to it, apart from the destination of a move. */
  lemma StepAddsOnlyFolders(categories: CategoryTable, t: Tree, f: FileInfo, base: string, fault: Fault, k: string)
    requires k in Step(categories, t, f, base, fault).tree && k !in t
    requires Step(categories, t, f, base, fault).outcome == Moved ==> Destination(categories, base, f) != k
    ensures Step(categories, t, f, base, fault).tree[k] == Directory
    ensures OnTheWay(categories, base, f, k)
  {
    StepEffect(categories, t, f, base, fault);
  }

  /** Every entry that was not there before the run is a folder, the
      category folder of one of the records or a folder on the way to it,
      unless it is the destination of a moved record. */
  lemma {:induction false} OrganizeAddsOnlyFolders(categories: CategoryTable, t: Tree, files: seq<FileInfo>, base: string,
                                                   faults: seq<Fault>, n: nat, k: string)
    requires n <= |files|
    requires k in StateBefore(categories, t, files, base, faults, n) && k !in t
    requires forall i {:trigger OutcomeOf(categories, t, files, base, faults, i)} ::
               0 <= i < n && OutcomeOf(categories, t, files, base, faults, i) == Moved
               ==> Destination(categories, base, files[i]) != k
    ensures StateBefore(categories, t, files, base, faults, n)[k] == Directory
    ensures exists i :: 0 <= i < n && OnTheWay(categories, base, files[i], k)
  {
    if n > 0 {
      var before := StateBefore(categories, t, files, base, faults, n - 1);
      assert OutcomeOf(categories, t, files, base, faults, n - 1) == Moved ==> Destination(categories, base, files[n - 1]) != k;
      if k !in before {
        StepAddsOnlyFolders(categories, before, files[n - 1], base, FaultAt(faults, n - 1), k);
      } else {
        OrganizeAddsOnlyFolders(categories, t, files, base, faults, n - 1, k);
        StepKeepsDirectory(categories, before, files[n - 1], base, FaultAt(faults, n - 1), k);
      }
    }
  }

  /** The regular files of a tree. */
  function RegularFiles(t: Tree): set<string> {
    set k | k in t && t[k].RegularFile?
  }

  /** Creating folders adds no regular file and removes none. */
  lemma EnsureDirectoryKeepsFiles(t: Tree, p: string, failure: Option<nat>)
    ensures RegularFiles(EnsureDirectory(t, p, failure).tree) == RegularFiles(t)
  {
    EnsureDirectoryEffect(t, p, failure);
    var t' := EnsureDirectory(t, p, failure).tree;
    forall k | k in t' && k !in t ensures t'[k] == Directory {
    }
  }

  /** A move takes one regular file away from its path and puts it at a path
      that was free; a skip or a failed rename changes nothing. */
  lemma PlaceKeepsFileCount(t: Tree, src: string, dest: string, fails: bool)
    ensures |RegularFiles(Place(t, src, dest, fails).tree)| == |RegularFiles(t)|
  {
    PlaceEffect(t, src, dest, fails);
    var r := Place(t, src, dest, fails);
    if r.outcome == Moved {
      var moved := RegularFiles(t) - {src} + {dest};
      assert RegularFiles(r.tree) == moved;
      assert |RegularFiles(t) - {src}| == |RegularFiles(t)| - 1;
    }
  }

  /** One step neither loses nor duplicates a file. */
  lemma StepKeepsFileCount(categories: CategoryTable, t: Tree, f: FileInfo, base: string, fault: Fault)
    ensures |RegularFiles(Step(categories, t, f, base, fault).tree)| == |RegularFiles(t)|
  {
    var e := EnsureDirectory(t, CategoryPath(categories, base, f), CreateFailure(fault));
    EnsureDirectoryKeepsFiles(t, CategoryPath(categories, base, f), CreateFailure(fault));
    PlaceKeepsFileCount(e.tree, f.path, Destination(categories, base, f), fault == RenameFails);
  }

  /** Reorganizing never loses or duplicates a file: the tree holds as many
      regular files afterwards as before. */
  lemma {:induction false} OrganizeKeepsFileCount(categories: CategoryTable, t: Tree, files: seq<FileInfo>, base: string, faults: seq<Fault>, n: nat)
    requires n <= |files|
    ensures |RegularFiles(StateBefore(categories, t, files, base, faults, n))| == |RegularFiles(t)|
  {
    if n > 0 {
      OrganizeKeepsFileCount(categories, t, files, base, faults, n - 1);
      StepKeepsFileCount(categories, StateBefore(categories, t, files, base, faults, n - 1), files[n - 1], base, FaultAt(faults, n - 1));
    }
  }

  /** Folders are never removed or replaced. */
  lemma StepKeepsDirectory(categories: CategoryTable, t: Tree, f: FileInfo, base: string, fault: Fault, k: string)
    requires k in t && t[k] == Directory
    ensures var t' := Step(categories, t, f, base, fault).tree; k in t' && t'[k] == Directory
  {
    StepEffect(categories, t, f, base, fault);
  }

  /** A well-formed record whose path IS another record's destination has
      that destination as its own. */
  lemma DestinationOfRecordAtDestination(categories: CategoryTable, base: string, f: FileInfo, q: FileInfo)
    requires WellFormed(f) && WellFormed(q)
    requires f.path == Destination(categories, base, q)
    ensures Destination(categories, base, f) == f.path
  {
    FileNameOfJoin(CategoryPath(categories, base, q), q.name);
  }

  /** An entry is never removed or replaced by the step of a record, unless
      it is that record's own file and lies outside the record's destination:
      moving a file onto its own path is skipped. */
  lemma StepKeepsEntry(categories: CategoryTable, t: Tree, f: FileInfo, base: string, fault: Fault, k: string)
    requires k in t
    requires f.path == k ==> Destination(categories, base, f) == k
    ensures var t' := Step(categories, t, f, base, fault).tree; k in t' && t'[k] == t[k]
  {
    StepEffect(categories, t, f, base, fault);
  }

  /** Every record is well formed, as `getFileInfo` builds them. */
  predicate AllWellFormed(files: seq<FileInfo>) {
    forall i :: 0 <= i < |files| ==> WellFormed(files[i])
  }

  /** What the run needs of its records: no name holds a `/`, and a record
      whose path is the destination of a record has that path as its own
      destination. */
  predicate Placeable(categories: CategoryTable, base: string, files: seq<FileInfo>) {
    && (forall m :: 0 <= m < |files| ==> '/' !in files[m].name)
    && (forall m, q :: 0 <= m < |files| && 0 <= q < |files| && files[m].path == Destination(categories, base, files[q])
          ==> Destination(categories, base, files[m]) == files[m].path)
  }

  /** Records built by `getFileInfo` are placeable, whatever the table and
      the base directory. */
  lemma WellFormedArePlaceable(categories: CategoryTable, base: string, files: seq<FileInfo>)
    requires AllWellFormed(files)
    ensures Placeable(categories, base, files)
  {
    forall m, q | 0 <= m < |files| && 0 <= q < |files| && files[m].path == Destination(categories, base, files[q])
      ensures Destination(categories, base, files[m]) == files[m].path
    {
      DestinationOfRecordAtDestination(categories, base, files[m], files[q]);
    }
  }

  /** A folder present before record `i` is still there before record `j`. */
  lemma {:induction false} DirectoryPersists(categories: CategoryTable, t: Tree, files: seq<FileInfo>, base: string, faults: seq<Fault>,
                                             i: nat, j: nat, k: string)
    requires i <= j <= |files|
    requires k in StateBefore(categories, t, files, base, faults, i) && StateBefore(categories, t, files, base, faults, i)[k] == Directory
    ensures k in StateBefore(categories, t, files, base, faults, j) && StateBefore(categories, t, files, base, faults, j)[k] == Directory
    decreases j
  {
    if i < j {
      DirectoryPersists(categories, t, files, base, faults, i, j - 1, k);
      StepKeepsDirectory(categories, StateBefore(categories, t, files, base, faults, j - 1), files[j - 1], base, FaultAt(faults, j - 1), k);
    }
  }

  /** An entry present before record `i` is still there, unchanged, before
      record `j`, when none of the records in between is a file at that
      path bound for somewhere else. */
  lemma {:induction false} EntryPersists(categories: CategoryTable, t: Tree, files: seq<FileInfo>, base: string,
                                         faults: seq<Fault>, i: nat, j: nat, k: string)
    requires i <= j <= |files|
    requires forall m :: i <= m < j && files[m].path == k ==> Destination(categories, base, files[m]) == k
    requires k in StateBefore(categories, t, files, base, faults, i)
    ensures k in StateBefore(categories, t, files, base, faults, j)
    ensures StateBefore(categories, t, files, base, faults, j)[k] == StateBefore(categories, t, files, base, faults, i)[k]
    decreases j
  {
    if i < j {
      EntryPersists(categories, t, files, base, faults, i, j - 1, k);
      StepKeepsEntry(categories, StateBefore(categories, t, files, base, faults, j - 1), files[j - 1], base,
                     FaultAt(faults, j - 1), k);
    }
  }

  /** When the records are placeable, an entry present at the destination of
      record `p` before record `i` is still there, unchanged, before record
      `j`. */
  lemma DestinationPersists(categories: CategoryTable, t: Tree, files: seq<FileInfo>, base: string, faults: seq<Fault>,
                            i: nat, j: nat, p: nat)
    requires Placeable(categories, base, files)
    requires i <= j <= |files| && p < |files|
    requires Destination(categories, base, files[p]) in StateBefore(categories, t, files, base, faults, i)
    ensures Destination(categories, base, files[p]) in StateBefore(categories, t, files, base, faults, j)
    ensures StateBefore(categories, t, files, base, faults, j)[Destination(categories, base, files[p])]
         == StateBefore(categories, t, files, base, faults, i)[Destination(categories, base, files[p])]
  {
    var k := Destination(categories, base, files[p]);
    forall m | i <= m < j && files[m].path == k ensures Destination(categories, base, files[m]) == k {
    }
    EntryPersists(categories, t, files, base, faults, i, j, k);
  }

  /** After a record has been moved, its folder exists and the file sits at
      its destination. */
  lemma StepMovedIntoFolder(categories: CategoryTable, t: Tree, f: FileInfo, base: string, fault: Fault)
    requires '/' !in f.name
    requires Step(categories, t, f, base, fault).outcome == Moved
    ensures var t' := Step(categories, t, f, base, fault).tree;
            CategoryPath(categories, base, f) in t' && t'[CategoryPath(categories, base, f)] == Directory
            && Destination(categories, base, f) in t'
  {
    var e := EnsureDirectory(t, CategoryPath(categories, base, f), CreateFailure(fault));
    EnsureDirectoryEffect(t, CategoryPath(categories, base, f), CreateFailure(fault));
    assert Step(categories, t, f, base, fault) == Place(e.tree, f.path, Destination(categories, base, f), fault == RenameFails);
    PlaceEffect(e.tree, f.path, Destination(categories, base, f), fault == RenameFails);
    ParentOfJoin(e.tree, CategoryPath(categories, base, f), f.name);
  }

  /** No two moved records share a destination: once one record has been
      moved to a path, a later record with the same destination is skipped,
      so nothing is ever overwritten. */
  lemma DestinationsDistinct(categories: CategoryTable, t: Tree, files: seq<FileInfo>, base: string, faults: seq<Fault>, i: nat, j: nat)
    requires Placeable(categories, base, files)
    requires i < j < |files|
    requires OutcomeOf(categories, t, files, base, faults, i) == Moved
    requires OutcomeOf(categories, t, files, base, faults, j) == Moved
    ensures Destination(categories, base, files[i]) != Destination(categories, base, files[j])
  {
    DestinationStaysTaken(categories, t, files, base, faults, i, j);
    StepMovesToFreePath(categories, StateBefore(categories, t, files, base, faults, j), files[j], base, FaultAt(faults, j));
  }

  /** Once record `i` has been moved, its destination is taken before every
      later record. */
  lemma DestinationStaysTaken(categories: CategoryTable, t: Tree, files: seq<FileInfo>, base: string, faults: seq<Fault>, i: nat, j: nat)
    requires Placeable(categories, base, files)
    requires i < j <= |files|
    requires OutcomeOf(categories, t, files, base, faults, i) == Moved
    ensures Destination(categories, base, files[i]) in StateBefore(categories, t, files, base, faults, j)
  {
    MovedIntoFolder(categories, t, files, base, faults, i);
    DestinationPersists(categories, t, files, base, faults, i + 1, j, i);
  }

  /** Right after record `i` has been moved, its folder exists and the file
      sits at its destination. */
  lemma MovedIntoFolder(categories: CategoryTable, t: Tree, files: seq<FileInfo>, base: string, faults: seq<Fault>, i: nat)
    requires Placeable(categories, base, files)
    requires i < |files|
    requires OutcomeOf(categories, t, files, base, faults, i) == Moved
    ensures var after := StateBefore(categories, t, files, base, faults, i + 1);
            CategoryPath(categories, base, files[i]) in after && after[CategoryPath(categories, base, files[i])] == Directory
            && Destination(categories, base, files[i]) in after
  {
    StepMovedIntoFolder(categories, StateBefore(categories, t, files, base, faults, i), files[i], base, FaultAt(faults, i));
  }

  /** After record `i` has been moved, its folder and its destination are
      still there at the end of the run. */
  lemma MovedRecordStays(categories: CategoryTable, t: Tree, files: seq<FileInfo>, base: string, faults: seq<Fault>, i: nat)
    requires Placeable(categories, base, files)
    requires i < |files|
    requires OutcomeOf(categories, t, files, base, faults, i) == Moved
    ensures var end := StateBefore(categories, t, files, base, faults, |files|);
            CategoryPath(categories, base, files[i]) in end && end[CategoryPath(categories, base, files[i])] == Directory
            && Destination(categories, base, files[i]) in end
  {
    var folder := CategoryPath(categories, base, files[i]);
    MovedIntoFolder(categories, t, files, base, faults, i);
    assert folder in StateBefore(categories, t, files, base, faults, i + 1);
    DirectoryPersists(categories, t, files, base, faults, i + 1, |files|, folder);
    DestinationPersists(categories, t, files, base, faults, i + 1, |files|, i);
  }

  /** Running the organizer a second time over the same records skips every
      record the first run moved, whatever the faults of the second run. */
  lemma SecondRunSkips(categories: CategoryTable, t: Tree, files: seq<FileInfo>, base: string, faults: seq<Fault>, faults2: seq<Fault>, i: nat)
    requires Placeable(categories, base, files)
    requires i < |files|
    requires OutcomeOf(categories, t, files, base, faults, i) == Moved
    ensures OutcomeOf(categories, StateBefore(categories, t, files, base, faults, |files|), files, base, faults2, i) == SkippedExists
  {
    var t1 := StateBefore(categories, t, files, base, faults, |files|);
    MovedRecordStays(categories, t, files, base, faults, i);
    DirectoryPersists(categories, t1, files, base, faults2, 0, i, CategoryPath(categories, base, files[i]));
    DestinationPersists(categories, t1, files, base, faults2, 0, i, i);
    StepSkipsPlacedRecord(categories, StateBefore(categories, t1, files, base, faults2, i), files[i], base, FaultAt(faults2, i));
  }

  /** When the first run moved every record, the second run moves none. */
  lemma SecondRunMovesNothing(categories: CategoryTable, t: Tree, files: seq<FileInfo>, base: string, faults: seq<Fault>, faults2: seq<Fault>)
    requires Placeable(categories, base, files)
    requires forall i :: 0 <= i < |files| ==> Organize(categories, t, files, base, faults).outcomes[i] == Moved
    ensures CountMoved(Organize(categories, Organize(categories, t, files, base, faults).tree, files, base, faults2).outcomes) == 0
  {
    var second := Organize(categories, Organize(categories, t, files, base, faults).tree, files, base, faults2).outcomes;
    forall i | 0 <= i < |files| ensures second[i] == SkippedExists {
      OutcomeAt(categories, t, files, base, faults, i);
      SecondRunSkips(categories, t, files, base, faults, faults2, i);
      OutcomeAt(categories, Organize(categories, t, files, base, faults).tree, files, base, faults2, i);
    }
  }

  /** `FileSorter`: holds the table of categories, filled once when the
      sorter is built and only read afterwards. */
  class FileSorter {
    const extensionCategories: CategoryTable

    constructor ()
      ensures extensionCategories == InitializeCategories()
    {
      extensionCategories := InitializeCategories();
    }

    /** `createDirectoryIfNotExists`. */
    method CreateDirectoryIfNotExists(fsys: FileSystem, path: string, failure: Option<nat>) returns (ok: bool)
      modifies fsys
      ensures Ensured(fsys.tree, ok) == EnsureDirectory(old(fsys.tree), path, failure)
    {
      if fsys.Exists(path) {
        return true;
      }
      ok := fsys.CreateDirectories(path, failure);
    }

    /** The body of the loop of `organizeByExtension` for one record. */
    method OrganizeOne(fsys: FileSystem, file: FileInfo, baseDirectory: string, fault: Fault)
      returns (outcome: Outcome)
      modifies fsys
      ensures StepResult(fsys.tree, outcome) == Step(extensionCategories, old(fsys.tree), file, baseDirectory, fault)
    {
      var category := Category(extensionCategories, file.extension);
      var categoryPath := baseDirectory + "/" + category;
      var created := CreateDirectoryIfNotExists(fsys, categoryPath, CreateFailure(fault));
      if !created {
        return CreateFailed;
      }
      var destPath := categoryPath + "/" + file.name;
      if fsys.Exists(destPath) {
        return SkippedExists;
      }
      var renamed := fsys.Rename(file.path, destPath, fault == RenameFails);
      outcome := if renamed then Moved else RenameFailed;
    }

    /** `organizeByExtension`: moves every record into its category folder
        under `baseDirectory` and returns how many were moved. A record whose
        folder cannot be created, whose destination exists or whose rename
        fails is passed over and the loop goes on. */
    method OrganizeByExtension(fsys: FileSystem, files: seq<FileInfo>, baseDirectory: string, faults: seq<Fault>)
      returns (movedCount: int)
      modifies fsys
      ensures fsys.tree == Organize(extensionCategories, old(fsys.tree), files, baseDirectory, faults).tree
      ensures movedCount == CountMoved(Organize(extensionCategories, old(fsys.tree), files, baseDirectory, faults).outcomes)
    {
      movedCount := 0;
      ghost var outcomes: seq<Outcome> := [];
      for i := 0 to |files|
        invariant fsys.tree == StateBefore(extensionCategories, old(fsys.tree), files, baseDirectory, faults, i)
        invariant outcomes == Outcomes(extensionCategories, old(fsys.tree), files, baseDirectory, faults, i)
        invariant movedCount == CountMoved(outcomes)
      {
        var outcome := OrganizeOne(fsys, files[i], baseDirectory, FaultAt(faults, i));
        CountMovedSnoc(outcomes, outcome);
        outcomes := outcomes + [outcome];
        if outcome == Moved {
          movedCount := movedCount + 1;
        }
      }
    }
  }
}
