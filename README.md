# File organizer engine, modelled in Dafny

This project models the engine of a small C++ command-line file organizer.
The engine does four things:

- it scans one directory into `FileInfo` records (name, path, lower-cased
  extension, size);
- it maps each extension to one of seven category folders (`Documents`,
  `Images`, `Videos`, `Audio`, `Archives`, `Code`, `Executables`), with
  `Others` for every extension it does not know;
- it moves each record into `<base>/<category>/<name>`, creating the folder
  when needed, skipping a record whose destination exists and carrying on
  after every failure;
- it searches records by a case-insensitive substring of their name, and
  groups likely duplicates by a fingerprint made of the size and the name.

Modules, one per file:

- `Optional` (`optional.dfy`): the `Option` type.
- `Strings` (`strings.dfy`): the parts of `std::string` the engine uses.
  These are `tolower` in the "C" locale, `find`, `find_last_of` for one
  character, and `std::to_string` on an unsigned size. The last comes with
  its inverse, which proves that the decimal form is injective.
- `Records` (`records.dfy`): `FileInfo`, its two constructors and its
  `operator==`.
- `Filesystem` (`filesystem.dfy`): the part of the filesystem the organizer
  touches. It is a map from path strings to directories and regular files,
  held by a `FileSystem` object. `create_directories` and `rename` are
  methods on that object, and each takes a flag that makes the call fail.
- `Manager` (`manager.dfy`): `FileManager`, a class whose `scanDirectory`
  replaces its record list. What the directory iterator yields comes in as a
  `Listing` value.
- `Sorter` (`sorter.dfy`): the category table, built by running the 61
  assignment statements of `initializeCategories` in order. It also holds
  the `FileSorter` class, whose methods change a `FileSystem` in place. The
  loop of `organizeByExtension` is proved equal to `Organize`, a function
  of the starting tree, the records and a list of per-record faults. The
  properties of a run are proved about that function.
- `Searcher` (`searcher.dfy`): `searchByName` and `findDuplicates`, each a
  loop proved equal to a function (`MatchingFiles`, `DuplicateGroups`)
  whose properties are proved as lemmas. `FileSearcher` has no fields, so
  these are methods of the module rather than of a class.

The failures of the real environment are inputs to the model: a `Listing`
for the scanned directory, an optional size per entry, and a `Fault` per
record for the organizer. A failure of `create_directories` or `rename`,
which `std::filesystem` would report through an exception, becomes a
failed outcome or a `false` result, the same value the C++ code produces
when it catches that exception. The two `exists` checks are modelled as
never failing (see "Left out").

## Where the comments and the code disagree

The model follows the code in each case below.

- `extractExtension` (src/FileManager.cpp:211-241) returns `""` for a name
  whose only dot is its first character. Its comment at
  src/FileManager.cpp:206 says `.gitignore` has the extension `.gitignore`.
  `Manager.DotfileHasNoExtension` and `Manager.ExtensionOfNoDotAndDotfile`
  state what the code does.
- The example in the comment of `findDuplicates` (src/FileSearcher.cpp:203-219)
  groups `file1.txt` with `file1_copy.txt`. The fingerprint at
  src/FileSearcher.cpp:94 contains the whole name, so records with
  different names never share a group. `Searcher.DifferentNamesNeverGrouped`
  states this.
- The comment on `operator==` (include/FileInfo.h:53) mentions comparing
  the hash. The code compares only size and name.

## Model

| member | source | states |
|---|---|---|
| Strings.ToLowerChar | src/FileSearcher.cpp:40-43 | `tolower` turns an ASCII capital into the small letter at the same alphabet position, leaves every other character alone, and never yields a capital |
| Strings.ToLowercase | src/FileSearcher.cpp:40-63 | the lower-cased copy has the same length and holds `tolower` of the character at every position |
| Strings.ToLowercaseHasNoUpper | src/FileSearcher.cpp:40-63 | a lower-cased string holds no ASCII capital |
| Strings.ToLowercaseSuffix | src/FileManager.cpp:219-223 | lower-casing the suffix from a position gives the same suffix of the lower-cased string |
| Strings.ToLowercaseIdempotent | src/FileSearcher.cpp:40-63 | lower-casing twice is the same as lower-casing once |
| Strings.ToLowercaseCons | src/FileManager.cpp:219-223 | lower-casing `c` followed by `s` gives `tolower(c)` followed by the lower-cased `s` |
| Strings.Find | src/FileSearcher.cpp:161 | `find` returns a position where the needle occurs with no earlier occurrence, and `npos` only when it occurs nowhere |
| Strings.FindIsSubstring | src/FileSearcher.cpp:161 | `find` returns a position exactly when the needle is a substring of the haystack |
| Strings.LastIndexOf | src/FileManager.cpp:212 | a position reported by `find_last_of` lies inside the string |
| Strings.LastIndexOfSpec | src/FileManager.cpp:212 | `find_last_of(c)` is `npos` exactly when `c` is absent; otherwise it holds `c` and no `c` follows it |
| Strings.LastIndexOfUnique | src/FileManager.cpp:212 | any position holding `c` with no `c` after it is the one `find_last_of` reports |
| Strings.LastDotOfLowercase | src/FileManager.cpp:212-223 | the last dot of the lower-cased string is at the same position as in the original |
| Strings.LastIndexOfJoin | src/FileManager.cpp:165 | in `a + c + b` with no `c` in `b`, the last `c` is the one between `a` and `b` |
| Strings.DigitChar | src/FileSearcher.cpp:94 | a digit value below ten becomes a decimal digit character |
| Strings.NatToDecimal | src/FileSearcher.cpp:94 | `to_string` of a size is a non-empty string of decimal digits with no leading zero unless the size is 0 |
| Strings.DecimalRoundTrip | src/FileSearcher.cpp:94 | reading the decimal form back yields the size |
| Strings.DecimalInjective | src/FileSearcher.cpp:94 | two sizes have the same decimal form exactly when they are equal |
| Records.Make | include/FileInfo.h:36-37 | the four-argument constructor stores name, path, extension and size unchanged and sets the hash to empty |
| Records.Default | include/FileInfo.h:45 | the default record has empty strings and size 0 |
| Records.Same | include/FileInfo.h:56-59 | `operator==`: definition (size and name equal); its meaning is in `SameIgnoresOtherFields`, `SameNeedsSizeAndName` and `SameIsEquivalence` |
| Records.SameIgnoresOtherFields | include/FileInfo.h:56-59 | records that differ only in path, extension or hash are equal under `operator==` |
| Records.SameNeedsSizeAndName | include/FileInfo.h:56-59 | records that differ in size or in name are never equal |
| Records.SameIsEquivalence | include/FileInfo.h:56-59 | `operator==` is reflexive, symmetric and transitive |
| Records.DefaultsAreSame | include/FileInfo.h:45 | two default records are equal, and so is a default record and an empty-named empty file at any path |
| Manager.FileName | src/FileManager.cpp:165 | `filename()` holds no `/` and is a suffix of the path; `FileNameIsLastComponent` and `FileNameUnique` complete it |
| Manager.FileNameIsLastComponent | src/FileManager.cpp:165 | the file name is the whole path or comes right after a `/` |
| Manager.FileNameUnique | src/FileManager.cpp:165 | the file name is the only suffix with no `/` that is the whole path or comes right after a `/`: the text after the last `/`, or the whole path when it has none |
| Manager.FileNameOfJoin | src/FileManager.cpp:165 | the file name of `dir + "/" + name` is `name` when `name` has no `/` |
| Manager.ExtractExtension | src/FileManager.cpp:211-241 | `extractExtension`: definition (lower-cased suffix from the last dot when that dot is past the first character, else empty); its meaning is in `ExtractExtensionShape`, `HasExtensionIff` and `ExtensionAtLastDot` |
| Manager.ExtractExtensionShape | src/FileManager.cpp:211-241 | a non-empty extension starts with a dot, holds no other dot and no capital, is shorter than the name, and is the matching suffix of the lower-cased name |
| Manager.SuffixFromLastDot | src/FileManager.cpp:217-223 | the lower-cased suffix from the last dot starts with that dot and is the suffix of the lower-cased name |
| Manager.NoDotNoExtension | src/FileManager.cpp:212-240 | a name with no dot has the empty extension |
| Manager.ExtensionAtLastDot | src/FileManager.cpp:212-237 | when the last dot is at a position above 0, the extension is the lower-cased suffix starting there |
| Manager.DotfileHasNoExtension | src/FileManager.cpp:217-240 | a name whose only dot is its first character has the empty extension |
| Manager.HasExtensionIff | src/FileManager.cpp:212-240 | there is an extension exactly when a dot occurs after the first character |
| Manager.ExtensionIgnoresCase | src/FileManager.cpp:211-241 | lower-casing a name beforehand does not change its extension |
| Manager.ExtensionOfJoin | src/FileManager.cpp:211-241 | `stem.suffix` with no dot in `suffix` has the extension `.` + lower-cased `suffix`, whatever the stem holds (`archive.tar.gz` gives `.gz`) |
| Manager.ExtensionOfNoDotAndDotfile | src/FileManager.cpp:211-241 | `README` and `.gitignore` both have the empty extension |
| Manager.WellFormed | src/FileManager.cpp:163-187 | definition: a record's name is the file name of its path and its extension is extracted from that name, as `getFileInfo` builds it; `GetFileInfo` and `SnapshotBounds` establish it |
| Manager.GetFileInfo | src/FileManager.cpp:163-187 | the record's name is the file name of the path and its extension is extracted from that name; a failed size read yields the default record; otherwise the path and size are kept and the hash is empty |
| Manager.FailedReadLooksEmpty | src/FileManager.cpp:182-186 | the record of a failed read equals, under `operator==`, the record of an empty file with an empty name |
| Manager.Record | src/FileManager.cpp:112-113 | definition: the record `getFileInfo` builds for one directory entry; its meaning is in `GetFileInfo` |
| Manager.Snapshot | src/FileManager.cpp:110-116 | definition: the records a scan collects, one per regular file in iteration order; its meaning is in `SnapshotSnoc`, `SnapshotBounds` and `SnapshotMembers` |
| Manager.RecordOfRegularFile | src/FileManager.cpp:110-116 | definition: a record is the record of some regular-file entry; `SnapshotMembers` ties it to the scan |
| Manager.SnapshotAppend | src/FileManager.cpp:110-116 | scanning a listing in two parts yields the two record lists one after the other |
| Manager.SnapshotSnoc | src/FileManager.cpp:110-116 | one more entry adds its record exactly when it is a regular file |
| Manager.SnapshotBounds | src/FileManager.cpp:110-116 | a scan yields at most one record per entry, and every record is well formed |
| Manager.SnapshotMembers | src/FileManager.cpp:110-116 | a record is collected exactly when it is the record of some regular-file entry |
| Manager.SnapshotOfNoFiles | src/FileManager.cpp:110-116 | a listing without regular files yields no records |
| Manager.FileManager.constructor | src/FileManager.cpp:37-49 | the manager starts with the given directory and no records |
| Manager.FileManager.ScanDirectory | src/FileManager.cpp:95-147 | the previous records are discarded; a missing directory yields none and 0; otherwise the regular files' records are collected in iteration order; the count is returned when iteration finished and 0 when it threw, and the records read before the error are kept |
| Filesystem.Ancestors | src/FileSorter.cpp:214 | definition: the directories `create_directories` creates on the way to a path; its meaning is in `AncestorsAre` |
| Filesystem.AncestorsAre | src/FileSorter.cpp:214 | the ancestors of a path are exactly its non-empty prefixes that end just before a `/` |
| Filesystem.AncestorsAreShorter | src/FileSorter.cpp:214 | every ancestor is shorter than the path |
| Filesystem.CanCreate | src/FileSorter.cpp:214 | definition: `create_directories` is not blocked by a regular file on the way; its meaning is in `CanCreateIff` |
| Filesystem.CanCreateIff | src/FileSorter.cpp:214 | `create_directories` can succeed exactly when no existing ancestor is a regular file |
| Filesystem.WithAncestors | src/FileSorter.cpp:214 | definition: every missing ancestor created, outermost first; its meaning is in `WithAncestorsEffect` |
| Filesystem.WithAncestorsEffect | src/FileSorter.cpp:214 | creating the ancestors adds every missing ancestor as a directory, keeps every entry, and adds nothing else |
| Filesystem.CreateDirectoriesIn | src/FileSorter.cpp:214 | definition: the tree after a successful `create_directories`; its meaning is in `CreateDirectoriesEffect` |
| Filesystem.CreateDirectoriesEffect | src/FileSorter.cpp:214 | after `create_directories` the path exists, as a new directory if it was missing; old entries are unchanged; new entries are directories no longer than the path, each the path or an ancestor |
| Filesystem.AncestorsOfPrefix | src/FileSorter.cpp:214 | an ancestor of a prefix of a path is an ancestor of the path |
| Filesystem.PartlyCreatedIn | src/FileSorter.cpp:214-218 | definition: the tree left by a `create_directories` that failed after creating the missing ancestors up to some length; its meaning is in `PartlyCreatedEffect` |
| Filesystem.PartlyCreatedEffect | src/FileSorter.cpp:214-218 | a `create_directories` that fails part of the way keeps every entry, adds only directories that are ancestors of the path, and leaves the path itself missing |
| Filesystem.ParentOfJoin | src/FileSorter.cpp:292-325 | the directory that `rename` needs for `dir + "/" + name` is `dir`, when `name` has no `/` |
| Filesystem.CanRename | src/FileSorter.cpp:325 | definition: `rename` can succeed when the source is a regular file, the destination's directory exists, and the destination is not a directory |
| Filesystem.RenameIn | src/FileSorter.cpp:325 | definition: the entry moved from the source to the destination; its meaning is in `RenameEffect` |
| Filesystem.RenameEffect | src/FileSorter.cpp:325 | after `rename` the entry is at the destination and gone from the source; every other path is untouched |
| Filesystem.FileSystem.Exists | src/FileSorter.cpp:197 | `exists(p)`: definition (the path is in the tree; the check never fails in the model) |
| Filesystem.FileSystem.CreateDirectories | src/FileSorter.cpp:214-218 | `create_directories` succeeds exactly when the environment lets it and no ancestor is a regular file; on success the tree gains the path and its missing ancestors; a regular file among the ancestors stops it before it creates anything; a failure part of the way leaves the ancestors created so far (`PartlyCreatedIn`) |
| Filesystem.FileSystem.Rename | src/FileSorter.cpp:325 | `rename` succeeds exactly when not told to fail, the source is a regular file, the destination's directory exists and the destination is not a directory; a failure changes nothing |
| Sorter.Statements | src/FileSorter.cpp:50-122 | definition: the `table[extension] = category` statements of the first groups, in source order |
| Sorter.AssignAll | src/FileSorter.cpp:48-123 | definition: running assignment statements in order on a map, a later one overriding an earlier; its meaning is in `AssignGroupEffect` and `FiledAfter` |
| Sorter.TableAfter | src/FileSorter.cpp:48-123 | definition: the table once the first groups have run; its meaning is in `TableAfterValues`, `TableAfterKeys` and `TableAfterSize` |
| Sorter.InitializeCategories | src/FileSorter.cpp:48-123 | definition: the table after all seven groups; its meaning is in `CategoryTableValues`, `CategoryTableSize`, `CategoryTableKeysAreExtensions` and the `...Filed` lemmas |
| Sorter.AssignGroupEffect | src/FileSorter.cpp:50-122 | running one group's statements maps each of its extensions to its category and leaves every other key alone |
| Sorter.AssignGroupAt | src/FileSorter.cpp:50-122 | one key's view of `AssignGroupEffect`: assigned by the group when listed, otherwise as before |
| Sorter.AssignGroupSize | src/FileSorter.cpp:50-122 | statements that assign distinct new keys grow the table by one entry each |
| Sorter.FiledAfter | src/FileSorter.cpp:48-123 | an extension keeps its group's category unless a later group lists it again |
| Sorter.TableAfterValues | src/FileSorter.cpp:48-123 | every value of the table is one of the seven category names, at every stage |
| Sorter.TableAfterKeys | src/FileSorter.cpp:48-123 | every key of the table is an extension of a group that has already run |
| Sorter.GroupsHaveNoDuplicates | src/FileSorter.cpp:50-122 | no group lists an extension twice |
| Sorter.DocumentsAreNotLater | src/FileSorter.cpp:50-122 | no later group lists a document extension |
| Sorter.ImagesAreNotLater | src/FileSorter.cpp:62-122 | no later group lists an image extension |
| Sorter.VideosAreNotLater | src/FileSorter.cpp:73-122 | no later group lists a video extension |
| Sorter.AudioIsNotLater | src/FileSorter.cpp:83-122 | no later group lists an audio extension |
| Sorter.ArchivesAreNotLater | src/FileSorter.cpp:92-122 | no later group lists an archive extension |
| Sorter.CodeIsNotLater | src/FileSorter.cpp:101-122 | no executable extension is a code extension |
| Sorter.GroupsAreDisjoint | src/FileSorter.cpp:50-122 | the seven groups are pairwise disjoint |
| Sorter.GroupIsNew | src/FileSorter.cpp:50-122 | no extension of a group is in the table when that group runs |
| Sorter.TableAfterSize | src/FileSorter.cpp:48-123 | the table has exactly as many entries as the groups run so far have extensions |
| Sorter.DocumentExtensionsAreShaped | src/FileSorter.cpp:50-59 | every document extension is a dot followed by characters that are neither dots nor capitals |
| Sorter.ImageExtensionsAreShaped | src/FileSorter.cpp:62-70 | every image extension has the shape of an extracted extension |
| Sorter.VideoExtensionsAreShaped | src/FileSorter.cpp:73-80 | every video extension has the shape of an extracted extension |
| Sorter.AudioExtensionsAreShaped | src/FileSorter.cpp:83-89 | every audio extension has the shape of an extracted extension |
| Sorter.ArchiveExtensionsAreShaped | src/FileSorter.cpp:92-98 | every archive extension has the shape of an extracted extension |
| Sorter.CodeExtensionsAreShaped | src/FileSorter.cpp:101-114 | every code extension has the shape of an extracted extension |
| Sorter.ExecutableExtensionsAreShaped | src/FileSorter.cpp:117-122 | every executable extension has the shape of an extracted extension |
| Sorter.GroupsAreShaped | src/FileSorter.cpp:50-122 | every extension in every group has the shape of an extracted extension |
| Sorter.CategoryTableValues | src/FileSorter.cpp:48-123 | every value of the finished table is one of the seven names, and none is `Others` |
| Sorter.CategoryTableSize | src/FileSorter.cpp:48-123 | the finished table has 61 entries |
| Sorter.CategoryTableKeysAreExtensions | src/FileSorter.cpp:48-123 | every key of the table has the shape `extractExtension` produces |
| Sorter.Category | src/FileSorter.cpp:172-175 | definition: the table's value for the extension, else `Others`; its meaning is in `GetCategoryForExtension` |
| Sorter.GetCategoryForExtension | src/FileSorter.cpp:147-176 | the category is one of the seven names or `Others`, and it is `Others` exactly when the table lacks the extension |
| Sorter.GroupFiled | src/FileSorter.cpp:147-176 | an extension of a group that no later group lists is filed under that group's category |
| Sorter.DocumentsFiled | src/FileSorter.cpp:50-59 | each document extension is filed under `Documents` |
| Sorter.ImagesFiled | src/FileSorter.cpp:62-70 | each image extension is filed under `Images` |
| Sorter.VideosFiled | src/FileSorter.cpp:73-80 | each video extension is filed under `Videos` |
| Sorter.AudioFiled | src/FileSorter.cpp:83-89 | each audio extension is filed under `Audio` |
| Sorter.ArchivesFiled | src/FileSorter.cpp:92-98 | each archive extension is filed under `Archives` |
| Sorter.CodeFiled | src/FileSorter.cpp:101-114 | each code extension is filed under `Code` |
| Sorter.ExecutablesFiled | src/FileSorter.cpp:117-122 | each executable extension is filed under `Executables` |
| Sorter.UnknownExtensionCategory | src/FileSorter.cpp:172-175 | an empty extension, one without a leading dot, or one with a capital goes to `Others`; the lookup does not fold case |
| Sorter.CategoryIgnoresCase | src/FileSorter.cpp:282 | a file's category does not depend on the case of its name |
| Sorter.CategoryPath | src/FileSorter.cpp:285 | the category folder is a path longer than the base directory |
| Sorter.Destination | src/FileSorter.cpp:292 | the destination is a path longer than its category folder |
| Sorter.CreateFailure | src/FileSorter.cpp:214-218 | definition: the point at which a record's fault makes `create_directories` fail, if it does |
| Sorter.EnsureDirectory | src/FileSorter.cpp:195-220 | definition: `createDirectoryIfNotExists` on a tree; its meaning is in `EnsureDirectoryEffect` |
| Sorter.EnsureDirectoryEffect | src/FileSorter.cpp:195-220 | the folder exists exactly when success is reported; whatever the result, every entry is kept and the only entries added are directories that are the folder itself or its ancestors; a failure adds nothing but ancestors of the folder |
| Sorter.Place | src/FileSorter.cpp:307-325 | definition: skip an existing destination, else `rename`; its meaning is in `PlaceEffect` |
| Sorter.PlaceEffect | src/FileSorter.cpp:307-325 | a record is skipped exactly when its destination exists; only a move changes the tree; a move takes a regular file to a free destination and keeps every other entry |
| Sorter.Step | src/FileSorter.cpp:279-344 | definition: one loop iteration (category, folder, destination check, rename); its meaning is in `StepEffect` |
| Sorter.StepEffect | src/FileSorter.cpp:279-343 | one iteration: a folder failure adds nothing but folders on the way to the category folder; a record that is not moved overwrites nothing; a move takes a regular file to a free destination; the only new entries are the category folder, folders on the way to it, and the moved file at its destination |
| Sorter.StateBefore | src/FileSorter.cpp:279-344 | definition: the tree before a given record, each earlier record having had its step in order; its meaning is in `OrganizeKeepsUnmoved`, `OrganizeKeepsFileCount` and the persistence lemmas |
| Sorter.OutcomeOf | src/FileSorter.cpp:279-344 | definition: one record's step outcome on the tree left by the records before it; its meaning is in `OutcomeAt` |
| Sorter.Organize | src/FileSorter.cpp:253-349 | a run yields one outcome per record |
| Sorter.Outcomes | src/FileSorter.cpp:279-344 | the outcomes of the first `n` records number `n` |
| Sorter.OutcomesAt | src/FileSorter.cpp:279-344 | the outcomes of the first `n` records list each record's own step outcome, in order |
| Sorter.OutcomeAt | src/FileSorter.cpp:279-344 | the run's `i`th outcome is the outcome of record `i`'s step on the tree left by the earlier records |
| Sorter.CountMoved | src/FileSorter.cpp:255-329 | the moved count is at most the number of records, and it is 0 exactly when nothing was moved |
| Sorter.CountMovedSnoc | src/FileSorter.cpp:329 | one more outcome adds 1 to the count exactly when it is a move |
| Sorter.FailedRecordChangesNoEntry | src/FileSorter.cpp:286-343 | a record that is not moved keeps every entry and adds only its category folder and folders on the way to it; a folder failure adds only ancestors of the record's category folder; the loop goes on to the next record |
| Sorter.StepMovesToFreePath | src/FileSorter.cpp:307-325 | a record is moved only to a destination that did not exist |
| Sorter.StepSkipsPlacedRecord | src/FileSorter.cpp:307-310 | when the folder and the destination both exist, the record is skipped whatever fault it meets |
| Sorter.StepKeepsUnmoved | src/FileSorter.cpp:279-343 | one iteration keeps every entry unless it is the moved record's own path |
| Sorter.OrganizeKeepsUnmoved | src/FileSorter.cpp:279-344 | nothing else changes: an entry is still there, unchanged, unless a record at that path was moved |
| Sorter.StepAddsOnlyFolders | src/FileSorter.cpp:279-343 | one iteration adds only the record's category folder and folders on the way to it, apart from a moved file's destination |
| Sorter.OrganizeAddsOnlyFolders | src/FileSorter.cpp:279-344 | every entry the run adds is a folder that is some processed record's category folder or an ancestor of it, unless it is the destination of a moved record |
| Sorter.EnsureDirectoryKeepsFiles | src/FileSorter.cpp:195-220 | creating folders adds and removes no regular file |
| Sorter.PlaceKeepsFileCount | src/FileSorter.cpp:307-325 | placing a record keeps the number of regular files |
| Sorter.StepKeepsFileCount | src/FileSorter.cpp:279-343 | one iteration neither loses nor duplicates a file |
| Sorter.OrganizeKeepsFileCount | src/FileSorter.cpp:253-349 | a run leaves as many regular files as it found |
| Sorter.StepKeepsDirectory | src/FileSorter.cpp:279-343 | a folder is never removed or replaced |
| Sorter.DestinationOfRecordAtDestination | src/FileSorter.cpp:292 | a record that already sits at some record's destination has that path as its own destination |
| Sorter.StepKeepsEntry | src/FileSorter.cpp:279-343 | an entry is kept unless it is the record's own file bound for somewhere else |
| Sorter.WellFormedArePlaceable | src/FileManager.cpp:163-180 | records built by `getFileInfo` have names without `/`, and a record sitting at a destination is already in its place |
| Sorter.DirectoryPersists | src/FileSorter.cpp:279-344 | a folder present at one point of the run is still there later |
| Sorter.EntryPersists | src/FileSorter.cpp:279-344 | an entry survives the records in between unless one of them is a file at that path bound elsewhere |
| Sorter.DestinationPersists | src/FileSorter.cpp:279-344 | for placeable records, an entry at a record's destination survives the rest of the run unchanged |
| Sorter.StepMovedIntoFolder | src/FileSorter.cpp:286-325 | after a move the category folder is a directory and the file is at its destination |
| Sorter.DestinationsDistinct | src/FileSorter.cpp:307-329 | no two moved records share a destination, so no move overwrites another |
| Sorter.DestinationStaysTaken | src/FileSorter.cpp:279-344 | once a record has been moved, its destination exists before every later record |
| Sorter.MovedIntoFolder | src/FileSorter.cpp:286-329 | right after a record's move, its folder is a directory and the file is at its destination |
| Sorter.MovedRecordStays | src/FileSorter.cpp:279-344 | a moved record's folder and destination are still there when the run ends |
| Sorter.SecondRunSkips | src/FileSorter.cpp:307-310 | a second run over the same records skips every record the first run moved, whatever its create and rename faults (its `exists` checks never fail in the model) |
| Sorter.SecondRunMovesNothing | src/FileSorter.cpp:253-349 | when the first run moved every record, a second run moves none |
| Sorter.FileSorter.constructor | src/FileSorter.cpp:26-29 | a new sorter holds the table `initializeCategories` builds |
| Sorter.FileSorter.CreateDirectoryIfNotExists | src/FileSorter.cpp:195-220 | an existing path is accepted as it is; otherwise `create_directories` is attempted and its result returned; the new tree is the one `EnsureDirectory` describes |
| Sorter.FileSorter.OrganizeOne | src/FileSorter.cpp:279-344 | the loop body for one record changes the filesystem and reports the outcome as `Step` describes |
| Sorter.FileSorter.OrganizeByExtension | src/FileSorter.cpp:253-349 | the filesystem ends as `Organize` says, and the count returned is the number of records moved |
| Searcher.NameMatches | src/FileSearcher.cpp:155-161 | definition: `find` of the lower-cased term in the lower-cased name is not `npos`; its meaning is in `NameMatchesIff` |
| Searcher.NameMatchesIff | src/FileSearcher.cpp:155-161 | a record matches exactly when the lower-cased term is a substring of the lower-cased name |
| Searcher.NameMatchesIgnoresCase | src/FileSearcher.cpp:155-161 | lower-casing the name, the term, or both first does not change whether the record matches |
| Searcher.PrefixMatches | src/FileSearcher.cpp:121-130 | a name that starts with the term, ignoring case, matches it (`Report_2024.pdf` matches `report`) |
| Searcher.MatchingFiles | src/FileSearcher.cpp:132-170 | definition: the records `searchByName` returns; its meaning is in `MatchingFilesSelects` and `MatchingFilesMembers` |
| Searcher.MatchingFilesSelects | src/FileSearcher.cpp:155-165 | the result is the input at exactly the matching positions, in ascending order: a subsequence that misses no match |
| Searcher.MatchingFilesMembers | src/FileSearcher.cpp:155-165 | a record is returned exactly when it is in the input and its name matches |
| Searcher.EmptyTermMatchesAll | src/FileSearcher.cpp:161 | the empty term returns the whole input |
| Searcher.SearchByName | src/FileSearcher.cpp:132-170 | the loop returns exactly the matching records in input order |
| Searcher.Fingerprint | src/FileSearcher.cpp:93-95 | definition: `generateSimpleHash`; its meaning is in `FingerprintSplits` and `FingerprintIffSame` |
| Searcher.FingerprintSplits | src/FileSearcher.cpp:93-95 | the fingerprint is the decimal size, then the first underscore, then the name |
| Searcher.FingerprintIffSame | src/FileSearcher.cpp:93-95 | two records share a fingerprint exactly when `operator==` holds for them |
| Searcher.Groups | src/FileSearcher.cpp:246-249 | definition: `hashGroups` after the first loop; its meaning is in `GroupsAre` and `GroupsTotal` |
| Searcher.GroupsAre | src/FileSearcher.cpp:246-249 | a record's fingerprint has a group exactly when some input record is the same file; that group holds exactly that record's copies, in input order |
| Searcher.GroupKeysAreFingerprints | src/FileSearcher.cpp:246-249 | every group key is the fingerprint of some input record |
| Searcher.Duplicates | src/FileSearcher.cpp:265-271 | definition: the groups with two or more records; its meaning is in `DuplicatesVisit` and `DuplicatesTotal` |
| Searcher.DuplicateGroups | src/FileSearcher.cpp:221-276 | definition: `findDuplicates`'s result; its meaning is in `DuplicateGroupsAreCopies` and `InDuplicatesIff` |
| Searcher.DuplicateGroupsAreCopies | src/FileSearcher.cpp:221-276 | each returned group holds all copies of one input record; it has at least two members, and every member's fingerprint is its key |
| Searcher.InDuplicatesIff | src/FileSearcher.cpp:221-276 | a record is in a returned group exactly when another input record is the same file, and then only under its own fingerprint |
| Searcher.DifferentNamesNeverGrouped | src/FileSearcher.cpp:93-95 | members of one group have the same name and size, so a renamed copy is never reported |
| Searcher.DistinctFilesHaveNoDuplicates | src/FileSearcher.cpp:221-276 | input made of pairwise different files yields no groups |
| Searcher.TotalSizeRemove | src/FileSearcher.cpp:265-271 | the total size of the groups does not depend on which group is counted first |
| Searcher.GroupsTotal | src/FileSearcher.cpp:246-249 | the groups together hold every input record exactly once |
| Searcher.DuplicatesVisit | src/FileSearcher.cpp:265-271 | visiting one more group adds it exactly when it has two or more records |
| Searcher.DuplicatesTotal | src/FileSearcher.cpp:265-271 | dropping the small groups never adds records |
| Searcher.DuplicateGroupsTotal | src/FileSearcher.cpp:221-276 | the returned groups together hold no more records than the input |
| Searcher.FindDuplicates | src/FileSearcher.cpp:221-276 | the two loops return exactly the groups with two or more records, keyed by fingerprint |

## Left out

- Logging, console output and the interactive menu (`Logger`, `Menu`,
  `main`, `displaySearchResults`, `displayDuplicates`, `displayCategories`)
  are not part of this model. They only print, and the size formatting in
  `displaySearchResults` uses floating point.
- `directoryExists`, `directory_iterator` and `file_size` are not modelled
  as functions of a tree. Their answers are inputs: a `Listing` and an
  optional size per entry.
- Filesystem paths are plain strings. There is no normalisation of `//`,
  `.`, `..` or trailing slashes, and no symbolic links.
- Filesystem.FileSystem.Exists, Sorter.EnsureDirectory, Sorter.Place:
  `fs::exists` is modelled as never failing. In the source it throws
  `filesystem_error` on any error other than "not found" (a permission
  error on a path component, say). At src/FileSorter.cpp:197 that error is
  caught at :216, `createDirectoryIfNotExists` returns false and the loop
  goes on to the next record (:286-289), even when the folder exists. At
  :307 it is caught at :331: the record is not moved, after its folder may
  have been created. Neither path is reachable in the model, so
  `SecondRunSkips` and `SecondRunMovesNothing` hold for any faults of the
  second run only because the second run's `exists` checks always answer.
- Sorter.Destination: a record with an empty name (the default record that
  a failed `file_size` yields) gets the destination `base/Category/`. A
  real filesystem resolves that to the existing category folder, so
  `fs::exists` is true and the source skips the record. The model compares
  paths as strings and finds no such entry. The record's path is then the
  empty string, which no tree of real paths holds, so the model reports
  `RenameFailed` instead of `SkippedExists`.
  The file count and the tree agree with the source in both cases.
- Moving a whole directory is left out. `rename` succeeds in the model only
  for a regular file at the source.
- Sorter.FileSorter.OrganizeByExtension: the count is an unbounded integer.
  The C++ `int` could overflow only past 2^31 - 1 moved files.
- Manager.FileManager.ScanDirectory: the count is an unbounded integer,
  while src/FileManager.cpp:124 casts `files.size()` to `int`. The two
  differ only past 2^31 - 1 files.
- Names and paths are sequences of Unicode characters, while the C++ code
  works on the bytes of a `std::string`. For valid UTF-8 the results agree,
  because `.`, `/` and ASCII letters never occur inside a multi-byte
  sequence. Names that are not valid UTF-8 are outside the model, and so is
  a negative `char` passed to `tolower` at src/FileManager.cpp:223.
- Strings.ToLowerChar: only ASCII letters change case, as in the "C" locale.
  Other locales are not modelled.
- Searcher.FindDuplicates: the result is a map, so the key order in which
  `std::map` is traversed plays no part. The second loop picks the keys in
  any order, and the result does not depend on it.
- Searcher.PrefixMatches: states the `report` example of
  src/FileSearcher.cpp:121-130 for any names of that shape, rather than for
  the three literal names.
- Sorter run lemmas (`DestinationsDistinct`, `SecondRunSkips` and the
  lemmas they use) assume `Placeable` records. `WellFormedArePlaceable`
  proves this for every record list that `getFileInfo` builds. A hand-made
  record whose path is another record's destination but not its own is not
  covered.
- `FileSorter` is a class with a table fixed at construction. The table's
  properties are proved about `InitializeCategories`, the value the
  constructor stores.
