/** The `FileInfo` record: one scanned file's metadata, a plain value. */
module Records {

  /** `name` is the file name with its extension, `path` the full location,
      `extension` the lower-cased suffix from the last dot (or empty), `size`
      the length in bytes (unsigned, so never negative and not limited to
      4 GiB), and `hash` a content hash slot that nothing ever fills in. */
  datatype FileInfo = FileInfo(name: string, path: string, extension: string, size: nat, hash: string)

  /** The four-argument constructor: stores its arguments unchanged and starts
      with an empty hash. */
  function Make(n: string, p: string, ext: string, s: nat): (r: FileInfo)
    ensures r.name == n && r.path == p && r.extension == ext && r.size == s
    ensures r.hash == ""
  {
    FileInfo(n, p, ext, s, "")
  }

  /** The default constructor: every string empty and size 0. */
  function Default(): (r: FileInfo)
    ensures r.name == "" && r.path == "" && r.extension == "" && r.size == 0 && r.hash == ""
  {
    Make("", "", "", 0)
  }

  /** `operator==`: two records are the same file when size and name agree. */
  predicate Same(a: FileInfo, b: FileInfo) {
    a.size == b.size && a.name == b.name
  }

  /** Path, extension and hash play no part in `operator==`. */
  lemma SameIgnoresOtherFields(a: FileInfo, p: string, ext: string, h: string)
    ensures Same(a, a.(path := p, extension := ext, hash := h))
  {
  }

  /** Records that differ in size or in name are never the same. */
  lemma SameNeedsSizeAndName(a: FileInfo, b: FileInfo)
    ensures a.size != b.size ==> !Same(a, b)
    ensures a.name != b.name ==> !Same(a, b)
  {
  }

  /** `operator==` is an equivalence relation. */
  lemma SameIsEquivalence(a: FileInfo, b: FileInfo, c: FileInfo)
    ensures Same(a, a)
    ensures Same(a, b) <==> Same(b, a)
    ensures Same(a, b) && Same(b, c) ==> Same(a, c)
  {
  }

  /** Two default-constructed records are the same file, and so is a record
      of an empty file with an empty name, wherever it lives. */
  lemma DefaultsAreSame(p: string, ext: string)
    ensures Same(Default(), Default())
    ensures Same(Default(), Make("", p, ext, 0))
  {
  }
}
