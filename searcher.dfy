/** `FileSearcher`: case-insensitive search by name and grouping of likely
    duplicates by a (size, name) fingerprint. The searcher has no state of its
    own, so its operations are methods of the module; each loops over the
    records like the original and is proved equal to a function that states
    its result. */
module Searcher {

  import opened Strings
  import opened Records

  // ---------------------------------------------------------------------
  // Selecting records in order

  /** The elements of `xs` that satisfy `keep`, in their original order. */
  function Filter<T>(xs: seq<T>, keep: T -> bool): (r: seq<T>)
    ensures |r| <= |xs|
  {
    if xs == [] then []
    else
      var last := xs[|xs| - 1];
      Filter(xs[..|xs| - 1], keep) + if keep(last) then [last] else []
  }

  /** The positions of `xs` whose elements satisfy `keep`, ascending. */
  function Positions<T>(xs: seq<T>, keep: T -> bool): seq<nat>
  {
    if xs == [] then []
    else Positions(xs[..|xs| - 1], keep) + if keep(xs[|xs| - 1]) then [|xs| - 1] else []
  }

  /** `Filter` picks out exactly the positions that satisfy `keep`, each once
      and in ascending order: the result is a subsequence of the input that
      misses no element that qualifies. */
  lemma {:induction false} FilterSelects<T>(xs: seq<T>, keep: T -> bool)
    ensures var r, ps := Filter(xs, keep), Positions(xs, keep);
      && |ps| == |r|
      && (forall k :: 0 <= k < |ps| ==> ps[k] < |xs| && r[k] == xs[ps[k]])
      && (forall k, l :: 0 <= k < l < |ps| ==> ps[k] < ps[l])
      && (forall i :: 0 <= i < |xs| ==> (i in ps <==> keep(xs[i])))
  {
    if xs != [] {
      var init := xs[..|xs| - 1];
      FilterSelects(init, keep);
      var ps := Positions(init, keep);
      forall i | 0 <= i < |init| ensures xs[i] == init[i] { }
      assert forall k :: 0 <= k < |ps| ==> ps[k] < |init|;
    }
  }

  /** An element is selected exactly when it occurs in the input and
      satisfies `keep`. */
  lemma FilterMembers<T>(xs: seq<T>, keep: T -> bool, x: T)
    ensures x in Filter(xs, keep) <==> x in xs && keep(x)
  {
    FilterSelects(xs, keep);
    var r, ps := Filter(xs, keep), Positions(xs, keep);
    if x in r {
      var k :| 0 <= k < |r| && r[k] == x;
      assert xs[ps[k]] == x && ps[k] in ps;
    }
    if x in xs && keep(x) {
      var i :| 0 <= i < |xs| && xs[i] == x;
      assert i in ps;
      var k :| 0 <= k < |ps| && ps[k] == i;
      assert r[k] == x;
    }
  }

  /** When every element qualifies, nothing is dropped. */
  lemma {:induction false} FilterKeepsAll<T>(xs: seq<T>, keep: T -> bool)
    requires forall i :: 0 <= i < |xs| ==> keep(xs[i])
    ensures Filter(xs, keep) == xs
  {
    if xs != [] {
      var init := xs[..|xs| - 1];
      forall i | 0 <= i < |init| ensures keep(init[i]) {
        assert init[i] == xs[i];
      }
      FilterKeepsAll(init, keep);
      assert xs == init + [xs[|xs| - 1]];
    }
  }

  /** A selection holds at least two elements exactly when two distinct
      positions qualify. */
  lemma FilterHasTwo<T>(xs: seq<T>, keep: T -> bool, i: nat)
    requires i < |xs| && keep(xs[i])
    ensures |Filter(xs, keep)| >= 2 <==> exists j :: 0 <= j < |xs| && j != i && keep(xs[j])
  {
    FilterSelects(xs, keep);
    var ps := Positions(xs, keep);
    if |ps| >= 2 {
      var j := if ps[0] == i then ps[1] else ps[0];
      assert j < |xs| && j != i && keep(xs[j]) by {
        assert ps[0] < ps[1] && ps[0] in ps && ps[1] in ps;
      }
    }
    if j :| 0 <= j < |xs| && j != i && keep(xs[j]) {
      assert i in ps && j in ps;
    }
  }

  // ---------------------------------------------------------------------
  // searchByName

  /** The match test: the lower-cased term occurs somewhere in the
      lower-cased name (`find` does not return `npos`). */
  predicate NameMatches(f: FileInfo, term: string) {
    Find(ToLowercase(f.name), ToLowercase(term)).Some?
  }

  /** A record matches exactly when the lower-cased term is a substring of
      the lower-cased name. */
  lemma NameMatchesIff(f: FileInfo, term: string)
    ensures NameMatches(f, term) <==> IsSubstring(ToLowercase(term), ToLowercase(f.name))
  {
    FindIsSubstring(ToLowercase(f.name), ToLowercase(term));
  }

  /** Matching ignores case on both sides: lower-casing the name, the term,
      or both beforehand changes nothing. */
  lemma NameMatchesIgnoresCase(f: FileInfo, term: string)
    ensures NameMatches(f, term) <==> NameMatches(f.(name := ToLowercase(f.name)), term)
    ensures NameMatches(f, term) <==> NameMatches(f, ToLowercase(term))
    ensures NameMatches(f, term) <==> NameMatches(f.(name := ToLowercase(f.name)), ToLowercase(term))
  {
    ToLowercaseIdempotent(f.name);
    ToLowercaseIdempotent(term);
  }

  /** A name that starts with the term, up to case, matches it. */
  lemma PrefixMatches(f: FileInfo, term: string, rest: string)
    requires ToLowercase(f.name) == ToLowercase(term) + rest
    ensures NameMatches(f, term)
  {
    var hay, needle := ToLowercase(f.name), ToLowercase(term);
    assert OccursAt(hay, needle, 0) by {
      assert hay[..|needle|] == needle;
    }
    FindIsSubstring(hay, needle);
  }

  /** The records `searchByName` returns. */
  function MatchingFiles(files: seq<FileInfo>, term: string): seq<FileInfo> {
    Filter(files, f => NameMatches(f, term))
  }

  /** The search result is the input restricted to the positions whose names
      match, in input order: a subsequence of the input that leaves out no
      match. */
  lemma MatchingFilesSelects(files: seq<FileInfo>, term: string)
    ensures var r, ps := MatchingFiles(files, term), Positions(files, f => NameMatches(f, term));
      && |ps| == |r| <= |files|
      && (forall k :: 0 <= k < |ps| ==> ps[k] < |files| && r[k] == files[ps[k]])
      && (forall k, l :: 0 <= k < l < |ps| ==> ps[k] < ps[l])
      && (forall i :: 0 <= i < |files| ==> (i in ps <==> NameMatches(files[i], term)))
  {
    FilterSelects(files, f => NameMatches(f, term));
  }

  /** A record is in the result exactly when it is in the input and its
      name matches. */
  lemma MatchingFilesMembers(files: seq<FileInfo>, term: string, f: FileInfo)
    ensures f in MatchingFiles(files, term) <==> f in files && NameMatches(f, term)
  {
    FilterMembers(files, g => NameMatches(g, term), f);
  }

  /** The empty term occurs in every name, so it returns the whole input. */
  lemma EmptyTermMatchesAll(files: seq<FileInfo>)
    ensures MatchingFiles(files, "") == files
  {
    forall i | 0 <= i < |files| ensures NameMatches(files[i], "") {
      PrefixMatches(files[i], "", ToLowercase(files[i].name));
    }
    FilterKeepsAll(files, f => NameMatches(f, ""));
  }

  /** `searchByName`: walks the records once, keeping those whose
      lower-cased name contains the lower-cased term. */
  method SearchByName(files: seq<FileInfo>, searchTerm: string) returns (results: seq<FileInfo>)
    ensures results == MatchingFiles(files, searchTerm)
  {
    results := [];
    var lowerSearchTerm := ToLowercase(searchTerm);
    var i := 0;
    while i < |files|
      invariant i <= |files|
      invariant results == MatchingFiles(files[..i], searchTerm)
    {
      var lowerFileName := ToLowercase(files[i].name);
      if Find(lowerFileName, lowerSearchTerm).Some? {
        results := results + [files[i]];
      }
      assert files[..i + 1][..i] == files[..i];
      i := i + 1;
    }
    assert files[..|files|] == files;
  }

  // ---------------------------------------------------------------------
  // findDuplicates

  /** `generateSimpleHash`: the decimal size, an underscore, and the name. */
  function Fingerprint(f: FileInfo): string {
    NatToDecimal(f.size) + "_" + f.name
  }

  /** The underscore after the digits is the first one in a fingerprint, so
      the size and the name can be read back from it. */
  lemma FingerprintSplits(f: FileInfo)
    ensures var h, d := Fingerprint(f), NatToDecimal(f.size);
      && |d| < |h| && h[|d|] == '_' && h[..|d|] == d && h[|d| + 1..] == f.name
      && forall i :: 0 <= i < |d| ==> h[i] != '_'
  {
  }

  /** Two records share a fingerprint exactly when `operator==` holds for
      them: same size and same name. */
  lemma FingerprintIffSame(a: FileInfo, b: FileInfo)
    ensures Fingerprint(a) == Fingerprint(b) <==> Same(a, b)
  {
    if Fingerprint(a) == Fingerprint(b) {
      FingerprintSplits(a);
      FingerprintSplits(b);
      var da, db := NatToDecimal(a.size), NatToDecimal(b.size);
      assert |da| == |db|;
      DecimalInjective(a.size, b.size);
    }
  }

  /** The records of `files` that are the same file as `f` under
      `operator==`, in input order. */
  function Copies(files: seq<FileInfo>, f: FileInfo): seq<FileInfo> {
    Filter(files, g => Same(g, f))
  }

  /** The first loop of `findDuplicates`: every record appended to the group
      under its fingerprint, a group being created on first use. */
  function Groups(files: seq<FileInfo>): map<string, seq<FileInfo>> {
    if files == [] then map[]
    else
      var groups := Groups(files[..|files| - 1]);
      var f := files[|files| - 1];
      var h := Fingerprint(f);
      groups[h := (if h in groups then groups[h] else []) + [f]]
  }

  /** The groups are keyed by the fingerprints of the input and nothing else,
      and the group of a record holds exactly its copies, in input order. */
  lemma {:induction false} GroupsAre(files: seq<FileInfo>, f: FileInfo)
    ensures var groups, h := Groups(files), Fingerprint(f);
      && (h in groups <==> exists i :: 0 <= i < |files| && Same(files[i], f))
      && (h in groups ==> groups[h] == Copies(files, f))
      && (h !in groups ==> Copies(files, f) == [])
  {
    if files != [] {
      var init, g := files[..|files| - 1], files[|files| - 1];
      GroupsAre(init, f);
      FingerprintIffSame(g, f);
      assert files == init + [g];
      if i :| 0 <= i < |init| && Same(init[i], f) {
        assert files[i] == init[i];
      }
      if i :| 0 <= i < |files| - 1 && Same(files[i], f) {
        assert init[i] == files[i];
      }
    }
  }

  /** Every key of the grouping is the fingerprint of some input record. */
  lemma {:induction false} GroupKeysAreFingerprints(files: seq<FileInfo>, h: string)
    requires h in Groups(files)
    ensures exists i :: 0 <= i < |files| && Fingerprint(files[i]) == h
  {
    var init, g := files[..|files| - 1], files[|files| - 1];
    if h != Fingerprint(g) {
      GroupKeysAreFingerprints(init, h);
      var i :| 0 <= i < |init| && Fingerprint(init[i]) == h;
      assert files[i] == init[i];
    }
  }

  /** The second loop of `findDuplicates`: the groups with two or more
      records. */
  function Duplicates(groups: map<string, seq<FileInfo>>): map<string, seq<FileInfo>> {
    map h | h in groups && |groups[h]| >= 2 :: groups[h]
  }

  /** The groups `findDuplicates` returns. */
  function DuplicateGroups(files: seq<FileInfo>): map<string, seq<FileInfo>> {
    Duplicates(Groups(files))
  }

  /** Every group returned is the list of copies of one record that has at
      least one other copy: it has two or more members, and each member's
      fingerprint is the group's key. */
  lemma DuplicateGroupsAreCopies(files: seq<FileInfo>, h: string)
    requires h in DuplicateGroups(files)
    ensures exists i :: 0 <= i < |files| && Fingerprint(files[i]) == h && DuplicateGroups(files)[h] == Copies(files, files[i])
    ensures |DuplicateGroups(files)[h]| >= 2
    ensures forall g :: g in DuplicateGroups(files)[h] ==> Fingerprint(g) == h
  {
    GroupKeysAreFingerprints(files, h);
    var i :| 0 <= i < |files| && Fingerprint(files[i]) == h;
    GroupsAre(files, files[i]);
    forall g | g in DuplicateGroups(files)[h] ensures Fingerprint(g) == h {
      FilterMembers(files, x => Same(x, files[i]), g);
      FingerprintIffSame(g, files[i]);
    }
  }

  /** A record appears in a returned group exactly when some other input
      record is the same file; it then appears in the group under its own
      fingerprint and in no other. */
  lemma InDuplicatesIff(files: seq<FileInfo>, i: nat)
    requires i < |files|
    ensures var dups := DuplicateGroups(files);
      && ((exists h :: h in dups && files[i] in dups[h])
          <==> exists j :: 0 <= j < |files| && j != i && Same(files[j], files[i]))
      && (forall h :: h in dups && files[i] in dups[h] ==> h == Fingerprint(files[i]))
  {
    var dups, f := DuplicateGroups(files), files[i];
    GroupsAre(files, f);
    FilterHasTwo(files, g => Same(g, f), i);
    FilterMembers(files, g => Same(g, f), f);
    forall h | h in dups && f in dups[h] ensures h == Fingerprint(f) {
      DuplicateGroupsAreCopies(files, h);
    }
    var h := Fingerprint(f);
    assert Same(files[i], f);
    if |Copies(files, f)| >= 2 {
      assert h in dups && f in dups[h];
    }
  }

  /** Records whose names differ never share a group, whatever their sizes:
      a renamed copy is not reported as a duplicate. */
  lemma DifferentNamesNeverGrouped(files: seq<FileInfo>, h: string, a: FileInfo, b: FileInfo)
    requires h in DuplicateGroups(files) && a in DuplicateGroups(files)[h] && b in DuplicateGroups(files)[h]
    ensures a.name == b.name && a.size == b.size
  {
    DuplicateGroupsAreCopies(files, h);
    FingerprintIffSame(a, b);
  }

  /** Input whose records are pairwise different files yields no groups. */
  lemma DistinctFilesHaveNoDuplicates(files: seq<FileInfo>)
    requires forall i, j :: 0 <= i < |files| && 0 <= j < |files| && i != j ==> !Same(files[i], files[j])
    ensures DuplicateGroups(files) == map[]
  {
    var dups := DuplicateGroups(files);
    forall h | h in dups ensures false {
      DuplicateGroupsAreCopies(files, h);
      var i :| 0 <= i < |files| && Fingerprint(files[i]) == h && dups[h] == Copies(files, files[i]);
      GroupsAre(files, files[i]);
      FilterHasTwo(files, g => Same(g, files[i]), i);
    }
  }

  /** The number of records held by all groups together. */
  ghost function TotalSize(groups: map<string, seq<FileInfo>>): nat
    decreases |groups.Keys|
  {
    if groups.Keys == {} then 0
    else
      var h :| h in groups.Keys;
      |groups[h]| + TotalSize(groups - {h})
  }

  /** The total does not depend on which group is counted first. */
  lemma {:induction false} TotalSizeRemove(groups: map<string, seq<FileInfo>>, h: string)
    requires h in groups
    ensures TotalSize(groups) == |groups[h]| + TotalSize(groups - {h})
    decreases |groups.Keys|
  {
    var k :| k in groups.Keys && TotalSize(groups) == |groups[k]| + TotalSize(groups - {k});
    if k != h {
      var rest := groups - {k} - {h};
      assert rest == groups - {h} - {k};
      TotalSizeRemove(groups - {k}, h);
      TotalSizeRemove(groups - {h}, k);
    }
  }

  /** The grouping holds every input record exactly once in total. */
  lemma {:induction false} GroupsTotal(files: seq<FileInfo>)
    ensures TotalSize(Groups(files)) == |files|
  {
    if files != [] {
      var init, f := files[..|files| - 1], files[|files| - 1];
      var groups, h := Groups(init), Fingerprint(f);
      var groups' := Groups(files);
      GroupsTotal(init);
      TotalSizeRemove(groups', h);
      assert groups' - {h} == groups - {h};
      if h in groups {
        TotalSizeRemove(groups, h);
      } else {
        assert groups - {h} == groups;
      }
    }
  }

  /** Taking one group away before or after filtering is the same. */
  lemma DuplicatesRemove(groups: map<string, seq<FileInfo>>, h: string)
    ensures Duplicates(groups - {h}) == Duplicates(groups) - {h}
  {
  }

  /** Visiting one more group adds it to the duplicates when it has two or
      more records and leaves them alone otherwise. */
  lemma DuplicatesVisit(groups: map<string, seq<FileInfo>>, remaining: set<string>, h: string)
    requires h in remaining && h in groups
    ensures var before, after := groups - remaining, groups - (remaining - {h});
      Duplicates(after) == if |groups[h]| >= 2 then Duplicates(before)[h := groups[h]] else Duplicates(before)
  {
    var before, after := groups - remaining, groups - (remaining - {h});
    assert before == after - {h};
    DuplicatesRemove(after, h);
  }

  /** Dropping the small groups never adds records. */
  lemma {:induction false} DuplicatesTotal(groups: map<string, seq<FileInfo>>)
    ensures TotalSize(Duplicates(groups)) <= TotalSize(groups)
    decreases |groups.Keys|
  {
    if groups.Keys != {} {
      var h :| h in groups.Keys;
      var dups := Duplicates(groups);
      DuplicatesTotal(groups - {h});
      TotalSizeRemove(groups, h);
      DuplicatesRemove(groups, h);
      if h in dups {
        TotalSizeRemove(dups, h);
      } else {
        assert dups - {h} == dups;
      }
    }
  }

  /** All returned groups together hold no more records than the input. */
  lemma DuplicateGroupsTotal(files: seq<FileInfo>)
    ensures TotalSize(DuplicateGroups(files)) <= |files|
  {
    GroupsTotal(files);
    DuplicatesTotal(Groups(files));
  }

  /** `findDuplicates`: one pass appending each record to the group under
      its fingerprint, then one pass over the groups copying those with two
      or more records. */
  method FindDuplicates(files: seq<FileInfo>) returns (duplicates: map<string, seq<FileInfo>>)
    ensures duplicates == DuplicateGroups(files)
  {
    var hashGroups: map<string, seq<FileInfo>> := map[];
    var i := 0;
    while i < |files|
      invariant i <= |files|
      invariant hashGroups == Groups(files[..i])
    {
      var hash := Fingerprint(files[i]);
      var group := if hash in hashGroups then hashGroups[hash] else [];
      hashGroups := hashGroups[hash := group + [files[i]]];
      assert files[..i + 1][..i] == files[..i];
      i := i + 1;
    }
    assert files[..|files|] == files;
    duplicates := map[];
    var remaining := hashGroups.Keys;
    while remaining != {}
      invariant remaining <= hashGroups.Keys
      invariant duplicates == Duplicates(hashGroups - remaining)
      decreases |remaining|
    {
      var hash :| hash in remaining;
      DuplicatesVisit(hashGroups, remaining, hash);
      if |hashGroups[hash]| >= 2 {
        duplicates := duplicates[hash := hashGroups[hash]];
      }
      remaining := remaining - {hash};
    }
    assert hashGroups - {} == hashGroups;
  }
}
