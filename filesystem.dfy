/** The part of the filesystem that reorganizing touches, as the engine sees
    it: a map from path strings to entries. Paths are compared as strings
    (no normalisation of `//`, `.` or `..`). `create_directories` and
    `rename` take an argument saying whether they fail (and, for
    `create_directories`, how far it got), which stands for the failures the
    environment may produce for reasons the model does not track (permissions,
    a full disk, a race with another process). `exists` is modelled as never
    failing: it is plain membership in the tree. */
module Filesystem {

  import opened Optional
  import opened Strings

  datatype Node = Directory | RegularFile(size: nat)

  type Tree = map<string, Node>

  /** The proper ancestors of a path: each non-empty prefix that ends just
      before a `/`. */
  function Ancestors(p: string): set<string>
    decreases |p|
  {
    if |p| <= 1 then {}
    else
      var parent := p[..|p| - 1];
      Ancestors(parent) + if p[|p| - 1] == '/' then {parent} else {}
  }

  /** The ancestors are exactly the prefixes `p[..i]` with `0 < i` and a `/`
      at position `i`. */
  lemma {:induction false} AncestorsAre(p: string, a: string)
    ensures a in Ancestors(p) <==> exists i :: 0 < i < |p| && p[i] == '/' && a == p[..i]
    decreases |p|
  {
    if |p| > 1 {
      var parent := p[..|p| - 1];
      AncestorsAre(parent, a);
      if i :| 0 < i < |parent| && parent[i] == '/' && a == parent[..i] {
        assert p[i] == '/' && a == p[..i];
      }
      if i :| 0 < i < |p| - 1 && p[i] == '/' && a == p[..i] {
        assert parent[i] == '/' && a == parent[..i];
      }
    }
  }

  /** Every ancestor is shorter than the path. */
  lemma {:induction false} AncestorsAreShorter(p: string)
    ensures forall a :: a in Ancestors(p) ==> |a| < |p|
    decreases |p|
  {
    if |p| > 1 {
      AncestorsAreShorter(p[..|p| - 1]);
    }
  }

  /** `create_directories(p)` can succeed: no ancestor of `p` is a regular
      file. */
  predicate CanCreate(t: Tree, p: string)
    decreases |p|
  {
    |p| <= 1 ||
    var parent := p[..|p| - 1];
    CanCreate(t, parent) && (p[|p| - 1] == '/' && parent in t ==> t[parent] == Directory)
  }

  /** `CanCreate` checks every ancestor and nothing else. */
  lemma {:induction false} CanCreateIff(t: Tree, p: string)
    ensures CanCreate(t, p) <==> forall a :: a in Ancestors(p) && a in t ==> t[a] == Directory
    decreases |p|
  {
    if |p| > 1 {
      CanCreateIff(t, p[..|p| - 1]);
    }
  }

  /** `a` as a new directory, unless something is there already. */
  function AddDirectory(t: Tree, a: string): Tree {
    if a in t then t else t[a := Directory]
  }

  /** The tree once every missing ancestor of `p` has been created as a
      directory, outermost first. */
  function WithAncestors(t: Tree, p: string): Tree
    decreases |p|
  {
    if |p| <= 1 then t
    else
      var parent := p[..|p| - 1];
      var t' := WithAncestors(t, parent);
      if p[|p| - 1] == '/' then AddDirectory(t', parent) else t'
  }

  /** Creating the ancestors keeps every entry, adds every missing ancestor,
      and adds nothing else. */
  lemma {:induction false} WithAncestorsEffect(t: Tree, p: string)
    ensures var t' := WithAncestors(t, p);
      && (forall a :: a in Ancestors(p) ==> a in t')
      && (forall k :: k in t ==> k in t' && t'[k] == t[k])
      && (forall k :: k in t' && k !in t ==> t'[k] == Directory && k in Ancestors(p))
    decreases |p|
  {
    if |p| > 1 {
      WithAncestorsEffect(t, p[..|p| - 1]);
    }
  }

  /** The tree after `create_directories(p)` succeeded: each missing ancestor
      and then `p` itself are new directories; nothing that existed changes. */
  function CreateDirectoriesIn(t: Tree, p: string): Tree {
    AddDirectory(WithAncestors(t, p), p)
  }

  /** After `create_directories(p)` the path exists, as a new directory if it
      was missing; nothing that existed changes, and every new entry is a
      directory: `p` itself or one of its ancestors. */
  lemma CreateDirectoriesEffect(t: Tree, p: string)
    ensures var t' := CreateDirectoriesIn(t, p);
      && p in t'
      && (forall a :: a in Ancestors(p) ==> a in t')
      && (p !in t ==> t'[p] == Directory)
      && (forall k :: k in t ==> k in t' && t'[k] == t[k])
      && (forall k :: k in t' && k !in t ==> t'[k] == Directory && (k == p || k in Ancestors(p)) && |k| <= |p|)
  {
    WithAncestorsEffect(t, p);
    AncestorsAreShorter(p);
  }

  /** The ancestors of a prefix of `p` are ancestors of `p`. */
  lemma AncestorsOfPrefix(p: string, n: nat, a: string)
    requires n <= |p| && a in Ancestors(p[..n])
    ensures a in Ancestors(p)
  {
    AncestorsAre(p[..n], a);
    var i :| 0 < i < n && p[..n][i] == '/' && a == p[..n][..i];
    assert p[i] == '/' && a == p[..i];
    AncestorsAre(p, a);
  }

  /** The tree after `create_directories(p)` failed part of the way: the
      missing ancestors shorter than `made` characters had been created,
      outermost first, before the failure. `made` at least `|p|` stands for
      a failure once every ancestor exists but `p` itself could not be made. */
  function PartlyCreatedIn(t: Tree, p: string, made: nat): Tree {
    WithAncestors(t, p[..if made < |p| then made else |p|])
  }

  /** A failure part of the way keeps every entry and adds only directories
      that are ancestors of `p`; `p` itself is still missing. */
  lemma PartlyCreatedEffect(t: Tree, p: string, made: nat)
    ensures var t' := PartlyCreatedIn(t, p, made);
      && (forall k :: k in t ==> k in t' && t'[k] == t[k])
      && (forall k :: k in t' && k !in t ==> t'[k] == Directory && k in Ancestors(p))
      && (p !in t ==> p !in t')
  {
    var n := if made < |p| then made else |p|;
    WithAncestorsEffect(t, p[..n]);
    AncestorsAreShorter(p[..n]);
    forall k | k in PartlyCreatedIn(t, p, made) && k !in t ensures k in Ancestors(p) {
      AncestorsOfPrefix(p, n, k);
    }
  }

  /** The directory a path would be created in exists as a directory. A path
      without `/` lives in the working directory, and one whose only `/` is
      the first character lives in the root; both always exist. */
  predicate ParentIsDirectory(t: Tree, p: string) {
    match LastIndexOf(p, '/')
    case None => true
    case Some(k) => k == 0 || (p[..k] in t && t[p[..k]] == Directory)
  }

  /** The parent of `dir + "/" + name` is `dir` when `name` has no `/`. */
  lemma ParentOfJoin(t: Tree, dir: string, name: string)
    requires |dir| > 0 && '/' !in name
    ensures ParentIsDirectory(t, dir + "/" + name) <==> dir in t && t[dir] == Directory
  {
    var p := dir + "/" + name;
    assert p == dir + ['/'] + name;
    LastIndexOfJoin(dir, '/', name);
    assert p[..|dir|] == dir;
  }

  /** `rename(src, dst)` can succeed: the source is a regular file, the
      destination's directory exists, and the destination is free or a
      regular file (a file is never renamed onto a directory). Moving whole
      directories is not part of this model. */
  predicate CanRename(t: Tree, src: string, dst: string) {
    src in t && t[src].RegularFile? && ParentIsDirectory(t, dst)
    && (dst in t ==> t[dst].RegularFile?)
  }

  /** The tree after `rename(src, dst)` succeeded: the entry now lives at
      `dst` (replacing whatever was there) and no longer at `src`. */
  function RenameIn(t: Tree, src: string, dst: string): Tree
    requires src in t
  {
    (t - {src})[dst := t[src]]
  }

  /** After `rename(src, dst)` the entry is at `dst` and, unless the two are
      the same path, no longer at `src`; every other path is untouched. */
  lemma RenameEffect(t: Tree, src: string, dst: string)
    requires src in t
    ensures var t' := RenameIn(t, src, dst);
      && dst in t' && t'[dst] == t[src]
      && (src != dst ==> src !in t')
      && (forall k :: k != src && k != dst ==> (k in t' <==> k in t) && (k in t ==> t'[k] == t[k]))
  {
  }

  /** The real filesystem, an object the engine changes in place. */
  class FileSystem {
    var tree: Tree

    constructor (initial: Tree)
      ensures tree == initial
    {
      tree := initial;
    }

    /** `exists(p)`, which in the model always answers; the error it may
        raise in the real world is not modelled. */
    predicate Exists(p: string)
      reads this
    {
      p in tree
    }

    /** `create_directories(p)` on a path that does not exist yet; `created`
        is false exactly when it fails. `failure` is `Some(made)` when the
        environment makes the call fail after it has created the missing
        ancestors shorter than `made` characters. A call that meets a regular
        file among the ancestors fails before it creates anything. */
    method CreateDirectories(p: string, failure: Option<nat>) returns (created: bool)
      requires p !in tree
      modifies this
      ensures created == (failure.None? && CanCreate(old(tree), p))
      ensures tree == if !CanCreate(old(tree), p) then old(tree)
                      else if created then CreateDirectoriesIn(old(tree), p)
                      else PartlyCreatedIn(old(tree), p, failure.value)
    {
      if !CanCreate(tree, p) {
        return false;
      }
      match failure
      case None =>
        tree := CreateDirectoriesIn(tree, p);
        created := true;
      case Some(made) =>
        tree := PartlyCreatedIn(tree, p, made);
        created := false;
    }

    /** `rename(src, dst)`; `ok` is false exactly when it fails, and then
        nothing has changed. */
    method Rename(src: string, dst: string, fails: bool) returns (ok: bool)
      modifies this
      ensures ok == (!fails && CanRename(old(tree), src, dst))
      ensures tree == if ok then RenameIn(old(tree), src, dst) else old(tree)
    {
      ok := !fails && CanRename(tree, src, dst);
      if ok {
        tree := RenameIn(tree, src, dst);
      }
    }
  }
}
