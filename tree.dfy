/**
  A directory tree as a map from paths to nodes; the file-system calls the
  program makes on it (os.MkdirAll, os.RemoveAll, os.Remove, os.OpenFile with
  O_CREATE|O_TRUNC, os.Symlink, os.Link, syscall.Mknod) as functions on trees;
  and the Fs object whose tree those calls change in place.
 */
module FsTree {
  import opened Wrappers
  import opened Paths

  newtype byte = x: int | 0 <= x < 256

  /** Permission bits given to os.MkdirTemp's directory (0700). */
  const TempDirPerm: nat := 448
  /** Permission bits of the parent directories the program creates (0755). */
  const ParentDirPerm: nat := 493

  datatype DeviceKind = CharDevice | BlockDevice | Fifo

  /**
    A node. Directory and device modes are permission bits only; a file made
    by mknod also keeps the setuid, setgid and sticky bits it was given.
   */
  datatype Node =
    | Dir(perm: nat)
    | File(data: seq<byte>, perm: nat)
    | Symlink(target: string)
    | Device(kind: DeviceKind, perm: nat)

  type Tree = map<Path, Node>

  predicate IsDirIn(t: Tree, p: Path) {
    p in t && t[p].Dir?
  }

  /** Everything above a node is a directory. */
  ghost predicate WellFormed(t: Tree) {
    forall p, k :: p in t && 0 <= k < |p| ==> IsDirIn(t, p[..k])
  }

  datatype Error =
    | NotADirectory(at: Path)
    | IsADirectory(at: Path)
    | NoSuchDirectory(at: Path)
    | AlreadyExists(at: Path)
    | NoSuchFile(at: Path)
    | NotPermitted(at: Path)
    | TarCorrupt
    | ShortRead(at: Path)
    | LayerUnreadable(layer: string)

  /** The tree after a call, and the error if the call failed. */
  datatype Res = Done(tree: Tree) | Failed(tree: Tree, error: Error)

  /** The error a call reports, if any. */
  function ErrorOf(r: Res): (e: Option<Error>)
    ensures e.None? <==> r.Done?
  {
    if r.Done? then None else Some(r.error)
  }

  /** Where a node may be created: its parent is a directory (the root's parent always exists). */
  predicate ParentIsDir(t: Tree, p: Path) {
    p == [] || IsDirIn(t, Parent(p))
  }

  lemma ParentDirWellFormed(t: Tree, p: Path)
    requires WellFormed(t) && p != [] && IsDirIn(t, Parent(p))
    ensures forall k :: 0 <= k < |p| ==> IsDirIn(t, p[..k])
  {
    forall k | 0 <= k < |p| ensures IsDirIn(t, p[..k]) {
      if k < |p| - 1 {
        assert Parent(p)[..k] == p[..k];
      }
    }
  }

  /** Every path above a node of a well-formed tree is one of its directories. */
  lemma AboveIsDir(t: Tree, o: Path)
    requires WellFormed(t) && o in t
    ensures forall x :: x < o ==> x in t && t[x].Dir?
    ensures forall x :: x <= o ==> x in t
  {
    forall x | x < o ensures x in t && t[x].Dir? {
      assert o[..|x|] == x;
    }
    forall x | x <= o ensures x in t {
      if x != o {
        assert o[..|x|] == x;
      }
    }
  }

  /** Setting one node keeps the tree well formed when its parent is a directory and no subtree is cut loose. */
  lemma UpdateWellFormed(t: Tree, p: Path, n: Node)
    requires WellFormed(t) && ParentIsDir(t, p)
    requires p in t && t[p].Dir? ==> n.Dir?
    ensures WellFormed(t[p := n])
  {
    if p != [] { ParentDirWellFormed(t, p); }
  }

  /**
    os.MkdirAll(p, perm): succeeds exactly when nothing on the way to p is
    anything but a directory, and then creates the missing ones; a failure
    changes nothing.
   */
  function MkdirAllIn(t: Tree, p: Path, perm: nat): (r: Res)
    requires WellFormed(t)
    ensures WellFormed(r.tree)
    ensures r.Done? <==> forall k :: 0 <= k <= |p| && p[..k] in t ==> t[p[..k]].Dir?
    ensures r.Failed? ==> r.tree == t && r.error.NotADirectory?
    ensures r.Done? ==> forall k :: 0 <= k <= |p| ==> IsDirIn(r.tree, p[..k])
    ensures r.Done? ==> forall q :: q in t ==> q in r.tree && r.tree[q] == t[q]
    ensures r.Done? ==> forall q :: q in r.tree && q !in t ==> q <= p && r.tree[q] == Dir(perm)
    decreases |p|
  {
    assert p[..|p|] == p;
    if p in t then
      if t[p].Dir? then Done(t) else Failed(t, NotADirectory(p))
    else if p == [] then
      Done(t[p := Dir(perm)])
    else
      assert forall k :: 0 <= k < |p| ==> Parent(p)[..k] == p[..k];
      match MkdirAllIn(t, Parent(p), perm)
      case Failed(t1, e) => Failed(t1, e)
      case Done(t1) =>
        UpdateWellFormed(t1, p, Dir(perm));
        Done(t1[p := Dir(perm)])
  }

  /** os.RemoveAll(p): p and everything below it are gone; a missing p is no error. */
  function RemoveAllIn(t: Tree, p: Path): (r: Tree)
    requires WellFormed(t)
    ensures WellFormed(r)
  {
    map q | q in t && !(p <= q) :: t[q]
  }

  /** What an opaque marker leaves of directory d: d itself, nothing strictly below it. */
  function ClearDirIn(t: Tree, d: Path): (r: Tree)
    requires WellFormed(t)
    ensures WellFormed(r)
  {
    map q | q in t && !(d < q) :: t[q]
  }

  predicate HasEntriesBelow(t: Tree, p: Path) {
    exists q :: q in t && p < q
  }

  /** os.Remove(p), its error ignored: removes a non-directory or an empty directory. */
  function RemoveIn(t: Tree, p: Path): (r: Tree)
    requires WellFormed(t)
    ensures WellFormed(r)
  {
    if p in t && (!t[p].Dir? || !HasEntriesBelow(t, p)) then t - {p} else t
  }

  /**
    os.OpenFile(p, O_CREATE|O_RDWR|O_TRUNC, perm) and a copy of data into it:
    fails on a directory or a missing parent; an existing file keeps its mode.
   */
  function WriteFileIn(t: Tree, p: Path, data: seq<byte>, perm: nat): (r: Res)
    requires WellFormed(t)
    ensures WellFormed(r.tree)
  {
    if p in t && t[p].Dir? then Failed(t, IsADirectory(p))
    else if !ParentIsDir(t, p) then Failed(t, NoSuchDirectory(Parent(p)))
    else
      var mode := if p in t && t[p].File? then t[p].perm else perm;
      UpdateWellFormed(t, p, File(data, mode));
      Done(t[p := File(data, mode)])
  }

  /** os.Symlink(target, p): fails when p exists or its parent is missing. */
  function SymlinkIn(t: Tree, target: string, p: Path): (r: Res)
    requires WellFormed(t)
    ensures WellFormed(r.tree)
  {
    if p in t then Failed(t, AlreadyExists(p))
    else if !ParentIsDir(t, p) then Failed(t, NoSuchDirectory(Parent(p)))
    else
      UpdateWellFormed(t, p, Symlink(target));
      Done(t[p := Symlink(target)])
  }

  /** os.Link(src, p): a second name for an existing non-directory. */
  function LinkIn(t: Tree, src: Path, p: Path): (r: Res)
    requires WellFormed(t)
    ensures WellFormed(r.tree)
  {
    if src !in t then Failed(t, NoSuchFile(src))
    else if t[src].Dir? then Failed(t, NotPermitted(src))
    else if p in t then Failed(t, AlreadyExists(p))
    else if !ParentIsDir(t, p) then Failed(t, NoSuchDirectory(Parent(p)))
    else
      UpdateWellFormed(t, p, t[src]);
      Done(t[p := t[src]])
  }

  /**
    syscall.Mknod(p, mode, dev) with a mode that carries permission bits only:
    a zero file type asks mknod(2) for a regular file, so it makes an empty
    file, which needs no privilege; it fails when p exists or its parent is
    not a directory.
   */
  function MknodIn(t: Tree, p: Path, perm: nat): (r: Res)
    requires WellFormed(t)
    ensures WellFormed(r.tree)
    ensures r.Done? <==> p !in t && ParentIsDir(t, p)
    ensures r.Done? ==> r.tree == t[p := File([], perm)]
    ensures r.Failed? ==> r.tree == t
  {
    if p in t then Failed(t, AlreadyExists(p))
    else if !ParentIsDir(t, p) then Failed(t, NoSuchDirectory(Parent(p)))
    else
      UpdateWellFormed(t, p, File([], perm));
      Done(t[p := File([], perm)])
  }

  /** A directory tree on disk, changed in place by the calls below. */
  class Fs {
    var tree: Tree

    ghost predicate Valid()
      reads this
    {
      WellFormed(tree)
    }

    /** os.MkdirTemp: a fresh, empty directory. */
    constructor TempDir()
      ensures Valid() && tree == map[[] := Dir(TempDirPerm)]
    {
      tree := map[[] := Dir(TempDirPerm)];
    }

    /** A directory tree that already exists on disk. */
    constructor Existing(t: Tree)
      requires WellFormed(t)
      ensures Valid() && tree == t
    {
      tree := t;
    }

    method MkdirAll(p: Path, perm: nat) returns (err: Option<Error>)
      requires Valid()
      modifies this
      ensures Valid()
      ensures var r := MkdirAllIn(old(tree), p, perm); tree == r.tree && err == ErrorOf(r)
    {
      var r := MkdirAllIn(tree, p, perm);
      tree := r.tree;
      err := ErrorOf(r);
    }

    method RemoveAll(p: Path)
      requires Valid()
      modifies this
      ensures Valid() && tree == RemoveAllIn(old(tree), p)
    {
      tree := RemoveAllIn(tree, p);
    }

    method Remove(p: Path)
      requires Valid()
      modifies this
      ensures Valid() && tree == RemoveIn(old(tree), p)
    {
      tree := RemoveIn(tree, p);
    }

    method WriteFile(p: Path, data: seq<byte>, perm: nat) returns (err: Option<Error>)
      requires Valid()
      modifies this
      ensures Valid()
      ensures var r := WriteFileIn(old(tree), p, data, perm); tree == r.tree && err == ErrorOf(r)
    {
      var r := WriteFileIn(tree, p, data, perm);
      tree := r.tree;
      err := ErrorOf(r);
    }

    method Symlink(target: string, p: Path) returns (err: Option<Error>)
      requires Valid()
      modifies this
      ensures Valid()
      ensures var r := SymlinkIn(old(tree), target, p); tree == r.tree && err == ErrorOf(r)
    {
      var r := SymlinkIn(tree, target, p);
      tree := r.tree;
      err := ErrorOf(r);
    }

    method Link(src: Path, p: Path) returns (err: Option<Error>)
      requires Valid()
      modifies this
      ensures Valid()
      ensures var r := LinkIn(old(tree), src, p); tree == r.tree && err == ErrorOf(r)
    {
      var r := LinkIn(tree, src, p);
      tree := r.tree;
      err := ErrorOf(r);
    }

    method Mknod(p: Path, perm: nat) returns (err: Option<Error>)
      requires Valid()
      modifies this
      ensures Valid()
      ensures var r := MknodIn(old(tree), p, perm); tree == r.tree && err == ErrorOf(r)
    {
      var r := MknodIn(tree, p, perm);
      tree := r.tree;
      err := ErrorOf(r);
    }

    /**
      os.ReadDir(d) followed by os.RemoveAll of every entry: afterwards
      nothing is left strictly below d, and d itself stays.
     */
    method ClearDir(d: Path)
      requires Valid()
      modifies this
      ensures Valid() && tree == ClearDirIn(old(tree), d)
    {
      ghost var t0 := tree;
      var entries := set q | q in tree && q != [] && Parent(q) == d;
      var left := entries;
      ghost var gone: set<Path> := {};
      while left != {}
        invariant Valid()
        invariant left + gone == entries
        invariant forall q :: q in tree <==> q in t0 && !Covered(q, gone)
        invariant forall q :: q in tree ==> tree[q] == t0[q]
        decreases left
      {
        var c :| c in left;
        RemoveAll(c);
        left, gone := left - {c}, gone + {c};
      }
      ChildrenCoverBelow(t0, d, entries);
      assert tree == ClearDirIn(t0, d);
    }
  }

  /** The entries of directory d, removed with everything below them, are exactly what lies strictly below d. */
  lemma ChildrenCoverBelow(t: Tree, d: Path, entries: set<Path>)
    requires WellFormed(t)
    requires entries == set q | q in t && q != [] && Parent(q) == d
    ensures forall q :: q in t ==> (Covered(q, entries) <==> d < q)
  {
    forall q | q in t && d < q
      ensures Covered(q, entries)
    {
      var c := q[..|d| + 1];
      assert Parent(c) == d;
      if |q| == |d| + 1 {
        assert c == q;
      } else {
        assert IsDirIn(t, q[..|d| + 1]);
      }
      assert c in entries && c <= q;
    }
    forall q | q in t && Covered(q, entries)
      ensures d < q
    {
      var c :| c in entries && c <= q;
      assert d < c;
    }
  }

  /** Some path of gone is q or lies above it. */
  ghost predicate Covered(q: Path, gone: set<Path>) {
    exists c :: c in gone && c <= q
  }
}
