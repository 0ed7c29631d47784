/**
  copyLayer: a walk over a whiteout-resolved layer that overlays each node on
  the rootfs. Directories get mkdir -p, symlinks replace whatever was at
  their path (a whole subtree included) and keep their target verbatim,
  regular files are truncated and rewritten, and every other node is skipped.
 */
module CopyLayer {
  import opened Wrappers
  import opened Paths
  import opened FsTree

  /** The walk callback of copyLayer at layer path p, whose node is n. */
  function CopyStep(t: Tree, p: Path, n: Node): (r: Res)
    requires WellFormed(t)
    ensures WellFormed(r.tree)
  {
    if p == [] then Done(t)  // the layer root itself, rel == "."
    else
      match n
      case Dir(perm) => MkdirAllIn(t, p, perm % 512)  // info.Mode().Perm()
      case Symlink(target) => SymlinkIn(RemoveAllIn(t, p), target, p)
      case File(data, perm) =>
        (match MkdirAllIn(t, Parent(p), ParentDirPerm)
         case Failed(t1, e) => Failed(t1, e)
         case Done(t1) => WriteFileIn(t1, p, data, perm % 512))
      case Device(_, _) => Done(t)
  }

  /** The callback at each path of order, stopping at the first error. */
  function CopyAlong(t: Tree, layer: Tree, order: seq<Path>): (r: Res)
    requires WellFormed(t)
    ensures WellFormed(r.tree)
    decreases |order|
  {
    if order == [] then Done(t)
    else if order[0] !in layer then Failed(t, NoSuchFile(order[0]))
    else
      match CopyStep(t, order[0], layer[order[0]])
      case Failed(t1, e) => Failed(t1, e)
      case Done(t1) => CopyAlong(t1, layer, order[1..])
  }

  /** copyLayer: the callback along filepath.Walk's order of the layer. */
  function CopyLayerIn(t: Tree, layer: Tree): (r: Res)
    requires WellFormed(t)
    ensures WellFormed(r.tree)
  {
    CopyAlong(t, layer, Walk(layer.Keys))
  }

  /**
    A file the copy creates gets the layer file's permission bits only: a
    setuid, setgid or sticky bit of the layer file is dropped.
   */
  lemma CopiedFileMode(t: Tree, p: Path, data: seq<byte>, perm: nat)
    requires WellFormed(t) && p != [] && p !in t
    ensures var r := CopyStep(t, p, File(data, perm));
      r.Done? ==> p in r.tree && r.tree[p] == File(data, perm % 512) && r.tree[p].perm < 512
  {
  }

  /** What the rootfs holds at p once layer node n has been copied there. */
  predicate Placed(t: Tree, p: Path, n: Node) {
    match n
    case Dir(_) => IsDirIn(t, p)
    case File(data, _) => p in t && t[p].File? && t[p].data == data
    case Symlink(target) => p in t && t[p] == Symlink(target)
    case Device(_, _) => true
  }

  /** A layer step that may create nodes: one at a non-root path that is not a device. */
  predicate Creates(layer: Tree, o: Path) {
    o != [] && o in layer && !layer[o].Device?
  }

  /** A path no step creates at or below stays absent. */
  lemma {:induction false} CopyKeepsAbsent(t: Tree, layer: Tree, order: seq<Path>, q: Path)
    requires WellFormed(t) && q !in t
    requires forall i :: 0 <= i < |order| && Creates(layer, order[i]) ==> !(q <= order[i])
    ensures q !in CopyAlong(t, layer, order).tree
    decreases |order|
  {
    if order != [] && order[0] in layer {
      var o := order[0];
      var s := CopyStep(t, o, layer[o]);
      if o != [] && layer[o].File? {
        assert !(q <= Parent(o));
      }
      if s.Done? {
        CopyKeepsAbsent(s.tree, layer, order[1..], q);
      }
    }
  }

  /** A present path that no step writes or removes keeps its node. */
  lemma {:induction false} CopyKeepsPresent(t: Tree, layer: Tree, order: seq<Path>, q: Path)
    requires WellFormed(t) && q in t
    requires forall i :: 0 <= i < |order| && Creates(layer, order[i]) ==> order[i] != q
    requires forall i :: 0 <= i < |order| && order[i] in layer && layer[order[i]].Symlink? ==> !(order[i] < q)
    ensures var r := CopyAlong(t, layer, order); q in r.tree && r.tree[q] == t[q]
    decreases |order|
  {
    if order != [] && order[0] in layer {
      var o := order[0];
      var s := CopyStep(t, o, layer[o]);
      if s.Done? {
        CopyKeepsPresent(s.tree, layer, order[1..], q);
      }
    }
  }

  /**
    On success, every node of the layer along order is in place: directories
    are directories, files hold the layer's bytes, symlinks the layer's target.
   */
  lemma {:induction false} CopyPlaces(t: Tree, layer: Tree, order: seq<Path>)
    requires WellFormed(t) && WellFormed(layer)
    requires forall i, j :: 0 <= i < j < |order| ==> order[i] != order[j]
    ensures var r := CopyAlong(t, layer, order);
      r.Done? ==> forall p :: p in order && p != [] && p in layer ==> Placed(r.tree, p, layer[p])
    decreases |order|
  {
    var r := CopyAlong(t, layer, order);
    if order != [] && order[0] in layer && r.Done? {
      var o := order[0];
      var s := CopyStep(t, o, layer[o]);
      CopyPlaces(s.tree, layer, order[1..]);
      if o != [] {
        assert o[..|o|] == o;
        assert Placed(s.tree, o, layer[o]);
        if !layer[o].Device? {
          forall i | 0 <= i < |order[1..]| ensures order[1..][i] != o {
            assert order[1..][i] == order[i + 1];
          }
          AboveIsDir(layer, o);
          CopyKeepsPresent(s.tree, layer, order[1..], o);
        }
      }
    }
  }

  /** On success, nothing is left strictly below a symlink of the layer along order. */
  lemma {:induction false} CopyClearsBelowSymlinks(t: Tree, layer: Tree, order: seq<Path>)
    requires WellFormed(t) && WellFormed(layer)
    ensures var r := CopyAlong(t, layer, order);
      r.Done? ==> forall s, q :: s in order && s != [] && s in layer && layer[s].Symlink? && s < q ==> q !in r.tree
    decreases |order|
  {
    var r := CopyAlong(t, layer, order);
    if order != [] && order[0] in layer && r.Done? {
      var o := order[0];
      var st := CopyStep(t, o, layer[o]);
      CopyClearsBelowSymlinks(st.tree, layer, order[1..]);
      assert r == CopyAlong(st.tree, layer, order[1..]);
      forall s, q | s in order && s != [] && s in layer && layer[s].Symlink? && s < q
        ensures q !in r.tree
      {
        if s == o {
          assert q !in st.tree;
          BelowSymlinkNotInLayer(layer, o, q);
          AbsentBelowLayerPaths(layer, order[1..], q);
          CopyKeepsAbsent(st.tree, layer, order[1..], q);
        } else {
          assert s in order[1..];
        }
      }
    }
  }

  /** A well-formed layer has nothing strictly below a symlink. */
  lemma BelowSymlinkNotInLayer(layer: Tree, s: Path, q: Path)
    requires WellFormed(layer) && s in layer && layer[s].Symlink? && s < q
    ensures q !in layer
  {
    if q in layer {
      AboveIsDir(layer, q);
    }
  }

  /** A path the layer holds no directory or created node at lies at or above no created layer path. */
  lemma AbsentBelowLayerPaths(layer: Tree, order: seq<Path>, q: Path)
    requires WellFormed(layer) && !Creates(layer, q) && !IsDirIn(layer, q)
    ensures forall i :: 0 <= i < |order| && Creates(layer, order[i]) ==> !(q <= order[i])
  {
    forall i | 0 <= i < |order| && Creates(layer, order[i]) ensures !(q <= order[i]) {
      AboveIsDir(layer, order[i]);
      assert q != order[i];
    }
  }

  /** The walk of a layer visits each of its paths once. */
  lemma WalkDistinct(layer: Tree) returns (order: seq<Path>)
    ensures order == Walk(layer.Keys)
    ensures forall i, j :: 0 <= i < j < |order| ==> order[i] != order[j]
    ensures forall p :: p in order <==> p in layer
  {
    order := Walk(layer.Keys);
  }

  /**
    copyLayer on a whole layer, when it succeeds: every layer directory is a
    directory of the rootfs, every layer file has byte-identical content at
    the same path, and every layer symlink has its target verbatim.
   */
  lemma CopyLayerPlaces(t: Tree, layer: Tree)
    requires WellFormed(t) && WellFormed(layer)
    ensures var r := CopyLayerIn(t, layer);
      r.Done? ==> forall p :: p in layer && p != [] ==> Placed(r.tree, p, layer[p])
  {
    var order := WalkDistinct(layer);
    CopyPlaces(t, layer, order);
  }

  /** copyLayer on a whole layer, when it succeeds, leaves nothing below a layer symlink. */
  lemma CopyLayerClearsBelowSymlinks(t: Tree, layer: Tree)
    requires WellFormed(t) && WellFormed(layer)
    ensures var r := CopyLayerIn(t, layer);
      r.Done? ==> forall s, q :: s in layer && s != [] && layer[s].Symlink? && s < q ==> q !in r.tree
  {
    var order := WalkDistinct(layer);
    CopyClearsBelowSymlinks(t, layer, order);
  }

  /**
    copyLayer on a whole layer, whether or not it fails: a rootfs path that is
    not the root, not a node the layer copies and not below a layer symlink
    keeps its node or its absence.
   */
  lemma CopyLayerKeepsOthers(t: Tree, layer: Tree, q: Path)
    requires WellFormed(t) && WellFormed(layer)
    requires q != [] && !Creates(layer, q)
    requires forall s :: s in layer && layer[s].Symlink? ==> !(s < q)
    ensures var r := CopyLayerIn(t, layer); (q in r.tree <==> q in t) && (q in t ==> r.tree[q] == t[q])
  {
    var order := WalkDistinct(layer);
    if q in t {
      CopyKeepsPresent(t, layer, order, q);
    } else {
      AbsentBelowLayerPaths(layer, order, q);
      CopyKeepsAbsent(t, layer, order, q);
    }
  }

  /** copyLayer, whether or not it fails, creates no path that the layer does not hold. */
  lemma CopyLayerKeepsAbsent(t: Tree, layer: Tree, q: Path)
    requires WellFormed(t) && WellFormed(layer)
    requires q !in t && q !in layer
    ensures q !in CopyLayerIn(t, layer).tree
  {
    var order := WalkDistinct(layer);
    AbsentBelowLayerPaths(layer, order, q);
    CopyKeepsAbsent(t, layer, order, q);
  }

  /** The walk root (rel == ".") and any node that is neither a directory, a symlink nor a regular file change nothing and never fail. */
  lemma CopyStepSkips(t: Tree, p: Path, n: Node)
    requires WellFormed(t) && (p == [] || n.Device?)
    ensures CopyStep(t, p, n) == Done(t)
  {
  }

  /** Along an order of layer paths that are each the root or a device node, the copy does nothing and succeeds. */
  lemma {:induction false} CopyAlongSkips(t: Tree, layer: Tree, order: seq<Path>)
    requires WellFormed(t)
    requires forall i :: 0 <= i < |order| ==> order[i] in layer && (order[i] == [] || layer[order[i]].Device?)
    ensures CopyAlong(t, layer, order) == Done(t)
    decreases |order|
  {
    if order != [] {
      CopyStepSkips(t, order[0], layer[order[0]]);
      CopyAlongSkips(t, layer, order[1..]);
    }
  }

  /** A layer holding nothing but its root and device nodes leaves the rootfs as it was, without error. */
  lemma CopyLayerSkipsDevices(t: Tree, layer: Tree)
    requires WellFormed(t) && WellFormed(layer)
    requires forall p :: p in layer && p != [] ==> layer[p].Device?
    ensures CopyLayerIn(t, layer) == Done(t)
  {
    var order := WalkDistinct(layer);
    CopyAlongSkips(t, layer, order);
  }

  /** The walk callback of copyLayer (main.go) at layer path p, whose node is n. */
  method CopyStepInto(p: Path, n: Node, rootfs: Fs) returns (err: Option<Error>)
    requires rootfs.Valid()
    modifies rootfs
    ensures rootfs.Valid()
    ensures var r := CopyStep(old(rootfs.tree), p, n); rootfs.tree == r.tree && err == ErrorOf(r)
  {
    err := None;
    if p == [] {
      return;
    }
    match n {
      case Dir(perm) =>
        err := rootfs.MkdirAll(p, perm % 512);
      case Symlink(target) =>
        rootfs.RemoveAll(p);
        err := rootfs.Symlink(target, p);
      case File(data, perm) =>
        err := rootfs.MkdirAll(Parent(p), ParentDirPerm);
        if err.None? {
          err := rootfs.WriteFile(p, data, perm % 512);
        }
      case Device(_, _) =>
    }
  }

  /** copyLayer (main.go): the rootfs afterwards is CopyLayerIn's tree; the layer is only read. */
  method CopyLayerInto(layer: Fs, rootfs: Fs) returns (err: Option<Error>)
    requires layer.Valid() && rootfs.Valid() && layer != rootfs
    modifies rootfs
    ensures rootfs.Valid()
    ensures var r := CopyLayerIn(old(rootfs.tree), layer.tree); rootfs.tree == r.tree && err == ErrorOf(r)
  {
    ghost var t0 := rootfs.tree;
    var order := Walk(layer.tree.Keys);
    var i := 0;
    while i < |order|
      invariant 0 <= i <= |order|
      invariant rootfs.Valid()
      invariant CopyAlong(t0, layer.tree, order) == CopyAlong(rootfs.tree, layer.tree, order[i..])
    {
      err := CopyStepInto(order[i], layer.tree[order[i]], rootfs);
      if err.Some? {
        return;
      }
      assert order[i..][1..] == order[i + 1..];
      i := i + 1;
    }
    err := None;
  }
}
