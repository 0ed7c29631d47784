/**
  applyWhiteouts: a walk over an unpacked layer that, for each whiteout
  marker, deletes from the rootfs what the marker names and then deletes the
  marker from the layer.
 */
module Whiteouts {
  import opened Wrappers
  import opened Paths
  import opened FsTree

  /** Marks its directory opaque: the rootfs directory loses all its entries. */
  const OpaqueMarker: Name := ".wh..wh..opq"

  /** ".wh.<name>" deletes <name> from the same directory of the rootfs. */
  const WhiteoutPrefix: string := ".wh."

  /** What the walk callback does for one layer path. */
  datatype Action =
    | Keep
    | ClearDir(dir: Path)
    | Delete(target: Option<Path>)  // None: the name climbs out of the rootfs

  /**
    The callback's decision for layer path p. The opaque name is tested before
    the prefix, so it never reads as a whiteout of ".wh..opq"; the walk root
    is the scratch directory itself, whose name is never a marker. The name
    after the prefix is joined to the marker's directory as filepath.Join
    does, so ".wh." and ".wh.." name that directory and ".wh..." its parent,
    which for a marker at the top of the layer lies outside the rootfs.
   */
  function ActionOf(p: Path): (a: Action)
    ensures p != [] && p[|p| - 1] == OpaqueMarker ==> a == ClearDir(Parent(p))
    ensures p != [] && p[|p| - 1] != OpaqueMarker && WhiteoutPrefix <= p[|p| - 1] && IsClean(Parent(p)) ==>
      var d, orig := Parent(p), p[|p| - 1][|WhiteoutPrefix|..];
      a == Delete(if orig == "" || orig == "." then Some(d)
                  else if orig == ".." then (if d == [] then None else Some(Parent(d)))
                  else Some(d + [orig]))
    ensures (p == [] || !(WhiteoutPrefix <= p[|p| - 1])) <==> a == Keep
  {
    if p == [] then Keep
    else
      var name := p[|p| - 1];
      if name == OpaqueMarker then ClearDir(Parent(p))
      else if WhiteoutPrefix <= name then
        var orig := name[|WhiteoutPrefix|..];
        assert IsClean(Parent(p)) ==>
          Clean(Parent(p) + [orig]) ==
            (if orig == "" || orig == "." then Some(Parent(p))
             else if orig == ".." then (if Parent(p) == [] then None else Some(Parent(Parent(p))))
             else Some(Parent(p) + [orig])) by {
          if IsClean(Parent(p)) { CleanStep(Parent(p), orig); }
        }
        Delete(Clean(Parent(p) + [orig]))
      else Keep
  }

  /** The only marker of a clean layer whose target climbs out of the rootfs is a top-level ".wh...". */
  lemma ClimbingMarker(p: Path)
    requires IsClean(Parent(p))
    ensures ActionOf(p) == Delete(None) <==> p == [WhiteoutPrefix + ".."]
  {
    if p == [WhiteoutPrefix + ".."] {
      var name := WhiteoutPrefix + "..";
      assert name[|WhiteoutPrefix|..] == "..";
      assert WhiteoutPrefix <= name && name != OpaqueMarker;
      assert Parent(p) == [];
    }
    if p != [] && ActionOf(p) == Delete(None) {
      var name := p[|p| - 1];
      assert name != OpaqueMarker && WhiteoutPrefix <= name;
      var orig := name[|WhiteoutPrefix|..];
      assert orig == ".." && Parent(p) == [];
      assert name == WhiteoutPrefix + orig;
      assert p == Parent(p) + [name];
    }
  }

  /** The rootfs and the layer, the two trees the walk changes. */
  datatype Trees = Trees(rootfs: Tree, layer: Tree)

  /** The walk callback at layer path p. */
  function Step(root: Tree, layer: Tree, p: Path): (r: Trees)
    requires WellFormed(root) && WellFormed(layer)
    ensures WellFormed(r.rootfs) && WellFormed(r.layer)
  {
    match ActionOf(p)
    case Keep => Trees(root, layer)
    case ClearDir(d) => Trees(ClearDirIn(root, d), RemoveIn(layer, p))
    case Delete(target) =>
      // A target above the rootfs is its parent directory: removing it removes the whole rootfs.
      Trees(RemoveAllIn(root, if target.Some? then target.value else []), RemoveIn(layer, p))
  }

  /** The callback applied at each path of order in turn. */
  function WhiteoutsAlong(root: Tree, layer: Tree, order: seq<Path>): (r: Trees)
    requires WellFormed(root) && WellFormed(layer)
    ensures WellFormed(r.rootfs) && WellFormed(r.layer)
    decreases |order|
  {
    if order == [] then Trees(root, layer)
    else
      var s := Step(root, layer, order[0]);
      WhiteoutsAlong(s.rootfs, s.layer, order[1..])
  }

  /** applyWhiteouts: the callback along filepath.Walk's order of the layer. */
  function ApplyWhiteoutsIn(root: Tree, layer: Tree): (r: Trees)
    requires WellFormed(root) && WellFormed(layer)
    ensures WellFormed(r.rootfs) && WellFormed(r.layer)
  {
    WhiteoutsAlong(root, layer, Walk(layer.Keys))
  }

  /** The marker at layer path p removes rootfs path q. */
  predicate Deletes(p: Path, q: Path) {
    match ActionOf(p)
    case Keep => false
    case ClearDir(d) => d < q
    case Delete(target) => target.None? || target.value <= q
  }

  /**
    The rootfs after the walk: exactly the rootfs paths no marker along the
    walk removes, each with its old node. Deletions commute, so the walk order
    does not matter for the rootfs, and a target that is already absent is no
    error.
   */
  lemma {:induction false} WhiteoutsRootfs(root: Tree, layer: Tree, order: seq<Path>)
    requires WellFormed(root) && WellFormed(layer)
    ensures var r := WhiteoutsAlong(root, layer, order).rootfs;
      forall q :: (q in r <==> q in root && forall i :: 0 <= i < |order| ==> !Deletes(order[i], q))
                  && (q in r ==> r[q] == root[q])
    decreases |order|
  {
    if order != [] {
      var s := Step(root, layer, order[0]);
      WhiteoutsRootfs(s.rootfs, s.layer, order[1..]);
      forall q
        ensures (forall i :: 0 <= i < |order| ==> !Deletes(order[i], q)) <==>
                !Deletes(order[0], q) && forall i :: 0 <= i < |order| - 1 ==> !Deletes(order[1..][i], q)
      {
        if forall i :: 0 <= i < |order| - 1 ==> !Deletes(order[1..][i], q) {
          forall i | 1 <= i < |order| ensures !Deletes(order[i], q) {
            assert order[i] == order[1..][i - 1];
          }
        }
      }
    }
  }

  /**
    The layer after the walk: no new paths and no changed nodes; every
    non-marker path stays; every marker that is not a directory is gone.
   */
  lemma {:induction false} WhiteoutsLayer(root: Tree, layer: Tree, order: seq<Path>)
    requires WellFormed(root) && WellFormed(layer)
    ensures var r := WhiteoutsAlong(root, layer, order).layer;
      && (forall q :: q in r ==> q in layer && r[q] == layer[q])
      && (forall q :: q in layer && ActionOf(q) == Keep ==> q in r)
      && (forall q :: q in order && ActionOf(q) != Keep && q in layer && !layer[q].Dir? ==> q !in r)
    decreases |order|
  {
    if order != [] {
      var s := Step(root, layer, order[0]);
      WhiteoutsLayer(s.rootfs, s.layer, order[1..]);
      forall q | q in order && ActionOf(q) != Keep && q in layer && !layer[q].Dir?
        ensures q !in WhiteoutsAlong(root, layer, order).layer
      {
        if q != order[0] {
          assert q in order[1..];
        }
      }
    }
  }

  /**
    applyWhiteouts on a whole layer: for every marker path p of the layer,
    whatever it names is gone from the rootfs and nothing else is; an opaque
    marker d/.wh..wh..opq leaves nothing strictly below d and does not itself
    remove d; a marker d/.wh.foo leaves nothing at or below d/foo; a marker
    .wh... at the top of the layer names the rootfs's parent and leaves the
    rootfs empty.
   */
  lemma ApplyWhiteoutsEffect(root: Tree, layer: Tree)
    requires WellFormed(root) && WellFormed(layer)
    ensures var r := ApplyWhiteoutsIn(root, layer);
      && (forall q :: q in r.rootfs <==> q in root && forall p :: p in layer ==> !Deletes(p, q))
      && (forall q :: q in r.rootfs ==> r.rootfs[q] == root[q])
      && (forall p, q :: p in layer && p != [] && p[|p| - 1] == OpaqueMarker && Parent(p) < q ==> q !in r.rootfs)
      && (forall p :: p != [] && p[|p| - 1] == OpaqueMarker ==> !Deletes(p, Parent(p)))
      && (forall p, q :: p in layer && ActionOf(p).Delete? && ActionOf(p).target.Some? && ActionOf(p).target.value <= q
                        ==> q !in r.rootfs)
      && ([WhiteoutPrefix + ".."] in layer ==> r.rootfs == map[])
  {
    var order := Walk(layer.Keys);
    WhiteoutsRootfs(root, layer, order);
    var r := ApplyWhiteoutsIn(root, layer).rootfs;
    forall q ensures q in r <==> q in root && forall p :: p in layer ==> !Deletes(p, q) {
      if exists p :: p in layer && Deletes(p, q) {
        var p :| p in layer && Deletes(p, q);
        var i :| 0 <= i < |order| && order[i] == p;
      }
    }
    forall p, q | p in layer && p != [] && p[|p| - 1] == OpaqueMarker && Parent(p) < q
      ensures q !in r
    {
      assert Deletes(p, q);
    }
    forall p, q | p in layer && ActionOf(p).Delete? && ActionOf(p).target.Some? && ActionOf(p).target.value <= q
      ensures q !in r
    {
      assert Deletes(p, q);
    }
    NothingSurvivesClimbing(root, layer, r);
  }

  /** When the top-level ".wh..." is among the markers, no rootfs path survives. */
  lemma NothingSurvivesClimbing(root: Tree, layer: Tree, r: Tree)
    requires forall q :: q in r ==> forall p :: p in layer ==> !Deletes(p, q)
    ensures [WhiteoutPrefix + ".."] in layer ==> r == map[]
  {
    var m := [WhiteoutPrefix + ".."];
    if m in layer {
      ClimbingMarker(m);
      assert forall q :: Deletes(m, q);
      assert r.Keys == {};
    }
  }

  /** After applyWhiteouts the layer holds no whiteout marker that is a file, link or device. */
  lemma WhiteoutsStripFileMarkers(root: Tree, layer: Tree)
    requires WellFormed(root) && WellFormed(layer)
    ensures var r := ApplyWhiteoutsIn(root, layer).layer;
      forall q :: q in r && !r[q].Dir? ==> ActionOf(q) == Keep
  {
    WhiteoutsLayer(root, layer, Walk(layer.Keys));
  }

  /** The walk callback of applyWhiteouts (main.go) at layer path p. */
  method WhiteoutStepInto(p: Path, layer: Fs, rootfs: Fs)
    requires layer.Valid() && rootfs.Valid() && layer != rootfs
    modifies layer, rootfs
    ensures layer.Valid() && rootfs.Valid()
    ensures Trees(rootfs.tree, layer.tree) == Step(old(rootfs.tree), old(layer.tree), p)
  {
    if p != [] {
      var name := p[|p| - 1];
      if name == OpaqueMarker {
        rootfs.ClearDir(Parent(p));
        layer.Remove(p);
      } else if WhiteoutPrefix <= name {
        var target := Clean(Parent(p) + [name[|WhiteoutPrefix|..]]);
        if target.Some? {
          rootfs.RemoveAll(target.value);
        } else {
          rootfs.RemoveAll([]);
        }
        layer.Remove(p);
      }
    }
  }

  /** applyWhiteouts (main.go): both trees afterwards are ApplyWhiteoutsIn's. */
  method ApplyWhiteouts(layer: Fs, rootfs: Fs)
    requires layer.Valid() && rootfs.Valid() && layer != rootfs
    modifies layer, rootfs
    ensures layer.Valid() && rootfs.Valid()
    ensures Trees(rootfs.tree, layer.tree) == ApplyWhiteoutsIn(old(rootfs.tree), old(layer.tree))
  {
    ghost var r0, l0 := rootfs.tree, layer.tree;
    var order := Walk(layer.tree.Keys);
    var i := 0;
    while i < |order|
      invariant 0 <= i <= |order|
      invariant layer.Valid() && rootfs.Valid()
      invariant WhiteoutsAlong(r0, l0, order) == WhiteoutsAlong(rootfs.tree, layer.tree, order[i..])
    {
      WhiteoutStepInto(order[i], layer, rootfs);
      assert order[i..][1..] == order[i + 1..];
      i := i + 1;
    }
  }
}
