/**
  processLayers and the part of run that picks the layer list: an image
  archive is either a `docker save` tarball (manifest.json) or an OCI image
  layout (oci-layout, index.json and blobs/sha256/...); its layers are
  unpacked one by one into a fresh scratch directory, their whiteouts applied
  to the rootfs, and their content copied over it.
 */
module Layers {
  import opened Wrappers
  import opened Paths
  import opened Strings
  import opened FsTree
  import opened Extract
  import opened Whiteouts
  import opened CopyLayer

  /** The tree of a fresh scratch directory from os.MkdirTemp. */
  function Scratch(): (t: Tree)
    ensures WellFormed(t)
    ensures t.Keys == {[]} && t[[]].Dir?
  {
    map[[] := Dir(TempDirPerm)]
  }

  /** The permission run gives the rootfs directory. */
  const RootfsPerm: nat := 493  // 0755

  // ----- processLayers -----

  /**
    One layer, given as its decoded tar stream, applied to rootfs t: unpack
    it into a scratch directory, apply its whiteouts, then copy it. A failed
    unpack leaves the rootfs as it was.
   */
  function LayerStep(t: Tree, s: TarStream): (r: Res)
    requires WellFormed(t)
    ensures WellFormed(r.tree)
  {
    var e := ExtractTarIn(Scratch(), s);
    if e.Failed? then Failed(t, e.error)
    else
      var w := ApplyWhiteoutsIn(t, e.tree);
      CopyLayerIn(w.rootfs, w.layer)
  }

  /** The layer named name (a path relative to the unpacked image), looked up in files. */
  function LayerIn(t: Tree, files: map<Path, TarStream>, name: string): (r: Res)
    requires WellFormed(t)
    ensures WellFormed(r.tree)
    ensures Target(name).None? || Target(name).value !in files ==> r == Failed(t, LayerUnreadable(name))
    ensures Target(name).Some? && Target(name).value in files ==> r == LayerStep(t, files[Target(name).value])
  {
    match Target(name)
    case None => Failed(t, LayerUnreadable(name))
    case Some(k) =>
      if k !in files then Failed(t, LayerUnreadable(name))
      else LayerStep(t, files[k])
  }

  /** processLayers: the layers in list order, stopping at the first error. */
  function ProcessLayersIn(t: Tree, files: map<Path, TarStream>, layers: seq<string>): (r: Res)
    requires WellFormed(t)
    ensures WellFormed(r.tree)
    decreases |layers|
  {
    if layers == [] then Done(t)
    else
      match LayerIn(t, files, layers[0])
      case Failed(t1, e) => Failed(t1, e)
      case Done(t1) => ProcessLayersIn(t1, files, layers[1..])
  }

  /**
    Layers are applied in list order: running a + b is running a and, only if
    that succeeds, running b on its result; a failure in a is the failure of
    the whole list and no layer of b is touched.
   */
  lemma {:induction false} ProcessLayersAppend(t: Tree, files: map<Path, TarStream>, a: seq<string>, b: seq<string>)
    requires WellFormed(t)
    ensures var ra := ProcessLayersIn(t, files, a);
      ProcessLayersIn(t, files, a + b) ==
        if ra.Failed? then ra else ProcessLayersIn(ra.tree, files, b)
    decreases |a|
  {
    if a != [] {
      assert (a + b)[0] == a[0];
      assert (a + b)[1..] == a[1..] + b;
      var r0 := LayerIn(t, files, a[0]);
      if r0.Done? {
        ProcessLayersAppend(r0.tree, files, a[1..], b);
      }
    } else {
      assert a + b == b;
    }
  }

  /** Layer k of layers fails after the ones before it all succeeded, leaving r. */
  predicate FailsAt(t: Tree, files: map<Path, TarStream>, layers: seq<string>, k: nat, r: Res)
    requires WellFormed(t)
  {
    k < |layers| && ProcessLayersIn(t, files, layers[..k]).Done? &&
    LayerIn(ProcessLayersIn(t, files, layers[..k]).tree, files, layers[k]) == r
  }

  /** The first k + 1 layers are the first layer, then k more only if it succeeded. */
  lemma PrefixUnfold(t: Tree, files: map<Path, TarStream>, layers: seq<string>, k: nat)
    requires WellFormed(t) && k < |layers|
    ensures var r0 := LayerIn(t, files, layers[0]);
      ProcessLayersIn(t, files, layers[..k + 1]) ==
        if r0.Failed? then r0 else ProcessLayersIn(r0.tree, files, layers[1..][..k])
  {
    var pre := layers[..k + 1];
    assert pre[0] == layers[0] && pre[1..] == layers[1..][..k];
  }

  /** A failure at layer k of the rest, after a first layer that succeeded, is a failure at layer k + 1. */
  lemma FailsAtNext(t: Tree, files: map<Path, TarStream>, layers: seq<string>, k: nat, r: Res)
    requires WellFormed(t) && layers != []
    ensures LayerIn(t, files, layers[0]).Done? &&
            FailsAt(LayerIn(t, files, layers[0]).tree, files, layers[1..], k, r) ==>
            FailsAt(t, files, layers, k + 1, r)
  {
    var r0 := LayerIn(t, files, layers[0]);
    if r0.Done? && FailsAt(r0.tree, files, layers[1..], k, r) {
      PrefixUnfold(t, files, layers, k);
      assert layers[k + 1] == layers[1..][k];
    }
  }

  /**
    A failure is the failure of one layer: the layers before it all succeeded,
    and the rootfs and error are what that layer left.
   */
  lemma {:induction false} ProcessLayersFailsAtOne(t: Tree, files: map<Path, TarStream>, layers: seq<string>)
    requires WellFormed(t)
    ensures var r := ProcessLayersIn(t, files, layers);
      r.Failed? ==> exists k: nat :: FailsAt(t, files, layers, k, r)
    decreases |layers|
  {
    var r := ProcessLayersIn(t, files, layers);
    if layers != [] && r.Failed? {
      var r0 := LayerIn(t, files, layers[0]);
      if r0.Failed? {
        assert layers[..0] == [];
        assert FailsAt(t, files, layers, 0, r);
      } else {
        ProcessLayersFailsAtOne(r0.tree, files, layers[1..]);
        var k: nat :| FailsAt(r0.tree, files, layers[1..], k, r);
        FailsAtNext(t, files, layers, k, r);
      }
    }
  }

  /**
    A layer's own content wins over its whiteouts: when the layer unpacks and
    is copied without error, every path of the unpacked layer that is not a
    whiteout marker holds the layer's node in the rootfs (directories as
    directories, files byte for byte, symlinks with their target).
   */
  lemma LayerContentPlaced(t: Tree, s: TarStream)
    requires WellFormed(t)
    ensures var e := ExtractTarIn(Scratch(), s); var r := LayerStep(t, s);
      e.Done? && r.Done? ==> forall p :: p in e.tree && p != [] && ActionOf(p) == Keep ==> Placed(r.tree, p, e.tree[p])
  {
    var e := ExtractTarIn(Scratch(), s);
    if e.Done? {
      var w := ApplyWhiteoutsIn(t, e.tree);
      WhiteoutsLayer(t, e.tree, Walk(e.tree.Keys));
      CopyLayerPlaces(w.rootfs, w.layer);
    }
  }

  /**
    Whiteouts are applied before the copy, and only the layer adds paths: a
    rootfs path that one of the layer's markers removes is present after the
    layer, failed or not, only when the unpacked layer itself holds it. Hence
    an opaque d/.wh..wh..opq leaves below d only what the layer brings, and
    d/.wh.foo leaves at and below d/foo only what the layer brings.
   */
  lemma LayerHidesWhitedOut(t: Tree, s: TarStream)
    requires WellFormed(t)
    ensures var e := ExtractTarIn(Scratch(), s); var r := LayerStep(t, s);
      e.Done? ==>
        && (forall p, q :: p in e.tree && Deletes(p, q) && q in r.tree ==> q in e.tree)
        && (forall p, q :: p in e.tree && p != [] && p[|p| - 1] == OpaqueMarker && Parent(p) < q && q in r.tree ==> q in e.tree)
        && (forall p, q ::
              p in e.tree && ActionOf(p).Delete? && ActionOf(p).target.Some? && ActionOf(p).target.value <= q && q in r.tree
              ==> q in e.tree)
  {
    var e := ExtractTarIn(Scratch(), s);
    if e.Done? {
      var w := ApplyWhiteoutsIn(t, e.tree);
      var r := LayerStep(t, s);
      ApplyWhiteoutsEffect(t, e.tree);
      WhiteoutsLayer(t, e.tree, Walk(e.tree.Keys));
      forall p, q | p in e.tree && Deletes(p, q) && q in r.tree ensures q in e.tree {
        if q !in e.tree {
          CopyLayerKeepsAbsent(w.rootfs, w.layer, q);
        }
      }
      forall p, q | p in e.tree && p != [] && p[|p| - 1] == OpaqueMarker && Parent(p) < q && q in r.tree
        ensures q in e.tree
      {
        assert Deletes(p, q);
      }
      forall p, q | p in e.tree && ActionOf(p).Delete? && ActionOf(p).target.Some? &&
                    ActionOf(p).target.value <= q && q in r.tree
        ensures q in e.tree
      {
        assert Deletes(p, q);
      }
    }
  }

  /**
    Nothing else changes: a rootfs path that no marker of the layer removes,
    that the unpacked layer does not hold and that lies below no symlink of
    the layer keeps its node or its absence, whether or not the layer fails.
   */
  lemma LayerKeepsOthers(t: Tree, s: TarStream, q: Path)
    requires WellFormed(t) && q != []
    ensures var e := ExtractTarIn(Scratch(), s); var r := LayerStep(t, s);
      e.Done? && q !in e.tree && (forall p :: p in e.tree ==> !Deletes(p, q)) &&
      (forall p :: p in e.tree && e.tree[p].Symlink? ==> !(p < q)) ==>
        (q in r.tree <==> q in t) && (q in t ==> r.tree[q] == t[q])
  {
    var e := ExtractTarIn(Scratch(), s);
    if e.Done? && q !in e.tree && (forall p :: p in e.tree ==> !Deletes(p, q)) &&
       (forall p :: p in e.tree && e.tree[p].Symlink? ==> !(p < q))
    {
      var w := ApplyWhiteoutsIn(t, e.tree);
      ApplyWhiteoutsEffect(t, e.tree);
      WhiteoutsLayer(t, e.tree, Walk(e.tree.Keys));
      CopyLayerKeepsOthers(w.rootfs, w.layer, q);
    }
  }

  /** processLayers (main.go): the rootfs afterwards is ProcessLayersIn's tree. */
  method ProcessLayers(layers: seq<string>, files: map<Path, TarStream>, rootfs: Fs)
    returns (err: Option<Error>)
    requires rootfs.Valid()
    modifies rootfs
    ensures rootfs.Valid()
    ensures var r := ProcessLayersIn(old(rootfs.tree), files, layers);
      rootfs.tree == r.tree && err == ErrorOf(r)
  {
    ghost var t0 := rootfs.tree;
    var i := 0;
    while i < |layers|
      invariant 0 <= i <= |layers|
      invariant rootfs.Valid()
      invariant ProcessLayersIn(t0, files, layers) == ProcessLayersIn(rootfs.tree, files, layers[i..])
    {
      var name := layers[i];
      var key := Target(name);
      if key.None? || key.value !in files {
        return Some(LayerUnreadable(name));
      }
      var scratch := new Fs.TempDir();
      err := ExtractTar(files[key.value], scratch);
      if err.Some? {
        return;
      }
      ApplyWhiteouts(scratch, rootfs);
      err := CopyLayerInto(scratch, rootfs);
      if err.Some? {
        return;
      }
      assert layers[i..][1..] == layers[i + 1..];
      i := i + 1;
    }
    err := None;
  }

  // ----- run: which layers, from which archive format -----

  /** A JSON file as run sees it: unreadable, not valid JSON, or decoded. */
  datatype Decoded<T> = Absent | Malformed | Parsed(value: T)

  /** One record of a docker-save manifest.json. */
  datatype DockerImage = DockerImage(config: string, repoTags: seq<string>, layers: seq<string>)

  /**
    The unpacked image archive, with its JSON files already decoded: the
    error extractTar gave on the archive itself, manifest.json, whether
    oci-layout exists, the manifest digests of index.json, the layer digests
    of each manifest blob (by cleaned path) and the decoded layer tarballs
    (by cleaned path).
   */
  datatype Image = Image(
    extractError: Option<Error>,
    dockerManifest: Decoded<seq<DockerImage>>,
    ociLayout: bool,
    ociIndex: Decoded<seq<string>>,
    blobs: map<Path, Decoded<seq<string>>>,
    layerTars: map<Path, TarStream>)

  /** The errors run reports. */
  datatype RunError =
    | ImageExtract(cause: Error)
    | DockerManifestJson
    | RootfsMkdir(cause: Error)
    | IndexUnreadable
    | IndexJson
    | NoManifests
    | ManifestUnreadable(path: string)
    | ManifestJson(path: string)
    | UnrecognizedFormat

  /** run indexes manifest[0] of a docker-save manifest, which must therefore not be empty. */
  predicate Supported(img: Image) {
    img.dockerManifest.Parsed? ==> |img.dockerManifest.value| > 0
  }

  const Sha256Prefix: string := "sha256:"
  const BlobDir: string := "blobs/sha256/"

  /** strings.TrimPrefix(digest, "sha256:"). */
  function TrimSha256(digest: string): (hex: string)
    ensures Sha256Prefix <= digest ==> Sha256Prefix + hex == digest
    ensures !(Sha256Prefix <= digest) ==> hex == digest
  {
    if Sha256Prefix <= digest then digest[|Sha256Prefix|..] else digest
  }

  /** filepath.Join("blobs", "sha256", sha) for the digest's sha. */
  function LayerPath(digest: string): string {
    BlobDir + TrimSha256(digest)
  }

  /** A plain hex digest names exactly the file blobs/sha256/<hex>. */
  lemma LayerPathNamesBlob(hex: string)
    requires '/' !in hex && hex != "" && hex != "." && hex != ".."
    ensures Target(LayerPath(Sha256Prefix + hex)) == Some(["blobs", "sha256", hex])
  {
    BlobPathSpelled(hex);
    SplitThree("blobs", "sha256", hex, '/');
    BlobPathClean(hex);
  }

  lemma BlobPathSpelled(hex: string)
    ensures LayerPath(Sha256Prefix + hex) == "blobs" + ['/'] + "sha256" + ['/'] + hex
  {
    assert TrimSha256(Sha256Prefix + hex) == hex;
  }

  lemma BlobPathClean(hex: string)
    requires hex != "" && hex != "." && hex != ".."
    ensures Clean(["blobs", "sha256", hex]) == Some(["blobs", "sha256", hex])
  {
    assert IsClean(["blobs", "sha256", hex]);
  }

  lemma SplitThree(a: string, b: string, c: string, sep: char)
    requires sep !in a && sep !in b && sep !in c
    ensures Split(a + [sep] + b + [sep] + c, sep) == [a, b, c]
  {
    assert a + [sep] + b + [sep] + c == a + [sep] + (b + [sep] + c);
    SplitAt(a, sep, b + [sep] + c);
    SplitAt(b, sep, c);
  }

  /** Distinct sha256 digests name distinct layer paths. */
  lemma LayerPathInjective(d1: string, d2: string)
    requires Sha256Prefix <= d1 && Sha256Prefix <= d2
    requires LayerPath(d1) == LayerPath(d2)
    ensures d1 == d2
  {
    var h1, h2 := TrimSha256(d1), TrimSha256(d2);
    assert h1 == LayerPath(d1)[|BlobDir|..];
    assert h2 == LayerPath(d2)[|BlobDir|..];
  }

  /** The layer paths of an OCI manifest, built by appending in manifest order. */
  method OciLayerPaths(digests: seq<string>) returns (layers: seq<string>)
    ensures |layers| == |digests|
    ensures forall i :: 0 <= i < |digests| ==> layers[i] == LayerPath(digests[i])
  {
    layers := [];
    for i := 0 to |digests|
      invariant |layers| == i
      invariant forall j :: 0 <= j < i ==> layers[j] == LayerPath(digests[j])
    {
      layers := layers + [LayerPath(digests[i])];
    }
  }

  /** The layer paths OciLayerPaths builds, as a value. */
  function LayerPaths(digests: seq<string>): (layers: seq<string>)
    ensures |layers| == |digests|
  {
    seq(|digests|, i requires 0 <= i < |digests| => LayerPath(digests[i]))
  }

  /** The manifest blob index.json's first manifest names; it is read only when that exists. */
  function OciManifest(img: Image): Decoded<seq<string>>
    requires img.ociIndex.Parsed? && img.ociIndex.value != []
  {
    var key := Target(LayerPath(img.ociIndex.value[0]));
    if key.None? || key.value !in img.blobs then Absent else img.blobs[key.value]
  }

  /**
    The layer list run derives. manifest.json takes precedence over
    oci-layout; an OCI layout needs a readable index with at least one
    manifest and a readable first manifest, whose layer digests become
    blobs/sha256/<hex> paths in manifest order; an archive with neither
    marker file is an error.
   */
  function LayerList(img: Image): (r: Result<seq<string>, RunError>)
    requires Supported(img)
    ensures img.extractError.Some? ==> r == Err(ImageExtract(img.extractError.value))
    ensures img.extractError.None? && img.dockerManifest.Parsed? ==> r == Ok(img.dockerManifest.value[0].layers)
    ensures img.extractError.None? && img.dockerManifest.Malformed? ==> r == Err(DockerManifestJson)
    ensures img.extractError.None? && img.dockerManifest.Absent? && !img.ociLayout ==> r == Err(UnrecognizedFormat)
    ensures img.extractError.None? && img.dockerManifest.Absent? && img.ociLayout && img.ociIndex == Parsed([]) ==>
      r == Err(NoManifests)
    ensures r.Ok? && !img.dockerManifest.Parsed? ==>
      img.ociLayout && img.ociIndex.Parsed? && img.ociIndex.value != [] && OciManifest(img).Parsed? &&
      |r.value| == |OciManifest(img).value| &&
      forall i :: 0 <= i < |r.value| ==> r.value[i] == LayerPath(OciManifest(img).value[i])
  {
    if img.extractError.Some? then Err(ImageExtract(img.extractError.value))
    else
      match img.dockerManifest
      case Malformed => Err(DockerManifestJson)
      case Parsed(m) => Ok(m[0].layers)
      case Absent =>
        if !img.ociLayout then Err(UnrecognizedFormat)
        else
          match img.ociIndex
          case Absent => Err(IndexUnreadable)
          case Malformed => Err(IndexJson)
          case Parsed(digests) =>
            if digests == [] then Err(NoManifests)
            else
              var path := LayerPath(digests[0]);
              match OciManifest(img)
              case Absent => Err(ManifestUnreadable(path))
              case Malformed => Err(ManifestJson(path))
              case Parsed(ls) => Ok(LayerPaths(ls))
  }

  /** run on a rootfs tree: the rootfs tree afterwards and run's error. */
  function RunIn(img: Image, t: Tree): (r: (Tree, Option<RunError>))
    requires Supported(img) && WellFormed(t)
    ensures WellFormed(r.0)
  {
    match LayerList(img)
    case Err(e) => (t, Some(e))
    case Ok(layers) =>
      match MkdirAllIn(t, [], RootfsPerm)
      case Failed(t1, e) => (t1, Some(RootfsMkdir(e)))
      case Done(t1) => (ProcessLayersIn(t1, img.layerTars, layers).tree, None)
  }

  /**
    run fails exactly when the layer list cannot be derived or the rootfs
    path is not a directory; the error of processLayers is discarded, so a
    failing layer still makes run succeed, leaving the rootfs as far as the
    layers got. A failed run leaves the rootfs untouched.
   */
  lemma RunIgnoresLayerErrors(img: Image, t: Tree)
    requires Supported(img) && WellFormed(t)
    ensures var r := RunIn(img, t);
      && (r.1.Some? <==> LayerList(img).Err? || ([] in t && !t[[]].Dir?))
      && (r.1.None? ==> r.0 == ProcessLayersIn(MkdirAllIn(t, [], RootfsPerm).tree, img.layerTars,
                                               LayerList(img).value).tree)
      && (r.1.Some? ==> r.0 == t)
  {
    var m := MkdirAllIn(t, [], RootfsPerm);
    var root: Path := [];
    assert root[..0] == root;
  }

  /** run (main.go): the rootfs afterwards and the error are RunIn's. */
  method Run(img: Image, rootfs: Fs) returns (err: Option<RunError>)
    requires Supported(img) && rootfs.Valid()
    modifies rootfs
    ensures rootfs.Valid()
    ensures var r := RunIn(img, old(rootfs.tree)); rootfs.tree == r.0 && err == r.1
  {
    if img.extractError.Some? {
      return Some(ImageExtract(img.extractError.value));
    }
    var layers: seq<string>;
    match img.dockerManifest {
      case Malformed =>
        return Some(DockerManifestJson);
      case Parsed(m) =>
        layers := m[0].layers;
      case Absent =>
        if !img.ociLayout {
          return Some(UnrecognizedFormat);
        }
        match img.ociIndex {
          case Absent =>
            return Some(IndexUnreadable);
          case Malformed =>
            return Some(IndexJson);
          case Parsed(digests) =>
            if digests == [] {
              return Some(NoManifests);
            }
            var path := LayerPath(digests[0]);
            var key := Target(path);
            var manifest := if key.None? || key.value !in img.blobs then Absent else img.blobs[key.value];
            match manifest {
              case Absent =>
                return Some(ManifestUnreadable(path));
              case Malformed =>
                return Some(ManifestJson(path));
              case Parsed(ls) =>
                layers := OciLayerPaths(ls);
                assert manifest == OciManifest(img);
                assert layers == LayerPaths(ls);
            }
        }
    }
    assert LayerList(img) == Ok(layers);
    var e := rootfs.MkdirAll([], RootfsPerm);
    if e.Some? {
      return Some(RootfsMkdir(e.value));
    }
    var _ := ProcessLayers(layers, img.layerTars, rootfs);
    return None;
  }
}
