# xrootfs layer merge and imagecfg flags, modelled in Dafny

`xrootfs` turns a container image archive into a root filesystem (rootfs). It
first unpacks the archive. Then it picks the layer list: from `manifest.json`
for a `docker save` tarball, or from `index.json` and the first manifest blob
for an OCI image layout. Each layer goes through three steps, in list order:

- it is unpacked into a fresh scratch directory (`extractTar`);
- its whiteout markers are applied to the rootfs (`applyWhiteouts`). A
  `.wh..wh..opq` marker empties the matching rootfs directory. A
  `.wh.<name>` marker removes `<name>` and everything below it. Each marker
  is then deleted from the layer;
- the rest of the layer is overlaid on the rootfs (`copyLayer`).

`imagecfg` collects repeated command-line flags in a `RepeatStr`. It reads
them back as a list, as a last-wins `key=value` map, or as a map from key to
the comma-split parts of all that key's values. It then assembles the data a
template is executed with.

The model is built as follows:

- A directory tree is a map from a path (a sequence of name components) to
  a node: a directory, a file (bytes and permission bits), a symlink (its
  target string) or a device node. `WellFormed` says every proper prefix of
  a path in the map is a directory.
- Every filesystem call the two walks and the extraction loop make is a
  function on trees (`MkdirAllIn`, `RemoveAllIn`, `WriteFileIn`, ...). The
  same call is also a method of the `Fs` class, which holds the tree and
  changes it in place.
- `extractTar`, `applyWhiteouts`, `copyLayer`, `processLayers` and `run` are
  methods whose loops are proved equal to a fold of those functions. The
  properties the code promises are lemmas about those folds.
- `filepath.Walk` visits paths in lexical order, each directory before its
  contents. It is modelled by `Walk`, which lists the tree's paths in that
  order.
- Tar headers and JSON files arrive already decoded.

`RepeatStr` is a class whose `values` field `Set` appends to. `AsKeyvals`,
`AsMap` and the data assembly are methods with loops. The `AsKeyvals` and
`AsMap` loops are proved against recursive reference definitions, which
lemmas then characterise independently: the keys seen, last-wins, and the
concatenation of parts in flag order. The data assembly loop is proved against
the `AsMap` result and the `SourcesOf` predicate: one source per key, carrying
that key's channels.

## Model

| member | source | states |
|---|---|---|
| Paths.Parent | cmd/xrootfs/main.go:65 | `filepath.Dir` of a non-root path is a strict prefix one component shorter |
| Paths.Clean | cmd/xrootfs/main.go:57 | the path `filepath.Join(dest, name)` names: no empty, `.` or `..` component; an already clean path is unchanged; `None` when the name climbs above `dest` |
| Paths.CleanStep | cmd/xrootfs/main.go:57 | against a clean path, an empty or `.` component vanishes, `..` drops the last name or, at the root, climbs out (`None`), and any other name is appended |
| Paths.CleanDepth | cmd/xrootfs/main.go:57 | `Clean` is `None` exactly when some prefix holds more `..` than kept names; otherwise its length is the net count of kept names |
| Paths.CleanAppend | cmd/xrootfs/main.go:130 | joining is compositional: `a + b` resolves as `b` resolved against the cleaned `a`, and climbing out of `a` climbs out of `a + b` |
| Paths.CleanIdempotent | cmd/xrootfs/main.go:57 | cleaning a cleaned path changes nothing |
| Paths.Walk | cmd/xrootfs/main.go:111 | `filepath.Walk`'s visiting order: every path of the tree exactly once, in strictly increasing lexical order |
| Paths.WalkVisitsParentsFirst | cmd/xrootfs/main.go:140 | the walk visits a directory before anything below it |
| Strings.IndexOf | cmd/imagecfg/main.go:36 | the index of the first occurrence of a character that the string holds |
| Strings.Join | cmd/imagecfg/main.go:20 | `strings.Join`: the first part is a prefix of the result, followed by the separator when there are more parts |
| Strings.Split | cmd/imagecfg/main.go:57 | `strings.Split` yields at least one piece and no piece holds the separator |
| Strings.JoinSplit | cmd/imagecfg/main.go:20 | joining the pieces of a split gives the string back |
| Strings.SplitJoin | cmd/imagecfg/main.go:20 | splitting a join of separator-free pieces gives the pieces back |
| Strings.Cut | cmd/imagecfg/main.go:36-37 | `strings.SplitN(v, "=", 2)` has two pieces exactly when `v` holds `=`; the first has no `=`; the two pieces joined by `=` are `v` |
| FsTree.MkdirAllIn | cmd/xrootfs/main.go:61-63 | `os.MkdirAll` succeeds exactly when no existing node on the way is a non-directory; on success every prefix is a directory, old nodes are kept and new nodes are directories on the way with the given mode; on failure nothing changes and the error is "not a directory" |
| FsTree.RemoveAllIn | cmd/xrootfs/main.go:131 | `os.RemoveAll` keeps the tree well formed |
| FsTree.ClearDirIn | cmd/xrootfs/main.go:120-123 | removing every entry of a directory keeps the tree well formed |
| FsTree.RemoveIn | cmd/xrootfs/main.go:124 | `os.Remove` keeps the tree well formed |
| FsTree.WriteFileIn | cmd/xrootfs/main.go:68-76 | creating or truncating a file keeps the tree well formed |
| FsTree.SymlinkIn | cmd/xrootfs/main.go:81 | `os.Symlink` keeps the tree well formed |
| FsTree.LinkIn | cmd/xrootfs/main.go:83 | `os.Link` keeps the tree well formed |
| FsTree.MknodIn | cmd/xrootfs/main.go:86-90 | `syscall.Mknod` with a mode that holds permission bits only makes an empty regular file; it succeeds exactly when the path is free and its parent is a directory, and a failure changes nothing |
| FsTree.ErrorOf | cmd/xrootfs/main.go:196-213 | an outcome carries an error exactly when it failed |
| FsTree.Fs.TempDir | cmd/xrootfs/main.go:199 | `os.MkdirTemp` gives an empty directory with mode 0700 |
| FsTree.Fs.Existing | cmd/xrootfs/main.go:196 | a directory already on disk is an `Fs` holding its tree |
| FsTree.Fs.MkdirAll | cmd/xrootfs/main.go:61 | the tree afterwards and the error are `MkdirAllIn`'s |
| FsTree.Fs.RemoveAll | cmd/xrootfs/main.go:131 | the tree afterwards is `RemoveAllIn`'s |
| FsTree.Fs.Remove | cmd/xrootfs/main.go:124 | the tree afterwards is `RemoveIn`'s |
| FsTree.Fs.WriteFile | cmd/xrootfs/main.go:68-76 | the tree afterwards and the error are `WriteFileIn`'s |
| FsTree.Fs.Symlink | cmd/xrootfs/main.go:81 | the tree afterwards and the error are `SymlinkIn`'s |
| FsTree.Fs.Link | cmd/xrootfs/main.go:83 | the tree afterwards and the error are `LinkIn`'s |
| FsTree.Fs.Mknod | cmd/xrootfs/main.go:88 | the tree afterwards and the error are `MknodIn`'s |
| FsTree.Fs.ClearDir | cmd/xrootfs/main.go:119-123 | the loop over `os.ReadDir`'s entries, each removed with `os.RemoveAll`, leaves the directory itself and nothing strictly below it |
| FsTree.AboveIsDir | cmd/xrootfs/main.go:65 | in a well-formed tree everything above a node exists and is a directory |
| Extract.Perm | cmd/xrootfs/main.go:61 | `os.FileMode(hdr.Mode)` as a creation mode keeps the nine permission bits only: the result is below 512 and agrees with the mode modulo 512, so setuid, setgid, sticky and file-type bits are dropped |
| Extract.Target | cmd/xrootfs/main.go:57 | `filepath.Join(dest, hdr.Name)` relative to `dest`: always a clean path, and a name that is already clean names itself |
| Extract.ChtimesArgs | cmd/xrootfs/main.go:96-104 | a zero access or modify time becomes "now"; a non-zero one is kept |
| Extract.ExtractEntry | cmd/xrootfs/main.go:57-104 | one header fails only for a directory, regular-file or symlink entry, and only with a mkdir, create, copy or short-body error; hard-link, device and other failures are ignored |
| Extract.ExtractEntries | cmd/xrootfs/main.go:48-105 | the loop over the headers fails only with a reported error |
| Extract.ExtractTarIn | cmd/xrootfs/main.go:38-107 | a stream that ends in a read error fails; any failure is a reported one |
| Extract.RegularEntry | cmd/xrootfs/main.go:64-76 | a regular entry succeeds exactly when its body is complete, its path is not a directory and nothing above it is a non-directory; then the file holds exactly the entry's bytes, its parents are directories, and every other existing node is unchanged |
| Extract.SymlinkEntry | cmd/xrootfs/main.go:77-81 | a symlink entry fails only when a parent cannot be made; an existing node is left as it was; a new link carries the header's link name verbatim |
| Extract.SpecialEntry | cmd/xrootfs/main.go:84-90 | a character, block or fifo entry never fails; at a free path under a directory it becomes an empty regular file with the entry's `mode & 07777`, and otherwise nothing changes |
| Extract.DirEntry | cmd/xrootfs/main.go:60-63 | a directory entry is `mkdir -p`: it succeeds exactly when nothing on the way is a non-directory, and an existing directory keeps its mode |
| Extract.ExtractTar | cmd/xrootfs/main.go:38-107 | the destination afterwards and the error are `ExtractTarIn`'s |
| Extract.ExtractEntryInto | cmd/xrootfs/main.go:57-104 | the destination afterwards and the error are `ExtractEntry`'s |
| Whiteouts.ActionOf | cmd/xrootfs/main.go:115-133 | the opaque name is tested first; `.wh.<orig>` targets `<orig>` in the same directory, `.wh.` and `.wh..` that directory itself, and `.wh...` its parent, which for a top-level marker lies outside the rootfs; every other name, and the walk root, is left alone |
| Whiteouts.ClimbingMarker | cmd/xrootfs/main.go:128-131 | in a clean layer the only marker whose target climbs out of the rootfs is a top-level `.wh...` |
| Whiteouts.Step | cmd/xrootfs/main.go:115-134 | the walk callback at one path keeps both trees well formed |
| Whiteouts.WhiteoutsAlong | cmd/xrootfs/main.go:111-135 | the callback along a visiting order keeps both trees well formed |
| Whiteouts.ApplyWhiteoutsIn | cmd/xrootfs/main.go:110-136 | `applyWhiteouts` as the callback along the walk order keeps both trees well formed |
| Whiteouts.WhiteoutsRootfs | cmd/xrootfs/main.go:118-133 | after the walk the rootfs holds exactly the old paths no marker removes, with their old nodes; a target that is already absent is no error (assuming the rootfs spelling and symlink-free paths listed under Left out) |
| Whiteouts.WhiteoutsLayer | cmd/xrootfs/main.go:124-132 | the walk adds nothing to the layer and changes no node; non-marker paths stay; every marker that is not a directory is gone |
| Whiteouts.ApplyWhiteoutsEffect | cmd/xrootfs/main.go:110-136 | an opaque `d/.wh..wh..opq` leaves nothing strictly below `d` and does not remove `d`; `d/.wh.foo` leaves nothing at or below `d/foo`; a top-level `.wh...` leaves the rootfs empty; nothing else is removed (both under the rootfs-spelling and symlink assumptions listed under Left out) |
| Whiteouts.WhiteoutsStripFileMarkers | cmd/xrootfs/main.go:124-132 | after the walk no file, link or device in the layer is a marker |
| Whiteouts.WhiteoutStepInto | cmd/xrootfs/main.go:115-134 | both trees after the callback are `Step`'s |
| Whiteouts.ApplyWhiteouts | cmd/xrootfs/main.go:110-136 | both trees afterwards are `ApplyWhiteoutsIn`'s |
| CopyLayer.CopyStep | cmd/xrootfs/main.go:144-191 | the callback at one layer path keeps the rootfs well formed; directories and files are created with the node's permission bits only (`info.Mode().Perm()`) |
| CopyLayer.CopiedFileMode | cmd/xrootfs/main.go:169-178 | a file the copy creates at a free path holds the layer file's bytes with its mode reduced to the nine permission bits, so a setuid, setgid or sticky bit is dropped |
| CopyLayer.CopyAlong | cmd/xrootfs/main.go:140-193 | the callback along a visiting order, stopping at the first error, keeps the rootfs well formed |
| CopyLayer.CopyLayerIn | cmd/xrootfs/main.go:139-194 | `copyLayer` as the callback along the walk order keeps the rootfs well formed |
| CopyLayer.CopyStepSkips | cmd/xrootfs/main.go:145-147 | the walk root (`rel == "."`), and any node that is neither a directory, a symlink nor a regular file, change nothing and never fail |
| CopyLayer.CopyAlongSkips | cmd/xrootfs/main.go:145-192 | along an order of root and device paths the copy succeeds and changes nothing |
| CopyLayer.CopyLayerSkipsDevices | cmd/xrootfs/main.go:169-192 | a layer holding only its root and device nodes leaves the rootfs as it was, without error |
| CopyLayer.CopyKeepsAbsent | cmd/xrootfs/main.go:140-193 | along any order, a path no step creates at or below stays absent |
| CopyLayer.CopyKeepsPresent | cmd/xrootfs/main.go:140-193 | along any order, a present path that no step writes and that is below no layer symlink keeps its node |
| CopyLayer.CopyPlaces | cmd/xrootfs/main.go:145-191 | along an order without repeats, success leaves every visited layer node in place |
| CopyLayer.CopyClearsBelowSymlinks | cmd/xrootfs/main.go:162-166 | along any order, success leaves nothing strictly below a visited layer symlink |
| CopyLayer.CopyLayerPlaces | cmd/xrootfs/main.go:145-191 | after a successful copy every layer directory is a directory of the rootfs, every layer file has byte-identical content at the same path, and every layer symlink has its target verbatim |
| CopyLayer.CopyLayerClearsBelowSymlinks | cmd/xrootfs/main.go:162-166 | a layer symlink replaces whatever was at its path, a whole directory subtree included |
| CopyLayer.CopyLayerKeepsOthers | cmd/xrootfs/main.go:140-193 | failed or not, a rootfs path that the layer does not create and that is below no layer symlink keeps its node or its absence |
| CopyLayer.CopyLayerKeepsAbsent | cmd/xrootfs/main.go:140-193 | failed or not, the copy creates no path the layer does not hold |
| CopyLayer.CopyStepInto | cmd/xrootfs/main.go:144-192 | the rootfs and the error after the callback are `CopyStep`'s, permission-bit masking included |
| CopyLayer.CopyLayerInto | cmd/xrootfs/main.go:139-194 | the rootfs afterwards and the error are `CopyLayerIn`'s |
| Layers.Scratch | cmd/xrootfs/main.go:199 | a fresh scratch directory is a well-formed tree holding only its root, which is a directory |
| Layers.LayerStep | cmd/xrootfs/main.go:202-210 | one layer, already opened (extract into scratch, whiteouts, copy), keeps the rootfs well formed |
| Layers.LayerIn | cmd/xrootfs/main.go:198-210 | a layer name that climbs out of the image directory, or names no file, fails with `LayerUnreadable` and leaves the rootfs unchanged, as `extractTar`'s failed `os.Open` (main.go:39-41) does; otherwise the layer's stream goes through `LayerStep`; the rootfs stays well formed |
| Layers.ProcessLayersIn | cmd/xrootfs/main.go:196-213 | the layers in list order, stopping at the first error, keep the rootfs well formed |
| Layers.ProcessLayersAppend | cmd/xrootfs/main.go:197-211 | layers apply in list order: `a + b` is `a`, then `b` only if `a` succeeded |
| Layers.ProcessLayersFailsAtOne | cmd/xrootfs/main.go:203-211 | a failure is one layer's failure after all earlier layers succeeded; no later layer is touched |
| Layers.LayerContentPlaced | cmd/xrootfs/main.go:200-211 | after a layer that unpacks and copies cleanly, every non-marker path of the layer holds the layer's node in the rootfs |
| Layers.LayerHidesWhitedOut | cmd/xrootfs/main.go:206-211 | whiteouts apply before the copy: a path a marker removes survives the layer, failed or not, only if the layer itself holds it |
| Layers.LayerKeepsOthers | cmd/xrootfs/main.go:197-211 | a rootfs path that no marker removes, that the layer does not hold, and that is below no layer symlink keeps its node or absence |
| Layers.ProcessLayers | cmd/xrootfs/main.go:196-213 | the rootfs afterwards and the error are `ProcessLayersIn`'s |
| Layers.TrimSha256 | cmd/xrootfs/main.go:266 | `strings.TrimPrefix(digest, "sha256:")`: the prefix and the result give the digest back; a digest without the prefix is unchanged |
| Layers.LayerPathNamesBlob | cmd/xrootfs/main.go:266-267 | a layer digest `sha256:<hex>` names the file `blobs/sha256/<hex>` |
| Layers.LayerPathInjective | cmd/xrootfs/main.go:266-267 | distinct `sha256:` digests name distinct layer files |
| Layers.LayerPaths | cmd/xrootfs/main.go:264-268 | one layer path per manifest digest |
| Layers.OciLayerPaths | cmd/xrootfs/main.go:264-268 | the appending loop gives one layer path per manifest layer, in manifest order |
| Layers.LayerList | cmd/xrootfs/main.go:222-276 | `manifest.json` takes precedence over `oci-layout`; its first image's layers are used; an index without manifests is an error, and so is an archive with neither marker file; OCI layers map to `blobs/sha256/<hex>` in manifest order |
| Layers.RunIn | cmd/xrootfs/main.go:215-276 | `run` keeps the rootfs well formed |
| Layers.RunIgnoresLayerErrors | cmd/xrootfs/main.go:226-276 | run fails exactly when the layer list cannot be derived or the rootfs is not a directory; a failing layer still makes run succeed, leaving the rootfs as far as the layers got; a failed run leaves the rootfs untouched, since the layer list is derived before the rootfs is made |
| Layers.Run | cmd/xrootfs/main.go:215-276 | the rootfs afterwards and the error are `RunIn`'s |
| ImageCfg.KeyOf | cmd/imagecfg/main.go:36-40 | the key has no `=` |
| ImageCfg.ValOf | cmd/imagecfg/main.go:36-41 | key, `=` and value give the flag value back; the value may hold further `=` |
| ImageCfg.KeyvalsSnoc | cmd/imagecfg/main.go:35-43 | one more flag value sets its key to its value part in the key=value map |
| ImageCfg.KeyvalsKeys | cmd/imagecfg/main.go:33-45 | the `AsKeyvals` map's keys are exactly the keys seen |
| ImageCfg.KeyvalsLastWins | cmd/imagecfg/main.go:40-44 | for a repeated key the last value wins |
| ImageCfg.MapOfSnoc | cmd/imagecfg/main.go:51-59 | one more flag value appends its comma-split value parts to its key's list |
| ImageCfg.MapKeys | cmd/imagecfg/main.go:48-61 | the `AsMap` map's keys are exactly the keys seen |
| ImageCfg.MapOfChannels | cmd/imagecfg/main.go:51-60 | a key's list is the concatenation, in flag order, of the comma-split value parts of all values with that key |
| ImageCfg.ChannelsForConcat | cmd/imagecfg/main.go:51-60 | the channels of two runs of flags are those of the first followed by those of the second |
| ImageCfg.MapEndsWithKeyval | cmd/imagecfg/main.go:33-60 | a key's `AsMap` list ends with the comma-split parts of the value `AsKeyvals` keeps for it |
| ImageCfg.OneSource | cmd/imagecfg/main_test.go:33-37 | a single flag `url=c1,c2` gives one key `url` with channels `[c1, c2]` |
| ImageCfg.RepeatStr.constructor | cmd/imagecfg/main.go:13-15 | a fresh flag holds no values |
| ImageCfg.RepeatStr.String | cmd/imagecfg/main.go:19-21 | the values joined with `;` by `strings.Join`, empty for no values; a non-empty list whose values hold no `;` splits back into the values |
| ImageCfg.RepeatStr.Set | cmd/imagecfg/main.go:23-26 | appends the value and never fails |
| ImageCfg.RepeatStr.Values | cmd/imagecfg/main.go:28-30 | the values, which `Set` keeps in insertion order |
| ImageCfg.RepeatStr.AsKeyvals | cmd/imagecfg/main.go:33-45 | fails exactly when some value lacks `=`, naming the first such value and returning no map; otherwise returns the last-wins key=value map |
| ImageCfg.RepeatStr.AsMap | cmd/imagecfg/main.go:48-61 | fails exactly when some value lacks `=`, naming the first such value; otherwise returns the key-to-channels map |
| ImageCfg.AssembleData | cmd/imagecfg/main.go:127-139 | `Archs` and `Packages` are the flag values in order; there is exactly one `Source` per distinct `AsMap` key, whose `Channels` are that key's list; a source parse error aborts |

## Left out

- Symlink following: Go's `os.MkdirAll`, `os.OpenFile` and `os.Stat` follow symlinks; the model never does. `MkdirAllIn` treats an existing symlink on the way as a non-directory. `WriteFileIn` replaces a symlink or device at the path with a file instead of writing through it. `os.ReadDir`, `os.RemoveAll` and `os.Remove` also resolve symlinks in the intermediate components of a rootfs path (cmd/xrootfs/main.go:120-123, 131, 164); the model's `ClearDirIn`, `RemoveAllIn` and `RemoveIn` do not. So when an earlier layer installed `d -> e` (or `d -> /etc`) and a later layer carries `d/.wh.foo` or `d/.wh..wh..opq`, Go removes `e/foo` or empties the link's target, possibly outside the rootfs, while the model removes nothing there.
- Whiteouts.Step / Whiteouts.ApplyWhiteoutsEffect / Whiteouts.WhiteoutsRootfs: assume the rootfs path is spelled so that its parent is a removable directory other than `.`, and that neither the image directory nor the layer scratch directories lie under that parent. Under that assumption a marker whose target resolves to the rootfs or to its parent removes the whole rootfs, and `applyWhiteouts` cannot fail. Otherwise Go differs. With `--rootfs-dir=out`, a top-level `.wh...` resolves to `.`, and `os.RemoveAll(".")` fails and removes nothing. With `--rootfs-dir=.`, a top-level `.wh.` or `.wh..`, or `a/.wh...`, resolves to `.` likewise. With a rootfs such as `/tmp/rootfs` and scratch directories in `/tmp`, the removal deletes the scratch directory being walked, the walk's next `lstat` fails, and `applyWhiteouts` returns that error (cmd/xrootfs/main.go:111-113, 205-207). The model does not capture the rootfs's spelling or what its parent holds.
- Containment: a tar name or layer path that climbs above its base with `..` makes Go write or read outside the directory. The model drops such a tar entry, and reports such a layer as unreadable.
- Ownership (`Lchown`), timestamps (`Chtimes`), the `dev` argument of `mknod` and umask are not stored. `ChtimesArgs` only computes the times the code would set. Hard links copy the node instead of sharing it.
- Device nodes (`Device`) are never created, since `extractTar` hands `mknod` a mode without a file type. They can only be present in a rootfs that already existed, and `copyLayer` skips them.
- Tar and JSON decoding are not modelled. Layer tarballs are already-decoded header streams, keyed by cleaned path. `manifest.json`, `index.json` and the manifest blobs are already-decoded records. A file Go cannot read is `Absent`; one it cannot parse is `Malformed`.
- Run's own `extractTar` of the image archive is represented only by its error (`Image.extractError`).
- `Layers.OciLayerPaths`: keeps `"blobs/sha256/" + hex` as it is, without `filepath.Join`'s cleaning of the string. Every lookup cleans it, so the same file is reached.
- Walk I/O errors are not modelled. `filepath.Walk` reads a directory's names before it visits them, so deleting a marker, even an empty marker directory, does not make the walk fail. The callback removes from the layer only the path it was called for, after the walk has read it, so the precomputed order `Walk` is exact.
- `applyWhiteouts` is modelled as never failing, since walk errors are its only error path.
- Errors are values without their message text or `%w` wrapping.
- Creation and removal of the scratch directories are not modelled. A fresh scratch tree is `Scratch()`.
- `Layers.LayerList`: requires a non-empty Docker manifest. On an empty one, `manifest[0]` panics in Go.
- `RepeatStr.Values` returns the slice itself in Go, so a caller could alias it; the model returns a value.
- `AsKeyvals` and `AsMap` return a pointer to a map in Go, and the model returns the map. The error names the offending value but not the message.
- The order of `Sources` follows Go's map iteration order, which is unspecified. The model picks keys in an unspecified order, and `SourcesOf` says nothing about order.
- Template parsing and execution, YAML output, flag parsing, `main` and `os.Exit` are not modelled.

## Notes

- The code copies symlink targets verbatim, with no relocation into the rootfs (cmd/xrootfs/main.go:162-166).
- `run` discards `processLayers`' error (cmd/xrootfs/main.go:236, 272), so it succeeds with a rootfs built as far as the layers got; `Layers.RunIgnoresLayerErrors` states this.
- Each layer's scratch directory is removed by a `defer`, so only when `processLayers` returns (cmd/xrootfs/main.go:200). Cleanup is not modelled.
- `mknod` gets `hdr.Mode & 07777` (cmd/xrootfs/main.go:86-88), with no file-type bits. A zero file type asks mknod(2) for a regular file, which needs no privilege. So every character, block and fifo entry becomes an empty regular file, which `copyLayer` then copies like any other file. The scratch file keeps any setuid, setgid or sticky bit, but the copy in the rootfs gets only the nine permission bits (cmd/xrootfs/main.go:178).
- A marker `.wh.` with an empty name, or `.wh..`, targets the directory that contains it, so that whole directory is removed from the rootfs. A marker `.wh...` targets the parent of its directory. At the top of a layer that parent is `filepath.Join(rootfs, ".", "..")`, the rootfs's parent as the rootfs path spells it (cmd/xrootfs/main.go:130-131). When that parent is a removable directory, `os.RemoveAll` deletes it with the rootfs inside, and the model removes the whole rootfs. When it cleans to `.`, as for `--rootfs-dir=out`, the removal fails and removes nothing. Left out lists this assumption.
- Markers that are directories survive in the layer when they are not empty, and are then copied like any other directory.
