/**
  extractTar: unpacking one tar stream, already decoded into headers, into a
  destination tree. Directory and regular-file failures and read errors stop
  the extraction; symlink, hard-link and device-node failures, ownership and
  timestamps are best effort. Character, block and fifo entries become empty
  regular files, because the mode handed to mknod carries no file type.
 */
module Extract {
  import opened Wrappers
  import opened Paths
  import opened Strings
  import opened FsTree

  datatype EntryKind = TypeDir | TypeReg | TypeSymlink | TypeLink | TypeChar | TypeBlock | TypeFifo | TypeOther

  /** A Go time.Time in seconds; None is the zero time. */
  type Time = Option<int>

  /** One decoded tar header together with the body bytes the reader delivered. */
  datatype Header = Header(
    name: string,
    kind: EntryKind,
    mode: nat,
    linkname: string,
    uid: int,
    gid: int,
    accessTime: Time,
    modTime: Time,
    body: seq<byte>,
    bodyComplete: bool)

  /** How the header sequence ended: io.EOF, or a read error from tr.Next. */
  datatype TarEnd = Eof | ReadError

  datatype TarStream = TarStream(headers: seq<Header>, end: TarEnd)

  /** The permission bits os.Mkdir and os.OpenFile take from os.FileMode(hdr.Mode). */
  function Perm(mode: nat): (perm: nat)
    ensures perm < 512 && (mode < 512 ==> perm == mode)
    ensures (mode - perm) % 512 == 0
  {
    mode % 512
  }

  /** The node filepath.Join(dest, name) denotes; None when the name climbs out of dest. */
  function Target(name: string): (r: Option<Path>)
    ensures r.Some? ==> IsClean(r.value)
    ensures IsClean(Split(name, '/')) ==> r == Some(Split(name, '/'))
  {
    Clean(Split(name, '/'))
  }

  /** The errors extractTar returns; every other failure it ignores. */
  predicate Reported(e: Error) {
    e.TarCorrupt? || e.NotADirectory? || e.IsADirectory? || e.NoSuchDirectory? || e.ShortRead?
  }

  /**
    The times handed to os.Chtimes: a zero header time becomes now, any other
    is kept. Timestamps are not part of the tree, so ExtractEntry computes
    nothing with them; this function records the rule alone.
   */
  function ChtimesArgs(h: Header, now: int): (r: (int, int))
    ensures h.accessTime.None? ==> r.0 == now
    ensures h.accessTime.Some? ==> r.0 == h.accessTime.value
    ensures h.modTime.None? ==> r.1 == now
    ensures h.modTime.Some? ==> r.1 == h.modTime.value
  {
    var atime := if h.accessTime.None? then now else h.accessTime.value;
    var mtime := if h.modTime.None? then now else h.modTime.value;
    (atime, mtime)
  }

  /** One pass of extractTar's loop body: the node for header h. */
  function ExtractEntry(t: Tree, h: Header): (r: Res)
    requires WellFormed(t)
    ensures WellFormed(r.tree)
    ensures r.Failed? ==> Reported(r.error) && h.kind in {TypeDir, TypeReg, TypeSymlink}
  {
    match Target(h.name)
    case None => Done(t)
    case Some(p) =>
      match h.kind
      case TypeDir => MkdirAllIn(t, p, Perm(h.mode))
      case TypeReg =>
        (match MkdirAllIn(t, Parent(p), ParentDirPerm)
         case Failed(t1, e) => Failed(t1, e)
         case Done(t1) =>
           match WriteFileIn(t1, p, h.body, Perm(h.mode))
           case Failed(t2, e) => Failed(t2, e)
           case Done(t2) => if h.bodyComplete then Done(t2) else Failed(t2, ShortRead(p)))
      case TypeSymlink =>
        (match MkdirAllIn(t, Parent(p), ParentDirPerm)
         case Failed(t1, e) => Failed(t1, e)
         case Done(t1) => Done(SymlinkIn(t1, h.linkname, p).tree))
      case TypeLink =>
        (match Target(h.linkname)
         case None => Done(t)
         case Some(src) => Done(LinkIn(t, src, p).tree))
      case TypeChar | TypeBlock | TypeFifo => Done(MknodIn(t, p, h.mode % 4096).tree)
      case TypeOther => Done(t)
  }

  /** extractTar's loop over the headers, stopping at the first reported error. */
  function ExtractEntries(t: Tree, hs: seq<Header>): (r: Res)
    requires WellFormed(t)
    ensures WellFormed(r.tree)
    ensures r.Failed? ==> Reported(r.error)
    decreases |hs|
  {
    if hs == [] then Done(t)
    else
      match ExtractEntry(t, hs[0])
      case Failed(t1, e) => Failed(t1, e)
      case Done(t1) => ExtractEntries(t1, hs[1..])
  }

  /** extractTar on a whole stream: a read error after the last header is returned too. */
  function ExtractTarIn(t: Tree, s: TarStream): (r: Res)
    requires WellFormed(t)
    ensures WellFormed(r.tree)
    ensures r.Failed? ==> Reported(r.error)
    ensures s.end == ReadError ==> r.Failed?
  {
    match ExtractEntries(t, s.headers)
    case Failed(t1, e) => Failed(t1, e)
    case Done(t1) => if s.end == ReadError then Failed(t1, TarCorrupt) else Done(t1)
  }

  /**
    A regular entry: it succeeds exactly when the body is complete, nothing on
    the way to it is anything but a directory and it is not a directory
    itself; then the file holds exactly the entry's bytes (a short body stays
    as far as it was read), its parents are directories, and nothing else
    that existed changes.
   */
  lemma RegularEntry(t: Tree, h: Header, p: Path)
    requires WellFormed(t) && h.kind == TypeReg && Target(h.name) == Some(p)
    ensures var r := ExtractEntry(t, h);
      && (r.Done? <==>
           h.bodyComplete && p != [] && !IsDirIn(t, p) &&
           forall k :: 0 <= k <= |Parent(p)| && p[..k] in t ==> t[p[..k]].Dir?)
      && (r.Done? || r.error == ShortRead(p) ==>
           p in r.tree && r.tree[p].File? && r.tree[p].data == h.body &&
           (forall k :: 0 <= k < |p| ==> IsDirIn(r.tree, p[..k])) &&
           forall q :: q in t && q != p ==> q in r.tree && r.tree[q] == t[q])
  {
    if p != [] {
      assert forall k :: 0 <= k <= |Parent(p)| ==> Parent(p)[..k] == p[..k];
      var m := MkdirAllIn(t, Parent(p), ParentDirPerm);
      if m.Done? {
        assert !(p <= Parent(p));
        assert IsDirIn(t, p) <==> IsDirIn(m.tree, p);
        assert Parent(p)[..|Parent(p)|] == Parent(p);
        assert IsDirIn(m.tree, Parent(p));
        var w := WriteFileIn(m.tree, p, h.body, Perm(h.mode));
        if w.Done? {
          assert w.tree == m.tree[p := w.tree[p]];
          forall k | 0 <= k < |p| ensures IsDirIn(w.tree, p[..k]) {
            assert p[..k] == Parent(p)[..k];
          }
        }
      }
    }
  }

  /**
    A symlink entry: it fails only when a parent cannot be made; it never
    replaces an existing node, and a new link carries the header's link name
    verbatim.
   */
  lemma SymlinkEntry(t: Tree, h: Header, p: Path)
    requires WellFormed(t) && h.kind == TypeSymlink && Target(h.name) == Some(p)
    ensures var r := ExtractEntry(t, h);
      && (r.Done? <==> forall k :: 0 <= k <= |Parent(p)| && p[..k] in t ==> t[p[..k]].Dir?)
      && (r.Done? && p in t ==> r.tree[p] == t[p])
      && (r.Done? && p !in t && p != [] ==> r.tree[p] == Symlink(h.linkname))
  {
    if p != [] {
      assert forall k :: 0 <= k <= |Parent(p)| ==> Parent(p)[..k] == p[..k];
      var m := MkdirAllIn(t, Parent(p), ParentDirPerm);
      if m.Done? {
        assert !(p <= Parent(p));
        assert p in t <==> p in m.tree;
        assert Parent(p)[..|Parent(p)|] == Parent(p);
        assert IsDirIn(m.tree, Parent(p));
      }
    }
  }

  /** A directory entry: mkdir -p; an existing directory keeps its mode. */
  lemma DirEntry(t: Tree, h: Header, p: Path)
    requires WellFormed(t) && h.kind == TypeDir && Target(h.name) == Some(p)
    ensures var r := ExtractEntry(t, h);
      && (r.Done? <==> forall k :: 0 <= k <= |p| && p[..k] in t ==> t[p[..k]].Dir?)
      && (r.Done? ==> IsDirIn(r.tree, p) && r.tree[p] == (if p in t then t[p] else Dir(Perm(h.mode))))
  {
    assert p[..|p|] == p;
  }

  /**
    A character, block or fifo entry never fails: at a free path whose parent
    is a directory it becomes an empty regular file with the entry's
    permission, setuid, setgid and sticky bits; otherwise nothing changes.
   */
  lemma SpecialEntry(t: Tree, h: Header, p: Path)
    requires WellFormed(t) && h.kind in {TypeChar, TypeBlock, TypeFifo} && Target(h.name) == Some(p)
    ensures var r := ExtractEntry(t, h);
      && r.Done?
      && r.tree == (if p !in t && ParentIsDir(t, p) then t[p := File([], h.mode % 4096)] else t)
  {
  }

  /** extractTar (main.go): the destination afterwards is ExtractTarIn's tree. */
  method ExtractTar(s: TarStream, dest: Fs) returns (err: Option<Error>)
    requires dest.Valid()
    modifies dest
    ensures dest.Valid()
    ensures var r := ExtractTarIn(old(dest.tree), s); dest.tree == r.tree && err == ErrorOf(r)
  {
    ghost var t0 := dest.tree;
    var i := 0;
    while i < |s.headers|
      invariant 0 <= i <= |s.headers|
      invariant dest.Valid()
      invariant ExtractEntries(t0, s.headers) == ExtractEntries(dest.tree, s.headers[i..])
    {
      ghost var before := dest.tree;
      err := ExtractEntryInto(s.headers[i], dest);
      if err.Some? {
        return;
      }
      assert s.headers[i..][1..] == s.headers[i + 1..];
      i := i + 1;
    }
    if s.end == ReadError {
      err := Some(TarCorrupt);
    } else {
      err := None;
    }
  }

  /** The body of extractTar's loop for one header. */
  method ExtractEntryInto(h: Header, dest: Fs) returns (err: Option<Error>)
    requires dest.Valid()
    modifies dest
    ensures dest.Valid()
    ensures var r := ExtractEntry(old(dest.tree), h); dest.tree == r.tree && err == ErrorOf(r)
  {
    err := None;
    var target := Target(h.name);
    if target.None? {
      return;
    }
    var p := target.value;
    match h.kind {
      case TypeDir =>
        err := dest.MkdirAll(p, Perm(h.mode));
      case TypeReg =>
        err := dest.MkdirAll(Parent(p), ParentDirPerm);
        if err.Some? { return; }
        err := dest.WriteFile(p, h.body, Perm(h.mode));
        if err.Some? { return; }
        if !h.bodyComplete {
          err := Some(ShortRead(p));
        }
      case TypeSymlink =>
        err := dest.MkdirAll(Parent(p), ParentDirPerm);
        if err.Some? { return; }
        var _ := dest.Symlink(h.linkname, p);
      case TypeLink =>
        var src := Target(h.linkname);
        if src.Some? {
          var _ := dest.Link(src.value, p);
        }
      case TypeChar | TypeBlock | TypeFifo =>
        var _ := dest.Mknod(p, h.mode % 4096);
      case TypeOther =>
    }
  }
}
