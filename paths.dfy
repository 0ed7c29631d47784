/**
  Relative file paths as sequences of name components, the joining rules of
  Go's filepath.Join, and the lexical order in which filepath.Walk visits a
  tree.
 */
module Paths {
  import opened Wrappers

  type Name = string

  /** A path below some root directory; [] denotes the root itself. */
  type Path = seq<Name>

  /** A path with no empty, "." or ".." component, as filepath.Clean leaves it. */
  predicate IsClean(p: Path) {
    forall i :: 0 <= i < |p| ==> p[i] != "" && p[i] != "." && p[i] != ".."
  }

  /** filepath.Dir relative to the root; the root is its own parent. */
  function Parent(p: Path): (r: Path)
    ensures p != [] ==> r < p && |r| == |p| - 1
    ensures p == [] ==> r == []
  {
    if p == [] then [] else p[..|p| - 1]
  }

  /**
    The path that filepath.Join(root, p...) denotes, relative to root: empty
    and "." components vanish and ".." climbs one level. None when the path
    climbs above the root.
   */
  function Clean(p: Path): (r: Option<Path>)
    ensures r.Some? ==> IsClean(r.value)
    ensures IsClean(p) ==> r == Some(p)
  {
    if p == [] then Some([])
    else
      match Clean(p[..|p| - 1])
      case None => None
      case Some(c) =>
        assert IsClean(p) ==> IsClean(p[..|p| - 1]) && p == p[..|p| - 1] + [p[|p| - 1]];
        var n := p[|p| - 1];
        if n == "" || n == "." then Some(c)
        else if n == ".." then (if c == [] then None else Some(c[..|c| - 1]))
        else Some(c + [n])
  }

  /** How one component resolves against an already clean path. */
  lemma CleanStep(c: Path, n: Name)
    requires IsClean(c)
    ensures Clean(c + [n]) ==
      if n == "" || n == "." then Some(c)
      else if n == ".." then (if c == [] then None else Some(Parent(c)))
      else Some(c + [n])
  {
    assert (c + [n])[..|c|] == c;
  }

  /** Kept names minus ".." components, counted left to right without stopping at the root. */
  function Depth(p: Path): int
    decreases |p|
  {
    if p == [] then 0
    else
      var n := p[|p| - 1];
      Depth(p[..|p| - 1]) + (if n == "" || n == "." then 0 else if n == ".." then -1 else 1)
  }

  /**
    Clean fails exactly when some prefix of the path holds more ".." than kept
    names, and otherwise keeps one component per net kept name.
   */
  lemma {:induction false} CleanDepth(p: Path)
    ensures Clean(p).Some? ==> |Clean(p).value| == Depth(p)
    ensures Clean(p).None? <==> exists k :: 0 <= k <= |p| && Depth(p[..k]) < 0
    decreases |p|
  {
    if p != [] {
      var q := p[..|p| - 1];
      CleanDepth(q);
      assert forall k :: 0 <= k <= |q| ==> q[..k] == p[..k];
      assert p[..|p|] == p;
    }
  }

  /** Cleaning is compositional: a + b resolves as b resolved against the cleaned a. */
  lemma {:induction false} CleanAppend(a: Path, b: Path)
    ensures Clean(a + b) == match Clean(a) case None => None case Some(c) => Clean(c + b)
    decreases |b|
  {
    if b == [] {
      assert a + b == a;
      if Clean(a).Some? {
        assert Clean(a).value + b == Clean(a).value;
      }
    } else {
      var b', n := b[..|b| - 1], b[|b| - 1];
      CleanAppend(a, b');
      SnocSplit(a, b);
      CleanSnoc(a + b', n);
      if Clean(a).Some? {
        var c := Clean(a).value;
        SnocSplit(c, b);
        CleanSnoc(c + b', n);
        assert Clean(a + b') == Clean(c + b');
        assert Clean(a + b) == Clean(c + b);
      } else {
        assert Clean(a + b').None?;
        assert Clean(a + b).None?;
      }
    }
  }

  lemma SnocSplit(a: Path, b: Path)
    requires b != []
    ensures a + b == (a + b[..|b| - 1]) + [b[|b| - 1]]
  {
  }

  /** Clean of a path with one more component, from Clean of the path. */
  lemma CleanSnoc(p: Path, n: Name)
    ensures Clean(p + [n]) ==
      match Clean(p)
      case None => None
      case Some(c) => Clean(c + [n])
  {
    assert (p + [n])[..|p|] == p;
    if Clean(p).Some? {
      CleanStep(Clean(p).value, n);
    }
  }

  /** Cleaning a cleaned path changes nothing. */
  lemma CleanIdempotent(p: Path)
    ensures Clean(p).Some? ==> Clean(Clean(p).value) == Clean(p)
  {
  }

  // Lexical order: Go's sort.Strings compares names byte by byte, which for
  // UTF-8 is the order of code points; filepath.Walk visits a directory's
  // entries in that order, each directory before its contents.

  predicate NameLe(a: Name, b: Name)
    decreases |a|
  {
    a == [] || (b != [] && (a[0] < b[0] || (a[0] == b[0] && NameLe(a[1..], b[1..]))))
  }

  predicate NameLess(a: Name, b: Name) {
    NameLe(a, b) && a != b
  }

  predicate PathLe(p: Path, q: Path)
    decreases |p|
  {
    p == [] || (q != [] && (NameLess(p[0], q[0]) || (p[0] == q[0] && PathLe(p[1..], q[1..]))))
  }

  predicate PathLess(p: Path, q: Path) {
    PathLe(p, q) && p != q
  }

  lemma {:induction false} NameLeReflexive(a: Name)
    ensures NameLe(a, a)
    decreases |a|
  {
    if a != [] { NameLeReflexive(a[1..]); }
  }

  lemma {:induction false} NameLeAntisymmetric(a: Name, b: Name)
    requires NameLe(a, b) && NameLe(b, a)
    ensures a == b
    decreases |a|
  {
    if a != [] && b != [] {
      NameLeAntisymmetric(a[1..], b[1..]);
      assert a == [a[0]] + a[1..] && b == [b[0]] + b[1..];
    }
  }

  lemma {:induction false} NameLeTotal(a: Name, b: Name)
    ensures NameLe(a, b) || NameLe(b, a)
    decreases |a|
  {
    if a != [] && b != [] && a[0] == b[0] {
      NameLeTotal(a[1..], b[1..]);
    }
  }

  lemma {:induction false} NameLeTransitive(a: Name, b: Name, c: Name)
    requires NameLe(a, b) && NameLe(b, c)
    ensures NameLe(a, c)
    decreases |a|
  {
    if a != [] && b != [] && c != [] && a[0] == b[0] && b[0] == c[0] {
      NameLeTransitive(a[1..], b[1..], c[1..]);
    }
  }

  lemma {:induction false} PathLeReflexive(p: Path)
    ensures PathLe(p, p)
    decreases |p|
  {
    if p != [] { PathLeReflexive(p[1..]); }
  }

  lemma {:induction false} PathLeAntisymmetric(p: Path, q: Path)
    requires PathLe(p, q) && PathLe(q, p)
    ensures p == q
    decreases |p|
  {
    if p != [] && q != [] {
      if NameLess(p[0], q[0]) {
        if NameLess(q[0], p[0]) {
          NameLeAntisymmetric(p[0], q[0]);
        }
        assert false;
      }
      if NameLess(q[0], p[0]) {
        assert false;
      }
      PathLeAntisymmetric(p[1..], q[1..]);
      assert p == [p[0]] + p[1..] && q == [q[0]] + q[1..];
    }
  }

  lemma {:induction false} PathLeTotal(p: Path, q: Path)
    ensures PathLe(p, q) || PathLe(q, p)
    decreases |p|
  {
    if p != [] && q != [] {
      NameLeTotal(p[0], q[0]);
      if p[0] == q[0] {
        PathLeTotal(p[1..], q[1..]);
      }
    }
  }

  lemma {:induction false} PathLeTransitive(p: Path, q: Path, r: Path)
    requires PathLe(p, q) && PathLe(q, r)
    ensures PathLe(p, r)
    decreases |p|
  {
    if p != [] {
      if p[0] == q[0] && q[0] == r[0] {
        PathLeTransitive(p[1..], q[1..], r[1..]);
      } else {
        NameLeReflexive(q[0]);
        NameLeTransitive(p[0], q[0], r[0]);
        if p[0] == r[0] {
          // one of the two steps strictly increased the first name
          NameLeAntisymmetric(p[0], q[0]);
        }
      }
    }
  }

  /** A directory sorts before everything below it. */
  lemma {:induction false} PrefixSortsFirst(p: Path, q: Path)
    requires p <= q
    ensures PathLe(p, q)
    decreases |p|
  {
    if p != [] {
      PrefixSortsFirst(p[1..], q[1..]);
    }
  }

  predicate IsLeast(m: Path, keys: set<Path>) {
    m in keys && forall q :: q in keys ==> PathLe(m, q)
  }

  lemma {:induction false} LeastExists(keys: set<Path>)
    requires keys != {}
    ensures exists m :: IsLeast(m, keys)
    decreases keys
  {
    var x :| x in keys;
    PathLeReflexive(x);
    if keys == {x} {
      assert IsLeast(x, keys);
    } else {
      var rest := keys - {x};
      LeastExists(rest);
      var m :| IsLeast(m, rest);
      PathLeTotal(x, m);
      if PathLe(x, m) {
        forall q | q in keys ensures PathLe(x, q) {
          if q != x { PathLeTransitive(x, m, q); }
        }
        assert IsLeast(x, keys);
      } else {
        assert IsLeast(m, keys);
      }
    }
  }

  lemma LeastUnique(keys: set<Path>)
    ensures forall m, n :: IsLeast(m, keys) && IsLeast(n, keys) ==> m == n
  {
    forall m, n | IsLeast(m, keys) && IsLeast(n, keys) ensures m == n {
      PathLeAntisymmetric(m, n);
    }
  }

  /** order lists exactly the paths of keys, each once, in lexical order. */
  ghost predicate IsWalk(order: seq<Path>, keys: set<Path>) {
    && (forall i, j :: 0 <= i < j < |order| ==> PathLess(order[i], order[j]))
    && (forall p :: p in order <==> p in keys)
  }

  /** The order in which filepath.Walk visits a tree whose paths are keys. */
  function Walk(keys: set<Path>): (order: seq<Path>)
    ensures IsWalk(order, keys)
    decreases keys
  {
    if keys == {} then []
    else
      LeastExists(keys);
      LeastUnique(keys);
      var m :| m in keys && IsLeast(m, keys);
      var rest := Walk(keys - {m});
      assert forall j :: 0 <= j < |rest| ==> PathLess(m, rest[j]) by {
        forall j | 0 <= j < |rest| ensures PathLess(m, rest[j]) {
          assert rest[j] in keys - {m};
        }
      }
      [m] + rest
  }

  /** Walk visits a directory before anything below it. */
  lemma WalkVisitsParentsFirst(order: seq<Path>, keys: set<Path>, i: nat, j: nat)
    requires IsWalk(order, keys)
    requires i < |order| && j < |order| && order[i] < order[j]
    ensures i < j
  {
    PrefixSortsFirst(order[i], order[j]);
    if j < i {
      PathLeAntisymmetric(order[i], order[j]);
    }
  }
}
