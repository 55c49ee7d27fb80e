/** The host filesystem, as the `os` calls the version manager makes see it:
    a tree of directories, files and symbolic links keyed by cleaned path.
    Lookups are lexical: a symbolic link is never followed. */
module Fs {
  import opened Errors
  import opened Paths

  datatype Node = Dir | File(data: seq<bv8>) | Symlink(target: string)

  type Tree = map<Path, Node>

  predicate IsDir(t: Tree, p: Path)
  {
    p in t && t[p] == Dir
  }

  function Parent(p: Path): Path
    requires p != []
  {
    p[..|p| - 1]
  }

  /** The root is a directory, every key is a cleaned path, and every entry
      other than the root sits in a directory. */
  ghost predicate WellFormed(t: Tree)
  {
    && IsDir(t, [])
    && (forall p :: p in t ==> IsClean(p))
    && (forall p {:trigger Parent(p)} :: p in t && p != [] ==> IsDir(t, Parent(p)))
  }

  /** Every proper ancestor of an entry is a directory. */
  lemma {:induction false} Ancestors(t: Tree, p: Path)
    requires WellFormed(t) && p in t
    ensures forall k :: 0 <= k < |p| ==> IsDir(t, p[..k])
    decreases |p|
  {
    if p != [] {
      var q := Parent(p);
      Ancestors(t, q);
      forall k | 0 <= k < |p| ensures IsDir(t, p[..k]) {
        if k < |q| {
          assert q[..k] == p[..k];
        }
      }
    }
  }

  /** Whatever lies at or below `d` has `d` as an entry. */
  lemma PresentAbove(t: Tree, d: Path)
    requires WellFormed(t)
    ensures forall q :: q in t && IsPrefix(d, q) ==> d in t
  {
    forall q | q in t && IsPrefix(d, q) ensures d in t {
      if |d| < |q| {
        Ancestors(t, q);
        assert IsDir(t, q[..|d|]);
      } else {
        assert q == q[..|d|];
      }
    }
  }

  /** Some ancestor of `p`, or `p` itself, exists and is not a directory:
      os.MkdirAll(p) fails with "not a directory". */
  predicate Blocked(t: Tree, p: Path)
  {
    exists i :: 0 <= i <= |p| && p[..i] in t && t[p[..i]] != Dir
  }

  /** The tree after creating every missing ancestor of `p` and `p` itself. */
  function WithDirs(t: Tree, p: Path): Tree
  {
    (map i | 0 <= i <= |p| :: p[..i] := Dir) + t
  }

  lemma WithDirsShape(t: Tree, p: Path)
    ensures forall q :: q in WithDirs(t, p) <==> q in t || IsPrefix(q, p)
    ensures forall q :: q in t ==> WithDirs(t, p)[q] == t[q]
    ensures forall q :: q in WithDirs(t, p) && q !in t ==> WithDirs(t, p)[q] == Dir
  {
    var w := WithDirs(t, p);
    forall q | IsPrefix(q, p) ensures q in w {
      assert q == p[..|q|];
    }
  }

  lemma WithDirsWellFormed(t: Tree, p: Path)
    requires WellFormed(t) && IsClean(p) && !Blocked(t, p)
    ensures WellFormed(WithDirs(t, p))
    ensures forall k :: 0 <= k <= |p| ==> IsDir(WithDirs(t, p), p[..k])
  {
    var w := WithDirs(t, p);
    WithDirsShape(t, p);
    forall k | 0 <= k <= |p| ensures IsDir(w, p[..k]) {
      assert IsPrefix(p[..k], p);
      if p[..k] in t {
        assert t[p[..k]] == Dir;
      }
    }
    forall q | q in w ensures IsClean(q) {
      if q !in t {
        assert q == p[..|q|];
      }
    }
    forall q | q in w && q != [] ensures IsDir(w, Parent(q)) {
      if q !in t {
        assert q == p[..|q|];
        assert Parent(q) == p[..|q| - 1];
      }
    }
  }

  /** Below an absent `d`, a path is blocked exactly when `d` is. */
  lemma AbsentBelow(t: Tree, d: Path, p: Path)
    requires WellFormed(t) && d !in t && IsPrefix(d, p)
    ensures Blocked(t, p) <==> Blocked(t, d)
  {
    PresentAbove(t, d);
    forall i | 0 <= i <= |p| ensures IsPrefix(d, p[..i]) || p[..i] == d[..i] {
      if i <= |d| {
        assert p[..i] == d[..i];
      }
    }
  }

  /** Creating an unblocked path makes it a directory. */
  lemma WithDirsMakesDir(t: Tree, p: Path)
    requires !Blocked(t, p)
    ensures IsDir(WithDirs(t, p), p)
  {
    assert p[..|p|] == p;
  }

  /** Creating directories keeps every directory one. */
  lemma WithDirsKeepsDir(t: Tree, p: Path, q: Path)
    requires IsDir(t, q)
    ensures IsDir(WithDirs(t, p), q)
  {
  }

  /** Creating directories never blocks or unblocks another path. */
  lemma BlockedAfterWithDirs(t: Tree, p: Path, q: Path)
    ensures Blocked(WithDirs(t, p), q) <==> Blocked(t, q)
  {
    WithDirsShape(t, p);
    var w := WithDirs(t, p);
    if Blocked(w, q) {
      var i :| 0 <= i <= |q| && q[..i] in w && w[q[..i]] != Dir;
      assert q[..i] in t;
    }
    if Blocked(t, q) {
      var i :| 0 <= i <= |q| && q[..i] in t && t[q[..i]] != Dir;
      assert w[q[..i]] != Dir;
    }
  }

  /** A directory that exists: nothing blocks it and creating it is a no-op. */
  lemma ExistingDir(t: Tree, p: Path)
    requires WellFormed(t) && IsDir(t, p)
    ensures !Blocked(t, p)
    ensures WithDirs(t, p) == t
  {
    Ancestors(t, p);
    assert p[..|p|] == p;
    WithDirsShape(t, p);
    forall q | IsPrefix(q, p) ensures q in t {
      assert q == p[..|q|];
    }
  }

  /** Some entry lies below `p`. */
  predicate HasChildren(t: Tree, p: Path)
  {
    exists q :: q in t && StrictlyUnder(q, p)
  }

  /** os.Remove succeeds: an existing non-root entry that is not a
      directory with contents. */
  predicate Removable(t: Tree, p: Path)
  {
    p in t && p != [] && !(t[p] == Dir && HasChildren(t, p))
  }

  /** os.Symlink and friends can create a new entry at `p`. */
  predicate Creatable(t: Tree, p: Path)
  {
    p !in t && p != [] && IsDir(t, Parent(p))
  }

  /** os.OpenFile with O_CREATE|O_TRUNC can write a file at `p`. */
  predicate Writable(t: Tree, p: Path)
  {
    p != [] && IsDir(t, Parent(p)) && (p !in t || t[p].File?)
  }

  /** The tree after os.RemoveAll(p): `p` and everything below it are gone
      (the root itself always stays). */
  function Pruned(t: Tree, p: Path): Tree
  {
    map q | q in t && !(IsPrefix(p, q) && q != []) :: t[q]
  }

  lemma PrunedWellFormed(t: Tree, p: Path)
    requires WellFormed(t)
    ensures WellFormed(Pruned(t, p))
  {
    var u := Pruned(t, p);
    forall q | q != [] && IsPrefix(p, Parent(q)) ensures IsPrefix(p, q) {
      assert q[..|p|] == Parent(q)[..|p|];
    }
    forall q | q in u && q != [] ensures IsDir(u, Parent(q)) {
      assert IsDir(t, Parent(q));
    }
  }

  /** os.Lstat(name) finds an entry. */
  predicate Exists(t: Tree, name: string)
  {
    Parse(name) in t
  }

  /** os.IsNotExist(err) for the error of os.Stat(name): no entry is there
      and nothing on the way to it is a file or a link. A non-directory on
      the way makes os.Stat fail with "not a directory" instead, an error
      os.IsNotExist does not match. */
  predicate StatNotExist(t: Tree, name: string)
  {
    Parse(name) !in t && !Blocked(t, Parse(name))
  }

  /** Blocked, one segment further down. */
  lemma BlockedSnoc(t: Tree, p: Path, x: string)
    ensures Blocked(t, p + [x]) <==> Blocked(t, p) || (p + [x] in t && t[p + [x]] != Dir)
  {
    var q := p + [x];
    assert q[..|q|] == q;
    if Blocked(t, p) {
      var i :| 0 <= i <= |p| && p[..i] in t && t[p[..i]] != Dir;
      assert q[..i] == p[..i];
    }
    if Blocked(t, q) {
      var i :| 0 <= i <= |q| && q[..i] in t && t[q[..i]] != Dir;
      if i <= |p| {
        assert q[..i] == p[..i];
      }
    }
  }

  /** After os.RemoveAll(p) on an entry, `p` is missing and the way to it
      is clear: os.Stat(p) reports that it does not exist. */
  lemma PrunedMissing(t: Tree, p: Path)
    requires WellFormed(t) && p in t && p != []
    ensures p !in Pruned(t, p) && !Blocked(Pruned(t, p), p)
  {
    Ancestors(t, p);
    var u := Pruned(t, p);
    forall i | 0 <= i < |p| ensures IsDir(u, p[..i]) {
      assert IsDir(t, p[..i]);
    }
    assert p[..|p|] == p;
  }

  /** `t` and `u` hold the same entries at `q` and at every path above it. */
  ghost predicate AgreeAlong(t: Tree, u: Tree, q: Path)
  {
    forall i :: 0 <= i <= |q| ==>
      (q[..i] in u <==> q[..i] in t) && (q[..i] in t ==> u[q[..i]] == t[q[..i]])
  }

  /** Trees that agree along `q` agree on `q` and on whether it is blocked. */
  lemma AgreeAlongBlocked(t: Tree, u: Tree, q: Path)
    requires AgreeAlong(t, u, q)
    ensures q in u <==> q in t
    ensures q in t ==> u[q] == t[q]
    ensures Blocked(u, q) <==> Blocked(t, q)
  {
    assert q[..|q|] == q;
    if Blocked(u, q) {
      var i :| 0 <= i <= |q| && q[..i] in u && u[q[..i]] != Dir;
    }
    if Blocked(t, q) {
      var i :| 0 <= i <= |q| && q[..i] in t && t[q[..i]] != Dir;
    }
  }

  /** Setting an entry that is neither `q` nor above it keeps the tree
      agreeing along `q`. */
  lemma AgreeAlongUpdate(t: Tree, k: Path, n: Node, q: Path)
    requires !IsPrefix(k, q)
    ensures AgreeAlong(t, t[k := n], q)
  {
    forall i | 0 <= i <= |q| ensures q[..i] != k {
      assert |k| == i ==> q[..|k|] == q[..i];
    }
  }

  /** The same for an entry inside a directory `a` that `q` is not in. */
  lemma AgreeAlongUpdateInside(t: Tree, a: Path, k: Path, n: Node, q: Path)
    requires IsPrefix(a, k) && !IsPrefix(a, q)
    ensures AgreeAlong(t, t[k := n], q)
  {
    assert |k| <= |q| ==> q[..|k|][..|a|] == q[..|a|];
    AgreeAlongUpdate(t, k, n, q);
  }

  /** os.RemoveAll(p) leaves every path off `p` as it was, and so whether
      the way to it is blocked. */
  lemma PrunedOutside(t: Tree, p: Path, q: Path)
    requires !IsPrefix(p, q)
    ensures q in Pruned(t, p) <==> q in t
    ensures q in t ==> Pruned(t, p)[q] == t[q]
    ensures Blocked(Pruned(t, p), q) <==> Blocked(t, q)
  {
    assert AgreeAlong(t, Pruned(t, p), q);
    AgreeAlongBlocked(t, Pruned(t, p), q);
  }

  /** Every directory of `t0` is still a directory in `t`. */
  ghost predicate DirsKept(t0: Tree, t: Tree)
  {
    forall q :: IsDir(t0, q) ==> IsDir(t, q)
  }

  /** os.Readlink */
  function Readlink(t: Tree, name: string): (r: Result<string>)
    ensures r.Ok? <==> Parse(name) in t && t[Parse(name)].Symlink?
  {
    var p := Parse(name);
    if p !in t then Err(NotExist(name))
    else if !t[p].Symlink? then Err(NotLink(name))
    else Ok(t[p].target)
  }

  /** ioutil.ReadDir: the entries directly inside a directory, by name. */
  function ReadDir(t: Tree, name: string): (r: Result<map<string, Node>>)
    ensures r.Ok? <==> IsDir(t, Parse(name))
    ensures r.Ok? ==> forall n :: n in r.value <==> Parse(name) + [n] in t
    ensures r.Ok? ==> forall n :: n in r.value ==> r.value[n] == t[Parse(name) + [n]]
  {
    var p := Parse(name);
    if p !in t then Err(NotExist(name))
    else if t[p] != Dir then Err(NotDir(name))
    else
      var names := set q | q in t && |q| == |p| + 1 && q[..|p|] == p :: q[|p|];
      assert forall n :: p + [n] in t ==> (p + [n])[|p|] == n && (p + [n])[..|p|] == p;
      Ok(map n | n in names && p + [n] in t :: t[p + [n]])
  }

  /** The machine's disk, which every operation of the version manager reads
      and changes in place. */
  class FileSystem {
    var tree: Tree

    ghost predicate Valid()
      reads this
    {
      WellFormed(tree)
    }

    /** A disk holding only its root directory. */
    constructor ()
      ensures Valid() && tree == map[[] := Dir]
    {
      tree := map[[] := Dir];
    }

    /** os.MkdirAll(name, 0755) */
    method MkdirAll(name: string) returns (r: Outcome)
      requires Valid()
      modifies this
      ensures Valid()
      ensures r.Pass? <==> !Blocked(old(tree), Parse(name))
      ensures r.Fail? ==> r.error == NotDir(name)
      ensures r.Pass? ==> IsDir(tree, Parse(name))
      ensures tree == if r.Pass? then WithDirs(old(tree), Parse(name)) else old(tree)
    {
      var p := Parse(name);
      if Blocked(tree, p) {
        return Fail(NotDir(name));
      }
      WithDirsWellFormed(tree, p);
      assert p[..|p|] == p;
      tree := WithDirs(tree, p);
      r := Pass;
    }

    /** os.Remove(name) */
    method Remove(name: string) returns (r: Outcome)
      requires Valid()
      modifies this
      ensures Valid()
      ensures r.Pass? <==> Removable(old(tree), Parse(name))
      ensures tree == if r.Pass? then old(tree) - {Parse(name)} else old(tree)
    {
      var p := Parse(name);
      if p !in tree {
        return Fail(NotExist(name));
      }
      if p == [] {
        return Fail(IsRoot);
      }
      if tree[p] == Dir && HasChildren(tree, p) {
        return Fail(DirNotEmpty(name));
      }
      ghost var t := tree;
      tree := tree - {p};
      forall q | q in tree && q != [] ensures IsDir(tree, Parent(q)) {
        assert IsDir(t, Parent(q));
        if Parent(q) == p {
          assert StrictlyUnder(q, p);
        }
      }
      r := Pass;
    }

    /** os.RemoveAll(name): `name` and everything below it are removed. A
        missing `name` is no error, unless a file or link on the way to it
        makes the removal fail with "not a directory". */
    method RemoveAll(name: string) returns (r: Outcome)
      requires Valid()
      modifies this
      ensures Valid()
      ensures r.Fail? <==> Parse(name) !in old(tree) && Blocked(old(tree), Parse(name))
      ensures r.Fail? ==> r.error == NotDir(name)
      ensures tree == if r.Pass? then Pruned(old(tree), Parse(name)) else old(tree)
    {
      var p := Parse(name);
      if p !in tree && Blocked(tree, p) {
        return Fail(NotDir(name));
      }
      PrunedWellFormed(tree, p);
      tree := Pruned(tree, p);
      r := Pass;
    }

    /** os.Symlink(target, name) */
    method Symlink(target: string, name: string) returns (r: Outcome)
      requires Valid()
      modifies this
      ensures Valid()
      ensures r.Pass? <==> Creatable(old(tree), Parse(name))
      ensures tree == if r.Pass? then old(tree)[Parse(name) := Node.Symlink(target)] else old(tree)
    {
      var p := Parse(name);
      if p in tree {
        return Fail(EntryExists(name));
      }
      if p == [] || !IsDir(tree, Parent(p)) {
        return Fail(NotExist(name));
      }
      tree := tree[p := Node.Symlink(target)];
      r := Pass;
    }

    /** os.OpenFile(name, O_WRONLY|O_CREATE|O_TRUNC) followed by a full copy
        of `data` into it. */
    method WriteFile(name: string, data: seq<bv8>) returns (r: Outcome)
      requires Valid()
      modifies this
      ensures Valid()
      ensures r.Pass? <==> Writable(old(tree), Parse(name))
      ensures r.Fail? ==> r.error == NotExist(name) || r.error == EntryExists(name)
      ensures tree == if r.Pass? then old(tree)[Parse(name) := File(data)] else old(tree)
    {
      var p := Parse(name);
      if p == [] || !IsDir(tree, Parent(p)) {
        return Fail(NotExist(name));
      }
      if p in tree && !tree[p].File? {
        return Fail(EntryExists(name));
      }
      tree := tree[p := File(data)];
      r := Pass;
    }
  }
}
