/** Making a version the active one: `active/bin` and `active/include` are
    symbolic links into that version's directory, and the active version is
    read back from where `active/bin` points. */
module Activation {
  import opened Errors
  import opened Paths
  import opened Fs
  import opened Layout

  /** The text of the link `active/<sub>`. */
  function LinkName(home: string, app: string, sub: string): string
  {
    Join(GetHomeActiveDir(home, app), sub)
  }

  /** The text a link `active/<sub>` holds when `version` is active. */
  function LinkTarget(home: string, app: string, version: string, sub: string): string
  {
    Join(GetHomeVersionDir(home, app, version), sub)
  }

  ghost function LinkPath(home: string, app: string, sub: string): Path
  {
    Parse(LinkName(home, app, sub))
  }

  /** The two links sit side by side directly in `active`. */
  lemma LinkPaths(home: string, app: string)
    ensures LinkPath(home, app, "bin") == ActivePath(home, app) + ["bin"]
    ensures LinkPath(home, app, "include") == ActivePath(home, app) + ["include"]
    ensures LinkPath(home, app, "bin") != LinkPath(home, app, "include")
  {
    ParseJoin(GetHomeActiveDir(home, app), "bin");
    ParseJoin(GetHomeActiveDir(home, app), "include");
    var a := ActivePath(home, app);
    assert (a + ["bin"])[|a|] != (a + ["include"])[|a|];
  }

  /** A link can be put at `l`: its directory exists, and whatever is there
      already can be removed first (it is not a directory with contents). */
  ghost predicate Replaceable(t: Tree, l: Path)
  {
    l != [] && IsDir(t, Parent(l)) && !(l in t && t[l] == Dir && HasChildren(t, l))
  }

  /** The links ActivateVersion replaces, in its order. */
  const Subdirs: seq<string> := ["bin", "include"]

  /** The tree after the first `n` links point into `version`. */
  ghost function ActivatedUpTo(t: Tree, home: string, app: string, version: string, n: nat): Tree
    requires n <= |Subdirs|
  {
    if n == 0 then t
    else
      var d := Subdirs[n - 1];
      ActivatedUpTo(t, home, app, version, n - 1)[LinkPath(home, app, d) := Node.Symlink(LinkTarget(home, app, version, d))]
  }

  /** The tree with `active/bin` and `active/include` pointing into `version`. */
  ghost function Activated(t: Tree, home: string, app: string, version: string): Tree
  {
    t[LinkPath(home, app, "bin") := Node.Symlink(LinkTarget(home, app, version, "bin"))]
     [LinkPath(home, app, "include") := Node.Symlink(LinkTarget(home, app, version, "include"))]
  }

  /** The tree ActivateVersion leaves when it fails: `active/bin` is
      switched if it could be, `active/include` is as it was. */
  ghost function HalfActivated(t: Tree, home: string, app: string, version: string): Tree
  {
    if Replaceable(t, LinkPath(home, app, "bin"))
    then t[LinkPath(home, app, "bin") := Node.Symlink(LinkTarget(home, app, version, "bin"))]
    else t
  }

  lemma ActivatedUpToAll(t: Tree, home: string, app: string, version: string)
    ensures ActivatedUpTo(t, home, app, version, 1) ==
      t[LinkPath(home, app, "bin") := Node.Symlink(LinkTarget(home, app, version, "bin"))]
    ensures ActivatedUpTo(t, home, app, version, 2) == Activated(t, home, app, version)
  {
    assert Subdirs[0] == "bin" && Subdirs[1] == "include";
    assert ActivatedUpTo(t, home, app, version, 0) == t;
  }

  /** One pass of ActivateVersion's loop, for the link `active/<d>`: remove
      what is there, ignoring failure, then create the link into the
      version's directory. */
  method Relink(fs: FileSystem, versionDir: string, activeDir: string, d: string,
                ghost home: string, ghost app: string, ghost version: string)
    returns (r: Outcome)
    requires fs.Valid()
    requires versionDir == GetHomeVersionDir(home, app, version) && activeDir == GetHomeActiveDir(home, app)
    modifies fs
    ensures fs.Valid()
    ensures r.Pass? <==> Replaceable(old(fs.tree), LinkPath(home, app, d))
    ensures fs.tree == if r.Pass? then old(fs.tree)[LinkPath(home, app, d) := Node.Symlink(LinkTarget(home, app, version, d))]
                       else old(fs.tree)
  {
    var v := Join(versionDir, d);
    var l := Join(activeDir, d);
    ghost var t := fs.tree;
    ghost var p := Parse(l);
    if Exists(fs.tree, l) {
      var _ := fs.Remove(l);
    }
    if p != [] {
      assert Parent(p) in fs.tree <==> Parent(p) in t;
    }
    r := fs.Symlink(v, l);
    if r.Pass? {
      assert fs.tree == t[p := Node.Symlink(v)];
    }
  }

  /** Writing at `lb` keeps `li` replaceable or not when `lb` is neither
      `li`, nor its directory, nor below it. */
  lemma ReplaceableApart(t: Tree, lb: Path, li: Path, n: Node)
    requires li != [] && lb != li && lb != Parent(li) && !StrictlyUnder(lb, li)
    ensures Replaceable(t[lb := n], li) <==> Replaceable(t, li)
  {
    var t1 := t[lb := n];
    if HasChildren(t1, li) {
      var q :| q in t1 && StrictlyUnder(q, li);
      assert q in t;
    }
    if HasChildren(t, li) {
      var q :| q in t && StrictlyUnder(q, li);
      assert q in t1;
    }
  }

  /** Putting `active/bin` in place keeps `active/include` replaceable or not. */
  lemma ReplaceableAfterBin(t: Tree, home: string, app: string, n: Node)
    ensures Replaceable(t[LinkPath(home, app, "bin") := n], LinkPath(home, app, "include")) <==>
      Replaceable(t, LinkPath(home, app, "include"))
  {
    LinkPaths(home, app);
    var lb, li := LinkPath(home, app, "bin"), LinkPath(home, app, "include");
    assert lb[|lb| - 1] != li[|li| - 1];
    ReplaceableApart(t, lb, li, n);
  }

  /** ActivateVersion: replace `active/bin` then `active/include` with links
      into the version's directory.  A failure on the second link leaves the
      first one already switched. */
  method ActivateVersion(fs: FileSystem, home: string, app: string, version: string) returns (r: Outcome)
    requires fs.Valid()
    modifies fs
    ensures fs.Valid()
    ensures r.Pass? <==>
      Replaceable(old(fs.tree), LinkPath(home, app, "bin")) &&
      Replaceable(old(fs.tree), LinkPath(home, app, "include"))
    ensures fs.tree ==
      if r.Pass? then Activated(old(fs.tree), home, app, version)
      else HalfActivated(old(fs.tree), home, app, version)
  {
    ghost var t := fs.tree;
    ReplaceableAfterBin(t, home, app, Node.Symlink(LinkTarget(home, app, version, "bin")));
    ActivatedUpToAll(t, home, app, version);
    var versionDir := GetHomeVersionDir(home, app, version);
    var activeDir := GetHomeActiveDir(home, app);
    var dirs := Subdirs;
    for i := 0 to |dirs|
      invariant fs.Valid()
      invariant 0 < i ==> Replaceable(t, LinkPath(home, app, "bin"))
      invariant 1 < i ==> Replaceable(t, LinkPath(home, app, "include"))
      invariant fs.tree == ActivatedUpTo(t, home, app, version, i)
    {
      assert dirs[i] == if i == 0 then "bin" else "include";
      assert Replaceable(fs.tree, LinkPath(home, app, dirs[i])) <==> Replaceable(t, LinkPath(home, app, dirs[i]));
      var err := Relink(fs, versionDir, activeDir, dirs[i], home, app, version);
      if err.Fail? {
        return err;
      }
    }
    return Pass;
  }

  /** GetActiveVersion: the name of the directory two levels above the
      target of `active/bin`. */
  function GetActiveVersion(t: Tree, home: string, app: string): (r: Result<string>)
    ensures r.Ok? <==> LinkPath(home, app, "bin") in t && t[LinkPath(home, app, "bin")].Symlink?
    ensures r.Ok? ==> r.value == "." || r.value == "/" || IsSegment(r.value)
  {
    match Readlink(t, LinkName(home, app, "bin"))
    case Err(e) => Err(e)
    case Ok(l) =>
      BaseDirShape(l);
      Ok(Base(Paths.Dir(l)))
  }

  /** GetActiveVersion reads nothing but the entry at `active/bin`. */
  lemma SameActiveLink(t: Tree, u: Tree, home: string, app: string)
    requires LinkPath(home, app, "bin") in t <==> LinkPath(home, app, "bin") in u
    requires LinkPath(home, app, "bin") in t ==> t[LinkPath(home, app, "bin")] == u[LinkPath(home, app, "bin")]
    ensures GetActiveVersion(t, home, app) == GetActiveVersion(u, home, app)
  {
    assert Readlink(t, LinkName(home, app, "bin")) == Readlink(u, LinkName(home, app, "bin"));
  }

  /** IsActiveVersion: whether `version` is the one GetActiveVersion names;
      when there is no active link the error is passed on. */
  function IsActiveVersion(t: Tree, home: string, app: string, version: string): (r: Result<bool>)
    ensures r.Err? <==> !(LinkPath(home, app, "bin") in t && t[LinkPath(home, app, "bin")].Symlink?)
    ensures r == Ok(true) ==> version == "." || version == "/" || IsSegment(version)
  {
    match GetActiveVersion(t, home, app)
    case Err(e) => Err(e)
    case Ok(a) => Ok(a == version)
  }

  /** Reading back after activating a plainly named version gives that
      version. */
  lemma ActivateThenGet(t: Tree, home: string, app: string, version: string)
    requires IsSegment(version)
    ensures GetActiveVersion(Activated(t, home, app, version), home, app) == Ok(version)
  {
    LinkPaths(home, app);
    var lb := LinkPath(home, app, "bin");
    var target := LinkTarget(home, app, version, "bin");
    assert lb != LinkPath(home, app, "include");
    assert Activated(t, home, app, version)[lb] == Node.Symlink(target);
    var q := VersionsPath(home, app);
    JoinRender(GetHomeVersionDir(home, app, version), "bin");
    assert target == Render(q + [version] + ["bin"]);
    BaseOfDir(q, version, "bin");
  }

  /** After activating a plainly named version, exactly that version is
      active. */
  lemma ActivatedIsActive(t: Tree, home: string, app: string, version: string, other: string)
    requires IsSegment(version)
    ensures IsActiveVersion(Activated(t, home, app, version), home, app, other) == Ok(other == version)
  {
    ActivateThenGet(t, home, app, version);
  }

  /** Activation touches only the two links: nothing in `versions` changes. */
  lemma ActivationLeavesVersions(t: Tree, home: string, app: string, version: string)
    ensures forall q :: IsPrefix(VersionsPath(home, app), q) ==>
      (q in Activated(t, home, app, version) <==> q in t) &&
      (q in t ==> Activated(t, home, app, version)[q] == t[q])
  {
    LinkPaths(home, app);
    var h := Parse(GetHomeDir(home, app));
    assert LinkPath(home, app, "bin")[|h|] == "active";
    assert LinkPath(home, app, "include")[|h|] == "active";
    assert VersionsPath(home, app)[|h|] == "versions";
  }

  /** Activation, whole or failed half way, touches nothing outside
      `active`: every path not inside it, and the way to it, stays as it
      was. */
  lemma ActivationApart(t: Tree, home: string, app: string, version: string, q: Path)
    requires !IsPrefix(ActivePath(home, app), q)
    ensures AgreeAlong(t, Activated(t, home, app, version), q)
    ensures AgreeAlong(t, HalfActivated(t, home, app, version), q)
  {
    LinkPaths(home, app);
    var a, b, c := ActivePath(home, app), LinkPath(home, app, "bin"), LinkPath(home, app, "include");
    var u := t[b := Node.Symlink(LinkTarget(home, app, version, "bin"))];
    assert b[..|a|] == a && c[..|a|] == a;
    AgreeAlongUpdateInside(t, a, b, Node.Symlink(LinkTarget(home, app, version, "bin")), q);
    AgreeAlongUpdateInside(u, a, c, Node.Symlink(LinkTarget(home, app, version, "include")), q);
    if Replaceable(t, b) {
      assert HalfActivated(t, home, app, version) == u;
    } else {
      assert HalfActivated(t, home, app, version) == t;
    }
  }

  /** Activating one version and then another leaves the links as if only
      the second had been activated. */
  lemma ReactivateOverrides(t: Tree, home: string, app: string, v: string, o: string)
    ensures Activated(Activated(t, home, app, v), home, app, o) == Activated(t, home, app, o)
  {
    LinkPaths(home, app);
    assert LinkPath(home, app, "bin") != LinkPath(home, app, "include");
  }

  /** Once both links are in place they can be replaced again. */
  lemma ActivatedReplaceable(t: Tree, home: string, app: string, version: string)
    requires Replaceable(t, LinkPath(home, app, "bin")) && Replaceable(t, LinkPath(home, app, "include"))
    ensures var u := Activated(t, home, app, version);
      Replaceable(u, LinkPath(home, app, "bin")) && Replaceable(u, LinkPath(home, app, "include"))
  {
    LinkPaths(home, app);
    var lb, li := LinkPath(home, app, "bin"), LinkPath(home, app, "include");
    assert Parent(lb) == Parent(li) == ActivePath(home, app);
    assert lb != ActivePath(home, app) && li != ActivePath(home, app);
  }
}
