/** The guard sequences of the `delete`, `activate`, `run` and `install`
    commands of the `pbvm` tool. */
module Cli {
  import opened Errors
  import opened Strs
  import opened Paths
  import opened Fs
  import opened Layout
  import opened Assets
  import opened Archive
  import opened Activation
  import opened Install

  /** The application name: the home layout lives in `<home>/.pbvm`. */
  const PbName: string := "pbvm"

  /** The two output switches of a cobra command that `delete` turns on
      before reporting a refusal. */
  class Command {
    var silenceUsage: bool
    var silenceErrors: bool

    constructor ()
      ensures !silenceUsage && !silenceErrors
    {
      silenceUsage := false;
      silenceErrors := false;
    }
  }

  // ---------------------------------------------------------------------
  // delete

  /** The outcome of `delete`: refuse a version that is not installed,
      pass on a failure to read the active version, refuse the active
      version, and otherwise delete, passing on os.RemoveAll's failure on a
      blocked version path. */
  function DeleteOutcome(t: Tree, home: string, version: string): (r: Outcome)
    ensures r.Pass? ==> IsInstalledVersion(t, home, PbName, version).0
    ensures r.Pass? ==> IsActiveVersion(t, home, PbName, version) == Ok(false)
    ensures r.Pass? ==> VersionPath(home, PbName, version) in t
  {
    if !IsInstalledVersion(t, home, PbName, version).0 then Fail(NotInstalled(version))
    else
      match IsActiveVersion(t, home, PbName, version)
      case Err(e) => Fail(e)
      case Ok(active) =>
        if active then Fail(ActiveNow(version))
        else if !Exists(t, GetHomeVersionDir(home, PbName, version)) then Fail(NotDir(GetHomeVersionDir(home, PbName, version)))
        else Pass
  }

  /** `pbvm delete <version>`, as written. */
  method DeleteCommand(fs: FileSystem, cmd: Command, home: string, version: string) returns (r: Outcome)
    requires fs.Valid()
    modifies fs, cmd
    ensures fs.Valid()
    ensures r == DeleteOutcome(old(fs.tree), home, version)
    ensures fs.tree == if r.Pass? then Pruned(old(fs.tree), VersionPath(home, PbName, version)) else old(fs.tree)
    ensures r == Fail(NotInstalled(version)) || r == Fail(ActiveNow(version)) ==>
      cmd.silenceUsage && cmd.silenceErrors
    ensures !(r == Fail(NotInstalled(version)) || r == Fail(ActiveNow(version))) ==>
      cmd.silenceUsage == old(cmd.silenceUsage) && cmd.silenceErrors == old(cmd.silenceErrors)
  {
    var (installed, _) := IsInstalledVersion(fs.tree, home, PbName, version);
    if !installed {
      cmd.silenceUsage := true;
      cmd.silenceErrors := true;
      return Fail(NotInstalled(version));
    }
    var active := IsActiveVersion(fs.tree, home, PbName, version);
    if active.Err? {
      return Fail(active.error);
    }
    if active.value {
      cmd.silenceUsage := true;
      cmd.silenceErrors := true;
      return Fail(ActiveNow(version));
    }
    r := DeleteVersion(fs, home, PbName, version);
  }

  /** Deleting a plainly named version never takes the active one with it. */
  lemma DeleteSparesActive(t: Tree, home: string, version: string, active: string)
    requires IsSegment(version) && IsSegment(active)
    requires GetActiveVersion(t, home, PbName) == Ok(active)
    requires DeleteOutcome(t, home, version).Pass?
    ensures var u := Pruned(t, VersionPath(home, PbName, version));
      && (IsInstalledVersion(u, home, PbName, active).0 <==> IsInstalledVersion(t, home, PbName, active).0)
      && GetActiveVersion(u, home, PbName) == Ok(active)
  {
    DeleteOnlyThatVersion(t, home, PbName, version, active);
  }

  /** `pbvm delete .` passes every guard and removes the whole `versions`
      directory, the active version included. */
  lemma DeleteDotRemovesActive(t: Tree, home: string, active: string)
    requires WellFormed(t) && IsSegment(active)
    requires GetActiveVersion(t, home, PbName) == Ok(active)
    requires VersionsPath(home, PbName) + [active] in t
    ensures DeleteOutcome(t, home, ".") == Pass
    ensures !IsInstalledVersion(Pruned(t, VersionPath(home, PbName, ".")), home, PbName, active).0
  {
    var vs := VersionsPath(home, PbName);
    ParseSnoc(GetHomeVersionsDir(home, PbName), ".");
    ParseClean(GetHomeVersionsDir(home, PbName) + "/" + ".");
    assert VersionPath(home, PbName, ".") == vs;
    var h := Parse(GetHomeDir(home, PbName));
    assert vs == h + ["versions"];
    assert IsPrefix(vs, vs + [active]);
    PresentAbove(t, vs);
    PrunedMissing(t, vs);
    InstalledByName(Pruned(t, vs), home, PbName, active);
  }

  /** The decision `delete` should take: a version name that is not a single
      plain path element is refused before anything else. */
  function CheckedDeleteOutcome(t: Tree, home: string, version: string): (r: Outcome)
    ensures r.Pass? ==> IsSegment(version) && DeleteOutcome(t, home, version).Pass?
    ensures IsSegment(version) ==> r == DeleteOutcome(t, home, version)
  {
    if !IsSegment(version) then Fail(UnsafeVersion(version))
    else DeleteOutcome(t, home, version)
  }

  /** `pbvm delete <version>` with the version name checked first. */
  method CheckedDeleteCommand(fs: FileSystem, cmd: Command, home: string, version: string) returns (r: Outcome)
    requires fs.Valid()
    modifies fs, cmd
    ensures fs.Valid()
    ensures r == CheckedDeleteOutcome(old(fs.tree), home, version)
    ensures fs.tree == if r.Pass? then Pruned(old(fs.tree), VersionPath(home, PbName, version)) else old(fs.tree)
  {
    if !IsSegment(version) {
      return Fail(UnsafeVersion(version));
    }
    r := DeleteCommand(fs, cmd, home, version);
  }

  /** With the check, a successful delete removes exactly the named version:
      the active version stays installed and active, and so does every other
      version. */
  lemma CheckedDeleteSparesOthers(t: Tree, home: string, version: string, other: string)
    requires CheckedDeleteOutcome(t, home, version).Pass?
    requires IsSegment(other) && other != version
    ensures var u := Pruned(t, VersionPath(home, PbName, version));
      && (IsInstalledVersion(u, home, PbName, version).0 <==> Blocked(t, VersionsPath(home, PbName)))
      && (WellFormed(t) ==> !IsInstalledVersion(u, home, PbName, version).0)
      && (IsInstalledVersion(u, home, PbName, other).0 <==> IsInstalledVersion(t, home, PbName, other).0)
      && GetActiveVersion(u, home, PbName) == GetActiveVersion(t, home, PbName)
  {
    DeleteOnlyThatVersion(t, home, PbName, version, other);
    if WellFormed(t) {
      var vs, v := VersionsPath(home, PbName), VersionPath(home, PbName, version);
      VersionPathApart(home, PbName, version);
      Ancestors(t, v);
      assert v[..|vs|] == vs;
      ExistingDir(t, vs);
    }
  }

  /** With the check, the active version is never removed. */
  lemma CheckedDeleteSparesActive(t: Tree, home: string, version: string, active: string)
    requires GetActiveVersion(t, home, PbName) == Ok(active)
    requires CheckedDeleteOutcome(t, home, version).Pass?
    ensures var u := Pruned(t, VersionPath(home, PbName, version));
      (IsInstalledVersion(u, home, PbName, active).0 <==> IsInstalledVersion(t, home, PbName, active).0)
  {
    if IsSegment(active) {
      DeleteOnlyThatVersion(t, home, PbName, version, active);
    } else {
      var u := Pruned(t, VersionPath(home, PbName, version));
      var v, a := VersionPath(home, PbName, version), VersionPath(home, PbName, active);
      ActiveNameNotInside(home, version, active);
      PrunedOutside(t, v, a);
    }
  }

  /** A version directory is never an ancestor of the directory named by
      "." or "/", the two non-plain names the active link can yield. */
  lemma ActiveNameNotInside(home: string, version: string, active: string)
    requires IsSegment(version)
    requires active == "." || active == "/"
    ensures !IsPrefix(VersionPath(home, PbName, version), VersionPath(home, PbName, active))
  {
    var vs := VersionsPath(home, PbName);
    var d := GetHomeVersionsDir(home, PbName);
    if active == "." {
      ParseSnoc(d, ".");
    } else {
      assert d + "/" + "/" == (d + "/" + "") + "/" + "";
      ParseSnoc(d + "/" + "", "");
      ParseSnoc(d, "");
    }
    ParseClean(d + "/" + active);
  }

  // ---------------------------------------------------------------------
  // activate

  /** What `activate` prints for a version that is not installed. */
  function NotInstalledHint(version: string): string
  {
    "Version " + version + " is not installed.\nPlease, run: '" + PbName + " install " + version + "'\n"
  }

  /** Activating, in whole or half way, leaves every plainly named version
      installed or not as it was. */
  lemma ActivateKeepsInstalled(t: Tree, home: string, version: string, other: string)
    requires IsSegment(other)
    ensures IsInstalledVersion(Activated(t, home, PbName, version), home, PbName, other).0 <==>
      IsInstalledVersion(t, home, PbName, other).0
    ensures IsInstalledVersion(HalfActivated(t, home, PbName, version), home, PbName, other).0 <==>
      IsInstalledVersion(t, home, PbName, other).0
  {
    var w := VersionPath(home, PbName, other);
    VersionPathApart(home, PbName, other);
    ActivationApart(t, home, PbName, version, w);
    AgreeAlongBlocked(t, Activated(t, home, PbName, version), w);
    AgreeAlongBlocked(t, HalfActivated(t, home, PbName, version), w);
  }

  /** `pbvm activate <version>`: a version that is not installed gets a
      hint and nothing changes; otherwise its links are made, and a failure
      (a panic in the tool) is reported as the error. */
  method ActivateCommand(fs: FileSystem, home: string, version: string) returns (printed: string, r: Outcome)
    requires fs.Valid()
    modifies fs
    ensures fs.Valid()
    ensures !IsInstalledVersion(old(fs.tree), home, PbName, version).0 ==>
      printed == NotInstalledHint(version) && r == Pass && fs.tree == old(fs.tree)
    ensures IsInstalledVersion(old(fs.tree), home, PbName, version).0 ==> printed == ""
    ensures IsInstalledVersion(old(fs.tree), home, PbName, version).0 ==>
      (r.Pass? <==>
        Replaceable(old(fs.tree), LinkPath(home, PbName, "bin")) &&
        Replaceable(old(fs.tree), LinkPath(home, PbName, "include")))
    ensures IsInstalledVersion(old(fs.tree), home, PbName, version).0 && r.Pass? ==>
      fs.tree == Activated(old(fs.tree), home, PbName, version)
    ensures IsInstalledVersion(old(fs.tree), home, PbName, version).0 && r.Fail? ==>
      fs.tree == HalfActivated(old(fs.tree), home, PbName, version)
    ensures IsInstalledVersion(old(fs.tree), home, PbName, version).0 && r.Pass? && IsSegment(version) ==>
      GetActiveVersion(fs.tree, home, PbName) == Ok(version)
  {
    var (installed, _) := IsInstalledVersion(fs.tree, home, PbName, version);
    if !installed {
      return NotInstalledHint(version), Pass;
    }
    ghost var t := fs.tree;
    printed := "";
    r := ActivateVersion(fs, home, PbName, version);
    if r.Pass? && IsSegment(version) {
      ActivateThenGet(t, home, PbName, version);
    }
  }

  // ---------------------------------------------------------------------
  // run

  /** `pbvm run --version <version> <command>`: check the version, remember
      the active one, switch to the requested version, run the command (its
      outcome is the parameter `exec`) and switch back, ignoring a failure to
      switch back. */
  method RunCommand(fs: FileSystem, home: string, version: string, exec: Outcome) returns (r: Outcome)
    requires fs.Valid()
    modifies fs
    ensures fs.Valid()
    ensures ByteLen(version) < 5 ==> r == Fail(VersionIncorrect(version)) && fs.tree == old(fs.tree)
    ensures ByteLen(version) >= 5 && !IsInstalledVersion(old(fs.tree), home, PbName, version).0 ==>
      r == Fail(RunNotInstalled(version)) && fs.tree == old(fs.tree)
    ensures ByteLen(version) >= 5 && IsInstalledVersion(old(fs.tree), home, PbName, version).0 &&
            GetActiveVersion(old(fs.tree), home, PbName).Err? ==>
      r == Fail(GetActiveVersion(old(fs.tree), home, PbName).error) && fs.tree == old(fs.tree)
    ensures var t := old(fs.tree); var o := GetActiveVersion(t, home, PbName);
      ByteLen(version) >= 5 && IsInstalledVersion(t, home, PbName, version).0 && o.Ok? &&
      Replaceable(t, LinkPath(home, PbName, "bin")) && Replaceable(t, LinkPath(home, PbName, "include")) ==>
        r == exec && fs.tree == Activated(t, home, PbName, o.value)
    ensures var t := old(fs.tree); var o := GetActiveVersion(t, home, PbName);
      ByteLen(version) >= 5 && IsInstalledVersion(t, home, PbName, version).0 && o.Ok? &&
      !(Replaceable(t, LinkPath(home, PbName, "bin")) && Replaceable(t, LinkPath(home, PbName, "include"))) ==>
        r.Fail? && fs.tree == HalfActivated(t, home, PbName, version)
  {
    if ByteLen(version) < 5 {
      return Fail(VersionIncorrect(version));
    }
    var (installed, _) := IsInstalledVersion(fs.tree, home, PbName, version);
    if !installed {
      return Fail(RunNotInstalled(version));
    }
    var originVersion := GetActiveVersion(fs.tree, home, PbName);
    if originVersion.Err? {
      return Fail(originVersion.error);
    }
    ghost var t := fs.tree;
    var err := ActivateVersion(fs, home, PbName, version);
    if err.Fail? {
      return err;
    }
    ActivatedReplaceable(t, home, PbName, version);
    ReactivateOverrides(t, home, PbName, version, originVersion.value);
    r := exec;
    var _ := ActivateVersion(fs, home, PbName, originVersion.value);
  }

  /** When the links were made by activating a plainly named version, `run`
      reads that version back as the origin, and switching to any version
      and then back to the origin restores the tree exactly. */
  lemma RunRestoresLinks(t0: Tree, home: string, origin: string, version: string)
    requires IsSegment(origin)
    ensures var t := Activated(t0, home, PbName, origin);
      && GetActiveVersion(t, home, PbName) == Ok(origin)
      && Activated(Activated(t, home, PbName, version), home, PbName, origin) == t
  {
    var t := Activated(t0, home, PbName, origin);
    ActivateThenGet(t0, home, PbName, origin);
    ReactivateOverrides(t, home, PbName, version, origin);
    ReactivateOverrides(t0, home, PbName, origin, origin);
  }

  // ---------------------------------------------------------------------
  // install

  /** A GitHub release: its tag and its downloadable assets. */
  datatype Release = Release(tag: string, assets: seq<Asset>)

  /** `pbvm install <tag>`: look the release up (the lookup's answer is the
      parameter `release`), pick the asset for the host, download and unpack
      it unless the version is installed, and activate it.  Every failure
      (a panic in the tool) is reported as the error. */
  method InstallCommand(fs: FileSystem, home: string, tag: string, release: Option<Release>,
                        goarch: string, goos: string, fetch: Download,
                        unpack: seq<bv8> -> Option<seq<Entry>>)
    returns (r: Outcome)
    requires fs.Valid()
    modifies fs
    ensures fs.Valid()
    ensures release.None? ==> r == Fail(ReleaseNotFound(tag)) && fs.tree == old(fs.tree)
    ensures release.Some? && FirstSuitable(release.value.assets, GetArch(goarch), goos) == |release.value.assets| ==>
      r == Fail(NoSuitableAsset) && fs.tree == old(fs.tree)
    ensures r.Pass? ==> release.Some? && FirstSuitable(release.value.assets, GetArch(goarch), goos) < |release.value.assets|
    ensures var t1 := Prepared(old(fs.tree), HomeLayout(home, PbName), 4);
      r.Pass? && IsInstalledVersion(t1, home, PbName, tag).0 ==> fs.tree == Activated(t1, home, PbName, tag)
    ensures r.Pass? && IsSegment(tag) ==> GetActiveVersion(fs.tree, home, PbName) == Ok(tag)
    // the archive is that of the first asset suited to the host: fetched
    // into `tmp` when absent, used as it is when present
    ensures r.Pass? ==>
      var t1 := Prepared(old(fs.tree), HomeLayout(home, PbName), 4);
      var a := release.value.assets[FirstSuitable(release.value.assets, GetArch(goarch), goos)];
      var z := Parse(Join(GetHomeTmpDir(home, PbName), a.name));
      IsSegment(tag) && IsSegment(a.name) && !IsInstalledVersion(t1, home, PbName, tag).0 ==>
        && (z !in t1 ==> fetch.Delivered? && z in fs.tree && fs.tree[z] == File(fetch.body))
        && (z in t1 ==> z in fs.tree && fs.tree[z] == t1[z])
    // afterwards the version is installed, unless its archive had no members
    ensures r.Pass? ==>
      var a := release.value.assets[FirstSuitable(release.value.assets, GetArch(goarch), goos)];
      IsSegment(tag) && IsSegment(a.name) ==>
        IsInstalledVersion(fs.tree, home, PbName, tag).0 ||
        OpenArchive(fs.tree, Join(GetHomeTmpDir(home, PbName), a.name), unpack) == Some([])
    // whatever the outcome, nothing outside the version's directory, the
    // archive and `active` is changed or removed, and every other version
    // stays installed or not installed as it was
    ensures release.Some? && FirstSuitable(release.value.assets, GetArch(goarch), goos) < |release.value.assets| ==>
      var a := release.value.assets[FirstSuitable(release.value.assets, GetArch(goarch), goos)];
      var v, z := VersionPath(home, PbName, tag), Parse(Join(GetHomeTmpDir(home, PbName), a.name));
      forall q :: q in old(fs.tree) && !IsPrefix(v, q) && !IsPrefix(z, q) && !IsPrefix(ActivePath(home, PbName), q) ==>
        q in fs.tree && fs.tree[q] == old(fs.tree)[q]
    ensures release.Some? && FirstSuitable(release.value.assets, GetArch(goarch), goos) < |release.value.assets| ==>
      var a := release.value.assets[FirstSuitable(release.value.assets, GetArch(goarch), goos)];
      IsSegment(tag) && IsSegment(a.name) ==>
        forall other :: IsSegment(other) && other != tag ==>
          (IsInstalledVersion(fs.tree, home, PbName, other).0 <==> IsInstalledVersion(old(fs.tree), home, PbName, other).0)
  {
    ghost var t0 := fs.tree;
    if release.None? {
      return Fail(ReleaseNotFound(tag));
    }
    var asset := FilterAsset(release.value.assets, goarch, goos);
    if asset.None? {
      return Fail(NoSuitableAsset);
    }
    ghost var v, z := VersionPath(home, PbName, tag), Parse(Join(GetHomeTmpDir(home, PbName), asset.value.name));
    var downloaded, err := DownloadVersion(fs, home, PbName, tag, asset.value, fetch, unpack);
    ghost var t := fs.tree;
    if err.Fail? {
      return err;
    }
    err := ActivateVersion(fs, home, PbName, tag);
    forall q | q in t0 && !IsPrefix(v, q) && !IsPrefix(z, q) && !IsPrefix(ActivePath(home, PbName), q)
      ensures q in fs.tree && fs.tree[q] == t0[q]
    {
      ActivationApart(t, home, PbName, tag, q);
      AgreeAlongBlocked(t, fs.tree, q);
    }
    forall other | IsSegment(other)
      ensures IsInstalledVersion(fs.tree, home, PbName, other).0 <==> IsInstalledVersion(t, home, PbName, other).0
    {
      ActivateKeepsInstalled(t, home, tag, other);
    }
    if err.Fail? {
      return err;
    }
    if IsSegment(tag) {
      ActivateThenGet(t, home, PbName, tag);
      ActivateKeepsInstalled(t, home, tag, tag);
      if IsSegment(asset.value.name) {
        var z := Parse(Join(GetHomeTmpDir(home, PbName), asset.value.name));
        ArchiveApart(t, home, PbName, tag, asset.value.name, Dir);
        ActivationApart(t, home, PbName, tag, z);
        AgreeAlongBlocked(t, fs.tree, z);
      }
    }
    return Pass;
  }
}
