/** The version store below `<home>/.<app>`: preparing the layout, telling
    whether a version is installed, downloading and unpacking a version,
    listing the installed versions and deleting one. */
module Install {
  import opened Errors
  import opened Strs
  import opened Paths
  import opened Fs
  import opened Layout
  import opened Assets
  import opened Archive
  import opened Activation

  // ---------------------------------------------------------------------
  // PrepareHomeDir

  /** The position of the first directory of `dirs` that os.MkdirAll cannot
      create in `t`, or the length of `dirs` when it can create them all. */
  function FirstBlocked(t: Tree, dirs: seq<string>): (k: nat)
    ensures k <= |dirs|
    ensures k < |dirs| ==> Blocked(t, Parse(dirs[k]))
    decreases |dirs|
  {
    if dirs == [] then 0
    else if Blocked(t, Parse(dirs[0])) then 0
    else 1 + FirstBlocked(t, dirs[1..])
  }

  /** Every directory before the first blocked one can be created. */
  lemma {:induction false} BeforeFirstBlocked(t: Tree, dirs: seq<string>, j: nat)
    requires j < FirstBlocked(t, dirs)
    ensures !Blocked(t, Parse(dirs[j]))
    decreases |dirs|
  {
    if j > 0 {
      BeforeFirstBlocked(t, dirs[1..], j - 1);
      assert dirs[1..][j - 1] == dirs[j];
    }
  }

  /** The tree after creating the first `n` directories of `dirs` in order. */
  ghost function Prepared(t: Tree, dirs: seq<string>, n: nat): Tree
    requires n <= |dirs|
  {
    if n == 0 then t else WithDirs(Prepared(t, dirs, n - 1), Parse(dirs[n - 1]))
  }

  /** Creating directories blocks and unblocks nothing. */
  lemma {:induction false} PreparedBlocked(t: Tree, dirs: seq<string>, n: nat, q: Path)
    requires n <= |dirs|
    ensures Blocked(Prepared(t, dirs, n), q) <==> Blocked(t, q)
  {
    if n > 0 {
      PreparedBlocked(t, dirs, n - 1, q);
      BlockedAfterWithDirs(Prepared(t, dirs, n - 1), Parse(dirs[n - 1]), q);
    }
  }

  /** Creating directories that already exist changes nothing. */
  lemma {:induction false} PreparedExisting(t: Tree, dirs: seq<string>, n: nat)
    requires WellFormed(t) && n <= |dirs|
    requires forall j :: 0 <= j < n ==> IsDir(t, Parse(dirs[j]))
    ensures Prepared(t, dirs, n) == t
  {
    if n > 0 {
      var u := Prepared(t, dirs, n - 1);
      PreparedExisting(t, dirs, n - 1);
      ExistingDir(u, Parse(dirs[n - 1]));
    }
  }

  /** Once the first `n` directories could all be created, each of them is
      a directory. */
  lemma {:induction false} PreparedDir(t: Tree, dirs: seq<string>, n: nat, j: nat)
    requires j < n <= FirstBlocked(t, dirs)
    ensures IsDir(Prepared(t, dirs, n), Parse(dirs[j]))
  {
    var u, p := Prepared(t, dirs, n - 1), Parse(dirs[n - 1]);
    if j == n - 1 {
      BeforeFirstBlocked(t, dirs, j);
      PreparedBlocked(t, dirs, n - 1, p);
      WithDirsMakesDir(u, p);
    } else {
      PreparedDir(t, dirs, n - 1, j);
      WithDirsKeepsDir(u, p, Parse(dirs[j]));
    }
  }

  /** One pass of PrepareHomeDir's loop: os.MkdirAll on `dirs[i]`. */
  /** `u` is a well-formed tree reached by creating the first `i` of `dirs`,
      none of which was blocked. */
  ghost predicate PreparedUpTo(u: Tree, t: Tree, dirs: seq<string>, i: nat)
  {
    i <= FirstBlocked(t, dirs) && WellFormed(u) && u == Prepared(t, dirs, i)
  }

  method MkdirNext(fs: FileSystem, ghost t: Tree, dirs: seq<string>, i: nat) returns (r: Outcome)
    requires i < |dirs| && PreparedUpTo(fs.tree, t, dirs, i)
    modifies fs
    ensures r.Pass? ==> PreparedUpTo(fs.tree, t, dirs, i + 1)
    ensures r.Fail? ==> FirstBlocked(t, dirs) == i && PreparedUpTo(fs.tree, t, dirs, i)
  {
    PreparedBlocked(t, dirs, i, Parse(dirs[i]));
    if i < FirstBlocked(t, dirs) {
      BeforeFirstBlocked(t, dirs, i);
    }
    r := fs.MkdirAll(dirs[i]);
  }

  /** The loop of PrepareHomeDir: os.MkdirAll on each of `dirs` in order,
      stopping at the first failure. */
  method MkdirEach(fs: FileSystem, dirs: seq<string>) returns (r: Outcome)
    requires fs.Valid()
    modifies fs
    ensures fs.Valid()
    ensures var n := FirstBlocked(old(fs.tree), dirs);
      (r.Pass? <==> n == |dirs|) && fs.tree == Prepared(old(fs.tree), dirs, n)
  {
    ghost var t := fs.tree;
    for i := 0 to |dirs|
      invariant PreparedUpTo(fs.tree, t, dirs, i)
    {
      var err := MkdirNext(fs, t, dirs, i);
      if err.Fail? {
        return err;
      }
    }
    return Pass;
  }

  /** The application directory and its `tmp`, `versions` and `active` are
      all directories. */
  ghost predicate LaidOut(t: Tree, home: string, app: string)
  {
    && IsDir(t, Parse(GetHomeDir(home, app)))
    && IsDir(t, TmpPath(home, app))
    && IsDir(t, VersionsPath(home, app))
    && IsDir(t, ActivePath(home, app))
  }

  lemma LaidOutKept(t0: Tree, t: Tree, home: string, app: string)
    requires LaidOut(t0, home, app) && DirsKept(t0, t)
    ensures LaidOut(t, home, app)
  {
  }

  /** PrepareHomeDir: create the application directory, then `tmp`,
      `versions` and `active` inside it, stopping at the first failure. */
  method PrepareHomeDir(fs: FileSystem, home: string, app: string) returns (r: Outcome)
    requires fs.Valid()
    modifies fs
    ensures fs.Valid()
    ensures var n := FirstBlocked(old(fs.tree), HomeLayout(home, app));
      (r.Pass? <==> n == 4) && fs.tree == Prepared(old(fs.tree), HomeLayout(home, app), n)
    ensures r.Pass? ==> LaidOut(fs.tree, home, app)
  {
    ghost var t := fs.tree;
    r := MkdirEach(fs, HomeLayout(home, app));
    if r.Pass? {
      PreparedDir(t, HomeLayout(home, app), 4, 0);
      PreparedDir(t, HomeLayout(home, app), 4, 1);
      PreparedDir(t, HomeLayout(home, app), 4, 2);
      PreparedDir(t, HomeLayout(home, app), 4, 3);
    }
  }

  /** Preparing a home that is already laid out succeeds and changes
      nothing. */
  lemma PrepareIdempotent(t: Tree, home: string, app: string)
    requires WellFormed(t)
    requires LaidOut(t, home, app)
    ensures FirstBlocked(t, HomeLayout(home, app)) == 4
    ensures Prepared(t, HomeLayout(home, app), 4) == t
  {
    var dirs := HomeLayout(home, app);
    forall j | 0 <= j < 4 ensures IsDir(t, Parse(dirs[j])) && !Blocked(t, Parse(dirs[j])) {
      assert j == 0 || j == 1 || j == 2 || j == 3;
      ExistingDir(t, Parse(dirs[j]));
    }
    PreparedExisting(t, dirs, 4);
  }

  // ---------------------------------------------------------------------
  // IsInstalledVersion

  /** IsInstalledVersion: a version counts as installed unless os.Stat on
      its directory fails with "does not exist". A file or link on the way
      to it makes os.Stat fail otherwise, so the version then counts as
      installed too. The directory's text is returned beside the answer. */
  function IsInstalledVersion(t: Tree, home: string, app: string, version: string): (r: (bool, string))
    ensures r.1 == GetHomeVersionDir(home, app, version)
    ensures r.0 <==> VersionPath(home, app, version) in t || Blocked(t, VersionPath(home, app, version))
  {
    var versionDir := GetHomeVersionDir(home, app, version);
    (!StatNotExist(t, versionDir), versionDir)
  }

  /** A plainly named version is installed exactly when `versions` has an
      entry of that name or cannot be a directory; with `versions` a
      directory, exactly when the entry is there. */
  lemma InstalledByName(t: Tree, home: string, app: string, version: string)
    requires IsSegment(version)
    ensures IsInstalledVersion(t, home, app, version).0 <==>
      VersionsPath(home, app) + [version] in t || Blocked(t, VersionsPath(home, app))
    ensures WellFormed(t) && IsDir(t, VersionsPath(home, app)) ==>
      (IsInstalledVersion(t, home, app, version).0 <==> VersionsPath(home, app) + [version] in t)
  {
    BlockedSnoc(t, VersionsPath(home, app), version);
    if WellFormed(t) && IsDir(t, VersionsPath(home, app)) {
      ExistingDir(t, VersionsPath(home, app));
    }
  }

  // ---------------------------------------------------------------------
  // DownloadVersion

  /** The archive of a plainly named asset lies directly in `tmp`, apart
      from the directory of a plainly named version; once `tmp` is a
      directory nothing on the way to the archive blocks it. */
  lemma ArchiveApart(t: Tree, home: string, app: string, version: string, asset: string, n: Node)
    requires IsSegment(version) && IsSegment(asset)
    ensures var z := Parse(Join(GetHomeTmpDir(home, app), asset));
      var v := VersionPath(home, app, version);
      && z == TmpPath(home, app) + [asset]
      && !IsPrefix(z, v) && !IsPrefix(v, z) && !IsPrefix(ActivePath(home, app), z)
      && (Blocked(t[z := n], v) <==> Blocked(t, v))
      && (WellFormed(t) && IsDir(t, TmpPath(home, app)) ==> !Blocked(t, z) || z in t)
  {
    var z := Parse(Join(GetHomeTmpDir(home, app), asset));
    var v := VersionPath(home, app, version);
    ParseJoin(GetHomeTmpDir(home, app), asset);
    var h := Parse(GetHomeDir(home, app));
    assert z[|h|] == "tmp" && v[|h|] == "versions" && |z| == |v|;
    assert ActivePath(home, app)[|h|] == "active";
    forall i | 0 <= i <= |v| ensures v[..i] != z {
    }
    assert AgreeAlong(t, t[z := n], v);
    AgreeAlongBlocked(t, t[z := n], v);
    BlockedSnoc(t, TmpPath(home, app), asset);
    if WellFormed(t) && IsDir(t, TmpPath(home, app)) {
      ExistingDir(t, TmpPath(home, app));
    }
  }

  /** A directory PrepareHomeDir may create: one of the four layout
      directories or a directory above them. */
  ghost predicate OnLayout(home: string, app: string, q: Path)
  {
    || IsPrefix(q, TmpPath(home, app))
    || IsPrefix(q, VersionsPath(home, app))
    || IsPrefix(q, ActivePath(home, app))
  }

  /** What DownloadVersion may change between `t0` and `t`: the entries at
      or below the version's directory `v` and the archive `z`.  Every other
      entry of `t0` is kept, and every other new entry is a directory of
      the layout or one on the way to `v`. */
  ghost predicate DownloadFrame(t0: Tree, t: Tree, home: string, app: string, v: Path, z: Path)
  {
    && (forall q :: q in t0 && !IsPrefix(v, q) && !IsPrefix(z, q) ==> q in t && t[q] == t0[q])
    && (forall q :: q in t && q !in t0 && !IsPrefix(v, q) && !IsPrefix(z, q) ==>
          t[q] == Dir && (IsPrefix(q, v) || OnLayout(home, app, q)))
  }

  lemma DownloadFrameTrans(t0: Tree, t1: Tree, t2: Tree, home: string, app: string, v: Path, z: Path)
    requires DownloadFrame(t0, t1, home, app, v, z) && DownloadFrame(t1, t2, home, app, v, z)
    ensures DownloadFrame(t0, t2, home, app, v, z)
  {
  }

  /** Writing the archive, or writing nothing, stays within the frame. */
  lemma ArchiveFrame(t: Tree, u: Tree, home: string, app: string, v: Path, z: Path, n: Node)
    requires u == t || u == t[z := n]
    ensures DownloadFrame(t, u, home, app, v, z)
  {
  }

  /** Every directory above a layout directory is on the layout. */
  lemma LayoutPrefixes(home: string, app: string, j: nat, q: Path)
    requires j < 4 && IsPrefix(q, Parse(HomeLayout(home, app)[j]))
    ensures OnLayout(home, app, q)
  {
    if j == 0 {
      var h := Parse(GetHomeDir(home, app));
      assert (h + ["tmp"])[..|q|] == h[..|q|];
    }
  }

  /** Creating one directory of the layout stays within the frame. */
  lemma WithLayoutFrame(u: Tree, home: string, app: string, j: nat, v: Path, z: Path)
    requires j < 4
    ensures DownloadFrame(u, WithDirs(u, Parse(HomeLayout(home, app)[j])), home, app, v, z)
  {
    var p := Parse(HomeLayout(home, app)[j]);
    WithDirsShape(u, p);
    forall q | IsPrefix(q, p) ensures OnLayout(home, app, q) {
      LayoutPrefixes(home, app, j, q);
    }
  }

  /** Creating the directories of the layout stays within the frame. */
  lemma {:induction false} PreparedFrame(t: Tree, home: string, app: string, n: nat, v: Path, z: Path)
    requires n <= 4
    ensures DownloadFrame(t, Prepared(t, HomeLayout(home, app), n), home, app, v, z)
  {
    if n > 0 {
      var u := Prepared(t, HomeLayout(home, app), n - 1);
      var w := WithDirs(u, Parse(HomeLayout(home, app)[n - 1]));
      PreparedFrame(t, home, app, n - 1, v, z);
      WithLayoutFrame(u, home, app, n - 1, v, z);
      DownloadFrameTrans(t, u, w, home, app, v, z);
      assert Prepared(t, HomeLayout(home, app), n) == w;
    }
  }

  /** Unpacking into the version's directory stays within the frame. */
  lemma ChangedWithinFrame(t0: Tree, t: Tree, home: string, app: string, v: Path, z: Path)
    requires ChangedWithin(t0, t, v)
    ensures DownloadFrame(t0, t, home, app, v, z)
  {
  }

  /** Within the frame, a path off the version's directory and off the
      archive keeps its entry and whether it is blocked; away from the
      layout and from the way to `v` it is not created either. */
  lemma FrameKeeps(t0: Tree, t: Tree, home: string, app: string, v: Path, z: Path, q: Path)
    requires DownloadFrame(t0, t, home, app, v, z)
    requires !IsPrefix(v, q) && !IsPrefix(z, q)
    ensures q in t0 ==> q in t && t[q] == t0[q]
    ensures !IsPrefix(q, v) && !OnLayout(home, app, q) ==> (q in t <==> q in t0)
    ensures Blocked(t, q) <==> Blocked(t0, q)
  {
    forall i | 0 <= i <= |q|
      ensures !IsPrefix(v, q[..i]) && !IsPrefix(z, q[..i])
    {
      assert |v| <= i ==> q[..i][..|v|] == q[..|v|];
      assert |z| <= i ==> q[..i][..|z|] == q[..|z|];
    }
    if Blocked(t, q) {
      var i :| 0 <= i <= |q| && q[..i] in t && t[q[..i]] != Dir;
      assert q[..i] in t0;
    }
    if Blocked(t0, q) {
      var i :| 0 <= i <= |q| && q[..i] in t0 && t0[q[..i]] != Dir;
      assert q[..i] in t;
    }
  }

  /** Downloading a plainly named version leaves the active version as it
      was. */
  lemma DownloadKeepsActive(t0: Tree, t: Tree, home: string, app: string, version: string, asset: string)
    requires IsSegment(version) && IsSegment(asset)
    requires DownloadFrame(t0, t, home, app, VersionPath(home, app, version),
                           Parse(Join(GetHomeTmpDir(home, app), asset)))
    ensures GetActiveVersion(t, home, app) == GetActiveVersion(t0, home, app)
  {
    var v, z := VersionPath(home, app, version), Parse(Join(GetHomeTmpDir(home, app), asset));
    var b := LinkPath(home, app, "bin");
    var h := Parse(GetHomeDir(home, app));
    ArchiveApart(t0, home, app, version, asset, Dir);
    VersionPathApart(home, app, version);
    LinkPaths(home, app);
    assert b[|h|] == "active" && z[|h|] == "tmp" && v[|h|] == "versions";
    assert |b| == |v| == |h| + 2 && |TmpPath(home, app)| == |VersionsPath(home, app)| == |ActivePath(home, app)| == |h| + 1;
    assert !OnLayout(home, app, b) && !IsPrefix(b, v);
    FrameKeeps(t0, t, home, app, v, z, b);
    SameActiveLink(t, t0, home, app);
  }

  /** Downloading one plainly named version leaves every other one
      installed or not as it was. */
  lemma DownloadKeepsOther(t0: Tree, t: Tree, home: string, app: string, version: string, asset: string,
                           other: string)
    requires IsSegment(version) && IsSegment(asset) && IsSegment(other) && other != version
    requires DownloadFrame(t0, t, home, app, VersionPath(home, app, version),
                           Parse(Join(GetHomeTmpDir(home, app), asset)))
    ensures IsInstalledVersion(t, home, app, other).0 <==> IsInstalledVersion(t0, home, app, other).0
  {
    var v, z := VersionPath(home, app, version), Parse(Join(GetHomeTmpDir(home, app), asset));
    var w := VersionPath(home, app, other);
    var h := Parse(GetHomeDir(home, app));
    ArchiveApart(t0, home, app, version, asset, Dir);
    VersionPathApart(home, app, version);
    VersionPathApart(home, app, other);
    assert w[|h|] == "versions" && z[|h|] == "tmp";
    assert w[|w| - 1] == other && v[|v| - 1] == version;
    FrameKeeps(t0, t, home, app, v, z, w);
  }

  /** The archive step of DownloadVersion: download into `tmp` only when
      os.Stat reports that nothing of the asset's name is there. */
  method FetchArchive(fs: FileSystem, home: string, app: string, asset: Asset, fetch: Download)
    returns (r: Outcome)
    requires fs.Valid()
    modifies fs
    ensures fs.Valid()
    ensures DirsKept(old(fs.tree), fs.tree)
    ensures var zip := Join(GetHomeTmpDir(home, app), asset.name);
      r.Fail? <==> StatNotExist(old(fs.tree), zip) && !(fetch.Delivered? && Writable(old(fs.tree), Parse(zip)))
    ensures var zip := Join(GetHomeTmpDir(home, app), asset.name);
      fs.tree ==
        if StatNotExist(old(fs.tree), zip) && !fetch.Unreachable? && Writable(old(fs.tree), Parse(zip))
        then old(fs.tree)[Parse(zip) := File(Received(fetch))]
        else old(fs.tree)
  {
    var zipLocal := Join(GetHomeTmpDir(home, app), asset.name);
    if StatNotExist(fs.tree, zipLocal) {
      r := DownloadFile(fs, asset.url, zipLocal, fetch);
    } else {
      r := Pass;
    }
  }

  /** The unpacking step of DownloadVersion: Unzip of the archive in `tmp`
      into the version's directory. */
  method UnpackVersion(fs: FileSystem, home: string, app: string, version: string, asset: Asset,
                       unpack: seq<bv8> -> Option<seq<Entry>>)
    returns (r: Outcome)
    requires fs.Valid()
    modifies fs
    ensures fs.Valid()
    ensures ChangedWithin(old(fs.tree), fs.tree, VersionPath(home, app, version))
    ensures var z := Parse(Join(GetHomeTmpDir(home, app), asset.name));
      IsSegment(version) && IsSegment(asset.name) && z in old(fs.tree) ==>
        z in fs.tree && fs.tree[z] == old(fs.tree)[z]
    ensures r.Pass? && IsSegment(version) && IsSegment(asset.name) ==>
      var a := OpenArchive(fs.tree, Join(GetHomeTmpDir(home, app), asset.name), unpack);
      && a.Some?
      && FilesWritten(a.value, GetHomeVersionDir(home, app, version), |a.value|, fs.tree)
      && (!Blocked(old(fs.tree), VersionPath(home, app, version)) ==>
            IsDir(fs.tree, VersionPath(home, app, version)) || a.value == [])
  {
    ghost var t2 := fs.tree;
    ghost var z := Parse(Join(GetHomeTmpDir(home, app), asset.name));
    if IsSegment(version) && IsSegment(asset.name) {
      ArchiveApart(t2, home, app, version, asset.name, Dir);
    }
    var names;
    names, r := Unzip(fs, Join(GetHomeTmpDir(home, app), asset.name), GetHomeVersionDir(home, app, version), unpack);
    if IsSegment(version) && IsSegment(asset.name) {
      assert z in t2 ==> z in fs.tree && fs.tree[z] == t2[z];
    }
  }

  /** The branch of DownloadVersion for a version that is not installed,
      run once the layout exists: fetch the archive into `tmp` unless
      os.Stat finds something of that name there, then unpack it into the
      version's directory. */
  method FetchAndUnpack(fs: FileSystem, home: string, app: string, version: string, asset: Asset,
                        fetch: Download, unpack: seq<bv8> -> Option<seq<Entry>>)
    returns (r: Outcome)
    requires fs.Valid()
    requires LaidOut(fs.tree, home, app)
    requires !IsInstalledVersion(fs.tree, home, app, version).0
    modifies fs
    ensures fs.Valid()
    ensures r.Pass? ==> LaidOut(fs.tree, home, app)
    ensures DownloadFrame(old(fs.tree), fs.tree, home, app, VersionPath(home, app, version),
                          Parse(Join(GetHomeTmpDir(home, app), asset.name)))
    ensures var zip := Join(GetHomeTmpDir(home, app), asset.name);
      StatNotExist(old(fs.tree), zip) && !(fetch.Delivered? && Writable(old(fs.tree), Parse(zip))) ==> r.Fail?
    ensures var z := Parse(Join(GetHomeTmpDir(home, app), asset.name));
      r.Pass? && IsSegment(version) && IsSegment(asset.name) && z !in old(fs.tree) ==>
        fetch.Delivered? && z in fs.tree && fs.tree[z] == File(fetch.body)
    ensures var z := Parse(Join(GetHomeTmpDir(home, app), asset.name));
      IsSegment(version) && IsSegment(asset.name) && z in old(fs.tree) ==>
        z in fs.tree && fs.tree[z] == old(fs.tree)[z]
    ensures r.Pass? && IsSegment(version) && IsSegment(asset.name) ==>
      var a := OpenArchive(fs.tree, Join(GetHomeTmpDir(home, app), asset.name), unpack);
      && a.Some?
      && FilesWritten(a.value, GetHomeVersionDir(home, app, version), |a.value|, fs.tree)
      && (IsDir(fs.tree, VersionPath(home, app, version)) || a.value == [])
  {
    ghost var t1 := fs.tree;
    ghost var segs := IsSegment(version) && IsSegment(asset.name);
    ghost var z := Parse(Join(GetHomeTmpDir(home, app), asset.name));
    if segs {
      ArchiveApart(t1, home, app, version, asset.name, Dir);
    }
    r := FetchArchive(fs, home, app, asset, fetch);
    ghost var t2 := fs.tree;
    ghost var n := if fetch.Unreachable? then Dir else File(Received(fetch));
    ArchiveFrame(t1, t2, home, app, VersionPath(home, app, version), z, n);
    if r.Fail? {
      return;
    }
    if segs && fs.tree != t1 {
      ArchiveApart(t1, home, app, version, asset.name, File(fetch.body));
    }
    LaidOutKept(t1, t2, home, app);
    r := UnpackVersion(fs, home, app, version, asset, unpack);
    LaidOutKept(t2, fs.tree, home, app);
    ChangedWithinFrame(t2, fs.tree, home, app, VersionPath(home, app, version), z);
    DownloadFrameTrans(t1, t2, fs.tree, home, app, VersionPath(home, app, version), z);
  }

  /** DownloadVersion: prepare the layout; when the version is not yet
      installed, download its archive into `tmp` unless a file of that name
      is already there, and unpack it into the version's directory.  The
      first result says whether anything was unpacked. */
  method DownloadVersion(fs: FileSystem, home: string, app: string, version: string, asset: Asset,
                         fetch: Download, unpack: seq<bv8> -> Option<seq<Entry>>)
    returns (downloaded: bool, r: Outcome)
    requires fs.Valid()
    modifies fs
    ensures fs.Valid()
    ensures downloaded ==> r.Pass?
    ensures var n := FirstBlocked(old(fs.tree), HomeLayout(home, app));
      n < 4 ==> !downloaded && r.Fail? && fs.tree == Prepared(old(fs.tree), HomeLayout(home, app), n)
    ensures r.Pass? ==> LaidOut(fs.tree, home, app)
    // nothing changes but the layout, the version's directory and the archive
    ensures DownloadFrame(old(fs.tree), fs.tree, home, app, VersionPath(home, app, version),
                          Parse(Join(GetHomeTmpDir(home, app), asset.name)))
    ensures IsSegment(version) && IsSegment(asset.name) ==>
      GetActiveVersion(fs.tree, home, app) == GetActiveVersion(old(fs.tree), home, app)
    ensures IsSegment(version) && IsSegment(asset.name) ==>
      forall other :: IsSegment(other) && other != version ==>
        (IsInstalledVersion(fs.tree, home, app, other).0 <==> IsInstalledVersion(old(fs.tree), home, app, other).0)
    // already installed: nothing beyond the layout changes
    ensures var t1 := Prepared(old(fs.tree), HomeLayout(home, app), 4);
      FirstBlocked(old(fs.tree), HomeLayout(home, app)) == 4 && IsInstalledVersion(t1, home, app, version).0 ==>
        !downloaded && r.Pass? && fs.tree == t1
    // not installed: success means unpacked
    ensures var t1 := Prepared(old(fs.tree), HomeLayout(home, app), 4);
      FirstBlocked(old(fs.tree), HomeLayout(home, app)) == 4 && !IsInstalledVersion(t1, home, app, version).0 ==>
        (r.Pass? <==> downloaded)
    ensures downloaded ==> !IsInstalledVersion(Prepared(old(fs.tree), HomeLayout(home, app), 4), home, app, version).0
    // no archive in `tmp` yet: it is fetched, and a failed fetch fails the call
    ensures var t1 := Prepared(old(fs.tree), HomeLayout(home, app), 4);
      var zip := Join(GetHomeTmpDir(home, app), asset.name);
      FirstBlocked(old(fs.tree), HomeLayout(home, app)) == 4 && !IsInstalledVersion(t1, home, app, version).0 &&
      StatNotExist(t1, zip) && !(fetch.Delivered? && Writable(t1, Parse(zip))) ==>
        !downloaded && r.Fail?
    ensures var t1 := Prepared(old(fs.tree), HomeLayout(home, app), 4);
      var z := Parse(Join(GetHomeTmpDir(home, app), asset.name));
      downloaded && IsSegment(version) && IsSegment(asset.name) && z !in t1 ==>
        fetch.Delivered? && z in fs.tree && fs.tree[z] == File(fetch.body)
    // an archive already in `tmp` is used as it is
    ensures var t1 := Prepared(old(fs.tree), HomeLayout(home, app), 4);
      var z := Parse(Join(GetHomeTmpDir(home, app), asset.name));
      FirstBlocked(old(fs.tree), HomeLayout(home, app)) == 4 && IsSegment(version) && IsSegment(asset.name) && z in t1 ==>
        z in fs.tree && fs.tree[z] == t1[z]
    // what was unpacked: every member of the archive, the last write of a name winning
    ensures downloaded && IsSegment(version) && IsSegment(asset.name) ==>
      var a := OpenArchive(fs.tree, Join(GetHomeTmpDir(home, app), asset.name), unpack);
      && a.Some?
      && FilesWritten(a.value, GetHomeVersionDir(home, app, version), |a.value|, fs.tree)
      && (IsDir(fs.tree, VersionPath(home, app, version)) || a.value == [])
  {
    ghost var t0 := fs.tree;
    ghost var v, z := VersionPath(home, app, version), Parse(Join(GetHomeTmpDir(home, app), asset.name));
    PreparedFrame(t0, home, app, FirstBlocked(t0, HomeLayout(home, app)), v, z);
    r := PrepareHomeDir(fs, home, app);
    if r.Fail? {
      downloaded := false;
    } else {
      ghost var t1 := fs.tree;
      var (installed, versionDir) := IsInstalledVersion(fs.tree, home, app, version);
      if !installed {
        r := FetchAndUnpack(fs, home, app, version, asset, fetch, unpack);
        DownloadFrameTrans(t0, t1, fs.tree, home, app, v, z);
        downloaded := r.Pass?;
      } else {
        downloaded, r := false, Pass;
      }
    }
    if IsSegment(version) && IsSegment(asset.name) {
      DownloadKeepsActive(t0, fs.tree, home, app, version, asset.name);
      forall other | IsSegment(other) && other != version
        ensures IsInstalledVersion(fs.tree, home, app, other).0 <==> IsInstalledVersion(t0, home, app, other).0
      {
        DownloadKeepsOther(t0, fs.tree, home, app, version, asset.name, other);
      }
    }
  }

  // ---------------------------------------------------------------------
  // ListInstalledVersions

  /** One line of the installed-versions listing. */
  datatype InstalledVersion = InstalledVersion(version: string, active: bool)

  function VersionNames(rs: seq<InstalledVersion>): (names: seq<string>)
    ensures |names| == |rs|
    ensures forall i :: 0 <= i < |rs| ==> names[i] == rs[i].version
  {
    seq(|rs|, i requires 0 <= i < |rs| => rs[i].version)
  }

  /** Strictly descending: the order sort.Slice with `>` gives distinct
      names. */
  predicate Descending(s: seq<string>)
  {
    forall i, j :: 0 <= i < j < |s| ==> Less(s[j], s[i])
  }

  /** Insert a new name into a descending list. */
  function InsertDesc(s: seq<string>, x: string): (r: seq<string>)
    requires Descending(s) && x !in s
    ensures Descending(r)
    ensures forall y :: y in r <==> y in s || y == x
    decreases |s|
  {
    if s == [] then [x]
    else if Less(s[0], x) then
      assert forall j :: 0 <= j < |s| ==> Less(s[j], x) by {
        forall j | 0 <= j < |s| ensures Less(s[j], x) {
          if j > 0 {
            LessTransitive(s[j], s[0], x);
          }
        }
      }
      [x] + s
    else
      LessTotal(x, s[0]);
      var rest := InsertDesc(s[1..], x);
      assert forall y :: y in rest ==> Less(y, s[0]) by {
        forall y | y in rest ensures Less(y, s[0]) {
          if y != x {
            var j :| 1 <= j < |s| && s[j] == y;
          }
        }
      }
      [s[0]] + rest
  }

  /** The sort step: the names of a directory in strictly descending order. */
  method SortDesc(names: set<string>) returns (s: seq<string>)
    ensures Descending(s)
    ensures forall n :: n in s <==> n in names
  {
    s := [];
    var rest := names;
    while rest != {}
      invariant Descending(s)
      invariant rest <= names
      invariant forall n :: n in s <==> n in names && n !in rest
      decreases rest
    {
      var n :| n in rest;
      s := InsertDesc(s, n);
      rest := rest - {n};
    }
  }

  /** Some version directory exists. */
  ghost predicate AnyVersionDir(t: Tree, home: string, app: string)
  {
    exists n :: IsDir(t, VersionsPath(home, app) + [n])
  }

  /** The names of `s` that are directories in `vs`, in the order of `s`. */
  ghost function DirsOf(t: Tree, vs: Path, s: seq<string>): seq<string>
    decreases |s|
  {
    if s == [] then []
    else
      var last := s[|s| - 1];
      DirsOf(t, vs, s[..|s| - 1]) + (if IsDir(t, vs + [last]) then [last] else [])
  }

  lemma DirsOfSnoc(t: Tree, vs: Path, s: seq<string>, i: int)
    requires 0 <= i < |s|
    ensures DirsOf(t, vs, s[..i + 1]) == DirsOf(t, vs, s[..i]) + (if IsDir(t, vs + [s[i]]) then [s[i]] else [])
  {
    assert s[..i + 1][..i] == s[..i];
  }

  lemma VersionNamesSnoc(rs: seq<InstalledVersion>, x: InstalledVersion)
    ensures VersionNames(rs + [x]) == VersionNames(rs) + [x.version]
  {
  }

  lemma {:induction false} DirsOfMembers(t: Tree, vs: Path, s: seq<string>)
    ensures forall n :: n in DirsOf(t, vs, s) <==> n in s && IsDir(t, vs + [n])
    decreases |s|
  {
    if s != [] {
      var init := s[..|s| - 1];
      DirsOfMembers(t, vs, init);
      assert s == init + [s[|s| - 1]];
    }
  }

  /** Keeping some names of a descending list keeps it descending. */
  lemma {:induction false} DirsOfDescending(t: Tree, vs: Path, s: seq<string>)
    requires Descending(s)
    ensures Descending(DirsOf(t, vs, s))
    decreases |s|
  {
    if s != [] {
      var init, last := s[..|s| - 1], s[|s| - 1];
      DirsOfDescending(t, vs, init);
      DirsOfMembers(t, vs, init);
      var d := DirsOf(t, vs, init);
      forall x | x in d ensures Less(last, x) {
        var k :| 0 <= k < |init| && init[k] == x;
      }
    }
  }

  /** The loop of ListInstalledVersions over the sorted names of
      `versions`: keep the directories, flagging the active one, and stop at
      the first failure to read the active version. */
  method CollectVersions(t: Tree, home: string, app: string, names: seq<string>)
    returns (r: Result<seq<InstalledVersion>>)
    requires Descending(names)
    ensures r.Err? <==>
      GetActiveVersion(t, home, app).Err? && exists n :: n in names && IsDir(t, VersionsPath(home, app) + [n])
    ensures r.Ok? ==> Descending(VersionNames(r.value))
    ensures r.Ok? ==> forall n :: n in VersionNames(r.value) <==> n in names && IsDir(t, VersionsPath(home, app) + [n])
    ensures r.Ok? ==> forall i :: 0 <= i < |r.value| ==>
      (r.value[i].active <==> GetActiveVersion(t, home, app) == Ok(r.value[i].version))
  {
    ghost var vs := VersionsPath(home, app);
    ghost var g := GetActiveVersion(t, home, app);
    var versionsDir := GetHomeVersionsDir(home, app);
    var res: seq<InstalledVersion> := [];
    for i := 0 to |names|
      invariant VersionNames(res) == DirsOf(t, vs, names[..i])
      invariant forall a :: 0 <= a < |res| ==> (res[a].active <==> g == Ok(res[a].version))
      invariant res != [] ==> g.Ok?
    {
      DirsOfSnoc(t, vs, names, i);
      var f := names[i];
      if !IsDir(t, Parse(versionsDir) + [f]) {
        continue;
      }
      var active := IsActiveVersion(t, home, app, f);
      if active.Err? {
        assert f in names && IsDir(t, vs + [f]);
        return Err(active.error);
      }
      assert active.value <==> g == Ok(f);
      VersionNamesSnoc(res, InstalledVersion(f, active.value));
      res := res + [InstalledVersion(f, active.value)];
    }
    assert names[..|names|] == names;
    DirsOfMembers(t, vs, names);
    DirsOfDescending(t, vs, names);
    assert forall n :: n in names && IsDir(t, vs + [n]) ==> n in VersionNames(res);
    return Ok(res);
  }

  /** ListInstalledVersions: the directories in `versions`, by name in
      descending order, each flagged when it is the active version.  A
      missing `versions` lists nothing; a version directory with no active
      link is an error. */
  method ListInstalledVersions(fs: FileSystem, home: string, app: string) returns (r: Result<seq<InstalledVersion>>)
    requires fs.Valid()
    ensures StatNotExist(fs.tree, GetHomeVersionsDir(home, app)) ==> r == Ok([])
    ensures r.Err? <==>
      Blocked(fs.tree, VersionsPath(home, app)) ||
      (IsDir(fs.tree, VersionsPath(home, app)) &&
       GetActiveVersion(fs.tree, home, app).Err? && AnyVersionDir(fs.tree, home, app))
    ensures r.Ok? ==> Descending(VersionNames(r.value))
    ensures r.Ok? ==> forall n :: n in VersionNames(r.value) <==> IsDir(fs.tree, VersionsPath(home, app) + [n])
    ensures r.Ok? ==> forall i :: 0 <= i < |r.value| ==>
      (r.value[i].active <==> GetActiveVersion(fs.tree, home, app) == Ok(r.value[i].version))
  {
    var versionsDir := GetHomeVersionsDir(home, app);
    ghost var vs := VersionsPath(home, app);
    if StatNotExist(fs.tree, versionsDir) {
      PresentAbove(fs.tree, vs);
      return Ok([]);
    }
    var files := ReadDir(fs.tree, versionsDir);
    if files.Err? {
      assert vs[..|vs|] == vs;
      return Err(files.error);
    }
    ExistingDir(fs.tree, vs);
    var names := SortDesc(files.value.Keys);
    assert forall n :: IsDir(fs.tree, vs + [n]) ==> n in names;
    r := CollectVersions(fs.tree, home, app, names);
  }

  /** At most one listed version is flagged active. */
  lemma OneActive(rs: seq<InstalledVersion>, t: Tree, home: string, app: string, i: int, j: int)
    requires Descending(VersionNames(rs))
    requires forall k :: 0 <= k < |rs| ==> (rs[k].active <==> GetActiveVersion(t, home, app) == Ok(rs[k].version))
    requires 0 <= i < |rs| && 0 <= j < |rs| && rs[i].active && rs[j].active
    ensures i == j
  {
    assert rs[i].version == rs[j].version;
    LessIrreflexive(rs[i].version);
  }

  // ---------------------------------------------------------------------
  // DeleteVersion

  /** DeleteVersion: remove the version's directory and everything in it;
      the only failure is os.RemoveAll's, on a missing directory that a
      file or link on the way blocks. */
  method DeleteVersion(fs: FileSystem, home: string, app: string, version: string) returns (r: Outcome)
    requires fs.Valid()
    modifies fs
    ensures fs.Valid()
    ensures r.Fail? <==>
      VersionPath(home, app, version) !in old(fs.tree) && Blocked(old(fs.tree), VersionPath(home, app, version))
    ensures r.Fail? ==> r == Fail(NotDir(GetHomeVersionDir(home, app, version)))
    ensures fs.tree == if r.Pass? then Pruned(old(fs.tree), VersionPath(home, app, version)) else old(fs.tree)
  {
    var versionDir := GetHomeVersionDir(home, app, version);
    r := fs.RemoveAll(versionDir);
  }

  /** Deleting a plainly named version leaves the active link as it was. */
  lemma DeleteKeepsActive(t: Tree, home: string, app: string, version: string)
    requires IsSegment(version)
    ensures GetActiveVersion(Pruned(t, VersionPath(home, app, version)), home, app) == GetActiveVersion(t, home, app)
  {
    var v := VersionPath(home, app, version);
    var l := LinkPath(home, app, "bin");
    LinkPaths(home, app);
    var h := Parse(GetHomeDir(home, app));
    assert l[|h|] == "active" && v[|h|] == "versions" && |l| == |v|;
    assert !IsPrefix(v, l);
    PrunedOutside(t, v, l);
  }

  /** Deleting a plainly named version leaves every other plainly named
      version installed or not as it was. */
  lemma DeleteKeepsOther(t: Tree, home: string, app: string, version: string, other: string)
    requires IsSegment(version) && IsSegment(other) && other != version
    ensures IsInstalledVersion(Pruned(t, VersionPath(home, app, version)), home, app, other).0 <==>
      IsInstalledVersion(t, home, app, other).0
  {
    var v, w := VersionPath(home, app, version), VersionPath(home, app, other);
    VersionPathApart(home, app, version);
    VersionPathApart(home, app, other);
    assert v[|v| - 1] == version && w[|w| - 1] == other && |v| == |w|;
    assert !IsPrefix(v, w);
    PrunedOutside(t, v, w);
  }

  /** After deleting a plainly named version it is no longer installed,
      unless `versions` itself is blocked. */
  lemma DeleteRemovesVersion(t: Tree, home: string, app: string, version: string)
    requires IsSegment(version)
    ensures IsInstalledVersion(Pruned(t, VersionPath(home, app, version)), home, app, version).0 <==>
      Blocked(t, VersionsPath(home, app))
  {
    var v, vs := VersionPath(home, app, version), VersionsPath(home, app);
    VersionPathApart(home, app, version);
    assert !IsPrefix(v, vs);
    PrunedOutside(t, v, vs);
    assert v !in Pruned(t, v);
    InstalledByName(Pruned(t, v), home, app, version);
  }

  /** After deleting a plainly named version it is no longer installed
      (unless `versions` itself is blocked, when every version counts as
      installed), every other plainly named version is installed as
      before, and the active links are untouched. */
  lemma DeleteOnlyThatVersion(t: Tree, home: string, app: string, version: string, other: string)
    requires IsSegment(version) && IsSegment(other) && other != version
    ensures var u := Pruned(t, VersionPath(home, app, version));
      && (IsInstalledVersion(u, home, app, version).0 <==> Blocked(t, VersionsPath(home, app)))
      && (IsInstalledVersion(u, home, app, other).0 <==> IsInstalledVersion(t, home, app, other).0)
      && GetActiveVersion(u, home, app) == GetActiveVersion(t, home, app)
  {
    DeleteRemovesVersion(t, home, app, version);
    DeleteKeepsOther(t, home, app, version, other);
    DeleteKeepsActive(t, home, app, version);
  }
}
