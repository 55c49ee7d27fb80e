/** The fixed directory layout below the user's home directory:
    `<home>/.<app>/{versions/<version>, tmp, active}`. */
module Layout {
  import opened Paths

  /** GetHomeDir: the application's root, `<home>/.<app>`. */
  function GetHomeDir(home: string, app: string): (r: string)
    ensures IsSegment("." + app) ==> Parse(r) == Parse(home) + ["." + app]
  {
    ParseJoinAny(home, "." + app);
    Join(home, "." + app)
  }

  /** GetHomeVersionsDir: where every installed version has its directory. */
  function GetHomeVersionsDir(home: string, app: string): (r: string)
    ensures Parse(r) == Parse(GetHomeDir(home, app)) + ["versions"]
  {
    ParseJoin(GetHomeDir(home, app), "versions");
    Join(GetHomeDir(home, app), "versions")
  }

  /** GetHomeVersionDir: the directory of one version, named verbatim. */
  function GetHomeVersionDir(home: string, app: string, version: string): (r: string)
    ensures IsSegment(version) ==> Parse(r) == Parse(GetHomeVersionsDir(home, app)) + [version]
  {
    ParseJoinAny(GetHomeVersionsDir(home, app), version);
    Join(GetHomeVersionsDir(home, app), version)
  }

  /** GetHomeTmpDir: the cache of downloaded archives. */
  function GetHomeTmpDir(home: string, app: string): (r: string)
    ensures Parse(r) == Parse(GetHomeDir(home, app)) + ["tmp"]
  {
    ParseJoin(GetHomeDir(home, app), "tmp");
    Join(GetHomeDir(home, app), "tmp")
  }

  /** GetHomeActiveDir: holds the `bin` and `include` links. */
  function GetHomeActiveDir(home: string, app: string): (r: string)
    ensures Parse(r) == Parse(GetHomeDir(home, app)) + ["active"]
  {
    ParseJoin(GetHomeDir(home, app), "active");
    Join(GetHomeDir(home, app), "active")
  }

  /** The directories PrepareHomeDir creates, in its order. */
  function HomeLayout(home: string, app: string): seq<string>
  {
    [GetHomeDir(home, app), GetHomeTmpDir(home, app), GetHomeVersionsDir(home, app), GetHomeActiveDir(home, app)]
  }

  ghost function VersionsPath(home: string, app: string): Path
  {
    Parse(GetHomeVersionsDir(home, app))
  }

  ghost function VersionPath(home: string, app: string, version: string): Path
  {
    Parse(GetHomeVersionDir(home, app, version))
  }

  ghost function ActivePath(home: string, app: string): Path
  {
    Parse(GetHomeActiveDir(home, app))
  }

  ghost function TmpPath(home: string, app: string): Path
  {
    Parse(GetHomeTmpDir(home, app))
  }

  /** The directory of a plainly named version lies directly in `versions`,
      apart from `active` and `tmp` and everything below them. */
  lemma VersionPathApart(home: string, app: string, version: string)
    requires IsSegment(version)
    ensures VersionPath(home, app, version) == VersionsPath(home, app) + [version]
    ensures !IsPrefix(ActivePath(home, app), VersionPath(home, app, version))
    ensures !IsPrefix(VersionPath(home, app, version), ActivePath(home, app))
    ensures !IsPrefix(TmpPath(home, app), VersionPath(home, app, version))
    ensures !IsPrefix(VersionPath(home, app, version), TmpPath(home, app))
  {
    var h := Parse(GetHomeDir(home, app));
    assert VersionPath(home, app, version)[|h|] == "versions";
    assert ActivePath(home, app)[|h|] == "active";
    assert TmpPath(home, app)[|h|] == "tmp";
  }
}
