/** Choosing the release asset built for the running platform. */
module Assets {
  import opened Errors
  import opened Strs

  /** A downloadable file attached to a release. */
  datatype Asset = Asset(name: string, url: string)

  /** The two architecture aliases of the release naming scheme. */
  const Archs: map<string, string> := map["386" := "x86_32", "amd64" := "x86_64"]

  /** The architecture label used in asset names for Go's GOARCH value. */
  function GetArch(goarch: string): (r: string)
    ensures goarch == "386" ==> r == "x86_32"
    ensures goarch == "amd64" ==> r == "x86_64"
    ensures goarch != "386" && goarch != "amd64" ==> r == goarch
  {
    if goarch in Archs then Archs[goarch] else goarch
  }

  /** An asset name fits a platform when it has the tool prefix, the OS
      label between hyphens, and the architecture label after a hyphen and
      before a dot. */
  function IsSuitableAsset(name: string, arch: string, os: string): (r: bool)
    ensures r <==>
      && HasPrefix(name, "protoc")
      && (exists i :: OccursAt(name, "-" + os + "-", i))
      && (exists j :: OccursAt(name, "-" + arch + ".", j))
  {
    ContainsIff(name, "-" + os + "-");
    ContainsIff(name, "-" + arch + ".");
    HasPrefix(name, "protoc") && Contains(name, "-" + os + "-") && Contains(name, "-" + arch + ".")
  }

  /** Every name of the release convention `protoc-{version}-{os}-{arch}.zip`
      fits that OS and architecture. */
  lemma ConventionalNameSuitable(version: string, os: string, arch: string)
    ensures IsSuitableAsset("protoc-" + version + "-" + os + "-" + arch + ".zip", arch, os)
  {
    var name := "protoc-" + version + "-" + os + "-" + arch + ".zip";
    var p, m := "protoc-" + version, "-" + os + "-";
    assert name == p + m + (arch + ".zip");
    assert (p + m + (arch + ".zip"))[|p|..|p| + |m|] == m;
    assert OccursAt(name, m, |p|);
    var q, n := p + "-" + os, "-" + arch + ".";
    assert name == q + n + "zip";
    assert (q + n + "zip")[|q|..|q| + |n|] == n;
    assert OccursAt(name, n, |q|);
    assert name[..6] == "protoc";
  }

  /** A Windows archive does not fit a Linux host. */
  lemma WindowsAssetUnsuitable()
    ensures !IsSuitableAsset("protoc-3.1-win-x86_64.zip", GetArch("amd64"), "linux")
  {
    var os := "linux";
    assert ("-" + os + "-")[1] == 'l';
    AbsentChar("protoc-3.1-win-x86_64.zip", "-" + os + "-", 'l');
  }

  /** The position of the first asset suitable for the platform, or the
      length of the list when there is none. */
  function FirstSuitable(assets: seq<Asset>, arch: string, os: string): (k: nat)
    ensures k <= |assets|
    ensures forall j :: 0 <= j < k ==> !IsSuitableAsset(assets[j].name, arch, os)
    ensures k < |assets| ==> IsSuitableAsset(assets[k].name, arch, os)
    decreases |assets|
  {
    if assets == [] then 0
    else if IsSuitableAsset(assets[0].name, arch, os) then 0
    else 1 + FirstSuitable(assets[1..], arch, os)
  }

  /** FilterAsset: scan the release's assets in order and return the first
      one suitable for the host's architecture and OS, or none. */
  method FilterAsset(assets: seq<Asset>, goarch: string, goos: string) returns (r: Option<Asset>)
    ensures var k := FirstSuitable(assets, GetArch(goarch), goos);
      r == if k < |assets| then Some(assets[k]) else None
  {
    var arch := GetArch(goarch);
    for i := 0 to |assets|
      invariant forall j :: 0 <= j < i ==> !IsSuitableAsset(assets[j].name, arch, goos)
    {
      if !IsSuitableAsset(assets[i].name, arch, goos) {
        continue;
      }
      return Some(assets[i]);
    }
    return None;
  }
}
