/** Fetching a release archive to disk and extracting it below a directory,
    refusing any member whose name would land outside that directory. */
module Archive {
  import opened Errors
  import opened Strs
  import opened Paths
  import opened Fs

  /** What the HTTP GET of an archive delivers: nothing, a body cut off
      part-way, or the whole body. */
  datatype Download = Unreachable | Broken(received: seq<bv8>) | Delivered(body: seq<bv8>)

  /** The bytes a download leaves in the output file. */
  function Received(fetch: Download): seq<bv8>
    requires !fetch.Unreachable?
  {
    if fetch.Broken? then fetch.received else fetch.body
  }

  /** DownloadFile: create (or truncate) `path` and copy the response body
      into it.  A body cut off part-way leaves the bytes already copied. */
  method DownloadFile(fs: FileSystem, url: string, path: string, fetch: Download) returns (r: Outcome)
    requires fs.Valid()
    modifies fs
    ensures fs.Valid()
    ensures r.Pass? <==> fetch.Delivered? && Writable(old(fs.tree), Parse(path))
    ensures fetch.Unreachable? ==> r == Fail(Network(url)) && fs.tree == old(fs.tree)
    ensures !fetch.Unreachable? ==>
      fs.tree == (if Writable(old(fs.tree), Parse(path)) then old(fs.tree)[Parse(path) := File(Received(fetch))]
                  else old(fs.tree))
  {
    if fetch.Unreachable? {
      return Fail(Network(url));
    }
    r := fs.WriteFile(path, Received(fetch));
    if r.Pass? && fetch.Broken? {
      r := Fail(Network(url));
    }
  }

  /** One member of a zip archive as its central directory lists it. */
  datatype Entry = Entry(name: string, isDir: bool, data: seq<bv8>)

  /** zip.OpenReader(src): the members of the archive stored at `src`, or
      none when there is no file there or `unpack` cannot read it.  The
      decompressor itself is the parameter `unpack`. */
  function OpenArchive(t: Tree, src: string, unpack: seq<bv8> -> Option<seq<Entry>>): (r: Option<seq<Entry>>)
    ensures r.Some? ==> Parse(src) in t && t[Parse(src)].File?
  {
    var p := Parse(src);
    if p in t && t[p].File? then unpack(t[p].data) else None
  }

  /** The zip-slip test: the joined name starts with the cleaned destination
      followed by a separator. */
  predicate Confined(dest: string, fpath: string)
  {
    HasPrefix(fpath, Clean(dest) + "/")
  }

  /** The joined path's text is the text of its own cleaned path. */
  lemma JoinText(dest: string, name: string)
    ensures Parse(Join(dest, name)) == Parse(dest + "/" + name)
    ensures Render(Parse(Join(dest, name))) == Join(dest, name)
  {
    ParseClean(dest + "/" + name);
  }

  /** A member passes the test exactly when it lands strictly below a
      destination other than the root. */
  lemma ConfinedIff(dest: string, name: string)
    ensures Confined(dest, Join(dest, name)) <==>
      Parse(dest) != [] && StrictlyUnder(Parse(Join(dest, name)), Parse(dest))
  {
    JoinText(dest, name);
    GuardIff(Parse(Join(dest, name)), Parse(dest));
  }

  /** A member named "." or ".." is refused: it names the destination or
      its parent. */
  lemma DotsRefused(dest: string)
    ensures !Confined(dest, Join(dest, "."))
    ensures !Confined(dest, Join(dest, ".."))
  {
    ConfinedIff(dest, ".");
    ConfinedIff(dest, "..");
    ParseSnoc(dest, ".");
    ParseSnoc(dest, "..");
  }

  /** A member that climbs out of the destination and names a sibling,
      "../x", is refused. */
  lemma ClimbRefused(dest: string, x: string)
    requires IsSegment(x)
    ensures !Confined(dest, Join(dest, ".." + "/" + x))
  {
    var up := dest + "/" + "..";
    ConfinedIff(dest, ".." + "/" + x);
    JoinText(dest, ".." + "/" + x);
    assert dest + "/" + (".." + "/" + x) == up + "/" + x;
    ParseSnoc(dest, "..");
    ParseSnoc(up, x);
    assert |Parse(up + "/" + x)| <= |Parse(dest)| || Parse(dest) == [];
  }

  /** Extracting into the root directory refuses every member: no text
      starts with "//". */
  lemma RootDestRefused(name: string)
    ensures !Confined("/", Join("/", name))
  {
    ConfinedIff("/", name);
    ParseRender([]);
  }

  /** Every entry of `t0` survives in `t` and every directory stays one;
      an entry that is different lies strictly below `d`, and an entry that
      is new lies strictly below `d` or is a directory on the way to `d`. */
  ghost predicate ChangedWithin(t0: Tree, t: Tree, d: Path)
  {
    && (forall q :: q in t0 ==> q in t)
    && DirsKept(t0, t)
    && (forall q :: q in t && !(q in t0 && t[q] == t0[q]) ==>
          StrictlyUnder(q, d) || (q !in t0 && IsPrefix(q, d) && t[q] == Dir))
  }

  lemma ChangedWithinRefl(t: Tree, d: Path)
    ensures ChangedWithin(t, t, d)
  {
  }

  /** Writing a file strictly below `d`, over nothing or over a file, stays
      within `d`. */
  lemma WriteWithin(t: Tree, p: Path, data: seq<bv8>, d: Path)
    requires StrictlyUnder(p, d) && (p !in t || t[p].File?)
    ensures ChangedWithin(t, t[p := File(data)], d)
  {
  }

  lemma ChangedWithinTrans(t0: Tree, t1: Tree, t2: Tree, d: Path)
    requires ChangedWithin(t0, t1, d) && ChangedWithin(t1, t2, d)
    ensures ChangedWithin(t0, t2, d)
  {
  }

  /** Changes within `d` keep `d` a directory once it is one, and keep it
      unblocked. */
  lemma WithinKeepsDest(t0: Tree, t: Tree, d: Path)
    requires ChangedWithin(t0, t, d)
    ensures IsDir(t0, d) ==> IsDir(t, d)
    ensures !Blocked(t0, d) ==> !Blocked(t, d)
  {
    forall i | 0 <= i <= |d| && d[..i] in t && t[d[..i]] != Dir ensures d[..i] in t0 && t0[d[..i]] == t[d[..i]] {
      assert IsPrefix(d[..i], d);
    }
  }

  /** Creating the directories of a path at or below an unblocked `d`:
      when `d` is absent nothing below it blocks, and afterwards `d` is a
      directory. */
  lemma MkdirBelowDest(t: Tree, d: Path, p: Path)
    requires WellFormed(t) && IsClean(p) && IsPrefix(d, p) && !Blocked(t, d)
    ensures d in t ==> IsDir(t, d)
    ensures d !in t ==> !Blocked(t, p)
    ensures !Blocked(t, p) ==> IsDir(WithDirs(t, p), d)
  {
    assert d == p[..|d|];
    assert d == d[..|d|];
    if d !in t {
      AbsentBelow(t, d, p);
    }
    if !Blocked(t, p) {
      WithDirsWellFormed(t, p);
    }
  }

  /** Creating the directories of a path that starts with `d` stays within `d`. */
  lemma WithDirsWithin(t: Tree, p: Path, d: Path)
    requires IsPrefix(d, p)
    ensures ChangedWithin(t, WithDirs(t, p), d)
  {
    WithDirsShape(t, p);
    forall q | IsPrefix(q, p) && |q| <= |d| ensures IsPrefix(q, d) {
      assert q == p[..|q|] == d[..|q|];
    }
  }

  /** The file entry `k` is not followed, among the first `n` entries, by
      another file entry with the same target. */
  ghost predicate LastWriteOf(es: seq<Entry>, dest: string, k: int, n: int)
    requires 0 <= k < n <= |es|
  {
    && !es[k].isDir
    && forall m :: k < m < n ==> es[m].isDir || Join(dest, es[m].name) != Join(dest, es[k].name)
  }

  /** The content of every file entry that no later file entry overwrote is
      on disk. */
  ghost predicate FilesWritten(es: seq<Entry>, dest: string, n: int, t: Tree)
    requires 0 <= n <= |es|
  {
    forall k :: 0 <= k < n && LastWriteOf(es, dest, k, n) ==>
      Parse(Join(dest, es[k].name)) in t && t[Parse(Join(dest, es[k].name))] == File(es[k].data)
  }

  /** Creating directories leaves every written file in place. */
  lemma FilesWrittenWithDirs(es: seq<Entry>, dest: string, n: int, t: Tree, p: Path)
    requires 0 <= n <= |es| && FilesWritten(es, dest, n, t)
    ensures FilesWritten(es, dest, n, WithDirs(t, p))
  {
    WithDirsShape(t, p);
  }

  /** A directory entry does not change which file entries are last. */
  lemma FilesWrittenDirEntry(es: seq<Entry>, dest: string, n: int, t: Tree)
    requires 0 <= n < |es| && es[n].isDir && FilesWritten(es, dest, n, t)
    ensures FilesWritten(es, dest, n + 1, t)
  {
  }

  /** Writing file entry `n` keeps the other last writes and adds its own. */
  lemma FilesWrittenFileEntry(es: seq<Entry>, dest: string, n: int, t: Tree)
    requires 0 <= n < |es| && !es[n].isDir && FilesWritten(es, dest, n, t)
    ensures FilesWritten(es, dest, n + 1, t[Parse(Join(dest, es[n].name)) := File(es[n].data)])
  {
    var p := Parse(Join(dest, es[n].name));
    forall k | 0 <= k < n && LastWriteOf(es, dest, k, n + 1)
      ensures Parse(Join(dest, es[k].name)) != p
    {
      JoinText(dest, es[k].name);
      JoinText(dest, es[n].name);
    }
  }

  /** The body of Unzip's loop for a member that passed the zip-slip test:
      a directory member is created with its error ignored; a file member
      gets its directory created and is then written. */
  method ExtractEntry(fs: FileSystem, dest: string, e: Entry, fpath: string, ghost es: seq<Entry>, ghost i: int)
    returns (r: Outcome)
    requires fs.Valid() && 0 <= i < |es| && e == es[i]
    requires fpath == Join(dest, es[i].name) && Confined(dest, fpath)
    requires FilesWritten(es, dest, i, fs.tree)
    modifies fs
    ensures fs.Valid()
    ensures ChangedWithin(old(fs.tree), fs.tree, Parse(dest))
    ensures r.Pass? ==> FilesWritten(es, dest, i + 1, fs.tree)
    ensures r.Fail? ==> !es[i].isDir && !r.error.IllegalPath?
    ensures !Blocked(old(fs.tree), Parse(dest)) ==> IsDir(fs.tree, Parse(dest))
  {
    ghost var d := Parse(dest);
    ghost var p := Parse(fpath);
    ghost var t1 := fs.tree;
    ConfinedIff(dest, e.name);
    JoinText(dest, e.name);
    assert p == Parent(p) + [p[|p| - 1]];
    if e.isDir {
      if !Blocked(t1, d) {
        MkdirBelowDest(t1, d, p);
      }
      var _ := fs.MkdirAll(fpath);
      WithDirsWithin(t1, p, d);
      WithinKeepsDest(t1, fs.tree, d);
      FilesWrittenWithDirs(es, dest, i, t1, p);
      FilesWrittenDirEntry(es, dest, i, fs.tree);
      return Pass;
    }
    var parent := Paths.Dir(fpath);
    DirRender(Parent(p), p[|p| - 1]);
    ParseRender(Parent(p));
    if !Blocked(t1, d) {
      MkdirBelowDest(t1, d, Parent(p));
    }
    r := fs.MkdirAll(parent);
    if r.Fail? {
      return;
    }
    WithDirsWithin(t1, Parent(p), d);
    WithinKeepsDest(t1, fs.tree, d);
    FilesWrittenWithDirs(es, dest, i, t1, Parent(p));
    ghost var t2 := fs.tree;
    r := fs.WriteFile(fpath, e.data);
    if r.Fail? {
      return;
    }
    WriteWithin(t2, p, e.data, d);
    ChangedWithinTrans(t1, t2, fs.tree, d);
    WithinKeepsDest(t2, fs.tree, d);
    FilesWrittenFileEntry(es, dest, i, t2);
  }

  /** One pass of Unzip's loop: the zip-slip test on member `i`, then its
      extraction. */
  method ExtractNext(fs: FileSystem, dest: string, es: seq<Entry>, i: int, ghost t0: Tree)
    returns (fpath: string, r: Outcome)
    requires fs.Valid() && 0 <= i < |es|
    requires FilesWritten(es, dest, i, fs.tree)
    requires ChangedWithin(t0, fs.tree, Parse(dest))
    requires i > 0 && !Blocked(t0, Parse(dest)) ==> IsDir(fs.tree, Parse(dest))
    modifies fs
    ensures fs.Valid()
    ensures fpath == Join(dest, es[i].name)
    ensures r.Fail? && r.error.IllegalPath? ==>
      r.error == IllegalPath(fpath) && !Confined(dest, fpath) && fs.tree == old(fs.tree)
    ensures !(r.Fail? && r.error.IllegalPath?) ==> Confined(dest, fpath)
    ensures r.Fail? && !r.error.IllegalPath? ==> !es[i].isDir
    ensures r.Pass? ==> FilesWritten(es, dest, i + 1, fs.tree)
    ensures ChangedWithin(t0, fs.tree, Parse(dest))
    ensures !(r.Fail? && r.error.IllegalPath?) && !Blocked(t0, Parse(dest)) ==> IsDir(fs.tree, Parse(dest))
  {
    fpath := Join(dest, es[i].name);
    if !HasPrefix(fpath, Clean(dest) + "/") {
      return fpath, Fail(IllegalPath(fpath));
    }
    ghost var t1 := fs.tree;
    WithinKeepsDest(t0, t1, Parse(dest));
    r := ExtractEntry(fs, dest, es[i], fpath, es, i);
    ChangedWithinTrans(t0, t1, fs.tree, Parse(dest));
    WithinKeepsDest(t1, fs.tree, Parse(dest));
  }

  /** The names of the first `n` members, each joined to `dest`, in
      archive order. */
  function JoinedNames(dest: string, es: seq<Entry>, n: nat): (r: seq<string>)
    requires n <= |es|
    ensures |r| == n
  {
    if n == 0 then [] else JoinedNames(dest, es, n - 1) + [Join(dest, es[n - 1].name)]
  }

  /** Name `k` of the list is member `k`'s name joined to `dest`. */
  lemma {:induction false} JoinedNamesAt(dest: string, es: seq<Entry>, n: nat, k: nat)
    requires k < n <= |es|
    ensures JoinedNames(dest, es, n)[k] == Join(dest, es[k].name)
  {
    if k < n - 1 {
      JoinedNamesAt(dest, es, n - 1, k);
    }
  }

  /** Every name of `names` passed the zip-slip test. */
  predicate AllConfined(dest: string, names: seq<string>)
  {
    names == [] || (AllConfined(dest, names[..|names| - 1]) && Confined(dest, names[|names| - 1]))
  }

  lemma {:induction false} AllConfinedAt(dest: string, names: seq<string>, k: nat)
    requires AllConfined(dest, names) && k < |names|
    ensures Confined(dest, names[k])
  {
    if k < |names| - 1 {
      AllConfinedAt(dest, names[..|names| - 1], k);
    }
  }

  /** The loop of Unzip over the members `es` of an opened archive. */
  method ExtractAll(fs: FileSystem, dest: string, es: seq<Entry>) returns (filenames: seq<string>, r: Outcome)
    requires fs.Valid()
    modifies fs
    ensures fs.Valid()
    ensures |filenames| <= |es|
    ensures filenames == JoinedNames(dest, es, |filenames|)
    ensures AllConfined(dest, filenames)
    ensures r.Pass? ==> |filenames| == |es| && FilesWritten(es, dest, |es|, fs.tree)
    ensures r.Fail? && r.error.IllegalPath? ==>
      |filenames| < |es| && r.error == IllegalPath(Join(dest, es[|filenames|].name)) &&
      !Confined(dest, Join(dest, es[|filenames|].name))
    ensures r.Fail? && !r.error.IllegalPath? ==> 0 < |filenames| && !es[|filenames| - 1].isDir
    ensures ChangedWithin(old(fs.tree), fs.tree, Parse(dest))
    ensures filenames == [] ==> fs.tree == old(fs.tree)
    ensures filenames != [] && !Blocked(old(fs.tree), Parse(dest)) ==> IsDir(fs.tree, Parse(dest))
  {
    ghost var t0 := fs.tree;
    ChangedWithinRefl(t0, Parse(dest));
    filenames := [];
    for i := 0 to |es|
      invariant fs.Valid()
      invariant |filenames| == i
      invariant filenames == JoinedNames(dest, es, i)
      invariant AllConfined(dest, filenames)
      invariant FilesWritten(es, dest, i, fs.tree)
      invariant ChangedWithin(t0, fs.tree, Parse(dest))
      invariant i == 0 ==> fs.tree == t0
      invariant i > 0 && !Blocked(t0, Parse(dest)) ==> IsDir(fs.tree, Parse(dest))
    {
      var fpath, err := ExtractNext(fs, dest, es, i, t0);
      if err.Fail? && err.error.IllegalPath? {
        return filenames, err;
      }
      assert (filenames + [fpath])[..i] == filenames;
      filenames := filenames + [fpath];
      if err.Fail? {
        return filenames, err;
      }
    }
    return filenames, Pass;
  }

  /** Unzip: extract every member of the archive at `src` below `dest`, in
      archive order, returning the joined names handled so far.  A member
      that fails the zip-slip test stops the extraction with an error naming
      it; any other failure stops it with that error. */
  method Unzip(fs: FileSystem, src: string, dest: string, unpack: seq<bv8> -> Option<seq<Entry>>)
    returns (filenames: seq<string>, r: Outcome)
    requires fs.Valid()
    modifies fs
    ensures fs.Valid()
    ensures OpenArchive(old(fs.tree), src, unpack).None? ==>
      filenames == [] && r == Fail(BadArchive(src)) && fs.tree == old(fs.tree)
    ensures OpenArchive(old(fs.tree), src, unpack).Some? ==>
      var es := OpenArchive(old(fs.tree), src, unpack).value;
      && |filenames| <= |es|
      && filenames == JoinedNames(dest, es, |filenames|)
      && AllConfined(dest, filenames)
      && (r.Pass? ==> |filenames| == |es| && FilesWritten(es, dest, |es|, fs.tree))
      && (r.Fail? && r.error.IllegalPath? ==>
            |filenames| < |es| && r.error == IllegalPath(Join(dest, es[|filenames|].name)) &&
            !Confined(dest, Join(dest, es[|filenames|].name)))
      && (r.Fail? && !r.error.IllegalPath? ==> 0 < |filenames| && !es[|filenames| - 1].isDir)
    ensures ChangedWithin(old(fs.tree), fs.tree, Parse(dest))
    ensures filenames == [] ==> fs.tree == old(fs.tree)
    ensures filenames != [] && !Blocked(old(fs.tree), Parse(dest)) ==> IsDir(fs.tree, Parse(dest))
  {
    var archive := OpenArchive(fs.tree, src, unpack);
    if archive.None? {
      return [], Fail(BadArchive(src));
    }
    filenames, r := ExtractAll(fs, dest, archive.value);
  }
}
