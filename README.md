# pbvm version lifecycle, modelled in Dafny

`pbvm` is a version manager for the Protocol Buffers compiler (`protoc`).
It keeps every installed release under `~/.pbvm`:

- `versions/<tag>/` holds an unpacked release.
- `tmp/` holds downloaded archives.
- `active/bin` and `active/include` are symbolic links into the active
  version's directory.

This project models the engine behind that layout (`utils/utils.go`) and
the guard sequences of the `delete`, `activate`, `run` and `install`
commands. It then proves what those operations promise.

Modules, from the bottom up:

- `Errors`: `Option`, `Result` (Go's `(T, error)`), `Outcome` (Go's lone
  `error`) and the error values.
- `Strs`: `strings.HasPrefix` and `strings.Contains`; byte-wise string
  order for sorting; and Go's `len` as UTF-8 byte length.
- `Paths`: slash-separated paths as lists of clean segments.
  - `Parse` is the meaning of a path string. On absolute paths, `Clean`,
    `Join`, `Dir` and `Base` follow Go's `path` package, including its `"/"`
    result. A relative path is read from the root (see "Left out").
  - Also here: the theorem behind the zip-slip guard.
- `Fs`: a file tree as a map from clean paths to directory, file or
  symlink nodes. It always has a root, and every parent is a directory.
  - `class FileSystem` owns the tree. A new one holds only the root.
  - `StatNotExist` is `os.IsNotExist` applied to the error of `os.Stat`.
    A file on the way to a path gives "not a directory", which is a
    different error.
  - Its methods are the `os` calls the engine makes: `MkdirAll`, `Remove`,
    `RemoveAll`, `Symlink` and file creation. Each states exactly when it
    fails and what the new tree is.
- `Layout`: the home-directory paths.
- `Assets`: architecture names, asset suitability and the first-suitable
  search.
- `Archive`: downloading a file and extracting a zip archive with the
  zip-slip check.
- `Activation`: switching the `active` links, and reading the active
  version back from them.
- `Install`: preparing the home layout, downloading a version, the
  installed check, listing and deleting.
- `Cli`: the four commands.

## Model

| member | source | states |
|---|---|---|
| Strs.ContainsIff | utils/utils.go:37-38 | `Contains(s, t)` holds exactly when `t` occurs in `s` at some index |
| Strs.AbsentChar | utils/utils.go:37-38 | a needle with a character the haystack lacks is never contained |
| Strs.LessTransitive | utils/utils.go:271 | the byte-wise name order used to sort versions is transitive |
| Strs.LessTotal | utils/utils.go:271 | two different names are always ordered one way or the other |
| Strs.LessAsymmetric | utils/utils.go:271 | no two names are each before the other |
| Strs.LessIrreflexive | utils/utils.go:271 | no name is before itself |
| Strs.ByteLen | cmd/run.go:23 | Go's `len` of a string lies between its character count and four times it |
| Paths.Parse | utils/utils.go:48 | every path string means a clean list of segments (no `""`, `"."` or `".."`) |
| Paths.ParseRender | utils/utils.go:145 | rendering a clean path and parsing it back gives the same path |
| Paths.ParseClean | utils/utils.go:148 | `Clean` never changes which file a path names |
| Paths.ParseJoin | utils/utils.go:48-88 | joining a plain name descends exactly one level |
| Paths.JoinRender | utils/utils.go:306-307 | joining a plain name gives the canonical text of the child path |
| Paths.GuardIff | utils/utils.go:148 | the text prefix test "`p` starts with `Clean(d)+"/"`" holds exactly when `p` lies strictly below `d`, and never when `d` is the root |
| Paths.GuardSound | utils/utils.go:148 | the prefix test passing implies strict containment |
| Paths.GuardComplete | utils/utils.go:148 | strict containment implies the prefix test passes |
| Paths.RootGuardNeverHolds | utils/utils.go:148 | no path passes the test against the root |
| Paths.DirRender | utils/utils.go:345 | `path.Dir` of a canonical path drops its last segment |
| Paths.BaseRender | utils/utils.go:345 | `path.Base` of a canonical path is its last segment |
| Paths.BaseOfDir | utils/utils.go:343-345 | for `.../v/leaf`, `Base(Dir(.))` is `v` |
| Paths.BaseDirShape | utils/utils.go:345 | `Base(Dir(l))` of any link text, with a relative text read from the root, is `"."`, `"/"` or a single plain segment |
| Fs.Ancestors | utils/utils.go:104 | every ancestor of a node in a well-formed tree is a directory |
| Fs.WithDirsWellFormed | utils/utils.go:104 | creating missing directories along an unblocked path keeps the tree well formed and makes every prefix a directory |
| Fs.ExistingDir | utils/utils.go:104 | `MkdirAll` of an existing directory changes nothing |
| Fs.PrunedWellFormed | utils/utils.go:367 | removing a subtree keeps the tree well formed |
| Fs.Readlink | utils/utils.go:339 | succeeds exactly on a symlink |
| Fs.ReadDir | utils/utils.go:265 | succeeds exactly on a directory and lists exactly its children |
| Fs.BlockedSnoc | utils/utils.go:240 | a path one level down is blocked exactly when its parent is, or when it is itself a non-directory |
| Fs.PrunedMissing | utils/utils.go:367 | after `RemoveAll` of an entry, `os.Stat` on it reports "does not exist" |
| Fs.PrunedOutside | utils/utils.go:367 | `RemoveAll` leaves every path outside the removed subtree as it was, and whether it is blocked |
| Fs.AgreeAlongBlocked | utils/utils.go:240 | two trees that agree on a path and everything above it agree on that path and on whether it is blocked |
| Fs.FileSystem.MkdirAll | utils/utils.go:104 | fails with `NotDir` exactly when a non-directory blocks the path; otherwise every missing directory is created and the path is a directory |
| Fs.FileSystem.Remove | utils/utils.go:308-310 | removes a file, link or empty directory and nothing else; fails otherwise and changes nothing |
| Fs.FileSystem.RemoveAll | utils/utils.go:367 | fails with `NotDir` exactly when the path is absent and a non-directory blocks the way to it, and then changes nothing; otherwise the path and everything below it are gone and nothing else changes |
| Fs.FileSystem.Symlink | utils/utils.go:311 | creates the link exactly when the name is free and its parent is a directory |
| Fs.FileSystem.WriteFile | utils/utils.go:120-127 | creates or truncates a file exactly when its parent is a directory and the name is free or already a file |
| Layout.GetHomeDir | utils/utils.go:42-49 | the home of the app is `<home>/.<app>` |
| Layout.GetHomeVersionsDir | utils/utils.go:52-59 | `versions` sits directly in the app home |
| Layout.GetHomeVersionDir | utils/utils.go:62-69 | a plainly named version sits directly in `versions` |
| Layout.GetHomeTmpDir | utils/utils.go:72-79 | `tmp` sits directly in the app home |
| Layout.GetHomeActiveDir | utils/utils.go:82-89 | `active` sits directly in the app home |
| Layout.VersionPathApart | utils/utils.go:62-89 | a version directory is neither above nor below `active` or `tmp` |
| Assets.GetArch | utils/utils.go:20-32 | `386` becomes `x86_32`, `amd64` becomes `x86_64`, anything else is kept |
| Assets.IsSuitableAsset | utils/utils.go:35-39 | suitable exactly when the name starts with `protoc` and contains `-<os>-` and `-<arch>.` |
| Assets.ConventionalNameSuitable | utils/utils.go:35-39 | a release file named `protoc-<v>-<os>-<arch>.zip` is suitable |
| Assets.WindowsAssetUnsuitable | utils/utils.go:35-39 | a Windows asset is not suitable on Linux |
| Assets.FirstSuitable | utils/utils.go:349-358 | the index returned is the first suitable asset, or the length when none is |
| Assets.FilterAsset | utils/utils.go:349-358 | returns the first suitable asset, or none |
| Archive.DownloadFile | utils/utils.go:113-128 | an unreachable URL fails with nothing written; otherwise the body received is written if the file can be created; success needs the full body |
| Archive.OpenArchive | utils/utils.go:136-139 | an archive opens only from an existing file |
| Archive.ConfinedIff | utils/utils.go:145-150 | the zip-slip check accepts an entry exactly when the joined path lies strictly below the destination |
| Archive.DotsRefused | utils/utils.go:145-150 | entries named `.` and `..` are refused |
| Archive.ClimbRefused | utils/utils.go:145-150 | an entry `../x` is refused |
| Archive.RootDestRefused | utils/utils.go:145-150 | nothing can be extracted into the root |
| Archive.WithinKeepsDest | utils/utils.go:154-163 | changes made only inside the destination keep it a directory |
| Archive.Unzip | utils/utils.go:132-186 | an unreadable archive fails with no change; every returned name passed the check; success means every file entry's last write is on disk; an illegal path names the first refused entry; the returned names are the destination joined with the entries' names, in order, and each passed the check; nothing outside the destination changes and every directory stays a directory |
| Archive.ExtractAll | utils/utils.go:142-185 | the loop over the entries: the names collected are the joined names of a prefix of the entries, all confined; on success all entries were handled and every file entry's last write is on disk; an illegal path stops at the entry it names; only the destination changes |
| Activation.LinkPaths | utils/utils.go:304-307 | `active/bin` and `active/include` are two different children of `active` |
| Activation.Relink | utils/utils.go:305-313 | one pass of the link loop: succeeds exactly when the link can be replaced, and then it points at the version's sub-directory; on failure nothing changes |
| Activation.ActivateVersion | utils/utils.go:292-316 | succeeds exactly when both links can be replaced, and then both point into the version; on failure the tree is `HalfActivated`: `bin` is switched if it could be, `include` is untouched |
| Activation.GetActiveVersion | utils/utils.go:333-346 | succeeds exactly when `active/bin` is a symlink; with a relative target read from the root, the name is `"."`, `"/"` or one plain segment |
| Activation.SameActiveLink | utils/utils.go:333-346 | `GetActiveVersion` depends only on the entry at `active/bin` |
| Activation.IsActiveVersion | utils/utils.go:319-330 | fails exactly when there is no active link; `true` only for a name of that shape |
| Activation.ActivateThenGet | utils/utils.go:292-346 | after activating a plainly named version, `GetActiveVersion` returns that version |
| Activation.ActivatedIsActive | utils/utils.go:319-330 | after activation, exactly that version is active |
| Activation.ActivationLeavesVersions | utils/utils.go:292-316 | activation changes nothing under `versions` |
| Activation.ActivationApart | utils/utils.go:292-316 | a whole or a failed activation leaves every path outside `active`, and the way to it, as it was |
| Activation.ReactivateOverrides | utils/utils.go:292-316 | activating `v` then `o` equals activating `o` alone |
| Activation.ActivatedReplaceable | utils/utils.go:308-311 | links just created can be replaced again |
| Install.FirstBlocked | utils/utils.go:99-107 | the index of the first layout directory `MkdirAll` cannot create |
| Install.PreparedBlocked | utils/utils.go:99-107 | creating directories never blocks or unblocks another path |
| Install.MkdirEach | utils/utils.go:99-107 | runs `MkdirAll` over the layout in order and stops at the first blocked directory; success exactly when none is blocked; the tree is the prepared one up to that point |
| Install.PrepareHomeDir | utils/utils.go:92-109 | creates home, tmp, versions and active in order and stops at the first failure; success exactly when none is blocked, and then all four are directories |
| Install.PrepareIdempotent | utils/utils.go:92-109 | preparing an already prepared home changes nothing |
| Install.IsInstalledVersion | utils/utils.go:234-245 | installed unless `os.Stat` reports "does not exist": exactly when the version path exists or a non-directory blocks the way to it; the path is returned too |
| Install.InstalledByName | utils/utils.go:234-245 | a plainly named version is installed exactly when `versions/<name>` exists or `versions` is blocked; with `versions` a directory, exactly when the entry exists |
| Install.ArchiveApart | utils/utils.go:207-224 | the archive `tmp/<asset>` is neither above nor below a version directory, lies outside `active`, and is not blocked once `tmp` is a directory |
| Install.FetchArchive | utils/utils.go:208-217 | downloads only when `os.Stat` reports the archive missing; fails exactly when it downloads and the full body cannot be written; no directory stops being one |
| Install.UnpackVersion | utils/utils.go:219-224 | unpacking changes nothing outside the version directory except adding directories on the way to it; it keeps every directory and the archive itself; on success the archive opened, every file entry's last write is in the version directory, and that directory exists unless the archive was empty |
| Install.FetchAndUnpack | utils/utils.go:202-225 | nothing changes but the version directory, the archive and directories on the layout; a missing archive is fetched and stored under the asset's name; a present one is used unchanged; success means the archive opened, every file entry's last write is in the version directory, and that directory exists unless the archive was empty |
| Install.DownloadVersion | utils/utils.go:190-231 | a failed prepare fails and reports no download; success keeps the four layout directories; an installed version is left alone and reports no download; when it is not installed, success means downloaded; a missing archive whose fetch fails fails the call; a present archive is used unchanged; after a download the archive's entries are written into the version directory, which exists unless the archive was empty; with plain names the active version, and whether each other version is installed, stay as they were; nothing else changes beyond the layout directories, the version directory and the archive |
| Install.PreparedFrame | utils/utils.go:92-109 | preparing the layout only adds directories on the way to it |
| Install.FrameKeeps | utils/utils.go:190-231 | under the download frame, any path off the version directory and the archive keeps its entry and whether it is blocked |
| Install.DownloadKeepsActive | utils/utils.go:190-231 | a download with plain names leaves `GetActiveVersion` unchanged |
| Install.DownloadKeepsOther | utils/utils.go:190-231 | a download with plain names leaves every other version installed or not as it was |
| Install.InsertDesc | utils/utils.go:270-271 | inserting into a descending list keeps it descending with one more member |
| Install.SortDesc | utils/utils.go:270-271 | the names come out strictly descending and are exactly the given names |
| Install.DirsOfMembers | utils/utils.go:273-276 | the kept names are exactly those whose entry is a directory |
| Install.ListInstalledVersions | utils/utils.go:255-289 | when `os.Stat` reports `versions` missing, the list is empty; fails exactly when `versions` is blocked by a non-directory, or when it is a directory holding a version directory but there is no active link; otherwise lists the version directories in descending order, with `active` set exactly for the one `GetActiveVersion` names |
| Install.OneActive | utils/utils.go:273-288 | at most one listed version is active |
| Install.DeleteVersion | utils/utils.go:361-372 | fails, naming the version directory and changing nothing, exactly when that directory is absent and a non-directory blocks the way to it; otherwise removes it and everything below it, and nothing else |
| Install.DeleteRemovesVersion | utils/utils.go:361-372 | after removing a plainly named version, it still counts as installed exactly when `versions` is blocked |
| Install.DeleteKeepsActive | utils/utils.go:361-372 | deleting a plainly named version leaves `GetActiveVersion` unchanged |
| Install.DeleteKeepsOther | utils/utils.go:361-372 | deleting a plainly named version leaves every other one installed or not as before |
| Install.DeleteOnlyThatVersion | utils/utils.go:361-372 | deleting a plainly named version uninstalls it (unless `versions` is blocked, when every name counts as installed), leaves every other version, and leaves the active version unchanged |
| Cli.DeleteOutcome | cmd/delete.go:17-42 | deletion goes ahead only for an installed version that is not active and whose directory exists; a blocked, absent directory fails as `os.RemoveAll` does |
| Cli.DeleteCommand | cmd/delete.go:17-42 | the outcome is `DeleteOutcome`; the tree changes only on success; both silence flags are set exactly on the two refusals |
| Cli.DeleteSparesActive | cmd/delete.go:30-41 | deleting a plainly named version keeps the active version installed and active |
| Cli.DeleteDotRemovesActive | cmd/delete.go:17-42 | on any well-formed disk with an active version installed, `delete .` passes every guard and uninstalls the active version |
| Cli.CheckedDeleteOutcome | cmd/delete.go:17-42 | the corrected guard passes only for a plain name that the original guard also accepts |
| Cli.CheckedDeleteCommand | cmd/delete.go:17-42 | the corrected command follows `CheckedDeleteOutcome`, and removes only on success |
| Cli.CheckedDeleteSparesOthers | cmd/delete.go:17-42 | with the check, deletion uninstalls the named version (unless `versions` is blocked) and no other |
| Cli.CheckedDeleteSparesActive | cmd/delete.go:30-41 | with the check, the active version stays installed whatever the link names |
| Cli.ActiveNameNotInside | utils/utils.go:345 | the directories named `.` and `/` lie above every version directory, not below |
| Cli.ActivateKeepsInstalled | cmd/activate.go:28 | a whole or a failed activation leaves every plainly named version installed or not as it was |
| Cli.ActivateCommand | cmd/activate.go:16-31 | a missing version prints the install hint and changes nothing; otherwise it succeeds exactly when both links can be replaced; on success both links switch and the version reads back as active; on failure the tree is `HalfActivated` |
| Cli.RunCommand | cmd/run.go:22-56 | a version shorter than 5 bytes, an uninstalled version or an unreadable active link fails with no change; when the links can be switched, the command's outcome is returned and the links end up pointing at the previously active version; when they cannot, the call fails, the command is not run, and the tree is `HalfActivated` for the requested version |
| Cli.RunRestoresLinks | cmd/run.go:35-46 | after activating a plain version `origin`, `origin` reads back as active, and activating any version and then `origin` again gives back exactly that tree |
| Cli.InstallCommand | cmd/install.go:24-67 | a missing release or missing asset fails with no change; an installed version is only re-activated; the archive used is `tmp/<name>` of the first suitable asset, fetched when absent and used unchanged when present; on success the tag is the active version and is installed, unless its archive had no members; whatever the outcome, nothing outside the version directory, the archive and `active` is changed or removed, and every other plainly named version stays installed or not as it was |

## Left out

- The network is not modelled. The GitHub release lookup is the
  `release` parameter of `InstallCommand`, and the HTTP download is the
  `fetch` parameter of `DownloadFile`.
- Zip decoding is not modelled. The bytes of an archive are turned into
  entries by the `unpack` parameter, so that compression and CRC checks
  stay outside the model.
- `os.UserHomeDir` is the `home` parameter, so its failure branch in
  every home-dir function is left out. The model also reads a relative
  home from the root.
- Symbolic links are never followed: lookups are lexical. `os.Stat` on
  a path through a link, and a link target reaching outside the tree, are
  not modelled. `StatNotExist` therefore counts a link at the path as
  present, even a dangling one, which Go's `os.Stat` reports as absent. It
  counts a link on the way as a non-directory, where Go would follow it.
- Relative paths are read from the root, as if the working directory were
  `/`. This covers link targets, archive destinations and a relative home.
  Go's `path` package keeps a leading `..` instead. So for a relative link
  `../bin`, Go's `GetActiveVersion` returns `..` where the model returns
  `"/"`. Likewise `Clean("")` is `"/"` in the model and `"."` in Go.
- `Install.DownloadVersion`, `Install.FetchAndUnpack` and
  `Cli.InstallCommand` state what happens to the archive, what is
  unpacked, and that the active version and the other versions are kept,
  only for a plain version name and a plain asset name. Other names can
  put the archive inside the version directory, where unpacking may
  overwrite it, or put the version directory over `active` or another
  version. For every name the frame still holds: nothing outside the
  version directory, the archive and the layout directories changes.
- File modes and permissions are not modelled. As a result, `RemoveAll`
  fails only on an absent path that a non-directory blocks, as Go's
  ENOTDIR. The error is `NotDir(name)` rather than Go's `*PathError`, and
  the root is never removed.
- Names are Dafny strings of Unicode scalar values. A file or version name
  that is not valid UTF-8 cannot be written down in the model, and Go's
  `len` is modelled as the UTF-8 length of such a string.
- `InstalledVersion.Date` (the file's modification time) is left out,
  because the model has no clock.
- The program started by `run`, and what it does to the files, is
  replaced by its outcome, the `exec` parameter. Its printed output is
  left out. The restoring `ActivateVersion` in `run` is deferred and its
  error ignored, as in the code.
- `panic` in `activate` and `install` is modelled as a returned error.
- The debug printer `d` of `DownloadVersion` and of `install` is left
  out, because it has no effect on files.
- `cmd/install.go:55` calls `DownloadVersion` with three arguments, while
  `utils/utils.go:190` declares four. The model follows the declaration
  without the printer.
- `install` repeats the asset search inline (`cmd/install.go:40-48`). The
  model calls `FilterAsset`, which is the same search.
- `Install.SortDesc`: Go's `sort.Slice` is library code. It is modelled
  as an insertion into a descending sequence, and only its result (order
  and contents) is specified.
- The completion, list-local and list-remote commands and the constants
  file are not part of this model.
- Concurrent changes to the home directory, such as another `pbvm`
  process, are not modelled. Each operation sees the tree as it was left
  by the previous one.
- `Activation.IsActiveVersion` passes a failure of `GetActiveVersion` on.
  This makes listing fail when no version is active yet but a version
  directory exists. The model follows the code here.

## Findings

| source | as written | input that shows it | evidently intended | confidence | as-written member | corrected member |
|---|---|---|---|---|---|---|
| cmd/delete.go:17-42 | the version argument is joined onto `versions` unchecked; `.` names `versions` itself, counts as installed, is never the active name, and `RemoveAll` then deletes every version | `pbvm delete .` with an active version `v3.12.3` installed | refuse names that are not one plain path element, so that only the named version is removed and the active one never is | high, not executed | Cli.DeleteDotRemovesActive | Cli.CheckedDeleteSparesActive |
