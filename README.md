# everinst, modelled in Dafny

everinst is a small graphical installer for Everest, the Celeste mod loader.
It asks the CI service for the list of builds and keeps the installable ones as a
version catalog. The user picks a version and the game directory. A worker thread
then downloads the build's artifact and unpacks the zip into the game directory.
Each entry's first five bytes, the wrapper directory, are dropped from its name.
The worker then runs `MiniInstaller.exe`, under mono when an interpreter was found.
Before each of the three stages it sends "downloading", "extracting" or
"installing", and after a successful installer it sends "done". The event loop
turns these messages into labels and, on "done", the finish page. Any failure panics, and the panic hook ends the process.

The model has six modules:

- `Base` (base.dfy): `Option` and a `byte` type.
- `Updater` (updater.dfy): `get_versions`.
  - The decoded JSON reply is a list of build records with optional fields.
  - `str::replace` removes every non-overlapping occurrence, left to right: every
    "refs/heads/" in a branch name goes, not only a leading one
    (`Updater.RemoveAllEveryOccurrence`).
  - The download URL is the fixed template around the decimal id.
  - The version number is the id plus 700.
  - `GetVersions` is the loop with its `continue` filters. It is proved equal to the
    recursive `Catalog`, and the inclusion rules are proved about `Catalog`.
- `Fs` (filesystem.dfy): the filesystem as a map from paths to directories and
  byte contents, with the operations the extraction loop uses.
  - `PathBuf::push`: an absolute name replaces the base.
  - `Path::parent`.
  - `fs::create_dir_all`: succeeds when every prefix of the path is a directory
    or absent, making the absent ones, and fails on a regular file at any prefix.
  - `OpenOptions::new().write(true).create(true)` followed by a copy: the file is
    opened without truncation and written from offset 0, so a longer old file
    keeps its tail (`Fs.OverwriteExactIff`).
- `Installer` (installer.dfy): the worker thread.
  - `Worker` is a class. Its `log` holds the messages sent, interleaved with the
    work done (download, one action per zip entry, process launch). Its `fs` field
    is the filesystem.
  - `Extract` is the `for i in 0..zip.len()` loop. `Run`, `Unzip` and `Install` are
    the stages.
  - Each method is proved against a specification function: `Extraction` for the
    loop, `RunLog`/`Pipeline` for the run. The protocol properties are lemmas about
    those functions.
  - A panic ends the run. The model stops there, so no later message or action
    appears.
  - The download, the archive's entries and the installer's exit status are inputs.
- `Selection` (selection.dfy): the selection page's decisions.
  - The combobox labels and the index table.
  - The lookup of the chosen index after the `i32`-to-`usize` cast.
  - The choice of the game directory.
- `Progress` (progress.dfy): the tick handler.
  - `Window.Tick` takes at most one message and dispatches on it.
  - The lemmas replay a run's messages through the handler.

## Model

| member | source | states |
|---|---|---|
| Updater.RemoveAll | src/updater.rs:49 | `branch.replace("refs/heads/", "")`: the result is never longer than the branch |
| Updater.RemoveAllWithoutMatch | src/updater.rs:49 | a string in which the pattern does not occur is returned unchanged |
| Updater.RemoveAllLeftmost | src/updater.rs:49 | the leftmost occurrence is deleted, the text before it is kept verbatim and the scan resumes after it; with the previous lemma this fixes the result occurrence by occurrence |
| Updater.RemoveAllEveryOccurrence | src/updater.rs:49 | "refs/heads/dev/refs/heads/x" becomes "dev/x": every copy is removed, not only a leading prefix |
| Updater.Decimal | src/updater.rs:53 | the id's decimal rendering is a non-empty string of digits |
| Updater.DecimalCanonical | src/updater.rs:53 | the rendering starts with '0' exactly for the id 0: there are no leading zeros |
| Updater.ParseDecimalOfDecimal | src/updater.rs:53 | reading the rendered digits back gives the number |
| Updater.ArtifactUrlNamesId | src/updater.rs:53 | the id is read back from the artifact URL built around it, so distinct builds get distinct URLs |
| Updater.ArtifactUrl | src/updater.rs:53 | the download URL: the fixed prefix, the id in decimal, the fixed suffix; `ArtifactUrlNamesId` proves the id is read back from it |
| Updater.Catalog | src/updater.rs:30-62 | the catalog has at most as many entries as the listing has builds |
| Updater.Kept | src/updater.rs:31-51 | a build is kept when it is completed and succeeded, triggered manually or by individual CI, and has an id and a source branch |
| Updater.ToVersion | src/updater.rs:43-59 | a kept build's entry: the branch with every "refs/heads/" removed, the artifact URL, and id + 700; `ToVersionDescribes` states it field by field |
| Updater.Versions | src/updater.rs:11-28 | the catalog of the listing, or the empty list when the request fails, the body is not JSON or `value` is not an array |
| Updater.GetVersions | src/updater.rs:11-63 | the loop returns exactly the catalog of the listing; a failed request, a body that is not JSON or a `value` that is not an array gives the empty list |
| Updater.CatalogAppend | src/updater.rs:30-60 | builds are examined independently, in order: the catalog of a concatenation is the concatenation of the catalogs |
| Updater.KeptIndicesSound | src/updater.rs:30-60 | the j-th entry is the mapped j-th kept build, and the kept builds' indices strictly increase: listing order is preserved |
| Updater.KeptIndicesIncrease | src/updater.rs:30-60 | the kept indices lie within the listing and strictly increase |
| Updater.KeptIndicesComplete | src/updater.rs:30-60 | every kept build's index is among the kept indices |
| Updater.SourceOf | src/updater.rs:30-60 | every catalog entry is the mapping of some kept build |
| Updater.CatalogComplete | src/updater.rs:30-60 | every kept build's mapping is in the catalog |
| Updater.CatalogMembership | src/updater.rs:30-60 | an entry is in the catalog exactly when some listed build is kept and maps to it |
| Updater.ToVersionDescribes | src/updater.rs:43-59 | a kept build's entry has version id + 700, the URL around the id, and the branch with every "refs/heads/" removed |
| Updater.CatalogEntryFields | src/updater.rs:31-59 | every entry comes from a build that is completed, succeeded, triggered manually or by individual CI, and has an id and a branch; its fields are those of that build as above |
| Updater.SkippedBuildAddsNothing | src/updater.rs:31-51 | a build failing any filter or lacking an id or a branch adds nothing, and the builds after it are still examined |
| Updater.CatalogExample | src/updater.rs:58 | builds with ids 100 and 205 give versions 800 and 905 |
| Fs.Components | src/main.rs:263 | the components of a name are non-empty and contain no '/' |
| Fs.SingleComponent | src/main.rs:263 | a non-empty name without '/' is one component, itself |
| Fs.ComponentsSplit | src/main.rs:263 | a '/' splits a name into the components before it followed by those after it, so the components are the name's '/'-separated segments, empty ones dropped |
| Fs.ParsePath | src/main.rs:263 | `Path::new` on a name: absolute exactly when it starts with '/', with the name's components |
| Fs.Join | src/main.rs:262-263 | `PathBuf::push`: an absolute path replaces the base, a relative one is appended to it |
| Fs.Parent | src/main.rs:207-209 | `Path::parent` is none exactly for a path without components; otherwise joining the last component back gives the path |
| Fs.CreateDirAll | src/main.rs:268 | `create_dir_all` as the walk over the path's prefixes; `CreateDirAllEffect` states its outcome |
| Fs.MakeDirs | src/main.rs:268 | the walk below the first k components: a regular file at the next prefix fails it, otherwise that prefix becomes a directory; `MakeDirsEffect` states its outcome |
| Fs.MakeDirsEffect | src/main.rs:268 | the `create_dir_all` walk fails exactly when a remaining component is a regular file; otherwise every component is a directory, regular files are untouched and nothing outside the path's ancestry appears |
| Fs.MakeDirsOnDirs | src/main.rs:268 | the walk over components that are all directories changes nothing |
| Fs.CreateDirAllEffect | src/main.rs:268 | `create_dir_all` fails exactly when a regular file is in the way; on success the path and its ancestors are directories, regular files keep their bytes, existing directories stay, and only ancestors of the path are added |
| Fs.CreateDirAllIdempotent | src/main.rs:268 | creating the same directories again succeeds and changes nothing |
| Fs.OverwriteLayout | src/main.rs:270-276 | the written file is as long as the longer of the old and new contents, and each byte is the new byte where there is one, the old byte otherwise |
| Fs.OverwriteExactIff | src/main.rs:270-276 | the file holds exactly the entry's bytes if and only if the old file was no longer: there is no truncation |
| Fs.OverwriteIdempotent | src/main.rs:270-276 | writing the same bytes again leaves the same content |
| Fs.Overwrite | src/main.rs:270-276 | the bytes after copying the data from offset 0 into a file that was not truncated; `OverwriteLayout` states them byte by byte |
| Fs.WriteFile | src/main.rs:270-276 | the open for writing with create and the copy: none for a path without components, a directory, or a path whose parent is not a directory; `WriteFileEffect` states its outcome |
| Fs.WriteFileEffect | src/main.rs:270-276 | opening for writing fails exactly when the path has no component, is a directory, or its parent is not a directory; on success the path holds the overwritten bytes and no other path changes |
| Fs.WriteFileIdempotent | src/main.rs:270-276 | writing the same bytes to the same file again succeeds and changes nothing |
| Installer.InstallerCommand | src/main.rs:282-293 | with an interpreter the command is `mono MiniInstaller.exe`, without one `MiniInstaller.exe`; both run MiniInstaller.exe in the game directory |
| Installer.Fetched | src/main.rs:249-253 | the download went through: a response with a 2xx status and a body that was read |
| Installer.IsCharBoundary | src/main.rs:263 | `str::is_char_boundary`: the slice `[5..]` panics unless byte 5 is the end of the name or not a UTF-8 continuation byte |
| Installer.Destination | src/main.rs:262-263 | `game.push(&name[5..])`: the game directory joined with the parsed remainder of the name |
| Installer.Step | src/main.rs:260-277 | one entry: none for a bad slice, an unreadable entry, a file entry with an empty remainder or a refused call; `create_dir_all` for a name ending in '/', the write otherwise |
| Installer.Extraction | src/main.rs:259-278 | at most all entries go through, and the extraction succeeds exactly when all of them did |
| Installer.RunLog | src/main.rs:244-297 | a run's log once the job has arrived, for any outcome of the extraction: "downloading", the fetch, then "extracting" only after a good download, the entries and the installer stage |
| Installer.Pipeline | src/main.rs:238-298 | the whole run: nothing when no job arrives, otherwise the run log for the extraction's outcome and the filesystem it leaves |
| Installer.Worker.Send | src/main.rs:244 | a send appends one message to the log and leaves the filesystem alone |
| Installer.Worker.TakeUp | src/main.rs:260-277 | one entry: the new filesystem is the one step of the model gives, and a failing entry changes nothing |
| Installer.Worker.Extract | src/main.rs:259-278 | the loop leaves the filesystem and success flag the extraction gives, and logs the entries in index order up to and including the failing one |
| Installer.Worker.Install | src/main.rs:280-297 | "installing", the launch, then "done" only when the installer succeeded |
| Installer.Worker.Unzip | src/main.rs:257-297 | the extraction loop, then the installer stage only if every entry went through |
| Installer.Worker.Run | src/main.rs:238-298 | the worker's log and filesystem are those of the pipeline for its inputs; a closed handoff channel does nothing |
| Installer.ExtractionAdvances | src/main.rs:259-278 | after i successful entries, entry i either extends the extraction or stops it for good |
| Installer.ExtractionStaysStopped | src/main.rs:259-278 | once an entry fails, later entries change nothing: the panic ends the loop |
| Installer.DirectoryEntryWritesNoFile | src/main.rs:267-268 | a name ending in '/' creates its destination directory; no regular file appears, disappears or changes, every directory stays, and only the destination and its ancestors are added |
| Installer.FileEntryOverwrites | src/main.rs:269-277 | any other entry leaves at its destination a file holding its bytes from offset 0 over the old contents, so a longer old tail is kept; no other path appears, disappears or changes |
| Installer.BareWrapperFileEntryFails | src/main.rs:263-274 | a file entry named by the five wrapper bytes alone pushes an empty remainder and fails to open, whatever the filesystem holds |
| Installer.StepIdempotent | src/main.rs:262-277 | taking up the same entry a second time succeeds and changes nothing |
| Installer.RelativeEntryAppendsToGame | src/main.rs:262-263 | a remainder that does not start with '/' is pushed as the game's components followed by the remainder's, `..` included; such a component leaves the game directory on a real filesystem |
| Installer.ParentEntryExample | src/main.rs:262-263 | the entry "wrap/../x" is pushed as the game directory followed by `..` and `x`, the file beside the game directory |
| Installer.AbsoluteEntryIgnoresGame | src/main.rs:262-263 | a remainder starting with '/' replaces the game directory: nothing confines the destination |
| Installer.AbsoluteEntryExample | src/main.rs:262-263 | the entry "wrap//etc/x" is written at /etc/x |
| Installer.UnpacksSendNothing | src/main.rs:259-278 | the extraction sends no message |
| Installer.LaunchOutbox | src/main.rs:280-297 | the last stage sends "installing", then "done" only on success |
| Installer.UnzippingOutbox | src/main.rs:257-297 | from the archive on, the only messages are the installer stage's, and only if every entry went through |
| Installer.ExtractingOutbox | src/main.rs:255-297 | from "extracting" on, the messages are "extracting", then "installing" and "done" as far as the run got |
| Installer.RunLogOutbox | src/main.rs:244-297 | for any outcome of the extraction, the messages are the first few stages, as many as the run reached |
| Installer.PipelineOutbox | src/main.rs:238-298 | the messages of a run are the stages up to the one that failed; a failure stops all later messages |
| Installer.SuccessfulRunAnnouncesEveryStage | src/main.rs:244-297 | a run that gets through every stage sends exactly "downloading", "extracting", "installing", "done" |
| Installer.FailedDownloadStopsTheRun | src/main.rs:249-253 | a failed or non-2xx download sends only "downloading", unpacks and launches nothing, and leaves the filesystem as it was |
| Installer.DoneIffInstallerSucceeded | src/main.rs:295-297 | "done" is sent exactly when the job arrived, the download, the archive and every entry went through, and the installer exited successfully |
| Installer.OutboxFollowsStages | src/main.rs:244-297 | the messages of any run are a prefix of the four stages: none repeats, none is skipped |
| Installer.RunLogAnnounced | src/main.rs:244-297 | for any outcome of the extraction, every piece of work follows its stage's message |
| Installer.AnnouncedBeforeWork | src/main.rs:238-298 | every message is sent before its stage's work: the download after "downloading", each entry after "extracting", the installer after "installing" |
| Installer.RunLogLaunches | src/main.rs:280-293 | for any outcome of the extraction, the only launched command is the installer command, launched exactly when the extraction went through |
| Installer.LaunchesInstallerInGame | src/main.rs:282-295 | the only process a run launches is MiniInstaller.exe in the game directory, launched exactly when the download and every entry went through |
| Selection.AsUsize | src/main.rs:199 | `as usize` keeps a non-negative index and sends a negative one far past any list |
| Selection.BuildVersionMap | src/main.rs:191-194 | one label per version, in order, and a table whose keys are exactly the indices of the list, each mapped to its version |
| Selection.Label | src/main.rs:192 | a combobox label: the version number in decimal, a space, and the branch in parentheses; `LabelShowsVersion` reads the number back |
| Selection.LabelShowsVersion | src/main.rs:192 | each label starts with the version number, which reads back from it |
| Selection.Selected | src/main.rs:199-201 | `version_map[&(selected as usize)]`: the version at the cast index, none where the missing key panics; `SelectedVersionIsListed` ties it to the list |
| Selection.SelectedVersionIsListed | src/main.rs:199-201 | the chosen version is the listed one at the chosen index; a negative index, or one past the list (an empty list included), panics |
| Selection.GamePath | src/main.rs:204-211 | the Steam location when it was found and chosen; otherwise the directory holding the chosen executable, or a panic for an entry with no component |
| Progress.Apply | src/main.rs:335-355 | "downloading", "extracting" and "installing" each append their own label and leave the page; "done" shows the finish page and adds no label; any other string changes nothing |
| Progress.Window.ShowInstallPage | src/main.rs:202 | clicking "Next" shows the install page and changes nothing else |
| Progress.Window.Receive | src/main.rs:244 | a message sent on the channel waits at the end of the inbox |
| Progress.Window.Tick | src/main.rs:334-356 | a tick takes at most one message, the oldest, and applies it to the view |
| Progress.ReplayAppend | src/main.rs:332-357 | messages taken on successive ticks act one after the other |
| Progress.ReplayStages | src/main.rs:334-356 | after the first n stage messages the install page shows the first labels, and the fourth message shows the finish page |
| Progress.ProgressOfRun | src/main.rs:332-357 | once a run's messages are taken, the window shows the finish page exactly when "done" was sent, with one label per stage reached |

## Left out

- The widgets, the page layout, and the enabling and disabling of "Next" are left out.
  This includes the check that the text entry names an existing file. `GamePath`
  takes whatever the entry holds.
- `find_steam`, `which("mono")`, the mono error window and its exit code 127,
  `open::that` and the OpenSSL probe are left out. The Steam location and the
  interpreter are inputs.
- HTTP and JSON are left out. `reqwest` and `serde_json` results are the `Reply` and
  `Download` inputs.
- `println!` output is left out.
- Zip decoding is left out. The entries are an input, and an archive that does not
  open is `None`. A failing `by_index`, read or copy for one entry is that entry's
  `ioOk` flag.
- Installer.Step: a failed entry is modelled as leaving the filesystem unchanged. A
  copy that fails midway really leaves a partly written file.
- `thread::spawn` and `mpsc` are left out. The handoff and the progress channel are
  plain sequences.
  - A `send(..).unwrap()` that fails because the window is gone is not modelled.
  - Nor is a run interleaved with ticks. `Progress.ProgressOfRun` replays the
    messages after the run.
- Windows path syntax is left out. Paths are Unix paths on a 64-bit target. The
  command without an interpreter is modelled (`Installer.InstallerCommand`), but
  not how Windows would resolve and run it.
- `.` and `..` are kept as ordinary components. Rust's component normalisation is
  not reproduced.
  - Relative paths are not resolved against the working directory.
  - Nothing confines entries to the game directory. The code does not check this
    and the model claims nothing of the kind.
- Re-running a whole archive over its own result is not proved idempotent. Only one
  entry taken up twice is (`Installer.StepIdempotent`).
- Updater.CatalogEntryFields: the version number is id + 700 over unbounded
  integers. The u64 addition overflow for ids within 700 of 2^64 is not modelled.
  Debug builds panic there; release builds wrap.
- The 200 ms tick period is left out. Only the one-message-per-tick dispatch is
  modelled.
- Fetching single mods through a custom URI handler is not modelled: src/main.rs and
  src/updater.rs contain no such code.
- Installer.Worker.Install: what MiniInstaller.exe itself does to the game directory
  is not modelled. The child process's writes are unknown, so the filesystem after
  the launch is the one the extraction left (this also holds for `fs` in
  `Installer.Worker.Run` and `Installer.Pipeline`). Only its exit status is an input.
