# Resolute mod artifact lifecycle, in Dafny

Resolute is a mod manager for Resonite. This project models its core, the
mod artifact lifecycle engine of the `resolute` crate:

- **Path resolver.** It computes where each artifact of a mod version lives:
  - its final path, which is the base directory, plus the install location, plus the filename, cleaned lexically;
  - the `.new` download path;
  - the `.old` backup path.
- **Three-phase install engine.**
  - Download: every artifact goes to its `.new` path, checked against its SHA-256 checksum. The first failure stops the phase and cancels the downloads so far.
  - Finalize: the file in place moves to `.old`, then `.new` moves into place. The first failure stops the phase and undoes the artifacts finalized so far.
  - Cleanup: a best-effort removal of the `.old` files.
- **Removal engine.**
  - A version's artifacts are all attempted, and failures are collected.
  - After an update, exactly the old paths that the new version no longer has are deleted.
- **`ModManager`.** It orchestrates install, update, uninstall and marking, over a database of mod records.

Around the core, the project also models these pure transforms:

- the manifest-to-catalog transform;
- the migration between the first and the current persisted mod records;
- the manifest client's configuration and its cache-or-download decision;
- the front end's view of a mod: versions ordered by semantic-version precedence, and the update status;
- the desktop app's session-log extraction and file hashing.

The file system is a map from path to contents. Any operation on any path can be given an injected failure (`FileSystem.FileSystem`). The HTTP client, the SHA-256 function and the clock are parameters.

Imperative source code is modelled by imperative Dafny:

- the download, removal and manager objects are classes;
- their loops are `while` loops.

Each method is proved equal to a specification function, and the lemmas state the properties of those functions. Pure source code (path resolution, catalog, migration, UI getters) is modelled by functions and lemmas.

Files:

- `wrappers.dfy`: `Option` and `Result`.
- `stdpath.dfy`: the lexical part of `std::path`, and `path_clean`.
- `mods.dfy`: the mod records.
- `errors.dfy`: the error type and its messages.
- `filesystem.dfy`: the file system with injected faults.
- `paths.dfy`: the path resolver.
- `hex.dfy`: hex rendering and the checksum test.
- `artifacts.dfy`: artifact file helpers and the error accumulator.
- `download.dfy`, `download_props.dfy` and `install_props.dfy`: the install engine and its properties.
- `delete.dfy`: the removal engine.
- `manager.dfy`: `ModManager`.
- `manifest.dfy`: the manifest client.
- `catalog.dfy`: the manifest-to-catalog transform.
- `migration.dfy`: the first record shape and the conversions.
- `semver.dfy`: version precedence.
- `ui_mod.dfy`: the front end's mod view.
- `session_log.dfy`: the system commands.

## Model

| member | source | states |
|---|---|---|
| StdPath.Parse | crates/resolute/src/manager/paths.rs:30 | A path string read as components is well formed, and is rooted exactly when the string starts with "/" |
| StdPath.Join | crates/resolute/src/manager/paths.rs:28-34 | Joining a relative path keeps the base's root and extends the base's components |
| StdPath.FileName | crates/resolute/src/manager/paths.rs:39-40 | The file name exists exactly when there is a last component other than "..", and is that component |
| StdPath.CleanIsClean | crates/resolute/src/manager/paths.rs:47 | Cleaning always yields a clean path (no ".", ".." only leading a relative path) with the same root |
| StdPath.CleanOfClean | crates/resolute/src/manager/paths.rs:47 | Cleaning a clean path changes nothing, so cleaning is idempotent |
| ManagerPaths.InstallDirUnderBase | crates/resolute/src/manager/paths.rs:28-34 | A leading "/" is stripped from the install location, which is then appended to the base; with no location the directory is base/rml_mods |
| ManagerPaths.ArtifactFileNameChoice | crates/resolute/src/manager/paths.rs:37-43 | An explicit filename wins, else the URL path's file name; with neither the result is a path error |
| ManagerPaths.TryNewAsWrittenFinalChecked | crates/resolute/src/manager/paths.rs:47-52 | As written, a successful final destination is clean and starts with the base, because the check runs after cleaning |
| ManagerPaths.SiblingIsDescendant | crates/resolute/src/manager/paths.rs:61-62 | A path beside a clean descendant of the base, under a plain name, is a clean descendant with the same parent |
| ManagerPaths.SuffixedNames | crates/resolute/src/manager/paths.rs:55-58 | Appending ".new" or ".old" to a component gives components distinct from it and from each other |
| ManagerPaths.TryNewSandboxed | crates/resolute/src/manager/paths.rs:24-65 | For any artifact, the corrected resolver's three paths are clean, strictly below the base, share one parent and are pairwise distinct |
| ManagerPaths.TryNewErrorCases | crates/resolute/src/manager/paths.rs:37-52 | The resolver fails exactly when no filename is found or the final destination is not below the base, always with a path error |
| ManagerPaths.TryNewAgreesOnPlainNames | crates/resolute/src/manager/paths.rs:54-64 | For a filename that is a single component other than "", "." and "..", whenever the corrected resolver succeeds, the source's resolver returns the same three paths |
| ManagerPaths.ResolversAgreeUnlessBase | crates/resolute/src/manager/paths.rs:24-65 | Under a rooted base and for a filename that is a single component other than "", "." and "..", the two resolvers give the same answer exactly unless the source's resolver accepts a final path equal to the base |
| ManagerPaths.TryNewOfFinal | crates/resolute/src/manager/paths.rs:47-64 | Once filename and final destination are known, the resolver's `.new` and `.old` paths are the final path's siblings named with the suffixes |
| ManagerPaths.DotDotFinalDest | crates/resolute/src/manager/paths.rs:44-47 | Filename "../evil.dll" under base "/game" cleans to the final destination "/game/evil.dll" |
| ManagerPaths.DotDotTmpDest | crates/resolute/src/manager/paths.rs:55-61 | Rebuilding the `.new` path from the raw filename gives "/game/../evil.dll.new", which resolves to "/evil.dll.new" |
| ManagerPaths.DotDotFilenameEscapes | crates/resolute/src/manager/paths.rs:24-65 | As written, the resolver accepts filename "../evil.dll" and puts its `.new` path outside the base |
| ManagerPaths.DotDotFilenameCorrected | crates/resolute/src/manager/paths.rs:24-65 | The corrected resolver keeps the same artifact's `.new` path at "/game/evil.dll.new", inside the base |
| ManagerPaths.BaseNamedFinalDest | crates/resolute/src/manager/paths.rs:28-47 | Install location ".." and filename "game" under "/game" land on "/game" itself |
| ManagerPaths.RootFinalAsWritten | crates/resolute/src/manager/paths.rs:28-52 | As written, filename ".." with no install location under base "/" resolves to the root itself, which has no parent; the corrected resolver rejects it with a path error |
| ManagerPaths.FinalMayEqualBase | crates/resolute/src/manager/paths.rs:47-62 | As written, `starts_with` accepts a final destination equal to the base, whose `.new` path "/game.new" is outside it; the corrected resolver rejects it |
| Errors.ActionLabel | crates/resolute/src/manager/artifacts.rs:104-114 | An action is displayed as one of "download", "delete", "rename" |
| Errors.ActionLabelInjective | crates/resolute/src/manager/artifacts.rs:104-114 | Two actions are displayed alike exactly when they are the same action |
| Errors.NatText | crates/resolute/src/error.rs:22-23 | A status code renders as a non-empty string of decimal digits |
| Errors.ArtifactErrorTextShape | crates/resolute/src/manager/artifacts.rs:81-94 | An artifact error's text starts with "artifact ", ends with its cause's text, and has the action label after the prefix exactly when the path is known |
| Errors.TextShapeWithPath | crates/resolute/src/manager/artifacts.rs:84-90 | With a path, the text is "artifact " + the action label + ... + the cause |
| Errors.TextShapeWithoutPath | crates/resolute/src/manager/artifacts.rs:91 | Without a path, the text starts "artifact error: ", ends with the cause, and no action label follows the prefix |
| Errors.ErrorVecTextEmpty | crates/resolute/src/manager/artifacts.rs:142-147 | An error vec displays as "[]" exactly when it holds no error |
| Errors.DescribeShowsDetail | crates/resolute/src/error.rs:18-75 | Every error message that shows a detail (the status, the cause, the path message, the artifact error or error list, ...) is a fixed text ending in ": " followed by exactly that detail |
| FileSystem.RemoveStep | crates/resolute/src/manager/download.rs:158 | Removal fails with the injected fault or NotFound for a missing file; otherwise it removes exactly that path |
| FileSystem.RenameStep | crates/resolute/src/manager/download.rs:132 | A rename fails with the injected fault or NotFound for a missing source; otherwise the contents move to the target, replacing it |
| FileSystem.CreateDirStep | crates/resolute/src/manager/download.rs:101-107 | Creating directories fails only with an injected fault |
| FileSystem.CreateStep | crates/resolute/src/manager/download.rs:217 | Creating a file leaves an empty file there, or fails with the injected fault and changes nothing |
| FileSystem.AppendStep | crates/resolute/src/manager/download.rs:223 | Writing a chunk appends it to the file's contents, or fails with the injected fault |
| FileSystem.StepFrames | crates/resolute/src/manager/download.rs:130-190 | Removals and renames touch only the paths they name |
| FileSystem.StepsCongruent | crates/resolute/src/manager/download.rs:130-190 | On a set of paths they stay inside, removals and renames depend only on the files there |
| FileSystem.FileSystem.constructor | crates/resolute/src/manager/download.rs:101-227 | A file system starts with the given files and the given injected faults |
| FileSystem.FileSystem.RemoveFile | crates/resolute/src/manager/download.rs:158 | `remove_file` has the effect and result of the removal step |
| FileSystem.FileSystem.RenameFile | crates/resolute/src/manager/download.rs:132 | `rename` has the effect and result of the rename step |
| FileSystem.FileSystem.CreateDirectoryAll | crates/resolute/src/manager/download.rs:101-107 | `create_dir_all` has the result of the directory step and changes no file |
| FileSystem.FileSystem.CreateFile | crates/resolute/src/manager/download.rs:217 | `File::create` has the effect and result of the create step |
| FileSystem.FileSystem.WriteAll | crates/resolute/src/manager/download.rs:223 | `write_all` has the effect and result of the append step |
| Hex.LowerHex | crates/resolute/src/manager/download.rs:231 | A digest renders as two lower-case hex digits per byte |
| Hex.DecodeHex | crates/resolute/src/manager/download.rs:231-232 | Reading hex text back yields half as many bytes as characters |
| Hex.DecodeLowerHex | crates/resolute/src/manager/download.rs:231 | Rendering a digest and reading it back gives the digest |
| Hex.LowerHexOfDecode | crates/resolute/src/manager/download.rs:231 | Every readable lower-case hex text is the rendering of what it reads as |
| Hex.ToLowerAscii | crates/resolute/src/manager/download.rs:232 | Lower-casing maps each ASCII capital to its small letter and keeps every other character |
| Hex.ChecksumMatchesIff | crates/resolute/src/manager/download.rs:230-232 | A checksum matches exactly when the expected text, lower-cased, is the hex form of the digest |
| Hex.ChecksumCaseInsensitive | crates/resolute/src/manager/download.rs:232 | Upper- and lower-case spellings of a checksum are accepted alike |
| Artifacts.Classify | crates/resolute/src/manager/artifacts.rs:13-26 | Ok(true) exactly when the operation happened; Ok(false) exactly for NotFound when tolerated; otherwise an error naming the action, the path and the cause |
| Artifacts.DeleteSpec | crates/resolute/src/manager/artifacts.rs:12-27 | `delete` returns Ok(true) and removes the file exactly when it could; a missing file is Ok(false) only when tolerated; failures name Delete and the path and change nothing |
| Artifacts.RenameSpec | crates/resolute/src/manager/artifacts.rs:30-45 | `rename` moves the file exactly when it could; failures name Rename and the source path and change nothing |
| Artifacts.DeleteArtifactFile | crates/resolute/src/manager/artifacts.rs:12-27 | The method's result and new files are those of the deletion specification |
| Artifacts.RenameArtifactFile | crates/resolute/src/manager/artifacts.rs:30-45 | The method's result and new files are those of the rename specification |
| Artifacts.ArtifactErrorVec.constructor | crates/resolute/src/manager/artifacts.rs:121-124 | A new error vec is empty |
| Artifacts.ArtifactErrorVec.Push | crates/resolute/src/manager/artifacts.rs:127-129 | Pushing appends exactly the error: the length grows by one and the vec is no longer empty |
| Artifacts.ArtifactErrorVec.IsEmpty | crates/resolute/src/manager/artifacts.rs:132-134 | Empty exactly when the length is 0 |
| Artifacts.ArtifactErrorVec.Len | crates/resolute/src/manager/artifacts.rs:137-139 | The length is the number of errors pushed |
| Artifacts.ArtifactErrorVec.Text | crates/resolute/src/manager/artifacts.rs:142-147 | The display is "[]" exactly when the vec is empty |
| Artifacts.MapArtifactErr | crates/resolute/src/manager/artifacts.rs:161-163 | An Ok value passes unchanged; an error becomes the cause of an artifact error with the given action and path |
| Artifacts.MapPathlessArtifactErr | crates/resolute/src/manager/artifacts.rs:165-167 | As above, with no path |
| Download.ProgressOf | crates/resolute/src/manager/download.rs:216-226 | One progress report per chunk: the chunk's length and the announced total |
| Download.DownloadFrom | crates/resolute/src/manager/download.rs:40-48 | The download loop returns at most one path per artifact, in order, and stops at the first error |
| Download.FinalizeFrom | crates/resolute/src/manager/download.rs:62-71 | The finalize loop finalizes a prefix of the artifacts and stops at the first error |
| Download.Downloader.constructor | crates/resolute/src/manager/download.rs:24-29 | A downloader holds the given base directory and HTTP client |
| Download.Downloader.DownloadVersion | crates/resolute/src/manager/download.rs:32-91 | The result, files and progress are those of the install specification (download all, else cancel; finalize all, else undo; clean up) |
| Download.Downloader.DownloadAll | crates/resolute/src/manager/download.rs:39-48 | The first loop's downloaded list, error, files and progress are the download loop's |
| Download.Downloader.CancelAll | crates/resolute/src/manager/download.rs:54-56 | The cancel loop leaves the files the cancel specification gives, errors ignored |
| Download.Downloader.FinalizeAll | crates/resolute/src/manager/download.rs:62-71 | The second loop's finalized list, error and files are the finalize loop's |
| Download.Downloader.UndoAll | crates/resolute/src/manager/download.rs:80-83 | The undo loop leaves the files the undo specification gives, errors ignored |
| Download.Downloader.DownloadArtifact | crates/resolute/src/manager/download.rs:94-127 | The result, files and progress are those of resolving, failing with a path error when the final path has no parent, creating the directory and downloading to `.new` |
| Download.Downloader.FinalizeArtifact | crates/resolute/src/manager/download.rs:130-154 | The result and files are those of moving the replaced file aside (NotFound tolerated), then moving `.new` into place |
| Download.Downloader.CancelArtifact | crates/resolute/src/manager/download.rs:157-161 | Removes the `.new` file, as the cancel step |
| Download.Downloader.ReturnOldArtifact | crates/resolute/src/manager/download.rs:164-173 | Moves `.old` back into place, as the return step |
| Download.Downloader.DeleteArtifact | crates/resolute/src/manager/download.rs:176-180 | Removes the final file, as the delete step |
| Download.Downloader.DeleteOldArtifacts | crates/resolute/src/manager/download.rs:183-190 | Removes the `.old` files in order, stopping at the first failure |
| Download.Downloader.Download | crates/resolute/src/manager/download.rs:193-243 | The result, files and progress are those of the download specification |
| DownloadProperties.DownloadRejectsBeforeWriting | crates/resolute/src/manager/download.rs:206-213 | A transport failure or a non-2xx status is an error before any file is created, with no progress |
| DownloadProperties.DownloadOkIff | crates/resolute/src/manager/download.rs:193-243 | A download succeeds exactly when a complete 2xx stream could be written and its digest matches; the destination then holds exactly the streamed bytes and each chunk was reported |
| DownloadProperties.DownloadMismatchRemovesFile | crates/resolute/src/manager/download.rs:229-238 | On a mismatch the file is removed (unless removal fails) and the error carries the calculated hash, the expected checksum as given, and the URL |
| DownloadProperties.DownloadFrame | crates/resolute/src/manager/download.rs:193-243 | A download touches no file but its destination |
| DownloadProperties.DownloadResultIndependent | crates/resolute/src/manager/download.rs:193-243 | A download's outcome and progress do not depend on the files already present |
| DownloadProperties.TryNewHasParent | crates/resolute/src/manager/download.rs:101-105 | A final path accepted by the corrected resolver always has a parent, so under it the "no parent" branch is never taken |
| DownloadProperties.AsWrittenNoParent | crates/resolute/src/manager/download.rs:98-105 | With the source's resolver, filename ".." under base "/" fails with the "no parent" path error and touches no file; the corrected resolver fails earlier with its own path error |
| DownloadProperties.EngineAgreesOnOrdinaryArtifacts | crates/resolute/src/manager/download.rs:94-98 | Under a rooted base, when every artifact has a filename that is a single component other than "", "." and ".." and no final path equal to the base, the install run with the corrected resolver gives the result, files and progress of the install run with the source's `try_new` |
| DownloadProperties.DownloadArtifactEffect | crates/resolute/src/manager/download.rs:94-127 | Path and directory errors abort before any file changes (AlreadyExists tolerated); otherwise only `.new` is touched, and success returns the paths with verified bytes in `.new` |
| DownloadProperties.DownloadArtifactResultIndependent | crates/resolute/src/manager/download.rs:94-127 | An artifact download's outcome does not depend on the files already present |
| DownloadProperties.FinalizeOneFrame | crates/resolute/src/manager/download.rs:130-154 | Finalizing touches only the artifact's three paths |
| DownloadProperties.FinalizeOneCongruent | crates/resolute/src/manager/download.rs:130-154 | Finalizing depends only on the files at the artifact's three paths |
| DownloadProperties.UndoOneFrame | crates/resolute/src/manager/download.rs:80-83 | Undoing touches only the artifact's final and `.old` paths |
| DownloadProperties.UndoOneCongruent | crates/resolute/src/manager/download.rs:80-83 | Undoing depends only on the files at the artifact's paths |
| DownloadProperties.FinalizeOneSuccess | crates/resolute/src/manager/download.rs:130-154 | A successful finalize puts the `.new` bytes in place, removes `.new`, and keeps a replaced file as `.old` |
| DownloadProperties.UndoRestores | crates/resolute/src/manager/download.rs:80-83 | Undoing a successful finalize restores the final place as before and leaves no `.new` and no `.old`, when nothing obstructs it |
| DownloadProperties.FinalizeOneOkIff | crates/resolute/src/manager/download.rs:130-154 | With the first rename unobstructed and `.new` present, a finalize fails exactly when `.new` cannot be renamed |
| DownloadProperties.HalfFinalizeStrands | crates/resolute/src/manager/download.rs:130-154 | When the second rename fails after the first succeeded, the final place is empty, the replaced file sits at `.old` and `.new` stays |
| DownloadProperties.StagedAt | crates/resolute/src/manager/download.rs:98 | An artifact's `.new` path is known exactly when its paths resolve |
| DownloadProperties.StageOfEnv | crates/resolute/src/manager/download.rs:94-127 | The artifact download, as the loop's step, returns resolved paths, touches only `.new`, ignores existing files, and verifies `.new` |
| DownloadProperties.DownloadFromShape | crates/resolute/src/manager/download.rs:40-48 | The loop downloads in declared order: the i-th path returned is the i-th artifact's resolved paths |
| DownloadProperties.DownloadFromOutcomes | crates/resolute/src/manager/download.rs:40-48 | Each artifact downloaded, and the one the loop stopped at, has the outcome its own step would have |
| DownloadProperties.DownloadFromFrame | crates/resolute/src/manager/download.rs:40-48 | The loop touches only the `.new` paths of artifacts it attempted |
| DownloadProperties.DownloadFromVerified | crates/resolute/src/manager/download.rs:40-48 | With distinct `.new` paths, every downloaded artifact's `.new` file is verified |
| DownloadProperties.CancelFromShape | crates/resolute/src/manager/download.rs:54-56 | The cancel loop only removes files, and removes every `.new` whose removal is not made to fail |
| DownloadProperties.FinalizeFromShape | crates/resolute/src/manager/download.rs:62-71 | The finalize loop finalizes a prefix in order and stops at the first failure |
| DownloadProperties.FinalizeFromFrame | crates/resolute/src/manager/download.rs:62-71 | The finalize loop touches only the paths of the artifacts it attempted |
| DownloadProperties.FinalizeFromAt | crates/resolute/src/manager/download.rs:62-71 | At each finalized artifact the files are what finalizing it alone would leave |
| DownloadProperties.FinalizeFromFailed | crates/resolute/src/manager/download.rs:62-71 | The error is the stopping artifact's own, and its files are what finalizing it alone would leave |
| DownloadProperties.UndoFromFrame | crates/resolute/src/manager/download.rs:80-83 | The undo loop touches only the paths of the artifacts it undoes |
| DownloadProperties.UndoFromAt | crates/resolute/src/manager/download.rs:80-83 | At each undone artifact the files are what undoing it alone would leave |
| DownloadProperties.DeleteOldsFromShape | crates/resolute/src/manager/download.rs:183-190 | Cleanup only removes `.old` files |
| DownloadProperties.CleanupStopsAtFirstMissingOld | crates/resolute/src/manager/download.rs:183-190 | Cleanup stops at the first `.old` it cannot remove, a missing one included, and the install still returns Ok |
| InstallProperties.StagedPaths | crates/resolute/src/manager/download.rs:40-48 | The paths of artifacts that all download are their resolved paths, one per artifact in order |
| InstallProperties.DownloadPhaseAllStaged | crates/resolute/src/manager/download.rs:39-48 | When every artifact downloads, the phase has no error, returns all paths, leaves each `.new` verified and changes only `.new` files |
| InstallProperties.DownloadPhaseReturnsAll | crates/resolute/src/manager/download.rs:39-48 | When every artifact downloads, the loop returns all their paths and no error |
| InstallProperties.StagedTmpsDistinct | crates/resolute/src/manager/download.rs:39-48 | Separate artifact paths give each artifact its own `.new` path |
| InstallProperties.InstallWithCancels | crates/resolute/src/manager/download.rs:51-59 | When artifact n first fails to download, the install returns that error, cancels the earlier `.new` files and never finalizes |
| InstallProperties.FinalizePhaseStopsAt | crates/resolute/src/manager/download.rs:62-71 | The finalize loop moves exactly the artifacts before the first unrenameable `.new`, and fails with that error |
| InstallProperties.FinalizePhaseAt | crates/resolute/src/manager/download.rs:62-71 | Each artifact reached is as finalizing it alone leaves it, the rest are untouched |
| InstallProperties.OwnPathNotStaged | crates/resolute/src/manager/download.rs:39-48 | An artifact's own paths are no other artifact's `.new`, so the download phase leaves them alone |
| InstallProperties.OutsideEach | crates/resolute/src/manager/download.rs:32-91 | A path outside all artifacts' paths is no `.new` and no `.old` path |
| InstallProperties.CommitSucceeds | crates/resolute/src/manager/download.rs:61-90 | With `.new` files verified and no rename obstructed, the commit succeeds, every final place holds checked bytes, no `.new` is left and nothing else changes |
| InstallProperties.FinalizePhaseFrame | crates/resolute/src/manager/download.rs:62-71 | The finalize phase changes nothing outside the artifacts' paths |
| InstallProperties.UndoPrefixFrame | crates/resolute/src/manager/download.rs:80-83 | Undoing changes nothing outside the artifacts' paths |
| InstallProperties.FinalizedInPlace | crates/resolute/src/manager/download.rs:62-71 | After a finalize phase with no failure each artifact's verified bytes are in place and its `.new` is gone |
| InstallProperties.CommitFails | crates/resolute/src/manager/download.rs:74-86 | When artifact m's `.new` first cannot move, the commit fails with that error, undoes exactly the earlier artifacts and changes nothing outside the artifacts' paths |
| InstallProperties.UndoSparesLater | crates/resolute/src/manager/download.rs:80-83 | Undoing the first m artifacts leaves the paths of later ones alone |
| InstallProperties.CommitRollsBack | crates/resolute/src/manager/download.rs:74-86 | An artifact finalized before the failure is put back: final place as before, no `.new`, no `.old` |
| InstallProperties.CommitStrands | crates/resolute/src/manager/download.rs:74-86 | The failing artifact is not put back: final place empty, replaced file at `.old`, `.new` kept |
| InstallProperties.CommitKeepsRest | crates/resolute/src/manager/download.rs:74-86 | Artifacts after the failing one are neither moved nor cleaned up |
| InstallProperties.InstallWithCommits | crates/resolute/src/manager/download.rs:51-90 | When the download phase reports no error, the install is the commit of what it downloaded |
| InstallProperties.InstallWithSucceeds | crates/resolute/src/manager/download.rs:32-91 | The install over any well-behaved step succeeds when all artifacts download and no rename is obstructed |
| InstallProperties.InstallWithFinalizeFails | crates/resolute/src/manager/download.rs:74-86 | The install fails with artifact m's rename error when it is the first that cannot move |
| InstallProperties.InstallWithRollsBack | crates/resolute/src/manager/download.rs:74-86 | After a failed finalize, artifact k < m is restored |
| InstallProperties.InstallWithStrands | crates/resolute/src/manager/download.rs:74-86 | After a failed finalize, artifact m is left half-moved |
| InstallProperties.InstallWithKeepsRest | crates/resolute/src/manager/download.rs:74-86 | After a failed finalize, artifacts k > m are untouched apart from their verified `.new` |
| InstallProperties.DownloadFailureCancels | crates/resolute/src/manager/download.rs:40-59 | The first download failure is returned unchanged; every earlier `.new` is removed (unless removal fails); only `.new` files of attempted artifacts change |
| InstallProperties.InstallSucceeds | crates/resolute/src/manager/download.rs:32-91 | When every artifact downloads with separate paths and no rename is obstructed, the install succeeds, every final place holds bytes matching its checksum, no `.new` is left, nothing else changes |
| InstallProperties.FinalizeFailureResult | crates/resolute/src/manager/download.rs:61-86 | A finalize failure at artifact m is the install's error, and nothing outside the artifacts' paths changes |
| InstallProperties.FinalizeFailureRollsBack | crates/resolute/src/manager/download.rs:74-86 | Every artifact finalized before the failing one is restored as before the install |
| InstallProperties.FinalizeFailureStrands | crates/resolute/src/manager/download.rs:74-86 | The failing artifact is left with an empty final place, its replaced file at `.old` and its verified `.new` |
| InstallProperties.FinalizeFailureKeepsRest | crates/resolute/src/manager/download.rs:74-86 | Artifacts after the failing one keep their final and `.old` places as before and their verified `.new` |
| Delete.DeleteArtifactOutcome | crates/resolute/src/manager/delete.rs:43-51 | A resolution failure is a Delete error with no path and deletes nothing; otherwise it fails exactly on a hard fault with the path, a missing file is success, and success returns the path |
| Delete.RemovedTwice | crates/resolute/src/manager/delete.rs:29-33 | Removing one target set after another is removing their union |
| Delete.DeleteVersionFromSweeps | crates/resolute/src/manager/delete.rs:28-33 | The loop attempts every artifact, collects exactly each artifact's own failure in artifact order, and removes every resolvable path |
| Delete.FailuresEmptyIff | crates/resolute/src/manager/delete.rs:35-39 | No failure is collected exactly when every artifact resolves and no removal hits a hard fault |
| Delete.TargetsMembers | crates/resolute/src/manager/delete.rs:29-33 | Exactly the resolved paths of the version's artifacts are targeted |
| Delete.DeleteVersionOutcome | crates/resolute/src/manager/delete.rs:26-40 | Deleting a version is Ok exactly when no artifact failed, otherwise it reports every failure in order; either way every resolvable path is removed (hard faults aside) |
| Delete.ResolveAll | crates/resolute/src/manager/delete.rs:60-67 | Resolution succeeds exactly when every artifact's path resolves, and then yields the set of those paths |
| Delete.HardErrorsCover | crates/resolute/src/manager/delete.rs:73-79 | Over any enumeration of the paths, the errors name each hard-faulted path once, with its fault, and nothing else |
| Delete.RemoveOne | crates/resolute/src/manager/delete.rs:74-79 | Removing one more path, missing file tolerated, is removing the set with that path added |
| Delete.RemovedSpares | crates/resolute/src/manager/delete.rs:64-70 | A path that is not a target is left as it was |
| Delete.Deleter.constructor | crates/resolute/src/manager/delete.rs:19-23 | A deleter holds the given base directory |
| Delete.Deleter.DeleteArtifact | crates/resolute/src/manager/delete.rs:43-51 | The result and files are those of the one-artifact deletion specification |
| Delete.Deleter.DeleteVersion | crates/resolute/src/manager/delete.rs:26-40 | The result and files are those of the version deletion specification |
| Delete.Deleter.DeleteArtifactsDiff | crates/resolute/src/manager/delete.rs:54-86 | A resolution error (new artifacts first) deletes nothing; otherwise exactly old minus new paths are removed, missing files tolerated, and the result is `Artifacts` exactly when a hard fault occurred |
| Delete.DeletePaths | crates/resolute/src/manager/delete.rs:73-79 | Over some enumeration of the set, each path is attempted once, the files lose every target, and the failures are those of the hard faults |
| Delete.HardErrorsAppend | crates/resolute/src/manager/delete.rs:74-77 | The errors of a longer enumeration extend those of the shorter one |
| Delete.DiffSparesNew | crates/resolute/src/manager/delete.rs:64-70 | A path the new artifacts still have is never touched by the diff deletion |
| Manager.Store | crates/resolute/src/db.rs:81-90 | Storing keeps every other record and puts the mod under its id |
| Manager.InstalledMods | crates/resolute/src/db.rs:60-71 | The installed mods are exactly the records with an installed version |
| Manager.InstalledVersionOf | crates/resolute/src/manager/mod.rs:169-175 | No installed version gives `ModNotInstalled`; a key missing from the versions gives `UnknownVersion` with the mod id and key; otherwise the version under that key |
| Manager.InstallModRecords | crates/resolute/src/manager/mod.rs:113-133 | Install succeeds exactly when the version is known and the download succeeds; only then is the database written, with the mod's installed version set to the chosen semver, every other record kept |
| Manager.InstallModCommits | crates/resolute/src/manager/mod.rs:118-130 | When every artifact downloads and can move into place, installing succeeds, leaves at each final path bytes whose digest matches the artifact's checksum, leaves no `.new` file, and records the version |
| Manager.UninstallModForgets | crates/resolute/src/manager/mod.rs:167-183 | Uninstall succeeds exactly when the installed version is known and all its artifacts are removed or missing; then the database is the old one without the mod's record, and otherwise it is unchanged |
| Manager.MarkedOverlays | crates/resolute/src/manager/mod.rs:100-110 | Marking keeps the key set and changes only the installed version of mods found installed |
| Manager.MarkedIdempotent | crates/resolute/src/manager/mod.rs:100-110 | Marking twice with the same installed mods is marking once |
| Manager.InstallThenMark | crates/resolute/src/manager/mod.rs:100-133 | After a successful install, marking any catalog listing the mod shows the installed version |
| Manager.MarkedMayNameMissingVersion | crates/resolute/src/manager/mod.rs:103-107 | Marking copies a version key the catalog entry does not have |
| Manager.ModManager.constructor | crates/resolute/src/manager/mod.rs:41-56 | The downloader and deleter start with the same base directory and the given HTTP client |
| Manager.ModManager.SetBaseDest | crates/resolute/src/manager/mod.rs:186-190 | Both base directories become the path; the database is unchanged |
| Manager.ModManager.MarkInstalledMods | crates/resolute/src/manager/mod.rs:100-110 | Keys kept; a mod recorded as installed gets that record's installed version, others are unchanged |
| Manager.ModManager.InstallMod | crates/resolute/src/manager/mod.rs:113-133 | Result, files, database and progress are those of the install specification |
| Manager.ModManager.UpdateMod | crates/resolute/src/manager/mod.rs:136-164 | Guards fail before any I/O with `ModNotInstalled`/`UnknownVersion`; the new version is installed first; the diff deletion happens only after a successful install |
| Manager.ModManager.UninstallMod | crates/resolute/src/manager/mod.rs:167-183 | Result, files and database are those of the uninstall specification |
| Manifest.DefaultConfig | crates/resolute/src/manifest.rs:209-216 | The default configuration has the manifest URL, no cache path and a 21600-second staleness threshold |
| Manifest.SetRemoteUrl | crates/resolute/src/manifest.rs:197-206 | A parsed URL is stored; an unparsable one returns `Url("manifest remote url")` and keeps the configuration |
| Manifest.ClientBuilder.WithUrl | crates/resolute/src/manifest.rs:135-142 | Sets the remote URL; nothing else changes |
| Manifest.ClientBuilder.Cache | crates/resolute/src/manifest.rs:146-149 | Sets the cache path; nothing else changes |
| Manifest.ClientBuilder.NoCache | crates/resolute/src/manifest.rs:153-156 | Clears the cache path; nothing else changes |
| Manifest.ClientBuilder.StaleAfter | crates/resolute/src/manifest.rs:160-163 | Sets the staleness threshold; nothing else changes |
| Manifest.ClientBuilder.NeverStale | crates/resolute/src/manifest.rs:167-170 | Clears the staleness threshold; nothing else changes |
| Manifest.ClientBuilder.WithHttpClient | crates/resolute/src/manifest.rs:174-177 | Sets the HTTP client; the configuration is unchanged |
| Manifest.NewBuilder | crates/resolute/src/manifest.rs:129-131 | A new builder holds the default configuration |
| Manifest.LastSettingWins | crates/resolute/src/manifest.rs:146-170 | Of successive cache or staleness settings only the last counts |
| Manifest.ReadBack | crates/resolute/src/manifest.rs:59-65 | What a cache file reads as after the body was copied into it: the whole body after a complete copy, otherwise a leading part of the body or, for a copy cut inside a non-ASCII character, `InvalidData` |
| Manifest.DownloadSpec | crates/resolute/src/manifest.rs:46-69 | Ok exactly for a 2xx reply whose body reads and, when a cache path is set, whose copy into the cache completes; non-2xx is `Http`; the cache file is opened (and truncated) exactly when a path is set, the body was read and the open succeeds, and then reads back as `ReadBack` of the body, which is the body itself on success |
| Manifest.DownloadCorrected | crates/resolute/src/manifest.rs:56-66 | The same result as `download`, but the cache file changes only on success, and then holds the body |
| Manifest.RetrieveFrom | crates/resolute/src/manifest.rs:72-111 | `retrieve` downloads exactly when there is no cache path, the cache does not open, or it opened, has a threshold, its time reads and it is stale; the cache file is touched only by that download |
| Manifest.RetrieveSpec | crates/resolute/src/manifest.rs:72-111 | `retrieve` over `download` as written downloads in exactly the cases above |
| Manifest.RetrieveCorrected | crates/resolute/src/manifest.rs:72-111 | `retrieve` over the corrected `download` downloads in exactly the same cases |
| Manifest.RetrieveWithoutCache | crates/resolute/src/manifest.rs:74-109 | Without a cache path or with an unopenable cache, retrieve is exactly a download |
| Manifest.RetrieveFreshCache | crates/resolute/src/manifest.rs:82-103 | A fresh or never-stale cache is returned as read, with no download |
| Manifest.RetrieveStaleCache | crates/resolute/src/manifest.rs:82-103 | A stale cache yields a successful download's JSON; when the download fails, `retrieve` returns the old cache contents if the download never opened the file, and otherwise what the failed copy left in it |
| Manifest.RetrieveSource | crates/resolute/src/manifest.rs:72-111 | Any JSON returned is the response body, a leading part of it read back after a failed copy, or the old cache contents |
| Manifest.StaleFallbackReadsTruncated | crates/resolute/src/manifest.rs:59-65 | A stale cache, a 2xx reply and a copy that fails before writing anything: `retrieve` returns "" instead of the cached manifest |
| Manifest.RetrieveCorrectedStaleCache | crates/resolute/src/manifest.rs:80-103 | With the corrected `download`, a stale cache yields a successful download's JSON, and the old cache contents, with the file untouched, when the download fails |
| Manifest.RetrieveCorrectedSource | crates/resolute/src/manifest.rs:72-111 | With the corrected `download`, any JSON returned is the response body or the old cache contents |
| Manifest.RetrieveCorrectedAgrees | crates/resolute/src/manifest.rs:59-65 | The two `retrieve`s are equal unless the copy into the cache fails part-way |
| Catalog.BuildModAuthors | crates/resolute/src/mods.rs:47-57 | One author per pair, in order, with name and links copied |
| Catalog.FromManifestAndCategory | crates/resolute/src/mods.rs:145-155 | Fields copied; install location kept when present, else "/Libraries" exactly for "Plugins", else none |
| Catalog.FromManifest | crates/resolute/src/mods.rs:158-167 | All four fields copied verbatim, no category default |
| Catalog.CategoryDefaultOnly | crates/resolute/src/mods.rs:145-167 | The two conversions agree exactly when the artifact names a location or the category is not "Plugins" |
| Catalog.BuildModVersionArtifacts | crates/resolute/src/mods.rs:87-92 | Artifacts keep manifest order and count, each converted with the category default |
| Catalog.BuildModVersionDependencies | crates/resolute/src/mods.rs:75-84 | Absent gives the empty map; present maps each mod id to its version requirement |
| Catalog.BuildModVersionsMap | crates/resolute/src/mods.rs:60-72 | One version per manifest version, under the same key, whose semver is that key, with its artifacts, dependencies, conflicts and release URL |
| Catalog.BuildMod | crates/resolute/src/mods.rs:20-40 | The id is the key; authors are the group's followed by the entry's additional ones; other fields copied; not installed, not active |
| Catalog.LoadObjectsMembers | crates/resolute/src/mods.rs:11-44 | An id is in the catalog exactly when some manifest object lists it |
| Catalog.LoadObjectsLast | crates/resolute/src/mods.rs:11-44 | An id listed by several objects takes the mod built from the last one in iteration order |
| Catalog.LoadObjectsKeyed | crates/resolute/src/mods.rs:42-43 | Every mod is stored under its own id |
| Migration.ArtifactToV2 | crates/resolute/src/models/v1.rs:133-143 | Fields copied, no override filename |
| Migration.VersionToV2 | crates/resolute/src/models/v1.rs:98-109 | No changelog; artifact count kept |
| Migration.ModToV2 | crates/resolute/src/models/v1.rs:48-66 | Active exactly when a version is installed; installed version and version keys kept |
| Migration.VersionToV1 | crates/resolute/src/models/v1.rs:111-121 | Artifact count kept |
| Migration.ModToV1 | crates/resolute/src/models/v1.rs:68-85 | Installed version and version keys kept |
| Migration.ArtifactRoundTrip | crates/resolute/src/models/v1.rs:133-154 | An artifact converted forward and back is unchanged |
| Migration.VersionRoundTrip | crates/resolute/src/models/v1.rs:98-121 | A version converted forward and back is unchanged, artifacts in order |
| Migration.ModRoundTrip | crates/resolute/src/models/v1.rs:48-85 | A first-shape record converted forward and back is unchanged, field for field |
| Migration.ModBackAndForth | crates/resolute/src/models/v1.rs:48-85 | A current record converted back and forward loses exactly `active` (re-derived), changelogs and override filenames |
| Migration.ClearedVersion | crates/resolute/src/models/v1.rs:98-109 | A version with no changelog and every artifact's override filename cleared, same artifact count |
| Migration.Cleared | crates/resolute/src/models/v1.rs:48-66 | A record whose `active` is "installed", with same keys and every version cleared |
| Migration.ModToV1Forgets | crates/resolute/src/models/v1.rs:68-85 | Conversion back ignores exactly what the first shape lacks |
| SemVer.CompareNat | ui/src/structs/mod.js:74 | Numeric comparison: negative, zero, positive as less, equal, greater |
| SemVer.CompareText | ui/src/structs/mod.js:74 | Character-code comparison is -1, 0 or 1 |
| SemVer.CompareIdentifier | ui/src/structs/mod.js:74 | Identifier comparison is -1, 0 or 1 |
| SemVer.CompareIdentifiers | ui/src/structs/mod.js:74 | Identifier-list comparison is -1, 0 or 1 |
| SemVer.ComparePre | ui/src/structs/mod.js:74 | Pre-release comparison is -1, 0 or 1 |
| SemVer.Compare | ui/src/structs/mod.js:74 | Precedence comparison is -1, 0 or 1 |
| SemVer.CompareTextAntisymmetric | ui/src/structs/mod.js:74 | Swapping negates the text comparison; zero exactly for equal texts |
| SemVer.CompareTextTransitive | ui/src/structs/mod.js:74 | Text comparison is transitive |
| SemVer.CompareIdentifierAntisymmetric | ui/src/structs/mod.js:74 | Swapping negates; zero exactly for equal identifiers |
| SemVer.CompareIdentifierTransitive | ui/src/structs/mod.js:74 | Identifier comparison is transitive |
| SemVer.CompareIdentifiersAntisymmetric | ui/src/structs/mod.js:74 | Swapping negates; zero exactly for equal lists |
| SemVer.CompareIdentifiersTransitive | ui/src/structs/mod.js:74 | List comparison is transitive |
| SemVer.CompareAntisymmetric | ui/src/structs/mod.js:74 | Swapping negates precedence; only equal versions compare equal |
| SemVer.CompareTransitive | ui/src/structs/mod.js:74 | Precedence is transitive |
| SemVer.PrecedenceExamples | ui/src/structs/mod.js:121 | 1.0.0-alpha < 1.0.0-alpha.1 < 1.0.0-beta.2 < 1.0.0-rc.1 < 1.0.0, and 1.9.0 < 1.10.0 |
| UiMod.DescendingCons | ui/src/structs/mod.js:71-75 | A version before a newest-first list keeps it newest first exactly when it dominates the list |
| UiMod.DominatesPermutation | ui/src/structs/mod.js:71-75 | Dominating a list is dominating any rearrangement of it |
| UiMod.InsertSorted | ui/src/structs/mod.js:71-75 | Insertion keeps a list newest first and adds exactly the version |
| UiMod.SortDescending | ui/src/structs/mod.js:71-75 | The result is newest first and a permutation of the input |
| UiMod.Lookup | ui/src/structs/mod.js:81-83 | A version found is one of the list with that key; nothing found means no version has the key |
| UiMod.SameElements | ui/src/structs/mod.js:71-75 | Permutations hold the same versions |
| UiMod.LookupMisses | ui/src/structs/mod.js:81-83 | A key missing from a list is missing from any permutation of it |
| UiMod.NewModView | ui/src/structs/mod.js:71-89 | Versions newest first and a permutation of the data's; the installed version is set exactly when its key is non-empty and found, and is then the version with that key |
| UiMod.LatestVersion | ui/src/structs/mod.js:112-114 | The first version, which has at least the precedence of every version; none without versions |
| UiMod.VersionTextClass | ui/src/structs/mod.js:129-133 | "" without an installed version; else "text-blue" for unrecognized mods; else "text-warning" or "text-success" by update |
| UiMod.SortableVersionStatus | ui/src/structs/mod.js:140-142 | 0 with an update, else 1 when installed, else 2 |
| UiMod.HasUpdateIff | ui/src/structs/mod.js:119-122 | An update is shown exactly when a version is installed and some version outranks it |
| UiMod.NoUpdateAtLatest | ui/src/structs/mod.js:119-122 | When the installed version is the latest, no update is shown |
| UiMod.Label | ui/src/structs/mod.js:225-235 | "Unknown" exactly for the "0.0.0-unknown" version, the semver otherwise |
| UiMod.LastSlash | ui/src/structs/mod.js:274 | The index of the last '/', or -1 when there is none |
| UiMod.InferredFilename | ui/src/structs/mod.js:272-276 | The path after its last '/': no '/' in it, a suffix of the path, empty for a trailing slash |
| UiMod.InferredInstallLocation | ui/src/structs/mod.js:283-286 | "/Libraries" exactly for "Plugins", "/rml_mods" otherwise |
| SessionLog.SessionStartIsLastMarker | crates/tauri-app/src/commands/system.rs:101-103 | The session starts at the last line ending in "initializing": that line is a marker and no later one is; with no marker it starts at line 0 |
| SessionLog.TerminatedAppend | crates/tauri-app/src/commands/system.rs:104-107 | Adding a line adds it and one newline at the end |
| SessionLog.PrependTaken | crates/tauri-app/src/commands/system.rs:101-108 | Folding the lines taken from the end gives the session's lines, with newlines, before the accumulator |
| SessionLog.SessionLogIsTail | crates/tauri-app/src/commands/system.rs:100-108 | The session log is the lines from the last marker line (all lines without one), in order, each followed by one newline; empty for an empty log |
| SessionLog.HashFile | crates/tauri-app/src/commands/system.rs:47-78 | Metadata errors and non-files are rejected before reading; Ok exactly for a file read in full, whose digest the lower-case hex result is |

## Left out

- Asynchrony and concurrency: the tokio runtime, `spawn_blocking`, `block_in_place` and the mutex around the manager. Every call is sequential.
- The network:
  - the HTTP client is a function from URL to a reply;
  - a stream is a list of chunks that may end in an error;
  - TLS and reqwest internals are not modelled.
- SHA-256 is a parameter function from bytes to digest. Only its lower-case hexadecimal rendering is modelled.
- Buffered writing: each chunk is written to the file when it arrives. The flush at the end is a write that cannot fail on its own.
- FileSystem.AppendStep: a write fault on a path makes the first write to it fail. A write that fails after some chunks, such as on a full disk, cannot be expressed. So the case with some progress reports, a partial `.new` file and an `Io` error is not modelled.
- StdPath.Parse: paths follow POSIX syntax and split on '/' only. The `\` separator and drive or UNC prefixes of Windows paths are not modelled, so the resolver's results hold for POSIX path syntax only. A "." segment is never kept as a component. Rust keeps a leading "." of a relative path (`CurDir`), and `path_clean` removes it from the final path but not from the base. So with a base such as "./game", the source's `starts_with` check rejects every artifact, while the model accepts them.
- The file system:
  - directories are not tracked, so `create_dir_all` fails only through an injected fault;
  - permissions, symbolic links and the operating system's own resolution of ".." are not modelled.
- Logging (`info!`, `debug!`, `warn!`, `error!`) is not modelled.
- The database:
  - the database is a map from id to record that is never out of sync. Its read and write errors (`get_installed_mods`, `store_mod`, `remove_mod`) are not modelled;
  - `remove_mod` takes a whole record at crates/resolute/src/db.rs:93 but is called with an id at crates/resolute/src/manager/mod.rs:180. The model removes by id.
- The source is not self-consistent in places. The model takes these shapes:
  - the record shape comes from crates/resolute/src/models/v1.rs, with an installed version and an `active` flag; crates/resolute/src/mods.rs has neither;
  - versions are keyed by semver string;
  - `UnknownVersion` carries the key as a string.
- Download.Downloader.DownloadArtifact: it resolves with the corrected resolver `ManagerPaths.TryNew`, not with the source's `try_new` (`ManagerPaths.TryNewAsWritten`). The two differ on these inputs, among others:
  - filename "../evil.dll" under base "/game": the source stages the download at "/evil.dll.new", the model at "/game/evil.dll.new";
  - install location ".." and filename "game" under base "/game": the source accepts the base itself as the final path and renames it when finalizing; the model fails with a path error;
  - filename ".." under base "/": the source fails with the "no parent" path error (`DownloadProperties.AsWrittenNoParent`); the model fails with the "not a subdirectory" path error.
  - a filename of several components, such as "sub/x.dll" under base "/game": the source's `.new` path is "/game/rml_mods/sub/sub/x.dll.new", whose directory it does not create, while the model stages at "/game/rml_mods/sub/x.dll.new";
  - filename "." or "": the source's `.new` path is built from that name ("/game/..new" for "."), while the model's is "/game/rml_mods.new".
  The two engines agree on a version whose artifacts all satisfy `DownloadProperties.Ordinary` under a rooted base: a filename that is a single component other than "", "." and "..", and a final path that is not the base itself (`DownloadProperties.EngineAgreesOnOrdinaryArtifacts`).
- Download.Downloader.DownloadAll: each step resolves with the corrected resolver, so it differs from the source on the inputs listed for `DownloadArtifact`.
- Download.Downloader.DownloadVersion: the install runs the corrected resolver, so it differs from the source on the inputs listed for `DownloadArtifact`.
- Manager.ModManager.InstallMod: the install runs the corrected resolver, so the files it stages and moves differ from the source's on the inputs listed for `DownloadArtifact`.
- Manager.ModManager.UpdateMod: the install half runs the corrected resolver, with the same differences.
- DownloadProperties.TryNewHasParent: holds for the corrected resolver only. The source's resolver reaches the "no parent" error (`DownloadProperties.AsWrittenNoParent`).
- Errors.Describe: an `Http` error shows the bare status number, while `StatusCode`'s display adds the reason phrase ("404 Not Found"). An `Io` error shows a fixed text for its kind, while `io::Error` displays the operating system's message. Neither the reason phrases nor the operating system's messages are modelled.
- Errors.NatText: renders the status digits only, without the reason phrase, as above.
- `ModArtifact::dest_within` is not part of this model. `ManagerPaths.DestWithin` takes it to be the final destination of the corrected path resolver. This is an assumption.
- Parsing:
  - semantic-version parsing and URL parsing are not modelled: versions, URLs and URL paths arrive already parsed;
  - build metadata takes no part in precedence, so it is not kept;
  - manifest JSON parsing (`Client::parse`) and serde are not modelled. Manifest objects and author maps are lists in iteration order.
- The manifest cache's modification time is in whole seconds. The `checked_add` overflow panic in `retrieve` cannot occur with unbounded integers.
- `ModManager.get_all_mods` and `get_installed_mods` only combine the manifest client, the catalog transform and marking, which are modelled separately. They are not modelled as methods.
- The `http_client` field of `ModManager` is only passed to the manifest client, so it is not kept.
- Hex.ToLowerAscii: lowers ASCII capitals only, while Rust's `to_lowercase` lowers every Unicode capital (for example 'Ä' and the Kelvin sign U+212A). This cannot change `ChecksumMatches`, because no non-ASCII character lowers to one of the digits "0"-"9" or "a"-"f" that a rendered digest is made of.
- Manifest.ReadBack: counts the written part of the body in characters. A copy stops at a byte, so `midChar` stands for a stop inside a character's encoding, which matters only when that character is not ASCII.
- UiMod.SortDescending: proves that the result is ordered by precedence and is a permutation. It does not model the stability of JavaScript's `sort` or the key order of `Object.fromEntries`. Versions whose semvers differ only in build metadata may come out in another order.
- UiMod.NewModView: the mod view's remaining fields (name, description, authors, tags, website) and `toJSON` are not modelled. They are plain copies.
- Manager.ModManager.UpdateMod: the order in which `delete_artifacts_diff` visits the old paths is left open, because it comes from a hash set. Its contract gives the collected failures only up to that order.
- Delete.DeletePaths: the order is unspecified in the same way.
- SessionLog.SessionLogIsTail: the log arrives already split into lines. `str::lines` splitting, carriage returns and reading the log file are not modelled.
- SessionLog.HashFile: a failure to start the blocking hashing job is not modelled.
- The commands of the desktop app other than the session log and file hashing, the settings store and the front end's stores and composables are not modelled. They are glue around the modelled operations.
- Cleanup follows the code: it removes every finalized artifact's `.old` file and stops at the first removal that fails, a missing one included (DownloadProperties.CleanupStopsAtFirstMissingOld). It does not delete backups only for artifacts that had one.

## Findings

| source | as written | input that shows it | evidently intended | confidence | as-written member | corrected member |
|---|---|---|---|---|---|---|
| crates/resolute/src/manager/paths.rs:55-62 | The `.new` and `.old` paths are built from the raw filename, after the sandbox check on the cleaned final path | base "/game", no install location (so "rml_mods"), filename "../evil.dll": the final path "/game/evil.dll" passes the check, but the `.new` path "/game/../evil.dll.new" resolves to "/evil.dll.new" | The `.new` and `.old` paths lie beside the checked final path, inside the base | not executed | ManagerPaths.DotDotFilenameEscapes | ManagerPaths.DotDotFilenameCorrected |
| crates/resolute/src/manifest.rs:59-65 | `download` opens the cache file with truncation before copying the body, and `retrieve`'s fallback after a failed download reads that file through the handle it opened first | a cache path and the default threshold, a stale cache holding "{}", a 2xx reply, and a copy that fails before writing a byte (a full disk): `retrieve` returns "" | When a download meant to replace a stale cache fails, `retrieve` uses the cache as it was, as the comment at manifest.rs:81 says | not executed | Manifest.StaleFallbackReadsTruncated | Manifest.RetrieveCorrectedStaleCache |
| crates/resolute/src/manager/paths.rs:48 | `starts_with` accepts a final path equal to the base directory | base "/game", install location "..", filename "game": the final path is "/game" and the `.new` path "/game.new" lies outside the base | The final path lies strictly below the base | not executed | ManagerPaths.FinalMayEqualBase | ManagerPaths.TryNewSandboxed |
