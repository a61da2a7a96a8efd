# A verified model of the package installer, the archive builder and the Nix cache

This project models, in Dafny 4.11, three programs of the repository and proves what
they are for.

* **binman** (`cmd/binman`) installs packages into a prefix. It unpacks an archive
  into a staging directory, swaps it in as the package's store, and keeps an aggregate
  tree of relative symbolic links at the root of the prefix (and one per profile) in
  step with the stores. The model is a file system, a map from physical paths to
  directories, files and links, together with the kernel's own resolution of a path
  through links. On it stand extraction, linking, unlinking, store swaps, the install
  plan and its commit loop, `remove`, `upgrade`, and `sync` with profiles and pruning.
* **artifact** (`cmd/artifact`) copies a package tree out of a Nix store, blanks store
  hashes in binaries and packs the result. Its archives are what binman unpacks, so
  the two are proved to be inverse to each other.
* **nixcache** (`cmd/nixcache`) publishes segments of a binary cache to a registry,
  loads and merges them into an index that is served while it is refreshed, and
  prunes old segments.

Two forms of each operation are kept apart. What an operation does to a value is a
function, and the theorems are about these functions. How the program does it, in
loops that change one file system, one list or one map, is a method of a class
(`Disk.Volume`, `Walker.PackageWalker`, `ManifestPlan.PlanBuilder`,
`CopyTree.TreeCopier`, `Serve.CacheIndex`) or a free method (`Installer`, `Pruner`,
`Normalize`, `Deletions`, `Manifests`, `Loader`, `CacheRun`, `StoreRefs`), and each of these
is proved to leave exactly the state its function gives, or to meet the rule that the
theorems are about.

`dafny verify dfyconfig.toml` checks everything.

## How paths, links and errors are modelled

* A clean absolute path is the sequence of its components; a path as it is written is
  its text cut at every `/`. `PathText` proves that cutting loses nothing and that the
  string tests of the code (`withinRoot`, `stripFirstComponent`, `IsAbs`) are the
  component tests used here. `Walk` is `Clean(Join(..))`, `Rel` is `filepath.Rel`.
* `Resolve` follows a path component by component as the kernel does, through
  absolute and relative links, `.` and `..`, up to a number of links that is a
  parameter of every theorem.
* An operation returns `Step(fs, ok)`: the file system it leaves and whether it
  returned nil. Failures stop where the code stops.
* What the registry answers, which order a Go map iterates in, which goroutine finishes
  first and how `sort.Slice` orders ties are left open: the theorems hold for every choice.

## Main results

* **Nothing escapes.** After any prefix of any archive whose hard links do not name
  symbolic links, nothing outside the destination has changed, and no path that starts
  in the destination leaves it through the links that were created.
* **Pack, then unpack.** Unpacking a packed tree succeeds exactly when every link text
  is relative and lexically below the destination, and then gives back every path,
  content and link target, with file modes up to the owner-write bit.
* **Link and unlink in closed form.** Linking a package succeeds exactly when no
  destination is a directory, independently of the order of its files; unlinking
  removes exactly the links that name the package's own files.
* **What a package offers.** A path is collected exactly when its names lead, through
  directories and links to directories, to a file or to a link that leads to no directory;
  the walk fails exactly when such a path leaves the package, comes to a directory again
  below itself, or meets a link that cannot be resolved.
* **Lifecycle.** From an empty prefix, after any run of successful installs, upgrades,
  removals and syncs, every link at the root names a file that an installed, linked
  package still offers.
* **What is installed is what was published.** After any such run every installed
  package's store holds, record aside, exactly what an artifact published under its
  recorded digest unpacks to, whatever was fetched, skipped, replaced or pruned.
* **What is downloaded.** A package is fetched exactly when it is forced, not on record, or
  published under another digest; its store is then what its archive unpacks to, whatever
  lay there before, and a package that is not fetched keeps its store. `sync` does this for
  the packages of its manifest, for the flag's architecture before the manifest's
  (`SyncMeans.SyncMeans`).
* **From source tree to store.** A tree packed by `artifact` and installed by binman lies
  in the package's store as it was, its links naming the same places inside the package;
  everyone may run a file there exactly when someone could in the source tree.
* **What a profile shows.** After a successful `sync` each path of each profile is a
  directory if one of the listed packages needs it, and otherwise the link of the last one
  that offers it.
* **Sync converges, with its exact condition.** After a successful `sync` the same
  `sync` again has nothing to fetch; it succeeds if and only if no linked package offers
  a path that lies above another's, and then the whole file system is unchanged. A
  run over such a clash can succeed only if the package with the upper path is listed
  first; then the next fails, because a directory stands where a link has to go
  (`ClashRun.ClashingSync` shows two packages, in both orders).
* **When an install succeeds.** In a prefix that any run of successful commands left, a
  plan succeeds exactly when its targets are valid and published, each archive unpacks, each
  linked package can be collected, and no path it links is a directory or lies above one
  that a target before it links. A removal succeeds exactly when the package is
  installed under a valid name and, if there are profile trees, it can be collected and
  none of them has a file or link above one of its paths, even another package's; a `sync`
  that has to prune a package for which this fails is itself stuck
  (`StuckPrune.StuckExample`). `SyncSucceeds.SyncSucceedsExactly` is the whole condition of
  a `sync`.
* **Retention.** The newest snapshots of each system are kept, and each group of them keeps
  exactly the number of its newest segments the policy says; pruning twice deletes nothing
  more even when snapshot times tie, and what the newest segment of a package offers stays
  servable.
* **One snapshot at a time.** A load for a snapshot and system sees exactly the segments of
  that snapshot and system, unless one system continues another after a dash
  (`Snapshots.LongerSystemIsListed`).
* **Publish, prune and serve.** A load after a publish or a prune resolves exactly the
  hashes that the segments under its prefix hold, each to the newest entry; after a prune
  these are the retained segments. What is resolved is served, except a NAR whose URL
  ends in ".narinfo": the code accepts such a URL and then answers it as a narinfo request
  (`Serve.NarNamedLikeNarInfo`).
* **Publish and load.** Entries come back from the registry as they were, exactly when
  every NAR size stays positive as a signed 64-bit integer: `readCache` only rejects a
  size of zero, so a size of 2^63 or more is published and then refused on load
  (`Manifests.OversizeIsRefused`).
* **A load beside a prune.** A load whose manifests disappear while it fetches them still
  succeeds and resolves every hash of a retained segment.
* **Deleting a batch.** In every interleaving of the concurrent deletions nothing is
  deleted that was not asked for; after success a retained segment is still served exactly
  when its tag shares no version with a deleted one, which the code does not ask.
* **Snapshot consistency.** In every interleaving of refreshes and requests a request
  sees the two maps of one load.
* **Copying ends.** A tree is copied exactly when no directory can be entered again below
  itself and every link met on the way can be followed or misses its target.
* **Canonical artifacts.** Two normalized trees have the same archive exactly when they
  hold the same paths, contents, link texts and executable files; one pass over the tree
  leaves no dangling link, in whatever order links lead to links. Two binaries are
  rewritten to the same bytes exactly when they differ only in the store hashes that match.

## Model

| member | source | states |
|---|---|---|
| Lexical.RelRoundTrip | cmd/binman/store.go:313-316 | joining a directory with the relative text made for a target, and cleaning, gives the target back, for all clean absolute paths |
| Lexical.RelRelocates | cmd/binman/store.go:313-316 | moving both ends under another prefix leaves the relative text as it is |
| Lexical.RelClimbs | cmd/binman/store.go:124-131 | the text between two paths below a root is relative and never climbs above that root |
| PathText.SplitJoin | cmd/binman/store.go:188-193 | joining components without a slash and splitting again gives the same components |
| PathText.JoinSplit | cmd/binman/store.go:188-193 | splitting any text at its slashes and joining gives the same text |
| PathText.AbsoluteText | cmd/binman/store.go:157-159 | a text is absolute for the model exactly when its first character is a slash |
| PathText.StripFirstAgrees | cmd/binman/store.go:222-229 | stripping the leading "./" and the first component means the same on characters and on components |
| PathText.StripFirstMeans | cmd/binman/store.go:222-229 | of a written name the first component goes, with a "./" before it, and of a name of one component nothing is left |
| PathText.WithinRootAgrees | cmd/binman/store.go:178-181 | for a root other than "/" the string-prefix test accepts exactly the proper descendants |
| PathText.NothingWithinSlash | cmd/binman/store.go:178-181 | with "/" as the root the test accepts no clean path at all |
| FileTree.ResolutionStaysIn | cmd/binman/store.go:167-176 | in a tree whose links climb only within it, no path that starts inside leaves it, through any links and for any link limit |
| FileTree.ResolveAlike | cmd/binman/store.go:434-439 | a confined tree resolves every path the same way after it is moved |
| Extract.ParentsOkIsRealAbove | cmd/binman/store.go:183-207 | the parent check accepts exactly the targets that have no file or link above them |
| Extract.EntryEffect | cmd/binman/store.go:86-153 | a successful entry had a target below the destination with no file or link above it, leaves there exactly the directory, file, link or second name it describes, and nothing else but missing parents |
| Extract.EntrySucceedsExactly | cmd/binman/store.go:86-153 | an entry is accepted exactly when its name is empty below the archive's top or names a place below the destination with no file or link above it, and its kind fits there: a directory on nothing, a directory or a link to one; a file on nothing or a file; a symbolic link that names a place below the destination, on anything but a full directory; a hard link, on nothing, to something below the destination that is no directory, wherever it lies |
| Extract.ExtractionIsConfined | cmd/binman/store.go:75-154 | wherever an extraction stops, nothing outside the destination has changed and every path from the destination stays in it when resolved |
| FirstError.ExtractionStops | cmd/binman/store.go:75-154 | a failed extraction has unpacked the entries before some entry, failed at that one, and done nothing for those after it |
| Disk.Volume.RejectSymlinkParents | cmd/binman/store.go:183-207 | the loop over the ancestors answers as the parent check |
| Disk.Volume.Unpack | cmd/binman/store.go:102-148 | the system calls for one checked entry leave the state and result of its specification, for each entry type |
| Disk.Volume.ExtractTarGz | cmd/binman/store.go:75-154 | the entry loop leaves the state and result of unpacking the sequence, also when it stops early |
| Archive.UnpackPacked | cmd/artifact/archive.go:41-101 | unpacking a packed tree into an empty directory succeeds exactly when every link is relative and lexically inside, and then the destination holds each packed path and nothing else |
| Archive.RoundTrip | cmd/artifact/archive.go:41-101 | for trees whose links are relative and never climb out, unpacking the archive succeeds and restores paths, contents and link targets, with modes up to the owner-write bit |
| Archive.PreorderFacts | cmd/artifact/archive.go:41-44 | the walk lists every path of the tree once, each after its parent |
| Archive.WriteArchive | cmd/artifact/archive.go:41-101 | appending header and body for each walked path gives the archive's entry sequence |
| Walks.ArchiveLists | cmd/artifact/archive.go:41-101 | one entry for each node of the tree, named by its path below the archive's name, a directory's with a slash at the end, with the node's content or link text and the owner-write bit forced, in the order of names, a directory before what it holds |
| Reproducible.ArchiveIsCanonical | cmd/artifact/archive.go:41-101 | wherever they lie, two trees give the same archive exactly when they hold the same paths, contents, link texts and, up to the owner-write bit, modes |
| Normalize.RemoveDanglingSymlinks | cmd/artifact/normalize.go:68-84 | the walk that removes links as it goes leaves the tree and result of its specification |
| Normalize.NoneDangles | cmd/artifact/normalize.go:68-84 | one walk is enough: exactly the links that led nowhere are gone, each remaining link leads somewhere, and every path leads where it led |
| Normalize.CleanStaysClean | cmd/artifact/normalize.go:68-84 | a second walk removes nothing |
| Normalize.CleaningSucceedsExactly | cmd/artifact/normalize.go:68-84 | the walk succeeds exactly when each link, with the links before it in the walk that lead nowhere already gone, can be followed or misses its target |
| Normalize.CleaningSucceeds | cmd/artifact/normalize.go:74-81 | in particular it succeeds where each link of the tree as it is can be followed or misses its target |
| FirstError.VisitingStops | cmd/artifact/normalize.go:68-84 | a failed cleaning has visited the paths before the link it cannot resolve and left that one and everything after it |
| Normalize.EarlierRemovalHelps | cmd/artifact/normalize.go:68-84 | that is not necessary: a link that cannot be resolved within the limit misses its target once an earlier dangling link is gone, and the walk succeeds |
| Normalize.NormalizeModes | cmd/artifact/normalize.go:356-388 | the walk gives every file below the root one of two modes and changes nothing else |
| Normalize.NormalizedMeans | cmd/artifact/normalize.go:356-388 | afterwards everyone may read a file of the tree and nobody may write it, everyone may run it exactly when someone could before, its content is as it was, and every other node is as before |
| Runnable.InstalledRunsAsBefore | cmd/artifact/normalize.go:356-388 | a file of a normalized, packed and installed tree lies in the package's store with its content, readable by all, writable by its owner alone, and runnable by all exactly when someone could run it in the source tree |
| Runnable.RecordRights | cmd/binman/store.go:40-47 | the record beside a package can be read by all and written by its owner |
| Reproducible.ArtifactIsCanonical | cmd/artifact/normalize.go:356-388 | the archive of a normalized tree depends exactly on paths, contents, link texts and executability |
| Walker.PackageWalker.WalkPath | cmd/binman/store.go:243-292 | the recursive walk appends exactly the collected files and leaves the set of open directories as it was, also when it fails |
| Walker.CollectPkgFiles | cmd/binman/store.go:236-297 | the walk as it runs returns the collected files of its specification |
| Collect.CollectedAreLinkable | cmd/binman/store.go:236-297 | the collected paths are distinct, none lies above another, and none is the metadata file |
| Collect.CollectIsComplete | cmd/binman/store.go:236-297 | every file of the package, and every link that leads to no directory, is collected under its own path |
| Collected.CollectedExactly | cmd/binman/store.go:236-297 | a path is collected exactly when it does not go through the metadata file, each of its proper prefixes leads to a directory, through links or not, and its last name is, in the directory the others lead to, a file or a link that leads to no directory |
| Collected.CollectSucceedsExactly | cmd/binman/store.go:236-297 | the walk succeeds exactly when the store leads to a directory and no path through the package comes to a directory again below itself or to one outside the package, and every link met on the way can be followed or misses its target |
| Walks.CollectedInOrder | cmd/binman/store.go:256-292 | the files are collected in the order of names, directory by directory |
| Order.LeqMeans | cmd/binman/store.go:258 | names are listed in the order of their first differing character, a beginning of another before it |
| Collect.CollectRelocates | cmd/binman/store.go:236-297 | moving a confined package, or changing only what its files hold, does not change what it offers |
| Aggregate.EnsureEffect | cmd/binman/store.go:334-372 | making an aggregate directory turns it and all above it into directories and touches nothing else |
| Aggregate.LinkFilesEffect | cmd/binman/store.go:303-332 | linking succeeds exactly when no destination is a directory; then each destination links to its own file below real directories and every other path is as before; directories always stay directories |
| FirstError.LinkingStops | cmd/binman/store.go:303-332 | a failed linking has linked the files before the first one at whose place a directory stands, and nothing after it |
| Aggregate.UnlinkFilesEffect | cmd/binman/store.go:378-402 | unlinking succeeds exactly when every parent check passes and removes exactly the destinations whose link names the package's file |
| FirstError.UnlinkingStops | cmd/binman/store.go:378-402 | a failed unlinking has dealt with the files before the first one that has a file or link above it, and left everything else |
| Aggregate.LinkedIsOwned | cmd/binman/store.go:404-420 | every link that linking makes is recognised as the package's own |
| Aggregate.UnlinkUndoesLink | cmd/binman/store.go:378-402 | after linking, unlinking succeeds, removes every destination and leaves all other paths as they were before the two calls, up to the directories made |
| Aggregate.UnlinkNeverBlocked | cmd/binman/store.go:378-402 | once linked, a package can be unlinked after any further link and unlink calls on that root, including failed ones |
| Aggregate.LinksRelocate | cmd/binman/store.go:313-327 | link texts do not depend on where the prefix lies |
| Aggregate.ClashExample | cmd/binman/store.go:303-332 | on the level of one link call: files "x" and "x/y" can be linked one after the other, and then the first cannot be linked again |
| Disk.Volume.EnsureAggregateDirAt | cmd/binman/store.go:334-372 | the component loop leaves the state of its specification |
| Disk.Volume.LinkPkg | cmd/binman/store.go:303-332 | the file loop leaves the state and result of linking the package |
| Disk.Volume.UnlinkPkg | cmd/binman/store.go:378-402 | the file loop leaves the state and result of unlinking the package |
| Disk.Volume.PlaceStoreAt | cmd/binman/store.go:426-445 | unlink, drop the old store, rename the staged one and link leave the state and result of the store swap |
| Install.SwapEffect | cmd/binman/store.go:434-439 | after the swap the store holds exactly the staged tree, the staging path is gone and nothing else has changed |
| Install.FillStageEffect | cmd/binman/install.go:148-156 | a filled staging directory is confined, holds the metadata record and is all that changed |
| StoreContents.FetchedStore | cmd/binman/install.go:132-159 | after a fetched commit the store holds, apart from the record, exactly what the archive unpacked to, whatever was there before |
| StoreContents.InstalledIsPacked | cmd/binman/install.go:132-159 | a tree packed by createArchive and fetched lies in the package's store path by path, with modes up to owner-write and links that name the same places inside the package |
| StoreContents.RelinkKeepsStore | cmd/binman/install.go:160-178 | a package that is not fetched keeps its store, apart from the record |
| StoreContents.LeftoverDropped | cmd/binman/install.go:88-112 | looking at a target drops a store without metadata and nothing else, and touches nothing of an installed package |
| StoreContents.NoStageLeft | cmd/binman/install.go:143-147 | however a fetched package's commit ends, at and below its staging directory there is what was there before, which is nothing unless the directory could not be made |
| StoreContents.FailedUnpackChangesNothing | cmd/binman/install.go:138-150 | a commit whose archive does not unpack changes nothing but that the directory of the stores exists |
| Installer.CommitFetchedAt | cmd/binman/install.go:136-159 | staging, unpacking, metadata and swap leave the state of the commit, and a failure removes the staging directory |
| Installer.CommitRelinkAt | cmd/binman/install.go:160-178 | an up-to-date package gets its links adjusted and, if they changed, its record rewritten |
| Installer.PrepareAll | cmd/binman/install.go:82-112 | the read-and-decide loop gives the jobs and drops the leftovers of its specification, and counts the fetches |
| Installer.CommitAll | cmd/binman/install.go:132-182 | the commit loop leaves the state and result of committing job by job up to the first error |
| Installer.InstallPackagePlan | cmd/binman/install.go:49-189 | the whole plan, with its checks, preparation and commits, leaves the state of its specification |
| Installer.InstallNamed | cmd/binman/install.go:32-45 | each named package once, with the given architecture and link state |
| Installer.UpgradeNamed | cmd/binman/install.go:358-396 | the recorded architecture and link state of each package, or of all installed ones, are upgraded |
| Installer.RemovePackage | cmd/binman/install.go:191-227 | removal unlinks at the root and in every profile and then drops the store |
| Installer.InstalledPackages | cmd/binman/install.go:229-250 | the loop over the stores lists the installed names of its specification |
| Installer.SyncPackages | cmd/binman/manifest.go:104-166 | install, rebuild of the profiles and prune leave the state and result of its specification |
| Prefix.ValidNameGrows | cmd/binman/main.go:33 | the names the pattern accepts, character by character: a letter or digit, then letters, digits, ".", "_" and "-" |
| Prefix.ValidNameIsPlain | cmd/binman/main.go:33 | such a name is one path component that begins with neither "." nor "-" and holds no slash, space or control character |
| Plan.ResolveTargets | cmd/binman/install.go:50-65 | accepted targets keep their names and link states, have valid names and a valid architecture, the plan's where none was given |
| Plan.ResolvesExactly | cmd/binman/install.go:50-65 | a plan is refused exactly for an invalid architecture of its own, or for a target whose name is invalid or whose architecture, its own or else the plan's, is |
| Plan.Prepares | cmd/binman/install.go:88-112 | preparation keeps the invariant, and each job carries the record that is on disk and is fetched unless it is up to date |
| Fetching.FetchDecision | cmd/binman/install.go:88-112 | each target becomes a job for what is published, fetched exactly when it is forced, the package is not on record, or its record has another digest |
| Fetching.FetchCount | cmd/binman/install.go:82-112 | as many packages are downloaded as are out of date in that sense; with --force, all of them |
| Plan.MetadataStillCurrent | cmd/binman/install.go:88-182 | with distinct names the metadata read for every job before the commit loop is still what is on disk when that job commits |
| FirstError.RefusedPlanChangesNothing | cmd/binman/install.go:50-80 | a plan with a target that is invalid or not published is refused before anything is done |
| FirstError.CommittingStops | cmd/binman/install.go:132-182 | a failed commit loop has committed the jobs before some job, failed at that one, and done nothing for those after it |
| Lifecycle.CommitJobKeeps | cmd/binman/install.go:132-178 | a committed job leaves its package installed as planned with its links in place and keeps the invariant of the prefix |
| Commands.RemoveKeeps | cmd/binman/install.go:191-227 | a removal keeps the invariant, leaves nothing of the store and does not change the other packages |
| Commands.InstalledNamesMeans | cmd/binman/install.go:229-250 | a sound prefix lists exactly the packages that have a metadata file, each once |
| Outcomes.InstallMeans | cmd/binman/install.go:32-45 | each named package ends up recorded as published with the asked architecture and link state, every other package is as it was |
| Outcomes.UpgradeMeans | cmd/binman/install.go:358-396 | upgrading installs nothing new, keeps each link state and, unless one is given, architecture, and leaves packages that are not named as they were |
| Fetching.PlanStores | cmd/binman/install.go:49-189 | after a successful plan the store of each target that was forced or out of date is what its published archive unpacks to, whatever lay there before; one that was up to date keeps its store, record aside, and every other store is as it was |
| Fetching.InstallStores | cmd/binman/install.go:32-45 | the same for the packages an install names |
| Fetching.UpgradeStores | cmd/binman/install.go:358-396 | an upgrade downloads exactly the packages that are published with another digest than is on record, and no other store changes |
| Outcomes.RemoveTakesOnly | cmd/binman/install.go:191-227 | a removal takes away the store, links that lexically name something in it, and nothing else |
| Outcomes.RemoveClears | cmd/binman/install.go:191-227 | afterwards neither the root nor any profile directory links to a file the package offered |
| Removal.RemoveSucceedsExactly | cmd/binman/install.go:191-227 | a package is removed exactly when it is installed under a valid name and, if there are profile directories, it can be collected and in none of them a file or link, whosever it is, lies above one of its paths |
| StuckPrune.ShownLinkBlocksRemoval | cmd/binman/install.go:191-227 | after any successful sync, a package with a path below a link that some profile shows cannot be removed |
| StuckPrune.ProfileBlocksPrune | cmd/binman/manifest.go:104-166 | of two packages of one file each, one in a profile and one under unlink with its file below the other's: the sync succeeds, the second cannot be removed, and the sync of the manifest without it, pruning, fails at the removal and leaves everything as it was, so that every repeat fails |
| StuckPrune.StuckExample | cmd/binman/manifest.go:104-166 | the same for "a" with x in profile "p" and "b" with x/y |
| ManifestPlan.PlanBuilder.Add | cmd/binman/manifest.go:80-90 | one mention either appends a target or raises the link state of the known one |
| ManifestPlan.InstallPlanOf | cmd/binman/manifest.go:77-102 | the loops over sections and sorted profiles build the plan of the manifest |
| ManifestPlan.PlanMeans | cmd/binman/manifest.go:75-102 | the plan has each mentioned package once in order of first mention, linked exactly when it is listed under link |
| ManifestPlan.PlanInOrder | cmd/binman/manifest.go:75-102 | packages under link come first in the plan, in their order, then those under unlink, then those of the profiles by the profiles' names |
| ManifestPlan.ValidConfigMeans | cmd/binman/manifest.go:46-73 | a manifest is accepted exactly when its architecture, if it has one, is valid, its profiles and all packages it mentions have valid names, and it mentions one |
| Manifest.SyncKeeps | cmd/binman/manifest.go:104-166 | a successful sync keeps the invariant of the prefix |
| SyncMeans.SyncMeans | cmd/binman/manifest.go:104-166 | a successful sync leaves each package the manifest mentions recorded as published for the flag's architecture or, without one, the manifest's if it has one, linked exactly when it is listed under link, its store downloaded if forced or out of date and otherwise kept; with pruning every other package is gone, and otherwise it is as it was |
| Manifest.EveryLinkHasAnOwner | cmd/binman/install.go:132-227 | from an empty prefix, after any run of successful commands, every link at the root lexically names a file still collected from an installed package recorded as linked |
| Contents.JobGenuine | cmd/binman/install.go:132-178 | a committed job, fetched or skipped, leaves every installed store as what an artifact published under its recorded digest unpacks to |
| Contents.EveryStoreIsGenuine | cmd/binman/install.go:49-227 | from an empty prefix, after any run of successful commands, every installed package's store holds exactly what an artifact published under its recorded digest unpacks to |
| Converge.InstallPlanSettles | cmd/binman/install.go:132-182 | after a successful plan the records are the published ones, real directories lie above every linked file and, without a clash, each path links to its last owner |
| Converge.PrepareSettled | cmd/binman/install.go:88-112 | preparing a settled plan again changes nothing and leaves nothing to fetch |
| Again.RerunChangesNothing | cmd/binman/install.go:160-182 | relinking a settled plan without a clash, in the same order, ends in the very same file system |
| Again.RerunFails | cmd/binman/store.go:318-321 | with a clash the second run fails at a directory standing where a link must go |
| Converge.InstallPlanAgain | cmd/binman/install.go:49-189 | installing a settled plan again succeeds exactly when no offered path lies above another's, and then nothing has changed |
| Sturdy.LinkedCanBeUnlinked | cmd/binman/store.go:378-402 | from an empty prefix, after any run of successful commands, every linked package can be unlinked at the root again |
| Succeeds.JobSucceeds | cmd/binman/install.go:132-178 | a job commits exactly when its archive unpacks into a fresh staging directory, if it is fetched, and no path it links is a directory |
| Succeeds.PlanSucceedsExactly | cmd/binman/install.go:49-189 | a plan succeeds exactly when its targets resolve and are published, each archive unpacks, each linked package can be collected, and no path it links is a directory or lies above one a target before it links |
| PlanOrder.UpperComesFirst | cmd/binman/install.go:132-178 | where a plan succeeds although one package's path lies above another's, the package with the upper path is listed first |
| Resync.RebuildAgain | cmd/binman/manifest.go:131-143 | dropping and rebuilding profiles that are already built gives back the same tree |
| Resync.PruneKeepsPlan | cmd/binman/manifest.go:148-164 | pruning other packages leaves the plan settled and the profile trees as they are |
| Profiles.RebuiltExposes | cmd/binman/manifest.go:131-143 | each path of a rebuilt profile is a directory if some listed package offers a path below it, otherwise the link of the last listed package that offers it, and otherwise absent |
| Profiles.SyncExposes | cmd/binman/manifest.go:104-166 | after a successful sync, pruning or not, this holds of every profile of the manifest, and no other profile has anything |
| Rebuilding.RebuildSucceedsExactly | cmd/binman/manifest.go:131-143 | the profile trees are rebuilt exactly when in each list every package can be collected and offers no path above one that a package before it offers |
| FirstError.ProfileStops | cmd/binman/manifest.go:135-142 | a failed profile has the links of the packages before some package, which fails, and of none after it |
| FirstError.PruningStops | cmd/binman/manifest.go:156-164 | a failed prune has removed the unwanted packages before some unwanted one, whose removal fails, and none after it |
| SyncSucceeds.PruneExactly | cmd/binman/manifest.go:148-164 | a prune succeeds exactly when each unwanted package could be removed on its own |
| SyncSucceeds.SyncSucceedsExactly | cmd/binman/manifest.go:104-166 | a sync succeeds exactly when its manifest is valid, its plan succeeds, each profile's list fits and, if it prunes, no profile shows a link above a path of a package that the manifest does not name |
| Fixpoint.SyncSettles | cmd/binman/manifest.go:104-166 | a successful sync leaves a settled plan with up-to-date profiles, and with pruning the installed packages are exactly the manifest's |
| Fixpoint.SyncConverges | cmd/binman/manifest.go:104-166 | the same sync again succeeds if and only if no offered path lies above another's, and then the whole file system is unchanged |
| ClashRun.TwoPackagesSync | cmd/binman/manifest.go:104-166 | two packages of one file each, synced into an empty prefix: the first sync succeeds unless the file of the one listed second lies above the other's, the same sync again unless either lies above the other |
| ClashRun.ClashingSync | cmd/binman/manifest.go:104-166 | packages with "x" and "x/y": listed in this order the first sync succeeds and the same sync again fails, the other way round the first sync fails already |
| Fixpoint.SyncFetchesNothing | cmd/binman/install.go:88-112 | the same sync again prepares every target without a fetch and without touching the file system |
| StoreRefs.NukeStoreReferences | cmd/artifact/normalize.go:199-213 | the left-to-right rewriting blanks the hash bytes of every match and no other byte |
| StoreRefs.MatchIsStorePath | cmd/artifact/normalize.go:21-23 | the pattern matches exactly where the text is "/nix/store/", 32 small letters and digits, and a dash |
| StoreRefs.MatchesApart | cmd/artifact/normalize.go:20-23 | two different matches of the pattern share no byte |
| StoreRefs.SameMatches | cmd/artifact/normalize.go:199-213 | rewriting neither loses nor creates a match |
| StoreRefs.NukeIsIdempotent | cmd/artifact/normalize.go:199-213 | rewriting a rewritten binary changes nothing |
| StoreRefs.NukeIsCanonical | cmd/artifact/normalize.go:199-213 | two binaries are rewritten alike exactly when they have the same matches and differ only in matched hashes |
| CopyTree.TreeCopier.CopyNodeTo | cmd/artifact/normalize.go:273-349 | the guarded recursive copy terminates, adds exactly the specified nodes and leaves the set of open directories as it was, also when it fails |
| CopyTree.CopyAll | cmd/artifact/normalize.go:252-271 | copying the entries of the resolved source root gives the copied tree of its specification |
| CopyTree.CopyIsFaithful | cmd/artifact/normalize.go:252-349 | every directory, file and link of the copy is what the same path in the source tree leads to, and each copied link is relative and led into the tree |
| CopyTree.CopyIsWhole | cmd/artifact/normalize.go:252-349 | every node lying in the source tree is in the copy: directories, files with their content, links that stay in the tree as they are, other links as what they lead to, and links that lead nowhere not at all |
| CopyTree.WithinByRel | cmd/artifact/normalize.go:351-354 | a path counts as inside a tree exactly when it does not begin by climbing as seen from its root, so that the root counts too |
| CopyCycles.CopySucceedsExactly | cmd/artifact/normalize.go:252-349 | the copy succeeds exactly when from the root no directory can be entered again below itself, through child directories and followed links, and every link met on the way can be followed or misses its target |
| CopyCycles.CopySucceeds | cmd/artifact/normalize.go:252-349 | in particular a tree none of whose links leads out of it, or by an absolute text, to a directory is copied without error |
| CopyCycles.CycleFails | cmd/artifact/normalize.go:264-315 | a followed link back to a directory that holds it, the root of the tree included although it is never marked as open, makes the copy fail |
| Segments.Sort | cmd/nixcache/registry.go:154-159 | sorting gives a permutation in which no element stands before one it should follow |
| Pruner.KeepFreshest | cmd/nixcache/prune.go:168-186 | as many snapshots as allowed are chosen and none is older than one left out, whatever the order of ties |
| Pruner.KeptSnapshots | cmd/nixcache/prune.go:152-184 | per system the kept snapshots are the newest ones by their newest segment |
| Pruner.RetainedSegmentsByPackage | cmd/nixcache/prune.go:192-223 | the marked tags are exactly the keyed segments of kept snapshots that are in the window or among the newest few of their group |
| Pruner.SegmentsToDelete | cmd/nixcache/prune.go:93-108 | the result lists, in input order, exactly the segments the policy does not retain, and counts the others |
| Retention.PruneCache | cmd/nixcache/prune.go:40-90 | the command refuses its arguments out of range, asks for nothing in a dry run or when nothing is to go, and otherwise for the versions of what the policy deletes, or for none if one has no version |
| Retention.KeptByRank | cmd/nixcache/prune.go:152-184 | a dated snapshot is kept if fewer than `keep` others of its system are at least as new and dropped if `keep` are newer, so that only ties leave a choice |
| Prune.GroupRetention | cmd/nixcache/prune.go:205-222 | a group keeps exactly the larger of min(packageKeep, its size) and the number in the window, and these are its newest |
| Retention.GroupLeft | cmd/nixcache/prune.go:93-223 | nothing is left of a group whose snapshot is dropped; where it is kept, all segments without a package key stay, and of a keyed group the newest, as many as lie in the window but at least `packageKeep` or all |
| Prune.Partition | cmd/nixcache/prune.go:93-108 | deleted and retained segments together are the input, each once |
| Prune.DeletedInOrder | cmd/nixcache/prune.go:93-108 | the segments to delete come in the order of the input |
| Prune.UndatedIsDeleted | cmd/nixcache/prune.go:160-162 | a snapshot with no segment dated after the epoch is never kept |
| Prune.PruneAgain | cmd/nixcache/prune.go:93-223 | running the policy on what it retained deletes nothing, however ties are broken on either run |
| Deletions.LookUp | cmd/nixcache/prune.go:121-128 | the version of every tag is looked up before anything is deleted, and one missing tag fails the whole batch |
| Deletions.BatchMeans | cmd/nixcache/prune.go:130-147 | in every interleaving at most eight goroutines are at work, nothing is deleted that was not asked for, and a nil result means everything was |
| Deletions.NoRequestAfterCancel | cmd/nixcache/prune.go:130-143 | once the context is cancelled a further request is sent only by a goroutine already past the test of the context |
| Deletions.FewRequestsAfterError | cmd/nixcache/prune.go:130-143 | when an error reaches the group, fewer goroutines than the limit are past that test, and they alone can still send |
| Deletions.BatchEnds | cmd/nixcache/prune.go:130-147 | no run is longer than five moves a deletion and one more, and a batch that has not ended can go on |
| Deletions.AvailableAfter | cmd/nixcache/prune.go:120-148 | after a nil result a tag is served exactly when it was before and no deleted tag lies on the same version |
| Deletions.PruneLeavesRetained | cmd/nixcache/prune.go:64-90 | where no two tags share a version, the published segments still served are exactly the retained ones |
| Deletions.SharedVersionIsLost | cmd/nixcache/prune.go:121-147 | a tag that shares its version with a deleted one is lost with it |
| Manifests.ReadCache | cmd/nixcache/push.go:59-104 | entries are accepted exactly when every narinfo passes the checks and there is one; they have exactly the files' store hashes, each with the entry made of the last file that has it |
| Manifests.CleanNarUrlMeans | cmd/nixcache/push.go:77-79 | a NAR URL is accepted exactly when it begins with "nar/" and cleaning it changes nothing |
| Manifests.PushSegment | cmd/nixcache/registry.go:401-481 | the tag appears exactly if the metadata, every NAR and the manifest were accepted, in whatever order the uploads finish; its manifest then has the metadata layer and one NAR layer per store hash in order, all of whose blobs are there |
| Manifests.ManifestMeans | cmd/nixcache/registry.go:259-301 | exactly the well-formed manifests without a repeated store hash are accepted, and each layer is found by its hash |
| Manifests.GetManifest | cmd/nixcache/registry.go:259-301 | the layer loop gives the manifest of its specification |
| Manifests.ValidateSegment | cmd/nixcache/registry.go:330-375 | the entry loop accepts exactly the valid segments, in whatever order the entries come |
| Manifests.AcceptedKeysAreLayerKeys | cmd/nixcache/registry.go:337-358 | in an accepted segment the entry keys are exactly the NAR layer keys |
| Manifests.GetSegment | cmd/nixcache/registry.go:303-328 | a segment is loaded from its manifest or refused as its specification says |
| Loadable.LoadsExactly | cmd/nixcache/registry.go:259-375 | a manifest loads exactly when its metadata is complete, lies under the tag of its own snapshot and system, and its other layers are those of entries that readCache could have made, each once and with a positive size, in any order |
| Loadable.LoadedBlobs | cmd/nixcache/registry.go:354-358 | the digest and size of each loaded entry are those of a layer of the manifest with its store hash, and the manifest lists no other layer |
| Manifests.PublishLoadRoundTrip | cmd/nixcache/registry.go:401-481 | what readCache accepted and pushSegment published is loaded back unchanged but for local paths exactly when every NAR size is below 2^63, and refused otherwise |
| Manifests.OversizeIsRefused | cmd/nixcache/push.go:84-97 | an entry of 2^63 bytes is accepted by readCache and pushed with a negative size, and its segment is refused on load |
| Loader.RegistryRequest | cmd/nixcache/registry.go:97-115 | at most three attempts, a further one only after a timeout in a live context, and the answer of the last attempt |
| Loader.Compact | cmd/nixcache/registry.go:236-241 | compaction in the same array gives the present segments in order |
| Loader.FetchSegments | cmd/nixcache/registry.go:210-244 | whatever order the workers finish in, the result is the found segments in tag order, or an error if any failed |
| Loader.ListSegments | cmd/nixcache/registry.go:145-162 | the found segments come back oldest first, ties by tag |
| Loader.LoadEntries | cmd/nixcache/registry.go:377-392 | each store hash has the entry of the newest loaded segment that holds it |
| Loader.IndexIgnoresOrder | cmd/nixcache/registry.go:377-392 | the index does not depend on the order in which the registry lists the tags |
| Loader.LastDecides | cmd/nixcache/registry.go:154-159 | of the segments with a hash the one created last decides, and of those created at the same time the one with the greatest tag |
| CacheRun.ListTags | cmd/nixcache/registry.go:117-143 | of the listed tags those with the prefix, or without one all segment tags, are loaded |
| CacheRun.LoadMeans | cmd/nixcache/registry.go:377-392 | a load returns an index exactly when every matching manifest loads |
| CacheRun.IndexMeans | cmd/nixcache/registry.go:377-392 | in it a hash resolves exactly when some matching segment of the registry holds it, and to the entry of the newest that does |
| Snapshots.UnderPrefixExactly | cmd/nixcache/registry.go:502-516 | a tag made for one snapshot and system lies under the prefix of another exactly when the snapshots share their first sixteen characters after "sha256:" and the tag goes on with the other system and a dash; where neither system continues the other after a dash, exactly when the systems are equal too |
| Snapshots.ApartExactly | cmd/nixcache/registry.go:502-516 | whatever follows the prefix, the tags of two systems are told apart exactly when neither system continues the other after a dash |
| Snapshots.SystemsApart | cmd/nixcache/model.go:92-103 | systems with one dash each are told apart |
| Snapshots.LongerSystemIsListed | cmd/nixcache/registry.go:510-516 | a segment for "x86_64-linux" lies under the prefix of the system "x86_64" |
| Snapshots.SnapshotIndex | cmd/nixcache/registry.go:377-392 | where its system is told apart from the others, an index loaded for a snapshot has exactly the store hashes of that snapshot's and system's own segments, each with the entry of the newest of these |
| CacheRun.PublishThenServe | cmd/nixcache/registry.go:377-481 | after a publish the load succeeds exactly when the new NAR sizes fit and the other manifests load; then each published hash resolves, to the published entry unless a newer segment holds it |
| CacheRun.LoadedIsServed | cmd/nixcache/serve.go:87-121 | each hash of a loaded index has its narinfo served, and its URL leads to the NAR exactly when it does not end in ".narinfo" and the blob can be read |
| CacheRun.SurvivorsAreRetained | cmd/nixcache/prune.go:64-90 | after a run of the deletions that returned nil, with one version a tag, the registry still holds exactly the retained segments |
| CacheRun.PruneThenLoad | cmd/nixcache/prune.go:64-108 | a load after that succeeds, and a hash resolves exactly when a retained segment under the prefix holds it, to the entry of the newest that does |
| CacheRun.PruneThenServe | cmd/nixcache/prune.go:192-223 | in particular every store hash in the newest segment of each group of a kept snapshot still resolves |
| CacheRun.EntryKeptExactly | cmd/nixcache/prune.go:93-108 | a hash keeps its entry over the prune exactly when the newest segment with it is retained, or the newest retained one agrees with it |
| CacheRun.OverlapSeesFound | cmd/nixcache/registry.go:210-243 | a load whose listed manifests may disappear while it fetches them goes as one of a registry that stood still somewhere in between |
| CacheRun.RetainedSurvive | cmd/nixcache/prune.go:120-148 | at no moment of the deletions, finished, failed or under way, is a retained segment gone |
| CacheRun.LoadDuringPrune | cmd/nixcache/registry.go:210-243 | a load that overlaps a prune succeeds; every hash of a retained segment resolves, and a resolved hash has the entry of a listed segment than which no retained one with the hash is newer |
| Serve.NarsByUrl | cmd/nixcache/serve.go:59-62 | the URL map has exactly the entries' NAR URLs, each with an entry of that URL |
| Serve.CacheIndex.Refresh | cmd/nixcache/serve.go:52-70 | a failed load changes nothing and a successful one replaces both maps consistently |
| Serve.CacheIndex.Serve | cmd/nixcache/serve.go:72-128 | the request switch answers as its specification, for every method and blob outcome |
| Serve.InfoAnswersExactly | cmd/nixcache/serve.go:73-88 | other methods than GET and HEAD are refused; the cache information is answered exactly when the index is ready, and before that the same request is told so |
| Serve.NarInfoAnswersExactly | cmd/nixcache/serve.go:89-100 | a request for a narinfo is answered with it exactly when the index has the hash |
| Serve.NarAnswersExactly | cmd/nixcache/serve.go:101-125 | a request for a NAR of the index is answered with it, with its headers for HEAD, or with the error that its blob cannot be read; these answers are given for nothing else |
| Serve.HeadFindsWhatGetFinds | cmd/nixcache/serve.go:73-121 | HEAD finds exactly what GET finds, and answers for a NAR without asking for its blob |
| Serve.NarInfoLeadsToNar | cmd/nixcache/serve.go:87-121 | a narinfo is found under its hash, and its clean URL leads to a NAR of that URL in the same index exactly when it does not end in ".narinfo" and the blob can be read |
| Serve.NarNamedLikeNarInfo | cmd/nixcache/serve.go:89-106 | an entry with the URL "nar/x.narinfo" passes every check; its narinfo is served and its NAR is not found |
| Interleaving.StepIsSafe | cmd/nixcache/serve.go:64-67 | every step of any refresher or request keeps the lock discipline and the consistency of the maps |
| Interleaving.ReadersSeeOneLoad | cmd/nixcache/serve.go:52-107 | in every interleaving a reader sees the two maps of one load, and a ready index those of a completed one |
| Interleaving.ReadyMeansLoaded | cmd/nixcache/serve.go:141-170 | a client that has been answered the cache information finds the maps of a completed load ever after, whatever happens in between |

## Left out

- Names in a file system are values: a hard link copies the node it names, so a later write through one name is not seen through the other.
- Hard links whose source is itself a symbolic link: what link(2) does with them depends on the platform; the confinement theorem asks that no entry makes one, and the lifecycle theorems that no archive also puts a symbolic link where a hard link points (`Install.Tame`).
- Archives with a top-level `store` or `profile` entry: their links would land in the bookkeeping directories of the prefix; the lifecycle theorems assume there are none.
- A prefix that is not a real directory, or whose `store` or `profile` is a link.
- Partial failures inside one system call, crash points, permissions and the umask: the code is deliberately not transactional, so the properties of runs are about operations that return nil; what a loop leaves that failed on the way is said in `FirstError`.
- The bytes of gzip, tar, JSON, YAML and narinfo, and SHA-256: archives are entry sequences, documents are records, and a blob stands for its digest.
- How a command comes by its prefix (flag, environment or manifest): the prefix is given.
- `installed_at`, the download cache directory, temporary file names, logging and printing.
- Archive names of more than one component: binman strips only the first.
- CopyTree.CopyNodeTo: what a failed copy has written by then is not modelled, because the build ends with its error.
- A copy destination that lies inside the copied tree, and special files.
- The text rewrites of `cmd/artifact/normalize.go`: deleting store paths by a regular expression can join new matches, so that no general property of the result holds.
- ELF and Mach-O inspection, stripping, wrapper renames, the fixed list of removed directories, and the file list `regularFiles` they work on: they depend on binary formats and naming conventions, not on the tree.
- Normalize.NormalizeModes: the modes of directories, which the code also sets, are not modelled, because directories have none here.
- `cacheSize` of `cmd/nixcache/prune.go`, a sum that is only displayed; of the GitHub packages API no more than that a tag has one version, or none.
- HTTP, authentication and the registry protocol; timeouts are outcomes of an attempt.
- UnixNano of instants outside its range, and a retention window whose duration overflows: instants and windows are unbounded integers.
- Archive.RoundTrip: the mode of a directory and all times are not modelled, because the extractor does not restore them.
- Succeeds.PlanSucceedsExactly: the staging directory's name is given, so that it is fresh is one of the conditions.
- Loader.ListSegments: it starts from the listed tags; `CacheRun.ListTags` is the listing with its prefix.
- CopyTree.CopyIsFaithful: it does not claim that a link copied through an absolute link to a directory still leads to the same file, because the code keeps the inner relative text.
- Manifests.PublishLoadRoundTrip: the run identifier, commit and channels of a segment are carried but not modelled.
