# Asset manager synchronisers, modelled in Dafny

This project models the core of a Composer plugin that publishes a package's
web assets into a project. A package declares its asset directories in
`config/module.config.php` under `asset_manager.resolver_configs.paths`. Every
immediate subdirectory of such a path is an asset *namespace*.

- **Install** (`AssetInstaller`) copies every namespace tree into
  `<project>/public/<ns>/…`, keeping relative paths and bytes. It records each
  namespace as the line `<ns>/` of `public/.gitignore`, the *ledger*, unless
  that exact line is already there.
- **Uninstall** (`AssetUninstaller`) reads the ledger once. It deletes
  `public/<ns>` recursively only when `<ns>/` is one of the ledger lines held
  in memory *and* the directory exists. It then drops the first matching line
  and writes the remaining lines back once, after the loop.
- **The configuration classifier** (`UnparseableTokensTrait`) is a predicate
  over a token stream. It rejects the stream when any array token has one of
  nine kinds.

The filesystem is a value `Disk(files, dirs)`. Paths are sequences of
segments. `Valid` says the disk is a tree: the root is a directory, no path is
both a file and a directory, every entry's parent is a directory, and every
segment is a proper name. Both synchronisers are classes that own a `disk`
field. The uninstaller also owns the `gitignore` field. Their methods change
these fields step by step, with the loops of the source. Each method is proved
equal to a specification function of the old state.

PHP does not fix the order of directory listings, so each method returns,
as a ghost value, the order it happened to use. The specification functions
take that order as a parameter, and the properties are proved for every
order.

Files:

- `filesystem.dfy` (`FileSystem`): the disk, the PHP filesystem calls and path strings.
- `ledger.dfy` (`Ledger`): splitting and joining ledger text, appending and removing lines.
- `package_config.dfy` (`PackageConfig`): the configuration value, its guards and the project layout.
- `tree_copy.dfy` (`TreeCopy`): the recursive copy.
- `install.dfy`, `install_properties.dfy` and `install_placement.dfy`: the install synchroniser, its ledger, and where a run writes.
- `uninstall.dfy` and `uninstall_properties.dfy`: the uninstall synchroniser.
- `round_trip.dfy`: install followed by uninstall.
- `path_text.dfy` (`PathText`): the copy's string arithmetic (see Findings).
- `unparseable_tokens.dfy`: the classifier.

## Model

| member | source | states |
|---|---|---|
| Install.AssetInstaller.constructor | src/AssetInstaller.php:38-43 | the project path starts as the working directory |
| Install.AssetInstaller.SetProjectPath | src/AssetInstaller.php:50-53 | the project path becomes the argument |
| Install.AssetInstaller.Invoke | src/AssetInstaller.php:58-87 | if there is no `public/` dir, no config file, or the config value fails the `paths` guards, the disk is unchanged; otherwise the disk stays a tree and equals `InstallPaths` over the declared paths in order, each visited in a listing order that fits the disk at that point |
| Install.AssetInstaller.CopyAssets | src/AssetInstaller.php:95-116 | a path that is not a directory is skipped; otherwise the order visits each subdirectory except "." and ".." exactly once, plain files are ignored, and the disk is the fold of copy-then-record over that order |
| Install.AssetInstaller.Copy | src/AssetInstaller.php:124-143 | whatever order the iterator yields the files in, the disk ends as `CopyTree` of the old disk and stays a tree |
| Install.AssetInstaller.UpdateGitignore | src/AssetInstaller.php:151-170 | the disk becomes `RecordNamespace` of the old disk and stays a tree |
| Install.LedgerText | src/AssetInstaller.php:153-159 | a missing ledger reads as ''; a file reads as its bytes; a directory yields None and no write follows, as in PHP, where `file_get_contents` gives `false` or '' there and the write onto a directory fails either way |
| Install.RecordNamespace | src/AssetInstaller.php:151-170 | only the ledger path may change; no directory changes |
| Install.InstallNamespacesStep | src/AssetInstaller.php:103-115 | the fold over namespaces extends by one copy-then-record per further namespace |
| Install.InstallPathsStep | src/AssetInstaller.php:84-86 | the loop over declared paths extends by one path, and the fit of the orders extends with it |
| InstallProperties.RecordNamespaceLedger | src/AssetInstaller.php:161-169 | on a writable ledger the new lines are the old lines plus `ns/` at the end, exactly when `ns/` was missing; when it was present the disk is untouched |
| InstallProperties.RecordNamespaceIdempotent | src/AssetInstaller.php:163-165 | recording the same namespace twice equals recording it once |
| InstallProperties.InstallOneLedger | src/AssetInstaller.php:113-114 | copying a namespace never touches the ledger; afterwards the ledger gains `ns/` exactly when it was missing, and the disk stays a tree with a writable ledger |
| InstallProperties.InstallNamespacesLedger | src/AssetInstaller.php:103-115 | for every listing order: old ledger lines stay first and in order, only entries of visited namespaces are added, every visited namespace is recorded, and no line is duplicated if none was; when all were already recorded the ledger file is unchanged |
| InstallProperties.InstallPathLedger | src/AssetInstaller.php:96-115 | one `copyAssets` call, whether it copies or returns early because the path is not a directory: the disk stays a tree with a writable ledger, and the ledger grows as in `InstallNamespacesLedger` (old lines first, only visited entries added, all visited recorded, no duplicates, unchanged when all were recorded) |
| InstallProperties.InstallPathsLedger | src/AssetInstaller.php:84-86 | over a whole `__invoke` with several declared paths and any listing orders: the disk stays a tree with a writable ledger, old lines stay first and in order, only entries of visited namespaces are added, every visited namespace is recorded, no line is duplicated if none was, and when all were already recorded the ledger file is unchanged |
| InstallProperties.LedgersGrowTrans | src/AssetInstaller.php:84-86 | the growth facts of the ledger compose from one declared path to the next |
| InstallProperties.LedgerLinesStep | src/AssetInstaller.php:163-167 | the growth facts of the ledger carry over one more namespace |
| InstallProperties.ReinstallKeepsLedger | src/AssetInstaller.php:163-165 | a second run over namespaces already installed leaves the ledger file byte for byte as it was |
| InstallProperties.FirstRecordIntoMissingLedger | src/AssetInstaller.php:153-169 | the first namespace recorded into a missing ledger writes the text "\n" + ns + "/" |
| InstallProperties.NoDirectoryNoChange | src/AssetInstaller.php:97-99 | when no declared path names a directory, the run changes nothing |
| InstallPlacement.InstallOneWrites | src/AssetInstaller.php:113-114 | one namespace copied then recorded: nothing is removed; a file changes or appears only at or below `public/<ns>` or as the ledger; a directory appears only there or on the way to `public/` |
| InstallPlacement.WritesTrans | src/AssetInstaller.php:84-86 | the write frame composes over consecutive namespaces and declared paths, their visited names adding up |
| InstallPlacement.InstallNamespacesWrites | src/AssetInstaller.php:103-115 | `copyAssets` in any listing order writes only at or below the namespaces it visits, on the way to `public/`, and the ledger; nothing is removed |
| InstallPlacement.InstallPathWrites | src/AssetInstaller.php:96-115 | the same for one declared path, including the early return for a path that is not a directory |
| InstallPlacement.InstallTouchesOnlyVisited | src/AssetInstaller.php:84-86 | over a whole `__invoke` with any listing orders: nothing is removed; a file other than the ledger keeps its bytes unless it lies at or below `public/<ns>` for a visited `ns`; new files appear only there or as the ledger; new directories only there or on the way to `public/` |
| InstallPlacement.RecordNamespaceValid | src/AssetInstaller.php:151-170 | `updateGitignore` keeps the disk a tree |
| InstallPlacement.InstallNamespacesValid | src/AssetInstaller.php:103-115 | `copyAssets` keeps the disk a tree, whatever it visits |
| InstallPlacement.InstallPlacesFiles | src/AssetInstaller.php:103-142 | `copyAssets` in any listing order over namespaces new to `public/`: every regular file below `<path>/<ns>` of a visited `ns` ends at the same relative path below `public/<ns>` with identical bytes |
| InstallPlacement.PlacedOneMore | src/AssetInstaller.php:113-114 | copying one more fresh namespace places its files and overwrites no destination of an earlier namespace |
| InstallPlacement.FreshInMid | src/AssetInstaller.php:113 | when a fresh namespace's turn comes, still nothing exists at or below its `public/<ns>`: earlier namespaces wrote only below their own directories and the ledger |
| InstallPlacement.SourceKept | src/AssetInstaller.php:135 | a source file still has its original bytes when its namespace is copied, as long as the namespace directory does not hold `public/` |
| TreeCopy.Target | src/AssetInstaller.php:126-136 | the destination of a source file is its path below the parent of `src`, re-rooted at `dest` (the intended cut, see Findings) |
| TreeCopy.CopyStep | src/AssetInstaller.php:130-142 | one more file, in any order: `mkdir` of its directory when that is not yet a directory, then `copy`, takes the state for the files done so far to the state for one file more |
| TreeCopy.CopyStepDirs | src/AssetInstaller.php:137-140 | the recursive `mkdir` adds exactly the prefixes of the destination directory, unless a file lies on that path |
| TreeCopy.CopyStepFiles | src/AssetInstaller.php:141 | the destination gets the source bytes exactly when the copy can land |
| TreeCopy.RoomForTarget | src/AssetInstaller.php:137-141 | after the `mkdir`, the copy finds its directory and no directory at its destination exactly when the file is placeable |
| TreeCopy.FileOnPathUnchanged | src/AssetInstaller.php:137-141 | earlier copies never put a file on the path of a later destination directory |
| TreeCopy.TargetNotMadeDir | src/AssetInstaller.php:131-141 | no destination file is a directory the copy made |
| TreeCopy.CopyTreeValid | src/AssetInstaller.php:124-143 | copying keeps the disk a tree |
| TreeCopy.CopyTreePlaces | src/AssetInstaller.php:135-141 | each placeable source file lands at its destination with identical bytes |
| TreeCopy.CopyTreeEffect | src/AssetInstaller.php:124-143 | placeable files are copied with their bytes; files outside `dest/<ns>` keep their bytes, and so does every file inside it that is no copy destination (such as a file of the project's own under `public/<ns>`); every new file or directory lies below `dest/<ns>` or on the way to `dest` |
| TreeCopy.ShallowFilesKept | src/AssetInstaller.php:136 | a path at most one segment below `dest` (such as the ledger) is never written by the copy |
| TreeCopy.SiblingNotMade | src/AssetInstaller.php:137-140 | a sibling of `dest/<ns>` that is not a directory does not become one |
| TreeCopy.CopyIntoFreshNamespace | src/AssetInstaller.php:124-143 | into a namespace that does not exist yet, every source file is placed with its bytes and no other file is added |
| TreeCopy.FreshCopyUndone | src/AssetInstaller.php:124-143 | removing the new namespace tree after such a copy gives back the old disk |
| TreeCopy.FreshCopyMakesTop | src/AssetInstaller.php:137-140 | a namespace with at least one file gets its directory `dest/<ns>` |
| TreeCopy.TargetBelowTop | src/AssetInstaller.php:136 | every destination lies strictly below `dest/<ns>` |
| TreeCopy.MadeDirsWhere | src/AssetInstaller.php:139 | the directories made lie below `dest/<ns>` or on the way to `dest` |
| TreeCopy.OriginOfTarget | src/AssetInstaller.php:136 | the source file can be recovered from its destination |
| PathText.TrimmedNameAtRoot | src/AssetInstaller.php:126-136 | as written, the cut for the source "/css" turns "/css/a.css" into "ss/a.css"; the intended cut gives "css/a.css" |
| PathText.TrimmedNameBelowRoot | src/AssetInstaller.php:126-136 | as written, the cut is right whenever the source directory is not directly under "/" |
| PathText.TrimmedLandsOnTarget | src/AssetInstaller.php:126-136 | with the intended cut, "<destination>/<name>" is the text of `TreeCopy.Target` for every source directory |
| PathText.JoinAppend | src/AssetInstaller.php:136 | joining two runs of segments puts one "/" between them |
| Uninstall.AssetUninstaller.constructor | src/AssetUninstaller.php:41-46 | the project path starts as the working directory and no ledger lines are held |
| Uninstall.AssetUninstaller.SetProjectPath | src/AssetUninstaller.php:53-56 | the project path becomes the argument |
| Uninstall.AssetUninstaller.Invoke | src/AssetUninstaller.php:61-103 | if there is no `public/` dir, no ledger, no config file, or no declared paths, nothing changes; otherwise the ledger is read once, the loop equals `RemovePaths` from that ledger over fitting listing orders, the field holds the remaining lines, and the disk is the loop's disk with those lines written back joined by "\n" |
| Uninstall.AssetUninstaller.RemoveAssets | src/AssetUninstaller.php:111-144 | a path that is not a directory is skipped; otherwise each subdirectory is visited once, and the disk and held lines equal `RemoveNamespaces` over that order: a tree goes only when its line is held and its directory exists, and then the first such line is dropped |
| Uninstall.AssetUninstaller.Remove | src/AssetUninstaller.php:151-166 | whatever the listing order, the disk ends as `RemoveTree(old disk, tree)`: everything at or below `tree` is gone and nothing else changes |
| Uninstall.AssetUninstaller.FetchIgnoreRules | src/AssetUninstaller.php:174-178 | at least one line, none holding a break; an unreadable ledger gives [""]; without '\r', joining the lines with "\n" gives the file back |
| Uninstall.RemoveChildDir | src/AssetUninstaller.php:157-159 | removing a child directory recursively removes its subtree, which is strictly smaller, so the recursion ends |
| Uninstall.RemoveChildFile | src/AssetUninstaller.php:162 | a child that is not a directory is a file with nothing below it, so `unlink` removes exactly it |
| Uninstall.RemovedAllChildren | src/AssetUninstaller.php:165 | once all children are gone `rmdir` succeeds, and the result is the tree removed |
| Uninstall.RemoveChildrenValid | src/AssetUninstaller.php:155-163 | removing whole child subtrees keeps the disk a tree |
| Uninstall.RemoveNamespacesStep | src/AssetUninstaller.php:117-143 | the fold over namespaces extends by one per further namespace |
| Uninstall.RemoveNamespacesValid | src/AssetUninstaller.php:111-144 | removing namespaces keeps the disk a tree |
| Uninstall.RemovePathsValid | src/AssetUninstaller.php:98-100 | the loop over declared paths keeps the disk a tree |
| Uninstall.RemovePathsStep | src/AssetUninstaller.php:98-100 | the loop over declared paths extends by one path, and the fit of the orders extends with it |
| UninstallProperties.RemoveNamespaceShrinks | src/AssetUninstaller.php:129-142 | one namespace: only its own tree can go, only with its line present, and only that line is dropped |
| UninstallProperties.RemoveNamespacesShrinks | src/AssetUninstaller.php:117-143 | over any listing order, nothing appears, no bytes change, whatever goes is authorised by a line of the starting ledger for a visited namespace, and unrelated lines keep their counts |
| UninstallProperties.RemovePathsShrinks | src/AssetUninstaller.php:98-100 | the same over all declared paths, against the ledger read at the start |
| UninstallProperties.ShrinksTrans | src/AssetUninstaller.php:98-143 | two stretches that each only take away compose into one |
| UninstallProperties.RemoveNamespacesRemoves | src/AssetUninstaller.php:129-142 | every visited namespace that is recorded and present at the start is gone afterwards, tree and all, and its line count drops |
| UninstallProperties.NothingRecordedNothingRemoved | src/AssetUninstaller.php:130-133 | if no visited namespace is recorded, `removeAssets` changes nothing |
| UninstallProperties.NothingRecordedPaths | src/AssetUninstaller.php:98-100 | the same over all declared paths |
| UninstallProperties.NothingToUninstall | src/AssetUninstaller.php:94-102 | a run where no visited namespace is recorded leaves the project byte-identical, ledger included, when the ledger has no '\r' |
| UninstallProperties.UninstallTouchesOnlyRecorded | src/AssetUninstaller.php:61-103 | over a whole run no directory appears, no file other than the ledger appears or changes bytes, and every file or directory that goes is authorised by the ledger read at the start |
| UninstallProperties.UnrecordedTreeKept | src/AssetUninstaller.php:129-133 | a namespace whose line is not in the starting ledger keeps its whole tree, bytes included |
| UninstallProperties.UnrecordedNotAuthorised | src/AssetUninstaller.php:129-133 | nothing at or below `public/<ns>` is authorised when `ns/` is not a line |
| UninstallProperties.MissingDirectoryKeepsLine | src/AssetUninstaller.php:135-139 | a namespace with no directory `public/<ns>` keeps every copy of its line, and no such directory appears |
| UninstallProperties.NoDirectoryNothingRemoved | src/AssetUninstaller.php:117-143 | when no visited namespace has a directory `public/<ns>`, `removeAssets` leaves disk and held lines unchanged, whatever the ledger lists |
| UninstallProperties.NoDirectoryPaths | src/AssetUninstaller.php:98-100 | the same over the loop on all declared paths |
| UninstallProperties.MissingDirectoriesKeepLedger | src/AssetUninstaller.php:94-102 | a run whose visited namespaces have no `public/<ns>` leaves the project byte-identical, ledger included, even when the ledger lists them, provided it has no '\r' |
| UninstallProperties.UninstallEveryListedNamespace | src/AssetUninstaller.php:94-102 | when the ledger read is an empty first line followed by distinct entries of namespaces the run visits, each present as `public/<ns>`, the lines written back are [""] and the file becomes '', whatever the listing orders and however the namespaces are spread over the declared paths |
| UninstallProperties.NoRecordedEntryLeft | src/AssetUninstaller.php:129-142 | after such a run no line left is the entry of a visited namespace |
| UninstallProperties.RecordedVisitedDropped | src/AssetUninstaller.php:98-142 | over a whole run, a visited namespace that is recorded and present as `public/<ns>` at the start loses a copy of its line, whichever declared path lists it |
| UninstallProperties.RecordedVisitedRemoved | src/AssetUninstaller.php:135-141 | the same namespace loses its whole tree `public/<ns>` |
| UninstallProperties.RemovePathRemoves | src/AssetUninstaller.php:113-142 | a declared path whose listing holds a recorded namespace present as `public/<ns>` drops one of its lines |
| UninstallProperties.RemovePathsKeepsOthers | src/AssetUninstaller.php:98-100 | over a whole run the lines that are not entries of visited namespaces keep their number and their relative order |
| UninstallProperties.RemoveNamespacesKeepsOthers | src/AssetUninstaller.php:117-143 | the same for one `removeAssets` |
| UninstallProperties.OthersRemoveFirst | src/AssetUninstaller.php:142 | dropping the first entry of a visited namespace leaves the other lines as they were, in order |
| UninstallProperties.Others | src/AssetUninstaller.php:142 | the kept lines are lines of the ledger, none the entry of a visited namespace |
| UninstallProperties.RemoveNamespaceFollows | src/AssetUninstaller.php:135-142 | for one namespace, `public/<ns>` goes exactly together with one of its lines |
| UninstallProperties.RemoveNamespacesFollows | src/AssetUninstaller.php:117-143 | over `removeAssets`, a directory `public/<ns>` goes only with a line of `ns`, and a line goes only with the directory |
| UninstallProperties.RemovePathsFollows | src/AssetUninstaller.php:98-100 | the same over the whole loop of `__invoke` |
| UninstallProperties.FollowsTrans | src/AssetUninstaller.php:98-143 | two stretches where lines and trees go together make one |
| UninstallProperties.NothingBelowGone | src/AssetUninstaller.php:151-166 | on a tree, nothing remains at or below a directory that has gone |
| UninstallProperties.SiblingNotAuthorised | src/AssetUninstaller.php:135 | `public/<ns>` is not below `public/<x>` for any other namespace `x` |
| UninstallProperties.EntryForInjective | src/AssetUninstaller.php:129 | distinct namespaces have distinct ledger lines |
| RoundTrip.InstallThenUninstall | src/AssetInstaller.php:113-114 | installing a new, non-empty namespace and then uninstalling it, with the ledger written back, gives the original disk byte for byte (ledger without '\r') |
| RoundTrip.FreshInstall | src/AssetInstaller.php:113-114 | installing a new namespace appends its line to the old ledger text, leaves the ledger writable, makes `public/<ns>`, and removing that tree undoes the copy |
| Ledger.SplitLines | src/AssetUninstaller.php:177 | at least one line, none holding "\r" or "\n"; a text without breaks is its own single line |
| Ledger.SplitJoin | src/AssetInstaller.php:162-169 | splitting what was joined with "\n" gives the lines back, when no line holds a break |
| Ledger.JoinSplit | src/AssetUninstaller.php:177 | joining what was split gives the text back, when it holds no '\r' |
| Ledger.CrLfIsNormalised | src/AssetUninstaller.php:177 | a "\r\n" ledger is written back with "\n" |
| Ledger.EntryFor | src/AssetUninstaller.php:129 | the entry is the namespace followed by one "/" |
| Ledger.IndexOf | src/AssetUninstaller.php:142 | `array_search`: None exactly when the line is absent; otherwise the first index holding it |
| Ledger.RemoveFirst | src/AssetUninstaller.php:142 | an absent line leaves the lines unchanged |
| Ledger.RemoveFirstSplits | src/AssetUninstaller.php:142 | a present line is dropped at its first occurrence, and the lines before and after keep their order |
| Ledger.RemoveFirstCounts | src/AssetUninstaller.php:142 | exactly one copy of the line goes and nothing else |
| Ledger.RemoveSecond | src/AssetUninstaller.php:142 | a line second after a different first line is the one dropped |
| Ledger.AppendEntry | src/AssetInstaller.php:161-169 | no write exactly when `ns/` is already a line |
| Ledger.AppendEntryLines | src/AssetInstaller.php:167-169 | the written text splits into the old lines followed by `ns/` |
| Ledger.AppendEntryIdempotent | src/AssetInstaller.php:163-165 | after an append, the same namespace is not appended again |
| Ledger.AppendEntryKeepsNoDuplicates | src/AssetInstaller.php:163-167 | the installer never duplicates a ledger line |
| Ledger.AppendKeepsNoDuplicates | src/AssetInstaller.php:167 | appending a line that is absent keeps the lines distinct |
| Ledger.AppendEntryToMissingLedger | src/AssetInstaller.php:153-169 | the empty ledger gains the text "\n" + ns + "/" |
| Ledger.AppendThenRemove | src/AssetInstaller.php:167-169 | appending and then removing the entry gives the lines back, and the text byte for byte without '\r' |
| Ledger.ThreeEntryLedger | src/AssetUninstaller.php:177 | "\na/\nb/\nc/" splits into an empty line and the entries of a, b and c |
| PackageConfig.DeclaredPaths | src/AssetInstaller.php:74-82 | a result is given exactly when the config is an array, `['asset_manager']['resolver_configs']['paths']` is set and non-null at every level, and `paths` is an array |
| PackageConfig.DeclaredPathsOfAssetConfig | src/AssetInstaller.php:75-82 | a package declaring its paths the documented way gets exactly those paths back, in order |
| PackageConfig.NothingDeclared | src/AssetInstaller.php:75-80 | an empty array, a string, null, a null `paths` or a string `paths` declare nothing |
| PackageConfig.Lookup | src/AssetInstaller.php:76 | None exactly when no entry has the key; otherwise the value of an entry with that key |
| PackageConfig.Field | src/AssetInstaller.php:76 | `isset` holds only on an array with a non-null value under the key |
| PackageConfig.Values | src/AssetInstaller.php:84 | `foreach` visits the values in entry order |
| PackageConfig.DeclaredDir | src/AssetInstaller.php:97 | a declared directory has proper segment names |
| PackageConfig.LedgerLines | src/AssetUninstaller.php:176-177 | at least one line; a ledger that is not a file reads as [""] |
| PackageConfig.PublicPath | src/AssetInstaller.php:60 | `<project>/public` has proper segment names when the project path has |
| PackageConfig.GitignorePath | src/AssetInstaller.php:101 | `<public>/.gitignore` has proper segment names when the public path has |
| FileSystem.MakeDirs | src/AssetInstaller.php:139 | the recursive `mkdir` adds every prefix of the path, unless a file lies on it; files are unchanged |
| FileSystem.PutFile | src/AssetInstaller.php:141 | the write happens exactly when the parent is a directory and the path is not; directories never change |
| FileSystem.PutFileValid | src/AssetInstaller.php:141 | a write keeps the disk a tree |
| FileSystem.PutFileRestores | src/AssetUninstaller.php:102 | writing a file's old bytes back after overwriting it restores the disk |
| FileSystem.ReadFile | src/AssetInstaller.php:154 | the bytes are given exactly for a regular file; any other path gives None, which stands for PHP's `false` and for the '' it reads from a directory |
| FileSystem.Unlink | src/AssetUninstaller.php:162 | exactly the one path leaves the files; other bytes and the directories are kept |
| FileSystem.Rmdir | src/AssetUninstaller.php:165 | an empty non-root directory goes; anything else leaves the disk unchanged |
| FileSystem.RemoveTree | src/AssetUninstaller.php:151-166 | exactly the entries at or below the tree go, and the bytes of the rest are kept |
| FileSystem.RemoveTreeValid | src/AssetUninstaller.php:151-166 | removing a non-root subtree keeps the disk a tree |
| FileSystem.RemoveTreePutFile | src/AssetUninstaller.php:102 | removing a subtree that does not hold the written path commutes with the write |
| FileSystem.Listing | src/AssetInstaller.php:103 | a listing always holds "." and ".." |
| FileSystem.SubdirNames | src/AssetInstaller.php:103-111 | a name is a subdirectory name exactly when that child is a directory |
| FileSystem.ListingSubdirs | src/AssetInstaller.php:103-111 | the directory entries other than "." and ".." are exactly the subdirectories |
| FileSystem.AncestorsAreDirs | src/AssetInstaller.php:137-140 | on a tree every proper prefix of an entry is a directory |
| FileSystem.ResolvePath | src/AssetInstaller.php:97 | a declared path string resolves, absolute or relative to the working directory, to a path of proper names |
| UnparseableTokens.IsParseableContent | src/UnparseableTokensTrait.php:34-48 | true exactly when no array token has a refused kind (so the empty stream is parseable), and equal to `Parseable` |
| UnparseableTokens.ParseableIffNoneRejects | src/UnparseableTokensTrait.php:18-28 | the verdict is "no array token has one of the nine kinds" |
| UnparseableTokens.ParseableConcat | src/UnparseableTokensTrait.php:38-47 | a concatenation is parseable exactly when both halves are |
| UnparseableTokens.RejectionIsMonotone | src/UnparseableTokensTrait.php:38-47 | adding tokens on either side never turns a rejection into acceptance |
| UnparseableTokens.CharsNeverReject | src/UnparseableTokensTrait.php:39-41 | a single-character token anywhere never changes the verdict |
| UnparseableTokens.RefusedTokenAnywhere | src/UnparseableTokensTrait.php:43-45 | one refused token anywhere refuses the whole stream |
| UnparseableTokens.ParseableIgnoresOrder | src/UnparseableTokensTrait.php:38-47 | any permutation of the stream gets the same verdict |
| UnparseableTokens.ClassNameReferenceRefused | src/UnparseableTokensTrait.php:21 | `Foo::class` is refused: there is no exemption for `::` before `class` |

## Left out

- Composer wiring is not part of this model. That covers the plugin class, event subscription, the package event and the install path lookup. The plugin's uninstall-then-install sequencing on update is not modelled either. The package install path is an input of `Invoke`.
- The `include` of the configuration file runs the package's code. Its result is an input value (`PhpValue`), with arrays as ordered key/value entries.
- The installer and uninstaller do not call the classifier. The classifier is modelled on its own, as written: `::` is refused everywhere, although the package's tests expect `Foo::class` to be accepted.
- `token_get_all` and the file read of the classifier are not modelled. Its input is the token stream.
- `getcwd()` is the `workingDir` parameter of the constructors.
- Symbolic links and `getRealPath` resolution are not modelled. A declared path string is resolved by segments, and ".." drops the last one. So `a/../b` resolves to `b` even when `a` is missing or is a file, where PHP's `is_dir` would report no directory.
- The directory mode of `mkdir` is not modelled. Neither are the boolean results of `copy`, `unlink`, `rmdir` and `file_put_contents`, which the code ignores.
- The PHP iterators are lazy, but the model snapshots each listing before the loop. It also reads each source file's bytes from the disk as it was before the copy. The two can differ in two cases. One is a declared asset path that lies inside `public/`. The other is a `public/<ns>` that lies at or below the namespace directory being copied, for example when the project root itself is declared, so that `public` is a namespace. There the live recursive iterator can meet the directories the copy creates and copy their files again, one level deeper; the model copies the snapshot once.
- `scandir` sorts its names. That order is not kept: `remove` is proved for every order.
- A declared path value that is not a string is treated as naming no directory. PHP's `is_dir` would turn a number into a path string.
- The loose `in_array` and `array_search` comparisons on ledger lines are modelled as string equality. Ledger entries end in "/", so PHP never compares them as numbers.
- The uninstaller's `gitignore` field starts as PHP `null`. Here it starts as the empty sequence, and no method reads it before `Invoke` sets it.
- Namespace names holding "\r" or "\n" are excluded from the ledger lemmas, because such a name splits into two lines. A namespace named ".gitignore" is excluded too, because its copy would make the ledger path a directory.
- A ledger that is a directory reads as [""], whether PHP gives `false` or '' for it; both split into the one empty line. Writing it back then does nothing, because PHP cannot write onto a directory.
- The install records a namespace directory that holds no regular file, but creates no `public/<ns>` for it. The uninstall then finds no directory and keeps its line (`UninstallProperties.MissingDirectoryKeepsLine`, and over a whole run `UninstallProperties.MissingDirectoriesKeepLedger`). `RoundTrip.InstallThenUninstall` therefore asks for at least one file.
- TreeCopy.Target: the copy uses the intended cut of the source path, not the cut as written. The two differ only for a source directory directly below "/" (see Findings).
- PHP warnings and the IO interface are not modelled.
- InstallPlacement.InstallPlacesFiles: stated for one `copyAssets` call over namespaces absent from `public/`, none named ".gitignore" and none holding `public/`, listed without repeats as a directory listing is. Over several declared paths, a namespace name that two paths share is overwritten by the later one; the whole run is described by the frame `InstallPlacement.InstallTouchesOnlyVisited`. Copying into a namespace that already exists is described per copy by `TreeCopy.CopyTreeEffect`.
- PackageConfig.Lookup: a `PhpValue` array may hold the same key twice, which no PHP array can. Such values stand for nothing in PHP; `Lookup` takes the first entry with the key, and no lemma asks for unique keys.

## Findings

| source | as written | input that shows it | evidently intended | confidence | as-written member | corrected member |
|---|---|---|---|---|---|---|
| src/AssetInstaller.php:126-136 | the destination name is the real source file path minus its first `strlen(dirname($source)) + 1` bytes | a declared asset path that resolves to "/", holding namespace "css" with file "a.css": `dirname("/css")` is "/", so 2 bytes are cut and "/css/a.css" becomes "ss/a.css" | cut the parent's length without its trailing "/", plus one, so the name is "css/a.css" and lands at `<public>/css/a.css` | low (only for a path at the filesystem root); not executed | PathText.TrimmedNameAtRoot | PathText.TrimmedLandsOnTarget |
