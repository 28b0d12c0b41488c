# Simple File Manager: listing, root shell helpers, deletion and copy/move, in Dafny

This project models the core of the Simple File Manager Android app:

- **File entries.** `FileDirItem` is ordered with directories first and then by lower-cased name. Its `toString` is what refreshes compare.
- **The items fragment.** It reads a directory and counts each sub-directory's visible children. It sorts the items and replaces the shown list only when the list's string form changes. It re-reads when the "show hidden" setting flips. It deletes the staged paths depth-first, choosing the storage-access document or a plain delete for each path.
- **The root shell helper.**
  - `getFiles` runs three chained shell commands (`ls`, per-entry child counts, per-entry `stat -t`) and parses their output line by line.
  - `createFileFolder` reads the mount table, picks a mount point, remounts read-write when needed, creates the file or folder, and unmounts.
- **The copy/move dialog.** It checks the chosen destination in a fixed order, then starts a copy or move task, or renames in place.
- **`isPathOnRoot`.** It decides whether a path lies outside internal storage, OTG and the SD card.

The modules, one per file:

| file | module | models |
|---|---|---|
| `text.dfy` | `Text` | The Kotlin/Java string operations the core relies on: `areDigitsOnly`/`toInt`, `Int.toString`, `compareTo`, `toLowerCase`, `contains`, `indexOf`, `trimEnd`, `trim`, `split`, plus generic sequence lemmas. |
| `paths.dfy` | `Paths` | `File(parent, name)`, the file name of a path, `File.parent`. |
| `file_dir_item.dfy` | `Models` | `FileDirItem`, `compareTo`, the stable sort behind `Collections.sort`, `toString` and `List.toString`. |
| `root_commands.dfy` | `RootCommands` | The shell command strings, and the per-line parsing of the count and size output. |
| `mounts.dfy` | `Mounts` | `tryMountAsRW`: the loop over the mount lines and the decision it leads to. |
| `root_helpers.dfy` | `RootHelpers` | `getFiles`, `getChildrenCount`, `getFileSizes` and `createFileFolder`. The class `RootHelper` logs every command handed to the shell. |
| `items_fragment.dfy` | `Fragments` | A snapshot of the file system, `getItems`, `getChildren`, `getGenericMimeType` and `deleteItem`/`deleteItems`. The class `ItemsFragment` holds `mItems`, `mShowHidden`, `mToBeDeleted` and `mPath`. |
| `copy_dialog.dfy` | `Dialogs` | The OK handler of `CopyDialog` and its in-place move loop. |
| `context_ext.dfy` | `Extensions` | `Context.isPathOnRoot`. |

The root shell runs its commands one after another, so each callback's follow-up command is modelled as coming after the command that triggered it.

The shell's output for each command is an input sequence of lines. The model does not consult the file system, the mount table, the permission dialog or the rename call; it takes them as arguments:

- a directory predicate;
- an `FsEntry` tree that snapshots `listFiles()`;
- a path lookup;
- `renameTo` and existence oracles.

How the model handles the source's crashes:

- **Short shell output.** Indexing past the output of the count or stat command throws inside the shell callback, so the caller's callback never runs. The model returns `None` for that case.
- **Unreadable directory.** The source iterates over a `null` `listFiles()`. The model returns `None` for that case too.

Behaviour of the code that a reader might not expect (the model follows the code):

- **Mount point matching.** The code keeps the longest mount point that the path `contains`, not the longest prefix. `Mounts.SubstringMountPointCanWin` shows `/system` winning for `/data/system/f`.
- **Unmount argument.** The unmount command receives each line that the remount command printed, not the mount point.
- **No unmount without a completed create.** The unmount runs when a create completes, whatever its exit code, so a failed create is unmounted too. A create whose completion is never reported is never followed by an unmount.
- **No matching mount point.** When nothing matches, or the options contain neither `rw` nor `ro`, the create command is never issued. The caller's callback is never called. This is not treated as an error.
- **Stat lines.** The code strips the path's length from each stat line without checking that the line begins with the path.

## Model

Source paths are relative to the repository root.

| member | source | states |
|---|---|---|
| Text.CompareAntisymmetric | library/src/main/kotlin/com/simplemobiletools/filepicker/models/FileDirItem.kt:15 | String `compareTo` is antisymmetric: swapping the operands negates the result. |
| Text.CompareZeroIffEqual | library/src/main/kotlin/com/simplemobiletools/filepicker/models/FileDirItem.kt:15 | String `compareTo` is 0 exactly for equal strings. |
| Text.CompareTransitive | library/src/main/kotlin/com/simplemobiletools/filepicker/models/FileDirItem.kt:15 | String `compareTo` is transitive on "less than". |
| Text.DigitsValueOfNatToString | app/src/main/kotlin/com/simplemobiletools/filemanager/helpers/RootHelpers.kt:80-81 | `toInt` of the decimal text of a count gives the count back. |
| Text.NatToStringInjective | library/src/main/kotlin/com/simplemobiletools/filepicker/models/FileDirItem.kt:19 | Different counts print differently. |
| Text.ContainsIff | app/src/main/kotlin/com/simplemobiletools/filemanager/helpers/RootHelpers.kt:180 | `contains` holds exactly when the word occurs at some position of the path. |
| Text.IndexOf | app/src/main/kotlin/com/simplemobiletools/filemanager/fragments/ItemsFragment.kt:176 | `indexOf` gives the first occurrence, or -1 exactly when the character is absent. |
| Paths.FilenameFromPath | app/src/main/kotlin/com/simplemobiletools/filemanager/fragments/ItemsFragment.kt:98 | `getFilenameFromPath` returns the path's '/'-free suffix: the whole path when it has no '/', otherwise what follows its last '/'. |
| Paths.ParentOf | app/src/main/kotlin/com/simplemobiletools/filemanager/dialogs/CopyDialog.kt:20 | `File.parent` exists exactly when the path has a '/' and is not "/". When the parent is not the root, the parent, a '/' and the file name rebuild the path. `Paths.ParentOfChildPath` gives the root case. |
| Paths.FilenameOfChildPath | app/src/main/kotlin/com/simplemobiletools/filemanager/helpers/RootHelpers.kt:37-39 | The name of `File(path, line)` is `line`: the item's name and its path agree. |
| Paths.ParentOfChildPath | app/src/main/kotlin/com/simplemobiletools/filemanager/dialogs/CopyDialog.kt:20 | The parent of `File(dir, name)` is `dir` without trailing '/' ("/" for the root). |
| Models.DirectoryBeforeFile | library/src/main/kotlin/com/simplemobiletools/filepicker/models/FileDirItem.kt:8-13 | A directory compares -1 against a file, and the file 1 against it. |
| Models.SameKindByName | library/src/main/kotlin/com/simplemobiletools/filepicker/models/FileDirItem.kt:15 | Two entries of the same kind compare as their lower-cased names. They compare 0 exactly when those names are equal. |
| Models.CompareToAntisymmetric | library/src/main/kotlin/com/simplemobiletools/filepicker/models/FileDirItem.kt:8-16 | `compareTo` is antisymmetric, as `Comparable` requires. |
| Models.CompareToTransitive | library/src/main/kotlin/com/simplemobiletools/filepicker/models/FileDirItem.kt:8-16 | `compareTo` is transitive. |
| Models.CompareToZeroSubstitutes | library/src/main/kotlin/com/simplemobiletools/filepicker/models/FileDirItem.kt:8-16 | Entries that compare 0 compare alike against every third entry. |
| Models.NotAfterTotal | library/src/main/kotlin/com/simplemobiletools/filepicker/models/FileDirItem.kt:8-16 | Any two entries are ordered one way or the other. |
| Models.NotAfterTransitive | library/src/main/kotlin/com/simplemobiletools/filepicker/models/FileDirItem.kt:8-16 | "Not after" is transitive, so the order is a total preorder. |
| Models.Insert | app/src/main/kotlin/com/simplemobiletools/filemanager/fragments/ItemsFragment.kt:72 | One sort step adds exactly the inserted element to the multiset. |
| Models.SortItems | app/src/main/kotlin/com/simplemobiletools/filemanager/fragments/ItemsFragment.kt:72 | Sorting is a permutation of its input. |
| Models.InsertSorted | app/src/main/kotlin/com/simplemobiletools/filemanager/fragments/ItemsFragment.kt:72 | Inserting into a sorted list keeps it sorted. |
| Models.SortItemsSorted | app/src/main/kotlin/com/simplemobiletools/filemanager/fragments/ItemsFragment.kt:72 | `Collections.sort` by `compareTo` yields a sorted permutation. |
| Models.InsertStable | app/src/main/kotlin/com/simplemobiletools/filemanager/fragments/ItemsFragment.kt:72 | Inserting into a sorted list places the new entry after every entry that compares equal to it. |
| Models.SortItemsStable | app/src/main/kotlin/com/simplemobiletools/filemanager/fragments/ItemsFragment.kt:72 | The sort is stable, as `Collections.sort` is: for every entry, the entries that compare equal to it come out in their input order. |
| Models.SortedGroups | app/src/main/kotlin/com/simplemobiletools/filemanager/fragments/ItemsFragment.kt:72 | In a sorted list all directories come before all files, and each group is in lower-cased name order. |
| Models.CountersPartInjective | library/src/main/kotlin/com/simplemobiletools/filepicker/models/FileDirItem.kt:19 | The text after `children=` determines both the child count and the size. |
| Models.ToStringDistinguishesCounters | library/src/main/kotlin/com/simplemobiletools/filepicker/models/FileDirItem.kt:18-20 | Entries with the same name, kind and path have equal strings exactly when they are equal. So a refresh that changes only a count or a size is seen as a change. |
| RootCommands.ListCommandWords | app/src/main/kotlin/com/simplemobiletools/filemanager/helpers/RootHelpers.kt:32-33 | `ls [-A ]<path>` reaches the shell as `ls`, then `-A` exactly when hidden files are shown, then the path. |
| RootCommands.ListedEntry | app/src/main/kotlin/com/simplemobiletools/filemanager/helpers/RootHelpers.kt:36-40 | Each listed line becomes an entry with that name, the path `File(path, line)`, the probed kind, and zero counters. |
| RootCommands.ListedEntries | app/src/main/kotlin/com/simplemobiletools/filemanager/helpers/RootHelpers.kt:36-42 | There is one entry per output line, in output order. |
| RootCommands.CountCommandSegments | app/src/main/kotlin/com/simplemobiletools/filemanager/helpers/RootHelpers.kt:59-68 | The count command is the per-entry commands joined by ';' and piped into `cat`. None of them contains ';', so splitting it at ';' recovers one command per entry, in entry order. |
| RootCommands.WithCount | app/src/main/kotlin/com/simplemobiletools/filemanager/helpers/RootHelpers.kt:78-83 | A count line changes only the child count, and only when it is all digits. |
| RootCommands.CountLineRoundTrip | app/src/main/kotlin/com/simplemobiletools/filemanager/helpers/RootHelpers.kt:79-81 | The line `wc -l` prints for n children sets the count to n. |
| RootCommands.SizeCommandSegments | app/src/main/kotlin/com/simplemobiletools/filemanager/helpers/RootHelpers.kt:93-100 | The size command is one `echo 0` or `stat -t <path>` per entry, each followed by ';', and it splits back into them in entry order. |
| RootCommands.WithSize | app/src/main/kotlin/com/simplemobiletools/filemanager/helpers/RootHelpers.kt:110-120 | A stat line changes only the size. The size changes only when the line parses. An empty line, "0", or a line shorter than the path leaves the entry as it is. |
| RootCommands.StatLineRoundTrip | app/src/main/kotlin/com/simplemobiletools/filemanager/helpers/RootHelpers.kt:111-117 | A `stat -t` line of the form `<path> <n> …` gives size n. |
| RootCommands.CreateCommandIgnoresOuterSlashes | app/src/main/kotlin/com/simplemobiletools/filemanager/helpers/RootHelpers.kt:141-143 | A leading or trailing '/' on the requested path does not change the create command. |
| Mounts.ResolveMount | app/src/main/kotlin/com/simplemobiletools/filemanager/helpers/RootHelpers.kt:175-186 | The loop over the mount lines crashes, on a line with fewer than 6 words, exactly when the scan specification does. Otherwise it ends with the scan's mount point and options. |
| Mounts.CrashPersists | app/src/main/kotlin/com/simplemobiletools/filemanager/helpers/RootHelpers.kt:177-186 | Once a line crashes the loop, no later line changes that. |
| Mounts.ScanKeepsLongest | app/src/main/kotlin/com/simplemobiletools/filemanager/helpers/RootHelpers.kt:177-186 | After a full scan, no matching mount point is longer than the chosen one. It is empty exactly when no line matched. Options are set exactly when a mount point is. |
| Mounts.ScanChoosesFirstLongest | app/src/main/kotlin/com/simplemobiletools/filemanager/helpers/RootHelpers.kt:180-184 | The chosen mount point and options come from one matching line. The strict `>` means that line is the first of the longest. |
| Mounts.FullLinesNeverCrash | app/src/main/kotlin/com/simplemobiletools/filemanager/helpers/RootHelpers.kt:178-183 | When every line has at least 6 words, the loop cannot crash. |
| Mounts.Decide | app/src/main/kotlin/com/simplemobiletools/filemanager/helpers/RootHelpers.kt:188-197 | A remount happens only after a scan that completed, and it uses `mount -o rw,remount <mountPoint>`. |
| Mounts.DecideByOptions | app/src/main/kotlin/com/simplemobiletools/filemanager/helpers/RootHelpers.kt:188-197 | `rw` in the options goes straight to the create. `ro` without `rw` remounts. No mount point, or neither option, does nothing. |
| Mounts.WordsOfMountLine | app/src/main/kotlin/com/simplemobiletools/filemanager/helpers/RootHelpers.kt:178 | A line `<dev> on <mp> type <fs> <opts>` splits into six words, with the mount point at index 2 and the options at index 5. |
| Mounts.LongestMountPointWins | app/src/main/kotlin/com/simplemobiletools/filemanager/helpers/RootHelpers.kt:177-186 | With `/` and `/storage/emulated` mounted, a file below `/storage/emulated` resolves to it. |
| Mounts.SubstringMountPointCanWin | app/src/main/kotlin/com/simplemobiletools/filemanager/helpers/RootHelpers.kt:180 | The match uses `contains`, so `/system` wins over `/data` for `/data/system/f`. |
| RootHelpers.ParseListing | app/src/main/kotlin/com/simplemobiletools/filemanager/helpers/RootHelpers.kt:36-42 | The per-line callback builds exactly the listed entries. |
| RootHelpers.BuildCountCommand | app/src/main/kotlin/com/simplemobiletools/filemanager/helpers/RootHelpers.kt:59-68 | The `forEach` loop builds exactly the count command. |
| RootHelpers.BuildSizeCommand | app/src/main/kotlin/com/simplemobiletools/filemanager/helpers/RootHelpers.kt:93-100 | The `forEach` loop builds exactly the size command. |
| RootHelpers.ApplyChildrenCounts | app/src/main/kotlin/com/simplemobiletools/filemanager/helpers/RootHelpers.kt:77-84 | Entry k takes count line k. The loop completes, and the next stage starts, exactly when there is a line for every entry. |
| RootHelpers.ApplyFileSizes | app/src/main/kotlin/com/simplemobiletools/filemanager/helpers/RootHelpers.kt:109-122 | Entry k takes stat line k. The list is delivered exactly when there is a line for every entry. |
| RootHelpers.EmptyListingShortCircuits | app/src/main/kotlin/com/simplemobiletools/filemanager/helpers/RootHelpers.kt:44-46 | An empty listing is delivered as an empty list after the `ls` command alone. |
| RootHelpers.NonEmptyListingRunsStages | app/src/main/kotlin/com/simplemobiletools/filemanager/helpers/RootHelpers.kt:44-128 | A non-empty listing issues the count command. It issues the size command exactly when there were enough count lines. The callback runs exactly when both stages had a line per entry. |
| RootHelpers.DeliveredEntries | app/src/main/kotlin/com/simplemobiletools/filemanager/helpers/RootHelpers.kt:36-122 | Delivered entry i has listing line i as its name and `File(path, line)` as its path. Its child count is count line i when that is numeric, else 0. Its size is what stat line i yields, else 0. |
| RootHelpers.DocsExample | app/src/main/kotlin/com/simplemobiletools/filemanager/helpers/RootHelpers.kt:30-128 | A worked case: a directory `docs` with 3 entries and a 42-byte `a.txt` come back with those counters. |
| RootHelpers.WritableMountIsNotRemounted | app/src/main/kotlin/com/simplemobiletools/filemanager/helpers/RootHelpers.kt:188-190 | On a writable mount only `mount` and the create command run. There is no remount and no unmount. |
| RootHelpers.UnmountsFollowRemount | app/src/main/kotlin/com/simplemobiletools/filemanager/helpers/RootHelpers.kt:144-161 | An unmount is issued only after a remount, once per remount output line, with that line as argument. Every other path issues at most two commands. |
| RootHelpers.RootHelper.GetFiles | app/src/main/kotlin/com/simplemobiletools/filemanager/helpers/RootHelpers.kt:30-128 | The value delivered to the callback is the `getFiles` specification. The commands issued are `ls`, then the count command and the size command as the stages are reached. |
| RootHelpers.RootHelper.CreateFileFolder | app/src/main/kotlin/com/simplemobiletools/filemanager/helpers/RootHelpers.kt:138-215 | Each create's exit status is reported in order. The commands are `mount`, then by decision nothing, the create, or the remount followed by the creates and the unmounts. |
| RootHelpers.RootHelper.RunDecision | app/src/main/kotlin/com/simplemobiletools/filemanager/helpers/RootHelpers.kt:188-197 | The mount decision issues exactly its commands and reports every exit status. |
| RootHelpers.RootHelper.RemountThenCreate | app/src/main/kotlin/com/simplemobiletools/filemanager/helpers/RootHelpers.kt:192-215 | The remount's callback, once per output line, creates the target and then unmounts that line. |
| Fragments.VisibleEntries | app/src/main/kotlin/com/simplemobiletools/filemanager/fragments/ItemsFragment.kt:122 | `listFiles { !isHidden }` keeps no hidden entry. |
| Fragments.VisibleEntriesMembers | app/src/main/kotlin/com/simplemobiletools/filemanager/fragments/ItemsFragment.kt:122 | An entry is kept exactly when it is listed and not hidden. |
| Fragments.VisibleEntriesAppend | app/src/main/kotlin/com/simplemobiletools/filemanager/fragments/ItemsFragment.kt:122 | The filter works entry by entry: filtering a concatenation is concatenating the filtered parts, so the visible entries keep the listing's order. |
| Fragments.VisibleHiddenPartition | app/src/main/kotlin/com/simplemobiletools/filemanager/fragments/ItemsFragment.kt:122 | The visible and the hidden entries together are exactly the listing's entries, as a multiset. |
| Fragments.VisibleEntriesAll | app/src/main/kotlin/com/simplemobiletools/filemanager/fragments/ItemsFragment.kt:122 | Nothing is dropped exactly when no entry is hidden. |
| Fragments.GetChildren | app/src/main/kotlin/com/simplemobiletools/filemanager/fragments/ItemsFragment.kt:114-126 | A file or an unreadable directory counts 0. A directory counts all its entries with hidden entries on, and at most that many otherwise. The exact count with hidden entries off is `Fragments.ChildrenCountHidden`. |
| Fragments.ChildrenCountHidden | app/src/main/kotlin/com/simplemobiletools/filemanager/fragments/ItemsFragment.kt:119-123 | With hidden entries off, a readable directory counts its visible entries, which is its number of entries less its hidden entries. |
| Fragments.ChildrenCountAll | app/src/main/kotlin/com/simplemobiletools/filemanager/fragments/ItemsFragment.kt:119-123 | With hidden entries off, the count is the full listing exactly when no child is hidden. |
| Fragments.ItemOf | app/src/main/kotlin/com/simplemobiletools/filemanager/fragments/ItemsFragment.kt:97-108 | The item has the entry's path, file name, kind and length, and `getChildren` as its count. |
| Fragments.ItemsOf | app/src/main/kotlin/com/simplemobiletools/filemanager/fragments/ItemsFragment.kt:94-95 | A `null` listing gives no items. |
| Fragments.ListedFiltered | app/src/main/kotlin/com/simplemobiletools/filemanager/fragments/ItemsFragment.kt:99-103 | No item is staged for deletion. With hidden entries off, no item's name starts with '.'. |
| Fragments.ListedKeepsOthers | app/src/main/kotlin/com/simplemobiletools/filemanager/fragments/ItemsFragment.kt:96-109 | Every entry that passes both filters yields its item. |
| Fragments.ListedFromKept | app/src/main/kotlin/com/simplemobiletools/filemanager/fragments/ItemsFragment.kt:96-109 | Every item comes from a listed entry that passes both filters. |
| Fragments.ListedAppend | app/src/main/kotlin/com/simplemobiletools/filemanager/fragments/ItemsFragment.kt:96-109 | Items keep the listing's order. |
| Fragments.ListedAllKept | app/src/main/kotlin/com/simplemobiletools/filemanager/fragments/ItemsFragment.kt:96-109 | When nothing is filtered out, there is one item per entry, in order. |
| Fragments.GetItems | app/src/main/kotlin/com/simplemobiletools/filemanager/fragments/ItemsFragment.kt:92-112 | The loop builds exactly the filtered items, in listing order. |
| Fragments.Refresh | app/src/main/kotlin/com/simplemobiletools/filemanager/fragments/ItemsFragment.kt:74-78 | After a refresh the shown list prints like the new one. It is replaced exactly when the strings differ, and kept otherwise. |
| Fragments.RefreshSorted | app/src/main/kotlin/com/simplemobiletools/filemanager/fragments/ItemsFragment.kt:71-78 | The shown list stays sorted across refreshes. |
| Fragments.GetGenericMimeType | app/src/main/kotlin/com/simplemobiletools/filemanager/fragments/ItemsFragment.kt:172-178 | Without '/', the type is unchanged. Otherwise the result is the text before the first '/', followed by "/*". |
| Fragments.GenericMimeTypeIdempotent | app/src/main/kotlin/com/simplemobiletools/filemanager/fragments/ItemsFragment.kt:172-178 | Generalising twice is generalising once. |
| Fragments.GenericMimeTypeExample | app/src/main/kotlin/com/simplemobiletools/filemanager/fragments/ItemsFragment.kt:172-178 | `image/png` becomes `image/*`. |
| Fragments.DeletionOf | app/src/main/kotlin/com/simplemobiletools/filemanager/fragments/ItemsFragment.kt:306-311 | The document API is used exactly for paths that need it. |
| Fragments.DeleteOrder | app/src/main/kotlin/com/simplemobiletools/filemanager/fragments/ItemsFragment.kt:299-312 | The entry itself is always deleted last. |
| Fragments.DeleteCrashesIffUnreadable | app/src/main/kotlin/com/simplemobiletools/filemanager/fragments/ItemsFragment.kt:300-303 | The recursive delete crashes exactly when some directory in the tree has a `null` listing. |
| Fragments.ChildDeletedBeforeParent | app/src/main/kotlin/com/simplemobiletools/filemanager/fragments/ItemsFragment.kt:299-312 | Post-order: each child's whole run of deletions comes before its parent's own. |
| Fragments.DeleteItem | app/src/main/kotlin/com/simplemobiletools/filemanager/fragments/ItemsFragment.kt:299-312 | The recursion issues exactly the deletion order. |
| Fragments.DeleteEachChild | app/src/main/kotlin/com/simplemobiletools/filemanager/fragments/ItemsFragment.kt:301-303 | The loop over the children issues their deletions one child after another. |
| Fragments.StagedPathsDeleted | app/src/main/kotlin/com/simplemobiletools/filemanager/fragments/ItemsFragment.kt:291-294 | When nothing crashes, every staged path that exists is deleted. |
| Fragments.DeleteStagedPaths | app/src/main/kotlin/com/simplemobiletools/filemanager/fragments/ItemsFragment.kt:291-294 | It skips missing paths and deletes the others in staging order. |
| Fragments.ItemsFragment.constructor | app/src/main/kotlin/com/simplemobiletools/filemanager/fragments/ItemsFragment.kt:44-50 | It starts with the configured setting, nothing staged, and the first sorted listing. |
| Fragments.ItemsFragment.FillItems | app/src/main/kotlin/com/simplemobiletools/filemanager/fragments/ItemsFragment.kt:69-86 | It replaces the items exactly when the sorted new listing prints differently, and otherwise leaves them as they were. It keeps them sorted and changes no filter. |
| Fragments.ItemsFragment.OnResume | app/src/main/kotlin/com/simplemobiletools/filemanager/fragments/ItemsFragment.kt:56-62 | It refills exactly when the setting differs from the field, and the field takes the setting. |
| Fragments.ItemsFragment.PrepareForDeleting | app/src/main/kotlin/com/simplemobiletools/filemanager/fragments/ItemsFragment.kt:249-264 | It clears the staged list and nothing else. |
| Fragments.ItemsFragment.UndoDeletion | app/src/main/kotlin/com/simplemobiletools/filemanager/fragments/ItemsFragment.kt:314-318 | It unstages everything and refills. |
| Fragments.ItemsFragment.DeleteItems | app/src/main/kotlin/com/simplemobiletools/filemanager/fragments/ItemsFragment.kt:286-297 | With nothing staged it does nothing. Otherwise it deletes the staged paths and clears the list, unless a deletion crashed. |
| Dialogs.SourcePath | app/src/main/kotlin/com/simplemobiletools/filemanager/dialogs/CopyDialog.kt:20 | The source directory exists exactly when the first file has a parent. |
| Dialogs.NoDestinationRejectedFirst | app/src/main/kotlin/com/simplemobiletools/filemanager/dialogs/CopyDialog.kt:37-40 | An empty or placeholder destination is rejected before any other check. |
| Dialogs.SameDirectoryRejected | app/src/main/kotlin/com/simplemobiletools/filemanager/dialogs/CopyDialog.kt:42-45 | The source and destination are reported as the same exactly when they agree up to trailing '/'. |
| Dialogs.NameTakenOnlyForOneFile | app/src/main/kotlin/com/simplemobiletools/filemanager/dialogs/CopyDialog.kt:53-58 | "Name taken" is reported only for a single file whose name exists in the destination. |
| Dialogs.RejectedIff | app/src/main/kotlin/com/simplemobiletools/filemanager/dialogs/CopyDialog.kt:37-74 | The checks run in source order and the first failure decides. Each rejection is reported exactly when every earlier check passed and its own failed: no destination, then the same directory as the source, then a destination that does not exist, then a single file whose name is taken, then a permission dialog. The permission dialog is shown for the destination, or for the first file on a move through the SD card. |
| Dialogs.ProceedsIffChecksPass | app/src/main/kotlin/com/simplemobiletools/filemanager/dialogs/CopyDialog.kt:37-93 | Anything proceeds only when all five checks pass. Once they pass:<br>- a copy starts a non-moving task;<br>- a move through the SD card is rejected when a dialog is shown for the first file, and otherwise starts a moving task;<br>- a move outside the SD card is done in place. |
| Dialogs.RenamedAllIff | app/src/main/kotlin/com/simplemobiletools/filemanager/dialogs/CopyDialog.kt:82-86 | Every file contributes a destination exactly when every rename succeeds. |
| Dialogs.CopiedAllIff | app/src/main/kotlin/com/simplemobiletools/filemanager/dialogs/CopyDialog.kt:90 | `files.size * 2 == updatedFiles.size` holds exactly when every rename succeeded. |
| Dialogs.LocalMove | app/src/main/kotlin/com/simplemobiletools/filemanager/dialogs/CopyDialog.kt:80-90 | The updated list is the files followed by the destinations of the successful renames. `copiedAll` holds exactly when all renames succeeded. |
| Dialogs.OnPositiveButton | app/src/main/kotlin/com/simplemobiletools/filemanager/dialogs/CopyDialog.kt:36-95 | For the dialog's own source directory, the first file's parent, the OK press ends as the checks decide: a rejection, a copy or move task, or the in-place move. |
| Extensions.StorageOf | app/src/main/kotlin/com/simplemobiletools/filemanager/extensions/Context.kt:10 | A path is internal exactly when it starts with the internal storage path. It is OTG exactly when it is not internal and the OTG test holds. It is on the SD card exactly when it is neither of those, a card is present, and it starts with the card path. |
| Extensions.OnRootIffUnclaimed | app/src/main/kotlin/com/simplemobiletools/filemanager/extensions/Context.kt:10 | A path is on root exactly when no storage claims it. |
| Extensions.SdCardPathOnRootIffNoCard | app/src/main/kotlin/com/simplemobiletools/filemanager/extensions/Context.kt:10 | A path under the SD card path is off root exactly when an external SD card is present. |
| Extensions.EmptyInternalPathClaimsAll | app/src/main/kotlin/com/simplemobiletools/filemanager/extensions/Context.kt:10 | An empty internal storage path claims every path, because its `startsWith` is always true. |

## Left out

- RootTools, threads and callbacks: the root shell is one FIFO queue, so each follow-up command comes after the command whose callback issued it. Exit codes and output lines are inputs. Concurrent use of one helper is not modelled.
- `askRootIfNeeded` (RootHelpers.kt:13-28): it calls `callback(true)` once for every output line of `ls -lA`, and `callback(false)` when getting the shell throws. It involves no computation over the output, so there is nothing to prove about it.
- `deleteFiles` (RootHelpers.kt:217-219): its body is empty.
- `runCommand` failing to get a shell (RootHelpers.kt:130-136): the model assumes the shell starts. The error toast is UI.
- UI and Android framework code: adapters, snackbars, toasts, `startActivity`, the file picker, `scanFiles`, and `CopyMoveTask` itself. Only the decision to start the task is modelled.
- `MimeTypeMap` and `onItemClick`: the lookup table is external, so only `getGenericMimeType` is modelled.
- `getSelectedItemIndexes`, `displayCopyDialog` and the staging in `prepareForDeleting`: that code is commented out or returns an empty list, so the live `prepareForDeleting` only clears the list. The model does the same.
- Java `File` path normalisation: `File(parent, name)` is modelled as `parent` without trailing '/' plus "/" plus name, and `absolutePath` as the path itself. Redundant '/' inside the path are not collapsed.
- `isDirectory` and `exists` on the root side, `needsStupidWritePermissions`, `isShowingPermDialog`, `isPathOnSD`, `isPathOnOTG`, `hasExternalSDCard`, and `renameTo` are oracles, because they query the device.
- `deleteItems` resolves every staged path against one snapshot taken before any deletion. A staged path nested inside another staged directory is therefore looked up as it was before the deletion.
- Fragments.ItemsFragment.DeleteItems: when a deletion crashes, the model leaves the list staged, as the source does, because the exception skips `clear()`. The exception itself is not modelled.
- Int and Long widths: counts and sizes are unbounded naturals. A child count above `Int.MAX_VALUE` would make `toInt` throw in the source, and the model does not capture that.
- Text.ToLower: `toLowerCase` is modelled on ASCII letters only.
- Text.IsWhitespace: Kotlin's `trim()` uses `Char.isWhitespace`, which accepts all Unicode whitespace. The model accepts only the six ASCII whitespace characters: space, tab, LF, VT (U+000B), FF (U+000C) and CR. Trimming therefore differs on output that starts or ends with other Unicode whitespace, such as a no-break space or U+001C to U+001F.
- Text.Compare: ASCII code units stand for UTF-16, and no locale-specific behaviour is modelled.
- Models.SortItems: a stable insertion sort stands for `Collections.sort`. The model's sort is proved sorted, a permutation of its input, and stable (`Models.SortItemsStable`). These three properties determine the result, so it agrees with `Collections.sort`. That uniqueness is not itself proved, and the TimSort steps are not modelled.
- RootHelpers.RootHelper.GetFiles: the source reads the show-hidden setting afresh for the `ls` command and again for the count command, in different callbacks. The model passes one `showHidden` value to both stages, so it does not capture the setting changing between them.
- Fragments.IsHidden: `File.isHidden` is modelled as the file name starting with '.', as on Unix-like systems.
- ItemsFragment.java (the older Java fragment) is not part of this model.
