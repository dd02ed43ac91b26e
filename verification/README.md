# Line-diff tracking, project conversion context and commit-message history

A Dafny model of four pieces of the IntelliJ platform, each written as pure
functions over immutable data, with the properties the code relies on proved
about them.

- **The document tracker's block list** (`DocumentTracker.kt`). The tracker keeps the
  line diff between two documents as a list of blocks.
  - A block is a range of lines on each side plus two flags: `isDirty` and `isTooBig`.
  - A one-sided edit (`RangeChangeHandler.run`) splits the blocks into three parts:
    before the edit, touched by it, and after it. The touched ones are replaced by
    one dirty block, and the blocks after it are shifted.
  - A refresh (`BlocksRefresher`) groups neighbouring blocks separated only by
    whitespace. It merges the groups that contain a dirty block and re-diffs each
    merged block.
  - `partiallyApplyBlocks` applies the chosen blocks. The rest stay, shifted by what
    was applied before them.
  - `FreezeHelper` counts nested freezes of each side and keeps the text the side had
    when it was first frozen.
  - The range helpers are modelled too: `shiftRange`, `getRangeDelta`, `createRange`
    and `isValidLineRange`.
  - The main invariant is `LineRanges.WellFormed`: the blocks form a line diff.
    - Every block is a proper range.
    - Each block ends before the next one starts, on both sides.
    - The unchanged stretch between two blocks is equally long on both sides.
  - It is proved that an edit and a partial apply both preserve this invariant.
- **The conversion context** (`ConversionContextImpl.java`).
  - The constructor resolves the storage scheme, either one `.ipr` file or a `.idea`
    directory. It reads the module inventory and the ledger of conversions already
    performed.
  - The memoized getters are `getOrCreateFile`, the group settings and both
    `getModuleSettings`. Their caches are maps in an immutable `Context`. A counter
    hands out instance ids, so "the same instance" is "the same id".
  - `saveFiles` merges the ledger, sorts it case-insensitively and writes it. It then
    saves the cached files among the requested ones.
  - `getAllProjectFiles` lists the project-file inventory.
  - `getLibraryClassRoots` returns a library's class roots at the project or the
    application level.
- **The commit-message history** (`VcsConfiguration.java`). At most ten messages are
  kept, without duplicates and never empty. The newest is last. Saving a message
  moves it to the end and evicts the oldest when the list is full.
  - `readExternal` replays the texts of the element's `MESSAGE` children as saves.
    `writeExternal` appends one `MESSAGE` child per message, in order.
  - It is proved that writing a valid history and reading it back gives the same
    history.
  - `getRecentMessages` is a copy of the list.
- **`ContainerUtil.match`**: two iterators agree element by element under a
  condition. It is modelled as a loop over two sequences and proved equal to a
  reference predicate.

Operations that touch the outside world get that world as a parameter:
- the diff algorithms, the whitespace test and the handler's merge veto (`BlocksRefresher.Refresher`);
- the file system, the XML loader, macro expansion, module-name derivation and the ledger's deserializer (`ConversionContext.Environment`).

Files:

| file | module | models |
|---|---|---|
| `wrappers.dfy` | `Wrappers` | `Option` and `Result` |
| `seqs.dfy` | `Seqs` | filtering, flattening, distinctness |
| `line_ranges.dfy` | `LineRanges` | sides, ranges, blocks, shifting, the line-diff invariant |
| `range_change.dfy` | `RangeChange` | `RangeChangeHandler` |
| `blocks_refresher.dfy` | `BlocksRefresher` | `BlocksRefresher` |
| `line_tracker.dfy` | `LineTracker` | `LineTracker` |
| `freeze.dfy` | `Freeze` | `FreezeHelper`, `FreezeData`, `getContent` |
| `vcs_configuration.dfy` | `VcsConfiguration` | the commit-message history |
| `container_util.dfy` | `ContainerUtil` | `match` |
| `project_files.dfy` | `ProjectFiles` | paths, XML elements, the file system |
| `project_layout.dfy` | `ProjectLayout` | storage scheme, module inventory, project-file inventory |
| `conversion_ledger.dfy` | `ConversionLedger` | case-insensitive order, the merged ledger |
| `conversion_context.dfy` | `ConversionContext` | the caches and operations of the conversion context |

## Model

| member | source | states |
|---|---|---|
| LineRanges.CreateRange | platform/diff-impl/src/com/intellij/openapi/vcs/ex/DocumentTracker.kt:682-685 | Coordinates given relative to a side land on that side of the range, and the "other" coordinates land on the other side. |
| LineRanges.ShiftRange | platform/diff-impl/src/com/intellij/openapi/vcs/ex/DocumentTracker.kt:818-823 | Only the chosen side moves, by exactly `shift` at both ends. The other side is untouched. |
| LineRanges.ShiftBlock | platform/diff-impl/src/com/intellij/openapi/vcs/ex/DocumentTracker.kt:815-816 | A shifted block has the shifted range and keeps both flags. |
| LineRanges.ShiftPreservesLengths | platform/diff-impl/src/com/intellij/openapi/vcs/ex/DocumentTracker.kt:808-823 | Shifting never resizes a range on either side, so it does not change the range's delta either. |
| LineRanges.RangeDeltaAntisymmetric | platform/diff-impl/src/com/intellij/openapi/vcs/ex/DocumentTracker.kt:808-813 | A block's delta read from the other side is the negation of its delta from this side: applying it one way or the other are opposite edits. |
| LineRanges.RangeDelta | platform/diff-impl/src/com/intellij/openapi/vcs/ex/DocumentTracker.kt:808-813 | The delta is what this side's length gains when the block's other-side lines replace its own, so the new length equals the other side's length. It is positive iff the other side is longer. |
| LineRanges.ShiftRangeBy | platform/diff-impl/src/com/intellij/openapi/vcs/ex/DocumentTracker.kt:821-823 | Both ends of each side move by that side's shift, so each side keeps its length. |
| LineRanges.ShiftRangeByCompose | platform/diff-impl/src/com/intellij/openapi/vcs/ex/DocumentTracker.kt:821-823 | Two shifts add up, and shifting back by the negated amounts restores the range. |
| LineRanges.ShiftRangeByKeepsOrder | platform/diff-impl/src/com/intellij/openapi/vcs/ex/DocumentTracker.kt:821-823 | Shifting two ranges alike keeps each proper iff it was. One still precedes the other, with unchanged stretches of equal length, iff it did before. |
| LineRanges.ChainFits | platform/diff-impl/src/com/intellij/openapi/vcs/ex/DocumentTracker.kt:276-292 | The ranges of a line diff pass the first check of `isValidState` (every interval valid in its document) iff the first block starts at line 0 or later on both sides and the last block ends within both line counts. |
| RangeChange.SortRanges | platform/diff-impl/src/com/intellij/openapi/vcs/ex/DocumentTracker.kt:597-618 | The three parts are exactly the blocks that end before the edit, those that start after it, and the rest. Each part keeps the original order (reference definition `Keep`). |
| RangeChange.SortRangesPermutes | platform/diff-impl/src/com/intellij/openapi/vcs/ex/DocumentTracker.kt:597-618 | Every block lands in exactly one part: the three parts together are a permutation of the input. |
| RangeChange.SortRangesSplits | platform/diff-impl/src/com/intellij/openapi/vcs/ex/DocumentTracker.kt:597-618 | On blocks ordered along the edited side, the list is exactly before ++ affected ++ after. |
| RangeChange.NewAffectedBlock | platform/diff-impl/src/com/intellij/openapi/vcs/ex/DocumentTracker.kt:632-685 | The replacement block is dirty, and too big iff some touched block was. With nothing touched, it is the edited interval aligned by the offset of the last block before it. Otherwise, on the edited side it spans the union of the edit and the touched blocks (end moved by the size change), and on the other side it keeps the first and last touched blocks' alignment. |
| RangeChange.Run | platform/diff-impl/src/com/intellij/openapi/vcs/ex/DocumentTracker.kt:571-595 | The new list is before ++ [replacement] ++ shifted after-blocks. Each after-block moves by afterLength - beforeLength on the edited side only, and keeps its flags. |
| RangeChange.RunPreservesWellFormed | platform/diff-impl/src/com/intellij/openapi/vcs/ex/DocumentTracker.kt:571-595 | If the blocks were a line diff of the two documents, the rebuilt list is still one. |
| RangeChange.RunSplits | platform/diff-impl/src/com/intellij/openapi/vcs/ex/DocumentTracker.kt:571-580 | On ordered blocks, the three parts `run` works with are consecutive runs of the input. |
| RangeChange.OurToOtherShiftAligns | platform/diff-impl/src/com/intellij/openapi/vcs/ex/DocumentTracker.kt:620-630 | In a line diff, the block right after the blocks before the edit starts on the other side exactly this shift away from its start on the edited side. The shift is 0 when nothing precedes. Read from the other side, the shift is negated. |
| BlocksRefresher.MergeBlocks | platform/diff-impl/src/com/intellij/openapi/vcs/ex/DocumentTracker.kt:766-777 | A merge exists iff the handler accepts it. The merged block spans from the first block's start to the second's end on both sides, and each flag is the OR of the two. |
| BlocksRefresher.SpanOfNeighbours | platform/diff-impl/src/com/intellij/openapi/vcs/ex/DocumentTracker.kt:766-777 | Merging two neighbouring diff blocks gives a proper range. It still follows what preceded the first block and precedes what followed the second. |
| BlocksRefresher.MergeFrom | platform/diff-impl/src/com/intellij/openapi/vcs/ex/DocumentTracker.kt:741-764 | The merge loop hands on between one block and one block per input. The first starts where the group starts and the last ends where it ends. Dirty and too-big flags are neither lost nor invented. |
| BlocksRefresher.MergedBlocks | platform/diff-impl/src/com/intellij/openapi/vcs/ex/DocumentTracker.kt:741-764 | A non-empty group yields between 1 and as many blocks as it has, dirty iff the group was dirty. |
| BlocksRefresher.MergeFromChain | platform/diff-impl/src/com/intellij/openapi/vcs/ex/DocumentTracker.kt:741-764 | Merging the blocks of a line diff, whichever merges the handler vetoes, leaves a line diff. |
| BlocksRefresher.MergeFromAllAccepted | platform/diff-impl/src/com/intellij/openapi/vcs/ex/DocumentTracker.kt:741-777 | When the handler accepts every merge, a group collapses into a single block. |
| BlocksRefresher.MergeableGroups | platform/diff-impl/src/com/intellij/openapi/vcs/ex/DocumentTracker.kt:717-731 | The groups are non-empty and concatenate back to the input. Inside a group consecutive blocks are whitespace-separated; across a group boundary they are not (maximal runs). |
| BlocksRefresher.RefreshBlock | platform/diff-impl/src/com/intellij/openapi/vcs/ex/DocumentTracker.kt:779-803 | An empty range yields nothing. Otherwise there is one clean block per change of the chosen diff, moved from block-relative to document lines with the lengths kept. The blocks are too big iff the fast diff had to be used, either by request or because the exact one failed. |
| BlocksRefresher.RefreshGroups | platform/diff-impl/src/com/intellij/openapi/vcs/ex/DocumentTracker.kt:697-715 | The result has no dirty block. When no group is dirty, the groups come back exactly as they were, concatenated. |
| BlocksRefresher.RefreshGroup | platform/diff-impl/src/com/intellij/openapi/vcs/ex/DocumentTracker.kt:700-711 | A group's result has no dirty block. |
| BlocksRefresher.RefreshOneGroup | platform/diff-impl/src/com/intellij/openapi/vcs/ex/DocumentTracker.kt:697-715 | A single clean group comes back as it is. A single dirty group becomes the fresh diffs of its merged blocks, in order. |
| BlocksRefresher.RefreshGroupsAppend | platform/diff-impl/src/com/intellij/openapi/vcs/ex/DocumentTracker.kt:697-715 | Each group is processed on its own and in its place: refreshing two runs of groups gives the two results concatenated. |
| BlocksRefresher.Refresh | platform/diff-impl/src/com/intellij/openapi/vcs/ex/DocumentTracker.kt:697-731 | After a refresh no block is dirty, and a list without dirty blocks is returned unchanged. The cases of one run and of a split between two runs are stated by `RefreshOneRun` and `RefreshSplit`. |
| BlocksRefresher.MergeableGroupsSplit | platform/diff-impl/src/com/intellij/openapi/vcs/ex/DocumentTracker.kt:717-731 | Where two neighbours are not whitespace-only separated, the groups of the whole list are the groups of the part before followed by those of the part after. |
| BlocksRefresher.OneRunGroups | platform/diff-impl/src/com/intellij/openapi/vcs/ex/DocumentTracker.kt:717-731 | A list in which every block is whitespace-only separated from the next is one group. |
| BlocksRefresher.RefreshSplit | platform/diff-impl/src/com/intellij/openapi/vcs/ex/DocumentTracker.kt:697-731 | A refresh never reaches across two blocks that are not whitespace-only separated: the list refreshes as the part before and the part after, concatenated. |
| BlocksRefresher.RefreshOneRun | platform/diff-impl/src/com/intellij/openapi/vcs/ex/DocumentTracker.kt:697-731 | A run of whitespace-separated blocks is kept as it is when clean. When dirty, it becomes the fresh diffs of its merged blocks, in order. |
| LineTracker.Init | platform/diff-impl/src/com/intellij/openapi/vcs/ex/DocumentTracker.kt:494-501 | The initial tracker has one clean, not-too-big block per original change, in order, and is not dirty. |
| LineTracker.SetRanges | platform/diff-impl/src/com/intellij/openapi/vcs/ex/DocumentTracker.kt:503-508 | The blocks are the given ranges, all with the given dirty flag and not too big. The tracker takes the same flag. |
| LineTracker.Destroy | platform/diff-impl/src/com/intellij/openapi/vcs/ex/DocumentTracker.kt:510-512 | The block list becomes empty and the dirty flag is left as it was. |
| LineTracker.RangeChanged | platform/diff-impl/src/com/intellij/openapi/vcs/ex/DocumentTracker.kt:529-541 | After an edit the tracker is dirty and has at least one block and at most one more block than before. |
| LineTracker.RunSize | platform/diff-impl/src/com/intellij/openapi/vcs/ex/DocumentTracker.kt:571-595 | An edit replaces the touched blocks, possibly none, by one block, so the list grows by at most one. |
| LineTracker.RangeChangedPreservesWellFormed | platform/diff-impl/src/com/intellij/openapi/vcs/ex/DocumentTracker.kt:529-541 | A tracker whose blocks are a line diff still has a line diff after any edit with non-negative lengths. |
| LineTracker.RefreshDirty | platform/diff-impl/src/com/intellij/openapi/vcs/ex/DocumentTracker.kt:514-527 | Afterwards the tracker is clean. A clean tracker is untouched, and a dirty one has no dirty block left. |
| LineTracker.RefreshDirtyIdempotent | platform/diff-impl/src/com/intellij/openapi/vcs/ex/DocumentTracker.kt:514-527 | Refreshing twice is the same as refreshing once. |
| LineTracker.DocumentRefreshDirty | platform/diff-impl/src/com/intellij/openapi/vcs/ex/DocumentTracker.kt:131-150 | Nothing happens while a side is frozen, unless forced. Otherwise the tracker ends clean, and a dirty one keeps no dirty block. A dirty tracker with blocks over two equal documents drops every block. A clean tracker is untouched. |
| LineTracker.DocumentRefreshDirtyIdempotent | platform/diff-impl/src/com/intellij/openapi/vcs/ex/DocumentTracker.kt:131-150 | Once an unforced refresh has taken effect, another one changes nothing, whether a side is frozen or not. |
| LineTracker.PartiallyApplyBlocks | platform/diff-impl/src/com/intellij/openapi/vcs/ex/DocumentTracker.kt:543-567 | The applied blocks are exactly those satisfying the condition, in order. The remaining blocks are each shifted by the deltas applied before them (reference definition `Retained`). The dirty flag is unchanged. |
| LineTracker.RetainedAt | platform/diff-impl/src/com/intellij/openapi/vcs/ex/DocumentTracker.kt:543-567 | The k-th remaining block is the k-th non-applied input block, moved on the applied side by the sum of the deltas of the applied blocks before it. |
| LineTracker.RetainedCount | platform/diff-impl/src/com/intellij/openapi/vcs/ex/DocumentTracker.kt:543-567 | Applied and remaining blocks together account for every input block exactly once. |
| LineTracker.RetainedWellFormed | platform/diff-impl/src/com/intellij/openapi/vcs/ex/DocumentTracker.kt:543-567 | After applying any subset of a line diff's blocks, the remaining shifted blocks are a line diff of the edited document and the other one. |
| Freeze.FreezeAsWritten | platform/diff-impl/src/com/intellij/openapi/vcs/ex/DocumentTracker.kt:393-408 | The code as written: a first freeze of a side announces the whole-tracker `onFreeze()` only when the tracker was already frozen. |
| Freeze.Freeze | platform/diff-impl/src/com/intellij/openapi/vcs/ex/DocumentTracker.kt:393-408 | The first freeze snapshots the side's text at depth 1 and announces it, plus `onFreeze()` when the tracker becomes frozen. A nested freeze only deepens the count. The other side is untouched. |
| Freeze.Unfreeze | platform/diff-impl/src/com/intellij/openapi/vcs/ex/DocumentTracker.kt:410-427 | Unfreezing a side that is not frozen only logs an error. Above depth 1 the depth drops by one and nothing is announced. At depth 1 the side thaws and its edits are replayed. If the other side is still frozen, only `onUnfreeze(side)` follows. Otherwise the blocks are refreshed, then `onUnfreeze(side)` and `onUnfreeze()` fire. The other side is untouched. |
| Freeze.UnfreezeRefreshesWhenThawed | platform/diff-impl/src/com/intellij/openapi/vcs/ex/DocumentTracker.kt:410-427 | An unfreeze refreshes the blocks iff it thaws the side (depth 1) and no side is frozen afterwards. |
| Freeze.GetFrozenContent | platform/diff-impl/src/com/intellij/openapi/vcs/ex/DocumentTracker.kt:439 | There is a snapshot exactly while the side is frozen, and it is the text recorded when the side was first frozen (or last set). |
| Freeze.SetFrozenContent | platform/diff-impl/src/com/intellij/openapi/vcs/ex/DocumentTracker.kt:440-448 | On a frozen side the snapshot is replaced and the depth kept. On an unfrozen side the call fails, because the source dereferences null. |
| Freeze.GetContent | platform/diff-impl/src/com/intellij/openapi/vcs/ex/DocumentTracker.kt:123-129 | While a side is frozen its content is the snapshot; otherwise it is the side's current document. |
| Freeze.FrozenContentIsSnapshot | platform/diff-impl/src/com/intellij/openapi/vcs/ex/DocumentTracker.kt:123-129 | Once a side is frozen, its content is the text it had at that moment, whatever the documents hold later. |
| Freeze.FreezeValid | platform/diff-impl/src/com/intellij/openapi/vcs/ex/DocumentTracker.kt:393-408 | Freezing keeps every frozen side's depth at least 1. |
| Freeze.UnfreezeValid | platform/diff-impl/src/com/intellij/openapi/vcs/ex/DocumentTracker.kt:410-427 | Unfreezing keeps every frozen side's depth at least 1: a side at depth 0 is dropped. |
| Freeze.UnfreezeUndoesFreeze | platform/diff-impl/src/com/intellij/openapi/vcs/ex/DocumentTracker.kt:393-427 | From a valid state, unfreezing right after a freeze of the same side restores the helper exactly. |
| Freeze.ApplyBalance | platform/diff-impl/src/com/intellij/openapi/vcs/ex/DocumentTracker.kt:393-427 | Each call announces exactly the change of the whole tracker's frozen state: +1 for becoming frozen, -1 for thawing, 0 otherwise. |
| Freeze.ReplayBalance | platform/diff-impl/src/com/intellij/openapi/vcs/ex/DocumentTracker.kt:393-427 | Over any sequence of freezes and unfreezes, `onFreeze()` minus `onUnfreeze()` equals the change in whether the tracker is frozen, so the announcements pair up. |
| Freeze.FreezeAsWrittenUnbalanced | platform/diff-impl/src/com/intellij/openapi/vcs/ex/DocumentTracker.kt:393-427 | As written, freezing and unfreezing one side of an unfrozen tracker announces `onUnfreeze()` with no `onFreeze()`. |
| VcsConfiguration.RemoveFirstAt | openapi/src/com/intellij/openapi/vcs/VcsConfiguration.java:149 | `List.remove(Object)` cuts out exactly the first occurrence. The elements before and after it stay, in order. |
| VcsConfiguration.EvictOldest | openapi/src/com/intellij/openapi/vcs/VcsConfiguration.java:151-153 | The eviction loop leaves fewer than ten messages: a list with room is untouched, and a full list keeps its newest nine. |
| VcsConfiguration.SaveCommitMessage | openapi/src/com/intellij/openapi/vcs/VcsConfiguration.java:146-156 | An empty message is ignored. Otherwise the old list loses the message's first occurrence. If nine or fewer messages then remain they all stay; otherwise only the newest nine stay. The message is appended after them, so at most ten are kept. |
| VcsConfiguration.SavePreservesValid | openapi/src/com/intellij/openapi/vcs/VcsConfiguration.java:146-156 | Saving keeps the history free of duplicates and empty messages, and within ten entries. The saved message occurs exactly once. |
| VcsConfiguration.GetLastCommitMessage | openapi/src/com/intellij/openapi/vcs/VcsConfiguration.java:158-165 | Null exactly when the history is empty; otherwise the newest message. |
| VcsConfiguration.SavedIsLast | openapi/src/com/intellij/openapi/vcs/VcsConfiguration.java:146-165 | After saving a non-empty message, it is the last commit message. |
| VcsConfiguration.RemoveMessage | openapi/src/com/intellij/openapi/vcs/VcsConfiguration.java:171-173 | An absent message changes nothing. A present one loses its first occurrence, and the messages before and after it stay in order. On a valid history the message is gone afterwards and the history stays valid. |
| VcsConfiguration.RemoveFirstDistinct | openapi/src/com/intellij/openapi/vcs/VcsConfiguration.java:171-173 | On a list without duplicates, removing the first occurrence removes every occurrence and keeps the list without duplicates. |
| VcsConfiguration.ReadExternal | openapi/src/com/intellij/openapi/vcs/VcsConfiguration.java:88-94 | Reading saves the text of each `MESSAGE` child, in document order, as if committed, and ignores the other children. A valid history stays valid. |
| VcsConfiguration.WriteExternal | openapi/src/com/intellij/openapi/vcs/VcsConfiguration.java:96-103 | Writing appends one `MESSAGE` child per stored message, oldest first, after the children already written, which stay as they were. |
| VcsConfiguration.WriteReadRoundTrip | openapi/src/com/intellij/openapi/vcs/VcsConfiguration.java:88-103 | Writing a valid history after any non-`MESSAGE` children (the externalized fields) and reading the element back into an empty configuration restores the history exactly. |
| VcsConfiguration.RecentMessagesWritten | openapi/src/com/intellij/openapi/vcs/VcsConfiguration.java:96-169 | The `MESSAGE` texts `writeExternal` appends after the other fields are exactly `getRecentMessages`. The last recent message is what `getLastCommitMessage` returns, and there is none iff the history is empty. |
| ContainerUtil.Match | plugins/gradle/tooling-extension-api/src/org/jetbrains/plugins/gradle/tooling/util/ContainerUtil.java:23-32 | True iff both sequences have the same length and every pair satisfies the condition. The condition is evaluated only on a prefix, and on a mismatch within both sequences the last pair evaluated is the failing one. |
| ProjectLayout.ResolveLayout | platform/lang-impl/src/com/intellij/conversion/impl/ConversionContextImpl.java:72-88 | A directory is a directory-based project with itself as base dir and a settings folder. Anything else is a single-file project: its base dir is the file's parent, it has no settings folder, and its modules file is the project file itself. |
| ProjectLayout.DirectoryLayoutPaths | platform/lang-impl/src/com/intellij/conversion/impl/ConversionContextImpl.java:75-81 | In a directory-based project, `.idea` sits directly in the project directory, and `modules.xml` and `workspace.xml` sit directly in `.idea`. |
| ProjectLayout.WorkspaceFileName | platform/lang-impl/src/com/intellij/conversion/impl/ConversionContextImpl.java:83-88 | The workspace file of `X.ipr` is `X.iws`; a project file without the extension gets `.iws` appended. |
| ProjectLayout.FindModuleFiles | platform/lang-impl/src/com/intellij/conversion/impl/ConversionContextImpl.java:134-152 | Empty when the module-manager component or its `modules` element is missing. Otherwise it has one path per `module` entry with a `filepath`, in document order: the i-th path is the expanded `filepath` of the i-th such entry. |
| ProjectLayout.ModulePathsMembers | platform/lang-impl/src/com/intellij/conversion/impl/ConversionContextImpl.java:143-150 | Every entry with a `filepath` contributes its expanded path, and every path comes from such an entry. |
| ProjectLayout.XmlFilesAsWritten | platform/lang-impl/src/com/intellij/conversion/impl/ConversionContextImpl.java:110-117 | The code as written: a directory whose own name starts with a dot contributes no file at all. |
| ProjectLayout.XmlFiles | platform/lang-impl/src/com/intellij/conversion/impl/ConversionContextImpl.java:110-117 | A path is listed iff the directory lists it, it is a regular file, it ends in `.xml`, and its own name does not start with a dot. |
| ProjectLayout.XmlFilesAsWrittenSkipsSettingsFolder | platform/lang-impl/src/com/intellij/conversion/impl/ConversionContextImpl.java:110-117 | A regular `/p/.idea/misc.xml` listed in `/p/.idea` is dropped as written and kept by the corrected filter. |
| ProjectLayout.GetAllProjectFiles | platform/lang-impl/src/com/intellij/conversion/impl/ConversionContextImpl.java:94-108 | The inventory is the module files plus, for a single-file project, exactly the project and workspace files. For a directory-based one it is the `.xml` files of the settings folder and of its `libraries`, `artifacts` and `runConfigurations` subfolders. |
| ConversionLedger.SortedIds | platform/lang-impl/src/com/intellij/conversion/impl/ConversionContextImpl.java:414-415 | The written list holds every ID of the set exactly once, in case-insensitive order. |
| ConversionLedger.NewIds | platform/lang-impl/src/com/intellij/conversion/impl/ConversionContextImpl.java:405-410 | An ID is to be recorded iff some used provider with that ID cannot tell from the project files that its conversion was performed. |
| ConversionLedger.NewIdsAppend | platform/lang-impl/src/com/intellij/conversion/impl/ConversionContextImpl.java:405-410 | The IDs of two runs of providers are the union of each run's IDs. Dropping a provider that can tell from the project files changes nothing. |
| ConversionLedger.MergeLedger | platform/lang-impl/src/com/intellij/conversion/impl/ConversionContextImpl.java:404-416 | Nothing is written iff no used provider needs recording. Otherwise the list is sorted, without duplicates, and holds exactly the new IDs and the loaded ones. |
| ConversionContext.GetOrCreateFile | platform/lang-impl/src/com/intellij/conversion/impl/ConversionContextImpl.java:445-452 | A cached path returns its instance. An uncached one is created and cached under a fresh id, or fails iff it cannot be read. Nothing else changes. |
| ConversionContext.GetOrCreateFileStable | platform/lang-impl/src/com/intellij/conversion/impl/ConversionContextImpl.java:445-452 | Asking again for the same path returns the same instance and changes nothing. |
| ConversionContext.CreateProjectSettings | platform/lang-impl/src/com/intellij/conversion/impl/ConversionContextImpl.java:266-285 | A single-file project gets the project file whenever it can be read. A directory-based one gets the named file in the settings folder iff it exists and can be read. The view's file is taken from the file cache: an already cached file is shared, an uncached one is added. The view's id is fresh and nothing else changes. When no view results, the context is unchanged. |
| ConversionContext.GetGroupSettings | platform/lang-impl/src/com/intellij/conversion/impl/ConversionContextImpl.java:233-263 | A cached group view is returned as is. A view is cached exactly when one is returned, and a missing view is not cached. The view reads the group's file in the settings location, which the file cache then holds. Other caches and groups are unchanged. |
| ConversionContext.GetGroupSettingsStable | platform/lang-impl/src/com/intellij/conversion/impl/ConversionContextImpl.java:233-263 | Once a group's view exists, later requests return that same instance. |
| ConversionContext.GroupsShareFile | platform/lang-impl/src/com/intellij/conversion/impl/ConversionContextImpl.java:233-285 | Two groups kept in the same file read one cached file instance: the second request shares the first's file. |
| ConversionContext.LoadPerformedConversionIds | platform/lang-impl/src/com/intellij/conversion/impl/ConversionContextImpl.java:433-443 | Empty when the project-file-version settings or its ledger component are missing. Otherwise exactly the stored IDs. |
| ConversionContext.Create | platform/lang-impl/src/com/intellij/conversion/impl/ConversionContextImpl.java:72-92 | Construction fails iff the modules file exists but cannot be read. It resolves the layout, and reads the module inventory only from an existing modules file. The module caches are empty. The only cached file is the ledger's settings file. It is cached iff it is readable (and exists, for a directory-based project), and then the project-file-version view reads it. |
| ConversionContext.NoLedgerWithoutMisc | platform/lang-impl/src/com/intellij/conversion/impl/ConversionContextImpl.java:433-443 | A directory-based project without `misc.xml` has performed no conversion. |
| ConversionContext.AlreadyPerformedIffStored | platform/lang-impl/src/com/intellij/conversion/impl/ConversionContextImpl.java:119-121 | Right after construction, `isConversionAlreadyPerformed` holds for a provider iff its ID is stored in the ledger component of the project's settings file (the project file, or `misc.xml`). |
| ConversionContext.GetModuleSettingsByFile | platform/lang-impl/src/com/intellij/conversion/impl/ConversionContextImpl.java:365-374 | A cached module file returns its instance. Otherwise the view is created and cached by file and indexed under its module name, or it fails iff the file cannot be read. The view's file comes from the file cache, shared with any view already reading that path. Groups and the module inventory are unchanged. |
| ConversionContext.LoadAllModules | platform/lang-impl/src/com/intellij/conversion/impl/ConversionContextImpl.java:377-385 | After the loop, the known names are the old ones plus the name of every module file that can be read. Unreadable files are skipped. |
| ConversionContext.GetModuleSettingsByName | platform/lang-impl/src/com/intellij/conversion/impl/ConversionContextImpl.java:376-387 | A known name is answered from the index. Otherwise a view exists iff some readable module file of the inventory has that name, and the view returned carries that name. A returned view is the one the context now indexes under that name. No cached file is dropped or replaced, and the inventory is unchanged. |
| ConversionContext.GetModuleSettingsByNameStable | platform/lang-impl/src/com/intellij/conversion/impl/ConversionContextImpl.java:376-387 | Once a module is found by name, asking again returns that same instance and leaves the context unchanged. |
| ConversionContext.RecordProviders | platform/lang-impl/src/com/intellij/conversion/impl/ConversionContextImpl.java:403-423 | Nothing happens iff no used provider needs recording. Otherwise the only change to the context is the lookup of the project-file-version settings, so at most the ledger's file enters the cache. The merged, sorted, duplicate-free list of new and performed IDs is written iff those settings exist. |
| ConversionContext.SaveCached | platform/lang-impl/src/com/intellij/conversion/impl/ConversionContextImpl.java:425-430 | Exactly the cached files among the requested ones are saved, in request order (reference definition `CachedAmong`). |
| ConversionContext.SaveFiles | platform/lang-impl/src/com/intellij/conversion/impl/ConversionContextImpl.java:403-431 | The ledger is written only when some provider needs recording, and then exactly when the project-file-version settings exist. The IDs written are sorted, distinct, and are the stored IDs plus those of the providers that need recording. Then the cached files among the requested ones are saved, in request order. This includes every requested file that was already cached, and the ledger's file when it is requested. No cached file is dropped or replaced. The cache the saved files come from is the caller's, plus at most the ledger's file from the settings lookup. |
| ConversionContext.LedgerFileSavedAfterCreate | platform/lang-impl/src/com/intellij/conversion/impl/ConversionContextImpl.java:72-92 | Right after construction with a readable ledger file, that file is cached, requesting it saves exactly it, and the project-file-version view reads it. So a ledger written by `saveFiles` is saved when its file is requested. |
| ConversionContext.ClassRoots | platform/lang-impl/src/com/intellij/conversion/impl/ConversionContextImpl.java:217-231 | No `CLASSES` child means no roots. Otherwise the i-th result is the i-th `root` child's `url`, converted to a path, macro-expanded and made local. |
| ConversionContext.FindLibrary | platform/lang-impl/src/com/intellij/conversion/impl/ConversionContextImpl.java:300-312 | The result is the first `library` element with that `name`. There is none iff no element matches. |
| ConversionContext.FindLibraryElement | platform/lang-impl/src/com/intellij/conversion/impl/ConversionContextImpl.java:195-205 | An unknown level gives no library. At project level, unreadable library settings give none; otherwise the result is the first matching library of the settings. At application level, the result is the first matching library of the `libraryTable` component of the application-libraries file. If that file is missing or unreadable, or has no such component, there is none. |
| ConversionContext.GetLibraryClassRoots | platform/lang-impl/src/com/intellij/conversion/impl/ConversionContextImpl.java:195-215 | The result is empty when no library is found (unknown level or unreadable settings included). Otherwise the i-th root is the i-th `root` child's `url`, converted to a path, macro-expanded and made local. A library without `CLASSES` has no roots. |

## Left out

- Handler notifications (`onRangeShifted`, `onRangesChanged`, `onRangeRefreshed`, `afterRangeChange`, `afterBulkRangeChange`) carry no tracker state. Only the freeze announcements are modelled, as `Freeze.Event`s.
- Locks (`Lock`, `readLock`, `writeLock`), listeners (`MyDocumentListener`, `MyApplicationListener`) and disposal are left out: they concern threading and document events, not the block list. In particular the `isDisposed` guard that makes `refreshDirty` and the other entry points return early is not modelled: `LineTracker.DocumentRefreshDirty` describes a tracker that is not disposed.
- The document-level operations that glue the pieces together are left out. These are `DocumentTracker.unfreeze(side, oldText)`, `updateFrozenContentIfNeeded`, the text-applying loop of the outer `partiallyApplyBlocks`, `getContentWithPartiallyAppliedBlocks` and `setFrozenState`. Each calls the modelled pieces (`RangeChanged`, `SetFrozenContent`, `PartiallyApplyBlocks`, `SetRanges`) on text the model does not hold.
- `isValidState` is modelled only in its first check (`LineRanges.RangesFit` over `IsValidLineRange`). The comparison of unchanged lines needs the document text.
- The diff algorithms (`tryCompareLines`, `fastCompareLines`, `compareLines`), the whitespace test behind `isWhitespaceOnlySeparated` and `DiffUtil` are parameters of `BlocksRefresher.Refresher`.
- Line numbers are unbounded integers: Kotlin's 32-bit `Int` overflow is not modelled. Line counts of real documents stay far below it.
- `ConversionLedger.CiLe`: `String.CASE_INSENSITIVE_ORDER` is modelled with ASCII case folding only, because the model has no Unicode case tables.
- Paths are strings joined with `/`. `toAbsolutePath`, `toSystemDependentName` and `toFile` are treated as the identity.
- `FileUtilRt.extensionEquals(path, "xml")` is modelled as a case-sensitive suffix test on `.xml`.
- Macro expansion (`ExpandMacroToPathMap`, `PathMacrosImpl`), `VfsUtilCore.urlToPath`, `PathUtil.getLocalPath` and module-name derivation are uninterpreted functions of `ConversionContext.Environment`.
- The `XmlSerializer` (de)serialization of the ledger is an uninterpreted function of `ConversionContext.Environment`.
- `SettingsXmlFile`, `ComponentManagerSettingsImpl`, `ModuleSettingsImpl`, `ProjectLibrariesSettingsImpl` and `PathManager` are not part of this model. A settings view is the cached file it obtained through `getOrCreateFile`, plus that file's loaded root element. The XML tree a view edits is not held: an edit is the `WriteLedger` effect.
- The project libraries and the application-libraries file are inputs of `ConversionContext.Environment`.
- `getProjectSettings`, `getRunManagerSettings`, `getWorkspaceSettings`, `getArtifactsSettings`, `getProjectLibrariesSettings` and `getSettingsXmlFiles` are left out: they only wrap a file in a settings object the model does not describe.
- `expandPath`, `collapsePath`, `getNonExistingModuleFiles` and the plain getters are left out too: they only return a field or call the macro maps.
- `VcsConfiguration`'s `DefaultJDOMExternalizer` fields, `getConfiguredProjectVcs`, `StandardOption` and the component lifecycle methods are left out. They are plain settings, with no logic on the message history.
- `ContainerUtil.emptyDomainObjectSet` is left out: it is a constant.
- `getAllProjectFiles` calls `addXmlFilesFromDirectory(dotIdeaDirectory, files)` explicitly (ConversionContextImpl.java:101). Under the filter as written that call can never add a file, since the settings folder is named `.idea` (see Findings). The call only makes sense if the files directly in the settings folder are meant to be listed. The model follows the code in `ProjectLayout.XmlFilesAsWritten`, and uses the corrected filter in `ProjectLayout.GetAllProjectFiles`.

## Findings

| source | as written | input that shows it | evidently intended | confidence | as-written member | corrected member |
|---|---|---|---|---|---|---|
| platform/diff-impl/src/com/intellij/openapi/vcs/ex/DocumentTracker.kt:402 | `if (wasFrozen) handler.onFreeze()`: the whole-tracker freeze is announced only when the tracker was already frozen | `freeze(LEFT); unfreeze(LEFT)` on an unfrozen tracker: `onUnfreeze()` fires, `onFreeze()` never does | `if (!wasFrozen) handler.onFreeze()`, mirroring `if (!isFrozen()) handler.onUnfreeze()`, so the two announcements pair up | high; not executed | Freeze.FreezeAsWritten, Freeze.FreezeAsWrittenUnbalanced | Freeze.Freeze, Freeze.ReplayBalance |
| platform/lang-impl/src/com/intellij/conversion/impl/ConversionContextImpl.java:112 | the listing filter tests `!dir.getName().startsWith(".")`, the directory's name | a directory-based project whose `.idea` holds `misc.xml`: the directory is named `.idea`, so no file directly in it is listed | `!child.getName().startsWith(".")`, skipping hidden files rather than the whole settings folder | medium; not executed | ProjectLayout.XmlFilesAsWritten, ProjectLayout.XmlFilesAsWrittenSkipsSettingsFolder | ProjectLayout.XmlFiles, ProjectLayout.GetAllProjectFiles |
