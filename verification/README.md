# Verified model of the core library's hardest parts

A Dafny model of seven components of the core library, with proofs of what each of them keeps over whole runs, what its
transformations preserve, and exactly when its operations succeed, end or undo each other. Where the code does less
than it is meant to, the model follows the code, and a lemma gives the exact condition under which it works.

Objects with state are classes whose methods change fields, proved against functions on values; laws are lemmas about
those functions. Protocols between threads are state machines whose steps interleave freely.

* **DCI archives** - `Bytes`, `DciFormat` (image, plain reader, round trip), `DciStore` and `DciTree` (the index as a
  map from paths, and the tree in it), `DciPaths` (the texts of paths, and where the text of a link leads), `DciLinks`
  (chains of symbolic links), `DciCopy` (the worklist of a copy), `DciDevice`, `DciArchive` (nodes on the heap, the
  hash, all operations and the writer that seeks back), `DciLoad` (the reader that builds nodes and hash), `DciRuns`
  and `DciSession` (whole runs).
* **Generated configuration wrapper** - `ConfigWrapper` (two threads, a status changed by compare-and-swap, two event
  queues, and who frees what), `ConfigRest` (that it comes to rest), `ConfigRace` (when destroying the owner is a race)
  and `ConfigMirror` (the value kept on both sides). `wanted` is what a setter or reset asked for last, unless the value
  was changed from outside since, `early` that the owner was destroyed during initialization, `held` that Data is not
  deleted while a change handler runs on it.
* **Desktop entries** - `DesktopLines` (tokenizer), `DesktopLayout` (the lines it finds), `DesktopSections` (cutting and
  lazy parsing), `DesktopSave`, `DesktopFacts` (what printed lines say), `DesktopPrint`, `DesktopEntry` (the object),
  `DesktopEscape`.
* **Watchers** - `FileSystemWatcher` (two maps over the kernel's watches), `FileWatchers` (shared counts),
  `FileWatcherManager`, `MoveEvents` (pairing the halves of moves).
* **Ghost vtables** - `VtableHook`, over memory made of blocks of words.
* **Layered configuration** - `ConfigMeta`, `ConfigOverrides`, `ConfigFile`.
* **Units** - `UnitFormatter`.

`Basics` has what all of them use.

## Main results

* Archives: `DciFormat.RoundTripIff` and `DciFormat.LoadSaveLoad` (image and tree), `DciArchive.Archive.ToData` with
  `DciTree.SurvivesSavingIff` and `DciLoad.Reopen` (what is written, and when it reads back), `DciLoad.Load` (which
  images give a sound archive), `DciArchive.Archive.CopyNode` with `DciTree.CopyIsTheSameTree` (copies, also below their
  own source), `DciArchive.Archive.Remove` and `DciArchive.Archive.Rename` (when the index stays in step),
  `DciStore.RenameSortedIff`, `DciPaths.LinkKey`, `DciLinks.NewFileReads` and `DciLinks.WriteReachesTheEnd` (where links
  lead, and what is read), `DciLinks.ForeverIffCycle`, and over whole runs `DciRuns.RunsStaySound` and
  `DciRuns.RunsSurviveSavingIff`.
* Configuration wrapper: `ConfigWrapper.EachIsFreedOnce`, `ConfigRest.ComesToRest`, `ConfigRace.DestroyFaultsIff`,
  `ConfigMirror.TheSidesAgree`.
* Desktop entries: `DesktopSections.LazyIsEager`, `DesktopSave.SaveReproducesIff`, `DesktopPrint.SavedDocumentLoadsIff`,
  `DesktopEscape.WrittenIsRead`, `DesktopEscape.EscapeRoundTripIff`, `DesktopEscape.ListRoundTripIff`.
* Watchers: `FileWatcherManager.WatchedIffHeld`, `FileWatchers.RestartCountsRightIff`,
  `FileWatcherManager.FailureIsRetriedRight`, `MoveEvents.EveryMoveIsReportedOnce`.
* Ghost vtables: `VtableHook.Memory.EnsureVtable` and `VtableHook.Memory.Override`, with `VtableHook.WriteIsLocal`.
* Layered configuration: `ConfigOverrides.FirstDirectoryWins`, `ConfigMeta.EachFieldByItself`,
  `ConfigFile.ReadsTheLastWrite`.
* Units: `UnitFormatter.FormatEndsIff`, `UnitFormatter.FormatAsUnitList` with `UnitFormatter.OneSplit`.

The other rows below are what these rest on.

## Where code and intention differ

The model follows the code; the names are those of the exact conditions.

* Comments at `src/dconfigfile.cpp:899` and `src/dconfigfile.cpp:911` give later override directories the higher
  priority, the code the lower one (`ConfigOverrides.FirstDirectoryWins`).
* Escaping doubles the backslash before `n`, `t` and `r` (`DesktopEscape.EscapeRoundTripIff` with
  `DesktopEscape.LineFeedIsLost`), and escaping arguments does not double it often enough before what is reserved
  (`DesktopEscape.ExecRoundTripIff` with `DesktopEscape.SecondSlashIsLost`). The comments there name the backtick
  among what is to be escaped, the code has the single quote.
* A list whose last semicolon is left out, as the standard allows, can lose its last item
  (`DesktopEscape.EndIsOptionalIff`).
* A value written again while no serial is given may not count (`ConfigFile.WriteIsReadIff` with
  `ConfigFile.RewriteIsLost`).
* A new section is not written last in a file with a hundred sections (`DesktopEntry.NewIsLastIff`).
* Removing and renaming nodes can leave paths in the index or take them out (`DciArchive.Archive.Remove` with
  `DciArchive.GrandchildStaysIndexed`, `DciArchive.Archive.Rename` with `DciArchive.ChildKeepsItsOldPath` and
  `DciArchive.FailureForgetsThePath`), and an image with siblings of one name loads into an index that misses one
  (`DciLoad.Load` with `DciLoad.TwinIsNotIndexed`).
* A renaming may put a node below a file or a link, where it is never written and spoils the image
  (`DciStore.RenameTypedIff`, `DciTree.HiddenIsRejected` with `DciTree.FileAsParent`), may give it a name that is cut
  when it is saved (`DciTree.RenameFitsIff` with `DciTree.LongNameIsCut`), and within a directory leaves it at its old
  position (`DciStore.RenameSortedIff` with `DciStore.RenamedPastNeighbour`).
* Chains of links with a cycle are followed forever (`DciLinks.ForeverIffCycle` with `DciLinks.LinkToItself`), and so
  are values in a gap between two units (`UnitFormatter.FormatEndsIff` with `UnitFormatter.GapIsNotEmpty`).
* Destroying the owner of a configuration during initialization can free Data under a change handler
  (`ConfigRace.DestroyFaultsIff` with `ConfigRace.SomeRunFaults`).
* A watcher that is stopped and started again can be counted too rarely (`FileWatchers.RestartCountsRightIff` with
  `FileWatchers.SharedRestartLosesCount`). Starting again after a failure does no harm by itself
  (`FileWatcherManager.FailureIsRetriedRight`), but it does after a restart has lost a count
  (`FileWatchers.RetryCountsRightIff` with `FileWatchers.LostCountIsSkipped`).
* Keys set by a program may not survive printing (`DesktopPrint.SavedDocumentLoadsIff` with
  `DesktopPrint.CommentedKeyIsLost`).
* Resetting an object whose vtable somebody else has put back points it to the word behind that vtable
  (`VtableHook.StaleReset` with `VtableHook.StaleResetLeadsNowhere`).

## Model

| member | source | states |
|---|---|---|
| `DciFormat.RoundTripIff` | src/dci/ddcifile.cpp:162-208 | for every tree whose image is less than 2^63 bytes long: loading its image gives the tree back if and only if every name has 1 to 62 bytes without NUL, every type is file, directory or link, only directories have children and only the others data, and the root has fewer than 2^24 entries |
| `DciFormat.LoadSaveLoad` | src/dci/ddcifile.cpp:340-394 | whatever image is accepted, saving what was loaded and loading it again gives the same tree |
| `DciFormat.LoadedTreeIsSavable` | src/dci/ddcifile.cpp:340-394 | an accepted image holds a tree that meets the conditions on names, types and root count, and saving it takes no more bytes than were read |
| `DciFormat.ImageIsInjective` | src/dci/ddcifile.cpp:486-503 | two different savable trees never have the same image |
| `DciFormat.HeaderBytes` | src/dci/ddcifile.cpp:486-503 | the first eight bytes of every image: DCI, a NUL, 1 for the version, and the number of entries in the root, low byte first |
| `DciFormat.NodeBytes` | src/dci/ddcifile.cpp:210-254 | every byte of every node: 1, 2 or 3 for a file, a directory or a link, the name cut after 62 bytes and filled up with NULs, the size in eight bytes, low byte first, and the payload |
| `DciFormat.HeaderIsChecked` | src/dci/ddcifile.cpp:162-194 | which images are refused for their first three bytes and for their version, and that an accepted one counts the entries of its root right |
| `DciFormat.FillerIsIgnored` | src/dci/ddcifile.cpp:347-359 | a name is read up to its NUL, whatever fills it up behind that |
| `DciFormat.SizesAreSigned` | src/dci/ddcifile.cpp:361-362 | the eight bytes of a size are read in two's complement |
| `DciLoad.LoadDirectory` | src/dci/ddcifile.cpp:340-394 | the loop that makes a node for each entry, calls itself for directories and enters the node in the hash returns the offset or the error of the plain recursive reader; the new nodes stand for the trees it reads, and the hash has a path of each |
| `DciLoad.Load` | src/dci/ddcifile.cpp:162-208 | fails with the error of the plain reader or gives an archive, whose index is that of one tree if and only if no two siblings in the image have one name; that tree is then the one in the image |
| `DciLoad.LoadedIs` | src/dci/ddcifile.cpp:391-392 | that condition, of the nodes and the hash that loading leaves |
| `DciLoad.SavedNamesDiffer` | src/dci/ddcifile.cpp:505-529 | what an archive with a sound index saves has no siblings of one name, so it loads into a sound index again |
| `DciLoad.TwinIsNotIndexed` | src/dci/ddcifile.cpp:391-392 | an image with two files of one name loads into an archive that lists both and indexes one |
| `DciFormat.EntryReadsBack` | src/dci/ddcifile.cpp:210-254 | a node written anywhere in a buffer is read back from there, and the reader stops right behind it |
| `DciFormat.EntriesReadBack` | src/dci/ddcifile.cpp:229-243 | so are all children of a directory, up to the end that their size gives |
| `DciFormat.LongerIsRejected` | src/dci/ddcifile.cpp:189-200 | an image with more bytes behind it is rejected, whatever they are |
| `DciArchive.Archive.WriteNode` | src/dci/ddcifile.cpp:245-254 | skipping the meta data, writing below, seeking back to fill in the size and moving to the end leaves exactly the plain encoding of the subtree in the device, nothing else changed |
| `DciArchive.Archive.WriteDataForNode` | src/dci/ddcifile.cpp:229-243 | the payload of a subtree and its length |
| `DciArchive.Archive.WriteMetaDataForNode` | src/dci/ddcifile.cpp:210-227 | the 72 bytes of type, padded name and size |
| `DciArchive.Archive.WriteToDevice` | src/dci/ddcifile.cpp:486-503 | of every sound archive: the device receives the image of the tree that the nodes stand for; the result compares its size with the least an index of that many paths needs |
| `DciArchive.Archive.ContentSize` | src/dci/ddcifile.cpp:505-522 | adding up contents over the index in any order |
| `DciArchive.Archive.ToData` | src/dci/ddcifile.cpp:505-529 | of every sound archive: the result is the image, and behind it what happened to be in the space reserved for entries that the writer does not come to |
| `DciTree.ImageSize` | src/dci/ddcifile.cpp:512-522 | the length of the recursive encoding is what the entries that are written weigh in the index |
| `DciTree.HiddenIff` | src/dci/ddcifile.cpp:512-522 | the space reserved from the whole index is used up if and only if only directories hold entries |
| `DciTree.StoreSurvivesSaving` | src/dci/ddcifile.cpp:505-529 | every archive with types, names and a root count that fit is the same tree, in the same order, after saving and loading |
| `DciTree.SurvivesSavingIff` | src/dci/ddcifile.cpp:505-529 | what is saved of a sound archive loads as the same tree if and only if each entry has a type with only directories holding entries and only the others data, every name has 1 to 62 bytes without NUL, and the root has fewer than 2^24 entries |
| `DciTree.TreeIsAll` | src/dci/ddcifile.cpp:505-529 | two sound archives of one tree have the same paths, types, data and order of names |
| `DciLoad.Reopen` | src/dci/ddcifile.cpp:505-529 | saving an archive with types, names and a root count that fit and loading what was saved gives an archive with just the same entries |
| `DciTree.HiddenIsRejected` | src/dci/ddcifile.cpp:189-200 | with entries below a file or a link, what is saved cannot be loaded at all |
| `DciArchive.Archive.constructor` | src/dci/ddcifile.cpp:196-207 | an archive with just its root, as loading starts from |
| `DciArchive.Archive.GetOrderedIndexOfNodeName` | src/dci/ddcifile.cpp:396-407 | the first position whose name collates after the new one, or the end |
| `DciArchive.Archive.MkNode` | src/dci/ddcifile.cpp:256-293 | a node is made exactly if its path is new, its directory is one and its name has less than 63 bytes; links, listing and index stay in step |
| `DciArchive.Archive.Mkdir` | src/dci/ddcifile.cpp:661-672 | a new directory, or no change at all |
| `DciArchive.Archive.NodePath` | src/dci/ddcifile.cpp:82-91 | walking up the parents gives the path under which the node is indexed |
| `DciArchive.Archive.NodeLinkPath` | src/dci/ddcifile.cpp:93-115 | the path a link leads to, climbing nodes; which path that is follows |
| `DciPaths.LinkKey` | src/dci/ddcifile.cpp:93-115 | the key that any link text stands for: an absolute text is the key itself; a relative one continues the text of the directory so many levels up as it has leading ../ steps, with ./ steps in between, and there is none if and only if there are not so many levels |
| `DciPaths.AbsoluteLink` | src/dci/ddcifile.cpp:93-97 | a link with the text of a path leads to that path |
| `DciPaths.RelativeLink` | src/dci/ddcifile.cpp:98-114 | steps and then the names of a path lead to the same place below the directory that they climb to |
| `DciPaths.StepsAlone` | src/dci/ddcifile.cpp:98-114 | steps alone lead to the root if they climb just so far, and to a key that no plain path has if they stop below it |
| `DciPaths.EveryTextHasSteps` | src/dci/ddcifile.cpp:101-112 | every text is some steps and a rest that begins with none |
| `DciPaths.TextsDiffer` | src/dci/ddcifile.cpp:82-91 | different paths are different keys of the hash, if no name in them has a slash |
| `DciPaths.SlashSharesKey` | src/dci/ddcifile.cpp:82-91 | and two paths that share a key where one has |
| `DciArchive.Archive.DataRef` | src/dci/ddcifile.cpp:602-620 | the data at the end of a chain of links that ends |
| `DciArchive.Archive.WriteFile` | src/dci/ddcifile.cpp:674-716 | a new file, or the file at the end of the links overwritten, or no change |
| `DciArchive.Archive.Link` | src/dci/ddcifile.cpp:813-830 | a new link with that text, unless the text is empty or is the new path itself written out, or no node can be made there; any other text is accepted, wherever it leads |
| `DciArchive.Archive.CopyNode` | src/dci/ddcifile.cpp:312-338 | the growing worklist terminates, also when the copy is made below its own source, and leaves the copy of the source as it was before the call |
| `DciArchive.Archive.Copy` | src/dci/ddcifile.cpp:793-811 | the whole store afterwards: the old entries as they were, and the source once more below the new path |
| `DciArchive.Archive.RemoveNode` | src/dci/ddcifile.cpp:295-310 | the node leaves its listing, it and its direct children the index, and all that was below it is freed; the index is in step afterwards if and only if no child had children |
| `DciArchive.Archive.Remove` | src/dci/ddcifile.cpp:718-736 | what is taken out; removing the root takes out each of its entries; afterwards the index is in step with the tree if and only if no child of a removed node had children |
| `DciArchive.Archive.Empty` | src/dci/ddcifile.cpp:724-727 | emptying the root: it is alone afterwards, in step if and only if nothing lay three steps below it |
| `DciArchive.GrandchildStaysIndexed` | src/dci/ddcifile.cpp:295-310 | an archive, built by calls, where a removal leaves a path that leads to a freed node |
| `DciArchive.Archive.Rename` | src/dci/ddcifile.cpp:738-791 | when it succeeds; a failure leaves the index in step if and only if the paths are equal, the new one is too long, it exists and is not to be overridden, or there was nothing to take out under either path; a success if and only if nothing lay below the renamed node and nothing else below the overridden one, and then the archive is the old one with that entry moved to its place in order; its entries stay typed if and only if the new parent is a directory, and its names fit if and only if the new one does |
| `DciArchive.ChildKeepsItsOldPath` | src/dci/ddcifile.cpp:759-778 | an archive, built by calls, where after a successful renaming a child is still indexed by its old path |
| `DciArchive.FailureForgetsThePath` | src/dci/ddcifile.cpp:756-790 | and one where a failing renaming takes the path of a listed node out of the index |
| `DciStore.CopyValid` | src/dci/ddcifile.cpp:793-811 | copying keeps the index that of one tree |
| `DciStore.CopySucceedsIff` | src/dci/ddcifile.cpp:793-811 | a copy succeeds if and only if its source is there and a node can be made, and changes nothing otherwise |
| `DciStore.AttachValid` | src/dci/ddcifile.cpp:280-288 | so does making a node |
| `DciStore.RemoveValid` | src/dci/ddcifile.cpp:295-310 | and removing one whose children are leaves |
| `DciStore.RemoveTakesOut` | src/dci/ddcifile.cpp:295-310 | what is at or below the removed node is gone, its name leaves one listing, whose other names keep their order, and nothing else changes |
| `DciLinks.RemovedReads` | src/dci/ddcifile.cpp:602-620 | afterwards every chain of links that comes to what is gone reads nothing, every other reads as before |
| `DciStore.RenameValid` | src/dci/ddcifile.cpp:760-778 | so does renaming a node without children |
| `DciStore.RenameMoves` | src/dci/ddcifile.cpp:760-778 | the renamed node keeps its data, and all others are as before but for one name in each of two listings |
| `DciStore.RenameTypedIff` | src/dci/ddcifile.cpp:760-778 | which leaves only directories holding entries if and only if the new parent is one; the code does not look at that |
| `DciTree.FileAsParent` | src/dci/ddcifile.cpp:760-778 | a file renamed to a path below another file, and what is saved after that cannot be loaded |
| `DciTree.RenameFitsIff` | src/dci/ddcifile.cpp:747-750 | names fit after a renaming if and only if the new one does: only the length of the whole path is checked |
| `DciTree.LongNameIsCut` | src/dci/ddcifile.cpp:747-750 | a renaming to a name of 63 bytes, after which another tree is loaded than was saved |
| `DciStore.CopyTyped` | src/dci/ddcifile.cpp:312-338 | copies of typed entries are typed |
| `DciStore.RenameSortedIff` | src/dci/ddcifile.cpp:766-772 | a renaming into another directory keeps siblings sorted; within a directory the node stays where it was, and they are sorted afterwards if and only if its new name still fits between its neighbours |
| `DciStore.RenamedPastNeighbour` | src/dci/ddcifile.cpp:766-772 | a renaming within a directory past a neighbour, after which they are not |
| `DciStore.InsertIndexIs` | src/dci/ddcifile.cpp:396-407 | the insertion point is the only one with no later name before it and a later one or nothing behind |
| `DciStore.InsertKeepsSorted` | src/dci/ddcifile.cpp:284-285 | inserting there keeps siblings sorted |
| `DciStore.SortNamesSorts` | src/dci/ddcifile.cpp:333-334 | inserting children one by one sorts them, and loses and doubles none |
| `DciTree.CopyIsIsomorphic` | src/dci/ddcifile.cpp:312-338 | the copied subtree has the shape, types and data of the source before the call, up to the order of siblings |
| `DciTree.CopyIsTheSameTree` | src/dci/ddcifile.cpp:312-338 | if siblings were sorted before, the copy is the very same tree, order included |
| `DciTree.CopySorts` | src/dci/ddcifile.cpp:312-338 | what is copied is listed in order, also where its source is not |
| `DciTree.CopyLeavesTheRest` | src/dci/ddcifile.cpp:793-811 | nothing outside the new subtree changes but the listing it was added to |
| `DciCopy.CopyStarts` | src/dci/ddcifile.cpp:314-315 | the worklist of a copy begins with nothing copied |
| `DciCopy.ChildIsNew` | src/dci/ddcifile.cpp:324-331 | each child copied gets a path that was free, also while copies are made inside the source |
| `DciCopy.EntryEnds` | src/dci/ddcifile.cpp:317-337 | after one worklist entry its node is copied and its children are pending |
| `DciCopy.EverySourceIsFound` | src/dci/ddcifile.cpp:317-337 | when the worklist is used up every node of the source has been copied |
| `DciCopy.CopyEnds` | src/dci/ddcifile.cpp:793-811 | and the store is that of the plain copy |
| `DciLinks.FollowingEndsIff` | src/dci/ddcifile.cpp:602-620 | following links ends if and only if it ends within as many steps as there are entries; otherwise it never does |
| `DciLinks.ForeverIffCycle` | src/dci/ddcifile.cpp:602-620 | it never ends if and only if it comes to some path twice |
| `DciLinks.LinkToItself` | src/dci/ddcifile.cpp:813-830 | a call that makes a link to itself, which is then followed forever |
| `DciLinks.WriteReachesTheEnd` | src/dci/ddcifile.cpp:674-716 | overwriting through any link of a chain: every path that leads to the same end reads the new bytes, every other reads what it read, no other entry changes; a refusal changes nothing |
| `DciLinks.WriteSucceedsIff` | src/dci/ddcifile.cpp:681-707 | overwriting succeeds if and only if the chain ends at a file that exists |
| `DciLinks.NewFileReads` | src/dci/ddcifile.cpp:709-715 | a file written to a new path holds what was written, whether or not it might have overridden something: its path reads so, and so does every link that led to nothing there; everything else reads as before, and but for the new name in its directory no entry changes |
| `DciLinks.NewLinkLeads` | src/dci/ddcifile.cpp:813-830 | a new link holds the text it was given and reads what is where that leads; what ended at its path goes on with it, everything else reads as before |
| `DciLinks.NewLinkEndsIff` | src/dci/ddcifile.cpp:813-830 | following a new link ends if and only if following its target ended, and not at the path of the link |
| `DciLinks.NewDirectory` | src/dci/ddcifile.cpp:661-672 | a new directory is empty, and everything reads as before |
| `DciLinks.CanMakeIff` | src/dci/ddcifile.cpp:256-278 | the checks of `mkNode` are just what keeps entries below directories alone and names whole in the image |
| `DciLinks.WriteStep` | src/dci/ddcifile.cpp:683-693 | writing through a link is writing to its target |
| `DciLinks.WriteValid` | src/dci/ddcifile.cpp:674-716 | writing keeps the index that of one tree |
| `DciRuns.RunsStaySound` | src/dci/ddcifile.cpp:256-338 | every run of making, writing, linking, copying, removing nodes whose children are leaves, emptying the root and renaming nodes without children keeps the index exactly that of the tree; siblings stay sorted if no renaming is within one directory |
| `DciSession.PerformAll` | src/dci/ddcifile.cpp:661-830 | calls on an archive, one after the other, take its nodes, links and hash through just such a run |
| `DciSession.Perform` | src/dci/ddcifile.cpp:661-830 | and each call, to the store that the run has next |
| `DciRuns.RunsStayTyped` | src/dci/ddcifile.cpp:738-791 | and only directories hold entries if every renaming goes to one |
| `DciRuns.LookupIsWalking` | src/dci/ddcifile.cpp:602-613 | looking a path up in the index succeeds if and only if walking there from the root does |
| `DciRuns.RunsKeepNames` | src/dci/ddcifile.cpp:274-278 | names that can be saved stay so over every run |
| `DciRuns.RunsSurviveSaving` | src/dci/ddcifile.cpp:505-529 | whatever a run from the empty archive builds with clean names and renamings into directories is the same after saving and loading |
| `DciRuns.RunsSurviveSavingIff` | src/dci/ddcifile.cpp:505-529 | and in general if and only if entries are typed, names fit and the root is not too full |
| `ConfigWrapper.StepsKeepSound` | src/log/dconfig_org_deepin_dtk_preference.hpp:79-155 | every step of either thread keeps the books: who is to free Data and the DConfig, and what each status implies |
| `ConfigWrapper.RunsKeepSound` | src/log/dconfig_org_deepin_dtk_preference.hpp:79-186 | so does every interleaving |
| `ConfigWrapper.EachIsFreedOnce` | src/log/dconfig_org_deepin_dtk_preference.hpp:79-186 | in every run Data and the DConfig are freed at most once, never while the owner can see them; with the owner gone, both queues empty and both threads idle, each that was made has been freed exactly once |
| `ConfigWrapper.StepsGoOn` | src/log/dconfig_org_deepin_dtk_preference.hpp:83-84 | a status moves only from Invalid to Initializing, from there to Succeeded or Failed, and anywhere to Destroyed, which only the destructor enters |
| `ConfigWrapper.StatusNeverComesBack` | src/log/dconfig_org_deepin_dtk_preference.hpp:79-186 | over every run the status only goes forward, and Destroyed is final |
| `ConfigWrapper.FaultsNeedARace` | src/log/dconfig_org_deepin_dtk_preference.hpp:136-153 | no step touches freed memory unless the owner was destroyed during initialization and Data was deleted while a change was being handled on the config thread |
| `ConfigRace.FaultIffUsedFreed` | src/log/dconfig_org_deepin_dtk_preference.hpp:79-186 | which step uses Data and which the DConfig, and that a step counts as a fault if and only if what it uses has been freed |
| `ConfigRace.DestroyFaultsIff` | src/log/dconfig_org_deepin_dtk_preference.hpp:136-186 | from every state that some run reaches: destroying the owner there can be followed by an access to freed memory if and only if the status is Initializing, the worker has not failed and has no failure under way, and nothing keeps Data while its change handler runs |
| `ConfigRace.RaceFaults` | src/log/dconfig_org_deepin_dtk_preference.hpp:136-186 | a run to such an access from each of these states: the worker announces, the change is taken up, the main thread deletes Data, and the handler goes on |
| `ConfigRace.QuietDestroyIsSafe` | src/log/dconfig_org_deepin_dtk_preference.hpp:173-186 | destroying before or after initialization leads to none |
| `ConfigRace.FailureStaysSafe` | src/log/dconfig_org_deepin_dtk_preference.hpp:119-132 | nor does destroying when initialization has failed |
| `ConfigRace.NoFaultIffHeld` | src/log/dconfig_org_deepin_dtk_preference.hpp:136-153 | over all runs there is no such access if and only if Data is kept while its change handler runs |
| `ConfigRace.SomeRunFaults` | src/log/dconfig_org_deepin_dtk_preference.hpp:136-186 | otherwise some run from the start has one |
| `ConfigWrapper.NeverStuck` | src/log/dconfig_org_deepin_dtk_preference.hpp:79-186 | short of rest some step of the program is always possible |
| `ConfigRest.ComesToRest` | src/log/dconfig_org_deepin_dtk_preference.hpp:79-155 | from any state that a wrapper can come to, and without further calls, it comes to rest, after no more steps than there is work left, whatever the order of steps |
| `ConfigRest.RunsEnd` | src/log/dconfig_org_deepin_dtk_preference.hpp:79-155 | no run without calls is longer than that |
| `ConfigRest.StepsUseUpWork` | src/log/dconfig_org_deepin_dtk_preference.hpp:79-155 | every step that is no call leaves less work |
| `ConfigWrapper.SoundInitDone` | src/log/dconfig_org_deepin_dtk_preference.hpp:139-153 | the announcement of success hands Data on to the DConfig, or deletes both |
| `ConfigWrapper.SoundInitFailed` | src/log/dconfig_org_deepin_dtk_preference.hpp:119-127 | the announcement of failure hands Data on to the owner, or deletes it |
| `ConfigWrapper.SoundDestroy` | src/log/dconfig_org_deepin_dtk_preference.hpp:173-186 | the destructor passes on what it holds |
| `ConfigWrapper.SoundWorker` | src/log/dconfig_org_deepin_dtk_preference.hpp:83-89 | the worker claims Data or gives it away |
| `ConfigWrapper.SoundDiscard` | src/log/dconfig_org_deepin_dtk_preference.hpp:129-132 | an invalid DConfig is freed by the worker itself |
| `ConfigWrapper.SoundDeleteConfig` | src/log/dconfig_org_deepin_dtk_preference.hpp:173-180 | the deletion of the DConfig tells Data exactly if they are linked |
| `ConfigMirror.TheSidesAgree` | src/log/dconfig_org_deepin_dtk_preference.hpp:444-471 | after any run, with initialization over and nothing queued or under way: the property is the value of the DConfig, and the property bit tells whether that was set or is the default; the last setter or reset has had its way, the value being that of the setter, and set, or the default, unless it was changed from outside since |
| `ConfigMirror.WantedIsLastRequest` | src/log/dconfig_org_deepin_dtk_preference.hpp:444-464 | the history that the steps keep is what the program asked for last in the run; a reset made before there is a DConfig to be seen asks for nothing |
| `ConfigMirror.NothingIsChangedUnasked` | src/log/dconfig_org_deepin_dtk_preference.hpp:673-739 | as long as a program asks for nothing, and nobody else does, the DConfig stays as it is, initialization included, and its value comes to the property |
| `ConfigMirror.StepsStayInStep` | src/log/dconfig_org_deepin_dtk_preference.hpp:673-739 | what every step keeps for this to hold, also while a setter races the store of the DConfig and the test of the property bit |
| `ConfigMirror.RunsStayInStep` | src/log/dconfig_org_deepin_dtk_preference.hpp:444-464 | and so every run |
| `ConfigMirror.SetterInStep` | src/log/dconfig_org_deepin_dtk_preference.hpp:444-448 | a setter writes, marks and looks for the DConfig in three steps, with anything in between |
| `ConfigMirror.FillingInStep` | src/log/dconfig_org_deepin_dtk_preference.hpp:706-738 | the worker tests the bit, reads the property, connects and announces |
| `ConfigMirror.InitWriteInStep` | src/log/dconfig_org_deepin_dtk_preference.hpp:706-707 | a property that was set before is passed on to the DConfig |
| `ConfigMirror.UpdateInStep` | src/log/dconfig_org_deepin_dtk_preference.hpp:741-746 | a changed value is fetched and the bit set or cleared |
| `ConfigMirror.PostMirrorInStep` | src/log/dconfig_org_deepin_dtk_preference.hpp:824-836 | and sent to the main thread |
| `DesktopLines.ReadLine` | src/ddesktopentry.cpp:42-102 | one pass over the bytes finds what three separate definitions give: where the line starts, its first break that is not escaped, its first '=' that is not escaped; it terminates, and without a line it stands at the end of the data |
| `DesktopLines.LineIsInside` | src/ddesktopentry.cpp:42-102 | every line is within the data, ends at a break or with the data, and has its '=' inside |
| `DesktopLines.LinesAreInOrder` | src/ddesktopentry.cpp:42-102 | lines come in order with a break between any two |
| `DesktopLines.LineInSlice` | src/ddesktopentry.cpp:47-95 | a line that ends before a cut is the same line in the slice |
| `DesktopLines.NoLineInSlice` | src/ddesktopentry.cpp:47-49 | a slice cut where a line starts has no line left at its end |
| `DesktopLines.EmptyAtEnd` | src/ddesktopentry.cpp:375-375 | only the end of the data gives no line |
| `DesktopLayout.LineIsFound` | src/ddesktopentry.cpp:42-102 | however a line is laid out, in blanks, comments and empty lines, then characters, escaped characters and escaped breaks, then a break or the end: it is found from its first character to that break, and its = is the first that is not escaped |
| `DesktopSections.EnsureParsed` | src/ddesktopentry.cpp:170-195 | the loop over a slice finds the keys of its lines |
| `DesktopSections.InitSections` | src/ddesktopentry.cpp:328-381 | the cutting loop, with the sections committed and whether every name was closed |
| `DesktopSections.LazyIsEager` | src/ddesktopentry.cpp:170-195 | the keys of every section, parsed lazily from its own slice, are what one eager pass over the whole file finds, for every file |
| `DesktopSections.CutAgrees` | src/ddesktopentry.cpp:352-378 | line by line the cutting and the eager pass agree |
| `DesktopSections.SliceKeys` | src/ddesktopentry.cpp:342-348 | parsing a slice that ends where a section starts is parsing the file up to there |
| `DesktopSections.TrimmedIs` | src/ddesktopentry.cpp:185-186 | names, keys and values lose the blanks before and behind them, and nothing else |
| `DesktopSections.NameIs` | src/ddesktopentry.cpp:360-372 | a section's name is what stands between the brackets of its line, or behind the first if there is no other, trimmed |
| `DesktopSections.WellFormedIff` | src/ddesktopentry.cpp:360-366 | the format is said to be right if and only if every line that begins with a bracket has the other one too |
| `DesktopSave.SaveReproducesIff` | src/ddesktopentry.cpp:391-403 | a file loaded and saved without being parsed comes out byte for byte from its first section name on if and only if its section names are distinct and not empty |
| `DesktopSave.SavedIsKept` | src/ddesktopentry.cpp:391-403 | in general what is saved is the last section of each name, in file order |
| `DesktopSave.CutCommitsChunks` | src/ddesktopentry.cpp:342-348 | the sections committed line by line are those of the file's chunks |
| `DesktopSave.ChunksCover` | src/ddesktopentry.cpp:352-378 | the slices of all sections together are the file from its first section name on |
| `DesktopSave.OneOrder` | src/ddesktopentry.cpp:596-624 | positions that differ leave one order of the sections |
| `DesktopPrint.PrintedSectionParsesIff` | src/ddesktopentry.cpp:152-198 | printing a section from its keys and parsing it gives the same keys if and only if keys and values are trimmed and without open breaks, keys without open '=' or dangling backslash and not starting with [ or #, and values, but for the last, without dangling backslash |
| `DesktopPrint.SavedDocumentLoadsIff` | src/ddesktopentry.cpp:391-403 | a whole document of printed sections loads as the same sections if and only if that is so of all its lines and names are trimmed, not empty and without open breaks or ] |
| `DesktopPrint.CommentedKeyIsLost` | src/ddesktopentry.cpp:152-168 | a section with the key #, which is printed as a comment |
| `DesktopFacts.TraceWeighs` | src/ddesktopentry.cpp:42-102 | a printed text says no more than it was printed for; if it says as many things, they are not longer, and if they are as long, every line is clean and read as it was meant |
| `DesktopFacts.OneLine` | src/ddesktopentry.cpp:42-102 | one printed line, with those that a dangling backslash makes it swallow, says at most one thing |
| `DesktopFacts.HeaderIsRead` | src/ddesktopentry.cpp:354-371 | a printed section name is read as that name |
| `DesktopFacts.TraceIsReadable` | src/ddesktopentry.cpp:42-102 | nothing is found in a file that is not trimmed or has open breaks, nor a key with an open '=' |
| `DesktopEntry.Entry.Load` | src/ddesktopentry.cpp:328-381 | seen from outside, loading is an eager parse of the file |
| `DesktopEntry.Entry.Contains` | src/ddesktopentry.cpp:632-642 | whether a key is there; parsing in place changes nothing that can be seen |
| `DesktopEntry.Entry.KeysOf` | src/ddesktopentry.cpp:576-586 | the keys of a section |
| `DesktopEntry.Entry.RawValue` | src/ddesktopentry.cpp:722-732 | the value, or the default for an empty or missing key or section |
| `DesktopEntry.Entry.SetRawValue` | src/ddesktopentry.cpp:866-876 | the whole new state: one key of one section set, in a section that may be new and then has position 99 |
| `DesktopEntry.NewIsLastIff` | src/ddesktopentry.cpp:596-624 | a new section is written last, however sorting orders equal positions, if and only if no section has a position of 99 or more |
| `DesktopEntry.Entry.RemoveEntry` | src/ddesktopentry.cpp:900-909 | one key gone, or nothing changed |
| `DesktopEntry.Entry.Write` | src/ddesktopentry.cpp:391-403 | the document in the given order, raw or printed |
| `DesktopEscape.DoEscape` | src/ddesktopentry.cpp:104-117 | replacing character after character gives the same text in whatever order the hash lists them, for both tables in use |
| `DesktopEscape.BothTablesAreSettled` | src/ddesktopentry.cpp:916-957 | no character in either table is replaced by another one of it |
| `DesktopEscape.DoUnescape` | src/ddesktopentry.cpp:119-135 | the loop that replaces in place ends, and is one pass from left to right |
| `DesktopEscape.UnescapeAfterEscape` | src/ddesktopentry.cpp:916-984 | what escaping by either table and unescaping leaves of any string |
| `DesktopEscape.EscapeRoundTripIff` | src/ddesktopentry.cpp:916-984 | it is the string itself if and only if that has no line feed, tab or carriage return |
| `DesktopEscape.LineFeedIsLost` | src/ddesktopentry.cpp:916-984 | a line feed does not come back |
| `DesktopEscape.WrittenIsRead` | src/ddesktopentry.cpp:970-984 | whatever is written as section 4 of the Desktop Entry Specification says, with a backslash and a letter for backslashes and for any of space, line feed, tab and carriage return, is read back, and so are escaped semicolons in lists |
| `DesktopEscape.EscapeDoubles` | src/ddesktopentry.cpp:916-924 | `escape` writes just that, but for a second backslash before a letter |
| `DesktopEscape.ExecRoundTripIff` | src/ddesktopentry.cpp:945-1054 | `unescapeExec` undoes `escapeExec` if and only if no backslash stands before a reserved character other than a double quote, a single quote or a dollar sign |
| `DesktopEscape.SecondSlashIsLost` | src/ddesktopentry.cpp:945-1054 | two backslashes come back as one |
| `DesktopEscape.GuardedIsRead` | src/ddesktopentry.cpp:1025-1054 | an argument with a backslash before each reserved character is read without them, with its blanks marked |
| `DesktopEscape.StringList` | src/ddesktopentry.cpp:836-864 | splitting, putting pieces together again and unescaping |
| `DesktopEscape.ListRoundTripIff` | src/ddesktopentry.cpp:836-864 | a list written with its semicolons, backslashes and any of the other four characters escaped and every item terminated, as section 4 of the Desktop Entry Specification says, is read back if and only if it has items and none ends in a backslash |
| `DesktopEscape.EndIsOptionalIff` | src/ddesktopentry.cpp:844-847 | without its last semicolon it is read back if and only if, beyond that, the last item does not end in a semicolon, nor is empty unless it is the only one |
| `DesktopEscape.ItemIsPassed` | src/ddesktopentry.cpp:849-861 | an item is put together from all its pieces, wherever its escaped semicolons cut it |
| `FileSystemWatcher.Watcher.AddPaths` | src/filesystem/dfilesystemwatcher_linux.cpp:39-94 | which paths are watched afterwards and which are given back; both maps stay each other's inverse |
| `FileSystemWatcher.RejectedSoOften` | src/filesystem/dfilesystemwatcher_linux.cpp:39-94 | which paths are given back, and how often: all that are watched already or refused, and every repetition |
| `FileSystemWatcher.Watcher.AddOne` | src/filesystem/dfilesystemwatcher_linux.cpp:43-91 | one path: watched already, refused, or added to maps, lists and kernel |
| `FileSystemWatcher.Watcher.RemovePaths` | src/filesystem/dfilesystemwatcher_linux.cpp:96-126 | exactly those paths are gone, and the kernel watch of an inode with its last path |
| `FileSystemWatcher.Watcher.RemoveOne` | src/filesystem/dfilesystemwatcher_linux.cpp:101-122 | one path, watched or not |
| `FileSystemWatcher.InverseWith` | src/filesystem/dfilesystemwatcher_linux.cpp:89-90 | adding to both maps keeps them inverse |
| `FileSystemWatcher.InverseWithout` | src/filesystem/dfilesystemwatcher_linux.cpp:102-108 | so does removing from both |
| `FileSystemWatcher.WatchesWithout` | src/filesystem/dfilesystemwatcher_linux.cpp:112-116 | the last path of a number is the last path of its inode, so the kernel watch goes neither too early nor too late |
| `FileWatchers.FileWatcher.Start` | src/filesystem/dfilewatcher.cpp:66-103 | every new path of the chain is counted and listed, or all is taken back at the first that cannot be watched, with the paths that others hold left in the list; it succeeds exactly if each new path is counted already or can be watched |
| `FileWatchers.FileWatcher.Stop` | src/filesystem/dfilewatcher.cpp:105-128 | every listed path counts one less, and those that others still hold stay in the list |
| `FileWatchers.FileWatcher.StartWatcher` | src/filesystem/dbasefilewatcher.cpp:46-60 | the same for a watcher that is not started; starting twice does nothing |
| `FileWatchers.FileWatcher.StopWatcher` | src/filesystem/dbasefilewatcher.cpp:67-81 | nor does stopping what is not started |
| `FileWatchers.Restart` | src/filesystem/dbasefilewatcher.cpp:88-92 | when it succeeds, and the counts and the list afterwards; the counts are right if and only if no path of the chain was shared; a watcher that was not started stays so |
| `FileWatchers.FirstFailureLeaves` | src/filesystem/dfilewatcher.cpp:84-103 | a first start that fails leaves the counts alone and lists what was tried and others hold |
| `FileWatchers.RetryCountsRightIff` | src/filesystem/dfilewatcher.cpp:66-103 | a start after that counts right if and only if nobody held a path that the failed one had tried |
| `FileWatchers.ClosedRetryCountsRight` | src/filesystem/dfilewatcher.cpp:66-103 | and so it does if with a path of the chain all paths above it are counted |
| `FileWatcherManager.FailureIsRetriedRight` | src/filesystem/dfilewatcher.cpp:52-64 | as is the case in every state that the manager's calls lead to, since a chain is a path with the directories above it |
| `FileWatchers.LostCountIsSkipped` | src/filesystem/dfilewatcher.cpp:66-128 | three watchers: the first is restarted, the second stopped, the third fails and starts again; then two watchers hold a path that is counted once |
| `FileWatchers.RestartCountsRightIff` | src/filesystem/dfilewatcher.cpp:105-128 | the same for the counts alone: a path that stays in the list is not counted again |
| `FileWatchers.SharedRestartLosesCount` | src/filesystem/dfilewatcher.cpp:105-128 | counts that go wrong so |
| `FileWatchers.PlusThenMinus` | src/filesystem/dfilewatcher.cpp:76-83 | what a failed start has counted is taken back exactly |
| `FileWatcherManager.Manager.Add` | src/filesystem/dfilewatchermanager.cpp:49-75 | one watcher for a path, started or not; counts stay right |
| `FileWatcherManager.Manager.Remove` | src/filesystem/dfilewatchermanager.cpp:82-91 | the watcher is forgotten but counted until it is deleted |
| `FileWatcherManager.Manager.RemoveAll` | src/filesystem/dfilewatchermanager.cpp:97-104 | so are all |
| `FileWatcherManager.Manager.DeleteOne` | src/filesystem/dbasefilewatcher.cpp:28-32 | the deferred deletion stops the watcher; its paths are let go unless others hold them |
| `FileWatcherManager.WatchedIffHeld` | src/filesystem/dfilewatcher.cpp:66-128 | after any calls the system watcher watches a path if and only if the chain of some started watcher holds it, and an inode if and only if it watches some path of it |
| `FileWatcherManager.NothingIsLeft` | src/filesystem/dfilewatchermanager.cpp:82-104 | with all watchers deleted no count, path or kernel watch is left |
| `MoveEvents.ReadBatch` | src/filesystem/dfilesystemwatcher_linux.cpp:149-326 | the moves that two passes over a batch report are those that a direct definition asks for, in order: a watched pair once for every path of the one side with every path of the other, a lone half with the other side missing |
| `MoveEvents.Collect` | src/filesystem/dfilesystemwatcher_linux.cpp:149-200 | what the first pass collects |
| `MoveEvents.EveryMoveIsReportedOnce` | src/filesystem/dfilesystemwatcher_linux.cpp:307-326 | the reports are the moves with a watched half, seen from each pair of watched paths, and as many: none is lost and none comes twice |
| `MoveEvents.WatcherHasOneSign` | src/filesystem/dfilesystemwatcher_linux.cpp:82-90 | the maps of the system watcher are as the two passes need them |
| `MoveEvents.ReportedOnce` | src/filesystem/dfilesystemwatcher_linux.cpp:307-326 | no two events of a batch report the same move |
| `VtableHook.Memory.GetVtableSize` | include/util/dvtablehook.h:33-42 | the scan for the end of a table, plus the two words before it |
| `VtableHook.ScanIs` | include/util/dvtablehook.h:33-42 | a table goes on as long as its words are addresses, and ends with the first number below 64 |
| `VtableHook.Memory.CopyVtable` | src/util/dvtablehook.cpp:26-87 | the ghost, its pointer and the map entries |
| `VtableHook.Memory.EnsureVtable` | src/util/dvtablehook.cpp:188-221 | hooks the object, or leaves its hook, or replaces a stale one; its own functions stay the same but for the destructor, whose true address is kept; other objects and all true vtables are untouched |
| `VtableHook.Memory.ClearGhost` | src/util/dvtablehook.cpp:89-104 | all three maps forget the object, and its block is freed |
| `VtableHook.Memory.OriginalFun` | src/util/dvtablehook.cpp:293-311 | the slot of the true vtable, whatever has been overridden |
| `VtableHook.Memory.ResetVfptrFun` | src/util/dvtablehook.cpp:273-287 | one slot is the true one again, and what it was is returned |
| `VtableHook.Memory.Override` | include/util/dvtablehook.h:76-133 | one slot overridden, by an address or by a slot of another object or its own; an offset that is too large puts the true vtable back |
| `VtableHook.OverriddenAt` | include/util/dvtablehook.h:76-108 | what every slot holds afterwards: the address given, or what a slot of the other object holds then; the destructor's slot is taken over with the first hook |
| `VtableHook.Memory.CallOriginal` | include/util/dvtablehook.h:299-329 | the true function runs and the override is back afterwards |
| `VtableHook.Memory.ResetVtable` | src/util/dvtablehook.cpp:249-265 | a hooked object points to its true vtable again; one whose vtable had been put back from outside is pointed to whatever word stands behind that vtable; in both cases all three maps have forgotten it, and other objects are as they were |
| `VtableHook.StaleReset` | src/util/dvtablehook.cpp:249-265 | that second case, step by step: everything is sound afterwards if and only if that word is the address of a true vtable |
| `VtableHook.StaleResetLeadsNowhere` | src/util/dvtablehook.cpp:249-265 | an object that is hooked, put back from outside and reset, and points to no vtable |
| `VtableHook.WriteIsLocal` | include/util/dvtablehook.h:105-105 | a write through a hooked object's pointer changes that one slot of that one object |
| `VtableHook.AttachIsLocal` | src/util/dvtablehook.cpp:72-84 | making a ghost changes no function of any object |
| `VtableHook.ForgetIsLocal` | src/util/dvtablehook.cpp:89-104 | nor does forgetting a stale one |
| `VtableHook.ResetIsLocal` | src/util/dvtablehook.cpp:249-265 | putting the pointer back makes the functions the true ones, for that object only |
| `VtableHook.HookedHasSameSize` | src/util/dvtablehook.cpp:72-84 | a ghost is scanned to the same size as its original, whatever was written into its slots |
| `VtableHook.HookWords` | src/util/dvtablehook.cpp:293-311 | the last word of a ghost leads back to the true vtable |
| `ConfigMeta.Meta.Load` | src/dconfigfile.cpp:786-879 | when it succeeds; then the keys are those of the meta file, and each field is that of the last applied override that gives it, or the meta file's own, and the meta file's own throughout if overriding is forbidden |
| `ConfigMeta.AcceptedVersions` | src/dconfigfile.cpp:184-226 | which versions a meta file may have: two numbers, of which the first is 1, or is 0 with another second; whatever is no version is refused |
| `ConfigMeta.AcceptedOverrides` | src/dconfigfile.cpp:228-231 | and an override file: two numbers, not both 0, of which the first is that of the meta file |
| `ConfigMeta.Meta.Fill` | src/dconfigfile.cpp:815-830 | the entries of the meta file, each with a value |
| `ConfigMeta.Meta.ApplyAll` | src/dconfigfile.cpp:833-876 | override files in order, up to the first object of another kind or version |
| `ConfigMeta.Meta.Override` | src/dconfigfile.cpp:859-874 | one override file over all keys |
| `ConfigMeta.Meta.OverrideOne` | src/dconfigfile.cpp:860-873 | one item over its key |
| `ConfigMeta.OneMoreFile` | src/dconfigfile.cpp:859-874 | applying one more file is one more layer |
| `ConfigMeta.EachFieldByItself` | src/dconfigfile.cpp:860-873 | value, serial and permissions are each those of the last applied file that says them, and the meta file's own if none does; flags never change, and nothing of an entry that may not be overridden |
| `ConfigOverrides.LoadOverrides` | src/dconfigfile.cpp:924-979 | the files in the order of application: base directories reversed, base to leaf in each, in collating order within a directory |
| `ConfigOverrides.FirstDirectoryWins` | src/dconfigfile.cpp:924-979 | a value is that of the last file, in this order, that gives it, among those up to the first of another kind or version; if there is none of these, it is that of the first base directory listed that gives it, and there of the deepest directory |
| `ConfigOverrides.LeafWins` | src/dconfigfile.cpp:953-975 | within a base directory the deepest wins |
| `ConfigOverrides.LastCollatedWins` | src/dconfigfile.cpp:953-975 | and within a directory the file that collates last |
| `ConfigFile.Cache.SetValue` | src/dconfigfile.cpp:1190-1202 | an entry is written unless the same value with a serial that counts is there |
| `ConfigFile.File.SetValue` | src/dconfigfile.cpp:1354-1409 | when it says that something has changed, which cache it changes, and how |
| `ConfigFile.SaysWhetherChanged` | src/dconfigfile.cpp:1354-1409 | a write is said to have changed something if and only if the cache is another afterwards; a reset always is |
| `ConfigFile.File.CacheValue` | src/dconfigfile.cpp:1417-1430 | a cached value counts for writable keys with a matching serial |
| `ConfigFile.File.Value` | src/dconfigfile.cpp:1431-1437 | the cached value, or the loaded one |
| `ConfigFile.ReadsTheLastWrite` | src/dconfigfile.cpp:1354-1436 | after any calls by any users from empty caches, with anything loaded at each: a key that may be written reads as its last write that was not reset, by anyone if it is global and by that user otherwise, if no serial was recorded with it or the same one is given now; everything else as it is loaded now |
| `ConfigFile.RunKeeps` | src/dconfigfile.cpp:1190-1202 | every cached entry is that write, with the serial it counts for |
| `ConfigFile.WriteIsReadIff` | src/dconfigfile.cpp:1190-1202 | a value that fits is read after it was written, unless the same value was there for a serial and none is given now |
| `ConfigFile.StaleUntilRewritten` | src/dconfigfile.cpp:366-373 | a value of another serial is not read, until the same value is written again |
| `ConfigFile.RewriteIsLost` | src/dconfigfile.cpp:1190-1202 | a value that is written for a serial, and again while none is given, and is not read |
| `ConfigFile.UsersAreApart` | src/dconfigfile.cpp:1410-1416 | calls of other users do not show in a key that is not global |
| `UnitFormatter.FormatAs` | src/util/dabstractunitformatter.cpp:83-91 | conversion keeps the quantity |
| `UnitFormatter.Format` | src/util/dabstractunitformatter.cpp:104-115 | outside the gaps: the same quantity, at least one of its unit unless that is the smallest, and at most the rate less one unless that is the largest |
| `UnitFormatter.FormatEndsIff` | src/util/dabstractunitformatter.cpp:104-115 | it ends if and only if the quantity, in the largest unit of which there is one, is not above the rate less one below the largest unit; where it starts does not matter |
| `UnitFormatter.FormatEnds` | src/util/dabstractunitformatter.cpp:104-115 | and then it takes as many steps as units lie between |
| `UnitFormatter.FormatGoesOn` | src/util/dabstractunitformatter.cpp:104-115 | in a gap no number of steps is enough |
| `UnitFormatter.GapIsNotEmpty` | src/util/dabstractunitformatter.cpp:104-115 | 59.5 seconds, with minutes above them, are in one |
| `UnitFormatter.FormatAsUnitList` | src/util/dabstractunitformatter.cpp:125-155 | it ends and conserves the quantity; units decrease; for what is not negative and starts above the smallest unit every entry is positive, below the largest unit less than its rate, and above the smallest whole |
| `UnitFormatter.OneSplit` | src/util/dabstractunitformatter.cpp:125-155 | two such lists that amount to the same are the same, so the list is determined |
| `UnitFormatter.Carry` | src/util/dabstractunitformatter.cpp:138-152 | the whole part over its unit and the larger ones, conserving it |

## Left out

- DciFormat.RoundTripIff: says nothing of images of 2^63 bytes and more, whose size field the writer cannot hold.
- DciLoad.Load: reads past the end of a malformed image, which the code does not check, are the error `Truncated`, and the image is loaded whole; keys of the hash are paths and not their texts, so an image with a slash in a name is outside the model where two of its paths have one text (`DciPaths.SlashSharesKey`).
- DciArchive.Archive.ToData: what is in a buffer just made is a parameter, since the code does not clear it.
- DciArchive.Archive.Rename: renaming the root is modelled where the call fails; where it would go on, the code uses a parent that the root does not have.
- DciArchive.Archive.Remove: the loop that empties the root runs over a list from which each child takes itself out; it is taken to meet every child, as it does where a list drops its first element by moving its start.
- DciRuns.RunsStaySound: renamings that fail and of nodes with children are only in the contract of `DciArchive.Archive.Rename`.
- Paths are absolute, cleaned and split into components; what `QFileInfo` makes of other paths is not modelled. Names are bytes without UTF-8 decoding, and the collator is any total preorder.
- The archive's accessors (`list`, `type`, `exists`, `name`, `symlinkTarget`), its file engine and its error texts: they only read the state.
- ConfigRace.DestroyFaultsIff: relaxed loads and stores are sequentially consistent steps, queues are first in first out, and an event is handled in one step unless its parts are listed as steps; moving Data and the worker between threads is not modelled.
- ConfigMirror.TheSidesAgree: one property of one type stands for all, conversions between values and variants are left out, every change of the value and every reset is signalled at once or by a later event, and the value is fetched in the same step in which the bit is set or cleared.
- DesktopPrint.PrintedSectionParsesIff: is about a section whose name is read back; names are in `DesktopPrint.SavedDocumentLoadsIff`.
- DesktopEntry.Entry.Write: the order in which sections and keys are written is a parameter, constrained to what sorting by position may give; files, permissions, localized values and the status are left out, and text is compared as bytes.
- DesktopEscape.StringList: works on the raw value; the lookup before it is `DesktopEntry.Entry.RawValue`.
- FileWatchers.FileWatcher.Start: which paths the kernel refuses is a parameter, and the chain of parent directories is given with the watcher, the directories staying as they are; signals and their handlers are left out.
- FileSystemWatcher.Watcher.AddPaths: paths keep their inodes and types, and the kernel drops no watch by itself; the filter for empty paths in front of it is left out, since watched paths are absolute.
- FileWatcherManager.Manager.DeleteOne: one manager owns all watchers, and deletions run in the order in which they were asked for.
- MoveEvents.ReadBatch: distinct cookies for distinct moves and a from-half before its to-half are required, as the kernel promises them; signals other than for moves are left out.
- VtableHook.Memory.EnsureVtable: the destructor's slot and the allocated block are parameters; memory is in whole words, data pointers are no addresses that arithmetic could reach, and forced writes into shared vtables are left out.
- VtableHook.Memory.ResetVtable: the word behind a vtable that ends its block counts as zero.
- VtableHook.Memory.CallOriginal: the called function itself hooks and overrides nothing.
- ConfigMeta.Meta.Load: JSON parsing, the telling apart of whole and fractional numbers, and the search for the meta file are left out; a failing load promises nothing about the values.
- ConfigFile.File.SetValue: the conversion of a value to the type of the loaded one is a parameter; time, user and application recorded with a value, and reading and saving cache files, are left out.
- UnitFormatter.FormatAsUnitList: arithmetic is exact, zero is exactly zero, and values fit the machine's unsigned integers.
- D-Bus, process launching, logging, trash, services, recent files, settings, capabilities and the generator's text output are left out.
