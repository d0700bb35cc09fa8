# What the Android platform code of this repository promises, in Dafny

The repository carries a number of small but intricate Android programs in C and C++. This project
models seven of them and proves what they are for. Each core that changes state step by step is
modelled as it is written: classes with fields, arrays edited in place, linked lists and loops. Each
such method is proved equal to a function of its inputs and old state, or to what the source promises
outright, and the theorems are about those functions over every input, every run and every kill point.

| core | modules | main results |
|---|---|---|
| `ext4fixup`, crash-restartable inode renumbering | `InodeNumbers`, `FixupModel`, `FixupTree`, `FixupRuns`, `FixupSupers`, `FixupConvergence`, `FixupPaths`, `FixupFailures`, `FixupTool` | after any sequence of runs killed at any disk write, one complete run converts every directory entry exactly once and raises every counter exactly once, if and only if no superblock copy lands on a directory (never above 1 KiB blocks); every path leads to the inode it led to if and only if, besides, no record in use that the path needs stands behind one with inode 0 |
| the dynamic linker's library graph | `LinkerModel`, `LinkerLeaks`, `LinkerSuccess`, `LinkerCounts`, `LinkerGraph`, `LinkerLog`, `LinkerUnload`, `LinkerProcess`, `LinkerStartup`, `LinkerTheorems`, `LinkerFailures`, `LinkerHeap`, `LinkerTool` | over every history of `dlopen` and `dlclose`, reference counts are exact up to what failed loads lost, and what that is and when it is nothing; a library is loaded iff it is reachable or lost; a load succeeds iff what it needs can be put in order; initialisers and terminators run in proper order, the graph stays acyclic; the linked-list implementation does what the model says |
| the ext4 block allocator and extents | `Bitmap`, `AllocModel`, `AllocProofs`, `AllocRuns`, `AllocFailures`, `AllocTool`, `Ext4Geometry`, `Extents`, `ExtentProofs`, `ExtentTool` | in every reachable state each block has at most one owner and lies in a data area of the image; free counts are conserved; when an allocation never ends; when a file's extent map decodes to its blocks |
| SHA-1 | `Sha1Spec`, `Sha1Example`, `Sha1Transform`, `Sha1Stream` | the in-place schedule and renamed registers compute section 7 of FIPS PUB 180-1; any message cut up in any way gets the digest of the whole, with a length that is right iff what the pieces fail to carry adds up to a multiple of 2^32 |
| the ELF segment loader | `ElfSegments`, `ElfReader` | the memory image, byte by byte; when it is the one the ABI asks for; when the header table found is the file's |
| byte layouts in the image | `DirRecords`, `DirBlocks`, `DirTool`, `DirRoundTrip`, `Xattrs`, `XattrTool` | a directory built from any names, types and inode numbers reads back as those, and the walk repairs one that ends short; every attribute added to an area reads back |
| the FAT volume, CRC-16 and lookup3 | `FatImage`, `FatVolume`, `Crc16`, `Lookup3Spec`, `Lookup3Example`, `Lookup3` | reads are slices of the image, and each extent, sector and table entry is seen at its place; cluster chains are sound, and inside the volume iff clusters are whole sectors; table CRC is polynomial division; all alignment and byte-order variants of the hash agree, and mixing loses nothing |

`Arithmetic` and `Sequences` hold what several of them share. `dafny verify dfyconfig.toml` checks everything.

## How to read the models

- **Killing a run.** A run of `ext4fixup` has a budget of disk writes and stops dead when it is spent;
  one directory block, one bitmap block, one group's superblock with its descriptors, and the phase
  word are one write each. Running out of stack is a kill as well. The inode table is keyed by slot
  (group and index), which is what stays the same while numbers change. `rank` is a witness that
  directories form a tree. `disk` has the blocks that hold directory entries and, without entries, those of
  extent trees that map them; a superblock copy that lands on such a block takes it off `disk`.
- **The linker's state.** `LinkerModel.State` lists the libraries in `solist` order, the number of
  soinfos the pool can still supply, and a log of initialiser and terminator calls. `stamp` and `clock`
  record the order in which links were completed; they exist for the proofs only. `Process.lost` is the
  multiset of references that failed loads have handed out. `Crashed` and `Fault`
  mean that the code follows a null pointer. `LinkerTool.Linker` does the same work on real linked
  lists of objects.
- **The allocator.** A group's state is its first block, the blocks handed out, the free count and the
  index of the first free block. The ledger is the list of all regions ever handed out and not given
  back. `Spinning` is the loop that never ends.

## Where the code does less than its documentation or the standard says

Each of these has a lemma that gives the exact condition, and one at an input that fails where that is
not plain from the condition.

- On images with 1 KiB blocks `ext4fixup` writes each backup superblock one block early, on the last block
  of the group before: the backup stays old (`FixupConvergence.BackupsRenewedIff`), and a directory there
  is lost (`FixupSupers.BackupsReachTheirPlace`, `FixupSupers.HitIff`, `FixupConvergence.ConvergesIff`;
  `FixupFailures.DirectoryOverwritten`).
- `ext4fixup` ends a directory at the first record with inode 0, which ext4 skips: records in use behind it
  keep their old numbers (`FixupPaths.PathsKeepIff`, `FixupPaths.SteadyIff`;
  `FixupFailures.HiddenRecordMisled`).
- `ext4_create_fs_aux_info` compares the wrong number with the last group's header when the first data
  block is 1 (`Ext4Geometry.AuxInfoSoundIff`; `AllocFailures.CompleteGroupDropped`,
  `AllocFailures.ShortGroupKept`).
- The linker's built-in libdl starts with no reference and no dynamic section. If nothing the program
  loads needs it, opening and closing it follows a null pointer
  (`LinkerTheorems.NeverFaultsIffLibdlIsHeld`; `LinkerFailures.LibdlFaults`).
- A failed `dlopen` does not give back the references that finished dependencies of the failed library
  were given. It loses none exactly if it fails before the first library it needs has been found
  (`LinkerLeaks.FailsWithoutLossIff`, `LinkerTheorems.NothingLostIff`); what it loses stays loaded for good
  (`LinkerTheorems.LostIsNeverUnloaded`, `LinkerTheorems.OnlyTheReachableIff`;
  `LinkerFailures.FailedLoadLeavesALibrary`).
- The multi-group allocator never ends once it comes to an untouched group with nothing free
  (`AllocProofs.AllocateSpinsIff`), such as a last group that its header fills
  (`AllocFailures.HeaderFillsLastGroup`, `AllocFailures.TightImageSpins`).
- `allocate_blocks` leaves the list's last pointer at its head, so a file whose first region is one
  block long loses its blocks (`ExtentProofs.RoundTripIff`, `ExtentProofs.HeadHoldsIff`;
  `AllocFailures.CrampedFileIsLost`).
- `reserve_oob_blocks` hands back the wrong half when the split falls between two regions
  (`Extents.ReserveOobSplits`).
- `SHA1Update` adds the high part of a length only when the low word carries, so a single piece of
  2^29 bytes or more is miscounted unless it does (`Sha1Stream.CountStaysRightIff`,
  `Sha1Stream.BitsRightIff`; `Sha1Stream.LongPieceLost`).
- A read-only segment is not zeroed behind its file part within the last page
  (`ElfReader.Reader.LoadedIff`), and `CheckPhdr` accepts a header table whose end wraps around
  (`ElfReader.Reader.AcceptedIff`, `ElfReader.Reader.WrappingIsAccepted`) or that is not at the file's `e_phoff`
  (`ElfReader.Reader.PhdrIsTheFilesIff`).
- The extents of a full FAT volume stay inside it only if the cluster size is a whole number of sectors
  (`FatVolume.Volume.ExtentsInsideIff`, `FatVolume.Volume.FullVolumeInsideIff`).
- In an attribute area filled to the last byte the end mark is looked for in the last value that is not empty
  (`XattrTool.FullAreaMarkedIff`).

## Model

| member | source | states |
|---|---|---|
| InodeNumbers.RenumberingKeepsSlot | android/extras/ext4_utils/ext4fixup.c:76-84 | the new number under the new inodes-per-group names the inode-table slot the old one named under the old |
| InodeNumbers.RenumberingIsInjective | android/extras/ext4_utils/ext4fixup.c:76-84 | two inodes get the same new number iff they are the same inode |
| InodeNumbers.RenumberingAgainIsIdentity | android/extras/ext4_utils/ext4fixup.c:76-84 | once inodes-per-group is aligned, converting a number again does not change it |
| InodeNumbers.SlotDeterminesNumber | android/extras/ext4_utils/ext4fixup.c:257-279 | an inode-table slot belongs to one inode number |
| InodeNumbers.MarkIsTopBit | android/extras/ext4_utils/ext4fixup.c:749-756 | the mark is the top bit of the number, and setting or clearing it leaves the other 31 bits |
| InodeNumbers.EnlargedTableFitsOldBlocks | android/extras/ext4_utils/ext4fixup.c:257-279 | every slot of the enlarged table lies in the blocks the old table already had, so no table moves |
| FixupModel.LiveCount | android/extras/ext4_utils/ext4fixup.c:693-696 | the entries before the first one with inode 0, which ends the directory |
| FixupModel.SanityReadsOnly | android/extras/ext4_utils/ext4fixup.c:860-869 | the sanity pass over a directory tree writes nothing, wherever it stops |
| FixupTree.EntryForms | android/extras/ext4_utils/ext4fixup.c:749-756 | an entry's old and new form in a pass differ and are both live; processing turns the old into the new and leaves the new alone, so no entry is converted twice |
| FixupTree.LiveUnchanged | android/extras/ext4_utils/ext4fixup.c:693-696 | a half-converted directory still ends where the original one did |
| FixupTree.WriteAllMixes | android/extras/ext4_utils/ext4fixup.c:767-773 | whichever block write is the last, every entry on the disk is the old one or the new one; after all writes it is the new one |
| FixupTree.KilledAfter | android/extras/ext4_utils/ext4fixup.c:767-773 | for every k there is a kill that leaves the first k blocks written and no other |
| FixupTree.ConvertingKeeps | android/extras/ext4_utils/ext4fixup.c:749-773 | writing part of a directory whose subdirectories are all done keeps the invariant, and nothing already converted is undone |
| FixupTree.WriteBackKeeps | android/extras/ext4_utils/ext4fixup.c:767-773 | the same for the write-back of recurse_dir, which if it finishes leaves the directory done |
| FixupTree.DescendsWhereNeeded | android/extras/ext4_utils/ext4fixup.c:701-714 | the walk descends only into subdirectories, and one it skips is already done with everything below it |
| FixupTree.RecurseDirKeeps | android/extras/ext4_utils/ext4fixup.c:620-778 | killed anywhere, a pass keeps the invariant that a converted entry of a directory has only converted entries below it; with enough writes and stack the subtree is done |
| FixupTree.VisitKeeps | android/extras/ext4_utils/ext4fixup.c:676-764 | the same for the rest of a directory from any entry on |
| FixupRuns.SanityVerdict | android/extras/ext4_utils/ext4fixup.c:701-721 | the sanity pass succeeds on a subtree only if every entry typed as a directory names one, and then fails for lack of stack alone |
| FixupRuns.SanityOnRoot | android/extras/ext4_utils/ext4fixup.c:860-869 | the sanity pass over the root accepts exactly the trees whose types are right, and changes nothing |
| FixupRuns.TreePassKeeps | android/extras/ext4_utils/ext4fixup.c:871-883 | a whole mark or renumber pass keeps the invariant wherever it is killed; a finished pass has converted every directory |
| FixupRuns.DoneEverywhere | android/extras/ext4_utils/ext4fixup.c:701-736 | if the root is done, every directory is |
| FixupRuns.RenumberingStarts | android/extras/ext4_utils/ext4fixup.c:871-883 | a finished mark pass leaves the state the renumber pass needs |
| FixupSupers.RaisingIsExact | android/extras/ext4_utils/ext4fixup.c:380-407 | on the first time through, the 32- and 16-bit sums are the true new totals and free counts |
| FixupSupers.RaisingAgainAddsNothing | android/extras/ext4_utils/ext4fixup.c:380-407 | recomputing from a superblock already raised adds nothing and passes the consistency check |
| FixupSupers.ConsistentIff | android/extras/ext4_utils/ext4fixup.c:385-400 | the sanity checks pass iff the inodes counted are those of all groups, to 32 bits |
| FixupSupers.CheckBitmapsKeeps | android/extras/ext4_utils/ext4fixup.c:338-367 | killed anywhere, each bitmap is the old one or has just the new inodes' bits cleared; after a complete pass a bit is set iff it was set and is not one of the new inodes', of every bit in every group |
| FixupSupers.WriteGroupsKeeps | android/extras/ext4_utils/ext4fixup.c:409-446 | killed between any two groups, copies already written are final where they reach their place, the rest are untouched, and of the directory blocks only those a copy lands on are gone |
| FixupSupers.UpdateSupersKeeps | android/extras/ext4_utils/ext4fixup.c:370-449 | started on old superblocks, or on any the pass itself left half written, it stays in such a state when killed and leaves every count of the primary copy raised exactly once when not, whatever blocks the copies land on |
| FixupSupers.BackupsReachTheirPlace | android/extras/ext4_utils/ext4fixup.c:409-446 | descriptors always land at their place; a backup superblock does iff blocks are above 1 KiB |
| FixupSupers.HitIff | android/extras/ext4_utils/ext4fixup.c:409-446 | a superblock copy lands where it should not on block b iff blocks are 1 KiB and b is g times blocks-per-group for a backup group g |
| FixupSupers.WriteGroupKeeps | android/extras/ext4_utils/ext4fixup.c:409-446 | one group: its descriptors are final, its superblock is if it reaches its place, and otherwise the block it lands on is no directory block any more |
| FixupConvergence.FirstRunKeeps | android/extras/ext4_utils/ext4fixup.c:785-897 | a run on a sane image leaves it untouched, in a resumable state, or finished |
| FixupConvergence.RunKeeps | android/extras/ext4_utils/ext4fixup.c:785-897 | so does a run on any resumable image, and it finishes if given enough writes and stack |
| FixupConvergence.FinalIsOk | android/extras/ext4_utils/ext4fixup.c:785-897 | if no directory is hit, a finished image is again one the tool may be started on |
| FixupConvergence.FinalAgain | android/extras/ext4_utils/ext4fixup.c:785-897 | if no directory is hit, running the tool to completion on a finished image changes nothing at all |
| FixupConvergence.RunFromReached | android/extras/ext4_utils/ext4fixup.c:785-897 | if no directory is hit, one more run from any image some history leaves: again such an image, finished if the run completes, and it completes if not cut short |
| FixupConvergence.CrashConvergence | android/extras/ext4_utils/ext4fixup.c:785-897 | after any history of runs killed anywhere, on an image whose directories no superblock copy hits, one complete run leaves every entry converted exactly once and every counter raised exactly once |
| FixupConvergence.FirstFinish | android/extras/ext4_utils/ext4fixup.c:785-897 | on any sane image, hit or not, the first run that is not cut short finishes |
| FixupConvergence.FinalIsConvertedIff | android/extras/ext4_utils/ext4fixup.c:785-897 | in a finished image every directory reads as the original with each live entry converted once, every counter is raised once and just the bits of new inodes are cleared in the bitmaps, iff no copy hit a directory |
| FixupConvergence.ConvergesIff | android/extras/ext4_utils/ext4fixup.c:785-897 | complete runs convert the image after every history of kills iff no directory is hit by a superblock copy |
| FixupConvergence.IntactIff | android/extras/ext4_utils/ext4fixup.c:409-446 | no directory is hit iff blocks are above 1 KiB or no directory has block g times blocks-per-group for a backup group g, neither among its own blocks nor among those that map them |
| FixupConvergence.BackupsRenewedIff | android/extras/ext4_utils/ext4fixup.c:409-446 | all backup superblocks of a finished image are the new ones iff blocks are above 1 KiB or they were so before; all descriptor copies are new |
| FixupConvergence.InsaneImageSurvives | android/extras/ext4_utils/ext4fixup.c:843-869 | an image that fails the checks is bit for bit the same after any history of runs |
| FixupConvergence.FinalEntries | android/extras/ext4_utils/ext4fixup.c:76-84 | in a finished image every live entry holds compute_new_inum of its original number and names the slot it named |
| FixupPaths.SteadyIff | android/extras/ext4_utils/ext4fixup.c:76-84 | an unconverted number names the same inode afterwards iff it is of the first group or nothing is to convert |
| FixupPaths.SafePathKeeps | android/extras/ext4_utils/ext4fixup.c:785-897 | a path on which no directory is hit and every record is converted or need not be leads to the same inode |
| FixupPaths.UnsafePathChanges | android/extras/ext4_utils/ext4fixup.c:785-897 | on any other path there is a place from which on it leads elsewhere or nowhere |
| FixupPaths.PathsKeepIff | android/extras/ext4_utils/ext4fixup.c:785-897 | in a finished image every path, looked up past unused records as ext4 does, leads where it led iff every path of the original is safe |
| FixupPaths.PathsKeepTheirMeaningIff | android/extras/ext4_utils/ext4fixup.c:785-897 | the same after any history and one complete run; if a directory is hit, after any history of runs that were all cut short |
| FixupPaths.PathsKeepTheirMeaning | android/extras/ext4_utils/ext4fixup.c:785-897 | after any history and one complete run every path resolves to the inode it resolved to before, if no directory is hit and none has a record in use behind an unused one |
| FixupFailures.DirectoryOverwritten | android/extras/ext4_utils/ext4fixup.c:409-446 | an image with 1 KiB blocks on which one complete run loses a directory and the file in it |
| FixupFailures.HiddenRecordMisled | android/extras/ext4_utils/ext4fixup.c:693-696 | an image on which a file behind an unused record names another inode after one complete run |
| FixupTool.Fixup.ReadBlocks | android/extras/ext4_utils/ext4fixup.c:670-673 | fills the buffer with the directory's blocks in order |
| FixupTool.Fixup.WriteBlocks | android/extras/ext4_utils/ext4fixup.c:767-773 | writes the buffer block by block, stopping at the kill point, as the model does |
| FixupTool.Fixup.WalkEntries | android/extras/ext4_utils/ext4fixup.c:675-764 | the walk that edits the buffer in place and recurses: disk, budget and status are the model's for every kill point |
| FixupTool.Fixup.RecurseDir | android/extras/ext4_utils/ext4fixup.c:620-778 | likewise for recurse_dir |
| FixupTool.Fixup.SetFixupState | android/extras/ext4_utils/ext4fixup.c:153-197 | likewise for the phase word |
| FixupTool.Fixup.CheckInodeBitmaps | android/extras/ext4_utils/ext4fixup.c:338-367 | likewise for the inode bitmaps of all groups; when it finishes, bit b of group i is set iff it was set before and b does not lie between the old and the new inodes-per-group |
| FixupTool.Fixup.WriteSuperGroups | android/extras/ext4_utils/ext4fixup.c:409-446 | likewise for the superblock copies |
| FixupTool.Fixup.UpdateSuperblocks | android/extras/ext4_utils/ext4fixup.c:370-449 | likewise for the superblock pass |
| FixupTool.Fixup.Run | android/extras/ext4_utils/ext4fixup.c:785-897 | likewise for a whole run, so the theorems above hold of it |
| LinkerModel.AfterLastSlash | android/bionic/linker/linker.cpp:740-741 | the base name has no slash and is what follows the last one, or the whole name |
| LinkerModel.FindLibraryInternal | android/bionic/linker/linker.cpp:751-783 | terminates on every file system; success means the library is listed and linked; failure still only adds references elsewhere |
| LinkerModel.FindLibrary | android/bionic/linker/linker.cpp:785-791 | terminates on every dependency graph, cyclic ones included; nothing already listed is lost or changed but for counts |
| LinkerModel.LinkNeeded | android/bionic/linker/linker.cpp:1511-1526 | after the loop every needed library is listed and linked |
| LinkerLeaks.FailsWithoutLossIff | android/bionic/linker/linker.cpp:751-791 | a load fails without losing a reference iff, following the first DT_NEEDED entry of each library, it comes to one that cannot be loaded before any that can |
| LinkerLeaks.SuccessLosesNothing | android/bionic/linker/linker.cpp:785-791 | a load that succeeds loses no reference |
| LinkerSuccess.FindFollowsPlan | android/bionic/linker/linker.cpp:751-791 | with an order to load what is missing, each library after what it needs and no more of them than soinfos, find_library succeeds from any point on the way |
| LinkerSuccess.FindMakes | android/bionic/linker/linker.cpp:751-791 | a load that succeeds has completed every new library after all that it needs, and used one soinfo for each |
| LinkerSuccess.FindSucceedsIff | android/bionic/linker/linker.cpp:751-791 | find_library succeeds iff the library is linked already, or what is not loaded of its closure has files in order, no cycle and soinfos enough |
| LinkerModel.Unload | android/bionic/linker/linker.cpp:793-815 | terminates, keeps the ranking, and never removes a library younger than the one unloaded |
| LinkerModel.CallConstructors | android/bionic/linker/linker.cpp:1192-1230 | terminates; changes nothing but flags and the log |
| LinkerCounts.FindLibraryCounts | android/bionic/linker/linker.cpp:785-791 | a successful find_library adds exactly one reference to what it returns; a failed one leaves behind exactly the references LostByFind lists |
| LinkerCounts.LinkNeededCounts | android/bionic/linker/linker.cpp:1511-1526 | the loop adds one reference for each entry naming a library, or if it fails leaves behind exactly what LostByLoop lists; soinfos are conserved |
| LinkerCounts.LinkCounted | android/bionic/linker/linker.cpp:1562 | completing a link turns the references the loop collected into DT_NEEDED edges |
| LinkerCounts.UsesWithout | android/bionic/linker/linker.cpp:793-815 | taking a library off the list takes away exactly its DT_NEEDED edges |
| LinkerGraph.FindLibraryRanks | android/bionic/linker/linker.cpp:751-791 | a load keeps every linked library above all it needs, and adds only linked libraries that something refers to |
| LinkerLog.ConstructorsKeep | android/bionic/linker/linker.cpp:1192-1230 | initialises a library once, after all it needs, and never meets a library that is not listed |
| LinkerLog.AllConstructorsKeep | android/bionic/linker/linker.cpp:1215-1223 | the same for all libraries a library needs |
| LinkerUnload.KeptIsReferenced | android/bionic/linker/linker.cpp:793-794 | a library that something staying still needs has at least two references when one is dropped |
| LinkerUnload.CascadeStarts | android/bionic/linker/linker.cpp:793-808 | dropping a last reference owes one reference to each library it needed, and nothing else needs it any more |
| LinkerUnload.TerminatorInOrder | android/bionic/linker/linker.cpp:1232-1240 | a terminator runs while everything that needed the library has already been terminated |
| LinkerUnload.UnloadKeeps | android/bionic/linker/linker.cpp:793-815 | the cascade from a running library gives back exactly what was owed, keeps counts, ranks, log and pool sound, and follows no null pointer while libdl is held |
| LinkerProcess.LoadBalances | android/bionic/linker/linker.cpp:785-791 | a load adds one reference owed to the caller, or leaves behind exactly what LostByFind lists |
| LinkerProcess.OpenKeeps | android/bionic/linker/linker.cpp:823-835 | dlopen keeps the process invariant, failed or not |
| LinkerProcess.OpenSucceedsIff | android/bionic/linker/linker.cpp:751-835 | dlopen of a name gives one handle more on its library iff that is loaded already or a plan of loading includes it, dlopen(NULL) always one on the program, and no other handle changes |
| LinkerProcess.CloseKeeps | android/bionic/linker/linker.cpp:837-842 | dlclose keeps it too, and loses no soinfo |
| LinkerProcess.RunKeeps | android/bionic/linker/linker.cpp:823-842 | so does every history of the two |
| LinkerProcess.HistoryLosesIff | android/bionic/linker/linker.cpp:785-835 | a history loses no reference iff every load in it that fails does so before any library it needs has been found |
| LinkerStartup.NeededCommutes | android/bionic/linker/linker.cpp:1511-1526 | a loop over needed libraries takes no notice of the reference count of a library that is being linked |
| LinkerStartup.ProgramCountedFirst | android/bionic/linker/linker.cpp:1720-1733 | counting the program before it is linked, as the source does, comes to the same as counting it afterwards |
| LinkerStartup.StartsIfLinked | android/bionic/linker/linker.cpp:1657-1750 | a program whose libraries can be loaded starts |
| LinkerStartup.StartsIff | android/bionic/linker/linker.cpp:1657-1750 | a program is started iff its name is not the built-in one and is short enough, there is a soinfo for it and what it needs can be loaded |
| LinkerStartup.StartupOk | android/bionic/linker/linker.cpp:1657-1750 | start-up leaves every library counted, linked, ranked and initialised |
| LinkerTheorems.CountsAreExact | android/bionic/linker/linker.cpp:785-815 | after any history ref_count is the program's own reference plus open handles plus DT_NEEDED edges plus what failed loads lost; soinfos are conserved |
| LinkerTheorems.NothingLostIff | android/bionic/linker/linker.cpp:785-815 | after a history every ref_count is exact with nothing lost iff every load that failed did so before any library it needed had been found |
| LinkerTheorems.LoadedIffReachable | android/bionic/linker/linker.cpp:793-815 | after any history loaded libraries are exactly those reachable from the program, the open handles and the lost references; so a library in use is never unloaded |
| LinkerTheorems.OnlyTheReachableIff | android/bionic/linker/linker.cpp:793-815 | only libraries in use are loaded iff every library with a lost reference is in use |
| LinkerTheorems.LostIsNeverUnloaded | android/bionic/linker/linker.cpp:793-815 | a library with a lost reference stays loaded whatever follows |
| LinkerTheorems.NoCycles | android/bionic/linker/linker.cpp:757-763 | libraries that need each other in a circle are never loaded |
| LinkerLog.RunningIsClosed | android/bionic/linker/linker.cpp:1192-1230 | in a proper log everything a running library needs is running |
| LinkerTheorems.InitialisersInOrder | android/bionic/linker/linker.cpp:1192-1240 | over any history each initialiser runs at most once per load and after those of all its dependencies, a terminator only on a running library and after those of all that need it, and everything in use is initialised |
| LinkerTheorems.UnreferencedLibdlFaults | android/bionic/linker/linker.cpp:793-803 | with an unreferenced libdl, opening and closing it follows a null pointer |
| LinkerTheorems.NeverFaultsIffLibdlIsHeld | android/bionic/linker/linker.cpp:793-815 | no history follows a null pointer iff libdl has a reference after start-up |
| LinkerFailures.FailedLoadLeavesALibrary | android/bionic/linker/linker.cpp:776-791 | a process in which a failed dlopen leaves a library loaded for good that was never initialised and that nothing in use leads to |
| LinkerFailures.LibdlFaults | android/bionic/linker/linker.cpp:793-803 | a program that needs nothing crashes the linker when it opens and closes libdl |
| LinkerHeap.Pool.EnsureNonEmpty | android/bionic/linker/linker.cpp:261-287 | succeeds iff a soinfo can still be had, and never changes how many can |
| LinkerHeap.Pool.Push | android/bionic/linker/linker.cpp:350-351 | puts an element at the head of the free list |
| LinkerHeap.Pool.Take | android/bionic/linker/linker.cpp:308-310 | takes the head element off the free list |
| LinkerHeap.SoList.Append | android/bionic/linker/linker.cpp:312-316 | puts an element at the end of solist |
| LinkerHeap.SoList.Find | android/bionic/linker/linker.cpp:743-748 | the first element of that name, or null iff there is none |
| LinkerHeap.SoList.Before | android/bionic/linker/linker.cpp:332-346 | the predecessor, which is never null |
| LinkerHeap.SoList.Remove | android/bionic/linker/linker.cpp:332-349 | unlinks one element and keeps the order of the others, moving sonext if it was the last |
| LinkerHeap.ChainedDiffer | android/bionic/linker/linker.cpp:743-748 | a list that ends in null has no element twice |
| LinkerTool.Linker.FindLoaded | android/bionic/linker/linker.cpp:732-749 | finds the object of a library iff it is listed |
| LinkerTool.Linker.SoInfoAlloc | android/bionic/linker/linker.cpp:297-320 | fails iff the name is too long or the pool is used up, and then changes nothing; otherwise one listed, unlinked soinfo more |
| LinkerTool.Linker.SoInfoFree | android/bionic/linker/linker.cpp:322-352 | one listed soinfo fewer and one free one more, nothing else |
| LinkerTool.Linker.LoadLibrary | android/bionic/linker/linker.cpp:702-730 | a new soinfo exactly when the file is there, its name fits and the pool can supply one |
| LinkerTool.Linker.FindLibraryInternal | android/bionic/linker/linker.cpp:751-783 | on the heap: the state and verdict of the model, and the object returned is the library's |
| LinkerTool.Linker.FindLibrary | android/bionic/linker/linker.cpp:785-791 | likewise |
| LinkerTool.Linker.LinkImage | android/bionic/linker/linker.cpp:1511-1526 | likewise, up to the end of the DT_NEEDED loop |
| LinkerTool.Linker.LinkLoaded | android/bionic/linker/linker.cpp:776-780 | likewise for the end of find_library_internal: linked, or freed |
| LinkerTool.Linker.SoInfoUnload | android/bionic/linker/linker.cpp:793-815 | on the heap: faults exactly when the model does, otherwise reaches its state |
| LinkerTool.Linker.UnloadNeeded | android/bionic/linker/linker.cpp:798-804 | likewise for the loop over the libraries it needed |
| LinkerTool.Linker.CallConstructors | android/bionic/linker/linker.cpp:1192-1230 | likewise for initialisers |
| LinkerTool.Linker.ConstructNeeded | android/bionic/linker/linker.cpp:1215-1223 | likewise for the loop over the libraries needed |
| LinkerTool.Linker.LinkProgram | android/bionic/linker/linker.cpp:1657-1733 | on the heap: the program listed, counted and linked as in the model, or start-up ends |
| LinkerTool.Linker.StartUp | android/bionic/linker/linker.cpp:1657-1750 | from the heap linker's own first state start-up reaches the model's, so that the theorems on histories begin there |
| LinkerTool.Linker.DoDlOpen | android/bionic/linker/linker.cpp:823-835 | likewise, so that the theorems on histories hold of it; it returns the program for a null name, and otherwise the library of that name iff it is linked already or a plan of loading includes it, and null if not |
| LinkerTool.Linker.DoDlClose | android/bionic/linker/linker.cpp:837-842 | likewise |
| Bitmap.SetBit | android/extras/ext4_utils/allocate.c:190-197 | sets one bit and tells whether it had been set |
| Bitmap.Set8Bits | android/extras/ext4_utils/allocate.c:199-204 | sets eight bits and tells whether any had been set |
| Bitmap.SetRange | android/extras/ext4_utils/allocate.c:208-242 | the three phases tell whether all bits asked for were clear, and if so have set exactly those |
| Bitmap.ClearRange | android/extras/ext4_utils/allocate.c:244-252 | clears exactly the bits below the first free block |
| AllocTool.BlockGroup.ReserveBlocks | android/extras/ext4_utils/allocate.c:208-242 | fails without a change if there are too few free blocks, and succeeds iff all were free |
| AllocTool.BlockGroup.FreeBlocks | android/extras/ext4_utils/allocate.c:244-252 | undoes a reservation made from the bottom; clear bits stay exactly the free range |
| AllocTool.BlockGroup.constructor | android/extras/ext4_utils/allocate.c:283-318 | a new group whose clear bits are exactly its free range, behind the header and inside the image as far as init_bg sees to it |
| AllocTool.BlockGroup.Allocate | android/extras/ext4_utils/allocate.c:343-358 | hands out the lowest free blocks iff there are enough, the reservation never meeting a reserved block |
| AllocTool.Allocator.TakeFrom | android/extras/ext4_utils/allocate.c:343-358 | the same for one of many groups, leaving all others alone |
| AllocTool.Allocator.AllocateContiguous | android/extras/ext4_utils/allocate.c:360-380 | first fit: one region from the first group with room, or none |
| AllocTool.Allocator.AllocatePartial | android/extras/ext4_utils/allocate.c:396-432 | one round of the multi-group loop |
| AllocTool.Allocator.AllocateMultiple | android/extras/ext4_utils/allocate.c:434-458 | the loop itself, where it ends |
| AllocTool.Allocator.DoAllocate | android/extras/ext4_utils/allocate.c:460-468 | one region if possible, several otherwise |
| AllocModel.FirstFit | android/extras/ext4_utils/allocate.c:360-380 | the first group with enough free blocks |
| AllocModel.FirstUntouched | android/extras/ext4_utils/allocate.c:396-432 | the first group nothing was taken from |
| AllocProofs.TakeKeeps | android/extras/ext4_utils/allocate.c:343-358 | taking blocks from a group gives each one owner and touches no other block |
| AllocProofs.GiveBackKeeps | android/extras/ext4_utils/allocate.c:244-252 | giving back the last block of a region at the end of the taken range keeps one owner for each block |
| AllocProofs.MultipleKeeps | android/extras/ext4_utils/allocate.c:434-458 | the multi-group loop keeps it, sums to exactly the length asked for, and its first region is the last thing taken from its group |
| AllocProofs.AllocateKeeps | android/extras/ext4_utils/allocate.c:460-491 | so does every allocation |
| AllocProofs.AllocateEnds | android/extras/ext4_utils/allocate.c:460-491 | every region of a granted request of at least one block is not empty, ends where its group's free blocks begin, and is alone in its group |
| AllocProofs.AllocateConserves | android/extras/ext4_utils/allocate.c:460-491 | free blocks drop by exactly what is handed out, also when the request fails half way |
| AllocProofs.AllocateSpinsIff | android/extras/ext4_utils/allocate.c:396-468 | an allocation never ends iff no group can serve it alone and the untouched groups before the first empty one do not suffice |
| AllocProofs.AllocateGrantedIff | android/extras/ext4_utils/allocate.c:396-491 | a request is met iff it fits one group, or the untouched groups before the first of them that has nothing free |
| AllocProofs.NeverSpins | android/extras/ext4_utils/allocate.c:396-458 | it always ends if every untouched group has a free block |
| AllocProofs.SpinningRepeats | android/extras/ext4_utils/allocate.c:396-458 | on an untouched group with nothing free a round leaves everything as it was |
| AllocRuns.RunKeepsLedger | android/extras/ext4_utils/allocate.c:320-491 | in every state a sequence of allocations reaches, every block handed out has exactly one owner and no other block has any |
| AllocRuns.FileReadsBack | android/extras/ext4_utils/extent.c:75-176 | a file made at any point of a run decodes to as many blocks as its bytes need, all different, all in data areas of the image, in the order of its regions; its extents have at most 32768 blocks and consecutive file blocks from 0 on |
| AllocRuns.LeafBlockIsNotZero | android/extras/ext4_utils/extent.c:95-162 | the leaf block of an indirect map is never block 0, so the source's test of it tells the two forms of the map apart, which is by more than three regions; the inline table has three slots and the leaf what fits behind its header |
| AllocFailures.HeaderFillsLastGroup | android/extras/ext4_utils/allocate.c:283-330 | a last group whose header fills it exactly is laid out untouched with nothing free |
| AllocFailures.TooLargeSpins | android/extras/ext4_utils/allocate.c:396-468 | with such a group a request for more than the groups have does not end |
| AllocFailures.TightImageSpins | android/extras/ext4_utils/allocate.c:396-468 | on the image make_ext4fs lays out for 33046 blocks with default options every request above 32490 blocks does not end |
| AllocFailures.CrampedFileIsLost | android/extras/ext4_utils/extent.c:75-176 | on the image laid out for 87 blocks in groups of 29 a file of 27 blocks is granted its space and then holds none of it |
| Ext4Geometry.IsPowerOf | android/extras/ext4_utils/ext4_utils.c:54-63 | whether a number is a power of the base with exponent at least one |
| Ext4Geometry.HasSuperBlock | android/extras/ext4_utils/ext4_utils.c:69-82 | groups 0 and 1 and powers of 3, 5 and 7, or all without sparse superblocks |
| Ext4Geometry.AuxInfoSoundIff | android/extras/ext4_utils/ext4_utils.c:91-130 | the groups cover the image with room for the last header iff the group dropped for being too short, if any, is not the only one and, with 1 KiB blocks, the leftover is neither one block nor exactly a header |
| AllocFailures.CompleteGroupDropped | android/extras/ext4_utils/ext4_utils.c:91-130 | on 16385 blocks of 1 KiB, otherwise with default options, the second of two whole groups is dropped and the image still reaches into it |
| AllocFailures.ShortGroupKept | android/extras/ext4_utils/ext4_utils.c:91-130 | on 8526 blocks of 1 KiB a second group of 333 blocks is kept although its header has 334 |
| Ext4Geometry.FullGroup | android/extras/ext4_utils/allocate.c:283-318 | on a group inside the image the wrapped overrun reserves nothing |
| Ext4Geometry.ShortGroupIff | android/extras/ext4_utils/allocate.c:283-318 | on a last group that ends early no block past the image stays free iff its header fits |
| Ext4Geometry.DataArea | android/extras/ext4_utils/allocate.c:283-318 | in a sound layout free blocks are behind their group's header, inside the group and inside the image |
| Ext4Geometry.DescBlocksHold | android/extras/ext4_utils/ext4_utils.c:103-105 | the descriptor blocks hold one descriptor for each group, and one block fewer would not |
| Ext4Geometry.HeaderIsFilled | android/extras/ext4_utils/allocate.c:285-302 | superblock, descriptors and their reserve, bitmaps and inode table lie one behind the other, and the header ends where they do |
| Ext4Geometry.RegionInside | android/extras/ext4_utils/allocate.c:157-168 | every outstanding region lies in its group's data area inside the image |
| Ext4Geometry.RegionsDisjoint | android/extras/ext4_utils/allocate.c:157-168 | no two outstanding regions share a block |
| Extents.ReserveOobSplits | android/extras/ext4_utils/allocate.c:575-640 | splitting off blocks gives two lists that make up the old one; which is which depends on whether the split falls inside a region |
| Extents.ReserveOobOkIff | android/extras/ext4_utils/allocate.c:575-640 | it gives up, changing nothing, iff the list has no more blocks than are asked for |
| ExtentProofs.DecodedExtents | android/extras/ext4_utils/ext4fixup.c:512-536 | consecutive extents decode to the regions' blocks in order, from their first file block on |
| ExtentProofs.MapNumbered | android/extras/ext4_utils/extent.c:150-160 | in a map whose head holds each extent begins in the file where the one before ends, the first at 0, and none is longer than a region was |
| Extents.FileMadeIff | android/extras/ext4_utils/extent.c:91-130 | a map is made iff there are at most three regions or they fit the leaf behind its header; the size error is reported only from as many regions as a block has bytes |
| Extents.TablesFit | android/extras/ext4_utils/extent.c:91-139 | three extents and their header fit i_block, and the leaf holds as many as fit behind its header and no more |
| Extents.LengthsFit | android/extras/ext4_utils/extent.c:143-154 | extent i is as long as region i, to 16 bits, and starts where it starts |
| ExtentProofs.RoundTripIff | android/extras/ext4_utils/extent.c:75-176 | decoding the map of a file, inline or through the leaf block, gives all its blocks in order iff the first region is longer than one block |
| ExtentProofs.HeadHoldsIff | android/extras/ext4_utils/allocate.c:396-491 | that holds iff one group can serve the request or the first untouched group has more than one free block |
| ExtentProofs.PlaceKeeps | android/extras/ext4_utils/extent.c:75-176 | making the map gives back one block or sets one aside; every block still has exactly one owner |
| ExtentProofs.RegionsShort | android/extras/ext4_utils/allocate.c:434-458 | no region of the multi-group loop is longer than the largest free count of a group |
| ExtentTool.BlockAllocatorInit | android/extras/ext4_utils/allocate.c:320-330 | all groups laid out, each with its own bitmap |
| ExtentTool.ReduceAllocation | android/extras/ext4_utils/allocate.c:257-281 | takes blocks off the end of the list as its last pointer has it, and gives them back to their group |
| ExtentTool.FindSplit | android/extras/ext4_utils/allocate.c:575-607 | where the split falls |
| ExtentTool.ReserveOobBlocks | android/extras/ext4_utils/allocate.c:624-640 | the lists and verdict of the model |
| ExtentTool.FillExtents | android/extras/ext4_utils/extent.c:150-160 | one record per region with consecutive file blocks, the rest of the table zero |
| ExtentTool.InodeAllocateExtents | android/extras/ext4_utils/extent.c:75-176 | the whole operation: the map, the groups and the ledger are the model's, or the error it reports |
| ExtentTool.GetExtentEnts | android/extras/ext4_utils/ext4fixup.c:512-536 | decodes a table into the block list, as the model does |
| Sha1Spec.PadLength | android/extras/ext4_utils/sha1.c:247-271 | section 4 of FIPS PUB 180-1: the least number of zeros that completes a block |
| Sha1Spec.ConstantsAreRoots | android/extras/ext4_utils/sha1.c:53-57 | the four constants are the square roots of 2, 3, 5 and 10 times 2^30, rounded down |
| Sha1Spec.WordBytesJoin | android/extras/ext4_utils/sha1.c:266-269 | the four bytes written of a word make up the word again, most significant first |
| Sha1Example.Rounds80 | android/extras/ext4_utils/sha1.c:9-10 | the five variables after 80 rounds on the block of "abc", followed word by word and round by round through appendix A of FIPS PUB 180-1 |
| Sha1Example.DigestOfAbc | android/extras/ext4_utils/sha1.c:9-10 | the digest of "abc" is A9993E36 4706816A BA3E2571 7850C26C 9CD0D89D |
| Sha1Spec.CompressAllAdd | android/extras/ext4_utils/sha1.c:217-241 | compressing whole blocks in two goes is compressing them in one |
| Sha1Transform.Choose | android/extras/ext4_utils/sha1.c:51-57 | (w&(x^y))^y is the Ch of section 5 |
| Sha1Transform.Majority | android/extras/ext4_utils/sha1.c:51-57 | ((w or x)&y) or (w&x) is the Maj of section 5 |
| Sha1Transform.SwapBytes | android/extras/ext4_utils/sha1.c:41-46 | blk0 turns a little-endian load into the big-endian word of the standard |
| Sha1Transform.Blk0Word | android/extras/ext4_utils/sha1.c:41-46 | the first sixteen words of the schedule, in place |
| Sha1Transform.BlkWord | android/extras/ext4_utils/sha1.c:47-48 | slot i mod 16, overwritten in place, holds word i of the 80-word schedule |
| Sha1Transform.NextWord | android/extras/ext4_utils/sha1.c:41-57 | the word of round i, the workspace always holding the last sixteen |
| Sha1Transform.R | android/extras/ext4_utils/sha1.c:51-57 | one macro round on renamed variables is one round of the rotating five-tuple |
| Sha1Transform.EightyRounds | android/extras/ext4_utils/sha1.c:126-192 | all rounds together |
| Sha1Transform.SHA1Transform | android/extras/ext4_utils/sha1.c:126-192 | section 8 refines section 7: the chaining value is the standard's |
| Sha1Stream.CountStaysRightIff | android/extras/ext4_utils/sha1.c:227-229 | the 64-bit length stays right iff the piece is shorter than 2^29 bytes or the low word carries |
| Sha1Stream.CountAdvances | android/extras/ext4_utils/sha1.c:227-229 | after a piece of any length the two words hold the true length less all that was not carried |
| Sha1Stream.BitsRightIff | android/extras/ext4_utils/sha1.c:227-229 | the length hashed is right to 64 bits iff what was lost is a multiple of 2^32 |
| Sha1Stream.LongPieceLost | android/extras/ext4_utils/sha1.c:227-229 | a first piece of 2^29 bytes makes the length hashed wrong, whatever short pieces follow |
| Sha1Stream.Context.constructor | android/extras/ext4_utils/sha1.c:198-211 | a context that has seen nothing |
| Sha1Stream.Context.Blocks | android/extras/ext4_utils/sha1.c:234-235 | compresses the whole blocks and leaves less than one |
| Sha1Stream.Context.Update | android/extras/ext4_utils/sha1.c:217-241 | whatever was fed before, state and buffer are those of the concatenation |
| Sha1Stream.Context.FinishBlock | android/extras/ext4_utils/sha1.c:230-233 | completes the block begun in the buffer |
| Sha1Stream.Context.PadZeros | android/extras/ext4_utils/sha1.c:262-263 | pads one byte at a time to eight short of a block |
| Sha1Stream.Context.Final | android/extras/ext4_utils/sha1.c:247-271 | the digest of everything seen, padded as section 4 says, with the length as it was counted |
| Sha1Stream.HashInPieces | android/extras/ext4_utils/sha1.c:198-271 | for every message and every way of cutting it up that does not overrun the buffer, the digest of the whole message with the length as counted, which is the standard's digest if what the pieces lost is a multiple of 2^32 |
| Sha1Stream.ShortPieces | android/extras/ext4_utils/sha1.c:217-241 | pieces below 2^29 bytes never overrun the buffer and lose nothing |
| Sha1Stream.RightLength | android/extras/ext4_utils/sha1.c:247-271 | with the true length, to 64 bits, that is the digest of FIPS PUB 180-1 |
| ElfReader.LoadSize | android/bionic/linker/linker_phdr.cpp:239-278 | the page-aligned extent of the loadable segments, its bounds reached; 0 if there are none |
| ElfReader.SpansPages | android/bionic/linker/linker_phdr.cpp:239-278 | every page of a loadable segment lies in that extent |
| ElfReader.Reader.ReserveAddressSpace | android/bionic/linker/linker_phdr.cpp:283-302 | succeeds iff there is something to load and the kernel grants it, of the size that the segments span, and then the bias takes every segment into the reserved range |
| ElfReader.Reader.Translated | android/bionic/linker/linker_phdr.cpp:298-301 | biased addresses, wrapping included, lie in the range and keep their pages |
| ElfReader.Reader.LoadSegment | android/bionic/linker/linker_phdr.cpp:308-371 | one segment: file bytes, then zeros, on its own pages, within the reserved range |
| ElfReader.Reader.LoadSegments | android/bionic/linker/linker_phdr.cpp:308-371 | all segments in order, at every byte of the range |
| ElfSegments.OthersKeep | android/bionic/linker/linker_phdr.cpp:308-371 | segments on other pages leave a byte alone |
| ElfSegments.SegmentsImagedIff | android/bionic/linker/linker_phdr.cpp:308-371 | a segment comes out as the ABI asks, file bytes and then zeros, iff it is writable or its last file page is clean |
| ElfReader.Reader.LoadedIff | android/bionic/linker/linker_phdr.cpp:308-371 | after LoadSegments byte k of a segment at its biased address is the file's below filesz and 0 up to memsz, for every k, iff the segment is writable or its tail is clean |
| ElfReader.Reader.CheckPhdr | android/bionic/linker/linker_phdr.cpp:644-660 | accepts an address iff some loadable segment's file part seems to hold the table |
| ElfReader.Reader.AcceptedIff | android/bionic/linker/linker_phdr.cpp:644-660 | what is accepted does hold it iff its end does not wrap around |
| ElfReader.Reader.WrappingIsAccepted | android/bionic/linker/linker_phdr.cpp:644-660 | every address behind the start of a segment from which the table's end wraps around to below that start is accepted, though no segment holds the table |
| ElfReader.Reader.FindPhdr | android/bionic/linker/linker_phdr.cpp:612-639 | succeeds iff there is an address to reckon with, of a PT_PHDR entry or else of a first loadable segment that starts the file, and that address is accepted; it is then what is found, and otherwise nothing changes |
| ElfReader.FirstOf | android/bionic/linker/linker_phdr.cpp:613-635 | the first entry of a kind, and none before it has that kind |
| ElfReader.Reader.PhdrFromFile | android/bionic/linker/linker_phdr.cpp:612-660 | what is found in memory is a stretch of the file, from the offset that goes with its address in the segment |
| ElfReader.Reader.PhdrIsTheFilesIff | android/bionic/linker/linker_phdr.cpp:612-660 | that offset is e_phoff, and so the table is the file's own, iff the segment puts it to the address FindPhdr reckons with |
| ElfReader.Reader.FirstSegmentHasIt | android/bionic/linker/linker_phdr.cpp:622-635 | without a PT_PHDR entry a table inside a first segment that starts the file is accepted and is the file's own |
| DirBlocks.DentrySize | android/extras/ext4_utils/contents.c:43-57 | predicts the length of the records, padding included |
| DirBlocks.CrossesIff | android/extras/ext4_utils/contents.c:67-75 | the test for crossing a block is the same by block numbers and by what is left of the block |
| DirBlocks.BoundaryStartsRecord | android/extras/ext4_utils/contents.c:59-87 | every block boundary is where a record begins, so records tile each block exactly |
| DirRecords.ReadsBack | android/extras/ext4_utils/ext4fixup.c:676-764 | the fields of a record written are what a reader finds |
| DirTool.Builder.PadToBlock | android/extras/ext4_utils/contents.c:67-76 | stretches the record before up to the block boundary iff the next would cross it |
| DirTool.Builder.AddDentry | android/extras/ext4_utils/contents.c:59-87 | one record more, within one block, the earlier ones undisturbed; the offset moves as dentry_size predicted |
| DirRoundTrip.MakeDirectory | android/extras/ext4_utils/contents.c:95-171 | records for dot, dot-dot and all names, each with its own file type, tile whole blocks; the size error is never reported, and the pointers kept are those of the entries |
| DirRoundTrip.InodeFilled | android/extras/ext4_utils/contents.c:142-168 | filling in an inode number through a kept pointer changes that record alone |
| DirRoundTrip.WalkEntries | android/extras/ext4_utils/ext4fixup.c:675-764 | the walk visits the records' inode numbers, types and names in order and stops at the end; in the first and last pass at most eight bytes left over are given to the last record, after which the records tile whole blocks again, and otherwise nothing is changed |
| DirRoundTrip.Repaired | android/extras/ext4_utils/ext4fixup.c:678-691 | giving what is left over to the last record makes a directory of records that tile whole blocks |
| DirRoundTrip.LiveIsAll | android/extras/ext4_utils/ext4fixup.c:693-696 | the walk sees all records iff none has inode 0 |
| DirRoundTrip.RoundTrip | android/extras/ext4_utils/contents.c:95-171 | for any list of names, types and inode numbers the walk of any pass gives dot and dot-dot, typed as directories, and then each name with its type and its inode number, in order |
| Xattrs.GapIsCapacityLessNeeds | android/extras/ext4_utils/contents.c:258-271 | free space is the capacity less the rounded sizes of entries and values |
| Xattrs.EntryFields | android/extras/ext4_utils/contents.c:359-396 | every attribute added so far reads back with its name and value through its entry |
| Xattrs.Rounded | android/extras/ext4_utils/xattr.h:33-44 | entries and values take the least multiple of four that holds them |
| Xattrs.FilledUp | android/extras/ext4_utils/contents.c:376-388 | what is left of an entry or a value behind its bytes is zero |
| Xattrs.EntryIsNotLast | android/extras/ext4_utils/xattr.h:43 | no entry is mistaken for the end of the list |
| Xattrs.AreaGrows | android/extras/ext4_utils/contents.c:359-396 | adding an attribute where there is room keeps all those before it |
| Xattrs.ValuesApart | android/extras/ext4_utils/contents.c:359-396 | value areas are disjoint and above the entry table |
| XattrTool.FreeSpace | android/extras/ext4_utils/contents.c:258-271 | the gap between entries and values |
| XattrTool.GetLast | android/extras/ext4_utils/contents.c:277-283 | the position behind the last entry |
| XattrTool.FullAreaMarkedIff | android/extras/ext4_utils/xattr.h:43 | in an area filled to the last byte the end of the list is seen iff some value is not empty and the last such value begins with four zero bytes |
| XattrTool.AddToRange | android/extras/ext4_utils/contents.c:359-396 | adds the attribute iff its name is short enough and entry and value fit the gap; otherwise changes nothing |
| XattrTool.AttrAt | android/extras/ext4_utils/xattr.h:22-43 | reading through an entry gives back the attribute that was added |
| XattrTool.AssertSane | android/extras/ext4_utils/contents.c:303-325 | content iff each attribute sorts after the one before it |
| XattrTool.OrderIff | android/extras/ext4_utils/contents.c:311-315 | the comparison made puts the lower name index first, then the shorter name, then the one with the smaller byte where they first differ |
| FatImage.FindExtent | android/extras/fatblock/fs.c:42-100 | the first extent that meets the window, with the exact overlap; its assertions hold |
| FatImage.OverlapIsExact | android/extras/fatblock/fs.c:42-100 | the overlap is exactly the part of the window that is in the extent |
| FatImage.BufferRead | android/extras/fatblock/read.c:28-50 | content, then zeros |
| FatImage.FsRead | android/extras/fatblock/read.c:161-179 | fills the buffer with exactly that slice of the image |
| FatImage.ReadInPieces | android/extras/fatblock/read.c:161-179 | any split of a window reads the same bytes |
| FatImage.OrderIrrelevant | android/extras/fatblock/fs.c:28-40 | where extents do not overlap their order does not matter |
| FatVolume.ChainFollows | android/extras/fatblock/fs.c:109-154 | following the FAT from a file's first cluster visits its clusters in order and then the end mark |
| FatVolume.ChainsApart | android/extras/fatblock/fs.c:109-154 | no two files share a cluster |
| FatVolume.TiledCovers | android/extras/fatblock/fs.c:109-154 | every cluster handed out belongs to a file |
| FatVolume.ShownDisjoint | android/extras/fatblock/fs.c:156-247 | the extents of a volume never overlap |
| FatVolume.SlotShows | android/extras/fatblock/read.c:135-159 | every window shows each extent's own content from its start on, and zeros behind it, wherever the extent is in the list |
| FatVolume.EntryShows | android/extras/fatblock/read.c:148-150 | the four bytes of a FAT entry stand at their place, the lowest first |
| FatVolume.RestIsZero | android/extras/fatblock/read.c:161-179 | what no extent reaches reads as zero |
| FatVolume.Volume.constructor | android/extras/fatblock/fs.c:156-247 | an empty volume, all entries free, as few FAT sectors as hold them, its fixed extents in order |
| FatVolume.Volume.AllocExtent | android/extras/fatblock/fs.c:109-154 | fails iff the volume is full, and then changes nothing; otherwise one chain and one extent more, disjoint from all others |
| FatVolume.Volume.ChainsAreSound | android/extras/fatblock/fs.c:109-247 | in every volume these calls make, following the FAT from a file's first cluster visits its clusters and ends, an extent covers just them, and no other file has any |
| FatVolume.Volume.FreeIff | android/extras/fatblock/fs.c:109-247 | an entry is free iff its cluster is no file's |
| FatVolume.Volume.WriteChain | android/extras/fatblock/fs.c:138-142 | links the clusters and ends the chain, every write in bounds and no other entry touched |
| FatVolume.Volume.Read | android/extras/fatblock/read.c:161-179 | a window of the image the extents make up: byte k of an allocated extent is byte k of its content, or 0 behind that; the boot sector is at 0 and 1024, the information sector at 512, and the four bytes of FAT entry c from byte 1536 + 4 * c on, lowest first, make up fat[c]; all else is zero |
| FatVolume.Volume.ExtentsInsideIff | android/extras/fatblock/fs.c:156-247 | no extent of a volume reaches past the size reported iff the clusters in use take no more than all clusters rounded down to sectors |
| FatVolume.Volume.FullVolumeInsideIff | android/extras/fatblock/fs.c:156-247 | at any time if a cluster is a whole number of sectors, and in a full volume only then |
| FatVolume.ClustersInsideIff | android/extras/fatblock/fs.c:173-177 | clusters fit the sectors counted for them iff there are none or a cluster is a whole number of sectors |
| Crc16.TableIsEight | android/extras/ext4_utils/crc16.c:14-47 | each table entry is eight steps of division |
| Crc16.TableStep | android/extras/ext4_utils/crc16.c:49-58 | one table look-up divides by a whole byte |
| Crc16.Ext4Crc16 | android/extras/ext4_utils/crc16.c:49-58 | equals bit-at-a-time reflected division by 0xA001 for every initial value and buffer |
| Crc16.RemainderAdd | android/extras/ext4_utils/ext4_utils.c:384-387 | the checksum of a concatenation is the chained calls |
| Crc16.DescriptorChecksum | android/extras/ext4_utils/ext4_utils.c:384-387 | three chained calls give the checksum of identifier, group number and descriptor together |
| Lookup3Spec.MixIsReversible | android/extras/ksmutils/lookup3.c:115-123 | mix is a bijection, with its inverse given |
| Lookup3Spec.RotMovesBits | android/extras/ksmutils/lookup3.c:69 | rot moves bit i up by k places, and from the top on to the bottom |
| Lookup3Spec.StartWordIs | android/extras/ksmutils/lookup3.c:289 | the sum the registers start with is taken modulo 2^32 |
| Lookup3Example.FourScore | android/extras/ksmutils/lookup3.c:979-980 | the hash of "Four score and seven years ago" is 17770551 ce7226e6, as the source's own test expects |
| Lookup3Spec.FinalIsReversible | android/extras/ksmutils/lookup3.c:150-159 | so is final |
| Lookup3Spec.StatesStayApart | android/extras/ksmutils/lookup3.c:72-76 | two internal states that hash the same key to the same registers were the same |
| Lookup3Spec.OneBlockApart | android/extras/ksmutils/lookup3.c:283-450 | keys of one length that differ within one block never leave the same registers |
| Lookup3.MaskHidesTheRest | android/extras/ksmutils/lookup3.c:307-334 | the mask leaves just the key's own bytes of a word read past its end |
| Lookup3.ByWords | android/extras/ksmutils/lookup3.c:292-334 | the 4-byte-aligned path hashes the key's bytes, whatever lies behind them |
| Lookup3.ByHalves | android/extras/ksmutils/lookup3.c:358-403 | the 2-byte-aligned path gives the same |
| Lookup3.ByBytes | android/extras/ksmutils/lookup3.c:405-449 | the unaligned path gives the same, in either byte order |
| Lookup3.HashLittle | android/extras/ksmutils/lookup3.c:283-450 | on every machine and at every address the value depends on the key's bytes and the seed alone |
| Lookup3.HashLittle2 | android/extras/ksmutils/lookup3.c:463-635 | the two-seed form; with a zero second seed its first result is hashlittle's |
| Lookup3.HashBig | android/extras/ksmutils/lookup3.c:645-765 | likewise for the big-endian hash |
| Lookup3.WordsHashAsBytes | android/extras/ksmutils/lookup3.c:174-207 | counting words or bytes leaves the same registers, in either byte order |
| Lookup3.HashWord | android/extras/ksmutils/lookup3.c:174-207 | equals hashlittle on the words' little-endian bytes and hashbig on their big-endian bytes |
| Lookup3.HashWord2 | android/extras/ksmutils/lookup3.c:218-253 | the two-seed form; with a zero second seed its first result is hashword's |

## Left out

ext4fixup

- The verbose and no-write modes, the bail-out points for debugging, and read or write errors.
- Crashes inside one of the steps named above, such as between one group's superblock and its descriptors.
- Directory entries are values in a sequence; the patch of a short `rec_len` at the end of a directory
  written by an old `make_ext4fs` is modelled on bytes alone, in `DirRoundTrip`. Directories with indirect
  blocks are not modelled.
- What a misplaced superblock copy does to blocks of files, and what a later run makes of a directory it
  has overwritten.
- The tool counts groups once by rounding up and once as the image builder does; the model takes the two
  to be equal. Old and new inode numbers are below 2^31, and directories form a tree.
- FixupConvergence.CrashConvergence: counters are taken to fit their 16 and 32 bits (`CountersFit`), because the tool does not check this and wraps silently otherwise. Where a copy hits a directory it promises nothing, because the code destroys that directory; ConvergesIff says that this is the only such case.
- FixupPaths.PathsKeepTheirMeaningIff: where a directory is hit, histories with an earlier finished run are left out, because a later run would read a superblock as directory entries.

Dynamic linker

- Mapping, relocation, symbol lookup, `LD_LIBRARY_PATH`, `LD_PRELOAD`, the vdso, `dlopen` flags, memory
  protection of the pool and notification of gdb. Whether a library's checks and its relocation
  succeed is a property of its file.
- Initialisers that call `dlopen` themselves, and closing a handle that is not open.
- A program whose `argv[0]` is `libdl.so`.
- `Fini` stands for all of a library's terminators and `Init` for all of its initialisers.
- LinkerSuccess.FindSucceedsIff: requires that two paths with one last part name one file or none, because otherwise the order of the load decides which file a name stands for.

Block allocator and extents

- `indirect.c`, and `advance_blocks`, `advance_oob_blocks` and `append_oob_allocation`, which do not do
  what their names say. Inode allocation, the sparse file, the journal and the resize inode.
- Region lists are sequences, so the doubly linked list is represented only by its order and by where its
  last pointer stands; the cursor is a position in the sequence.
- Extents are records and not bytes; the inode's size and block-count fields are not modelled.
- AllocRuns.RunKeepsLedger: a file of 2^32 - 1 blocks, whose length wraps around to a request for none, ends the run.
- AllocTool.Allocator.DoAllocate: requires that the loop ends, for the reason given for AllocateMultiple.
- ExtentTool.InodeAllocateExtents: requires that the allocation it makes ends, for the same reason.
- AllocTool.Allocator.AllocateMultiple: requires that the loop ends, because a loop that does not cannot be given a termination measure; AllocateSpinsIff says exactly when that is.
- ExtentTool.GetExtentEnts: requires extents to lie inside the caller's block list, which the source leaves unchecked.
- ExtentProofs.RoundTripIff: block counts are below 2^32.

SHA-1

- The 80 written-out rounds are a loop over their repeating pattern of five, and `count & 504` is written
  as remainder and division. Only the little-endian build is modelled.
- Sha1Stream.Context.Update: requires pieces that do not overflow `j + len`, beyond which the source overruns its buffer.
- Sha1Stream.HashInPieces: requires the same of every piece in turn.

ELF loader

- Reading and verifying the ELF header, `mmap` failures after the range is reserved, and the fault on
  touching a page wholly past the end of the file; such bytes read as zero here.
- ElfReader.Reader.LoadSegments: segments are taken to be congruent and not to wrap around the 32-bit address space, because the source checks neither.
- ElfReader.Reader.LoadSegment: requires the same of its segment.
- ElfReader.LoadSize: requires the same of all segments, because its sums wrap around otherwise.
- ElfReader.Reader.ReserveAddressSpace: requires the same of all segments, for LoadSize.

Directories and extended attributes

- Scanning the host's directories, file types other than as a byte, and names of more than 255 bytes.
- The hash of attribute entries, the area's headers, and allocation of the attribute block.
- XattrTool.GetLast: requires four zero bytes behind the last entry, because the source looks for the end mark there without a bound.
- XattrTool.AddToRange: requires four bytes from the last entry on, because the source looks for the end mark there; whether the attributes are in order is stated by AssertSane, which the source calls at the end.
- XattrTool.AssertSane: requires four zero bytes behind the last entry, as GetLast does; FullAreaMarkedIff says when a full area has them.
- DirRoundTrip.MakeDirectory: block sizes are below 64 KiB, so that `rec_len` holds a whole block.
- DirRoundTrip.RoundTrip: requires names of at least one byte, as every name of a file has.

FAT volume and hashes

- Reading files of the host (`file_read`, which seeks to the length where the offset is meant), boot-sector and
  directory contents, and the pool of open files; the boot sector, the info sector and what an extent holds are
  abstract byte strings.
- FatVolume.Volume.constructor: the count of clusters is taken to stay below the end mark, because the 32-bit sums in the source are not checked.
- FatVolume.Volume.AllocExtent: the count of clusters needed is unbounded here and has 32 bits in the source, which does not check that it fits.
- The lookup3 variants for valgrind, which read byte by byte instead of masking.
- Lookup3.HashLittle: memory is taken to come in whole aligned words, which is what the masked read relies on.
