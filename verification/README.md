# DAGonFS, modelled and verified

DAGonFS is an in-memory file system that cuts files into fixed-size blocks and spreads them
over MPI ranks. It comes in two versions. In the client-server version a master process runs
the FUSE handlers, keeps the block directory and drives the other ranks. In the peer-to-peer
version every rank runs the handlers, keeps its own directory, and repeats what the others do.

The project models four connected parts and proves what they are for. The block size `B` and
the number of ranks `p` stay symbolic throughout.

- **The distributed block store** (`Partition`, `Collectives`, `BlockStore`, `ShortReads`,
  `Cluster`, `Blocks`, `Master`, `Lockstep`, `PeerStore`, `PeerSessions`, `PeerHandlers`, `PathFiles`). Each rank
  has a heap of its own, and an address means something only on the rank that allocated it.
  Scatter and gather follow MPI-3.1, sections 5.5 and 5.6, allgather section 5.7, broadcast section 5.4.
- **The file session** (`FileSession`, `ClientServer`, `Refinement`, `Accounting`,
  `StoreRuns`, `Listing`): a
  buffer that grows over the block store, is loaded or emptied on open and written back on
  flush. Together with the name space it refines a plain tree of names over a plain map from
  inode to bytes.
- **The inode table and name space** (`NameSpace`, `References`, `NameSafety`, `NameRuns`,
  `Reclamation`, `PlainTree`, `Lookups`, `LinkReserve`, `LinkLaw`, `Limits`, `NodeTable`,
  `FileSystem`): two reference counts for each inode, a queue of deleted numbers, and a mode with
  hysteresis in which they are reused. What users see of it is a plain tree of names.
- **The peer-to-peer protocol** (`PeerProtocol`, `PathNames`, `Wire`, `Replication`, `Misread`,
  `MessageRuns`, `ReplicaLimits`, `PeerFileSystem`): headers and bodies over FIFO channels (MPI-3.1, section 3.5),
  path names, and handlers that are replayed everywhere without being sent on.

The state of each part is a value, and what a request does to it is a function; invariants,
runs and refinements are lemmas about these functions. The program itself, objects and arrays
updated in place, is a set of classes (`Ranks`, `BlockDirectory`, `MasterProcess`, `INode`,
`Nodes`, `FileSystem`, `DirectoryStream`, `Network`, `Peer`, `DistributedCode`, `Handlers`) whose
methods are proved to do exactly what the functions say. At the top, `FileSystem.MountAndServe`
answers whole runs of requests as the plain tree and map do, and `Handlers.Session` is a session of
one peer whose writes all peers then find.

## What is taken for granted

The kernel keeps to its own rules (`NameSafety.KernelSends`): forget counts never exceed the
lookups outstanding, a parent directory that something is put into has links, unlink targets are
held and are not directories, rmdir targets are held, links are made to held inodes that are not
directories, and a rename never takes the place of the directory that it takes its entry from.

The inode table needs one rule more (`NameSafety.KernelAllows`): the two handlers that take a link
from a directory, rmdir and a rename that takes a directory's place elsewhere, must find one to
spare there. A kernel does not know this rule. It matters because a directory moved to a free name
in another directory takes no link with it. That does no harm by itself, but when, say, two have
been moved into the same directory and both are removed there, that directory runs out of links.
`NameSafety.StepInvIff` and `NameSafety.StepNamesIff` show that the rule is exactly what the table
needs, `NameRuns.LegalIffSafeFromInit` says the same of whole runs, and
`LinkReserve.BalancedRunIsLegalFromInit` gives a condition on renames alone that guarantees it.

Callers (`Refinement.Permitted`) keep one session per inode, read and write at or before the end,
do so only between opening and flush, and flush what they have written before they release the
file. `malloc` returns addresses that are not in use. In the
peer-to-peer version one operation is in flight at a time and the next starts when all channels
are empty.

## Where the code falls short of its laws

Where a law fails, an if-and-only-if lemma says exactly when it holds, and a run of the model shows
the failure.

| law | holds exactly when | fails in |
|---|---|---|
| every named inode has a link | `NameSafety.StepNamesIff` | `Limits.NamedDirectoryQueued` |
| the table stays in order | `NameSafety.StepInvIff`, `NameRuns.LegalIffSafeFromInit` | `Limits.NamedDirectoryQueued` |
| nothing is reused before 257 numbers are queued | `Reclamation.ReuseIffFromInit` | `Reclamation.LoneNumberReused` |
| link counts are exact | `LinkLaw.StepFilesIff`, `LinkLaw.StepDirsIff` | `Limits.FileCountOff`, `Limits.DirectoryCountOff` |
| stored paths lead to their directories | `PathNames.StepPathsIff` | `Limits.StalePath` |
| peers keep one tree | `Misread.IssueAgreesIff` | `Misread.LongDirectoryDiverges`, `Misread.LongFileOutcomes`, `ReplicaLimits.ReclaimingDiverges` |
| a path arrives as it was sent | `Wire.PathRoundTripIff` | `Misread.LongFileOutcomes` |
| a peer's writes stay in the buffer | `PeerSessions.OpenSafeIff` | `PeerSessions.ShrunkFileOverruns` |
| free blocks add up | `Accounting.ServeFreeBlocksIff` | `Accounting.TruncationLosesBlock` |
| a listing ends | `Listing.ListingEndsIff` | `Listing.EndlessListing` |
| a read of part of a file is local | `ShortReads.ShortReadIff` | `ShortReads.HalfReadMisses` |
| transfer counts are exact | `Partition.CountsExactIff` | `Limits.TwoGibibytesOverflow` |

## Where the code and its comments disagree

The model follows the code.

- `blockListExistForInode` answers true for inodes without a list. It does no harm, because every
  lookup creates a missing list (`Blocks.BlockDirectory.Record`).
- `FuseLink` reports an existing name and then links all the same, so one request can get two replies.
- The comment on `reclaimINode` says that the queue gives the smallest number; it gives the oldest.
- `FuseReadDir` is said to send everything in the first call. A reply holds 384 bytes at most, a
  call that is cut short goes back one entry, and two neighbours that do not fit together keep
  the listing from ever ending.
- On peers other than the source of a write, `st_blocks` becomes the length of the block list,
  not the number of blocks of the file (`PeerStore.BlocksOfLastWrite`).
- `DataBlock::processRank` cycles through the ranks and is not the rank that holds the block.

## Model

| member | source | states |
|---|---|---|
| Partition.SharesCoverAll | src/client-server/include/mpi/MasterProcessCode.cpp:62-87 | for every file size and number of ranks the per-rank shares add up to all the blocks |
| Partition.DisplacementClosedForm | src/client-server/include/mpi/NodeProcessCode.cpp:78-108 | the displacement of rank r is r whole shares plus one block for each earlier rank that gets a remainder block |
| Partition.SharesTile | src/client-server/include/mpi/MasterProcessCode.cpp:62-87 | block k lies in the contiguous share of rank r exactly when r is its owner, so the intervals tile the file without overlap |
| Partition.SharesBalanced | src/client-server/include/mpi/NodeProcessCode.cpp:78-82 | shares differ by at most one block and earlier ranks never get less |
| Partition.BlockCountUnique | src/client-server/include/mpi/MasterProcessCode.cpp:63 | the only block count that rounds the size up to whole blocks is the one the code computes |
| Partition.CountsExactIff | src/client-server/include/mpi/MasterProcessCode.cpp:67-87 | all `int` counts, displacements and the running offset are exact if and only if the whole transfer is below 2^31 bytes |
| Limits.TwoGibibytesOverflow | src/client-server/include/blocks/data_blocks_info.hpp:15 | a file of 2 GiB in blocks of the client-server version's size is a transfer whose counts are not exact, for every number of ranks |
| Partition.FillCounts | src/client-server/include/mpi/MasterProcessCode.cpp:67-87 | the filling loop leaves in both arrays and in the running offset the 32-bit values of the counts and of their prefix sums |
| Collectives.GatherAfterScatter | src/client-server/include/mpi/MasterProcessCode.cpp:91-106 | gathering what was scattered with the same counts and displacements rebuilds the buffer, whatever the receive buffer held |
| Collectives.ScatterAfterGather | src/client-server/include/mpi/MasterProcessCode.cpp:104-106 | scattering what was gathered gives every rank its own contribution back |
| Collectives.InPlaceAtFrontIff | src/client-server/include/mpi/MasterProcessCode.cpp:197-204 | a root that scatters in place finds its own part at the front of its buffer, for every buffer, if and only if it has displacement 0 or receives nothing |
| BlockStore.LoadAfterStore | src/client-server/include/mpi/NodeProcessCode.cpp:94-101 | one rank that stores its local bytes behind distinct addresses and loads them again gets the same bytes |
| BlockStore.ReadAfterWrite | src/client-server/include/mpi/MasterProcessCode.cpp:53-129 | a read of what was written returns the buffer byte for byte, whichever rank is the root of either and whatever the receive buffer held; every address is dereferenced on the rank that allocated it |
| BlockStore.BlockOnItsOwner | src/client-server/include/mpi/MasterProcessCode.cpp:62-128 | after a write, block k sits behind address k on the heap of the rank whose contiguous share holds k |
| BlockStore.ReadFrame | src/client-server/include/mpi/NodeProcessCode.cpp:150-177 | heaps that only grow keep every stored file readable with the same bytes |
| BlockStore.WriteGrows | src/client-server/include/mpi/NodeProcessCode.cpp:94-101 | a write changes nothing that any rank had allocated before |
| BlockStore.ReceiveBufferIrrelevant | src/client-server/include/mpi/MasterProcessCode.cpp:177-215 | the uninitialised receive buffer of a read has no influence on the result |
| ShortReads.SameOwnersIff | src/client-server/include/mpi/MasterProcessCode.cpp:157-175 | the first m of n blocks have the same owners in a transfer of m blocks as in one of n if and only if m is at most 1 or is n, there is one rank, no rank has two blocks, or n is a multiple of the ranks and m is n - 1 |
| ShortReads.ShortReadIff | src/client-server/include/mpi/MasterProcessCode.cpp:157-204 | after a write of n blocks, a read of only the first m finds each address on the rank it sends it to if and only if that condition on m, n and the number of ranks holds; it then returns just these blocks |
| ShortReads.HalfReadMisses | src/client-server/include/mpi/MasterProcessCode.cpp:157-175 | after a write of four blocks on two ranks, a read of the first two hands the address of block 1 to a rank that does not know it |
| Cluster.Ranks.StoreShare | src/client-server/include/mpi/NodeProcessCode.cpp:94-101 | one rank's allocation loop: fresh addresses, and its heap extended by exactly the received blocks |
| Cluster.Ranks.LoadShare | src/client-server/include/mpi/NodeProcessCode.cpp:166-170 | one rank's copy loop returns the bytes behind the received addresses in order |
| Cluster.Ranks.DistributedStore | src/client-server/include/mpi/MasterProcessCode.cpp:53-106 | scatter, local stores and gather of the addresses on all ranks: fresh addresses everywhere, and the heaps of the written buffer |
| Cluster.Ranks.DistributedLoad | src/client-server/include/mpi/MasterProcessCode.cpp:140-219 | scatter of the addresses, local loads and gather on all ranks return the bytes behind the addresses, also when rank 0 scatters in place |
| Blocks.HistoryShape | src/client-server/include/mpi/DataBlockManager.cpp:28-47 | after any history of writes a block list is as long as the longest write, entry k has number k, offset k*B and a rank below p, and its front holds the addresses of the last write |
| Blocks.BatchRanks | src/client-server/include/mpi/DataBlockManager.cpp:34-46 | inside one batch the ranks cycle through all ranks, and a batch starts by repeating the rank the list ended with |
| Blocks.AddressesAfterRecording | src/client-server/include/mpi/MasterProcessCode.cpp:110-128 | a read of as many blocks as the last write finds exactly that write's addresses; older entries behind them are not touched |
| Blocks.BlockDirectory.GetList | src/client-server/include/blocks/Blocks.cpp:43-45 | a lookup returns the list and creates an empty one where there was none |
| Blocks.BlockDirectory.AddDataBlocks | src/client-server/include/mpi/DataBlockManager.cpp:28-47 | the extension loop with its wrapping rank counter appends the batch of numbered blocks |
| Blocks.BlockDirectory.Record | src/client-server/include/mpi/MasterProcessCode.cpp:110-128 | despite the inverted test, the directory ends with the list extended as needed and pointed at the new addresses |
| Master.MasterProcess.DAGonFSWrite | src/client-server/include/mpi/MasterProcessCode.cpp:53-138 | the master's write: fresh addresses, heaps of the written buffer, and the directory updated for that inode only |
| Master.MasterProcess.DAGonFSRead | src/client-server/include/mpi/MasterProcessCode.cpp:140-219 | the master's read, for any requested size, returns nothing for an empty file, otherwise the bytes behind as many of the inode's first addresses as the smaller of request and file has blocks; no block list changes, but a missing one is created empty |
| StoreRuns.ListsFromMount | src/client-server/include/mpi/MasterProcessCode.cpp:110-128 | over every run of the client-server file system from mounting, the block list of an inode number is the one that the history of the stores to it makes, across any reuse of the number; nothing but a flush that stores changes it |
| Lockstep.SameCounts | src/client-server/include/mpi/MasterProcessCode.cpp:62-87 | the per-rank counts that the master fills one by one are, rank by rank, those that a node works out for itself |
| Lockstep.TransfersMoveParts | src/client-server/include/mpi/MasterProcessCode.cpp:62-219 | a write scatters to each rank as many bytes as its part of the buffer has and gathers one address packet for each of its blocks, a read scatters the packets and gathers the bytes, and nothing moves for a read of an empty file |
| Lockstep.NodesFollowMaster | src/client-server/include/mpi/NodeProcessCode.cpp:44-73 | for every sequence of master jobs followed by termination, a node fed with the broadcasts takes part, with counts it works out itself, in exactly the master's collectives, in order and with the same count for every rank, consumes all broadcasts and stops |
| Lockstep.NodeStart | src/client-server/include/mpi/NodeProcessCode.cpp:44-187 | the request loop with its running flag produces exactly that trace |
| NameSafety.InitInv | src/client-server/include/ramfs/FileSystem.cpp:264-294 | the state after mounting satisfies the inode-table invariant |
| NameSafety.ForgetInv | src/client-server/include/ramfs/FileSystem.cpp:377-408 | forget keeps the invariant: the queue gains the inode exactly when its last link and lookup are gone |
| NameSafety.NextInodeUnused | src/client-server/include/ramfs/FileSystem.cpp:300-324 | the number that the allocator hands out is not special, not the root, named by no entry, without entries and not held |
| NameSafety.AddNewInv | src/client-server/include/ramfs/FileSystem.cpp:457-573 | making a file, symbolic link or directory keeps the invariant |
| NameSafety.UnlinkInv | src/client-server/include/ramfs/FileSystem.cpp:579-622 | unlink keeps the invariant |
| NameSafety.RmdirInvIff | src/client-server/include/ramfs/FileSystem.cpp:670-680 | a successful rmdir keeps the invariant if and only if the parent has a second link, or is a leftover that nobody names, that this empties and that the kernel holds; for a parent that is named or the root, if and only if it has a second link |
| NameSafety.LinkInv | src/client-server/include/ramfs/FileSystem.cpp:804-850 | link keeps the invariant, even where an existing name is reported and then overwritten |
| NameSafety.RenameInvIff | src/client-server/include/ramfs/FileSystem.cpp:732-802 | a successful rename keeps the invariant if and only if it takes no directory's place in another directory or the old parent can spare the link that the handler takes from it |
| NameSafety.StepInvIff | src/client-server/include/ramfs/FileSystem.cpp:341-850 | a request that a kernel sends keeps the invariant if and only if it is none of these two or finds the link to spare |
| NameSafety.StepNamesIff | src/client-server/include/ramfs/FileSystem.cpp:341-850 | over all requests that a kernel sends, every named inode still has a link afterwards if and only if the request takes no link from a named directory or leaves it one |
| Limits.NamedDirectoryQueued | src/client-server/include/ramfs/FileSystem.cpp:627-692 | a run that a kernel sends and that breaks the rule with its second rmdir: two directories moved into /b and removed there leave /b named without links, and once forgotten it is queued for reuse while the root still names it |
| LinkReserve.ParentLosesLink | src/client-server/include/ramfs/FileSystem.cpp:670-680 | where every linked directory has two links (the root three) and one for each subdirectory, a directory that loses a subdirectory had at least three links |
| LinkReserve.ReserveAllows | src/client-server/include/ramfs/FileSystem.cpp:341-850 | in such a table every request that a kernel sends meets the rule |
| LinkReserve.StepReserveIff | src/client-server/include/ramfs/FileSystem.cpp:341-850 | a request that a kernel sends keeps the table so if and only if it is no rename, or one that stays inside one directory, replaces its own kind, or finds a link to spare where it falls short |
| LinkReserve.BalancedRunIsLegalFromInit | src/client-server/include/ramfs/FileSystem.cpp:341-850 | every run from mounting that a kernel sends and in which all requests are such is legal |
| NameSafety.RenamedRefs | src/client-server/include/ramfs/FileSystem.cpp:780-796 | a rename takes one reference from whatever the new name pointed to before, and none from anybody else |
| NameSafety.StepInv | src/client-server/include/ramfs/FileSystem.cpp:341-850 | every request that the kernel's rules and this one rule allow keeps the invariant |
| NameRuns.LegalIffSafeFromInit | src/client-server/include/ramfs/FileSystem.cpp:341-850 | of the runs from mounting that a kernel sends by its own rules, those that meet the rule throughout are exactly those in which the invariant never fails |
| NameRuns.ReclamationSafety | src/client-server/include/ramfs/FileSystem.cpp:300-324 | in every reachable state each entry names an in-range inode with a link, and the inode that would be reclaimed next is reachable by no name and not held |
| NameRuns.QueueExactAlways | src/client-server/include/ramfs/FileSystem.cpp:387-394 | in every reachable state the queue has no duplicates and holds exactly the inodes from 1 on without links and lookups, and slot i holds inode i |
| NameRuns.ReuseInDeletionOrder | src/client-server/include/nodes/Nodes.cpp:133-145 | over every run the deleted numbers are the reused ones followed by the waiting ones, in the same order |
| NameRuns.TableSize | src/client-server/include/ramfs/FileSystem.cpp:300-324 | the table is the special inode, the inodes with a link or a lookup, and the queue |
| NameRuns.SpaceBoundFromInit | src/client-server/include/ramfs/FileSystem.cpp:302-319 | over every run the table never exceeds the peak number of inodes with a link or a lookup by more than 257 |
| NameRuns.LookupsFromInit | src/client-server/include/ramfs/FileSystem.cpp:341-408 | over every run from mounting, also across reuse of a number, an inode's lookup count is what the kernel was given in replies minus what it gave back |
| NameRuns.MarksFromInit | src/client-server/include/nodes/INode.cpp:44-49 | in every state reachable from mounting an inode without links is marked as deleted |
| NameRuns.StepMarksIff | src/client-server/include/nodes/INode.cpp:44-49 | an inode gets the deletion mark precisely when it loses its last link, if only for the moment in which a rename within one directory replaces a directory, and keeps it until its number is reused |
| Reclamation.ModeIff | src/client-server/include/ramfs/FileSystem.cpp:300-324 | over every run reclaiming mode is on at the end if and only if more than 256 numbers were queued at some moment, or it was on before, and nothing has been made on an empty queue since |
| Reclamation.ReuseIffFromInit | src/client-server/include/ramfs/FileSystem.cpp:300-324 | from mounting, the next inode gets the oldest queued number if and only if one is queued and more than 256 have been since the last creation that found none; otherwise the table grows |
| Reclamation.DrainsFromInit | src/client-server/include/ramfs/FileSystem.cpp:302-319 | from mounting, once more than 256 numbers are queued, the next creations, up to as many as there are numbers, get exactly the queued numbers from the oldest on, whatever is deleted meanwhile, and the table does not grow |
| Reclamation.DrainsWhileQueued | src/client-server/include/ramfs/FileSystem.cpp:302-319 | while the mode is on and no creation finds the queue empty, every creation reuses a number and the table does not grow |
| Reclamation.NoReuseBefore | src/client-server/include/ramfs/FileSystem.cpp:302-319 | with the mode off and never more than 256 numbers queued, nothing is reused: each new inode gets the next number at the end of the table |
| Reclamation.LoneNumberReused | src/client-server/include/ramfs/FileSystem.cpp:300-324 | a legal run that queues 257 numbers and reuses them all ends with an empty queue and the mode still on, so that the next forgotten number is reused at once although it is the only one queued |
| PlainTree.StepServesTree | src/client-server/include/ramfs/FileSystem.cpp:341-850 | every namespace request that a kernel sends is answered as a plain tree of kinds and names answers it, each error case in its order included, and leaves the tree that the plain one becomes; only the number of a new inode comes from the allocator |
| Lookups.LookupsFollowWalk | src/client-server/include/ramfs/FileSystem.cpp:341-371 | looking a path up name by name from the root answers the inode that a walk along it ends at, and ENOENT exactly when the walk ends nowhere; the tree stays |
| Lookups.PathsAnsweredFromInit | src/client-server/include/ramfs/FileSystem.cpp:341-371 | in every state reachable from mounting the lookups along a path answer Entry(i) if and only if the path leads to inode i, and ENOENT if and only if it leads nowhere |
| Lookups.AnswersFromInit | src/client-server/include/ramfs/FileSystem.cpp:341-850 | in every state reachable from mounting, after a request has succeeded, a lookup of its name answers the number of what was made, ENOENT for what was removed or renamed away, under the new name what the old one stood for, and the linked inode for a link; a lookup of any other name answers as before |
| LinkLaw.StepFilesIff | src/client-server/include/ramfs/FileSystem.cpp:457-850 | from exact file counts a request keeps them exact if and only if it overwrites no file's entry, whatever it does to directories |
| LinkLaw.StepDirsIff | src/client-server/include/ramfs/FileSystem.cpp:457-850 | from exact directory counts a request keeps them exact if and only if it overwrites no directory's entry and moves no directory to another parent, whatever it does to files |
| LinkLaw.RenameFilesIff | src/client-server/include/ramfs/FileSystem.cpp:732-802 | a rename keeps file counts exact if and only if it takes no file's place |
| LinkLaw.RenameDirsIff | src/client-server/include/ramfs/FileSystem.cpp:732-802 | a rename keeps directory counts exact if and only if it takes no directory's place and moves no directory to another parent |
| LinkLaw.FileCountsFromInit | src/client-server/include/ramfs/FileSystem.cpp:457-850 | in every legal run from mounting that overwrites no file's entry, wherever directories are moved, a file's link count is its number of entries |
| Limits.FileCountOff | src/client-server/include/ramfs/FileSystem.cpp:732-802 | two files made and one renamed over the other: the request is allowed and file counts are exact no more |
| LinkLaw.DirectoryCountsFromInit | src/client-server/include/ramfs/FileSystem.cpp:532-802 | every run from mounting that a kernel sends and that overwrites no directory's entry and moves no directory to another parent is legal, and in it a linked directory has two links (the root three) plus one per subdirectory |
| Limits.DirectoryCountOff | src/client-server/include/ramfs/FileSystem.cpp:732-802 | two directories made and one moved into the other: the request is allowed and directory counts are exact no more |
| FileSession.WriteKeepsBufferInv | src/client-server/include/ramfs/FileSystem.cpp:1621-1645 | a write at or before the end keeps the buffer exactly st_blocks whole blocks, with st_blocks the rounded-up size, so the copy stays in bounds |
| FileSession.AllInBoundsIff | src/client-server/include/ramfs/FileSystem.cpp:1621-1645 | of a buffer that covers its file, every write stays in bounds if and only if st_blocks is the rounded-up size |
| FileSession.WriteOverlaysContent | src/client-server/include/ramfs/FileSystem.cpp:1621-1645 | a write overlays the contents; growth keeps every earlier byte and what the allocator left in new blocks never shows |
| FileSession.ReadIsSlice | src/client-server/include/ramfs/FileSystem.cpp:1545-1565 | a read returns exactly the bytes from the offset to the smaller of the requested end and the file's end |
| Refinement.FlushStores | src/client-server/include/ramfs/FileSystem.cpp:918-941 | what a flush has stored, a later load of the file finds |
| Refinement.FlushStoresIff | src/client-server/include/ramfs/FileSystem.cpp:918-941 | a flush changes a heap if and only if something was written in the session and the file is not empty; otherwise no block list changes either |
| Refinement.MadeAgrees | src/client-server/include/ramfs/FileSystem.cpp:1455-1470 | a new file is empty, whatever blocks its inode number had in an earlier life |
| Refinement.Simulation | src/client-server/include/ramfs/FileSystem.cpp:341-1660 | every permitted request gets the reply that a plain tree of names and a plain map from inode to bytes give, and the system still agrees with both afterwards |
| Refinement.EndToEndFromMount | src/client-server/include/ramfs/FileSystem.cpp:341-1660 | over every legal run from mounting, all requests are answered and answered as by the plain tree and map |
| Accounting.ConservationFromMount | src/client-server/include/ramfs/FileSystem.hpp:451-458 | over every run from mounting free inodes plus table size, and free blocks plus st_blocks over the table plus blocks zeroed by truncating opens, stay equal to the totals in 64-bit arithmetic |
| Accounting.ServeFreeBlocksIff | src/client-server/include/ramfs/FileSystem.cpp:882-883 | from an exact free-block count a request keeps it exact if and only if it is not a truncating opening of a file with blocks |
| Accounting.FreeBlocksFromMountIff | src/client-server/include/ramfs/FileSystem.cpp:882-883 | over every run from mounting that zeroes fewer than 2^64 blocks, the free-block count ends exact if and only if no request of it was such an opening |
| Accounting.TruncationLosesBlock | src/client-server/include/ramfs/FileSystem.cpp:882-883 | a file created, written with one byte, flushed and opened with truncation leaves the free blocks short |
| Listing.ListingCovers | src/client-server/include/ramfs/FileSystem.cpp:1058-1157 | when neighbouring entries fit together, the calls advance to the end and each starts at or one before the end of the one before it |
| Listing.ReplyFits | src/client-server/include/ramfs/FileSystem.cpp:1107-1154 | every reply, . and .. included in the first, has entries of no more than its room and no more than 255, stops only at the end of the directory, at 255 entries or where the next entry would exceed the room, and moves the cursor back by one exactly in the last case |
| Listing.EveryEntrySent | src/client-server/include/ramfs/FileSystem.cpp:1058-1157 | every child of a directory is in the reply of some call of the directory's listing, with its inode number |
| Listing.SentInNameOrder | src/client-server/include/ramfs/FileSystem.cpp:1058-1157 | what an earlier call of a listing sends comes, in name order, before what a later call sends, except for at most the earlier call's last entry, which may be sent again |
| Listing.ListingEndsIff | src/client-server/include/ramfs/FileSystem.cpp:1058-1157 | the listing reaches its end if and only if any two neighbouring entries fit into one reply |
| Listing.EndlessListing | src/client-server/include/ramfs/FileSystem.cpp:1098-1150 | a directory of two files with 170-character names is never listed to its end |
| Listing.DirectoryStream.FuseReadDir | src/client-server/include/ramfs/FileSystem.cpp:1037-1161 | one call sends . and .. if it is the first, then the entries that fit from the cursor on, in no more than its room, and leaves the cursor where the reply ended, one entry back if it was cut short for space; at the end it sends an empty reply |
| NodeTable.INode.Forget | src/client-server/include/nodes/INode.cpp:37-39 | the lookup counter goes down by the given number, wrapping below zero |
| NodeTable.INode.RemoveHardLink | src/client-server/include/nodes/INode.cpp:44-49 | one link less, wrapping below zero, and marked as deleted at zero |
| NodeTable.INode.RemoveAllHardLinks | src/client-server/include/ramfs/FileSystem.cpp:674-678 | the rmdir loop ends, at exactly zero links, and marks the inode if it had any |
| NodeTable.INode.HasChildren | src/client-server/include/nodes/Directory.cpp:55-62 | true exactly when there is an entry other than . and .. |
| NodeTable.Nodes.AddINode | src/client-server/include/nodes/Nodes.cpp:37-41 | the inode is appended and its number is the old table length |
| NodeTable.Nodes.DeleteINode | src/client-server/include/nodes/Nodes.cpp:133-135 | the number joins the end of the queue; the inode itself is untouched |
| NodeTable.Nodes.ReclaimINode | src/client-server/include/nodes/Nodes.cpp:141-145 | the oldest queued number is taken |
| FileSystem.FileSystem.constructor | src/client-server/include/ramfs/FileSystem.cpp:264-294 | the system after mounting |
| FileSystem.FileSystem.RegisterINode | src/client-server/include/ramfs/FileSystem.cpp:300-324 | reuses the oldest deleted number while reclaiming, giving its blocks back and staying in that mode, or appends and takes one free inode; leaves reclaiming mode on an empty queue |
| FileSystem.FileSystem.FuseLookup | src/client-server/include/ramfs/FileSystem.cpp:341-371 | in place, the lookup count and the reply of a lookup |
| FileSystem.FileSystem.FuseForget | src/client-server/include/ramfs/FileSystem.cpp:377-408 | in place, what a forget does to counters, queue and reclaiming mode |
| FileSystem.FileSystem.FuseMknod | src/client-server/include/ramfs/FileSystem.cpp:457-530 | in place, the whole system after mknod, each error case included |
| FileSystem.FileSystem.FuseMkdir | src/client-server/include/ramfs/FileSystem.cpp:532-573 | in place, the whole system after mkdir |
| FileSystem.FileSystem.FuseUnlink | src/client-server/include/ramfs/FileSystem.cpp:579-622 | in place, the inode table after unlink |
| FileSystem.FileSystem.FuseRmdir | src/client-server/include/ramfs/FileSystem.cpp:627-692 | in place, the inode table after rmdir, with its errors for non-directories and occupied directories |
| FileSystem.FileSystem.FuseSymlink | src/client-server/include/ramfs/FileSystem.cpp:694-730 | in place, the whole system after symlink |
| FileSystem.FileSystem.FuseRename | src/client-server/include/ramfs/FileSystem.cpp:732-802 | in place, the inode table after rename, also when both parents or both names coincide |
| FileSystem.FileSystem.FuseLink | src/client-server/include/ramfs/FileSystem.cpp:804-850 | in place, the inode table and both replies of link when the name exists |
| FileSystem.FileSystem.FuseOpen | src/client-server/include/ramfs/FileSystem.cpp:852-904 | in place, truncation or load of the file |
| FileSystem.FileSystem.FuseFlush | src/client-server/include/ramfs/FileSystem.cpp:906-948 | in place, write-back through the ranks if something was written, and the buffer freed |
| FileSystem.FileSystem.FuseRelease | src/client-server/include/ramfs/FileSystem.cpp:953-988 | in place, the buffer freed |
| FileSystem.FileSystem.FuseCreate | src/client-server/include/ramfs/FileSystem.cpp:1438-1486 | in place, the whole system after create, with the file's empty block list |
| FileSystem.FileSystem.FuseRead | src/client-server/include/ramfs/FileSystem.cpp:1508-1567 | the bytes of the reply, nothing changed |
| FileSystem.FileSystem.FuseWrite | src/client-server/include/ramfs/FileSystem.cpp:1572-1660 | in place, the grown and overlaid buffer, the size, and the free blocks |
| FileSystem.FileSystem.HandleNames | src/client-server/include/ramfs/FileSystem.cpp:341-850 | whatever namespace request a rule-abiding kernel sends, the objects end as the value model says |
| FileSystem.FileSystem.Serve | src/client-server/include/ramfs/FileSystem.cpp:341-1660 | the running program refines the plain tree and map: each permitted request is answered as they answer it, the whole system, inode table included, is the one that the request leads to, and the agreement holds again afterwards |
| FileSystem.FileSystem.ServeAll | src/client-server/include/ramfs/FileSystem.cpp:200-240 | over every run that the rules permit, the loop over the requests returns exactly the replies of the plain tree and map, one for each request, and ends where these end |
| FileSystem.MountAndServe | src/client-server/include/ramfs/FileSystem.cpp:200-294 | from mounting: whatever run of requests the rules permit, the program answers each of them as the plain tree and map do |
| PeerProtocol.EachRankGetsExpected | src/peer-to-peer/include/mpi/RequestSender.cpp:16-107 | the send loops give each rank exactly the header, or header and body, that its role calls for |
| PeerProtocol.ProtocolSafety | src/peer-to-peer/include/mpi/DistributedCode.cpp:75-143 | from empty channels, under every interleaving of one operation's sends and receives, no peer ever takes a body for a header, and each pairs header and body of the same source although it receives from anybody |
| PeerProtocol.ProtocolCompletes | src/peer-to-peer/include/mpi/DistributedCode.cpp:75-143 | every interleaving that cannot go on has served the request once on every peer but the source, stopped everybody on termination, and left all channels empty |
| PeerProtocol.ProtocolTerminates | src/peer-to-peer/include/mpi/DistributedCode.cpp:75-143 | no interleaving is longer than the sends plus two receives per rank |
| PeerProtocol.ProtocolProgresses | src/peer-to-peer/include/mpi/DistributedCode.cpp:75-143 | after any beginning of an operation there is a way to its end: no order of sends and receives gets stuck |
| PeerProtocol.EveryPeerServesEveryRound | src/peer-to-peer/include/mpi/DistributedCode.cpp:75-143 | over any sequence of operations from any sources, one at a time, every peer serves exactly the others' operations in the order of issue |
| PeerProtocol.EnqueuedAt | src/peer-to-peer/include/mpi/RequestSender.cpp:16-107 | a list of sends reaches each rank in order and touches no other channel |
| PeerProtocol.Network.SendTransferRequest | src/peer-to-peer/include/mpi/RequestSender.cpp:16-34 | the loops for reads and writes: headers to the others, then bodies, none to the source |
| PeerProtocol.Network.SendNameRequest | src/peer-to-peer/include/mpi/RequestSender.cpp:36-98 | the loops for namespace requests: header and body rank by rank, to the source the header only |
| PeerProtocol.Network.SendTerminationRequest | src/peer-to-peer/include/mpi/RequestSender.cpp:100-107 | the termination loop: a header to everybody |
| PeerProtocol.Start | src/peer-to-peer/include/mpi/DistributedCode.cpp:75-143 | the receive loop with its running flag handles any arrivals as the peer's state machine does |
| PathNames.StepPathsIff | src/peer-to-peer/include/ramfs/FileSystem.cpp:558-867 | from a tree in order, the stored path of every linked directory still leads to it after a request if and only if the request overwrites no directory's entry, renames no directory, and makes directories only by mkdir; the tree is then in order again |
| PathNames.RenamePathsIff | src/peer-to-peer/include/ramfs/FileSystem.cpp:787-867 | after a rename all stored paths lead to their directories if and only if neither the renamed nor the replaced inode is a directory |
| Limits.StalePath | src/peer-to-peer/include/ramfs/FileSystem.cpp:787-867 | after mkdir /b and its rename to /c the directory still carries the path /b/, which leads nowhere |
| PathNames.PathsResolve | src/peer-to-peer/include/ramfs/FileSystem.cpp:588-593 | in every tree built by such requests, walking the components of a linked directory's stored path from the root reaches exactly that directory |
| PathNames.PathsDiffer | src/peer-to-peer/include/ramfs/FileSystem.cpp:588-593 | no two linked directories carry the same path |
| Wire.PathRoundTripIff | src/peer-to-peer/include/mpi/mpi_data.hpp:30-49 | a path of any length arrives unchanged through its 256-byte field if and only if it holds no terminator and is shorter than 256 bytes, or is 256 bytes long and the memory behind the field begins with a terminator |
| Replication.NoEcho | src/peer-to-peer/include/mpi/DistributedCode.cpp:340-406 | a replayed request is never sent on; its flag is down again if and only if the kernel called the handler and the handler succeeded; and the peer lives on if and only if it could read the message and, for a creation, a file was opened |
| Misread.StuckFlagSilences | src/peer-to-peer/include/mpi/DistributedCode.cpp:367-378 | a new directory whose path fills its field, followed by more than slashes in another peer's memory, leaves that peer's tree as it was and its flag up, which swallows its own next mkdir and falls only if that succeeds |
| Misread.LongDirectoryDiverges | src/peer-to-peer/include/ramfs/FileSystem.cpp:558-615 | right after mounting, a directory with a 254-character name made in the root on peer 0 does not reach a peer with more than slashes behind its packet, whose own next mkdir is told to nobody |
| Misread.LongFileOutcomes | src/peer-to-peer/include/mpi/DistributedCode.cpp:340-352 | right after mounting, a file with a 255-character name made in the root on peer 0 is made on peer 1 too, made under a longer name, or makes peer 1 close a null file, according to what lies behind its packet |
| Replication.CallMatches | src/peer-to-peer/include/mpi/DistributedCode.cpp:340-406 | the paths that a successful request sends make the kernel of a peer with the same tree call the handler with the very same request |
| Replication.NewTreeIff | src/peer-to-peer/include/ramfs/FileSystem.cpp:326-350 | something new keeps two equal trees equal if and only if both allocators hand out the same number |
| ReplicaLimits.ReclaimingDiverges | src/peer-to-peer/include/ramfs/FileSystem.cpp:326-350 | a legal run after which all trees agree and yet peer 0, whose kernel has forgotten 257 deleted files, hands out number 2 and the others 259, so that the next file is a different inode there |
| Replication.ExistingFileOpens | src/peer-to-peer/include/mpi/DistributedCode.cpp:340-352 | the replay of a creation whose file is there already leaves the peer alive with its tree as it was, sends nothing, and leaves the flag up |
| Replication.NotReclaimingSameNumber | src/peer-to-peer/include/ramfs/FileSystem.cpp:326-350 | peers with equal trees that are not reclaiming hand out the same number |
| Replication.OldTree | src/peer-to-peer/include/ramfs/FileSystem.cpp:621-867 | unlink, rmdir and rename keep equal trees equal and succeed on both or neither |
| Replication.IssueAgrees | src/peer-to-peer/include/ramfs/FileSystem.cpp:558-867 | one create, mkdir, unlink, rmdir or file rename, issued on any peer, whose paths arrive and whose number is the same everywhere, leaves all peers alive with the same tree and all flags down |
| Misread.IssueAgreesIff | src/peer-to-peer/include/ramfs/FileSystem.cpp:558-867 | such a request, if it succeeds and its paths fit their fields, leaves all peers in agreement if and only if every path leaves room for its terminator or what lies behind each receiver's packet ends it (for mkdir and rmdir, after slashes at most), and, if it makes something, all allocators hand out the same number |
| Replication.ReplicasAgree | src/peer-to-peer/include/ramfs/FileSystem.cpp:558-867 | over every run of requests from arbitrary peers, one at a time, and of lookups and forgets of each peer's own, all peers keep the same tree |
| Replication.SameFileEverywhere | src/peer-to-peer/include/mpi/DistributedCode.cpp:150-162 | in every reachable state a path leads on all peers to the same inode number, so the number in a write request means the same file everywhere |
| MessageRuns.DeliveryReplays | src/peer-to-peer/include/mpi/DistributedCode.cpp:75-143 | once the messages of a request are delivered, in whatever order of sends and receives, every other peer has served it exactly once and the source not at all, and what each then repeats is the request |
| MessageRuns.MessagesRefine | src/peer-to-peer/include/mpi/DistributedCode.cpp:75-143 | over every run of requests with all their messages, the peers end as if each had taken part in every request at once, no message is left over, and each peer has served exactly the requests of the others, in order |
| MessageRuns.AgreementByMessages | src/peer-to-peer/include/mpi/DistributedCode.cpp:75-406 | so over every such run from mounting all peers have the same tree and no flag is up |
| MessageRuns.CanArrive | src/peer-to-peer/include/mpi/DistributedCode.cpp:75-143 | every legal request has an order of sends and receives that delivers it |
| PeerFileSystem.Peer.FuseMkdir | src/peer-to-peer/include/ramfs/FileSystem.cpp:558-615 | in place, the reply, the whole tree, the new directory's path, the message to all ranks unless the flag is up, and the flag down |
| PeerFileSystem.Peer.FuseUnlink | src/peer-to-peer/include/ramfs/FileSystem.cpp:621-671 | in place, the reply, the whole tree, the message with the file's path, and the flag |
| PeerFileSystem.Peer.FuseRmdir | src/peer-to-peer/include/ramfs/FileSystem.cpp:676-747 | in place, the reply, the whole tree, the message with the directory's stored path, and the flag |
| PeerFileSystem.Peer.FuseRename | src/peer-to-peer/include/ramfs/FileSystem.cpp:787-867 | in place, the reply, the whole tree, the message with both paths, and the flag |
| PeerFileSystem.Peer.FuseCreate | src/peer-to-peer/include/ramfs/FileSystem.cpp:1502-1576 | in place, the reply, the whole tree, the message with the file's path, and the flag |
| PeerFileSystem.Peer.Replay | src/peer-to-peer/include/mpi/DistributedCode.cpp:340-406 | in place, a replay raises the flag and repeats the request by the path it reads, a creation that opens no file ends the peer, the tree changes by that request alone, and every channel stays as it was |
| PeerStore.SameListsEverywhere | src/peer-to-peer/include/mpi/DistributedCode.cpp:213-229 | after any writes from any sources, one at a time, and any reuse of inode numbers, every peer's block list of every inode number is the one that the history of writes to it makes |
| PeerStore.AnyPeerReadsLastWrite | src/peer-to-peer/include/mpi/DistributedCode.cpp:241-337 | a full read of the last flushed size, started by any peer, returns the bytes of the last write whoever made it, and hands every address to the rank that allocated it |
| PeerStore.ReadsRepeat | src/peer-to-peer/include/mpi/DistributedCode.cpp:241-337 | however many files are fetched meanwhile by whatever peers, any peer still reads the bytes of the last write |
| PeerStore.SizeOfLastWrite | src/peer-to-peer/include/mpi/DistributedCode.cpp:232-237 | a peer that has not truncated the inode since has the size of its last write |
| PeerStore.BlockCountRightIff | src/peer-to-peer/include/mpi/DistributedCode.cpp:232-237 | over every history, on a peer that has not truncated the inode since its last write, st_blocks rounds the size up if and only if that write was the peer's own with a right count, or no write to the inode number was ever longer |
| PeerStore.BlocksOfLastWrite | src/peer-to-peer/include/mpi/DistributedCode.cpp:232-237 | on such a peer st_blocks is its own count after a write of its own, otherwise the length in blocks of the longest write ever to the inode number, also by files that had it before |
| PeerSessions.OpenFinds | src/peer-to-peer/include/ramfs/FileSystem.cpp:917-969 | an opening on any peer finds the bytes of the last flush, in a buffer that covers them |
| PeerSessions.OpenSafeIff | src/peer-to-peer/include/ramfs/FileSystem.cpp:917-969 | over every history, the opened file meets the buffer invariant, every write to it stays in bounds, and every session on it fits, each if and only if the peer made the last write with a right count or no write was ever longer |
| PeerSessions.ShrunkFileOverruns | src/peer-to-peer/include/mpi/DistributedCode.cpp:232-237 | two blocks, then a truncation or a new file with the same number, and one block, written by rank 0, leave rank 1 with a block of buffer and st_blocks two, where one byte more is out of bounds |
| PeerSessions.FlushSeenEverywhere | src/peer-to-peer/include/ramfs/FileSystem.cpp:985-997 | after a flush on one peer its buffer's contents are what every peer finds, whatever the allocator left behind the end |
| PeerSessions.CloseToOpen | src/peer-to-peer/include/ramfs/FileSystem.cpp:917-1012 | a session on one peer whose writes fit its buffer, from opening to flush, then an opening on any peer: it finds the earlier contents with all the session's writes spliced in |
| PeerSessions.CloseToOpenRightHistory | src/peer-to-peer/include/ramfs/FileSystem.cpp:917-1012 | the same of every session when no write was ever longer than the last or the peer made it itself, and the history stays right for it |
| PeerSessions.TruncatingCloseToOpen | src/peer-to-peer/include/ramfs/FileSystem.cpp:943-948 | the same after a truncating opening: the earlier contents play no part |
| PathFiles.SameContentEverywhere | src/peer-to-peer/include/ramfs/FileSystem.cpp:917-969 | in every state reachable by namespace requests, flushes and truncations from any peers, a path opened on any two peers that have not truncated the file shows the same bytes: those last flushed to it since it was made |
| PathFiles.FlushedPathFound | src/peer-to-peer/include/ramfs/FileSystem.cpp:917-1012 | what one peer flushes to the file that it finds at a path, any peer finds when it opens the path later, through any run that leaves the path where it is and flushes nothing else to the file |
| PeerStore.DistributedCode.DAGonFSWrite | src/peer-to-peer/include/mpi/DistributedCode.cpp:150-239 | in place on all peers: scatter, local stores, allgather, every peer's own record of the addresses, and the others' size and block count |
| PeerStore.DistributedCode.DAGonFSRead | src/peer-to-peer/include/mpi/DistributedCode.cpp:241-338 | in place, a read started by any peer, for any requested size, returns nothing for an empty file, otherwise the bytes behind as many of its own first addresses as the smaller of request and file has blocks; every heap, every attribute and every block list of every peer is as before |
| PeerStore.DistributedCode.Load | src/peer-to-peer/include/ramfs/FileSystem.cpp:944-959 | over every history, a peer that loads a file with the size that it has gets the bytes of the last write, and the history that the peers show afterwards says the same of every file, so that a second load by this or any other peer gets them too |
| PeerHandlers.Handlers.FuseOpen | src/peer-to-peer/include/ramfs/FileSystem.cpp:917-969 | in place on one peer, an empty file after a truncating opening, otherwise the file as the last flush left it |
| PeerHandlers.Handlers.FuseWrite | src/peer-to-peer/include/ramfs/FileSystem.cpp:1662-1750 | in place on one peer, the grown and overlaid buffer, the size and the block count; nothing else on any peer |
| PeerHandlers.Handlers.FuseRead | src/peer-to-peer/include/ramfs/FileSystem.cpp:1598-1657 | the bytes of the open file from the offset to the smaller of the requested end and the file's end |
| PeerHandlers.Handlers.FuseFlush | src/peer-to-peer/include/ramfs/FileSystem.cpp:971-1012 | in place on all peers, the distributed write if something was written, and the buffer freed |
| PeerHandlers.Handlers.FuseRelease | src/peer-to-peer/include/ramfs/FileSystem.cpp:1017-1053 | in place, the buffer freed and nothing else |
| PeerHandlers.Handlers.Session | src/peer-to-peer/include/ramfs/FileSystem.cpp:917-1750 | over every history: what one peer writes between opening and closing a file is afterwards what every peer finds, the earlier contents, or none after a truncation, with the writes spliced in; a session that writes nothing or leaves the file empty flushes nothing |

## Left out

- Extended attributes, access checks, readlink, lock stubs, owners, modes, times and statfs: shallow branches that touch none of the state modelled here.
- Changing the size by setattr: it alters `st_size` without touching blocks or buffer, so the session laws are not claimed for it.
- Gap-leaving writes, reads past the end, failing allocation and use of a handle after flush: the code leaves bytes unset or goes on after replying, so they are excluded by preconditions.
- Reads of only some of a file's blocks by the file system, and the unused offset of a read request: both read methods take any requested size, but no caller asks for less than the whole file.
- Misread.IssueAgreesIff: says nothing of paths longer than 256 bytes, because the sender copies them past the end of their field and what that overwrites is unknown.
- Components . and .. and symbolic links in what a receiver reads behind a field: paths that are sent hold none, and the model's walk knows only names.
- What becomes of the others when a peer has died: the model keeps it as a peer that answers nothing.
- Overlapping sessions on one inode and concurrent initiators in the peer-to-peer version: shared count arrays and receives from any source rule out a guarantee.
- Replication of symbolic links, hard links and mknod: the peer-to-peer handlers send nothing for them.
- The peers' open, write and flush handlers on what is no file, and their free block counter: `Handlers` is about files, whose errors and counter are those of the client-server handlers.
- Peer sessions with other peers' writes to the same inode between opening and flush: the later flush wins, and nothing is claimed about the earlier one.
- The truncation of an existing file that a misread create opens, and the kernel's name cache: the tree stays as it is, and the lookups of a replay are events of their own before it.
- The list of local addresses that each client-server node appends to: it is written and dumped, never read by a transfer.
- Data blocks as shared objects: they are values inside the lists, so aliasing between lists is not captured.
- The class hierarchy of inodes: one class with a kind stands for all of them, so a field that a kind does not have exists and is never used.
- The pointer from a directory to its parent: it is set and never followed.
- The master object inside the tree of a `Peer`: the peers share the namespace handlers with the client-server version, and the part that talks to a master stays idle.
- Freeing of superseded blocks: the code keeps them, so heaps only grow.
- Upward overflow of the link and lookup counters, and integer widths of sizes before they become transfer counts.
- The size of a directory entry in a reply is libfuse's, 24 bytes plus the name rounded up to 8; libfuse itself, MPI, threads, the kernel, logging, timers, dumps, mounting and argument parsing are not part of this model.
