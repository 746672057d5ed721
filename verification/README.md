# Verification of the FAT32 file system driver and the process kernel

This project models two parts of the operating system and proves properties of them in Dafny 4.11.
`dafny verify dfyconfig.toml` checks all of it. Nothing of the original program is executed.

## What is modelled

**The file system.** `BlockDevice` is the memory-backed image of 2048 clusters of 2048 bytes, copied block
by block. `Fat32.Driver` is the driver: a cached 512-cell allocation table and a directory buffer, both
arrays, over that image, with one method for each operation. `Operations` says for each operation which
return code it gives, which cluster writes it makes and in which order, and which tables it leaves in the
caches (its *plan*). Every driver method is proved to do exactly that, and a ghost log in the driver records
the writes in order. Everything further is proved about the plans:

- `Layout` lays 32-byte entries, 64-entry tables and allocation tables over cluster bytes; `DiskFormat` and
  `EntryBytes` say byte by byte what lies where.
- `Chains` is the theory of linked chains in the allocation table and of the scans for free cells.
- `Structure` and `Preservation` hold the driver invariant: the live directories form a tree, chains are
  terminated and disjoint, headers agree with the parent and names are unique. Two more properties hold as
  long as no operation was cut off: every used cluster belongs to an entry (`NoLeak`), and free clusters show
  no entry in use (`FreeDead`). No operation relies on these two, so every result about the invariant also
  holds on a disk that was cut off and mounted again.
- `Tree` and `Refinement` map a disk to an abstract tree of named files and prove each operation refines the
  abstract one; `Guarantees` lifts this to runs.
- `CrashSafety`, `DeleteCuts` and `HalfFolders` look at every prefix of the write list of an operation, the
  last one at the only prefix that breaks the invariant; `FormatCuts` looks at those of formatting, and
  `LostClusters` at what whole runs leak.
- `Consequences` and `TreeShape` hold round trip, non-interference, conservation, ownership and tree shape.
- `Find`, `Shell` and `Move` are `find`, `cd` and `mv` on top of the driver methods.
- `FileWitnesses` holds inputs, reached from a formatted blank image, on which data or the path is lost.

**The kernel.** `Paging.PageManager` and `Processes.Machine` are the page manager and the process table with
the scheduler as classes whose methods are proved equal to functions on a value of the whole state.
`Scheduling` proves what holds over every run of ticks, creations and destructions, `RoundRobin` the exact
order when the set of processes is fixed, and `Isolation` the separation of processes in physical memory
and the state after boot. `Failures` says what goes wrong after the steps that break the schedule, and
`KernelWitnesses` holds requests, reached from boot, that are such steps. `Contexts` says register by register
what processes start from and resume with.

## What callers must respect

The operations are proved for all inputs that meet these conditions. Each one excludes inputs on which the
program has no defined or no useful behaviour.

- `write` needs room: one free cluster for a folder, ceil(size / 2048) for a file. The scans run to 2048 over
  a table of 512 cells (`src/filesystem/fat32.c:258`, `:297`, `:319`), so without a free cell they read
  past it, and a file then goes to cluster 0.
- Buffers are whole clusters: `write` copies the first cluster whole and `read` fills whole clusters.
- Parents are live directories. Parents without a header in use are covered by `TreeShape.DeadParentRejected`.
- Names are not all zero: the searches ignore the in-use mark, so a zero name matches empty slots.
- New folders carry a zero extension in the request, since the entry made for them always has one
  (`src/filesystem/fat32.c:31`).
- Loads are not empty, do not wrap the 32-bit frame estimate round, start below the kernel and not in the
  stack page. Then at most 15 processes are ever live (`Isolation.BootRuns`), which matters because the search
  reads slot 16 when the current slot is 15 (`src/scheduler/scheduler.c:66-76`). A size that wraps gets there
  (`KernelWitnesses.SixteenthProcess`).
- Any pid may be asked to be destroyed except that of the running process, that of the one due next, and 0
  while slot 0 is free: a free entry has pid 0, so the kernel finds it and destroys it again.
  `Scheduling.DestroyKeepsExactly` shows this is exact, `Failures` what happens otherwise.
- Loading the executable succeeds. `Processes.Machine.CreateUserProcess` also says what a failed load leaves.

## Where the code differs from its comments

The model follows the code.

- `read` returns -1 for a short buffer and 2 for an unknown name; the comment at `src/filesystem/fat32.h:229` says 2 and 3.
- A full directory returns -1 from `write` even when the name already exists.
- The last cluster of a file of several whole clusters is written as zeros (`src/filesystem/fat32.c:327-329`).
  `Consequences.RoundTripExact` says exactly when data survives.
- `paging_free_user_page_frame` writes an uninitialised flag (`src/paging/paging.c:124`) although its comment
  promises a zero entry. The model takes the flag as a parameter named `junk`, and
  `Paging.ReleasedPageHidden` says exactly when the page is hidden.
- `process_destroy` releases through the address "frame index + 0xC0000000", which is in the kernel's page.
  `Isolation.DestroyLeaks` proves what this gives back and what it leaks.
- `cd` compares the first three bytes with ".." and the first four with "root".
- `mv` copies one cluster at most and records 2048 as the size: longer files become one cluster of zeros,
  because the read is refused and its code is not looked at.

## Model

| member | source | states |
|---|---|---|
| Guarantees.FormattedRunRefines | src/filesystem/fat32.c:80-503 | Every run of write, delete, read, read_directory, remount, and writes and deletes cut off after any number of cluster writes and remounted (half-way through a new folder only if that folder is then deleted), on a freshly formatted blank image, refines, step for step and with the same return codes and results, a run of an abstract tree of named files and directories that starts with an empty root |
| Guarantees.RunRefines | src/filesystem/fat32.c:131-503 | The same from any state that keeps the driver invariant; the invariant holds at the end |
| Guarantees.StepRefines | src/filesystem/fat32.c:131-503 | One operation of any kind, cut-off ones included, leaves no chain to be followed out of the map, keeps the invariant and refines the abstract operation; a cut-off one has happened in full once the parent was written and not at all before |
| Guarantees.FormatInv | src/filesystem/fat32.c:80-106 | Formatting a disk whose clusters above the root show no entry in use establishes the invariant with nothing leaked, and gives an empty root directory |
| FormatCuts.FormatCutExact | src/filesystem/fat32.c:74-114 | Formatting cut off after k of its three writes is recovered by the next initialisation if and only if k is 0 or 3; after one or two writes the signature makes every later initialisation take the disk as it is, and it satisfies the invariant for no tree |
| FormatCuts.BlankUnformatted | src/filesystem/fat32.c:74-78 | A blank image is one of the disks this is about |
| Guarantees.BlankDisk | src/filesystem/fat32.c:74-106 | An all-zero image shows no entry in use in any cluster, so it qualifies for formatting |
| Guarantees.RemountsChangeNothing | src/filesystem/fat32.c:74-114 | Remounts may come anywhere in a run: they neither allow nor forbid an operation, and every other report and the final state are the same without them |
| Guarantees.RemountIdle | src/filesystem/fat32.c:108-114 | Remounting between operations leaves disk, cached table and tree exactly as they are |
| Guarantees.RunTidy | src/filesystem/fat32.c:131-503 | Over any run without a cut, every used cluster belongs to an entry and no free cluster shows an entry in use |
| CrashSafety.CrashDuringWrite | src/filesystem/fat32.c:255-363 | Whatever cluster write a write is cut off after, but half-way through a new folder, the disk alone satisfies the driver's invariant and shows, headers included, exactly the tree from before, until the parent is written, and then exactly the tree from after |
| CrashSafety.WriteLeaks | src/filesystem/fat32.c:255-363 | After a write cut off, a cluster is leaked if and only if it was before, or the allocation table is written, the parent is not, and the cluster is of the new chain |
| CrashSafety.WriteLeavesDead | src/filesystem/fat32.c:306-340 | A write cut off leaves free clusters without entries in use if and only if the allocation table is written or none of the data clusters written so far looks like a table with an entry in use |
| FileWitnesses.DirtyCluster | src/filesystem/fat32.c:306-340 | On a formatted blank image, one cluster of data with 0xAA in byte 12, its write cut off after the data, leaves a free cluster with an entry in use |
| HalfFolders.CutKeepsInvExactly | src/filesystem/fat32.c:255-363 | A write cut off keeps the invariant, for some tree, if and only if the cut is not between the parent's write and the write of the new folder's own table, whose cluster then holds no entry in use |
| DeleteCuts.CrashDuringDelete | src/filesystem/fat32.c:411-499 | Whatever cluster write a delete is cut off after, the disk alone satisfies the driver's invariant and shows, headers included, exactly the tree from before (nothing written) or exactly the tree from after |
| DeleteCuts.DeleteLeaks | src/filesystem/fat32.c:435-499 | After a delete cut off, a cluster is leaked if and only if it was before, or the parent is written, the allocation table is not, and the cluster is of the removed entry |
| LostClusters.RunLeaks | src/filesystem/fat32.c:131-503 | Over a run with any number of cuts, what has leaked at the end is exactly what had leaked before and, apart from it, the clusters each cut lost |
| LostClusters.StepLeaks | src/filesystem/fat32.c:131-503 | One operation adds exactly the clusters of its own cut to what has leaked; one that runs to its end adds none |
| DeleteCuts.DeleteLeavesDead | src/filesystem/fat32.c:435-499 | A delete cut off never leaves an entry in use in a free cluster |
| HalfFolders.FolderHalfway | src/filesystem/fat32.c:268-284 | After the parent shows a new folder and before its cluster is written, the tree is sound and shows the folder, empty, if the cluster held no entry in use past slot 1 |
| HalfFolders.HalfFolderBreaks | src/filesystem/fat32.c:268-284 | That disk satisfies the invariant for no tree: the folder's own header is dead, if the cluster held no entry in use |
| HalfFolders.HalfFolderRefuses | src/filesystem/fat32.c:131-136 | Every request with that folder as parent is refused, if the cluster's first entry is not in use: 2 from write, -1 from the others, and nothing is written |
| HalfFolders.HalfFolderRepaired | src/filesystem/fat32.c:411-460 | Deleting that folder succeeds, if the cluster held no entry in use past slot 1, and restores the invariant, the tree and the allocation table from before its creation |
| CrashSafety.WriteOrder | src/filesystem/fat32.c:268-363 | The writes of an admitted request one by one: each part to its cluster of the chain, then the allocation table, then the parent's table, and for a folder its own table last |
| DeleteCuts.DeleteOrder | src/filesystem/fat32.c:435-499 | The writes of a removal one by one: the parent's table, the freed clusters, the allocation table, and for a file its last cluster once more |
| Consequences.RoundTripExact | src/filesystem/fat32.c:290-337 | The stored form of a file agrees with its data if and only if the size is at most one cluster or not a multiple of 2048, or the last 2048 bytes are zeros anyway; otherwise it is all but the last cluster, then zeros |
| Consequences.ReadBackExact | src/filesystem/fat32.c:165-369 | A write followed by a read of the same name succeeds, and the first size bytes read are the ones written if and only if the size is at most one cluster or not a multiple of 2048, or the last 2048 bytes were zeros anyway |
| FileWitnesses.LostCluster | src/filesystem/fat32.c:327-329 | On a formatted blank image 4096 bytes of 1 are written and read back with code 0, and come back different |
| Consequences.WriteThenRead | src/filesystem/fat32.c:165-369 | Reading a file right after a successful write gives code 0 and its stored form, -1 when the buffer is short, and 1 exactly when the name is the directory's own or ".." with no extension |
| Consequences.WriteElsewhere | src/filesystem/fat32.c:213-369 | A write changes neither the code nor the bytes of reading any other name, in any live directory |
| Consequences.DeleteElsewhere | src/filesystem/fat32.c:371-503 | A delete changes neither the code nor the bytes of reading any other name, in any directory that survives |
| Consequences.TablesElsewhere | src/filesystem/fat32.c:213-503 | The table of every live directory but the parent (and the deleted target) is byte for byte the same after a write or a delete |
| Consequences.WriteTakes | src/filesystem/fat32.c:255-337 | A successful write uses exactly ceil(size / 2048) free clusters, one for a folder |
| Consequences.DeleteGives | src/filesystem/fat32.c:455-497 | A successful delete frees exactly as many clusters as the chain of the entry has |
| Consequences.DeleteUndoesWrite | src/filesystem/fat32.c:213-503 | Deleting what was just written succeeds and restores the allocation table cell for cell and the whole tree |
| TreeShape.OwnershipExact | src/filesystem/fat32.c:255-363 | The clusters on chains of live entries are in use and are the recorded ones; they are all clusters in use above the root if and only if nothing has leaked; cells 0 to 2 keep their reserved values |
| TreeShape.ChainsDisjoint | src/filesystem/fat32.c:297-337 | Two live entries share no cluster |
| TreeShape.FileChain | src/filesystem/fat32.c:295-337 | The chain of a file is strictly increasing, ends inside the 512-cell map and has exactly ceil(filesize / 2048) cells |
| TreeShape.LiveIffReachable | src/filesystem/fat32.c:272-284 | The live directories are exactly the ones reachable from the root through directory entries |
| TreeShape.OnePath | src/filesystem/fat32.c:272-284 | No directory is reachable from the root along two different paths |
| TreeShape.Acyclic | src/filesystem/fat32.c:272-284 | No walk of one or more steps down the tree returns to its start |
| TreeShape.ChildAndBack | src/filesystem/fat32.c:29-72 | A child's entry 0 is its parent's entry for it; reading the child by its own name gives the child; reading ".." there gives the parent's table if and only if the child is not itself named ".." |
| TreeShape.DeadParentRejected | src/filesystem/fat32.c:132-136 | Requests whose parent's first entry is not in use are turned away with the code of each operation and write nothing |
| TreeShape.FreeParentDead | src/filesystem/fat32.c:444-494 | As long as no operation was cut off every free cluster is such a parent |
| Preservation.WriteKeepsInv | src/filesystem/fat32.c:213-369 | A write keeps ownership, tree shape, unique names, headers and reserved cells, whatever its code; the code is 0 exactly for an admitted request |
| Preservation.WriteKeepsTidy | src/filesystem/fat32.c:213-369 | A write that runs to its end leaks nothing and leaves no entry in use in a free cluster, if that was so before |
| Preservation.DeleteKeepsInv | src/filesystem/fat32.c:371-503 | A delete keeps the same invariant, whatever its code |
| Preservation.DeleteKeepsTidy | src/filesystem/fat32.c:371-503 | A delete that runs to its end leaks nothing and leaves no entry in use in a free cluster, if that was so before |
| Preservation.TakenOutInv | src/filesystem/fat32.c:432-499 | Once the entry is out of the parent's table the invariant holds for the smaller tree, whatever has become of its clusters and cells |
| Preservation.DeleteAllowed | src/filesystem/fat32.c:482-495 | On a state with the invariant delete never follows a chain out of the map |
| Preservation.WriteIsAdd | src/filesystem/fat32.c:255-363 | An admitted write is, on the raw tables, the addition of one entry heading a fresh chain and nothing else |
| Preservation.DeleteIsRemove | src/filesystem/fat32.c:411-499 | A successful delete is, on the raw tables, the removal of one entry and its chain and nothing else |
| Structure.AddOrderly | src/filesystem/fat32.c:255-363 | Adding an entry on a fresh chain keeps the order of the tree: sound chains, true owners, unique names, matching headers |
| Structure.RemoveOrderly | src/filesystem/fat32.c:432-499 | Taking an entry out of its directory keeps the order of the tree, whatever becomes of its cells |
| Structure.SoundFrame | src/filesystem/fat32.c:255-363 | Bytes outside live directories and cells outside owned chains do not affect the soundness of the tree |
| Structure.OrderlyFrame | src/filesystem/fat32.c:255-363 | Nor do they affect the rest of the invariant |
| Structure.NewTableOk | src/filesystem/fat32.c:29-72 | A new directory table has itself in slot 0, its parent in slot 1 and no other entry |
| Refinement.WriteRefines | src/filesystem/fat32.c:213-369 | write refines the abstract write: -1 for a full directory even when the name exists, 1 for a name clash, otherwise one node (and for a folder one empty directory with a fresh identity) is added |
| Refinement.AdmittedExact | src/filesystem/fat32.c:219-251 | write gets past its checks if and only if the directory has fewer than 62 entries and none of that name and extension |
| Refinement.DeleteRefines | src/filesystem/fat32.c:371-503 | delete refines the abstract delete: 1 for an unknown name, 2 for a folder with entries, otherwise the node and a folder's directory go |
| Refinement.ReadRefines | src/filesystem/fat32.c:165-211 | read returns 1 for the directory's own name and "..", 2 when absent, 1 for a folder, -1 for a short buffer and otherwise the stored bytes; the chain it walks ends inside the map and is no longer than the recorded size calls for |
| Refinement.ReadDirectoryRefines | src/filesystem/fat32.c:131-163 | read_directory finds by name alone, own name and ".." first, and returns the directory of an entry of that name |
| Refinement.ReadDirectoryFirst | src/filesystem/fat32.c:140-159 | Where several entries share a name, read_directory takes the first slot: 1 for a file there, that folder's table otherwise |
| Tree.EntriesExact | src/filesystem/fat32.c:343-363 | The abstract entries are exactly the slots in use, one node for each |
| Tree.FindKeyExact | src/filesystem/fat32.c:387-406 | Scanning slots 2 to 63 finds a non-zero name exactly when the abstract directory has it, although the scan ignores the in-use mark |
| Tree.FullExact | src/filesystem/fat32.c:226-239 | The scan for a free slot fails exactly when the directory has 62 entries |
| Tree.ContentStored | src/filesystem/fat32.c:306-337 | The clusters of a written file, end to end, are its stored form |
| Fat32.Driver.CreateFat32 | src/filesystem/fat32.c:80-106 | Writes the signature block, the first allocation table and the root table, in that order, and leaves both tables in the caches |
| Fat32.Driver.Initialize | src/filesystem/fat32.c:108-114 | Formats exactly when the first block of cluster 0 is not the signature; otherwise only the cached allocation table changes, to the one on disk, and nothing at all changes when they agree |
| Fat32.Driver.Write | src/filesystem/fat32.c:213-369 | Returns the code and makes exactly the ordered cluster writes of the plan, and leaves exactly its caches |
| Fat32.Driver.WriteFolder | src/filesystem/fat32.c:254-288 | The folder branch: lowest free cluster, three writes |
| Fat32.Driver.WriteFile | src/filesystem/fat32.c:290-363 | The file branch: data clusters, allocation table, parent table |
| Fat32.Driver.WriteParts | src/filesystem/fat32.c:295-337 | The filling loop joins the lowest free clusters into one terminated chain and writes each part once, without the scan leaving the map |
| Fat32.Driver.Delete | src/filesystem/fat32.c:371-503 | Returns the code and makes exactly the ordered cluster writes of the plan |
| Fat32.Driver.RemoveFolder | src/filesystem/fat32.c:432-460 | The folder branch: parent, wiped child header, allocation table |
| Fat32.Driver.RemoveFile | src/filesystem/fat32.c:476-502 | The file branch: parent, zeroed chain, allocation table, last cluster again |
| Fat32.Driver.ZeroChain | src/filesystem/fat32.c:482-495 | The clearing loop marks exactly the cells of the chain empty, zeroes exactly its clusters in order, and ends |
| Fat32.Driver.Read | src/filesystem/fat32.c:165-211 | Reloads the cached table, returns the code of the search and copies exactly the chain's clusters to the front of the buffer |
| Fat32.Driver.CopyChain | src/filesystem/fat32.c:197-202 | The copy loop takes one step for each cell of the chain and ends |
| Fat32.Driver.ReadDirectory | src/filesystem/fat32.c:131-163 | Returns the code of the search and the table of the first entry of that name; the caller's buffer is untouched on failure |
| Fat32.Driver.ScanFree | src/filesystem/fat32.c:257-263 | The free scan stops at the lowest free cell, inside the 512-cell map, when one is free |
| BlockDevice.Disk.ReadBlocks | src/inserter/external-inserter.c:13-21 | Returns the addressed bytes of the image |
| BlockDevice.Disk.WriteBlocks | src/inserter/external-inserter.c:23-31 | Overwrites the addressed bytes and no others |
| BlockDevice.Disk.ReadCluster | src/filesystem/fat32.c:120-122 | A cluster read returns that cluster of the image |
| BlockDevice.Disk.WriteCluster | src/filesystem/fat32.c:116-118 | A cluster write replaces one cluster of the image and no other |
| Operations.FirstDead | src/filesystem/fat32.c:231-237 | The scan meets the first slot not in use, or none |
| Operations.FindKey | src/filesystem/fat32.c:243-249 | The scan meets the first slot with that name and extension, used or not, or none |
| Operations.FindName | src/filesystem/fat32.c:140-159 | The scan meets the first slot with that name, whatever its extension, or none |
| Chains.ChainCells | src/filesystem/fat32.c:197-202 | A terminated chain is strictly increasing and inside the map, so following it ends |
| Chains.ChainLink | src/filesystem/fat32.c:197-202 | On a terminated chain each cell holds its successor and the last one the end marker |
| Chains.FreeFromExact | src/filesystem/fat32.c:297-304 | The scan for free cells meets exactly the free cells, each once, in ascending order |
| Chains.JoinChain | src/filesystem/fat32.c:315-337 | Joining ascending free cells makes exactly those cells one terminated chain |
| Chains.JoinExtend | src/filesystem/fat32.c:320-332 | One turn of the filling loop extends the joined chain by one cell |
| Chains.ClearJoin | src/filesystem/fat32.c:482-495 | Clearing a freshly joined chain restores the allocation table cell for cell |
| Chains.ChainFrame | src/filesystem/fat32.c:322-332 | Changing cells outside a chain leaves the chain alone |
| Layout.EntryRoundTrip | src/filesystem/fat32.h:82-98 | A directory entry survives being written out and read back |
| Layout.EntryBytes | src/filesystem/fat32.h:82-98 | Any 32 bytes survive being read as an entry and written out |
| Layout.TableOverlay | src/filesystem/fat32.h:101-103 | Cluster bytes and the 64-entry table laid over them determine each other |
| Layout.FatOverlay | src/filesystem/fat32.h:58-60 | Cluster bytes and the 512-cell allocation table laid over them determine each other |
| Layout.ZeroTable | src/filesystem/fat32.c:97-97 | A cluster of zeros is a table without entries |
| DiskFormat.FatBytes | src/filesystem/fat32.h:58-60 | Cell i of the allocation table is, written and read, the four bytes from 4 * i on, least significant first |
| DiskFormat.TableBytes | src/filesystem/fat32.h:82-103 | Entry i of a table is, written and read, the 32 bytes from 32 * i on: name at 0, extension at 8, attribute at 11, mark at 12, cluster at 20 (high half) and 26 (low half), size at 28, numbers least significant byte first |
| DiskFormat.ImageBytes | src/filesystem/fat32.c:25-27 | Byte i of cluster n lies at 2048 * n + i in the image |
| DiskFormat.FormattedBytes | src/filesystem/fat32.c:80-106 | The clusters a format writes, byte by byte: boot block, the 12 bytes F0 FF FF 0F FF FF FF 0F FF FF FF 0F and zeros, and the root with itself and ".." and zeros; all other clusters stay |
| DiskFormat.SignatureBytes | src/filesystem/fat32.c:9-17 | The boot block holds the five rows of text, zeros, and "Ok" in its last two bytes |
| DiskFormat.SignedExactly | src/filesystem/fat32.c:74-78 | A disk passes for formatted if and only if each of the 512 bytes of its first block is right |
| EntryBytes.WrittenBytes | src/filesystem/fat32.c:273-286 | A new entry, byte by byte: name and extension asked for, attribute 0x10 or 0, mark 0xAA, first cluster, size, zeros; the rest of the parent's table stays. A new folder: the same entry, "..", zeros |
| EntryBytes.DataBytes | src/filesystem/fat32.c:306-337 | The data of a written file, byte by byte: the first cluster and every one but the last copied whole from the buffer, of the last of several size % 2048 bytes, then zeros |
| EntryBytes.LeastClusters | src/filesystem/fat32.c:290-293 | A file takes the least number of clusters that hold it |
| EntryBytes.DeletedBytes | src/filesystem/fat32.c:432-499 | Deleting a file fills its entry and all its clusters with zeros; deleting a folder takes only name, attribute and mark out of its entry and out of the first two entries of its table; the rest stays |
| Find.FindRecursive | src/user_mode/command_list/find.c:42-83 | Terminates on every live tree; answers true if and only if an entry of that name and extension exists at the start or below it, and then with the path of the directory that holds the first one in depth-first slot order; otherwise the caller's path stays |
| Find.FirstUnique | src/user_mode/command_list/find.c:45-81 | That first entry is unique, so the answer is |
| Find.BelowStep | src/user_mode/command_list/find.c:45-81 | An entry is below a directory if and only if it is in it or below one of its sub-directories |
| Shell.Session.Cd | src/user_mode/command_list/cd.c:3-99 | cd loads the first folder of that name and moves the path; nothing changes when no folder has the name; the table is left empty when a file of the same name comes first |
| Shell.Session.CdRoot | src/user_mode/command_list/cd.c:101-117 | Loads the root; on an empty path the path then tells the root |
| Shell.Session.CdRefresh | src/user_mode/command_list/cd.c:119-132 | Reloads the table of the current directory from its header alone and keeps the path |
| Shell.PathStaysRight | src/user_mode/command_list/cd.c:59-98 | After a successful cd the stored path still leads from the root to the loaded directory if and only if the argument is not the directory's own name and is not ".." in a sub-directory whose name starts with "root" |
| FileWitnesses.LostPath | src/user_mode/command_list/cd.c:59-71 | On a formatted blank image, after "cd rootx" and "cd .." the shell is in the root and its path still says "root/rootx" |
| Shell.CdRunTells | src/user_mode/command_list/cd.c:3-99 | After any faithful sequence of cd the stored path leads from the root to the loaded directory |
| Move.Mv | src/user_mode/command_list/mv.c:3-46 | For a file in the current directory and any two arguments, mv leaves exactly the tree of a delete of the first name without extension followed by a write of the carried cluster under the second name, in the current directory or in the folder the second argument names, and nothing changes when that is a file; the final write gets through exactly when its directory is there, has room and not the name; a rename gives back all clusters but one |
| Move.RenameTree | src/user_mode/command_list/mv.c:24-34 | A rename of a file without extension to a name that is not there gets through its final write, even in a full directory; the old name goes, the new one has the carried cluster, the number of entries stays, and every other entry and directory survives |
| Move.MoveTree | src/user_mode/command_list/mv.c:35-45 | A move of a file without extension takes it out of its directory in any case, and puts the carried cluster into the other folder exactly when that has room and not the name; every other entry and directory survives |
| Move.Transfer | src/user_mode/command_list/mv.c:24-45 | Read, delete and write in turn: the tree they leave and the clusters they give back |
| Move.Lift | src/user_mode/command_list/mv.c:26-30 | Read then delete: the buffer holds the file's one cluster or zeros, the tree is that of a delete, and a removed directory is left with a dead header |
| Move.Drop | src/user_mode/command_list/mv.c:34-34 | The final write adds the file and takes one cluster if and only if its parent is still there, has room and not the name |
| Move.RenameKeepsBytes | src/user_mode/command_list/mv.c:14-34 | The carried cluster is the whole file if and only if the file has one cluster and is visible to read, or has one cluster of zeros |
| FileWitnesses.RenameLoses | src/user_mode/command_list/mv.c:8-34 | On a formatted blank image, a file of 2049 bytes of 1 renamed by mv becomes one cluster of zeros, with code 0 |
| FileWitnesses.MoveLoses | src/user_mode/command_list/mv.c:35-45 | On a formatted blank image, a file moved by mv into a folder that has one of its name is gone: the final write is refused |
| Move.EntryRow | src/user_mode/user-shell.c:46-55 | The row scan finds the first slot with that name and extension from slot 2 on |
| Move.ZeroBuffer | src/user_mode/command_list/mv.c:8-13 | The buffer holds only zeros before the read |
| Paging.PageManager.AllocateFrame | src/paging/paging.c:61-108 | First fit: marks the lowest free frame, maps it with the user flags and returns it, or returns -1 and changes nothing |
| Paging.PageManager.FreeFrame | src/paging/paging.c:110-136 | Gives back the frame the page shows and answers whether it was taken |
| Paging.PageManager.AllocateCheck | src/paging/paging.c:52-58 | Compares the amount with the free counter |
| Paging.PageManager.UpdateEntry | src/paging/paging.c:32-42 | Sets one entry of one directory and no other |
| Paging.PageManager.CreateDirectory | src/paging/paging.c:151-186 | Takes the first unused directory and maps the kernel in it |
| Paging.PageManager.FreeDirectory | src/paging/paging.c:188-204 | Clears the directory and marks it unused, and always answers false |
| Paging.RunKeepsFrames | src/paging/paging.c:61-136 | Over any run of allocations for unmapped pages and releases of mapped ones no frame is mapped twice, the frame map is exactly the set of mapped frames, the counter is the number of unset cells, and free frames and mapped pages add up to 32 |
| Paging.FramesCounted | src/paging/paging.c:61-136 | Every frame is either counted free or mapped by exactly one page |
| Paging.CheckedAllocations | src/paging/paging.c:52-108 | After a positive check for n frames the next n allocations of unmapped pages succeed, on frames distinct from each other and from all in use |
| Paging.AllocateKeeps | src/paging/paging.c:61-108 | An allocation succeeds if and only if the counter is positive, and then takes a frame nothing maps |
| Paging.AllocatedPage | src/paging/paging.c:89-107 | An allocation makes its page present, writable, open to the user and 4 MiB large, showing a frame that was not taken, and leaves every other page alone |
| Paging.MappedPage | src/paging/paging.c:89-107 | Every page accounted for has those flags and shows its frame |
| Paging.PageRange | src/paging/paging.c:38-38 | Page i holds the addresses from 4 MiB * i to 4 MiB * (i + 1) |
| Paging.NewDirectoryMapsKernel | src/paging/paging.c:171-178 | In a new directory, and in the kernel's own, page 0x300 is present, writable, 4 MiB large, not open to the user, and shows frame 0 |
| Paging.DroppedDirectory | src/paging/paging.c:195-201 | A directory given back is unused and shows nothing; the others stay |
| Paging.ReleaseKeeps | src/paging/paging.c:110-136 | Releasing a mapped page gives back its frame and disturbs no other mapping |
| Paging.ReleasedPageHidden | src/paging/paging.c:124-130 | A released page is no longer translated if and only if the uninitialised flag variable does not happen to say present and user; its frame bits become 0 |
| Processes.Machine.TimerIsr | src/scheduler/scheduler.c:26-41 | Saves the interrupted context with the active page directory into the running process, then switches; the context resumed is that of the new current process |
| Processes.Machine.SwitchToNext | src/scheduler/scheduler.c:58-91 | Makes the precomputed process current and running, precomputes the next by the wrapping search and loads its page directory |
| Processes.Machine.SaveContext | src/scheduler/scheduler.c:52-56 | Replaces the context of the running process and nothing else |
| Processes.Machine.RunningSlot | src/process/process.c:11-19 | The first used slot that is running, or null |
| Processes.Machine.InactiveIndex | src/process/process.c:132-139 | The first unused slot, or -1 |
| Processes.Machine.CreateUserProcess | src/process/process.c:23-105 | The four refusals in order, and on success the new process, its two frames, its directory and the restored CR3; on a failed load the slot stays used and CR3 switched |
| Contexts.CreationStarts | src/process/process.c:43-101 | A new process has its slot as pid, the name asked for, and its two frames noted; it starts at its load address with cs 0x1B, ss, ds, es, fs and gs 0x23, esp and ebp 0xBFFFFFFC, flag bits 1 and 9 set, on its own directory; nothing else changes |
| Contexts.CreationAnswers | src/process/process.c:25-41 | Which code comes back: 1 with 16 processes, 2 for a load address of 0xC0000000 or above, 3 for a size that needs more 4 MiB frames than are free or more than 8 in all, 4 for a failed load, else 0 |
| Contexts.RefusedUntouched | src/process/process.c:25-41 | A creation answered 1, 2 or 3 changes nothing |
| Processes.Machine.DestroyProcess | src/process/process.c:107-130 | For any pid: nothing without an entry of that pid; otherwise frees the slot, releases what the noted addresses show and clears the directory of the first such entry |
| Processes.Machine.ReleaseFrames | src/process/process.c:114-118 | The release loop over the eight noted addresses |
| Scheduling.Fair | src/scheduler/scheduler.c:58-91 | With creations and permitted destructions interleaved freely, a process that stays live runs within 16 ticks |
| Scheduling.RunsInTurn | src/scheduler/scheduler.c:58-91 | It runs after at most as many further ticks as its slot is away from the precomputed one |
| RoundRobin.EachExactlyOnce | src/scheduler/scheduler.c:58-91 | With n live processes and only ticks, every n consecutive ticks run each of them exactly once |
| Scheduling.ContextKept | src/scheduler/scheduler.c:26-91 | Over any run the context a process resumes with is exactly the one saved when it was last interrupted, or its initial one |
| Contexts.TickSaves | src/scheduler/scheduler.c:26-56 | A tick saves the general registers, eip, cs and eflags of the interrupted frame each in its own place, esp from the frame's stack pointer, ss 0x23 and the active directory, into the slot of the process that ran, and touches no other context |
| Contexts.ResumesWhereInterrupted | src/scheduler/scheduler.c:26-91 | Over any run a process that stays live resumes with exactly the registers of the last frame in which it was itself interrupted, on its own directory, or those it had if it never was |
| Scheduling.DirectoryKept | src/scheduler/scheduler.c:26-91 | A live process keeps its page directory over any run, however often it is interrupted |
| Scheduling.OneRunning | src/process/process.c:11-19 | Exactly one live process is running, it is the one the kernel finds, and CR3 holds its page directory |
| Scheduling.RunScheduled | src/scheduler/scheduler.c:26-91 | The scheduling invariant (one running, pid equals slot, distinct directories, counts equal used slots, CR3 of the current process) holds after every run of ticks, creations and permitted destructions |
| Scheduling.TickKeeps | src/scheduler/scheduler.c:26-91 | A tick keeps the scheduling invariant |
| Scheduling.TickEffect | src/scheduler/scheduler.c:26-91 | What a tick does to each slot |
| Scheduling.TickNext | src/scheduler/scheduler.c:65-83 | The precomputed process is the nearest other live one going upwards round the slots, if there is one |
| Scheduling.CreateKeepsExactly | src/process/process.c:43-105 | An accepted creation keeps the scheduling invariant if and only if the load succeeds and at most 14 processes are live |
| Failures.WrongDirectory | src/process/process.c:63-71 | After a failed load the new directory is active while the old process runs, and the next tick saves it as that process's own |
| Failures.LastSlotTaken | src/process/process.c:43-60 | A creation accepted with 15 live processes takes slot 15 |
| Failures.SearchLeavesTable | src/scheduler/scheduler.c:65-77 | With all 16 slots taken, slot 15 becomes the precomputed one after as many ticks as it is away, and the search after the next tick would start at slot 16 |
| KernelWitnesses.SixteenthProcess | src/process/process.c:37-60 | From boot, after 14 more shells, a request whose size wraps the frame estimate round to 0 is accepted as a 16th process; the schedule breaks, and further ticks lead the search to slot 16 |
| Scheduling.DestroyKeepsExactly | src/process/process.c:107-130 | For any pid, destruction keeps the scheduling invariant if and only if the pid is neither that of the running process nor of the precomputed next one, and not 0 while slot 0 is free |
| Scheduling.PidFound | src/process/process.c:107-109 | A pid finds its own slot when that is in use, slot 0 when it is 0, and otherwise nothing |
| Scheduling.DestroyFree | src/process/process.c:107-128 | Destroying pid 0 while slot 0 is free leaves the process table as it is and takes one live process off the count |
| Failures.NoneRunning | src/process/process.c:11-19 | After the running process is destroyed none is found running, so no tick can save a context |
| Failures.FreeSlotRuns | src/scheduler/scheduler.c:58-91 | After the precomputed next process is destroyed the next tick makes its free slot current, with no page directory |
| KernelWitnesses.FirstShellTwice | src/process/process.c:107-128 | From boot, after two more shells, two ticks and the end of the first shell, all allowed, asking for pid 0 again breaks the count of live processes |
| KernelWitnesses.LastProcess | src/process/process.c:107-130 | A shell destroyed right after boot leaves the schedule broken, and no process is found running |
| Processes.Search | src/scheduler/scheduler.c:65-83 | The wrapping search ends on a ready slot or back at the current one |
| Isolation.FramesNeededExact | src/process/process.c:146-149 | The 32-bit frame estimate is two if and only if the executable has 1 byte to 4 MiB |
| Isolation.FramesAtLeast | src/process/process.c:146-149 | The estimate is at least two if and only if the executable is not empty and the 32-bit sum does not wrap |
| Isolation.CreateIsolated | src/process/process.c:43-60 | An accepted creation succeeds in both allocations, on two different frames nothing mapped before, which become the code and stack pages of the new process; the free counter falls by two, and all processes stay isolated |
| Isolation.SlotLeft | src/process/process.c:25-45 | Whenever a suitable load is accepted at most 14 processes are live: the frames run out before the slots |
| Isolation.RunIsolated | src/process/process.c:23-105 | Any run of ticks and creations of suitable loads is allowed, however many creations it asks for; after it every process owns its own code and stack frames and nothing else, the schedule is intact, and every directory in use, the active one included, maps the kernel |
| Isolation.ActiveKernel | src/paging/paging.c:171-178 | On every scheduled and isolated state the directory in CR3 maps the kernel |
| Isolation.FramesApart | src/paging/paging.c:61-108 | Two user pages the processor translates never show the same frame, and only the kernel's directory shows frame 0 |
| Isolation.BootGood | src/kernel/kernel.c:30-63 | Kernel setup ends scheduled and isolated, with the process "shell" alone in slot 0 and 29 frames free |
| Contexts.ShellStarts | src/kernel/kernel.c:33-63 | After boot the shell is about to run from address 0 with the segments, stack and flags of a new process, on directory 0 |
| Isolation.BootRuns | src/scheduler/scheduler.c:65-77 | After boot no run of ticks and suitable creations ever takes slot 15, so the search never leaves the process table, and the directory in CR3 maps the kernel after every such run |
| Isolation.DestroyLeaks | src/process/process.c:114-121 | Destruction as written: the stack frame stays taken with no page showing it, the kernel's frame 0 becomes the next one handed out, the counter grows by one, or by two for a process loaded in page 0, and no account of the frames makes the result isolated |
| Isolation.ReleaseEffect | src/process/process.c:114-118 | Exactly which frames the release loop of a destruction gives back |

## Left out

- ATA port input and output, interrupts, descriptor tables, TLB flushes and the register switch itself; a context is an opaque value with its entry point, stack, selectors and page directory.
- Addresses of page directories: CR3 is one variable holding a directory number, so the two conversions by 0xC0000000 in `src/paging/paging.c:206-219` cancel and are not modelled.
- The statement at `src/filesystem/fat32.c:496`, which indexes the allocation table with the end marker: no cell of the table corresponds to it.
- Guarantees.StepRefines: writes without enough free clusters are outside its precondition, for the reason given above.
- Guarantees.RunRefines: runs do not go on over a folder cut off half-way until it is deleted again; `HalfFolders` says what such a disk shows and refuses.
- HalfFolders.FolderHalfway: says nothing of a folder whose cluster, free until then, held bytes that look like entries; such a half-made folder shows them.
- Refinement.ReadDirectoryRefines: with several entries of one name and different extensions the abstract tree, which has no slot order, allows any of them; `Refinement.ReadDirectoryFirst` says which one it is on disk.
- Processes.Machine.DestroyProcess: where the entry found is free its directory is null, and the releases read and write through address 0; what that leaves of the page manager is a parameter named `stray`, and nothing else is taken to change.
- Isolation.RunIsolated: destructions are excluded, because `process_destroy` as written breaks isolation (`Isolation.DestroyLeaks`).
- Isolation.CreateIsolated: loads that are empty or wrap the frame estimate round are excluded, since the estimate is then less than the two frames taken, as are loads in the stack page, which map both frames to one page.
- Processes.Machine.CreateUserProcess: the read of the executable is its return code only; the bytes it puts into memory are not modelled.
- Find.FindRecursive: the depth of the tree must fit the ten-slot path; `find` itself, which prints the answer, is left out.
- Shell.Session.Cd: argument names are padded with zeros and the path has room; a missing folder name after a file of the same name leaves an empty table, from which no further `cd` is considered.
- Move.Mv: the first argument names a file in the current directory. For a missing name the original indexes the table with -1, and for a folder its buffer has no bytes and the write reads past it.
- Fat32.Driver.Read: the caller's buffer is neither the disk image nor the cached table.
- `cp`, `ls`, `cat`, command parsing, the framebuffer, the keyboard and the clock: user interface.
- The byte loops of `memcpy`, `memset` and `memcmp`: sequence operations here.
- The null directory of `paging_create_new_page_directory`: with 32 directories and 16 processes it is not reached.
- Dates, the undelete mark and commented-out code.
