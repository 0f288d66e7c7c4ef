# A verified model of CacheFS and of three iozone components

CacheFS is a FUSE file system that keeps a write-through, write-allocate block cache in front of a
NAS directory (`src/cachefs.c`), with its metadata in two SQL tables (`src/metadata/meta.c`).  The
repository also carries iozone's asynchronous I/O library (`libasync.c`), its spreadsheet writer
(`libbif.c`) and the metadata benchmark `fileop.c`.  This project models these five, and the loops of
`iozone.c` that read a file through the library, and proves what they are for.

The main results, over all inputs and all runs:

* **The cache cannot be seen.**  For every run of opens, reads, writes, shrinking truncates,
  releases, creations, removals, outside writes to closed files, and mounts with block sizes that find
  tracked blocks whole, the NAS holds what it would hold without a cache, and every read that its window
  covers returns, as far as the NAS file goes, what a plain read would (`Runs.CacheIsTransparent`,
  `Runs.CloseToOpen`); the same is proved of the object whose methods make these calls in place
  (`CacheFsRuns.PerformAll`).
* **A copy lasts.**  Until the file is unlinked, or an open finds it missing or strictly newer on the NAS,
  no tracked block is forgotten or fetched again, whatever happens in between (`History.CopyLasts`); and
  every byte and every count a read hands back is stated, above the end of the file as well
  (`ReadBytes`, `ReadCounts`).
* **Where that ends.**  For cache names shared by two paths or with the database, for another block size,
  for reads, writes, truncates, the freshness check and the value a read returns the conditions are exact:
  the promise is kept if and only if they are met (`Limits`, `ReadCounts`).
* **The books.**  Three redundant counters agree in every reachable state and survive a restart with the
  same block size, and another one exactly when no block is held; `delete_block` and `delete_blocks` break
  them exactly when they are given blocks that are not there.
* **Pointers.**  The read list, the in-use list and the write queue of libasync are kept as linked
  heap nodes; every entry is in one place, none is freed twice, and the list moves as the read-ahead
  policy says; reading a whole file, forward or backward, submits every record once (`AsyncScan`).  One
  kind of call loses the tail pointer; which series of calls avoid it is an if and only if.
* **The file format** of libbif is given byte by byte and reads back exactly within sixteen bits and 255
  characters; **fileop** leaves the tree as it found it, and every sample it reports is the time between
  the readings around the call it is about.

## Files

| file | content |
|---|---|
| `Posix.dfy` | files as byte strings; pread, pwrite, ftruncate |
| `PathName.dfy`, `CacheHelp.dfy` | cache file names; block and window arithmetic |
| `MetaModel.dfy`, `Metadata.dfy` | the metadata as a value, and the class over the two tables |
| `CacheModel.dfy`, `CacheFs.dfy` | the file operations as functions on a state, and the class that performs them in place |
| `Coherence.dfy`, `ReadProofs.dfy`, `ReadCounts.dfy`, `ReadBytes.dfy` | what the operations keep, and what they return |
| `Runs.dfy`, `History.dfy`, `Limits.dfy`, `CacheFsRuns.dfy` | whole runs; how long a copy lasts; exact conditions; runs on the object |
| `ReadAhead.dfy`, `Scans.dfy`, `AsyncEntry.dfy`, `AsyncCache.dfy`, `AsyncScan.dfy` | the read-ahead policy, scans with it, the entries and their lists, the library, whole files read with it |
| `Bif.dfy` | the record format, its reader, the writer |
| `FileTree.dfy`, `FileNames.dfy`, `FileopStats.dfy`, `FileTimes.dfy`, `Fileop.dfy` | fileop's tree, names, statistics, timing and tests |

Each imperative method is proved to do what a function on values says, and the theorems are about
these functions.  The clock, the contents of fresh memory (`junk`, `behind`, `stack`, `was`), the NAS as other
clients change it, and the file behind asynchronous reads are arguments.  `done == false`, or `Spins`,
stands for a C call that never returns: eviction is commented out, so a full cache is waited for in a
loop that changes nothing.  Some methods and lemmas begin with a `hide` statement, which only keeps
definitions a proof does not need away from the solver.

Where code and comments differ, the code is followed.  The comment of `cfs_read` promises "exactly the
number of bytes requested"; it returns the bytes of the aligned window, which `ReadCounts.FullCountExactly`
makes exact and `Limits.ShortFileReadTwice` shows on a file shorter than a block.  The fields called
`hi` in libbif hold the low bytes.

## Model

| member | source | states |
|---|---|---|
| `PathName.FlattenInPlace` | src/cachefs.c:80-90 | The two-pointer loop, on the buffer: leaves the path's first character followed by the rest without its slashes, NUL-terminated, and nothing behind the new NUL changed. |
| `PathName.FlattenIdempotent` | src/cachefs.c:80-90 | A cache name flattens to itself. |
| `PathName.FlattenPath` | src/cachefs.c:80-90 | The cache name of an absolute path is a slash and its components run together. |
| `PathName.FlattenCollision` | src/cachefs.c:80-90 | Two absolute paths share a cache name if and only if their components run together to the same string; so paths of one component never collide. |
| `PathName.FlattenCollides` | src/cachefs.c:80-90 | Files of different directories can collide: `/a/bc` and `/ab/c`. |
| `CacheHelp.AlignLower` | src/cacheHelp.c:4-8 | The one multiple of the block size within a block below the offset. |
| `CacheHelp.AlignedSize` | src/cachefs.c:549-553 | The window length: the one multiple of the block size from the size up to less than a block above it. |
| `CacheHelp.WindowFitsAligned` | src/cachefs.c:548-553 | A request at a block-aligned offset always lies inside the window sized from its length alone. |
| `CacheHelp.OffsetsDistinct` | src/cachefs.c:559-564 | The offsets of a window are pairwise distinct. |
| `MetaModel.CreateFileConserves` | src/metadata/meta.c:291-331 | `create_file`, new name or refused by UNIQUE, keeps every local_size at block size times block count and the running counter at their sum. |
| `MetaModel.InsertBlockConserves` | src/metadata/meta.c:333-402 | So does `insert_block`, succeeding or refused (offset already there, or no such file). |
| `MetaModel.DeleteFileConserves` | src/metadata/meta.c:415-473 | So does `delete_file` with its cascade, the missing row read as 0. |
| `MetaModel.DeleteBlockConserves` | src/metadata/meta.c:475-540 | `delete_block` keeps the books if and only if the block was tracked: the subtraction is unconditional. |
| `MetaModel.DeleteBlocksConserves` | src/metadata/meta.c:542-553 | `delete_blocks` keeps the books if and only if every offset is tracked and none repeats. |
| `MetaModel.WriteBlksUpserts` | src/metadata/meta.c:679-695 | `write_blks` is an exact upsert even for lists with repeats and though its bitmap goes stale: the tracked set becomes the union, both counters grow by the new blocks alone, other files are untouched; without the file nothing changes. |
| `MetaModel.PerformConserves` | src/metadata/meta.c:291-553 | Each of the seven routines, for all arguments, keeps the books if and only if it is not a deletion of untracked or repeated blocks. |
| `MetaModel.RunConserves` | src/metadata/meta.c:182-215 | After every run of lawful routines from the empty database the counter is the block size times all blocks held, and what `init_cache_used_size` recomputes after a restart is the whole state that was lost. |
| `MetaModel.RestartConserves` | src/metadata/meta.c:182-215 | A restart with another block size keeps the books if and only if no block is held or the size is the same. |
| `MetaModel.ConservedUsed` | src/metadata/meta.c:182-215 | From the books: the counter is the block size times all blocks, and no file's local_size exceeds it. |
| `Metadata.Database.constructor` | src/metadata/meta.c:247-289 | The empty tables satisfy their constraints and the counter is zero. |
| `Metadata.Database.Reopen` | src/metadata/meta.c:182-215 | Another process on the same tables with a block size of its own: the counter, 0 at first, becomes the sum over the rows. |
| `Metadata.Database.IsFileInCache` | src/metadata/meta.c:555-604 | Answers whether the file has a row. |
| `Metadata.Database.IsBlkInCache` | src/metadata/meta.c:606-658 | Answers whether the block is tracked for the file. |
| `Metadata.Database.CreateFile` | src/metadata/meta.c:291-331 | On the two tables with their UNIQUE, NOT NULL and foreign keys: acts as MetaModel.CreateFile, -1 if the name is taken. |
| `Metadata.Database.InsertBlock` | src/metadata/meta.c:333-402 | Acts as MetaModel.InsertBlock; -1, and no counter moved, when a constraint refuses the row. |
| `Metadata.Database.InsertBlocks` | src/metadata/meta.c:404-413 | Loop over `insert_block`: acts as MetaModel.InsertBlocks. |
| `Metadata.Database.DeleteFile` | src/metadata/meta.c:415-473 | Removes the row and, by cascade, its blocks: acts as MetaModel.DeleteFile. |
| `Metadata.Database.DeleteBlock` | src/metadata/meta.c:475-540 | Acts as MetaModel.DeleteBlock. |
| `Metadata.Database.DeleteBlocks` | src/metadata/meta.c:542-553 | Loop over `delete_block`: acts as MetaModel.DeleteBlocks. |
| `Metadata.Database.AreBlocksInCache` | src/metadata/meta.c:660-672 | Fills the bitmap with one answer per offset and returns whether all were hits. |
| `Metadata.Database.WriteBlks` | src/metadata/meta.c:679-695 | The loop over the bitmap made beforehand comes to the upsert: union of the sets, counters moved by the new blocks. |
| `Metadata.Database.InitCacheUsedSize` | src/metadata/meta.c:182-215 | Sets the counter to the sum of local_size over the rows; with no rows it stays as it is. |
| `CacheModel.StoreIsCacheWrite` | src/cachefs.c:489-523 | Storing one missing block is `cfs_cacheWrite` of one block. |
| `CacheModel.ReadBackFits` | src/cachefs.c:643-664 | The read-back of a write never overruns its buffer, and its size does not wrap for a write of at least one byte: it is the window cut at the NAS end of file. |
| `Coherence.PatchAgrees` | src/cachefs.c:507-523 | A change of the NAS file inside a window, followed by storing the window in the cache, leaves every tracked block right, those of the window and all others. |
| `Coherence.CacheWriteEffect` | src/cachefs.c:489-523 | `cfs_cacheWrite` of whole blocks: the tracked set becomes the union with the window, the counter moves by the blocks that were not there, the bytes go to the cache file, and nothing else changes. |
| `Coherence.WriteEffect` | src/cachefs.c:626-672 | `cfs_write` is write-through and write-allocate: the NAS gets exactly the spliced bytes whatever the cache does; it returns if and only if the cache is not full, and then every block of the window is tracked. |
| `Coherence.WriteKeepsCoherence` | src/cachefs.c:626-672 | A write whose window covers what it changes keeps the file coherent, tracked blocks outside the window included. |
| `Coherence.ShrinkKeepsCoherence` | src/cachefs.c:1082-1099 | A shrinking `cfs_ftruncate` keeps the file coherent although it never touches the block table. |
| `ReadProofs.StoreKeepsCoherence` | src/cachefs.c:606-607 | Storing one block that copies the NAS, garbage behind the end of file included, keeps the file coherent. |
| `ReadProofs.BitmapStays` | src/cachefs.c:598-609 | The bitmap made before the loop stays right for the blocks ahead while those behind are being stored. |
| `ReadProofs.MissingIsWindowLess` | src/cachefs.c:556-571 | What the bitmap calls missing is the window less what is tracked, each block once. |
| `ReadProofs.FillCopies` | src/cachefs.c:596-610 | The block-by-block loop, for every mixture of hits and misses: NAS untouched, coherence kept, every buffer byte below the NAS end of file the NAS byte. |
| `ReadProofs.FillBooks` | src/cachefs.c:596-610 | The loop fetches the missing blocks once each, in order, until none is left or the cache is full, and tells when it returns. |
| `ReadProofs.ReadIsRight` | src/cachefs.c:541-614 | `cfs_read` of any request: NAS and coherence are kept, spinning or not; if the window covers what the file has of the request, the bytes handed back that lie inside the NAS file are those of a plain pread; for a window inside the file the return value is the window's length. |
| `ReadProofs.ReadBooks` | src/cachefs.c:541-614 | `cfs_read` of any request fetches exactly the blocks of the window that are not tracked, each once, and tracks the whole window when it returns. |
| `ReadProofs.BehindUnused` | src/cachefs.c:611 | What memory holds behind the aligned buffer matters only to a request that reaches there. |
| `ReadCounts.ReadReturnsCount` | src/cachefs.c:592-613 | What `cfs_read` returns, for every request and every mixture of hits and misses: block by block of the window what the cached file has of a hit and the NAS file of a miss, though the cached file grows on the way. |
| `ReadCounts.PlainCountExactly` | src/cachefs.c:592-613 | The return value is never below what a plain read of the window returns, and equals it if and only if no tracked block of the window reaches behind the NAS end of file with the cached file reaching into that part of it. |
| `ReadCounts.FullCountExactly` | src/cachefs.c:525-613 | For any request inside the file the call returns exactly `size`, as its comment promises, if and only if that is whole blocks, or the request starts at a block and ends with the file, and the block at the end of file is not tracked, or is but the cached file ends there too. |
| `ReadBytes.ReadBytesExactly` | src/cachefs.c:548-611 | Every byte handed back by any read that returns, above the end of the file as well: of a tracked block the cached file's byte, of any other the NAS file's, past the end of that file what malloc left, and behind the buffer what memory holds. |
| `ReadBytes.FtruncateEffect` | src/cachefs.c:1082-1099 | `cfs_ftruncate`: NAS file and cached file are both exactly that long, each its own beginning followed by zeros where it was shorter; tables, handles and all other files stay. |
| `ReadBytes.ShrunkReadsPlain` | src/cachefs.c:1082-1099 | After a shrink any read that returns counts what a plain read of its window counts, and nothing that was cut off comes back: behind the new end the buffer is as malloc left it. |
| `Runs.OpenKeeps` | src/cachefs.c:393-484 | `cfs_open` leaves the file coherent, and every other file as right as it was. |
| `History.OpenEffect` | src/cachefs.c:420-468 | `cfs_open` of a file the NAS does not have drops row, blocks and cached copy and fails; any other keeps a copy that is not older than the NAS file whole and as it is, and makes an empty one with a new row otherwise; the counter moves by the dropped row's local_size, nothing of other files moves. |
| `Runs.StepKeeps` | src/cachefs.c:393-1099 | Every step (open, any read, write, shrinking truncate, release, mknod, unlink, mount with sizes of its own, outside write and removal) keeps the invariant: well-formed tables, the database's file apart, every open file coherent, every closed one coherent unless its modification time gives it away, no block fetched twice. |
| `Runs.StepConserves` | src/metadata/meta.c:182-215 | Every step keeps the books, a mount if and only if it keeps the block size or finds no block. |
| `Runs.CloseToOpen` | src/cachefs.c:444-465 | In every reachable state of every run each open file is coherent, and a closed one is unless its modification time says otherwise. |
| `Runs.CacheIsTransparent` | src/cachefs.c:541-672 | For every run on paths with files of their own in the cache directory, whatever the block sizes of its mounts: the NAS holds what it would hold without a cache, and each read whose window covers it returns, as far as the NAS file goes, what a plain read would return at that point of the run without a cache. |
| `Runs.RunRefines` | src/cachefs.c:214-228 | The NAS contents after any run are those of the run without a cache. |
| `Runs.UsedIsBlocks` | src/metadata/meta.c:182-215 | In every reachable state the counter is the block size times all blocks held, and a mount with the same sizes would recompute exactly it, provided mounts so far kept the block size or found no block. |
| `Runs.FetchAtMostOnce` | src/cachefs.c:598-609 | Between two purges no block of a file is fetched twice, and block size times the fetches never exceeds what the file adds to the counter, the latter as long as mounts keep the block size or find no block. |
| `History.StepLasts` | src/cachefs.c:393-1099 | Every step, unless it unlinks the file or is an open that finds the NAS file missing or strictly newer, keeps a cached copy: each tracked block stays tracked, the bytes of each stay but for those a write or truncate is there to change, and nothing tracked is fetched. |
| `History.EndsIt` | src/cachefs.c:434-464 | Each of those steps drops the copy or begins an empty one. |
| `History.CopyLasts` | src/cachefs.c:393-1099 | Over any part of a run without such a step (opens, releases, reads, writes, truncates, mounts and outside changes in any order) a copy keeps its tracked blocks, none of them is fetched again, and its share of the counter does not shrink. |
| `History.NeverRefetched` | src/cachefs.c:598-609 | So between two such steps no block of a file is fetched twice, however often it is closed and opened. |
| `History.HandlesInRun` | src/cachefs.c:742-766 | The open handles after a run are those opened, where there was a file to open, and not released since; block size and capacity are those of the last mount. |
| `History.StepDates` | src/cachefs.c:393-1099 | Every file a step changes, on the NAS or in the cache, bears a modification time within the step; all others keep theirs. |
| `Runs.RunsExist` | src/cachefs.c:393-770 | From every fresh mount with room for more than a block, every file but the database's namesakes can be opened, read, written and closed: the theorems about runs are about something. |
| `Runs.Progress` | src/cachefs.c:511-517 | A read of any request, lacking m blocks of its window, returns if and only if m is 0 or used + block size * (m - 1) is below the capacity. |
| `Runs.CapacityBound` | src/cachefs.c:511-519 | In every reachable state of a run whose mounts all have the same sizes, used stays below the capacity plus the larger of a block and the largest write window. |
| `Limits.WriteSafeExactly` | src/cachefs.c:632-664 | A write keeps the cache right from every coherent state if and only if it is empty, or its window covers it and starts at or before the NAS end of file. |
| `Limits.FtruncateSafeExactly` | src/cachefs.c:1091-1094 | A truncate keeps the cache right from every coherent state if and only if it does not lengthen the file. |
| `Limits.FreshnessExactly` | src/cachefs.c:444-458 | Comparing modification times detects every outside write if and only if the write's time is strictly later than the cached copy's, or nothing is tracked that a read would ask for. |
| `Limits.ReadSafeExactly` | src/cachefs.c:546-611 | A read hands back the file's bytes in every coherent state, whatever memory holds behind the aligned buffer, if and only if it asks for nothing, lies inside its window, or the file ends with the window at the latest. |
| `Limits.RemountSafeExactly` | src/cachefs.c:1263 | Mounting with another block size keeps the cache right, whatever the files hold, if and only if every new block the table will call a hit lies in tracked blocks of the old size. |
| `Limits.RemountSafeForAll` | src/cachefs.c:1263 | Whatever is tracked under the old block size, it is safe if and only if the new one is no larger. |
| `Limits.SharedNameRun` | src/cachefs.c:393-614 | For any two paths with one cache name: a run that opens and reads the first file, then the second, and gets the first one's byte for the second. |
| `Limits.DatabaseOpened` | src/cachefs.c:1289-1297 | The database lies in the cache directory: for any path that flattens to its file, or to one SQLite keeps beside it, a run of one open makes that file the cached copy. |
| `Limits.TransparentExactly` | src/cachefs.c:80-90 | In every run on a set of paths the database keeps its file to itself and the cache cannot be seen, if and only if no two of the paths share a cache name and none has a name of the database's. |
| `CacheFs.CacheFs.CacheWrite` | src/cachefs.c:489-523 | In place: takes the object's state to the model's, or reports that the C loop would never end, if and only if the cache is full. |
| `CacheFs.CacheFs.Remount` | src/cachefs.c:1263-1318 | A new process on the NAS, cache directory and database as they were left, with sizes of its own: the state becomes that, the counter recomputed. |
| `CacheFs.CacheFs.Open` | src/cachefs.c:393-484 | In place: existence and freshness checks, purge, new row and file; the state becomes CacheModel.Open of the old one, and it fails if and only if the NAS file is missing. |
| `CacheFs.CacheFs.Read` | src/cachefs.c:541-614 | In place, with the offset array, the bitmap and the aligned buffer, for every request, also one that reaches behind its window: state, return value and bytes are CacheModel.Read's; the rest of the caller's buffer is untouched. |
| `CacheFs.CacheFs.MakeBitmap` | src/cachefs.c:556-578 | The offset array and the answers of the database: one per block of the window, and whether all are hits. |
| `CacheFs.CacheFs.FillLoop` | src/cachefs.c:596-610 | The block loop on the array is, turn by turn, the model's recursion. |
| `FillSteps.PendingTurn` | src/cachefs.c:596-610 | One turn of the loop on the array leaves the same outcome pending. |
| `CacheFs.CacheFs.Write` | src/cachefs.c:626-672 | In place: write-through, read-back of the window, cache update, as CacheModel.Write. |
| `CacheFs.CacheFs.Ftruncate` | src/cachefs.c:1082-1099 | In place: both files cut or extended, tables untouched. |
| `CacheFs.CacheFs.Release` | src/cachefs.c:742-766 | In place: the handle closed; `fallocate -d` keeps the bytes and may touch the cache file's modification time. |
| `CacheFs.CacheFs.Mknod` | src/cachefs.c:178-202 | In place: a new empty NAS file, unless there is one. |
| `CacheFs.CacheFs.Unlink` | src/cachefs.c:214-228 | In place: row, blocks, cached file and NAS file removed. |
| `CacheFsRuns.Perform` | src/cachefs.c:393-1099 | Any enabled step of a run, made as a call on the object, takes the object's state to the run's next one and keeps the invariant; a read hands back the model's bytes. |
| `CacheFsRuns.PerformAll` | src/cachefs.c:393-1318 | The steps of any run made one after the other on the object: its NAS is then that of the run without a cache, its handles are those opened and not released, and every read handed back what a plain read would have at that point, if its window covers it. |
| `ReadAhead.AlwaysBounded` | example/iozone3_487/src/current/libasync.c:400-475 | For a maximal depth of at least 1 and every series of calls, whatever their offsets, strides and depths, the list the policy prescribes never holds more entries than that depth, or two for the same block, even in the middle of a call.  It is the list of the C code as long as no call takes the last entry off a longer list (see SparesTailExactly). |
| `ReadAhead.ReadBounded` | example/iozone3_487/src/current/libasync.c:400-475 | The same for one call from any list within the bound. |
| `ReadAhead.GrowthBounded` | example/iozone3_487/src/current/libasync.c:400-475 | The list is within those bounds, too, each time an entry has been added to it on the way. |
| `ReadAhead.CallReadsAhead` | example/iozone3_487/src/current/libasync.c:427-474 | Any call, whatever its stride and depth: with at most one entry left it brings every block up to depth strides on, upwards or downwards as the stride goes, that lies in the file in flight, with more only the last of them; it submits no others, and nothing ahead for stride or depth 0. |
| `ReadAhead.StrideZero` | example/iozone3_487/src/current/libasync.c:427-474 | A call with stride 0 submits its own block, if that is not in flight, and nothing else. |
| `Scans.ScanStarts` | example/iozone3_487/src/current/libasync.c:427-474 | The first call of a scan, in either direction, leaves the next blocks of the file on its way in flight, as many as the depth allows, none for a depth below 1. |
| `Scans.ScanGoesOn` | example/iozone3_487/src/current/libasync.c:400-474 | Every later call finds its block at the head of the list, if there is read-ahead, and submits at most one block: the one that comes into reach, or its own. |
| `Scans.ScanProceeds` | example/iozone3_487/src/current/libasync.c:395-503 | After every call of a scan up or down the file, with any stride but 0, list and submissions are determined: the next blocks on the way, and every block from the start to the last in reach. |
| `Scans.ScannedMeans` | example/iozone3_487/src/current/libasync.c:395-503 | So list and submissions are in the order of the scan, every block asked for has been submitted, and none twice. |
| `Scans.WholeFile` | example/iozone3_487/src/current/libasync.c:395-503 | After the scan of a whole file nothing is in flight and every record was submitted once, in order. |
| `ReadAhead.TailIsReached` | example/iozone3_487/src/current/libasync.c:400-664 | Two ordinary calls take the last entry off a longer list: read the first block with two blocks ahead, then the third. |
| `ReadAhead.SparesTailExactly` | example/iozone3_487/src/current/libasync.c:400-664 | A series of calls never does so if and only if none of its calls asks for the block submitted last of all while others are in flight. |
| `Scans.ScanSparesTail` | example/iozone3_487/src/current/libasync.c:400-664 | No call of a scan takes the last entry off a longer list. |
| `AsyncCache.Cache.AllocCache` | example/iozone3_487/src/current/libasync.c:516-562 | A new entry linked at the tail: forward, back, head, tail and count still describe one acyclic list, now longer by it. |
| `AsyncCache.Cache.InCache` | example/iozone3_487/src/current/libasync.c:568-595 | The walk from the head finds the first entry with the key. |
| `AsyncCache.Cache.TakeoffCache` | example/iozone3_487/src/current/libasync.c:602-664 | Unlinks any entry of the list and frees it unless direct, the only free there is of it; the links, head and count are right afterwards in every case, the tail pointer if and only if the entry was the head or had a successor. |
| `AsyncCache.Cache.DelCache` | example/iozone3_487/src/current/libasync.c:672-696 | Terminates with the list empty and every entry of it freed once. |
| `AsyncCache.Cache.LookaheadLoop` | example/iozone3_487/src/current/libasync.c:454-474 | The read-ahead loop on the linked list adds the entries, and submits the reads, that ReadAhead.Ahead names, one by one. |
| `AsyncCache.Cache.AsyncRead` | example/iozone3_487/src/current/libasync.c:371-504 | `async_read`, of any block in any well-formed state: the caller's buffer gets the file's bytes and nothing else of it changes.  It takes the last entry off a longer list exactly when the policy says so; then the tail pointer is left at the freed entry and all else is right, and the model ends.  Otherwise list and submissions, and the list at every moment an entry is added, are as ReadAhead.AsyncRead says, and all three lists and the place of every entry stay well-formed. |
| `AsyncScan.ReadFile` | example/iozone3_487/src/current/iozone.c:8972-9040 | The read test's loop over a whole file, at any depth, on the linked list: every record reaches the caller's buffer, each is submitted once, in order, nothing is left in flight, no tail pointer is lost, and at no moment, not even inside a call, does the list hold more than maxDepth entries or two for one record. |
| `AsyncScan.ReadBackward` | example/iozone3_487/src/current/iozone.c:9936-9969 | The backward read test's loop on the linked list, from the last record down with stride -1: every record reaches the caller's buffer, each is submitted once, in descending order, nothing is left in flight, and the list keeps the same bounds. |
| `AsyncCache.Cache.AsyncReadNoCopy` | example/iozone3_487/src/current/libasync.c:706-847 | The same without the copy: the entry moves to the front of the in-use list and its own buffer is handed out, or null when nothing was read; a lost tail pointer is left at it there. |
| `AsyncCache.Cache.PutOnInuse` | example/iozone3_487/src/current/libasync.c:879-894 | The entry becomes the first of the in-use list. |
| `AsyncCache.Cache.TakeoffInuse` | example/iozone3_487/src/current/libasync.c:900-923 | The first entry of the in-use list leaves it and is freed. |
| `AsyncCache.Cache.WaitForWrite` | example/iozone3_487/src/current/libasync.c:1099-1159 | Reaps the oldest queued write, if any, and frees its entry. |
| `AsyncCache.Cache.AsyncWrite` | example/iozone3_487/src/current/libasync.c:934-1052 | One write joins the end of the queue, after at most one was reaped to make room; reaped and queued writes together are all writes accepted, in order; file descriptor 0 exits. |
| `AsyncCache.Cache.WriteFinish` | example/iozone3_487/src/current/libasync.c:1082-1096 | Terminates with the queue empty, every queued write reaped once, in order. |
| `AsyncCache.Cache.EndAsync` | example/iozone3_487/src/current/libasync.c:290-306 | After teardown all queued writes are reaped and every entry ever allocated was freed, exactly once, but for those still held by callers. |
| `AsyncCache.Cache.MbCopy` | example/iozone3_487/src/current/libasync.c:1228-1237 | Copies exactly the given bytes and no others. |
| `AsyncEntry.ChainDistinct` | example/iozone3_487/src/current/libasync.c:517-562 | A chain of forward pointers that ends never comes round again. |
| `AsyncEntry.BypassedLinks` | example/iozone3_487/src/current/libasync.c:632-648 | Links led past one entry spell out the list without it, in both directions. |
| `AsyncEntry.TakeoffHomes` | example/iozone3_487/src/current/libasync.c:602-664 | Every entry ever allocated is in one place only, on a list, in hand or freed, and was freed once at most; taking one off keeps that. |
| `AsyncEntry.LastTest` | example/iozone3_487/src/current/libasync.c:400-422 | The entry an `async_read` found is the last of a longer list, as the policy has it, if and only if it is not the head and has no successor. |
| `AsyncEntry.AnsweredMeans` | example/iozone3_487/src/current/libasync.c:415-440 | What AsyncRead gives the caller in so many words: -1 and an untouched buffer for a negative offset, else the bytes the file has there up to the size asked for, and how many. |
| `AsyncEntry.HandedMeans` | example/iozone3_487/src/current/libasync.c:706-847 | The same of the zero-copy call, whose buffer is null when there was nothing to read. |
| `AsyncEntry.AllFreed` | example/iozone3_487/src/current/libasync.c:290-306 | With the lists empty every entry was freed, once, but for those in callers' hands. |
| `AsyncEntry.QueueEmptyTogether` | example/iozone3_487/src/current/libasync.c:1058-1077 | w_head is null if and only if w_tail is, if and only if w_count is 0. |
| `AsyncEntry.WritesBounded` | example/iozone3_487/src/current/libasync.c:1018-1019 | Whatever the depths of a series of writes, w_count never exceeds the largest of them plus one. |
| `AsyncEntry.WritesFill` | example/iozone3_487/src/current/libasync.c:1018-1019 | With one depth throughout the queue fills up to one more than it and stays there. |
| `BifFormat.RoundTrip` | example/iozone3_487/src/current/libbif.c:77-422 | For every sequence of calls between header and end of file, a reader walking the opcode/length frames, which knows the records by the numbers 2, 3, 4, 9 and 10, finds those cells, each as the format keeps it. |
| `BifFormat.RoundTripExactly` | example/iozone3_487/src/current/libbif.c:250-405 | The records come back unchanged if and only if every row, column and integer is an unsigned 16-bit number and no label is longer than 255. |
| `BifFormat.FrameInFront` | example/iozone3_487/src/current/libbif.c:77-128 | A frame in front of anything is read as that frame followed by the rest. |
| `BifFormat.LittleEndian` | example/iozone3_487/src/current/libbif.c:311-349 | A double comes out little-endian, whatever it is and whatever the record held, if and only if the host's order is one endian() tells as one of the first three. |
| `BifFormat.Order` | example/iozone3_487/src/current/libbif.c:431-461 | endian() tells each of these three byte orders exactly. |
| `Bif.Worksheet.constructor` | example/iozone3_487/src/current/libbif.c:199-243 | The file begins with the bytes 9 0 4 0 2 0 16 0. |
| `Bif.Worksheet.DoInt` | example/iozone3_487/src/current/libbif.c:249-276 | Appends the 13 bytes of an integer record, each given: 2 0 9 0, row and column low byte first, 0 0 0, the value low byte first. |
| `Bif.Worksheet.DoFloat` | example/iozone3_487/src/current/libbif.c:286-363 | Appends 3 0 15 0, row, column, 0 0 0 and eight bytes: the double little-endian on hosts of the three orders, zeros on unsupported ones, and whatever the record held on the fourth order. |
| `Bif.Worksheet.DoLabel` | example/iozone3_487/src/current/libbif.c:369-407 | Appends the 268 bytes of a label record: 4 0 8 1, row, column, 0 0 0, the length byte taken first, and the string over zeros; a string longer than 255 is cut, by a NUL stored at 254 in the caller's memory, which otherwise is as it was. |
| `Bif.Worksheet.Close` | example/iozone3_487/src/current/libbif.c:183-196 | Appends 10 0 0 0; the file then reads back as the cells written. |
| `Fileop.Fileop.Run` | example/iozone3_487/src/current/fileop.c:592-1267 | Each of the twelve tests takes the tree the one before it left to its own and is back in the directory it began in; its counter is x^3, x^2 (readdir) or x+x^2+x^3 (directories), with best <= every sample <= worst and counter*best <= total <= counter*worst; its samples, readings of the clock and system calls are exactly those FileTimes.TestLog lists; a test that makes the tree exits if and only if one of its top directories is there already. |
| `FileTimes.TestTimes` | example/iozone3_487/src/current/fileop.c:592-1267 | Every sample of a test is made of a reading right before and one right after the call the test is about, two such pairs for a directory traversed; on a clock that does not run backwards the samples add up to the time between their readings and to no more than passed from the first reading to the last; on a strictly increasing one every sample is positive. |
| `FileTimes.TestCounted` | example/iozone3_487/src/current/fileop.c:592-1267 | As many samples as operations. |
| `Fileop.Fileop.TestReport` | example/iozone3_487/src/current/fileop.c:598-668 | So a fresh statistic then reports as total the time between those readings, never more than passed, and on a strictly increasing clock a positive best time. |
| `Fileop.Fileop.Round` | example/iozone3_487/src/current/fileop.c:274-588 | The twelve tests of one force factor, in order, restore tree and working directory, and no read differs from what was written; they exit if and only if a generated name was there before. |
| `Fileop.Fileop.ForceLoop` | example/iozone3_487/src/current/fileop.c:274-588 | The loop over force factors, for every increment and any number of rounds, is in the state FileTree.AfterRounds says, running, finished or exited, and as long as it has not exited tree and working directory are as at the start. |
| `FileTree.ForceLoopEnds` | example/iozone3_487/src/current/fileop.c:198-274 | The program comes to its end if and only if the loop does not start, or the increment is not 0 (which option -i allows), or a name the first round would make is there. |
| `FileTree.ForceLoopExits` | example/iozone3_487/src/current/fileop.c:274-588 | It exits at a mkdir if and only if the loop starts and a name of the largest factor it comes to is there. |
| `Fileop.Fileop.Validate` | example/iozone3_487/src/current/fileop.c:1371-1386 | 0 if and only if every byte is the expected one. |
| `FileTree.LeafTurn` | example/iozone3_487/src/current/fileop.c:642-664 | One turn of the innermost loop of any test turns the entries of that number from what the test before left to what this one leaves, and no others. |
| `FileTree.SubTurn` | example/iozone3_487/src/current/fileop.c:621-666 | One turn of the middle loop does so for a whole second-level directory. |
| `FileTree.TopTurn` | example/iozone3_487/src/current/fileop.c:600-668 | One turn of the outer loop does so for a whole first-level directory, beside whatever else is there. |
| `FileTree.Counters` | example/iozone3_487/src/current/fileop.c:592-669 | The number of timed operations: x^3 for tests of files, x^2 for readdir, x + x^2 + x^3 for tests of directories. |
| `FileTree.XorLaws` | example/iozone3_487/src/current/fileop.c:775 | The exclusive or that fills the files is its own inverse, with 0 as the unit, commutative and associative. |
| `FileTree.ValueBits` | example/iozone3_487/src/current/fileop.c:775 | Each of the eight bits of a file's byte is set if and only if it is set in an odd number of i, j and k. |
| `FileNames.SiblingsDiffer` | example/iozone3_487/src/current/fileop.c:600-645 | Names in one directory, at least one of them printed by fileop, are different unless number and kind are the same; what lies in the starting directory beforehand is covered. |
| `FileNames.PrintedSo` | example/iozone3_487/src/current/fileop.c:600-645 | The names are spelled as the format strings spell them. |
| `FileopStats.Stat.Record` | example/iozone3_487/src/current/fileop.c:610-619 | The lines after every timed call: negative times count as 0, and total, counter, best and worst stay those of all samples. |
| `FileopStats.Bounds` | example/iozone3_487/src/current/fileop.c:598-668 | best <= every sample <= worst, counter*best <= total <= counter*worst, and the best is one of the samples as soon as one is below the sentinel. |

## Left out

- Failures of system calls and of SQL statements other than those the tables' constraints refuse, and FUSE plumbing, logging, attributes, extended attributes and directory operations.
- Eviction: its call is commented out and `evict_blocks` only selects rows; the `timestamp` and `valid` columns, `update_blk_time` and `block_id` are read by nothing else.
- cfs_rename, cfs_link, cfs_symlink, cfs_utime, cfs_truncate on a closed file, two handles on one file, removal of an open file: the metadata is not kept up with them, so coherence is not something the code keeps there.
- Growing truncates, writes starting past the end of file and writes reaching behind their window enter only through the exact conditions in Limits.
- Open flags: every handle reads and writes; a handle opened read-only or write-only is not told apart.
- Concurrent calls: the code has no locking.
- Runs.Enabled: calls on one file come through one handle and return; a run stops at a call that spins, and what other calls see of a spinning one is not modelled.
- Runs.OutsideAllowed: another client acts on closed files only, at a time strictly after the cached copy's; Limits.FreshnessExactly shows what goes wrong otherwise.
- Runs.Enabled: NAS, cache directory and mount share one clock that never goes back.
- Runs.Enabled: a run ends where the cached copy of a path becomes the database's own file, as Limits.DatabaseOpened shows it can; what the reads and writes that then go over the database do is not modelled, which is why Runs.OwnNames keeps such paths apart.
- Runs.Enabled: a mount finds tracked blocks whole, as it does with any block size not larger than the last; Limits.RemountSafeExactly shows what goes wrong otherwise.
- MetaModel.DeleteBlock: the counters are unbounded integers, so the wrap-around of the unsigned counter below zero shows as a negative number.
- PathName.FlattenInPlace: the PATH_MAX bounds of the string copies are not modelled.
- File sizes and offsets are unbounded naturals; the C types end at 2^63.
- AsyncCache.Cache.AsyncRead: submissions are accepted and complete; rejected ones, their retry loops, and the cancellation of requests in flight are not modelled, nor are buffer addresses and their page alignment.
- AsyncCache.Cache.AsyncRead: once the tail pointer is lost, what the C code does next, beginning with the read-ahead of the same call, is not modelled.
- AsyncCache.Cache.AsyncWrite: a zero-copy write differs only in whose buffer is written; `async_write_no_copy` is not modelled.
- AsyncCache.Cache.AsyncWrite: what the queued writes do to the file is not modelled, only their order.
- Fileop.Fileop.Run: the twelve tests share one set of nested loops here, written out for each in the source; the statistics of write, close and open, whose clock readings are taken, and the remounting between tests are left out.
- FileopStats.Stat: times are exact reals, not doubles.
- AsyncScan.ReadFile: the loops' timing, locking, verification and their other ways to read are left out, as is the rest of iozone.c.
- evict_blocks, pit_server.c, log.c, hash.h, midiEncoder.c and everything that configures or builds.
