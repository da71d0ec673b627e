# Verified models of Ceph components

This project models seven components of the Ceph repository in Dafny and proves
what they keep over every run, for every input. Each module follows one
component; code that changes objects in place is modelled by classes and
methods, each proved against functions or predicates whose own properties are
proved as lemmas.

- **FuseGraph, FuseSpec, FuseCache, FuseNames**: the inode cache of the FUSE tracer
  (`fusetrace/fusetrace_ll.cc`). `FuseCache` is the memory: inode objects that
  point at each other through `dentries` and `parents`, and the table of inode
  numbers. `FuseSpec` is the same cache as a state machine over inode numbers,
  with one request per step; `FuseGraph` is the graph of named edges and the
  chain of first parents that path building climbs. The memory is proved to keep
  its two maps mirrored and to follow the state machine, and the state machine
  is proved to keep the graph acyclic and the reference counts right. `FuseNames`
  says what every request does to every name and descriptor, and proves that what
  is cached agrees with the backing file system over whole runs.
- **HistogramIndex, HistogramAxis, Histogram, HistogramThreads**: the
  multi-dimensional histogram (`src/perf_histogram.h` and
  `src/common/perf_histogram.cc`), for any number of axes.
- **CommentFilter, CommentMeaning, StateDiagram**: the text pipeline, what survives
  it, and the context stack of the state-diagram generator
  (`doc/scripts/gen_state_diagram.py`).
- **Thrasher**: the lists, the weighted choice and the loops of the OSD thrasher
  (`qa/tasks/ceph_manager.py`). All injected pauses are modelled with the second of
  the two keys: the key is read when the action runs, after the loop over the keys
  (lines 855-869).
- **Krbd**: waiting for a mapped image to appear (`src/krbd.cc`).
- **MountHandle, CrushLocation**: the libcephfs mount handle and the packing of a
  CRUSH location into a buffer (`src/libcephfs.cc`).
- **Watchdog**: the daemon watchdog (`qa/tasks/mds_thrash.py`).

System calls, polls, clocks, random draws and the results of regular expressions
are inputs: every theorem holds for whatever they return, within the assumptions
below.

## Assumptions

For the FUSE cache:

- A request names cached inodes (`Named`), except that a forget may name any number.
  The other handlers use `inode_map[ino]` without testing the pointer.
- For whole runs (`Honest`): a repeated stat of a cached entry finds the number it
  had, and a lookup that misses finds a spare number (not cached, or cached with no
  edge left) other than the directory's. Lookup installs a fresh inode without
  consulting the table (lines 279-284), unlike `add_inode`. `Handle` proves that
  these answers are exactly what the two maps need to stay mirrored.
- Names are passed by value. Line 175 passes a reference to the key that is being
  erased.
- For acyclicity only (`Safe`): a new entry is neither the root nor its own
  directory, and nothing is linked or renamed below itself. `StepKeepsInvIff`
  proves that these conditions are exactly what is needed, and `AnswersAreSafe`
  that they hold of every coherent cache over a file system that is a tree.

For the thrasher, remote commands succeed and no configured weight is negative. For
the histogram, an out-of-range bucket, or an operation that leaves 64 bits, stops the
program before anything is counted.

## Results that contradict a first reading

- A lookup that misses on a cached number with edges leaves a pointer to an inode that
  the table has lost (`LookupMiss`); a second hard link is enough (`SecondHardLink`).
  A miss on a cached number without edges keeps the maps, and is exactly where `ref`
  stops being the kernel's count (`StepCounts`); looking up, unlinking, and looking up
  another name of the same file is such a run (`SpareOverwritten`).
- When the kernel then takes its two lookups back, the table is left with a null
  pointer, and making a file with that number dereferences it (`ForgottenNumber`).
  A table without null pointers gets one in a run exactly when some forget names a
  number, other than the root's, that is not cached (`NullFreeIff`). It never does in a
  run from the mount in which the kernel takes back only lookups that it holds and no
  lookup overwrites a cached inode (`MountedRunNeverCrashes`).
- A rename whose source is not cached leaves the entry that it replaced cached, which
  is the only way for the cache to come to disagree with a file system that nobody
  else changes (`StepCoherentIff`, `StaleEntry`).
- Renaming a slot onto itself drops the cached entry (`RenameNames`).
- The block-comment filter loses a final `/` that is still pending
  (`RemoveMultilineComments`), and it is not always idempotent
  (`FilterNotIdempotent`). `FilterIdempotentIff` gives the exact condition: outside
  comments no slash may be followed by comments behind which the text ends, ends in
  one more slash, or goes on with a star. A text without two slashes in a row meets
  it, and so does every file that passed the earlier stages.
- The context stack follows the braces exactly when contexts are pushed only by
  chunks that open a brace (`StackFollowsBracesIff`). Joining a chunk to its
  predecessor (lines 97-103) violates that wherever a signature is followed by a
  chunk that opens no brace (`JoinedLineDiverges`), and contexts of a handler with
  one statement are still on the stack after it (`JoinedLineLeavesContexts`). While
  nothing more is pushed, they stay exactly until a closing brace returns to the depth
  of the topmost one (`LeftoverStaysIff`).
- A round of the thrasher can raise an exception at its action exactly when nothing of
  positive weight is offered or something of positive weight fails (`ActionBreaksIff`);
  with a positive weight for the minimum-size test it always can (`UnsoundBreaks`).
- The map discontinuity test raises an exception exactly when the cluster has no
  more OSDs than `min_in` (`InUntilSpare`).
- A poll error after the bus device was found returns without unreferencing that
  device (`WaitForUdevAdd`).
- `ceph_init` on an initialised handle loses objects exactly when it gets past the
  bootstrap (`MountInfo.Init`); over a whole run, `Lifetime` shows that this is the
  only way to lose one.

## Model

| member | source | states |
|---|---|---|
| `FuseGraph.NoWalkReturns` | fusetrace/fusetrace_ll.cc:94-109 | in an acyclic graph no list of names leads from an inode back to itself, so path building cannot go round |
| `FuseGraph.MoveAcyclicIff` | fusetrace/fusetrace_ll.cc:151-160 | pointing a slot at an inode while dropping slots that led to it keeps the graph acyclic if and only if the inode does not reach the slot's directory |
| `FuseGraph.FirstExists` | fusetrace/fusetrace_ll.cc:77 | a non-empty map keyed by (name, parent number) has a first key in that order |
| `FuseGraph.NameLessAt` | fusetrace/fusetrace_ll.cc:77 | names are ordered by the first character in which they differ, a proper prefix first |
| `FuseGraph.FirstIsLeast` | fusetrace/fusetrace_ll.cc:77 | the first parent has the least name and, among entries of that name, the least directory number |
| `FuseGraph.ClimbUnique` | fusetrace/fusetrace_ll.cc:94-109 | the chain of first parents of an inode, and where it ends, are unique |
| `FuseGraph.ClimbWalksBack` | fusetrace/fusetrace_ll.cc:94-109 | the names that a climb collects lead from its end back to the inode where it began |
| `FuseGraph.PathsDistinct` | fusetrace/fusetrace_ll.cc:94-109 | inodes that get the same path text are the same inode, as long as no name holds a slash |
| `FuseGraph.RenderSplit` | fusetrace/fusetrace_ll.cc:94-109 | the text of a list of names is that of its parts, one behind the other |
| `FuseGraph.RenderOne` | fusetrace/fusetrace_ll.cc:94-109 | a name is written with one slash before it |
| `FuseSpec.StepKeepsInvIff` | fusetrace/fusetrace_ll.cc:241-335 | every request keeps the graph closed, rooted and acyclic if and only if no new entry is the root or its own directory and nothing is linked or moved below itself |
| `FuseSpec.EnteredKeepsInv` | fusetrace/fusetrace_ll.cc:196-215 | entering a number, reused or new, keeps the invariant exactly when it is neither the root nor the directory itself |
| `FuseSpec.MissedKeepsInv` | fusetrace/fusetrace_ll.cc:278-290 | installing a fresh inode under a spare number keeps the invariant exactly when the number is neither the root nor the directory itself |
| `FuseSpec.LinkKeepsInv` | fusetrace/fusetrace_ll.cc:899-948 | a link keeps the invariant exactly when the inode does not reach the new directory |
| `FuseSpec.RenameKeepsInv` | fusetrace/fusetrace_ll.cc:882-897 | a rename keeps the invariant exactly when it drops a slot onto itself or does not move an inode below itself |
| `FuseSpec.Run` | fusetrace/fusetrace_ll.cc:1174 | every run of legal requests from a state with the invariant ends in one, wherever the program stops |
| `FuseSpec.StepCounts` | fusetrace/fusetrace_ll.cc:278-327 | a request keeps every `ref` the kernel's count, exactly when it is not a lookup that installs an inode over a cached one |
| `FuseSpec.RunCounts` | fusetrace/fusetrace_ll.cc:196-327 | over any legal run in which the kernel forgets no more than it holds and no lookup overwrites a cached inode, the cache's counts stay the kernel's |
| `FuseSpec.RefIsOutstandingReplies` | fusetrace/fusetrace_ll.cc:291-327 | from the mount on, over such a run, an inode other than the root is cached exactly while entry replies outnumber forgotten lookups for its number, and its `ref` is the difference |
| `FuseSpec.ReachablePaths` | fusetrace/fusetrace_ll.cc:94-117 | in every reachable state each inode has one first-parent chain and only one, no walk returns to its start, and a chain that ends at the root gives names that lead from the root to that inode |
| `FuseSpec.SecondHardLink` | fusetrace/fusetrace_ll.cc:278-290 | two names of one file, looked up one after the other from the mount: the second lookup misses on a cached number that carries an edge |
| `FuseSpec.SpareOverwritten` | fusetrace/fusetrace_ll.cc:278-290 | a legal run from the mount: a name is looked up and unlinked and another name of the file looked up; the kernel holds two lookups and the cache counts one |
| `FuseSpec.ForgottenNumber` | fusetrace/fusetrace_ll.cc:310-327 | a legal run from the mount in which the kernel takes back exactly the two lookups it holds leaves a null pointer, and making a file with that number then crashes |
| `FuseSpec.NullFreeIff` | fusetrace/fusetrace_ll.cc:201-207 | from a table without null pointers, no point of a run has one exactly when no forget of it names an uncached number other than the root, and then the program gets through |
| `FuseSpec.MountedRunNeverCrashes` | fusetrace/fusetrace_ll.cc:196-327 | a run from the mount in which the kernel takes back only lookups that it holds and no lookup overwrites a cached inode never has a null pointer and gets through |
| `FuseCache.Cache.constructor` | fusetrace/fusetrace_ll.cc:1150-1155 | the cache starts mirrored, holding the root alone with one reference |
| `FuseCache.Cache.RemoveDentry` | fusetrace/fusetrace_ll.cc:137-149 | the maps stay mirrored and exactly one edge goes |
| `FuseCache.Cache.AddDentry` | fusetrace/fusetrace_ll.cc:151-160 | the maps stay mirrored and the slot points at the inode, whatever it pointed at before |
| `FuseCache.Cache.UnlinkInode` | fusetrace/fusetrace_ll.cc:162-183 | it terminates with the maps mirrored, no edge left at the inode, every edge between others unchanged, and no descriptor left |
| `FuseCache.Cache.RemoveInode` | fusetrace/fusetrace_ll.cc:185-194 | the inode leaves the table with all its edges and nothing points at it |
| `FuseCache.Cache.AddInode` | fusetrace/fusetrace_ll.cc:196-215 | the number has the one new entry and no descriptors, and keeps its references if it was cached; it fails exactly on a null pointer |
| `FuseCache.Cache.MakeInodePath` | fusetrace/fusetrace_ll.cc:94-109 | it terminates, returns the base directory followed by the names of the first-parent chain, and fails exactly when that chain ends at a parentless inode other than the root |
| `FuseCache.Cache.EntryPath` | fusetrace/fusetrace_ll.cc:111-117 | it succeeds exactly when the directory has a path, and the path then names a walk from the root to the directory followed by the entry |
| `FuseCache.Cache.LookupMiss` | fusetrace/fusetrace_ll.cc:278-290 | a miss keeps the two maps mirrored if and only if its number is spare and not the directory's; then it adds one edge and one unreferenced inode |
| `FuseCache.Cache.HandleLookup` | fusetrace/fusetrace_ll.cc:250-308 | the maps stay mirrored, and the lookup has the effect that the state machine prescribes, if and only if the answer was honest; the reply is the prescribed one in any case |
| `FuseCache.Cache.HandleForget` | fusetrace/fusetrace_ll.cc:310-327 | a forget lowers the count, and removes the inode when nothing is left of it; of an uncached number it leaves a null pointer |
| `FuseCache.Cache.HandleMake` | fusetrace/fusetrace_ll.cc:555-740 | mknod, mkdir, symlink and create enter the new number once, with one more reference and the created handle, and crash exactly on a null pointer |
| `FuseCache.Cache.HandleLink` | fusetrace/fusetrace_ll.cc:899-948 | a link adds one edge and one reference, and replies with the linked number |
| `FuseCache.Cache.HandleUnlink` | fusetrace/fusetrace_ll.cc:771-813 | an unlink may first open a descriptor on an inode that has none, and then drops exactly the named edge |
| `FuseCache.Cache.HandleRmdir` | fusetrace/fusetrace_ll.cc:815-847 | a successful rmdir drops exactly the named edge |
| `FuseCache.Cache.CacheRename` | fusetrace/fusetrace_ll.cc:882-894 | a rename replaces the target edge and drops the source edge, dropping the entry when both are one slot, and changes no node and no table entry |
| `FuseCache.Cache.HandleRename` | fusetrace/fusetrace_ll.cc:850-897 | a rename has the prescribed effect, or none when a path is missing, the call failed or the entry is not cached |
| `FuseCache.Cache.Handle` | fusetrace/fusetrace_ll.cc:1083-1118 | every request follows the state machine and keeps the maps mirrored if and only if its answer was honest, whether or not the backing file system behaved safely, and survives exactly without a null pointer |
| `FuseCache.Cache.Serve` | fusetrace/fusetrace_ll.cc:1174 | over any legal run of requests the maps are mirrored, the cache is in the state the run prescribes, and the program gets through exactly when no request meets a null pointer |
| `FuseNames.LookupNames` | fusetrace/fusetrace_ll.cc:250-308 | a lookup that misses gives the name the number found, and changes the meaning of no other name |
| `FuseNames.ForgetNames` | fusetrace/fusetrace_ll.cc:310-327 | forgetting the last reference takes away the names of the inode and those in it, and no other |
| `FuseNames.MakeNames` | fusetrace/fusetrace_ll.cc:196-215 | a new entry has the number made, other names of that number and those in it are gone, and the rest is as it was |
| `FuseNames.LinkNames` | fusetrace/fusetrace_ll.cc:899-948 | a link gives one name a meaning |
| `FuseNames.RemovalNames` | fusetrace/fusetrace_ll.cc:771-847 | unlink and rmdir take away one name |
| `FuseNames.RenameNames` | fusetrace/fusetrace_ll.cc:882-897 | after a rename the old name means nothing, the new one what the old one did, and every other name what it did |
| `FuseNames.ReplyIsNamed` | fusetrace/fusetrace_ll.cc:250-308 | whoever is replied an entry finds the replied number under its name |
| `FuseNames.DescriptorStep` | fusetrace/fusetrace_ll.cc:771-1066 | a descriptor is on an inode exactly when it was and the request did not close it, or the request opened it there |
| `FuseNames.StepCoherentIff` | fusetrace/fusetrace_ll.cc:250-948 | a request answered by the file system keeps every cached entry an entry of it, exactly when it does not rename an uncached entry over a cached one |
| `FuseNames.StaleEntry` | fusetrace/fusetrace_ll.cc:882-897 | an uncached entry renamed over a cached one, from the mount, leaves a stale entry |
| `FuseNames.AnswersAreSafe` | fusetrace/fusetrace_ll.cc:250-948 | over a file system that is a tree, what the cache needs of its answers holds, but for a miss on a number cached elsewhere |
| `FuseNames.BackedRunCoherent` | fusetrace/fusetrace_ll.cc:1174 | a run answered by the file system is legal, and what is cached at its end is in the file system |
| `FuseNames.PathsAreRight` | fusetrace/fusetrace_ll.cc:94-117 | over such a run from the mount, the names of a path that is built lead to that very inode in the file system |
| `HistogramIndex.IndexInRange` | src/perf_histogram.h:190-205 | the index of a tuple of buckets is below the number of counters |
| `HistogramIndex.DigitsOfIndex` | src/perf_histogram.h:190-205 | a tuple of buckets can be read back from its index, so distinct tuples have distinct counters |
| `HistogramIndex.IndexOfDigits` | src/perf_histogram.h:161-205 | every counter is the counter of some tuple of buckets |
| `HistogramIndex.IndexInOrder` | src/perf_histogram.h:190-205 | cells are laid out in the order of their tuples, the last axis running fastest |
| `HistogramIndex.CellsSumToEvents` | src/perf_histogram.h:66-72 | summed over all cells, the counts of the tuples give the number of events |
| `HistogramIndex.SumOutAxis` | src/perf_histogram.h:66-72 | summing out one axis gives the histogram of the events projected onto the others |
| `HistogramAxis.GetBucketForAxis` | src/common/perf_histogram.cc:68-90 | the bucket returned holds the value, on linear and logarithmic axes alike, and there is none exactly when an operation leaves 64 bits |
| `HistogramAxis.BucketUnique` | src/common/perf_histogram.cc:68-90 | no value belongs to two buckets |
| `HistogramAxis.LinearBuckets` | src/common/perf_histogram.cc:58-82 | on a linear axis every inner bucket is one quantization unit wide, counted from the minimum |
| `HistogramAxis.Log2Buckets` | src/common/perf_histogram.cc:58-90 | on a logarithmic axis the first inner bucket is one unit wide and each later one ends twice as far above the minimum as it begins |
| `HistogramAxis.GetAxisBucketRanges` | src/common/perf_histogram.cc:92-119 | the ranges partition the 64-bit integers in order without gaps, each is exactly the set of values that quantize into its bucket, and inner ones have the widths of the scale; there are none exactly when an operation leaves 64 bits |
| `Histogram.LeafIsCell` | src/perf_histogram.h:207-226 | the leaf at a path of buckets is the counter that the path indexes |
| `Histogram.TraversalInOrder` | src/perf_histogram.h:207-226 | a traversal reports every counter of its block once, in order |
| `Histogram.TraversalNests` | src/perf_histogram.h:207-226 | the brackets of a traversal match, each axis at its own level, and every value is inside one of every axis |
| `Histogram.PerfHistogram.constructor` | src/perf_histogram.h:76-92 | the counters are allocated in the right number but not set |
| `Histogram.PerfHistogram.Copy` | src/perf_histogram.h:94-102 | a copy has the same axes, the same counters and its own array |
| `Histogram.PerfHistogram.GetRawSize` | src/perf_histogram.h:161-168 | the loop computes the product that the index arithmetic relies on |
| `Histogram.PerfHistogram.Reset` | src/perf_histogram.h:104-110 | afterwards every counter holds the number of events since, which is none |
| `Histogram.PerfHistogram.IncBucket` | src/perf_histogram.h:119-124 | each counter stays the number of events in its tuple, modulo 2^64; a bucket out of range counts nothing |
| `Histogram.PerfHistogram.Inc` | src/perf_histogram.h:112-117 | one event is counted in a tuple each of whose buckets holds the value on its axis, and nothing exactly when some value cannot be quantized within 64 bits |
| `Histogram.PerfHistogram.ReadBucket` | src/perf_histogram.h:126-131 | a bucket reads as the number of its events, modulo 2^64; a bucket out of range reads nothing |
| `Histogram.PerfHistogram.SumAlongAxis` | src/perf_histogram.h:66-72 | below 2^64 events, adding the counters along an axis gives the number of events with the other buckets |
| `Histogram.PerfHistogram.CellsTotal` | src/perf_histogram.h:66-72 | below 2^64 events, all counters together give the number of events |
| `Histogram.PerfHistogram.VisitValues` | src/perf_histogram.h:207-226 | the recursion spells out the nested rows of its block, and its 32-bit block number never overflows below 2^31 counters |
| `Histogram.PerfHistogram.DumpValues` | src/perf_histogram.h:154-159 | the dump spells out the nested rows of all counters, reports them in order, and its brackets match |
| `HistogramThreads.ExecuteCounts` | src/perf_histogram.h:112-124 | after any schedule a counter has grown by the number of its increments, modulo 2^64 |
| `HistogramThreads.InterleavingIsSequential` | src/perf_histogram.h:112-124 | every interleaving of threads leaves the counters that running them one after the other leaves |
| `HistogramThreads.CopiedCell` | src/perf_histogram.h:94-102 | a copied cell is the initial value plus the increments made before it was copied, modulo 2^64 |
| `HistogramThreads.CopyIsBetween` | src/perf_histogram.h:94-102 | a copy taken meanwhile has in every cell a value that the cell took on the way, and one between its first and last value if it did not wrap around |
| `CommentFilter.RemoveMultilineComments` | doc/scripts/gen_state_diagram.py:39-62 | the filter deletes each comment from the leftmost opening to the first closing after it, and loses a final slash exactly when no comment swallows it |
| `CommentMeaning.StripComment` | doc/scripts/gen_state_diagram.py:39-62 | a comment reaches from the first opening to the first closing behind it; what is before it stays, and what is behind it is stripped on its own |
| `CommentMeaning.StripUnclosed` | doc/scripts/gen_state_diagram.py:39-62 | a comment that is never closed reaches to the end |
| `CommentFilter.StripClean` | doc/scripts/gen_state_diagram.py:39-62 | stripping a text without two slashes in a row leaves neither two slashes nor an opening |
| `CommentFilter.FilterIdempotentIff` | doc/scripts/gen_state_diagram.py:39-62 | for every text, filtering twice is filtering once if and only if no slash outside comments is followed by comments behind which nothing, a last slash or a star remains |
| `CommentFilter.FilterIdempotent` | doc/scripts/gen_state_diagram.py:39-62 | on a text without two slashes in a row the output holds no comment, and filtering twice is filtering once |
| `CommentFilter.FilterNotIdempotent` | doc/scripts/gen_state_diagram.py:39-62 | a text with two slashes in a row on which filtering twice is not filtering once |
| `CommentFilter.CutLineMeaning` | doc/scripts/gen_state_diagram.py:32-36 | of a line, exactly the text before its first two slashes and its newline remain |
| `CommentMeaning.LinesKept` | doc/scripts/gen_state_diagram.py:32-36 | the lines kept are exactly those that do not begin with `#`, in their order, each cut before its first two slashes |
| `CommentMeaning.HashLinesVanish` | doc/scripts/gen_state_diagram.py:8-36 | a line that begins with `#` makes no difference to what reaches the chunker, wherever it stands |
| `CommentMeaning.PlainFile` | doc/scripts/gen_state_diagram.py:8-62 | a file without `#` lines and slashes reaches the chunker character by character, its newlines turned into blanks |
| `CommentFilter.StreamHasNoSlashes` | doc/scripts/gen_state_diagram.py:23-36 | joined into one stream, the lines of a file hold no two slashes in a row |
| `CommentFilter.PipelineClean` | doc/scripts/gen_state_diagram.py:8-9 | for every file, what reaches the chunker holds no comment of either kind and would pass the filter unchanged |
| `CommentFilter.PipelineHasNoNewline` | doc/scripts/gen_state_diagram.py:23-29 | what reaches the chunker holds no newline |
| `StateDiagram.AccLines` | doc/scripts/gen_state_diagram.py:12-20 | the chunks, each with one delimiter at its end, concatenate to the input up to its last delimiter, and lose nothing on a stream without newlines |
| `StateDiagram.ChunkEnds` | doc/scripts/gen_state_diagram.py:12-20 | a chunk ends with a semicolon or a brace and has none before |
| `StateDiagram.StripNewlinesMeaning` | doc/scripts/gen_state_diagram.py:18 | newlines are taken off the front of a chunk, and nothing else |
| `StateDiagram.ChunkingUnique` | doc/scripts/gen_state_diagram.py:12-20 | a text has only one such cutting |
| `StateDiagram.DepthIsBraces` | doc/scripts/gen_state_diagram.py:104-107 | the depth is the number of opening braces minus the number of closing ones among the characters read so far |
| `StateDiagram.StackFollowsBraces` | doc/scripts/gen_state_diagram.py:96-135 | if contexts are pushed only on opening braces, the stack holds exactly the contexts of the braces still open, with their depths, however the braces nest |
| `StateDiagram.StackFollowsBracesIff` | doc/scripts/gen_state_diagram.py:96-135 | the stack agrees with the open braces at every point exactly when contexts are pushed only by chunks that open a brace |
| `StateDiagram.JoinedLineDiverges` | doc/scripts/gen_state_diagram.py:97-103 | in every file where a signature is followed by a chunk that opens no brace, the stack stops agreeing with the open braces |
| `StateDiagram.JoinedLineLeavesContexts` | doc/scripts/gen_state_diagram.py:97-103 | wherever in a file a handler is a signature, a statement and the closing brace, the open braces are afterwards as before it and the stack holds more contexts |
| `StateDiagram.LeftoverStaysIff` | doc/scripts/gen_state_diagram.py:106-109 | while nothing is pushed, what is on the stack stays exactly until a closing brace returns to the depth of the topmost entry |
| `StateDiagram.Renderer.GetState` | doc/scripts/gen_state_diagram.py:112-135 | a state declaration pushes its context at the current depth |
| `StateDiagram.Renderer.GetContext` | doc/scripts/gen_state_diagram.py:95-109 | a chunk pushes the context of its signature, or of the joined one, then moves the depth and pops exactly the contexts of the closed brace |
| `StateDiagram.Renderer.ReadInput` | doc/scripts/gen_state_diagram.py:86-94 | reading all chunks leaves the stack that reading them one by one prescribes |
| `StateDiagram.CutFile` | doc/scripts/gen_state_diagram.py:8-20 | the chunks of a file are the cutting of its comment-free text and hold no comment; a file without `#` lines and slashes is cut as it stands, but for its newlines |
| `StateDiagram.ReadFile` | doc/scripts/gen_state_diagram.py:213-215 | from a file to the stack: the chunks are the cutting of the comment-free text, the depth is the balance of the braces in that text, and the contexts are those of the open braces at every point exactly when they are pushed only on opening braces |
| `Thrasher.Pick` | qa/tasks/ceph_manager.py:871-877 | the choice is the one whose interval holds the draw, it has positive weight, and there is none exactly when the draw is not below the total |
| `Thrasher.DrawsOne` | qa/tasks/ceph_manager.py:871-877 | a draw falls into the interval of one choice only |
| `Thrasher.Thrasher.OutOsd` | qa/tasks/ceph_manager.py:401-412 | one number moves from in to out, and both populations are conserved |
| `Thrasher.Thrasher.KillOsd` | qa/tasks/ceph_manager.py:196-212 | one number moves from live to dead, and from in to out if asked and possible; both populations are conserved |
| `Thrasher.Thrasher.ReviveOsd` | qa/tasks/ceph_manager.py:380-393 | one number moves from dead to live, and both populations are conserved |
| `Thrasher.Thrasher.InOsd` | qa/tasks/ceph_manager.py:414-427 | a dead number is revived and in and out stay, a live one moves from out to in and live and dead stay; either way one fewer is dead or out |
| `Thrasher.Thrasher.AllUp` | qa/tasks/ceph_manager.py:601-610 | for any choices it terminates with nothing dead or out and nothing lost |
| `Thrasher.Thrasher.InUntilSpare` | qa/tasks/ceph_manager.py:780-781 | the loop terminates with one more than the minimum in exactly when the cluster has more OSDs than the minimum, and marks in no dead OSD |
| `Thrasher.NewlyInIsLive` | qa/tasks/ceph_manager.py:780-781 | if every OSD is live or dead, those that the loop marks in are live |
| `Thrasher.Thrasher.TestMapDiscontinuity` | qa/tasks/ceph_manager.py:770-803 | the test gets through exactly when the cluster has more OSDs than the minimum, having then marked in up to one more than the minimum, killed and marked out one, and revived one, list by list |
| `Thrasher.Thrasher.ChooseAction` | qa/tasks/ceph_manager.py:805-877 | the action is the one that the draw selects, and each of the four moves is chosen only while its list is longer than its bound |
| `Thrasher.MoveWeights` | qa/tasks/ceph_manager.py:824-831 | what each of the four moves weighs, and when it is offered at all |
| `Thrasher.FixedWeights` | qa/tasks/ceph_manager.py:834-845 | what each disturbance that is always offered weighs |
| `Thrasher.OptionalWeights` | qa/tasks/ceph_manager.py:846-853 | what each optional disturbance weighs |
| `Thrasher.PauseWeights` | qa/tasks/ceph_manager.py:855-869 | the pauses weigh twice their settings under the second key, and nothing under any other |
| `Thrasher.ActionWeights` | qa/tasks/ceph_manager.py:824-869 | the weight of an action among all choices is the sum of these |
| `Thrasher.SelectedInterval` | qa/tasks/ceph_manager.py:871-877 | the action selected is the one in whose interval the draw lies when the weights are laid side by side |
| `Thrasher.Thrasher.Perform` | qa/tasks/ceph_manager.py:1013 | each action moves the chosen number exactly as it should, and ends in an exception exactly when it chooses from an empty list or is the minimum-size test |
| `Thrasher.Thrasher.Prepare` | qa/tasks/ceph_manager.py:994-1007 | a clean-up revives down to the maximum and tests the discontinuity when it should, failing exactly when the test comes up with no more OSDs than the minimum |
| `Thrasher.TestsAfterCleanup` | qa/tasks/ceph_manager.py:995-1003 | the discontinuity test comes up exactly when it is asked for and more than five are live after the clean-up |
| `Thrasher.CompletedRound` | qa/tasks/ceph_manager.py:988-1014 | a completed round is the clean-up and then the effect of the action that the draw selected |
| `Thrasher.CompletesKeeps` | qa/tasks/ceph_manager.py:988-1014 | a completed round conserves both populations and takes neither list below its floor |
| `Thrasher.RunKeeps` | qa/tasks/ceph_manager.py:988-1014 | every state of every run has the two populations of its first state, and both floors hold in it if they held at first |
| `Thrasher.NeverBreaks` | qa/tasks/ceph_manager.py:805-1014 | with sound settings, more OSDs than the floors and a random fraction below one, no round can end in an exception, whatever is chosen |
| `Thrasher.ActionBreaksIff` | qa/tasks/ceph_manager.py:805-877 | for any lists, some random fraction below one makes the action fail exactly when nothing of positive weight is offered or something of positive weight fails |
| `Thrasher.UnsoundBreaks` | qa/tasks/ceph_manager.py:805-1014 | with a positive weight for the minimum-size test, or when nothing of positive weight is offered, a round can break from any lists |
| `Thrasher.Thrasher.DoThrash` | qa/tasks/ceph_manager.py:988-1028 | the lists after each round follow from those before it by the clean-up and the action that the draw selects, a run ends early only at a round that can break, and a completed one ends with all OSDs up and in |
| `Krbd.SpecMatches` | src/krbd.cc:60-96 | a device carries a spec exactly when its attributes are the spec's, an empty snapshot name and a dash being the same |
| `Krbd.BusMeaning` | src/krbd.cc:254-262 | which device on the rbd bus is the image's, attribute by attribute |
| `Krbd.BlockMeaning` | src/krbd.cc:266-275 | which block device has its numbers |
| `Krbd.MatchMeaning` | src/krbd.cc:231-293 | what a match is, turn by turn |
| `Krbd.WaitForUdevAdd` | src/krbd.cc:231-293 | it names the image exactly when its first bus device and then a block device with its numbers appear before an error, having unreferenced every device received exactly once; otherwise it has unreferenced all but the bus device |
| `MountHandle.MountInfo.Init` | src/libcephfs.cc:78-129 | it returns the code of the first step that fails, leads to the prescribed phase, makes the prescribed number of objects, and loses objects exactly when an initialised handle gets past the bootstrap |
| `MountHandle.MountInfo.Mount` | src/libcephfs.cc:145-167 | code, phase and number of objects made are the prescribed ones, nothing is lost, and a failure after the bootstrap leaves the handle empty |
| `MountHandle.MountInfo.Unmount` | src/libcephfs.cc:169-175 | an unmounted handle is refused, a mounted one ends empty |
| `MountHandle.MountInfo.AbortConn` | src/libcephfs.cc:176-183 | the handle ends unmounted and keeps its objects |
| `MountHandle.MountInfo.Shutdown` | src/libcephfs.cc:185-209 | whatever the handle held is deleted: the client is left first, the messenger stopped, waited for and deleted, then the monitor client and the client |
| `MountHandle.MountInfo.StartReclaim` | src/libcephfs.cc:1958-1968 | it initialises a handle that is not, losing nothing and changing no mount |
| `MountHandle.MountInfo.Destroy` | src/libcephfs.cc:59-76 | every object ever made has been deleted exactly once, unless it was lost |
| `MountHandle.MountInfo.Release` | src/libcephfs.cc:403-410 | a mounted handle is refused, any other is destroyed |
| `MountHandle.MountedSince` | src/libcephfs.cc:145-183 | over every run of calls, a handle is mounted exactly when some mount returned success and no unmount, abort or failing initialisation came after it |
| `MountHandle.InitedSince` | src/libcephfs.cc:78-209 | over every run of calls, a handle is initialised exactly when some call initialised it and no later call shut it down |
| `MountHandle.OrderlyStops` | src/libcephfs.cc:195-200 | in every log that keeps the order, each deletion of a messenger comes directly after its shutdown and the wait for it |
| `MountHandle.MountsEnd` | src/libcephfs.cc:145-192 | in every such log each mount is ended once, by an abort or an unmount, but for the one that lasts |
| `MountHandle.MountInfo.Perform` | src/libcephfs.cc:78-183 | every call follows the protocol: phase, code, number of objects made, and whether any are lost |
| `MountHandle.Lifetime` | src/libcephfs.cc:403-417 | over any calls with any failures and a final shutdown, every call returns the prescribed code, each object made is deleted exactly once unless an initialised handle was initialised again past the bootstrap, in which case some object never is, no messenger is torn down while the handle's client is initialised or mounted or deleted before it has stopped, and each successful mount is ended by an abort for each abort of a mounted handle and else by an unmount |
| `CrushLocation.DecodeEncode` | src/libcephfs.cc:1397-1412 | splitting the written bytes at NULs gives the pairs back |
| `CrushLocation.EncodeLayout` | src/libcephfs.cc:1397-1412 | byte for byte, where each pair is: its type, a NUL, its name and a NUL, behind all pairs before it |
| `CrushLocation.Pack` | src/libcephfs.cc:1397-1412 | the buffer holds exactly the pairs that fit together, byte for byte, and nothing behind them is touched |
| `CrushLocation.GetOsdCrushLocation` | src/libcephfs.cc:1383-1421 | the code for every case, the total as the 32-bit int it is returned as, no byte at or past the length, and on success the pairs can be read back |
| `CrushLocation.ToInt` | src/libcephfs.cc:1414-1420 | the returned int agrees with the total modulo 2^32, and is the total exactly below 2^31 |
| `Watchdog.NoteIsSince` | qa/tasks/mds_thrash.py:97-101 | after a poll a failing daemon's entry is the beginning of its unbroken failing run |
| `Watchdog.RestoredTracks` | qa/tasks/mds_thrash.py:106-110 | after a poll exactly the daemons failing at it are tracked |
| `Watchdog.BarkMeaning` | qa/tasks/mds_thrash.py:93-116 | while the clock does not run backwards, it should bark exactly when a thrasher has failed or some name was failing at every poll since one more than the timeout back |
| `Watchdog.FirstNamedIsFirst` | qa/tasks/mds_thrash.py:93-98 | of several failing daemons of one name the first counts |
| `Watchdog.Watch` | qa/tasks/mds_thrash.py:77-121 | it barks at the first poll where an unbroken failing run is older than the timeout or a thrasher has failed, and otherwise tracks exactly the current runs |

## Left out

- FuseCache.Cache.HandleLookup: covers the cache and the reply; trace printing, permission bits and the rest of the stat buffer are not modelled, and after a dishonest answer only the loss of the mirror is stated.
- The getattr, setattr, readlink, opendir, readdir, read, write and statfs handlers of the tracer, which do not change the cache's structure.
- Closing of the same descriptor twice by release after an inode was reused.
- Formatter output of the histogram's axes, which only prints.
- The regular expressions of the state-diagram generator, its edge collection and its dot output; a search is any function of the text searched.
- Thrasher.Thrasher.Perform: exceptions that the disturbing actions raise after a failed command or check are not modelled; none of those actions changes the lists.
- The object store tool runs within `kill_osd`, the toggling threads and the scrubber of the thrasher.
- Krbd.WaitForUdevAdd: works on a finite number of turns of the loop; a run that has not ended is reported as waiting.
- The rest of `src/krbd.cc` and of `src/libcephfs.cc`: foreign calls, and guards in front of the client.
- The watchdog's bark itself, which unmounts file systems and signals daemons.
- Daemon mains, packaging, and the other test tasks of the repository.
