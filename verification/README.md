# Skywing core, modelled in Dafny

Skywing is a library for decentralised, asynchronous computation over a
network of agents. An agent is a *manager*: it holds *jobs*, which
publish values on *tags* and subscribe to tags of other agents. It also
takes part in *reduce groups*, which combine values up and down a tree
of agents. This project models the following, and proves properties of
the model:

- **Redundant row partitioner** of the Jacobi examples
  (`jacobi_pre_processing.py`). It counts the rows each rank owns, round
  robin. For every redundancy level it gives each rank a window of
  consecutive rows, wrapping past the end of the matrix, and names each
  partition file. `RowPartition` states the arithmetic. `PartitionScript`
  models the script's loop and its output files.
- **Tag buffers**: latest-value and FIFO buffers with version numbers.
- **Jobs**: publish and subscribe bookkeeping and tag liveness.
- **Reduce groups**: the reduce and all-reduce tree, the tags of each
  node, and the pending sends.
- **`algorithms.hpp`**: splitting a string at a character, concatenating
  containers, and merging associative containers.
- **`skynet_config.hpp`**: the sectioned configuration parser, with
  comments, `${...}` interpolation and a global symbol table.
- **Socket communicator**: how `split_address` splits an address, and
  the sizes `read_chunked` requests.
- **The publish/subscribe value converters.**
- **`AssociativeVector`** arithmetic.
- **Tag and version types** (`types.hpp`).
- **The manager's neighbour lists**, the back-off of its tag requests,
  publisher counting and tag registration.
- **The network size header** (`network_conv`).
- **The basic manager configuration reader.**
- **The node list parser** of `generate_config_info.py`.
- **`NeighborDataHandler`** accumulation.

Values are immutable datatypes and operations are pure functions. A
mutating member of the source becomes a function from the old state to
the new one. I/O, clocks and the host byte order are parameters.

Where the documented behaviour and the code differ, the model follows
the code:

- The partitioner is documented to reduce every window index modulo the
  matrix size. The code reduces only the rows after the first. A window's
  start is the running row count. With no more ranks than rows that count
  stays below the matrix size, so the files are the same
  (`RowPartition.StartInRange`, `RowPartition.WindowElements`). With more
  ranks than rows the first idle rank's read fails
  (`RowPartition.StartBeyond`).
- The partitioner is documented to refuse a matrix whose dimensions are
  wrong, and a negative redundancy. The script checks neither, and stops
  only with the Python errors `PartitionScript.Run` models. A negative
  level that still gives every rank at least one row (k + m div n >= 1)
  writes windows shorter than the baseline ones. A level that asks some
  rank for fewer than one row leaves that rank's block one-dimensional,
  because the reshape is for blocks of exactly one row, and `mmwrite`
  refuses it with a ValueError. The A files of the ranks before it are
  then already written (`PartitionScript.LevelRunPlanned`,
  `PartitionScript.RunMatchesPlan`); see Findings.
- The FIFO tag buffer is documented to drop versions that are not newer.
  The code never records the last stored version, so it keeps them; see
  Findings. The reduce group's buffers use that add as written, so a
  reduce can stall behind a late, older version
  (`ReduceGroup.AddDataCompletesIff`).

## Model

| member | source | states |
|---|---|---|
| RowPartition.RowCountsRoundRobin | examples/async_jacobi/jacobi_pre_processing.py:62-65 | dealing the m rows round-robin gives rank r exactly m div n rows, plus one when r < m mod n |
| RowPartition.CountsAfterClosedForm | examples/async_jacobi/jacobi_pre_processing.py:63-65 | after the counting loop has visited rows 0..i-1, rank r holds i div n rows plus one when r < i mod n |
| RowPartition.RowCountsSum | examples/async_jacobi/jacobi_pre_processing.py:62-65 | the baseline counts add up to m: every row is counted exactly once |
| RowPartition.RowCountsPositive | examples/async_jacobi/jacobi_pre_processing.py:62-65 | with no more ranks than rows every rank gets at least one baseline row |
| RowPartition.RowCountsZeroBeyond | examples/async_jacobi/jacobi_pre_processing.py:62-65 | with more ranks than rows, ranks m..n-1 get no baseline rows |
| RowPartition.StartInRange | examples/async_jacobi/jacobi_pre_processing.py:68-82 | with no more ranks than rows each rank's first row, and the end of its baseline rows, lie inside the system |
| RowPartition.StartBeyond | examples/async_jacobi/jacobi_pre_processing.py:68-82 | with more ranks than rows, rank m's running start offset is m, past the last row, while the ranks before it start inside the system |
| RowPartition.Window | examples/async_jacobi/jacobi_pre_processing.py:70-75 | a rank asked for len rows gets len of them, and still one when len < 1, because the start row is read before the loop |
| RowPartition.WindowElements | examples/async_jacobi/jacobi_pre_processing.py:69-75 | a window starting inside the system is the documented one: every element j, the first included, is row (start + j) mod m, so each lies inside the system |
| RowPartition.WindowIsRange | examples/async_jacobi/jacobi_pre_processing.py:71-75 | a window that does not reach the last row is the plain range start..start+len-1 |
| RowPartition.LevelWindows | examples/async_jacobi/jacobi_pre_processing.py:69-82 | there is one window per rank at every redundancy level |
| RowPartition.BaselineWindow | examples/async_jacobi/jacobi_pre_processing.py:68-82 | at level 0, rank r's window is exactly the rows from its start to the next rank's start |
| RowPartition.FlattenPrefixes | examples/async_jacobi/jacobi_pre_processing.py:68-82 | the level-0 windows of ranks 0..t-1, concatenated, are rows 0 up to rank t's start |
| RowPartition.BaselinePartitions | examples/async_jacobi/jacobi_pre_processing.py:67-82 | at level 0 the windows, concatenated in rank order, are rows 0..m-1, each exactly once |
| RowPartition.EveryRowHeld | examples/async_jacobi/jacobi_pre_processing.py:67-82 | at every non-negative redundancy level every row of the system is held by some rank |
| PartitionScript.LoadedNameMatches | examples/async_jacobi/async_jacobi.cpp:238-249 | the file names the agents build from machine number and redundancy are the names the script writes |
| PartitionScript.ExtendIndices | examples/async_jacobi/jacobi_pre_processing.py:116-120 | the index loop from row on appends exactly the remaining window elements, and nothing once row reaches len |
| PartitionScript.RankIndices | examples/async_jacobi/jacobi_pre_processing.py:114-124 | one rank's index list is its window of global rows |
| PartitionScript.IndexPass | examples/async_jacobi/jacobi_pre_processing.py:113-124 | the index pass over ranks r.. yields one list per remaining rank |
| PartitionScript.IndexPassWindows | examples/async_jacobi/jacobi_pre_processing.py:113-124 | the index pass lists every rank's window, each starting at the baseline rows of the ranks before it, at any level |
| PartitionScript.WindowStartsAtOffset | examples/async_jacobi/jacobi_pre_processing.py:113-124 | rank r's index list is non-empty and starts at the sum of the baseline counts of ranks 0..r-1 |
| PartitionScript.Files | examples/async_jacobi/jacobi_pre_processing.py:80-81 | part r of a pass goes to the file named for rank r, the level and the kind |
| PartitionScript.Run | examples/async_jacobi/jacobi_pre_processing.py:58-124 | the script as written only ever stops with a Python error (ZeroDivisionError, IndexError or mmwrite's ValueError), never with an argument check |
| PartitionScript.RunLevelsErrors | examples/async_jacobi/jacobi_pre_processing.py:67-124 | on a non-empty system the level loop stops only with an IndexError from a row read past the end or a ValueError from mmwrite on a block shorter than one row |
| PartitionScript.RowPassErrors | examples/async_jacobi/jacobi_pre_processing.py:69-110 | a row pass stops only with an IndexError or a ValueError |
| PartitionScript.Select | examples/async_jacobi/jacobi_pre_processing.py:70-75 | the rows read for a window are one per window element |
| PartitionScript.WindowInRange | examples/async_jacobi/jacobi_pre_processing.py:71-75 | with no more ranks than rows every window element is a row of the system |
| PartitionScript.PlannedBlock | examples/async_jacobi/jacobi_pre_processing.py:69-82 | the planned files of one kind at one level are one per rank |
| PartitionScript.WindowStep | examples/async_jacobi/jacobi_pre_processing.py:116-120 | the index the loops compute for row is window element row |
| PartitionScript.ExtendRowsSelect | examples/async_jacobi/jacobi_pre_processing.py:71-75 | the row loop from row on succeeds exactly when the rest of the window lies inside the source, and then appends those source rows in window order |
| PartitionScript.RankRowsSelect | examples/async_jacobi/jacobi_pre_processing.py:69-79 | one rank's A, b or x_sol rows are the source entries at its window, and the read fails exactly when the window leaves the source |
| PartitionScript.RowPassStep | examples/async_jacobi/jacobi_pre_processing.py:69-82 | a rank whose window leaves the source stops the pass with an IndexError; one asked for fewer than one row stops it with mmwrite's ValueError, the reshape at :77 applying only to exactly one row; any other contributes its selected rows and the pass goes on |
| PartitionScript.RowPassParts | examples/async_jacobi/jacobi_pre_processing.py:69-82 | every part a row pass writes is the selection of a consecutive rank's window, that rank is asked for at least one row, and its window lies inside the source |
| PartitionScript.RowPassStop | examples/async_jacobi/jacobi_pre_processing.py:69-82 | a stopped row pass stopped at the first rank it did not write: with an IndexError if that rank's window leaves the source, else with a ValueError because the rank is asked for fewer than one row; a pass that did not stop covered every rank |
| PartitionScript.RowPassFails | examples/async_jacobi/jacobi_pre_processing.py:69-82 | a row pass stops exactly when some rank's window leaves the source or some rank is asked for fewer than one row |
| PartitionScript.PassStopsAt | examples/async_jacobi/jacobi_pre_processing.py:69-82 | when ranks r..q-1 all have a row inside the source and rank q has not, the pass from r writes exactly their selections and stops at q with the error that rank meets, or finishes when q is the last rank |
| PartitionScript.FittingRanksIff | examples/async_jacobi/jacobi_pre_processing.py:63-71 | at level k exactly the first FittingRanks ranks are asked for at least one row, and the level gives every rank one exactly when m div n + k >= 1 |
| PartitionScript.NonNegativeLevelFits | examples/async_jacobi/jacobi_pre_processing.py:63-71 | with no more ranks than rows every non-negative level gives every rank at least one row |
| PartitionScript.AllInRange | examples/async_jacobi/jacobi_pre_processing.py:71-75 | with no more ranks than rows and a long enough source, every rank's window lies inside the source |
| PartitionScript.PassFiles | examples/async_jacobi/jacobi_pre_processing.py:69-82 | over a long enough source a row pass writes exactly the planned files of its kind for the ranks that get a row, and stops with a ValueError exactly when the level does not give every rank one |
| PartitionScript.LevelPass | examples/async_jacobi/jacobi_pre_processing.py:69-82 | with every window inside the source, a row pass selects the windows of the ranks that get a row, in rank order, and stops with a ValueError exactly when some rank does not |
| PartitionScript.ShortLevelOutcome | examples/async_jacobi/jacobi_pre_processing.py:69-81 | a level that leaves some rank without a row writes one A file per rank before the first such rank and stops with a ValueError |
| PartitionScript.LevelRunPlanned | examples/async_jacobi/jacobi_pre_processing.py:67-124 | with no more ranks than rows, a level that gives every rank a row writes exactly its planned A, b, x_sol and index files and no error; any other writes the A files of the ranks before the first rank without a row and stops with a ValueError |
| PartitionScript.LevelsPlanned | examples/async_jacobi/jacobi_pre_processing.py:67-124 | when level k gives every rank a row, the levels k..kLast write exactly their planned files, in level order, and no error; otherwise the loop stops in level k's A pass with a ValueError |
| PartitionScript.RunMatchesPlan | examples/async_jacobi/jacobi_pre_processing.py:58-124 | with 0 < n <= m and b, x_sol at least as long as A, the script writes exactly the planned partition without error when the first level gives every rank a row, and otherwise only the first level's leading A files, then a ValueError |
| PartitionScript.IdleWindows | examples/async_jacobi/jacobi_pre_processing.py:62-75 | with more ranks than rows the windows of ranks 0..m-1 lie inside the system and rank m's window starts at row m |
| PartitionScript.IdleRankPass | examples/async_jacobi/jacobi_pre_processing.py:69-81 | with more ranks than rows the A pass at a non-negative level writes the first m ranks' rows and then fails with an IndexError; at a negative level it writes nothing and fails with a ValueError |
| PartitionScript.RunWithIdleRanks | examples/async_jacobi/jacobi_pre_processing.py:69-81 | with more ranks than rows the run stops after writing the A files of ranks 0..m-1 of the first level with an IndexError, or at a negative first level with a ValueError and no file written |
| PartitionScript.RunOnEmptySystem | examples/async_jacobi/jacobi_pre_processing.py:68-70 | an empty system stops with an IndexError on the first row read, before any file is written |
| PartitionScript.NegativeLevelStopsAtWrite | examples/async_jacobi/jacobi_pre_processing.py:67-81 | ten rows over three ranks at redundancy -3 write rank 0's A file and then stop with mmwrite's ValueError at rank 1 |
| PartitionScript.Partition | examples/async_jacobi/jacobi_pre_processing.py:62-124 | the corrected partitioner rejects n = 0, n > m and a negative first level before writing, and otherwise returns what the script writes exactly when the script finishes |
| PartitionScript.PartitionPlanned | examples/async_jacobi/jacobi_pre_processing.py:62-124 | the corrected partitioner writes the planned partition on every valid input, and rejects more ranks than rows and negative levels |
| PartitionScript.PartitionNameInjective | examples/async_jacobi/jacobi_pre_processing.py:80-80 | different (rank, level, kind) triples give different file names |
| PartitionScript.OutputPathInjective | examples/async_jacobi/jacobi_pre_processing.py:80-80 | different (rank, level, kind) triples give different paths inside one folder |
| PartitionScript.BlockDistinct | examples/async_jacobi/jacobi_pre_processing.py:80-81 | the files of one pass have pairwise different names |
| PartitionScript.BlocksDisjoint | examples/async_jacobi/jacobi_pre_processing.py:80-123 | passes of different kind or level never write the same file name |
| PartitionScript.LevelDistinct | examples/async_jacobi/jacobi_pre_processing.py:80-123 | the four passes of one level write pairwise different file names |
| PartitionScript.LevelPaths | examples/async_jacobi/jacobi_pre_processing.py:80-123 | every file of one level is named for that level |
| PartitionScript.PlannedPaths | examples/async_jacobi/jacobi_pre_processing.py:67-124 | the planned files of levels k..kLast have distinct names, each for a level in that range |
| PartitionScript.ShortLevelPaths | examples/async_jacobi/jacobi_pre_processing.py:69-81 | the A files a stopped level wrote have distinct names, each for that level |
| PartitionScript.RunPathsDistinct | examples/async_jacobi/jacobi_pre_processing.py:67-124 | a run, finished or stopped, never writes two files under one name, and each name is for a level it was asked for |
| PartitionScript.PlannedHas | examples/async_jacobi/jacobi_pre_processing.py:67-124 | every (rank, level, kind) in range has its file, with its planned content, among the planned files |
| PartitionScript.AgentFindsItsFiles | examples/async_jacobi/async_jacobi.cpp:238-249 | when the script's first level gives every rank a row, an asynchronous Jacobi agent started with a machine number and redundancy the script covered finds each of its four files, holding its planned content |
| PartitionScript.SyncAgentLoadsBaseline | examples/sync_jacobi/sync_jacobi.cpp:228-238 | when the script ran for a range containing 0 whose first level gives every rank a row, the synchronous agent loads level 0, whose index file lists exactly its baseline rows |
| Types.MarkersDistinct | skywing/skywing_core/types.hpp:178-188 | the four tag markers are pairwise different, so a marker names its kind |
| Types.TagNameOkay | skywing/skywing_core/types.hpp:207-211 | a tag name is well formed exactly when it is non-empty and starts with one of the four markers |
| Types.ReduceResultExclusive | skywing/skywing_core/types.hpp:98-125 | a reduce result is never both an error and a value, and is neither exactly when it holds no value |
| TagBuffer.TagId | skywing/skywing_core/internal/tag_buffer.hpp:67-69 | a typed tag's id is its kind's marker followed by the user's name |
| TagBuffer.TagIdOkay | skywing/skywing_core/internal/tag_buffer.hpp:64-69 | every typed tag id is a well-formed tag name |
| TagBuffer.TagIdInjective | skywing/skywing_core/internal/tag_buffer.hpp:64-69 | the id determines both the kind and the name |
| TagBuffer.SpanIsValid | skywing/skywing_core/internal/tag_buffer.hpp:16-20 | a span is valid exactly when it has one element per expected type and each holds the expected alternative |
| TagBuffer.Get | skywing/skywing_core/internal/tag_buffer.hpp:161-166 | fetching returns the stored value, records its version as fetched, and leaves no data available |
| TagBuffer.Add | skywing/skywing_core/internal/tag_buffer.hpp:168-182 | a value is stored exactly when its version is newer than the stored one or nothing is stored; otherwise the buffer is unchanged |
| TagBuffer.Reset | skywing/skywing_core/internal/tag_buffer.hpp:184-188 | a reset clears both versions, so no data is available |
| TagBuffer.DiscardOldOperationsPreserveValid | skywing/skywing_core/internal/tag_buffer.hpp:153-193 | construction, reset, add of a real version and get all keep the fetched version at most the stored one |
| TagBuffer.AddAfterResetHasData | skywing/skywing_core/internal/tag_buffer.hpp:168-188 | after a reset any add of a real version makes that value available |
| TagBuffer.NewerAddAfterGet | skywing/skywing_core/internal/tag_buffer.hpp:156-182 | after a get, data is available again exactly when a strictly newer version is added |
| TagBuffer.HasDataAvailable | skywing/skywing_core/internal/tag_buffer.hpp:225-228 | when the FIFO reports data for version v, some buffered entry has version v or newer |
| TagBuffer.FirstAtLeast | skywing/skywing_core/internal/tag_buffer.hpp:207-221 | get(v) stops at the first entry of version v or newer, past only older ones |
| TagBuffer.FifoGet | skywing/skywing_core/internal/tag_buffer.hpp:207-221 | get(v) drops the older leading entries, removes and returns the first entry of version v or newer, and records that version as fetched |
| TagBuffer.FifoAddAsWritten | skywing/skywing_core/internal/tag_buffer.hpp:234-240 | add as written appends every value, because the guard's last stored version is never assigned |
| TagBuffer.FifoAddAsWrittenKeepsDuplicates | skywing/skywing_core/internal/tag_buffer.hpp:234-240 | two adds of one version leave two entries as written, but one in the corrected buffer |
| TagBuffer.FifoAdd | skywing/skywing_core/internal/tag_buffer.hpp:234-240 | the corrected add keeps only versions newer than the last stored one and records the stored version |
| TagBuffer.FifoReset | skywing/skywing_core/internal/tag_buffer.hpp:244-249 | a reset empties the buffer and clears both versions |
| TagBuffer.FifoAddPreservesValid | skywing/skywing_core/internal/tag_buffer.hpp:234-240 | the corrected add keeps the versions strictly increasing, with the newest entry at the last stored version |
| TagBuffer.SuffixValid | skywing/skywing_core/internal/tag_buffer.hpp:207-221 | dropping leading entries of a valid buffer leaves a valid buffer |
| TagBuffer.FifoGetPreservesValid | skywing/skywing_core/internal/tag_buffer.hpp:207-221 | get keeps the buffer valid |
| TagBuffer.FifoResetValid | skywing/skywing_core/internal/tag_buffer.hpp:244-253 | a reset or newly made buffer is valid |
| TagBuffer.FifoHasDataIffAvailable | skywing/skywing_core/internal/tag_buffer.hpp:225-228 | in a valid buffer has_data(v) holds exactly when get(v) finds an entry |
| Job.ProcessData | skywing/skywing_core/job.cpp:37-74 | data for an unsubscribed tag is accepted and dropped; data of the wrong types marks the tag as incorrect_type and is refused; otherwise it is added to the tag's buffer and nothing else changes |
| Job.MarkTagAsDead | skywing/skywing_core/job.cpp:100-114 | a known tag is marked disconnected and its 16-bit connection id advances with wrap-around; unknown tags and other tags are untouched |
| Job.SubscribeOne | skywing/skywing_core/job.cpp:156-173 | a new tag gets an empty buffer, connection id 0 and no error; an existing one keeps its types, gets the next connection id, an emptied buffer and a cleared error |
| Job.InitOrUpdateSubscribe | skywing/skywing_core/job.cpp:146-175 | every listed tag ends up subscribed, no other tag is added, and tags not listed are unchanged |
| Job.SubscribedTagsAreActive | skywing/skywing_core/job.cpp:146-175 | every tag just subscribed has an active publisher |
| Job.DeadTagInactive | skywing/skywing_core/job.cpp:100-114 | a tag marked dead has no active publisher, and subscribing again revives it |
| Job.PublishImpl | skywing/skywing_core/job.cpp:116-127 | the first publication on a tag carries version 0, and the version used is recorded as the last published |
| Job.PublishTimes | skywing/skywing_core/job.cpp:116-127 | n publications use n versions and leave the produced tags unchanged |
| Job.PublishVersionsCount | skywing/skywing_core/job.cpp:124-125 | successive publications carry consecutive versions from one past the last published |
| Job.FreshTagVersions | skywing/skywing_core/job.cpp:124-125 | publications on a fresh tag carry versions 0, 1, 2, ... |
| Job.Find | skywing/skywing_core/job.cpp:248-248 | the distance std::find reports is the first position of the tag, or the length when it is absent |
| Job.DistinctFind | skywing/skywing_core/job.cpp:248-248 | in a list without duplicates the tag at position k is found at k |
| Job.PermutationDistinct | skywing/skywing_core/job.cpp:245-247 | sorting a list without duplicates leaves it without duplicates |
| Job.HeapIndex | skywing/skywing_core/job.cpp:249-251 | c has parent index p exactly when c is p's left or right child index |
| Job.HeapNeighbors | skywing/skywing_core/job.cpp:248-259 | the neighbours read from the heap layout are always a parent, left child and right child entry |
| Job.CreateReduceGroupInit | skywing/skywing_core/job.cpp:236-270 | the produced tag is recorded, and the neighbours are the same for every ordering of the tags handed in |
| Job.HeapConsistent | skywing/skywing_core/job.cpp:248-259 | over distinct non-empty sorted tags, u names t as parent exactly when t names u as a child, and only the first tag has no parent |
| Job.ReduceTreeConsistent | skywing/skywing_core/job.cpp:245-259 | in a group of distinct non-empty tags, whatever their order, u names t as parent exactly when t names u as a child, and only the first in string order is the root |
| StringOrder.LessIrreflexive | skywing/skywing_core/job.cpp:247-247 | no string sorts before itself |
| StringOrder.LessTransitive | skywing/skywing_core/job.cpp:247-247 | the std::string ordering is transitive |
| StringOrder.LessTotal | skywing/skywing_core/job.cpp:247-247 | any two different strings are ordered one way or the other |
| StringOrder.LessAsymmetric | skywing/skywing_core/job.cpp:247-247 | no two strings sort before each other |
| StringOrder.Insert | skywing/skywing_core/job.cpp:247-247 | inserting into a sorted list keeps it sorted and adds exactly that element |
| StringOrder.Sort | skywing/skywing_core/job.cpp:247-247 | sorting yields an ascending permutation of its input |
| StringOrder.SortedUnique | skywing/skywing_core/job.cpp:245-247 | two sorted lists holding the same strings are identical |
| StringOrder.SortPermutationInvariant | skywing/skywing_core/job.cpp:245-247 | the sorted order does not depend on the order of the input |
| StringOrder.SortedDistinctIsStrict | skywing/skywing_core/job.cpp:245-247 | a sorted list without duplicates is strictly ascending |
| ReduceGroup.NewGroup | skywing/skywing_core/internal/reduce_group.cpp:9-20 | a freshly built member is well formed: three valid empty buffers and nothing sent |
| ReduceGroup.Combine | skywing/skywing_core/internal/reduce_group.hpp:243-262 | with no children the own value is passed on; with a left child only, op(left, own); with both, op(op(left, own), right); each child's value is taken out of its buffer at the required version |
| ReduceGroup.Complete | skywing/skywing_core/internal/reduce_group.hpp:242-272 | completing a reduce records its version as sent and changes nothing but the buffers |
| ReduceGroup.CompleteAtRoot | skywing/skywing_core/internal/reduce_group.hpp:264-268 | at the root, once a reduce completes at a version buffer 0 did not yet hold, the waiter at that version returns exactly the combined value, for a reduce and an allreduce alike; only an allreduce sends the value to the children |
| ReduceGroup.CompleteBelowRoot | skywing/skywing_core/internal/reduce_group.hpp:269-271 | below the root, completing a reduce sends the combined value to the parent under its version, leaves buffer 0 alone, and releases the reduce's waiter, which yields no value unless the member was disconnected |
| ReduceGroup.ProcessPending | skywing/skywing_core/internal/reduce_group.hpp:225-274 | processing keeps the member well formed and its setup unchanged, and never lengthens the queue |
| ReduceGroup.ProcessPendingSuffix | skywing/skywing_core/internal/reduce_group.hpp:239-241 | what stays queued is a suffix of the queue: reduces leave only from the front |
| ReduceGroup.ProcessPendingStops | skywing/skywing_core/internal/reduce_group.hpp:239-241 | processing stops only at a reduce that is not ready, in a valid group |
| ReduceGroup.ProcessPendingInvalid | skywing/skywing_core/internal/reduce_group.hpp:239-240 | an invalid group drops its whole queue and sends nothing |
| ReduceGroup.ProcessPendingLastSent | skywing/skywing_core/internal/reduce_group.hpp:239-242 | the last version sent is that of the last reduce completed, and nothing changes when none completes |
| ReduceGroup.ProcessPendingSendsUp | skywing/skywing_core/internal/reduce_group.hpp:266-272 | a non-root member sends one message to its parent per completed reduce, in queue order, under that reduce's version |
| ReduceGroup.Reduce | skywing/skywing_core/internal/reduce_group.hpp:301-308 | a reduce asks for the version after the last one sent, 0 after a rebuild, and the waiter remembers the current connection counter |
| ReduceGroup.LeafReducesAtOnce | skywing/skywing_core/internal/reduce_group.hpp:225-272 | a non-root leaf completes a reduce at once, sending its own value to the parent under the next version |
| ReduceGroup.WaiterResult | skywing/skywing_core/internal/reduce_group.hpp:321-347 | an allreduce, or the root of a reduce, returns the buffered result whenever it is there, error or not; otherwise an error reads as a disconnection, and a non-root reduce without error has no value |
| ReduceGroup.SlotOf | skywing/skywing_core/internal/reduce_group.cpp:37-38 | the slot chosen is the first of the three neighbour tags equal to the tag, or none |
| ReduceGroup.AddData | skywing/skywing_core/internal/reduce_group.cpp:23-62 | data of the wrong types, or on a tag that is no neighbour, is refused and changes nothing; otherwise it is appended to that neighbour's buffer by the add as written, a parent's value is passed to the children, and the queue is processed |
| ReduceGroup.AddDataCompletesIff | skywing/skywing_core/internal/reduce_group.cpp:37-49 | data from a child that the front reduce waits on completes that reduce exactly when its version reaches the reduce's: the add appends every version and `has_data` reads only the newest entry, so a late older version stalls the reduce |
| ReduceGroup.PropagateDisconnection | skywing/skywing_core/internal/reduce_group.cpp:64-89 | a notice is acted on the first time a machine reports and when its id differs from the last one heard; acting invalidates the group, advances the counter and passes the notice on, while a repeat changes nothing |
| ReduceGroup.PropagateTwiceActsOnce | skywing/skywing_core/internal/reduce_group.cpp:64-89 | hearing the same notice twice acts once |
| ReduceGroup.ReportDisconnection | skywing/skywing_core/internal/reduce_group.cpp:91-100 | a disconnection the member detects always invalidates it, advances the counter, and sends a notice in its own name |
| ReduceGroup.Rebuild | skywing/skywing_core/internal/reduce_group.cpp:111-121 | a rebuild forgets the last version sent, makes the group valid and empties all three buffers, keeping everything else |
| ReduceGroup.RebuildAfterDisconnection | skywing/skywing_core/internal/reduce_group.cpp:64-121 | after a disconnection and a rebuild, waiters from before see the error at once, and the next reduce asks for version 0 |
| Algorithms.FindFrom | skywing/skywing_core/internal/utility/algorithms.hpp:80-82 | std::string::find from a position returns the first occurrence at or after it, or the end |
| Algorithms.CountAppend | skywing/skywing_core/internal/utility/algorithms.hpp:76-93 | separators are counted piecewise over a concatenation |
| Algorithms.CountAbsent | skywing/skywing_core/internal/utility/algorithms.hpp:76-93 | a text has no separator exactly when the count is zero |
| Algorithms.TerminatedCount | skywing/skywing_core/internal/utility/algorithms.hpp:76-93 | pieces without separators, each followed by one, contain exactly one separator per piece |
| Algorithms.Split | skywing/skywing_core/internal/utility/algorithms.hpp:76-93 | split cuts at every separator from left to right into pieces that rejoin to the input; the last piece may keep separators once max_count - 1 pieces are cut, and the piece count is one more than the separators, capped at max_count |
| Algorithms.Concatenate | skywing/skywing_core/internal/utility/algorithms.hpp:45-58 | the result is as long as all containers together |
| Algorithms.TotalLengthPrefix | skywing/skywing_core/internal/utility/algorithms.hpp:53-56 | container i ends inside the total length |
| Algorithms.ConcatenateSlices | skywing/skywing_core/internal/utility/algorithms.hpp:53-56 | container i is copied into the slice that starts after the containers before it |
| Algorithms.MergeSets | skywing/skywing_core/internal/utility/algorithms.hpp:27-31 | set merge leaves lhs the union, and rhs keeps only the elements lhs already held |
| Algorithms.InsertAndClear | skywing/skywing_core/internal/utility/algorithms.hpp:35-40 | the fallback inserts everything into lhs and empties rhs |
| Algorithms.MergeIsUnion | skywing/skywing_core/internal/utility/algorithms.hpp:27-68 | both ways of merging leave the same union in lhs, and nothing is lost |
| Config.LTrim | skywing/skywing_mid/helpers/skynet_config.hpp:63-71 | everything ltrim drops is whitespace, and the result does not start with whitespace |
| Config.LTrimSuffix | skywing/skywing_mid/helpers/skynet_config.hpp:63-71 | what ltrim keeps is a suffix of its input |
| Config.TrimmedLength | skywing/skywing_mid/helpers/skynet_config.hpp:77-81 | the length up to the last non-space character: everything after it is whitespace |
| Config.RTrim | skywing/skywing_mid/helpers/skynet_config.hpp:73-81 | everything rtrim drops is whitespace, and the result does not end with whitespace |
| Config.RTrimPrefix | skywing/skywing_mid/helpers/skynet_config.hpp:73-81 | what rtrim keeps is a prefix of its input |
| Config.TrimIdempotent | skywing/skywing_mid/helpers/skynet_config.hpp:63-81 | trimming an already trimmed string changes nothing, at either end |
| Config.LTrimUnique | skywing/skywing_mid/helpers/skynet_config.hpp:63-71 | any split into a whitespace prefix and a rest that does not start with whitespace is the one ltrim finds |
| Config.RTrimUnique | skywing/skywing_mid/helpers/skynet_config.hpp:73-81 | any split into a rest that does not end with whitespace and a whitespace suffix is the one rtrim finds |
| Config.IndexOf | skywing/skywing_mid/helpers/skynet_config.hpp:83-86 | the position of the first occurrence of the character, or the length when there is none; no earlier position holds it |
| Config.IndexOfAfterPrefix | skywing/skywing_mid/helpers/skynet_config.hpp:83-86 | the first occurrence after a prefix free of the character is right after that prefix |
| Config.CutAt | skywing/skywing_mid/helpers/skynet_config.hpp:83-86 | rtrim2 with the comment predicate keeps the prefix before the first comment character and nothing of it |
| Config.FindSubFrom | skywing/skywing_mid/helpers/skynet_config.hpp:91 | the first position at or after the start where the pattern occurs; no earlier position from the start matches |
| Config.FindSub | skywing/skywing_mid/helpers/skynet_config.hpp:91 | the first occurrence of the pattern, and no occurrence before it |
| Config.ReplaceAllNone | skywing/skywing_mid/helpers/skynet_config.hpp:88-97 | text without an occurrence of the pattern is unchanged |
| Config.ReplaceAllAt | skywing/skywing_mid/helpers/skynet_config.hpp:88-97 | the first occurrence splits the result into the text before it, the replacement, and the replacement of what follows the occurrence |
| Config.Replace | skywing/skywing_mid/helpers/skynet_config.hpp:88-97 | the loop replaces every occurrence left to right without rescanning inserted text, and reports a change exactly when the pattern occurred |
| Config.LastIndexOf | skywing/skywing_mid/helpers/skynet_config.hpp:180 | rfind: the last position holding the character, with none after it, or none when the character is absent |
| Config.LastIndexOfAfter | skywing/skywing_mid/helpers/skynet_config.hpp:180 | the last colon of a host followed by colon-free text is the one the host ends with |
| Config.ExtractIpAndPort | skywing/skywing_mid/helpers/skynet_config.hpp:179-199 | no colon gives the whole value and port 0; otherwise the host is the text before the last colon; an error only when there is a colon |
| Config.ExtractAt | skywing/skywing_mid/helpers/skynet_config.hpp:186-194 | with a readable port after the last colon the host is the text before it and the port is clamped to 65535 |
| Config.ExtractRenderedAddress | skywing/skywing_mid/helpers/skynet_config.hpp:179-199 | host:port comes back as that host and port, whatever colons the host holds, with ports above 65535 clamped |
| Config.ExtractTrailingColon | skywing/skywing_mid/helpers/skynet_config.hpp:182-185 | a trailing colon gives the host and port 0 |
| Config.ExtractRejectsNonNumeric | skywing/skywing_mid/helpers/skynet_config.hpp:187-197 | a port text that does not start with a number raises invalid_argument |
| Config.LocalSymbol | skywing/skywing_mid/helpers/skynet_config.hpp:134-138 | the symbol is the name wrapped in `${` and `}` |
| Config.GlobalSymbol | skywing/skywing_mid/helpers/skynet_config.hpp:140-142 | the symbol is section, ':' and name wrapped in `${` and `}` |
| Config.LocalSymbolInjective | skywing/skywing_mid/helpers/skynet_config.hpp:136-138 | different names have different local symbols |
| Config.GlobalSymbolInjective | skywing/skywing_mid/helpers/skynet_config.hpp:140-142 | section names without ':' make global symbols name one entry each |
| Config.GlobalSymbolAmbiguous | skywing/skywing_mid/helpers/skynet_config.hpp:140-142 | with ':' in a section name two different entries share one global symbol |
| Config.SectionOf | skywing/skywing_mid/helpers/skynet_config.hpp:387 | the section stored under a name, with sorted keys, and the empty section when the name is absent |
| Config.Trim | skywing/skywing_mid/helpers/skynet_config.hpp:368-369 | the trimmed line is empty exactly when the line is all whitespace, and otherwise starts and ends with a non-space |
| Config.TrimOfTrimmed | skywing/skywing_mid/helpers/skynet_config.hpp:368-369 | a line without whitespace at either end is its own trim |
| Config.Classify | skywing/skywing_mid/helpers/skynet_config.hpp:370-395 | a line is blank exactly when it is all whitespace |
| Config.AssignmentShape | skywing/skywing_mid/helpers/skynet_config.hpp:382-386 | an assignment's key is non-empty, holds no '=', is trimmed and cannot start a comment or a header; its value is trimmed |
| Config.ClassifyHeader | skywing/skywing_mid/helpers/skynet_config.hpp:376-378 | the header line generate writes is read back as that section name |
| Config.ClassifyAssignment | skywing/skywing_mid/helpers/skynet_config.hpp:382-386 | the key=value line generate writes is read back as that key and value |
| Config.ClassifyComment | skywing/skywing_mid/helpers/skynet_config.hpp:374-375 | a line starting with ';' is a comment |
| Config.ParseLine | skywing/skywing_mid/helpers/skynet_config.hpp:367-396 | sorted sections stay sorted; a line either adds no error or adds its trimmed text as the one error, and then changes nothing else |
| Config.Lines | skywing/skywing_mid/helpers/skynet_config.hpp:367 | getline yields lines holding no newline |
| Config.ParseLines | skywing/skywing_mid/helpers/skynet_config.hpp:367-397 | sorted sections stay sorted across every line |
| Config.Parse | skywing/skywing_mid/helpers/skynet_config.hpp:362-398 | the parsed sections form sorted maps |
| Config.ParseLineKeeps | skywing/skywing_mid/helpers/skynet_config.hpp:387-391 | a stored key keeps its value whatever line comes next: the first definition wins |
| Config.ParseLinesKeep | skywing/skywing_mid/helpers/skynet_config.hpp:387-391 | a stored key keeps its value through every later line |
| Config.ParseLineAssigns | skywing/skywing_mid/helpers/skynet_config.hpp:382-391 | a new key is stored in the current section with its value; a repeated one is an error and changes no section |
| Config.ParseLineSkips | skywing/skywing_mid/helpers/skynet_config.hpp:371-375 | blank and comment lines leave the state unchanged |
| Config.ParseLinesAppend | skywing/skywing_mid/helpers/skynet_config.hpp:367-397 | parsing two parts is parsing the second from the state the first left, so errors are only appended |
| Config.ErrorsGrow | skywing/skywing_mid/helpers/skynet_config.hpp:380-394 | the errors so far stay a prefix of the errors at the end |
| Config.StripValue | skywing/skywing_mid/helpers/skynet_config.hpp:425-426 | the stripped value is a prefix of the value, holds no ';' and does not end with whitespace |
| Config.StripValueRemoves | skywing/skywing_mid/helpers/skynet_config.hpp:425-426 | what is removed is whitespace, then either nothing or a ';' and all that follows it |
| Config.StripValueIdempotent | skywing/skywing_mid/helpers/skynet_config.hpp:421-428 | stripping a stripped value changes nothing |
| Config.RTrimIdempotent | skywing/skywing_mid/helpers/skynet_config.hpp:77-81 | rtrim of an rtrimmed string changes nothing |
| Config.StripTrailingComments | skywing/skywing_mid/helpers/skynet_config.hpp:421-428 | every section and key stays in place and every value is stripped; sorted maps stay sorted |
| Config.StripTwice | skywing/skywing_mid/helpers/skynet_config.hpp:421-428 | stripping the comments twice is stripping them once |
| Config.LocalSymbols | skywing/skywing_mid/helpers/skynet_config.hpp:438-443 | one pair per key, in key order, mapping `${key}` to `${section:key}` |
| Config.SectionSymbols | skywing/skywing_mid/helpers/skynet_config.hpp:447-450 | one pair per key of a section, mapping `${section:key}` to the key's value |
| Config.GlobalSymbols | skywing/skywing_mid/helpers/skynet_config.hpp:445-452 | every symbol to replace is non-empty |
| Config.Substitute | skywing/skywing_mid/helpers/skynet_config.hpp:457-458 | one symbol is replaced in every value, the keys are kept, and a section that does not mention the symbol is unchanged |
| Config.ReplaceSymbols | skywing/skywing_mid/helpers/skynet_config.hpp:454-460 | keys are kept in place, and when nothing changed the section is as it was |
| Config.SameKeysSorted | skywing/skywing_mid/helpers/skynet_config.hpp:454-460 | rewriting values leaves the key order sorted |
| Config.LocalPhase | skywing/skywing_mid/helpers/skynet_config.hpp:403-405 | every section and key stays in place |
| Config.GlobalPass | skywing/skywing_mid/helpers/skynet_config.hpp:408-411 | every section and key stays in place, and when no replace changed anything the sections are as they were |
| Config.GlobalPhase | skywing/skywing_mid/helpers/skynet_config.hpp:407-412 | the loop runs at least one and at most max_interpolation_depth + 1 passes and keeps every section and key in place |
| Config.Interpolate | skywing/skywing_mid/helpers/skynet_config.hpp:400-413 | at most eleven global passes, every section and key kept in place |
| Config.InterpolateWellSorted | skywing/skywing_mid/helpers/skynet_config.hpp:400-413 | interpolation keeps the sections sorted maps |
| Config.GlobalPhaseEarlyStop | skywing/skywing_mid/helpers/skynet_config.hpp:412 | when the loop stops before its depth limit another pass would change nothing |
| Config.NoDollarNoMatch | skywing/skywing_mid/helpers/skynet_config.hpp:91 | a symbol starting with '$' is not found in text without '$' |
| Config.ReplaceSymbolsNoDollar | skywing/skywing_mid/helpers/skynet_config.hpp:454-460 | values without '$' are left alone and reported unchanged |
| Config.InterpolateNoDollar | skywing/skywing_mid/helpers/skynet_config.hpp:400-413 | a configuration whose values hold no '$' is left alone and the loop stops after one pass |
| Config.ReplaceWhole | skywing/skywing_mid/helpers/skynet_config.hpp:88-97 | a value that is exactly a symbol becomes its replacement |
| Config.Load | skywing/skywing_mid/helpers/skynet_config.hpp:233-238 | after parsing only values change: the sections and their keys are the ones the file defined, still sorted maps |
| Config.StripKeepsKeys | skywing/skywing_mid/helpers/skynet_config.hpp:421-428 | stripping comments keeps every section name and key list |
| Config.LoadNoDollar | skywing/skywing_mid/helpers/skynet_config.hpp:233-238 | a file whose values hold no '$' loads as its parsed sections with trailing comments stripped |
| SocketCommunicator.SplitAddressAsWritten | skywing/skywing_core/internal/devices/socket_communicator.cpp:282-297 | no colon gives the empty pair; any other accepted address splits at its first colon into a colon-free host and the port after it |
| SocketCommunicator.SplitAddress | skywing/skywing_core/internal/devices/socket_communicator.cpp:282-297 | as split_address, and an accepted address has at least one character after the colon |
| SocketCommunicator.SplitAddressEmptyPort | skywing/skywing_core/internal/devices/socket_communicator.cpp:289-292 | as written "host:" is accepted with port 0; the corrected splitter refuses it |
| SocketCommunicator.SplitRenderedAddress | skywing/skywing_core/internal/devices/socket_communicator.cpp:282-297 | a colon-free host joined by ':' to a port in range is split back into that host and port |
| SocketCommunicator.SplitAddressRejectsTrailingText | skywing/skywing_core/internal/devices/socket_communicator.cpp:290-292 | a port followed by text strtol does not read gives the empty pair |
| SocketCommunicator.ScanStopsAtJunk | skywing/skywing_core/internal/devices/socket_communicator.cpp:290 | strtol stops at the first character that is not a digit |
| SocketCommunicator.ReadMessage | skywing/skywing_core/internal/devices/socket_communicator.cpp:217-227 | success exactly when read returned a positive count, and closed exactly when it returned 0 |
| SocketCommunicator.NumIters | skywing/skywing_core/internal/devices/socket_communicator.cpp:263-265 | the number of 4096-byte steps needed to cover the message, and none for an empty one |
| SocketCommunicator.Chunk | skywing/skywing_core/internal/devices/socket_communicator.cpp:263-273 | every intended request is for 1 to 4096 bytes and stays inside the message |
| SocketCommunicator.ScheduleAsWritten | skywing/skywing_core/internal/devices/socket_communicator.cpp:263-273 | one request per iteration |
| SocketCommunicator.Schedule | skywing/skywing_core/internal/devices/socket_communicator.cpp:263-273 | one request per iteration |
| SocketCommunicator.SumFull | skywing/skywing_core/internal/devices/socket_communicator.cpp:273 | k full steps request k times 4096 bytes |
| SocketCommunicator.ScheduleCoversMessage | skywing/skywing_core/internal/devices/socket_communicator.cpp:263-273 | the intended requests add up to the message size and none is for 0 bytes |
| SocketCommunicator.ScheduleAsWrittenDiffers | skywing/skywing_core/internal/devices/socket_communicator.cpp:263-273 | as written the requests match the intended ones unless 4096 divides the size; then the last asks for 0 bytes and the requests miss 4096 bytes |
| SocketCommunicator.ReadChunked | skywing/skywing_core/internal/devices/socket_communicator.cpp:250-280 | the loop returns the whole message exactly when every request succeeds and nothing otherwise, and never allocates more than the message size |
| SocketCommunicator.ReadChunkedDropsMultiples | skywing/skywing_core/internal/devices/socket_communicator.cpp:263-277 | when 4096 divides the size the final 0-byte read reports closed and the message is dropped |
| SocketCommunicator.ReadChunkedDelivers | skywing/skywing_core/internal/devices/socket_communicator.cpp:266-279 | with the intended requests a peer that answers every request gives the whole message |
| SocketCommunicator.ReadChunkedFailure | skywing/skywing_core/internal/devices/socket_communicator.cpp:275-277 | any failed request drops the message |
| PubSubConverter.IdentityRoundTrips | skywing/skywing_mid/pubsub_converter.hpp:24-52 | the default converter, which passes a natively supported value through, deconverts to what it converted |
| PubSubConverter.MapSeq | skywing/skywing_mid/pubsub_converter.hpp:370-384 | the converted vector has one element per input element, each converted in order |
| PubSubConverter.VectorRoundTrips | skywing/skywing_mid/pubsub_converter.hpp:359-386 | a vector converter built from a round-tripping element converter round-trips |
| PubSubConverter.MapToColumns | skywing/skywing_mid/pubsub_converter.hpp:187-199 | the unordered_map becomes parallel key and value vectors, one entry per key in iteration order |
| PubSubConverter.MapFromColumns | skywing/skywing_mid/pubsub_converter.hpp:202-214 | the rebuilt map's keys are exactly the keys in the key vector |
| PubSubConverter.MapFromColumnsLastWins | skywing/skywing_mid/pubsub_converter.hpp:211-212 | a repeated key keeps the value paired with its last occurrence |
| PubSubConverter.MapRoundTrip | skywing/skywing_mid/pubsub_converter.hpp:178-216 | rebuilding a map from its columns gives the same map, whatever the iteration order |
| PubSubConverter.Transpose | skywing/skywing_mid/pubsub_converter.hpp:244-259 | a vector of tuples becomes one column per tuple position, each as long as the input, holding that position of every tuple |
| PubSubConverter.Zip | skywing/skywing_mid/pubsub_converter.hpp:276-299 | rows can be rebuilt exactly when no column is shorter than the first; row i then gathers position i of every column |
| PubSubConverter.TupleVectorRoundTrip | skywing/skywing_mid/pubsub_converter.hpp:222-302 | transposing a vector of tuples and zipping the columns gives the vector back |
| PubSubConverter.TupleVectorReverseRoundTrip | skywing/skywing_mid/pubsub_converter.hpp:222-302 | columns of equal length are zipped and transposed back into the same columns |
| PubSubConverter.Flatten | skywing/skywing_mid/pubsub_converter.hpp:319-333 | one uint32 size per inner vector, in order, narrowed modulo 2^32 |
| PubSubConverter.FlattenConcatenates | skywing/skywing_mid/pubsub_converter.hpp:319-333 | the flat vector is the converted elements of the inner vectors, concatenated in order |
| PubSubConverter.ConcatenateCons | skywing/skywing_mid/pubsub_converter.hpp:323-328 | the flat vector is the first inner vector followed by the flattening of the rest |
| PubSubConverter.Unflatten | skywing/skywing_mid/pubsub_converter.hpp:335-353 | one inner vector per size, each of exactly that size |
| PubSubConverter.FlattenSizes | skywing/skywing_mid/pubsub_converter.hpp:319-333 | sizes below 2^32 add up to the length of the flat vector |
| PubSubConverter.NestedRoundTrip | skywing/skywing_mid/pubsub_converter.hpp:310-354 | with inner sizes below 2^32 and a round-tripping element converter, deconverting the flattened vector gives it back |
| PubSubConverter.NestedSizeTruncates | skywing/skywing_mid/pubsub_converter.hpp:325 | an inner vector of 2^32 elements is recorded as size 0 |
| AssociativeVector.FromKeys | skywing/skywing_mid/associative_vector.hpp:20-25 | the vector holds exactly the given keys, each at the default value |
| AssociativeVector.Index | skywing/skywing_mid/associative_vector.hpp:36-49 | an error exactly for a missing index of a closed vector; otherwise the stored value or the default, with the index added and every other entry unchanged |
| AssociativeVector.CombineAssign | skywing/skywing_mid/associative_vector.hpp:77-113 | the loop over b's entries, in any iteration order, gives the combination of the two vectors |
| AssociativeVector.CombinedKeys | skywing/skywing_mid/associative_vector.hpp:77-113 | an open vector ends with the union of the keys, a closed one with its own; shared keys get the default-filled sum, others keep their value |
| AssociativeVector.ClosedAddSubtract | skywing/skywing_mid/associative_vector.hpp:77-113 | on a closed vector += b then -= b restores it |
| AssociativeVector.OpenAddSubtract | skywing/skywing_mid/associative_vector.hpp:77-113 | on an open vector += b then -= b restores the old entries and leaves the default at keys only b had |
| AssociativeVector.Plus | skywing/skywing_mid/associative_vector.hpp:147-165 | binary + and - give the union of the keys, each the left value or default plus or minus the right value where present |
| AssociativeVector.Scale | skywing/skywing_mid/associative_vector.hpp:115-121 | *= scales every stored value and keeps the keys and the default |
| AssociativeVector.Negate | skywing/skywing_mid/associative_vector.hpp:167-175 | unary - negates every stored value and keeps the keys, but resets the default to 0 |
| AssociativeVector.NegateTwice | skywing/skywing_mid/associative_vector.hpp:167-175 | negating twice gives the vector back with default 0 |
| AssociativeVector.NegateIsScale | skywing/skywing_mid/associative_vector.hpp:167-175 | negation and scaling by -1 agree on every stored value |
| AssociativeVector.SumOverRemove | skywing/skywing_mid/associative_vector.hpp:69-74 | a sum over listed keys is one key's term plus the sum over the others |
| AssociativeVector.SumOverPermutation | skywing/skywing_mid/associative_vector.hpp:69-74 | sums over two duplicate-free listings of the same keys agree |
| AssociativeVector.DotOrderIndependent | skywing/skywing_mid/associative_vector.hpp:67-75 | with integer values the dot product does not depend on the hash map's iteration order |
| AssociativeVector.ToPubSub | skywing/skywing_mid/associative_vector.hpp:224-230 | the converted form carries the default and one key and one value per entry |
| AssociativeVector.PubSubRoundTrip | skywing/skywing_mid/associative_vector.hpp:216-239 | deconverting the converted vector gives back its default and every entry |
| Manager.LowerBound | skywing/skywing_core/manager.cpp:96 | the reference for `std::lower_bound` on a sorted list: the first position whose id is not less than the searched one, every earlier one being less |
| Manager.LowerBoundUnique | skywing/skywing_core/manager.cpp:96 | any position with only smaller ids before it and a not-smaller id at it is the lower bound |
| Manager.NotLessAfter | skywing/skywing_core/manager.cpp:96 | in a sorted list no id from the lower bound on is less than the searched id |
| Manager.SearchFrom | skywing/skywing_core/manager.cpp:96 | `std::lower_bound`'s halving over a range stays inside the range, on any list |
| Manager.Search | skywing/skywing_core/manager.cpp:96 | the search over the whole list ends at a position from 0 to the length |
| Manager.SearchFromBits | skywing/skywing_core/manager.cpp:96 | the halving search depends only on which elements are less than the id |
| Manager.SearchBitsCut | skywing/skywing_core/manager.cpp:96 | when exactly the elements before some position k in the range are less than the id, the halving search finds k |
| Manager.SearchFromSorted | skywing/skywing_core/manager.cpp:96 | when the elements less than the id come first, the search finds the first position not less than the id |
| Manager.SearchIsLowerBound | skywing/skywing_core/manager.cpp:96 | on a sorted list the search is the first position not less than the id |
| Manager.HasNeighbor | skywing/skywing_core/manager.cpp:94-98 | on any list, a yes from `has_neighbor` means the id is listed |
| Manager.HasNeighborSorted | skywing/skywing_core/manager.cpp:94-98 | on a sorted list `has_neighbor` is exactly membership |
| Manager.HasNeighborMissesUnsorted | skywing/skywing_core/manager.cpp:28 | on the greeting's list in hash order, `has_neighbor` misses the listed "a" in ["b", "a"], NewNeighbor then lists "a" twice, and the search on ["c", "a", "b"] for "b" gives 2 where the lower bound is 0 |
| Manager.GreetingNeighbors | skywing/skywing_core/manager.cpp:669-673 | the corrected constructor sorts the greeting's list: a sorted permutation of it, strictly increasing when the map's keys are distinct |
| Manager.GreetingHasNeighbor | skywing/skywing_core/manager.cpp:94-98 | with the corrected constructor `has_neighbor` is membership in the sender's neighbour map |
| Manager.GreaterAfter | skywing/skywing_core/manager.cpp:222-226 | when the id is not at its lower bound, every id from there on is greater |
| Manager.InsertKeepsOrder | skywing/skywing_core/manager.cpp:226 | inserting an id between the smaller and the greater ids keeps the list strictly increasing |
| Manager.NewNeighbor | skywing/skywing_core/manager.cpp:218-228 | on any list the handler adds the id and nothing else, and grows the list by one exactly when `has_neighbor` says no |
| Manager.NewNeighborKeepsOrder | skywing/skywing_core/manager.cpp:218-228 | on a strictly increasing list the handler keeps it strictly increasing, and a repeated id leaves it unchanged |
| Manager.InsertAtLowerBound | skywing/skywing_core/manager.cpp:222-226 | an id missing at its lower bound is absent, and inserting it there keeps the list strictly increasing |
| Manager.RemoveNeighborAsWrittenDrops | skywing/skywing_core/manager.cpp:229-242 | as written the id at the search position is dropped, whatever it is, and a duplicate-free list shrinks by one |
| Manager.RemoveNeighborAsWrittenWrong | skywing/skywing_core/manager.cpp:232-240 | as written removing an absent id drops its successor, and removing the first of three leaves the list out of order |
| Manager.RemoveNeighbor | skywing/skywing_core/manager.cpp:229-242 | the corrected handler, on any list, adds nothing and shrinks the list by one exactly when `has_neighbor` says yes |
| Manager.RemoveNeighborKeepsOrder | skywing/skywing_core/manager.cpp:229-242 | on a strictly increasing list the corrected handler keeps it strictly increasing and removes exactly the id; an absent id leaves it unchanged |
| Manager.EraseKeepsOrder | skywing/skywing_core/manager.cpp:229-242 | erasing one position keeps the list strictly increasing and removes exactly the id there |
| Manager.RemoveUndoesNew | skywing/skywing_core/manager.cpp:218-242 | adding a new neighbour and then removing it restores the list |
| Manager.LowerBoundPrefix | skywing/skywing_core/manager.cpp:232 | after erasing an id its lower bound is where it was |
| Manager.NewUndoesRemove | skywing/skywing_core/manager.cpp:218-242 | removing a present neighbour and then adding it back restores the list |
| Manager.ReinsertAt | skywing/skywing_core/manager.cpp:222-226 | inserting an id back where it was erased gives the original list |
| Manager.LowerBoundOfMember | skywing/skywing_core/manager.cpp:96 | a listed neighbour's lower bound is its own position |
| Manager.BackoffDelay | skywing/skywing_core/manager.cpp:368-371 | the table entry for the counter, or 5000 ms once the counter runs past the table |
| Manager.BackoffMonotone | skywing/skywing_core/manager.cpp:368-371 | a larger counter never waits less, and every delay lies in 20 to 5000 ms |
| Manager.NextRequestTime | skywing/skywing_core/manager.cpp:365-373 | the next request is 20 to 5000 ms after the given clock reading |
| Manager.ResetBackoff | skywing/skywing_core/manager.cpp:82-86 | the counter is 0 and the next request is 20 ms away |
| Manager.IncreaseBackoff | skywing/skywing_core/manager.cpp:88-92 | the uint8 counter goes up by one modulo 256 and the next request waits its delay |
| Manager.BackoffWraps | skywing/skywing_core/manager.cpp:88-92 | after 255 the counter wraps to 0 and the delay returns to 20 ms |
| Manager.RemoveTagsWithEnoughPublishers | skywing/skywing_core/manager.cpp:822-847 | the two columns stay equal in length, and every kept pair still lacks publishers, counted as (address, machine) pairs plus one for a local producer |
| Manager.TwoAddressesCountTwice | skywing/skywing_core/manager.cpp:838-841 | one machine known at two addresses counts as two publishers, so a tag needing two is dropped |
| Manager.RemoveTagsKeepsInputPairs | skywing/skywing_core/manager.cpp:828-846 | every kept (tag, needed) pair is a pair of the input |
| Manager.RemoveTagsKeepsNeeded | skywing/skywing_core/manager.cpp:838-841 | every input pair that still lacks publishers is kept |
| Manager.RemoveTagsIdempotent | skywing/skywing_core/manager.cpp:822-847 | filtering the result again removes nothing more |
| Manager.SubscribeIsDone | skywing/skywing_core/manager.cpp:681-690 | done exactly when every required tag is produced locally or has a machine serving it |
| Manager.ReportNewPublishTags | skywing/skywing_core/manager.cpp:951-963 | a tag already produced is the error; otherwise every tag is entered with count 0 and every earlier count is kept |
| Manager.ReportTwiceFails | skywing/skywing_core/manager.cpp:955-962 | reporting the same non-empty list of tags a second time fails |
| NetworkConv.LittleEndianValueOfBytes | skywing/skywing_core/internal/utility/network_conv.cpp:19-27 | reading back the least-significant-first bytes of a value gives the value |
| NetworkConv.LittleEndianBytesOfValue | skywing/skywing_core/internal/utility/network_conv.cpp:9-16 | every four bytes are the least-significant-first encoding of the value they read as |
| NetworkConv.Reverse | skywing/skywing_core/internal/endian_posix.hpp:10 | byte i of the reversed bytes is byte 3 - i of the original |
| NetworkConv.ByteSwapTwice | skywing/skywing_core/internal/endian_posix.hpp:10 | swapping the bytes of a uint32 twice gives it back |
| NetworkConv.SwappedBytes | skywing/skywing_core/internal/endian_posix.hpp:10 | the bytes of a swapped value are its bytes reversed |
| NetworkConv.SwappedValue | skywing/skywing_core/internal/endian_posix.hpp:10 | swapping the value read from reversed bytes reads them in order |
| NetworkConv.ToNetworkBytes | skywing/skywing_core/internal/utility/network_conv.cpp:19-27 | on either host the bytes sent are the value least significant byte first |
| NetworkConv.FromNetworkBytes | skywing/skywing_core/internal/utility/network_conv.cpp:9-16 | on either host the bytes received are read least significant byte first |
| NetworkConv.SizeRoundTrip | skywing/skywing_core/internal/utility/network_conv.cpp:9-27 | a size sent from a host of one byte order is read back unchanged on a host of either order |
| NetworkConv.BytesRoundTrip | skywing/skywing_core/internal/utility/network_conv.cpp:9-27 | every four-byte header is the encoding of the size it decodes to |
| ManagerConfig.ParseIntegerLineAsWritten | skywing/skywing_core/basic_manager_config.cpp:12-35 | an accepted line is the next line of the stream and its value lies in the type's range |
| ManagerConfig.EmptyLineIsZero | skywing/skywing_core/basic_manager_config.cpp:28-34 | as written an empty line is read as the number 0 |
| ManagerConfig.ParseIntegerLine | skywing/skywing_core/basic_manager_config.cpp:12-35 | the corrected reader accepts only a non-empty line, in range, and then agrees with the reader as written |
| ManagerConfig.ParseIntegerLineRejectsEmpty | skywing/skywing_core/basic_manager_config.cpp:28-34 | the corrected reader refuses an empty line |
| ManagerConfig.ParseRenderedInteger | skywing/skywing_core/basic_manager_config.cpp:12-35 | a number in range written on its own line is read back, leaving the stream after that line |
| ManagerConfig.RemainingLines | skywing/skywing_core/basic_manager_config.cpp:50-53 | every address kept is a non-empty line |
| ManagerConfig.RemainingLinesOfRendered | skywing/skywing_core/basic_manager_config.cpp:50-53 | non-empty lines written one per line are read back in order |
| ManagerConfig.BlankLineSkipped | skywing/skywing_core/basic_manager_config.cpp:52 | a blank line between addresses is skipped |
| ManagerConfig.ReadManagerConfig | skywing/skywing_core/basic_manager_config.cpp:38-55 | no configuration exactly when the name, port or heartbeat line is missing or invalid; otherwise the name is the first line and the addresses are non-empty lines |
| ManagerConfig.ManagerConfigRoundTrip | skywing/skywing_core/basic_manager_config.cpp:38-55 | writing a configuration out line by line and reading it back gives the same configuration |
| NodeList.PySplit | examples/lc_hello_world/generate_config_info.py:34-35 | split gives the separator-free pieces, one piece exactly when the separator is absent, and joining them restores the text |
| NodeList.TerminatedCons | examples/lc_hello_world/generate_config_info.py:35 | joining with a terminator after each piece distributes over the first piece |
| NodeList.JoinCons | examples/lc_hello_world/generate_config_info.py:35 | joining with separators distributes over the first piece |
| NodeList.PySplitNone | examples/lc_hello_world/generate_config_info.py:35 | text without the separator splits into itself |
| NodeList.PySplitFirst | examples/lc_hello_world/generate_config_info.py:34-35 | splitting cuts at the first separator |
| NodeList.NamedRange | examples/lc_hello_world/generate_config_info.py:43 | range(lo, hi + 1) gives hi - lo + 1 names, the i-th the cluster name followed by lo + i |
| NodeList.ExpandItem | examples/lc_hello_world/generate_config_info.py:37-43 | an item without '-' is one name, the cluster name followed by the item; the only failure is int() of a bound |
| NodeList.ExpandItems | examples/lc_hello_world/generate_config_info.py:37-43 | the expansion succeeds exactly when every item does, and every name starts with the cluster name |
| NodeList.ParseNodeList | examples/lc_hello_world/generate_config_info.py:30-44 | without '[' a comma is the assertion failure and otherwise the text is the one node |
| NodeList.ParseBracketed | examples/lc_hello_world/generate_config_info.py:34-44 | the bracketed form expands the comma-separated items between the brackets; what follows ']' plays no part |
| NodeList.ExpandRange | examples/lc_hello_world/generate_config_info.py:41-43 | "lo-hi" names every number from lo to hi inclusive, with zero padding on either bound dropped |
| NodeList.NoDash | examples/lc_hello_world/generate_config_info.py:38 | zero-padded digits hold no '-' |
| NodeList.RangeItemNoComma | examples/lc_hello_world/generate_config_info.py:35 | a range item holds no ',' |
| NodeList.ExpandNameAndRange | examples/lc_hello_world/generate_config_info.py:30-44 | "c[a,lo-hi]" gives c+a and then c+lo through c+hi, in that order |
| NodeList.ExpandPlainRange | examples/lc_hello_world/generate_config_info.py:41-43 | an unpadded range item names every number from lo to hi |
| NodeList.SplitRangeItem | examples/lc_hello_world/generate_config_info.py:42 | a range item splits at its dash into the two numerals |
| NodeList.DigitsNoDash | examples/lc_hello_world/generate_config_info.py:38 | digits hold no '-' |
| NodeList.PyIntOfNat | examples/lc_hello_world/generate_config_info.py:43 | int() of a rendered number is that number |
| NodeList.ParseTwoItems | examples/lc_hello_world/generate_config_info.py:34-35 | "c[a,lo-hi]" expands the two items a and lo-hi |
| NodeList.RangeItemNoBrackets | examples/lc_hello_world/generate_config_info.py:34-35 | a range item holds no bracket |
| NodeList.BodyNoBrackets | examples/lc_hello_world/generate_config_info.py:34-35 | two bracket-free items joined by ',' hold no bracket |
| NodeList.ExpandTwo | examples/lc_hello_world/generate_config_info.py:37-43 | two items expand to the first name followed by the second item's names |
| CInts.Inc8 | skywing/skywing_core/manager.cpp:90 | `++` on a uint8 adds one below 255 and wraps 255 to 0 |
| CInts.Inc16 | skywing/skywing_core/job.cpp:109 | `++` on a uint16 adds one below 65535 and wraps 65535 to 0 |
| CInts.Inc32 | skywing/skywing_core/job.cpp:125 | `+ 1` on a uint32 adds one below 2^32 - 1 and wraps it to 0 |
| Text.NatToString | examples/lc_hello_world/generate_config_info.py:43 | str() of a natural number: at least one digit, all digits, no leading zero |
| Text.IntToString | examples/lc_hello_world/generate_config_info.py:43 | str() of an integer: digits, with a leading '-' exactly when negative |
| Text.NatToStringValue | examples/lc_hello_world/generate_config_info.py:43 | the digits str() writes read back as the number |
| Text.NatToStringInjective | examples/lc_hello_world/generate_config_info.py:43 | different numbers are written differently |
| Text.IntToStringInjective | examples/lc_hello_world/generate_config_info.py:43 | different integers are written differently |
| Text.GetLine | skywing/skywing_core/basic_manager_config.cpp:16 | getline fails exactly on an exhausted stream; otherwise it returns the newline-free text up to the first newline and consumes that newline |
| Text.GetLineOfLine | skywing/skywing_core/basic_manager_config.cpp:16 | a line followed by a newline is read back as that line, leaving the rest |
| CNumerals.ScanInteger | skywing/skywing_core/basic_manager_config.cpp:29 | strtoll consumes nothing or ends right after its last digit, and reads 0 when it consumes nothing |
| CNumerals.StrToL | skywing/skywing_core/internal/devices/socket_communicator.cpp:290 | strtol reports 0 when it consumes nothing, and never consumes past the text |
| CNumerals.StrToLOfNatToString | skywing/skywing_core/internal/devices/socket_communicator.cpp:290 | strtol reads a rendered number back completely |
| CNumerals.StoUL | skywing/skywing_mid/helpers/skynet_config.hpp:188 | stoul throws invalid_argument exactly when nothing is converted, and a result fits an unsigned long |
| CNumerals.ExtractInteger | skywing/skywing_mid/helpers/skynet_config.hpp:149-161 | a value is extracted only when it fits the type and nothing but whitespace follows the numeral |
| CNumerals.ExtractRenderedInteger | skywing/skywing_mid/helpers/skynet_config.hpp:149-161 | a rendered number is extracted when it fits the type and refused otherwise |
| CNumerals.ExtractBool | skywing/skywing_mid/helpers/skynet_config.hpp:149-161 | a boolean is extracted only from text holding the word true or false |
| CNumerals.ExtractBoolWords | skywing/skywing_mid/helpers/skynet_config.hpp:149-161 | true and false surrounded by blanks are read back, and a numeral is not a boolean |
| CNumerals.PyInt | examples/lc_hello_world/generate_config_info.py:43 | int() succeeds only on text that starts, after blanks and a sign, with a digit |
| CNumerals.PyIntOfDigits | examples/lc_hello_world/generate_config_info.py:43 | int() of zero-padded digits is their value |
| NeighborData.Present | skywing/skywing_mid/neighbor_data_handler.hpp:256-265 | the subscribed tags that have a value, each one of them, and only those |
| NeighborData.Contributions | skywing/skywing_mid/neighbor_data_handler.hpp:256-265 | one contribution per tag that has a value |
| NeighborData.FirstPresent | skywing/skywing_mid/neighbor_data_handler.hpp:256-257 | the starting scan stops at the first tag that has a value, skipping only tags without one |
| NeighborData.AccumulateIsFold | skywing/skywing_mid/neighbor_data_handler.hpp:251-267 | the loop is the left fold of the operation over the contributions of the tags that have a value, starting from the first |
| NeighborData.SkipAbsent | skywing/skywing_mid/neighbor_data_handler.hpp:257 | tags skipped by the starting scan contribute nothing |
| NeighborData.AccumulateFromIsFold | skywing/skywing_mid/neighbor_data_handler.hpp:260-265 | the loop from any position folds the contributions of the remaining tags that have a value |
| NeighborData.ContributionsExtensional | skywing/skywing_mid/neighbor_data_handler.hpp:158-163 | functions that agree on every tag and value give the same contributions |
| NeighborData.FAccumulate | skywing/skywing_mid/neighbor_data_handler.hpp:158-163 | f_accumulate folds the operation over f of the transformed value of every tag that has one, in subscription order |
| NeighborData.CoefficientAccumulate | skywing/skywing_mid/neighbor_data_handler.hpp:281-296 | the coefficient-only accumulation folds the coefficients of the tags that have a value, in order, and ignores the values |
| NeighborData.MapSeq | skywing/skywing_mid/neighbor_data_handler.hpp:287-293 | one coefficient per tag, in order |
| NeighborData.CoefficientContributions | skywing/skywing_mid/neighbor_data_handler.hpp:281-296 | the coefficient contributions are the coefficients of the tags that have a value |
| NeighborData.FoldPlus | skywing/skywing_mid/neighbor_data_handler.hpp:85 | folding + from a start value adds the sum of the rest to it |
| NeighborData.FoldPlusAll | skywing/skywing_mid/neighbor_data_handler.hpp:85 | folding + over non-empty contributions gives their sum |
| NeighborData.DataValues | skywing/skywing_mid/neighbor_data_handler.hpp:85 | one transformed value per tag that has a value |
| NeighborData.Sum | skywing/skywing_mid/neighbor_data_handler.hpp:84-85 | sum is the sum of the transformed values of the tags that have a value |
| NeighborData.PresentCount | skywing/skywing_mid/neighbor_data_handler.hpp:123 | the denominator of average is the number of tags that have a value, at least 1 |
| NeighborData.SumOfOnes | skywing/skywing_mid/neighbor_data_handler.hpp:123 | adding 1.0 for every tag that has a value counts them |
| NeighborData.Average | skywing/skywing_mid/neighbor_data_handler.hpp:119-125 | average is the sum of the transformed values divided by the number of tags that have a value |
| NeighborData.AverageBounds | skywing/skywing_mid/neighbor_data_handler.hpp:119-125 | when every transformed value lies in [lo, hi] so does the average |
| NeighborData.MeanBounds | skywing/skywing_mid/neighbor_data_handler.hpp:119-125 | the mean of values in [lo, hi] lies in [lo, hi] |
| NeighborData.SumBounds | skywing/skywing_mid/neighbor_data_handler.hpp:85 | n values in [lo, hi] add up to between n times lo and n times hi |
| NeighborData.AverageOfConstant | skywing/skywing_mid/neighbor_data_handler.hpp:119-125 | when every transformed value is c the average is c |
| NeighborData.NumNeighbors | skywing/skywing_mid/neighbor_data_handler.hpp:148 | num_neighbors counts every subscribed tag, so it is at least the number that have a value, and equal exactly when all have one |
| NeighborData.PresentAll | skywing/skywing_mid/neighbor_data_handler.hpp:148 | every subscribed tag has a value exactly when all of them are present |
| NeighborData.GetSubHandler | skywing/skywing_mid/neighbor_data_handler.hpp:60-67 | the sub-handler keeps the tags, values and updated tags and sees each value through the transformer followed by sub |
| NeighborData.SubHandlerAccumulate | skywing/skywing_mid/neighbor_data_handler.hpp:60-67 | accumulating f through a sub-handler is accumulating f after sub through the original handler |
| SortedMap.Get | skywing/skywing_mid/helpers/skynet_config.hpp:243 | find gives a value exactly when the key is stored, and that value is the one stored with it |
| SortedMap.SortedGet | skywing/skywing_mid/helpers/skynet_config.hpp:243 | in a map with sorted keys every entry is the one found under its key |
| SortedMap.Put | skywing/skywing_mid/helpers/skynet_config.hpp:387-389 | storing a key keeps the keys sorted, makes the key read as the new value and leaves every other key as it was |
| SortedMap.MapValues | skywing/skywing_mid/helpers/skynet_config.hpp:423-427 | rewriting every value in place keeps each key and applies the rewrite to its value |
| SortedMap.MapValuesSorted | skywing/skywing_mid/helpers/skynet_config.hpp:423-427 | rewriting values keeps the key list and its order |

## Left out

- `system_check` in `jacobi_pre_processing.py`: it computes floating-point residuals with numpy, which the model does not cover.
- Matrix Market reading and writing (`mmread`, `mmwrite`): the script's inputs are sequences, and each file it writes is a (path, content) pair whose content is its sequence of rows. The script reshapes blocks of exactly one row (`row_hold[None,:]`, `row_hold[:,None]`, `index_hold[None,:]`) so that `mmwrite` gets a two-dimensional array. Only the outcome of that is modelled: a block of one row is written, and the one-dimensional block of a rank asked for fewer than one row makes `mmwrite` raise a ValueError.
- The script's folder and argument handling, the agents' `main` functions, and `generate_config_file` in `generate_config_info.py`: these are I/O and command-line glue.
- The manager's event loop, sockets, name resolution (`to_canonical`), and the Cap'n Proto message layer: these are I/O.
- `ip_address_and_port` and `read_network_size` in the socket communicator: they only compose socket calls with `split_address` and `from_network_bytes`, which are modelled.
- Threads, mutexes and waiters: the model is sequential. A waiter's readiness is modelled as a predicate over the state.
- The clock is a parameter (`now`), and so is the host byte order (`littleEndianHost`).
- `send_heartbeat_if_past_interval` in `manager.cpp`: it reads the steady clock and sends a heartbeat message, which is I/O; only the tag-request back-off timing is modelled.
- `Manager.Search`: follows libstdc++'s halving loop for `std::lower_bound`. On an unsorted list the C++ standard leaves the result unspecified, and the model fixes it to what that loop computes.
- `NetworkConv.ByteSwap`: modelled on uint32 only, the one width the size header uses.
- In `skynet_config.hpp`, these are not modelled: `get_value`, `get_vector`, `get_address`, `get_addresses`, `get_reduce_group`, `generate`, `default_section`, `extract_vector` and `clear`. They are lookups and formatting on top of the parsed sections, which are modelled. Reading the file is left out too: the content is a parameter.
- `Format` in `skynet_config.hpp`: only the default characters are modelled (`[`, `]`, `=`, `;`, `${`, `}`, `:`). Configurable formats are not.
- `CNumerals.StrToL`: does not saturate at the range of `long`. Every caller checks a range inside `long` and refuses anything beyond it, so their results are the same either way.
- `CNumerals.PyInt`: accepts ASCII digits with an optional sign and surrounding blanks. Python's underscores and non-ASCII digits are not modelled.
- Floating-point extraction (`extract<double>`) is not modelled. Numbers are integers.
- `AssociativeVector` values are integers rather than doubles, so rounding is not modelled. `/=` and `/` are left out, because they need floating-point division.
- `AssociativeVector.DotOrderIndependent`: holds for the integer model only. The source sums doubles in the hash map's iteration order, and there rounding makes the order matter.
- `AssociativeVector`: `get_keys` order, `at`, `contains` and `operator<<` are left out. Key order is the hash map's and is unspecified, and printing is I/O.
- The pub/sub converters for flattened nested tuples and for `char*` are left out: they are compile-time type manipulation and C strings. The vector-of-tuple converter is modelled with each tuple as a row of fixed width over a single field type, because the model has no heterogeneous tuples.
- Neighbour data values are exact reals, so floating-point rounding is not modelled.
- `NeighborDataHandler`: `weighted_sum`, `weighted_average`, `f_sum`, `get_data_unsafe`, `get_updated_tags`, and the shifted and linear `weighted_f_accumulate_` are left out. They are further folds of the same shape as the modelled `f_accumulate_` and coefficient-only `weighted_f_accumulate_`.
- `PubSubConverter.MapFromColumns`: requires at least as many values as keys. The source indexes `vals_vec[i]` for every key without a check, which is undefined behaviour when the values run out first.
- `PubSubConverter.Unflatten`: requires the flat vector to hold at least the sum of the sizes. The source advances `flat_iter` past the end without a check when it is shorter, which is undefined behaviour.
- `NeighborData.FAccumulate`: requires some tag to have a value. With none, the source's scan for the first present tag runs past the end of its tag list, which is undefined behaviour.
- `zip_iter_equal_len` is modelled as a filter over pairs, not as an iterator.
- A tag's value types `Ts...` are modelled by the variant index each value must carry. The values themselves are opaque.
- `ManagerConfig.ReadManagerConfig`: reads the port and heartbeat with the corrected `ParseIntegerLine`, so it refuses an empty port or heartbeat line, where the code as written reads 0 (see Findings).
- In `ReduceGroup`, the reduce operation is a function parameter on spans of published values, standing in for the user's callable.

## Findings

| source | as written | input that shows it | evidently intended | confidence | as-written member | corrected member |
|---|---|---|---|---|---|---|
| skywing/skywing_core/internal/tag_buffer.hpp:230-240 | `FifoTagBuffer::add` compares with `last_stored_version_` but never assigns it, so every add appends | adding the same version twice to a new buffer stores two entries | store only versions newer than the last stored one, and record the version stored | not executed | TagBuffer.FifoAddAsWrittenKeepsDuplicates | TagBuffer.FifoAddPreservesValid |
| skywing/skywing_core/manager.cpp:94-98 | the ExternalManager keeps the neighbour list of the greeting in the sender's `unordered_map` order, and `has_neighbor` and the NewNeighbor and RemoveNeighbor handlers binary-search it | neighbours ["b", "a"]: `has_neighbor("a")` is false, and NewNeighbor "a" gives ["a", "b", "a"] | sort the list when the ExternalManager is built | not executed | Manager.HasNeighborMissesUnsorted | Manager.GreetingHasNeighbor |
| skywing/skywing_core/manager.cpp:229-242 | the RemoveNeighbor handler swaps the element at `lower_bound` with the last and pops it, without checking that it is the id | removing "b" from ["a", "c"] drops "c"; removing "a" from ["a", "b", "c"] leaves ["c", "b"] | erase the id if present, keeping the list sorted | not executed | Manager.RemoveNeighborAsWrittenWrong | Manager.RemoveNeighbor |
| skywing/skywing_core/internal/devices/socket_communicator.cpp:263-273 | the final chunk is `n % 4096` bytes, which is 0 when 4096 divides n | n = 4096: one read of 0 bytes, and the message is never read | the final chunk is the remaining bytes, `n - 4096 * (iters - 1)` | not executed | SocketCommunicator.ReadChunkedDropsMultiples | SocketCommunicator.ScheduleCoversMessage |
| skywing/skywing_core/internal/devices/socket_communicator.cpp:289-292 | an empty port string converts nothing and is accepted as port 0 | "host:" gives ("host", 0) | refuse an address without port digits | not executed | SocketCommunicator.SplitAddressEmptyPort | SocketCommunicator.SplitAddress |
| skywing/skywing_core/basic_manager_config.cpp:28-34 | `parse_integer_line` accepts an empty line as 0, because `endptr` is then both the start and the end | the line "\n" reads as 0 | refuse a line without digits | not executed | ManagerConfig.EmptyLineIsZero | ManagerConfig.ParseIntegerLineRejectsEmpty |
| examples/async_jacobi/jacobi_pre_processing.py:62-82 | with more ranks than rows, rank m starts at row m, and at a non-negative level `A[m,:]` raises IndexError after some partition files are written | m = 1 rows and N = 2 ranks | refuse N > m before writing anything | not executed | PartitionScript.RunWithIdleRanks | PartitionScript.PartitionPlanned |
| examples/async_jacobi/jacobi_pre_processing.py:67-81 | a negative redundancy is not refused; a rank asked for fewer than one row keeps a one-dimensional block, and `mmwrite` raises ValueError after the earlier ranks' A files are written | m = 10 rows, N = 3 ranks, redundancy -3: rank 0's A file is written, then rank 1 fails | refuse a negative redundancy before writing anything | not executed | PartitionScript.NegativeLevelStopsAtWrite | PartitionScript.PartitionPlanned |
