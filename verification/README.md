# mini-hadoop in Dafny

A verified model of mini-hadoop: its distributed and single-process MapReduce, its file system NDFS with the
NameNode, data nodes, client and restart, and the byte formats they exchange. Objects whose methods update fields are
classes here and loops are loops. Each such method is proved to compute a function on plain values, and what the
system promises is proved about those values, over all inputs and all runs.

Check everything with `dafny verify dfyconfig.toml`.

## Main results

- **Distributed MapReduce** (`DistSystem`, `DistInvariant`, `DistTheorems`, `DistOutput`). Any number of trackers, maps
  and reduces, with polls, map runs, single shuffle fetches that may fail, output writes, part counts and reports in
  any interleaving. An inductive invariant ties the counters, the reduces' location snapshots and every tracker's store
  together. From it: no task is handed out twice, every snapshot is complete, stored outputs never change, every step
  makes progress, and with one reduce and no failed fetch the word count file is the same on every interleaving. Failed
  fetches and further reduces can spoil it, and the exact conditions under which they do not are proved.
- **NDFS as a map** (`FileMap`, `FileReads`, `Clients`). Over every run of single chunks written by any clients,
  deletions, directory creations, leases, data node messages and NameNode restarts, while data nodes come and go, the
  inode tree, block lists and disks together behave as one map from paths to directories and pieces of files. A read
  that succeeds returns what the map has; if the last restart found the stored blocks again, it succeeds exactly when
  each piece is at a node that can be reached. Clients that write at the same time, chunk by chunk, each read back
  exactly their own data. This rests on the effects of a write (`WriteRead`, `WriteEffects`, `Replicas`), on restart
  recovery (`Recovery`), on the tree operations seen as changes of a finite map (`Inodes`) and on the NameNode invariant
  over every run (`Namespace`).
- **The image file** (`FsImage`). Loading a saved tree gives the tree back exactly when no name holds white space.
- **The single-process job** (`JobTracker`). The output is the sorted table of totals, the same for every reduce count,
  hash, tie order of the unstable sort, and with or without the combiner. For word count the file is stated character
  by character: which stretches of the input are words, and one line for each in byte order.
- **Bytes** (`Buffer`, `MapRedCodec`, `NdfsCodec`, `DataTransfer`, `Rpc`, `SequenceFile`). Round trips with their exact
  conditions and layouts; frames over a stream cut into pieces of any size, answered by the registered handlers one
  after the other; sequence files cut anywhere.

## What turned out not to hold

Each point is stated as a lemma, with the exact condition under which the promise does hold.

- WriteFile reports success unless a call to the NameNode fails. Data that is not empty is then stored exactly when a
  node is registered, the path is not the root and has no trailing slash, no proper ancestor is a file, the path is
  free or may be overwritten, and the first target of every block can be reached. No data changes nothing: no file
  appears, and the old bytes of a file stay (`Replicas.WriteStoresIff`, and `DfsClient.WriteFile` on the objects).
  Refused because the file exists, it still appends all chunks but the first. Writing "/f/" with overwrite, the
  default, deletes a file "/f". `FileMap.WriteFileIsMapWrite` and `Replicas.ReadAfterWrite` say what is there in every
  case.
- When a call to the NameNode fails, what was written stays and reads as a whole file, or as none if the answer was lost
  (`Replicas.CutWriteReads`).
- Every target of a block is confirmed and listed, but only the first gets the bytes. A file just written survives
  losing a node exactly when that node is no block's first target (`Replicas.OnlyFirstTargetHolds`,
  `Replicas.SurvivesLosingIff`). ARCHITECTURE.md describes forwarding between data nodes; no code does it.
- With two reduces or more, the finished output can be empty (`DistOutput.OutputIndependentIff`). With failed fetches it
  can lack maps, and the job still succeeds (`DistOutput.FinishedRightIff`, `DistOutput.AlwaysRightIff`).
- A poll before the first submission sets the done flag for good (`SecondJob.DoneFlagAfterSubmit`).
- A second job can end exactly when no reduce was created before it or it asks for none
  (`SecondJob.SecondJobEndsIff`, `AfterDoneJob.NextJobEndsIff`). After a finished one it counts as done from the start,
  and if that had a reduce, its own write empty files (`AfterDoneJob.NextJobLooksDone`,
  `AfterDoneJob.NextJobWritesEmpty`).
- A name with white space does not survive the image (`FsImage.ImageRoundTripIff`).
- Block ids and lengths cross between hosts of different byte order only if both halves are equal
  (`Buffer.Transfer64Iff`, `DataTransfer.WriteArrivesIff`). A block that could not be stored is acknowledged
  (`DataTransfer.WriteArrives`).

## How it is modelled

- The hash, the unstable sort, generated block ids, sync bytes, the clock, the order in which hash tables and
  directories are walked, the size of each send and receive, and the failure of each connection are parameters or
  arbitrary choices.
- `std::sort` on pairs has one possible result. Where the comparison looks at keys only, it is any key-sorted
  permutation.
- Paths are sequences of components; `PathOf` splits a path as SplitPath does. Strings are sequences of characters, and
  the codecs require them to be bytes.
- Integers are unbounded, except where the code narrows them: there the cast is written out.
- Option, or a boolean result, stands for exceptions and error statuses.
- In `DistSystem` a task thread is a list of single steps, so threads of different trackers interleave; the two
  handlers of the job tracker are atomic, as their mutex makes them.
- `Cluster` is the NameNode's state with the disks of the data nodes that can be reached; `DfsClient` is proved equal to
  it over linked objects. In `FileMap` it holds all disks, and each chunk is written among the nodes that are up then.

## Model

| member | source | states |
|---|---|---|
| `DistJobTracker.DistJobTracker.SubmitJob` | src/mapred/dist_job_tracker.h:83-115 | Counters and job state are reset and one task per map, numbered from 0 and with its id, is queued behind whatever was still queued; queued tasks, locations, created reduces and the done flag survive |
| `DistJobTracker.DistJobTracker.PollForTask` | src/mapred/dist_job_tracker.h:118-183 | One poll hands out the last queued map, else the next reduce with a copy of the locations known now, else nothing; only the last case can end the job |
| `DistJobTracker.DistJobTracker.TaskCompleted` | src/mapred/dist_job_tracker.h:186-209 | A map report adds one location per reported part, numbered from 0, and counts the map; a reduce report only counts |
| `DistJobTracker.TaskIdInjective` | src/mapred/dist_job_tracker.h:103 | Map and reduce task ids are pairwise different |
| `DistJobTracker.TaskIdText` | src/mapred/dist_job_tracker.h:103 | The ids as they go over the wire: job_001_m_ or job_001_r_ and the number |
| `SecondJob.DoneFlagAfterSubmit` | src/mapred/dist_job_tracker.h:179-182 | After the first submission the done flag is clear exactly when nobody polled before it; a poll with all counters at 0 sets it, and then it is set after every run of that job |
| `SecondJob.NeverEnds` | src/mapred/dist_job_tracker.h:88-96 | If reduces were created before the submission and the job asks for one, no run in which each report names a running task ends the job |
| `SecondJob.SecondJobEndsIff` | src/mapred/dist_job_tracker.h:142-182 | A job submitted between jobs can reach its end on some run exactly when no reduce was ever created before or it asks for none: the numbering goes on while the reports count from zero |
| `SecondJob.SecondJobStarves` | src/mapred/dist_job_tracker.h:142-153 | A job that asks for no more reduces than were created before it is never handed one, on any run |
| `SecondJob.LaterReduces` | src/mapred/dist_job_tracker.h:142-176 | On any run of a later job each reduce has a partition that no earlier reduce had, and its snapshot starts with the map locations of the earlier jobs |
| `AfterDoneJob.NextJobEndsIff` | src/mapred/dist_job_tracker.h:83-115 | After any distributed run that finished, a second job can end exactly when one of the two jobs has no reduce |
| `AfterDoneJob.NextJobLooksDone` | src/mapred/dist_job_tracker.h:179-182 | After a finished job the second one counts as done from its submission on, and after every run |
| `AfterDoneJob.NextJobWritesEmpty` | src/mapred/task_tracker.h:161-183 | After a finished job that had a reduce, every reduce a second job is handed, whatever maps ran since, writes an empty file |
| `TaskTracker.TaskTracker.ExecuteMapTask` | src/mapred/task_tracker.h:140-173 | Running a map task leaves in the store the sorted pairs of the whole input, filed under the task |
| `TaskTracker.StorePairsEffect` | src/mapred/task_tracker.h:163-170 | The pairs of a map all land in partition 0, in order; a map that emits nothing leaves no entry |
| `TaskTracker.TaskTracker.Shuffle` | src/mapred/task_tracker.h:62-79 | The shuffle server returns the stored pairs of the task and partition, or says that there are none |
| `TaskTracker.TaskTracker.ExecuteReduceTask` | src/mapred/task_tracker.h:175-240 | The output file becomes the table of everything fetched from the listed trackers, sorted in byte order and reduced per key; locations of other partitions, unreachable trackers and absent entries are skipped |
| `TaskTracker.FetchAll` | src/mapred/task_tracker.h:179-203 | The shuffle loop gathers, in snapshot order, what the listed trackers hold for the partition |
| `TaskTracker.GatheredInOrder` | src/mapred/task_tracker.h:179-203 | What is gathered is what each location of the partition brings, one after the other |
| `TaskTracker.TaskTracker.CountParts` | src/mapred/task_tracker.h:246-253 | The reported part count is the number of distinct partitions over all maps this tracker ran |
| `DistInvariant.StepInv` | src/mapred/dist_job_tracker.h:118-210 | Each step of any interleaving (poll, map run, single fetch that works or fails, output write, part count, report) keeps the invariant over counters, threads, snapshots, stores and files |
| `DistInvariant.ReachableInv` | src/mapred/dist_job_tracker.h:118-210 | The invariant holds in every state reachable after the submission |
| `DistTheorems.MapTasksPartition` | src/mapred/dist_job_tracker.h:99-110 | In every reachable state each map id is either queued or assigned to exactly one thread, and the counter equals the number of reported maps |
| `DistTheorems.ReduceTasksPartition` | src/mapred/dist_job_tracker.h:142-176 | In every reachable state a reduce id was created exactly when it is assigned, none is queued, and the counter equals the number of reported reduces |
| `DistTheorems.NoTaskTwice` | src/mapred/dist_job_tracker.h:122-129 | No task is handed out twice |
| `DistTheorems.SnapshotComplete` | src/mapred/dist_job_tracker.h:142-153 | Every assigned reduce was created after all maps reported, and its snapshot has for each map exactly one entry, naming the tracker that holds that map's whole output |
| `DistTheorems.OutputStable` | src/mapred/task_tracker.h:140-173 | Whatever happens after a map has run, its stored output stays what it is |
| `DistTheorems.StepProgress` | src/mapred/dist_job_tracker.h:118-182 | Every step either changes nothing (an idle poll) or lowers a measure of the work left |
| `DistTheorems.NotStuck` | src/mapred/dist_job_tracker.h:118-182 | While the job is not done, a step that lowers the measure can be taken, whether or not connections work |
| `DistTheorems.BoundedWork` | src/mapred/dist_job_tracker.h:118-182 | The number of steps that change anything is bounded by the initial measure on every run |
| `DistTheorems.DoneMeansAllReported` | src/mapred/dist_job_tracker.h:178-182 | When the done flag is set, all maps and reduces have run and reported, and a poll assigns nothing |
| `DistOutput.DoneOutput` | src/mapred/task_tracker.h:235-238 | When the job is done, the output file is that of the reduce that wrote last with the locations it got, all of them if no fetch failed, and no other file changed |
| `DistOutput.DistTableMeaning` | src/mapred/task_tracker.h:205-233 | The table of n maps has strictly increasing keys, exactly the emitted ones, each with n times its total over the input |
| `DistOutput.WordCountOutput` | src/mapred/task_tracker.h:140-240 | Word count with one reduce: on every interleaving the finished file is the table of as many maps as its reduce got locations; that is all M if no fetch failed |
| `DistOutput.WordTable` | src/mapred/task_tracker.h:205-233 | For word count that table lists each input word once, in strict order, with n times its occurrences |
| `DistOutput.WordTableFile` | src/mapred/task_tracker.h:235-238 | And as a file: each word between blanks on its own line, in byte order, with a tab and n times its multiplicity |
| `DistOutput.SameAsSingleProcess` | src/mapred/task_tracker.h:140-240 | With one map, one reduce and no failed fetch the finished file equals what the single-process job writes, for any of that job's partition counts, hashes, sorts and combiner settings |
| `DistOutput.RunToEnd` | src/mapred/dist_job_tracker.h:118-182 | From every reachable state some schedule finishes the job, with connections that all work or all fail |
| `DistOutput.TableCanBeLost` | src/mapred/task_tracker.h:161-168 | With two reduces or more, some interleaving finishes with an empty output file, although no fetch failed |
| `DistOutput.OutputIndependentIff` | src/mapred/task_tracker.h:161-168 | Unless fetches fail, the finished file is the table on every interleaving exactly when there is one reduce, or the table is empty |
| `DistOutput.WordCountIndependentIff` | src/mapred/task_tracker.h:161-168 | For word count: exactly when there is one reduce, no map task, or no word in the input |
| `DistOutput.FinishedRightIff` | src/mapred/task_tracker.h:179-203 | With fetches that may fail, a finished word count is the right file exactly when the reduce of partition 0 wrote last and got every location, or there is no map or no word |
| `DistOutput.AllFetchesFail` | src/mapred/task_tracker.h:182-191 | With one reduce every fetch may fail, and then the job still finishes, with an empty file |
| `DistOutput.AlwaysRightIff` | src/mapred/task_tracker.h:179-203 | With fetches that may fail, the file is right on every interleaving exactly when there is no map or no word |
| `JobTracker.JobTracker.RunJob` | src/mapred/job_tracker.h:54-163 | The method, with its phases and nested loops, writes the rendered, sorted concatenation of the reduced partitions to the output path |
| `JobTracker.MapFile` | src/mapred/job_tracker.h:63-87 | The collector leaves each partition with exactly the pairs hashed to it, in emission order |
| `JobTracker.GroupReduce` | src/mapred/job_tracker.h:134-145 | The nested grouping loops reduce each maximal run of equal keys once |
| `JobTracker.PartitionIsTable` | src/mapred/job_tracker.h:92-115 | Sorted by any key sort, combined or not, and grouped, a partition yields each of its keys once with its total |
| `JobTracker.BucketTotals` | src/mapred/api/mapper.h:45-47 | Partitioning splits by key: a key's pairs are all in its own partition and none elsewhere |
| `JobTracker.RunJobTable` | src/mapred/job_tracker.h:54-163 | The written table has strictly sorted keys and lists exactly the keys collected, each with its total |
| `JobTracker.RunJobIndependent` | src/mapred/job_tracker.h:92-151 | Two runs that differ in reduce count, hash, tie order of the unstable sort, or use of the combiner write the same table |
| `JobTracker.RunJobCountsWords` | src/mapred/job_tracker.h:54-163 | For word count the table is each word of the file with its number of occurrences, in strict order |
| `JobTracker.WordCountFile` | src/mapred/job_tracker.h:54-163 | As a file: the words, which stand between stretches of the six blank characters, in byte order, each on its own line with a tab and its multiplicity in decimal |
| `JobTracker.WordCountExample` | src/mapred/job_tracker.h:54-163 | Concretely: for "b a<TAB>b" the file is "a<TAB>1" and "b<TAB>2" on two lines, whatever the partitions, hash, sort and combiner setting |
| `JobTracker.ReducerCalls` | src/mapred/job_tracker.h:99-145 | For any reducer: in each partition it is called once per key, in byte order, with all values of the key, or with their sum alone if there is a combiner |
| `JobTracker.ReduceInOrder` | src/mapred/job_tracker.h:131-148 | The results of the partitions follow one another in their order |
| `JobTracker.PartitionOfHash` | src/mapred/api/mapper.h:46 | The partition is the low 31 bits of the hash, modulo the number of partitions |
| `Order.StrLessIff` | src/mapred/job_tracker.h:93 | The order of the sorts in characters: a proper prefix comes first, otherwise the first character that differs decides |
| `Tables.GroupCalls` | src/mapred/job_tracker.h:134-145 | Over pairs sorted by key any reducer is called once for each key, with exactly its values in order, and the results are concatenated |
| `Tables.GroupedSumIsTable` | src/mapred/job_tracker.h:134-145 | Summing the groups of key-sorted pairs gives a strictly sorted table of the totals, whatever the order among equal keys |
| `Tables.GroupedStrict` | src/mapred/job_tracker.h:99-115 | A combining pass over a table changes nothing, so combining before reducing is invisible |
| `Tables.TableUnique` | src/mapred/job_tracker.h:150-151 | A sorted table of the same data is unique |
| `Order.SortedUnique` | src/mapred/job_tracker.h:151 | Two sorted permutations of the same pairs are equal, so the instability of the pair sort does not matter |
| `InputFormat.TextRecordReader.Next` | src/mapred/api/input_format.h:50-58 | Each record is a line of the file; its key is the byte offset at which that line stands |
| `InputFormat.MapCalls` | src/mapred/api/input_format.h:50-58 | The mapper is called once for each line of the file, in order, with the byte offset of the line |
| `Text.TokensByLine` | src/mapred/api/input_format.h:50-58 | The tokens of the lines, in order, are the tokens of the whole text |
| `Text.TokensAreWords` | src/mapred/examples/wordcount.h:16 | The words are non-empty, without space, tab, newline, vertical tab, form feed and carriage return; around them is nothing else, and something between any two; no other words satisfy this |
| `WordCount.Map` | src/mapred/examples/wordcount.h:12-19 | The extraction loop emits (word, 1) for each word of the line, in order; the words hold none of the six blank characters, written out, and what is around them is made up of these |
| `WordCount.Reduce` | src/mapred/examples/wordcount.h:25-30 | The accumulating loop emits the key once, with the sum |
| `WordCount.WordMapOutput` | src/mapred/examples/wordcount.h:12-19 | Over a whole file the mapper emits a one for each token, in order |
| `WordCount.TotalOfOnes` | src/mapred/examples/wordcount.h:25-30 | The total of a word over these ones is its number of occurrences |
| `Combining.CombiningCollector.Collect` | src/mapred/api/mapper.h:74-79 | The value is added to its key's entry and, at the threshold, the buffer is flushed through whatever combiner there is; with none or a summing one, after any calls each entry is the total of the values collected for its key |
| `Combining.CombiningCollector.Flush` | src/mapred/api/mapper.h:81-99 | For any combiner: the buffer becomes what the combiner emits for the entries in key order, the last value of a key winning; with none or a summing one it stays as it was |
| `Combining.LastValueWins` | src/mapred/api/mapper.h:93-98 | After a flush a key has the last value that the combiner emitted for it |
| `Combining.SummedFlush` | src/mapred/api/mapper.h:93-98 | Combining each entry alone by summing and refilling the buffer gives the same buffer |
| `Combining.CollectedTotals` | src/mapred/api/mapper.h:75 | Adding one value keeps every entry equal to its key's total |
| `InodeTree.SplitPath` | src/ndfs/inode_tree.h:110-126 | The character loop returns the maximal slash-free stretches of the path |
| `Text.SplitIsFields` | src/ndfs/inode_tree.h:110-126 | A text has at most one split into non-empty parts without separators, with separators around them |
| `Text.FieldsSplit` | src/ndfs/inode_tree.h:110-126 | And it has one, whose parts are the fields |
| `InodeTree.InodeTree.GetNode` | src/ndfs/inode_tree.h:37-47 | The node returned is the one at the path, or null exactly when there is none |
| `InodeTree.InodeTree.Mkdirs` | src/ndfs/inode_tree.h:49-66 | The linked nodes are updated in place to the tree with the directories made; null exactly when a prefix is a file |
| `InodeTree.InodeTree.CreateFile` | src/ndfs/inode_tree.h:68-87 | The linked nodes are updated in place to the tree with the file added, or null and no change |
| `InodeTree.InodeTree.Delete` | src/ndfs/inode_tree.h:89-99 | The linked nodes are updated in place to the tree without the subtree, or false and no change |
| `InodeTree.InodeTree.RemoveChild` | src/ndfs/inode_tree.h:135-143 | The first child of that name is erased and the others keep their order |
| `InodeTree.InodeTree.ListDir` | src/ndfs/inode_tree.h:101-107 | The children of a directory in order; nothing for a file or a missing path |
| `InodeTree.InodeTree.PushBlock` | src/ndfs/fs_namesystem.h:54 | Appending a block id changes that file's block list and no other node |
| `Inodes.MkdirsEntries` | src/ndfs/inode_tree.h:49-66 | On the map from paths to entries: Mkdirs makes every prefix a directory and changes nothing else; it fails exactly when a prefix is a file, and then the tree is untouched |
| `Inodes.CreateFileEntries` | src/ndfs/inode_tree.h:68-87 | CreateFile adds exactly one empty file; it works exactly when the parent is a directory and the name is free |
| `Inodes.DeleteEntries` | src/ndfs/inode_tree.h:89-99 | Delete removes exactly the entries at and below the path; it works exactly when the path exists and is not the root |
| `Inodes.AppendBlockEntries` | src/ndfs/fs_namesystem.h:54 | Appending a block id changes exactly the entry of that file |
| `Inodes.MkdirsWellFormed` | src/ndfs/inode_tree.h:49-66 | Mkdirs keeps sibling names usable and unique |
| `Inodes.CreateFileWellFormed` | src/ndfs/inode_tree.h:68-87 | CreateFile keeps sibling names usable and unique |
| `Inodes.DeleteWellFormed` | src/ndfs/inode_tree.h:89-99 | Delete keeps sibling names usable and unique |
| `Inodes.DeleteBlocks` | src/ndfs/inode_tree.h:89-99 | A deleted subtree takes exactly its own block ids out of the tree |
| `FsImageFile.Save` | src/ndfs/fsimage.h:16-30 | The recursive serializer over the linked tree writes the image text to a temporary file, path and .tmp, that is renamed to the path; no other file changes, and none when that file cannot be opened |
| `FsImageFile.Load` | src/ndfs/fsimage.h:32-78 | The line loop turns the linked tree into the one the image text describes on top of it, or throws on a malformed id |
| `FsImageFile.ProcessLine` | src/ndfs/fsimage.h:44-74 | One line has the effect on the linked tree that the value form of the line has |
| `FsImage.ImageLoads` | src/ndfs/fsimage.h:32-94 | For names free of white space, loading a saved image into an empty tree rebuilds the tree: types, names, child order and block lists, negative ids and empty files included |
| `FsImage.ImageRoundTripIff` | src/ndfs/fsimage.h:32-94 | For a sound tree with 64-bit ids the round trip works exactly when no name contains one of the six blank characters |
| `FsImage.SpaceNameLost` | src/ndfs/fsimage.h:54-58 | A directory made by Mkdirs with any of the six blank characters in its name does not come back |
| `FsImage.ImageExample` | src/ndfs/fsimage.h:22-94 | Concretely: header and one line per node of a small tree, with nested directory, negative block id and empty file |
| `FsImage.IgnoredLine` | src/ndfs/fsimage.h:44-53 | Empty lines, comments, and lines that are neither of a directory nor of a file change nothing |
| `FsImage.FileLineRules` | src/ndfs/fsimage.h:54-65 | A line of a file that cannot be created leaves the directories it made and loading goes on; one without blocks= makes an empty file |
| `FsImage.OneId` | src/ndfs/fsimage.h:68-72 | Only commas separate block ids |
| `FsImage.FirstLineSkipped` | src/ndfs/fsimage.h:39-42 | The first line is skipped, whatever it says |
| `Text.StollOfIntText` | src/ndfs/fsimage.h:69 | A printed 64-bit id is parsed back |
| `Text.StollReads` | src/ndfs/block_storage.h:71-72 | White space, a sign or none, decimal digits and then anything else is parsed as that number exactly when it fits 64 bits |
| `Text.StollRefuses` | src/ndfs/block_storage.h:71-72 | Without a digit there nothing is parsed |
| `Text.DecimalText` | src/ndfs/fsimage.h:89 | Numbers are printed in decimal, most significant digit first, negatives with a minus sign |
| `FsNamesystem.FsNamesystem.StartFile` | src/ndfs/fs_namesystem.h:36-58 | On the objects: safe mode, an existing path without overwrite, and a path that cannot be created are refused with block id 0; otherwise the old subtree goes, the parents appear, and the new file has the one generated block with as many different targets as there are nodes, up to 3, which are its listing |
| `FsNamesystem.FsNamesystem.AddBlock` | src/ndfs/fs_namesystem.h:65-76 | A block with as many different targets as there are nodes, up to 3, all listed, is appended to an existing file; block id 0 and no change otherwise |
| `FsNamesystem.FsNamesystem.GetBlocks` | src/ndfs/fs_namesystem.h:83-104 | The blocks of the file in order, with size 0, each with its listed nodes |
| `FsNamesystem.FsNamesystem.Delete` | src/ndfs/fs_namesystem.h:106-117 | Removes the subtree and, for a file, exactly its blocks' entries; directory deletion keeps stale entries |
| `FsNamesystem.FsNamesystem.ChooseTargets` | src/ndfs/fs_namesystem.h:289-296 | In any walk order: distinct registered nodes, as many as there are up to 3 |
| `FsNamesystem.FsNamesystem.BlockReport` | src/ndfs/fs_namesystem.h:164-181 | Ignored for an unknown node; otherwise the node is added to each reported block that has room and does not list it |
| `Recovery.ReportAdds` | src/ndfs/fs_namesystem.h:164-181 | A known node is added to a listing exactly when it reports the block, fewer than 3 nodes are listed, and it is not one of them; its report is kept |
| `FsNamesystem.FsNamesystem.BlockReceived` | src/ndfs/fs_namesystem.h:183-194 | Afterwards a known node is listed for the block, at the end if it was not there, however many are; the entry is created in any case, and no other listing changes |
| `FsNamesystem.FsNamesystem.RegisterDataNode` | src/ndfs/fs_namesystem.h:136-140 | The node is registered under its name with all its fields and the time of the call |
| `FsNamesystem.FsNamesystem.Heartbeat` | src/ndfs/fs_namesystem.h:142-162 | Afterwards the node is registered with exactly the given host, port, capacity and remaining and the time of the call; no other node and nothing else changes |
| `Namespace.HeartbeatReachesClient` | src/ndfs/fs_namesystem.h:142-162 | The next StartFile tells the client exactly these values about the node |
| `Namespace.TargetCount` | src/ndfs/fs_namesystem.h:289-296 | Targets are as many different registered nodes as there are, up to 3 |
| `FsNamesystem.FsNamesystem.CheckLeases` | src/ndfs/fs_namesystem.h:259-271 | Every lease is visited once, in whatever order, and expired ones take their path's subtree and themselves away |
| `Namespace.CheckLeasesExact` | src/ndfs/fs_namesystem.h:259-271 | In every visiting order exactly the subtrees at expired leases' paths and exactly the expired leases go |
| `Namespace.LeaseLives` | src/ndfs/fs_namesystem.h:248-271 | A lease granted at time t stands exactly until t + 60 |
| `Namespace.OpInv` | src/ndfs/fs_namesystem.h:36-271 | Each operation with fresh ids and valid targets keeps: no block id twice in the tree, a location entry for each block of a live file, replica lists of distinct registered nodes |
| `Namespace.EveryRunInv` | src/ndfs/fs_namesystem.h:36-271 | That invariant holds after every sequence of client, lease and data node operations |
| `Namespace.FreshInv` | src/ndfs/fs_namesystem.h:20 | A fresh name system has it |
| `BlockStorage.BlockStorage.StoreBlock` | src/ndfs/block_storage.h:22-29 | If it can be created, the file named after the id in decimal and .blk is written and the disk, seen as a map from ids to bytes, changes at that id only; otherwise it fails and nothing changes |
| `BlockStorage.BlockStorage.ReadBlock` | src/ndfs/block_storage.h:31-41 | Returns the stored bytes, or fails exactly when the block is not stored |
| `BlockStorage.BlockStorage.RemoveBlock` | src/ndfs/block_storage.h:43-48 | Removes exactly that block; fails exactly when it is not stored |
| `BlockStorage.BlockStorage.GetBlockReport` | src/ndfs/block_storage.h:64-79 | In any directory order: throws exactly when a block file's name is no 64-bit number; otherwise, when all block files are stored blocks, reports each of them once, with its length, and ignores other files |
| `DfsClient.DfsClient.WriteFile` | src/ndfs/dfs_client.h:78-146 | The chunk loop over the name node and data node objects reports success exactly when every call for a block is served, and then computes the write of the cluster value; with ids new to the tree and the disks it has stored the data exactly when the write takes effect and the first target of every block could be reached. Otherwise it stops at the first call that fails, with the blocks before it written |
| `DfsClient.ConfirmsMatterNot` | src/ndfs/dfs_client.h:125-137 | Whichever confirmations arrive, the name node ends in the same state, because the targets are listed already |
| `DfsClient.DfsClient.ReadFile` | src/ndfs/dfs_client.h:148-199 | The fallback loop over the objects returns, for every pattern of connection failures, what reading the cluster value gives |
| `DfsClient.DfsClient.TryNode` | src/ndfs/dfs_client.h:166-192 | One pass of the fallback loop either appends exactly one whole copy or puts the buffer back |
| `DfsClient.WriteSnoc` | src/ndfs/dfs_client.h:85-142 | Writing one more chunk after whole blocks continues the write |
| `Cluster.ReadSucceedsIff` | src/ndfs/dfs_client.h:160-195 | A read succeeds exactly when each block has a listed node that holds it and sends all of it |
| `Cluster.ReadContent` | src/ndfs/dfs_client.h:160-195 | A successful read is the concatenation of the blocks in file order, whichever copies were used |
| `Cluster.ReadStops` | src/ndfs/dfs_client.h:160-195 | A read that fails has brought exactly the blocks before the first that no listed node delivers |
| `WriteRead.ParentParts` | src/ndfs/fs_namesystem.h:298-303 | The parent directory drops the last component, except after a trailing slash |
| `WriteRead.CreateAfterPrepare` | src/ndfs/fs_namesystem.h:45-51 | After the overwrite and the directories are done, the file can be created exactly when there is no trailing slash and no proper ancestor is a file |
| `WriteRead.WritableStarts` | src/ndfs/fs_namesystem.h:36-58 | StartFile gives the file its one new block exactly for a writable path; otherwise it gives no block |
| `WriteRead.WritableGetsTargets` | src/ndfs/fs_namesystem.h:36-58 | A writable path gets a block whose targets are as many different nodes as there are, up to 3, all of them listed |
| `WriteRead.ChunksIsCeiling` | src/ndfs/dfs_client.h:86 | The number of blocks is the length over the block size, rounded up |
| `WriteEffects.WriteIsolated` | src/ndfs/dfs_client.h:78-146 | Whether the write takes effect or not, every file not at or below the path keeps its blocks and reads as before |
| `WriteEffects.WriteOutcome` | src/ndfs/dfs_client.h:78-146 | The exact block list after any write, of no data included; it is the new one exactly when a condition the caller can check beforehand holds |
| `Replicas.AllPlaced` | src/ndfs/dfs_client.h:103-137 | Each block of a write that takes effect is listed with all its targets, and of the disks that can be reached only that of the first target has it, with exactly its chunk |
| `Replicas.StoredIff` | src/ndfs/dfs_client.h:78-199 | The write has stored the data, readable even with a given set of nodes gone, exactly when it takes effect (the path is writable or, for no data, has no blocks) and the first target of every block could be reached and is not gone |
| `Replicas.WriteStoresIff` | src/ndfs/dfs_client.h:78-199 | With no node gone: exactly when the write takes effect and every first target could be reached. A write of no data changes nothing |
| `Replicas.ReadAfterWrite` | src/ndfs/dfs_client.h:78-199 | What the path reads as after any write, with any nodes gone: as before for no data; the data, if all first targets are there; the old bytes with all but the first chunk, if the write was refused; or nothing |
| `Replicas.CutWriteReads` | src/ndfs/dfs_client.h:102-104 | When the call for a block fails, the path holds the chunks before and reads as if they were all, unless the answer was lost: then it has one block more, which is nowhere, and cannot be read |
| `Replicas.OnlyFirstTargetHolds` | src/ndfs/dfs_client.h:103-137 | All targets are confirmed and listed, but a listed node holds the block exactly when it has the first target's address and that could be reached |
| `Replicas.SurvivesLosingIff` | src/ndfs/dfs_client.h:160-195 | The file just written survives losing a node exactly when the node is no block's first target |
| `Replicas.UnreachableLoses` | src/ndfs/dfs_client.h:103-145 | Concretely: with the one registered node unreachable the write reports success, the block is listed, and the byte is nowhere |
| `Replicas.TrailingSlashLoses` | src/ndfs/dfs_client.h:144-145 | Concretely: a write to a path with a trailing slash reports success and stores nothing |
| `Replicas.EmptyWriteKeeps` | src/ndfs/dfs_client.h:79 | Concretely: writing nothing with overwrite reports success and leaves the old byte; on a free path it creates no file |
| `Replicas.SecondWriteAppendsTail` | src/ndfs/fs_namesystem.h:41-44 | Concretely: a second write that may not overwrite leaves the old bytes followed by all but its first chunk |
| `WriteEffects.WriteConsistent` | src/ndfs/dfs_client.h:103-123 | With ids new to the disks, all copies of a block stay equal |
| `NameNode.DataNode.Start` | src/ndfs/data_node.h:31-42 | One heartbeat, then one report that lists exactly the disk |
| `NameNode.StartRegisters` | src/ndfs/data_node.h:25-42 | After these the node is registered under 127.0.0.1 and its port with exactly its capacity and remaining |
| `NameNode.StartNameNode` | src/ndfs/name_node.h:32-36 | The fresh name system has the tree of the image at the path and nothing else; without an image the root only |
| `NameNode.StopNameNode` | src/ndfs/name_node.h:44-47 | The files afterwards are those after saving the current tree |
| `NameNode.Restart` | src/ndfs/name_node.h:32-47 | Stopping, starting and joining the data nodes on the objects computes the restart of the value, with every data node joined by an honest report; if the image cannot be written, the restart is that of the old image |
| `Recovery.ReportEffect` | src/ndfs/fs_namesystem.h:171-180 | A block report adds the node to the listing of each reported block that has room, and changes no other |
| `Recovery.AlwaysRecovered` | src/ndfs/fs_namesystem.h:142-181 | After any messages in any order: listed nodes hold the block, and every joined holder is listed unless the listing is full |
| `Recovery.RestartedReadsIff` | src/ndfs/fs_namesystem.h:164-181 | After a restart the tree is the old one, every listed location holds its block, and a file can be read exactly when each of its blocks is held by a node that joined |
| `Recovery.RestartedReadsSameIff` | src/ndfs/fs_namesystem.h:164-181 | A file that could be read before the restart reads back the same bytes exactly when each of its blocks is held by a node that joined |
| `Recovery.RestartedReadsAmongIff` | src/ndfs/fs_namesystem.h:164-181 | While only some nodes can be reached after a restart, a file whose blocks have no more joined holders than a listing has room for can be read exactly when each block is held by a joined node among them |
| `FileMap.StartStep` | src/ndfs/fs_namesystem.h:36-58 | The first chunk of a write is the first chunk on a plain map from paths to directories and pieces: refused, or whatever was there goes and the file appears if its directory could be made; a chunk whose first target is unreachable is a lost piece |
| `FileMap.NextStep` | src/ndfs/fs_namesystem.h:65-76 | A further chunk is appended to the file of the map, or dropped if there is none |
| `FileMap.ExpireStep` | src/ndfs/fs_namesystem.h:259-271 | Lease expiry is that of the map, in every visiting order |
| `FileMap.RemoveStep` | src/ndfs/fs_namesystem.h:106-117 | A deletion is the deletion on that map |
| `FileMap.RestartStep` | src/ndfs/name_node.h:32-47 | A restart, whatever messages follow, changes no file of the map, if the image can hold the names |
| `FileMap.EventStep` | src/ndfs/fs_namesystem.h:36-271 | Every event, with ids new to the tree and the disks, is one step of the map |
| `FileMap.EveryRunIsMapRun` | src/ndfs/fs_namesystem.h:36-271 | Over every run of single chunks, deletions, directory creations, leases, node messages and restarts, with data nodes that come and go, the tree, block lists and disks together behave as that map |
| `FileMap.WriteFileIsMapWrite` | src/ndfs/dfs_client.h:78-146 | A whole WriteFile is a run of its chunks and one write of the map, for any data and path: no data, safe mode, unreachable targets and refusals included |
| `FileMap.FreshIsEmptyMap` | src/ndfs/fs_namesystem.h:20 | A fresh name system is the map holding only the root |
| `FileReads.DistinctFiles` | src/ndfs/fs_namesystem.h:53-54 | Different files of a sound tree have no block in common |
| `FileReads.ReadIsMapContent` | src/ndfs/dfs_client.h:160-195 | Whatever connections fail, a read that succeeds returns exactly the bytes the map has, none of whose pieces is lost |
| `FileReads.ReadsAmongIff` | src/ndfs/dfs_client.h:160-195 | While only some nodes can be reached, an available file whose pieces are at one place each can be read exactly when these places are among them, with exactly its bytes |
| `FileReads.AvailableStep` | src/ndfs/fs_namesystem.h:36-271 | Each event but a restart keeps every stored block of a live file listed with a node that holds it, and a recoverable restart brings this about |
| `FileReads.EveryRunReads` | src/ndfs/dfs_client.h:148-199 | Over every run whose last restart is recoverable, the files are those of the map and a file can be read exactly when none of its pieces was lost, and from some of the nodes exactly when its pieces are there, with exactly its bytes |
| `FileReads.FreshRunReads` | src/ndfs/fs_namesystem.h:20 | The same over every such run from a fresh name node, with whatever is on the disks, where no piece is ever at two places |
| `Clients.WriteAmongOthers` | src/ndfs/dfs_client.h:78-146 | A write whose chunks are interleaved with anything that keeps away from its path leaves exactly its pieces |
| `Clients.ClientsReadBack` | src/ndfs/dfs_client.h:78-199 | Any number of clients write at the same time, chunks interleaved in any way, while nodes come and go: each reads back exactly its own data from some of the nodes if and only if each of its chunks reached its first target when it was sent, and that node is among them |
| `Buffer.OutputBuffer.WriteInt` | src/io/buffer.h:32-35 | Appends the four big-endian bytes of the value |
| `Buffer.IntBytesAre` | src/io/buffer.h:32-35 | The four bytes, most significant first |
| `Buffer.OutputBuffer.WriteLong` | src/io/buffer.h:37-42 | Appends the high and the low half, each big-endian |
| `Buffer.OutputBuffer.WriteString` | src/io/buffer.h:63-67 | Appends the length and the bytes |
| `Buffer.InputBuffer.ReadInt` | src/io/buffer.h:118-124 | Takes four bytes if there are as many and leaves the rest unread |
| `Buffer.InputBuffer.ReadLong` | src/io/buffer.h:126-133 | Takes eight bytes if there are as many and leaves the rest unread |
| `Buffer.InputBuffer.ReadString` | src/io/buffer.h:156-161 | Takes the length and that many bytes; fails on a negative length or one beyond the end |
| `Buffer.IntRoundTripIff` | src/io/buffer.h:32-35 | An integer is read back, with any suffix left unread, exactly when it fits 32 bits |
| `Buffer.LongIsBigEndian` | src/io/buffer.h:37-42 | The two halves are the eight bytes of the 64-bit two's complement |
| `Buffer.LongRoundTripIff` | src/io/buffer.h:37-42 | An integer is read back, with any suffix left unread, exactly when it fits 64 bits |
| `Buffer.StringRoundTripIff` | src/io/buffer.h:63-67 | A string is read back, with any suffix left unread, exactly when its length fits the 32-bit count |
| `Buffer.SentBytes` | src/ndfs/data_xceive_server.h:155-157 | A little-endian host puts the plain big-endian bytes on the wire; a big-endian host crosses the halves |
| `Buffer.Transfer64Iff` | src/ndfs/dfs_client.h:252-260 | A 64-bit value arrives exactly when both hosts have the same byte order, or its halves are equal |
| `DataTransfer.HandleConnection` | src/ndfs/data_xceive_server.h:111-143 | One connection, received in pieces of any size, changes the disk as the request it carries says and sends as much of the answer as the peer takes; a negative length throws |
| `DataTransfer.RequestLayout` | src/ndfs/dfs_client.h:107-115 | A write request is byte 80, id, length and data, a read request byte 81 and id, with eight bytes for each number |
| `DataTransfer.OtherRequests` | src/ndfs/data_xceive_server.h:111-143 | Any other first byte is ignored |
| `DataTransfer.WriteArrivesIff` | src/ndfs/dfs_client.h:107-123 | A new block is stored under its id with exactly its bytes, and acknowledged, exactly when its file can be created and the hosts have the same byte order or id and length have equal halves |
| `DataTransfer.WriteArrives` | src/ndfs/dfs_client.h:107-123 | Between such hosts a block that is already there is replaced, and the acknowledgement comes even if the block file cannot be created |
| `DataTransfer.CutWriteIff` | src/ndfs/data_xceive_server.h:115-128 | A write request cut after any number of bytes stores nothing and gets no answer exactly when the server reads a length beyond what arrives |
| `DataTransfer.CutWriteStoresNothing` | src/ndfs/data_xceive_server.h:115-128 | So nothing is stored if the hosts agree on the length |
| `DataTransfer.ReadArrivesIff` | src/ndfs/dfs_client.h:173-191 | A read over the wire brings exactly the stored bytes of the block whose id the server reads, and succeeds exactly in the cases the fallback loop counts as sent; that id is the one sent exactly when the hosts agree on it |
| `Bytes.BigEndianRoundTrip` | src/io/buffer.h:32-35 | A number within the width is the value of its big-endian bytes |
| `Bytes.BigEndianOnto` | src/io/buffer.h:118-124 | Every byte sequence is the encoding of the number it decodes to |
| `WireLists.ListRoundTrip` | src/ndfs/name_node.h:158-161 | A counted list is read back when each item is, with any suffix left unread |
| `MapRedCodec.WritePollReply` | src/mapred/dist_job_tracker.h:126-175 | The handler's reply is the encoding of the assigned task |
| `MapRedCodec.ReadPollReply` | src/mapred/task_tracker.h:94-137 | The poll loop reads what the decoder gives, or throws |
| `MapRedCodec.PollReplyLayout` | src/mapred/dist_job_tracker.h:125-178 | The bytes of the reply, with its flag, type numbers and empty fields written out |
| `MapRedCodec.ReportLayout` | src/mapred/task_tracker.h:242-259 | The bytes of a report |
| `MapRedCodec.ShuffleReplyLayout` | src/mapred/task_tracker.h:67-78 | The bytes of a shuffle reply |
| `MapRedCodec.PollReplyRoundTrip` | src/mapred/dist_job_tracker.h:125-178 | The poller reads exactly the task that was assigned; the empty string that ends a map's reply is read as the integer 0 |
| `MapRedCodec.PolledTaskArrives` | src/mapred/dist_job_tracker.h:118-178 | Over the wire, a poll of a tracker whose queues fit the wire assigns the very task it picks |
| `DistWire.ReachableFits` | src/mapred/dist_job_tracker.h:99-210 | In every reachable state of a job whose paths, addresses and counts fit C++ strings and ints, they do |
| `DistWire.EveryPollArrives` | src/mapred/dist_job_tracker.h:118-178 | In every run of such a job each poll is read by the poller as exactly the task that was picked |
| `MapRedCodec.ReportRoundTrip` | src/mapred/task_tracker.h:242-259 | The job tracker reads the task, and for a map the part count and address that were reported |
| `MapRedCodec.ShuffleReplyRoundTrip` | src/mapred/task_tracker.h:67-78 | A reduce receives the stored pairs in order, or learns that there are none |
| `NdfsCodec.PlacedRoundTrip` | src/ndfs/name_node.h:53-66 | The client reads the block and targets that StartFile or AddBlock returned |
| `NdfsCodec.GetBlocksRoundTrip` | src/ndfs/name_node.h:68-76 | The client reads every block of the file with its locations, in order |
| `NdfsCodec.BlockReportRoundTrip` | src/ndfs/name_node.h:104-115 | The name node reads the report the data node sent |
| `NdfsCodec.WriteGetBlocksReply` | src/ndfs/name_node.h:68-76 | The handler's loop writes the encoding of the listing |
| `NdfsCodec.ReadGetBlocksReply` | src/ndfs/dfs_client.h:155-162 | The client's loop reads what the decoder gives, or throws |
| `Rpc.ReadFull` | src/ipc/server.h:93-101 | Over receives of any sizes: exactly the next bytes of the stream, or failure exactly when the stream is too short |
| `Rpc.WriteFull` | src/ipc/server.h:103-111 | Over sends of any sizes: exactly the data, or what the peer still took of it and failure exactly when that is less |
| `Rpc.RpcServer.HandleConnection` | src/ipc/server.h:145-175 | For any fragmentation, the requests framed in the stream are answered in order: from the server's state on each by the handler registered for its method, which makes the next state and the reply, or by -1 and "unknown method" in the same state; the peer gets the reply frames as far as it takes them, until the server is stopped or a reply cannot be sent whole |
| `Rpc.RpcServer.Answer` | src/ipc/server.h:160-166 | The handler registered for the method makes the new state and the reply; without one the state stays and the reply is -1 and "unknown method" |
| `Rpc.ServeWhilePrefix` | src/ipc/server.h:172 | What the peer gets is the full answer up to what it takes, and all requests are handled if it takes all |
| `Rpc.CallRaw` | src/ipc/client.h:82-105 | One request frame goes out and the next reply frame is returned; the two failures are told apart |
| `Rpc.StreamDispatches` | src/ipc/server.h:145-175 | Requests within the limit are dispatched exactly as sent, followed by what the rest of the stream holds |
| `Rpc.AllDispatchedIff` | src/ipc/server.h:150 | All requests of a stream are dispatched exactly when each frame is within the 64 MB limit |
| `Rpc.FrameLimitIs` | src/ipc/server.h:150 | A frame of 67108864 bytes is dispatched, one of a byte more ends the connection |
| `Rpc.ReplyRoundTripIff` | src/ipc/client.h:95-102 | A reply is read back exactly when its size fits the 32-bit length |
| `Rpc.AnsweredInOrder` | src/ipc/server.h:145-175 | The client reads back, in request order, exactly what the registered handlers answer one after the other, or "unknown method" |
| `SequenceFile.SequenceFileWriter.AppendRaw` | src/io/sequence_file.h:42-60 | The file stays the encoding of all records appended; a zero-length key is refused |
| `SequenceFile.RecordLayout` | src/io/sequence_file.h:42-60 | The bytes of a record: before every hundredth a marker of four bytes 255 and the sync bytes; the two lengths, key and value |
| `SequenceFile.FirstMarker` | src/io/sequence_file.h:47-50 | A marker stands before record 100 and before no earlier one |
| `SequenceFile.FileLayout` | src/io/sequence_file.h:27-33 | A file begins with SEQ, the number 2 and 16 sync bytes |
| `SequenceFile.SequenceFileReader.Open` | src/io/sequence_file.h:77-88 | The header is accepted exactly when it has the magic bytes and is whole |
| `SequenceFile.SequenceFileReader.Next` | src/io/sequence_file.h:90-111 | Returns the next record of the unread rest across sync markers, or the end, or throws on a negative length |
| `SequenceFile.NextOutcome` | src/io/sequence_file.h:90-111 | What Next makes of any two lengths and the bytes behind them: the record, the end, or the exception of a negative size |
| `SequenceFile.RecordCut` | src/io/sequence_file.h:90-111 | A record cut anywhere, its marker included, is not returned |
| `SequenceFile.TruncatedFile` | src/io/sequence_file.h:90-111 | A file cut anywhere after its header reads as exactly the records that lie wholly before the cut |
| `SequenceFile.RoundTripIff` | src/io/sequence_file.h:42-111 | Reading a written file returns its records exactly when every record is smaller than 2^31 bytes |

## Left out

- Sockets, threads, condition variables and sleeps: an RPC is one atomic step, and so is one chunk of a write with its
  confirmations.
- Failed RPCs of the job tracker and lost trackers; in the distributed job only shuffle connections fail.
- A second SubmitJob inside `DistSystem`: the runs start after exactly one. Later jobs are stated about the tracker's
  handlers, with nothing of the earlier jobs still running.
- Speculative execution: its loop uses members that are not defined in the repository.
- The safe mode ratio and countdown: nothing in the NameNode updates the block totals, so safe mode ends with the first
  registered node.
- GetListing's trailing slash, GetStats, capacity totals, `modification_time` and parent pointers.
- GetUnderReplicatedBlocks: it may choose nodes that already hold the block.
- Waiting for the acknowledgement of a written block: the client ignores what it reads there.
- Handlers that throw end the process.
- Overflow of the 64-bit sums of word counts and of the collector.
- NdfsInputFormat, MD5, float and double fields, the Writable types, configuration, logging and the command line.
- DfsClient.DfsClient.WriteFile: a block size below 1 is not modelled, because the code then loops forever or writes one
  chunk. A data node whose disk takes no new file is here one that cannot be reached.
- Recovery.RestartedReadsIff: the data nodes that reported are reachable afterwards; RestartedReadsAmongIff is about any
  of them. Where a block has more holders than a listing has room for, an unlisted one is not found; no event of
  `FileMap` makes a second copy.
- FileReads.EveryRunReads: the last restart is one that finds the stored blocks of live files again; after any other a
  read can fail until the missing node reports.
- Clients.ClientsReadBack: likewise.
- DataTransfer.ReadArrivesIff: hosts that disagree on the length of the block. The client then resizes its buffer to
  another length.
- Namespace.EveryRunInv: entries of deleted directories' blocks stay in the listings, so nothing says that every entry
  belongs to a live file.
