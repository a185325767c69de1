# duplikaatti in Dafny

A model of the duplicate-file remover duplikaatti. The program removes duplicate files from one or more directory trees. It narrows the candidates from cheap tests to expensive ones:

1. List every non-empty regular file into buckets by size.
2. Drop the sizes that only one file has (the *orphans*).
3. Within every size, regroup the files by an xxHash64 checksum of their first `readSize` bytes. Then drop the orphans again.
4. Do the same with the last `readSize` bytes, then drop the orphans again.
5. Hash every remaining file whole with SHA-256.
6. In every group of equal checksums, keep the first file and list the others for removal.
7. Check that every file to remove still has the group's size, then remove it. A dry run only counts what would be removed.

The repository holds two generations of this pipeline, and both are modelled:

- **The map-based pipeline that `main.go` drives.** Size buckets are a `map[uint64][]string` and the stages are `filters.go` and `hash.go`. These are modules `Filters`, `Hash` and `Pipeline`.
- **The record-list `DupeScanner`.** It lives in `scanner.go` and `worker.go` and is not called from `main`. These are modules `Scanner` and `Worker`.

Module layout follows the source files:

- `Common`: Go integer widths, byte strings, `Result`/`Outcome`, and `%x` printing.
- `Grouping`: the "append to the list under its key" fold that every stage uses, with the survivors of a checksum regrouping.
- `Helpers`: `isPowerOfTwo`.
- `FileInfos`: the file record.
- `FileSystem`: directory listing, and the first-bytes and last-bytes readers.
- `Worker`, `Filters`, `Hash`, `Scanner`, `Pipeline`: as above.

How the outside world is modelled:

- **Arrival order.** Concurrency only decides the order in which worker results arrive. That order is a parameter (`arrive`), and the only requirement on it is that it reorders each bucket (`PermutesBuckets`, `Scanner.Permutes`). Each narrowing stage is proved to give every bucket or group the same multiset of paths whatever the arrival order (the `OrderFree` lemmas). Only the scanner's byte stage, `Scanner.RemoveBasedOnBytesOrderFree`, is independent of the order outright. The order inside a group does depend on it, and main.go keeps the first file of each group, so which file is kept and which are removed depend on the arrival order and on the map iteration order.
- **Hash functions.** SHA-256 and xxHash64 are parameters (`sha`, `xx`). They are applied to the exact bytes the code hands them: `xx` to the buffers `GetFirstBytes` and `GetLastBytes` return, and `sha` to the stream `hashFile` writes, which is `Hash.Fed(content, MEBIBYTE)` and not the file's content (see Findings). The pipeline hashes whole files the way the code does, with the buffer length as the field `Pipeline.Env.hashBuffer`.
- **Files and directories.** A file is a `FileHandle`: its content, or the error its open reports. One `Read` returns at most `FileSystem.MaxRead` = 2^30 bytes, the limit (`maxRW`) Go's `os.File` puts on a single read, so a buffer longer than that is filled only in part. A directory is a `Listing` of entries.
- **Stat and stage 2.** `os.Stat` at removal time and `filterByUnique` are fields of `Pipeline.Env`. Of `filterByUnique`, `Pipeline.ValidEnv` requires only that it removes paths and adds none, as the comment at main.go:128 says.

## Model

| member | source | states |
|---|---|---|
| Common.HexInjective | hash.go:41 | Two different digests never print to the same `%x` string, so grouping by the printed checksum is grouping by the digest. |
| Helpers.IsPowerOfTwo | helpers.go:9-14 | 0 and 1 are rejected. No odd number is accepted. For n ≥ 2 the answer is exactly `n & (n-1) == 0`. |
| Helpers.Pow2IsPowerOfTwo | helpers.go:9-14 | Every 2^k with 1 ≤ k ≤ 63 is accepted. |
| Helpers.PowerOfTwoHasExponent | helpers.go:9-14 | Every accepted n equals 2^k for some k in 1..63. |
| Helpers.IsPowerOfTwoExactly | helpers.go:9-14 | The accepted numbers are exactly 2^1 … 2^63. |
| FileInfos.NewFileInfo | fileinfo.go:12-19 | The constructor accepts any arguments. The record holds priority, path, inode and stat information unchanged, and its size is the stat size. |
| FileSystem.ReadAt | filesystem.go:93-96 | One `Read` into a buffer of `want` bytes: a zero-length buffer returns nothing; a failing file returns an error other than EOF; at the end it returns `io.EOF`; otherwise it returns the next min(want, 2^30, remaining) bytes of the file, since Go cuts one read at 2^30 bytes. |
| FileSystem.GetFirstBytes | filesystem.go:85-107 | Open errors and read errors are returned, with EOF on an empty file among them. A success is exactly `size` bytes: the file's prefix as far as one read reaches (at most 2^30 bytes), then zero padding. |
| FileSystem.SeekFromEnd | filesystem.go:118 | Seeking `size` before the end lands at max(0, length − size). On a short file the refused seek leaves the offset at 0. |
| FileSystem.GetLastBytes | filesystem.go:110-135 | Errors as for the first bytes. A success is exactly `size` bytes: the file from max(0, length − size) as far as one read reaches, then zero padding. |
| FileSystem.FirstBytesSeparate | filesystem.go:92-106 | For two non-empty files of one length, the first-bytes buffers are equal iff the files agree on their first min(size, 2^30, length) bytes. A file no longer than `size` and 2^30 is compared whole, so padding never merges different files of one size. |
| FileSystem.LastBytesSeparate | filesystem.go:118-134 | For two non-empty files of one length, the last-bytes buffers are equal iff the files agree on the up to 2^30 bytes one read reaches after the seek. When `size` ≤ 2^30 these are their last min(size, length) bytes. |
| FileSystem.ListFiles | filesystem.go:13-32 | A permission error on opening or reading a directory skips it and leaves the map unchanged. Any other error on the root is returned. |
| FileSystem.ListFilesInserts | filesystem.go:34-51 | A listed directory adds exactly its found files, recursively and in visiting order, each under its size. |
| FileSystem.InsertAllShape | filesystem.go:44-47 | Inserting found files keeps every existing bucket as a prefix and appends, under each size, the paths of that size in order. No other key appears. |
| FileSystem.ListFilesProperties | filesystem.go:34-50 | After `listFiles`, existing entries are a prefix of their bucket. Each non-empty regular file is appended under its own size. Size 0 is never added. No other key appears. |
| Worker.ReadTypesDistinct | worker.go:20-24 | `READ_FIRST`, `READ_LAST` and `READ_WHOLE` are pairwise distinct. |
| Worker.HashedRange | worker.go:74-138 | The bytes hashed per read type: the first min(readSize, 2^30, length) bytes (one read), the bytes from max(0, length − readSize) to the end, or the whole file. |
| Worker.ShortFileHashedWhole | worker.go:74-136 | A file no longer than `readSize` is hashed with no padding: whole, except that `READ_FIRST` stops after the first 2^30 bytes. |
| Worker.RunJob | worker.go:61-148 | The read loop feeds exactly `buf[0:rb]` of each read and stops after one read for `READ_FIRST`. An emitted result carries the job unchanged and the hex SHA-256 of the selected range. An open error emits no result. |
| Filters.RemoveOrphans | filters.go:10-16 | Exactly the sizes with fewer than two paths are deleted. Every other bucket is unchanged. |
| Filters.RemoveOrphansIdempotent | filters.go:10-16 | Afterwards no bucket holds fewer than two paths, and a second pass changes nothing. |
| Filters.RemoveOrphansKeepsClean | filters.go:10-16 | A map without orphans is a fixed point. |
| Filters.RemoveOrphansCount | filters.go:10-16 | The pass never raises the file count. Afterwards the count is below 2 exactly when the map is empty. |
| Filters.ByteReaderWorker | filters.go:31-56 | One job gives one result carrying the job's file name and the xxHash64 of the bytes the reader returned, or a panic when the reader fails. A full buffer is counted as `readSize` bytes. |
| Filters.FilterByFuncBytes | filters.go:87-130 | It panics iff some path's read fails. No size key is added or removed. Each bucket becomes the survivors of its own regrouping by checksum. |
| Filters.FilterByFuncBytesKeeps | filters.go:112-129 | A path stays in its bucket, as often as it was there, iff another path of the same size has its checksum. No bucket is left with exactly one path. |
| Filters.FilterByFuncBytesNarrows | filters.go:87-130 | Every new bucket is a sub-multiset of the old one, and the file count never grows. |
| Filters.FilterByFuncBytesCount | filters.go:121-129 | After a byte stage the count is below 2 exactly when it is 0, so main's `fileCount < 2` test fires only when no file is left. |
| Filters.FilterByFuncBytesOrderFree | filters.go:100-129 | The result of every bucket is the same multiset whatever order the results arrive in. |
| Filters.FilterByFuncBytesPerBucket | filters.go:87-130 | Buckets are independent: two maps that agree on a size agree on it after the filter. |
| Filters.ByteWorkerCount | filters.go:93-98 | Ten workers up to `MEBIBYTE`, two above it. |
| Filters.ByteWorkerCountMonotone | filters.go:93-98 | A larger size never gets more workers. |
| Grouping.Collect | filters.go:112-119 | The checksum map: a key is present iff some value has it, and it holds exactly those values in arrival order. |
| Grouping.Survivors | filters.go:121-127 | Concatenating the groups of more than one value keeps each value, as often as it occurs, iff another value shares its key. |
| Grouping.SurvivorsMembership | filters.go:121-127 | A value survives iff it was there and its key is shared. |
| Grouping.SurvivorsPermutation | filters.go:121-127 | Reordering the input reorders the survivors and nothing else. |
| Grouping.SurvivorsNotSingle | filters.go:121-127 | The survivors never number exactly one. |
| Hash.FedExtends | hash.go:60-84 | With a buffer of at most 2^30 bytes (`MEBIBYTE` is), the stream written into the hasher starts with the whole file and overruns it by less than one buffer. |
| Hash.FeedFromSeparates | hash.go:60-84 | Files of one length are read in chunks of the same lengths, each heading the buffer written after it, so equal streams from an offset mean equal bytes from there on. |
| Hash.FedSeparates | hash.go:76 | For two files of equal length the streams are equal iff the contents are equal, for every buffer length, so the stale bytes do not change which files of one size group together. |
| Hash.FedShortFile | hash.go:76 | A non-empty file shorter than the buffer, read in one go, is hashed followed by zeros up to the buffer length. |
| Hash.FedExample | hash.go:76 | A one-byte file with a two-byte buffer is hashed as that byte and a zero, which is not the file's content. |
| Hash.FedMergesLengths | hash.go:76 | Files of different lengths can feed the hasher the same stream: `[7]` and `[7, 0]` with a two-byte buffer, so a file that shrank after listing can be grouped with one it differs from. |
| Hash.HashFile | hash.go:52-88 | The loop as written: open and read errors are returned with the counters so far. On success, when no counter wraps, `tr` is the file length. With a buffer of at most 2^30 bytes, also `tr ≤ tw < tr + buffer`. |
| Hash.HashFileFixed | hash.go:52-88 | The loop writing only the bytes read: on success the digest is the SHA-256 of the file itself and `tw == tr`. |
| Hash.HashWorker | hash.go:33-49 | A failed hash panics. Otherwise the result carries the job's file name, the hex digest and the read counter. |
| Hash.HashKeyMatchesDigest | hash.go:41 | Two successfully hashed paths get equal checksums iff their digests are equal. |
| Hash.Duplicates | hash.go:158-166 | A checksum gets a group iff more than one path has it. The group holds exactly those paths. |
| Hash.CalculateHashes | hash.go:118-166 | It panics iff some hash fails. A size appears iff one of its checksum groups holds more than one path, and then it holds exactly those groups. |
| Hash.CalculateHashesGroups | hash.go:149-166 | Each reported group holds at least two paths of its size, all with the group's checksum. Up to order it is every such path, each collected exactly once. |
| Hash.CalculateHashesCovers | hash.go:142-166 | A path lands in its size's group for its checksum iff another path of that size shares that checksum. |
| Hash.CalculateHashesSameDigest | hash.go:149-164 | Two paths of one group were both hashed successfully, to equal digests. |
| Hash.CalculateHashesOrderFree | hash.go:136-156 | Which groups exist, and their contents up to order, do not depend on the arrival order. |
| Hash.HashWorkerCount | hash.go:125-134 | Always 2, 4 or 10. It is 2 from `GIBIBYTE` on, 10 up to `MEBIBYTE`, and 4 in between. |
| Hash.HashWorkerCountMonotone | hash.go:125-134 | A larger size never gets more hash workers. |
| Scanner.New | scanner.go:15-24 | A new scanner has no files and the given worker count. |
| Scanner.Reset | scanner.go:166-168 | Reset empties the list and keeps the worker count. |
| Scanner.AddFile | scanner.go:175-178 | The record is appended unconditionally, with no inode check and no error. |
| Scanner.AddFileCounts | scanner.go:175-178 | Adding a file raises the count by one and the total size by its size. |
| Scanner.GetFileCount | scanner.go:26-32 | Returns the number of records and the sum of their sizes, wrapped at 2^64. |
| Scanner.CountSizes | scanner.go:36-40 | Maps every size present to the number of records with that size. |
| Scanner.SizesWithDupes | scanner.go:42-48 | Exactly the sizes counted more than once. |
| Scanner.KeepSizes | scanner.go:52-63 | The records whose size is in the set, in list order. |
| Scanner.RemoveFileOrphans | scanner.go:35-68 | The new list is the old one without the records whose size no other record has. |
| Scanner.OrphanFreeMembers | scanner.go:35-68 | A record is kept, as often as it occurs, iff another record has its size. |
| Scanner.OrphanFreeSubsequence | scanner.go:52-67 | The result is an order-preserving subsequence of the input. |
| Scanner.OrphanFreeSizeClass | scanner.go:35-68 | A size keeps all its records or none. |
| Scanner.OrphanFreeIdempotent | scanner.go:35-68 | Afterwards every size is shared, and a second pass changes nothing. |
| Scanner.RunWorkers | scanner.go:70-111 | A negative worker count crashes. No workers with jobs never finish. A negative read size crashes. Otherwise every readable record's result (its range's hex digest, with the record) arrives, and only listed records appear. |
| Scanner.KeepInodes | scanner.go:116-128 | An inode is kept iff some result with that inode has a hash another result shares. Results are grouped by hash alone. |
| Scanner.KeepInodesOrderFree | scanner.go:116-128 | The kept inodes do not depend on the arrival order. |
| Scanner.RemoveBasedOnBytes | scanner.go:113-147 | The stage finishes iff the workers do, and keeps the worker count. |
| Scanner.RemoveBasedOnBytesKeeps | scanner.go:113-147 | The new list is an order-preserving subsequence. A record stays iff its inode is kept and another surviving record has its size. A record with no result stays only through another record with the same inode. |
| Scanner.RemoveBasedOnBytesOrderFree | scanner.go:113-147 | The whole stage is independent of the arrival order. |
| Scanner.GroupByHashAndSize | scanner.go:155-160 | Under each hash and size is exactly the records of the results with that hash and size, in arrival order. No empty entry exists. |
| Scanner.HashDuplicates | scanner.go:150-164 | The whole-file stage finishes iff the workers do. |
| Scanner.HashDuplicatesFiles | scanner.go:150-164 | Every hashed record is filed under the hex digest of its whole content and its own size, with no orphan filtering. |
| Scanner.HashDuplicatesOrderFree | scanner.go:155-160 | Which hash and size entries exist, and their records up to order, do not depend on the arrival order. |
| Pipeline.ListAll | main.go:111-117 | Listing every argument into one map never creates a size-0 bucket: zero-size files never become candidates. |
| Pipeline.RunStages | main.go:73-198 | Exit 1 with no directories, with a `readSize` that is not a power of two, or when any argument fails `isDirectory`. Reaching hashing implies the listing succeeded. |
| Pipeline.NarrowCandidates | main.go:140-198 | What reaches hashing is bucket-wise part of the unique map, has no orphans and at least two files, and the duplicate map is `calculateHashes` of it. |
| Pipeline.RunStagesNarrow | main.go:120-138 | Once past the argument checks and the first two count tests, the run is the narrowing stages applied to the unique map. |
| Pipeline.HashedGroupSound | hash.go:149-166 | Each reported group holds at least two candidate paths of its size. Any two of them are files read to the end whose hashed streams (`Fed`, with the stale-buffer bytes) have equal SHA-256 digests. |
| Pipeline.RunStagesSound | main.go:73-198 | End to end, two files of one reported group are both in the walk's bucket of that size and their hashed streams have equal digests. If the digest is collision-free and both files still hold as many bytes as were listed, their contents are equal. |
| Pipeline.Record | main.go:206-219 | `[Keep] + Remove` is the group, so Keep is its first file and Remove the rest in order. |
| Pipeline.CollectDuplicates | main.go:202-223 | One record per (size, checksum) entry, in the map's iteration order. |
| Pipeline.CollectDuplicatesCovers | main.go:204-222 | Every group of two or more files yields exactly one record. Its Remove is non-empty. Keep is not in Remove when the group names no file twice. |
| Pipeline.CheckGroup | main.go:231-242 | A group passes iff every file to remove stats successfully with exactly the group's size. |
| Pipeline.FirstBlocked | main.go:230-242 | The index of the first group that fails its check: every earlier group passed. |
| Pipeline.CheckFiles | main.go:231-242 | The stat loop of one group computes its check. |
| Pipeline.RemoveGroup | main.go:248-256 | One group adds its Remove count and |Remove| × size to the counters, wrapping at 2^64. Its files are deleted only when `actuallyRemove` is set. |
| Pipeline.RemovalDryRun | main.go:248-256 | A dry run ends the same way and reports the same totals as a real run, but deletes nothing. A real run deletes only files of groups that passed the check, each seen at the group's size. |
| Pipeline.RemoveDuplicates | main.go:226-263 | Groups are handled in order until one fails its check. The totals count every Remove entry of the groups before it, and removed files are those groups' Remove lists. |
| Pipeline.Run | main.go:73-263 | A stopped run removes nothing and reports zero totals. Otherwise the removal stage runs over one record per duplicate group. |

## Left out

- Concurrency: goroutines, channels, `sync.WaitGroup` and the polling close loop (scanner.go:70-111, worker.go:38-59, filters.go:100-119, hash.go:136-156). They only decide arrival order, which is a parameter.
- Go map iteration order: for the final groups it is a parameter `order` that lists every (size, checksum) entry once. Inside a kept bucket of `filterByFuncBytes`, groups appear in order of first arrival. Since arrival order is free, this reaches the same outcomes, and only the multiset is claimed.
- Progress output, tickers, timing (`time.Since`), `log` and `Printf` calls, `ReportStats`, and `bytesToHuman` (floating-point log and pow).
- SHA-256 and xxHash64 internals. They are uninterpreted functions of the bytes fed to them.
- `isDirectory` (helpers.go:38-52, and a second definition at filesystem.go:68-82) is a parameter giving the error it returns, if any. A non-`NotExist` stat error dereferences a nil `FileInfo` in the source, and that crash is not modelled separately.
- `os.Stat` at removal time is a fixed function of the path. It does not reflect files removed earlier in the same run. `os.Remove` is recorded as the list of removed paths, and its own errors (ignored by the source) are not modelled.
- `filterByUnique`, `getFileCount` on the size map, `MEBIBYTE` and `GIBIBYTE` are not part of this model. `filterByUnique` is a parameter, the file count is the sum of bucket lengths, and the two constants are parameters.
- Flag parsing: `actuallyRemove` (the `-remove` flag) is a parameter. `readSize` is not a flag but the constant `MEBIBYTE` (main.go:19). It is a parameter here, so the power-of-two check at main.go:78 is modelled for every value.
- worker.go:86-88: a failed `Read` continues the read loop and signals the wait group again for the same job. The model ends the stage as `ReadFailed` instead of following it.
- The sanity checks on negative or oversized read and write counts (filesystem.go:98-104, filters.go:45-47, hash.go:70-72, 80-82, worker.go:91-97, 126-132) cannot fire and are not modelled.
- Hardlinks and keep priority: the code does not collapse hardlinks or pick the file to keep by priority or inode. `AddFile` appends unconditionally, and the first file of a group is kept. When fewer than two candidates remain, main.go exits with status 1, and the model returns `Stopped(1)` there.
- `FileSystem.Join` is `dir + "/" + name` without `filepath.Join`'s lexical clean-up, so an argument `/a/` yields `/a//x` where Go yields `/a/x`. Paths are only compared for equality within one run, and the walk joins each argument with the same rule.
- A `FileHandle` either fails every read or none (`readsFail`), so `hashFile` failing after some successful reads, with the counters so far, is not modelled. Its result would be an error either way.
- File contents (`Pipeline.Env.disk`) are independent of the sizes the walk listed and are the same in every stage. A file that changes between stages is not modelled, except that `Pipeline.RunStagesSound` does not assume the listed size.
- scanner.go uses a record with `Size` and `INode` fields, while fileinfo.go declares `FileInfo` with `INode` and an `os.FileInfo`. The model uses one record whose size is the stat size.
- Scanner.RunWorkers: with zero workers and some jobs the model says `Hangs`. Go's runtime may instead detect the deadlock and abort.
- Hash.HashFile: the counter facts are stated only for files whose length plus the buffer fits in 64 bits. Beyond that the counters wrap, and only the closed form `HashFileAsWritten` describes them.
- Hash.HashWorkerCount: the 10/4 tiers are characterised only when `MEBIBYTE < GIBIBYTE`.
- Hash.HashFile: with a buffer longer than 2^30 bytes, every read is short and the whole buffer is still written, so `tw` can exceed `tr` by many buffers. Only the closed form `HashFileAsWritten` describes `tw` then. The program's buffer is `MEBIBYTE`.
- Hash.FedExtends: stated for buffers of at most 2^30 bytes. With a longer buffer the stale bytes of each short read sit inside the stream, so the file is no longer its prefix.
- Hash.FedShortFile: stated for files of at most 2^30 bytes, which one read covers.
- FileSystem.FirstBytesSeparate: a file longer than 2^30 bytes is compared only on the bytes one read reaches, because Go cuts one read at 2^30 bytes. Files that differ only after that get equal buffers.
- FileSystem.LastBytesSeparate: with `size` above 2^30, the buffers compare the 2^30 bytes after the seek, not the whole tail.
- Worker.ShortFileHashedWhole: for `READ_FIRST`, a file longer than 2^30 bytes is hashed only up to 2^30 bytes, even when `readSize` covers it.
- FileSystem.GetLastBytes: contents are stated for `size < 2^63`. Above that, `-int64(size)` overflows, and only the buffer length is stated.
- Pipeline.RunStages: the `fileCount < 2` exits after each stage are not restated one by one. `NarrowCandidates`, `RemoveOrphansCount` and `FilterByFuncBytesCount` state what the count is when hashing is reached and when each test fires.

## Findings

| source | as written | input that shows it | evidently intended | confidence | as-written member | corrected member |
|---|---|---|---|---|---|---|
| hash.go:76 | `h.Write(buf)` writes the whole buffer after every read, including stale bytes (or the initial zeros) after a short last read, and adds the full buffer length to `tw` | a one-byte file `[7]` with a two-byte buffer: the hasher gets `[7, 0]`, `tr` = 1 and `tw` = 2, the same stream as for the file `[7, 0]` (Hash.FedMergesLengths) | `h.Write(buf[0:rn])`: the digest of the file's own bytes, with `tw == tr` | not executed | Hash.HashFile (with Hash.FedExample, Hash.FedShortFile) | Hash.HashFileFixed |
