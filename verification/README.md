# An LSM-tree key-value store, modelled in Dafny

The store (`LsmKvStore`) keeps string keys and values. A `set` or `rm`
first appends a record to the write-ahead log, then puts the command into
the in-memory memtable. A removal is a tombstone command. Once the memtable
holds more than `storeThreshold` commands, it is frozen, its log renamed to
`walTmp`, and it is written as a level-0 sorted table. A table is a file of
JSON data blocks of `partSize` commands each, followed by a sparse index
and a footer (`TableMetaInfo`). Writing a table can trigger a compaction
(`Compactioner`): once level 0 holds more than three tables, the newest one
and every level-0 table overlapping it are merged with the overlapping
level-1 tables into one new level-1 table. Tombstones are dropped in the
merge. A `get` looks in the memtable, then the frozen memtable, then the
level-0 tables newest first, then levels 1 and 2 by binary search over
their ranges. `FileUtils` builds and parses table file names of the form
`<level>_<number>.sst`.

The model is a set of pure functions over immutable values:

- a file is a `seq<byte>`;
- the memtable is a strictly key-sorted `seq<Command>`;
- a table is its footer, index, blocks and file bytes;
- the store is a record of memtables, levels, log bytes and the file counter.

The JSON and Snappy serialisations are parameters (`TableCodec`,
`Wal.CommandCodec`). The proofs assume only that decoding undoes encoding.
The modules are:

- `Wrappers`, `Keys` (Java `String.compareTo`, which compares UTF-16
  code units), `Bytes` (big-endian
  `int`/`long`), `Utf8` and `Seqs` are helpers.
- `Commands` and `SortedMap` model the commands and the memtable.
- `Sorting` models `List.sort`.
- `FileUtils`, `TableMeta`, `SsTable`, `Wal`, `Compaction` and `KvStore`
  follow the source files of the same names.

The main results are:

- every table `initFromIndex` writes is read back by `query` exactly;
- the footer reads back, for the corrected writer, and for the writer as
  written when both keys are ASCII;
- the log replays to the memtable;
- `binarySearchSstables` and the level-0 scan find the holder of a key;
- compaction keeps level 1 disjoint and gives each key its newest surviving
  command;
- after a write, `get` of that key returns what was written, and the store
  invariant is kept.

## Model

| member | source | states |
|---|---|---|
| SortedMap.Put | src/main/java/com/yuxin/kvstore/service/LsmKvStore.java:194 | `memtable.put`: the map stays sorted; the key now maps to the command; every other key keeps its entry; the size grows by one exactly when the key was new; no other command appears |
| SortedMap.Delete | src/main/java/com/yuxin/kvstore/compaction/Compactioner.java:257 | `mergedData.remove`: the map stays sorted; the key is absent afterwards; every other key keeps its entry; no command appears that was not there |
| SortedMap.LastWins | src/main/java/com/yuxin/kvstore/service/LsmKvStore.java:165-178 | putting a sequence of commands in order leaves, for each key, the last command for that key, or the earlier entry when none of them has it |
| SortedMap.LastFor | src/main/java/com/yuxin/kvstore/service/LsmKvStore.java:173-175 | the reference definition of the last command for a key: it is one of the commands and has the key, or no command has the key |
| SortedMap.GetSound | src/main/java/com/yuxin/kvstore/service/LsmKvStore.java:278 | a lookup returns an entry of the map with that key, and returns nothing exactly when the key is not in the map's key set |
| SortedMap.LastForSorted | src/main/java/com/yuxin/kvstore/compaction/Compactioner.java:253-260 | in a sorted map, the last command for a key is the map's entry for it |
| SortedMap.Extensional | src/main/java/com/yuxin/kvstore/service/LsmKvStore.java:194 | two sorted maps that agree on every key are equal, so the memtable is determined by what it answers |
| Sorting.Sort | src/main/java/com/yuxin/kvstore/service/LsmKvStore.java:341-349 | `List.sort` with a strict weak order: the result is ordered by the comparator and is a permutation of the input |
| Sorting.Insert | src/main/java/com/yuxin/kvstore/compaction/Compactioner.java:173-181 | inserting into a sorted list keeps it sorted and adds exactly that one element |
| Sorting.SortSameElements | src/main/java/com/yuxin/kvstore/service/LsmKvStore.java:379-387 | sorting neither adds nor loses a table |
| Keys.LtIsUnitOrder | src/main/java/com/yuxin/kvstore/service/LsmKvStore.java:413-416 | the key order is `String.compareTo`'s: `Lt` holds exactly when the keys' UTF-16 code-unit sequences are in lexicographic order, so a character above U+FFFF, a surrogate pair, sorts below U+E000..U+FFFF |
| Keys.SupplementaryBeforeHighBmp | src/main/java/com/yuxin/kvstore/compaction/Compactioner.java:307-308 | U+10000 sorts strictly before U+E000, in both `Lt` and the code-unit order, although its code point is larger |
| Keys.LtTotal | src/main/java/com/yuxin/kvstore/service/LsmKvStore.java:379-387 | of two distinct keys, one is below the other |
| Keys.LtTransitive | src/main/java/com/yuxin/kvstore/service/LsmKvStore.java:379-387 | the key order is transitive |
| Keys.LtIrreflexive | src/main/java/com/yuxin/kvstore/service/LsmKvStore.java:379-387 | no key is below itself |
| Bytes.Int32RoundTrip | src/main/java/com/yuxin/kvstore/model/sstable/TableMetaInfo.java:61-113 | `readInt` on the four bytes `writeInt` wrote gives back the value |
| Bytes.Int64RoundTrip | src/main/java/com/yuxin/kvstore/model/sstable/TableMetaInfo.java:65-102 | `readLong` on the eight bytes `writeLong` wrote gives back the value |
| Bytes.NextLong | src/main/java/com/yuxin/kvstore/service/LsmKvStore.java:244 | `getAndIncrement` on the file counter: the result is congruent to the counter plus one modulo 2^64 and lies in the `long` range, so it is the counter plus one below `Long.MAX_VALUE` and `Long.MIN_VALUE` after it |
| Utf8.DecodeEncode | src/main/java/com/yuxin/kvstore/model/sstable/TableMetaInfo.java:110 | decoding the UTF-8 encoding of any string gives the string back |
| FileUtils.ParseDecimal | src/main/java/com/yuxin/kvstore/utils/FileUtils.java:38 | `Long.valueOf`/`Integer.valueOf`: success exactly for an optionally signed ASCII digit string whose value lies in range, giving that value; otherwise `NumberFormatException` |
| FileUtils.DecimalRoundTrip | src/main/java/com/yuxin/kvstore/utils/FileUtils.java:18 | the decimal text string concatenation makes of any integer is well formed and denotes that integer |
| FileUtils.LongRoundTrip | src/main/java/com/yuxin/kvstore/utils/FileUtils.java:38 | `Long.valueOf` of a `long`'s decimal text gives the `long` back |
| FileUtils.IntRoundTrip | src/main/java/com/yuxin/kvstore/utils/FileUtils.java:58 | `Integer.valueOf` of an `int`'s decimal text gives the `int` back |
| FileUtils.IndexOf | src/main/java/com/yuxin/kvstore/utils/FileUtils.java:38 | `indexOf`: -1 exactly when the character is absent, else a position holding it with no earlier occurrence |
| FileUtils.LastIndexOf | src/main/java/com/yuxin/kvstore/utils/FileUtils.java:32 | `lastIndexOf`: -1 exactly when the character is absent, else a position holding it with no later occurrence |
| FileUtils.BuildSstableFilePath | src/main/java/com/yuxin/kvstore/utils/FileUtils.java:17-19 | a table path starts with the work directory and ends with the `.sst` suffix |
| FileUtils.FileName | src/main/java/com/yuxin/kvstore/utils/FileUtils.java:28-37 | no file name for a blank path or one without '/'; otherwise the slash-free tail of the path |
| FileUtils.ParseFileNumber | src/main/java/com/yuxin/kvstore/utils/FileUtils.java:27-39 | a blank path or one without '/' gives -99; any failure is an out-of-bounds or number-format exception |
| FileUtils.ParseSstableFileLevel | src/main/java/com/yuxin/kvstore/utils/FileUtils.java:47-59 | a blank path or one without '/' gives -99; any failure is an out-of-bounds or number-format exception |
| FileUtils.ParseFileNumberOfName | src/main/java/com/yuxin/kvstore/utils/FileUtils.java:27-39 | for a name `level_number.rest` after a directory, the file number parsed is `Long.valueOf(number)` |
| FileUtils.ParseLevelOfName | src/main/java/com/yuxin/kvstore/utils/FileUtils.java:47-59 | for a name `level_rest` after a directory, the level parsed is `Integer.valueOf(level)` |
| FileUtils.PathRoundTrip | src/main/java/com/yuxin/kvstore/utils/FileUtils.java:17-59 | both parsers recover the number and the level from the path built for them |
| TableMeta.WriteToFile | src/main/java/com/yuxin/kvstore/model/sstable/TableMetaInfo.java:57-74 | the corrected footer writer emits both keys' UTF-8 bytes, two `int` lengths and six `long`s |
| TableMeta.ReadWriteRoundTrip | src/main/java/com/yuxin/kvstore/model/sstable/TableMetaInfo.java:81-123 | reading the footer from the end of any file ending in it recovers every serialised field and both keys |
| TableMeta.KeysRead | src/main/java/com/yuxin/kvstore/model/sstable/TableMetaInfo.java:104-117 | the backward key reads recover the smallest and largest keys of a footer |
| TableMeta.ReadKeyAt | src/main/java/com/yuxin/kvstore/model/sstable/TableMetaInfo.java:107-110 | a negative offset or length fails; a successful read within the file is the UTF-8 decoding of those bytes |
| TableMeta.WriteBytes | src/main/java/com/yuxin/kvstore/model/sstable/TableMetaInfo.java:60 | `writeBytes`: one byte per UTF-16 unit of the key, the unit's low eight bits |
| TableMeta.AsWrittenAsciiSame | src/main/java/com/yuxin/kvstore/model/sstable/TableMetaInfo.java:60-63 | for ASCII keys the writer as written and the corrected writer produce the same footer |
| TableMeta.AsWrittenAsciiRoundTrip | src/main/java/com/yuxin/kvstore/model/sstable/TableMetaInfo.java:60-63 | the footer writer as written still round-trips when both keys are ASCII |
| TableMeta.AsWrittenNonAsciiFails | src/main/java/com/yuxin/kvstore/model/sstable/TableMetaInfo.java:60-63 | with the key "é", the writer as written produces a footer whose keys cannot be read back |
| Wal.Record | src/main/java/com/yuxin/kvstore/service/LsmKvStore.java:192-193 | a log record is the payload's length as four bytes, followed by the payload |
| Wal.Kept | src/main/java/com/yuxin/kvstore/service/LsmKvStore.java:172-175 | a record that decodes to no command contributes nothing; one that decodes to a command contributes that command |
| Wal.Replay | src/main/java/com/yuxin/kvstore/service/LsmKvStore.java:160-183 | `restoreFromWal` succeeds exactly when the whole log parses, and leaves a sorted memtable |
| Wal.ParseRecords | src/main/java/com/yuxin/kvstore/service/LsmKvStore.java:165-178 | reading the records written for a list of commands gives back that list |
| Wal.ReplayKeepsLast | src/main/java/com/yuxin/kvstore/service/LsmKvStore.java:160-178 | replaying a log of commands succeeds and leaves, for each key, the last command logged for it |
| Wal.ParseSplit | src/main/java/com/yuxin/kvstore/service/LsmKvStore.java:165-178 | appending records after a framed log appends their commands to what it parses to |
| Wal.ReplayAppend | src/main/java/com/yuxin/kvstore/service/LsmKvStore.java:192-194 | appending one record to a framed log keeps it framed, and replaying it puts that command into the replayed memtable |
| SsTable.EffectivePartSize | src/main/java/com/yuxin/kvstore/model/sstable/SsTable.java:213 | the block size the `partData.size() >= partSize` test produces: at least one, and a block is written exactly when it reaches that size |
| SsTable.WriteDataPart | src/main/java/com/yuxin/kvstore/model/sstable/SsTable.java:247-267 | the pending block is closed and appended, and the file layout invariant is kept |
| SsTable.FlushRest | src/main/java/com/yuxin/kvstore/model/sstable/SsTable.java:217-220 | a non-empty pending block is written after the loop, an empty one is not; the layout invariant is kept |
| SsTable.ChunksShape | src/main/java/com/yuxin/kvstore/model/sstable/SsTable.java:200-220 | the blocks partition the commands in order: none empty, all but the last of exactly the part size, and the last no larger |
| SsTable.IndexKeysAscend | src/main/java/com/yuxin/kvstore/model/sstable/SsTable.java:262-265 | the sparse index holds one entry per block, with first keys strictly ascending |
| SsTable.InitFromIndex | src/main/java/com/yuxin/kvstore/model/sstable/SsTable.java:196-240 | an empty memtable fails (`firstKey` throws); the only errors are no-such-element, out-of-memory and I/O; the table keeps its number, level and part size |
| SsTable.InitFromIndexLayout | src/main/java/com/yuxin/kvstore/model/sstable/SsTable.java:196-240 | a written table is well formed; its blocks are the memtable cut into parts and together equal it; its footer offsets and keys match the file, and the footer reads back |
| SsTable.BuiltTable | src/main/java/com/yuxin/kvstore/model/sstable/SsTable.java:221-234 | the file is data part, index and footer in that order; the data starts at zero and the index right after it; the smallest and largest keys are the memtable's first and last |
| SsTable.BuiltAsWritten | src/main/java/com/yuxin/kvstore/model/sstable/SsTable.java:221-234 | with ASCII first and last keys, the table file is data part, index and the footer as `writeToFile` writes it, and that footer reads back to the table's footer |
| SsTable.Candidates | src/main/java/com/yuxin/kvstore/model/sstable/SsTable.java:138-144 | the positions collected are those of the leading index entries whose first key is at most the key, stopping at the first larger one |
| SsTable.ReadBlock | src/main/java/com/yuxin/kvstore/model/sstable/SsTable.java:152 | a block within the file reads as its decoded bytes; text that does not parse is an error |
| SsTable.Scan | src/main/java/com/yuxin/kvstore/model/sstable/SsTable.java:151-159 | a command found in the candidate blocks has the key asked for |
| SsTable.Query | src/main/java/com/yuxin/kvstore/model/sstable/SsTable.java:134-164 | `query` answers only with the key asked for, and answers `null` for an empty index or a key below the first index key |
| SsTable.QueryFinds | src/main/java/com/yuxin/kvstore/model/sstable/SsTable.java:134-164 | on a well-formed table, `query` returns exactly the table's command for the key, or `null` when it has none |
| SsTable.BuildThenQuery | src/main/java/com/yuxin/kvstore/model/sstable/SsTable.java:108-164 | querying a table built from a memtable gives the memtable's command for every key |
| SsTable.WithinRange | src/main/java/com/yuxin/kvstore/model/sstable/SsTable.java:228-229 | every key of a table lies between its footer's smallest and largest keys |
| SsTable.OutsideRangeAbsent | src/main/java/com/yuxin/kvstore/model/sstable/SsTable.java:228-229 | a key outside a table's footer range is not in the table |
| Compaction.Keep | src/main/java/com/yuxin/kvstore/compaction/Compactioner.java:306-311 | the filtered list holds exactly the input tables that pass the test |
| Compaction.FindOverlap | src/main/java/com/yuxin/kvstore/compaction/Compactioner.java:299-314 | `findOverlapSstables` keeps exactly the tables whose range meets the given range |
| Compaction.ContainTheSstable | src/main/java/com/yuxin/kvstore/compaction/Compactioner.java:234-242 | true exactly when some table in the list has the file number |
| Compaction.Without | src/main/java/com/yuxin/kvstore/compaction/Compactioner.java:201-210 | the iterator removal keeps exactly the tables whose number is not among the removed ones |
| Compaction.Newest | src/main/java/com/yuxin/kvstore/compaction/Compactioner.java:132-133 | `stream().max` by file number: a table with the largest number, the first of them |
| Compaction.UnionRangeBounds | src/main/java/com/yuxin/kvstore/compaction/Compactioner.java:144-153 | the widened range is undefined exactly for no tables, and otherwise is the tightest range holding every table's range |
| Compaction.SeedSelected | src/main/java/com/yuxin/kvstore/compaction/Compactioner.java:131-139 | the newest level-0 table overlaps itself, so it is among the tables chosen, and their combined range exists |
| Compaction.Inputs | src/main/java/com/yuxin/kvstore/compaction/Compactioner.java:137-159 | choosing the inputs fails only with a null pointer, and only when level 1 is non-empty |
| Compaction.Ordered | src/main/java/com/yuxin/kvstore/compaction/Compactioner.java:166-181 | the inputs are sorted oldest first, and are a permutation of the chosen level-0 and level-1 tables |
| Compaction.ReadContent | src/main/java/com/yuxin/kvstore/compaction/Compactioner.java:271-289 | what `readSstableContent` yields is key-sorted |
| Compaction.ReadContentFull | src/main/java/com/yuxin/kvstore/compaction/Compactioner.java:271-289 | on a well-formed table, it yields exactly the table's commands |
| Compaction.Apply | src/main/java/com/yuxin/kvstore/compaction/Compactioner.java:253-261 | merging one table's commands keeps the map sorted, and a tombstone-free map stays tombstone-free |
| Compaction.ApplyGet | src/main/java/com/yuxin/kvstore/compaction/Compactioner.java:253-261 | after one table is merged, a key it holds maps to its command, or is absent for a tombstone; other keys keep their entries |
| Compaction.Merge | src/main/java/com/yuxin/kvstore/compaction/Compactioner.java:250-263 | `mergeSstables` produces a sorted map holding no tombstone |
| Compaction.Latest | src/main/java/com/yuxin/kvstore/compaction/Compactioner.java:165 | the reference definition of a key's newest command: it comes from some table that no later table overrides, or no table has the key |
| Compaction.MergeWins | src/main/java/com/yuxin/kvstore/compaction/Compactioner.java:250-263 | after merging, a key maps to its newest command among the inputs, or is absent when that command is a tombstone |
| Compaction.Compact | src/main/java/com/yuxin/kvstore/compaction/Compactioner.java:116-226 | nothing happens with at most three level-0 tables. An error leaves both levels unchanged and is one of null pointer, no-such-element, out-of-memory and I/O. A created table takes the counter's number and level 1, and the counter moves on by one. Past three tables, a run without error creates a table |
| Compaction.CompactedLevels | src/main/java/com/yuxin/kvstore/compaction/Compactioner.java:194-220 | a table stays in level 0 exactly when its number is not among the chosen level-0 tables. A table is in level 1 exactly when it is the new table or an old one whose number is not among the chosen level-1 tables |
| Compaction.CompactedSubsets | src/main/java/com/yuxin/kvstore/compaction/Compactioner.java:194-220 | compaction only removes tables, except for adding the new one to level 1 |
| Compaction.CompactedRetires | src/main/java/com/yuxin/kvstore/compaction/Compactioner.java:199-220 | the newest level-0 table leaves level 0; level 1 becomes its unchosen tables followed by the new one |
| Compaction.CompactedContents | src/main/java/com/yuxin/kvstore/compaction/Compactioner.java:165-193 | the new table holds, for each key, the newest surviving command among the chosen tables taken oldest first, and holds no tombstone |
| Compaction.MergedTable | src/main/java/com/yuxin/kvstore/compaction/Compactioner.java:184-193 | the table written from the merged map is well formed and holds exactly the merge of its inputs' contents |
| Compaction.CreatedWellFormed | src/main/java/com/yuxin/kvstore/compaction/Compactioner.java:192-193 | the table compaction writes is well formed |
| Compaction.CompactKeepsDisjoint | src/main/java/com/yuxin/kvstore/compaction/Compactioner.java:157-199 | if level 1's ranges are pairwise disjoint before compaction, they are after it |
| Compaction.SeedKeyLeavesL0 | src/main/java/com/yuxin/kvstore/compaction/Compactioner.java:137-139 | no table left in level 0 holds a key of the newest level-0 table |
| Compaction.SeedKeyLeavesL1 | src/main/java/com/yuxin/kvstore/compaction/Compactioner.java:157-159 | no old table left in level 1 holds a key of the newest level-0 table |
| Compaction.SeedWins | src/main/java/com/yuxin/kvstore/compaction/Compactioner.java:165-185 | for a key of the newest level-0 table, the new table holds that table's command, or nothing when it is a tombstone |
| KvStore.Size | src/main/java/com/yuxin/kvstore/service/LsmKvStore.java:197 | `size()` is the number of entries, capped at `Integer.MAX_VALUE` |
| KvStore.Append | src/main/java/com/yuxin/kvstore/service/LsmKvStore.java:186-194 | a payload too large for a Java array fails with out-of-memory before anything is written. Otherwise the log gains the command's record, the memtable maps the key to the command, and every other key and field is unchanged |
| KvStore.Flush | src/main/java/com/yuxin/kvstore/service/LsmKvStore.java:241-263 | the counter always moves on. On failure nothing else changes. On success level 0 gains one well-formed table holding exactly the frozen memtable, numbered with the old counter, and the frozen memtable and `walTmp` are dropped |
| KvStore.DumpToL0 | src/main/java/com/yuxin/kvstore/service/LsmKvStore.java:241-270 | the dump fails exactly as the flush does; compaction errors are swallowed; on success nothing is left frozen; the live memtable and log are untouched |
| KvStore.Write | src/main/java/com/yuxin/kvstore/service/LsmKvStore.java:186-207 | an oversized command fails with nothing changed. A dump happens exactly when the memtable's size passes the threshold; a successful one leaves nothing frozen. Without a dump the levels are untouched |
| KvStore.Probe | src/main/java/com/yuxin/kvstore/service/LsmKvStore.java:352-359 | a command the level-0 scan returns has the key asked for |
| KvStore.Answer | src/main/java/com/yuxin/kvstore/service/LsmKvStore.java:288-295 | `get` returns a value exactly for a set command; a tombstone or nothing reads as `null` |
| KvStore.ProbeFinds | src/main/java/com/yuxin/kvstore/service/LsmKvStore.java:352-357 | the scan returns the command of the first table holding the key |
| KvStore.ProbeMisses | src/main/java/com/yuxin/kvstore/service/LsmKvStore.java:352-359 | when no table holds the key, the scan returns `null` |
| KvStore.L0Finds | src/main/java/com/yuxin/kvstore/service/LsmKvStore.java:334-360 | level 0 answers with the command of the highest-numbered table holding the key, or `null` when none does |
| KvStore.NewestIsFirst | src/main/java/com/yuxin/kvstore/service/LsmKvStore.java:341-357 | after sorting newest first, the first table holding the key is the highest-numbered holder |
| KvStore.SortedSteers | src/main/java/com/yuxin/kvstore/service/LsmKvStore.java:379-387 | in a level sorted by smallest key with disjoint ranges, a table starting above the key has no later table covering it. A table that neither covers the key nor starts above it has no earlier cover. At most one table covers the key |
| KvStore.SearchFinds | src/main/java/com/yuxin/kvstore/service/LsmKvStore.java:404-424 | the binary search answers with the probe of the table covering the key, or `null` when no table in the window covers it |
| KvStore.SearchStep | src/main/java/com/yuxin/kvstore/service/LsmKvStore.java:410-420 | one halving step of the binary search keeps that answer |
| KvStore.SortedSearchFinds | src/main/java/com/yuxin/kvstore/service/LsmKvStore.java:404-424 | on a sorted, disjoint level the search returns the holding table's command, or `null` when no table holds the key |
| KvStore.LevelFinds | src/main/java/com/yuxin/kvstore/service/LsmKvStore.java:371-395 | a level whose tables have disjoint ranges answers with the command of the table holding the key, or `null` when none does |
| KvStore.SstablesAnswer | src/main/java/com/yuxin/kvstore/service/LsmKvStore.java:309-324 | with nothing in level 0, the table lookup is level 1's answer, falling through to level 2 only when level 1 has none |
| KvStore.CompactedAnswers | src/main/java/com/yuxin/kvstore/compaction/Compactioner.java:116-226 | after the compaction a new table triggers, level 0 no longer answers for one of its keys, and level 1 answers with its surviving command |
| KvStore.DumpedFinds | src/main/java/com/yuxin/kvstore/service/LsmKvStore.java:241-270 | after a dump, the tables answer for each key of the new table with that table's command, or its surviving form after a compaction |
| KvStore.DumpedGet | src/main/java/com/yuxin/kvstore/service/LsmKvStore.java:241-270 | when the frozen memtable holds a command for the key and the active memtable is empty, `get` after the dump answers with that command: from the frozen memtable if the table write fails, from the tables otherwise |
| KvStore.WriteThenGet | src/main/java/com/yuxin/kvstore/service/LsmKvStore.java:186-301 | `get` of the key just `set` returns the value, and of the key just removed returns `null` |
| KvStore.AppendKeepsLogs | src/main/java/com/yuxin/kvstore/service/LsmKvStore.java:192-194 | after an append the log still replays to the memtable |
| KvStore.SwitchKeepsLogs | src/main/java/com/yuxin/kvstore/service/LsmKvStore.java:212-236 | after the switch, `walTmp` replays to the frozen memtable and the new, empty log to the empty memtable |
| KvStore.FlushedTables | src/main/java/com/yuxin/kvstore/service/LsmKvStore.java:244-254 | adding a table numbered with the counter to level 0 keeps every table below the new counter and level-0 numbers distinct |
| KvStore.CompactionReplaces | src/main/java/com/yuxin/kvstore/compaction/Compactioner.java:192-220 | replacing levels 0 and 1 by the compaction's result keeps the tables well formed, numbered below the counter and disjoint per level |
| KvStore.CompactedTables | src/main/java/com/yuxin/kvstore/service/LsmKvStore.java:254-266 | the flush followed by the compaction keeps the table invariant whether or not a table is created |
| KvStore.DumpKeepsValid | src/main/java/com/yuxin/kvstore/service/LsmKvStore.java:241-270 | a dump keeps the store invariant: logs replay to memtables, tables are well formed, numbered below the counter and disjoint per level |
| KvStore.WriteKeepsValid | src/main/java/com/yuxin/kvstore/service/LsmKvStore.java:186-207 | `set` and `rm` keep the store invariant |

## Left out

- Files and I/O are byte sequences. A failed disk write is not modelled, except as the `IoError` a codec or footer read can report.
- JSON and Snappy are abstract codecs. The proofs assume only that decoding undoes encoding.
- Locks, the compaction executor and concurrency are left out. The source runs compaction synchronously under its own mutex.
- The constructor, `createFromFile`/`restoreFromFile`, `close` and `printfStats` are left out. Only the log replay of start-up (`restoreFromWal`) is modelled. On start-up the file counter restarts at 1 (LsmKvStore.java:87) rather than continuing after the highest table number on disk.
- Deleting retired table files is left out. For level-1 tables the source deletes the level-0 path (Compactioner.java:217), so their files stay on disk.
- `get` sorts the level lists in place, which reorders the stored lists. The model sorts a copy; every later reader either sorts again or does not depend on order.
- `HashMap` iteration order in `readSstableContent` is left out. The model reads a table's commands in key order; keys are distinct within a table, so the merged map is the same either way.
- The stability of `List.sort` is not stated. Equal keys never occur where it would matter (distinct file numbers, disjoint ranges).
- Compaction of levels 1 and above is left out, as in the source (a TODO there).
- TableMeta.ReadKeyAt: malformed UTF-8 is a failure here, whereas Java's decoder substitutes U+FFFD. Either way the key is not recovered. The smallest key is decoded as UTF-8, while the source uses the platform charset (TableMetaInfo.java:117).
- FileUtils.ParseDecimal: accepts the ASCII digits '0'..'9' only. `Long.valueOf` and `Integer.valueOf` go through `Character.digit`, which also accepts other Unicode decimal digits such as U+0661. File names the store itself builds hold ASCII digits only.
- SsTable.InitFromIndex: the table file it builds ends with the corrected footer (`TableMeta.WriteToFile`). The footer `writeToFile` actually writes (SsTable.java:234) is the same only when both keys are ASCII (SsTable.BuiltAsWritten); for other keys Java writes a footer that does not read back (see Findings).
- SsTable.InitFromIndexLayout: its footer read-back is stated for the corrected footer writer. For the writer as written it holds only when the first and last keys are ASCII (SsTable.BuiltAsWritten).
- SsTable.BuiltTable: the footer in its layout is the corrected one. The layout with the footer as written is SsTable.BuiltAsWritten, for ASCII first and last keys.
- KvStore.WriteThenGet: it requires a log payload no larger than a Java array and a file counter below `Long.MAX_VALUE`. For a removal, it also requires that level 2 not hold the key. The merge drops tombstones (Compactioner.java:256-257), so without that premise an older level-2 value can reappear.
- KvStore.WriteThenGet: it is stated for the key just written only. A compaction merges only the level-0 tables overlapping the newest one (Compactioner.java:137-139), but the merged range can cover an older, unchosen level-0 table. That table is read first (LsmKvStore.java:311-314), so `get` of one of its keys can return a value older than the one merged into level 1.
- KvStore.DumpedGet: for a removal, it requires that level 2 not hold the key, for the reason given under WriteThenGet.
- KvStore.WriteKeepsValid: it requires the counter to be at most `Long.MAX_VALUE - 2`, because a write can consume two file numbers.
- KvStore.DumpKeepsValid: it requires the counter to be at most `Long.MAX_VALUE - 2`, for the same reason.
- A failed dump leaves the frozen memtable in place. A later switch overwrites it and its `walTmp`, as `switchIndex` does. The invariant lemmas cover this case; the commands lost with it are not traced.

## Findings

| source | as written | input that shows it | evidently intended | confidence | as-written member | corrected member |
|---|---|---|---|---|---|---|
| src/main/java/com/yuxin/kvstore/model/sstable/TableMetaInfo.java:60-63 | each key is written with `writeBytes`, one byte per UTF-16 unit, but the length recorded is the key's UTF-8 byte count | a table whose smallest and largest key is "é" (U+00E9): one byte 0xE9 is written but the length says two, so the reader takes the length field's last byte and 0xE9, which is not the key. Java's decoder substitutes U+FFFD, reading the largest key as "\u0002\uFFFD"; the smallest key's length is then read from bytes 0xE9 0x00 0x00 0x00, the negative 0xE9000000, and `new byte[len]` throws `NegativeArraySizeException` (TableMetaInfo.java:113-115). The model's strict decoder stops one step earlier, with `MalformedText` | write the key's UTF-8 bytes, whose count is recorded, so that `readFromFile` recovers both keys | not executed | TableMeta.AsWrittenNonAsciiFails | TableMeta.ReadWriteRoundTrip |
