# tadpole: models and proofs

tadpole serves GET, PUT, DELETE and ordered SCAN over TCP. Every key lives in two indexes, a chained
dictionary with incremental rehashing and a skiplist; clients and server exchange RESP frames through
parsers that can stop at any byte. The modules here model these parts in Dafny and prove their
refinement, ordering, coverage and round-trip properties.

Most cores come in two files. One holds a model on values, a function for each operation, and the
theorems about it, over all inputs and all runs. The other holds the same operations in place, on
bucket arrays, linked nodes, byte buffers and task stacks, as methods whose contracts equate the new
state with the model's function of the old one.

| files | source |
|---|---|
| `DictModel`, `DictRefinement`, `DictLoad`, `Words`, `DictScan`, `DictScanUnchanged`, `DictScanShrink`, `DictIterator`; in place `HashTable`, `SafeIterator` | `dict.c` |
| `SkipModel`; in place `Skiplist` | `skiplist.c` |
| `StoreModel`; in place `Store` | `commands.c` |
| `Resp`, `ReaderModel`, `ReaderLimits`; in place `Reader` | the reply reader of `hiredis/hiredis.c` |
| `Format`, `FormatWords` | the command formatter of `hiredis/hiredis.c` |
| `RequestModel`, `RequestEdges`; in place `Request` | `db.c` |
| `Server`, `EndToEnd` | `db.c`, `commands.c`, `util.c` together with the client |
| `Sds`, `SdsHeader`, `Repr`, `SplitWords`, `SplitJoin`, `Integers` | `sds.c`, `sds.h`, `util.c` |
| `AsyncModel`; in place `Async` | `hiredis/async.c` |
| `Bytes`, `CInt`, `Options` | shared types, and the `int` of C |

The wire format is RESP2 of the Redis serialization protocol specification, sections "Simple
strings", "Simple errors", "Integers", "Bulk strings" and "Arrays".

`dafny verify dfyconfig.toml` checks the whole project.

Where the code does less than its documentation or its use suggests, the model follows the code, and
a theorem says exactly when the two agree; where it helps, a lemma gives an input on which they do not:

- the scan after a shrink: `DictScan.ExpansionsCoverIff` for one call, `DictScanShrink.NearCoversIff`
  for all cursors, and the run of `DictScanShrink.ShrinkLosesEntry`;
- quit: `RequestModel.QuitFailsNext`, and the input of `RequestModel.QuitExample`;
- big arguments: `RequestModel.ArgumentIsExact`, and the input of `RequestModel.BigArgumentExample`;
- array counts in the reply reader, a `long` kept as an `int`: `ReaderLimits.HeaderAgreesIff` (below 2^31),
  and the streams of `ReaderLimits.TruncatedCount` (`*4294967297\r\n:1\r\n` gives an array of one element)
  and `ReaderLimits.LostCount` (`*4294967296\r\n:1\r\n` writes through a NULL pointer);
- integer replies beyond 64 bits, and nesting: `ReaderLimits.IntegerIff`, `ReaderLimits.NestingIff`;
- buffers of the reply reader above 2 GB: `ReaderLimits.SeekLimitIff` for the search of a line end,
  `Sds.RangeIsSlice` for the trimming, and the status line of `ReaderLimits.LongLineMissed`;
- commands whose wire form has 2 GB and more: `Format.FormattedIff`, `Format.TotlenIff`, and the arguments
  of `Format.LongArgument`;
- ranges of strings of 2 GB and more: `Sds.RangeIsSlice`, and `Sds.LongStringEmptied`;
- replies with a CR LF in the text of a scan or a show: `EndToEnd.FramesIff`, `EndToEnd.PipelineFramesIff`;
- the length of the skiplist: `SkipModel.InsertCountsIffNew`; the key order: `SkipModel.KeyCompareZeroIff`;
- the last line feed of a scan, and its replies of 2 GB and more: `Sds.DropLastSeparator`; the empty token: `SplitJoin.SplitInvertsJoin`.

## Model

| member | source | states |
|---|---|---|
| `DictRefinement.NextPowerIsLeast` | dict.c:839-849 | The new size is a power of two, at least 4 and at least the wanted size, and less than twice that size unless it is 4 |
| `DictRefinement.SkipLoopStops` | dict.c:253-256 | While entries are left in the old table, the loop that skips empty buckets stays inside the table and stops at a bucket with entries |
| `DictRefinement.RehashOneKeeps` | dict.c:238-275 | One turn of the incremental rehash keeps the invariant (each entry in the right bucket of exactly one table, exact counts, nothing below the rehash index) and every lookup |
| `DictRefinement.RehashKeeps` | dict.c:238-275 | Any number of rehash turns keeps every lookup; the result tells whether a rehash is still going on |
| `DictRefinement.ExpandKeeps` | dict.c:205-232 | Expanding keeps every lookup, and succeeds if and only if no rehash runs and the entries fit the wanted size |
| `DictRefinement.ExpandIfNeededKeeps` | dict.c:817-836 | The automatic expansion never fails, keeps every lookup, and leaves a table to insert into |
| `DictRefinement.ExpandIfNeededSizes` | dict.c:817-836 | Four buckets at first; at one entry a bucket, or six with resizing off, a rehash starts into a table of at least twice and less than four times as many buckets as entries, exactly double when it is just full; otherwise nothing changes |
| `DictRefinement.FindFinds` | dict.c:476-495 | Finding returns what the map holds for the key, and its rehash step changes no lookup |
| `DictRefinement.AddAdds` | dict.c:333-356 | Adding succeeds if and only if the key is new, and then changes the lookup of that key only |
| `DictRefinement.ReplaceReplaces` | dict.c:362-381 | Replacing sets the value of the key and of no other one, and tells whether the key was new |
| `DictRefinement.DeleteDeletes` | dict.c:396-431 | Deleting succeeds if and only if the key is present, and removes that key only |
| `DictRefinement.KeysAreLookups` | dict.c:857-879 | `used` counts exactly the keys that lookups find in a table |
| `DictRefinement.ViewIsLookup` | dict.c:476-495 | The two tables together stand for one map, with as many keys as the two `used` counts say |
| `DictRefinement.ApplyRefinesMap` | dict.c:205-495 | Each operation answers like the map and moves to a dictionary that stands for the new map |
| `DictRefinement.RunRefinesMap` | dict.c:205-495 | Any run of operations, rehash steps, expansions, pins and resize switches included, gives the answers of the same run on a map |
| `DictLoad.RehashOneLoad` | dict.c:238-275 | A rehash turn empties exactly one more old bucket, or ends the rehash |
| `DictLoad.AddLoad` | dict.c:333-356 | Adding keeps the load invariant (entries plus old buckets to move are at most the new size plus one) |
| `DictLoad.LoadBound` | dict.c:817-849 | After any run from empty with resizing enabled, the entries exceed the newest size by at most one |
| `DictLoad.ForcedLoadBound` | dict.c:817-836 | With resizing switched off and on at will, never more than six entries for each bucket, and the tight bound during a rehash |
| `DictLoad.RehashFinishes` | dict.c:238-275 | As many rehash turns as there are non-empty old buckets plus one end the rehash |
| `DictLoad.RehashEndsDuringRun` | dict.c:304-306 | In any run of that many operations that take a step, one of the steps ends the rehash |
| `Words.Rev` | dict.c:649-657 | The mask-and-shift loop reverses all 64 bits |
| `Words.ReverseTwice` | dict.c:649-657 | Bit reversal is its own inverse |
| `Words.MaskIsMod` | dict.c:857-879 | `h & sizemask` is `h` modulo the size when the size is a power of two |
| `DictScan.NextCursorCode` | dict.c:802-811 | The set-high-bits, reverse, increment, reverse steps give the next cursor of the reverse-binary order |
| `DictScan.NextCovers` | dict.c:801-809 | One step of the cursor passes exactly one bucket: what lies before the next cursor is what lay before this one, and the bucket itself |
| `DictScan.ExpansionsCoverIff` | dict.c:785-799 | The loop over the larger table visits every expansion of the small bucket if and only if the cursor bits above the small mask are a run of ones and then zeros; zeros, as in a growing scan, qualify |
| `DictScan.ScanCovers` | dict.c:743-812 | One call emits every entry whose hash lies between the cursor and the next one, in either table |
| `DictScan.ScanVisitsAll` | dict.c:743-812 | Over any run of calls from cursor 0 to 0, with operations in between, an entry that is present throughout is emitted, as long as each call finds covered expansions |
| `DictScan.GrowingScanVisitsAll` | dict.c:743-812 | The same for every run whose expansions only grow the table, by any power of two, with two tables alive or not |
| `DictScanUnchanged.UnchangedScanEmitsOnce` | dict.c:743-812 | With unchanged tables, one or two of them, the scan from cursor 0 returns 0 for the first time after exactly as many calls as the smaller table has buckets, and by then it has emitted every entry of both tables exactly once and nothing else |
| `DictScanUnchanged.ScanVisitsOnce` | dict.c:754-811 | No two of these calls visit the same bucket of the smaller table |
| `DictScanUnchanged.ExpansionsEmit` | dict.c:785-799 | The loop over the expansions emits exactly one column of the larger table: the buckets with the low bits of the cursor, from its own on |
| `DictScanShrink.NearCoversIff` | dict.c:768-799 | A scan call covers its share at every cursor if and only if the two tables differ by a factor of two at most |
| `DictScanShrink.NearScanVisitsAll` | dict.c:743-812 | The scan loses no entry in any run, shrinking ones included, whose tables stay within a factor of two at the calls |
| `DictScanShrink.ShrinkLosesEntry` | dict.c:768-811 | A reachable dictionary of sixteen buckets, a shrink to four after the first call: the cursor comes back to 0 and key 4, there all the time, is never emitted |
| `DictIterator.NextReturns` | dict.c:562-595 | dictNext returns the first pending entry and leaves exactly the others pending, across both tables |
| `DictIterator.NextStarts` | dict.c:562-595 | The first call pins the dictionary and returns the first of all its entries |
| `DictIterator.AddKeepsPending` | dict.c:304-306 | Adding during an iteration, even with an expansion, keeps every other pending key pending |
| `DictIterator.DeleteKeepsPending` | dict.c:396-431 | Deleting the entry returned last keeps every other pending key pending |
| `DictIterator.ReplaceKeepsPending` | dict.c:362-381 | Replacing during an iteration keeps every other pending key pending |
| `DictIterator.EventSteps` | dict.c:333-431 | What happens under a running iterator happens to the dictionary: additions, replacements and the deletion of the last key change exactly their key, finding and dictNext change none |
| `DictIterator.SafeIteratorVisitsOnce` | dict.c:542-606 | In any run of dictNext calls, additions, lookups, value updates and deletions of the entry returned last, a key present at the start and not put back after its deletion has been returned exactly once or is still to come, never both; once it is deleted, or dictNext returns NULL, it has been returned exactly once |
| `DictIterator.DeletingVisitsOnce` | dict.c:542-606 | A loop that deletes each entry it gets has got every key exactly once when dictNext returns NULL |
| `DictIterator.DeletingEmpties` | dict.c:542-606 | When that loop ends, the dictionary is empty |
| `HashTable.ChainTable.Search` | dict.c:476-495 | Walking a chain of nodes finds what the table holds for the key |
| `HashTable.ChainTable.Link` | dict.c:346-353 | Putting a node in front of its chain |
| `HashTable.ChainTable.Unlink` | dict.c:396-431 | Unlinking a node, at the head or behind another one, removes exactly its entry |
| `HashTable.ChainTable.Drain` | dict.c:257-273 | Moving a bucket relinks all its nodes into the other table and adjusts both counts |
| `HashTable.HashTable.NextPower` | dict.c:839-849 | The doubling loop computes the size of the model |
| `HashTable.HashTable.Expand` | dict.c:205-232 | In place: the first table, or a second one and the start of a rehash; state and result are exactly those of the model |
| `HashTable.HashTable.Rehash` | dict.c:238-275 | In place: the rehash loop, on bucket arrays and next pointers; state and result are exactly those of the model |
| `HashTable.HashTable.Find` | dict.c:476-495 | In place: the rehash step and the search; state and result are exactly those of the model; under a safe iterator every node keeps its chain |
| `HashTable.HashTable.Add` | dict.c:333-356 | In place: the step, the expansion and the insertion at the head of the chain; state and result are exactly those of the model; under a safe iterator every node keeps its chain |
| `HashTable.HashTable.Replace` | dict.c:362-381 | In place: add, or find again and set the value; state and result are exactly those of the model; under a safe iterator every node keeps its chain |
| `HashTable.HashTable.Delete` | dict.c:396-431 | In place: the step and the unlinking in either table; state and result are exactly those of the model; under a safe iterator every other node keeps its chain |
| `HashTable.HashTable.Scan` | dict.c:743-812 | In place: dictScan, with the cursor arithmetic on 64-bit words and both table orders; state and result are exactly those of the model |
| `SafeIterator.SafeIterator.Next` | dict.c:562-595 | In place: dictNext with the entry saved ahead; the iterator stays valid; state and result are exactly those of the model |
| `SafeIterator.SafeIterator.DeleteLast` | dict.c:396-431 | In place: deleting the entry returned last keeps the iterator valid, because the entry after it was saved and stays in its chain |
| `SafeIterator.SafeIterator.Perform` | dict.c:542-606 | In place: any run of dictNext, deletions of the last entry, additions, lookups and replacements keeps the iterator valid and returns exactly the keys of the model |
| `SafeIterator.DeleteEach` | dict.c:542-606 | In place: a client that takes and deletes entry after entry gets every key exactly once and leaves the dictionary empty |
| `SkipModel.KeyCompareZeroIff` | skiplist.c:51-59 | The comparison gives 0 if and only if the keys are equal or their lengths differ |
| `Bytes.CompareIsOrder` | skiplist.c:51-59 | memcmp on strings of one length is negative exactly when the first one has the smaller byte at the first place where they differ |
| `SkipModel.KeyOrderIs` | skiplist.c:51-59 | Keys are ordered by the first byte in which they differ, the smaller byte first |
| `SkipModel.KeyOrder` | skiplist.c:51-59 | On keys of one length the comparison is antisymmetric and 0 for equal keys only |
| `SkipModel.KeyOrderTransitive` | skiplist.c:51-59 | On keys of one length the comparison is a strict total order |
| `SkipModel.SearchRefinesMap` | skiplist.c:151-164 | Searching answers for the map of the list |
| `SkipModel.InsertRefinesMap` | skiplist.c:62-105 | Inserting a new key adds it to the map, for every height; order, heights, `level` and `length` stay right |
| `SkipModel.InsertCountsIffNew` | skiplist.c:76-81 | Insertion keeps `length` right if and only if the key is new: a present key is counted again |
| `SkipModel.ReplaceRefinesMap` | skiplist.c:166-182 | Replacing changes the value of a present key only, and reports whether there was one |
| `SkipModel.DeleteRefinesMap` | skiplist.c:120-149 | Deleting removes the key from the map, and `level` ends as the greatest height left |
| `SkipModel.LowerFinds` | skiplist.c:136-143 | The `level--` inside the pointer loop stops exactly at the greatest height left |
| `Skiplist.NextIndexIs` | skiplist.c:66-74 | The next node of a level is the first one behind that reaches the level |
| `Skiplist.NextSpliced` | skiplist.c:97-100 | What each pointer of a level must be after a node has been spliced in |
| `Skiplist.LinkNode` | skiplist.c:97-100 | The pointer loop links the new node at all its levels and leaves the others linked |
| `Skiplist.CutNode` | skiplist.c:136-143 | The pointer loop takes a node out of all its levels and lowers `level` |
| `Skiplist.Skiplist.constructor` | skiplist.c:23-39 | An empty list with a head of full height |
| `Skiplist.Skiplist.LevelChains` | skiplist.c:62-182 | Following the pointers of a level: the bottom chain holds all nodes, each chain is strictly sorted by key, each is the part of the one below that reaches one level further, and from `level` on they are empty |
| `Skiplist.Skiplist.Walk` | skiplist.c:66-74 | Along one level to the last node before the key; a pointer is read only below its node's height |
| `Skiplist.Skiplist.FindUpdate` | skiplist.c:66-74 | For each level, the last node before the key, and the node that can hold the key |
| `Skiplist.Skiplist.Insert` | skiplist.c:62-105 | In place: insertion, for every height the coin flips give; state and result are exactly those of the model |
| `Skiplist.Skiplist.Delete` | skiplist.c:120-149 | In place: deletion; state and result are exactly those of the model |
| `Skiplist.Skiplist.Search` | skiplist.c:151-164 | In place: the search, which may stop above the bottom level; state and result are exactly those of the model |
| `Skiplist.Skiplist.Replace` | skiplist.c:166-182 | In place: replacement; state and result are exactly those of the model |
| `Skiplist.Skiplist.FindMax` | skiplist.c:184-204 | The last key of a list that is not empty, which is its greatest one |
| `StoreModel.SizesAgree` | commands.c:131-183 | In a consistent store the dictionary, `length` and the list have the same size, and the same keys |
| `StoreModel.GetAnswers` | commands.c:108-129 | get returns the map's value; the skiplist search never fails after the dictionary has the key |
| `StoreModel.PutAnswers` | commands.c:131-158 | put sets the key in both indexes, and keeps them in agreement |
| `StoreModel.DeleteAnswers` | commands.c:160-183 | delete removes the key from both indexes, and tells whether it was there |
| `StoreModel.ScanAnswers` | commands.c:185-226 | scan returns exactly the keys of the range, ordered by the first byte in which they differ, one on each line, as long as these lines are shorter than 2 GB; for the single empty key the line feed stays; from 2 GB on the reply is what sdsrange with its int length leaves; the range is refused exactly when its end comes before its start |
| `StoreModel.ShowAnswers` | commands.c:232-247 | show returns the number of keys, the key that no other one comes before, and the key that comes before no other one, in the order of bytes |
| `StoreModel.ExecuteRefinesMap` | commands.c:108-247 | Every command keeps the two indexes in agreement and answers as the map does |
| `StoreModel.RunRefinesMap` | commands.c:108-247 | Every run from a consistent store: each reply is right for the map before its command, and no NULL is used |
| `StoreModel.AnswerIsUnique` | commands.c:108-247 | There is only one right reply to a command on a map |
| `StoreModel.AnswerIsMapAnswer` | commands.c:108-247 | The right reply as a function of the map: the value, the listing of the range, the least and greatest key |
| `Sds.DropLastSeparator` | commands.c:221-222 | Dropping the last byte with sdsrange(0, -2) gives the joined keys if and only if the list is not the single empty key and its lines are shorter than 2 GB |
| `Store.Store.Get` | commands.c:108-129 | In place: getCommand on the hash table and the skiplist; state and result are exactly those of the model |
| `Store.Store.Put` | commands.c:131-158 | In place: putCommand; state and result are exactly those of the model |
| `Store.Store.Delete` | commands.c:160-183 | In place: deleteCommand; state and result are exactly those of the model |
| `Store.Store.Scan` | commands.c:185-226 | In place: scanCommand; state and result are exactly those of the model |
| `Store.Store.Show` | commands.c:232-247 | In place: infoCommand; state and result are exactly those of the model |
| `Store.Collect` | commands.c:207-218 | The walk along the bottom level that collects the keys of the range |
| `Resp.ParsePrint` | hiredis/hiredis.c:355-554 | Any reply that fits the protocol, printed, with any bytes behind it, is read back |
| `Resp.ParseAllPrinted` | hiredis/hiredis.c:617-665 | A concatenation of printed replies is read as exactly those replies |
| `Resp.NewlineStays` | hiredis/hiredis.c:260-284 | A line end once found stays the first one when more bytes come |
| `Resp.BoundedAll` | hiredis/hiredis.c:288-313 | Up to the first number that does not fit the C types (64 bits, an int for a count) the parser with bounds and the one without find the same replies; without such a number they find the same in all |
| `ReaderModel.FinishKeeps` | hiredis/hiredis.c:330-353 | Storing an object and moving to the next task fills the array slots in order and keeps what the stack will return |
| `ReaderModel.LineAgrees` | hiredis/hiredis.c:355-387 | A line item agrees with the parser, complete or not, while its number and the buffer fit the C types |
| `ReaderModel.BulkAgrees` | hiredis/hiredis.c:389-440 | A bulk item agrees with the parser, complete or not, nil included, while its length and the buffer fit the C types |
| `ReaderModel.ArrayAgrees` | hiredis/hiredis.c:442-505 | An array item agrees with the parser: nil, empty, opened, incomplete, or too deep, while its count fits an int |
| `ReaderModel.ItemAgrees` | hiredis/hiredis.c:507-554 | One step agrees with the parser whatever bytes come next, wrong type bytes included, while the numbers and the buffer fit the C types |
| `ReaderModel.TrimKeeps` | hiredis/hiredis.c:650-654 | Trimming a buffer below 2 GB after 1024 bytes changes nothing that is left |
| `ReaderModel.GetReplyAgrees` | hiredis/hiredis.c:617-665 | A call on a buffer below 2 GB returns the next reply, nothing, or the error, as the parser does on what is left and whatever comes, unless it meets a number out of range |
| `ReaderModel.RunAgrees` | hiredis/hiredis.c:585-665 | In any run of feeds and calls with numbers in range and buffers below 2 GB, the replies returned and those still to come are those of the parser |
| `ReaderModel.ReaderRefinesParser` | hiredis/hiredis.c:330-665 | For all bytes whose numbers fit the C types, cut in any way, with less than 2 GB in the buffer at each call: the reader returns the replies and the error of the recursive parser, whose numbers have no bound |
| `ReaderModel.FewBytesAreCalm` | hiredis/hiredis.c:585-665 | The buffer is below 2 GB at each call when less than 2 GB are fed in all |
| `ReaderModel.RunIsSafe` | hiredis/hiredis.c:330-665 | On any bytes at all, cut in any way: at most nine tasks, no place outside an element vector is written, and each array is filled element by element in order; a NULL vector or an overflow stops the model |
| `ReaderLimits.HeaderAgreesIff` | hiredis/hiredis.h:109-116 | For one array header with a positive count that fits a long: the reader agrees with the parser, for every tail in range and every way to cut it up, if and only if the count is less than 2^31 |
| `ReaderLimits.HeaderFails` | hiredis/hiredis.c:442-505 | For each count from 2^31 on, a run that shows it: after as many elements as the truncated count says the reader returns an array, or has used a NULL vector, while the parser waits |
| `ReaderLimits.TruncatedCount` | hiredis/hiredis.c:442-505 | On `*4294967297\r\n:1\r\n` the reader returns an array of one element, and the parser waits for the others |
| `ReaderLimits.LostCount` | hiredis/hiredis.c:154-169 | On `*4294967296\r\n:1\r\n` the array has no element vector, and its first element is stored through NULL |
| `ReaderLimits.SeekLimitIff` | hiredis/hiredis.c:260-284 | seekNewline with its int length finds the first CR LF in all strings of a length, if and only if the length is at most 2 GB |
| `ReaderLimits.LongLineMissed` | hiredis/hiredis.c:260-284 | A complete status line of 2 GB in the buffer: the reader finds no line end, the parser reads the line |
| `ReaderLimits.IntegerIff` | hiredis/hiredis.c:288-313 | An integer reply is returned if and only if its digits fit a signed 64-bit number; beyond, the accumulator overflows |
| `ReaderLimits.NestingIff` | hiredis/hiredis.c:442-458 | Arrays in each other are returned up to eight, seven inside the first one; from nine on the reader reports an error |
| `Reader.SeekNewline` | hiredis/hiredis.c:260-284 | The nested loops, with the length converted to int, find the line end of the model, which is the first CR LF up to 2 GB (`ReaderModel.LineEndIsNewline`), and look no further than the terminating NUL |
| `Reader.ReadLongLong` | hiredis/hiredis.c:288-313 | The number of a line, up to its first CR; -1 for other characters; None exactly when the 64-bit accumulator overflows |
| `Reader.Reader.MoveToNextTask` | hiredis/hiredis.c:330-353 | In place: each element goes into an empty slot of its parent, and complete arrays are popped; state and result are exactly those of the model |
| `Reader.Reader.PutObject` | hiredis/hiredis.c:97-184 | In place: the object goes into the element vector of its parent, and the model stops when that vector is NULL |
| `Reader.Reader.ProcessLineItem` | hiredis/hiredis.c:355-387 | In place: status, error and integer; state and result are exactly those of the model |
| `Reader.Reader.ProcessBulkItem` | hiredis/hiredis.c:389-440 | In place: bulk string; state and result are exactly those of the model |
| `Reader.Reader.ProcessMultiBulkItem` | hiredis/hiredis.c:442-505 | In place: array, with the count converted to int for the task and the element vector; state and result are exactly those of the model |
| `Reader.Reader.ProcessItem` | hiredis/hiredis.c:507-554 | In place: the type byte and its item; state and result are exactly those of the model |
| `Reader.Reader.SetError` | hiredis/hiredis.c:186-210 | An error drops the reply, the buffer and the stack |
| `Reader.Reader.Feed` | hiredis/hiredis.c:585-615 | In place: feeding bytes; state and result are exactly those of the model |
| `Reader.Reader.GetReply` | hiredis/hiredis.c:617-665 | In place: the loop, the trimming and the reply; state and result are exactly those of the model |
| `Format.IntLen` | hiredis/hiredis.c:668-679 | The number of characters of the printed int, sign included; None for the least int, which cannot be negated |
| `Format.FormatCommandArgv` | hiredis/hiredis.c:939-971 | With `totlen` as an int: the command is formatted if and only if its wire form has less than 2^31 - 1 bytes, and then exactly these bytes and a NUL fill the buffer and no write leaves it; otherwise the outcome is exactly a refused allocation, an overrun or an overflow |
| `Format.TotlenIff` | hiredis/hiredis.c:945-950 | The computed length is that of the wire form if and only if this is less than 2^31, and it is never more |
| `Format.FormattedIff` | hiredis/hiredis.c:939-971 | All bytes fit the allocation of `totlen` + 1 if and only if the wire form has less than 2^31 - 1 bytes |
| `Format.LongArgument` | hiredis/hiredis.c:668-684 | One argument of 2 GB overflows intlen, one of a byte more makes the size negative, and one of 4 GB and a byte is written into twelve bytes |
| `Format.ParserInvertsWire` | hiredis/hiredis.c:939-971 | The reply parser reads a formatted command back as the array of exactly its arguments |
| `Format.WireIsPrefixFree` | hiredis/hiredis.c:939-971 | Different argument lists have different wire forms, none the start of another |
| `Format.FormatCommand` | hiredis/hiredis.c:686-911 | Literals, %s, %b, %% and printf conversions with what vsnprintf prints for them: the same bytes as for the list of arguments between the spaces of the format, if and only if the wire form has less than 2^31 - 1 bytes; -1 for an invalid conversion; a format that ends inside a conversion makes the code read behind its NUL |
| `Format.ReadConversion` | hiredis/hiredis.c:750-845 | The detection of a printf conversion: flags, width, precision and size, and the place of its last character |
| `FormatWords.FormatReads` | hiredis/hiredis.c:706-866 | On the bytes of a format: words separated by blanks, each made of characters, %s, %b, %%, printf conversions and a last percent sign, stand for one argument for each word that is not empty, its parts one after the other |
| `FormatWords.FormatWords` | hiredis/hiredis.c:686-911 | The command written for such a format is the wire form of these arguments, if it has less than 2^31 - 1 bytes |
| `FormatWords.ConversionIs` | hiredis/hiredis.c:750-832 | A printf conversion ends at its letter: flags in their order, width, precision, h, hh, l or ll, and the letter |
| `FormatWords.InvalidPrint` | hiredis/hiredis.c:750-832 | A conversion with a byte that is no letter for it is refused |
| `FormatWords.LongPrint` | hiredis/hiredis.c:835-845 | A conversion of fourteen bytes and more prints nothing, and its bytes behind the first two are read again |
| `FormatWords.UnfinishedPrint` | hiredis/hiredis.c:776-845 | A format that ends inside a conversion is read behind its NUL |
| `Format.SpaceSeparates` | hiredis/hiredis.c:706-727 | A space of the format separates arguments |
| `Format.NoSpaceOneArgument` | hiredis/hiredis.c:728-750 | A format without spaces gives one argument, all its parts in order: no interpolated value is split |
| `RequestModel.HeaderProgress` | db.c:315-356 | The header of a command starts its argument list, or waits for more bytes |
| `RequestModel.LenProgress` | db.c:356-414 | The length of an argument is read or awaited; the parser never gives up on it |
| `RequestModel.TakeProgress` | db.c:416-436 | An argument is stored in a free place of the argument array |
| `RequestModel.ArgsProgress` | db.c:354-437 | The loop reads the command to its end, or waits in the middle of it |
| `RequestModel.InputProgress` | db.c:462-494 | Exactly the complete commands up to the first quit are executed; what stays in the buffer is a part of the next line or argument |
| `RequestModel.ParserSeesCommands` | db.c:310-542 | For commands of up to 1048576 arguments of up to 512 MB and any cutting into reads within the read limit: processCommand gets command i if and only if all its bytes have come and no quit stands before it, with CR LF left on each argument of 32 KB and more; the assertion on argc fails if and only if a byte comes behind a quit |
| `RequestModel.ParserInvertsFormatter` | db.c:310-542 | For any commands without quit and with arguments below 32 KB, and any cutting into reads of at most 16 KB, processCommand gets exactly the formatted argument vectors, in order, each when its last byte has come |
| `RequestModel.QuitFailsNext` | db.c:221-224 | When all bytes have come, the commands up to the first quit have been seen, and the assertion on argc has failed if and only if a command stands behind a quit |
| `RequestModel.QuitExample` | db.c:221-224 | quit and ping in one read: the assertion fails and ping is not seen |
| `RequestModel.ArgumentIsExact` | db.c:416-436 | For every cutting within the read limit, an argument vector is seen as it was sent if and only if all its arguments are below 32 KB |
| `RequestModel.BigArgumentExample` | db.c:416-426 | An argument of 32 KB read byte by byte is seen with its CR LF |
| `RequestModel.BytesCanBeRead` | db.c:505-514 | Any such commands can be delivered within the read limit: while the server waits, it asks for at least one byte |
| `RequestModel.InputWaits` | db.c:505-514 | Whatever bytes come in, the state after a read asks for at least one byte more |
| `RequestEdges.QuitNames` | db.c:221-224 | quit is recognized exactly by its four letters, in any case, up to a NUL |
| `RequestEdges.NoArguments` | db.c:340-350 | A request with a count of zero or less is skipped, and what follows it is processed as if it came first |
| `RequestEdges.TooManyArguments` | db.c:340-344 | A request with more than 1048576 arguments is refused, and no command is seen |
| `RequestEdges.LengthRefused` | db.c:376-387 | An argument with a negative length, one of more than 512 MB, or one without a dollar sign is refused |
| `RequestEdges.NotANumber` | db.c:340-344 | A count or a length that is not the text of a 64-bit number is refused |
| `Request.Client.StoreArg` | db.c:416-436 | In place: argc stays within the allocation; state and result are exactly those of the model |
| `Request.Client.ProcessMultibulkBuffer` | db.c:310-445 | In place: processMultibulkBuffer; state and result are exactly those of the model |
| `Request.Client.ResetClient` | db.c:447-460 | In place: resetClient; state and result are exactly those of the model |
| `Request.Client.ProcessInputBuffer` | db.c:462-494 | In place: processInputBuffer, with the argument vectors it executes; state and result are exactly those of the model |
| `Request.Client.ReadLength` | db.c:505-514 | In place: the read length with its cap for big arguments is exactly that of the model |
| `Request.Client.Receive` | db.c:497-542 | In place: one read of at most the read length; state, commands and what stays in the socket are exactly those of the model |
| `Server.CleanInPlace` | util.c:203-206 | The loop replaces every CR and LF by a blank |
| `Server.ErrorIsOneFrame` | util.c:183-211 | An error reply is one frame whatever its message |
| `Server.BulkIsPrint` | util.c:320-325 | A value reply is one bulk string frame |
| `EndToEnd.OneReply` | db.c:216-244 | For each command by its name, in any case, and each number of arguments: the reply that is written and the map that the store stands for afterwards; the reply is one frame unless it is a status text with a CR LF |
| `EndToEnd.LookupIs` | commands.c:45-75 | lookupCommand finds exactly the eight names, in any case, with their handlers and argument counts |
| `EndToEnd.GetWrites` | commands.c:108-129 | On the bytes of `get k`: the map stays, and the value of k is written in one bulk frame, or nil |
| `EndToEnd.PutWrites` | commands.c:131-158 | On the bytes of `put k v` and `set k v`: the map has v at k, and OK is written |
| `EndToEnd.DeleteWrites` | commands.c:160-183 | On the bytes of `delete k`: k leaves the map, and 1 or 0 is written |
| `EndToEnd.ScanWrites` | commands.c:185-226 | On the bytes of `scan a b`: the map stays, and the listing of the range is written |
| `EndToEnd.ShowWrites` | commands.c:232-247 | On the bytes of `show`: the number of keys with the least and the greatest one, or the text for an empty store |
| `EndToEnd.PingWrites` | commands.c:101-106 | On the bytes of `ping`: PONG is written, and the map stays |
| `EndToEnd.OtherCounts` | db.c:234-239 | Each of the eight names with any other number of arguments: the error with its name is written, and the map stays |
| `EndToEnd.OtherNames` | db.c:229-233 | Any name that spells none of the eight: the error with the name is written, and the map stays |
| `EndToEnd.PipelineReplies` | db.c:216-244 | A pipeline writes the replies that the names of its commands ask for, in order |
| `EndToEnd.FramesIff` | commands.c:185-247 | A client parser reads back exactly the replies of the server if and only if no status text, of a scan or a show, has a CR LF in it |
| `EndToEnd.PipelineFramesIff` | commands.c:185-247 | The reply bytes of a pipeline, cut into any reads, are one frame for each command if and only if no listed text has a CR LF in it |
| `EndToEnd.PipelineEndToEnd` | commands.c:101-247 | From the client's commands through formatter, parser, store and reply reader: n commands, of any names, scan and show with texts free of CR LF included, give exactly n replies, each one the abstract map's answer |
| `Integers.String2LL` | util.c:217-278 | The parsing loop, whose 64-bit accumulator never wraps |
| `Integers.ParseInvertsText` | util.c:217-278 | string2ll accepts a string with value v if and only if it is the text that sdsll2str prints for v, for every 64-bit v |
| `Integers.LL2Str` | sds.c:429-458 | The text and its NUL fit 21 bytes for every 64-bit number |
| `Repr.CatRepr` | sds.c:858-881 | The loop appends the quoted form |
| `Repr.ReadToken` | sds.c:949-1021 | In place: the switch of the inner loop, inside quotes, inside apostrophes and outside, reads the token of the recursive reading and stops at the same place or fails with it |
| `Repr.SplitLine` | sds.c:933-1041 | The loops split a line as the model does |
| `Repr.SplitInvertsRepr` | sds.c:858-1041 | Any list of byte strings, printed, joined by blanks and split again, is the same list |
| `SplitWords.SplitReadsLine` | sds.c:933-1042 | Any list of arguments, written bare, in quotes with every escape, or in apostrophes, with any white space between them, is split into exactly these arguments; nothing behind a NUL is read |
| `SplitWords.SplitReadsLast` | sds.c:933-1042 | The same when the last argument ends at the NUL |
| `SplitWords.UnclosedIsRefused` | sds.c:984-986 | Behind any arguments, a quote or apostrophe that is not closed before the NUL gives NULL |
| `SplitWords.FollowedIsRefused` | sds.c:979-983 | Behind any arguments, a closing quote or apostrophe followed by anything but white space or the NUL gives NULL |
| `SplitWords.ReprIsWritten` | sds.c:857-880 | Each byte is printed as itself, with its letter, or as two small hexadecimal digits, so the output is printable ASCII |
| `SplitJoin.SplitLen` | sds.c:795-842 | The tokens, in an array that has room for the next and the final one at every step |
| `SplitJoin.JoinSds` | sds.c:1080-1089 | The loop joins with the separator between the strings |
| `SplitJoin.JoinInvertsSplit` | sds.c:795-842 | Joining the tokens restores the string, for every separator that is not empty |
| `SplitJoin.SplitIsFree` | sds.c:805-828 | No token contains the separator |
| `SplitJoin.SplitInvertsJoin` | sds.c:795-842 | For a one-byte separator, splitting a join restores the list if and only if no string contains the separator and the list is not the single empty string |
| `SdsHeader.ReqTypeIsNarrowest` | sds.c:57-67 | The header type holds the size, and no narrower one does |
| `Sds.RangeKeeps` | sds.c:714-740 | In a string below 2 GB a range keeps exactly the bytes between the clamped positions, in order, for all positive and negative int indexes |
| `Sds.RangeIsSlice` | sds.c:714-740 | sdsrange, with its int conversions of the length, is the clamped slice for all ranges if and only if the string is shorter than 2 GB |
| `Sds.LongStringEmptied` | sds.c:714-740 | A range of the first eleven bytes empties a string of exactly 2 GB |
| `SdsHeader.String.constructor` | sds.c:81-135 | A new string: its contents, a NUL, and no free space |
| `SdsHeader.String.SetLen` | sds.h:129-151 | The length field keeps the low bits; nothing is lost when the length fits |
| `SdsHeader.String.MakeRoomFor` | sds.c:194-237 | Room for the bytes, the same contents and a header that holds the size: nothing changes when there is room, and otherwise the size is twice what is needed, or 1 MB more from 1 MB on |
| `SdsHeader.String.RemoveFreeSpace` | sds.c:245-269 | The same contents in a block without free space and under the narrowest header |
| `SdsHeader.String.CatLen` | sds.c:376-385 | Appending, with the length stored without loss across header changes |
| `SdsHeader.String.GrowZero` | sds.c:358-369 | Growing with zero bytes |
| `SdsHeader.String.Range` | sds.c:714-740 | The bytes of the range, moved to the front in place, with the int conversions of the code for every length |
| `SdsHeader.String.Run` | sds.c:194-740 | Any sequence of operations does to the contents what the byte-level operations say, ranges with their int conversions included; no store into a header field loses bits |
| `AsyncModel.ScriptKeeps` | hiredis/async.c:571-633 | Whatever a callback does, accepted commands queue up in order |
| `AsyncModel.DrainKeeps` | hiredis/async.c:264-274 | Every pending callback runs once with NULL, in order, and no new command is taken |
| `AsyncModel.ProcessKeeps` | hiredis/async.c:400-477 | Each reply goes to the next callback; after a release or an error the rest get NULL |
| `AsyncModel.EachCallbackOnce` | hiredis/async.c:216-477 | In every run the k-th reply goes to the k-th accepted command's callback, each callback runs once and in order; the accepted commands are those answered REDIS_OK, and none is after one that was refused; the assertion on the queue fails only with more replies than commands; unless it failed, redisAsyncFree or a read error frees the context, and then all remaining callbacks have run with NULL |
| `AsyncModel.CommandStatus` | hiredis/async.c:571-633 | A command gets REDIS_OK if and only if neither flag of the context is set; exactly then its callback joins the queue, and otherwise nothing changes |
| `AsyncModel.Awaited` | hiredis/async.c:400-477 | The callback of an awaited reply is called with it; when it releases the context, the context is freed |
| `AsyncModel.Unawaited` | hiredis/async.c:424-446 | Without a pending callback an error reply frees the context and any other reply fails the assertion |
| `AsyncModel.FreedHasCause` | hiredis/async.c:264-338 | Without redisAsyncFree, a read error, an error reply or a release by a callback no run frees the context, and every command is accepted |
| `AsyncModel.FirstCommand` | hiredis/async.c:571-633 | The first command of a new context is accepted, and its callback gets the first reply |
| `AsyncModel.AllAnsweredAtEnd` | hiredis/async.c:264-338 | With no more replies than commands, a run that frees the context or meets an error calls every accepted command's callback exactly once |
| `Async.CallbackList.Push` | hiredis/async.c:216-236 | In place: the list with head and tail grows by one at its end; state and result are exactly those of the model |
| `Async.CallbackList.Shift` | hiredis/async.c:238-252 | In place: the first callback leaves the list; state and result are exactly those of the model |
| `Async.AsyncContext.RunOne` | hiredis/async.c:254-261 | In place: a callback runs under its flag, and what it does happens; state and result are exactly those of the model |
| `Async.AsyncContext.Command` | hiredis/async.c:571-633 | In place: a plain command, refused once the context closes; state and result are exactly those of the model |
| `Async.AsyncContext.Free` | hiredis/async.c:312-317 | In place: a release, deferred inside a callback; state and result are exactly those of the model |
| `Async.AsyncContext.DestroyContext` | hiredis/async.c:264-306 | In place: the drain of pending callbacks; state and result are exactly those of the model |
| `Async.AsyncContext.DisconnectOnError` | hiredis/async.c:320-338 | In place: the disconnect after an error; state and result are exactly those of the model |
| `Async.AsyncContext.Process` | hiredis/async.c:400-477 | In place: the reply loop; state and result are exactly those of the model |

## Left out

- Sockets, the event loop, logging, daemonising, configuration, and saving and loading the database: reads are "append these bytes", writes are the bytes of the reply.
- Memory that cannot be allocated, and freeing: allocation succeeds, and objects that are no longer reachable are ignored. `SdsHeader` takes as a precondition that sizes fit 64 bits.
- Hash functions: every statement about the dictionary holds for all functions from keys to natural numbers; MurmurHash2, the case-insensitive hash and Wang's mix are not modelled.
- Server.LookupCommand: the command table is searched by the folded C string of the name; whether a name with a NUL byte lands in the right bucket depends on the hash function and is a parameter.
- HashTable.HashTable.NextPower: the clamp to LONG_MAX in `_dictNextPower` is not modelled, as no table of that size can be allocated, nor are `int` bucket indexes beyond 2^31; `Scan` asks that sizes are at most 2^64.
- DictRefinement.NextPowerIsLeast: without that clamp, for the same reason.
- dictResize, dictGetRandomKey, unsafe iterators and their fingerprint. An expansion to a smaller size stands for the shrink: `DictScanShrink` says which shrinks the scan survives.
- dictRehash called directly while a safe iterator runs (dictRehashMilliseconds): the iterator property covers the operations that look at the iterator count.
- Skiplist.Skiplist.Insert: `height` stands for the level that gen_random_level draws, any number from 1 to 16; the distribution of heights is not modelled.
- Skiplist.Skiplist.Search: keys have one length; `SkipModel.KeyCompareZeroIff` shows why the list is not ordered otherwise. The store is the one of fixed-length mode.
- Request.Client.ProcessMultibulkBuffer: the query buffer is cut with the unbounded slice, which sdsrange is below 2 GB (`Sds.RangeIsSlice`); arguments have at most 512 MB.
- Reader.Reader.PutObject: what happens after a NULL pointer has been used or a signed number has overflowed is not modelled; the model stops with the fault `Lost`.
- Reader.Reader.ProcessBulkItem: a reply is the bytes that its `str` holds; its `len` field is an int, which a string of 2 GB does not fit. Such a string is never complete in a buffer below 2 GB.
- Reader.Reader.ProcessMultiBulkItem: replies are values, so an array is put into its parent when it is complete instead of when it is opened, and the reply field is set then; what a caller can see is the same.
- Reader.Reader.Feed: the release of a large empty buffer (maxbuf) is not modelled, as it changes no bytes.
- Format.FormatCommand: the text that vsnprintf prints for a conversion is a parameter, and argument lists that are too short are outside the precondition, as C leaves them undefined. The size of an argument list in memory is not limited.
- Request.Client.ProcessInputBuffer: inline requests stop the loop; processInlineBuffer is not modelled. Protocol errors leave the buffer as the code does, but nothing is claimed about what happens after one.
- EndToEnd.PipelineEndToEnd: shutdown ends the process and is not in the pipeline. Arguments are below 32 KB and quit is excluded; `RequestModel.ParserSeesCommands` says what the parser does otherwise. Commands are their wire forms, which the formatter produces below 2 GB.
- SdsHeader.String.Range: int overflow in the length of a range (start 0, end the greatest int) is undefined in C and wraps around here.
- Integers.LL2Str: the C code negates the least number as a signed value before it converts it; the model takes the mathematical negation.
- Async.AsyncContext.Process: pub/sub, monitor mode, deferred user-requested disconnects and the connection callbacks are not modelled. A reply without a pending callback that is not an error sets `failed`, where the code has an assertion.
- hiredis/dict.c and hiredis/sds.c, which repeat parts of dict.c and sds.c in a simpler form; the timers of ae/ae.c, which the server switches off; and the byte counters of zmalloc.c.
