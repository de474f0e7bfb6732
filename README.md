# FileUtils core in Dafny

This project models the byte-crunching core of three small Windows command-line tools and of the memory helpers they share:

- **1brc** (`src/1brc.c`) reads a file of `station;value` lines in 5 MiB chunks. It folds every value into a fixed table of 10000 station records and sorts the table by key. It then writes one `name;min;mean;max` line per named slot.
- **find_line** (`src/find_line.c`) reads a file the same way. It reports every line equal to one of the phrases given on its command line, with the line's number.
- **count_lines** (`src/count_lines.c`) counts the newline bytes of a file.
- **memory** (`src/common/memory.c`) holds `copy`, `clear`, their byte-at-a-time forms and `count_byte_in_block`.

## How the model is built

The modules follow the sources:

| module | file | models |
|---|---|---|
| `Bytes` | `bytes.dfy` | byte constants, splicing, and the StringZilla scans the tools call (`sz_find_byte`, `sz_rfind_byte`, `sz_find`, `sz_order`) as total functions, with the first- and last-occurrence facts proved |
| `Memory` | `memory.dfy` | `copy_serial`, `clear_serial`, `copy`, `clear`, `count_byte_in_block` and `sz_copy` as methods over `array<byte>` |
| `Chunks` | `chunks.dfy` | the read loop every tool shares and the leftover carry of `handle_block` |
| `Stations` | `stations.dfy` | `record_t`, `update_record`, the slot index, `compare_record_t`, qsort, rounding and the output filter |
| `OneBrc` | `onebrc.dfy` | `handle_block` of 1brc and 1brc's `main` loop |
| `CountLines` | `count_lines.dfy` | `handle_block` and `main` loop of count_lines |
| `FindLine` | `find_line.dfy` | phrase framing, `handle_block_match_whole_line` and find_line's `main` loop |

Each imperative function is a method with its loop. Each method is proved equal to a specification function of the inputs or of the old state:

- `ScanFrom` for one 1brc block;
- `ApplyAll` for the station table;
- `PhraseMatches` and `BlockMatches` for find_line;
- `CountByte` for the line counters;
- `Carried` for the leftover carry.

Lemmas then state what those functions mean.

**The read buffer.** Each tool's read buffer is a `2 * FILE_BUFFER_SIZE` byte array with the same layout as the C code:

- the chunk is read into the upper half;
- the leftover of the previous block sits right below it;
- the stitched block is the window between the two.

**File reads.** The reads a run sees are given as a trace of `ReadResult` values, either `Read(bytes)` or `ReadFailed`. `IsReadTrace` states the `do { … } while (bytes_parsed < file_size)` loop's shape:

- every read returns at most `FILE_BUFFER_SIZE` bytes;
- the trace stops at the first failure;
- the trace also stops at the read that reaches the file size.

Over such a trace the model proves two things:

- `Stitched(trace)` lists the blocks the tools scan;
- each block is `LastCarry(previous) + bytes`.

**Where each block lies.** Every block starts `FILE_BUFFER_SIZE - |leftover|` bytes into the buffer, so its leftover ends where the bytes just read begin (`Placed`). `Layout(carry, bytes)` is a memory with zeros, then the leftover, then the bytes just read, holding the block at that same place. Two memories that agree on a block's bytes (`Agree`) give the same scans over it. So what each tool reports is a function of the reads alone:

- for find_line, the printed matches, positions included, are `StitchedMatches(trace)`;
- for 1brc, the records folded into the table are `StitchedScan(trace)`, whenever every key copy stays inside its block (`KeysInBlocks`).

**Temperatures and output.** Temperatures are integer tenths, and a value `-?D[D].D` becomes `sign * (10·I + F)`. The record count is a `u32` that wraps at 2^32. The printed mean is `RoundDiv(sum, count)`, which rounds half away from zero.

**The hash.** XXH64 over the key is a parameter `hash: seq<byte> -> nat`. It sees only the first 8 bytes of the key, as `get_record_index_from_key` hashes `sizeof(key)` bytes of an array parameter, that is a pointer's size (`src/1brc.c:61`).

## Behaviour of the code worth knowing

The model follows the code in each case below.

**1brc**
- A failed read does not abort 1brc: the loop breaks and the table is still sorted and written (`src/1brc.c:269-276`, `OneBrc.Run`).
- The key copied into a record keeps the newline that ended the previous line whenever a newline precedes it in its block. `handle_block` copies from the last newline before the semicolon (`src/1brc.c:114-122`). This includes the first record of every block that begins with a carried leftover, since the leftover begins with a newline. Only the first record of the file's first block, or of a block read after a block with no newline, has a key without it.
- The key length copied at `src/1brc.c:122` is `semicolon - current_pos`, from `key_start`, not `semicolon - key_start`.
- The carried leftover starts at the last newline of the block and is parsed again in the next block. A record whose block ends right before its closing newline is parsed in that block, and again, inside the carried tail, in the next one (`OneBrc.RecordCountedTwice`).
- `max` starts at 0, not at a minimal sentinel. `main` sets only `min` to `FLT_MAX` (`src/1brc.c:246-249`), so a station whose values are all negative reports max 0.
- Slots are compared on their whole 100-byte keys (`compare_record_t`). A slot is written when its first key byte is not 0, whatever its count.

**find_line**
- The carried leftover starts with the newline that ended the previous block, which `line_count` has already counted. Line numbers count it again, so a match in a block that starts with a carried leftover is numbered one too high (`FindLine.CarryCountedTwice`).
- The line number printed for a later match counts from the block start over `line_end - buf + 1` bytes rather than up to the match, a finding below.
- The first line of a file can never match, since a phrase is framed by a newline on both sides.
- A failed read stops the loop and the count is still printed.

**count_lines**
- A failed read jumps to cleanup and skips the `counted … lines` print (`CountLines.Run`, `completed`).

## Model

| member | source | states |
|---|---|---|
| Bytes.SignedChar | src/1brc.c:68-74 | a byte read through a signed `char` is the value in -128..127 congruent to it mod 256 |
| Bytes.FindByte | src/1brc.c:98-103 | sz_find_byte: a found position lies in the searched range and holds the byte |
| Bytes.FindByteFirst | src/count_lines.c:24-29 | the found byte is the first in the range; not found means absent from the whole range |
| Bytes.RFindByte | src/1brc.c:179 | sz_rfind_byte: a found position lies in the range and holds the byte |
| Bytes.RFindByteLast | src/1brc.c:114-119 | the found byte is the last in the range; not found means absent from the whole range |
| Bytes.FindSeq | src/find_line.c:36 | sz_find: a found occurrence lies wholly inside the searched range |
| Bytes.FindSeqFirst | src/find_line.c:36-41 | the needle occurs at the found position and at no earlier one; not found means it occurs nowhere in the range |
| Bytes.SameBytesOccurs | src/find_line.c:36 | the byte-by-byte comparison agrees with slice equality |
| Bytes.CountByte | src/count_lines.c:31 | a count of one byte never exceeds the length scanned |
| Bytes.CountByteZero | src/count_lines.c:22-29 | the count of a byte is 0 exactly when the byte does not occur |
| Bytes.CountByteAppend | src/count_lines.c:106 | counting two pieces and adding equals counting their concatenation |
| Bytes.CountInSlice | src/common/memory.c:63-87 | `CountIn`, the count by positions over m[lo..hi), equals CountByte of the slice |
| Bytes.CountInBound | src/common/memory.c:80 | at most one match per byte of the range |
| Bytes.CountInSplit | src/common/memory.c:71-84 | counts over adjacent ranges add up |
| Bytes.CountInAfterFind | src/common/memory.c:73-83 | the count is 1 more than the count after the first match, and 0 when nothing is found |
| Bytes.CountAfterFind | src/count_lines.c:24-34 | the same on slices: one match, then the rest of the range |
| Bytes.CountInNone | src/common/memory.c:73-76 | a range the search finds no byte in counts 0 |
| Bytes.Segment | src/find_line.c:48 | the bytes printed from lo to hi are hi - lo bytes long |
| Bytes.SegmentSlice | src/find_line.c:48 | `Segment`, the bytes taken out one by one, is the slice m[lo..hi) |
| Bytes.Order | src/1brc.c:82 | sz_order yields -1, 0 or 1 |
| Bytes.OrderZero | src/1brc.c:82 | sz_order is 0 exactly on equal keys |
| Bytes.OrderFlip | src/1brc.c:76-83 | swapping the operands negates the order |
| Bytes.OrderTransitive | src/1brc.c:76-83 | the order is transitive, so qsort's comparator is a total preorder |
| Bytes.Zeros | src/common/memory.c:44 | n bytes, all 0 |
| Bytes.Splice | src/common/memory.c:12-15 | writing bytes into memory keeps its length |
| Bytes.SpliceByElement | src/common/memory.c:12-15 | a memory that holds the written bytes in the window and the old bytes elsewhere is Splice |
| Bytes.SpliceSlice | src/common/memory.c:12-15 | after writing, the written window reads back the bytes written |
| Bytes.SpliceAppend | src/common/memory.c:24-29 | writing a then b right after it is writing a + b |
| Bytes.SpliceOver | src/common/memory.c:24-27 | a second write over the same window replaces the first |
| Bytes.AgreeAt | src/1brc.c:278-282 | memories that agree on a range hold the same byte at each position of it |
| Bytes.AgreeWithin | src/1brc.c:278-282 | memories that agree on a range agree on every range inside it |
| Bytes.SlicesAgree | src/1brc.c:278-282 | memories with the same slice of a range agree on that range |
| Bytes.FindByteAgree | src/1brc.c:98 | sz_find_byte over a range gives the same answer in memories that agree on the range |
| Bytes.RFindByteAgree | src/1brc.c:114 | sz_rfind_byte over a range gives the same answer in memories that agree on the range |
| Bytes.SameBytesAgree | src/find_line.c:36 | a comparison inside a range gives the same answer in memories that agree on the range |
| Bytes.FindSeqAgree | src/find_line.c:36 | sz_find over a range gives the same answer in memories that agree on the range |
| Bytes.CountInAgree | src/find_line.c:46 | the newline count over a range is the same in memories that agree on the range |
| Bytes.SegmentAgree | src/find_line.c:48 | the bytes printed from a range are the same in memories that agree on the range |
| Memory.CopySerial | src/common/memory.c:1-16 | copy_serial leaves the target with the source bytes at t and every other byte unchanged, also for length 0 and for overlapping ranges whose target lies below the source |
| Memory.ClearSerial | src/common/memory.c:32-46 | clear_serial zeroes exactly length bytes from t |
| Memory.SzCopy | src/1brc.c:122 | sz_copy_avx2 writes the n source bytes at t and nothing else |
| Memory.Store32 | src/common/memory.c:26 | an unaligned 32-byte store changes exactly the 32 bytes at its address |
| Memory.Copy | src/common/memory.c:18-30 | copy as written: every 32-byte lane is stored at `target`, then the tail is copied serially at `dest` (`CopyAsWritten`) |
| Memory.Clear | src/common/memory.c:48-61 | clear as written: every 32-byte lane of zeros is stored at `target`, then the tail is cleared at `dest` (`ClearAsWritten`) |
| Memory.CopyShortIsSerial | src/common/memory.c:24-29 | below 32 bytes copy as written (`CopyAsWritten`) does the same as copy_serial |
| Memory.ClearShortIsSerial | src/common/memory.c:55-60 | below 32 bytes clear as written (`ClearAsWritten`) does the same as clear_serial |
| Memory.CopyAsWrittenSkipsSecondLane | src/common/memory.c:26 | copying 64 bytes leaves byte 32 of the target as it was: the second lane lands on the first (`CopyAsWritten`, `CopyLanes`) |
| Memory.ClearAsWrittenSkipsSecondLane | src/common/memory.c:57 | clearing 64 bytes leaves a nonzero byte 32 nonzero (`ClearAsWritten`) |
| Memory.CopyIntended | src/common/memory.c:18-30 | with each lane stored at `dest`, copy writes the source bytes at t and nothing else |
| Memory.ClearIntended | src/common/memory.c:48-61 | with each lane stored at `dest`, clear zeroes exactly length bytes from t |
| Memory.CountByteInBlock | src/common/memory.c:63-87 | the number of occurrences of the byte in the block; at most the block size, 0 for an empty block |
| Chunks.ReadTraceStep | src/1brc.c:260-276 | in a read trace (`IsReadTrace`), a read returns at most FILE_BUFFER_SIZE bytes; a failure, or a read reaching the file size, is the last step; otherwise the loop goes on with the bytes added |
| Chunks.ReadTraceNext | src/1brc.c:314 | a read that leaves the total below the file size is followed by another step of the trace |
| Chunks.WholeTrace | src/1brc.c:314 | the steps of the loop up to the trace's length are the whole trace |
| Chunks.Cap | src/1brc.c:184 | the leftover is the smaller of its size and the overflow capacity |
| Chunks.Carried | src/1brc.c:177-187 | the carry keeps the memory's length |
| Chunks.CarryLeftover | src/1brc.c:177-189 | handle_block's tail returns the leftover size and leaves memory as Carried |
| Chunks.CarriedAt | src/1brc.c:179-186 | with a last newline at n, the carry writes m[n..n+size) to the top of the overflow region |
| Chunks.LeftoverSizeBounds | src/find_line.c:55-67 | the leftover (`LeftoverSize`) is at most the capacity and the block length, and is 0 exactly when the capacity is 0 or the block has no newline |
| Chunks.CarriedWrites | src/1brc.c:179-187 | without a newline memory is unchanged; otherwise the tail from the last newline is copied to the top of the overflow region, starts with a newline, and nothing else changes |
| Chunks.CarriedKeeps | src/1brc.c:186 | memory above the overflow region is untouched by the carry |
| Chunks.CarryOfShape | src/1brc.c:177-189 | the carried tail (`CarryOf`) is empty exactly when the block has no newline; otherwise it starts with the block's last newline, holds no other newline, is at most FILE_BUFFER_SIZE long, and below that length is the block's suffix |
| Chunks.CarryTail | src/1brc.c:179-184 | the tail from the last newline, capped, has that shape |
| Chunks.RFindByteShift | src/1brc.c:179 | searching a slice finds the same last newline, shifted |
| Chunks.CarriedIsCarryOf | src/1brc.c:278-282 | what the carry leaves under the read buffer is CarryOf of the block just scanned |
| Chunks.CarriedIsCarryOfAt | src/1brc.c:278-282 | the same, given the position of the last newline |
| Chunks.CarryOfAt | src/1brc.c:179-184 | CarryOf is the capped tail from the last newline |
| Chunks.CarryOfSlice | src/1brc.c:179-184 | CarryOf of a window is the capped tail of memory from its last newline |
| Chunks.SliceOfSlice | src/1brc.c:278 | a window inside a window is a window of memory |
| Chunks.Fill | src/1brc.c:265 | ReadFile places the bytes read at the buffer's upper half and changes nothing else |
| Chunks.StitchedShape | src/1brc.c:278-282 | `Stitched` has one block per successful read, each the bytes read preceded by at most FILE_BUFFER_SIZE carried bytes that start with a newline, and nothing before the first read |
| Chunks.LastCarryShape | src/1brc.c:177-189 | the leftover between reads (`LastCarry`) is at most FILE_BUFFER_SIZE bytes, starts with a newline, and is empty before any read |
| Chunks.SuccessfulReads | src/1brc.c:265-276 | no more successful reads than trace steps |
| Chunks.TraceStep | src/1brc.c:265-284 | a failed read changes neither the bytes read (`ReadBytes`), blocks nor leftover; a read appends its bytes, adds the block leftover+bytes and sets the leftover to that block's carry |
| Chunks.FilledBlock | src/1brc.c:278-280 | after the read, the window below and above the buffer start is the leftover followed by the bytes read |
| Chunks.StitchedPrefix | src/1brc.c:260-314 | the blocks of a prefix of the trace are a prefix of its blocks |
| Chunks.BlocksOfAppend | src/1brc.c:278-282 | adding a window that reads as the next block extends the block list |
| Chunks.BlocksOfTrace | src/1brc.c:314 | windows for the blocks of a prefix stay windows for the blocks of the whole trace |
| Chunks.BlocksStep | src/1brc.c:278-282 | scanning the window leftover+bytes adds the next stitched block |
| Chunks.CarryStep | src/1brc.c:280-282 | the leftover handle_block returns is the trace's next leftover |
| Chunks.PadOf | src/1brc.c:278 | a leftover of at most FILE_BUFFER_SIZE bytes placed in front of the buffer ends exactly at FILE_BUFFER_SIZE |
| Chunks.Layout | src/1brc.c:265-280 | the reference memory of a block is as long as its padding, leftover and bytes read |
| Chunks.LayoutSlice | src/1brc.c:278-280 | the reference memory holds the leftover and the bytes read where main places them |
| Chunks.LayoutAgree | src/1brc.c:278-282 | a block placed where main puts it agrees with its reference memory on all of the block |
| Chunks.PlacedRead | src/1brc.c:278-282 | a successful read adds a block placed FILE_BUFFER_SIZE - leftover into memory, keeping every block placed |
| Chunks.PlacedFailed | src/1brc.c:269-276 | a failed read adds no block and keeps every block placed |
| Chunks.BlocksOfLast | src/1brc.c:278-282 | the last block handled, after a read, is the last stitched block, placed where main puts it, and the blocks before it are those of the earlier reads |
| Stations.InitialTable | src/1brc.c:244-249 | 10000 records with zero count, sum, max and key and min FLT_MAX |
| Stations.NewTable | src/1brc.c:244-249 | the allocated and initialised table is InitialTable |
| Stations.InitialTableEmpty | src/1brc.c:244-249 | every initial slot is `EMPTY_RECORD`: it has count 0, sum 0, an unnamed key, min FLT_MAX, max 0 |
| Stations.Updated | src/1brc.c:34-41 | update_record: the u32 count goes up by 1 mod 2^32, the sum by the value, min and max become the least and greatest of old and value, the key stays |
| Stations.UpdateRecord | src/1brc.c:34-41 | the one record at index is replaced by its update, the rest of the table is unchanged |
| Stations.SlotIndex | src/1brc.c:51-66 | the slot index is below STATION_COUNT |
| Stations.SlotIndexPrefix | src/1brc.c:61 | keys that agree on their first 8 bytes share a slot |
| Stations.Absorb | src/1brc.c:165-172 | folding in one measurement keeps the table's size |
| Stations.ApplyAll | src/1brc.c:165-172 | folding in measurements keeps the table's size |
| Stations.ApplyAllAppend | src/1brc.c:165-172 | one more measurement is one more Absorb |
| Stations.ApplyAllConcat | src/1brc.c:280-282 | folding two blocks' measurements in turn equals folding their concatenation |
| Stations.TempsAt | src/1brc.c:165 | the values of a slot are drawn from the measurements |
| Stations.ApplyAllTallies | src/1brc.c:165-172 | each slot ends with count +n mod 2^32, sum + the values, min and max the least and greatest of start and values, over exactly the n measurements that hash there |
| Stations.TalliesStep | src/1brc.c:167 | one more update extends a slot's tally by its value |
| Stations.ApplyAllUntouched | src/1brc.c:165 | a slot no measurement hashes to is unchanged |
| Stations.ApplyAllKeepsName | src/1brc.c:169-172 | a named slot keeps its key |
| Stations.ApplyAllFirstName | src/1brc.c:169-172 | an unnamed slot takes the key of the first measurement hashing there whose key does not start with 0 |
| Stations.UnnamedBefore | src/1brc.c:169-172 | a slot stays unnamed while every key hashing there starts with 0 |
| Stations.ApplyAllOwnKeys | src/1brc.c:165-172 | every named slot holds a key that hashes to it, and folding keeps this |
| Stations.OwnKeysDistinct | src/1brc.c:165-172 | hence two named slots never hold the same key |
| Stations.Insert | src/1brc.c:316 | inserting adds one record |
| Stations.SortByKey | src/1brc.c:316 | sorting keeps the length |
| Stations.InsertPermutes | src/1brc.c:316 | insertion adds exactly the inserted record to the multiset |
| Stations.InsertSorted | src/1brc.c:76-83 | inserting into a key-sorted list keeps it sorted |
| Stations.SortByKeySorts | src/1brc.c:316 | the sort is ordered by compare_record_t and a permutation of its input |
| Stations.Qsort | src/1brc.c:316 | qsort leaves the table ordered by compare_record_t and a permutation of what it was |
| Stations.RoundDivNearest | src/1brc.c:43-49 | the printed mean (`RoundDiv`) is the nearest integer number of tenths to sum / count, halves going away from zero |
| Stations.CStringShape | src/1brc.c:338 | `%s` (`CString`) prints the key up to its first 0 byte, or all 100 bytes when it has none |
| Stations.Report | src/1brc.c:334-340 | at most one line per slot |
| Stations.ReportAppend | src/1brc.c:334-340 | the lines of two table parts are the lines of each, in order |
| Stations.ReportLines | src/1brc.c:336-338 | a line (`LineOf` of the record) is written exactly for each record whose key does not start with 0 |
| Stations.ReportUnnamed | src/1brc.c:336 | a table with no named slot writes nothing |
| Stations.Emit | src/1brc.c:334-340 | the output loop writes Report of the table |
| OneBrc.IsCharANumberDigits | src/1brc.c:68-74 | a byte passes is_char_a_number (`IsCharANumber` of its signed-char value) exactly when it is '0'..'9' |
| OneBrc.KeyCopyShape | src/1brc.c:121-122 | the key (`KeyCopy`) holds the first min(count, 100) bytes from the key start, then zeros: a short key is copied whole and zero-padded, a long one is cut at 100 bytes |
| OneBrc.KeyStart | src/1brc.c:114-119 | the key starts between the current position and the semicolon |
| OneBrc.ScanStep | src/1brc.c:96-175 | a parsed record moves the scan strictly forward and stays in the block |
| OneBrc.ScanStepAdvance | src/1brc.c:126-163 | a parsed record takes at least four bytes from the position the pass starts at |
| OneBrc.ValueAt | src/1brc.c:126-163 | a value read takes at least `;D.D` and ends within the block |
| OneBrc.ReadingText | src/1brc.c:128-160 | a reading in text has its sign, its digits, a point and one tenth |
| OneBrc.Reading | src/1brc.c:126-161 | a reading of decimal digits denotes between -99.9 and 99.9 |
| OneBrc.ValueAtReading | src/1brc.c:126-163 | a well-formed `-?D[D].D` after the semicolon reads, through the digit arithmetic of `Tenths`, as sign·(10·I+F) tenths and ends right after it |
| OneBrc.ValueAtMisplacedPoint | src/1brc.c:154-158 | a byte other than '.' where the point belongs is the exit-4 abort |
| OneBrc.ReadValue | src/1brc.c:126-163 | the value parsing code computes ValueAt; after a value, working_len is the number of bytes left from the new position to the block end |
| OneBrc.ParseLine | src/1brc.c:98-163 | one pass of the loop body computes ScanStep; given working_len equal to the bytes left, it hands back the bytes left after a record |
| OneBrc.CopyKey | src/1brc.c:121-122 | the key buffer is zeroed, then the copied bytes are stored |
| OneBrc.ScanBlock | src/1brc.c:96-175 | the loop folds exactly the block's records into the table, in order, and reports the malformed-value abort; working_len, carried from pass to pass, stays the number of bytes from the current position to the end |
| OneBrc.HandleBlock | src/1brc.c:86-190 | handle_block folds the block's records into the table; on a malformed value it aborts with memory untouched, otherwise it returns the leftover size and carries the tail |
| OneBrc.ScanFrom | src/1brc.c:96-175 | the records handle_block's loop parses from a position are at most a quarter of the bytes left |
| OneBrc.ScanFromAdvance | src/1brc.c:96-175 | the records of a block are those found so far, then this one, then the rest |
| OneBrc.ScanFromStep | src/1brc.c:96-175 | a stop ends the block's records, an abort marks it malformed, a parse adds one record |
| OneBrc.UpdateSlot | src/1brc.c:165-172 | the slot of the key is updated and named if unnamed, nothing else changes |
| OneBrc.ScanSpansLast | src/1brc.c:280-282 | the records of the blocks handled are those of the earlier blocks, then those of the last block unless an earlier one aborted |
| OneBrc.ScanSpansAppend | src/1brc.c:280-282 | one more block adds its records after those of the earlier blocks |
| OneBrc.HandleRead | src/1brc.c:265-282 | one iteration scans the leftover followed by the bytes read, placed FILE_BUFFER_SIZE - leftover into memory, folds its records into the table, aborts exactly on a malformed value, and otherwise leaves CarryOf of the block under the read buffer |
| OneBrc.TallyStep | src/1brc.c:280-282 | the table after one more block is the initial table with every record so far folded in |
| OneBrc.ReadStep | src/1brc.c:260-284 | one successful read adds the next stitched block and keeps the table the fold of all records so far |
| OneBrc.FailedReadEnds | src/1brc.c:269-276 | a failed read ends the loop; the blocks handled are all the stitched blocks of the trace, and when every key lies inside its block they parse as StitchedScan of the trace |
| OneBrc.ReadNext | src/1brc.c:278-314 | the rest of a pass after a successful read handles the next stitched block, placed where main puts it, and folds its records; unless it aborts, the loop ends at the file size with every block handled, or goes on with the trace's leftover under the read buffer; at an abort or at the end, the blocks parse as StitchedScan when every key lies inside its block |
| OneBrc.Aggregate | src/1brc.c:242-314 | the read loop scans the stitched blocks of the trace, and the table is the initial table with every parsed record folded in; on a malformed value it stops early; when every key lies inside its block, the records parsed are StitchedScan of the trace |
| OneBrc.Run | src/1brc.c:192-340 | exit 4 exactly when a malformed value is met; otherwise the table is a key-sorted permutation of the fold of every record and the output is its Report; when every key lies inside its block, the records are StitchedScan of the trace, a function of the reads alone |
| OneBrc.ValueAtAgree | src/1brc.c:126-163 | the value after a semicolon is read from the bytes between it and the block end alone |
| OneBrc.KeyCopyAgree | src/1brc.c:121-122 | a key copied from within a range is the same in memories that agree on the range |
| OneBrc.ScanStepAgree | src/1brc.c:96-174 | one pass of the loop reads only its block, when its key lies inside the block |
| OneBrc.ScanFromAgree | src/1brc.c:96-174 | the loop over a block reads only the block, when every key it copies lies inside it |
| OneBrc.StitchedScanRead | src/1brc.c:278-282 | after one more read, the records of the trace (`StitchedScan`) are those before it, then those of the new block in its reference memory, unless an earlier block aborted |
| OneBrc.KeysInBlocksRead | src/1brc.c:278-282 | after one more read, every key lies inside its block (`KeysInBlocks`, `BlockKeysInside`, `KeysInside`) exactly when that held before and holds for the new block |
| OneBrc.BlockScanInLayout | src/1brc.c:278-282 | a block placed where main puts it parses as in its reference memory, when its keys lie inside it |
| OneBrc.ScanSpansStitched | src/1brc.c:260-314 | the records parsed from all the blocks handled, each placed where main puts it, are StitchedScan of the trace, when every key lies inside its block |
| OneBrc.StitchedScanPrefix | src/1brc.c:154-158 | after a block aborts, later reads add no record |
| OneBrc.KeysInBlocksPrefix | src/1brc.c:260-314 | if every key of a trace lies inside its block, so does every key of each of its prefixes |
| OneBrc.SpansScanTrace | src/1brc.c:260-314 | the blocks handled up to the end of the trace, or up to the abort, parse as StitchedScan of the trace when every key lies inside its block |
| OneBrc.BoundaryTrace | src/1brc.c:260-314 | a 7-byte file read as 6 bytes then one newline is a read trace with blocks `\nb;2.0` and `\nb;2.0\n` |
| OneBrc.ScanBoundaryBlock | src/1brc.c:96-175 | the bytes `\nb;2.0`, alone or followed by a newline, at any position of memory yield the one record with key `\nb` and 2.0, and its key lies inside them |
| OneBrc.KeyCopySame | src/1brc.c:122 | the copied key depends only on the bytes copied, wherever they lie |
| OneBrc.BoundaryBlockScan | src/1brc.c:278-282 | the block `\nb;2.0`, alone or followed by a newline, placed where main puts it, parses as the one record `\nb` 2.0 with its key inside it |
| OneBrc.FirstBoundaryBlock | src/1brc.c:260-282 | the first read `\nb;2.0` parses as the one record `\nb` 2.0 |
| OneBrc.SecondBoundaryBlock | src/1brc.c:177-189 | after the whole first block is carried, the read `\n` parses the record `\nb` 2.0 again |
| OneBrc.RecordCountedTwice | src/1brc.c:177-189 | for that file every key lies inside its block, the records Run folds into the table (StitchedScan) are `\nb` 2.0 twice, and the slot of `\nb` ends with count 2 and sum 4.0 |
| OneBrc.TalliedTwice | src/1brc.c:165-172 | a measurement folded twice into the initial table leaves its slot with count 2, twice its value as sum, and its key |
| CountLines.HandleBlock | src/count_lines.c:12-38 | the number of newlines in the block; at most its size, 0 for an empty block |
| CountLines.Run | src/count_lines.c:90-128 | the count is the number of newlines in all bytes read, and the count is printed exactly when no read failed |
| FindLine.Frame | src/find_line.c:115-121 | the phrase is the raw phrase between two newlines |
| FindLine.FrameWholeLine | src/find_line.c:115-121 | a framed phrase matches exactly one line when the raw phrase has no newline |
| FindLine.FramePhrase | src/find_line.c:110-121 | the phrase buffer holds Frame of the argument |
| FindLine.AssemblePhrases | src/find_line.c:105-122 | one framed phrase per argument, in order |
| FindLine.FrameAll | src/find_line.c:105-122 | the phrases are all framed, one per argument |
| FindLine.UnframeFrame | src/find_line.c:48 | the printed text of a framed phrase is the raw phrase |
| FindLine.FramedLineEnd | src/find_line.c:43 | after a framed hit the next newline is found at or before the phrase's last byte, exactly there for a whole-line phrase |
| FindLine.NextHit | src/find_line.c:36-43 | a hit lies in the scanned range with its line end after it |
| FindLine.NextHitIs | src/find_line.c:36-44 | a hit is the first occurrence from buf, a miss means none; the line end is the first newline after the hit, and the printed text is the raw phrase |
| FindLine.HitMatchSlices | src/find_line.c:44-48 | a reported match (`HitMatch`) prints m[ps+1..le) and the line number starting_line_count + the newlines in `line_end - buf + 1` bytes from the block start |
| FindLine.PhraseMatchesHit | src/find_line.c:34-51 | in `PhraseMatches`, a hit reports one match and the search resumes at its line end |
| FindLine.PhraseMatchesInBlock | src/find_line.c:34-52 | every reported match is an occurrence of the phrase in the block |
| FindLine.PhraseMatchesOrdered | src/find_line.c:34-52 | matches are reported in increasing position |
| FindLine.PhraseMatchesText | src/find_line.c:44-48 | for a one-line phrase, each match prints the raw phrase |
| FindLine.PhraseMatchesComplete | src/find_line.c:34-52 | for a one-line phrase, a position is reported exactly when the phrase occurs there |
| FindLine.WholeLineHitsApart | src/find_line.c:50 | two occurrences of a one-line phrase overlap at most on a newline, so resuming at the line end loses none |
| FindLine.FirstMatchLine | src/find_line.c:46-48 | the first match of a phrase is numbered by the lines up to and including its newline |
| FindLine.HitLineCount | src/find_line.c:46 | counting up to the line end counts one newline more than up to the hit |
| FindLine.PrintsOnlyConcat | src/find_line.c:26-53 | phrase-wise reports compose |
| FindLine.BlockMatchesText | src/find_line.c:26-53 | for one-line phrases, every match of a block (`BlockMatches`) prints one of the raw phrases |
| FindLine.ReportedCons | src/find_line.c:48 | a position is reported by a list exactly when its head or its tail reports it |
| FindLine.SlipHits | src/find_line.c:36-43 | in `x\nfoo\nfoo\n` the phrase `\nfoo\n` is hit at 1 and again at 5 |
| FindLine.LineNumberSlip | src/find_line.c:46 | as written, the second `foo` of `x\nfoo\nfoo\n` is reported on line 1, after the first on line 2 |
| FindLine.PhraseMatchesIntendedHits | src/find_line.c:34-52 | counting up to the match changes no reported position or text |
| FindLine.PhraseMatchesIntendedLines | src/find_line.c:46 | corrected (`PhraseMatchesIntended`), each match is numbered starting_line_count + 1 + the newlines before it in the block |
| FindLine.NextHitLineEnd | src/find_line.c:43 | the line end of a hit is the first newline after its start |
| FindLine.IntendedHitLine | src/find_line.c:46 | a count up to the line end from the block start numbers the match's own line |
| FindLine.LineNumberIntended | src/find_line.c:46 | corrected, the two `foo` lines of `x\nfoo\nfoo\n` are numbered 2 and 3 |
| FindLine.CarryTrace | src/find_line.c:164-171 | reading `a\n` then `foo\n` gives blocks `a\n` and `\nfoo\n`, with 1 line counted after the first |
| FindLine.CarryCountedTwice | src/find_line.c:164-171 | the file `a\nfoo\n` read as `a\n` then `foo\n` is a read trace whose matches as Run prints them (StitchedMatches) are the one `foo`, on line 3 though it is on line 2: its carried newline is counted twice |
| FindLine.CarryReads | src/find_line.c:146-203 | reading `a\n` then `foo\n` is a read trace of the 6-byte file, and its bytes are the file |
| FindLine.CarryMatches | src/find_line.c:164-171 | the matches of those two reads, as main finds them, are the one `foo` on line 3, at the carried newline |
| FindLine.FirstBlockNoMatch | src/find_line.c:26-53 | the first block `a\n` holds no match |
| FindLine.CarriedBlockMatch | src/find_line.c:34-52 | the block `\nfoo\n`, with one line counted before it, reports `foo` on line 3 |
| FindLine.FindMatch | src/find_line.c:36-48 | one search step computes NextHit and the match it reports |
| FindLine.PhraseMatchesAfterIs | src/find_line.c:34-52 | the loop's accumulated matches followed by the rest are the phrase's matches |
| FindLine.MatchesDone | src/find_line.c:34-40 | when the search stops the accumulated matches are all of the phrase's matches |
| FindLine.MatchPhrase | src/find_line.c:28-52 | the while loop reports exactly PhraseMatches of the phrase |
| FindLine.MatchAll | src/find_line.c:26-53 | the phrase loop reports each phrase's matches in phrase order |
| FindLine.HandleBlockMatchWholeLine | src/find_line.c:18-68 | the matches of every phrase, the leftover size and the carried tail |
| FindLine.HandleRead | src/find_line.c:151-171 | one iteration scans the leftover followed by the bytes read, placed FILE_BUFFER_SIZE - leftover into memory, counts the newlines of the bytes read only, and leaves CarryOf of the block under the read buffer |
| FindLine.TraceMatchesRead | src/find_line.c:164-171 | in `TraceMatches`, a read adds the block's matches, numbered from the lines counted so far |
| FindLine.TraceMatchesFailed | src/find_line.c:155-162 | a failed read adds no match |
| FindLine.FailedStep | src/find_line.c:155-162 | a failed read keeps the blocks, matches, line count and leftover in step with the trace |
| FindLine.NextHitAgree | src/find_line.c:36-43 | the next hit over a range is the same in memories that agree on the range |
| FindLine.HitMatchAgree | src/find_line.c:44-48 | the match reported for a hit is the same in memories that agree on the block |
| FindLine.PhraseMatchesAgree | src/find_line.c:34-52 | the matches of one phrase read only the block |
| FindLine.BlockMatchesAgree | src/find_line.c:26-53 | handle_block_match_whole_line's matches read only the block |
| FindLine.TraceMatchesStitched | src/find_line.c:146-203 | the matches of the blocks main handles, each placed where main puts it, are StitchedMatches of the trace |
| FindLine.BlockInLayout | src/find_line.c:164-169 | a block placed where main puts it finds the same matches as in its reference memory |
| FindLine.TraceMatchesLast | src/find_line.c:164-171 | after one more read, the matches are those before it, then those of the last block |
| FindLine.StitchedMatchesRead | src/find_line.c:164-171 | after one more read, StitchedMatches adds the matches of the new block in its reference memory, numbered from the newlines read before it |
| FindLine.SearchStep | src/find_line.c:164-173 | the body of the read loop after a successful read keeps the blocks, matches, line count and leftover in step with the trace |
| FindLine.RunStep | src/find_line.c:146-203 | one read extends the blocks, the matches, the line count and the leftover in step with the trace |
| FindLine.TraceMatchesText | src/find_line.c:146-203 | for one-line phrases, every match of the run prints one of the raw phrases |
| FindLine.Search | src/find_line.c:135-205 | the loop reports TraceMatches over the stitched blocks, each placed where main puts it, and counts the newlines of all bytes read |
| FindLine.Run | src/find_line.c:70-205 | usage exactly when there is no phrase; otherwise the matches are StitchedMatches of the framed phrases over the trace, a function of the reads alone, and the newline count |

## Left out

- File opening, GetFileSize, VirtualAlloc, timers, progress and timing output are I/O. Reads are a trace given as a parameter, and a failed open is not modelled.
- The XXH64 state, its seed, and the `exit(1)` when resetting it fails are left out. The hash is a parameter applied to the key.
- Floating point is left out. Values are integer tenths, and the `f32`/`f64` rounding of sums and `roundf` of min and max are not modelled. A printed line is a `Line` value (name, min, mean, max in tenths), not formatted text.
- Stations.Updated: the f32 sum and min/max rounding are exact integers here.
- The 64-bit `line_count` and `bytes_parsed` do not wrap in the model. The u32 record count does.
- 1brc's argument check, the results-file fallback to stdout and the cleanup calls are I/O. `OneBrc.Run` returns the lines.
- Stations.Qsort: the C library's qsort is specified by its contract, a sorted permutation. The order of records with equal keys is not pinned down.
- SIMD internals of StringZilla are not part of this model. The scans are modelled by their results.
- `line_end` in find_line is searched for over `length - (phrase_start - start)` bytes from `phrase_start + 1`, one byte past the block. The model searches to the block end, which agrees for framed phrases: the phrase's own final newline is found first.
- The `at` field of a find_line match is a memory position kept for the proofs. Only the text and the line number are printed.
- OneBrc.CopyKey: `sz_copy` copies `semicolon - current_pos` bytes into a 100-byte key. Bytes past the key buffer, or past the end of memory, are not stored (0 is read instead), so the C overflow for very long keys is not modelled.
- Memory.CopySerial: a backward-overlapping copy (target above source in the same array) is not modelled.
- Memory.Copy: overlapping source and target are not modelled.
- The `#if defined(DEBUG)` setup timing of count_lines is not modelled.
- A `ReadFile` that keeps succeeding with 0 bytes while `bytes_parsed < file_size` (a file that shrinks while it is read) makes the `do { … } while` loops of `src/1brc.c:260-314`, `src/find_line.c:146-203` and `src/count_lines.c:90-126` run forever. A read trace is a finite sequence, so such a run cannot be written down, and the model says nothing about it.
- OneBrc.Run: the records parsed are tied to the reads alone (`StitchedScan`) only when every key copied lies inside its block (`KeysInBlocks`). A key copy that starts at a later newline than the current position copies `semicolon - current_pos` bytes (`src/1brc.c:122`), which can run past the block into bytes left in memory by earlier reads; those bytes are not a function of the trace.

## Findings

| source | as written | input that shows it | evidently intended | confidence | as-written member | corrected member |
|---|---|---|---|---|---|---|
| src/common/memory.c:26 | each 32-byte lane of `copy` is stored to `target`, which never advances | copying 64 bytes whose byte 32 differs from the target's: byte 32 is left unchanged | store each lane at `dest`, so all `length` bytes are copied | not executed | Memory.CopyAsWrittenSkipsSecondLane | Memory.CopyIntended |
| src/common/memory.c:57 | each 32-byte lane of zeros in `clear` is stored to `target`, which never advances | clearing 64 bytes whose byte 32 is nonzero: byte 32 stays nonzero | store each lane at `dest`, so all `length` bytes are zeroed | not executed | Memory.ClearAsWrittenSkipsSecondLane | Memory.ClearIntended |
| src/find_line.c:46 | the line number counts newlines over `line_end - buf + 1` bytes from `start`, though `buf` moves on after each match | the phrase `foo` in the block `x\nfoo\nfoo\n`: the second match is reported on line 1 | count from `start` up to the match's line end, numbering it 3 | not executed | FindLine.LineNumberSlip | FindLine.PhraseMatchesIntendedLines |

`Memory.Copy` and `Memory.Clear` model the code as written, and so do `FindLine.MatchPhrase` and `FindLine.Run`. Each corrected member is proved next to its as-written member.
