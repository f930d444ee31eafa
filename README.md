# ActionKV and three small byte-level programs, modelled in Dafny

This project models four programs from the repository.

- **ActionKV** (`actionkv/src/lib.rs`) is a log-structured key-value store. Every write appends one record to the end of a file:
  - a little-endian u32 checksum over `key ++ value`,
  - the u32 lengths of the key and the value,
  - then the key and value bytes.

  An in-memory index maps each key to the offset of a record for it. `load` rebuilds the index by replaying the file. `get` follows the index. `find` scans the file itself. `update` is `insert`, and `delete` is `insert` with an empty value (a tombstone).
- **CubeSat** (`cubesat/src/main.rs`) is a mailbox. A ground station posts messages into it, and each satellite takes out the earliest message addressed to it.
- **fileresult** (`fileresult/src/main.rs`) is a simulated file with an Open/Closed state. `read` is refused unless the file is open.
- **bytes** (`bytes/src/main.rs`) writes a u32 and an i8 little-endian into a buffer, reads them back through a cursor, and computes a parity bit over the bytes.

Layout:

- `wrappers.dfy`: `Option` and `Result`.
- `little_endian.dfy`: the byte, u32 and little-endian `read_u32`/`write_u32` of the `byteorder` crate.
- `actionkv_codec.dfy`: the record format and `process_record`.
- `actionkv_store.dfy`: the replay specification (`ScanFrom`, `Apply`, `LastMatch`) and the `ActionKV` class. The class has the file as `log`, its cursor as `pos` and the `index` map.
- `actionkv_tests.dfy`: the source's two tests and further whole-store scenarios.
- `cubesat.dfy`, `fileresult.dfy`, `bytes.dfy`: the other three programs.

The store's file is a byte sequence plus one cursor. `open` receives the file's current contents.

The checksum (`crc32::checksum_ieee`) is a parameter of type `seq<byte> -> u32`. Every property holds for any checksum function.

Where the code departs from the intended design of the store, the model follows the code:

- `load` and `find` replay from the *current* cursor, not from offset 0.
  - Right after `open` the cursor is 0, so both scan the whole file.
  - After `load`, `find` starts at end of file and finds nothing (`ActionKvTests.ReopenLoadScenario`). A design that replays from offset 0 would return the third record; the code does not.
- A header cut short is treated as a clean end of file. This covers a file ending 1 to 11 bytes into a record.
- A short payload has no error of its own. There is no "truncated record" error. The bytes present are checksummed, so a short payload is accepted if its checksum matches (`Codec.ShortPayloadAccepted`).
- `key_len + val_len` is added in u32 and wraps. This is a release build.
- `split_off` past the payload panics. That panic is the error `SplitPanic`.

## Model

| member | source | states |
|---|---|---|
| LittleEndian.U32ToLe | bytes/src/main.rs:20 | `write_u32::<LittleEndian>` produces exactly four bytes |
| LittleEndian.LeToU32 | bytes/src/main.rs:36 | `read_u32::<LittleEndian>` takes the first byte as the lowest and the fourth as the highest |
| LittleEndian.LeToU32OfU32ToLe | bytes/src/main.rs:36 | reading back the four bytes written for a u32 gives the same u32 |
| LittleEndian.U32ToLeOfLeToU32 | bytes/src/main.rs:36 | every four bytes are the encoding of exactly one u32, so the encoding is a bijection |
| LittleEndian.ReadU32 | actionkv/src/lib.rs:156 | with four bytes left, `read_u32` returns their value and advances four; with fewer, it fails and consumes what is left |
| Codec.Encode | actionkv/src/lib.rs:134-140 | a record is 12 + key length + value length bytes |
| Codec.DataLen | actionkv/src/lib.rs:161 | `key_len + val_len` in u32: the plain sum below 2^32, the sum less 2^32 when it wraps |
| Codec.Payload | actionkv/src/lib.rs:162-168 | the payload is the bytes right after the header, `data_len` of them when the record is complete, otherwise everything up to end of file |
| Codec.PayloadEnd | actionkv/src/lib.rs:164-168 | the payload read by `take(data_len).read_to_end` starts after the header and never runs past end of file |
| Codec.Decode | actionkv/src/lib.rs:155-182 | a successfully decoded record lies after a full 12-byte header and inside the log |
| Codec.ProcessRecord | actionkv/src/lib.rs:155-182 | reading the three header fields in turn, then the payload, then comparing checksums gives the result and cursor of `Decode` |
| Codec.EncodeHeader | actionkv/src/lib.rs:137-140 | an appended record's header fields read back as the checksum of `key ++ value`, the key length and the value length, followed by `key ++ value` |
| Codec.DecodeEncode | actionkv/src/lib.rs:155-181 | round trip: decoding an appended record, whatever surrounds it, gives exactly its key and value and leaves the cursor right after it |
| Codec.DecodeEofIff | actionkv/src/lib.rs:156-160 | `UnexpectedEof` is reported if and only if fewer than 12 bytes remain at the cursor |
| Codec.DecodeCorruptIff | actionkv/src/lib.rs:172-176 | `InvalidData` is reported if and only if the recomputed checksum differs from the stored one; it then carries both values and no pair is returned |
| Codec.ShortPayloadAccepted | actionkv/src/lib.rs:161-170 | a header announcing more bytes than the file holds is still decoded into a short pair when the checksum of the bytes present matches |
| Codec.DecodeAppend | actionkv/src/lib.rs:164-168 | bytes appended after a complete record do not change how it decodes |
| ActionKv.ScanFrom | actionkv/src/lib.rs:52-68 | the replay from a cursor never ends before it or past end of file, and a clean stop is exactly at end of file |
| ActionKv.Apply | actionkv/src/lib.rs:67 | every replayed key ends up in the index |
| ActionKv.LastMatch | actionkv/src/lib.rs:110-112 | `find`'s match is one of the scanned records with the key, and it finds none if and only if no record has the key |
| ActionKv.ScanStep | actionkv/src/lib.rs:52-68 | one turn of the replay loop: decode at the cursor, then continue where that left the cursor |
| ActionKv.LastWriteWinsPresent | actionkv/src/lib.rs:67 | a key with an entry is indexed at the offset of an entry for it, at or after the given one, that no later entry for it follows |
| ActionKv.LastWriteWinsAbsent | actionkv/src/lib.rs:67 | a key without entries keeps its old index entry, or stays absent |
| ActionKv.LastWriteWins | actionkv/src/lib.rs:67 | after replaying entries into an index, a key with entries maps to the offset of its last entry; every other key keeps its old entry or stays absent |
| ActionKv.ApplyKeepsKeys | actionkv/src/lib.rs:67 | a replay never removes a key that was already indexed |
| ActionKv.FindAgreesWithIndex | actionkv/src/lib.rs:110-112 | the offset `find` keeps for a key is the one the replayed index holds for it |
| ActionKv.ScanEntriesDecode | actionkv/src/lib.rs:53-57 | every replayed entry decodes, at its own offset, to the pair the replay saw |
| ActionKv.FramedScan | actionkv/src/lib.rs:52-69 | on a gap-free log of valid records the replay stops cleanly at end of file |
| ActionKv.FramedAppend | actionkv/src/lib.rs:134-140 | appending a record keeps the log gap-free, and the replay sees exactly one more entry, at the old end of file |
| ActionKv.InsertKeepsIndexMatching | actionkv/src/lib.rs:117-120 | appending a record and indexing it at the old end of file keeps the index equal to a replay of the whole log |
| ActionKv.IndexedLookup | actionkv/src/lib.rs:76-83 | with an exact index, a key is indexed if and only if the log has a record for it, and its offset decodes to the last value written for it |
| ActionKv.ReplayFramed | actionkv/src/lib.rs:49-70 | replaying a gap-free log from 0 into an empty index ends cleanly at end of file with an exact index |
| ActionKv.EmptyLogMatchesEmptyIndex | actionkv/src/lib.rs:45 | an empty file replays to nothing, so an empty index is exact for it |
| ActionKv.ReadAhead | actionkv/src/lib.rs:86-89 | the file cursor a dropped `BufReader` leaves is at or after the consumed bytes and not past end of file |
| ActionKv.ActionKV.Open | actionkv/src/lib.rs:37-47 | opening keeps the file's contents, puts the cursor at 0 and starts with an empty index |
| ActionKv.ActionKV.SeekToEnd | actionkv/src/lib.rs:72-74 | the cursor moves to end of file and that offset is returned |
| ActionKv.ActionKV.ReplayRecords | actionkv/src/lib.rs:52-68 | the record loop of `load`: the replay from the cursor is put into the index in order, the cursor ends just after the last bytes decoded, and the result is `Ok` on a clean end of file or the first other error |
| ActionKv.ActionKV.Load | actionkv/src/lib.rs:49-70 | the replay from the cursor is put into the index in order. It returns `Ok` on a clean end of file, with the cursor at end of file, or the first other error with the earlier entries already inserted and the cursor anywhere from the end of the bad record to end of file. It never removes an entry. After `open` on a gap-free file, it returns `Ok`, gives the exact index and leaves the cursor at end of file |
| ActionKv.ActionKV.GetAt | actionkv/src/lib.rs:85-90 | decodes the record at the given offset; the cursor ends anywhere from the end of the bytes decoded to end of file |
| ActionKv.ActionKV.Get | actionkv/src/lib.rs:76-83 | `Ok(None)` with the cursor untouched if and only if the key is not indexed; otherwise the indexed record's value or its decoding error, the cursor anywhere from the end of that record to end of file. With an exact index this is the last value written for the key |
| ActionKv.ActionKV.Find | actionkv/src/lib.rs:92-115 | scans from the current cursor, ignoring the index, and keeps the offset and value of the last record with the key, ending at end of file; an error other than a clean end of file is returned, the cursor then anywhere from the end of the bad record to end of file |
| ActionKv.ActionKV.InsertButIgnoreIndex | actionkv/src/lib.rs:123-143 | appends exactly the encoded record and changes no earlier byte; the cursor ends at end of file; returns the cursor read before the seek |
| ActionKv.ActionKV.Insert | actionkv/src/lib.rs:117-121 | appends the record and sets the key's index entry to the cursor before the seek, changing no other entry; an exact index at end of file stays exact |
| ActionKv.ActionKV.InsertAtEnd | actionkv/src/lib.rs:117-121 | corrected `insert`: indexes the offset the record was written at, so an exact index stays exact wherever the cursor was |
| ActionKv.ActionKV.Update | actionkv/src/lib.rs:146-148 | `update` has exactly the effect of `insert` |
| ActionKv.ActionKV.Delete | actionkv/src/lib.rs:151-153 | `delete` appends a record with an empty value; the key stays indexed |
| ActionKvTests.TestOpen | actionkv/src/lib.rs:189-197 | a freshly opened store's index has size 0 |
| ActionKvTests.TestLoad | actionkv/src/lib.rs:199-218 | the hand-written one-record file loads with `Ok` into an index of size 1 |
| ActionKvTests.ThreeWritesReplay | actionkv/src/lib.rs:134-140 | three inserts into an empty file give three 14-byte records at offsets 0, 14 and 28 |
| ActionKvTests.ThreeEntriesIndex | actionkv/src/lib.rs:67 | replaying `a=1, b=2, a=3` indexes `a` at 28 and `b` at 14; two keys, last write wins |
| ActionKvTests.ThreeEntriesLastMatch | actionkv/src/lib.rs:110-112 | among those records the last for `a` is `(28, "3")`, the last for `b` is `(14, "2")`, and `c` has none |
| ActionKvTests.WriteThree | actionkv/src/lib.rs:117-143 | the three inserts leave exactly the three records in the file |
| ActionKvTests.ReopenFindScenario | actionkv/src/lib.rs:92-115 | on the reopened file, `find("a")` returns the third record |
| ActionKvTests.ReopenLoadScenario | actionkv/src/lib.rs:49-70 | on the reopened file, `load` succeeds with two keys, and a `find` right after it returns nothing |
| ActionKvTests.ReopenGetScenario | actionkv/src/lib.rs:76-83 | after reopening and loading, `get` gives "3" for `a`, "2" for `b` and nothing for `c` |
| ActionKvTests.DeleteScenario | actionkv/src/lib.rs:151-153 | after a delete, `get` returns an empty value rather than `None`; a never-written key gives `None` |
| ActionKvTests.InsertAtEndAfterGetScenario | actionkv/src/lib.rs:117-121 | with the corrected insert, `insert("c","3")` after `get("a")` gives back "3" wherever the read left the cursor |
| ActionKvTests.InsertWithoutLoadScenario | actionkv/src/lib.rs:117-121 | as written: on a non-empty file that was not loaded, `insert("b","2")` indexes `b` at offset 0, so `get("b")` returns the value of `a` |
| ActionKvTests.InsertAtEndWithoutLoadScenario | actionkv/src/lib.rs:117-121 | with the corrected insert the same sequence gives back "2" |
| CubeSatMail.FirstFor | cubesat/src/main.rs:27-28 | the index found is the earliest message addressed to the recipient; there is none if and only if no message is addressed to it |
| CubeSatMail.Delivered | cubesat/src/main.rs:26-34 | a delivered message is the earliest one addressed to the recipient, and the queue left is the old queue without exactly that position. Nothing is delivered if and only if no message is for it, and then the queue is unchanged |
| CubeSatMail.InboxPost | cubesat/src/main.rs:22-24 | posting adds the message at the end of its recipient's inbox and to no other inbox |
| CubeSatMail.DeliveredInbox | cubesat/src/main.rs:26-31 | per-recipient FIFO: delivery hands out the head of the recipient's inbox and keeps the rest of it in order; nothing is handed out if and only if that inbox is empty |
| CubeSatMail.DeliveredOtherInbox | cubesat/src/main.rs:26-31 | delivering to one satellite leaves every other satellite's inbox as it was |
| CubeSatMail.DeliveredKeepsOrder | cubesat/src/main.rs:29 | the messages before the earliest match keep their places, those after it move up by one, and putting the delivered message back at that position gives the queue as it was |
| CubeSatMail.Mailbox.constructor | cubesat/src/main.rs:20 | a new mailbox is empty |
| CubeSatMail.Mailbox.Post | cubesat/src/main.rs:22-24 | the message is appended at the end of the queue and nothing else changes |
| CubeSatMail.Mailbox.Deliver | cubesat/src/main.rs:26-34 | the loop's result and the new queue are exactly `Delivered` of the old queue |
| CubeSatMail.CubeSat.Recv | cubesat/src/main.rs:57-59 | `recv` has exactly the effect of `deliver` for the satellite's id |
| CubeSatMail.GroundStation.Connect | cubesat/src/main.rs:47-49 | the handle returned is for the requested satellite id |
| CubeSatMail.GroundStation.Send | cubesat/src/main.rs:51-53 | `send` has exactly the effect of `post` |
| CubeSatMail.FetchIds | cubesat/src/main.rs:62 | the ids are 1, 2 and 3, in that order |
| CubeSatMail.Greetings | cubesat/src/main.rs:69-71 | one "hi!" message per id, in id order |
| CubeSatMail.DeliverGreeting | cubesat/src/main.rs:75-80 | with the greetings for the remaining ids queued in front of "extra", the next satellite receives its greeting and the greetings for the later ids stay queued |
| CubeSatMail.MainScenario | cubesat/src/main.rs:64-80 | satellites 1, 2 and 3 each receive "hi!", and the later "extra" for satellite 1 is all that stays queued |
| FileResult.File.Len | fileresult/src/main.rs:37 | the length is the number of data bytes |
| FileResult.File.Read | fileresult/src/main.rs:48-58 | on a file that is not open: the error message, buffer unchanged. On an open file: all data appended to the buffer, `Ok(len)`. The existing buffer is never altered, and the file itself is never changed |
| FileResult.NewFile | fileresult/src/main.rs:28-34 | a new file has the given name, no data and state `Closed` |
| FileResult.NewWithData | fileresult/src/main.rs:42-46 | the file holds a copy of the given data and is `Closed` |
| FileResult.OpenFile | fileresult/src/main.rs:76-79 | always `Ok`, state `Open`, name and data unchanged |
| FileResult.CloseFile | fileresult/src/main.rs:81-84 | always `Ok`, state `Closed`, name and data unchanged |
| FileResult.CloseOpen | fileresult/src/main.rs:76-84 | closing an opened closed file gives back the same file |
| FileResult.MainScenario | fileresult/src/main.rs:86-98 | the read while closed fails; after `open` the read reports 5 bytes and the buffer holds them; the file ends closed and unchanged |
| ByteNumbers.BitCount | bytes/src/main.rs:45 | a count over `width` bits is at most `width`, and 0 for 0 |
| ByteNumbers.CountOnes | bytes/src/main.rs:45 | a byte has at most 8 set bits |
| ByteNumbers.Ones | bytes/src/main.rs:43-46 | `n` bytes hold at most `8 n` set bits, so the u32 counter cannot overflow on fewer than 2^29 bytes |
| ByteNumbers.OnesAppend | bytes/src/main.rs:44-46 | set-bit counts add up over concatenation |
| ByteNumbers.WrapKeepsParity | bytes/src/main.rs:46-49 | the u32 wrap-around of the counter does not change its parity |
| ByteNumbers.ParityBit | bytes/src/main.rs:42-50 | the result is 0 or 1, and 1 if and only if the total number of set bits is even (so 1 for no bytes) |
| ByteNumbers.I8ToByte | bytes/src/main.rs:23 | an i8 is written as one two's-complement byte, high bit set exactly for negatives, that reads back equal |
| ByteNumbers.ByteToI8 | bytes/src/main.rs:37 | a byte reads as negative exactly when its high bit is set |
| ByteNumbers.I8ToByteOfByteToI8 | bytes/src/main.rs:37 | every byte is the encoding of exactly one i8 |
| ByteNumbers.EncodeNumbers | bytes/src/main.rs:20-23 | the u32 and the i8 take five bytes |
| ByteNumbers.DecodeNumbers | bytes/src/main.rs:35-37 | reading the u32 and then the i8 fails if and only if fewer than five bytes are there |
| ByteNumbers.DecodeEncodeNumbers | bytes/src/main.rs:35-37 | reads consume the fields in write order from 0: bytes 0-3 give back the u32 and byte 4 the i8, whatever follows |
| ByteNumbers.DecodeNumbersEof | bytes/src/main.rs:35-37 | on five bytes or more, re-encoding the values read gives back the first five bytes |
| ByteNumbers.WriteNumbersToFile | bytes/src/main.rs:13-31 | the buffer is `[1, 0, 0, 0, 2]`, the encoding of 1 and 2, and its parity bit is 1 |
| ByteNumbers.ReadNumbersFromFile | bytes/src/main.rs:34-40 | the cursor reads give exactly `DecodeNumbers` of the buffer, including the end-of-file errors |
| ByteNumbers.MainScenario | bytes/src/main.rs:4-11 | the values read back equal the values written, so both `assert_eq!` hold and `main` returns `Ok` |

## Left out

- actionkv/src/akv.rs, the command-line front end, is not part of this model. It only parses arguments and prints.
- Real file I/O is not modelled: file creation, permissions and the `IOFailure` errors of `open`, `seek` and the writes. The file is a byte sequence and never fails.
- The read-ahead of `BufReader` is modelled only as a range. After `get`, and after `load` or `find` stop on an error, the cursor is anywhere from the end of the bytes decoded to end of file (`ActionKv.ReadAhead`). The model does not say which point the buffer size picks. The buffering of `BufWriter` is not modelled: its flush on drop writes everything before `insert` returns.
- The CRC-32 computation is not modelled. The checksum is a parameter, so no property depends on bit-flip detection.
- The `debug!` output and the serde derives are not modelled. They do not affect behaviour.
- The `debug_assert_eq!` on the payload length, and the overflow panics of a debug build, are not modelled. The model follows a release build.
- ActionKv.ActionKV.Insert does not model the `as u32` truncation of lengths of 2^32 or more. It requires `|key| + |value| < 2^32`, and so do InsertButIgnoreIndex, InsertAtEnd, Update, Delete and Encode.
- File offsets (u64 in the source) are unbounded naturals.
- ActionKv.ActionKV.Update and ActionKv.ActionKV.Delete delegate to the as-written `insert`, as the source does. They keep an exact index exact only while the cursor is at end of file.
- FileResult.File.Read treats the caller's `save_to` vector as a value: it goes in as a parameter and comes back as a result. Aliasing is impossible in the source, so nothing is lost.
- `File` is a value because `open` and `close` take it by value and return it. `read` takes `&mut self` but never writes its fields.
- `File::name` and the `Display` impls in fileresult are not modelled, and neither are the `println!` calls in its `main`. They only format output.
- `Mailbox::print_content` and the `println!` in the cubesat `main` are not modelled. They only print.
- The f64 write and read in bytes/src/main.rs are not modelled: floating point is out of scope. The `println!` lines are not modelled either; the printed parity bit is returned instead.
- ByteNumbers.ParityBit models the u32 counter with release-build wrap-around. A debug build would panic on overflow, which needs at least 2^29 bytes (ByteNumbers.Ones).

## Findings

| source | as written | input that shows it | evidently intended | confidence | as-written member | corrected member |
|---|---|---|---|---|---|---|
| actionkv/src/lib.rs:117-121 | `insert` stores under the key the cursor position read before the seek to end of file. That position is where the new record starts only if the cursor was already at end of file | open a file holding one record `a = "1"`, do not call `load`, call `insert("b","2")`, then `get("b")`: it returns "1", because `b` is indexed at offset 0 | index the offset where the record is written (the result of the seek to end of file), so `get("b")` returns "2" | medium, not executed; actionkv/src/akv.rs:58-59 always calls `load` right after `open`, so the fault reaches only library callers that insert before loading | ActionKvTests.InsertWithoutLoadScenario | ActionKv.ActionKV.InsertAtEnd |

`ActionKv.ActionKV.Insert` is the as-written operation. After a `get` the fault may or may not show, depending on where the read-ahead left the cursor.

`ActionKv.ActionKV.InsertAtEnd` keeps an exact index exact from any cursor position. `ActionKvTests.InsertAtEndWithoutLoadScenario` and `ActionKvTests.InsertAtEndAfterGetScenario` use it. `ActionKvTests.WriteThree` builds the file for the reopen scenarios with the as-written `insert`, which is exact there because the cursor stays at end of file.
