# MemTable, write-ahead log and Plain-Table rows of a small LSM key-value store, in Dafny

This project models the storage core of a small log-structured key-value store written in
Rust, and proves properties of the model. It covers three source files:

- `src/memtable.rs`: the **MemTable**. It is a vector of entries kept sorted by key and
  searched by binary search. `set` and `delete` overwrite an entry in place or insert one at
  its sorted position, and a `size` counter charges for keys, values, timestamps and
  tombstone flags.
- `src/wal.rs`: the **write-ahead log**.
  - `Wal::set` and `Wal::delete` append one little-endian record. It holds the key length
    (8 bytes), the tombstone flag (1 byte), the value length (8 bytes, live records only),
    the key, the value (live records only) and the timestamp (16 bytes).
  - `WalIterator::next` reads one record back, field by field.
  - `Wal::load_from_dir` replays every log file of a directory, in file-name order, into a
    fresh MemTable. It re-appends each record to a fresh log, then removes the old files.
- `src/sstable.rs`: the **Plain-Table rows** of an SSTable.
  - `RowType` and its byte.
  - The 64-bit trailer that packs the row type with the sequence number.
  - The decoders `read_key`, `read_value` and `read_key_value`.
  - The prefix-index lookup `get`, with its `linear_search`.
  - The loop of `write` that emits one row per MemTable entry.

## Layout

| file | module | contents |
|---|---|---|
| `wrappers.dfy` | `Wrappers` | `Option` |
| `bytes.dfy` | `Bytes` | `byte`, `u32`/`u64`/`u128`, `to_le_bytes` / `from_le_bytes` as `ToLE` / `FromLE`, zeroed buffers |
| `lex.dfy` | `Lex` | the byte-lexicographic order of `[u8]` and `Vec::sort` on file names |
| `memtable.dfy` | `Memtable` | value-level specification (`Find`, `Put`, `SetModel`, `DeleteModel`) and the class `MemTable` proved against it |
| `wal_codec.dfy` | `WalCodec` | the record format: `EncodeSet`, `EncodeDelete`, `DecodeNext` (one `next`), `DecodeAll` (the whole iteration) |
| `wal.dfy` | `WriteAheadLog` | replay, the classes `Wal` and `WalIterator`, and `LoadFromDir` |
| `sstable.dfy` | `PlainTable` | row types, the trailer, the decoders, `LinearSearch` and `Get`, `WriteRows` |

### How the source maps onto the model

- **Objects that change become classes.**
  - `MemTable` keeps `entries` and `size` as fields. `Set` and `Delete` update them in place.
    Their contracts tie the new state to `SetModel` / `DeleteModel` of the old one.
  - `Wal` holds its file as a byte sequence. `Set` and `Delete` append to it, one field at a
    time.
  - `WalIterator` holds the bytes of one file and a read position. `ReadExact` is
    `read_exact`: it consumes what is left when too few bytes remain.
- **Loops stay loops.**
  - the binary search of `get_index`;
  - the inner and outer loops of `load_from_dir` (`ReplayInto`, `LoadFromDir`);
  - the loop of `linear_search` (`LinearSearch`);
  - the row loop of `write` (`WriteRows`).

  Each is proved against a function of its inputs.
- **Sizes.** `usize` is 64 bits wide: keys and values (`Bytes`) are shorter than 2^64 bytes.
  `MemTable.size` is an `int`, so the model can show the value at which the source's `usize`
  would underflow (`SizeCanUnderflow`).
- **Panics and options.** A Rust panic in `sstable.rs` is an explicit outcome,
  `Panic(SliceOutOfRange)` or `Panic(InvalidRowType(b))`. The source's own `Option` results
  stay `Option`.
- **The file system is a value.**
  - A `Directory` maps file names to their bytes. A file that cannot be opened is
    `Unopenable`.
  - The listing of `*.wal` files and the name of the new log are parameters of `LoadFromDir`.
    In the source they come from `files_with_ext` and from the clock.
  - `remove_file` of the listed files is the removal of their names from the map.
- **Sorting file names.** `Vec::sort` on paths of one directory orders them by file name.
  The model sorts the file names as byte strings (`SortNames`).

### Behaviour kept as the code has it

Several parts of the code do not do what their comments or the format describe. The model
follows the code, and gives each point a lemma:

- **The trailer's row type sits in bits 24..31**, that is byte 3 of the little-endian word.
  The format diagram puts it in the top byte, ahead of a 7-byte sequence number
  (`TrailerTypeByte`, `TrailerRoundTrip`).
- **`write` emits the value length but not the value bytes.** Reading a live row back takes
  whatever bytes follow the row as its value (`RowLength`, `LiveRowTakesFollowingBytes`).
- **`linear_search` advances by the value part's length (`4 + |value|`) instead of the whole
  row's.** On a table of two rows that share a prefix, a search for the second key passes the
  first row, lands inside its key and panics. Started at its own offset, the same search finds
  the second row (`SecondRowOfPrefixMissed`).
- **`read_exact` of the timestamp is not checked.** A record torn inside its timestamp still
  yields an entry, with the bytes present zero-padded. A record torn earlier ends the
  iteration quietly (`CutBeforeTimestamp`, `CutInTimestamp`, `TornTail`).
- **`set` over a tombstone does not change `size`**, although the entry now holds a value. A
  later `delete` subtracts that value's length. The counter can then go below zero, where a
  `usize` underflows (`SetSizeAccounting`, `SizeCanUnderflow`).

## Model

| member | source | states |
|---|---|---|
| `Bytes.FromToLE` | src/wal.rs:163-165 | reading back the `n` little-endian bytes of any value below 256^n gives that value |
| `Lex.SortNames` | src/wal.rs:112-113 | the sorted listing is ascending in byte order and is a permutation of the listing |
| `Memtable.Find` | src/memtable.rs:25-32 | a found entry is in the vector and has the key; `None` exactly when no entry has the key |
| `Memtable.FindInSorted` | src/memtable.rs:111-114 | in a sorted vector, looking up the key of the entry at `i` finds that entry |
| `Memtable.PutReplaces` | src/memtable.rs:45-60 | over an existing key, the update is the in-place overwrite `entries[idx] = entry` |
| `Memtable.PutInserts` | src/memtable.rs:61-70 | at the insertion point the update is `entries.insert(idx, entry)` |
| `Memtable.PutKeepsSorted` | src/memtable.rs:3-15 | the update keeps the keys strictly ascending and adds no entry other than the new one |
| `Memtable.FindAfterPut` | src/memtable.rs:35-72 | after the update the key finds the new entry, and every other key finds what it found before |
| `Memtable.PutLength` | src/memtable.rs:45-70 | the number of entries grows by one exactly when the key was absent |
| `Memtable.PutCost` | src/memtable.rs:66-68 | the entries' total charge changes by the new entry's charge minus the replaced entry's |
| `Memtable.PutKeepsConsistent` | src/memtable.rs:122-135 | "tombstone exactly when there is no value" holds for every entry after the update |
| `Memtable.KeyCount` | src/memtable.rs:106-119 | sorted entries have distinct keys: there are exactly as many keys with an entry as entries |
| `Memtable.KeysFind` | src/memtable.rs:25-32 | a key has an entry exactly when the lookup finds one |
| `Memtable.SetSpec` | src/memtable.rs:35-72 | after `set(k, v, t)` the table is sorted and consistent; the only entry for `k` is `(k, Some(v), t, false)`; other keys look up as before; the length grows by one iff `k` was absent |
| `Memtable.DeleteSpec` | src/memtable.rs:78-104 | after `delete(k, t)` the table is sorted and consistent; the only entry for `k` is the tombstone `(k, None, t, true)`; other keys look up as before; the length grows by one iff `k` was absent |
| `Memtable.SetSizeAccounting` | src/memtable.rs:50-68 | `size` keeps its distance to the entries' total charge through `set`, except over a tombstone, where `size` falls behind by `\|v\|` |
| `Memtable.DeleteSizeAccounting` | src/memtable.rs:88-101 | `size` keeps its distance to the entries' total charge through every `delete` |
| `Memtable.SizeCanUnderflow` | src/memtable.rs:88-94 | `delete`, then `set` with a 20-byte value, then `delete`, all on a 1-byte key from empty, ends with `size` = -2, where the `usize` counter underflows |
| `Memtable.MemTable.constructor` | src/memtable.rs:18-23 | a new MemTable is well formed, with no entries and size 0 |
| `Memtable.MemTable.GetIndex` | src/memtable.rs:106-114 | `Found(i)` only at an entry with the key; `Missing(i)` only at the insertion point, with every key before `i` smaller and every key from `i` on larger |
| `Memtable.MemTable.Len` | src/memtable.rs:116-119 | the number of entries is the number of distinct keys written, tombstones included; with `Set`/`Delete`'s new state and `SetSpec`/`DeleteSpec`, it grows by one exactly when the key was absent |
| `Memtable.GetIndexMissingAbsent` | src/memtable.rs:106-114 | at such an insertion point the key is nowhere in the vector |
| `Memtable.MemTable.Get` | src/memtable.rs:25-32 | returns exactly the reference lookup `Find` of the key |
| `Memtable.MemTable.Set` | src/memtable.rs:34-72 | the table stays well formed, and its new entries and size are `SetModel` of the old ones |
| `Memtable.MemTable.Delete` | src/memtable.rs:74-104 | the table stays well formed, and its new entries and size are `DeleteModel` of the old ones |
| `Memtable.PutStartExample` | src/memtable.rs:141-163 | putting Lime (at 0), Orange (at 10) and Apple (at 20) gives exactly the entries Apple, Lime, Orange, in that order, with their values, timestamps and clear flags, and size 108 |
| `Memtable.ThreeFruits` | src/memtable.rs:189-211 | putting Apple, Lime, Orange in order gives exactly those three entries, and size 108 |
| `Memtable.PutOverwriteExample` | src/memtable.rs:213-236 | overwriting Lime with "A sour fruit" stores the new entry and takes the size to 107 |
| `Memtable.GetNotExistsExample` | src/memtable.rs:252-261 | "Potato", never written, looks up as `None` |
| `Memtable.DeleteExamples` | src/memtable.rs:263-302 | deleting Apple, whether it was set or absent before, leaves the tombstone `(Apple, None, 10, true)` and size 22 |
| `WalCodec.EncodedLengths` | src/wal.rs:76-97 | a `set` record is 33 bytes plus key and value; a `delete` record is 25 bytes plus key |
| `WalCodec.Available` | src/wal.rs:188-190 | what a read of `n` bytes obtains: a prefix of the input, of length `n` unless the input is shorter |
| `WalCodec.DecodeTombstoneBody` | src/wal.rs:176-198 | the rest of a tombstone record yields a consistent tombstone and consumes no more than is there |
| `WalCodec.DecodeLiveBody` | src/wal.rs:178-198 | the rest of a live record yields a consistent live entry and consumes no more than is there |
| `WalCodec.DecodeNext` | src/wal.rs:161-199 | a step that yields an entry consumes at least one and at most all the unread bytes, needs more than 8 of them, and yields a consistent entry that is a tombstone exactly when byte 8 is non-zero |
| `WalCodec.DecodeAll` | src/wal.rs:158-200 | every entry the iteration yields is consistent |
| `WalCodec.DecodeHead` | src/wal.rs:161-199 | a written header in front of any bytes decodes to its entry, with the timestamp those bytes spell, consuming the header and up to 16 more bytes |
| `WalCodec.StampReadBack` | src/wal.rs:188-191 | a complete 16-byte timestamp is read back as written |
| `WalCodec.DecodeEncode` | src/wal.rs:76-199 | a record followed by anything decodes to its own entry and consumes exactly its bytes |
| `WalCodec.DecodeAllEncodeAll` | src/wal.rs:76-199 | the records of a sequence of writes, followed by any bytes, decode to those writes in order, then to whatever those bytes decode to |
| `WalCodec.RoundTrip` | src/wal.rs:76-199 | a log of `set`/`delete` records is read back as exactly the written entries, in write order |
| `WalCodec.CutBeforeTimestamp` | src/wal.rs:161-186 | a record cut off anywhere before its timestamp yields no entry |
| `WalCodec.CutInTimestamp` | src/wal.rs:188-198 | a record cut off inside its timestamp still yields an entry with the record's key, value and flag, and consumes every byte |
| `WalCodec.TornTail` | src/wal.rs:161-199 | a log whose last write is torn reads back the complete records; it adds an entry for the torn one only when the cut falls inside its timestamp |
| `WriteAheadLog.Wal.constructor` | src/wal.rs:53-63 | a new log at the given path holds no bytes |
| `WriteAheadLog.Wal.Set` | src/wal.rs:75-85 | appends exactly the live record of the key, value and timestamp |
| `WriteAheadLog.Wal.Delete` | src/wal.rs:87-97 | appends exactly the tombstone record of the key and timestamp |
| `WriteAheadLog.WalIterator.constructor` | src/wal.rs:151-155 | the iterator starts at the first byte of the file |
| `WriteAheadLog.WalIterator.ReadExact` | src/wal.rs:163-164 | succeeds iff `n` bytes remain; otherwise it consumes the rest; the buffer is the bytes consumed |
| `WriteAheadLog.WalIterator.ReadStamp` | src/wal.rs:188-191 | consumes up to 16 bytes, and reads the timestamp those bytes spell, zero-padded |
| `WriteAheadLog.WalIterator.ReadTombstoneBody` | src/wal.rs:176-198 | reads the rest of a tombstone record exactly as `DecodeTombstoneBody` describes, or fails at the end of the file |
| `WriteAheadLog.WalIterator.ReadLiveBody` | src/wal.rs:178-198 | reads the rest of a live record exactly as `DecodeLiveBody` describes, or fails at the end of the file |
| `WriteAheadLog.WalIterator.Next` | src/wal.rs:161-199 | yields the entry of `DecodeNext` and advances by the bytes it consumes, or yields `None` at the end of the file |
| `WriteAheadLog.LastFor` | src/wal.rs:118-136 | a result is a record of the sequence for the key; `None` exactly when no record names the key |
| `WriteAheadLog.FileEntries` | src/wal.rs:119-120 | every entry recovered from one listed file is consistent |
| `WriteAheadLog.Recovered` | src/wal.rs:118-138 | the entries of all listed files, file after file, are consistent and replayable |
| `WriteAheadLog.ReplayFind` | src/wal.rs:118-136 | last writer wins: after replay, each key holds what its last record leaves (a value or a tombstone), or what it held before if no record names it; the table stays well formed |
| `WriteAheadLog.ReplayConcat` | src/wal.rs:118-136 | replaying two runs of records one after the other is replaying their concatenation |
| `WriteAheadLog.LastForConcat` | src/wal.rs:118-136 | the last record for a key in a concatenation comes from the later part whenever it has one |
| `WriteAheadLog.LaterFileWins` | src/wal.rs:108-118 | logs are merged by file order: a key named in the last file gets that file's last record for it, whatever earlier files say |
| `WriteAheadLog.RecoverAgain` | src/wal.rs:111-142 | a log holding the re-appended records recovers exactly those records, and the same MemTable |
| `WriteAheadLog.EncodeAllConcat` | src/wal.rs:121-135 | the log of two runs of records is the log of the first followed by that of the second |
| `WriteAheadLog.ApplyEntry` | src/wal.rs:121-135 | one recovered record is replayed into the MemTable, and its own record is appended to the new log |
| `WriteAheadLog.Step` | src/wal.rs:120-136 | one turn of the inner loop applies the yielded entry and moves the iterator on, preserving the progress invariant |
| `WriteAheadLog.Open` | src/wal.rs:119-120 | opening a file's iterator and taking its first entry starts the progress invariant with nothing applied |
| `WriteAheadLog.ReplayInto` | src/wal.rs:120-136 | every entry of one file is replayed into the MemTable and re-appended to the new log, in file order |
| `WriteAheadLog.RemoveListed` | src/wal.rs:139-141 | after the new log is written, removing the listed files leaves every other file and the new log |
| `WriteAheadLog.RecoverFile` | src/wal.rs:118-138 | one listed file is replayed and re-appended if it opens, and skipped if it does not |
| `WriteAheadLog.LoadFromDir` | src/wal.rs:111-142 | the MemTable is the replay of all listed files in ascending name order; the new log holds their re-encoded records; the listed files are gone |
| `WriteAheadLog.ReadNoneExample` | src/wal.rs:357-370 | with no log files, the recovered MemTable and the new log are both empty |
| `PlainTable.RowTypeByte` | src/sstable.rs:59-67 | a row type's byte is below 3 |
| `PlainTable.RowTypeFromByte` | src/sstable.rs:48-57 | bytes 0, 1 and 2 name a row type with that byte; any other byte panics, naming the byte |
| `PlainTable.RowTypeRoundTrip` | src/sstable.rs:48-67 | a row type survives conversion to its byte and back |
| `PlainTable.SequenceBits` | src/sstable.rs:171 | masking clears exactly bits 24..31: the result has no type bits, and is the word minus its type bits |
| `PlainTable.TrailerRoundTrip` | src/sstable.rs:251-255 | unpacking a written trailer gives back the row type's byte and the masked sequence number |
| `PlainTable.TrailerTypeByte` | src/sstable.rs:224-228 | the row type is byte 3 of the little-endian trailer |
| `PlainTable.SmallSequence` | src/sstable.rs:248-254 | a sequence number below 2^24, such as `SEQUENCE_ID`, survives the mask |
| `PlainTable.ReadKey` | src/sstable.rs:161-175 | on success, the key is the `FromLE(data[..4])` bytes after the length, and the value part starts 12 bytes past the key's length; data too short for the length, key or trailer panics |
| `PlainTable.ReadValue` | src/sstable.rs:178-187 | succeeds iff the length and that many bytes are present; the value is those bytes and the offset is just past them; otherwise it panics on the slice |
| `PlainTable.ReadKeyValue` | src/sstable.rs:192-196 | the increment returned is `4 + \|value\|`, relative to the value part and not to the row; the row fits in the data |
| `PlainTable.KeyPrefix` | src/sstable.rs:123-125 | the first 10 bytes of a key of at least 10 bytes; a shorter key panics |
| `PlainTable.SamePrefix` | src/sstable.rs:148 | panics unless both keys have at least 10 bytes; otherwise true iff their first 10 bytes agree |
| `PlainTable.TurnAt` | src/sstable.rs:133-152 | a found row has the key; the search stops with `None` only at a row whose prefix differs; it moves on only past a row with another key of the same prefix, and then by that row's increment (at least 4) |
| `PlainTable.SearchFrom` | src/sstable.rs:129-155 | any row the search returns has the searched key |
| `PlainTable.SearchStep` | src/sstable.rs:133-152 | the loop body takes exactly the turn `TurnAt` describes |
| `PlainTable.LinearSearch` | src/sstable.rs:129-155 | the loop returns `SearchFrom` of its start offset, so any row it finds has the key |
| `PlainTable.Lookup` | src/sstable.rs:109-120 | a key shorter than the prefix panics; a prefix missing from the index gives `None`; any row found has the key |
| `PlainTable.Get` | src/sstable.rs:109-120 | `get` returns what `Lookup` describes |
| `PlainTable.AppendRow` | src/sstable.rs:237-264 | one loop turn appends exactly the entry's row: key length, key, trailer, value length |
| `PlainTable.WriteRows` | src/sstable.rs:230-265 | the row loop writes the rows of the MemTable's entries, in order |
| `PlainTable.RowLength` | src/sstable.rs:236-265 | every written row is 16 bytes plus the key, whatever the value |
| `PlainTable.EncodeRowsConcat` | src/sstable.rs:236-265 | the rows of consecutive entries lie end to end |
| `PlainTable.RowLayout` | src/sstable.rs:237-264 | a written row holds the 32-bit key length at 0, the key at 4, the trailer at 4 + k and the value length at 12 + k |
| `PlainTable.ReadKeyOfRow` | src/sstable.rs:161-175 | `read_key` of a written row gives its key, its row type and `SEQUENCE_ID`, and puts the value part at 12 + k |
| `PlainTable.ReadValueOfLength` | src/sstable.rs:178-187 | a value length `v` in front of some bytes reads as the first `v` of them, or panics when fewer follow |
| `PlainTable.ReadRow` | src/sstable.rs:192-196 | `read_key_value` of a written row gives its key, type and `SEQUENCE_ID`, takes as value the next `v` bytes after the row (`v` is 0 for a tombstone), and panics if fewer follow |
| `PlainTable.TombstoneRowRoundTrip` | src/sstable.rs:258-259 | a written tombstone reads back whole: key, `Deletion`, `SEQUENCE_ID`, an empty value, increment 4 |
| `PlainTable.LiveRowTakesFollowingBytes` | src/sstable.rs:260-264 | a written live row reads the `\|value\|` bytes that follow it as its value, and panics when fewer follow |
| `PlainTable.FirstRowOfPrefixFound` | src/sstable.rs:109-146 | in the two-row table, `get` of the first key of the indexed prefix finds its tombstone row: key, `Deletion`, `SEQUENCE_ID`, an empty value |
| `PlainTable.FirstTurnMovesFour` | src/sstable.rs:148-151 | searching for the second key passes the first row and moves on only 4 bytes |
| `PlainTable.SecondTurnPanics` | src/sstable.rs:161-164 | at offset 4 the key bytes read as a key length far past the data, and the search panics |
| `PlainTable.SecondRowAtItsOffset` | src/sstable.rs:129-146 | started at its own offset 27, the search finds the second row |
| `PlainTable.SecondRowOfPrefixMissed` | src/sstable.rs:134-151 | `get` of the second key panics, although that row is found from its own offset |

## Left out

- I/O and buffering are not modelled. This covers `BufWriter`/`BufReader`, `flush` and `OpenOptions`, as well as the `io::Result` errors of writes (`?` after `write_all`) and of `remove_file`. A log is the sequence of bytes it would hold once flushed, and removing files cannot fail.
- The clock and the directory listing are parameters of `LoadFromDir`: the new log's name (microseconds since the epoch in `Wal::new`) and the result of `files_with_ext` (not part of this model). The new name is required to be new. `Wal::from_path` and `WalIterator::new` opening the same file are merged into one outcome, `Readable` or `Unopenable`. The `expect` in `into_iter` therefore never fires.
- `Wal::set` and `Wal::delete` are modelled without their error path. They always append.
- `read_exact` leaves its buffer unspecified after a short read by the standard library's contract. The model takes the bytes that were read, in a zeroed buffer, as the buffered reader does.
- `IntoIterator for Wal` and a `Wal`'s path beyond its name are not modelled separately; recovery opens each file by name.
- `mmap` and the `HashMap` index are not modelled. `PlainSSTable` holds the file's bytes and a map from prefixes to offsets. The source never fills the index, so it is an input. `PlainSSTable::new` is not modelled.
- `write` reaches `todo!()` after its row loop, and panics, whenever opening the file and every write succeed; it returns `Err` through `?` when one fails. It has no property block and no footer. Only the rows are modelled (`WriteRows`), and opening the output file is not.
- PlainTable.LinearSearch: `offset += next_incr` on a `usize` is not checked for overflow. Offsets are unbounded in the model, and the search stops once the offset reaches the end of the data.
- The three slice panics of `read_key` (the length, the key and the trailer) are one fault, `SliceOutOfRange`. `read_value`'s two panics are the same fault.
- PlainTable.ReadKeyOfRow: stated only for keys (and, in ReadRow and LiveRowTakesFollowingBytes, values) shorter than 2^32 bytes. No lemma says what reading back a row with a truncated length gives, although `EncodeRow` writes that truncated length (`as u32`) as the source does.
- WalCodec.DecodeNext, WriteAheadLog.WalIterator.Next: a key or value length the process cannot allocate ends the log quietly in the model, as any short read does. In the source `vec![0; key_len]` and `vec![0; value_len]` (src/wal.rs:173 and 183) allocate the buffer before reading: a length above `isize::MAX` panics with a capacity overflow, and a smaller one the allocator cannot satisfy aborts the process. Memory limits are not modelled, so on such a corrupt log `LoadFromDir` promises a recovered MemTable where the program crashes.
- Memtable.MemTable.Set: `size` is an `int`. The model does not stop or wrap where the source's `usize` would underflow (a panic in debug builds, wrap-around in release builds); `SizeCanUnderflow` exhibits the case instead.
- `MemTableEntry`'s and `WalEntry`'s `Vec` ownership and copying (`to_owned`) are not modelled, since values have no identity here.
