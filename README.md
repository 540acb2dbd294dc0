# willow: MFT enumeration and parent index, modelled in Dafny

willow lists every file of an NTFS volume by asking the file system for
its master file table one buffer at a time (`FSCTL_ENUM_USN_DATA`), and
files each `USN_RECORD_V2` it gets back under the reference number of its
parent directory. Two threads do the work:

- the enumerating thread (`usn_record_iterator`) opens the volume, queries
  the change journal for MaxUsn, then asks for buffer after buffer. Before
  each next call it moves its cursor on to the continuation token in the
  first 8 bytes of the previous buffer. It sends every buffer down an `mpsc`
  channel, and sends `None` once enumeration ends with ERROR_HANDLE_EOF;
- the resolving thread (`usn_record_resolver`) takes messages off the
  channel until the first `None`. It walks each buffer's records from byte 8
  up to `returned`, advancing by each record's RecordLength, and appends
  every record to its parent's list in a `HashMap<u64, Vec<USN_RECORD_V2>>`.
  It counts the messages received (`times`) and the records filed (`idx`).

The model is organised by module:

- `Bytes`: fixed-width integers and little-endian byte strings.
- `UsnRecord`: the record layout. It covers the two fields the walk reads
  (RecordLength and ParentFileReferenceNumber) and FileReferenceNumber,
  and round trips for all thirteen fixed fields.
- `RecordStream`: the buffer layout and the record walk.
- `RecordLayout`: shows that any buffer with records laid out back to back
  meets the walk's preconditions. Each record may carry any bytes (the rest
  of its file name and padding) between its 64-byte structure and its
  RecordLength.
- `FsIndex`: the `fs_map`. It is a class holding a map, and its `Push` is
  `entry().or_insert_with().push()`.
- `Channel`: the channel, as the sequence of messages sent.
- `Producer`: the enumerating loop.
- `Resolver`: the resolving loops.
- `Pipeline`: `main`, which connects the two.

The Win32 calls are not modelled. Their results are inputs to the model:
whether the volume opened, the journal query's result, the script of
enumeration responses, and the result of `CloseHandle`.

Two behaviours of the code shape the model:

- The walk checks nothing but `offset < returned` (src/main.rs:76) and
  raises no error for a malformed record. The walk's assumptions are
  therefore a precondition, `RecordStream.WellFormed`: every record has a
  RecordLength of at least the 64 cloned bytes and ends within `returned`.
- The handle is closed only after ERROR_HANDLE_EOF (src/main.rs:63). The
  `?` exit at src/main.rs:33 (the journal query failing after the volume
  opened) and the `return Err(er)` at src/main.rs:52 leave it open. When
  the open itself fails (src/main.rs:23) there is no handle to close.

## Model

| member | source | states |
|---|---|---|
| UsnRecord.DecodeRecordFields | src/main.rs:79-80 | The record at a cursor reads RecordLength at byte 0, FileReferenceNumber at byte 8 and ParentFileReferenceNumber at byte 16 of the buffer, little-endian. |
| UsnRecord.HeaderOfRecord | src/main.rs:79-80 | The 13-field header decoded from a stored record has the RecordLength, FileReferenceNumber and ParentFileReferenceNumber that the walk and the index read from it. |
| UsnRecord.DecodeEncodeHeader | src/main.rs:79 | Decoding the bytes of an encoded USN_RECORD_V2 header gives back every one of its 13 fields. Usn and TimeStamp are read as signed 64-bit values. |
| UsnRecord.EncodeDecodeHeader | src/main.rs:79 | Re-encoding the fields read from a record reproduces its 60 fixed bytes exactly. |
| RecordStream.TokenIsReadU64 | src/main.rs:59 | The continuation token is the little-endian u64 in the first 8 bytes of the buffer. |
| RecordStream.TokenOfEncoded | src/main.rs:59 | A buffer that begins with the 8 bytes of x has x as its token. |
| RecordStream.RecordsFrom | src/main.rs:74-82 | Every record met by the walk is at least 64 bytes long, so a region of n bytes holds at most n/64 records. A walk starting at or past `returned` meets none. |
| RecordStream.Advance | src/main.rs:80 | The cursor moves on by exactly the RecordLength of the record under it, at least 64 bytes and never past `returned`. The walk stays well formed from there. The record under the old cursor is the first one met, and the rest of the walk continues from the new cursor. |
| RecordStream.Records | src/main.rs:74-76 | The walk starts after the 8-byte token. A buffer with `returned <= 8` yields no record. A full buffer yields at most (BUF_SIZE - 8) / 64 records. |
| RecordStream.RecordsTile | src/main.rs:75-80 | The record lengths sum to exactly the valid region after the cursor, with no gap and no overrun. |
| RecordStream.RecordAt | src/main.rs:74-80 | The i-th record sits at the start offset plus the RecordLengths of the records before it, and lies wholly below `returned`. |
| RecordStream.RecordsIgnoreUninitialised | src/main.rs:41-42 | Bytes past `returned` are never read. Two buffers that agree below `returned` yield the same records. |
| RecordLayout.DecodeLaidOut | src/main.rs:74-82 | Records laid out back to back from any offset, each followed by arbitrary tail bytes up to its RecordLength, are well formed and read back exactly, in order. |
| RecordLayout.RecordsOfLaidOut | src/main.rs:74-82 | A buffer that holds a token and then records laid out back to back, with any tail bytes, is well formed, and its walk yields exactly those records. |
| FsIndex.Insert | src/main.rs:79 | One insert adds the parent's key if absent. It appends the record to the end of that parent's list, which starts empty if the key was absent. Every other parent's list is unchanged. |
| FsIndex.InsertAllAppend | src/main.rs:69-85 | Inserting two runs of records equals inserting the first run, then the second. |
| FsIndex.ChildrenInsertAll | src/main.rs:79 | After a run of inserts, each parent's list is its former list followed by the run's records that name it, in run order. |
| FsIndex.ChildrenOfNew | src/main.rs:79 | Filled from an empty index (`HashMap::new()`), each parent's list is exactly the records that name it, in order; a parent that no record names has no children. |
| FsIndex.KeysInsertAll | src/main.rs:79 | A run of inserts adds exactly the parents of its records to the keys. |
| FsIndex.TotalInsert | src/main.rs:79-81 | One insert adds exactly one record to the index's total size. |
| FsIndex.TotalInsertAll | src/main.rs:79-81 | Inserting N records grows the total size of the lists by N. |
| FsIndex.FsMap.constructor | src/main.rs:91 | `HashMap::new()` starts with no entries. |
| FsIndex.FsMap.Push | src/main.rs:79 | `entry(parent).or_insert_with(Vec::new).push(record)` changes the map exactly as Insert does. |
| Channel.Received | src/main.rs:69-72 | The resolver receives at most the messages sent, and at least one when any was sent. |
| Channel.ReceivedStopsAtNone | src/main.rs:69-72 | Receiving stops at the first `None` and counts it. Without a `None`, every message is received. |
| Channel.ConsumedAppend | src/main.rs:69-85 | The records of a run of buffers and then more messages are the run's records followed by the rest's. |
| Channel.IgnoredAfterNone | src/main.rs:71-72 | Nothing after the first `None` reaches the index. |
| Producer.FirstFailure | src/main.rs:40-57 | The loop ends at the first failing call. Every call before it succeeded. |
| Producer.Produce | src/main.rs:15-64 | If opening or querying fails, nothing is sent and that error is returned. The first cursor is (0, 0, MaxUsn). Each next cursor starts at the token of the previous buffer. Every buffer before the first failure is sent in order. After ERROR_HANDLE_EOF the producer sends the final buffer, then exactly one `None`, and returns CloseHandle's result. After any other failure it returns that error and sends no `None`. |
| Resolver.FileRecords | src/main.rs:73-83 | Walking one buffer appends its records, in buffer order, to their parents' lists and adds their count to `idx`. |
| Resolver.Resolve | src/main.rs:66-87 | `times` is the number of messages received, the first `None` included. Every record of the buffers before the first `None` is filed, buffer by buffer and each in order. `idx` counts them. The lists' total size grows by `idx`. |
| Pipeline.SentCount | src/main.rs:51-60 | The producer sends at most one buffer per response. |
| Pipeline.ConsumedChunks | src/main.rs:55-72 | A run of buffer messages, possibly closed by one `None`, is received in full and carries the records of its responses. |
| Pipeline.SentIsConsumed | src/main.rs:55-72 | Whatever the producer sends, the resolver receives all of it and files exactly the records of the fetched buffers. |
| Pipeline.Run | src/main.rs:89-104 | After a successful start, the new index holds every fetched record under its parent in fetch order, with total size `idx`. `times` counts every message sent. `result` is the producer's: CloseHandle's result after ERROR_HANDLE_EOF, and otherwise the error of the failing call. If opening or querying fails, `result` is that error, the index stays empty and both counters are zero. |

## Left out

- The Win32 calls (`CreateFileW`, both `DeviceIoControl` requests, `GetLastError` and `CloseHandle`) are not modelled. Their results are inputs.
- Producer.Produce: an error is modelled as the integer code `GetLastError` reported. The windows-rs `Error`/HRESULT wrapping is not modelled.
- Producer.Produce requires, once the volume is open and the journal queried, that the response script reach a failing call (`Ends`). With endless successful calls the source loops forever, and the model does not cover that case.
- Threads, `join`, `unwrap` and the `mpsc` channel become a sequence of messages. The producer runs to completion, then the resolver reads that sequence in FIFO order. Interleaving is not modelled, because it cannot change what the resolver reads.
- Timing (`Instant::now`), `println!` and `eprintln!` are output only and are left out. Pipeline.Run returns the producer's result, which `main` prints to standard error when it is an `Err`, before returning `Ok(())`.
- Pipeline.Run hands the index back to its caller. In the source, `fs_map` is moved into the resolver thread's closure (src/main.rs:96) and dropped when that thread ends, so `main` never holds it.
- The commented-out UTF-16 file-name decoding is left out. A stored record keeps only its 64 cloned bytes, not the name or the padding past them.
- Resolver.Resolve: `times` and `idx` are unbounded naturals. In the source they are `i32`, which would overflow after 2^31 records.
- The source's unchecked raw-pointer walk is modelled as offsets into a sequence. A buffer is a sequence of BUF_SIZE bytes, of which the first `returned` are valid. Reading past `returned` or past the capacity is ruled out by the precondition `RecordStream.WellFormed` rather than modelled as undefined behaviour.
