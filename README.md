# Record store of package log

This project models the append-only record store of `internal/log/store.go`.
The store writes each record as a frame: an 8-byte big-endian unsigned length
N, then the N payload bytes. Frames go through a buffered writer
(`bufio.Writer`) to a backing file. `Append` returns the number of bytes the
frame takes and the position where it starts. `Read` flushes the writer, then
decodes the frame at a position. `ReadAt` flushes, then does a positional
read of the file. `Close` flushes, then closes the file. `newStore` takes the
current length of the file as the logical end. The model assumes the file
handle writes at the end of the file, as one opened with `O_APPEND` does, so
flushed bytes land after what the file already holds.

Files:

- `errors.dfy` (module `Errors`): the I/O errors the store can report, plus
  `Option` and `Result`.
- `framing.dfy` (module `Framing`): the byte type and the big-endian 8-byte
  header (`EncodeU64BE`/`DecodeU64BE`, both directions of the round trip).
  - `Frame` and `Frames`: the frame of one record, and of a run of records.
  - `Offset`: the offset of each record in a run.
  - `RecordAt`: what the bytes at a position decode to, with the same error
    cases as the source.
  - `Scan`: a front-to-back reading of a whole stream of frames.
- `osfile.dfy` (module `OsFile`): `os.File.ReadAt` on a byte sequence
  (`PRead`), and the `int64(...)` conversion of a `uint64` offset.
- `store.dfy` (module `Log`): the `Store` class.
  - Fields: `file` (the bytes on disk), `buf` (bytes the writer accepted but
    has not flushed), `writeErr` (the writer's sticky error), `size` and
    `closed`.
  - Ghost fields: `prefix` (the bytes before the first record the store
    knows) and `records` (the records whose frames follow).
  - Its invariant `Valid` says three things:
    - `size` is the length of `prefix` followed by the frames of `records`.
    - Those bytes begin the logical stream `file + buf`.
    - Unless the writer has failed, those bytes are the whole stream. This
      gives the invariant `size == |file| + |buf|`.
- `scenarios.dfy` (module `Scenarios`): combinations of operations.
  - An append read back at its position.
  - Consecutive positions.
  - Two records on an empty store, and the example "hello" returns (13, 0),
    "!" returns (9, 13), the stream holds their 22 bytes and both read back.
  - Close and reopen.

I/O failures are decided by the environment, so they are parameters:

- A `Fault` says whether the writer accepts every byte or fails after
  accepting k more.
- `statFails` and `closeFails` give the outcome of `os.Stat` and
  `File.Close`.

## Model

| member | source | states |
|---|---|---|
| Framing.DecodeEncodeBE | internal/log/store.go:11 | decoding the k-byte big-endian encoding of n < 256^k gives n |
| Framing.EncodeDecodeBE | internal/log/store.go:11 | encoding the value of a big-endian byte string at its own width gives the string back |
| Framing.EncodeDigits | internal/log/store.go:11 | byte i of the k-byte encoding of n is digit k - 1 - i of n in base 256, so the most significant byte comes first |
| Framing.EncodeU64BE | internal/log/store.go:51 | the header written before a record is exactly 8 bytes |
| Framing.DecodeU64BE | internal/log/store.go:86 | the length 8 header bytes announce is a uint64 value, below 2^64 |
| Framing.EncodeU64BEDigits | internal/log/store.go:51 | byte i of the header of n is n / 256^(7 - i) mod 256: the length is written big-endian |
| Framing.DecodeU64BEDigits | internal/log/store.go:86 | the length decoded from 8 bytes has byte i as its digit 7 - i in base 256: the header is read big-endian |
| Framing.SmallHeader | internal/log/store.go:51 | the header of a length below 256 is seven zero bytes followed by the length |
| Framing.U64RoundTrip | internal/log/store.go:51-86 | the 8-byte header is exactly the encoding of the length: encode then decode gives the length, and decode then encode gives the 8 bytes |
| Framing.FrameLayout | internal/log/store.go:50-59 | the contract of `Frame`: a frame is 8 + len(record) bytes; its first 8 bytes decode to len(record), and the rest is the record |
| Framing.OffsetStep | internal/log/store.go:48-63 | the first record is at offset 0; each next record starts 8 + len bytes after the previous one; the last one ends at the length of the stream |
| Framing.FramesConcat | internal/log/store.go:43-65 | the frames of two runs of records, one after the other, are the frames of the concatenated run |
| Framing.FramesAppendOne | internal/log/store.go:48-63 | appending a record's frame to a run of frames gives the frames of the run plus that record, and the new record sits at the old end |
| Framing.FrameAt | internal/log/store.go:48-63 | record i's frame sits at Offset(rs, i) in the frames of rs |
| Framing.RecordAt | internal/log/store.go:78-91 | decoding at pos succeeds exactly when the header and the payload it announces both fit in the stream, and then the bytes at pos are the frame of the result |
| Framing.RecordAtFrame | internal/log/store.go:78-91 | where the frame of r sits in a stream, decoding at that position gives r |
| Framing.RecordAtBoundary | internal/log/store.go:43-91 | in a run of frames embedded anywhere in a stream, decoding at the offset of record i gives record i, empty records included |
| Framing.ScanStep | internal/log/store.go:78-91 | a scan reads the record at pos, then continues right after its frame |
| Framing.ScanFrames | internal/log/store.go:78-91 | scanning a run of frames gives back exactly the records they were made from |
| Framing.ScanExact | internal/log/store.go:78-91 | a stream that scans successfully is exactly the frames of the records the scan returns, with no stray bytes |
| OsFile.PRead | internal/log/store.go:102 | a positional read succeeds exactly when the offset is non-negative and the buffer is empty or fits in the file; a negative offset reads nothing; otherwise the data read is the bytes at the offset, cut short at the end of the file; the error for a short read at a non-negative offset is end-of-file |
| OsFile.ToInt64 | internal/log/store.go:81-87 | int64(x) for a uint64 x is x when x < 2^63 and negative otherwise |
| Log.Accepted | internal/log/store.go:51-58 | a buffered write takes in a prefix of its bytes: nothing after an earlier error, all of them when it completes, fewer when it fails |
| Log.ReopenFramed | internal/log/store.go:30-41 | a file that holds some bytes followed by the frames of rs ends with those frames, so it can be reopened with rs known |
| Log.FramePrefix | internal/log/store.go:50-59 | the first k bytes of a frame are part of its header, or its header and the first k - 8 record bytes |
| Log.PrefixGrows | internal/log/store.go:51-58 | bytes that begin the stream still begin it after the stream grows |
| Log.TwoReadsDecode | internal/log/store.go:78-91 | reading the 8-byte header at pos and then the payload it announces at pos + 8 gives what RecordAt decodes at pos, error for error |
| Log.KnownRecord | internal/log/store.go:48-91 | in the known bytes, decoding at the position of record i gives record i |
| Log.KnownRecords | internal/log/store.go:68-91 | the same for every known record whose position is pos |
| Log.KnownScan | internal/log/store.go:78-91 | scanning the known bytes from the first known record gives back exactly the known records: none lost, none overlapped |
| Log.AppendKnown | internal/log/store.go:48-63 | appending a frame to the known bytes gives the known bytes with one more record, placed at the old end |
| Log.SplitFramedSuffix | internal/log/store.go:30-41 | a file that ends with the frames of prior is its leading bytes followed by those frames |
| Log.Store.constructor | internal/log/store.go:36-40 | a new store holds the file, has an empty healthy writer, and has size equal to the file length |
| Log.NewStore | internal/log/store.go:30-41 | a failed stat returns no store and the error; otherwise the store starts at the file's current length with the invariant established |
| Log.Store.BufferWrite | internal/log/store.go:51-58 | a buffered write extends the logical stream by the bytes it accepted; it fails when the writer has already failed or cannot take every byte, and the error sticks |
| Log.Store.Flush | internal/log/store.go:74-76 | a flush never changes the logical stream; it succeeds exactly when the writer is healthy and writes everything, and then the file is the whole stream and the buffer is empty |
| Log.Store.WriteFrame | internal/log/store.go:50-59 | the header write and then the payload write extend the stream by the part of the frame the writer accepted, and succeed exactly when all of it was accepted |
| Log.Store.Append | internal/log/store.go:43-66 | on success it returns (8 + len(record), old size), grows size by that count, appends the frame to the stream, and records the record at that position; on failure it returns (0, 0) and leaves size and the known records unchanged; the invariant is kept either way |
| Log.Store.Read | internal/log/store.go:68-92 | a failed flush returns its error; otherwise the result is what the flushed file decodes to at pos, and at the position of any appended record it is that record; size never changes |
| Log.Store.ReadAt | internal/log/store.go:94-103 | a failed flush returns (0, error) and leaves b alone; otherwise it returns exactly a positional read of the flushed file into b, leaving the rest of b untouched |
| Log.Store.Close | internal/log/store.go:105-113 | a failed flush returns its error and the store stays open; otherwise the whole stream is in the file, the store is closed, and the error is the one from closing the file |
| Scenarios.AppendThenRead | internal/log/store.go:43-91 | after a successful append, a read at the returned position gives the record back unless its flush fails, with no flush needed in between |
| Scenarios.ConsecutiveAppends | internal/log/store.go:48-63 | two successful appends give pos1 == old size, pos2 == pos1 + w1 and size == pos2 + w2, and the stream grows by the two frames |
| Scenarios.TwoAppends | internal/log/store.go:43-66 | on an empty store, two appends give (8 + len1, 0) and (8 + len2, 8 + len1), and the stream is exactly the two frames with the records known at those positions |
| Scenarios.TwoRecords | internal/log/store.go:43-91 | on an empty store, two appends followed by reads at the returned positions give both records back |
| Scenarios.HelloWire | internal/log/store.go:50-59 | the frames of "hello" and "!" are the bytes 0,0,0,0,0,0,0,5,'h','e','l','l','o',0,0,0,0,0,0,0,1,'!' |
| Scenarios.HelloScenario | internal/log/store.go:43-91 | on an empty store, "hello" then "!" give (13, 0) and (9, 13), the stream holds exactly the 22 bytes of their frames, and reads at 0 and 13 give them back |
| Scenarios.CloseAndReopen | internal/log/store.go:30-113 | closing and reopening gives a store with the same size, stream and records at the same positions, so appending continues seamlessly (for a handle that writes at the end of the file) |

## Left out

- The `sync.Mutex` in every method is not modelled (internal/log/store.go:25, 44-45, 69-70, 95-96, 106-107). Operations are sequential.
- The real `os.File` and `os.Stat` are replaced by a byte sequence. The outcomes of stat, write and close are parameters (`statFails`, `Fault`, `closeFails`).
- Read errors other than a negative offset and end-of-file are not modelled. Neither are disk contents changed by other processes.
- `bufio.Writer`'s buffer capacity and its automatic flush when full are not modelled. Every accepted byte stays in `buf` until a flush. Properties are stated over the logical stream `file + buf`, which an automatic flush would not change.
- The panic of `make([]byte, n)` for a header value too large to allocate is not modelled (internal/log/store.go:86). The model treats it as a read past the end of the file.
- Log.Store.Append: requires `size + 8 + len(record) < 2^63` rather than modelling wrap-around of the `uint64` size and the `int64` file offset.
- Log.Store.Append: requires the store not to be closed, because operations after `Close` are undefined.
- Log.Store.Read: requires the store not to be closed, because operations after `Close` are undefined.
- Log.Store.ReadAt: requires the store not to be closed, because operations after `Close` are undefined.
- Log.Store.Close: requires the store not to be closed, so closing twice is not modelled.
- Log.Store.Read: at a position that is not a record boundary, it states only that the result is what `RecordAt` decodes there. It says nothing further about such garbage decodes.
- Log.NewStore: assumes the file handle writes at the end of the file, as one opened with `O_APPEND` does. The source never seeks (internal/log/store.go:30-41), so flushed bytes go to the handle's current offset. A handle opened without `O_APPEND` on a non-empty file starts at offset 0, and its first flush would overwrite the start of the file, not append at `size`. The model does not capture that.
- Log.NewStore: the ghost `prior` records describe what the caller knows the file ends with. The source has no such parameter, and `[]` is always allowed.
