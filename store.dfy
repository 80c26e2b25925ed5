/**
 * The record store of package log (internal/log/store.go): an append-only
 * file of length-prefixed frames written through a buffered writer.
 *
 * The backing file is the sequence `file`; the buffered writer is the
 * sequence `buf` of bytes accepted but not yet written to the file, together
 * with the writer's sticky error flag `writeErr`. I/O failures are decided
 * by the environment and arrive as `Fault` parameters.
 */
module Log {
  import opened Errors
  import opened Framing
  import opened OsFile

  /**
   * The environment's verdict on the writes of one operation: either every
   * write completes, or the writer accepts `accepted` more bytes and then
   * reports an error.
   */
  datatype Fault = Healthy | FailsAfter(accepted: nat)

  /** Whether a write of n bytes completes under fault. */
  predicate Completes(fault: Fault, n: nat) {
    fault.Healthy? || n <= fault.accepted
  }

  /** The verdict left for the next write once n bytes have gone through. */
  function Remaining(fault: Fault, n: nat): Fault {
    match fault
    case Healthy => Healthy
    case FailsAfter(k) => FailsAfter(if n <= k then k - n else 0)
  }

  /** The part of p a buffered write takes in: nothing once the writer has failed, all of p when the write completes. */
  function Accepted(p: seq<byte>, fault: Fault, failed: bool): (r: seq<byte>)
    ensures r <= p
    ensures failed ==> r == []
    ensures !failed && Completes(fault, |p|) ==> r == p
    ensures !Completes(fault, |p|) ==> |r| < |p|
  {
    if failed then [] else if Completes(fault, |p|) then p else p[..fault.accepted]
  }

  /** The records that end a file of these contents, as far as the caller knows (`[]` always qualifies). */
  ghost predicate FramedSuffix(contents: seq<byte>, prior: seq<seq<byte>>) {
    AllFramable(prior) && |Frames(prior)| <= |contents| &&
    contents[|contents| - |Frames(prior)|..] == Frames(prior)
  }

  /** A file made of any bytes followed by the frames of rs ends with those frames. */
  lemma ReopenFramed(prefix: seq<byte>, rs: seq<seq<byte>>)
    requires AllFramable(rs)
    ensures FramedSuffix(prefix + Frames(rs), rs)
  {
    var contents := prefix + Frames(rs);
    assert contents[|contents| - |Frames(rs)|..] == Frames(rs);
  }

  /** The first k bytes of a frame: part of the header, or the header and part of the payload. */
  lemma FramePrefix(record: seq<byte>, k: nat)
    requires Framable(record) && k < HeaderSize + |record|
    ensures k <= HeaderSize ==> Frame(record)[..k] == EncodeU64BE(|record|)[..k]
    ensures k >= HeaderSize ==> Frame(record)[..k] == EncodeU64BE(|record|) + record[..k - HeaderSize]
  {
  }

  /** A prefix of a stream stays a prefix when the stream grows. */
  lemma PrefixGrows(a: seq<byte>, s: seq<byte>, t: seq<byte>)
    requires a <= s
    ensures a <= s + t
  {
    assert (s + t)[..|a|] == s[..|a|];
  }

  /** In a stream made of a prefix and frames, the frames sit right after the prefix. */
  lemma FramesAfterPrefix(prefix: seq<byte>, rs: seq<seq<byte>>)
    requires AllFramable(rs)
    ensures (prefix + Frames(rs))[|prefix|..|prefix| + |Frames(rs)|] == Frames(rs)
  {
  }

  /**
   * Reading a frame with two positional reads, the header at pos and then
   * the payload it announces, gives what RecordAt decodes at pos, errors
   * included.
   */
  lemma TwoReadsDecode(s: seq<byte>, pos: nat)
    requires pos < U64Limit && |s| < Int64Limit
    ensures var header := PRead(s, HeaderSize, ToInt64(pos));
      && (header.err.Some? ==> RecordAt(s, pos) == Err(header.err.value))
      && (header.err.None? ==>
            var payload := PRead(s, DecodeU64BE(header.data), ToInt64((pos + HeaderSize) % U64Limit));
            && (payload.err.Some? ==> RecordAt(s, pos) == Err(payload.err.value))
            && (payload.err.None? ==> RecordAt(s, pos) == Ok(payload.data)))
  {
  }

  /** The frame at the offset of record i of the known bytes decodes to that record. */
  lemma KnownRecord(prefix: seq<byte>, rs: seq<seq<byte>>, i: nat)
    requires AllFramable(rs) && i < |rs| && |prefix + Frames(rs)| < Int64Limit
    ensures |prefix| + Offset(rs, i) < U64Limit
    ensures RecordAt(prefix + Frames(rs), |prefix| + Offset(rs, i)) == Ok(rs[i])
  {
    FramesAfterPrefix(prefix, rs);
    RecordAtBoundary(prefix + Frames(rs), |prefix|, rs, i);
  }

  /** In the known bytes, the frame at the offset of each record decodes to that record. */
  lemma KnownRecords(prefix: seq<byte>, rs: seq<seq<byte>>, pos: nat)
    requires AllFramable(rs) && |prefix + Frames(rs)| < Int64Limit
    ensures forall i {:trigger Offset(rs, i)} :: 0 <= i < |rs| && pos == |prefix| + Offset(rs, i) ==>
      pos < U64Limit && RecordAt(prefix + Frames(rs), pos) == Ok(rs[i])
  {
    forall i | 0 <= i < |rs| && pos == |prefix| + Offset(rs, i)
      ensures pos < U64Limit && RecordAt(prefix + Frames(rs), pos) == Ok(rs[i])
    {
      KnownRecord(prefix, rs, i);
    }
  }

  /** Scanning the known bytes from the first known record gives back exactly the known records. */
  lemma KnownScan(prefix: seq<byte>, rs: seq<seq<byte>>)
    requires AllFramable(rs) && |prefix + Frames(rs)| < Int64Limit
    ensures Scan(prefix + Frames(rs), |prefix|) == Some(rs)
  {
    var s := prefix + Frames(rs);
    assert s[|prefix|..] == Frames(rs);
    ScanFrames(s, |prefix|, rs);
  }

  /** Splitting a file at the start of its known final frames. */
  lemma SplitFramedSuffix(contents: seq<byte>, prior: seq<seq<byte>>)
    requires FramedSuffix(contents, prior)
    ensures contents == contents[..|contents| - |Frames(prior)|] + Frames(prior)
  {
    var cut := |contents| - |Frames(prior)|;
    assert contents == contents[..cut] + contents[cut..];
  }

  /** Appending a frame to the known bytes gives the known bytes with one more record, at the old end. */
  lemma AppendKnown(prefix: seq<byte>, rs: seq<seq<byte>>, r: seq<byte>)
    requires AllFramable(rs) && Framable(r)
    ensures AllFramable(rs + [r])
    ensures (prefix + Frames(rs)) + Frame(r) == prefix + Frames(rs + [r])
    ensures |Frame(r)| == HeaderSize + |r|
    ensures Offset(rs + [r], |rs|) == |Frames(rs)|
  {
    FramesAppendOne(rs, r);
    FrameLayout(r);
    assert (prefix + Frames(rs)) + Frame(r) == prefix + (Frames(rs) + Frame(r));
  }

  class Store {
    var file: seq<byte>
    var buf: seq<byte>
    var size: nat
    var writeErr: bool
    var closed: bool

    /** The bytes before the frames this store knows: what the file held before its known records. */
    ghost var prefix: seq<byte>
    /** The records whose frames follow prefix, in order. */
    ghost var records: seq<seq<byte>>

    /** The logical stream: the file followed by the bytes still buffered. */
    function Stream(): seq<byte>
      reads this`file, this`buf
    {
      file + buf
    }

    /** The position of the first known record. */
    ghost function Base(): nat
      reads this`prefix
    {
      |prefix|
    }

    /** The bytes up to the logical end, as the store accounts for them. */
    ghost function Known(): seq<byte>
      reads this`prefix, this`records
      requires AllFramable(records)
    {
      prefix + Frames(records)
    }

    /**
     * size is the logical end of the stream and the stream up to there is
     * prefix followed by the frames of records. The stream is exactly that
     * unless the writer failed midway through an append, which may leave
     * stray bytes after size.
     */
    ghost predicate Valid()
      reads this
    {
      AllFramable(records) &&
      size == |Known()| < Int64Limit &&
      Known() <= Stream() &&
      (!writeErr ==> Stream() == Known())
    }

    /** Whether flushing the writer succeeds under fault. */
    predicate FlushOk(fault: Fault)
      reads this`writeErr, this`buf
    {
      !writeErr && Completes(fault, |buf|)
    }

    constructor (contents: seq<byte>, ghost prior: seq<seq<byte>>)
      requires |contents| < Int64Limit
      requires FramedSuffix(contents, prior)
      ensures Valid() && !closed && !writeErr
      ensures file == contents && buf == [] && size == |contents|
      ensures records == prior && Base() == |contents| - |Frames(prior)|
    {
      file := contents;
      buf := [];
      size := |contents|;
      writeErr := false;
      closed := false;
      prefix := contents[..|contents| - |Frames(prior)|];
      records := prior;
      SplitFramedSuffix(contents, prior);
    }

    /**
     * bufio.Writer.Write: the bytes join the logical stream; a failing write
     * keeps the bytes it accepted and leaves the writer in error, and a
     * writer already in error accepts nothing.
     */
    method BufferWrite(p: seq<byte>, fault: Fault) returns (err: Option<IoError>)
      modifies this`buf, this`writeErr
      ensures err.None? <==> !old(writeErr) && Completes(fault, |p|)
      ensures writeErr == err.Some?
      ensures err.Some? ==> err == Some(WriteFailed)
      ensures Stream() == old(Stream()) + Accepted(p, fault, old(writeErr))
    {
      if writeErr {
        return Some(WriteFailed);
      }
      if !Completes(fault, |p|) {
        buf := buf + p[..fault.accepted];
        writeErr := true;
        return Some(WriteFailed);
      }
      buf := buf + p;
      err := None;
    }

    /**
     * bufio.Writer.Flush: moves the buffered bytes to the end of the file.
     * Whatever happens, the logical stream is unchanged; a failed flush has
     * moved a prefix of the buffer and leaves the writer in error.
     */
    method Flush(fault: Fault) returns (err: Option<IoError>)
      requires Valid()
      modifies this`file, this`buf, this`writeErr
      ensures Valid() && Stream() == old(Stream())
      ensures err.None? <==> old(FlushOk(fault))
      ensures err.None? ==> file == old(Stream()) && buf == [] && !writeErr
      ensures err.Some? ==> err == Some(WriteFailed) && writeErr
    {
      if writeErr {
        return Some(WriteFailed);
      }
      if !Completes(fault, |buf|) {
        var k := fault.accepted;
        assert buf == buf[..k] + buf[k..];
        file := file + buf[..k];
        buf := buf[k..];
        writeErr := true;
        return Some(WriteFailed);
      }
      file := file + buf;
      buf := [];
      err := None;
    }

    /**
     * The two buffered writes of an append: the 8-byte big-endian length,
     * then the payload. The stream grows by the part of the frame the
     * writer accepted.
     */
    method WriteFrame(record: seq<byte>, fault: Fault) returns (err: Option<IoError>)
      requires Framable(record)
      modifies this`buf, this`writeErr
      ensures err.None? <==> !old(writeErr) && Completes(fault, HeaderSize + |record|)
      ensures writeErr == err.Some?
      ensures err.Some? ==> err == Some(WriteFailed)
      ensures Stream() == old(Stream()) + Accepted(Frame(record), fault, old(writeErr))
    {
      ghost var s0, header := Stream(), EncodeU64BE(|record|);
      FrameLayout(record);
      err := BufferWrite(EncodeU64BE(|record|), fault);
      if err.Some? {
        assert Stream() == s0 + Accepted(Frame(record), fault, old(writeErr)) by {
          if !old(writeErr) {
            FramePrefix(record, fault.accepted);
          }
        }
        return;
      }
      err := BufferWrite(record, Remaining(fault, HeaderSize));
      assert Stream() == s0 + Accepted(Frame(record), fault, old(writeErr)) by {
        if err.Some? {
          FramePrefix(record, fault.accepted);
          assert (s0 + header) + record[..fault.accepted - HeaderSize] == s0 + (header + record[..fault.accepted - HeaderSize]);
        } else {
          assert (s0 + header) + record == s0 + (header + record);
        }
      }
    }

    /**
     * Appends the frame of record at the logical end and returns its size
     * and position. A failure returns (0, 0) and leaves size and records
     * as they were; the stream may then hold the part of the frame the
     * writer accepted.
     */
    method Append(record: seq<byte>, fault: Fault) returns (w: nat, pos: nat, err: Option<IoError>)
      requires Valid() && !closed
      requires size + HeaderSize + |record| < Int64Limit
      modifies this`buf, this`writeErr, this`size, this`records
      ensures Valid()
      ensures err.None? <==> !old(writeErr) && Completes(fault, HeaderSize + |record|)
      ensures err.None? ==>
        && w == HeaderSize + |record|
        && pos == old(size)
        && size == old(size) + w
        && records == old(records) + [record]
        && pos == Base() + Offset(records, |records| - 1)
        && Stream() == old(Stream()) + Frame(record)
        && !writeErr
      ensures err.Some? ==>
        && w == 0 && pos == 0
        && size == old(size) && records == old(records)
        && writeErr
        && Stream() == old(Stream()) + Accepted(Frame(record), fault, old(writeErr))
    {
      ghost var s0 := Stream();
      pos := size;
      err := WriteFrame(record, fault);
      if err.Some? {
        PrefixGrows(Known(), s0, Accepted(Frame(record), fault, old(writeErr)));
        return 0, 0, err;
      }
      AppendKnown(prefix, records, record);
      w := HeaderSize + |record|;
      size := size + w;
      records := records + [record];
    }

    /**
     * Flushes the writer, then reads the 8-byte header at pos and the
     * payload it announces. The result is what the frame at pos decodes to
     * in the flushed file; at the position of any appended record it is
     * that record.
     */
    method Read(pos: nat, fault: Fault) returns (r: Result<seq<byte>>)
      requires Valid() && !closed && pos < U64Limit
      modifies this`file, this`buf, this`writeErr
      ensures Valid() && Stream() == old(Stream())
      ensures writeErr == !old(FlushOk(fault))
      ensures old(FlushOk(fault)) ==> file == old(Stream()) && buf == []
      ensures !old(FlushOk(fault)) ==> r == Err(WriteFailed)
      ensures old(FlushOk(fault)) ==> |old(Stream())| < Int64Limit && r == RecordAt(old(Stream()), pos)
      ensures old(FlushOk(fault)) ==>
        forall i {:trigger Offset(records, i)} :: 0 <= i < |records| && pos == Base() + Offset(records, i) ==> r == Ok(records[i])
    {
      var e := Flush(fault);
      if e.Some? {
        return Err(e.value);
      }
      KnownRecords(prefix, records, pos);
      TwoReadsDecode(file, pos);
      var header := PRead(file, HeaderSize, ToInt64(pos));
      if header.err.Some? {
        return Err(header.err.value);
      }
      var payload := PRead(file, DecodeU64BE(header.data), ToInt64((pos + HeaderSize) % U64Limit));
      if payload.err.Some? {
        return Err(payload.err.value);
      }
      r := Ok(payload.data);
    }

    /**
     * Flushes the writer, then reads b.Length bytes of the file at off into
     * b, exactly as a positional read of the flushed file would.
     */
    method ReadAt(b: array<byte>, off: int, fault: Fault) returns (n: nat, err: Option<IoError>)
      requires Valid() && !closed && -(Int64Limit as int) <= off < Int64Limit
      modifies this`file, this`buf, this`writeErr, b
      ensures Valid() && Stream() == old(Stream())
      ensures writeErr == !old(FlushOk(fault))
      ensures old(FlushOk(fault)) ==> file == old(Stream()) && buf == []
      ensures !old(FlushOk(fault)) ==> n == 0 && err == Some(WriteFailed) && b[..] == old(b[..])
      ensures old(FlushOk(fault)) ==>
        var got := PRead(old(Stream()), b.Length, off);
        && n == |got.data| && err == got.err
        && b[..n] == got.data && b[n..] == old(b[..])[n..]
    {
      var e := Flush(fault);
      if e.Some? {
        return 0, e;
      }
      var got := PRead(file, b.Length, off);
      forall k | 0 <= k < |got.data| {
        b[k] := got.data[k];
      }
      n, err := |got.data|, got.err;
    }

    /**
     * Flushes the writer and closes the file. If the flush fails the file
     * stays open; once it succeeds the file is closed, whether or not
     * closing it reports an error.
     */
    method Close(fault: Fault, closeFails: bool) returns (err: Option<IoError>)
      requires Valid() && !closed
      modifies this`file, this`buf, this`writeErr, this`closed
      ensures Valid() && Stream() == old(Stream())
      ensures !old(FlushOk(fault)) ==> err == Some(WriteFailed) && !closed
      ensures old(FlushOk(fault)) ==> closed && file == old(Stream()) && buf == [] && (err.None? <==> !closeFails)
    {
      var e := Flush(fault);
      if e.Some? {
        return e;
      }
      closed := true;
      err := if closeFails then Some(CloseFailed) else None;
    }
  }

  /**
   * newStore: stats the file and starts the logical end at its current
   * length, so appends continue right after what the file already holds.
   * `prior` names records known to end the file; it is bookkeeping only.
   */
  method NewStore(contents: seq<byte>, statFails: bool, ghost prior: seq<seq<byte>>)
    returns (s: Store?, err: Option<IoError>)
    requires |contents| < Int64Limit
    requires FramedSuffix(contents, prior)
    ensures statFails ==> s == null && err == Some(StatFailed)
    ensures !statFails ==>
      && err.None? && s != null && fresh(s)
      && s.Valid() && !s.closed && !s.writeErr
      && s.file == contents && s.buf == [] && s.size == |contents|
      && s.records == prior && s.Base() == |contents| - |Frames(prior)|
  {
    if statFails {
      return null, Some(StatFailed);
    }
    s := new Store(contents, prior);
    err := None;
  }
}
