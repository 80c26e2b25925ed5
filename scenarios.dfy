/**
 * Uses of the record store that combine its operations: the read-back of
 * an append, consecutive positions, the worked example of two records,
 * and closing and reopening a file.
 */
module Scenarios {
  import opened Errors
  import opened Framing
  import opened Log

  /**
   * An append followed by a read at the returned position gives the record
   * back, even though nothing was flushed in between; the only way the read
   * can fail is that the flush it starts with fails.
   */
  method AppendThenRead(s: Store, record: seq<byte>, appendFault: Fault, readFault: Fault)
    returns (w: nat, pos: nat, err: Option<IoError>, got: Result<seq<byte>>)
    requires s.Valid() && !s.closed
    requires s.size + HeaderSize + |record| < Int64Limit
    modifies s
    ensures s.Valid() && s.size == old(s.size) + w
    ensures err.None? ==> got == Ok(record) || got == Err(WriteFailed)
    ensures err.None? && readFault.Healthy? ==> got == Ok(record)
  {
    w, pos, err := s.Append(record, appendFault);
    if err.Some? {
      got := Err(err.value);
      return;
    }
    got := s.Read(pos, readFault);
  }

  /** Each successful append starts where the previous one ended. */
  method ConsecutiveAppends(s: Store, first: seq<byte>, second: seq<byte>, fault1: Fault, fault2: Fault)
    returns (w1: nat, pos1: nat, w2: nat, pos2: nat, err: Option<IoError>)
    requires s.Valid() && !s.closed
    requires s.size + 2 * HeaderSize + |first| + |second| < Int64Limit
    modifies s
    ensures s.Valid()
    ensures err.None? ==> pos1 == old(s.size) && pos2 == pos1 + w1 && s.size == pos2 + w2
    ensures err.None? ==> s.Stream() == old(s.Stream()) + Frame(first) + Frame(second)
  {
    w1, pos1, err := s.Append(first, fault1);
    w2, pos2 := 0, 0;
    if err.Some? {
      return;
    }
    w2, pos2, err := s.Append(second, fault2);
  }

  /** The frames of "hello" and "!", byte by byte. */
  lemma HelloWire(hello: seq<byte>, bang: seq<byte>)
    requires hello == [104, 101, 108, 108, 111] && bang == [33]
    ensures Frame(hello) + Frame(bang) == [0, 0, 0, 0, 0, 0, 0, 5, 104, 101, 108, 108, 111, 0, 0, 0, 0, 0, 0, 0, 1, 33]
  {
    SmallHeader(5);
    SmallHeader(1);
    assert Frame(hello) == [0, 0, 0, 0, 0, 0, 0, 5] + hello;
    assert Frame(bang) == [0, 0, 0, 0, 0, 0, 0, 1] + bang;
  }

  /**
   * On an empty store, two appends return (8 + |first|, 0) and
   * (8 + |second|, 8 + |first|), and the stream is then exactly the two
   * frames, with the two records known at those positions.
   */
  method TwoAppends(s: Store, first: seq<byte>, second: seq<byte>)
    returns (w1: nat, pos1: nat, w2: nat, pos2: nat)
    requires s.Valid() && !s.closed && !s.writeErr && s.size == 0
    requires 2 * HeaderSize + |first| + |second| < Int64Limit
    modifies s
    ensures s.Valid() && !s.closed && !s.writeErr
    ensures w1 == HeaderSize + |first| && pos1 == 0
    ensures w2 == HeaderSize + |second| && pos2 == w1
    ensures s.Stream() == Frame(first) + Frame(second)
    ensures |s.records| == 2 && s.records[0] == first && s.records[1] == second
    ensures pos1 == s.Base() + Offset(s.records, 0) && pos2 == s.Base() + Offset(s.records, 1)
  {
    assert s.records == [] && s.Stream() == [];
    var err;
    w1, pos1, err := s.Append(first, Healthy);
    assert s.Stream() == Frame(first);
    w2, pos2, err := s.Append(second, Healthy);
    OffsetStep(s.records, 0);
  }

  /** Then reads at the two positions give the records back. */
  method TwoRecords(s: Store, first: seq<byte>, second: seq<byte>)
    returns (w1: nat, pos1: nat, w2: nat, pos2: nat, got1: Result<seq<byte>>, got2: Result<seq<byte>>)
    requires s.Valid() && !s.closed && !s.writeErr && s.size == 0
    requires 2 * HeaderSize + |first| + |second| < Int64Limit
    modifies s
    ensures w1 == HeaderSize + |first| && pos1 == 0
    ensures w2 == HeaderSize + |second| && pos2 == w1
    ensures s.Stream() == Frame(first) + Frame(second)
    ensures got1 == Ok(first) && got2 == Ok(second)
  {
    w1, pos1, w2, pos2 := TwoAppends(s, first, second);
    got1 := s.Read(pos1, Healthy);
    got2 := s.Read(pos2, Healthy);
  }

  /**
   * On an empty store, appending "hello" and then "!" returns (13, 0) and
   * (9, 13); the stream then holds the 22 bytes HelloWire spells out, and
   * reading at 0 and 13 gives "hello" and "!" back.
   */
  method HelloScenario(s: Store) returns (w1: nat, pos1: nat, w2: nat, pos2: nat, got1: Result<seq<byte>>, got2: Result<seq<byte>>)
    requires s.Valid() && !s.closed && !s.writeErr && s.size == 0
    modifies s
    ensures w1 == 13 && pos1 == 0 && w2 == 9 && pos2 == 13
    ensures s.Stream() == [0, 0, 0, 0, 0, 0, 0, 5, 104, 101, 108, 108, 111, 0, 0, 0, 0, 0, 0, 0, 1, 33]
    ensures got1 == Ok([104, 101, 108, 108, 111]) && got2 == Ok([33])
  {
    var hello: seq<byte> := [104, 101, 108, 108, 111];
    var bang: seq<byte> := [33];
    w1, pos1, w2, pos2, got1, got2 := TwoRecords(s, hello, bang);
    HelloWire(hello, bang);
  }

  /**
   * Closing a store and opening its file again continues at the same
   * logical end, with the same records at the same positions, so a later
   * append lands right after the last record.
   */
  method CloseAndReopen(s: Store, fault: Fault, closeFails: bool, statFails: bool)
    returns (t: Store?, err: Option<IoError>)
    requires s.Valid() && !s.closed
    modifies s
    ensures err.None? ==>
      && t != null && t.Valid() && !t.closed
      && t.size == old(s.size) && t.records == old(s.records) && t.Base() == old(s.Base())
      && t.Stream() == old(s.Stream())
  {
    t := null;
    err := s.Close(fault, closeFails);
    if err.Some? {
      return;
    }
    ReopenFramed(s.prefix, s.records);
    t, err := NewStore(s.file, statFails, s.records);
  }
}
