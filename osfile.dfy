/**
 * The backing file as seen by the store: its contents are a byte sequence
 * and a positional read (os.File.ReadAt) is a function of that sequence.
 */
module OsFile {
  import opened Errors
  import opened Framing

  /** The bytes a positional read delivered, and the error it reported. */
  datatype ReadOutcome = ReadOutcome(data: seq<byte>, err: Option<IoError>)

  function Min(a: nat, b: nat): nat {
    if a <= b then a else b
  }

  /**
   * os.File.ReadAt of n bytes at offset off of a file holding s: a negative
   * offset is refused, an empty read always succeeds, and otherwise as many
   * bytes as the file holds from off are delivered, with io.EOF when that is
   * fewer than n.
   */
  function PRead(s: seq<byte>, n: nat, off: int): (r: ReadOutcome)
    ensures |r.data| <= n
    ensures r.err.None? <==> 0 <= off && (n == 0 || off + n <= |s|)
    ensures r.err.None? ==> |r.data| == n
    ensures off < 0 ==> r.err == Some(NegativeOffset) && r.data == []
    ensures 0 <= off && r.err.Some? ==> r.err == Some(ReadPastEnd)
    ensures 0 <= off <= |s| ==> r.data == s[off..off + Min(n, |s| - off)]
    ensures |s| < off ==> r.data == []
  {
    if off < 0 then ReadOutcome([], Some(NegativeOffset))
    else if n == 0 then ReadOutcome([], None)
    else if off >= |s| then ReadOutcome([], Some(ReadPastEnd))
    else if off + n <= |s| then ReadOutcome(s[off..off + n], None)
    else ReadOutcome(s[off..], Some(ReadPastEnd))
  }

  /** int64(x) for a uint64 x: two's complement reinterpretation. */
  function ToInt64(x: nat): (r: int)
    requires x < U64Limit
    ensures -(Int64Limit as int) <= r < Int64Limit
    ensures r >= 0 <==> x < Int64Limit
    ensures r >= 0 ==> r == x
  {
    if x < Int64Limit then x else x - U64Limit
  }
}
