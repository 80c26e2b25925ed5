/**
 * The on-disk format of the record store: every record is written as an
 * 8-byte big-endian unsigned length N followed by the N payload bytes, and
 * frames are packed back to back with no padding.
 */
module Framing {
  import opened Errors

  newtype byte = x: int | 0 <= x < 256

  /** Width of the length header (headerSizeBytes). */
  const HeaderSize: nat := 8
  /** 2^64: every header value is a uint64. */
  const U64Limit: nat := 0x1_0000_0000_0000_0000
  /** 2^63: offsets and file lengths are int64 values in the source. */
  const Int64Limit: nat := 0x8000_0000_0000_0000

  function Pow256(k: nat): (r: nat)
    ensures r > 0
  {
    if k == 0 then 1 else 256 * Pow256(k - 1)
  }

  lemma Pow256Header()
    ensures Pow256(HeaderSize) == U64Limit
  {
  }

  /** The k-byte big-endian encoding of n: most significant byte first. */
  function EncodeBE(n: nat, k: nat): (r: seq<byte>)
    requires n < Pow256(k)
    ensures |r| == k
  {
    if k == 0 then [] else EncodeBE(n / 256, k - 1) + [(n % 256) as byte]
  }

  /** The number a big-endian byte string denotes. */
  function DecodeBE(s: seq<byte>): (n: nat)
    ensures n < Pow256(|s|)
  {
    if s == [] then 0 else DecodeBE(s[..|s| - 1]) * 256 + s[|s| - 1] as nat
  }

  lemma {:induction false} DecodeEncodeBE(n: nat, k: nat)
    requires n < Pow256(k)
    ensures DecodeBE(EncodeBE(n, k)) == n
  {
    if k > 0 {
      var e := EncodeBE(n / 256, k - 1);
      assert EncodeBE(n, k)[..k - 1] == e;
      DecodeEncodeBE(n / 256, k - 1);
    }
  }

  lemma {:induction false} EncodeDecodeBE(s: seq<byte>)
    ensures EncodeBE(DecodeBE(s), |s|) == s
  {
    if s != [] {
      var init := s[..|s| - 1];
      var d := DecodeBE(s);
      assert d / 256 == DecodeBE(init) && d % 256 == s[|s| - 1] as nat;
      EncodeDecodeBE(init);
      assert s == init + [s[|s| - 1]];
    }
  }

  /** The quotient is the only q with n == q * d + r and 0 <= r < d. */
  lemma DivUnique(n: nat, d: nat, q: nat, r: nat)
    requires d > 0 && n == q * d + r && r < d
    ensures n / d == q
  {
    var q', r' := n / d, n % d;
    assert (q' - q) * d == r - r' by {
      assert n == q' * d + r';
    }
    if q' > q {
      MulAtLeast(q' - q, d);
    } else if q' < q {
      MulAtLeast(q - q', d);
    }
  }

  /** A multiple by at least 1 of a positive d is at least d. */
  lemma MulAtLeast(a: int, d: int)
    requires a >= 1 && d > 0
    ensures a * d >= d
  {
  }

  /** Dividing by 256 and then by b is dividing by 256 * b. */
  lemma DivDiv(n: nat, b: nat)
    requires b > 0
    ensures n / 256 / b == n / (256 * b)
  {
    var m := n / 256;
    var q := m / b;
    var r := (m % b) * 256 + n % 256;
    assert n == q * (256 * b) + r by {
      assert m == q * b + m % b;
      assert n == m * 256 + n % 256;
    }
    assert r < 256 * b by {
      assert m % b <= b - 1;
      assert (m % b) * 256 <= (b - 1) * 256;
    }
    DivUnique(n, 256 * b, q, r);
  }

  /** Byte i of the k-byte big-endian encoding of n is digit k - 1 - i of n in base 256: the most significant byte comes first. */
  lemma {:induction false} EncodeDigits(n: nat, k: nat)
    requires n < Pow256(k)
    ensures forall i :: 0 <= i < k ==> EncodeBE(n, k)[i] as nat == n / Pow256(k - 1 - i) % 256
  {
    if k > 0 {
      var e := EncodeBE(n / 256, k - 1);
      EncodeDigits(n / 256, k - 1);
      forall i | 0 <= i < k
        ensures EncodeBE(n, k)[i] as nat == n / Pow256(k - 1 - i) % 256
      {
        if i < k - 1 {
          assert EncodeBE(n, k)[i] == e[i];
          DivDiv(n, Pow256(k - 2 - i));
        }
      }
    }
  }

  /** enc.PutUint64: the header written before a record of length n. */
  function EncodeU64BE(n: nat): (r: seq<byte>)
    requires n < U64Limit
    ensures |r| == HeaderSize
  {
    Pow256Header();
    EncodeBE(n, HeaderSize)
  }

  /** enc.Uint64: the length a header announces. */
  function DecodeU64BE(s: seq<byte>): (n: nat)
    requires |s| == HeaderSize
    ensures n < U64Limit
  {
    Pow256Header();
    DecodeBE(s)
  }

  /** Byte order of a header: byte i of the header of n is digit 7 - i of n in base 256, most significant first. */
  lemma EncodeU64BEDigits(n: nat)
    requires n < U64Limit
    ensures forall i :: 0 <= i < HeaderSize ==> EncodeU64BE(n)[i] as nat == n / Pow256(HeaderSize - 1 - i) % 256
  {
    Pow256Header();
    EncodeDigits(n, HeaderSize);
  }

  /** Byte order of a header: the length 8 bytes announce has byte i as its digit 7 - i in base 256. */
  lemma DecodeU64BEDigits(s: seq<byte>)
    requires |s| == HeaderSize
    ensures forall i :: 0 <= i < HeaderSize ==> s[i] as nat == DecodeU64BE(s) / Pow256(HeaderSize - 1 - i) % 256
  {
    Pow256Header();
    EncodeDecodeBE(s);
    EncodeDigits(DecodeBE(s), HeaderSize);
  }

  /** The header of a length below 256 is seven zero bytes and then the length. */
  lemma SmallHeader(n: nat)
    requires n < 256
    ensures EncodeU64BE(n) == [0, 0, 0, 0, 0, 0, 0, n as byte]
  {
    var h := EncodeU64BE(n);
    EncodeU64BEDigits(n);
    forall i | 0 <= i < HeaderSize - 1
      ensures h[i] == 0
    {
      assert Pow256(HeaderSize - 1 - i) >= 256;
    }
  }

  /** Decoding a header gives back the encoded length, and every 8 bytes are the header of their value. */
  lemma U64RoundTrip(n: nat, s: seq<byte>)
    requires n < U64Limit && |s| == HeaderSize
    ensures DecodeU64BE(EncodeU64BE(n)) == n
    ensures EncodeU64BE(DecodeU64BE(s)) == s
  {
    Pow256Header();
    DecodeEncodeBE(n, HeaderSize);
    EncodeDecodeBE(s);
  }

  /** A record can be framed when its length fits the uint64 header. */
  predicate Framable(r: seq<byte>) {
    |r| < U64Limit
  }

  predicate AllFramable(rs: seq<seq<byte>>) {
    forall k :: 0 <= k < |rs| ==> Framable(rs[k])
  }

  /** One frame: the length header followed by the payload. */
  function Frame(r: seq<byte>): seq<byte>
    requires Framable(r)
  {
    EncodeU64BE(|r|) + r
  }

  /** A frame is header-plus-payload long, its header decodes to the payload length and the payload follows it. */
  lemma FrameLayout(r: seq<byte>)
    requires Framable(r)
    ensures |Frame(r)| == HeaderSize + |r|
    ensures DecodeU64BE(Frame(r)[..HeaderSize]) == |r|
    ensures Frame(r)[HeaderSize..] == r
  {
    U64RoundTrip(|r|, EncodeU64BE(|r|));
    assert Frame(r)[..HeaderSize] == EncodeU64BE(|r|);
  }

  /** The frames of rs, in order, packed back to back. */
  function Frames(rs: seq<seq<byte>>): seq<byte>
    requires AllFramable(rs)
  {
    if rs == [] then [] else Frames(rs[..|rs| - 1]) + Frame(rs[|rs| - 1])
  }

  /** The position of record i: the total size of the frames before it. */
  function Offset(rs: seq<seq<byte>>, i: nat): nat
    requires AllFramable(rs) && i <= |rs|
  {
    |Frames(rs[..i])|
  }

  /** The frames of a + b are the frames of a followed by the frames of b. */
  lemma {:induction false} FramesConcat(a: seq<seq<byte>>, b: seq<seq<byte>>)
    requires AllFramable(a) && AllFramable(b)
    ensures AllFramable(a + b)
    ensures Frames(a + b) == Frames(a) + Frames(b)
  {
    var ab := a + b;
    assert AllFramable(ab) by {
      forall k | 0 <= k < |ab|
        ensures Framable(ab[k])
      {
        if k < |a| {
          assert ab[k] == a[k];
        } else {
          assert ab[k] == b[k - |a|];
        }
      }
    }
    if b == [] {
      assert ab == a;
    } else {
      var b0, last := b[..|b| - 1], b[|b| - 1];
      assert AllFramable(b0) by {
        forall k | 0 <= k < |b0|
          ensures Framable(b0[k])
        {
          assert b0[k] == b[k];
        }
      }
      assert ab[..|ab| - 1] == a + b0 && ab[|ab| - 1] == last;
      FramesConcat(a, b0);
      calc {
        Frames(ab);
        Frames(a + b0) + Frame(last);
        (Frames(a) + Frames(b0)) + Frame(last);
        Frames(a) + (Frames(b0) + Frame(last));
        Frames(a) + Frames(b);
      }
    }
  }

  /** Positions advance by exactly the size of each frame, starting at 0. */
  lemma OffsetStep(rs: seq<seq<byte>>, i: nat)
    requires AllFramable(rs) && i < |rs|
    ensures Offset(rs, 0) == 0
    ensures Offset(rs, i + 1) == Offset(rs, i) + HeaderSize + |rs[i]|
    ensures Offset(rs, |rs|) == |Frames(rs)|
  {
    assert rs[..0] == [];
    assert rs[..i + 1][..i] == rs[..i];
    assert rs[..|rs|] == rs;
    FrameLayout(rs[i]);
  }

  /** The frames of the first i+1 records are those of the first i followed by frame i. */
  lemma FramesSnoc(rs: seq<seq<byte>>, i: nat)
    requires AllFramable(rs) && i < |rs|
    ensures Frames(rs[..i + 1]) == Frames(rs[..i]) + Frame(rs[i])
  {
    assert rs[..i + 1][..i] == rs[..i];
  }

  /** Appending one record appends its frame, at the old end of the frames. */
  lemma FramesAppendOne(rs: seq<seq<byte>>, r: seq<byte>)
    requires AllFramable(rs) && Framable(r)
    ensures AllFramable(rs + [r])
    ensures Frames(rs + [r]) == Frames(rs) + Frame(r)
    ensures Offset(rs + [r], |rs|) == |Frames(rs)|
  {
    var rs' := rs + [r];
    assert forall k :: 0 <= k < |rs'| ==> rs'[k] == if k < |rs| then rs[k] else r;
    assert rs'[..|rs|] == rs;
    assert rs'[..|rs'|] == rs';
    FramesSnoc(rs', |rs|);
  }

  /** Frame i sits inside Frames(rs) starting at its offset. */
  lemma FrameAt(rs: seq<seq<byte>>, i: nat)
    requires AllFramable(rs) && i < |rs|
    ensures Offset(rs, i) + |Frame(rs[i])| <= |Frames(rs)|
    ensures Frames(rs)[Offset(rs, i) .. Offset(rs, i) + |Frame(rs[i])|] == Frame(rs[i])
  {
    assert rs == rs[..i + 1] + rs[i + 1..];
    FramesConcat(rs[..i + 1], rs[i + 1..]);
    FramesSnoc(rs, i);
  }

  /**
   * What reading the record at pos of stream s yields: the header at pos
   * gives the length N and the N bytes after the header are the record. A
   * header or payload that extends past the end of s is an error, never a
   * truncated record; pos at or above 2^63 is a negative int64 offset.
   */
  function RecordAt(s: seq<byte>, pos: nat): (r: Result<seq<byte>>)
    requires pos < U64Limit && |s| < Int64Limit
    ensures r.Ok? <==> pos + HeaderSize <= |s| && pos + HeaderSize + DecodeU64BE(s[pos..pos + HeaderSize]) <= |s|
    ensures r.Ok? ==> pos + HeaderSize + |r.value| <= |s| && s[pos..pos + HeaderSize + |r.value|] == Frame(r.value)
  {
    if pos >= Int64Limit then Err(NegativeOffset)
    else if pos + HeaderSize > |s| then Err(ReadPastEnd)
    else
      var header := s[pos..pos + HeaderSize];
      var n := DecodeU64BE(header);
      if pos + HeaderSize + n > |s| then Err(ReadPastEnd)
      else
        U64RoundTrip(n, header);
        assert s[pos..pos + HeaderSize + n] == header + s[pos + HeaderSize..pos + HeaderSize + n];
        Ok(s[pos + HeaderSize..pos + HeaderSize + n])
  }

  /** Round trip for one frame: RecordAt at the start of a frame of r gives r back. */
  lemma RecordAtFrame(s: seq<byte>, q: nat, r: seq<byte>)
    requires Framable(r)
    requires q + |Frame(r)| <= |s| < Int64Limit
    requires s[q..q + |Frame(r)|] == Frame(r)
    ensures RecordAt(s, q) == Ok(r)
  {
    var f := Frame(r);
    FrameLayout(r);
    assert s[q..q + HeaderSize] == f[..HeaderSize];
    assert s[q + HeaderSize..q + |f|] == f[HeaderSize..];
  }

  /** Round trip: at the offset of any record of a run of frames embedded in s, RecordAt gives that record back. */
  lemma RecordAtBoundary(s: seq<byte>, p: nat, rs: seq<seq<byte>>, i: nat)
    requires AllFramable(rs) && i < |rs|
    requires p + |Frames(rs)| <= |s| < Int64Limit
    requires s[p..p + |Frames(rs)|] == Frames(rs)
    ensures p + Offset(rs, i) < U64Limit
    ensures RecordAt(s, p + Offset(rs, i)) == Ok(rs[i])
  {
    var fs, o, f := Frames(rs), Offset(rs, i), Frame(rs[i]);
    FrameAt(rs, i);
    assert s[p + o..p + o + |f|] == f by {
      SliceOfSlice(s, p, p + |fs|, o, o + |f|);
    }
    RecordAtFrame(s, p + o, rs[i]);
  }

  lemma SliceOfSlice(s: seq<byte>, lo: nat, hi: nat, a: nat, b: nat)
    requires lo <= hi <= |s| && a <= b <= hi - lo
    ensures s[lo..hi][a..b] == s[lo + a..lo + b]
  {
    assert forall k :: 0 <= k < b - a ==> s[lo..hi][a..b][k] == s[lo + a + k];
  }

  /**
   * A front-to-back scan of s from pos: read the record there and continue
   * right after its frame, until the end of s.
   */
  function Scan(s: seq<byte>, pos: nat): Option<seq<seq<byte>>>
    requires pos <= |s| < Int64Limit
    decreases |s| - pos
  {
    if pos == |s| then Some([])
    else match RecordAt(s, pos)
      case Err(_) => None
      case Ok(r) =>
        FrameLayout(r);
        match Scan(s, pos + HeaderSize + |r|)
        case None => None
        case Some(rest) => Some([r] + rest)
  }

  /** One step of a scan: the record read at pos comes first, then the scan after its frame. */
  lemma ScanStep(s: seq<byte>, pos: nat, r: seq<byte>, next: nat)
    requires pos < |s| < Int64Limit
    requires RecordAt(s, pos) == Ok(r) && next == pos + HeaderSize + |r|
    ensures next <= |s|
    ensures Scan(s, pos).Some? <==> Scan(s, next).Some?
    ensures Scan(s, pos).Some? ==> Scan(s, pos).value == [r] + Scan(s, next).value
  {
  }

  /** Scanning a run of frames gives back exactly the records they were made from. */
  lemma {:induction false} ScanFrames(s: seq<byte>, pos: nat, rs: seq<seq<byte>>)
    requires AllFramable(rs)
    requires pos <= |s| < Int64Limit
    requires s[pos..] == Frames(rs)
    ensures Scan(s, pos) == Some(rs)
    decreases |rs|
  {
    if rs != [] {
      var r0, tail := rs[0], rs[1..];
      FramesCons(rs);
      FrameLayout(r0);
      var f := Frame(r0);
      var next := pos + |f|;
      SplitSuffix(s, pos, f, Frames(tail));
      ScanFrames(s, next, tail);
      RecordAtFrame(s, pos, r0);
      ScanStep(s, pos, r0, next);
      assert rs == [r0] + tail;
    }
  }

  /** When the suffix of s from pos is a + b, a sits at pos and b is the suffix after it. */
  lemma SplitSuffix(s: seq<byte>, pos: nat, a: seq<byte>, b: seq<byte>)
    requires pos <= |s| && s[pos..] == a + b
    ensures pos + |a| <= |s|
    ensures s[pos..pos + |a|] == a
    ensures s[pos + |a|..] == b
  {
    assert s[pos..pos + |a|] == s[pos..][..|a|];
    assert s[pos + |a|..] == s[pos..][|a|..];
  }

  /** The frames of a non-empty run are the first frame followed by the frames of the rest. */
  lemma FramesCons(rs: seq<seq<byte>>)
    requires AllFramable(rs) && rs != []
    ensures AllFramable(rs[1..])
    ensures Frames(rs) == Frame(rs[0]) + Frames(rs[1..])
  {
    var r0, tail := rs[0], rs[1..];
    assert AllFramable([r0]) && AllFramable(tail);
    FramesConcat([r0], tail);
    assert rs == [r0] + tail;
    assert Frames([r0]) == Frame(r0) by {
      assert [r0][..0] == [];
    }
  }

  /** A stream that scans successfully is exactly the frames of what the scan returned. */
  lemma {:induction false} ScanExact(s: seq<byte>, pos: nat)
    requires pos <= |s| < Int64Limit
    requires Scan(s, pos).Some?
    ensures AllFramable(Scan(s, pos).value)
    ensures s[pos..] == Frames(Scan(s, pos).value)
    decreases |s| - pos
  {
    if pos < |s| {
      assert RecordAt(s, pos).Ok?;
      var r := RecordAt(s, pos).value;
      var next := pos + HeaderSize + |r|;
      ScanStep(s, pos, r, next);
      ScanExact(s, next);
      var rest := Scan(s, next).value;
      FrameLayout(r);
      FramesCons([r] + rest);
      assert ([r] + rest)[1..] == rest;
      assert s[pos..] == s[pos..next] + s[next..];
    }
  }
}
