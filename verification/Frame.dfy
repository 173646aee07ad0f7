/** Record framing of the disk buffer: how one record is laid out in a segment
    file, how it is read back, and where a torn segment is cut on recovery.

    The checksum is a parameter: every result holds for any function from
    payloads to 32-bit words, CRC-32 among them. */
module Frame {

  type byte = x: int | 0 <= x < 256
  type uint32 = x: int | 0 <= x < 0x1_0000_0000
  type int64 = x: int | -0x8000_0000_0000_0000 <= x < 0x8000_0000_0000_0000
  type Checksum = seq<byte> -> uint32

  const MAGIC: uint32 := 0x54524a31
  const HEADER_BYTES: nat := 20
  const MAX_RECORD_BYTES: nat := 512 * 1024 * 1024

  // ---------- fixed-width big-endian integers ----------

  /** The low 32 bits of n, most significant byte first. */
  function Put32(n: nat): (s: seq<byte>)
    ensures |s| == 4
  {
    [n / 0x100_0000 % 256, n / 0x1_0000 % 256, n / 0x100 % 256, n % 256]
  }

  function Get32(s: seq<byte>): (n: uint32)
    requires |s| == 4
  {
    var a: int, b: int, c: int, d: int := s[0], s[1], s[2], s[3];
    a * 0x100_0000 + b * 0x1_0000 + c * 0x100 + d
  }

  lemma Get32Put32(n: nat)
    ensures Get32(Put32(n)) == n % 0x1_0000_0000
  {
    var b, c, d := n / 0x100, n / 0x1_0000, n / 0x100_0000;
    Digit(n);
    Digit(b);
    Digit(c);
    Digit(d);
    assert b / 0x100 == c && c / 0x100 == d;
    var x := d % 256 * 0x100_0000 + c % 256 * 0x1_0000 + b % 256 * 0x100 + n % 256;
    assert n == d / 256 * 0x1_0000_0000 + x && 0 <= x < 0x1_0000_0000;
    Remainder(n, d / 256, x);
  }

  lemma Digit(n: nat)
    ensures n == n / 256 * 256 + n % 256 && 0 <= n % 256 < 256
  {
  }

  lemma Remainder(n: nat, q: nat, x: nat)
    requires n == q * 0x1_0000_0000 + x && x < 0x1_0000_0000
    ensures n % 0x1_0000_0000 == x
  {
  }

  function Unsigned(t: int64): (u: nat)
    ensures u < 0x1_0000_0000_0000_0000
  {
    if t < 0 then t + 0x1_0000_0000_0000_0000 else t
  }

  /** uint64(micros): two's complement, big endian. */
  function Put64(t: int64): (s: seq<byte>)
    ensures |s| == 8
  {
    var u := Unsigned(t);
    Put32(u / 0x1_0000_0000) + Put32(u % 0x1_0000_0000)
  }

  function Get64(s: seq<byte>): (t: int64)
    requires |s| == 8
  {
    var u := Get32(s[..4]) * 0x1_0000_0000 + Get32(s[4..]);
    if u >= 0x8000_0000_0000_0000 then u - 0x1_0000_0000_0000_0000 else u
  }

  lemma Get64Put64(t: int64)
    ensures Get64(Put64(t)) == t
  {
    var u := Unsigned(t);
    var hi, lo := Join(u);
    Get32Put32(hi);
    Get32Put32(lo);
    hide Put32, Get32;
    Halves(Put32(hi), Put32(lo));
  }

  lemma Join(u: nat) returns (hi: nat, lo: nat)
    requires u < 0x1_0000_0000_0000_0000
    ensures hi == u / 0x1_0000_0000 && lo == u % 0x1_0000_0000
    ensures hi < 0x1_0000_0000 && lo < 0x1_0000_0000 && u == hi * 0x1_0000_0000 + lo
    ensures hi % 0x1_0000_0000 == hi && lo % 0x1_0000_0000 == lo
  {
    hi, lo := u / 0x1_0000_0000, u % 0x1_0000_0000;
  }

  lemma Halves(a: seq<byte>, b: seq<byte>)
    requires |a| == 4 && |b| == 4
    ensures (a + b)[..4] == a && (a + b)[4..] == b
  {
  }

  // ---------- one frame ----------

  /** magic | length | checksum | micros | payload. Nothing here limits the payload's length. */
  function Encode(crc: Checksum, payload: seq<byte>, at: int64): (s: seq<byte>)
    ensures |s| == HEADER_BYTES + |payload|
  {
    Put32(MAGIC) + Put32(|payload|) + Put32(crc(payload)) + Put64(at) + payload
  }

  datatype Decoded =
    | Rec(payload: seq<byte>, at: int64, endOff: nat)
    | UnexpectedEOF
    | Corrupt

  /** Reads one record at an offset. */
  function Decode(crc: Checksum, data: seq<byte>, off: nat): (d: Decoded)
    ensures d.Rec? ==> off + HEADER_BYTES <= d.endOff <= |data|
                       && d.endOff == off + HEADER_BYTES + |d.payload|
  {
    if |data| < off + HEADER_BYTES then UnexpectedEOF
    else if Get32(data[off..off + 4]) != MAGIC then Corrupt
    else
      var length := Get32(data[off + 4..off + 8]);
      if length > MAX_RECORD_BYTES then Corrupt
      else if |data| < off + HEADER_BYTES + length then UnexpectedEOF
      else
        var payload := data[off + HEADER_BYTES..off + HEADER_BYTES + length];
        if crc(payload) != Get32(data[off + 8..off + 12]) then Corrupt
        else Rec(payload, Get64(data[off + 12..off + 20]), off + HEADER_BYTES + length)
  }

  /** A record that fits in a shorter or longer file reads the same there: decoding looks at
      no byte past the record's end. */
  lemma DecodeLocal(crc: Checksum, data: seq<byte>, data': seq<byte>, off: nat)
    requires Decode(crc, data, off).Rec?
    requires var e := Decode(crc, data, off).endOff; e <= |data'| && data'[..e] == data[..e]
    ensures Decode(crc, data', off) == Decode(crc, data, off)
  {
    var e := Decode(crc, data, off).endOff;
    SamePart(data, data', e, off, off + 4);
    SamePart(data, data', e, off + 4, off + 8);
    SamePart(data, data', e, off + 8, off + 12);
    SamePart(data, data', e, off + 12, off + 20);
    SamePart(data, data', e, off + HEADER_BYTES, e);
  }

  lemma SamePart(a: seq<byte>, b: seq<byte>, e: nat, i: nat, j: nat)
    requires i <= j <= e <= |a| && e <= |b| && a[..e] == b[..e]
    ensures a[i..j] == b[i..j]
  {
    assert a[i..j] == a[..e][i..j] && b[i..j] == b[..e][i..j];
  }

  /** A file cut inside a record reports end of file there, never a record. */
  lemma DecodeTorn(crc: Checksum, data: seq<byte>, k: nat, off: nat)
    requires Decode(crc, data, off).Rec?
    requires off <= k < Decode(crc, data, off).endOff
    ensures Decode(crc, data[..k], off) == UnexpectedEOF
  {
    if off + HEADER_BYTES <= k {
      assert data[..k][off..off + 4] == data[off..off + 4];
      assert data[..k][off + 4..off + 8] == data[off + 4..off + 8];
    }
  }

  /** Framing, seen from anywhere in a file: the four header fields and the payload come back. */
  lemma EncodedFields(crc: Checksum, pre: seq<byte>, payload: seq<byte>, at: int64, post: seq<byte>)
    ensures var data := pre + Encode(crc, payload, at) + post; var off := |pre|;
            && |data| == off + HEADER_BYTES + |payload| + |post|
            && Get32(data[off..off + 4]) == MAGIC
            && Get32(data[off + 4..off + 8]) == |payload| % 0x1_0000_0000
            && Get32(data[off + 8..off + 12]) == crc(payload)
            && Get64(data[off + 12..off + 20]) == at
            && data[off + HEADER_BYTES..off + HEADER_BYTES + |payload|] == payload
  {
    hide Put32, Get32, Put64, Get64;
    var f := Encode(crc, payload, at);
    Sliced(pre, f, post, 0, 4);
    Sliced(pre, f, post, 4, 8);
    Sliced(pre, f, post, 8, 12);
    Sliced(pre, f, post, 12, 20);
    Sliced(pre, f, post, 20, 20 + |payload|);
    assert f[0..4] == Put32(MAGIC) && f[4..8] == Put32(|payload|) && f[8..12] == Put32(crc(payload));
    assert f[12..20] == Put64(at) && f[20..20 + |payload|] == payload;
    Get32Put32(MAGIC);
    Get32Put32(|payload|);
    Get32Put32(crc(payload));
    Get64Put64(at);
  }

  lemma Sliced(pre: seq<byte>, f: seq<byte>, post: seq<byte>, i: nat, j: nat)
    requires i <= j <= |f|
    ensures (pre + f + post)[|pre| + i..|pre| + j] == f[i..j]
  {
  }

  /** Round trip, and exactly when it holds: Append writes any payload, but only one of at
      most MAX_RECORD_BYTES can be read back. */
  lemma DecodeEncode(crc: Checksum, pre: seq<byte>, payload: seq<byte>, at: int64, post: seq<byte>)
    ensures Decode(crc, pre + Encode(crc, payload, at) + post, |pre|)
            == Rec(payload, at, |pre| + HEADER_BYTES + |payload|)
            <==> |payload| <= MAX_RECORD_BYTES
  {
    hide Encode, Get32, Get64;
    EncodedFields(crc, pre, payload, at, post);
  }

  // ---------- a segment's records ----------

  /** The records a reader gets from off on, up to the first unreadable one. */
  function Parse(crc: Checksum, data: seq<byte>, off: nat): (rs: seq<Decoded>)
    ensures forall r | r in rs :: r.Rec? && off < r.endOff <= |data|
    decreases |data| - off
  {
    var d := Decode(crc, data, off);
    if d.Rec? then [d] + Parse(crc, data, d.endOff) else []
  }

  /** Where the scan from off stops. */
  function ScanEnd(crc: Checksum, data: seq<byte>, off: nat): (n: nat)
    requires off <= |data|
    ensures off <= n <= |data|
    decreases |data| - off
  {
    var d := Decode(crc, data, off);
    if d.Rec? then ScanEnd(crc, data, d.endOff) else off
  }

  /** Every byte from off on belongs to a readable record. */
  predicate Whole(crc: Checksum, data: seq<byte>, off: nat)
  {
    off <= |data| && ScanEnd(crc, data, off) == |data|
  }

  /** off is a record boundary of the file, seen from boundary `from`. */
  predicate Boundary(crc: Checksum, data: seq<byte>, from: nat, off: nat)
    decreases |data| - from
  {
    from == off || (Decode(crc, data, from).Rec? && Boundary(crc, data, Decode(crc, data, from).endOff, off))
  }

  lemma {:induction false} BoundaryInRange(crc: Checksum, data: seq<byte>, from: nat, off: nat)
    requires Boundary(crc, data, from, off) && from <= |data|
    ensures from <= off <= |data|
    decreases |data| - from
  {
    if from != off { BoundaryInRange(crc, data, Decode(crc, data, from).endOff, off); }
  }

  /** Reading from a boundary skips exactly the records that end at or before it. */
  lemma {:induction false} ParseSplit(crc: Checksum, data: seq<byte>, from: nat, off: nat) returns (pre: seq<Decoded>)
    requires Boundary(crc, data, from, off) && from <= |data|
    ensures Parse(crc, data, from) == pre + Parse(crc, data, off)
    ensures forall r | r in pre :: r.endOff <= off
    decreases |data| - from
  {
    if from == off {
      pre := [];
    } else {
      var d := Decode(crc, data, from);
      var rest := ParseSplit(crc, data, d.endOff, off);
      BoundaryInRange(crc, data, d.endOff, off);
      pre := [d] + rest;
      Assoc(d, rest, Parse(crc, data, off));
    }
  }

  lemma Assoc(d: Decoded, a: seq<Decoded>, b: seq<Decoded>)
    ensures [d] + (a + b) == ([d] + a) + b
  {
  }

  lemma {:induction false} WholeFromBoundary(crc: Checksum, data: seq<byte>, from: nat, off: nat)
    requires Boundary(crc, data, from, off) && Whole(crc, data, from)
    ensures Whole(crc, data, off)
    decreases |data| - from
  {
    if from != off { WholeFromBoundary(crc, data, Decode(crc, data, from).endOff, off); }
  }

  /** A parsed record ends at a boundary. */
  lemma {:induction false} ParsedEndIsBoundary(crc: Checksum, data: seq<byte>, from: nat, r: Decoded)
    requires r in Parse(crc, data, from)
    ensures Boundary(crc, data, from, r.endOff)
    decreases |data| - from
  {
    var d := Decode(crc, data, from);
    if r != d { ParsedEndIsBoundary(crc, data, d.endOff, r); }
  }

  lemma {:induction false} ScanEndIsBoundary(crc: Checksum, data: seq<byte>, from: nat)
    requires from <= |data|
    ensures Boundary(crc, data, from, ScanEnd(crc, data, from))
    decreases |data| - from
  {
    var d := Decode(crc, data, from);
    if d.Rec? { ScanEndIsBoundary(crc, data, d.endOff); }
  }

  /** Reading a longer file first returns what the whole file before it held. */
  lemma {:induction false} ParseExtend(crc: Checksum, data: seq<byte>, from: nat, more: seq<byte>)
    requires Whole(crc, data, from)
    ensures var data' := data + more;
            && Parse(crc, data', from) == Parse(crc, data, from) + Parse(crc, data', |data|)
            && (Whole(crc, data', |data|) ==> Whole(crc, data', from))
    decreases |data| - from
  {
    var data' := data + more;
    var d := Decode(crc, data, from);
    if d.Rec? {
      assert data'[..d.endOff] == data[..d.endOff];
      DecodeLocal(crc, data, data', from);
      ParseExtend(crc, data, d.endOff, more);
      Assoc(d, Parse(crc, data, d.endOff), Parse(crc, data', |data|));
    }
  }

  /** Appending a frame to a whole file appends exactly that record to what a reader gets,
      whichever boundary it starts from - if and only if the record is not too long to read. */
  lemma {:induction false} ParseAppend(crc: Checksum, data: seq<byte>, from: nat, payload: seq<byte>, at: int64)
    requires Whole(crc, data, from)
    ensures var data' := data + Encode(crc, payload, at);
            && (Parse(crc, data', from) == Parse(crc, data, from) + [Rec(payload, at, |data'|)]
                <==> |payload| <= MAX_RECORD_BYTES)
            && (|payload| <= MAX_RECORD_BYTES ==> Whole(crc, data', from))
  {
    var f := Encode(crc, payload, at);
    assert |f| == HEADER_BYTES + |payload|;
    hide Encode, Decode;
    var data' := data + f;
    DecodeEncode(crc, data, payload, at, []);
    assert data + f + [] == data';
    ParseExtend(crc, data, from, f);
    DecodeAtEnd(crc, data');
    var rec := Rec(payload, at, |data'|);
    var head, tail := Parse(crc, data, from), Parse(crc, data', |data|);
    assert Parse(crc, data', |data'|) == [];
    assert tail != [] ==> tail[0] == Decode(crc, data', |data|);
    assert tail == [rec] <==> |payload| <= MAX_RECORD_BYTES;
    assert (head + tail)[|head|..] == tail && (head + [rec])[|head|..] == [rec];
  }

  lemma DecodeAtEnd(crc: Checksum, data: seq<byte>)
    ensures Decode(crc, data, |data|) == UnexpectedEOF
  {
  }

  /** A boundary of a file is a boundary of any longer file with those bytes. */
  lemma {:induction false} BoundaryExtend(crc: Checksum, data: seq<byte>, data': seq<byte>, from: nat, off: nat)
    requires Boundary(crc, data, from, off) && from <= |data| && data <= data'
    ensures Boundary(crc, data', from, off)
    decreases |data| - from
  {
    if from != off {
      var d := Decode(crc, data, from);
      assert data'[..d.endOff] == data[..d.endOff];
      DecodeLocal(crc, data, data', from);
      BoundaryExtend(crc, data, data', d.endOff, off);
    }
  }

  /** A boundary at or before a cut is still one in the cut file. */
  lemma {:induction false} BoundaryCut(crc: Checksum, data: seq<byte>, k: nat, from: nat, off: nat)
    requires Boundary(crc, data, from, off) && from <= off <= k <= |data|
    ensures Boundary(crc, data[..k], from, off)
    decreases |data| - from
  {
    if from != off {
      var d := Decode(crc, data, from);
      BoundaryInRange(crc, data, d.endOff, off);
      assert data[..k][..d.endOff] == data[..d.endOff];
      DecodeLocal(crc, data, data[..k], from);
      BoundaryCut(crc, data, k, d.endOff, off);
    }
  }

  lemma DecodeRange(crc: Checksum, data: seq<byte>, off: nat)
    ensures var d := Decode(crc, data, off); d.Rec? ==> off < d.endOff <= |data|
  {
  }

  lemma CutUnreadable(crc: Checksum, data: seq<byte>, k: nat, from: nat)
    requires k <= |data| && !Decode(crc, data, from).Rec?
    ensures !Decode(crc, data[..k], from).Rec?
  {
    hide Decode;
    DecodeRange(crc, data[..k], from);
    if Decode(crc, data[..k], from).Rec? {
      var e := Decode(crc, data[..k], from).endOff;
      assert data[..k][..e] == data[..e];
      DecodeLocal(crc, data[..k], data, from);
    }
  }

  /** Cutting a file anywhere keeps exactly the records that ended at or before the cut, and
      the scan of the cut file stops at the end of the last of them. */
  lemma {:induction false} ParseCut(crc: Checksum, data: seq<byte>, k: nat, from: nat)
    returns (kept: seq<Decoded>, torn: seq<Decoded>)
    requires from <= k <= |data|
    ensures Parse(crc, data, from) == kept + torn
    ensures Parse(crc, data[..k], from) == kept
    ensures forall r | r in kept :: r.endOff <= k
    ensures forall r | r in torn :: k < r.endOff
    ensures ScanEnd(crc, data[..k], from) == (if kept == [] then from else kept[|kept| - 1].endOff)
    ensures torn == [] && Whole(crc, data, from) ==> ScanEnd(crc, data[..k], from) == |data|
    decreases |data| - from
  {
    hide Decode;
    DecodeRange(crc, data, from);
    DecodeRange(crc, data[..k], from);
    var d := Decode(crc, data, from);
    if !d.Rec? {
      kept, torn := [], [];
      CutUnreadable(crc, data, k, from);
    } else if k < d.endOff {
      DecodeTorn(crc, data, k, from);
      kept, torn := [], Parse(crc, data, from);
    } else {
      assert data[..k][..d.endOff] == data[..d.endOff];
      DecodeLocal(crc, data, data[..k], from);
      var ks, ts := ParseCut(crc, data, k, d.endOff);
      kept, torn := [d] + ks, ts;
      assert Parse(crc, data, from) == [d] + (ks + ts);
    }
  }

  /** Truncating where the scan stops loses no readable record and leaves only readable ones. */
  lemma {:induction false} ParseTruncated(crc: Checksum, data: seq<byte>, from: nat, n: nat)
    requires from <= |data| && n == ScanEnd(crc, data, from)
    ensures Parse(crc, data[..n], from) == Parse(crc, data, from)
    ensures Whole(crc, data[..n], from)
    decreases |data| - from
  {
    var d := Decode(crc, data, from);
    if d.Rec? {
      ParseTruncated(crc, data, d.endOff, n);
      assert data[..n][..d.endOff] == data[..d.endOff];
      DecodeLocal(crc, data, data[..n], from);
    } else {
      assert data[..n] == data[..from];
    }
  }

  // ---------- what lies behind an unreadable record ----------

  lemma CorruptStays(crc: Checksum, data: seq<byte>, off: nat, more: seq<byte>)
    requires Decode(crc, data, off).Corrupt?
    ensures Decode(crc, data + more, off).Corrupt?
  {
    var all := data + more;
    assert all[off..off + 4] == data[off..off + 4];
    assert all[off + 4..off + 8] == data[off + 4..off + 8];
    assert all[off + 8..off + 12] == data[off + 8..off + 12];
    var length := Get32(data[off + 4..off + 8]);
    if off + HEADER_BYTES + length <= |data| {
      assert all[off + HEADER_BYTES..off + HEADER_BYTES + length]
          == data[off + HEADER_BYTES..off + HEADER_BYTES + length];
    }
  }

  /** Once the scan has stopped at a record that is not merely incomplete, nothing written
      behind it is ever read. */
  lemma {:induction false} CorruptHides(crc: Checksum, data: seq<byte>, from: nat, more: seq<byte>)
    requires from <= |data| && Decode(crc, data, ScanEnd(crc, data, from)).Corrupt?
    ensures Parse(crc, data + more, from) == Parse(crc, data, from)
    ensures ScanEnd(crc, data + more, from) == ScanEnd(crc, data, from)
    decreases |data| - from
  {
    hide Decode;
    DecodeRange(crc, data, from);
    DecodeRange(crc, data + more, from);
    var d := Decode(crc, data, from);
    if d.Rec? {
      assert (data + more)[..d.endOff] == data[..d.endOff];
      DecodeLocal(crc, data, data + more, from);
      CorruptHides(crc, data, d.endOff, more);
    } else {
      CorruptStays(crc, data, from, more);
    }
  }

  /** A payload whose length field exceeds the limit leaves the scan at its header. */
  lemma {:induction false} TooLongStops(crc: Checksum, data: seq<byte>, from: nat, payload: seq<byte>, at: int64)
    requires Whole(crc, data, from) && |payload| % 0x1_0000_0000 > MAX_RECORD_BYTES
    ensures var data' := data + Encode(crc, payload, at);
            ScanEnd(crc, data', from) == |data| && Decode(crc, data', |data|).Corrupt?
            && Parse(crc, data', from) == Parse(crc, data, from)
  {
    var f := Encode(crc, payload, at);
    assert Decode(crc, data + f, |data|).Corrupt? by {
      hide Encode;
      EncodedFields(crc, data, payload, at, []);
      assert data + f + [] == data + f;
    }
    hide Decode, Encode;
    StopsAt(crc, data, from, f);
  }

  lemma {:induction false} StopsAt(crc: Checksum, data: seq<byte>, from: nat, more: seq<byte>)
    requires Whole(crc, data, from) && !Decode(crc, data + more, |data|).Rec?
    ensures ScanEnd(crc, data + more, from) == |data| && Parse(crc, data + more, from) == Parse(crc, data, from)
    decreases |data| - from
  {
    hide Decode;
    DecodeRange(crc, data, from);
    DecodeRange(crc, data + more, from);
    if from < |data| {
      var d := Decode(crc, data, from);
      assert (data + more)[..d.endOff] == data[..d.endOff];
      DecodeLocal(crc, data, data + more, from);
      StopsAt(crc, data, d.endOff, more);
    } else {
      DecodeAtEnd(crc, data);
    }
  }

  // ---------- recovery of a torn segment ----------

  /** One segment file on disk. */
  class File {
    var data: seq<byte>

    constructor (bytes: seq<byte>)
      ensures data == bytes
    {
      data := bytes;
    }
  }

  /** Scans a file and truncates it at the first unreadable record. What remains is a boundary
      of the original, holds every record a reader could reach, and nothing else. */
  method TruncateTorn(crc: Checksum, f: File) returns (n: nat)
    modifies f
    ensures n <= |old(f.data)| && f.data == old(f.data)[..n]
    ensures Boundary(crc, old(f.data), 0, n) && !Decode(crc, old(f.data), n).Rec?
    ensures Parse(crc, f.data, 0) == Parse(crc, old(f.data), 0) && Whole(crc, f.data, 0)
    ensures n == ScanEnd(crc, old(f.data), 0)
  {
    var off := 0;
    var size := |f.data|;
    while off < size
      invariant off <= size == |f.data| && f.data == old(f.data)
      invariant ScanEnd(crc, f.data, off) == ScanEnd(crc, f.data, 0)
    {
      var e := Decode(crc, f.data, off);
      if !e.Rec? { break; }
      off := e.endOff;
    }
    assert off == ScanEnd(crc, f.data, 0);
    ScanEndIsBoundary(crc, f.data, 0);
    ScanEndStops(crc, f.data, 0);
    ParseTruncated(crc, f.data, 0, off);
    if off < size {
      f.data := f.data[..off];
    } else {
      assert f.data == f.data[..off];
    }
    n := off;
  }

  lemma {:induction false} ScanEndStops(crc: Checksum, data: seq<byte>, from: nat)
    requires from <= |data|
    ensures !Decode(crc, data, ScanEnd(crc, data, from)).Rec?
    decreases |data| - from
  {
    var d := Decode(crc, data, from);
    if d.Rec? { ScanEndStops(crc, data, d.endOff); }
  }

  datatype Record = Record(payload: seq<byte>, at: int64)

  predicate Readable(rs: seq<Record>) { forall r | r in rs :: |r.payload| <= MAX_RECORD_BYTES }

  /** The bytes a fresh segment holds after these appends. */
  function Segment(crc: Checksum, rs: seq<Record>): (s: seq<byte>)
  {
    if rs == [] then []
    else Segment(crc, rs[..|rs| - 1]) + Encode(crc, rs[|rs| - 1].payload, rs[|rs| - 1].at)
  }

  function Recs(ds: seq<Decoded>): (rs: seq<Record>)
    requires forall d | d in ds :: d.Rec?
    ensures |rs| == |ds|
  {
    seq(|ds|, i requires 0 <= i < |ds| => assert ds[i] in ds; Record(ds[i].payload, ds[i].at))
  }

  /** Decoding inverts framing for a whole segment. */
  lemma {:induction false} ParseSegment(crc: Checksum, rs: seq<Record>)
    requires Readable(rs)
    ensures Recs(Parse(crc, Segment(crc, rs), 0)) == rs
    ensures Whole(crc, Segment(crc, rs), 0)
  {
    hide Encode, Decode;
    if rs != [] {
      var init, last := rs[..|rs| - 1], rs[|rs| - 1];
      ParseSegment(crc, init);
      ParseAppend(crc, Segment(crc, init), 0, last.payload, last.at);
      var ds := Parse(crc, Segment(crc, init), 0);
      assert rs == Recs(ds) + [last];
    }
  }

  /** Torn-write recovery: whatever byte a segment is cut at, the scan keeps exactly the
      longest prefix of whole records that fits, byte for byte, and reads those records back. */
  lemma {:induction false} TornRecovery(crc: Checksum, rs: seq<Record>, k: nat) returns (j: nat)
    requires Readable(rs) && k <= |Segment(crc, rs)|
    ensures j <= |rs|
    ensures var cut := Segment(crc, rs)[..k]; var n := ScanEnd(crc, cut, 0);
            cut[..n] == Segment(crc, rs[..j])
    ensures Recs(Parse(crc, Segment(crc, rs)[..k], 0)) == rs[..j]
    ensures j < |rs| ==> k < |Segment(crc, rs[..j + 1])|
  {
    hide Encode, Decode, Parse, ScanEnd;
    var s := Segment(crc, rs);
    if k == |s| {
      j := |rs|;
      ParseSegment(crc, rs);
      assert s[..k] == s && rs[..j] == rs;
    } else {
      var init, last := rs[..|rs| - 1], rs[|rs| - 1];
      var s0 := Segment(crc, init);
      ParseSegment(crc, init);
      if k < |s0| {
        j := TornRecovery(crc, init, k);
        assert s[..k] == s0[..k];
        assert init[..j] == rs[..j] && (j < |init| ==> init[..j + 1] == rs[..j + 1]);
      } else {
        j := |init|;
        CutLastFrame(crc, s0, last, k);
        assert rs[..j + 1] == rs;
      }
    }
  }

  /** A cut inside the last frame leaves the records before it. */
  lemma {:induction false} CutLastFrame(crc: Checksum, s0: seq<byte>, last: Record, k: nat)
    requires Whole(crc, s0, 0) && |last.payload| <= MAX_RECORD_BYTES
    requires |s0| <= k < |s0| + HEADER_BYTES + |last.payload|
    ensures var cut := (s0 + Encode(crc, last.payload, last.at))[..k];
            && ScanEnd(crc, cut, 0) == |s0| && cut[..|s0|] == s0
            && Parse(crc, cut, 0) == Parse(crc, s0, 0)
  {
    hide Encode, Decode, Parse, ScanEnd;
    var s := s0 + Encode(crc, last.payload, last.at);
    ParseAppend(crc, s0, 0, last.payload, last.at);
    var kept, torn := ParseCut(crc, s, k, 0);
    var ds := Parse(crc, s0, 0);
    var end := Rec(last.payload, last.at, |s|);
    CutUnique(kept, torn, ds, [end], k);
    ScanEndOfWhole(crc, s0, 0);
  }

  lemma CutAt(a: seq<Decoded>, b: seq<Decoded>, k: nat, m: nat)
    requires m < |a + b|
    requires forall r | r in a + b :: r.Rec?
    requires forall r | r in a :: r in a + b && r.endOff <= k
    requires forall r | r in b :: r in a + b && k < r.endOff
    ensures (a + b)[m] in a + b && ((a + b)[m].endOff <= k <==> m < |a|)
  {
    if m < |a| { assert (a + b)[m] == a[m]; } else { assert (a + b)[m] == b[m - |a|]; }
  }

  /** A sequence of records splits at a byte offset in one way only. */
  lemma CutUnique(a: seq<Decoded>, b: seq<Decoded>, c: seq<Decoded>, d: seq<Decoded>, k: nat)
    requires a + b == c + d
    requires forall r | r in a + b :: r.Rec?
    requires forall r | r in a || r in c :: r.endOff <= k
    requires forall r | r in b || r in d :: k < r.endOff
    ensures a == c && b == d
  {
    var all := a + b;
    var m := if |a| < |c| then |a| else |c|;
    if m < |all| {
      CutAt(a, b, k, m);
      CutAt(c, d, k, m);
    }
    assert a == all[..|a|] && c == all[..|c|] && b == all[|a|..] && d == all[|c|..];
  }

  lemma {:induction false} ScanEndOfWhole(crc: Checksum, data: seq<byte>, from: nat)
    requires Whole(crc, data, from)
    ensures var ds := Parse(crc, data, from); |data| == if ds == [] then from else ds[|ds| - 1].endOff
    decreases |data| - from
  {
    var d := Decode(crc, data, from);
    if d.Rec? { ScanEndOfWhole(crc, data, d.endOff); }
  }
}
