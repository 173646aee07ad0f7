/** Damage to a segment on disk: a record is read back exactly when the bytes there are its frame,
    so a damaged one is refused and recovery keeps exactly the records before it. */
module Damage {
  import opened Frame

  lemma Put32Get32(s: seq<byte>)
    requires |s| == 4
    ensures Put32(Get32(s)) == s
  {
    var a: int, b: int, c: int, d: int := s[0], s[1], s[2], s[3];
    var n := Get32(s);
    Top(d, a * 0x1_0000 + b * 0x100 + c);
    Top(c, a * 0x100 + b);
    Top(b, a);
    assert n / 0x100 == a * 0x1_0000 + b * 0x100 + c;
    assert n / 0x1_0000 == a * 0x100 + b && n / 0x100_0000 == a;
  }

  lemma Top(low: int, high: int)
    requires 0 <= low < 256 && 0 <= high
    ensures (high * 256 + low) / 256 == high && (high * 256 + low) % 256 == low
  {
  }

  lemma Put64Get64(s: seq<byte>)
    requires |s| == 8
    ensures Put64(Get64(s)) == s
  {
    hide Put32, Get32;
    var hi: int, lo: int := Get32(s[..4]), Get32(s[4..]);
    var u := hi * 0x1_0000_0000 + lo;
    assert Unsigned(Get64(s)) == u;
    HiLo(hi, lo);
    Put32Get32(s[..4]);
    Put32Get32(s[4..]);
    assert s == s[..4] + s[4..];
  }

  lemma HiLo(hi: int, lo: int)
    requires 0 <= hi && 0 <= lo < 0x1_0000_0000
    ensures (hi * 0x1_0000_0000 + lo) / 0x1_0000_0000 == hi && (hi * 0x1_0000_0000 + lo) % 0x1_0000_0000 == lo
  {
  }

  /** A record is returned exactly when the bytes at the offset are the frame of it and it is not
      too long: the magic, the length, the checksum and the time are all looked at. */
  lemma DecodeExact(crc: Checksum, data: seq<byte>, off: nat, payload: seq<byte>, at: int64)
    ensures var f := Encode(crc, payload, at);
            Decode(crc, data, off) == Rec(payload, at, off + |f|)
            <==> off + |f| <= |data| && data[off..off + |f|] == f && |payload| <= MAX_RECORD_BYTES
  {
    var f := Encode(crc, payload, at);
    var end := off + |f|;
    if Decode(crc, data, off) == Rec(payload, at, end) {
      FrameBytes(crc, data, off, payload, at);
    }
    if end <= |data| && data[off..end] == f && |payload| <= MAX_RECORD_BYTES {
      hide Decode, Encode;
      assert data == data[..off] + f + data[end..];
      DecodeEncode(crc, data[..off], payload, at, data[end..]);
    }
  }

  lemma FrameBytes(crc: Checksum, data: seq<byte>, off: nat, payload: seq<byte>, at: int64)
    requires Decode(crc, data, off) == Rec(payload, at, off + HEADER_BYTES + |payload|)
    ensures off + HEADER_BYTES + |payload| <= |data| && |payload| <= MAX_RECORD_BYTES
    ensures data[off..off + HEADER_BYTES + |payload|] == Encode(crc, payload, at)
  {
    hide Put32, Get32, Put64, Get64;
    var end := off + HEADER_BYTES + |payload|;
    Put32Get32(data[off..off + 4]);
    Put32Get32(data[off + 4..off + 8]);
    Put32Get32(data[off + 8..off + 12]);
    Put64Get64(data[off + 12..off + 20]);
    assert data[off..end] == data[off..off + 4] + data[off + 4..off + 8] + data[off + 8..off + 12]
                             + data[off + 12..off + 20] + data[off + 20..end];
  }

  /** The bytes h + p, h of a frame's header length, are refused as corrupt if the magic is not
      there, or if it is and the payload's length but not its checksum is as the header says. */
  predicate Damaged(crc: Checksum, h: seq<byte>, p: seq<byte>)
  {
    && |h| == HEADER_BYTES
    && (h[..4] != Put32(MAGIC)
        || (h[4..8] == Put32(|p|) && |p| <= MAX_RECORD_BYTES && h[8..12] != Put32(crc(p))))
  }

  lemma DamagedCorrupt(crc: Checksum, pre: seq<byte>, h: seq<byte>, p: seq<byte>, post: seq<byte>)
    requires Damaged(crc, h, p)
    ensures Decode(crc, pre + (h + p) + post, |pre|) == Corrupt
  {
    hide Put32, Get32, Get64;
    var data, off := pre + (h + p) + post, |pre|;
    Sliced(pre, h + p, post, 0, 4);
    Sliced(pre, h + p, post, 4, 8);
    Sliced(pre, h + p, post, 8, 12);
    Sliced(pre, h + p, post, HEADER_BYTES, HEADER_BYTES + |p|);
    assert (h + p)[0..4] == h[..4] && (h + p)[4..8] == h[4..8] && (h + p)[8..12] == h[8..12];
    assert (h + p)[HEADER_BYTES..HEADER_BYTES + |p|] == p;
    Put32Get32(h[..4]);
    Get32Put32(|p|);
    Put32Get32(h[8..12]);
  }

  lemma Header(crc: Checksum, p: seq<byte>, at: int64)
    ensures var h := Encode(crc, p, at)[..HEADER_BYTES];
            |h| == HEADER_BYTES && h[4..8] == Put32(|p|) && h[8..12] == Put32(crc(p))
  {
    hide Put32, Put64;
  }

  lemma HeaderDamaged(crc: Checksum, h: seq<byte>, p: seq<byte>, q: seq<byte>)
    requires |h| == HEADER_BYTES && h[4..8] == Put32(|p|) && h[8..12] == Put32(crc(p))
    requires |q| == |p| <= MAX_RECORD_BYTES && crc(q) != crc(p)
    ensures Damaged(crc, h, q)
  {
    hide Put32;
    Put32Injective(crc(p), crc(q));
  }

  lemma Put32Injective(a: uint32, b: uint32)
    ensures Put32(a) == Put32(b) ==> a == b
  {
    Word(a);
    Word(b);
    hide Put32, Get32;
  }

  lemma Word(a: uint32)
    ensures Get32(Put32(a)) == a
  {
    hide Put32, Get32;
    Get32Put32(a);
    Remainder(a, 0, a);
  }

  /** A payload that changed on disk, to one of the same length and another checksum, is refused. */
  lemma ChangedPayload(crc: Checksum, pre: seq<byte>, p: seq<byte>, at: int64, q: seq<byte>, post: seq<byte>)
    requires |q| == |p| <= MAX_RECORD_BYTES && crc(q) != crc(p)
    ensures Damaged(crc, Encode(crc, p, at)[..HEADER_BYTES], q)
    ensures Decode(crc, pre + (Encode(crc, p, at)[..HEADER_BYTES] + q) + post, |pre|) == Corrupt
  {
    var h := Encode(crc, p, at)[..HEADER_BYTES];
    assert |h| == HEADER_BYTES && h[4..8] == Put32(|p|) && h[8..12] == Put32(crc(p)) by { Header(crc, p, at); }
    hide *;
    HeaderDamaged(crc, h, p, q);
    DamagedCorrupt(crc, pre, h, q, post);
  }

  /** So is a frame with a changed byte in the magic, or in the checksum, whatever the payload. */
  lemma ChangedHeader(crc: Checksum, pre: seq<byte>, p: seq<byte>, at: int64, i: nat, x: byte, post: seq<byte>)
    requires (i < 4 || (8 <= i < 12 && |p| <= MAX_RECORD_BYTES)) && x != Encode(crc, p, at)[i]
    ensures Damaged(crc, Encode(crc, p, at)[i := x][..HEADER_BYTES], p)
    ensures Decode(crc, pre + Encode(crc, p, at)[i := x] + post, |pre|) == Corrupt
  {
    var f := Encode(crc, p, at);
    var g := f[i := x];
    var h := g[..HEADER_BYTES];
    assert g == h + p;
    if i < 4 {
      assert f[..4] == Put32(MAGIC) && h[i] == x && f[..4][i] == f[i];
    } else {
      assert h[4..8] == f[4..8] == Put32(|p|) && f[8..12] == Put32(crc(p));
      assert h[8..12][i - 8] == x && f[8..12][i - 8] == f[i];
    }
    hide Decode, Encode;
    DamagedCorrupt(crc, pre, h, p, post);
  }

  /** Recovery of a segment damaged in record k: exactly the k records before it are read, and
      truncating where the scan stops leaves exactly their bytes, whatever follows. */
  lemma DamageCuts(crc: Checksum, rs: seq<Record>, k: nat, h: seq<byte>, p: seq<byte>, post: seq<byte>)
    requires Readable(rs) && k <= |rs| && Damaged(crc, h, p)
    ensures var data := Segment(crc, rs[..k]) + (h + p) + post;
            && Recs(Parse(crc, data, 0)) == rs[..k]
            && ScanEnd(crc, data, 0) == |Segment(crc, rs[..k])|
            && data[..ScanEnd(crc, data, 0)] == Segment(crc, rs[..k])
  {
    hide Decode, Damaged, Parse, ScanEnd;
    var s := Segment(crc, rs[..k]);
    ParseSegment(crc, rs[..k]);
    DamagedCorrupt(crc, s, h, p, post);
    assert s + (h + p) + post == s + (h + p + post);
    StopsAt(crc, s, 0, h + p + post);
  }

  /** The segment of records rs in which the payload of record k became q. */
  function WithPayload(crc: Checksum, rs: seq<Record>, k: nat, q: seq<byte>): seq<byte>
    requires k < |rs|
  {
    Segment(crc, rs[..k]) + (Encode(crc, rs[k].payload, rs[k].at)[..HEADER_BYTES] + q)
    + Tail(crc, rs[k + 1..])
  }

  /** The frames of rs, in order. */
  function Tail(crc: Checksum, rs: seq<Record>): seq<byte>
  {
    if rs == [] then [] else Encode(crc, rs[0].payload, rs[0].at) + Tail(crc, rs[1..])
  }

  lemma {:induction false} SegmentSplit(crc: Checksum, rs: seq<Record>, k: nat)
    requires k <= |rs|
    ensures Segment(crc, rs) == Segment(crc, rs[..k]) + Tail(crc, rs[k..])
    decreases |rs| - k
  {
    hide Encode;
    if k == |rs| {
      assert rs[..k] == rs;
    } else {
      SegmentSplit(crc, rs, k + 1);
      assert rs[..k + 1][..k] == rs[..k] && rs[k..][0] == rs[k] && rs[k..][1..] == rs[k + 1..];
    }
  }

  /** Damage to the payload of record k, told from the checksum alone: if it changed, recovery
      keeps the k records before it, byte for byte, and cuts off the rest; if it did not, the
      damage goes unseen and every record is read, the k-th as it now is. */
  lemma DamageSeen(crc: Checksum, rs: seq<Record>, k: nat, q: seq<byte>)
    requires Readable(rs) && k < |rs| && |q| == |rs[k].payload|
    ensures var data := WithPayload(crc, rs, k, q); var kept := data[..ScanEnd(crc, data, 0)];
            if crc(q) != crc(rs[k].payload)
            then kept == Segment(crc, rs[..k]) && Recs(Parse(crc, data, 0)) == rs[..k]
            else kept == data && Recs(Parse(crc, data, 0)) == rs[k := Record(q, rs[k].at)]
  {
    hide Parse, ScanEnd, Decode, Damaged;
    var r := rs[k];
    assert r in rs;
    var h := Encode(crc, r.payload, r.at)[..HEADER_BYTES];
    if crc(q) != crc(r.payload) {
      ChangedPayload(crc, [], r.payload, r.at, q, []);
      DamageCuts(crc, rs, k, h, q, Tail(crc, rs[k + 1..]));
    } else {
      var ss := rs[k := Record(q, r.at)];
      SameHeader(crc, r.payload, q, r.at);
      hide Encode;
      assert ss[..k + 1] == rs[..k] + [Record(q, r.at)] && ss[..k + 1][..k] == rs[..k] && ss[k + 1..] == rs[k + 1..];
      SegmentSplit(crc, ss, k + 1);
      ParseSegment(crc, ss);
    }
  }

  lemma SameHeader(crc: Checksum, p: seq<byte>, q: seq<byte>, at: int64)
    requires |p| == |q| && crc(p) == crc(q)
    ensures Encode(crc, p, at)[..HEADER_BYTES] + q == Encode(crc, q, at)
  {
    hide Put32, Put64;
    assert Encode(crc, p, at)[..HEADER_BYTES] == Encode(crc, q, at)[..HEADER_BYTES];
  }
}
