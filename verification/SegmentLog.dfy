/** The segmented log as a value: segments, read cursor and persisted cursor, the operations
    on them, and what they mean for the queue of undelivered records. */
module SegmentLog {
  import opened Basics
  import opened Frame

  /** A record as the reader hands it out. */
  datatype Entry = Entry(payload: seq<byte>, at: int64, seg: nat, end: nat)

  /** A read position: a segment and an offset within it. */
  datatype Pos = Pos(seg: nat, off: nat)

  /** file: the append handle is open. synced: how much of data survives a crash. */
  datatype Seg = Seg(id: nat, data: seq<byte>, sealed: bool, file: bool, synced: nat, oldest: Option<int64>)

  datatype Opts = Opts(maxBytes: nat, segmentBytes: nat)

  /** saved is the cursor in state.json; total is the running byte count. */
  datatype Buf = Buf(segs: seq<Seg>, cur: Pos, saved: Pos, total: int)

  const EMPTY := Buf([], Pos(0, 0), Pos(0, 0), 0)

  // ---------- what is on disk, and what reads return ----------

  function Tagged(id: nat, ds: seq<Decoded>): (es: seq<Entry>)
    requires forall d | d in ds :: d.Rec?
    ensures |es| == |ds|
  {
    seq(|ds|, i requires 0 <= i < |ds| => assert ds[i] in ds; Entry(ds[i].payload, ds[i].at, id, ds[i].endOff))
  }

  function Read(crc: Checksum, s: Seg, off: nat): (es: seq<Entry>)
    ensures forall e | e in es :: e.seg == s.id && off < e.end <= |s.data|
  {
    var ds := Parse(crc, s.data, off);
    assert forall i | 0 <= i < |ds| :: ds[i] in ds;
    Tagged(s.id, ds)
  }

  /** Every record on disk, oldest first. */
  function All(crc: Checksum, segs: seq<Seg>): (es: seq<Entry>)
  {
    if segs == [] then [] else Read(crc, segs[0], 0) + All(crc, segs[1..])
  }

  predicate Passed(e: Entry, p: Pos)
  {
    e.seg < p.seg || (e.seg == p.seg && e.end <= p.off)
  }

  /** The records of es that lie beyond p. */
  function After(es: seq<Entry>, p: Pos): (r: seq<Entry>)
  {
    if es == [] then []
    else if Passed(es[0], p) then After(es[1..], p)
    else [es[0]] + After(es[1..], p)
  }

  /** The queue: what is on disk and not yet behind the cursor. */
  function Undelivered(crc: Checksum, b: Buf): (r: seq<Entry>)
  {
    After(All(crc, b.segs), b.cur)
  }

  /** What successive reads from p return: the segment with p's id from p's offset on and then
      every later one; everything if p lies before the oldest segment; otherwise nothing. */
  function From(crc: Checksum, segs: seq<Seg>, p: Pos): (es: seq<Entry>)
  {
    if segs == [] then []
    else if p.seg < segs[0].id then All(crc, segs)
    else FromFound(crc, segs, p)
  }

  function FromFound(crc: Checksum, segs: seq<Seg>, p: Pos): (es: seq<Entry>)
  {
    if segs == [] then []
    else if segs[0].id == p.seg then Read(crc, segs[0], p.off) + All(crc, segs[1..])
    else FromFound(crc, segs[1..], p)
  }

  /** The reader can find its place. */
  predicate Resolvable(segs: seq<Seg>, p: Pos)
  {
    segs == [] || p.seg < segs[0].id || exists i :: 0 <= i < |segs| && segs[i].id == p.seg
  }

  function Framed(es: seq<Entry>): (n: nat)
  {
    if es == [] then 0 else HEADER_BYTES + |es[0].payload| + Framed(es[1..])
  }

  function Bytes(segs: seq<Seg>): (n: nat)
  {
    if segs == [] then 0 else |segs[0].data| + Bytes(segs[1..])
  }

  // ---------- well-formed logs ----------

  predicate Increasing(segs: seq<Seg>)
  {
    forall i, j | 0 <= i < j < |segs| :: segs[i].id < segs[j].id
  }

  /** p sits on a record boundary of its segment, or at or past its end. */
  predicate Aligned(crc: Checksum, s: Seg, p: Pos)
  {
    s.id == p.seg ==> p.off >= |s.data| || Boundary(crc, s.data, 0, p.off)
  }

  /** Only the last segment can be open for append; whatever is closed has been flushed. */
  predicate SegOk(crc: Checksum, s: Seg, last: bool)
  {
    && Whole(crc, s.data, 0)
    && (s.file ==> last && !s.sealed)
    && s.synced <= |s.data|
    && (!s.file ==> s.synced == |s.data|)
  }

  /** A cursor never lies beyond the segment the next append goes to. */
  predicate InReach(segs: seq<Seg>, p: Pos)
  {
    if segs == [] then p == Pos(0, 0)
    else
      var last := segs[|segs| - 1];
      p.seg <= last.id && (p.seg == last.id && last.file ==> p.off <= |last.data|)
  }

  ghost predicate SegsOk(crc: Checksum, segs: seq<Seg>)
  {
    && Increasing(segs)
    && (forall i | 0 <= i < |segs| :: 1 <= segs[i].id && SegOk(crc, segs[i], i == |segs| - 1))
  }

  ghost predicate CursorOk(crc: Checksum, segs: seq<Seg>, p: Pos)
  {
    InReach(segs, p) && forall s | s in segs :: Aligned(crc, s, p)
  }

  ghost predicate Wf(crc: Checksum, b: Buf)
  {
    && SegsOk(crc, b.segs)
    && CursorOk(crc, b.segs, b.cur)
    && CursorOk(crc, b.segs, b.saved)
    && b.total == Bytes(b.segs)
  }

  // ---------- operations ----------

  predicate HasActive(segs: seq<Seg>) { segs != [] && segs[|segs| - 1].file && !segs[|segs| - 1].sealed }

  function NextId(segs: seq<Seg>): nat { if segs == [] then 1 else segs[|segs| - 1].id + 1 }

  /** Opens a new segment unless the last one can be appended to. A recovered segment has no
      append handle, so it is never written again. */
  function EnsureActive(segs: seq<Seg>): (r: seq<Seg>)
    ensures HasActive(r)
  {
    if HasActive(segs) then segs else segs + [Seg(NextId(segs), [], false, true, 0, None)]
  }

  /** One frame at the end of the active segment, which is sealed once it is large enough. */
  function Written(crc: Checksum, o: Opts, s: Seg, payload: seq<byte>, now: int64): (r: Seg)
    requires s.file
  {
    var data := s.data + Encode(crc, payload, now);
    var full := |data| >= o.segmentBytes;
    Seg(s.id, data, full, !full, if full then |data| else s.synced, if s.oldest.None? then Some(now) else s.oldest)
  }

  function Write(crc: Checksum, o: Opts, b: Buf, payload: seq<byte>, now: int64): (r: Buf)
  {
    var segs := EnsureActive(b.segs);
    var n := |segs| - 1;
    b.(segs := segs[..n] + [Written(crc, o, segs[n], payload, now)], total := b.total + HEADER_BYTES + |payload|)
  }

  /** The segments that stay when those in `removable` are deleted: a segment goes only if it
      is sealed and behind the cursor (and the file system lets go of it). */
  function Kept(segs: seq<Seg>, cur: Pos, removable: set<nat>): (r: seq<Seg>)
  {
    if segs == [] then []
    else
      var s := segs[0];
      var rest := Kept(segs[1..], cur, removable);
      if s.id < cur.seg && s.sealed && s.id in removable then rest else [s] + rest
  }

  function Reclaim(b: Buf, removable: set<nat>): (r: Buf)
  {
    var kept := Kept(b.segs, b.cur, removable);
    b.(segs := kept, total := b.total - (Bytes(b.segs) - Bytes(kept)))
  }

  /** The cursor is moved and persisted; reclamation follows. */
  function AckSaved(b: Buf, e: Entry): (r: Buf)
  {
    b.(cur := Pos(e.seg, e.end), saved := Pos(e.seg, e.end))
  }

  function Ack(b: Buf, e: Entry, removable: set<nat>): (r: Buf)
  {
    Reclaim(AckSaved(b, e), removable)
  }

  function Sync(b: Buf): (r: Buf)
  {
    if !HasActive(b.segs) then b
    else
      var n := |b.segs| - 1;
      b.(segs := b.segs[n := b.segs[n].(synced := |b.segs[n].data|)])
  }

  /** A crash keeps at least the synced bytes of the open segment, and any prefix beyond. */
  predicate Survives(segs: seq<Seg>, disk: seq<Seg>)
  {
    && |disk| == |segs|
    && forall i | 0 <= i < |segs| ::
         && disk[i].id == segs[i].id
         && disk[i].data <= segs[i].data
         && segs[i].synced <= |disk[i].data|
  }

  /** The time of the first record, if there is one that can be read. */
  function FirstStamp(crc: Checksum, data: seq<byte>): (t: Option<int64>)
    ensures var rs := Parse(crc, data, 0); t == if rs == [] then None else Some(rs[0].at)
  {
    var d := Decode(crc, data, 0);
    if d.Rec? then Some(d.at) else None
  }

  /** A segment as recovery rebuilds it: cut after the last readable record, closed, and
      sealed unless it is the last one and still small. */
  function Recovered(crc: Checksum, o: Opts, s: Seg, last: bool): (r: Seg)
  {
    var n := ScanEnd(crc, s.data, 0);
    Seg(s.id, s.data[..n], !last || n >= o.segmentBytes, false, n, FirstStamp(crc, s.data))
  }

  function RecoveredAll(crc: Checksum, o: Opts, disk: seq<Seg>): (r: seq<Seg>)
    ensures |r| == |disk|
  {
    seq(|disk|, i requires 0 <= i < |disk| => Recovered(crc, o, disk[i], i == |disk| - 1))
  }

  /** Opening a directory: the cursor restarts from state.json. */
  function Open(crc: Checksum, o: Opts, disk: seq<Seg>, saved: Pos): (b: Buf)
  {
    var segs := RecoveredAll(crc, o, disk);
    Buf(segs, saved, saved, Bytes(segs))
  }

  // ---------- lists of entries ----------

  predicate Before(e: Entry, f: Entry) { e.seg < f.seg || (e.seg == f.seg && e.end < f.end) }

  predicate InOrder(es: seq<Entry>) { forall i, j | 0 <= i < j < |es| :: Before(es[i], es[j]) }

  lemma {:induction false} AfterConcat(a: seq<Entry>, b: seq<Entry>, p: Pos)
    ensures After(a + b, p) == After(a, p) + After(b, p)
  {
    if a == [] {
      assert a + b == b;
    } else {
      AfterConcat(a[1..], b, p);
      assert (a + b)[0] == a[0] && (a + b)[1..] == a[1..] + b;
      Assoc3(if Passed(a[0], p) then [] else [a[0]], After(a[1..], p), After(b, p));
    }
  }

  lemma Assoc3<T>(a: seq<T>, b: seq<T>, c: seq<T>)
    ensures a + (b + c) == (a + b) + c
    ensures [] + b == b && b + [] == b
  {
  }

  lemma {:induction false} AfterNone(es: seq<Entry>, p: Pos)
    requires forall e | e in es :: Passed(e, p)
    ensures After(es, p) == []
  {
    if es != [] { AfterNone(es[1..], p); }
  }

  lemma {:induction false} AfterEvery(es: seq<Entry>, p: Pos)
    requires forall e | e in es :: !Passed(e, p)
    ensures After(es, p) == es
  {
    if es != [] { AfterEvery(es[1..], p); }
  }

  lemma {:induction false} AfterMembers(es: seq<Entry>, p: Pos, e: Entry)
    ensures e in After(es, p) <==> e in es && !Passed(e, p)
  {
    if es != [] {
      AfterMembers(es[1..], p, e);
      assert e in es <==> e == es[0] || e in es[1..];
    }
  }

  /** In an ordered list what lies beyond p is a suffix. */
  lemma {:induction false} AfterSuffix(es: seq<Entry>, p: Pos) returns (k: nat)
    requires InOrder(es)
    ensures k <= |es| && After(es, p) == es[k..]
    ensures forall i | 0 <= i < k :: Passed(es[i], p)
    ensures forall i | k <= i < |es| :: !Passed(es[i], p)
  {
    if es == [] {
      k := 0;
    } else if Passed(es[0], p) {
      var j := AfterSuffix(es[1..], p);
      k := j + 1;
      assert forall i | 0 < i < |es| :: es[i] == es[1..][i - 1];
    } else {
      k := 0;
      assert forall i | 0 < i < |es| :: Before(es[0], es[i]);
      assert forall e | e in es :: !Passed(e, p);
      AfterEvery(es, p);
    }
  }

  lemma {:induction false} FramedConcat(a: seq<Entry>, b: seq<Entry>)
    ensures Framed(a + b) == Framed(a) + Framed(b)
  {
    if a == [] {
      assert a + b == b;
    } else {
      FramedConcat(a[1..], b);
      assert (a + b)[1..] == a[1..] + b;
    }
  }

  lemma {:induction false} BytesConcat(a: seq<Seg>, b: seq<Seg>)
    ensures Bytes(a + b) == Bytes(a) + Bytes(b)
  {
    if a == [] {
      assert a + b == b;
    } else {
      BytesConcat(a[1..], b);
      assert (a + b)[1..] == a[1..] + b;
    }
  }

  lemma {:induction false} AllConcat(crc: Checksum, a: seq<Seg>, b: seq<Seg>)
    ensures All(crc, a + b) == All(crc, a) + All(crc, b)
  {
    hide Parse;
    if a == [] {
      assert a + b == b;
    } else {
      AllConcat(crc, a[1..], b);
      assert (a + b)[0] == a[0] && (a + b)[1..] == a[1..] + b;
      Assoc3(Read(crc, a[0], 0), All(crc, a[1..]), All(crc, b));
    }
  }

  lemma {:induction false} AllLast(crc: Checksum, a: seq<Seg>, s: Seg)
    ensures All(crc, a + [s]) == All(crc, a) + Read(crc, s, 0)
  {
    AllConcat(crc, a, [s]);
    assert All(crc, [s]) == Read(crc, s, 0) + All(crc, [s][1..]);
  }

  /** Every record on disk sits in the segment whose id it carries. */
  lemma {:induction false} AllMembers(crc: Checksum, segs: seq<Seg>, e: Entry)
    ensures e in All(crc, segs) <==> exists i :: 0 <= i < |segs| && e in Read(crc, segs[i], 0)
  {
    if segs != [] {
      AllMembers(crc, segs[1..], e);
      if e in All(crc, segs[1..]) {
        var i :| 0 <= i < |segs[1..]| && e in Read(crc, segs[1..][i], 0);
        assert e in Read(crc, segs[i + 1], 0);
      }
      if i :| 0 <= i < |segs| && e in Read(crc, segs[i], 0) {
        if i > 0 { assert segs[i] == segs[1..][i - 1]; }
      }
    }
  }

  lemma AllInSegment(crc: Checksum, segs: seq<Seg>, e: Entry) returns (i: nat)
    requires e in All(crc, segs)
    ensures i < |segs| && e.seg == segs[i].id && 0 < e.end <= |segs[i].data| && e in Read(crc, segs[i], 0)
  {
    AllMembers(crc, segs, e);
    var k :| 0 <= k < |segs| && e in Read(crc, segs[k], 0);
    i := k;
  }

  // ---------- reading a segment ----------

  lemma TaggedConcat(id: nat, a: seq<Decoded>, b: seq<Decoded>)
    requires forall d | d in a + b :: d.Rec?
    ensures (forall d | d in a || d in b :: d.Rec?) && Tagged(id, a + b) == Tagged(id, a) + Tagged(id, b)
  {
    assert forall d | d in a || d in b :: d in a + b;
  }

  predicate Ascending(ds: seq<Decoded>)
  {
    (forall d | d in ds :: d.Rec?) && forall i, j | 0 <= i < j < |ds| :: ds[i].endOff < ds[j].endOff
  }

  lemma AscendingCons(d: Decoded, ds: seq<Decoded>)
    requires d.Rec? && Ascending(ds) && forall r | r in ds :: d.endOff < r.endOff
    ensures Ascending([d] + ds)
  {
  }

  lemma {:induction false} ParseAscending(crc: Checksum, data: seq<byte>, off: nat)
    ensures Ascending(Parse(crc, data, off))
    decreases |data| - off
  {
    hide Ascending;
    var d := Decode(crc, data, off);
    if d.Rec? {
      ParseAscending(crc, data, d.endOff);
      AscendingCons(d, Parse(crc, data, d.endOff));
    } else {
      NoneAscending();
    }
  }

  lemma NoneAscending()
    ensures Ascending([])
  {
  }

  lemma TaggedInOrder(id: nat, ds: seq<Decoded>)
    requires Ascending(ds)
    ensures InOrder(Tagged(id, ds))
  {
  }

  lemma ReadInOrder(crc: Checksum, s: Seg, off: nat)
    ensures InOrder(Read(crc, s, off))
  {
    ParseAscending(crc, s.data, off);
    TaggedInOrder(s.id, Parse(crc, s.data, off));
  }

  /** Reading from an aligned position returns what lies beyond it. */
  lemma {:induction false} ReadIsAfter(crc: Checksum, s: Seg, p: Pos)
    requires s.id == p.seg && Aligned(crc, s, p)
    ensures Read(crc, s, p.off) == After(Read(crc, s, 0), p)
  {
    hide Parse, Boundary;
    if Boundary(crc, s.data, 0, p.off) {
      var pre := ParseSplit(crc, s.data, 0, p.off);
      var rest := Parse(crc, s.data, p.off);
      TaggedConcat(s.id, pre, rest);
      var a, b := Tagged(s.id, pre), Read(crc, s, p.off);
      assert Read(crc, s, 0) == a + b;
      AfterConcat(a, b, p);
      assert forall i | 0 <= i < |pre| :: pre[i] in pre;
      AfterNone(a, p);
      AfterEvery(b, p);
    } else {
      AfterNone(Read(crc, s, 0), p);
      ReadPastEnd(crc, s, p.off);
    }
  }

  lemma ReadPastEnd(crc: Checksum, s: Seg, off: nat)
    requires |s.data| <= off
    ensures Read(crc, s, off) == []
  {
  }

  /** The bytes of a whole segment beyond a boundary are its records beyond it, framed. */
  lemma {:induction false} ReadBytes(crc: Checksum, s: Seg, off: nat)
    requires Whole(crc, s.data, off)
    ensures Framed(Read(crc, s, off)) == |s.data| - off
    decreases |s.data| - off
  {
    var d := Decode(crc, s.data, off);
    hide Decode;
    if d.Rec? {
      ReadBytes(crc, s, d.endOff);
      var es := Read(crc, s, off);
      assert es[1..] == Read(crc, s, d.endOff);
    }
  }

  // ---------- reads return the queue exactly when the reader finds its place ----------

  lemma {:induction false} AllBeyond(crc: Checksum, segs: seq<Seg>, p: Pos)
    requires Increasing(segs) && (segs != [] ==> p.seg < segs[0].id)
    ensures After(All(crc, segs), p) == All(crc, segs)
  {
    forall e | e in All(crc, segs)
      ensures !Passed(e, p)
    {
      var i := AllInSegment(crc, segs, e);
    }
    AfterEvery(All(crc, segs), p);
  }

  lemma {:induction false} FoundIsAfter(crc: Checksum, segs: seq<Seg>, p: Pos)
    requires Increasing(segs)
    requires forall s | s in segs :: Aligned(crc, s, p)
    requires exists i :: 0 <= i < |segs| && segs[i].id == p.seg
    ensures FromFound(crc, segs, p) == After(All(crc, segs), p)
  {
    hide Parse, Aligned;
    var s, rest := segs[0], segs[1..];
    AfterConcat(Read(crc, s, 0), All(crc, rest), p);
    if s.id == p.seg {
      ReadIsAfter(crc, s, p);
      AllBeyond(crc, rest, p);
    } else {
      var i :| 0 <= i < |segs| && segs[i].id == p.seg;
      assert rest[i - 1].id == p.seg;
      FoundIsAfter(crc, rest, p);
      AfterNone(Read(crc, s, 0), p);
    }
  }

  lemma {:induction false} FoundNothing(crc: Checksum, segs: seq<Seg>, p: Pos)
    requires forall i | 0 <= i < |segs| :: segs[i].id != p.seg
    ensures FromFound(crc, segs, p) == []
  {
    if segs != [] {
      assert segs[0].id != p.seg;
      assert forall i | 0 <= i < |segs[1..]| :: segs[1..][i] == segs[i + 1];
      FoundNothing(crc, segs[1..], p);
    }
  }

  /** What reads from p return. If the reader finds its place they return exactly the records
      beyond p, in order; if not they return nothing, whatever is on disk. */
  lemma {:induction false} ReadsReturn(crc: Checksum, segs: seq<Seg>, p: Pos)
    requires Increasing(segs) && forall s | s in segs :: Aligned(crc, s, p)
    ensures From(crc, segs, p) == if Resolvable(segs, p) then After(All(crc, segs), p) else []
  {
    if segs != [] {
      if p.seg < segs[0].id {
        AllBeyond(crc, segs, p);
      } else if exists i :: 0 <= i < |segs| && segs[i].id == p.seg {
        FoundIsAfter(crc, segs, p);
      } else {
        FoundNothing(crc, segs, p);
      }
    }
  }

  lemma {:induction false} AllInOrder(crc: Checksum, segs: seq<Seg>)
    requires Increasing(segs)
    ensures InOrder(All(crc, segs))
  {
    hide Read;
    if segs != [] {
      AllInOrder(crc, segs[1..]);
      ReadInOrder(crc, segs[0], 0);
      var a, b := Read(crc, segs[0], 0), All(crc, segs[1..]);
      forall e, f | e in a && f in b
        ensures Before(e, f)
      {
        ReadIds(crc, segs[0], 0, e);
        var i := AllInSegment(crc, segs[1..], f);
      }
      assert forall i | 0 <= i < |a| + |b| :: (a + b)[i] == if i < |a| then a[i] else b[i - |a|];
    }
  }

  lemma ReadIds(crc: Checksum, s: Seg, off: nat, e: Entry)
    requires e in Read(crc, s, off)
    ensures e.seg == s.id && off < e.end <= |s.data|
  {
  }
}
