/** The segmented log refines a FIFO queue: each operation's effect on the records a reader
    gets, with sealing, segment hops and reclamation invisible. */
module Queue {
  import opened Basics
  import opened Frame
  import opened SegmentLog

  // ---------- append ----------

  /** The record an append adds. */
  function NewEntry(b: Buf, payload: seq<byte>, now: int64): (e: Entry)
  {
    var segs := EnsureActive(b.segs);
    var s := segs[|segs| - 1];
    Entry(payload, now, s.id, |s.data| + HEADER_BYTES + |payload|)
  }

  /** A list of closed segments followed by one that may be open. */
  ghost predicate FrontOk(crc: Checksum, front: seq<Seg>, id: nat)
  {
    && Increasing(front)
    && forall i | 0 <= i < |front| :: 1 <= front[i].id < id && SegOk(crc, front[i], false)
  }

  lemma SnocOk(crc: Checksum, front: seq<Seg>, s: Seg)
    requires FrontOk(crc, front, s.id) && 1 <= s.id && SegOk(crc, s, true)
    ensures SegsOk(crc, front + [s])
  {
    hide SegOk;
  }

  lemma LastOk(crc: Checksum, segs: seq<Seg>)
    requires SegsOk(crc, segs) && segs != []
    ensures var n := |segs| - 1;
            && segs == segs[..n] + [segs[n]]
            && FrontOk(crc, segs[..n], segs[n].id) && 1 <= segs[n].id && SegOk(crc, segs[n], true)
  {
    hide SegOk;
  }

  lemma ClosedFront(crc: Checksum, segs: seq<Seg>)
    requires SegsOk(crc, segs) && !HasActive(segs)
    ensures FrontOk(crc, segs, NextId(segs))
  {
    hide Whole;
  }

  lemma CursorSnoc(crc: Checksum, segs: seq<Seg>, s: Seg, p: Pos)
    requires CursorOk(crc, segs, p) && s.id == NextId(segs)
    ensures CursorOk(crc, segs + [s], p)
    ensures Resolvable(segs, p) ==> Resolvable(segs + [s], p)
  {
    hide Boundary;
    var r := segs + [s];
    if i :| 0 <= i < |segs| && segs[i].id == p.seg { assert r[i].id == p.seg; }
  }

  /** Opening a fresh segment changes nothing a reader can see. */
  lemma EnsureActiveKeeps(crc: Checksum, b: Buf)
    requires Wf(crc, b)
    ensures var r := b.(segs := EnsureActive(b.segs)); Wf(crc, r) && All(crc, r.segs) == All(crc, b.segs)
    ensures Resolvable(b.segs, b.cur) ==> Resolvable(EnsureActive(b.segs), b.cur)
  {
    hide All, Aligned, SegsOk, CursorOk, Resolvable;
    if !HasActive(b.segs) {
      var s := Seg(NextId(b.segs), [], false, true, 0, None);
      AllLast(crc, b.segs, s);
      ReadPastEnd(crc, s, 0);
      BytesConcat(b.segs, [s]);
      EmptyWhole(crc);
      ClosedFront(crc, b.segs);
      SnocOk(crc, b.segs, s);
      CursorSnoc(crc, b.segs, s, b.cur);
      CursorSnoc(crc, b.segs, s, b.saved);
    }
  }

  lemma EmptyWhole(crc: Checksum)
    ensures Whole(crc, [], 0)
  {
  }

  lemma ReadWritten(crc: Checksum, o: Opts, s: Seg, payload: seq<byte>, now: int64)
    requires s.file && Whole(crc, s.data, 0)
    ensures var s' := Written(crc, o, s, payload, now);
            && (Read(crc, s', 0) == Read(crc, s, 0) + [Entry(payload, now, s.id, |s'.data|)]
                <==> |payload| <= MAX_RECORD_BYTES)
            && (|payload| <= MAX_RECORD_BYTES ==> Whole(crc, s'.data, 0))
  {
    hide Parse, Whole;
    ParseAppend(crc, s.data, 0, payload, now);
    var s' := Written(crc, o, s, payload, now);
    var ds, ds' := Parse(crc, s.data, 0), Parse(crc, s'.data, 0);
    ParsedAll(crc, s.data, 0);
    ParsedAll(crc, s'.data, 0);
    TaggedInjective(s.id, ds', ds + [Rec(payload, now, |s'.data|)]);
    TaggedConcat(s.id, ds, [Rec(payload, now, |s'.data|)]);
  }

  lemma {:induction false} ParsedAll(crc: Checksum, data: seq<byte>, off: nat)
    ensures forall d | d in Parse(crc, data, off) :: d.Rec?
  {
  }

  lemma TaggedInjective(id: nat, a: seq<Decoded>, b: seq<Decoded>)
    requires (forall d | d in a :: d.Rec?) && (forall d | d in b :: d.Rec?)
    ensures Tagged(id, a) == Tagged(id, b) <==> a == b
  {
    var ta, tb := Tagged(id, a), Tagged(id, b);
    if ta == tb {
      forall i | 0 <= i < |a|
        ensures a[i] == b[i]
      {
        assert a[i] in a && b[i] in b && ta[i] == tb[i];
      }
    }
  }

  lemma WriteSegs(crc: Checksum, o: Opts, b: Buf, payload: seq<byte>, now: int64)
    ensures var segs := EnsureActive(b.segs); var n := |segs| - 1; var w := Write(crc, o, b, payload, now);
            && w.segs == segs[..n] + [Written(crc, o, segs[n], payload, now)]
            && w.cur == b.cur && w.saved == b.saved
  {
    hide Written;
  }

  /** Append puts its record, and nothing else, at the end of the log - if and only if the
      payload is no longer than what a reader accepts. */
  lemma WriteAppends(crc: Checksum, o: Opts, b: Buf, payload: seq<byte>, now: int64)
    requires Wf(crc, b)
    ensures All(crc, Write(crc, o, b, payload, now).segs) == All(crc, b.segs) + [NewEntry(b, payload, now)]
            <==> |payload| <= MAX_RECORD_BYTES
    ensures !Passed(NewEntry(b, payload, now), b.cur) && !Passed(NewEntry(b, payload, now), b.saved)
  {
    hide All, Read, SegsOk, CursorOk, Written, Write, FrontOk, Whole;
    EnsureActiveKeeps(crc, b);
    var segs := EnsureActive(b.segs);
    WriteSegs(crc, o, b, payload, now);
    var n := |segs| - 1;
    var s, e := segs[n], NewEntry(b, payload, now);
    LastOk(crc, segs);
    var s' := Written(crc, o, s, payload, now);
    ReadWritten(crc, o, s, payload, now);
    WrittenShape(crc, o, s, payload, now);
    AllLast(crc, segs[..n], s);
    AllLast(crc, segs[..n], s');
    SuffixEqual(All(crc, segs[..n]), Read(crc, s, 0), Read(crc, s', 0), e);
    NotPassed(crc, segs, b.cur, e);
    NotPassed(crc, segs, b.saved, e);
  }

  /** The queue after an append is the queue before it with the new record at the back. */
  lemma WriteEnqueues(crc: Checksum, o: Opts, b: Buf, payload: seq<byte>, now: int64)
    requires Wf(crc, b) && |payload| <= MAX_RECORD_BYTES
    ensures Undelivered(crc, Write(crc, o, b, payload, now)) == Undelivered(crc, b) + [NewEntry(b, payload, now)]
  {
    hide All, Write, Wf, NewEntry;
    WriteAppends(crc, o, b, payload, now);
    WriteSegs(crc, o, b, payload, now);
    AfterConcat(All(crc, b.segs), [NewEntry(b, payload, now)], b.cur);
  }

  lemma SuffixEqual(front: seq<Entry>, a: seq<Entry>, c: seq<Entry>, e: Entry)
    ensures front + c == (front + a) + [e] <==> c == a + [e]
  {
    assert (front + c)[|front|..] == c;
    assert ((front + a) + [e])[|front|..] == a + [e];
    if c == a + [e] { assert front + c == (front + a) + [e]; }
  }

  lemma WrittenShape(crc: Checksum, o: Opts, s: Seg, payload: seq<byte>, now: int64)
    requires s.file && !s.sealed && s.synced <= |s.data|
    ensures var s' := Written(crc, o, s, payload, now);
            && s'.id == s.id && s.data <= s'.data && |s'.data| == |s.data| + HEADER_BYTES + |payload|
            && (s'.file ==> !s'.sealed) && (!s'.file ==> s'.synced == |s'.data|) && s'.synced <= |s'.data|
  {
  }

  lemma NotPassed(crc: Checksum, segs: seq<Seg>, p: Pos, e: Entry)
    requires CursorOk(crc, segs, p) && HasActive(segs)
    requires var s := segs[|segs| - 1]; e.seg == s.id && |s.data| < e.end
    ensures !Passed(e, p)
  {
  }

  lemma WriteKeepsWf(crc: Checksum, o: Opts, b: Buf, payload: seq<byte>, now: int64)
    requires Wf(crc, b) && |payload| <= MAX_RECORD_BYTES
    ensures Wf(crc, Write(crc, o, b, payload, now))
    ensures Resolvable(b.segs, b.cur) ==> Resolvable(Write(crc, o, b, payload, now).segs, b.cur)
  {
    hide All, Read, SegsOk, CursorOk, FrontOk, Whole, Resolvable;
    EnsureActiveKeeps(crc, b);
    var segs := EnsureActive(b.segs);
    var n := |segs| - 1;
    var s := segs[n];
    var s' := Written(crc, o, s, payload, now);
    LastOk(crc, segs);
    WrittenShape(crc, o, s, payload, now);
    ReadWritten(crc, o, s, payload, now);
    SnocOk(crc, segs[..n], s');
    CursorReplaced(crc, segs[..n], s, s', b.cur);
    CursorReplaced(crc, segs[..n], s, s', b.saved);
    BytesConcat(segs[..n], [s]);
    BytesConcat(segs[..n], [s']);
  }

  lemma CursorReplaced(crc: Checksum, front: seq<Seg>, s: Seg, s': Seg, p: Pos)
    requires CursorOk(crc, front + [s], p) && s.file && Whole(crc, s.data, 0)
    requires s.id == s'.id && s.data <= s'.data
    ensures CursorOk(crc, front + [s'], p)
    ensures Resolvable(front + [s], p) ==> Resolvable(front + [s'], p)
  {
    hide Whole, Boundary;
    var a, c := front + [s], front + [s'];
    assert s in a && a[|a| - 1] == s && c[|c| - 1] == s';
    AlignedGrows(crc, s, s', p);
    assert forall t | t in c :: t == s' || t in a;
    if i :| 0 <= i < |a| && a[i].id == p.seg { assert c[i].id == p.seg; }
  }

  lemma AlignedGrows(crc: Checksum, s: Seg, s': Seg, p: Pos)
    requires Aligned(crc, s, p) && s.id == s'.id && s.data <= s'.data && Whole(crc, s.data, 0)
    requires p.seg == s.id ==> p.off <= |s.data|
    ensures Aligned(crc, s', p)
  {
    if s.id == p.seg {
      if p.off == |s.data| { ScanEndIsBoundary(crc, s.data, 0); }
      BoundaryExtend(crc, s.data, s'.data, 0, p.off);
    }
  }

  // ---------- behind a record too long to read ----------

  /** The open segment holds a record no reader gets past. */
  predicate Stuck(crc: Checksum, segs: seq<Seg>)
  {
    HasActive(segs) && var s := segs[|segs| - 1]; Decode(crc, s.data, ScanEnd(crc, s.data, 0)).Corrupt?
  }

  /** Whatever is appended to it is stored and never read, until the segment is full. */
  lemma StuckHides(crc: Checksum, o: Opts, b: Buf, payload: seq<byte>, now: int64)
    requires Stuck(crc, b.segs)
    ensures var w := Write(crc, o, b, payload, now);
            All(crc, w.segs) == All(crc, b.segs) && (HasActive(w.segs) ==> Stuck(crc, w.segs))
  {
    WriteSegs(crc, o, b, payload, now);
    var n := |b.segs| - 1;
    var s := b.segs[n];
    var s' := Written(crc, o, s, payload, now);
    CorruptHides(crc, s.data, 0, Encode(crc, payload, now));
    CorruptStays(crc, s.data, ScanEnd(crc, s.data, 0), Encode(crc, payload, now));
    assert s'.data == s.data + Encode(crc, payload, now) && s'.id == s.id;
    SameParse(crc, s, s');
    hide All, Written, Decode, Encode, ScanEnd, Read;
    assert b.segs == b.segs[..n] + [s];
    AllLast(crc, b.segs[..n], s);
    AllLast(crc, b.segs[..n], s');
  }

  lemma SameParse(crc: Checksum, s: Seg, t: Seg)
    requires s.id == t.id && Parse(crc, s.data, 0) == Parse(crc, t.data, 0)
    ensures Read(crc, s, 0) == Read(crc, t, 0)
  {
    hide Parse;
  }

  /** A payload whose length field exceeds the limit is stored, is not readable, and hides every
      record stored behind it in its segment, however short. */
  lemma TooLongHides(crc: Checksum, o: Opts, b: Buf, long: seq<byte>, at: int64, payload: seq<byte>, now: int64)
    requires Wf(crc, b) && |long| % 0x1_0000_0000 > MAX_RECORD_BYTES
    requires HasActive(Write(crc, o, b, long, at).segs)
    ensures var b1 := Write(crc, o, b, long, at);
            && Stuck(crc, b1.segs) && All(crc, b1.segs) == All(crc, b.segs)
            && All(crc, Write(crc, o, b1, payload, now).segs) == All(crc, b.segs)
  {
    var b1 := Write(crc, o, b, long, at);
    EnsureActiveKeeps(crc, b);
    WriteSegs(crc, o, b, long, at);
    var segs := EnsureActive(b.segs);
    var n := |segs| - 1;
    var s := segs[n];
    var s' := Written(crc, o, s, long, at);
    assert s'.data == s.data + Encode(crc, long, at) && s'.id == s.id;
    hide All, Encode, Decode, Written, Write, ScanEnd, Read, Whole;
    LastOk(crc, segs);
    TooLongStops(crc, s.data, 0, long, at);
    SameParse(crc, s, s');
    AllLast(crc, segs[..n], s);
    AllLast(crc, segs[..n], s');
    StuckHides(crc, o, b1, payload, now);
  }

  // ---------- reclaim ----------

  predicate Gone(s: Seg, cur: Pos, removable: set<nat>) { s.id < cur.seg && s.sealed && s.id in removable }

  lemma {:induction false} KeptMembers(segs: seq<Seg>, cur: Pos, removable: set<nat>, s: Seg)
    ensures s in Kept(segs, cur, removable) <==> s in segs && !Gone(s, cur, removable)
  {
    if segs != [] {
      KeptMembers(segs[1..], cur, removable, s);
      assert s in segs <==> s == segs[0] || s in segs[1..];
    }
  }

  lemma {:induction false} KeptIncreasing(segs: seq<Seg>, cur: Pos, removable: set<nat>)
    requires Increasing(segs)
    ensures Increasing(Kept(segs, cur, removable))
  {
    if segs != [] {
      KeptIncreasing(segs[1..], cur, removable);
      var kept := Kept(segs[1..], cur, removable);
      forall i | 0 <= i < |kept|
        ensures segs[0].id < kept[i].id
      {
        KeptMembers(segs[1..], cur, removable, kept[i]);
        assert kept[i] in kept;
      }
    }
  }

  lemma {:induction false} KeptLast(segs: seq<Seg>, cur: Pos, removable: set<nat>)
    requires segs != [] && cur.seg <= segs[|segs| - 1].id
    ensures var kept := Kept(segs, cur, removable); kept != [] && kept[|kept| - 1] == segs[|segs| - 1]
  {
    if |segs| > 1 {
      assert segs[1..][|segs| - 2] == segs[|segs| - 1];
      KeptLast(segs[1..], cur, removable);
    }
  }

  lemma {:induction false} KeptBytes(segs: seq<Seg>, cur: Pos, removable: set<nat>)
    ensures Bytes(Kept(segs, cur, removable)) <= Bytes(segs)
  {
    if segs != [] {
      KeptBytes(segs[1..], cur, removable);
      assert ([segs[0]] + Kept(segs[1..], cur, removable))[1..] == Kept(segs[1..], cur, removable);
    }
  }

  lemma {:induction false} KeptAfter(crc: Checksum, segs: seq<Seg>, cur: Pos, removable: set<nat>)
    ensures After(All(crc, Kept(segs, cur, removable)), cur) == After(All(crc, segs), cur)
  {
    hide Read;
    if segs != [] {
      var s, rest := segs[0], segs[1..];
      KeptAfter(crc, rest, cur, removable);
      var kept := Kept(rest, cur, removable);
      AfterConcat(Read(crc, s, 0), All(crc, rest), cur);
      if Gone(s, cur, removable) {
        forall e | e in Read(crc, s, 0)
          ensures Passed(e, cur)
        {
          ReadIds(crc, s, 0, e);
        }
        AfterNone(Read(crc, s, 0), cur);
      } else {
        AfterConcat(Read(crc, s, 0), All(crc, kept), cur);
        assert ([s] + kept)[1..] == kept;
      }
    }
  }

  lemma {:induction false} KeptSegsOk(crc: Checksum, segs: seq<Seg>, cur: Pos, removable: set<nat>)
    requires SegsOk(crc, segs) && InReach(segs, cur)
    ensures SegsOk(crc, Kept(segs, cur, removable))
  {
    hide SegOk;
    var kept := Kept(segs, cur, removable);
    KeptIncreasing(segs, cur, removable);
    if segs != [] { KeptLast(segs, cur, removable); }
    forall i | 0 <= i < |kept|
      ensures 1 <= kept[i].id && SegOk(crc, kept[i], i == |kept| - 1)
    {
      assert kept[i] in kept;
      KeptMembers(segs, cur, removable, kept[i]);
      var j :| 0 <= j < |segs| && segs[j] == kept[i];
      assert segs[j].id == kept[i].id;
      assert i < |kept| - 1 ==> kept[i].id < kept[|kept| - 1].id;
      assert j < |segs| - 1 ==> segs[j].id < segs[|segs| - 1].id;
    }
  }

  lemma {:induction false} KeptCursorOk(crc: Checksum, segs: seq<Seg>, cur: Pos, removable: set<nat>, p: Pos)
    requires InReach(segs, cur) && CursorOk(crc, segs, p)
    ensures CursorOk(crc, Kept(segs, cur, removable), p)
  {
    hide Aligned;
    if segs != [] { KeptLast(segs, cur, removable); }
    forall s | s in Kept(segs, cur, removable)
      ensures Aligned(crc, s, p)
    {
      KeptMembers(segs, cur, removable, s);
    }
  }

  lemma {:induction false} KeptResolvable(segs: seq<Seg>, cur: Pos, removable: set<nat>)
    requires Increasing(segs) && Resolvable(segs, cur)
    ensures Resolvable(Kept(segs, cur, removable), cur)
  {
    var kept := Kept(segs, cur, removable);
    if kept != [] {
      assert kept[0] in kept;
      KeptMembers(segs, cur, removable, kept[0]);
      if i :| 0 <= i < |segs| && segs[i].id == cur.seg {
        KeptMembers(segs, cur, removable, segs[i]);
        var j :| 0 <= j < |kept| && kept[j] == segs[i];
        assert kept[j].id == cur.seg;
      }
    }
  }

  /** Reclaiming never loses an undelivered record, never makes a findable place unfindable,
      and accounts for every byte it frees. */
  lemma ReclaimKeeps(crc: Checksum, b: Buf, removable: set<nat>)
    requires Wf(crc, b)
    ensures var r := Reclaim(b, removable);
            && Wf(crc, r)
            && Undelivered(crc, r) == Undelivered(crc, b)
            && (Resolvable(b.segs, b.cur) ==> Resolvable(r.segs, r.cur))
  {
    hide All, Aligned, SegOk, Resolvable;
    KeptSegsOk(crc, b.segs, b.cur, removable);
    KeptCursorOk(crc, b.segs, b.cur, removable, b.cur);
    KeptCursorOk(crc, b.segs, b.cur, removable, b.saved);
    KeptAfter(crc, b.segs, b.cur, removable);
    KeptBytes(b.segs, b.cur, removable);
    if Resolvable(b.segs, b.cur) { KeptResolvable(b.segs, b.cur, removable); }
  }

  // ---------- acknowledge ----------

  /** A position the cursor may be moved to: the end of a record on disk, or a place in a
      segment that has been deleted meanwhile. */
  predicate Ackable(crc: Checksum, b: Buf, e: Entry)
  {
    && b.segs != []
    && (e in All(crc, b.segs)
        || (e.seg < b.segs[|b.segs| - 1].id && forall s | s in b.segs :: s.id != e.seg))
  }

  lemma AckSavedKeepsWf(crc: Checksum, b: Buf, e: Entry)
    requires Wf(crc, b) && Ackable(crc, b, e)
    ensures Wf(crc, AckSaved(b, e))
    ensures Resolvable(b.segs, Pos(e.seg, e.end)) <==> e in All(crc, b.segs) || e.seg < b.segs[0].id
  {
    hide Parse, Read, All;
    var p := Pos(e.seg, e.end);
    var last := b.segs[|b.segs| - 1];
    if e in All(crc, b.segs) {
      var i := AllInSegment(crc, b.segs, e);
      forall s | s in b.segs
        ensures Aligned(crc, s, p)
      {
        if s.id == e.seg {
          var j :| 0 <= j < |b.segs| && b.segs[j] == s;
          assert i == j;
          EntryIsBoundary(crc, s, e);
        }
      }
    } else {
      assert forall i | 0 <= i < |b.segs| :: b.segs[i] in b.segs && b.segs[i].id != e.seg;
    }
  }

  lemma EntryIsBoundary(crc: Checksum, s: Seg, e: Entry)
    requires e in Read(crc, s, 0)
    ensures Boundary(crc, s.data, 0, e.end)
  {
    var ds, es := Parse(crc, s.data, 0), Read(crc, s, 0);
    var i :| 0 <= i < |es| && es[i] == e;
    assert ds[i] in ds && ds[i].endOff == e.end;
    hide Parse;
    ParsedEndIsBoundary(crc, s.data, 0, ds[i]);
  }

  /** The (k+1)-th record a reader gets is on disk, and everything before it in the queue and
      nothing after it is at or behind its end. */
  lemma EntryAt(crc: Checksum, b: Buf, k: nat)
    requires Wf(crc, b) && k < |Undelivered(crc, b)|
    ensures var q := Undelivered(crc, b);
            && q[k] in All(crc, b.segs)
            && After(All(crc, b.segs), Pos(q[k].seg, q[k].end)) == q[k + 1..]
  {
    hide All;
    var all, q := All(crc, b.segs), Undelivered(crc, b);
    var e := q[k];
    AllInOrder(crc, b.segs);
    var i := AfterSuffix(all, b.cur);
    var j := AfterSuffix(all, Pos(e.seg, e.end));
    var x := i + k + 1;
    assert all[x - 1] == e;
    assert x < |all| ==> Before(e, all[x]);
    assert j == x;
    assert all[i..][k + 1..] == all[j..];
  }

  /** Ack of the k-th record returned drops exactly the records through it, however many
      segments are reclaimed on the way, and the reader still finds its place. */
  lemma AckDrops(crc: Checksum, b: Buf, k: nat, removable: set<nat>)
    requires Wf(crc, b) && Resolvable(b.segs, b.cur) && k < |Undelivered(crc, b)|
    ensures var b' := Ack(b, Undelivered(crc, b)[k], removable);
            && Wf(crc, b')
            && Undelivered(crc, b') == Undelivered(crc, b)[k + 1..]
            && Resolvable(b'.segs, b'.cur)
  {
    hide All;
    var e := Undelivered(crc, b)[k];
    EntryAt(crc, b, k);
    var i := AllInSegment(crc, b.segs, e);
    AckSavedKeepsWf(crc, b, e);
    ReclaimKeeps(crc, AckSaved(b, e), removable);
  }

  // ---------- bytes pending ----------

  /** What PendingBytes adds up. */
  function Pending(segs: seq<Seg>, cur: Pos): (n: nat)
  {
    if segs == [] then 0
    else
      var s := segs[0];
      (if s.id > cur.seg then |s.data|
       else if s.id == cur.seg && |s.data| > cur.off then |s.data| - cur.off
       else 0) + Pending(segs[1..], cur)
  }

  /** PendingBytes is the framed size of the undelivered records. */
  lemma {:induction false} PendingIsFramed(crc: Checksum, segs: seq<Seg>, cur: Pos)
    requires forall s | s in segs :: Whole(crc, s.data, 0) && Aligned(crc, s, cur)
    ensures Pending(segs, cur) == Framed(After(All(crc, segs), cur))
  {
    hide Parse, Boundary, Whole;
    if segs != [] {
      var s, rest := segs[0], segs[1..];
      PendingIsFramed(crc, rest, cur);
      var es := Read(crc, s, 0);
      AfterConcat(es, All(crc, rest), cur);
      FramedConcat(After(es, cur), After(All(crc, rest), cur));
      if s.id > cur.seg {
        AfterEvery(es, cur);
        ReadBytes(crc, s, 0);
      } else if s.id < cur.seg {
        AfterNone(es, cur);
      } else {
        ReadIsAfter(crc, s, cur);
        if |s.data| > cur.off {
          WholeFromBoundary(crc, s.data, 0, cur.off);
          ReadBytes(crc, s, cur.off);
        } else {
          ReadPastEnd(crc, s, cur.off);
        }
      }
    }
  }

  /** PendingBytes is the framed size of exactly the records later reads return, if and only
      if the reader finds its place or there is nothing left to read. */
  lemma PendingBytesExact(crc: Checksum, b: Buf)
    requires Wf(crc, b)
    ensures Pending(b.segs, b.cur) == Framed(From(crc, b.segs, b.cur))
            <==> Resolvable(b.segs, b.cur) || Undelivered(crc, b) == []
  {
    hide All;
    assert forall s | s in b.segs :: Whole(crc, s.data, 0) && Aligned(crc, s, b.cur) by {
      forall s | s in b.segs
        ensures Whole(crc, s.data, 0)
      {
        var i :| 0 <= i < |b.segs| && b.segs[i] == s;
        assert SegOk(crc, b.segs[i], i == |b.segs| - 1);
      }
    }
    PendingIsFramed(crc, b.segs, b.cur);
    ReadsReturn(crc, b.segs, b.cur);
  }

  // ---------- crash and recovery ----------

  lemma RecoveredFacts(crc: Checksum, o: Opts, s: Seg, disk: Seg, last: bool, p: Pos)
    requires Whole(crc, s.data, 0) && Aligned(crc, s, p) && disk.data <= s.data && disk.id == s.id
    ensures var r := Recovered(crc, o, disk, last);
            && Whole(crc, r.data, 0) && Aligned(crc, r, p)
            && (forall e :: e in Read(crc, r, 0) <==> e in Read(crc, s, 0) && e.end <= |disk.data|)
            && (disk.data == s.data ==> r.data == s.data)
  {
    hide Decode, Parse, Boundary, ScanEnd;
    var k := |disk.data|;
    assert disk.data == s.data[..k];
    var kept, torn := ParseCut(crc, s.data, k, 0);
    var n := ScanEnd(crc, disk.data, 0);
    ScanInRange(crc, disk.data);
    ParseTruncated(crc, disk.data, 0, n);
    var r := Recovered(crc, o, disk, last);
    assert Parse(crc, r.data, 0) == kept;
    assert r.data == s.data[..n];
    if s.id == p.seg && p.off < n {
      BoundaryCut(crc, s.data, n, 0, p.off);
    }
    ParsedAll(crc, s.data, 0);
    TaggedConcat(s.id, kept, torn);
    var a, c := Tagged(s.id, kept), Tagged(s.id, torn);
    assert Read(crc, s, 0) == a + c && Read(crc, r, 0) == a;
    forall e
      ensures e in a <==> e in a + c && e.end <= k
    {
      if e in a { var i :| 0 <= i < |a| && a[i] == e; assert kept[i] in kept; }
      if e in c { var i :| 0 <= i < |c| && c[i] == e; assert torn[i] in torn; }
    }
    if disk.data == s.data { assert s.data[..k] == s.data; }
  }

  lemma {:induction false} ScanInRange(crc: Checksum, data: seq<byte>)
    ensures ScanEnd(crc, data, 0) <= |data|
  {
  }

  /** One segment across a crash. */
  lemma OpenAt(crc: Checksum, o: Opts, b: Buf, disk: seq<Seg>, i: nat)
    requires Wf(crc, b) && Survives(b.segs, disk) && i < |disk|
    ensures var r := RecoveredAll(crc, o, disk)[i];
            && r.id == b.segs[i].id && !r.file && 1 <= r.id
            && SegOk(crc, r, i == |disk| - 1) && Aligned(crc, r, b.saved)
            && (forall e :: e in Read(crc, r, 0) <==> e in Read(crc, b.segs[i], 0) && e.end <= |disk[i].data|)
  {
    hide Decode, Parse, Read, Recovered, Aligned, Whole;
    assert b.segs[i] in b.segs && SegOk(crc, b.segs[i], i == |b.segs| - 1);
    RecoveredFacts(crc, o, b.segs[i], disk[i], i == |disk| - 1, b.saved);
    RecoveredShape(crc, o, disk[i], i == |disk| - 1);
  }

  lemma OpenIds(crc: Checksum, o: Opts, b: Buf, disk: seq<Seg>)
    requires Wf(crc, b) && Survives(b.segs, disk)
    ensures var r := RecoveredAll(crc, o, disk); forall i | 0 <= i < |disk| :: r[i].id == b.segs[i].id
  {
    hide Recovered, Wf;
    forall i | 0 <= i < |disk|
      ensures RecoveredAll(crc, o, disk)[i].id == b.segs[i].id
    {
      OpenAt(crc, o, b, disk, i);
    }
  }

  lemma OpenWf(crc: Checksum, o: Opts, b: Buf, disk: seq<Seg>)
    requires Wf(crc, b) && Survives(b.segs, disk)
    ensures Wf(crc, Open(crc, o, disk, b.saved))
  {
    hide Decode, Parse, Read, Recovered, RecoveredAll, Aligned, SegOk;
    var r := RecoveredAll(crc, o, disk);
    OpenIds(crc, o, b, disk);
    assert |r| == |disk| by { OpenLength(crc, o, disk); }
    forall i | 0 <= i < |r|
      ensures 1 <= r[i].id && SegOk(crc, r[i], i == |r| - 1) && Aligned(crc, r[i], b.saved) && !r[i].file
    {
      OpenAt(crc, o, b, disk, i);
    }
  }

  lemma OpenLength(crc: Checksum, o: Opts, disk: seq<Seg>)
    ensures |RecoveredAll(crc, o, disk)| == |disk|
  {
  }

  lemma OpenEntries(crc: Checksum, o: Opts, b: Buf, disk: seq<Seg>, e: Entry)
    requires Wf(crc, b) && Survives(b.segs, disk)
    ensures e in All(crc, RecoveredAll(crc, o, disk)) <==> e in All(crc, b.segs) && OnDisk(disk, e)
  {
    hide Decode, Parse, Read, All, Recovered, RecoveredAll, Aligned, SegOk;
    var r := RecoveredAll(crc, o, disk);
    OpenLength(crc, o, disk);
    AllMembers(crc, r, e);
    AllMembers(crc, b.segs, e);
    if i :| 0 <= i < |b.segs| && e in Read(crc, b.segs[i], 0) {
      ReadIds(crc, b.segs[i], 0, e);
      OpenAt(crc, o, b, disk, i);
      if OnDisk(disk, e) {
        var j :| 0 <= j < |disk| && disk[j].id == e.seg && e.end <= |disk[j].data|;
        assert b.segs[j].id == b.segs[i].id;
        assert e in Read(crc, r[i], 0);
      } else {
        assert |disk[i].data| < e.end;
      }
    }
    if i :| 0 <= i < |r| && e in Read(crc, r[i], 0) {
      OpenAt(crc, o, b, disk, i);
      ReadIds(crc, b.segs[i], 0, e);
      assert disk[i].id == e.seg;
    }
  }

  /** Recovery after a crash at any byte: the log is well formed again, nothing new appears,
      every record within the bytes that survived is still there, and the reader finds its
      place exactly when it would have found the persisted one before. */
  lemma OpenRecovers(crc: Checksum, o: Opts, b: Buf, disk: seq<Seg>)
    requires Wf(crc, b) && Survives(b.segs, disk)
    ensures var r := Open(crc, o, disk, b.saved);
            && Wf(crc, r)
            && (Resolvable(r.segs, r.cur) <==> Resolvable(b.segs, b.saved))
            && (forall e :: e in All(crc, r.segs) <==> e in All(crc, b.segs) && OnDisk(disk, e))
  {
    hide All, Wf, OnDisk, RecoveredAll, Survives;
    OpenWf(crc, o, b, disk);
    OpenIds(crc, o, b, disk);
    OpenLength(crc, o, disk);
    assert |disk| == |b.segs| by { SurvivesLength(b.segs, disk); }
    var r := RecoveredAll(crc, o, disk);
    forall e
      ensures e in All(crc, r) <==> e in All(crc, b.segs) && OnDisk(disk, e)
    {
      OpenEntries(crc, o, b, disk, e);
    }
    if i :| 0 <= i < |b.segs| && b.segs[i].id == b.saved.seg { assert r[i].id == b.saved.seg; }
  }

  lemma SurvivesLength(segs: seq<Seg>, disk: seq<Seg>)
    requires Survives(segs, disk)
    ensures |disk| == |segs|
  {
  }

  /** The crash left e's bytes in place. */
  predicate OnDisk(disk: seq<Seg>, e: Entry)
  {
    exists i :: 0 <= i < |disk| && disk[i].id == e.seg && e.end <= |disk[i].data|
  }

  lemma RecoveredShape(crc: Checksum, o: Opts, s: Seg, last: bool)
    ensures var r := Recovered(crc, o, s, last);
            r.id == s.id && !r.file && r.synced == |r.data| && r.data <= s.data && (!last ==> r.sealed)
  {
  }

  // ---------- reading from a position ----------

  lemma {:induction false} AllOfFirst(crc: Checksum, segs: seq<Seg>)
    requires segs != []
    ensures All(crc, segs) == Read(crc, segs[0], 0) + All(crc, segs[1..])
  {
  }

  lemma AllOfNone(crc: Checksum)
    ensures All(crc, []) == []
  {
  }

  lemma WfIncreasing(crc: Checksum, b: Buf)
    requires Wf(crc, b)
    ensures Increasing(b.segs)
  {
  }

  lemma {:induction false} FromAt(crc: Checksum, segs: seq<Seg>, p: Pos, i: nat)
    requires Increasing(segs) && i < |segs| && segs[i].id == p.seg
    ensures From(crc, segs, p) == Read(crc, segs[i], p.off) + All(crc, segs[i + 1..])
  {
    FoundAt(crc, segs, p, i);
  }

  lemma {:induction false} FoundAt(crc: Checksum, segs: seq<Seg>, p: Pos, i: nat)
    requires Increasing(segs) && i < |segs| && segs[i].id == p.seg
    ensures FromFound(crc, segs, p) == Read(crc, segs[i], p.off) + All(crc, segs[i + 1..])
  {
    hide Read, All;
    if i > 0 {
      assert segs[1..][i - 1] == segs[i] && segs[1..][i..] == segs[i + 1..];
      FoundAt(crc, segs[1..], p, i - 1);
    }
  }

  lemma WfWhole(crc: Checksum, b: Buf)
    requires Wf(crc, b)
    ensures forall s | s in b.segs :: Whole(crc, s.data, 0) && Aligned(crc, s, b.cur)
  {
    hide Whole, Aligned;
    forall s | s in b.segs
      ensures Whole(crc, s.data, 0)
    {
      var i :| 0 <= i < |b.segs| && b.segs[i] == s;
      assert SegOk(crc, b.segs[i], i == |b.segs| - 1);
    }
  }

  /** The place after the k-th undelivered record is one the reader finds. */
  lemma AllInSeg(crc: Checksum, b: Buf, k: nat)
    requires Wf(crc, b) && k < |Undelivered(crc, b)|
    ensures var e := Undelivered(crc, b)[k];
            && Resolvable(b.segs, Pos(e.seg, e.end))
            && forall s | s in b.segs :: Aligned(crc, s, Pos(e.seg, e.end))
  {
    hide All, Aligned;
    var e := Undelivered(crc, b)[k];
    EntryAt(crc, b, k);
    var i := AllInSegment(crc, b.segs, e);
    AckSavedKeepsWf(crc, b, e);
  }
}
