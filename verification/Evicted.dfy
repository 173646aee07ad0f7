/** What an eviction does to the queue, to what reads return, and to the next record stored:
    segment ids can be used again, below the cursor or under the persisted one. */
module Evicted {
  import opened Basics
  import opened Frame
  import opened SegmentLog
  import opened Queue
  import opened Evict
  import AtLeastOnce
  import Resume

  // ---------- which positions see the next record ----------

  /** The segments are sound and the byte count is right; the cursors may be anywhere. */
  ghost predicate Sound(crc: Checksum, b: Buf) { SegsOk(crc, b.segs) && b.total == Bytes(b.segs) }

  /** From p, reads reach the next record stored: p lies before every segment, names one of
      them, or is the very start of the segment that will be opened. */
  predicate Finds(segs: seq<Seg>, p: Pos)
  {
    || p.seg < (if segs == [] then 1 else segs[0].id)
    || (exists i :: 0 <= i < |segs| && segs[i].id == p.seg)
    || (!HasActive(segs) && p == Pos(NextId(segs), 0))
  }

  lemma RestartWf(crc: Checksum, b: Buf)
    requires Sound(crc, b)
    ensures Wf(crc, b.(cur := Pos(0, 0), saved := Pos(0, 0)))
  {
    hide SegOk;
  }

  lemma WriteParts(crc: Checksum, o: Opts, b: Buf, payload: seq<byte>, now: int64)
    requires Sound(crc, b) && |payload| <= MAX_RECORD_BYTES
    ensures var w := Write(crc, o, b, payload, now);
            && All(crc, w.segs) == All(crc, b.segs) + [NewEntry(b, payload, now)] && SegsOk(crc, w.segs)
            && w.cur == b.cur && w.saved == b.saved
  {
    hide All, Wf, Write, NewEntry, SegsOk;
    var c := b.(cur := Pos(0, 0), saved := Pos(0, 0));
    RestartWf(crc, b);
    WriteAppends(crc, o, c, payload, now);
    WriteKeepsWf(crc, o, c, payload, now);
    SameWrite(crc, o, b, c, payload, now);
    SameWrite(crc, o, c, b, payload, now);
    WfSegs(crc, Write(crc, o, c, payload, now));
  }

  lemma WfSegs(crc: Checksum, b: Buf)
    requires Wf(crc, b)
    ensures SegsOk(crc, b.segs) && Sound(crc, b)
  {
  }

  /** A record read at or beyond off ends past it by at least its own framed size. */
  lemma {:induction false} ReadsBeyond(crc: Checksum, s: Seg, off: nat, e: Entry)
    requires e in Read(crc, s, off)
    ensures e.end >= off + HEADER_BYTES + |e.payload|
  {
    var ds := Parse(crc, s.data, off);
    var es := Read(crc, s, off);
    var i :| 0 <= i < |es| && es[i] == e;
    ParsedBeyond(crc, s.data, off, ds[i]);
  }

  lemma {:induction false} ParsedBeyond(crc: Checksum, data: seq<byte>, off: nat, r: Decoded)
    requires r in Parse(crc, data, off)
    ensures r.Rec? && r.endOff >= off + HEADER_BYTES + |r.payload|
    decreases |data| - off
  {
    hide Decode;
    DecodeEnds(crc, data, off);
    var d := Decode(crc, data, off);
    if r != d { ParsedBeyond(crc, data, d.endOff, r); }
  }

  lemma DecodeEnds(crc: Checksum, data: seq<byte>, off: nat)
    ensures var d := Decode(crc, data, off);
            d.Rec? ==> off < d.endOff <= |data| && d.endOff == off + HEADER_BYTES + |d.payload|
  {
  }

  /** What a write leaves when it opens a segment. */
  lemma NewShape(crc: Checksum, o: Opts, b: Buf, payload: seq<byte>, now: int64) returns (w: Seg)
    requires Sound(crc, b) && !HasActive(b.segs) && |payload| <= MAX_RECORD_BYTES
    ensures var ne := NewEntry(b, payload, now); var segs := Write(crc, o, b, payload, now).segs;
            && segs == b.segs + [w] && Read(crc, w, 0) == [ne] && w.id == NextId(b.segs)
            && ne.end == HEADER_BYTES + |ne.payload| && Increasing(segs) && ne in All(crc, segs)
  {
    var blank := Seg(NextId(b.segs), [], false, true, 0, None);
    hide Read, All, Encode, Written, SegOk, Write, NewEntry;
    w := Written(crc, o, blank, payload, now);
    NewIs(b, blank, payload, now);
    EmptyWhole(crc);
    ReadWritten(crc, o, blank, payload, now);
    ReadPastEnd(crc, blank, 0);
    WriteSegs(crc, o, b, payload, now);
    WrittenShape(crc, o, blank, payload, now);
    WriteParts(crc, o, b, payload, now);
    hide EnsureActive;
  }

  lemma NewIs(b: Buf, blank: Seg, payload: seq<byte>, now: int64)
    requires !HasActive(b.segs) && blank == Seg(NextId(b.segs), [], false, true, 0, None)
    ensures NewEntry(b, payload, now) == Entry(payload, now, blank.id, HEADER_BYTES + |payload|)
    ensures var e := EnsureActive(b.segs); e == b.segs + [blank] && e[..|e| - 1] == b.segs && e[|e| - 1] == blank
  {
  }

  /** A new segment: the record in it is read from p exactly when p finds it. */
  lemma SeenInNew(crc: Checksum, o: Opts, b: Buf, payload: seq<byte>, now: int64, p: Pos)
    requires Sound(crc, b) && !HasActive(b.segs) && |payload| <= MAX_RECORD_BYTES
    ensures NewEntry(b, payload, now) in From(crc, Write(crc, o, b, payload, now).segs, p) <==> Finds(b.segs, p)
  {
    hide Read, All, FromFound, Write, NewEntry, Sound;
    var w := NewShape(crc, o, b, payload, now);
    var ne := NewEntry(b, payload, now);
    var segs := Write(crc, o, b, payload, now).segs;
    SameIds(b.segs, w, p);
    if i :| p.seg >= segs[0].id && 0 <= i < |segs| && segs[i].id == p.seg {
      FromAt(crc, segs, p, i);
      LastOnly(crc, segs, i, p, ne);
    } else if p.seg >= segs[0].id {
      FoundNothing(crc, segs, p);
    }
  }

  lemma SameIds(segs: seq<Seg>, w: Seg, p: Pos)
    requires w.id == NextId(segs) && !HasActive(segs) && Increasing(segs + [w])
    ensures var all := segs + [w];
            Finds(segs, p) <==> p.seg < all[0].id || exists i ::
                  0 <= i < |all| && all[i].id == p.seg && (i < |segs| || p.off == 0)
  {
    var all := segs + [w];
    if i :| 0 <= i < |segs| && segs[i].id == p.seg { assert all[i].id == p.seg; }
    assert all[|segs|] == w;
  }

  lemma LastOnly(crc: Checksum, segs: seq<Seg>, i: nat, p: Pos, ne: Entry)
    requires i < |segs| && p.seg == segs[i].id && Increasing(segs)
    requires var w := segs[|segs| - 1]; Read(crc, w, 0) == [ne] && ne.end == HEADER_BYTES + |ne.payload|
    ensures ne in Read(crc, segs[i], p.off) + All(crc, segs[i + 1..]) <==> i < |segs| - 1 || p.off == 0
  {
    hide Read, All;
    var n := |segs| - 1;
    if i < n {
      InSegs(crc, segs[i + 1..], segs[n], ne);
    } else {
      assert segs[i + 1..] == [];
      AllOfNone(crc);
      if p.off > 0 && ne in Read(crc, segs[i], p.off) { ReadsBeyond(crc, segs[i], p.off, ne); }
    }
  }

  /** The next record is read from p exactly when p finds it. */
  lemma NextSeen(crc: Checksum, o: Opts, b: Buf, payload: seq<byte>, now: int64, p: Pos)
    requires Sound(crc, b) && |payload| <= MAX_RECORD_BYTES && (HasActive(b.segs) ==> CursorOk(crc, b.segs, p))
    ensures NewEntry(b, payload, now) in From(crc, Write(crc, o, b, payload, now).segs, p) <==> Finds(b.segs, p)
  {
    if !HasActive(b.segs) {
      SeenInNew(crc, o, b, payload, now, p);
    } else {
      hide All, From, Undelivered, SegsOk, CursorOk, NewEntry, Write;
      var c := b.(cur := p, saved := p);
      assert Wf(crc, c);
      WriteAppends(crc, o, c, payload, now);
      WriteKeepsWf(crc, o, c, payload, now);
      SameWrite(crc, o, b, c, payload, now);
      hide Wf;
      var w := Write(crc, o, c, payload, now);
      AtLeastOnce.WfReads(crc, w);
      UndeliveredMember(crc, w, NewEntry(c, payload, now));
      ActiveIds(crc, o, c, payload, now);
    }
  }

  lemma SameWrite(crc: Checksum, o: Opts, b: Buf, c: Buf, payload: seq<byte>, now: int64)
    requires b.segs == c.segs
    ensures Write(crc, o, b, payload, now).segs == Write(crc, o, c, payload, now).segs
    ensures NewEntry(b, payload, now) == NewEntry(c, payload, now)
    ensures var w := Write(crc, o, c, payload, now); w.cur == c.cur && w.saved == c.saved
  {
  }

  lemma UndeliveredMember(crc: Checksum, b: Buf, e: Entry)
    ensures e in Undelivered(crc, b) <==> e in All(crc, b.segs) && !Passed(e, b.cur)
  {
    hide All;
    AfterMembers(All(crc, b.segs), b.cur, e);
  }

  lemma ActiveIds(crc: Checksum, o: Opts, b: Buf, payload: seq<byte>, now: int64)
    requires HasActive(b.segs)
    ensures Resolvable(Write(crc, o, b, payload, now).segs, b.cur) <==> Finds(b.segs, b.cur)
  {
    WriteSegs(crc, o, b, payload, now);
    var w := Write(crc, o, b, payload, now).segs;
    var n := |b.segs| - 1;
    assert Written(crc, o, b.segs[n], payload, now).id == b.segs[n].id;
    hide Written;
    assert |w| == |b.segs| && forall i | 0 <= i < |w| :: w[i].id == b.segs[i].id;
  }

  // ---------- age eviction ----------

  lemma {:induction false} FreshKeeps(segs: seq<Seg>, cutoff: int64, removable: set<nat>)
    requires Increasing(segs)
    ensures Increasing(Fresh(segs, cutoff, removable))
  {
    if segs != [] {
      var rest := Fresh(segs[1..], cutoff, removable);
      FreshKeeps(segs[1..], cutoff, removable);
      forall s | s in rest
        ensures segs[0].id < s.id
      {
        FreshMembers(segs[1..], cutoff, removable, s);
      }
    }
  }

  lemma {:induction false} FreshLast(segs: seq<Seg>, cutoff: int64, removable: set<nat>)
    requires segs != [] && !Dropped(segs[|segs| - 1], cutoff, removable)
    ensures var f := Fresh(segs, cutoff, removable); f != [] && f[|f| - 1] == segs[|segs| - 1]
  {
    if |segs| > 1 { FreshLast(segs[1..], cutoff, removable); }
  }

  lemma FreshSound(crc: Checksum, b: Buf, cutoff: int64, removable: set<nat>)
    requires Wf(crc, b)
    ensures Sound(crc, EvictExpired(b, cutoff, removable))
  {
    hide SegOk, Fresh, PushedPast, Aligned;
    var f := Fresh(b.segs, cutoff, removable);
    FreshKeeps(b.segs, cutoff, removable);
    forall s | s in f
      ensures b.segs != [] && s.id <= b.segs[|b.segs| - 1].id
    {
      FreshMembers(b.segs, cutoff, removable, s);
      var k :| 0 <= k < |b.segs| && b.segs[k] == s;
    }
    forall i | 0 <= i < |f|
      ensures 1 <= f[i].id && SegOk(crc, f[i], i == |f| - 1)
    {
      assert f[i] in f;
      FreshMembers(b.segs, cutoff, removable, f[i]);
      var j :| 0 <= j < |b.segs| && b.segs[j] == f[i];
      assert SegOk(crc, b.segs[j], j == |b.segs| - 1);
      LastOrNot(crc, b, f, i, j);
    }
  }

  lemma LastOrNot(crc: Checksum, b: Buf, f: seq<Seg>, i: nat, j: nat)
    requires Increasing(b.segs) && Increasing(f) && i < |f| && j < |b.segs| && f[i] == b.segs[j]
    requires SegOk(crc, b.segs[j], j == |b.segs| - 1)
    requires j == |b.segs| - 1 ==> forall s | s in f :: s.id <= b.segs[j].id
    ensures SegOk(crc, f[i], i == |f| - 1)
  {
    hide Whole;
    if i < |f| - 1 { assert f[i].id < f[i + 1].id && f[i + 1] in f; }
  }

  /** The last segment stays. */
  predicate LastStays(segs: seq<Seg>, cutoff: int64, removable: set<nat>)
  {
    segs == [] || !Dropped(segs[|segs| - 1], cutoff, removable)
  }

  /** Where the cursor is after age eviction: within reach if the last segment stays, and beyond
      every segment left, and the next one to be opened, if not. */
  lemma PushedCursor(crc: Checksum, b: Buf, cutoff: int64, removable: set<nat>)
    requires Wf(crc, b)
    ensures var r := EvictExpired(b, cutoff, removable);
            if LastStays(b.segs, cutoff, removable) then CursorOk(crc, r.segs, r.cur) && CursorOk(crc, r.segs, r.saved)
            else NextId(r.segs) < r.cur.seg && forall s | s in r.segs :: s.id < r.cur.seg
  {
    hide SegOk, Fresh, PushedPast, Boundary;
    var r := EvictExpired(b, cutoff, removable);
    FreshKeeps(b.segs, cutoff, removable);
    PushedPastIs(b.segs, cutoff, removable, b.cur);
    forall s
      ensures s in r.segs <==> s in b.segs && !Dropped(s, cutoff, removable)
    {
      FreshMembers(b.segs, cutoff, removable, s);
    }
    if b.segs != [] {
      var last := b.segs[|b.segs| - 1];
      assert last in b.segs;
      if !LastStays(b.segs, cutoff, removable) {
        assert last.id < r.cur.seg;
        forall s | s in r.segs
          ensures s.id < last.id
        {
          var j :| 0 <= j < |b.segs| && b.segs[j] == s;
        }
        assert r.segs != [] ==> r.segs[|r.segs| - 1] in r.segs;
      } else {
        PushedAligned(crc, b, cutoff, removable);
      }
    } else {
      assert PushedNothing(cutoff, removable, b.cur);
    }
  }

  ghost predicate PushedNothing(cutoff: int64, removable: set<nat>, p: Pos)
  {
    PushedPast([], cutoff, removable, p) == p && Fresh([], cutoff, removable) == []
  }

  lemma PushedAligned(crc: Checksum, b: Buf, cutoff: int64, removable: set<nat>)
    requires Wf(crc, b) && b.segs != [] && LastStays(b.segs, cutoff, removable)
    ensures var r := EvictExpired(b, cutoff, removable); CursorOk(crc, r.segs, r.cur) && CursorOk(crc, r.segs, r.saved)
  {
    hide SegOk, Fresh, PushedPast;
    var r := EvictExpired(b, cutoff, removable);
    FreshLast(b.segs, cutoff, removable);
    PushedPastIs(b.segs, cutoff, removable, b.cur);
    forall s
      ensures s in r.segs <==> s in b.segs && !Dropped(s, cutoff, removable)
    {
      FreshMembers(b.segs, cutoff, removable, s);
    }
    var last := b.segs[|b.segs| - 1];
    if r.cur != b.cur {
      var t :| t in b.segs && Dropped(t, cutoff, removable) && b.cur.seg <= t.id && r.cur == Pos(t.id + 1, 0);
      var j :| 0 <= j < |b.segs| && b.segs[j] == t;
      assert t.id < last.id;
    }
  }

  /** Age eviction keeps the log well formed if and only if the last segment stays. */
  lemma ExpiryWf(crc: Checksum, b: Buf, cutoff: int64, removable: set<nat>)
    requires Wf(crc, b)
    ensures Wf(crc, EvictExpired(b, cutoff, removable)) <==> LastStays(b.segs, cutoff, removable)
  {
    hide SegsOk, Fresh, PushedPast, Aligned, EvictExpired;
    var r := EvictExpired(b, cutoff, removable);
    FreshSound(crc, b, cutoff, removable);
    PushedCursor(crc, b, cutoff, removable);
    if r.segs != [] { assert r.segs[|r.segs| - 1] in r.segs; }
  }

  /** What is left in the queue, and what reads return, as long as the last segment stays: the
      undelivered records of the segments that stay, except those below a dropped segment at or
      beyond the cursor. Reads return all of it, in order, if the pushed cursor finds its place. */
  lemma ExpiryReads(crc: Checksum, b: Buf, cutoff: int64, removable: set<nat>, e: Entry)
    requires Wf(crc, b) && LastStays(b.segs, cutoff, removable)
    ensures var r := EvictExpired(b, cutoff, removable);
            && (e in Undelivered(crc, r) <==>
                  && e in Undelivered(crc, b)
                  && (forall s | s in b.segs && s.id == e.seg :: !Dropped(s, cutoff, removable))
                  && (forall t | t in b.segs && b.cur.seg <= t.id && e.seg < t.id :: !Dropped(t, cutoff, removable)))
            && From(crc, r.segs, r.cur) == if Resolvable(r.segs, r.cur) then Undelivered(crc, r) else []
  {
    hide Read, All, Wf, Fresh, PushedPast, From, Resolvable, Undelivered, Passed, Dropped, LastStays;
    var r := EvictExpired(b, cutoff, removable);
    ExpiryWf(crc, b, cutoff, removable);
    AtLeastOnce.WfReads(crc, r);
    UndeliveredMember(crc, r, e);
    UndeliveredMember(crc, b, e);
    FreshHolds(crc, b, cutoff, removable, e);
    if e in All(crc, b.segs) { PushedPasses(crc, b, cutoff, removable, e); }
  }

  lemma {:induction false} PushedPasses(crc: Checksum, b: Buf, cutoff: int64, removable: set<nat>, e: Entry)
    requires Wf(crc, b) && e in All(crc, b.segs)
    ensures var p := PushedPast(b.segs, cutoff, removable, b.cur);
            && (Passed(e, b.cur) ==> Passed(e, p))
            && (!Passed(e, b.cur) && (forall s | s in b.segs && s.id == e.seg :: !Dropped(s, cutoff, removable)) ==>
                  (Passed(e, p) <==> exists t ::
                        t in b.segs && b.cur.seg <= t.id && e.seg < t.id && Dropped(t, cutoff, removable)))
  {
    hide Read, All, SegOk, Aligned, PushedPast, Dropped;
    PushedPastIs(b.segs, cutoff, removable, b.cur);
    var i := AllInSegment(crc, b.segs, e);
    assert b.segs[i] in b.segs;
  }

  lemma {:induction false} FreshHolds(crc: Checksum, b: Buf, cutoff: int64, removable: set<nat>, e: Entry)
    requires Wf(crc, b)
    ensures e in All(crc, Fresh(b.segs, cutoff, removable)) <==>
              e in All(crc, b.segs) && forall s | s in b.segs && s.id == e.seg :: !Dropped(s, cutoff, removable)
  {
    hide Read, All, SegOk, CursorOk, Fresh;
    var f := Fresh(b.segs, cutoff, removable);
    if e in All(crc, f) {
      var i := AllInSegment(crc, f, e);
      assert f[i] in f;
      FreshMembers(b.segs, cutoff, removable, f[i]);
      InSegs(crc, b.segs, f[i], e);
      forall s | s in b.segs && s.id == e.seg ensures !Dropped(s, cutoff, removable) { SameSeg(crc, b, s, f[i]); }
    }
    if e in All(crc, b.segs) && forall s | s in b.segs && s.id == e.seg :: !Dropped(s, cutoff, removable) {
      var i := AllInSegment(crc, b.segs, e);
      assert b.segs[i] in b.segs;
      FreshMembers(b.segs, cutoff, removable, b.segs[i]);
      InSegs(crc, f, b.segs[i], e);
    }
  }

  /** The record stored after an age eviction is read back if and only if the last segment
      stayed and the pushed cursor finds its place; without a gap in the ids, if and only if the
      last segment stayed. After a reopening it is read exactly when the persisted cursor, which
      eviction does not move, finds it among the segments left. */
  lemma RecordAfterExpiry(crc: Checksum, o: Opts, b: Buf, cutoff: int64, removable: set<nat>, payload: seq<byte>,
                          now: int64)
    requires Wf(crc, b) && |payload| <= MAX_RECORD_BYTES
    ensures var r := EvictExpired(b, cutoff, removable);
            var w, ne := Write(crc, o, r, payload, now), NewEntry(r, payload, now);
            && (ne in From(crc, w.segs, w.cur) <==> LastStays(b.segs, cutoff, removable) && Resolvable(r.segs, r.cur))
            && (Resume.Contiguous(b.segs) ==>
                  (ne in From(crc, w.segs, w.cur) <==> LastStays(b.segs, cutoff, removable)))
            && (ne in From(crc, w.segs, w.saved) <==> Finds(r.segs, b.saved))
            && w.cur == r.cur && w.saved == b.saved
  {
    var r := EvictExpired(b, cutoff, removable);
    FreshSound(crc, b, cutoff, removable);
    PushedCursor(crc, b, cutoff, removable);
    ActiveStays(crc, b, cutoff, removable);
    assert r.saved == b.saved;
    hide EvictExpired, From, NewEntry, Write, SegsOk, Aligned, Fresh, PushedPast;
    NextSeen(crc, o, r, payload, now, r.cur);
    NextSeen(crc, o, r, payload, now, r.saved);
    SameWrite(crc, o, r, r, payload, now);
    FindsCursor(crc, b, cutoff, removable);
    if Resume.Contiguous(b.segs) && LastStays(b.segs, cutoff, removable) { PushedFound(crc, b, cutoff, removable); }
  }

  /** If the last segment goes, whatever remains below it and whatever is stored next is neither
      read nor counted as pending. */
  lemma ExpiryBlinds(crc: Checksum, o: Opts, b: Buf, cutoff: int64, removable: set<nat>, payload: seq<byte>, now: int64)
    requires Wf(crc, b) && !LastStays(b.segs, cutoff, removable)
    ensures var w := Write(crc, o, EvictExpired(b, cutoff, removable), payload, now);
            From(crc, w.segs, w.cur) == [] && Pending(w.segs, w.cur) == 0
  {
    var r := EvictExpired(b, cutoff, removable);
    PushedCursor(crc, b, cutoff, removable);
    WriteSegs(crc, o, r, payload, now);
    WrittenId(crc, o, EnsureActive(r.segs)[|EnsureActive(r.segs)| - 1], payload, now);
    hide EvictExpired, Written, Write, CursorOk, SegsOk, From;
    AllBehind(crc, Write(crc, o, r, payload, now).segs, r.cur);
  }

  lemma WrittenId(crc: Checksum, o: Opts, s: Seg, payload: seq<byte>, now: int64)
    requires s.file
    ensures Written(crc, o, s, payload, now).id == s.id
  {
  }

  lemma {:induction false} AllBehind(crc: Checksum, segs: seq<Seg>, p: Pos)
    requires forall s | s in segs :: s.id < p.seg
    ensures From(crc, segs, p) == [] && Pending(segs, p) == 0
  {
    if segs != [] {
      assert segs[0] in segs && forall s | s in segs[1..] :: s in segs;
      AllBehind(crc, segs[1..], p);
      forall i | 0 <= i < |segs| ensures segs[i].id != p.seg { assert segs[i] in segs; }
      FoundNothing(crc, segs, p);
    }
  }

  lemma ActiveStays(crc: Checksum, b: Buf, cutoff: int64, removable: set<nat>)
    requires Wf(crc, b)
    ensures HasActive(EvictExpired(b, cutoff, removable).segs) ==> LastStays(b.segs, cutoff, removable)
  {
    hide Fresh, Whole, Aligned;
    var f := Fresh(b.segs, cutoff, removable);
    if HasActive(f) {
      var s := f[|f| - 1];
      assert s in f;
      FreshMembers(b.segs, cutoff, removable, s);
      var j :| 0 <= j < |b.segs| && b.segs[j] == s;
      assert SegOk(crc, b.segs[j], j == |b.segs| - 1);
    }
  }

  lemma FindsCursor(crc: Checksum, b: Buf, cutoff: int64, removable: set<nat>)
    requires Wf(crc, b)
    ensures var r := EvictExpired(b, cutoff, removable);
            Finds(r.segs, r.cur) <==> LastStays(b.segs, cutoff, removable) && Resolvable(r.segs, r.cur)
  {
    hide EvictExpired, SegsOk, Aligned, Fresh, PushedPast;
    PushedCursor(crc, b, cutoff, removable);
    var r := EvictExpired(b, cutoff, removable);
    if !LastStays(b.segs, cutoff, removable) {
      assert forall i | 0 <= i < |r.segs| :: r.segs[i] in r.segs;
    }
  }

  lemma PushedFound(crc: Checksum, b: Buf, cutoff: int64, removable: set<nat>)
    requires Wf(crc, b) && Resume.Contiguous(b.segs) && LastStays(b.segs, cutoff, removable)
    ensures var r := EvictExpired(b, cutoff, removable); Resolvable(r.segs, r.cur)
  {
    hide Fresh, PushedPast, Wf;
    assert Resolvable(b.segs, b.cur) && Increasing(b.segs) by { Resume.GapFreeResolves(crc, b); WfIncreasing(crc, b); }
    var r := EvictExpired(b, cutoff, removable);
    PushedPastIs(b.segs, cutoff, removable, b.cur);
    forall s
      ensures s in r.segs <==> s in b.segs && !Dropped(s, cutoff, removable)
    {
      FreshMembers(b.segs, cutoff, removable, s);
    }
    hide EvictExpired, Dropped;
    if r.cur == b.cur {
      StillFound(b.segs, r.segs, b.cur);
    } else {
      var t :| t in b.segs && Dropped(t, cutoff, removable) && b.cur.seg <= t.id && r.cur == Pos(t.id + 1, 0);
      var j :| 0 <= j < |b.segs| && b.segs[j] == t;
      assert j < |b.segs| - 1;
      assert b.segs[j + 1].id == t.id + 1 && b.segs[j + 1] in b.segs;
      Resume.FoundIn(r.segs, b.segs[j + 1], r.cur);
    }
  }

  /** Dropping segments other than the cursor's leaves a found place found. */
  lemma StillFound(segs: seq<Seg>, left: seq<Seg>, p: Pos)
    requires Increasing(segs) && Resolvable(segs, p)
    requires (forall s | s in left :: s in segs) && (forall s | s in segs && s.id == p.seg :: s in left)
    ensures Resolvable(left, p)
  {
    assert left != [] ==> left[0] in left;
    if i :| 0 <= i < |segs| && segs[i].id == p.seg {
      assert segs[i] in segs;
      Resume.FoundIn(left, segs[i], p);
    }
  }

  // ---------- byte eviction ----------

  /** What byte eviction leaves. */
  lemma OldestShape(b: Buf)
    requires FirstSealed(b.segs) < |b.segs|
    ensures var i := FirstSealed(b.segs); var r := EvictOldest(b);
            && r.segs == Without(b.segs, i) && r.saved == b.saved
            && r.cur == (if b.cur.seg <= b.segs[i].id && r.segs != [] then Pos(r.segs[0].id, 0) else b.cur)
            && r.total == b.total - |b.segs[i].data|
  {
    hide FirstSealed, Without;
  }

  lemma WithoutIndex(segs: seq<Seg>, i: nat)
    requires i < |segs|
    ensures var r := Without(segs, i);
            |r| == |segs| - 1 && forall j | 0 <= j < |r| :: r[j] == if j < i then segs[j] else segs[j + 1]
  {
  }

  lemma WithoutAt(segs: seq<Seg>, i: nat)
    requires i < |segs| && Increasing(segs)
    ensures Increasing(Without(segs, i)) && forall s :: s in Without(segs, i) <==> s in segs && s.id != segs[i].id
  {
    WithoutIndex(segs, i);
    hide Without;
    forall s ensures s in Without(segs, i) <==> s in segs && s.id != segs[i].id { WithoutMember(segs, i, s); }
  }

  lemma WithoutMember(segs: seq<Seg>, i: nat, s: Seg)
    requires i < |segs| && Increasing(segs)
    ensures s in Without(segs, i) <==> s in segs && s.id != segs[i].id
  {
    WithoutIndex(segs, i);
    hide Without;
    var r := Without(segs, i);
    if s in segs && s.id != segs[i].id {
      var j :| 0 <= j < |segs| && segs[j] == s;
      assert r[if j < i then j else j - 1] == s;
    }
    if s in r { var j :| 0 <= j < |r| && r[j] == s; }
  }

  lemma WithoutOk(crc: Checksum, segs: seq<Seg>, i: nat)
    requires SegsOk(crc, segs) && i < |segs|
    ensures SegsOk(crc, Without(segs, i))
  {
    hide Whole;
    var r := Without(segs, i);
    assert Increasing(r) by { WithoutAt(segs, i); }
    forall k | 0 <= k < |r|
      ensures 1 <= r[k].id && SegOk(crc, r[k], k == |r| - 1)
    {
      var j := if k < i then k else k + 1;
      assert r[k] == segs[j] && SegOk(crc, segs[j], j == |segs| - 1);
    }
  }

  lemma OldestSound(crc: Checksum, b: Buf)
    requires Wf(crc, b)
    ensures Sound(crc, EvictOldest(b))
  {
    var i := FirstSealed(b.segs);
    if i < |b.segs| {
      OldestShape(b);
      hide SegsOk, FirstSealed, CursorOk, Without, EvictOldest;
      BytesWithout(b.segs, i);
      WithoutOk(crc, b.segs, i);
    }
  }

  /** Dropping a segment leaves a cursor within reach exactly when it is not beyond the last one. */
  lemma WithoutReach(crc: Checksum, segs: seq<Seg>, i: nat, p: Pos)
    requires SegsOk(crc, segs) && i < |segs| && CursorOk(crc, segs, p) && Without(segs, i) != []
    ensures var r := Without(segs, i); CursorOk(crc, r, p) <==> p.seg <= r[|r| - 1].id
  {
    hide Whole, Boundary;
    var r, n := Without(segs, i), |segs| - 1;
    assert forall s | s in r :: s in segs;
    assert r[|r| - 1] == if i == n then segs[n - 1] else segs[n];
    assert i == n ==> SegOk(crc, segs[n - 1], false);
  }

  lemma StartReach(crc: Checksum, segs: seq<Seg>)
    requires Increasing(segs) && segs != []
    ensures CursorOk(crc, segs, Pos(segs[0].id, 0))
  {
  }

  /** Byte eviction keeps the live cursor within reach unless it empties the list; the persisted
      one may be left beyond the last segment, when that is the one dropped. */
  lemma OldestCursor(crc: Checksum, b: Buf)
    requires Wf(crc, b) && FirstSealed(b.segs) < |b.segs| && EvictOldest(b).segs != []
    ensures var r := EvictOldest(b);
            && CursorOk(crc, r.segs, r.cur)
            && (CursorOk(crc, r.segs, r.saved) <==> b.saved.seg <= r.segs[|r.segs| - 1].id)
  {
    var i := FirstSealed(b.segs);
    OldestShape(b);
    hide FirstSealed, SegOk, CursorOk, Without, EvictOldest;
    var r := EvictOldest(b);
    WithoutReach(crc, b.segs, i, b.saved);
    WithoutReach(crc, b.segs, i, b.cur);
    WithoutAt(b.segs, i);
    StartReach(crc, r.segs);
    if b.cur.seg > b.segs[i].id { ReachStays(crc, b, i); }
  }

  lemma ReachStays(crc: Checksum, b: Buf, i: nat)
    requires Wf(crc, b) && i < |b.segs| && b.segs[i].id < b.cur.seg
    ensures var r := Without(b.segs, i); r != [] && b.cur.seg <= r[|r| - 1].id
  {
    hide Whole, Aligned;
  }

  /** Exactly when byte eviction keeps the log well formed. */
  lemma OldestWf(crc: Checksum, b: Buf)
    requires Wf(crc, b) && FirstSealed(b.segs) < |b.segs|
    ensures var r := EvictOldest(b);
            Wf(crc, r) <==> if r.segs == [] then b.cur == b.saved == Pos(0, 0)
                            else b.saved.seg <= r.segs[|r.segs| - 1].id
  {
    OldestShape(b);
    hide EvictOldest, SegsOk, FirstSealed, Aligned;
    OldestSound(crc, b);
    if EvictOldest(b).segs != [] { OldestCursor(crc, b); }
  }

  lemma WithoutHolds(crc: Checksum, b: Buf, i: nat, e: Entry)
    requires Wf(crc, b) && i < |b.segs|
    ensures e in All(crc, Without(b.segs, i)) <==> e in All(crc, b.segs) && e.seg != b.segs[i].id
  {
    hide Read, All, SegOk, CursorOk, Without;
    var r := Without(b.segs, i);
    WithoutAt(b.segs, i);
    if e in All(crc, r) {
      var k := AllInSegment(crc, r, e);
      assert r[k] in r;
      InSegs(crc, b.segs, r[k], e);
    }
    if e in All(crc, b.segs) && e.seg != b.segs[i].id {
      var k := AllInSegment(crc, b.segs, e);
      assert b.segs[k] in b.segs;
      InSegs(crc, r, b.segs[k], e);
    }
  }

  /** Byte eviction costs the undelivered records of the segment dropped and no others: a cursor
      at or before that segment goes back to the oldest one left, so that everything left is to
      be delivered, and one beyond it stays. What is left is read, in order, unless the cursor
      stayed and did not find its place before either. */
  lemma OldestQueue(crc: Checksum, b: Buf, e: Entry)
    requires Wf(crc, b) && FirstSealed(b.segs) < |b.segs|
    ensures var i := FirstSealed(b.segs); var r := EvictOldest(b);
            && (e in Undelivered(crc, r) <==>
                  e in All(crc, b.segs) && e.seg != b.segs[i].id
                      && (b.cur.seg <= b.segs[i].id || e in Undelivered(crc, b)))
            && (e in Undelivered(crc, b) && e !in Undelivered(crc, r) ==> e.seg == b.segs[i].id)
            && (b.cur.seg <= b.segs[i].id || Resolvable(b.segs, b.cur)
               ==> From(crc, r.segs, r.cur) == Undelivered(crc, r))
  {
    var i := FirstSealed(b.segs);
    OldestShape(b);
    hide FirstSealed, EvictOldest, Read, All, Without, SegOk, Aligned, Undelivered;
    var r := EvictOldest(b);
    WithoutHolds(crc, b, i, e);
    UndeliveredMember(crc, r, e);
    UndeliveredMember(crc, b, e);
    WithoutAt(b.segs, i);
    if e in All(crc, r.segs) && r.segs != [] {
      var k := AllInSegment(crc, r.segs, e);
    }
    if r.segs == [] {
      NoneLeftToRead(crc, r);
    } else if b.cur.seg <= b.segs[i].id || Resolvable(b.segs, b.cur) {
      OldestCursor(crc, b);
      if b.cur.seg > b.segs[i].id { StillFound(b.segs, r.segs, b.cur); } else { assert r.segs[0].id == r.cur.seg; }
      ReadsReturn(crc, r.segs, r.cur);
      UndeliveredIs(crc, r);
    }
  }

  lemma UndeliveredIs(crc: Checksum, b: Buf)
    ensures Undelivered(crc, b) == After(All(crc, b.segs), b.cur)
  {
  }

  lemma NoneLeftToRead(crc: Checksum, b: Buf)
    requires b.segs == []
    ensures From(crc, b.segs, b.cur) == [] == Undelivered(crc, b)
  {
  }

  /** The record stored after a byte eviction is read back if and only if: segments are left and
      the cursor went back to them or finds its place among them; or none are left and the cursor
      had not moved beyond the start of segment 1. After a reopening, exactly when the persisted
      cursor, which eviction does not move, finds it among the segments left. */
  lemma RecordAfterOldest(crc: Checksum, o: Opts, b: Buf, payload: seq<byte>, now: int64)
    requires Wf(crc, b) && FirstSealed(b.segs) < |b.segs| && |payload| <= MAX_RECORD_BYTES
    ensures var i := FirstSealed(b.segs); var r := EvictOldest(b);
            var w, ne := Write(crc, o, r, payload, now), NewEntry(r, payload, now);
            && (ne in From(crc, w.segs, w.cur) <==>
                  if r.segs == [] then b.cur.seg == 0 || b.cur == Pos(1, 0)
                  else b.cur.seg <= b.segs[i].id || Resolvable(r.segs, b.cur))
            && (ne in From(crc, w.segs, w.saved) <==> Finds(r.segs, b.saved))
            && w.cur == r.cur && w.saved == b.saved
  {
    var i := FirstSealed(b.segs);
    OldestShape(b);
    OldestSound(crc, b);
    OldestActive(crc, b);
    hide FirstSealed, EvictOldest, From, NewEntry, Write, SegsOk, Aligned, Without;
    var r := EvictOldest(b);
    if r.segs != [] { OldestCursor(crc, b); }
    OldestFinds(b, r, i);
    hide Finds;
    NextSeen(crc, o, r, payload, now, r.cur);
    NextSeen(crc, o, r, payload, now, r.saved);
    SameWrite(crc, o, r, r, payload, now);
  }

  lemma OldestFinds(b: Buf, r: Buf, i: nat)
    requires i < |b.segs| && (r.segs != [] ==> InReach(r.segs, r.cur))
    requires r.cur == (if b.cur.seg <= b.segs[i].id && r.segs != [] then Pos(r.segs[0].id, 0) else b.cur)
    ensures Finds(r.segs, r.cur) <==>
              if r.segs == [] then b.cur.seg == 0 || b.cur == Pos(1, 0)
              else b.cur.seg <= b.segs[i].id || Resolvable(r.segs, b.cur)
  {
  }

  /** The open segment is not sealed, so it is never the one dropped. */
  lemma OldestActive(crc: Checksum, b: Buf)
    requires Wf(crc, b) && FirstSealed(b.segs) < |b.segs|
    ensures var r := EvictOldest(b); HasActive(r.segs) ==> CursorOk(crc, r.segs, r.saved)
  {
    hide Whole, Boundary;
  }

  // ---------- storing a record ----------

  /** Append as a whole: a record it stores is read back if and only if the cursor finds it among
      the segments that making room has left. Without an eviction that is where reads stood. */
  lemma AppendSeen(crc: Checksum, o: Opts, b: Buf, payload: seq<byte>, now: int64, removable: set<nat>)
    requires Wf(crc, b) && |payload| <= MAX_RECORD_BYTES
    requires Append(crc, o, b, payload, now, removable).1 == Stored
    ensures var c := RoomMade(o, b, HEADER_BYTES + |payload|, removable);
            var w := Append(crc, o, b, payload, now, removable).0;
            && (NewEntry(c, payload, now) in From(crc, w.segs, w.cur) <==> Finds(c.segs, c.cur))
            && (NewEntry(c, payload, now) in From(crc, w.segs, w.saved) <==> Finds(c.segs, c.saved))
            && w.cur == c.cur && w.saved == b.saved
  {
    var d := Reclaimed(o, b, HEADER_BYTES + |payload|, removable);
    var c := RoomMade(o, b, HEADER_BYTES + |payload|, removable);
    hide EvictOldest, Reclaim, From, NewEntry, Write, SegsOk, CursorOk, Finds;
    ReclaimKeeps(crc, b, removable);
    Resume.ReclaimCursor(b, removable);
    SameWrite(crc, o, c, c, payload, now);
    if c == d {
      NextSeen(crc, o, c, payload, now, c.cur);
      NextSeen(crc, o, c, payload, now, c.saved);
    } else {
      EvictedSeen(crc, o, d, payload, now);
    }
  }

  lemma EvictedSeen(crc: Checksum, o: Opts, d: Buf, payload: seq<byte>, now: int64)
    requires Wf(crc, d) && |payload| <= MAX_RECORD_BYTES && EvictOldest(d) != d
    ensures var c := EvictOldest(d); var w, ne := Write(crc, o, c, payload, now), NewEntry(c, payload, now);
            && (ne in From(crc, w.segs, c.cur) <==> Finds(c.segs, c.cur))
            && (ne in From(crc, w.segs, c.saved) <==> Finds(c.segs, c.saved)) && c.saved == d.saved
  {
    assert FirstSealed(d.segs) < |d.segs|;
    OldestShape(d);
    OldestSound(crc, d);
    OldestActive(crc, d);
    var c := EvictOldest(d);
    hide FirstSealed, EvictOldest, From, NewEntry, Write, SegsOk, Aligned, Without, Finds;
    if c.segs != [] { OldestCursor(crc, d); }
    NextSeen(crc, o, c, payload, now, c.cur);
    NextSeen(crc, o, c, payload, now, c.saved);
  }

  // ---------- reopening ----------

  /** Reopening an intact directory changes nothing that reads return, from any position: the
      conditions on the persisted cursor above are those of the next process. */
  lemma IntactReopen(crc: Checksum, o: Opts, segs: seq<Seg>, p: Pos)
    requires SegsOk(crc, segs)
    ensures From(crc, RecoveredAll(crc, o, segs), p) == From(crc, segs, p)
  {
    forall i | 0 <= i < |segs|
      ensures RecoveredAll(crc, o, segs)[i].id == segs[i].id && RecoveredAll(crc, o, segs)[i].data == segs[i].data
    {
      assert SegOk(crc, segs[i], i == |segs| - 1);
      assert segs[i].data[..|segs[i].data|] == segs[i].data;
    }
    hide RecoveredAll, SegsOk;
    SameReads(crc, RecoveredAll(crc, o, segs), segs, p);
  }

  lemma {:induction false} SameReads(crc: Checksum, a: seq<Seg>, b: seq<Seg>, p: Pos)
    requires |a| == |b| && forall i | 0 <= i < |a| :: a[i].id == b[i].id && a[i].data == b[i].data
    ensures All(crc, a) == All(crc, b) && FromFound(crc, a, p) == FromFound(crc, b, p)
            && From(crc, a, p) == From(crc, b, p)
  {
    if a != [] {
      SameReads(crc, a[1..], b[1..], p);
      hide Parse;
    }
  }
}
