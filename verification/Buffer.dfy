/** The disk buffer as the program runs it: fields updated in place, scanning loops, and a
    contract for each method in terms of the log it leaves and the records reads return. */
module BufferImpl {
  import opened Basics
  import opened Frame
  import opened SegmentLog
  import opened Queue
  import E = Evict
  import Evicted

  class Buffer {
    const crc: Checksum
    const opts: Opts
    var segments: seq<Seg>
    var cursor: Pos
    /** state.json */
    var saved: Pos
    var totalBytes: int
    /** Bytes reported as a torn or corrupt tail when the directory was opened. */
    var lostTail: nat

    /** The log this object stands for. */
    ghost function View(): (b: Buf)
      reads this
    {
      Buf(segments, cursor, saved, totalBytes)
    }

    ghost predicate Valid()
      reads this
    {
      Wf(crc, View())
    }

    /** What successive reads return. */
    ghost function Reads(): (q: seq<Entry>)
      reads this
    {
      From(crc, segments, cursor)
    }

    /** Opens a directory: every segment is scanned and cut at its first unreadable record,
        the bytes lost are reported, and the cursor comes from state.json, or from the very
        beginning if that is missing or cannot be parsed. */
    constructor Recover(crc: Checksum, opts: Opts, disk: seq<Seg>, state: Option<Pos>)
      ensures this.crc == crc && this.opts == opts
      ensures View() == Open(crc, opts, disk, if state.Some? then state.value else Pos(0, 0))
      ensures lostTail == Bytes(disk) - totalBytes
    {
      this.crc, this.opts := crc, opts;
      var cur := if state.Some? then state.value else Pos(0, 0);
      this.cursor, this.saved := cur, cur;
      hide Bytes, RecoveredAll, Parse, Whole, Boundary, FirstStamp, Decode;
      var segs: seq<Seg> := [];
      var total, lost := 0, 0;
      RecoveredNone(crc, opts, disk);
      var i := 0;
      while i < |disk|
        invariant i <= |disk| && |segs| == i && lost >= 0
        invariant total == Bytes(segs) && total + lost == Bytes(disk[..i])
        invariant segs == RecoveredAll(crc, opts, disk)[..i]
      {
        var f := new File(disk[i].data);
        var stamp := FirstStamp(crc, f.data);
        var n := TruncateTorn(crc, f);
        var sealed := true;
        if i == |disk| - 1 { sealed := n >= opts.segmentBytes; }
        var seg := Seg(disk[i].id, f.data, sealed, false, n, stamp);
        assert seg == Recovered(crc, opts, disk[i], i == |disk| - 1);
        BytesSnoc(segs, seg);
        RecoveredNext(crc, opts, disk, i);
        segs := segs + [seg];
        total := total + n;
        if |disk[i].data| - n > 0 { lost := lost + (|disk[i].data| - n); }
        i := i + 1;
      }
      RecoveredEnd(crc, opts, disk);
      this.segments, this.totalBytes, this.lostTail := segs, total, lost;
    }

    // ---------- lookup ----------

    method FindSegment(id: nat) returns (i: nat)
      ensures i <= |segments|
      ensures i < |segments| ==> segments[i].id == id
      ensures i == |segments| ==> forall j | 0 <= j < |segments| :: segments[j].id != id
    {
      i := 0;
      while i < |segments|
        invariant i <= |segments|
        invariant forall j | 0 <= j < i :: segments[j].id != id
      {
        if segments[i].id == id { return; }
        i := i + 1;
      }
    }

    method NextSegment(after: nat) returns (i: nat)
      ensures i <= |segments|
      ensures i < |segments| ==> segments[i].id > after
      ensures forall j | 0 <= j < i :: segments[j].id <= after
    {
      i := 0;
      while i < |segments|
        invariant i <= |segments|
        invariant forall j | 0 <= j < i :: segments[j].id <= after
      {
        if segments[i].id > after { return; }
        i := i + 1;
      }
    }

    // ---------- reading ----------

    /** The record at a position, hopping over exhausted or unreadable segments: the first of
        the records that reads from there return, and nothing is moved. */
    method ReadFrom(segID: nat, off: nat) returns (r: Option<Entry>)
      requires Increasing(segments)
      ensures var q := From(crc, segments, Pos(segID, off)); r == if q == [] then None else Some(q[0])
    {
      hide Read, All;
      var p := Pos(segID, off);
      var i := FindSegment(segID);
      if i == |segments| {
        FoundNothing(crc, segments, p);
        if |segments| == 0 || segments[0].id <= segID { return None; }
        AllOfFirst(crc, segments);
        i, p := 0, Pos(segments[0].id, 0);
      } else {
        FromAt(crc, segments, p, i);
      }
      hide From, FromFound;
      while true
        invariant i < |segments| && p.seg == segments[i].id
        invariant From(crc, segments, Pos(segID, off)) == Read(crc, segments[i], p.off) + All(crc, segments[i + 1..])
        decreases |segments| - i
      {
        var seg := segments[i];
        var d := if p.off >= |seg.data| then UnexpectedEOF else Decode(crc, seg.data, p.off);
        if d.Rec? {
          ReadHead(crc, seg, p.off);
          return Some(Entry(d.payload, d.at, seg.id, d.endOff));
        }
        ReadNone(crc, seg, p.off);
        var next := NextSegment(seg.id);
        NextIs(segments, i, next);
        if next == |segments| {
          AllOfNone(crc);
          return None;
        }
        AllOfFirst(crc, segments[i + 1..]);
        i, p := next, Pos(segments[next].id, 0);
      }
    }

    /** The record following the last one seen. */
    method PeekAfter(seen: seq<Entry>) returns (r: Option<Entry>)
      requires Valid() && seen <= Reads()
      ensures r == if |seen| == |Reads()| then None else Some(Reads()[|seen|])
    {
      var n := |seen|;
      ReadsReturn(crc, segments, cursor);
      if n > 0 {
        EntryAt(crc, View(), n - 1);
        AllInSeg(crc, View(), n - 1);
        ReadsReturn(crc, segments, Pos(seen[n - 1].seg, seen[n - 1].end));
        r := ReadFrom(seen[n - 1].seg, seen[n - 1].end);
      } else {
        r := ReadFrom(cursor.seg, cursor.off);
      }
    }

    /** Next moves the cursor over exhausted segments only: it returns the first undelivered
        record and leaves what reads return, and everything on disk, as it was. */
    method Next() returns (r: Option<Entry>)
      requires Valid()
      modifies `cursor
      ensures Valid() && Reads() == old(Reads())
      ensures r == if Reads() == [] then None else Some(Reads()[0])
    {
      hide Wf, Read, All, Decode, FromFound;
      WfIncreasing(crc, View());
      var i := FindSegment(cursor.seg);
      if i == |segments| {
        FoundNothing(crc, segments, cursor);
        if |segments| == 0 || segments[0].id <= cursor.seg { return None; }
        AllOfFirst(crc, segments);
        StartOk(crc, View(), 0);
        i, cursor := 0, Pos(segments[0].id, 0);
      } else {
        FromAt(crc, segments, cursor, i);
      }
      hide From;
      while true
        invariant i < |segments| && cursor.seg == segments[i].id
        invariant Valid() && Reads() == old(Reads())
        invariant Reads() == Read(crc, segments[i], cursor.off) + All(crc, segments[i + 1..])
        decreases |segments| - i
      {
        var seg := segments[i];
        var d := if cursor.off >= |seg.data| then UnexpectedEOF else Decode(crc, seg.data, cursor.off);
        if d.Rec? {
          ReadHead(crc, seg, cursor.off);
          return Some(Entry(d.payload, d.at, seg.id, d.endOff));
        }
        ReadNone(crc, seg, cursor.off);
        var next := NextSegment(seg.id);
        NextIs(segments, i, next);
        if next == |segments| {
          AllOfNone(crc);
          return None;
        }
        AllOfFirst(crc, segments[i + 1..]);
        StartOk(crc, View(), next);
        i, cursor := next, Pos(segments[next].id, 0);
      }
    }

    /** Bytes not yet delivered: the framed size of exactly what reads return. */
    method PendingBytes() returns (n: nat)
      requires Valid()
      ensures n == Framed(Undelivered(crc, View()))
      ensures Resolvable(segments, cursor) ==> n == Framed(Reads())
    {
      n := 0;
      var i := 0;
      while i < |segments|
        invariant i <= |segments|
        invariant n + Pending(segments[i..], cursor) == Pending(segments, cursor)
      {
        var seg := segments[i];
        assert segments[i..][0] == seg && segments[i..][1..] == segments[i + 1..];
        if seg.id > cursor.seg {
          n := n + |seg.data|;
        } else if seg.id == cursor.seg {
          var rest := |seg.data| - cursor.off;
          if rest > 0 { n := n + rest; }
        }
        i := i + 1;
      }
      WfWhole(crc, View());
      PendingIsFramed(crc, segments, cursor);
      ReadsReturn(crc, segments, cursor);
    }

    // ---------- writing ----------

    /** Deletes segments behind the cursor, as far as the file system lets go of them. */
    method ReclaimLocked(removable: set<nat>)
      modifies `segments, `totalBytes
      ensures View() == Reclaim(old(View()), removable)
    {
      var keep: seq<Seg> := [];
      var i := 0;
      assert segments[0..] == segments;
      NoneLeft(cursor, removable);
      hide Kept, Bytes;
      while i < |segments|
        invariant i <= |segments| && segments == old(segments)
        invariant keep + Kept(segments[i..], cursor, removable) == Kept(segments, cursor, removable)
        invariant totalBytes == old(totalBytes) - (Bytes(segments) - Bytes(keep) - Bytes(segments[i..]))
      {
        var seg := segments[i];
        KeptStep(segments, i, cursor, removable);
        BytesStep(segments, i);
        if seg.id < cursor.seg && seg.sealed && seg.id in removable {
          totalBytes := totalBytes - |seg.data|;
        } else {
          BytesSnoc(keep, seg);
          Assoc3(keep, [seg], Kept(segments[i + 1..], cursor, removable));
          keep := keep + [seg];
        }
        i := i + 1;
      }
      assert segments[i..] == [];
      NoneLeft(cursor, removable);
      assert keep == keep + [];
      segments := keep;
    }

    /** Moves the cursor to the record's end, durably, and reclaims behind it. */
    method Ack(e: Entry, removable: set<nat>)
      modifies this
      ensures View() == SegmentLog.Ack(old(View()), e, removable)
    {
      cursor := Pos(e.seg, e.end);
      saved := cursor;
      ReclaimLocked(removable);
    }

    /** Drops the oldest sealed segment and reports exactly its bytes; no undelivered record
        leaves the queue but those it held. */
    method EvictOldestLocked() returns (evicted: nat)
      modifies this
      ensures View() == E.EvictOldest(old(View()))
      ensures evicted == old(totalBytes) - totalBytes
      ensures Bytes(segments) + evicted == Bytes(old(segments))
      ensures Wf(crc, old(View()))
              ==> forall e | e in Undelivered(crc, old(View())) && e !in Undelivered(crc, View()) ::
                var i := E.FirstSealed(old(segments)); i < |old(segments)| && e.seg == old(segments)[i].id
    {
      ghost var was := View();
      if Wf(crc, was) { CostsOne(crc, was); }
      hide Wf, Undelivered;
      evicted := 0;
      var i := 0;
      while i < |segments|
        invariant i <= |segments|
        invariant forall j | 0 <= j < i :: !segments[j].sealed
        invariant View() == old(View())
      {
        var seg := segments[i];
        if seg.sealed {
          assert E.FirstSealed(segments) == i;
          E.BytesWithout(segments, i);
          totalBytes := totalBytes - |seg.data|;
          segments := segments[..i] + segments[i + 1..];
          evicted := |seg.data|;
          if cursor.seg <= seg.id {
            if |segments| > 0 { cursor := Pos(segments[0].id, 0); }
          }
          return;
        }
        i := i + 1;
      }
      assert E.FirstSealed(segments) == |segments|;
    }

    /** Drops segments older than the cutoff and reports exactly the bytes dropped. */
    method EvictExpired(cutoff: int64, removable: set<nat>) returns (evicted: nat)
      modifies this
      ensures View() == E.EvictExpired(old(View()), cutoff, removable)
      ensures evicted == old(totalBytes) - totalBytes
    {
      evicted := 0;
      var keep: seq<Seg> := [];
      var i := 0;
      assert segments[0..] == segments;
      NoneExpired(cutoff, removable, cursor);
      hide Bytes, E.Fresh, E.PushedPast;
      while i < |segments|
        invariant i <= |segments| && segments == old(segments) && saved == old(saved)
        invariant keep + E.Fresh(segments[i..], cutoff, removable) == E.Fresh(segments, cutoff, removable)
        invariant E.PushedPast(segments[i..], cutoff, removable, cursor)
                  == E.PushedPast(segments, cutoff, removable, old(cursor))
        invariant evicted == Bytes(segments) - Bytes(keep) - Bytes(segments[i..])
        invariant totalBytes == old(totalBytes) - evicted
      {
        var seg := segments[i];
        ExpiryStep(segments, keep, i, cutoff, removable, cursor);
        if seg.sealed && seg.oldest.Some? && seg.oldest.value < cutoff && seg.id in removable {
          totalBytes := totalBytes - |seg.data|;
          evicted := evicted + |seg.data|;
          if cursor.seg <= seg.id { cursor := Pos(seg.id + 1, 0); }
        } else {
          keep := keep + [seg];
        }
        i := i + 1;
      }
      assert segments[i..] == [];
      NoneExpired(cutoff, removable, cursor);
      assert keep == keep + [];
      segments := keep;
    }

    method EnsureActiveLocked()
      modifies `segments
      ensures segments == EnsureActive(old(segments))
    {
      if |segments| > 0 && segments[|segments| - 1].file && !segments[|segments| - 1].sealed { return; }
      var id := 1;
      if |segments| > 0 { id := segments[|segments| - 1].id + 1; }
      segments := segments + [Seg(id, [], false, true, 0, None)];
    }

    method SealActiveLocked()
      requires |segments| > 0
      modifies `segments
      ensures var n := |old(segments)| - 1; var s := old(segments)[n];
              segments == old(segments)[n := Seg(s.id, s.data, true, false, |s.data|, s.oldest)]
    {
      var n := |segments| - 1;
      var seg := segments[n];
      segments := segments[n := Seg(seg.id, seg.data, true, false, |seg.data|, seg.oldest)];
    }

    /** Writes one frame to the active segment and seals the segment once it is full. */
    method WriteLocked(payload: seq<byte>, now: int64)
      modifies this
      ensures View() == Write(crc, opts, old(View()), payload, now)
    {
      var buf := Encode(crc, payload, now);
      assert |buf| == HEADER_BYTES + |payload|;
      hide Encode;
      EnsureActiveLocked();
      var n := |segments| - 1;
      ghost var segs := segments;
      var seg := segments[n];
      seg := seg.(data := seg.data + buf);
      if seg.oldest.None? { seg := seg.(oldest := Some(now)); }
      segments := segments[n := seg];
      totalBytes := totalBytes + |buf|;
      if |seg.data| >= opts.segmentBytes { SealActiveLocked(); }
      assert segments[n] == Written(crc, opts, segs[n], payload, now);
      assert segments == segs[..n] + [segments[n]];
    }

    /** Makes room if it has to, then writes; ErrFull writes nothing. */
    method Append(payload: seq<byte>, now: int64, removable: set<nat>) returns (a: E.Admission, evicted: nat)
      modifies this
      ensures (View(), a) == E.Append(crc, opts, old(View()), payload, now, removable)
      ensures var c := E.Reclaimed(opts, old(View()), HEADER_BYTES + |payload|, removable);
              evicted == c.total - E.RoomMade(opts, old(View()), HEADER_BYTES + |payload|, removable).total
    {
      hide Reclaim, Write, E.EvictOldest;
      var need := HEADER_BYTES + |payload|;
      evicted := 0;
      if totalBytes + need > opts.maxBytes { ReclaimLocked(removable); }
      assert View() == E.Reclaimed(opts, old(View()), need, removable);
      if totalBytes + need > opts.maxBytes { evicted := EvictOldestLocked(); }
      assert View() == E.RoomMade(opts, old(View()), need, removable);
      if totalBytes + need > opts.maxBytes { return E.ErrFull, evicted; }
      WriteLocked(payload, now);
      a := E.Stored;
    }

    method SyncLocked()
      modifies `segments
      ensures View() == SegmentLog.Sync(old(View()))
    {
      if |segments| == 0 || !segments[|segments| - 1].file || segments[|segments| - 1].sealed { return; }
      var n := |segments| - 1;
      segments := segments[n := segments[n].(synced := |segments[n].data|)];
    }
  }

  // ---------- small facts about one segment ----------

  lemma NextIs(segs: seq<Seg>, i: nat, next: nat)
    requires Increasing(segs) && i < |segs| && next <= |segs|
    requires next < |segs| ==> segs[next].id > segs[i].id
    requires forall j | 0 <= j < next :: segs[j].id <= segs[i].id
    ensures next == i + 1
    ensures next == |segs| ==> segs[i + 1..] == []
    ensures next < |segs|
            ==> segs[i + 1..] != [] && segs[i + 1..][0] == segs[next] && segs[i + 1..][1..] == segs[next + 1..]
  {
    if i + 1 < |segs| { assert segs[i].id < segs[i + 1].id; }
  }

  /** The cursor may be put at the start of any segment. */
  lemma StartOk(crc: Checksum, b: Buf, i: nat)
    requires Wf(crc, b) && i < |b.segs|
    ensures Wf(crc, b.(cur := Pos(b.segs[i].id, 0)))
    ensures From(crc, b.segs, Pos(b.segs[i].id, 0)) == Read(crc, b.segs[i], 0) + All(crc, b.segs[i + 1..])
  {
    hide Read, All, Whole;
    FromAt(crc, b.segs, Pos(b.segs[i].id, 0), i);
  }

  lemma {:induction false} KeptStep(segs: seq<Seg>, i: nat, cur: Pos, removable: set<nat>)
    requires i < |segs|
    ensures Kept(segs[i..], cur, removable)
            == (if Gone(segs[i], cur, removable) then [] else [segs[i]]) + Kept(segs[i + 1..], cur, removable)
  {
    assert segs[i..][1..] == segs[i + 1..];
  }

  lemma {:induction false} FreshStep(segs: seq<Seg>, i: nat, cutoff: int64, removable: set<nat>, p: Pos)
    requires i < |segs|
    ensures var gone := E.Expired(segs[i], cutoff) && segs[i].id in removable;
            && E.Fresh(segs[i..], cutoff, removable)
               == (if gone then [] else [segs[i]]) + E.Fresh(segs[i + 1..], cutoff, removable)
            && E.PushedPast(segs[i..], cutoff, removable, p)
               == E.PushedPast(segs[i + 1..], cutoff, removable,
                               if gone && p.seg <= segs[i].id then Pos(segs[i].id + 1, 0) else p)
  {
    assert segs[i..][1..] == segs[i + 1..];
  }

  /** One turn of the expiry scan. */
  lemma ExpiryStep(segs: seq<Seg>, keep: seq<Seg>, i: nat, cutoff: int64, removable: set<nat>, p: Pos)
    requires i < |segs|
    ensures var s := segs[i];
            var gone := s.sealed && s.oldest.Some? && s.oldest.value < cutoff && s.id in removable;
            var keep' := if gone then keep else keep + [s];
            && keep + E.Fresh(segs[i..], cutoff, removable) == keep' + E.Fresh(segs[i + 1..], cutoff, removable)
            && E.PushedPast(segs[i..], cutoff, removable, p)
               == E.PushedPast(segs[i + 1..], cutoff, removable, if gone && p.seg <= s.id then Pos(s.id + 1, 0) else p)
            && Bytes(keep') + Bytes(segs[i + 1..]) == Bytes(keep) + Bytes(segs[i..]) - (if gone then |s.data| else 0)
  {
    hide Bytes, E.Fresh, E.PushedPast;
    var s := segs[i];
    FreshStep(segs, i, cutoff, removable, p);
    BytesStep(segs, i);
    BytesSnoc(keep, s);
    Assoc3(keep, [s], E.Fresh(segs[i + 1..], cutoff, removable));
    Assoc3(keep, [], E.Fresh(segs[i + 1..], cutoff, removable));
    assert keep + [] == keep;
  }

  lemma {:induction false} NoneExpired(cutoff: int64, removable: set<nat>, p: Pos)
    ensures E.Fresh([], cutoff, removable) == [] && Bytes([]) == 0 && E.PushedPast([], cutoff, removable, p) == p
  {
  }

  lemma {:induction false} NoneLeft(cur: Pos, removable: set<nat>)
    ensures Kept([], cur, removable) == [] && Bytes([]) == 0
  {
  }

  lemma BytesStep(segs: seq<Seg>, i: nat)
    requires i < |segs|
    ensures Bytes(segs[i..]) == |segs[i].data| + Bytes(segs[i + 1..])
  {
    assert segs[i..][1..] == segs[i + 1..];
  }

  lemma CostsOne(crc: Checksum, b: Buf)
    requires Wf(crc, b)
    ensures forall e | e in Undelivered(crc, b) && e !in Undelivered(crc, E.EvictOldest(b)) ::
              var i := E.FirstSealed(b.segs); i < |b.segs| && e.seg == b.segs[i].id
  {
    hide Wf, Undelivered, From, All;
    if E.FirstSealed(b.segs) < |b.segs| {
      forall e | e in Undelivered(crc, b) && e !in Undelivered(crc, E.EvictOldest(b))
        ensures e.seg == b.segs[E.FirstSealed(b.segs)].id
      {
        Evicted.OldestQueue(crc, b, e);
      }
    }
  }

  lemma RecoveredNone(crc: Checksum, o: Opts, disk: seq<Seg>)
    ensures RecoveredAll(crc, o, disk)[..0] == [] && Bytes(disk[..0]) == 0 && Bytes([]) == 0
    ensures |RecoveredAll(crc, o, disk)| == |disk|
  {
  }

  lemma RecoveredNext(crc: Checksum, o: Opts, disk: seq<Seg>, i: nat)
    requires i < |disk| == |RecoveredAll(crc, o, disk)|
    ensures RecoveredAll(crc, o, disk)[..i + 1]
            == RecoveredAll(crc, o, disk)[..i] + [Recovered(crc, o, disk[i], i == |disk| - 1)]
    ensures Bytes(disk[..i + 1]) == Bytes(disk[..i]) + |disk[i].data|
  {
    hide Recovered;
    assert disk[..i + 1] == disk[..i] + [disk[i]];
    BytesSnoc(disk[..i], disk[i]);
  }

  lemma RecoveredEnd(crc: Checksum, o: Opts, disk: seq<Seg>)
    ensures var r := RecoveredAll(crc, o, disk); |r| == |disk| && r[..|disk|] == r && disk[..|disk|] == disk
  {
  }

  lemma {:induction false} BytesSnoc(segs: seq<Seg>, s: Seg)
    ensures Bytes(segs + [s]) == Bytes(segs) + |s.data|
  {
    BytesConcat(segs, [s]);
  }

  lemma ReadHead(crc: Checksum, s: Seg, off: nat)
    requires Decode(crc, s.data, off).Rec?
    ensures var d := Decode(crc, s.data, off); var es := Read(crc, s, off);
            es != [] && es[0] == Entry(d.payload, d.at, s.id, d.endOff)
  {
    var ds := Parse(crc, s.data, off);
    assert ds[0] == Decode(crc, s.data, off);
  }

  lemma ReadNone(crc: Checksum, s: Seg, off: nat)
    requires |s.data| <= off || !Decode(crc, s.data, off).Rec?
    ensures Read(crc, s, off) == []
  {
  }

}
