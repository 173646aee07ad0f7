/** At-least-once delivery over whole runs: appends, flushes, the deliverer's peeks, sends,
    commits and acknowledgements, failures, crashes and reopenings, in any interleaving in
    which nothing is evicted. `Commit` returning nil is taken to mean durable. */
module AtLeastOnce {
  import opened Basics
  import opened Frame
  import opened SegmentLog
  import opened Queue
  import E = Evict

  // ---------- state ----------

  /** What has happened to each record. exposed: accepted by the sink and passed, uncommitted,
      by the acknowledgement of a dead letter behind it. tainted: its batch had a permanent
      error. durable: it was flushed at some moment. lost: a crash cut it off unflushed. */
  datatype Hist = Hist(
    log: set<Entry>, accepted: set<Entry>, dead: set<Entry>, committed: set<Entry>,
    exposed: set<Entry>, tainted: set<Entry>, lost: set<Entry>, durable: set<Entry>)

  /** Where the deliverer is in its loop. */
  datatype Work =
    | Gather(batch: seq<Entry>)
    | Send(batch: seq<Entry>, sent: nat, toAck: seq<Entry>)
    | Confirm(batch: seq<Entry>, toAck: seq<Entry>)
    | Settle(batch: seq<Entry>, toAck: seq<Entry>, acked: nat)

  datatype Sys = Sys(b: Buf, w: Work, h: Hist)

  const INIT := Sys(EMPTY, Gather([]), Hist({}, {}, {}, {}, {}, {}, {}, {}))

  datatype Event =
    | Append(payload: seq<byte>, now: int64, removable: set<nat>)
    | Sync
    | Hop(i: nat)
    | Peek
    | StartSend
    | Accept
    | Poison(removable: set<nat>)
    | EndSend
    | CommitOk
    | AckNext(removable: set<nat>)
    | EndBatch
    | GiveUp
    | Close
    | Crash(disk: seq<Seg>)

  function At(e: Entry): Pos { Pos(e.seg, e.end) }

  /** Where the next peek reads from. */
  function PeekPos(b: Buf, batch: seq<Entry>): Pos
  {
    if batch == [] then b.cur else At(batch[|batch| - 1])
  }

  predicate Enabled(crc: Checksum, o: Opts, s: Sys, ev: Event)
  {
    match ev
    case Append(payload, now, removable) =>
      var need := HEADER_BYTES + |payload|;
      |payload| <= MAX_RECORD_BYTES && E.Reclaimed(o, s.b, need, removable).total + need <= o.maxBytes
    case Sync => true
    case Hop(i) =>
      // Next: the cursor moves on to a segment's start without changing what reads return
      && i < |s.b.segs| && Resolvable(s.b.segs, s.b.cur) && s.b.cur.seg < s.b.segs[i].id
      && From(crc, s.b.segs, Pos(s.b.segs[i].id, 0)) == From(crc, s.b.segs, s.b.cur)
    case Peek => s.w.Gather? && From(crc, s.b.segs, PeekPos(s.b, s.w.batch)) != []
    case StartSend => s.w.Gather? && s.w.batch != []
    case Accept => s.w.Send? && s.w.sent < |s.w.batch|
    case Poison(_) => s.w.Send? && s.w.sent < |s.w.batch|
    case EndSend => s.w.Send? && s.w.sent == |s.w.batch|
    case CommitOk => s.w.Confirm?
    case AckNext(_) => s.w.Settle? && s.w.acked < |s.w.toAck|
    case EndBatch => s.w.Settle? && s.w.acked == |s.w.toAck|
    case GiveUp => true
    case Close => true
    case Crash(disk) => Survives(s.b.segs, disk)
  }

  /** The appends of a run are those of readable records that are stored without an eviction. */
  lemma AppendInRun(crc: Checksum, o: Opts, s: Sys, payload: seq<byte>, now: int64, removable: set<nat>)
    ensures Enabled(crc, o, s, Append(payload, now, removable)) <==>
            && |payload| <= MAX_RECORD_BYTES && E.Append(crc, o, s.b, payload, now, removable).1 == E.Stored
            && E.RoomMade(o, s.b, HEADER_BYTES + |payload|, removable)
               == E.Reclaimed(o, s.b, HEADER_BYTES + |payload|, removable)
  {
    hide E.Reclaimed, E.EvictOldest, Write;
  }

  /** e is dead-lettered: what its batch had accepted so far is now behind the cursor. */
  function Poisoned(h: Hist, batch: seq<Entry>, e: Entry, toAck: seq<Entry>): Hist
  {
    h.(dead := h.dead + {e}, exposed := h.exposed + (set x | x in toAck), tainted := h.tainted + (set x | x in batch))
  }

  /** One step, before the flushed records are noted. */
  function Act(crc: Checksum, o: Opts, s: Sys, ev: Event): Sys
    requires Enabled(crc, o, s, ev)
  {
    match ev
    case Append(payload, now, removable) =>
      var c := E.Reclaimed(o, s.b, HEADER_BYTES + |payload|, removable);
      s.(b := E.Append(crc, o, s.b, payload, now, removable).0, h := s.h.(log := s.h.log + {NewEntry(c, payload, now)}))
    case Sync => s.(b := SegmentLog.Sync(s.b))
    case Hop(i) => s.(b := s.b.(cur := Pos(s.b.segs[i].id, 0)))
    case Peek => s.(w := Gather(s.w.batch + [From(crc, s.b.segs, PeekPos(s.b, s.w.batch))[0]]))
    case StartSend => s.(w := Send(s.w.batch, 0, []))
    case Accept =>
      var e := s.w.batch[s.w.sent];
      s.(w := Send(s.w.batch, s.w.sent + 1, s.w.toAck + [e]), h := s.h.(accepted := s.h.accepted + {e}))
    case Poison(removable) =>
      // dead-lettered and acknowledged at once, before the batch commits
      var e := s.w.batch[s.w.sent];
      s.(b := Ack(s.b, e, removable),
         w := Send(s.w.batch, s.w.sent + 1, s.w.toAck),
         h := Poisoned(s.h, s.w.batch, e, s.w.toAck))
    case EndSend => s.(w := if s.w.toAck == [] then Gather([]) else Confirm(s.w.batch, s.w.toAck))
    case CommitOk =>
      s.(w := Settle(s.w.batch, s.w.toAck, 0), h := s.h.(committed := s.h.committed + (set x | x in s.w.toAck)))
    case AckNext(removable) =>
      s.(b := Ack(s.b, s.w.toAck[s.w.acked], removable), w := Settle(s.w.batch, s.w.toAck, s.w.acked + 1))
    case EndBatch => s.(w := Gather([]))
    case GiveUp => s.(w := Gather([]))
    case Close => s.(b := SegmentLog.Sync(s.b).(saved := s.b.cur))
    case Crash(disk) =>
      var b := Open(crc, o, disk, s.b.saved);
      Sys(b, Gather([]), s.h.(lost := s.h.lost + (set x | x in All(crc, s.b.segs) && x !in All(crc, b.segs))))
  }

  predicate Flushed(segs: seq<Seg>, e: Entry)
  {
    forall s | s in segs && s.id == e.seg :: e.end <= s.synced
  }

  function FlushedSet(crc: Checksum, segs: seq<Seg>): set<Entry>
  {
    set e | e in All(crc, segs) && Flushed(segs, e)
  }

  function Apply(crc: Checksum, o: Opts, s: Sys, ev: Event): Sys
    requires Enabled(crc, o, s, ev)
  {
    var t := Act(crc, o, s, ev);
    t.(h := t.h.(durable := t.h.durable + FlushedSet(crc, t.b.segs)))
  }

  predicate Next(crc: Checksum, o: Opts, s: Sys, ev: Event, t: Sys)
  {
    Enabled(crc, o, s, ev) && t == Apply(crc, o, s, ev)
  }

  /** states is what evs leads through, starting from an empty directory. */
  predicate IsRun(crc: Checksum, o: Opts, states: seq<Sys>, evs: seq<Event>)
  {
    && |states| == |evs| + 1 && states[0] == INIT
    && forall i | 0 <= i < |evs| :: Next(crc, o, states[i], evs[i], states[i + 1])
  }

  // ---------- what every step keeps ----------

  /** Delivered: in the dead-letter directory, committed, or exposed - accepted by the sink
      and passed without a commit, because a record behind it in its batch was dead-lettered. */
  predicate Done(h: Hist, e: Entry)
  {
    e in h.dead || e in h.committed || e in h.exposed
  }

  predicate Settled(h: Hist, e: Entry) { Done(h, e) || e in h.lost }

  /** No record lies beyond the segment the next append goes to. */
  predicate Reached(segs: seq<Seg>, e: Entry)
  {
    && segs != []
    && var last := segs[|segs| - 1];
       e.seg <= last.id && (e.seg == last.id && last.file ==> e.end <= |last.data|)
  }

  ghost predicate PassedOnlySettled(h: Hist, p: Pos)
  {
    forall e | e in h.log && Passed(e, p) :: Settled(h, e)
  }

  ghost predicate DiskInv(crc: Checksum, b: Buf, h: Hist)
  {
    && Wf(crc, b)
    && (forall e | e in All(crc, b.segs) :: e in h.log)
    && (forall e | e in h.log :: e in All(crc, b.segs) || Settled(h, e))
    && (forall e | e in h.log :: Reached(b.segs, e))
    && PassedOnlySettled(h, b.cur)
    && PassedOnlySettled(h, b.saved)
  }

  ghost predicate DurInv(crc: Checksum, b: Buf, h: Hist)
  {
    && h.durable <= h.log && h.lost <= h.log && h.durable !! h.lost
    && (forall e | e in All(crc, b.segs) :: e !in h.lost)
    && forall e | e in h.durable && e in All(crc, b.segs) :: Flushed(b.segs, e)
  }

  /** On disk, or its whole segment is gone. */
  ghost predicate Present(crc: Checksum, segs: seq<Seg>, e: Entry)
  {
    e in All(crc, segs) || forall s | s in segs :: s.id != e.seg
  }

  /** A batch leaves no gap: everything up to its i-th record is settled or in the batch. */
  ghost predicate Covers(h: Hist, batch: seq<Entry>, i: nat)
    requires i < |batch|
  {
    forall e | e in h.log && Passed(e, At(batch[i])) :: Settled(h, e) || e in batch[..i + 1]
  }

  ghost predicate BatchOk(crc: Checksum, b: Buf, h: Hist, batch: seq<Entry>)
  {
    && (forall e | e in batch :: e in h.log && Present(crc, b.segs, e))
    && (forall i | 0 <= i < |batch| :: Covers(h, batch, i))
  }

  ghost predicate WorkInv(crc: Checksum, b: Buf, w: Work, h: Hist)
  {
    && BatchOk(crc, b, h, w.batch)
    && match w
       case Gather(_) => true
       case Send(batch, sent, toAck) =>
         && sent <= |batch|
         && (forall i | 0 <= i < sent :: batch[i] in h.dead || batch[i] in toAck)
         && (forall e | e in toAck :: e in batch && e in h.accepted)
       case Confirm(batch, toAck) =>
         && (forall e | e in batch :: e in h.dead || e in toAck)
         && (forall e | e in toAck :: e in batch)
       case Settle(batch, toAck, acked) =>
         && (forall e | e in batch :: e in h.dead || e in h.committed)
         && (forall e | e in toAck :: e in batch)
  }

  ghost predicate Inv(crc: Checksum, s: Sys)
  {
    && DiskInv(crc, s.b, s.h) && DurInv(crc, s.b, s.h) && WorkInv(crc, s.b, s.w, s.h)
    && s.h.dead <= s.h.tainted && s.h.exposed <= s.h.tainted && s.h.exposed <= s.h.accepted
  }

  lemma InitInv(crc: Checksum)
    ensures Inv(crc, INIT)
  {
  }

  // ---------- deleting segments behind the cursor ----------

  lemma {:induction false} KeptEntries(crc: Checksum, b: Buf, removable: set<nat>, e: Entry)
    requires Wf(crc, b)
    ensures var kept := Kept(b.segs, b.cur, removable);
            && (e in All(crc, kept) ==> e in All(crc, b.segs))
            && (e in All(crc, b.segs) && !Passed(e, b.cur) ==> e in All(crc, kept))
            && (Present(crc, b.segs, e) ==> Present(crc, kept, e))
            && (Flushed(b.segs, e) ==> Flushed(kept, e))
  {
    hide All, Wf, Kept, Read;
    var kept := Kept(b.segs, b.cur, removable);
    KeptAfter(crc, b.segs, b.cur, removable);
    AfterMembers(All(crc, kept), b.cur, e);
    AfterMembers(All(crc, b.segs), b.cur, e);
    forall s
      ensures s in kept <==> s in b.segs && !Gone(s, b.cur, removable)
    {
      KeptMembers(b.segs, b.cur, removable, s);
    }
    AllMembers(crc, kept, e);
    AllMembers(crc, b.segs, e);
    if i :| 0 <= i < |kept| && e in Read(crc, kept[i], 0) {
      assert kept[i] in kept;
      var j :| 0 <= j < |b.segs| && b.segs[j] == kept[i];
      assert e in Read(crc, b.segs[j], 0);
    }
    if e in All(crc, b.segs) && e !in All(crc, kept) {
      var i := AllInSegment(crc, b.segs, e);
      forall s | s in kept
        ensures s.id != e.seg
      {
        if s.id == e.seg {
          var j :| 0 <= j < |b.segs| && b.segs[j] == s;
          SameId(crc, b, i, j);
          E.InSegs(crc, kept, s, e);
        }
      }
    }
  }

  lemma SameId(crc: Checksum, b: Buf, i: nat, j: nat)
    requires Wf(crc, b) && i < |b.segs| && j < |b.segs| && b.segs[i].id == b.segs[j].id
    ensures i == j
  {
  }

  lemma {:induction false} KeptReached(crc: Checksum, b: Buf, removable: set<nat>, e: Entry)
    requires Wf(crc, b) && Reached(b.segs, e)
    ensures Reached(Kept(b.segs, b.cur, removable), e)
  {
    KeptLast(b.segs, b.cur, removable);
  }

  lemma ReclaimInv(crc: Checksum, b: Buf, h: Hist, batch: seq<Entry>, removable: set<nat>)
    requires DiskInv(crc, b, h) && DurInv(crc, b, h) && BatchOk(crc, b, h, batch)
    ensures var r := Reclaim(b, removable);
            DiskInv(crc, r, h) && DurInv(crc, r, h) && BatchOk(crc, r, h, batch)
  {
    hide All, Wf, Kept, Present, Flushed, Covers, Reached, Settled;
    ReclaimKeeps(crc, b, removable);
    var kept := Kept(b.segs, b.cur, removable);
    forall e
      ensures e in All(crc, kept) ==> e in All(crc, b.segs)
      ensures e in All(crc, b.segs) && !Passed(e, b.cur) ==> e in All(crc, kept)
      ensures Present(crc, b.segs, e) ==> Present(crc, kept, e)
      ensures Flushed(b.segs, e) ==> Flushed(kept, e)
      ensures Reached(b.segs, e) ==> Reached(kept, e)
    {
      KeptEntries(crc, b, removable, e);
      if Reached(b.segs, e) { KeptReached(crc, b, removable, e); }
    }
  }

  // ---------- acknowledging ----------

  lemma AckInv(crc: Checksum, b: Buf, h: Hist, batch: seq<Entry>, e: Entry, removable: set<nat>)
    requires DiskInv(crc, b, h) && DurInv(crc, b, h) && BatchOk(crc, b, h, batch)
    requires e in h.log && Present(crc, b.segs, e) && PassedOnlySettled(h, At(e))
    ensures var r := Ack(b, e, removable);
            DiskInv(crc, r, h) && DurInv(crc, r, h) && BatchOk(crc, r, h, batch)
  {
    hide All, Wf, Flushed, Covers, Settled, PassedOnlySettled, Reclaim;
    PresentAckable(crc, b, e);
    AckSavedKeepsWf(crc, b, e);
    ReclaimInv(crc, AckSaved(b, e), h, batch, removable);
  }

  lemma PresentAckable(crc: Checksum, b: Buf, e: Entry)
    requires Present(crc, b.segs, e) && Reached(b.segs, e)
    ensures Ackable(crc, b, e)
  {
    hide All;
    if e !in All(crc, b.segs) {
      assert b.segs[|b.segs| - 1] in b.segs;
    }
  }

  // ---------- appending ----------

  lemma AppendInv(crc: Checksum, o: Opts, b: Buf, h: Hist, batch: seq<Entry>, payload: seq<byte>, now: int64)
    requires DiskInv(crc, b, h) && DurInv(crc, b, h) && BatchOk(crc, b, h, batch) && |payload| <= MAX_RECORD_BYTES
    ensures var r := Write(crc, o, b, payload, now); var h' := h.(log := h.log + {NewEntry(b, payload, now)});
            DiskInv(crc, r, h') && DurInv(crc, r, h') && BatchOk(crc, r, h', batch)
  {
    hide All, Wf, Write, NewEntry, Settled, Reached, Present, Flushed;
    var r, ne := Write(crc, o, b, payload, now), NewEntry(b, payload, now);
    var h' := h.(log := h.log + {ne});
    WriteAppends(crc, o, b, payload, now);
    WriteKeepsWf(crc, o, b, payload, now);
    WriteNew(crc, o, b, payload, now);
    forall e | e in h.log
      ensures Reached(r.segs, e) && !Passed(ne, At(e))
      ensures Present(crc, b.segs, e) ==> Present(crc, r.segs, e)
      ensures e in All(crc, b.segs) && Flushed(b.segs, e) ==> Flushed(r.segs, e)
      ensures Settled(h, e) ==> Settled(h', e)
    {
      WriteOld(crc, o, b, payload, now, e);
      SameSettled(h, h', e);
    }
    assert ne !in h.log;
    AppendDisk(crc, b, r, h, h', ne);
    forall i | 0 <= i < |batch|
      ensures Covers(h', batch, i)
    {
      assert Covers(h, batch, i) && batch[i] in batch;
    }
  }

  /** The bookkeeping of an append, given what the write does to each record. */
  lemma AppendDisk(crc: Checksum, b: Buf, r: Buf, h: Hist, h': Hist, ne: Entry)
    requires DiskInv(crc, b, h) && Wf(crc, r) && h' == h.(log := h.log + {ne})
    requires All(crc, r.segs) == All(crc, b.segs) + [ne] && r.cur == b.cur && r.saved == b.saved
    requires Reached(r.segs, ne) && !Passed(ne, b.cur) && !Passed(ne, b.saved)
    requires forall e | e in h.log :: Reached(r.segs, e) && (Settled(h, e) ==> Settled(h', e))
    ensures DiskInv(crc, r, h')
  {
    hide All, Wf, Settled, Reached;
    forall e | e in h'.log
      ensures e in All(crc, r.segs) || Settled(h', e)
    {
      if e != ne { assert e in h.log; }
    }
  }

  lemma SameSettled(h: Hist, h': Hist, e: Entry)
    requires h.dead <= h'.dead && h.committed <= h'.committed && h.exposed <= h'.exposed && h.lost <= h'.lost
    ensures Settled(h, e) ==> Settled(h', e)
  {
  }

  lemma WriteNew(crc: Checksum, o: Opts, b: Buf, payload: seq<byte>, now: int64)
    requires Wf(crc, b) && |payload| <= MAX_RECORD_BYTES
    ensures var r, ne := Write(crc, o, b, payload, now), NewEntry(b, payload, now);
            ne in All(crc, r.segs) && Reached(r.segs, ne) && r.cur == b.cur && r.saved == b.saved
  {
    WriteAppends(crc, o, b, payload, now);
    WriteSegs(crc, o, b, payload, now);
    hide All, Wf, Write;
    WrittenReach(crc, o, EnsureActive(b.segs)[|EnsureActive(b.segs)| - 1], payload, now);
  }

  lemma WrittenReach(crc: Checksum, o: Opts, s: Seg, payload: seq<byte>, now: int64)
    requires s.file
    ensures var w := Written(crc, o, s, payload, now);
            && w.id == s.id && |w.data| == |s.data| + HEADER_BYTES + |payload|
            && (w.synced == s.synced || w.synced == |w.data|)
  {
  }

  /** What a write means for a record already in the log. */
  lemma WriteOld(crc: Checksum, o: Opts, b: Buf, payload: seq<byte>, now: int64, e: Entry)
    requires Wf(crc, b) && |payload| <= MAX_RECORD_BYTES && Reached(b.segs, e)
    ensures var r, ne := Write(crc, o, b, payload, now), NewEntry(b, payload, now);
            && Reached(r.segs, e) && !Passed(ne, At(e))
            && (Present(crc, b.segs, e) ==> Present(crc, r.segs, e))
            && (e in All(crc, b.segs) && Flushed(b.segs, e) ==> Flushed(r.segs, e))
  {
    WriteAppends(crc, o, b, payload, now);
    WriteSegs(crc, o, b, payload, now);
    var segs := EnsureActive(b.segs);
    var n := |segs| - 1;
    WrittenReach(crc, o, segs[n], payload, now);
    hide All, Written, Write, Wf, NewEntry;
    var r := Write(crc, o, b, payload, now);
    assert !HasActive(b.segs) ==> segs[..n] == b.segs;
    assert HasActive(b.segs) ==> segs[..n] == b.segs[..n] && segs[n] in b.segs;
    assert forall s | s in r.segs :: s == r.segs[n] || s in segs[..n];
    assert forall s | s in segs[..n] :: s in b.segs;
    NewAfter(crc, b, payload, now, e);
    if e in All(crc, b.segs) && Flushed(b.segs, e) && e.seg == segs[n].id && HasActive(b.segs) {
      assert e.end <= segs[n].synced;
      assert |segs[n].data| >= e.end;
    }
  }

  lemma NewAfter(crc: Checksum, b: Buf, payload: seq<byte>, now: int64, e: Entry)
    requires Wf(crc, b) && Reached(b.segs, e)
    ensures !Passed(NewEntry(b, payload, now), At(e))
    ensures !HasActive(b.segs) ==> e.seg < NextId(b.segs)
  {
    hide Whole;
    if !HasActive(b.segs) {
    } else {
      assert b.segs[|b.segs| - 1].file;
    }
  }

  // ---------- peeking ----------

  /** The record a peek returns extends the batch without a gap. */
  lemma PeekCovers(crc: Checksum, b: Buf, h: Hist, batch: seq<Entry>)
    requires DiskInv(crc, b, h) && BatchOk(crc, b, h, batch)
    requires From(crc, b.segs, PeekPos(b, batch)) != []
    ensures BatchOk(crc, b, h, batch + [From(crc, b.segs, PeekPos(b, batch))[0]])
  {
    hide All, From, Settled, Reached;
    var q := PeekPos(b, batch);
    PeekPosOk(crc, b, h, batch);
    ReadsReturn(crc, b.segs, q);
    var all := All(crc, b.segs);
    AllInOrder(crc, b.segs);
    var k := AfterSuffix(all, q);
    var e := From(crc, b.segs, q)[0];
    assert e == all[k] && e in all;
    var batch' := batch + [e];
    forall x | x in h.log && Passed(x, At(e))
      ensures Settled(h, x) || x in batch'
    {
      if Passed(x, q) {
        if batch != [] { assert Covers(h, batch, |batch| - 1); assert batch[..|batch|] == batch; }
      } else if x in all {
        var m :| 0 <= m < |all| && all[m] == x;
        assert m >= k;
        FirstOnly(all, k, m);
      }
    }
    assert Covers(h, batch', |batch|) by { assert batch'[..|batch| + 1] == batch'; }
    forall i | 0 <= i < |batch|
      ensures Covers(h, batch', i)
    {
      assert Covers(h, batch, i) && batch'[..i + 1] == batch[..i + 1];
    }
  }

  lemma FirstOnly(all: seq<Entry>, k: nat, m: nat)
    requires InOrder(all) && k <= m < |all| && Passed(all[m], At(all[k]))
    ensures m == k
  {
  }

  lemma PeekPosOk(crc: Checksum, b: Buf, h: Hist, batch: seq<Entry>)
    requires DiskInv(crc, b, h) && BatchOk(crc, b, h, batch)
    ensures Increasing(b.segs) && forall s | s in b.segs :: Aligned(crc, s, PeekPos(b, batch))
  {
    hide All, Aligned, Covers, Settled;
    if batch != [] {
      var e := batch[|batch| - 1];
      assert e in batch;
      PresentAckable(crc, b, e);
      AckSavedKeepsWf(crc, b, e);
    }
  }

  // ---------- flushing, hopping, crashing ----------

  lemma SyncKeeps(crc: Checksum, b: Buf)
    requires Wf(crc, b)
    ensures var r := SegmentLog.Sync(b);
            && Wf(crc, r) && All(crc, r.segs) == All(crc, b.segs)
            && r.cur == b.cur && r.saved == b.saved
            && (forall e :: Reached(b.segs, e) ==> Reached(r.segs, e))
            && (forall e :: Present(crc, b.segs, e) ==> Present(crc, r.segs, e))
            && (forall e :: e in All(crc, b.segs) && Flushed(b.segs, e) ==> Flushed(r.segs, e))
  {
    hide Read, Whole, Boundary, SegsOk, CursorOk, All;
    if HasActive(b.segs) {
      var n := |b.segs| - 1;
      var s := b.segs[n];
      var s' := s.(synced := |s.data|);
      var r := SegmentLog.Sync(b);
      LastOk(crc, b.segs);
      assert r.segs == b.segs[..n] + [s'];
      SameRead(crc, s, s');
      AllLast(crc, b.segs[..n], s);
      AllLast(crc, b.segs[..n], s');
      SnocOk(crc, b.segs[..n], s');
      CursorReplaced(crc, b.segs[..n], s, s', b.cur);
      CursorReplaced(crc, b.segs[..n], s, s', b.saved);
      BytesConcat(b.segs[..n], [s]);
      BytesConcat(b.segs[..n], [s']);
      forall e
        ensures Reached(b.segs, e) ==> Reached(r.segs, e)
        ensures Present(crc, b.segs, e) ==> Present(crc, r.segs, e)
        ensures Flushed(b.segs, e) ==> Flushed(r.segs, e)
      {
        SyncEntry(crc, b.segs[..n], s, s', e);
      }
    }
  }

  lemma {:induction false} SyncEntry(crc: Checksum, front: seq<Seg>, s: Seg, s': Seg, e: Entry)
    requires s' == s.(synced := |s.data|) && s.synced <= |s.data|
    requires All(crc, front + [s]) == All(crc, front + [s'])
    ensures Reached(front + [s], e) ==> Reached(front + [s'], e)
    ensures Present(crc, front + [s], e) ==> Present(crc, front + [s'], e)
    ensures Flushed(front + [s], e) ==> Flushed(front + [s'], e)
  {
    hide All;
    assert s in front + [s];
    assert forall t | t in front + [s'] :: t == s' || t in front + [s];
  }

  lemma SameRead(crc: Checksum, s: Seg, s': Seg)
    requires s'.id == s.id && s'.data == s.data
    ensures Read(crc, s', 0) == Read(crc, s, 0)
  {
  }

  lemma SyncInv(crc: Checksum, b: Buf, h: Hist, batch: seq<Entry>)
    requires DiskInv(crc, b, h) && DurInv(crc, b, h) && BatchOk(crc, b, h, batch)
    ensures var r := SegmentLog.Sync(b); DiskInv(crc, r, h) && DurInv(crc, r, h) && BatchOk(crc, r, h, batch)
  {
    hide All, Wf, Reached, Present, Flushed, Covers, Settled, SegmentLog.Sync;
    SyncKeeps(crc, b);
  }

  /** A cursor moved to a segment's start, with the same records ahead, passes nothing new. */
  lemma HopInv(crc: Checksum, b: Buf, h: Hist, i: nat)
    requires DiskInv(crc, b, h) && i < |b.segs| && Resolvable(b.segs, b.cur)
    requires From(crc, b.segs, Pos(b.segs[i].id, 0)) == From(crc, b.segs, b.cur)
    ensures DiskInv(crc, b.(cur := Pos(b.segs[i].id, 0)), h)
  {
    hide All, From, Settled, Reached;
    var p := Pos(b.segs[i].id, 0);
    StartAligned(crc, b, i);
    ReadsReturn(crc, b.segs, p);
    ReadsReturn(crc, b.segs, b.cur);
    forall e | e in h.log && Passed(e, p)
      ensures Settled(h, e)
    {
      AfterMembers(All(crc, b.segs), p, e);
      AfterMembers(All(crc, b.segs), b.cur, e);
    }
  }

  lemma StartAligned(crc: Checksum, b: Buf, i: nat)
    requires Wf(crc, b) && i < |b.segs|
    ensures var p := Pos(b.segs[i].id, 0);
            && Increasing(b.segs) && Resolvable(b.segs, p)
            && (forall s | s in b.segs :: Aligned(crc, s, p))
            && Wf(crc, b.(cur := p))
  {
    hide Whole;
  }

  lemma CrashInv(crc: Checksum, o: Opts, b: Buf, h: Hist, disk: seq<Seg>)
    requires DiskInv(crc, b, h) && DurInv(crc, b, h) && Survives(b.segs, disk)
    ensures var r := Open(crc, o, disk, b.saved);
            var h' := h.(lost := h.lost + (set x | x in All(crc, b.segs) && x !in All(crc, r.segs)));
            DiskInv(crc, r, h') && DurInv(crc, r, h')
  {
    hide All, Open, Settled, Wf, Survives, OnDisk, Reached, Flushed;
    var r := Open(crc, o, disk, b.saved);
    var gone := set x | x in All(crc, b.segs) && x !in All(crc, r.segs);
    var h' := h.(lost := h.lost + gone);
    OpenRecovers(crc, o, b, disk);
    OpenCursor(crc, o, disk, b.saved);
    forall e | e in h.log
      ensures Settled(h, e) ==> Settled(h', e)
      ensures e in gone ==> Settled(h', e)
      ensures Reached(r.segs, e)
    {
      SameSettled(h, h', e);
      OpenReached(crc, o, b, disk, e);
      if e in gone { LostSettled(h', e); }
    }
    forall e | e in h.durable && e in All(crc, b.segs)
      ensures e in All(crc, r.segs) && Flushed(r.segs, e)
    {
      FlushedSurvives(crc, o, b, disk, e);
    }
  }

  lemma LostSettled(h: Hist, e: Entry)
    requires e in h.lost
    ensures Settled(h, e)
  {
  }

  lemma OpenCursor(crc: Checksum, o: Opts, disk: seq<Seg>, p: Pos)
    ensures var r := Open(crc, o, disk, p); r.cur == p && r.saved == p
  {
  }

  lemma OpenReached(crc: Checksum, o: Opts, b: Buf, disk: seq<Seg>, e: Entry)
    requires Wf(crc, b) && Survives(b.segs, disk) && Reached(b.segs, e)
    ensures Reached(Open(crc, o, disk, b.saved).segs, e)
  {
    OpenIds(crc, o, b, disk);
    OpenLength(crc, o, disk);
    OpenAt(crc, o, b, disk, |disk| - 1);
  }

  /** A flushed record is within the bytes that survive, and stays flushed. */
  lemma FlushedSurvives(crc: Checksum, o: Opts, b: Buf, disk: seq<Seg>, e: Entry)
    requires Wf(crc, b) && Survives(b.segs, disk) && e in All(crc, b.segs) && Flushed(b.segs, e)
    ensures var r := Open(crc, o, disk, b.saved); e in All(crc, r.segs) && Flushed(r.segs, e)
  {
    hide All, Wf, Read;
    var i := AllInSegment(crc, b.segs, e);
    assert b.segs[i] in b.segs && disk[i].id == e.seg && e.end <= |disk[i].data|;
    OpenEntries(crc, o, b, disk, e);
    var r := RecoveredAll(crc, o, disk);
    OpenWf(crc, o, b, disk);
    var j := AllInSegment(crc, r, e);
    forall s | s in r && s.id == e.seg
      ensures e.end <= s.synced
    {
      var m :| 0 <= m < |r| && r[m] == s;
      SameId(crc, Open(crc, o, disk, b.saved), m, j);
      RecoveredSynced(crc, o, disk, j);
    }
  }

  lemma RecoveredSynced(crc: Checksum, o: Opts, disk: seq<Seg>, j: nat)
    requires j < |disk|
    ensures var s := RecoveredAll(crc, o, disk)[j]; s.synced == |s.data|
  {
    RecoveredShape(crc, o, disk[j], j == |disk| - 1);
  }

  // ---------- one step ----------

  /** Noting which records are flushed keeps the invariant. */
  lemma ObserveInv(crc: Checksum, b: Buf, w: Work, h: Hist)
    requires DiskInv(crc, b, h) && DurInv(crc, b, h) && WorkInv(crc, b, w, h)
    ensures var h' := h.(durable := h.durable + FlushedSet(crc, b.segs));
            DiskInv(crc, b, h') && DurInv(crc, b, h') && WorkInv(crc, b, w, h')
  {
    hide All, Wf, Reached, Present, Flushed, Settled;
    var h' := h.(durable := h.durable + FlushedSet(crc, b.segs));
    forall e
      ensures Settled(h, e) <==> Settled(h', e)
    {
      SameSettled(h, h', e);
      SameSettled(h', h, e);
    }
    assert forall i | 0 <= i < |w.batch| :: Covers(h, w.batch, i) ==> Covers(h', w.batch, i);
  }

  /** More records delivered, nothing else changed. */
  predicate Grows(h: Hist, h': Hist)
  {
    && h'.log == h.log && h'.lost == h.lost && h'.durable == h.durable
    && h.dead <= h'.dead && h.committed <= h'.committed && h.accepted <= h'.accepted
    && h.exposed <= h'.exposed && h.tainted <= h'.tainted
  }

  lemma GrowInv(crc: Checksum, b: Buf, h: Hist, h': Hist, batch: seq<Entry>)
    requires DiskInv(crc, b, h) && DurInv(crc, b, h) && BatchOk(crc, b, h, batch) && Grows(h, h')
    ensures DiskInv(crc, b, h') && DurInv(crc, b, h') && BatchOk(crc, b, h', batch)
  {
    hide All, Wf, Reached, Present, Flushed, Settled;
    forall e
      ensures Settled(h, e) ==> Settled(h', e)
    {
      SameSettled(h, h', e);
    }
    forall i | 0 <= i < |batch|
      ensures Covers(h', batch, i)
    {
      assert Covers(h, batch, i);
    }
  }

  /** Dead-lettering acknowledges a record while earlier ones of its batch are only accepted. */
  lemma PoisonInv(crc: Checksum, b: Buf, h: Hist, batch: seq<Entry>, sent: nat, toAck: seq<Entry>, removable: set<nat>)
    requires DiskInv(crc, b, h) && DurInv(crc, b, h) && WorkInv(crc, b, Send(batch, sent, toAck), h)
    requires sent < |batch|
    ensures var e := batch[sent];
            var h' := Poisoned(h, batch, e, toAck);
            var r := Ack(b, e, removable);
            DiskInv(crc, r, h') && DurInv(crc, r, h') && WorkInv(crc, r, Send(batch, sent + 1, toAck), h')
  {
    hide All, Wf, Reached, Flushed, DiskInv, DurInv, Ack, Present;
    var e := batch[sent];
    var h' := Poisoned(h, batch, e, toAck);
    GrowInv(crc, b, h, h', batch);
    forall x | x in h'.log && Passed(x, At(e))
      ensures Settled(h', x)
    {
      assert Covers(h, batch, sent);
      SameSettled(h, h', x);
      if x in batch[..sent + 1] {
        var j :| 0 <= j <= sent && batch[j] == x;
        assert x in batch;
      }
    }
    assert e in batch;
    AckInv(crc, b, h', batch, e, removable);
  }

  lemma AckNextInv(crc: Checksum, b: Buf, h: Hist, w: Work, removable: set<nat>)
    requires DiskInv(crc, b, h) && DurInv(crc, b, h) && WorkInv(crc, b, w, h)
    requires w.Settle? && w.acked < |w.toAck|
    ensures var r := Ack(b, w.toAck[w.acked], removable);
            DiskInv(crc, r, h) && DurInv(crc, r, h) && WorkInv(crc, r, w.(acked := w.acked + 1), h)
  {
    hide All, Wf, Reached, Flushed, DiskInv, DurInv, Ack, Present;
    var e := w.toAck[w.acked];
    assert e in w.toAck && e in w.batch;
    var m :| 0 <= m < |w.batch| && w.batch[m] == e;
    forall x | x in h.log && Passed(x, At(e))
      ensures Settled(h, x)
    {
      assert Covers(h, w.batch, m);
      if x in w.batch[..m + 1] { assert x in w.batch; }
    }
    AckInv(crc, b, h, w.batch, e, removable);
  }

  lemma NoBatch(crc: Checksum, b: Buf, h: Hist)
    ensures WorkInv(crc, b, Gather([]), h)
  {
  }

  lemma ActInv(crc: Checksum, o: Opts, s: Sys, ev: Event)
    requires Inv(crc, s) && Enabled(crc, o, s, ev)
    ensures Inv(crc, Act(crc, o, s, ev))
  {
    hide All, From, DiskInv, DurInv, BatchOk, Ack, Open, Write, NewEntry, Survives, Reclaim, SegmentLog.Sync;
    match ev
    case Append(payload, now, removable) =>
      var c := E.Reclaimed(o, s.b, HEADER_BYTES + |payload|, removable);
      ReclaimInv(crc, s.b, s.h, s.w.batch, removable);
      AppendInv(crc, o, c, s.h, s.w.batch, payload, now);
    case Sync => SyncInv(crc, s.b, s.h, s.w.batch);
    case Hop(i) =>
      HopInv(crc, s.b, s.h, i);
      CursorOnly(crc, s.b, s.b.(cur := Pos(s.b.segs[i].id, 0)), s.h, s.w.batch);
    case Peek => PeekCovers(crc, s.b, s.h, s.w.batch);
    case StartSend =>
    case Accept =>
      var h' := s.h.(accepted := s.h.accepted + {s.w.batch[s.w.sent]});
      GrowInv(crc, s.b, s.h, h', s.w.batch);
    case Poison(removable) => PoisonInv(crc, s.b, s.h, s.w.batch, s.w.sent, s.w.toAck, removable);
    case EndSend => NoBatch(crc, s.b, s.h);
    case CommitOk =>
      var h' := s.h.(committed := s.h.committed + (set x | x in s.w.toAck));
      GrowInv(crc, s.b, s.h, h', s.w.batch);
    case AckNext(removable) => AckNextInv(crc, s.b, s.h, s.w, removable);
    case EndBatch => NoBatch(crc, s.b, s.h);
    case GiveUp => NoBatch(crc, s.b, s.h);
    case Close =>
      SyncInv(crc, s.b, s.h, s.w.batch);
      SaveCursor(crc, SegmentLog.Sync(s.b), s.h, s.w.batch);
      SyncCursor(s.b);
    case Crash(disk) =>
      CrashInv(crc, o, s.b, s.h, disk);
      NoBatch(crc, Open(crc, o, disk, s.b.saved), Act(crc, o, s, ev).h);
  }

  lemma CursorOnly(crc: Checksum, b: Buf, r: Buf, h: Hist, batch: seq<Entry>)
    requires DurInv(crc, b, h) && BatchOk(crc, b, h, batch) && r.segs == b.segs
    ensures DurInv(crc, r, h) && BatchOk(crc, r, h, batch)
  {
  }

  lemma SyncCursor(b: Buf)
    ensures SegmentLog.Sync(b).cur == b.cur
  {
  }

  lemma SaveCursor(crc: Checksum, b: Buf, h: Hist, batch: seq<Entry>)
    requires DiskInv(crc, b, h) && DurInv(crc, b, h) && BatchOk(crc, b, h, batch)
    ensures var r := b.(saved := b.cur); DiskInv(crc, r, h) && DurInv(crc, r, h) && BatchOk(crc, r, h, batch)
  {
    hide All, SegsOk;
  }

  lemma StepInv(crc: Checksum, o: Opts, s: Sys, ev: Event, t: Sys)
    requires Inv(crc, s) && Next(crc, o, s, ev, t)
    ensures Inv(crc, t)
  {
    hide Act, Enabled, DiskInv, DurInv, WorkInv;
    ActInv(crc, o, s, ev);
    var a := Act(crc, o, s, ev);
    ObserveInv(crc, a.b, a.w, a.h);
  }

  lemma {:induction false} RunInv(crc: Checksum, o: Opts, states: seq<Sys>, evs: seq<Event>, i: nat)
    requires IsRun(crc, o, states, evs) && i < |states|
    ensures Inv(crc, states[i])
  {
    hide Inv, Next;
    if i == 0 {
      InitInv(crc);
    } else {
      RunInv(crc, o, states, evs, i - 1);
      StepInv(crc, o, states[i - 1], evs[i - 1], states[i]);
    }
  }

  /** At-least-once, for every run and every record that was ever flushed to disk.
      The persisted cursor has passed it only if it was dead-lettered, or committed, or is
      exposed: accepted, and passed when a record behind it in its batch was dead-lettered;
      with no permanent error in its batch, only if Commit returned. And unless it has been so
      delivered, then after a crash at this moment, whatever bytes survive, it is still on disk
      beyond the cursor, and the reopened buffer's reads return it if and only if the reader
      finds its place. */
  lemma DeliveredAtLeastOnce(crc: Checksum, o: Opts, states: seq<Sys>, evs: seq<Event>, i: nat, e: Entry,
                             disk: seq<Seg>)
    requires IsRun(crc, o, states, evs) && i < |states|
    requires e in states[i].h.durable && Survives(states[i].b.segs, disk)
    ensures var s := states[i];
            && (Passed(e, s.b.saved) ==> Done(s.h, e))
            && (Passed(e, s.b.saved) && e !in s.h.tainted ==> e in s.h.committed)
    ensures var s := states[i]; var r := Open(crc, o, disk, s.b.saved);
            !Done(s.h, e) ==>
              && e in Undelivered(crc, r)
              && (e in From(crc, r.segs, r.cur) <==> Resolvable(r.segs, r.cur))
  {
    hide All, From, Open, Next, WorkInv, Reached, Present, Resolvable, Aligned, SegsOk;
    RunInv(crc, o, states, evs, i);
    var s := states[i];
    var r := Open(crc, o, disk, s.b.saved);
    if !Done(s.h, e) {
      assert e in All(crc, s.b.segs);
      FlushedSurvives(crc, o, s.b, disk, e);
      OpenCursor(crc, o, disk, s.b.saved);
      AfterMembers(All(crc, r.segs), r.cur, e);
      OpenWf(crc, o, s.b, disk);
      WfReads(crc, r);
    }
  }

  lemma WfReads(crc: Checksum, b: Buf)
    requires Wf(crc, b)
    ensures From(crc, b.segs, b.cur) == if Resolvable(b.segs, b.cur) then Undelivered(crc, b) else []
  {
    ReadsReturn(crc, b.segs, b.cur);
  }
}
