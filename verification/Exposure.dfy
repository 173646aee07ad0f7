/** Exactly which undelivered records a dead letter costs. Acknowledging a dead letter before
    its batch commits passes the records accepted before it; these, and no others, are behind
    the persisted cursor without a commit. */
module Exposure {
  import opened Basics
  import opened Frame
  import opened SegmentLog
  import opened Queue
  import E = Evict
  import opened AtLeastOnce

  /** Accepted, passed, and neither committed nor dead-lettered. */
  predicate AtRisk(h: Hist, x: Entry) { x in h.exposed && x !in h.committed && x !in h.dead }

  /** The part of the batch a record at risk may still be in. */
  function Handled(w: Work): (es: seq<Entry>)
  {
    match w
    case Gather(_) => []
    case Send(batch, sent, _) => if sent <= |batch| then batch[..sent] else batch
    case Confirm(batch, _) => batch
    case Settle(_, _, _) => []
  }

  /** Behind both cursors and behind everything still to be acknowledged. */
  ghost predicate Behind(b: Buf, w: Work, x: Entry)
  {
    && Passed(x, b.cur) && Passed(x, b.saved)
    && forall e | e in w.batch :: Passed(x, At(e)) || x in Handled(w)
  }

  ghost predicate ExposedOk(s: Sys)
  {
    && InOrder(s.w.batch)
    && (s.w.Send? ==> forall e | e in s.w.toAck :: e in Handled(s.w))
    && forall x | AtRisk(s.h, x) :: Behind(s.b, s.w, x)
  }

  lemma BeforePassed(batch: seq<Entry>, k: nat, x: Entry)
    requires InOrder(batch) && k < |batch| && x in batch[..k]
    ensures Passed(x, At(batch[k]))
  {
    var j :| 0 <= j < k && batch[..k][j] == x;
    assert Before(batch[j], batch[k]);
  }

  /** A peeked record lies beyond the cursor and beyond the batch. */
  lemma PeekBeyond(crc: Checksum, b: Buf, h: Hist, batch: seq<Entry>)
    requires DiskInv(crc, b, h) && BatchOk(crc, b, h, batch) && InOrder(batch)
    requires From(crc, b.segs, PeekPos(b, batch)) != []
    ensures var e := From(crc, b.segs, PeekPos(b, batch))[0];
            InOrder(batch + [e]) && !Passed(e, PeekPos(b, batch))
  {
    hide All, From, Settled, Reached, Covers;
    var q := PeekPos(b, batch);
    PeekPosOk(crc, b, h, batch);
    ReadsReturn(crc, b.segs, q);
    var e := From(crc, b.segs, q)[0];
    AfterMembers(All(crc, b.segs), q, e);
    forall j | 0 <= j < |batch|
      ensures Before(batch[j], e)
    {
      if j < |batch| - 1 { assert Before(batch[j], batch[|batch| - 1]); }
    }
  }

  lemma PeekExposed(crc: Checksum, s: Sys)
    requires Inv(crc, s) && ExposedOk(s) && s.w.Gather? && From(crc, s.b.segs, PeekPos(s.b, s.w.batch)) != []
    ensures ExposedOk(s.(w := Gather(s.w.batch + [From(crc, s.b.segs, PeekPos(s.b, s.w.batch))[0]])))
  {
    hide From, DiskInv, DurInv, BatchOk, Inv;
    assert DiskInv(crc, s.b, s.h) && BatchOk(crc, s.b, s.h, s.w.batch) by { InvParts(crc, s); }
    PeekBeyond(crc, s.b, s.h, s.w.batch);
    var e := From(crc, s.b.segs, PeekPos(s.b, s.w.batch))[0];
    forall x | AtRisk(s.h, x)
      ensures Passed(x, At(e))
    {
      assert Behind(s.b, s.w, x);
      if s.w.batch != [] { assert s.w.batch[|s.w.batch| - 1] in s.w.batch; }
    }
  }

  lemma InvParts(crc: Checksum, s: Sys)
    requires Inv(crc, s)
    ensures DiskInv(crc, s.b, s.h) && BatchOk(crc, s.b, s.h, s.w.batch) && WorkInv(crc, s.b, s.w, s.h)
  {
    hide DiskInv, DurInv, BatchOk;
  }

  lemma AckMoves(b: Buf, e: Entry, removable: set<nat>)
    ensures var r := Ack(b, e, removable); r.cur == At(e) && r.saved == At(e)
  {
  }

  lemma PoisonExposed(crc: Checksum, s: Sys, t: Sys, removable: set<nat>)
    requires Inv(crc, s) && ExposedOk(s) && s.w.Send? && s.w.sent < |s.w.batch|
    requires var e := s.w.batch[s.w.sent];
             t == Sys(Ack(s.b, e, removable), Send(s.w.batch, s.w.sent + 1, s.w.toAck),
                      Poisoned(s.h, s.w.batch, e, s.w.toAck))
    ensures ExposedOk(t)
  {
    hide Ack, Inv;
    var batch, k := s.w.batch, s.w.sent;
    AckMoves(s.b, batch[k], removable);
    assert batch[..k + 1] == batch[..k] + [batch[k]];
    forall x | AtRisk(t.h, x)
      ensures Behind(t.b, t.w, x)
    {
      if x in s.h.exposed { assert AtRisk(s.h, x) && Behind(s.b, s.w, x); }
      assert batch[k] in batch;
      if x in batch[..k] { BeforePassed(batch, k, x); }
    }
  }

  lemma CommitExposed(crc: Checksum, s: Sys, t: Sys)
    requires Inv(crc, s) && ExposedOk(s) && s.w.Confirm?
    requires t == s.(w := Settle(s.w.batch, s.w.toAck, 0),
                     h := s.h.(committed := s.h.committed + (set x | x in s.w.toAck)))
    ensures ExposedOk(t)
  {
    hide Inv;
    InvParts(crc, s);
    hide BatchOk, DiskInv;
    forall x | AtRisk(t.h, x)
      ensures Behind(t.b, t.w, x)
    {
      assert Behind(s.b, s.w, x);
      assert x !in s.w.batch;
    }
  }

  lemma AckExposed(s: Sys, t: Sys, removable: set<nat>)
    requires ExposedOk(s) && s.w.Settle? && s.w.acked < |s.w.toAck| && s.w.toAck[s.w.acked] in s.w.batch
    requires t == s.(b := Ack(s.b, s.w.toAck[s.w.acked], removable), w := Settle(s.w.batch, s.w.toAck, s.w.acked + 1))
    ensures ExposedOk(t)
  {
    hide Ack;
    AckMoves(s.b, s.w.toAck[s.w.acked], removable);
    forall x | AtRisk(t.h, x) ensures Behind(t.b, t.w, x) { assert Behind(s.b, s.w, x); }
  }

  /** The batch is unchanged or let go, the cursors did not move back, nothing was exposed. */
  lemma Kept(s: Sys, t: Sys)
    requires ExposedOk(s) && t.h.exposed == s.h.exposed && s.h.committed <= t.h.committed && s.h.dead <= t.h.dead
    requires t.w.batch == s.w.batch || t.w.batch == []
    requires t.w.batch != [] ==> forall x | x in Handled(s.w) :: x in Handled(t.w)
    requires t.w.Send? ==> forall e | e in t.w.toAck :: e in Handled(t.w)
    requires forall x | Passed(x, s.b.cur) && Passed(x, s.b.saved) :: Passed(x, t.b.cur) && Passed(x, t.b.saved)
    ensures ExposedOk(t)
  {
    forall x | AtRisk(t.h, x) ensures Behind(t.b, t.w, x) { assert Behind(s.b, s.w, x); }
  }

  lemma ActExposed(crc: Checksum, o: Opts, s: Sys, ev: Event)
    requires Inv(crc, s) && ExposedOk(s) && Enabled(crc, o, s, ev)
    ensures ExposedOk(Act(crc, o, s, ev))
  {
    hide From, All, Ack, Open, Write, NewEntry, Survives, Reclaim, SegmentLog.Sync, Inv, ExposedOk;
    var t := Act(crc, o, s, ev);
    match ev
    case Append(payload, now, removable) =>
      Cursors(crc, o, s.b, payload, now, removable);
      SameWork(s, t);
    case Sync =>
      SyncCursors(s.b);
      SameWork(s, t);
    case Hop(i) => SameWork(s, t);
    case Peek => PeekExposed(crc, s);
    case StartSend => Started(s, t);
    case Accept => Accepted(s, t);
    case Poison(removable) => PoisonExposed(crc, s, t, removable);
    case EndSend => EndedSend(s, t);
    case CommitOk => CommitExposed(crc, s, t);
    case AckNext(removable) =>
      InvParts(crc, s);
      hide BatchOk, DiskInv;
      assert s.w.toAck[s.w.acked] in s.w.toAck;
      AckExposed(s, t, removable);
    case EndBatch => LetGo(s, t);
    case GiveUp => LetGo(s, t);
    case Close =>
      SyncCursors(s.b);
      SameWork(s, t);
    case Crash(disk) =>
      OpenCursor(crc, o, disk, s.b.saved);
      LetGo(s, t);
  }

  lemma Cursors(crc: Checksum, o: Opts, b: Buf, payload: seq<byte>, now: int64, removable: set<nat>)
    requires E.Reclaimed(o, b, HEADER_BYTES + |payload|, removable).total + HEADER_BYTES + |payload| <= o.maxBytes
    ensures var r := E.Append(crc, o, b, payload, now, removable).0; r.cur == b.cur && r.saved == b.saved
  {
  }

  lemma SyncCursors(b: Buf)
    ensures var r := SegmentLog.Sync(b); r.cur == b.cur && r.saved == b.saved
  {
  }

  lemma SameWork(s: Sys, t: Sys)
    requires ExposedOk(s) && t.w == s.w
    requires t.h.exposed == s.h.exposed && t.h.committed == s.h.committed && t.h.dead == s.h.dead
    requires t.b.cur == s.b.cur || s.b.cur.seg < t.b.cur.seg
    requires t.b.saved == s.b.saved || t.b.saved == s.b.cur
    ensures ExposedOk(t)
  {
    Kept(s, t);
  }

  lemma Started(s: Sys, t: Sys)
    requires ExposedOk(s) && s.w.Gather? && t == s.(w := Send(s.w.batch, 0, []))
    ensures ExposedOk(t)
  {
    Kept(s, t);
  }

  lemma Accepted(s: Sys, t: Sys)
    requires ExposedOk(s) && s.w.Send? && s.w.sent < |s.w.batch|
    requires var e := s.w.batch[s.w.sent];
             t == s.(w := Send(s.w.batch, s.w.sent + 1, s.w.toAck + [e]), h := s.h.(accepted := s.h.accepted + {e}))
    ensures ExposedOk(t)
  {
    assert s.w.batch[..s.w.sent + 1] == s.w.batch[..s.w.sent] + [s.w.batch[s.w.sent]];
    Kept(s, t);
  }

  lemma EndedSend(s: Sys, t: Sys)
    requires ExposedOk(s) && s.w.Send? && s.w.sent == |s.w.batch|
    requires t == s.(w := if s.w.toAck == [] then Gather([]) else Confirm(s.w.batch, s.w.toAck))
    ensures ExposedOk(t)
  {
    assert s.w.batch[..s.w.sent] == s.w.batch;
    Kept(s, t);
  }

  lemma LetGo(s: Sys, t: Sys)
    requires ExposedOk(s) && t.w == Gather([])
    requires t.h.exposed == s.h.exposed && t.h.committed == s.h.committed && t.h.dead == s.h.dead
    requires t.b.saved == s.b.saved && (t.b.cur == s.b.cur || t.b.cur == s.b.saved)
    ensures ExposedOk(t)
  {
    Kept(s, t);
  }

  lemma {:induction false} RunExposed(crc: Checksum, o: Opts, states: seq<Sys>, evs: seq<Event>, i: nat)
    requires IsRun(crc, o, states, evs) && i < |states|
    ensures ExposedOk(states[i])
  {
    hide Next, ExposedOk, Inv;
    if i == 0 {
      StartExposed();
    } else {
      RunExposed(crc, o, states, evs, i - 1);
      RunInv(crc, o, states, evs, i - 1);
      StepExposed(crc, o, states[i - 1], evs[i - 1], states[i]);
    }
  }

  lemma StartExposed()
    ensures ExposedOk(INIT)
  {
  }

  lemma StepExposed(crc: Checksum, o: Opts, s: Sys, ev: Event, t: Sys)
    requires Inv(crc, s) && ExposedOk(s) && Next(crc, o, s, ev, t)
    ensures ExposedOk(t)
  {
    hide Act, Enabled, ExposedOk, Inv, FlushedSet;
    ActExposed(crc, o, s, ev);
    Noted(Act(crc, o, s, ev), t);
  }

  lemma Noted(s: Sys, t: Sys)
    requires ExposedOk(s) && t == s.(h := s.h.(durable := t.h.durable))
    ensures ExposedOk(t)
  {
    Kept(s, t);
  }

  /** The exact cost of dead-lettering before the commit: in every run, a record flushed to disk
      that is neither committed nor dead-lettered has been passed by the persisted cursor if and
      only if it was accepted and then exposed by a dead letter behind it in its batch. */
  lemma PassedExactly(crc: Checksum, o: Opts, states: seq<Sys>, evs: seq<Event>, i: nat, e: Entry)
    requires IsRun(crc, o, states, evs) && i < |states|
    requires var h := states[i].h; e in h.durable && e !in h.committed && e !in h.dead
    ensures Passed(e, states[i].b.saved) <==> e in states[i].h.exposed
    ensures e in states[i].h.exposed ==> e in states[i].h.accepted && e in states[i].h.tainted
  {
    hide Next, Wf, All, WorkInv;
    RunInv(crc, o, states, evs, i);
    RunExposed(crc, o, states, evs, i);
    if e in states[i].h.exposed { assert AtRisk(states[i].h, e); }
  }
}
