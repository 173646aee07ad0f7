/** A run that loses its place: a reopening, three more records, one of them dead-lettered while
    the batch is sent. Afterwards a record that was flushed and never delivered is on disk
    beyond the cursor, and neither this process nor any later one ever reads it. */
module LostPlace {
  import opened Basics
  import opened Frame
  import opened SegmentLog
  import opened Queue
  import E = Evict
  import opened AtLeastOnce
  import R = Resume
  import D = Delivery

  /** Segments are full with one byte of payload, and not with none. */
  const OPTS := Opts(1000, 21)

  /** The record of size n in segment id. */
  function Nth(id: nat, payload: seq<byte>): Entry { Entry(payload, 0, id, HEADER_BYTES + |payload|) }

  /** A closed segment holding that one record. */
  ghost predicate Holds(crc: Checksum, s: Seg, id: nat, payload: seq<byte>, sealed: bool)
  {
    && s.id == id && s.sealed == sealed && !s.file && s.synced == |s.data| == HEADER_BYTES + |payload|
    && Read(crc, s, 0) == [Nth(id, payload)]
  }

  /** A run, one event longer. */
  lemma Then(crc: Checksum, states: seq<Sys>, evs: seq<Event>, ev: Event) returns (states': seq<Sys>, evs': seq<Event>)
    requires IsRun(crc, OPTS, states, evs) && Enabled(crc, OPTS, states[|evs|], ev)
    ensures IsRun(crc, OPTS, states', evs') && |evs'| == |evs| + 1
    ensures states'[|evs'|] == Apply(crc, OPTS, states[|evs|], ev)
  {
    hide Enabled, Apply;
    states' := states + [Apply(crc, OPTS, states[|evs|], ev)];
    evs' := evs + [ev];
  }

  // ---------- four segments of one record each ----------

  /** An append that opens a new segment. */
  lemma AppendOne(crc: Checksum, s: Sys, payload: seq<byte>)
    requires !HasActive(s.b.segs) && |payload| <= 1 && 0 <= s.b.total <= 900
    ensures var ev := Append(payload, 0, {}); var id := NextId(s.b.segs);
            && Enabled(crc, OPTS, s, ev)
            && var t := Apply(crc, OPTS, s, ev);
               && |t.b.segs| == |s.b.segs| + 1 && t.b.segs[..|s.b.segs|] == s.b.segs
               && t.b == s.b.(segs := t.b.segs, total := s.b.total + HEADER_BYTES + |payload|)
               && t.w == s.w && t.h == s.h.(log := t.h.log, durable := s.h.durable + FlushedSet(crc, t.b.segs))
               && var w := t.b.segs[|s.b.segs|];
                  && w.id == id && Read(crc, w, 0) == [Nth(id, payload)] && |w.data| == HEADER_BYTES + |payload|
                  && (if |payload| == 1 then Holds(crc, w, id, payload, true) else w.file && !w.sealed)
  {
    hide Encode, Parse, Decode, FlushedSet, Read;
    var blank := Seg(NextId(s.b.segs), [], false, true, 0, None);
    EmptyWhole(crc);
    ReadWritten(crc, OPTS, blank, payload, 0);
    ReadPastEnd(crc, blank, 0);
    WrittenShape(crc, OPTS, blank, payload, 0);
    WriteSegs(crc, OPTS, s.b, payload, 0);
    assert EnsureActive(s.b.segs) == s.b.segs + [blank];
    Full(crc, blank, payload);
  }

  lemma Full(crc: Checksum, s: Seg, payload: seq<byte>)
    requires s.file && s.data == [] && |payload| <= 1
    ensures var w := Written(crc, OPTS, s, payload, 0); w.sealed == (|payload| == 1) && w.file == !w.sealed
  {
  }

  /** Reopening the first, unsealed segment. */
  lemma ReopenOne(crc: Checksum, s: Sys)
    requires Wf(crc, s.b) && |s.b.segs| == 1 && s.b.cur == s.b.saved == Pos(0, 0) && s.w == Gather([])
    requires var w := s.b.segs[0]; w.id == 1 && Read(crc, w, 0) == [Nth(1, [])] && |w.data| == HEADER_BYTES
    ensures var ev := Crash(s.b.segs);
            && Enabled(crc, OPTS, s, ev)
            && var t := Apply(crc, OPTS, s, ev);
               && |t.b.segs| == 1 && Holds(crc, t.b.segs[0], 1, [], false)
               && t.b == Buf(t.b.segs, Pos(0, 0), Pos(0, 0), HEADER_BYTES) && t.w == Gather([])
               && t.h == s.h.(lost := t.h.lost, durable := s.h.durable + FlushedSet(crc, t.b.segs))
  {
    hide Parse, Decode, FlushedSet, Read, ScanEnd, All;
    var w := s.b.segs[0];
    var r := Recovered(crc, OPTS, w, true);
    assert Whole(crc, w.data, 0);
    assert w.data[..|w.data|] == w.data;
    assert RecoveredAll(crc, OPTS, s.b.segs) == [r];
    SameRead(crc, w, r);
    assert Bytes([r]) == |r.data| + Bytes([r][1..]);
  }

  lemma AllFlushed(crc: Checksum, segs: seq<Seg>, i: nat, e: Entry)
    requires i < |segs| && e in Read(crc, segs[i], 0) && forall s | s in segs :: s.synced == |s.data|
    requires Increasing(segs)
    ensures e in FlushedSet(crc, segs)
  {
    hide Read, All;
    E.InSegs(crc, segs, segs[i], e);
    ReadIds(crc, segs[i], 0, e);
    forall s | s in segs && s.id == e.seg
      ensures e.end <= s.synced
    {
      var j :| 0 <= j < |segs| && segs[j] == s;
      assert i == j;
    }
  }

  /** The directory before the batch: an unsealed leftover and three full segments. */
  ghost predicate Ready(crc: Checksum, s: Sys)
  {
    && |s.b.segs| == 4 && s.b.cur == s.b.saved == Pos(0, 0) && s.w == Gather([])
    && Holds(crc, s.b.segs[0], 1, [], false)
    && (forall i | 1 <= i < 4 :: Holds(crc, s.b.segs[i], i + 1, [0], true))
    && Nth(4, [0]) in s.h.durable && s.h.dead == s.h.committed == s.h.exposed == {}
  }

  lemma Setup(crc: Checksum) returns (states: seq<Sys>, evs: seq<Event>)
    ensures IsRun(crc, OPTS, states, evs) && Ready(crc, states[|evs|])
  {
    hide Enabled, Apply, FlushedSet, Read, Inv;
    states, evs := [INIT], [];
    AppendOne(crc, INIT, []);
    states, evs := Then(crc, states, evs, Append([], 0, {}));
    R.InvWf(crc, OPTS, states, evs, 1);
    ReopenOne(crc, states[1]);
    states, evs := Then(crc, states, evs, Crash(states[1].b.segs));
    var a := states[2];
    AppendOne(crc, a, [0]);
    states, evs := Then(crc, states, evs, Append([0], 0, {}));
    var b := states[3];
    AppendOne(crc, b, [0]);
    states, evs := Then(crc, states, evs, Append([0], 0, {}));
    var c := states[4];
    AppendOne(crc, c, [0]);
    states, evs := Then(crc, states, evs, Append([0], 0, {}));
    var d := states[5];
    assert d.b.segs == [a.b.segs[0], b.b.segs[1], c.b.segs[2], d.b.segs[3]];
    FourFlushed(crc, d.b.segs);
  }

  lemma FourFlushed(crc: Checksum, segs: seq<Seg>)
    requires |segs| == 4 && Holds(crc, segs[0], 1, [], false)
    requires forall i | 1 <= i < 4 :: Holds(crc, segs[i], i + 1, [0], true)
    ensures Nth(4, [0]) in FlushedSet(crc, segs)
  {
    hide Read, FlushedSet;
    AllFlushed(crc, segs, 3, Nth(4, [0]));
  }

  // ---------- the batch ----------

  lemma FourRecords(crc: Checksum, a: Seg, b: Seg, c: Seg, d: Seg)
    requires Holds(crc, a, 1, [], false) && Holds(crc, b, 2, [0], true)
    requires Holds(crc, c, 3, [0], true) && Holds(crc, d, 4, [0], true)
    ensures All(crc, [a, b] + [c, d]) == [Nth(1, []), Nth(2, [0]), Nth(3, [0]), Nth(4, [0])]
  {
    hide Read, All;
    AllTwo(crc, a, b);
    AllTwo(crc, c, d);
    AllConcat(crc, [a, b], [c, d]);
  }

  lemma ReadyRecords(crc: Checksum, s: Sys)
    requires Ready(crc, s)
    ensures From(crc, s.b.segs, Pos(0, 0)) == All(crc, s.b.segs) == [Nth(1, []), Nth(2, [0]), Nth(3, [0]), Nth(4, [0])]
  {
    hide Read, All;
    var segs := s.b.segs;
    FourRecords(crc, segs[0], segs[1], segs[2], segs[3]);
    assert segs == [segs[0], segs[1]] + [segs[2], segs[3]];
  }

  lemma AllTwo(crc: Checksum, s: Seg, t: Seg)
    ensures All(crc, [s, t]) == Read(crc, s, 0) + Read(crc, t, 0)
  {
    hide Read;
    assert [s, t][1..] == [t] && [t][1..] == [];
    assert All(crc, [t]) == Read(crc, t, 0) + All(crc, []);
  }

  lemma PeekOne(crc: Checksum, s: Sys, e: Entry)
    requires Wf(crc, s.b) && s.w.Gather? && s.w.batch + [e] <= From(crc, s.b.segs, s.b.cur)
    ensures Enabled(crc, OPTS, s, Peek)
    ensures var t := Apply(crc, OPTS, s, Peek); t == s.(w := Gather(s.w.batch + [e]), h := t.h) && SameFate(s.h, t.h)
  {
    hide From, Wf, FlushedSet;
    assert (s.w.batch + [e])[|s.w.batch|] == e;
    D.PeekIs(crc, s.b, s.w.batch);
  }

  /** Nothing happened to any record, except that more are known to be flushed. */
  predicate SameFate(h: Hist, h': Hist)
  {
    h'.dead == h.dead && h'.committed == h.committed && h'.exposed == h.exposed && h.durable <= h'.durable
  }

  lemma Gathered(crc: Checksum, states: seq<Sys>, evs: seq<Event>) returns (states': seq<Sys>, evs': seq<Event>)
    requires IsRun(crc, OPTS, states, evs) && Ready(crc, states[|evs|])
    ensures IsRun(crc, OPTS, states', evs')
    ensures var s, t := states[|evs|], states'[|evs'|];
            t.b == s.b && t.w == Send([Nth(1, []), Nth(2, [0]), Nth(3, [0])], 0, []) && SameFate(s.h, t.h)
  {
    hide Enabled, Apply, From, Wf, Holds, Next;
    var s := states[|evs|];
    ReadyRecords(crc, s);
    R.InvWf(crc, OPTS, states, evs, |evs|);
    PeekOne(crc, s, Nth(1, []));
    states', evs' := Then(crc, states, evs, Peek);
    PeekOne(crc, states'[|evs'|], Nth(2, [0]));
    states', evs' := Then(crc, states', evs', Peek);
    PeekOne(crc, states'[|evs'|], Nth(3, [0]));
    states', evs' := Then(crc, states', evs', Peek);
    StartIs(crc, states'[|evs'|]);
    states', evs' := Then(crc, states', evs', StartSend);
  }

  lemma StartIs(crc: Checksum, s: Sys)
    requires s.w.Gather? && s.w.batch != []
    ensures Enabled(crc, OPTS, s, StartSend)
    ensures var t := Apply(crc, OPTS, s, StartSend);
            t == s.(w := Send(s.w.batch, 0, []), h := t.h) && SameFate(s.h, t.h)
  {
    hide FlushedSet;
  }

  lemma AcceptIs(crc: Checksum, s: Sys)
    requires s.w.Send? && s.w.sent < |s.w.batch|
    ensures Enabled(crc, OPTS, s, Accept)
    ensures var t := Apply(crc, OPTS, s, Accept); var w := s.w;
            t == s.(w := Send(w.batch, w.sent + 1, w.toAck + [w.batch[w.sent]]), h := t.h) && SameFate(s.h, t.h)
  {
    hide FlushedSet;
  }

  lemma PoisonIs(crc: Checksum, s: Sys, removable: set<nat>)
    requires s.w.Send? && s.w.sent < |s.w.batch|
    ensures Enabled(crc, OPTS, s, Poison(removable))
    ensures var t := Apply(crc, OPTS, s, Poison(removable)); var w, e := s.w, s.w.batch[s.w.sent];
            && t == Sys(Ack(s.b, e, removable), Send(w.batch, w.sent + 1, w.toAck), t.h)
            && t.h.dead == s.h.dead + {e} && t.h.committed == s.h.committed
            && t.h.exposed == s.h.exposed + (set x | x in w.toAck) && s.h.durable <= t.h.durable
  {
    hide FlushedSet, Ack;
  }

  lemma EndSendIs(crc: Checksum, s: Sys)
    requires s.w.Send? && s.w.sent == |s.w.batch| && s.w.toAck != []
    ensures Enabled(crc, OPTS, s, EndSend)
    ensures var t := Apply(crc, OPTS, s, EndSend);
            t == s.(w := Confirm(s.w.batch, s.w.toAck), h := t.h) && SameFate(s.h, t.h)
  {
    hide FlushedSet;
  }

  lemma CommitIs(crc: Checksum, s: Sys)
    requires s.w.Confirm?
    ensures Enabled(crc, OPTS, s, CommitOk)
    ensures var t := Apply(crc, OPTS, s, CommitOk);
            && t == s.(w := Settle(s.w.batch, s.w.toAck, 0), h := t.h) && s.h.durable <= t.h.durable
            && t.h.dead == s.h.dead && t.h.exposed == s.h.exposed
               && t.h.committed == s.h.committed + (set x | x in s.w.toAck)
  {
    hide FlushedSet;
  }

  lemma AckIs(crc: Checksum, s: Sys, removable: set<nat>)
    requires s.w.Settle? && s.w.acked < |s.w.toAck|
    ensures Enabled(crc, OPTS, s, AckNext(removable))
    ensures var t := Apply(crc, OPTS, s, AckNext(removable)); var w := s.w;
            t == Sys(Ack(s.b, w.toAck[w.acked], removable), Settle(w.batch, w.toAck, w.acked + 1), t.h)
                && SameFate(s.h, t.h)
  {
    hide FlushedSet, Ack;
  }

  /** The first two records are accepted, the third is dead-lettered, the batch commits, and the
      two are acknowledged. */
  lemma Sent(crc: Checksum, states: seq<Sys>, evs: seq<Event>) returns (states': seq<Sys>, evs': seq<Event>)
    requires IsRun(crc, OPTS, states, evs)
    requires states[|evs|].w == Send([Nth(1, []), Nth(2, [0]), Nth(3, [0])], 0, [])
    ensures IsRun(crc, OPTS, states', evs')
    ensures var s, t := states[|evs|], states'[|evs'|];
            && t.b == Ack(Ack(Ack(s.b, Nth(3, [0]), {2}), Nth(1, []), {2}), Nth(2, [0]), {2})
            && t.h.dead == s.h.dead + {Nth(3, [0])} && s.h.durable <= t.h.durable
            && t.h.exposed == s.h.exposed + {Nth(1, []), Nth(2, [0])}
            && t.h.committed == s.h.committed + {Nth(1, []), Nth(2, [0])}
  {
    hide Enabled, Apply, Ack, Next;
    AcceptIs(crc, states[|evs|]);
    states', evs' := Then(crc, states, evs, Accept);
    AcceptIs(crc, states'[|evs'|]);
    states', evs' := Then(crc, states', evs', Accept);
    PoisonIs(crc, states'[|evs'|], {2});
    states', evs' := Then(crc, states', evs', Poison({2}));
    EndSendIs(crc, states'[|evs'|]);
    states', evs' := Then(crc, states', evs', EndSend);
    CommitIs(crc, states'[|evs'|]);
    states', evs' := Then(crc, states', evs', CommitOk);
    AckIs(crc, states'[|evs'|], {2});
    states', evs' := Then(crc, states', evs', AckNext({2}));
    AckIs(crc, states'[|evs'|], {2});
    states', evs' := Then(crc, states', evs', AckNext({2}));
  }

  // ---------- what is lost ----------

  /** Acknowledging the record in the first segment deletes nothing. */
  lemma AckFirst(b: Buf, e: Entry, d: Entry, removable: set<nat>)
    requires forall s | s in b.segs :: e.seg <= s.id
    ensures Ack(Ack(b, e, removable), d, removable) == Ack(b, d, removable)
  {
    R.NoneGone(b.segs, At(e), removable);
  }

  lemma KeptIds(b: Buf, e: Entry, removable: set<nat>, id: nat)
    requires forall s | s in b.segs :: id <= s.id
    ensures forall s | s in Ack(b, e, removable).segs :: id <= s.id
  {
    forall s | s in Ack(b, e, removable).segs ensures id <= s.id { KeptMembers(b.segs, At(e), removable, s); }
  }

  /** There is a run after which a flushed record that nobody delivered is pending, and reads
      return nothing: not now, and not after any crash and reopening. */
  lemma PlaceLostInRun(crc: Checksum) returns (states: seq<Sys>, evs: seq<Event>, f: Entry)
    ensures IsRun(crc, OPTS, states, evs)
    ensures var s := states[|evs|];
            && f in s.h.durable && !Done(s.h, f)
            && Pending(s.b.segs, s.b.cur) > 0 && From(crc, s.b.segs, s.b.cur) == []
            && forall disk | Survives(s.b.segs, disk) ::
                 var r := Open(crc, OPTS, disk, s.b.saved); f in Undelivered(crc, r) && f !in From(crc, r.segs, r.cur)
  {
    hide Wf, Next, Read, All, From, Ack, Open, Survives, Resolvable, Undelivered, Pending;
    var states0, evs0 := Setup(crc);
    var ready := states0[|evs0|];
    var states1, evs1 := Gathered(crc, states0, evs0);
    states, evs := Sent(crc, states1, evs1);
    var s := states[|evs|];
    f := Nth(4, [0]);
    R.InvWf(crc, OPTS, states0, evs0, |evs0|);
    R.InvWf(crc, OPTS, states, evs, |evs|);
    BatchLoses(crc, ready, s);
    forall disk | Survives(s.b.segs, disk)
      ensures var r := Open(crc, OPTS, disk, s.b.saved); f in Undelivered(crc, r) && f !in From(crc, r.segs, r.cur)
    {
      DeliveredAtLeastOnce(crc, OPTS, states, evs, |evs|, f, disk);
      OpenRecovers(crc, OPTS, s.b, disk);
    }
  }

  lemma BatchLoses(crc: Checksum, ready: Sys, s: Sys)
    requires Ready(crc, ready) && Wf(crc, ready.b) && Wf(crc, s.b)
    requires s.b == Ack(Ack(Ack(ready.b, Nth(3, [0]), {2}), Nth(1, []), {2}), Nth(2, [0]), {2})
    ensures !Resolvable(s.b.segs, s.b.cur) && s.b.saved == s.b.cur && From(crc, s.b.segs, s.b.cur) == []
    ensures Nth(4, [0]) in Undelivered(crc, s.b) && Pending(s.b.segs, s.b.cur) > 0
  {
    hide Wf, Read, All, From, Resolvable, Ack;
    var segs := ready.b.segs;
    ReadyRecords(crc, ready);
    assert forall x | x in segs :: 1 <= x.id;
    KeptIds(ready.b, Nth(3, [0]), {2}, 1);
    AckFirst(Ack(ready.b, Nth(3, [0]), {2}), Nth(1, []), Nth(2, [0]), {2});
    R.PlaceLost(crc, ready.b, 1, Nth(2, [0]), Nth(3, [0]), {2});
    assert Nth(4, [0]) in All(crc, segs);
    AckCursors(Ack(ready.b, Nth(3, [0]), {2}), Nth(2, [0]), {2});
    PendingExists(crc, s.b, Nth(4, [0]));
  }

  lemma AckCursors(b: Buf, e: Entry, removable: set<nat>)
    ensures var r := Ack(b, e, removable); r.cur == r.saved
  {
  }

  lemma PendingExists(crc: Checksum, b: Buf, f: Entry)
    requires Wf(crc, b) && f in Undelivered(crc, b)
    ensures Pending(b.segs, b.cur) > 0
  {
    hide All, Pending, SegsOk;
    WfWhole(crc, b);
    PendingIsFramed(crc, b.segs, b.cur);
  }
}
