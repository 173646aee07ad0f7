/** When the reader finds its place again. The cursor can be left inside a segment that has
    been deleted while an older one is still there; reads then return nothing. These results
    say exactly when that can happen and which runs cannot get there. */
module Resume {
  import opened Frame
  import opened SegmentLog
  import opened Queue
  import E = Evict
  import opened AtLeastOnce

  /** No gap between the ids of the segments on disk. */
  predicate Contiguous(segs: seq<Seg>)
  {
    forall i | 0 <= i < |segs| :: segs[i].id == segs[0].id + i
  }

  /** Every position within reach can be resumed from if and only if the ids have no gap. */
  lemma EveryPlaceFound(segs: seq<Seg>)
    requires Increasing(segs) && segs != []
    ensures (forall p: Pos :: p.seg <= segs[|segs| - 1].id ==> Resolvable(segs, p)) <==> Contiguous(segs)
  {
    var n := |segs| - 1;
    if Contiguous(segs) {
      forall p: Pos | p.seg <= segs[n].id
        ensures Resolvable(segs, p)
      {
        if p.seg >= segs[0].id { assert segs[p.seg - segs[0].id].id == p.seg; }
      }
    } else {
      var i := FirstGap(segs);
      var p := Pos(segs[i].id + 1, 0);
      assert forall j | 0 <= j < |segs| :: segs[j].id != p.seg by {
        assert segs[i + 1].id > p.seg;
      }
      assert !Resolvable(segs, p) && p.seg <= segs[n].id;
    }
  }

  lemma FirstGap(segs: seq<Seg>) returns (i: nat)
    requires Increasing(segs) && !Contiguous(segs)
    ensures i + 1 < |segs| && segs[i].id + 1 < segs[i + 1].id
  {
    i := 0;
    var bad :| 0 <= bad < |segs| && segs[bad].id != segs[0].id + bad;
    while i + 1 < |segs| && segs[i + 1].id == segs[i].id + 1
      invariant i < |segs|
      invariant forall j | 0 <= j <= i :: segs[j].id == segs[0].id + j
    {
      i := i + 1;
    }
  }

  /** The file of s stays whatever the cursor: it is unsealed, or could not be deleted. */
  predicate Sticks(s: Seg, removable: set<nat>) { !(s.sealed && s.id in removable) }

  /** Exactly which acknowledgements lose the place: those of a record whose segment is gone while
      an older segment sticks. */
  lemma AckLoses(crc: Checksum, b: Buf, e: Entry, removable: set<nat>)
    requires Wf(crc, b)
    ensures var r := Ack(b, e, removable);
            !Resolvable(r.segs, r.cur) <==>
              (forall s | s in b.segs :: s.id != e.seg) && exists s ::
                    s in b.segs && s.id < e.seg && Sticks(s, removable)
  {
    hide SegOk, CursorOk, Kept;
    var r := Ack(b, e, removable);
    KeptIncreasing(b.segs, At(e), removable);
    forall s ensures s in r.segs <==> s in b.segs && !Gone(s, At(e), removable) {
      KeptMembers(b.segs, At(e), removable, s);
    }
    hide Ack;
    if s :| s in b.segs && s.id == e.seg {
      FoundIn(r.segs, s, r.cur);
    } else {
      assert forall i | 0 <= i < |r.segs| :: r.segs[i] in r.segs;
      if s :| s in b.segs && s.id < e.seg && Sticks(s, removable) { FrontBelow(r.segs, s, e.seg); }
    }
  }

  lemma FoundIn(segs: seq<Seg>, s: Seg, p: Pos)
    requires s in segs && s.id == p.seg
    ensures Resolvable(segs, p)
  {
    var i :| 0 <= i < |segs| && segs[i] == s;
    assert segs[i].id == p.seg;
  }

  /** How a dead letter loses the place, exactly. Its acknowledgement comes first, and that of an
      earlier record d of its batch follows: the place is lost if and only if d's segment was
      sealed and could be deleted and a segment before it sticks, such as the unsealed one a
      reopening leaves behind. From then on reads return nothing, whatever is still pending. */
  lemma PlaceLost(crc: Checksum, b: Buf, i: nat, d: Entry, e: Entry, removable: set<nat>)
    requires Wf(crc, b) && i < |b.segs| && d in Read(crc, b.segs[i], 0) && d.seg < e.seg
    ensures var r := Ack(Ack(b, e, removable), d, removable);
            && (!Resolvable(r.segs, r.cur) <==>
                  !Sticks(b.segs[i], removable) && exists j :: 0 <= j < i && Sticks(b.segs[j], removable))
            && (!Resolvable(r.segs, r.cur) ==>
                  && From(crc, r.segs, r.cur) == []
                  && forall f | f in All(crc, b.segs) && e.seg <= f.seg :: f in Undelivered(crc, r))
  {
    hide Read, All, Whole, Boundary, Kept;
    ReadIds(crc, b.segs[i], 0, d);
    var b1 := Ack(b, e, removable);
    var r := Ack(b1, d, removable);
    assert r.segs == Kept(Kept(b.segs, At(e), removable), At(d), removable);
    forall s
      ensures s in r.segs <==> s in b.segs && !Gone(s, At(e), removable) && !Gone(s, At(d), removable)
    {
      KeptMembers(b.segs, At(e), removable, s);
      KeptMembers(b1.segs, At(d), removable, s);
    }
    KeptIncreasing(b.segs, At(e), removable);
    KeptIncreasing(b1.segs, At(d), removable);
    TwiceAcked(b.segs, r.segs, i, r.cur, e.seg, removable);
    if !Resolvable(r.segs, r.cur) {
      FoundNothing(crc, r.segs, r.cur);
      forall f | f in All(crc, b.segs) && e.seg <= f.seg
        ensures f in Undelivered(crc, r)
      {
        var j := AllInSegment(crc, b.segs, f);
        assert b.segs[j] in b.segs;
        assert b.segs[j] in r.segs;
        E.InSegs(crc, r.segs, b.segs[j], f);
        AfterMembers(All(crc, r.segs), r.cur, f);
      }
    }
  }

  /** What is left after both, and whether p's segment can be found in it. */
  lemma TwiceAcked(all: seq<Seg>, left: seq<Seg>, i: nat, p: Pos, later: nat, removable: set<nat>)
    requires Increasing(all) && Increasing(left) && i < |all| && p.seg == all[i].id < later
    requires forall s :: s in left <==> s in all && (Sticks(s, removable) || (s.id >= later && s.id >= p.seg))
    ensures !Resolvable(left, p) <==> !Sticks(all[i], removable) && exists j :: 0 <= j < i && Sticks(all[j], removable)
  {
    assert all[i] in all;
    if Sticks(all[i], removable) {
      FoundIn(left, all[i], p);
    } else {
      NoSuchSegment(all, left, i);
      if j :| 0 <= j < i && Sticks(all[j], removable) {
        assert all[j] in all;
        FrontBelow(left, all[j], p.seg);
      } else if left != [] {
        assert left[0] in left;
        var k :| 0 <= k < |all| && all[k] == left[0];
      }
    }
  }

  lemma NoSuchSegment(all: seq<Seg>, left: seq<Seg>, i: nat)
    requires Increasing(all) && i < |all| && all[i] !in left && forall s | s in left :: s in all
    ensures forall j | 0 <= j < |left| :: left[j].id != all[i].id
  {
    forall j | 0 <= j < |left|
      ensures left[j].id != all[i].id
    {
      assert left[j] in left;
      var k :| 0 <= k < |all| && all[k] == left[j];
    }
  }

  lemma FrontBelow(segs: seq<Seg>, s0: Seg, id: nat)
    requires Increasing(segs) && s0 in segs && s0.id < id
    ensures segs != [] && segs[0].id < id
  {
  }

  // ---------- runs that never lose their place ----------

  /** Nothing was dead-lettered and nobody moved the cursor by hand. */
  predicate Plain(ev: Event) { !ev.Poison? && !ev.Hop? }

  /** The records of the batch not yet acknowledged. */
  function Ahead(w: Work): (es: seq<Entry>)
  {
    if w.Settle? && w.acked <= |w.toAck| then w.toAck[w.acked..] else w.batch
  }

  ghost predicate AheadOk(crc: Checksum, b: Buf, es: seq<Entry>)
  {
    InOrder(es) && forall e | e in es :: e in All(crc, b.segs) && !Passed(e, b.cur)
  }

  predicate Straight(w: Work)
  {
    match w
    case Gather(_) => true
    case Send(batch, sent, toAck) => sent <= |batch| && toAck == batch[..sent]
    case Confirm(batch, toAck) => toAck == batch
    case Settle(batch, toAck, acked) => toAck == batch && acked <= |toAck|
  }

  ghost predicate InPlace(crc: Checksum, s: Sys)
  {
    && Wf(crc, s.b) && s.b.saved == s.b.cur && Resolvable(s.b.segs, s.b.cur)
    && Straight(s.w) && AheadOk(crc, s.b, Ahead(s.w))
  }

  lemma ReclaimInPlace(crc: Checksum, b: Buf, es: seq<Entry>, removable: set<nat>)
    requires Wf(crc, b) && Resolvable(b.segs, b.cur) && AheadOk(crc, b, es)
    ensures var r := Reclaim(b, removable); Wf(crc, r) && Resolvable(r.segs, r.cur) && AheadOk(crc, r, es)
  {
    hide All, Wf, Resolvable, Kept;
    ReclaimKeeps(crc, b, removable);
    forall e | e in es
      ensures e in All(crc, Kept(b.segs, b.cur, removable))
    {
      KeptEntries(crc, b, removable, e);
    }
  }

  lemma AckInPlace(crc: Checksum, b: Buf, es: seq<Entry>, removable: set<nat>)
    requires Wf(crc, b) && AheadOk(crc, b, es) && es != []
    ensures var r := Ack(b, es[0], removable);
            Wf(crc, r) && r.saved == r.cur && Resolvable(r.segs, r.cur) && AheadOk(crc, r, es[1..])
  {
    hide All, Wf, Resolvable, Kept;
    var e := es[0];
    assert e in es;
    var i := AllInSegment(crc, b.segs, e);
    AckSavedKeepsWf(crc, b, e);
    var c := AckSaved(b, e);
    assert AheadOk(crc, c, es[1..]) by {
      forall x | x in es[1..]
        ensures !Passed(x, c.cur) && x in es
      {
        var j :| 0 <= j < |es[1..]| && es[1..][j] == x;
        assert Before(es[0], es[j + 1]);
      }
    }
    ReclaimInPlace(crc, c, es[1..], removable);
  }

  lemma AppendInPlace(crc: Checksum, o: Opts, b: Buf, es: seq<Entry>, payload: seq<byte>, now: int64)
    requires Wf(crc, b) && Resolvable(b.segs, b.cur) && AheadOk(crc, b, es) && |payload| <= MAX_RECORD_BYTES
    ensures var r := Write(crc, o, b, payload, now);
            Wf(crc, r) && r.cur == b.cur && r.saved == b.saved && Resolvable(r.segs, r.cur) && AheadOk(crc, r, es)
  {
    hide All, Wf, Resolvable, Write, NewEntry;
    WriteAppends(crc, o, b, payload, now);
    WriteKeepsWf(crc, o, b, payload, now);
    WriteSegs(crc, o, b, payload, now);
  }

  lemma PeekInPlace(crc: Checksum, b: Buf, batch: seq<Entry>)
    requires Wf(crc, b) && Resolvable(b.segs, b.cur) && AheadOk(crc, b, batch)
    requires From(crc, b.segs, PeekPos(b, batch)) != []
    ensures AheadOk(crc, b, batch + [From(crc, b.segs, PeekPos(b, batch))[0]])
  {
    hide All, From, Resolvable, Aligned, SegsOk;
    var q := PeekPos(b, batch);
    if batch != [] {
      var l := batch[|batch| - 1];
      assert l in batch;
      var i := AllInSegment(crc, b.segs, l);
      AckSavedKeepsWf(crc, b, l);
    }
    assert Increasing(b.segs) by { WfIncreasing(crc, b); }
    ReadsReturn(crc, b.segs, q);
    var e := From(crc, b.segs, q)[0];
    AfterMembers(All(crc, b.segs), q, e);
    forall j | 0 <= j < |batch|
      ensures Before(batch[j], e)
    {
      assert batch[j] in batch;
      if j < |batch| - 1 { assert Before(batch[j], batch[|batch| - 1]); }
    }
  }

  lemma SyncInPlace(crc: Checksum, b: Buf, es: seq<Entry>)
    requires Wf(crc, b) && Resolvable(b.segs, b.cur) && AheadOk(crc, b, es)
    ensures var r := SegmentLog.Sync(b);
            Wf(crc, r) && r.cur == b.cur && r.saved == b.saved && Resolvable(r.segs, r.cur) && AheadOk(crc, r, es)
  {
    hide All, Wf, SegmentLog.Sync, Reached, Present, Flushed, Resolvable;
    SyncKeeps(crc, b);
    SyncResolvable(b);
  }

  lemma SyncResolvable(b: Buf)
    ensures Resolvable(b.segs, b.cur) ==> Resolvable(SegmentLog.Sync(b).segs, b.cur)
  {
    var r := SegmentLog.Sync(b);
    assert forall i | 0 <= i < |b.segs| :: r.segs[i].id == b.segs[i].id;
    if i :| 0 <= i < |b.segs| && b.segs[i].id == b.cur.seg { assert r.segs[i].id == b.cur.seg; }
  }

  lemma StepInPlace(crc: Checksum, o: Opts, s: Sys, ev: Event, t: Sys)
    requires InPlace(crc, s) && Plain(ev) && Next(crc, o, s, ev, t)
    ensures InPlace(crc, t)
  {
    hide All, From, Wf, Ack, Open, Write, NewEntry, Survives, Reclaim, SegmentLog.Sync, Resolvable, FlushedSet;
    var none: seq<Entry> := [];
    assert AheadOk(crc, t.b, none);
    match ev
    case Append(payload, now, removable) =>
      var c := E.Reclaimed(o, s.b, HEADER_BYTES + |payload|, removable);
      ReclaimInPlace(crc, s.b, Ahead(s.w), removable);
      ReclaimCursor(s.b, removable);
      AppendInPlace(crc, o, c, Ahead(s.w), payload, now);
    case Sync => SyncInPlace(crc, s.b, Ahead(s.w));
    case Peek => PeekInPlace(crc, s.b, s.w.batch);
    case StartSend =>
    case Accept =>
    case EndSend =>
    case CommitOk => assert s.w.toAck[0..] == s.w.toAck;
    case AckNext(removable) =>
      AckInPlace(crc, s.b, Ahead(s.w), removable);
      assert s.w.toAck[s.w.acked..][1..] == s.w.toAck[s.w.acked + 1..];
    case EndBatch =>
    case GiveUp =>
    case Close => SyncInPlace(crc, s.b, Ahead(s.w));
    case Crash(disk) =>
      OpenRecovers(crc, o, s.b, disk);
      OpenCursor(crc, o, disk, s.b.saved);
  }

  lemma ReclaimCursor(b: Buf, removable: set<nat>)
    ensures var r := Reclaim(b, removable); r.cur == b.cur && r.saved == b.saved
  {
  }

  lemma {:induction false} RunInPlace(crc: Checksum, o: Opts, states: seq<Sys>, evs: seq<Event>, i: nat)
    requires IsRun(crc, o, states, evs) && i < |states|
    requires forall k | 0 <= k < i :: Plain(evs[k])
    ensures InPlace(crc, states[i])
  {
    hide Next, InPlace;
    if i == 0 {
      StartInPlace(crc);
    } else {
      RunInPlace(crc, o, states, evs, i - 1);
      StepInPlace(crc, o, states[i - 1], evs[i - 1], states[i]);
    }
  }

  lemma StartInPlace(crc: Checksum)
    ensures InPlace(crc, INIT)
  {
  }

  // ---------- runs with dead letters that never lose their place ----------

  /** Every segment but the last is sealed, and the ids have no gap. */
  predicate Tight(segs: seq<Seg>)
  {
    Contiguous(segs) && forall i | 0 <= i < |segs| - 1 :: segs[i].sealed
  }

  /** Every segment can be deleted. */
  predicate Deletable(segs: seq<Seg>, removable: set<nat>) { forall s | s in segs :: s.id in removable }

  lemma {:induction false} NoneGone(segs: seq<Seg>, cur: Pos, removable: set<nat>)
    requires forall s | s in segs :: !Gone(s, cur, removable)
    ensures Kept(segs, cur, removable) == segs
  {
    if segs != [] {
      assert segs[0] in segs && forall s | s in segs[1..] :: s in segs;
      NoneGone(segs[1..], cur, removable);
      assert segs == [segs[0]] + segs[1..];
    }
  }

  /** When every deletion succeeds, what is deleted is the front. */
  lemma {:induction false} KeptSuffix(segs: seq<Seg>, cur: Pos, removable: set<nat>) returns (k: nat)
    requires Tight(segs) && Deletable(segs, removable)
    ensures k <= |segs| && Kept(segs, cur, removable) == segs[k..]
  {
    if segs == [] {
      k := 0;
    } else if Gone(segs[0], cur, removable) {
      assert forall i | 0 <= i < |segs[1..]| :: segs[1..][i] == segs[i + 1];
      var j := KeptSuffix(segs[1..], cur, removable);
      k := j + 1;
    } else {
      forall s | s in segs ensures !Gone(s, cur, removable) {
        var i :| 0 <= i < |segs| && segs[i] == s;
        assert segs[0] in segs;
      }
      NoneGone(segs, cur, removable);
      k := 0;
      assert segs[0..] == segs;
    }
  }

  lemma {:induction false} KeptTight(segs: seq<Seg>, cur: Pos, removable: set<nat>)
    requires Tight(segs) && Deletable(segs, removable)
    ensures Tight(Kept(segs, cur, removable)) && forall s | s in Kept(segs, cur, removable) :: s in segs
    ensures var kept := Kept(segs, cur, removable); kept == [] || kept[|kept| - 1] == segs[|segs| - 1]
  {
    hide Kept;
    var k := KeptSuffix(segs, cur, removable);
    var kept := segs[k..];
    assert forall i | 0 <= i < |kept| :: kept[i] == segs[k + i];
  }

  /** An acknowledgement keeps the directory tight, and its place can always be found. */
  lemma AckTight(crc: Checksum, b: Buf, e: Entry, removable: set<nat>)
    requires Tight(b.segs) && Deletable(b.segs, removable)
    ensures var r := Ack(b, e, removable); Tight(r.segs) && forall s | s in r.segs :: s in b.segs
  {
    hide Kept, Tight;
    KeptTight(b.segs, At(e), removable);
  }

  /** A record appended now goes to the segment after the last sealed one: there is no unsealed
      segment left over from a reopening. */
  predicate NoLeftover(segs: seq<Seg>) { segs == [] || HasActive(segs) || segs[|segs| - 1].sealed }

  lemma WriteTight(crc: Checksum, o: Opts, b: Buf, payload: seq<byte>, now: int64)
    requires Tight(b.segs) && NoLeftover(b.segs)
    ensures Tight(Write(crc, o, b, payload, now).segs)
  {
    hide Written, NextId, Contiguous;
    WriteSegs(crc, o, b, payload, now);
    ActiveTight(b.segs);
    hide Tight, EnsureActive, Write;
    var segs := EnsureActive(b.segs);
    var n := |segs| - 1;
    WrittenReach(crc, o, segs[n], payload, now);
    LastReplaced(segs, Written(crc, o, segs[n], payload, now));
  }

  lemma ActiveTight(segs: seq<Seg>)
    requires Tight(segs) && NoLeftover(segs)
    ensures Tight(EnsureActive(segs))
  {
  }

  lemma LastReplaced(segs: seq<Seg>, w: Seg)
    requires segs != [] && Tight(segs) && w.id == segs[|segs| - 1].id
    ensures Tight(segs[..|segs| - 1] + [w])
  {
  }

  lemma OpenTight(crc: Checksum, o: Opts, b: Buf, disk: seq<Seg>)
    requires Tight(b.segs) && Survives(b.segs, disk)
    ensures Tight(Open(crc, o, disk, b.saved).segs)
  {
    OpenLength(crc, o, disk);
    forall i | 0 <= i < |disk|
      ensures var r := RecoveredAll(crc, o, disk)[i]; r.id == b.segs[i].id && (i < |disk| - 1 ==> r.sealed)
    {
      RecoveredShape(crc, o, disk[i], i == |disk| - 1);
    }
    hide RecoveredAll;
  }

  /** What a caller can see to before each step: deletions succeed, and nothing is appended
      behind an unsealed segment left over from a reopening. Dead letters are allowed. */
  predicate Smooth(s: Sys, ev: Event)
  {
    match ev
    case Append(_, _, removable) => Deletable(s.b.segs, removable) && NoLeftover(s.b.segs)
    case Poison(removable) => Deletable(s.b.segs, removable)
    case AckNext(removable) => Deletable(s.b.segs, removable)
    case _ => true
  }

  lemma SyncTight(b: Buf)
    requires Tight(b.segs)
    ensures Tight(SegmentLog.Sync(b).segs)
  {
  }

  lemma StepTight(crc: Checksum, o: Opts, s: Sys, ev: Event, t: Sys)
    requires Tight(s.b.segs) && Smooth(s, ev) && Next(crc, o, s, ev, t)
    ensures Tight(t.b.segs)
  {
    hide All, From, Ack, Open, Write, NewEntry, Survives, Kept, SegmentLog.Sync, Resolvable, FlushedSet, Tight,
        Deletable;
    match ev
    case Append(payload, now, removable) =>
      var c := E.Reclaimed(o, s.b, HEADER_BYTES + |payload|, removable);
      KeptTight(s.b.segs, s.b.cur, removable);
      WriteTight(crc, o, c, payload, now);
    case Sync => SyncTight(s.b);
    case Poison(removable) => AckTight(crc, s.b, s.w.batch[s.w.sent], removable);
    case AckNext(removable) => AckTight(crc, s.b, s.w.toAck[s.w.acked], removable);
    case Close => SyncTight(s.b);
    case Crash(disk) => OpenTight(crc, o, s.b, disk);
    case _ =>
  }

  /** In every run of such steps the directory has no gap. */
  lemma {:induction false} RunTight(crc: Checksum, o: Opts, states: seq<Sys>, evs: seq<Event>, i: nat)
    requires IsRun(crc, o, states, evs) && i < |states|
    requires forall k | 0 <= k < i :: Smooth(states[k], evs[k])
    ensures Tight(states[i].b.segs)
  {
    if i > 0 {
      hide Next, Tight, Smooth;
      RunTight(crc, o, states, evs, i - 1);
      StepTight(crc, o, states[i - 1], evs[i - 1], states[i]);
    }
  }

  /** A well-formed log without a gap is always resumed from where it was left. */
  lemma GapFreeResolves(crc: Checksum, b: Buf)
    requires Wf(crc, b) && Contiguous(b.segs)
    ensures Resolvable(b.segs, b.cur) && Resolvable(b.segs, b.saved)
  {
    hide SegOk, Aligned, Contiguous, Resolvable;
    if b.segs != [] { EveryPlaceFound(b.segs); } else { NothingToFind(b.cur, b.saved); }
  }

  lemma NothingToFind(p: Pos, q: Pos)
    ensures Resolvable([], p) && Resolvable([], q)
  {
  }

  // ---------- redelivery ----------

  /** Redelivery over whole runs, dead letters and any number of crashes included: if the ids on
      disk have no gap, or nothing was ever dead-lettered, a record that was flushed is delivered
      or is returned by the reads of the buffer as it is reopened after a crash at this moment.
      Without a dead letter, delivered means committed. */
  lemma Redelivered(crc: Checksum, o: Opts, states: seq<Sys>, evs: seq<Event>, i: nat, e: Entry, disk: seq<Seg>)
    requires IsRun(crc, o, states, evs) && i < |states|
    requires Contiguous(states[i].b.segs) || forall k | 0 <= k < i :: Plain(evs[k])
    requires e in states[i].h.durable && Survives(states[i].b.segs, disk)
    ensures var r := Open(crc, o, disk, states[i].b.saved);
            && (Done(states[i].h, e) || e in From(crc, r.segs, r.cur))
            && ((forall k | 0 <= k < i :: Plain(evs[k]))
               ==> e in states[i].h.committed || e in From(crc, r.segs, r.cur))
  {
    hide From, Open, Next, Inv, Wf, Resolvable, Survives, Contiguous;
    DeliveredAtLeastOnce(crc, o, states, evs, i, e, disk);
    assert Wf(crc, states[i].b) by { InvWf(crc, o, states, evs, i); }
    if forall k | 0 <= k < i :: Plain(evs[k]) {
      RunInPlace(crc, o, states, evs, i);
      NothingExposed(crc, o, states, evs, i);
    } else {
      GapFreeResolves(crc, states[i].b);
    }
    OpenRecovers(crc, o, states[i].b, disk);
  }

  lemma InvWf(crc: Checksum, o: Opts, states: seq<Sys>, evs: seq<Event>, i: nat)
    requires IsRun(crc, o, states, evs) && i < |states|
    ensures Wf(crc, states[i].b)
  {
    hide Wf, Next, WorkInv, All;
    RunInv(crc, o, states, evs, i);
  }

  /** In particular in every run whose deletions succeed and that appends nothing behind an
      unsealed leftover. */
  lemma SmoothRedelivered(crc: Checksum, o: Opts, states: seq<Sys>, evs: seq<Event>, i: nat, e: Entry, disk: seq<Seg>)
    requires IsRun(crc, o, states, evs) && i < |states|
    requires forall k | 0 <= k < i :: Smooth(states[k], evs[k])
    requires e in states[i].h.durable && Survives(states[i].b.segs, disk)
    ensures var r := Open(crc, o, disk, states[i].b.saved); Done(states[i].h, e) || e in From(crc, r.segs, r.cur)
  {
    hide From, Open, Next, Smooth, Survives;
    RunTight(crc, o, states, evs, i);
    Redelivered(crc, o, states, evs, i, e, disk);
  }

  lemma {:induction false} NothingExposed(crc: Checksum, o: Opts, states: seq<Sys>, evs: seq<Event>, i: nat)
    requires IsRun(crc, o, states, evs) && i < |states|
    requires forall k | 0 <= k < i :: Plain(evs[k])
    ensures states[i].h.exposed == {} && states[i].h.dead == {}
  {
    hide From, All, Ack, Open, E.Append, E.Reclaimed, Survives, NewEntry;
    if i > 0 {
      NothingExposed(crc, o, states, evs, i - 1);
      assert Next(crc, o, states[i - 1], evs[i - 1], states[i]);
    }
  }

  /** A state file that is missing or cannot be parsed costs nothing but repetition: everything
      on disk is read again. */
  lemma StateLost(crc: Checksum, o: Opts, b: Buf, disk: seq<Seg>)
    requires Wf(crc, b) && Survives(b.segs, disk)
    ensures var r := Open(crc, o, disk, Pos(0, 0));
            && From(crc, r.segs, r.cur) == All(crc, r.segs)
            && forall e :: e in All(crc, r.segs) <==> e in All(crc, b.segs) && OnDisk(disk, e)
  {
    OpenWf(crc, o, b, disk);
    hide All, OnDisk;
    forall e ensures e in All(crc, RecoveredAll(crc, o, disk)) <==> e in All(crc, b.segs) && OnDisk(disk, e) {
      OpenEntries(crc, o, b, disk, e);
    }
    hide RecoveredAll, SegOk;
  }
}
