/** The byte bound: with room for one full segment and two records, the buffer accepts every
    record, stays within its limit and never evicts its last segment to do so. */
module Sizing {
  import opened Frame
  import opened SegmentLog
  import opened Queue
  import E = Evict

  /** Framed records of at most `frame` bytes, and limits that leave room for them. */
  predicate Sized(o: Opts, frame: nat)
  {
    HEADER_BYTES <= frame <= o.segmentBytes && o.segmentBytes + 2 * frame <= o.maxBytes
  }

  predicate SegSized(o: Opts, frame: nat, s: Seg, last: bool)
  {
    if s.sealed then o.segmentBytes <= |s.data| < o.segmentBytes + frame && !s.file
    else last && s.file && |s.data| < o.segmentBytes
  }

  predicate AllSized(o: Opts, frame: nat, segs: seq<Seg>)
  {
    forall i | 0 <= i < |segs| :: SegSized(o, frame, segs[i], i == |segs| - 1)
  }

  ghost predicate SizeOk(o: Opts, frame: nat, b: Buf)
  {
    && AllSized(o, frame, b.segs)
    && b.total == Bytes(b.segs) && b.total <= o.maxBytes
  }

  datatype Op =
    | Store(payload: seq<byte>, now: int64, removable: set<nat>)
    | Deliver(e: Entry, removable: set<nat>)
    | Age(cutoff: int64, removable: set<nat>)
    | Flush

  function Do(crc: Checksum, o: Opts, b: Buf, op: Op): Buf
  {
    match op
    case Store(payload, now, removable) => E.Append(crc, o, b, payload, now, removable).0
    case Deliver(e, removable) => Ack(b, e, removable)
    case Age(cutoff, removable) => E.EvictExpired(b, cutoff, removable)
    case Flush => Sync(b)
  }

  function DoAll(crc: Checksum, o: Opts, b: Buf, ops: seq<Op>): Buf
  {
    if ops == [] then b else Do(crc, o, DoAll(crc, o, b, ops[..|ops| - 1]), ops[|ops| - 1])
  }

  predicate Fits(frame: nat, op: Op) { op.Store? ==> HEADER_BYTES + |op.payload| <= frame }

  // ---------- each operation ----------

  lemma SizedCons(o: Opts, frame: nat, s: Seg, last: bool, kept: seq<Seg>)
    requires SegSized(o, frame, s, last) && (last ==> kept == [])
    requires AllSized(o, frame, kept)
    ensures AllSized(o, frame, [s] + kept)
  {
  }

  lemma {:induction false} KeptSized(o: Opts, frame: nat, segs: seq<Seg>, cur: Pos, removable: set<nat>)
    requires AllSized(o, frame, segs)
    ensures AllSized(o, frame, Kept(segs, cur, removable))
  {
    if segs != [] {
      var rest := segs[1..];
      assert forall i | 0 <= i < |rest| :: rest[i] == segs[i + 1];
      KeptSized(o, frame, rest, cur, removable);
      SizedCons(o, frame, segs[0], rest == [], Kept(rest, cur, removable));
      assert rest == [] ==> Kept(rest, cur, removable) == [];
    }
  }

  lemma {:induction false} FreshSized(o: Opts, frame: nat, segs: seq<Seg>, cutoff: int64, removable: set<nat>)
    requires AllSized(o, frame, segs)
    ensures AllSized(o, frame, E.Fresh(segs, cutoff, removable))
    ensures Bytes(E.Fresh(segs, cutoff, removable)) <= Bytes(segs)
  {
    if segs != [] {
      var rest := segs[1..];
      assert forall i | 0 <= i < |rest| :: rest[i] == segs[i + 1];
      FreshSized(o, frame, rest, cutoff, removable);
      SizedCons(o, frame, segs[0], rest == [], E.Fresh(rest, cutoff, removable));
      assert rest == [] ==> E.Fresh(rest, cutoff, removable) == [];
    }
  }

  lemma {:induction false} BytesOne(segs: seq<Seg>)
    requires |segs| == 1
    ensures Bytes(segs) == |segs[0].data|
  {
  }

  /** The room an append makes is enough, and comes from a segment that is not the only one. */
  lemma RoomFor(o: Opts, frame: nat, b: Buf, need: nat, removable: set<nat>)
    requires Sized(o, frame) && SizeOk(o, frame, b) && need <= frame
    ensures var c, r := E.Reclaimed(o, b, need, removable), E.RoomMade(o, b, need, removable);
            && SizeOk(o, frame, r) && r.total + need <= o.maxBytes
            && (c.segs != [] ==> r.segs != [])
            && SizeOk(o, frame, c)
  {
    hide Kept, E.FirstSealed;
    KeptSized(o, frame, b.segs, b.cur, removable);
    KeptBytes(b.segs, b.cur, removable);
    var c := E.Reclaimed(o, b, need, removable);
    assert SizeOk(o, frame, c);
    if c.total + need > o.maxBytes {
      EvictSized(o, frame, c, need);
    }
  }

  lemma EvictSized(o: Opts, frame: nat, c: Buf, need: nat)
    requires Sized(o, frame) && SizeOk(o, frame, c) && need <= frame && c.total + need > o.maxBytes
    ensures var r := E.EvictOldest(c);
            SizeOk(o, frame, r) && r.segs != [] && r.total + need <= o.maxBytes
  {
    var segs := c.segs;
    if |segs| == 1 { BytesOne(segs); }
    assert |segs| > 1;
    assert segs[0].sealed;
    assert E.FirstSealed(segs) == 0;
    E.BytesWithout(segs, 0);
    assert E.Without(segs, 0) == segs[1..];
    assert forall i | 0 <= i < |segs[1..]| :: segs[1..][i] == segs[i + 1];
  }

  lemma WriteSized(crc: Checksum, o: Opts, frame: nat, b: Buf, payload: seq<byte>, now: int64)
    requires Sized(o, frame) && SizeOk(o, frame, b) && HEADER_BYTES + |payload| <= frame
    requires b.total + HEADER_BYTES + |payload| <= o.maxBytes
    ensures SizeOk(o, frame, Write(crc, o, b, payload, now))
  {
    var segs := EnsureActive(b.segs);
    var n := |segs| - 1;
    var s' := Written(crc, o, segs[n], payload, now);
    assert |s'.data| == |segs[n].data| + HEADER_BYTES + |payload|;
    hide Encode, Written, Bytes;
    WrittenKinds(crc, o, segs[n], payload, now);
    BytesConcat(segs[..n], [segs[n]]);
    BytesConcat(segs[..n], [s']);
    assert segs == segs[..n] + [segs[n]];
    BytesOne([segs[n]]);
    BytesOne([s']);
    if !HasActive(b.segs) {
      BytesConcat(b.segs, [segs[n]]);
    }
  }

  lemma WrittenKinds(crc: Checksum, o: Opts, s: Seg, payload: seq<byte>, now: int64)
    requires s.file
    ensures var w := Written(crc, o, s, payload, now);
            w.sealed == (|w.data| >= o.segmentBytes) && w.file == !w.sealed
  {
  }

  lemma SyncSized(o: Opts, frame: nat, b: Buf)
    requires SizeOk(o, frame, b)
    ensures SizeOk(o, frame, Sync(b))
  {
    if HasActive(b.segs) {
      var n := |b.segs| - 1;
      var s' := b.segs[n].(synced := |b.segs[n].data|);
      BytesConcat(b.segs[..n], [b.segs[n]]);
      BytesConcat(b.segs[..n], [s']);
      assert b.segs == b.segs[..n] + [b.segs[n]];
      assert Sync(b).segs == b.segs[..n] + [s'];
    }
  }

  lemma DoSized(crc: Checksum, o: Opts, frame: nat, b: Buf, op: Op)
    requires Sized(o, frame) && SizeOk(o, frame, b) && Fits(frame, op)
    ensures SizeOk(o, frame, Do(crc, o, b, op))
  {
    hide Kept, E.Fresh, Bytes, Write, Sync, E.EvictOldest;
    match op
    case Store(payload, now, removable) =>
      RoomFor(o, frame, b, HEADER_BYTES + |payload|, removable);
      WriteSized(crc, o, frame, E.RoomMade(o, b, HEADER_BYTES + |payload|, removable), payload, now);
    case Deliver(e, removable) =>
      KeptSized(o, frame, b.segs, Pos(e.seg, e.end), removable);
      KeptBytes(b.segs, Pos(e.seg, e.end), removable);
    case Age(cutoff, removable) => FreshSized(o, frame, b.segs, cutoff, removable);
    case Flush => SyncSized(o, frame, b);
  }

  lemma {:induction false} RunSized(crc: Checksum, o: Opts, frame: nat, ops: seq<Op>)
    requires Sized(o, frame) && forall op | op in ops :: Fits(frame, op)
    ensures SizeOk(o, frame, DoAll(crc, o, EMPTY, ops))
  {
    hide Do, SizeOk;
    if ops == [] {
      EmptySized(o, frame);
    } else {
      RunSized(crc, o, frame, ops[..|ops| - 1]);
      DoSized(crc, o, frame, DoAll(crc, o, EMPTY, ops[..|ops| - 1]), ops[|ops| - 1]);
    }
  }

  lemma EmptySized(o: Opts, frame: nat)
    ensures SizeOk(o, frame, EMPTY)
  {
  }

  /** In every run from an empty directory - appends of records framed in at most `frame`
      bytes, acknowledgements, age evictions and flushes in any order - the byte count is the
      sum of the segments and within the limit, the next append is accepted, and the room it
      makes never costs the last segment. */
  lemma {:induction false} SizingBound(crc: Checksum, o: Opts, frame: nat, ops: seq<Op>, payload: seq<byte>, now: int64,
                    removable: set<nat>)
    requires Sized(o, frame) && forall op | op in ops :: Fits(frame, op)
    requires HEADER_BYTES + |payload| <= frame
    ensures var b := DoAll(crc, o, EMPTY, ops);
            && b.total == Bytes(b.segs) && b.total <= o.maxBytes
            && E.Append(crc, o, b, payload, now, removable).1 == E.Stored
            && (E.Reclaimed(o, b, HEADER_BYTES + |payload|, removable).segs != []
                ==> E.RoomMade(o, b, HEADER_BYTES + |payload|, removable).segs != [])
  {
    hide DoAll, Write, Kept, E.EvictOldest;
    RunSized(crc, o, frame, ops);
    RoomFor(o, frame, DoAll(crc, o, EMPTY, ops), HEADER_BYTES + |payload|, removable);
  }
}
