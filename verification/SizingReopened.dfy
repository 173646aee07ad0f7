/** The byte bound when the process is restarted at any moment. A reopening leaves one small
    unsealed segment and may seal small ones, so that dropping one segment need not make enough
    room: an append can be refused. With room for two full segments and a record, a refused
    append has dropped a sealed segment, and repeating it succeeds. */
module SizingReopened {
  import opened Frame
  import opened SegmentLog
  import opened Queue
  import E = Evict
  import Z = Sizing

  /** Framed records of at most `frame` bytes, and limits that leave room for them. */
  predicate Roomy(o: Opts, frame: nat)
  {
    0 < o.segmentBytes && 2 * o.segmentBytes + frame <= o.maxBytes
  }

  /** An unsealed segment without an append handle: left over from a reopening. */
  predicate Leftover(s: Seg) { !s.sealed && !s.file }

  /** Unsealed segments are small, only the last can be open, and at most one is left over. */
  predicate Loose(o: Opts, segs: seq<Seg>)
  {
    && (forall i | 0 <= i < |segs| :: !segs[i].sealed ==> |segs[i].data| < o.segmentBytes)
    && (forall i | 0 <= i < |segs| :: segs[i].file ==> !segs[i].sealed && i == |segs| - 1)
    && (forall i, j | 0 <= i < j < |segs| :: !(Leftover(segs[i]) && Leftover(segs[j])))
  }

  ghost predicate LooseOk(o: Opts, b: Buf)
  {
    Loose(o, b.segs) && b.total == Bytes(b.segs) && b.total <= o.maxBytes
  }

  function Sealed(segs: seq<Seg>): nat
  {
    if segs == [] then 0 else (if segs[0].sealed then 1 else 0) + Sealed(segs[1..])
  }

  datatype Op = Run(op: Z.Op) | Restart(disk: seq<Seg>)

  function Do(crc: Checksum, o: Opts, b: Buf, op: Op): Buf
  {
    match op
    case Run(r) => Z.Do(crc, o, b, r)
    case Restart(disk) => if Survives(b.segs, disk) then Open(crc, o, disk, b.saved) else b
  }

  function DoAll(crc: Checksum, o: Opts, b: Buf, ops: seq<Op>): Buf
  {
    if ops == [] then b else Do(crc, o, DoAll(crc, o, b, ops[..|ops| - 1]), ops[|ops| - 1])
  }

  predicate Fits(frame: nat, op: Op) { op.Run? ==> Z.Fits(frame, op.op) }

  // ---------- dropping segments ----------

  lemma LooseTail(o: Opts, segs: seq<Seg>)
    requires Loose(o, segs) && segs != []
    ensures Loose(o, segs[1..])
  {
    assert forall i | 0 <= i < |segs[1..]| :: segs[1..][i] == segs[i + 1];
  }

  /** A segment put back in front of some of those that followed it. */
  lemma LooseCons(o: Opts, segs: seq<Seg>, left: seq<Seg>)
    requires Loose(o, segs) && segs != [] && Loose(o, left) && forall s | s in left :: s in segs[1..]
    ensures Loose(o, [segs[0]] + left)
  {
    var r := [segs[0]] + left;
    forall j | 0 <= j < |left|
      ensures |segs| > 1 && !(Leftover(segs[0]) && Leftover(left[j]))
    {
      assert left[j] in left;
      var k :| 0 <= k < |segs[1..]| && segs[1..][k] == left[j];
      assert segs[k + 1] == left[j];
    }
    assert |left| > 0 ==> |segs| > 1 && left[0] in left;
  }

  lemma {:induction false} KeptLoose(o: Opts, segs: seq<Seg>, cur: Pos, removable: set<nat>)
    requires Loose(o, segs)
    ensures Loose(o, Kept(segs, cur, removable)) && Sealed(Kept(segs, cur, removable)) <= Sealed(segs)
  {
    if segs != [] {
      LooseTail(o, segs);
      KeptLoose(o, segs[1..], cur, removable);
      var rest := Kept(segs[1..], cur, removable);
      forall s | s in rest ensures s in segs[1..] { KeptMembers(segs[1..], cur, removable, s); }
      LooseCons(o, segs, rest);
      assert ([segs[0]] + rest)[1..] == rest;
    }
  }

  lemma {:induction false} FreshLoose(o: Opts, segs: seq<Seg>, cutoff: int64, removable: set<nat>)
    requires Loose(o, segs)
    ensures var f := E.Fresh(segs, cutoff, removable); Loose(o, f) && Bytes(f) <= Bytes(segs)
  {
    if segs != [] {
      LooseTail(o, segs);
      FreshLoose(o, segs[1..], cutoff, removable);
      var rest := E.Fresh(segs[1..], cutoff, removable);
      forall s | s in rest ensures s in segs[1..] { E.FreshMembers(segs[1..], cutoff, removable, s); }
      LooseCons(o, segs, rest);
    }
  }

  lemma {:induction false} WithoutLoose(o: Opts, segs: seq<Seg>, i: nat)
    requires Loose(o, segs) && i < |segs| && segs[i].sealed
    ensures var r := E.Without(segs, i); Loose(o, r) && Sealed(r) == Sealed(segs) - 1
  {
    LooseTail(o, segs);
    if i == 0 {
      assert E.Without(segs, 0) == segs[1..];
    } else {
      WithoutLoose(o, segs[1..], i - 1);
      var rest := E.Without(segs[1..], i - 1);
      assert E.Without(segs, i) == [segs[0]] + rest;
      assert ([segs[0]] + rest)[1..] == rest;
      assert forall s | s in rest :: s in segs[1..];
      LooseCons(o, segs, rest);
    }
  }

  // ---------- growing and reopening ----------

  lemma WriteLoose(crc: Checksum, o: Opts, b: Buf, payload: seq<byte>, now: int64)
    requires LooseOk(o, b) && 0 < o.segmentBytes && b.total + HEADER_BYTES + |payload| <= o.maxBytes
    ensures LooseOk(o, Write(crc, o, b, payload, now))
  {
    WriteSegs(crc, o, b, payload, now);
    var segs := EnsureActive(b.segs);
    ActiveLoose(o, b.segs);
    var n := |segs| - 1;
    LastLoose(crc, o, segs, payload, now);
    hide Encode, Written, Loose;
    WriteBytes(crc, o, b, payload, now);
  }

  lemma ActiveLoose(o: Opts, segs: seq<Seg>)
    requires Loose(o, segs) && 0 < o.segmentBytes
    ensures Loose(o, EnsureActive(segs))
  {
  }

  lemma LastLoose(crc: Checksum, o: Opts, segs: seq<Seg>, payload: seq<byte>, now: int64)
    requires Loose(o, segs) && HasActive(segs)
    ensures var n := |segs| - 1; Loose(o, segs[..n] + [Written(crc, o, segs[n], payload, now)])
  {
    var n := |segs| - 1;
    Z.WrittenKinds(crc, o, segs[n], payload, now);
    hide Written;
  }

  lemma WriteBytes(crc: Checksum, o: Opts, b: Buf, payload: seq<byte>, now: int64)
    ensures Bytes(Write(crc, o, b, payload, now).segs) == Bytes(b.segs) + HEADER_BYTES + |payload|
  {
    WriteSegs(crc, o, b, payload, now);
    var segs := EnsureActive(b.segs);
    var n := |segs| - 1;
    var s' := Written(crc, o, segs[n], payload, now);
    assert |s'.data| == |segs[n].data| + HEADER_BYTES + |payload|;
    hide Encode, Written, Bytes, Write;
    BytesConcat(segs[..n], [segs[n]]);
    BytesConcat(segs[..n], [s']);
    assert segs == segs[..n] + [segs[n]];
    Z.BytesOne([segs[n]]);
    Z.BytesOne([s']);
    if !HasActive(b.segs) { BytesConcat(b.segs, [segs[n]]); }
  }

  lemma {:induction false} ShorterBytes(a: seq<Seg>, b: seq<Seg>)
    requires |a| == |b| && forall i | 0 <= i < |a| :: |a[i].data| <= |b[i].data|
    ensures Bytes(a) <= Bytes(b)
  {
    if a != [] { ShorterBytes(a[1..], b[1..]); }
  }

  lemma OpenLoose(crc: Checksum, o: Opts, b: Buf, disk: seq<Seg>)
    requires LooseOk(o, b) && Survives(b.segs, disk)
    ensures LooseOk(o, Open(crc, o, disk, b.saved))
  {
    var r := RecoveredAll(crc, o, disk);
    forall i | 0 <= i < |disk|
      ensures |r[i].data| <= |b.segs[i].data| && !r[i].file && (i < |disk| - 1 ==> r[i].sealed)
      ensures !r[i].sealed ==> |r[i].data| < o.segmentBytes
    {
      ScanInRange(crc, disk[i].data);
    }
    hide RecoveredAll;
    ShorterBytes(r, b.segs);
  }

  lemma SyncLoose(o: Opts, b: Buf)
    requires LooseOk(o, b)
    ensures LooseOk(o, Sync(b))
  {
    if HasActive(b.segs) {
      var r := Sync(b);
      ShorterBytes(r.segs, b.segs);
      ShorterBytes(b.segs, r.segs);
    }
  }

  // ---------- admission ----------

  /** With nothing sealed there are at most two segments, both small. */
  lemma {:induction false} NothingSealed(o: Opts, segs: seq<Seg>)
    requires Loose(o, segs) && E.FirstSealed(segs) == |segs|
    ensures Bytes(segs) <= 2 * o.segmentBytes
  {
    if |segs| > 2 {
      assert Leftover(segs[0]) && Leftover(segs[1]);
    } else if |segs| == 2 {
      assert segs[1..][1..] == [] && segs[1..][0] == segs[1];
      assert Bytes(segs[1..]) == |segs[1].data|;
    }
  }

  /** An append is stored, or it has dropped a sealed segment. */
  lemma RefusedDrops(crc: Checksum, o: Opts, frame: nat, b: Buf, payload: seq<byte>, now: int64, removable: set<nat>)
    requires Roomy(o, frame) && LooseOk(o, b) && HEADER_BYTES + |payload| <= frame
    ensures var (b', a) := E.Append(crc, o, b, payload, now, removable);
            LooseOk(o, b') && (a == E.ErrFull ==> Sealed(b'.segs) < Sealed(b.segs))
  {
    hide Kept, E.FirstSealed, Bytes, Write, Sealed;
    KeptLoose(o, b.segs, b.cur, removable);
    KeptBytes(b.segs, b.cur, removable);
    var need := HEADER_BYTES + |payload|;
    var c := E.Reclaimed(o, b, need, removable);
    if c.total + need > o.maxBytes {
      var i := E.FirstSealed(c.segs);
      assert i <= |c.segs| && (i < |c.segs| ==> c.segs[i].sealed) by { FirstSealedIs(c.segs); }
      if i == |c.segs| {
        NothingSealed(o, c.segs);
      } else {
        WithoutLoose(o, c.segs, i);
        E.BytesWithout(c.segs, i);
      }
    }
    var r := E.RoomMade(o, b, need, removable);
    if r.total + need <= o.maxBytes { WriteLoose(crc, o, r, payload, now); }
  }

  lemma {:induction false} FirstSealedIs(segs: seq<Seg>)
    ensures var i := E.FirstSealed(segs); i <= |segs| && (i < |segs| ==> segs[i].sealed)
  {
  }

  lemma DoLoose(crc: Checksum, o: Opts, frame: nat, b: Buf, op: Op)
    requires Roomy(o, frame) && LooseOk(o, b) && Fits(frame, op)
    ensures LooseOk(o, Do(crc, o, b, op))
  {
    hide Kept, E.Fresh, Bytes, Sync, E.Append, Open, Survives, Loose;
    match op
    case Restart(disk) => if Survives(b.segs, disk) { OpenLoose(crc, o, b, disk); }
    case Run(r) =>
      match r {
        case Store(payload, now, removable) => RefusedDrops(crc, o, frame, b, payload, now, removable);
        case Deliver(e, removable) =>
          KeptLoose(o, b.segs, Pos(e.seg, e.end), removable);
          KeptBytes(b.segs, Pos(e.seg, e.end), removable);
        case Age(cutoff, removable) => FreshLoose(o, b.segs, cutoff, removable);
        case Flush => SyncLoose(o, b);
      }
  }

  lemma {:induction false} RunLoose(crc: Checksum, o: Opts, frame: nat, ops: seq<Op>)
    requires Roomy(o, frame) && forall op | op in ops :: Fits(frame, op)
    ensures LooseOk(o, DoAll(crc, o, EMPTY, ops))
  {
    if ops != [] {
      hide Do, LooseOk;
      RunLoose(crc, o, frame, ops[..|ops| - 1]);
      DoLoose(crc, o, frame, DoAll(crc, o, EMPTY, ops[..|ops| - 1]), ops[|ops| - 1]);
    }
  }

  /** The buffer after n attempts to append a record. */
  function Tried(crc: Checksum, o: Opts, b: Buf, payload: seq<byte>, now: int64, removable: set<nat>, n: nat): Buf
  {
    if n == 0 then b else E.Append(crc, o, Tried(crc, o, b, payload, now, removable, n - 1), payload, now, removable).0
  }

  lemma {:induction false} TriedFirst(crc: Checksum, o: Opts, b: Buf, payload: seq<byte>, now: int64,
                                      removable: set<nat>, n: nat)
    requires n > 0
    ensures Tried(crc, o, b, payload, now, removable, n)
            == Tried(crc, o, E.Append(crc, o, b, payload, now, removable).0, payload, now, removable, n - 1)
  {
    hide E.Append;
    if n > 1 { TriedFirst(crc, o, b, payload, now, removable, n - 1); }
  }

  /** A refused append, repeated, is stored after at most as many tries as there are sealed
      segments. */
  lemma {:induction false} StoredInTheEnd(crc: Checksum, o: Opts, frame: nat, b: Buf, payload: seq<byte>, now: int64,
                                          removable: set<nat>)
    returns (n: nat)
    requires Roomy(o, frame) && LooseOk(o, b) && HEADER_BYTES + |payload| <= frame
    ensures n <= Sealed(b.segs)
    ensures E.Append(crc, o, Tried(crc, o, b, payload, now, removable, n), payload, now, removable).1 == E.Stored
    decreases Sealed(b.segs)
  {
    hide LooseOk, E.Append, Sealed;
    RefusedDrops(crc, o, frame, b, payload, now, removable);
    if E.Append(crc, o, b, payload, now, removable).1 == E.Stored {
      n := 0;
    } else {
      var m := StoredInTheEnd(crc, o, frame, E.Append(crc, o, b, payload, now, removable).0, payload, now, removable);
      n := m + 1;
      TriedFirst(crc, o, b, payload, now, removable, n);
    }
  }

  /** In every run from an empty directory with restarts at any moment and any surviving bytes,
      the byte count is the sum of the segments and within the limit, and the next record is
      stored at once or after at most as many refusals as there are sealed segments. */
  lemma ReopenedBound(crc: Checksum, o: Opts, frame: nat, ops: seq<Op>, payload: seq<byte>, now: int64,
                      removable: set<nat>)
    returns (n: nat)
    requires Roomy(o, frame) && (forall op | op in ops :: Fits(frame, op)) && HEADER_BYTES + |payload| <= frame
    ensures var b := DoAll(crc, o, EMPTY, ops);
            && b.total == Bytes(b.segs) && b.total <= o.maxBytes && n <= Sealed(b.segs)
            && E.Append(crc, o, Tried(crc, o, b, payload, now, removable, n), payload, now, removable).1 == E.Stored
  {
    hide DoAll, Loose, E.Append, Tried, Sealed;
    RunLoose(crc, o, frame, ops);
    n := StoredInTheEnd(crc, o, frame, DoAll(crc, o, EMPTY, ops), payload, now, removable);
  }

  // ---------- the rule without restarts does not suffice ----------

  /** Room for one full segment and two records of 20 bytes. */
  const TIGHT := Opts(90, 50)

  const STORE := Run(Z.Store([], 0, {}))

  /** The last segment is open and holds n bytes. */
  predicate OpenWith(b: Buf, n: nat) { HasActive(b.segs) && |b.segs[|b.segs| - 1].data| == n }

  lemma StoreOne(crc: Checksum, b: Buf, n: nat)
    requires Wf(crc, b) && 0 <= b.total <= 70 && n <= 20
    requires if n == 0 then !HasActive(b.segs) else OpenWith(b, n)
    ensures var r := Do(crc, TIGHT, b, STORE);
            && Wf(crc, r) && r.total == b.total + HEADER_BYTES && OpenWith(r, n + HEADER_BYTES)
            && |r.segs| == |b.segs| + (if n == 0 then 1 else 0)
            && (n == 0 ==> r.segs[..|b.segs|] == b.segs) && (n > 0 ==> r.segs[..|r.segs| - 1] == b.segs[..|b.segs| - 1])
  {
    hide Wf, Encode;
    var segs := EnsureActive(b.segs);
    WriteKeepsWf(crc, TIGHT, b, [], 0);
    WriteSegs(crc, TIGHT, b, [], 0);
    Z.WrittenKinds(crc, TIGHT, segs[|segs| - 1], [], 0);
    assert |Written(crc, TIGHT, segs[|segs| - 1], [], 0).data| == |segs[|segs| - 1].data| + HEADER_BYTES;
  }

  lemma RestartOne(crc: Checksum, b: Buf)
    requires Wf(crc, b) && |b.segs| == 1 && OpenWith(b, 40)
    ensures var r := Do(crc, TIGHT, b, Restart(b.segs));
            Wf(crc, r) && r.total == 40 && |r.segs| == 1 && !r.segs[0].sealed && !r.segs[0].file
  {
    hide Decode;
    OpenWf(crc, TIGHT, b, b.segs);
    var s := b.segs[0];
    assert Whole(crc, s.data, 0) && s.data[..|s.data|] == s.data;
    var r := Recovered(crc, TIGHT, s, true);
    assert RecoveredAll(crc, TIGHT, b.segs) == [r];
    Z.BytesOne([r]);
  }

  /** Two records, a restart, two more, and the next append is refused although the limits leave
      room for a full segment and two records: nothing is sealed, so nothing can be dropped. */
  lemma RestartRefuses(crc: Checksum)
    ensures Z.Sized(TIGHT, 20)
    ensures var disk := DoAll(crc, TIGHT, EMPTY, [STORE, STORE]).segs;
            var b := DoAll(crc, TIGHT, EMPTY, [STORE, STORE, Restart(disk), STORE, STORE]);
            E.Append(crc, TIGHT, b, [], 0, {}).1 == E.ErrFull
  {
    hide Do, DoAll, Wf;
    EmptyWf(crc);
    Sequel(crc, EMPTY, [], STORE);
    assert [] + [STORE] == [STORE] && [STORE] + [STORE] == [STORE, STORE];
    StoreOne(crc, EMPTY, 0);
    var b1 := DoAll(crc, TIGHT, EMPTY, [STORE]);
    Sequel(crc, EMPTY, [STORE], STORE);
    StoreOne(crc, b1, 20);
    var b2 := DoAll(crc, TIGHT, EMPTY, [STORE, STORE]);
    Sequel(crc, EMPTY, [STORE, STORE], Restart(b2.segs));
    RestartOne(crc, b2);
    var r := Restart(b2.segs);
    assert [STORE, STORE] + [r] == [STORE, STORE, r] && [STORE, STORE, r] + [STORE] == [STORE, STORE, r, STORE];
    assert [STORE, STORE, r, STORE] + [STORE] == [STORE, STORE, r, STORE, STORE];
    var b3 := DoAll(crc, TIGHT, EMPTY, [STORE, STORE, Restart(b2.segs)]);
    Sequel(crc, EMPTY, [STORE, STORE, Restart(b2.segs)], STORE);
    StoreOne(crc, b3, 0);
    var b4 := DoAll(crc, TIGHT, EMPTY, [STORE, STORE, Restart(b2.segs), STORE]);
    Sequel(crc, EMPTY, [STORE, STORE, Restart(b2.segs), STORE], STORE);
    StoreOne(crc, b4, 20);
    var b5 := DoAll(crc, TIGHT, EMPTY, [STORE, STORE, Restart(b2.segs), STORE, STORE]);
    TwoOpen(b3, b4, b5);
    Refused(crc, b5);
  }

  lemma {:induction false} Sequel(crc: Checksum, b: Buf, ops: seq<Op>, op: Op)
    ensures DoAll(crc, TIGHT, b, ops + [op]) == Do(crc, TIGHT, DoAll(crc, TIGHT, b, ops), op)
    ensures DoAll(crc, TIGHT, b, []) == b
  {
    assert (ops + [op])[..|ops|] == ops;
  }

  lemma EmptyWf(crc: Checksum)
    ensures Wf(crc, EMPTY)
  {
  }

  lemma TwoOpen(b3: Buf, b4: Buf, b5: Buf)
    requires |b3.segs| == 1 && Leftover(b3.segs[0]) && |b4.segs| == 2 && b4.segs[..1] == b3.segs
    requires |b5.segs| == 2 && b5.segs[..1] == b4.segs[..1] && HasActive(b5.segs)
    ensures !b5.segs[0].sealed && !b5.segs[1].sealed
  {
    assert b5.segs[0] == b5.segs[..1][0] && b4.segs[0] == b4.segs[..1][0];
  }

  lemma Refused(crc: Checksum, b: Buf)
    requires |b.segs| == 2 && !b.segs[0].sealed && !b.segs[1].sealed && b.total == 80
    ensures E.Append(crc, TIGHT, b, [], 0, {}).1 == E.ErrFull
  {
    hide Write;
    KeptAll(b.segs, b.cur);
    assert b.segs[1..][1..] == [] && b.segs[1..][0] == b.segs[1];
    assert E.FirstSealed(b.segs[1..]) == 1;
  }

  lemma {:induction false} KeptAll(segs: seq<Seg>, cur: Pos)
    ensures Kept(segs, cur, {}) == segs
  {
    if segs != [] { KeptAll(segs[1..], cur); }
  }
}
