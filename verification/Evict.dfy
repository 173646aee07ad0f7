/** Making room: byte and age eviction, the admission decision of Append, and what each of
    them does to the log. */
module Evict {
  import opened Basics
  import opened Frame
  import opened SegmentLog
  import opened Queue

  // ---------- byte eviction ----------

  /** The position of the oldest sealed segment, or |segs| if there is none. */
  function FirstSealed(segs: seq<Seg>): (i: nat)
    ensures i <= |segs|
    ensures i < |segs| ==> segs[i].sealed
    ensures forall j | 0 <= j < i :: !segs[j].sealed
  {
    if segs == [] || segs[0].sealed then 0 else 1 + FirstSealed(segs[1..])
  }

  function Without(segs: seq<Seg>, i: nat): (r: seq<Seg>)
    requires i < |segs|
  {
    segs[..i] + segs[i + 1..]
  }

  /** Drops the oldest sealed segment; a cursor at or before it restarts from what is left. */
  function EvictOldest(b: Buf): (r: Buf)
  {
    var i := FirstSealed(b.segs);
    if i == |b.segs| then b
    else
      var segs := Without(b.segs, i);
      b.(segs := segs,
         total := b.total - |b.segs[i].data|,
         cur := if b.cur.seg <= b.segs[i].id && segs != [] then Pos(segs[0].id, 0) else b.cur)
  }

  lemma {:induction false} BytesWithout(segs: seq<Seg>, i: nat)
    requires i < |segs|
    ensures Bytes(Without(segs, i)) + |segs[i].data| == Bytes(segs)
  {
    BytesConcat(segs[..i], segs[i..]);
    BytesConcat(segs[..i], segs[i + 1..]);
    assert segs == segs[..i] + segs[i..];
    assert segs[i..][1..] == segs[i + 1..];
  }

  // ---------- age eviction ----------

  predicate Expired(s: Seg, cutoff: int64)
  {
    s.sealed && s.oldest.Some? && s.oldest.value < cutoff
  }

  /** What stays of segs when every expired, removable segment is dropped. */
  function Fresh(segs: seq<Seg>, cutoff: int64, removable: set<nat>): (r: seq<Seg>)
  {
    if segs == [] then []
    else
      var rest := Fresh(segs[1..], cutoff, removable);
      if Expired(segs[0], cutoff) && segs[0].id in removable then rest else [segs[0]] + rest
  }

  /** Each dropped segment at or beyond the cursor pushes it to the next id. */
  function PushedPast(segs: seq<Seg>, cutoff: int64, removable: set<nat>, p: Pos): (r: Pos)
  {
    if segs == [] then p
    else
      var s := segs[0];
      PushedPast(segs[1..], cutoff, removable,
                 if Expired(s, cutoff) && s.id in removable && p.seg <= s.id then Pos(s.id + 1, 0) else p)
  }

  function EvictExpired(b: Buf, cutoff: int64, removable: set<nat>): (r: Buf)
  {
    var segs := Fresh(b.segs, cutoff, removable);
    b.(segs := segs,
       cur := PushedPast(b.segs, cutoff, removable, b.cur),
       total := b.total - (Bytes(b.segs) - Bytes(segs)))
  }

  // ---------- admission ----------

  datatype Admission = Stored | ErrFull

  /** Append: reclaim if the record does not fit, then evict one segment, then give up. */
  function Reclaimed(o: Opts, b: Buf, need: nat, removable: set<nat>): (r: Buf)
  {
    if b.total + need > o.maxBytes then Reclaim(b, removable) else b
  }

  function RoomMade(o: Opts, b: Buf, need: nat, removable: set<nat>): (r: Buf)
  {
    var c := Reclaimed(o, b, need, removable);
    if c.total + need > o.maxBytes then EvictOldest(c) else c
  }

  function Append(crc: Checksum, o: Opts, b: Buf, payload: seq<byte>, now: int64,
                  removable: set<nat>): (r: (Buf, Admission))
  {
    var c := RoomMade(o, b, HEADER_BYTES + |payload|, removable);
    if c.total + HEADER_BYTES + |payload| > o.maxBytes then (c, ErrFull)
    else (Write(crc, o, c, payload, now), Stored)
  }

  /** Without an eviction, an accepted record is enqueued and nothing else changes. */
  lemma AppendEnqueues(crc: Checksum, o: Opts, b: Buf, payload: seq<byte>, now: int64, removable: set<nat>)
    requires Wf(crc, b) && |payload| <= MAX_RECORD_BYTES
    requires Reclaimed(o, b, HEADER_BYTES + |payload|, removable).total + HEADER_BYTES + |payload| <= o.maxBytes
    ensures var (b', a) := Append(crc, o, b, payload, now, removable);
            && a == Stored && Wf(crc, b')
            && Undelivered(crc, b') == Undelivered(crc, b)
               + [NewEntry(Reclaimed(o, b, HEADER_BYTES + |payload|, removable), payload, now)]
            && (Resolvable(b.segs, b.cur) ==> Resolvable(b'.segs, b'.cur))
  {
    hide Undelivered, Wf, Resolvable;
    ReclaimKeeps(crc, b, removable);
    var c := RoomMade(o, b, HEADER_BYTES + |payload|, removable);
    WriteEnqueues(crc, o, c, payload, now);
    WriteKeepsWf(crc, o, c, payload, now);
  }

  // ---------- segment ids restart when an eviction empties the list ----------

  /** After an eviction has emptied the list the next segment is number 1 again. The record
      written there is read back if and only if the cursor had not moved beyond its start. */
  lemma AppendAfterEmptied(crc: Checksum, o: Opts, b: Buf, payload: seq<byte>, now: int64)
    requires b.segs == [] && |payload| <= MAX_RECORD_BYTES
    ensures From(crc, Write(crc, o, b, payload, now).segs, b.cur) == [NewEntry(b, payload, now)]
            <==> b.cur.seg == 0 || b.cur == Pos(1, 0)
  {
    hide Encode, Parse, Decode;
    var s := Seg(1, [], false, true, 0, None);
    assert EnsureActive(b.segs) == [s];
    EmptyWhole(crc);
    ReadWritten(crc, o, s, payload, now);
    WrittenShape(crc, o, s, payload, now);
    ReadPastEnd(crc, s, 0);
    var s' := Written(crc, o, s, payload, now);
    var e := NewEntry(b, payload, now);
    assert [s][..0] + [s'] == [s'];
    var segs := Write(crc, o, b, payload, now).segs;
    assert segs == [s'] && segs[1..] == [];
    assert Read(crc, s', 0) == [e];
    assert All(crc, segs) == [e] + All(crc, []);
    if b.cur.seg == 1 && b.cur.off > 0 {
      ReadFirst(crc, s', b.cur.off);
    }
    if b.cur.seg > 1 {
      FoundNothing(crc, segs, b.cur);
    }
  }

  /** A record read at off ends past off by its own framed size. */
  lemma ReadFirst(crc: Checksum, s: Seg, off: nat)
    ensures var es := Read(crc, s, off); es != [] ==> es[0].end == off + HEADER_BYTES + |es[0].payload|
  {
    var d := Decode(crc, s.data, off);
    var ds := Parse(crc, s.data, off);
    assert d.Rec? ==> ds[0] == d;
  }

  /** A run that meets this: one sealed segment expires, the list empties, and a record
      accepted afterwards is never returned although it counts as pending nowhere. */
  lemma EmptiedListHidesRecord(crc: Checksum, o: Opts, s: Seg, payload: seq<byte>, now: int64)
    requires s.id == 1 && s.sealed && s.oldest == Some(0) && |payload| <= MAX_RECORD_BYTES
    requires HEADER_BYTES + |payload| <= o.maxBytes
    ensures var b := EvictExpired(Buf([s], Pos(1, 0), Pos(1, 0), |s.data|), 1, {1});
            var (b', a) := Append(crc, o, b, payload, now, {});
            && b.segs == [] && a == Stored && b'.total > 0
            && From(crc, b'.segs, b'.cur) == [] && Pending(b'.segs, b'.cur) == 0
  {
    hide Encode, Parse, Decode;
    var b0 := Buf([s], Pos(1, 0), Pos(1, 0), |s.data|);
    assert [s][1..] == [];
    assert Fresh([s], 1, {1}) == [];
    assert PushedPast([s], 1, {1}, Pos(1, 0)) == PushedPast([], 1, {1}, Pos(2, 0));
    var b := EvictExpired(b0, 1, {1});
    assert Bytes([s]) == |s.data|;
    assert b == Buf([], Pos(2, 0), Pos(1, 0), 0);
    var blank := Seg(1, [], false, true, 0, None);
    var w := Written(crc, o, blank, payload, now);
    var b' := Write(crc, o, b, payload, now);
    assert EnsureActive([]) == [blank];
    assert b'.segs == [w];
    FoundNothing(crc, [w], Pos(2, 0));
    assert [w][1..] == [];
  }

  // ---------- age eviction and the cursor ----------

  predicate Dropped(s: Seg, cutoff: int64, removable: set<nat>) { Expired(s, cutoff) && s.id in removable }

  lemma {:induction false} FreshMembers(segs: seq<Seg>, cutoff: int64, removable: set<nat>, s: Seg)
    ensures s in Fresh(segs, cutoff, removable) <==> s in segs && !Dropped(s, cutoff, removable)
  {
    if segs != [] {
      FreshMembers(segs[1..], cutoff, removable, s);
      assert s in segs <==> s == segs[0] || s in segs[1..];
    }
  }

  /** The cursor ends up just behind the last segment dropped at or beyond it. */
  lemma {:induction false} PushedPastIs(segs: seq<Seg>, cutoff: int64, removable: set<nat>, p: Pos)
    requires Increasing(segs)
    ensures var r := PushedPast(segs, cutoff, removable, p);
            && (forall s | s in segs && Dropped(s, cutoff, removable) && p.seg <= s.id :: s.id < r.seg)
            && (r == p || exists s ::
                 s in segs && Dropped(s, cutoff, removable) && p.seg <= s.id && r == Pos(s.id + 1, 0))
  {
    if segs != [] {
      var s := segs[0];
      var q := if Dropped(s, cutoff, removable) && p.seg <= s.id then Pos(s.id + 1, 0) else p;
      PushedPastIs(segs[1..], cutoff, removable, q);
      var r := PushedPast(segs, cutoff, removable, p);
      assert r == PushedPast(segs[1..], cutoff, removable, q);
      assert forall t | t in segs[1..] :: s.id < t.id && t in segs;
      assert forall t | t in segs :: t == s || t in segs[1..];
    }
  }

  /** EvictExpired keeps every surviving undelivered record in the queue if and only if no
      segment it drops at or beyond the cursor lies above a surviving segment that still
      holds one - such as the unsealed segment a reopening leaves behind. */
  lemma ExpiryKeepsQueue(crc: Checksum, b: Buf, cutoff: int64, removable: set<nat>)
    requires Wf(crc, b)
    ensures var b' := EvictExpired(b, cutoff, removable);
            (forall e | e in Undelivered(crc, b) && e in All(crc, b'.segs) :: e in Undelivered(crc, b'))
            <==>
            (forall s, t, e | s in b.segs && t in b.segs && s.id < t.id && b.cur.seg <= t.id
               && !Dropped(s, cutoff, removable) && Dropped(t, cutoff, removable) && e in Read(crc, s, 0)
               :: e !in Undelivered(crc, b))
  {
    hide Read, All, SegOk, Aligned, Fresh, PushedPast;
    var b' := EvictExpired(b, cutoff, removable);
    PushedPastIs(b.segs, cutoff, removable, b.cur);
    if forall e | e in Undelivered(crc, b) && e in All(crc, b'.segs) :: e in Undelivered(crc, b') {
      forall s, t, e | s in b.segs && t in b.segs && s.id < t.id && b.cur.seg <= t.id
        && !Dropped(s, cutoff, removable) && Dropped(t, cutoff, removable) && e in Read(crc, s, 0)
        ensures e !in Undelivered(crc, b)
      {
        FreshMembers(b.segs, cutoff, removable, s);
        InSegs(crc, b'.segs, s, e);
        ReadIds(crc, s, 0, e);
        AfterMembers(All(crc, b'.segs), b'.cur, e);
        assert Passed(e, b'.cur);
      }
    }
    if forall s, t, e | s in b.segs && t in b.segs && s.id < t.id && b.cur.seg <= t.id
      && !Dropped(s, cutoff, removable) && Dropped(t, cutoff, removable) && e in Read(crc, s, 0)
      :: e !in Undelivered(crc, b)
    {
      forall e | e in Undelivered(crc, b) && e in All(crc, b'.segs)
        ensures e in Undelivered(crc, b')
      {
        AfterMembers(All(crc, b.segs), b.cur, e);
        AfterMembers(All(crc, b'.segs), b'.cur, e);
        var i := AllInSegment(crc, b'.segs, e);
        var s := b'.segs[i];
        assert s in b'.segs;
        FreshMembers(b.segs, cutoff, removable, s);
        if Passed(e, b'.cur) {
          var t :| t in b.segs && Dropped(t, cutoff, removable) && b.cur.seg <= t.id && b'.cur == Pos(t.id + 1, 0);
          SameSeg(crc, b, s, t);
        }
      }
    }
  }

  lemma {:induction false} InSegs(crc: Checksum, segs: seq<Seg>, s: Seg, e: Entry)
    requires s in segs && e in Read(crc, s, 0)
    ensures e in All(crc, segs)
  {
    hide Read;
    AllMembers(crc, segs, e);
    var i :| 0 <= i < |segs| && segs[i] == s;
  }

  lemma SameSeg(crc: Checksum, b: Buf, s: Seg, t: Seg)
    requires Wf(crc, b) && s in b.segs && t in b.segs && s.id == t.id
    ensures s == t
  {
    hide SegOk, Aligned;
    var i :| 0 <= i < |b.segs| && b.segs[i] == s;
    var j :| 0 <= j < |b.segs| && b.segs[j] == t;
    assert i == j;
  }
}
