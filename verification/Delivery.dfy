/** The deliverer as the program runs it: batches peeked, sent with retries, committed and
    acknowledged. Every execution is a path of the step system, and every batch that returns
    without an error leaves strictly fewer bytes pending. */
module Delivery {
  import opened Frame
  import opened SegmentLog
  import opened Queue
  import opened BufferImpl
  import opened AtLeastOnce
  import E = Evict
  import R = Resume

  /** How one call to the sink ends. Cancelled: it failed and the context is done. */
  datatype Outcome = Accepted | Permanent | Transient | Cancelled

  datatype Failure = NoFailure | Stalled | Failed

  datatype Stats = Stats(delivered: nat, retries: nat, deadLettered: nat, stalled: nat)

  predicate IsPath(crc: Checksum, o: Opts, states: seq<Sys>, evs: seq<Event>)
  {
    && |states| == |evs| + 1
    && forall i | 0 <= i < |evs| :: Next(crc, o, states[i], evs[i], states[i + 1])
  }

  /** Every state of a path that starts well satisfies the invariant, so what holds of runs
      holds of whatever the deliverer does. */
  lemma {:induction false} PathInv(crc: Checksum, o: Opts, states: seq<Sys>, evs: seq<Event>, i: nat)
    requires IsPath(crc, o, states, evs) && i < |states| && Inv(crc, states[0])
    ensures Inv(crc, states[i])
  {
    hide Inv, Next;
    if i > 0 {
      PathInv(crc, o, states, evs, i - 1);
      StepInv(crc, o, states[i - 1], evs[i - 1], states[i]);
    }
  }

  /** Every record of a batch was accepted, and waits for the commit, or was refused for good. */
  ghost predicate Dealt(send: (nat, Entry) -> Outcome, batch: seq<Entry>, toAck: seq<Entry>, a: nat, b: nat)
  {
    && (forall e | e in toAck :: Answered(send, e, a, b, Accepted))
    && (forall e | e in batch :: e in toAck || Answered(send, e, a, b, Permanent))
  }

  lemma NoneDealt(send: (nat, Entry) -> Outcome, batch: seq<Entry>, a: nat)
    ensures Dealt(send, batch[..0], [], a, a)
  {
  }

  lemma OneDealt(send: (nat, Entry) -> Outcome, batch: seq<Entry>, toAck: seq<Entry>, i: nat, a: nat, m: nat, n: nat)
    requires a <= m < n && i < |batch| && Dealt(send, batch[..i], toAck, a, m)
    ensures send(n - 1, batch[i]).Accepted? ==> Dealt(send, batch[..i + 1], toAck + [batch[i]], a, n)
    ensures send(n - 1, batch[i]).Permanent? ==> Dealt(send, batch[..i + 1], toAck, a, n)
  {
    assert batch[..i + 1] == batch[..i] + [batch[i]];
    assert Answered(send, batch[i], a, n, send(n - 1, batch[i]));
    forall e, x ensures Answered(send, e, a, m, x) ==> Answered(send, e, a, n, x) { }
    hide Answered;
  }

  lemma BatchAnswered(send: (nat, Entry) -> Outcome, commit: nat -> Outcome, batch: seq<Entry>, toAck: seq<Entry>,
                      a: nat, m: nat, n: nat)
    requires a <= m <= n && (toAck != [] ==> m < n && commit(n - 1).Accepted?)
    requires Dealt(send, batch, toAck, a, m)
    ensures forall e | e in batch :: Answered(send, e, a, n, Permanent) || MadeDurable(send, commit, e, a, n)
  {
    forall e | e in batch
      ensures Answered(send, e, a, n, Permanent) || MadeDurable(send, commit, e, a, n)
    {
      AnsweredLater(send, commit, e, a, m, n);
      if e in toAck { AnsweredLater(send, commit, e, a, m, n - 1); }
    }
  }

  /** a is an initial part of the path b. */
  predicate Extends(a: seq<Sys>, b: seq<Sys>) { a <= b }

  /** Something a caller can check before draining: every segment but the last is sealed, the
      ids have no gap, and the files can be deleted. */
  ghost predicate Neat(segs: seq<Seg>, removable: nat -> set<nat>)
  {
    R.Tight(segs) && forall n: nat :: R.Deletable(segs, removable(n))
  }

  lemma AckNeat(crc: Checksum, b: Buf, e: Entry, removable: nat -> set<nat>, n: nat)
    ensures Neat(b.segs, removable) ==> Neat(Ack(b, e, removable(n)).segs, removable)
  {
    hide Ack;
    if Neat(b.segs, removable) {
      R.AckTight(crc, b, e, removable(n));
      forall m: nat
        ensures R.Deletable(Ack(b, e, removable(n)).segs, removable(m))
      {
        assert R.Deletable(b.segs, removable(m));
      }
    }
  }

  // ---------- what the sink said ----------

  /** Some call from the a-th to before the b-th got this answer for e. */
  ghost predicate Answered(send: (nat, Entry) -> Outcome, e: Entry, a: nat, b: nat, answer: Outcome)
  {
    exists k: nat :: a <= k < b && send(k, e) == answer
  }

  predicate LastFor(send: (nat, Entry) -> Outcome, n: nat, e: Entry, answer: Outcome)
  {
    n > 0 && send(n - 1, e) == answer
  }

  /** The sink accepted e and a later commit succeeded. */
  ghost predicate MadeDurable(send: (nat, Entry) -> Outcome, commit: nat -> Outcome, e: Entry, a: nat, b: nat)
  {
    exists k: nat :: a <= k < b && commit(k).Accepted? && Answered(send, e, a, k, Accepted)
  }

  /** History follows the answers: since h0 a record became accepted, dead or committed, or waits
      for a commit, only after a call among the first n said so. */
  ghost predicate Truthful(h0: Hist, s: Sys, send: (nat, Entry) -> Outcome, commit: nat -> Outcome, n: nat)
  {
    && (forall e | e in s.h.accepted && e !in h0.accepted :: Answered(send, e, 0, n, Accepted))
    && (forall e | e in s.h.dead && e !in h0.dead :: Answered(send, e, 0, n, Permanent))
    && (forall e | e in s.h.committed && e !in h0.committed :: MadeDurable(send, commit, e, 0, n))
    && (!s.w.Gather? ==> forall e | e in s.w.toAck :: Answered(send, e, 0, n, Accepted))
  }

  /** The last of n calls said what the event claims. */
  predicate Backs(send: (nat, Entry) -> Outcome, commit: nat -> Outcome, n: nat, s: Sys, ev: Event)
  {
    && (ev.Accept? && s.w.Send? && s.w.sent < |s.w.batch| ==> n > 0 && send(n - 1, s.w.batch[s.w.sent]).Accepted?)
    && (ev.Poison? && s.w.Send? && s.w.sent < |s.w.batch| ==> n > 0 && send(n - 1, s.w.batch[s.w.sent]).Permanent?)
    && (ev.CommitOk? ==> n > 0 && commit(n - 1).Accepted?)
  }

  lemma AnsweredLater(send: (nat, Entry) -> Outcome, commit: nat -> Outcome, e: Entry, a: nat, m: nat, n: nat)
    requires m <= n
    ensures forall x :: Answered(send, e, a, m, x) ==> Answered(send, e, a, n, x)
    ensures MadeDurable(send, commit, e, a, m) ==> MadeDurable(send, commit, e, a, n)
  {
  }

  lemma TruthfulLater(h0: Hist, s: Sys, send: (nat, Entry) -> Outcome, commit: nat -> Outcome, m: nat, n: nat)
    requires Truthful(h0, s, send, commit, m) && m <= n
    ensures Truthful(h0, s, send, commit, n)
  {
    hide Answered, MadeDurable;
    forall e, x
      ensures Answered(send, e, 0, m, x) ==> Answered(send, e, 0, n, x)
    {
      AnsweredLater(send, commit, e, 0, m, n);
    }
    forall e
      ensures MadeDurable(send, commit, e, 0, m) ==> MadeDurable(send, commit, e, 0, n)
    {
      AnsweredLater(send, commit, e, 0, m, n);
    }
  }

  /** What an event adds to the history of deliveries. */
  lemma Adds(crc: Checksum, o: Opts, s: Sys, ev: Event)
    requires Enabled(crc, o, s, ev)
    ensures var t := Apply(crc, o, s, ev);
            && t.h.accepted == s.h.accepted + (if ev.Accept? then {s.w.batch[s.w.sent]} else {})
            && t.h.dead == s.h.dead + (if ev.Poison? then {s.w.batch[s.w.sent]} else {})
            && t.h.committed == s.h.committed + (if ev.CommitOk? then set x | x in s.w.toAck else {})
            && (!t.w.Gather? && t.w.toAck != [] ==>
                  !s.w.Gather? && t.w.toAck == s.w.toAck + if ev.Accept? then [s.w.batch[s.w.sent]] else [])
  {
    hide FlushedSet, All, From, Ack, E.Append, E.Reclaimed, SegmentLog.Sync, Open, Survives, Resolvable;
  }

  lemma StaysTruthful(crc: Checksum, o: Opts, h0: Hist, s: Sys, ev: Event, send: (nat, Entry) -> Outcome,
                      commit: nat -> Outcome, m: nat, n: nat)
    requires Truthful(h0, s, send, commit, m) && m <= n && (m < n || !ev.CommitOk?)
    requires Enabled(crc, o, s, ev) && Backs(send, commit, n, s, ev)
    ensures Truthful(h0, Apply(crc, o, s, ev), send, commit, n)
  {
    Adds(crc, o, s, ev);
    TruthfulLater(h0, s, send, commit, m, n);
    if ev.CommitOk? {
      forall e | e in s.w.toAck
        ensures MadeDurable(send, commit, e, 0, n)
      {
        AnsweredLater(send, commit, e, 0, m, n - 1);
      }
    }
    hide Apply, MadeDurable;
  }

  // ---------- progress ----------

  lemma {:induction false} KeptPending(segs: seq<Seg>, cur: Pos, removable: set<nat>, p: Pos)
    ensures Pending(Kept(segs, cur, removable), p) <= Pending(segs, p)
  {
    if segs != [] {
      KeptPending(segs[1..], cur, removable, p);
      var kept := Kept(segs[1..], cur, removable);
      assert ([segs[0]] + kept)[1..] == kept;
    }
  }

  /** Every record of a batch is on disk or its segment is gone; nothing is added meanwhile. */
  ghost predicate Holds(crc: Checksum, b: Buf, b0: Buf, batch: seq<Entry>)
  {
    && Wf(crc, b)
    && (forall e | e in batch :: Present(crc, b.segs, e) && Reached(b.segs, e))
    && (forall p :: Pending(b.segs, p) <= Pending(b0.segs, p))
  }

  lemma AckHolds(crc: Checksum, b: Buf, b0: Buf, batch: seq<Entry>, e: Entry, removable: set<nat>)
    requires Holds(crc, b, b0, batch) && e in batch
    ensures Holds(crc, Ack(b, e, removable), b0, batch)
    ensures Ack(b, e, removable).cur == At(e)
  {
    hide All, Wf, Kept, Pending;
    PresentAckable(crc, b, e);
    AckSavedKeepsWf(crc, b, e);
    var c := AckSaved(b, e);
    ReclaimKeeps(crc, c, removable);
    forall x | x in batch
      ensures Present(crc, Kept(c.segs, c.cur, removable), x) && Reached(Kept(c.segs, c.cur, removable), x)
    {
      KeptEntries(crc, c, removable, x);
      KeptReached(crc, c, removable, x);
    }
    forall p
      ensures Pending(Kept(c.segs, c.cur, removable), p) <= Pending(b0.segs, p)
    {
      KeptPending(c.segs, c.cur, removable, p);
    }
  }

  lemma StartHolds(crc: Checksum, b: Buf, batch: seq<Entry>)
    requires Wf(crc, b) && batch <= Undelivered(crc, b)
    ensures Holds(crc, b, b, batch)
  {
    hide All, Wf, Pending;
    forall e | e in batch
      ensures e in All(crc, b.segs) && Reached(b.segs, e)
    {
      var k :| 0 <= k < |batch| && batch[k] == e;
      assert Undelivered(crc, b)[k] == e;
      EntryAt(crc, b, k);
      var i := AllInSegment(crc, b.segs, e);
      InLast(crc, b, i);
    }
  }

  lemma InLast(crc: Checksum, b: Buf, i: nat)
    requires Wf(crc, b) && i < |b.segs|
    ensures var last := b.segs[|b.segs| - 1]; b.segs[i].id <= last.id && (b.segs[i].id == last.id ==> b.segs[i] == last)
  {
    hide Whole;
  }

  /** Moving the cursor to the end of an undelivered record takes its bytes off the backlog. */
  lemma PassedShrinks(crc: Checksum, b: Buf, k: nat)
    requires Wf(crc, b) && k < |Undelivered(crc, b)|
    ensures Pending(b.segs, At(Undelivered(crc, b)[k])) < Pending(b.segs, b.cur)
  {
    hide All, Pending;
    var q := Undelivered(crc, b);
    EntryAt(crc, b, k);
    AllInSeg(crc, b, k);
    WfWhole(crc, b);
    PendingIsFramed(crc, b.segs, b.cur);
    PendingIsFramed(crc, b.segs, At(q[k]));
    FramedConcat(q[..k + 1], q[k + 1..]);
    assert q == q[..k + 1] + q[k + 1..];
    assert q[..k + 1] != [];
  }

  class Deliverer {
    const buf: Buffer
    const batchSize: nat
    const maxAttempts: nat
    /** The outside world, by number of calls made to it. */
    const send: (nat, Entry) -> Outcome
    const commit: nat -> Outcome
    const deadLetter: nat -> bool
    const cancelled: nat -> bool
    const removable: nat -> set<nat>
    var calls: nat
    var stats: Stats

    /** The path of the step system this execution has taken. */
    ghost var states: seq<Sys>
    ghost var evs: seq<Event>

    constructor (buf: Buffer, batchSize: int, maxAttempts: int, send: (nat, Entry) -> Outcome,
                 commit: nat -> Outcome, deadLetter: nat -> bool, cancelled: nat -> bool, removable: nat -> set<nat>,
                     ghost now: Sys)
      requires now.b == buf.View() && now.w == Gather([])
      requires buf.Valid()
      ensures this.buf == buf && Valid() && states == [now]
      ensures this.batchSize == (if batchSize > 0 then batchSize else 256)
      ensures this.maxAttempts == (if maxAttempts > 0 then maxAttempts else 8)
      ensures this.send == send && this.commit == commit && this.deadLetter == deadLetter
      ensures this.cancelled == cancelled && this.removable == removable && calls == 0 && stats == Stats(0, 0, 0, 0)
    {
      this.buf := buf;
      this.batchSize := if batchSize <= 0 then 256 else batchSize;
      this.maxAttempts := if maxAttempts <= 0 then 8 else maxAttempts;
      this.send, this.commit, this.deadLetter := send, commit, deadLetter;
      this.cancelled, this.removable := cancelled, removable;
      this.calls, this.stats := 0, Stats(0, 0, 0, 0);
      this.states, this.evs := [now], [];
    }

    ghost function Now(): Sys
      reads this
      requires states != []
    {
      states[|states| - 1]
    }

    ghost predicate Valid()
      reads this, buf
    {
      && buf.Valid()
      && batchSize > 0 && maxAttempts > 0 && states != []
      && IsPath(buf.crc, buf.opts, states, evs)
      && Now().b == buf.View()
      && Truthful(states[0].h, Now(), send, commit, calls)
    }

    /** The last of n calls is why delivery stopped: the destination could not be reached, or the
        context was done, or a dead letter could not be stored. */
    ghost predicate StoppedFor(err: Failure, n: nat)
      requires n > 0
    {
      match err
      case NoFailure => true
      case Stalled =>
        commit(n - 1).Transient? || commit(n - 1).Permanent? || exists e :: LastFor(send, n, e, Transient)
      case Failed =>
        || commit(n - 1).Cancelled? || (exists e :: LastFor(send, n, e, Cancelled))
        || (!deadLetter(n) && exists e :: LastFor(send, n, e, Permanent))
    }

    /** Notes the event that has just happened, which the calls made since the m-th must back. */
    ghost method Note(ev: Event, m: nat)
      requires states != [] && IsPath(buf.crc, buf.opts, states, evs) && Enabled(buf.crc, buf.opts, Now(), ev)
      requires Truthful(states[0].h, Now(), send, commit, m) && m <= calls && (m < calls || !ev.CommitOk?)
      requires Backs(send, commit, calls, Now(), ev)
      modifies `states, `evs
      ensures states != [] && IsPath(buf.crc, buf.opts, states, evs) && Extends(old(states), states)
      ensures Now() == Apply(buf.crc, buf.opts, old(Now()), ev)
      ensures Truthful(states[0].h, Now(), send, commit, calls)
    {
      StaysTruthful(buf.crc, buf.opts, states[0].h, Now(), ev, send, commit, m, calls);
      hide Enabled, Apply, Truthful;
      states := states + [Apply(buf.crc, buf.opts, Now(), ev)];
      evs := evs + [ev];
    }

    /** Peeks up to batchSize records: the first ones reads return, and nothing is moved. */
    method NextBatch() returns (batch: seq<Entry>)
      requires Valid() && Now().w == Gather([])
      modifies `states, `evs
      ensures Valid() && Extends(old(states), states) && Now().w == Gather(batch)
      ensures batch <= buf.Reads() && (batch == [] <==> buf.Reads() == [])
      ensures |batch| <= batchSize && (|batch| < batchSize ==> batch == buf.Reads())
    {
      hide From, Wf, FlushedSet, IsPath, Truthful;
      batch := [];
      while |batch| < batchSize
        invariant Valid() && Extends(old(states), states) && Now().w == Gather(batch)
        invariant |batch| <= batchSize && batch <= buf.Reads()
        decreases batchSize - |batch|
      {
        var e := buf.PeekAfter(batch);
        if e.None? { break; }
        PeekIs(buf.crc, buf.View(), batch);
        Note(Peek, calls);
        batch := batch + [e.value];
      }
    }

    /** Hands one record to the sink, retrying transient failures; a permanent one is
        dead-lettered and acknowledged at once. */
    method SendOne(e: Entry, ghost b0: Buf) returns (handled: bool, err: Failure)
      requires Valid() && Now().w.Send? && Now().w.sent < |Now().w.batch| && Now().w.batch[Now().w.sent] == e
      requires Holds(buf.crc, buf.View(), b0, Now().w.batch)
      modifies this, buf
      ensures Valid() && Extends(old(states), states)
      ensures Holds(buf.crc, buf.View(), b0, old(Now().w.batch))
      ensures var w := old(Now().w);
              if err.NoFailure? then Now().w == Send(w.batch, w.sent + 1, if handled then w.toAck else w.toAck + [e])
              else Now().w == w
      ensures err.NoFailure? && handled ==> buf.cursor == At(e)
      ensures !(err.NoFailure? && handled) ==> buf.View() == old(buf.View())
      ensures err.NoFailure? && !handled ==> e in Now().h.accepted
      ensures err.NoFailure? && handled ==> e in Now().h.dead
      ensures old(Now().h.dead) <= Now().h.dead
      ensures stats.delivered == old(stats.delivered)
      ensures stats.deadLettered == old(stats.deadLettered) + if err.NoFailure? && handled then 1 else 0
      ensures err.Stalled? <==> stats.stalled == old(stats.stalled) + 1
      ensures !err.Stalled? ==> stats.stalled == old(stats.stalled)
      ensures Neat(old(buf.segments), removable) ==> Neat(buf.segments, removable)
      // the last call decides, and it was made only because those before it were transient
      ensures old(calls) < calls <= old(calls) + maxAttempts && (handled ==> err.NoFailure?)
      ensures forall k | old(calls) <= k < calls - 1 :: send(k, e).Transient?
      ensures err.NoFailure? && !handled <==> send(calls - 1, e).Accepted?
      ensures err.Stalled? <==> send(calls - 1, e).Transient?
      ensures err.Stalled? ==> calls == old(calls) + maxAttempts
      ensures err.NoFailure? && handled <==> send(calls - 1, e).Permanent? && deadLetter(calls)
      ensures StoppedFor(err, calls)
      ensures stats.retries - old(stats.retries) == calls - old(calls) - if err.Stalled? then 0 else 1
    {
      hide Neat, Ack, Wf, Holds, FlushedSet, IsPath, Truthful, Answered;
      handled, err := false, NoFailure;
      var attempt := 1;
      while attempt <= maxAttempts
        invariant 1 <= attempt <= maxAttempts
        invariant states == old(states) && evs == old(evs) && buf.View() == old(buf.View())
        invariant stats.stalled == old(stats.stalled) && stats.delivered == old(stats.delivered)
        invariant stats.deadLettered == old(stats.deadLettered)
        invariant calls == old(calls) + attempt - 1 && stats.retries == old(stats.retries) + attempt - 1
        invariant forall k | old(calls) <= k < calls :: send(k, e).Transient?
      {
        var r := send(calls, e);
        calls := calls + 1;
        assert LastFor(send, calls, e, r);
        if r.Accepted? {
          Note(Accept, old(calls));
          return;
        }
        if r.Cancelled? {
          TruthfulLater(states[0].h, Now(), send, commit, old(calls), calls);
          err := Failed;
          return;
        }
        if r.Permanent? { break; }
        stats := stats.(retries := stats.retries + 1);
        if attempt == maxAttempts {
          stats := stats.(stalled := stats.stalled + 1);
          TruthfulLater(states[0].h, Now(), send, commit, old(calls), calls);
          err := Stalled;
          return;
        }
        attempt := attempt + 1;
      }
      TruthfulLater(states[0].h, Now(), send, commit, old(calls), calls);
      if !deadLetter(calls) { err := Failed; return; }
      stats := stats.(deadLettered := stats.deadLettered + 1);
      AckHolds(buf.crc, buf.View(), b0, Now().w.batch, e, removable(calls));
      AckNeat(buf.crc, buf.View(), e, removable, calls);
      buf.Ack(e, removable(calls));
      assert buf.Valid() by { HoldsWf(buf.crc, buf.View(), b0, Now().w.batch); }
      Note(Poison(removable(calls)), calls);
      handled := true;
    }

    method CommitWithRetry() returns (err: Failure)
      modifies `calls, `stats
      ensures err.Stalled? <==> stats.stalled == old(stats.stalled) + 1
      ensures !err.Stalled? ==> stats.stalled == old(stats.stalled)
      ensures err.NoFailure? ==> calls > 0 && commit(calls - 1).Accepted?
      ensures stats.delivered == old(stats.delivered) && stats.deadLettered == old(stats.deadLettered)
      ensures old(calls) <= calls <= old(calls) + maxAttempts && (maxAttempts > 0 ==> old(calls) < calls)
      ensures err.Stalled? ==> calls == old(calls) + maxAttempts
                               && forall k | old(calls) <= k < calls :: commit(k).Transient? || commit(k).Permanent?
      ensures err.Failed? ==> calls > 0 && commit(calls - 1).Cancelled?
      ensures old(calls) < calls ==> StoppedFor(err, calls)
      ensures stats.retries - old(stats.retries) == calls - old(calls) - if err.Stalled? then 0 else 1
    {
      var attempt := 1;
      while attempt <= maxAttempts
        invariant stats.stalled == old(stats.stalled)
        invariant stats.delivered == old(stats.delivered) && stats.deadLettered == old(stats.deadLettered)
        invariant calls == old(calls) + attempt - 1 && stats.retries == old(stats.retries) + attempt - 1
        invariant attempt == 1 || attempt <= maxAttempts
        invariant forall k | old(calls) <= k < calls :: commit(k).Transient? || commit(k).Permanent?
      {
        var r := commit(calls);
        calls := calls + 1;
        if r.Accepted? { return NoFailure; }
        if r.Cancelled? { return Failed; }
        stats := stats.(retries := stats.retries + 1);
        if attempt == maxAttempts { break; }
        attempt := attempt + 1;
      }
      stats := stats.(stalled := stats.stalled + 1);
      err := Stalled;
    }

    /** Sends every record of the batch, or stops at the first failure. */
    method SendAll(batch: seq<Entry>, ghost b0: Buf) returns (toAck: seq<Entry>, err: Failure)
      requires Valid() && Now().w == Send(batch, 0, []) && Holds(buf.crc, buf.View(), b0, batch)
      modifies this, buf
      ensures Valid() && Extends(old(states), states) && Holds(buf.crc, buf.View(), b0, batch)
      ensures err.NoFailure? ==> Now().w == Send(batch, |batch|, toAck)
      ensures forall e | e in toAck :: e in batch
      ensures err.NoFailure? ==> forall e | e in batch :: e in toAck || e in Now().h.dead
      ensures err.NoFailure? && |toAck| < |batch| ==> exists j :: 0 <= j < |batch| && buf.cursor == At(batch[j])
      ensures |toAck| <= |batch| && stats.delivered == old(stats.delivered)
      ensures err.NoFailure? ==> stats.deadLettered == old(stats.deadLettered) + |batch| - |toAck|
      ensures err.Stalled? <==> stats.stalled == old(stats.stalled) + 1
      ensures !err.Stalled? ==> stats.stalled == old(stats.stalled)
      ensures err.NoFailure? && |toAck| == |batch| ==> toAck == batch && buf.View() == old(buf.View())
      ensures !err.NoFailure? && stats.deadLettered == old(stats.deadLettered) ==> buf.View() == old(buf.View())
      ensures calls >= old(calls) && stats.deadLettered >= old(stats.deadLettered)
      ensures !err.NoFailure? ==> calls > 0 && StoppedFor(err, calls)
      ensures err.NoFailure? ==> Dealt(send, batch, toAck, old(calls), calls)
      ensures Neat(old(buf.segments), removable) ==> Neat(buf.segments, removable)
    {
      hide Neat, Ack, Wf, Holds, FlushedSet, IsPath, Enabled, Apply, Truthful, Dealt, StoppedFor, Answered, LastFor;
      NoneDealt(send, batch, calls);
      toAck, err := [], NoFailure;
      var i := 0;
      ghost var last := 0;
      while i < |batch|
        invariant |toAck| <= i <= |batch| && Valid() && Extends(old(states), states)
        invariant Now().w == Send(batch, i, toAck) && Holds(buf.crc, buf.View(), b0, batch)
        invariant forall e | e in toAck :: e in batch
        invariant forall e | e in batch[..i] :: e in toAck || e in Now().h.dead
        invariant |toAck| < i ==> last < |batch| && buf.cursor == At(batch[last])
        invariant |toAck| == i ==> toAck == batch[..i] && buf.View() == old(buf.View())
        invariant Neat(old(buf.segments), removable) ==> Neat(buf.segments, removable)
        invariant stats.stalled == old(stats.stalled) && stats.delivered == old(stats.delivered)
        invariant stats.deadLettered == old(stats.deadLettered) + i - |toAck| && calls >= old(calls)
        invariant Dealt(send, batch[..i], toAck, old(calls), calls)
      {
        ghost var before := calls;
        var handled, e := SendOne(batch[i], b0);
        if !e.NoFailure? { return toAck, e; }
        assert batch[..i + 1] == batch[..i] + [batch[i]];
        OneDealt(send, batch, toAck, i, old(calls), before, calls);
        if !handled { toAck := toAck + [batch[i]]; } else { last := i; }
        i := i + 1;
      }
      assert batch[..i] == batch;
    }

    /** Acknowledges the committed records, in order. */
    method AckAll(batch: seq<Entry>, toAck: seq<Entry>, ghost b0: Buf)
      requires Valid() && Now().w == Work.Settle(batch, toAck, 0) && Holds(buf.crc, buf.View(), b0, batch)
      requires toAck != [] && forall e | e in toAck :: e in batch
      modifies this, buf
      ensures Valid() && Extends(old(states), states) && Holds(buf.crc, buf.View(), b0, batch)
      ensures Now().w == Work.Settle(batch, toAck, |toAck|) && buf.cursor == At(toAck[|toAck| - 1])
      ensures stats == old(stats) && calls == old(calls)
      ensures Now().h.dead == old(Now().h.dead) && Now().h.committed == old(Now().h.committed)
      ensures Neat(old(buf.segments), removable) ==> Neat(buf.segments, removable)
      ensures old(Resolvable(buf.segments, buf.cursor)) && toAck <= old(Undelivered(buf.crc, buf.View()))
              ==> Resolvable(buf.segments, buf.cursor)
    {
      hide Neat, Ack, Wf, Holds, FlushedSet, IsPath, Resolvable, Undelivered, InStep, Truthful;
      ghost var q0 := Undelivered(buf.crc, buf.View());
      ghost var inStep := Resolvable(buf.segments, buf.cursor) && toAck <= q0;
      StartInStep(buf.crc, buf.View());
      var k := 0;
      while k < |toAck|
        invariant k <= |toAck| && Valid() && Extends(old(states), states) && stats == old(stats) && calls == old(calls)
        invariant Now().w == Work.Settle(batch, toAck, k) && Holds(buf.crc, buf.View(), b0, batch)
        invariant Neat(old(buf.segments), removable) ==> Neat(buf.segments, removable)
        invariant inStep ==> InStep(buf.crc, buf.View(), q0, k)
        invariant k > 0 ==> buf.cursor == At(toAck[k - 1])
        invariant Now().h.dead == old(Now().h.dead) && Now().h.committed == old(Now().h.committed)
      {
        assert toAck[k] in toAck && toAck[k] in batch;
        AckHolds(buf.crc, buf.View(), b0, batch, toAck[k], removable(calls));
        if inStep { AckInStep(buf.crc, buf.View(), q0, k, removable(calls)); }
        AckNeat(buf.crc, buf.View(), toAck[k], removable, calls);
        buf.Ack(toAck[k], removable(calls));
        assert buf.Valid() by { HoldsWf(buf.crc, buf.View(), b0, batch); }
        Note(AckNext(removable(calls)), calls);
        k := k + 1;
      }
      InStepResolves(buf.crc, buf.View(), q0, k);
    }

    /** Commits what the sink accepted, then acknowledges it. */
    method Settle(batch: seq<Entry>, toAck: seq<Entry>, ghost b0: Buf) returns (err: Failure)
      requires Valid() && Now().w == Confirm(batch, toAck) && Holds(buf.crc, buf.View(), b0, batch)
      requires toAck != [] && forall e | e in toAck :: e in batch
      modifies this, buf
      ensures Valid() && Extends(old(states), states) && Holds(buf.crc, buf.View(), b0, batch)
      ensures Now().w == Gather([]) && Now().h.dead == old(Now().h.dead)
      // nothing is acknowledged unless the last call was a commit that succeeded
      ensures err.NoFailure? ==> old(calls) < calls && commit(calls - 1).Accepted?
      ensures !err.NoFailure? ==> buf.View() == old(buf.View()) && calls > 0 && StoppedFor(err, calls)
      ensures err.NoFailure? ==> buf.cursor == At(toAck[|toAck| - 1]) && forall e | e in toAck :: e in Now().h.committed
      ensures stats.delivered == old(stats.delivered) && stats.deadLettered == old(stats.deadLettered)
      ensures err.Stalled? <==> stats.stalled == old(stats.stalled) + 1
      ensures !err.Stalled? ==> stats.stalled == old(stats.stalled)
      ensures Neat(old(buf.segments), removable) ==> Neat(buf.segments, removable)
      ensures err.NoFailure? && old(Resolvable(buf.segments, buf.cursor))
              && toAck <= old(Undelivered(buf.crc, buf.View()))
              ==> Resolvable(buf.segments, buf.cursor)
    {
      hide Neat, Wf, Holds, Enabled, Apply, IsPath, Resolvable, Undelivered, Truthful;
      err := CommitWithRetry();
      if !err.NoFailure? {
        GiveUpIs(buf.crc, buf.opts, Now());
        Note(GiveUp, old(calls));
        return;
      }
      CommitIs(buf.crc, buf.opts, Now());
      Note(CommitOk, old(calls));
      AckAll(batch, toAck, b0);
      EndBatchIs(buf.crc, buf.opts, Now());
      Note(EndBatch, calls);
    }

    /** The first half of a batch: on a failure the batch is given up. */
    method SendBatch(batch: seq<Entry>) returns (toAck: seq<Entry>, err: Failure)
      requires Valid() && Now().w == Gather(batch) && batch != [] && Holds(buf.crc, buf.View(), buf.View(), batch)
      modifies this, buf
      ensures Valid() && Extends(old(states), states) && Holds(buf.crc, buf.View(), old(buf.View()), batch)
      ensures Now().w == if err.NoFailure? && toAck != [] then Confirm(batch, toAck) else Gather([])
      ensures forall e | e in toAck :: e in batch
      ensures err.NoFailure? ==> forall e | e in batch :: e in toAck || e in Now().h.dead
      ensures err.NoFailure? && |toAck| < |batch| ==> exists j :: 0 <= j < |batch| && buf.cursor == At(batch[j])
      ensures |toAck| <= |batch| && stats.delivered == old(stats.delivered)
      ensures err.NoFailure? ==> stats.deadLettered == old(stats.deadLettered) + |batch| - |toAck|
      ensures err.Stalled? <==> stats.stalled == old(stats.stalled) + 1
      ensures !err.Stalled? ==> stats.stalled == old(stats.stalled)
      ensures err.NoFailure? && |toAck| == |batch| ==> toAck == batch && buf.View() == old(buf.View())
      ensures !err.NoFailure? && stats.deadLettered == old(stats.deadLettered) ==> buf.View() == old(buf.View())
      ensures calls >= old(calls) && stats.deadLettered >= old(stats.deadLettered)
      ensures !err.NoFailure? ==> calls > 0 && StoppedFor(err, calls)
      ensures err.NoFailure? ==> Dealt(send, batch, toAck, old(calls), calls)
      ensures Neat(old(buf.segments), removable) ==> Neat(buf.segments, removable)
    {
      hide Neat, Wf, Holds, Enabled, Apply, IsPath, Truthful, Dealt;
      StartIs(buf.crc, buf.opts, Now());
      Note(StartSend, calls);
      toAck, err := SendAll(batch, old(buf.View()));
      if !err.NoFailure? {
        GiveUpIs(buf.crc, buf.opts, Now());
        Note(GiveUp, calls);
        return;
      }
      EndSendIs(buf.crc, buf.opts, Now());
      Note(EndSend, calls);
    }

    /** Sends a batch, commits it, then acknowledges it. A nil return takes bytes off the
        backlog, even when dead-letter acknowledgements were followed by acknowledgements of
        earlier records whose segment was reclaimed; and every record of the batch is then
        dead-lettered or committed. */
    method DeliverBatch(batch: seq<Entry>) returns (n: nat, err: Failure)
      requires Valid() && Now().w == Gather(batch) && batch != []
      requires batch <= Undelivered(buf.crc, buf.View())
      modifies this, buf
      ensures Valid() && Extends(old(states), states) && Now().w == Gather([])
      ensures err.NoFailure? ==> Pending(buf.segments, buf.cursor) < Pending(old(buf.segments), old(buf.cursor))
      ensures err.NoFailure? ==> n == |batch| && forall e | e in batch :: e in Now().h.dead || e in Now().h.committed
      ensures err.NoFailure?
              ==> stats.delivered + stats.deadLettered == old(stats.delivered + stats.deadLettered) + |batch|
      ensures err.Stalled? <==> stats.stalled == old(stats.stalled) + 1
      ensures !err.Stalled? ==> stats.stalled == old(stats.stalled)
      ensures Neat(old(buf.segments), removable) ==> Neat(buf.segments, removable)
      ensures stats.deadLettered >= old(stats.deadLettered)
      // on a failure nothing is acknowledged but dead letters; without one every record was
      // refused for good, or accepted and then committed, in this very call
      ensures !err.NoFailure? && stats.deadLettered == old(stats.deadLettered) ==> buf.View() == old(buf.View())
      ensures !err.NoFailure? ==> n == 0 && calls > 0 && StoppedFor(err, calls)
      ensures err.NoFailure? ==> forall e | e in batch ::
                || Answered(send, e, old(calls), calls, Permanent)
                || MadeDurable(send, commit, e, old(calls), calls)
      ensures err.NoFailure? && stats.deadLettered == old(stats.deadLettered)
              && old(Resolvable(buf.segments, buf.cursor))
              ==> Resolvable(buf.segments, buf.cursor)
    {
      hide Neat, Wf, Holds, Undelivered, Pending, Enabled, Apply, IsPath, Resolvable, Truthful, Answered, MadeDurable,
           Dealt;
      ghost var b0 := buf.View();
      StartHolds(buf.crc, b0, batch);
      var toAck;
      toAck, err := SendBatch(batch);
      if !err.NoFailure? { return 0, err; }
      ghost var sent := calls;
      if |toAck| > 0 {
        err := Settle(batch, toAck, b0);
        if !err.NoFailure? { return 0, err; }
        assert toAck[|toAck| - 1] in toAck && toAck[|toAck| - 1] in batch;
      }
      BatchAnswered(send, commit, batch, toAck, old(calls), sent, calls);
      stats := stats.(delivered := stats.delivered + |toAck|);
      n := |batch|;
      BatchShrinks(buf.crc, buf.View(), b0, batch);
    }

    /** Delivers what is in the buffer. It terminates; when it returns without an error and
        without stalling, reads return nothing; and then nothing is pending either if nothing was
        dead-lettered and the reader found its place before - as after any restart - or, dead
        letters or not, if the directory was neat before or has no gap in its ids now. */
    method DrainOnce() returns (delivered: nat, err: Failure)
      requires Valid() && Now().w == Gather([])
      modifies this, buf
      ensures Valid() && Extends(old(states), states) && Now().w == Gather([])
      ensures err != Stalled && stats.stalled <= old(stats.stalled) + 1
      ensures stats.stalled != old(stats.stalled) ==> err.NoFailure? && calls > 0 && StoppedFor(Stalled, calls)
      ensures err.Failed? ==> cancelled(calls) || (calls > 0 && StoppedFor(Failed, calls))
      ensures old(cancelled(calls)) ==> err.Failed? && delivered == 0 && buf.View() == old(buf.View())
      ensures err.NoFailure? && stats.stalled == old(stats.stalled)
              ==> delivered == stats.delivered + stats.deadLettered - old(stats.delivered + stats.deadLettered)
      ensures err.NoFailure? && stats.stalled == old(stats.stalled) ==> buf.Reads() == []
      ensures err.NoFailure? && stats.stalled == old(stats.stalled)
              && (|| Neat(old(buf.segments), removable) || R.Contiguous(buf.segments)
                  || (old(Resolvable(buf.segments, buf.cursor)) && stats.deadLettered == old(stats.deadLettered)))
              ==> Pending(buf.segments, buf.cursor) == 0
    {
      hide Neat, Wf, FlushedSet, Undelivered, Pending, From, Resolvable, IsPath, R.Contiguous, Truthful, Answered,
           MadeDurable;
      delivered, err := 0, NoFailure;
      while true
        invariant Valid() && Extends(old(states), states) && Now().w == Gather([])
        invariant Neat(old(buf.segments), removable) ==> Neat(buf.segments, removable)
        invariant stats.deadLettered >= old(stats.deadLettered)
        invariant old(Resolvable(buf.segments, buf.cursor)) && stats.deadLettered == old(stats.deadLettered)
                  ==> Resolvable(buf.segments, buf.cursor)
        invariant stats.stalled == old(stats.stalled)
        invariant old(cancelled(calls)) ==> calls == old(calls) && delivered == 0 && buf.View() == old(buf.View())
        invariant delivered == stats.delivered + stats.deadLettered - old(stats.delivered + stats.deadLettered)
        decreases Pending(buf.segments, buf.cursor)
      {
        if cancelled(calls) { return delivered, Failed; }
        var batch := NextBatch();
        if |batch| == 0 {
          NothingLeft(buf.crc, buf.View(), removable);
          return delivered, NoFailure;
        }
        ReadsAreQueue(buf.crc, buf.View());
        var n, e := DeliverBatch(batch);
        delivered := delivered + n;
        if e.Stalled? { return delivered, NoFailure; }
        if e.Failed? { return delivered, Failed; }
      }
    }
  }

  // ---------- the deliverer's own steps ----------

  predicate SameButWork(s: Sys, t: Sys)
  {
    t.b == s.b && t.h.dead == s.h.dead && t.h.committed == s.h.committed
  }

  lemma StartIs(crc: Checksum, o: Opts, s: Sys)
    requires s.w.Gather? && s.w.batch != []
    ensures Enabled(crc, o, s, StartSend)
    ensures var t := Apply(crc, o, s, StartSend); SameButWork(s, t) && t.w == Send(s.w.batch, 0, [])
  {
    hide FlushedSet;
  }

  lemma GiveUpIs(crc: Checksum, o: Opts, s: Sys)
    ensures Enabled(crc, o, s, GiveUp)
    ensures var t := Apply(crc, o, s, GiveUp); SameButWork(s, t) && t.w == Gather([])
  {
    hide FlushedSet;
  }

  lemma EndSendIs(crc: Checksum, o: Opts, s: Sys)
    requires s.w.Send? && s.w.sent == |s.w.batch|
    ensures Enabled(crc, o, s, EndSend)
    ensures var t := Apply(crc, o, s, EndSend);
            SameButWork(s, t) && t.w == if s.w.toAck == [] then Gather([]) else Confirm(s.w.batch, s.w.toAck)
  {
    hide FlushedSet;
  }

  lemma CommitIs(crc: Checksum, o: Opts, s: Sys)
    requires s.w.Confirm?
    ensures Enabled(crc, o, s, CommitOk)
    ensures var t := Apply(crc, o, s, CommitOk);
            && t.b == s.b && t.h.dead == s.h.dead && t.w == Settle(s.w.batch, s.w.toAck, 0)
            && forall e | e in s.w.toAck :: e in t.h.committed
  {
    hide FlushedSet;
  }

  lemma EndBatchIs(crc: Checksum, o: Opts, s: Sys)
    requires s.w.Settle? && s.w.acked == |s.w.toAck|
    ensures Enabled(crc, o, s, EndBatch)
    ensures var t := Apply(crc, o, s, EndBatch); SameButWork(s, t) && t.w == Gather([])
  {
    hide FlushedSet;
  }

  lemma HoldsWf(crc: Checksum, b: Buf, b0: Buf, batch: seq<Entry>)
    requires Holds(crc, b, b0, batch)
    ensures Wf(crc, b)
  {
  }

  /** The k-th record reads return is the first one read from behind the (k-1)-th. */
  lemma PeekIs(crc: Checksum, b: Buf, batch: seq<Entry>)
    requires Wf(crc, b) && batch <= From(crc, b.segs, b.cur) && |batch| < |From(crc, b.segs, b.cur)|
    ensures var q := From(crc, b.segs, PeekPos(b, batch)); q != [] && q[0] == From(crc, b.segs, b.cur)[|batch|]
  {
    hide All, From, Resolvable, SegsOk, Aligned;
    var n := |batch|;
    WfReads(crc, b);
    if n > 0 {
      var q := Undelivered(crc, b);
      assert batch[n - 1] == q[n - 1];
      EntryAt(crc, b, n - 1);
      AllInSeg(crc, b, n - 1);
      WfIncreasing(crc, b);
      ReadsReturn(crc, b.segs, At(q[n - 1]));
    }
  }

  lemma ReadsAreQueue(crc: Checksum, b: Buf)
    requires Wf(crc, b) && From(crc, b.segs, b.cur) != []
    ensures From(crc, b.segs, b.cur) == Undelivered(crc, b)
  {
    hide All, From, Resolvable, Wf;
    WfReads(crc, b);
  }

  /** With nothing left to read, nothing is pending if the reader finds its place, as it does
      when the ids have no gap. */
  lemma NothingLeft(crc: Checksum, b: Buf, removable: nat -> set<nat>)
    requires Wf(crc, b) && From(crc, b.segs, b.cur) == []
    ensures Neat(b.segs, removable) || R.Contiguous(b.segs) || Resolvable(b.segs, b.cur) ==> Pending(b.segs, b.cur) == 0
  {
    hide All, From, Resolvable, Wf, Undelivered, R.Contiguous;
    if Neat(b.segs, removable) || R.Contiguous(b.segs) { R.GapFreeResolves(crc, b); }
    if Resolvable(b.segs, b.cur) { PendingBytesExact(crc, b); }
  }

  /** The first k records of q have been acknowledged in order, and the reader has its place. */
  ghost predicate InStep(crc: Checksum, b: Buf, q: seq<Entry>, k: nat)
  {
    k <= |q| && Resolvable(b.segs, b.cur) && Undelivered(crc, b) == q[k..]
  }

  lemma StartInStep(crc: Checksum, b: Buf)
    ensures Resolvable(b.segs, b.cur) ==> InStep(crc, b, Undelivered(crc, b), 0)
  {
    hide Resolvable, Undelivered;
    assert Undelivered(crc, b)[0..] == Undelivered(crc, b);
  }

  lemma AckInStep(crc: Checksum, b: Buf, q: seq<Entry>, k: nat, removable: set<nat>)
    requires Wf(crc, b) && InStep(crc, b, q, k) && k < |q|
    ensures InStep(crc, Ack(b, q[k], removable), q, k + 1)
  {
    hide Wf, Resolvable, Undelivered, Ack;
    assert q[k..][0] == q[k] && q[k..][1..] == q[k + 1..];
    AckDrops(crc, b, 0, removable);
  }

  lemma InStepResolves(crc: Checksum, b: Buf, q: seq<Entry>, k: nat)
    ensures InStep(crc, b, q, k) ==> Resolvable(b.segs, b.cur)
  {
  }

  lemma BatchShrinks(crc: Checksum, b: Buf, b0: Buf, batch: seq<Entry>)
    requires Holds(crc, b, b0, batch) && Wf(crc, b0) && batch <= Undelivered(crc, b0)
    requires exists j :: 0 <= j < |batch| && b.cur == At(batch[j])
    ensures Pending(b.segs, b.cur) < Pending(b0.segs, b0.cur)
  {
    hide Wf, Pending, Undelivered;
    var j :| 0 <= j < |batch| && b.cur == At(batch[j]);
    PassedShrinks(crc, b0, j);
    assert batch[j] == Undelivered(crc, b0)[j];
  }
}
