/** The sink as a whole: payloads are externalised before rows are buffered, so that every step a
    reader can see, or that is still on its way, resolves to the payload that came in. */
module LakeWrite {
  import opened Basics
  import opened Records
  import opened LakeSink
  import opened Payload
  import SinkImpl
  import Ledger

  // ---------- over every interleaving ----------

  /** The rows an event hands to the sink. */
  function Given(ev: Event): multiset<Row>
  {
    match ev
    case Write(_, ep, steps, _, _) => multiset{ep} + multiset(steps)
    case WriteOutcomes(rows) => multiset(rows)
    case WriteRewards(rows) => multiset(rows)
    case _ => multiset{}
  }

  lemma StepWritten(s: Sink, ev: Event)
    requires Enabled(s, ev)
    ensures Apply(s, ev).written == s.written + Given(ev)
  {
    hide Units, Restore, AddTo, ManifestOf, HeldBy;
  }

  /** Whatever is visible, waiting or held by a running flush was given to the sink. */
  lemma {:induction false} RowsGiven(states: seq<Sink>, evs: seq<Event>, i: nat, r: Row)
    requires IsRun(states, evs) && i < |states| && r in states[i].written
    ensures exists k :: 0 <= k < i && r in Given(evs[k])
  {
    hide Enabled, Apply, Given;
    if i > 0 {
      StepWritten(states[i - 1], evs[i - 1]);
      if r in states[i - 1].written { RowsGiven(states, evs, i - 1, r); } else { assert r in Given(evs[i - 1]); }
    } else {
      NothingWritten(r);
    }
  }

  lemma NothingWritten(r: Row)
    ensures r !in EMPTY_SINK.written
  {
  }

  /** A row that a reader sees, or that is still on its way to one. */
  ghost predicate Alive(s: Sink, r: Row)
  {
    r in Visible(s.objects, s.manifests) || r in Ledger.Waiting(s) || r in Held(s.running)
  }

  lemma AliveWritten(states: seq<Sink>, evs: seq<Event>, i: nat, r: Row)
    requires IsRun(states, evs) && i < |states| && Alive(states[i], r)
    ensures r in states[i].written
  {
    hide Visible, Held, Ledger.Waiting, Apply, Enabled;
    Ledger.RowAccounting(states, evs, i);
  }

  /** r is the row of a step that came without a reference and has been settled. */
  ghost predicate StepRow(l: Limits, blobs: Blobs, row: Step -> Row, r: Row)
  {
    exists was: Step, t: Step :: r == row(t) && was.contentRef == None && Finished(l, blobs, was, t)
  }

  /** Every step row given to the sink had its payload settled first. */
  ghost predicate Prepared(l: Limits, blobs: Blobs, row: Step -> Row, ev: Event)
  {
    forall r | r in Given(ev) && r.table == Steps :: StepRow(l, blobs, row, r)
  }

  /** Payloads over whole runs: under any interleaving of writes and flushes with failing puts, and
      with a collision-free hash, every step row that is pending, held or visible is that of a step
      which resolves to the payload it came with, cut at the limit. */
  lemma AlivePayloads(l: Limits, blobs: Blobs, row: Step -> Row, states: seq<Sink>, evs: seq<Event>, i: nat, r: Row)
    requires IsRun(states, evs) && i < |states| && Alive(states[i], r) && r.table == Steps
    requires CollisionFree(l.hash) && Honest(l.hash, blobs) && forall k | 0 <= k < i :: Prepared(l, blobs, row, evs[k])
    ensures exists was: Step, t: Step ::
              && r == row(t) && was.contentRef == None && Finished(l, blobs, was, t)
              && Resolve(blobs, t) == Content(Cut(l, Original(was))) && !(t.inline.Some? && t.contentRef.Some?)
  {
    hide Given, Alive, Honest, CollisionFree, Resolve, Enabled, Apply, Finished;
    AliveWritten(states, evs, i, r);
    RowsGiven(states, evs, i, r);
    var k :| 0 <= k < i && r in Given(evs[k]);
    assert Prepared(l, blobs, row, evs[k]) && StepRow(l, blobs, row, r);
    var was: Step, t: Step :| r == row(t) && was.contentRef == None && Finished(l, blobs, was, t);
    FinishedReads(l, blobs, was, t);
  }

  lemma FinishedReads(l: Limits, blobs: Blobs, was: Step, t: Step)
    requires CollisionFree(l.hash) && Honest(l.hash, blobs) && was.contentRef == None && Finished(l, blobs, was, t)
    ensures Resolve(blobs, t) == Content(Cut(l, Original(was))) && !(t.inline.Some? && t.contentRef.Some?)
  {
    assert Backed(blobs, Settled(l, was));
    PayloadRoundTrip(l, blobs, was);
  }

  // ---------- as the program does it ----------

  /** An episode as it reaches the sink: its partition, its row, and its steps. */
  datatype Arriving = Arriving(key: string, row: Row, steps: array<Step>)

  /** The size that decides when a partition is due. */
  function Estimate(steps: seq<Step>): (n: nat)
  {
    if steps == [] then 512
    else
      var t := steps[|steps| - 1];
      Estimate(steps[..|steps| - 1]) + 256 + if t.inline.Some? then |t.inline.value| else 0
  }

  method EstimateBytes(steps: array<Step>) returns (n: nat)
    ensures n == Estimate(steps[..])
  {
    n := 512;
    var i := 0;
    while i < steps.Length
      invariant i <= steps.Length && n == Estimate(steps[..i])
    {
      assert steps[..i + 1][..i] == steps[..i];
      n := n + 256;
      if steps[i].inline.Some? { n := n + |steps[i].inline.value|; }
      i := i + 1;
    }
    assert steps[..i] == steps[..];
  }

  function RowsOf(row: Step -> Row, steps: seq<Step>): (r: seq<Row>)
    ensures |r| == |steps|
  {
    seq(|steps|, i requires 0 <= i < |steps| => row(steps[i]))
  }

  /** How often r occurs among the rows of steps. */
  function Times(row: Step -> Row, steps: seq<Step>, r: Row): nat { multiset(RowsOf(row, steps))[r] }

  lemma TimesConcat(row: Step -> Row, a: seq<Step>, b: seq<Step>, r: Row)
    ensures Times(row, a + b, r) == Times(row, a, r) + Times(row, b, r)
  {
    assert RowsOf(row, a + b) == RowsOf(row, a) + RowsOf(row, b);
  }

  function StepArrays(eps: seq<Arriving>): (r: seq<array<Step>>)
    ensures |r| == |eps| && forall i | 0 <= i < |eps| :: r[i] == eps[i].steps
  {
    seq(|eps|, i requires 0 <= i < |eps| => eps[i].steps)
  }

  class Lake {
    const payloads: Externaliser
    const sink: SinkImpl.Sink
    /** The row of a step. */
    const row: Step -> Row

    constructor (payloads: Externaliser, sink: SinkImpl.Sink, row: Step -> Row)
      requires payloads.Valid() && payloads.buffered == [] && sink.Valid() && sink.cur == EMPTY_SINK
      requires sink.states == [EMPTY_SINK] && forall t :: row(t).table == Steps
      ensures this.payloads == payloads && this.sink == sink && this.row == row && Valid()
    {
      this.payloads, this.sink, this.row := payloads, sink, row;
    }

    /** The step rows the sink has been given are those of the settled steps, each as often. */
    ghost predicate Valid()
      reads this, payloads, sink
    {
      && payloads.Valid() && sink.Valid() && sink.states != [] && sink.states[0] == EMPTY_SINK
      && (forall t :: row(t).table == Steps)
      && forall r: Row | r.table == Steps :: sink.cur.written[r] == Times(row, payloads.buffered, r)
    }

    /** Buffers episodes. On an error nothing reaches the pending partitions; on success exactly
        the rows of the settled steps do, with the episodes' own. */
    method Write(eps: seq<Arriving>, now: int, r: Replies, tableFails: bool) returns (err: bool)
      requires Valid() && Distinct(StepArrays(eps)) && forall e | e in eps :: e.row.table == Episodes
      modifies payloads, sink, set e | e in eps :: e.steps
      ensures Valid() && sink.cur.running == old(sink.cur.running) && sink.manifests == old(sink.manifests)
      ensures err ==> sink.cur == old(sink.cur) && sink.pending == old(sink.pending)
      ensures err ==> payloads.buffered == old(payloads.buffered)
      ensures err ==> tableFails || Failing(r, old(payloads.calls), payloads.calls)
      ensures !err ==> payloads.buffered == old(payloads.buffered)
                       + SettledAll(payloads.limits, Flat(old(Contents(StepArrays(eps)))))
    {
      hide SinkImpl.Leads, SinkImpl.ItemsRows, SinkImpl.Writes, AllFinished, Settled, SettledAll, Times, Flat, Honest,
           Estimate, Distinct;
      var arrays := StepArrays(eps);
      assert forall a | a in arrays :: exists e :: e in eps && e.steps == a by { FromEpisodes(eps); }
      err := payloads.Write(arrays, now, r, tableFails);
      if err { return; }
      ghost var cont := Contents(arrays);
      var items := Items(eps);
      ItemsSteps(row, eps, items, cont);
      sink.Write(items, now);
      hide Contents, RowsOf, StepArrays;
      forall x: Row | x.table == Steps
        ensures sink.cur.written[x] == Times(row, payloads.buffered, x)
      {
        TimesConcat(row, old(payloads.buffered), Flat(cont), x);
      }
    }

    /** The rows of each episode, with its estimated size. */
    method Items(eps: seq<Arriving>) returns (items: seq<SinkImpl.Item>)
      ensures |items| == |eps|
      ensures forall i | 0 <= i < |eps| ::
                items[i] == SinkImpl.Item(eps[i].key, eps[i].row, RowsOf(row, eps[i].steps[..]),
                                          Estimate(eps[i].steps[..]))
    {
      items := [];
      var i := 0;
      while i < |eps|
        invariant i <= |eps| && |items| == i
        invariant forall j | 0 <= j < i ::
                    items[j] == SinkImpl.Item(eps[j].key, eps[j].row, RowsOf(row, eps[j].steps[..]),
                                              Estimate(eps[j].steps[..]))
      {
        var n := EstimateBytes(eps[i].steps);
        items := items + [SinkImpl.Item(eps[i].key, eps[i].row, RowsOf(row, eps[i].steps[..]), n)];
        i := i + 1;
      }
    }

    /** Flushing moves rows and adds none. */
    method Flush(force: bool, now: int, batch: string, put: nat -> SinkImpl.PutResult, manifestPut: SinkImpl.PutResult)
      returns (err: bool)
      requires Valid() && batch !in sink.cur.used
      modifies sink
      ensures Valid() && sink.cur.running == old(sink.cur.running)
    {
      err := sink.Flush(force, now, batch, put, manifestPut);
    }
  }

  lemma FromEpisodes(eps: seq<Arriving>)
    ensures forall a | a in StepArrays(eps) :: exists e :: e in eps && e.steps == a
  {
    forall a | a in StepArrays(eps)
      ensures exists e :: e in eps && e.steps == a
    {
      var i :| 0 <= i < |eps| && StepArrays(eps)[i] == a;
      assert eps[i] in eps;
    }
  }

  lemma {:induction false} ItemsSteps(row: Step -> Row, eps: seq<Arriving>, items: seq<SinkImpl.Item>,
                                      cont: seq<seq<Step>>)
    requires |items| == |eps| == |cont| && forall e | e in eps :: e.row.table == Episodes
    requires forall i | 0 <= i < |eps| :: items[i].ep == eps[i].row && items[i].steps == RowsOf(row, cont[i])
    ensures forall r: Row | r.table == Steps :: SinkImpl.ItemsRows(items)[r] == Times(row, Flat(cont), r)
  {
    if items != [] {
      var n := |items| - 1;
      assert eps[n] in eps && forall e | e in eps[..n] :: e in eps;
      ItemsSteps(row, eps[..n], items[..n], cont[..n]);
      forall r: Row | r.table == Steps
        ensures SinkImpl.ItemsRows(items)[r] == Times(row, Flat(cont), r)
      {
        TimesConcat(row, Flat(cont[..n]), cont[n], r);
      }
    }
  }

  /** Every step row that is pending, held or visible is the row of a step that was settled, and
      resolves to the payload that step came with, cut at the limit. */
  lemma StepsResolve(lake: Lake, r: Row)
    requires lake.Valid() && CollisionFree(lake.payloads.limits.hash) && r.table == Steps && Alive(lake.sink.cur, r)
    ensures exists i ::
              && 0 <= i < |lake.payloads.buffered| == |lake.payloads.originals|
                 && r == lake.row(lake.payloads.buffered[i])
              && (lake.payloads.originals[i].contentRef == None ==>
                    Resolve(lake.payloads.store, lake.payloads.buffered[i])
                    == Content(Cut(lake.payloads.limits, Original(lake.payloads.originals[i]))))
  {
    hide Honest, CollisionFree, Resolve, Alive, Finished;
    var p := lake.payloads;
    SinkRun(lake.sink);
    AliveWritten(lake.sink.states, lake.sink.evs, |lake.sink.evs|, r);
    assert r in multiset(RowsOf(lake.row, p.buffered));
    var i :| 0 <= i < |p.buffered| && RowsOf(lake.row, p.buffered)[i] == r;
    if p.originals[i].contentRef == None { FinishedReads(p.limits, p.store, p.originals[i], p.buffered[i]); }
  }

  lemma SinkRun(s: SinkImpl.Sink)
    requires s.Valid() && s.states != [] && s.states[0] == EMPTY_SINK
    ensures IsRun(s.states, s.evs) && |s.evs| < |s.states| && s.states[|s.evs|] == s.cur
  {
    hide Apply, Enabled;
  }
}
