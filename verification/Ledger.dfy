/** The sink's books over whole runs: no row is lost track of, none is visible twice, a batch
    is visible whole or not at all, and exactly which failures abandon rows. */
module Ledger {
  import opened Basics
  import opened Dedup
  import opened LakeSink
  import opened Publication

  function Waiting(s: Sink): multiset<Row>
  {
    PartsRows(s.pending) + multiset(s.outcomes) + multiset(s.rewards)
  }

  // ---------- moves between bags ----------

  /** x rows leave one bag for another. */
  lemma Moved(w: multiset<Row>, v: multiset<Row>, p: multiset<Row>, h: multiset<Row>, a: multiset<Row>,
              x: multiset<Row>)
    requires w == v + p + (h + x) + a
    ensures w == (v + x) + p + h + a && w == v + (p + x) + h + a && w == v + p + h + (a + x)
  {
  }

  lemma Returning(w: multiset<Row>, v: multiset<Row>, p: multiset<Row>, h: multiset<Row>, a: multiset<Row>,
                  x: multiset<Row>, y: multiset<Row>)
    requires w == v + p + (h + x) + a && y <= x
    ensures w == v + (p + y) + h + (a + (x - y))
  {
  }

  lemma Taken(w: multiset<Row>, v: multiset<Row>, p: multiset<Row>, h: multiset<Row>, a: multiset<Row>,
              x: multiset<Row>)
    requires w == v + (p + x) + h + a
    ensures w == v + p + (h + x) + a
  {
  }

  lemma Grown(w: multiset<Row>, v: multiset<Row>, p: multiset<Row>, h: multiset<Row>, a: multiset<Row>,
              x: multiset<Row>)
    requires w == v + p + h + a
    ensures w + x == v + (p + x) + h + a
  {
  }

  lemma Shuffle(a: multiset<Row>, b: multiset<Row>, c: multiset<Row>, x: multiset<Row>)
    ensures (a + x) + b + c == (a + b + c) + x && a + (b + x) + c == (a + b + c) + x
            && a + b + (c + x) == (a + b + c) + x
    ensures a + (x + b) + c == (a + b + c) + x && a + b + (x + c) == (a + b + c) + x
  {
  }

  lemma WriteAccounted(s: Sink, key: string, ep: Row, steps: seq<Row>, size: nat, now: int)
    requires Accounted(s)
    ensures Accounted(Apply(s, Write(key, ep, steps, size, now)))
  {
    hide Visible, Held, PartsRows, AddTo;
    AddToRows(s.pending, key, ep, steps, size, now);
    var x := multiset{ep} + multiset(steps);
    Shuffle(PartsRows(s.pending), multiset(s.outcomes), multiset(s.rewards), x);
    Grown(s.written, Visible(s.objects, s.manifests), Waiting(s), Held(s.running), s.abandoned, x);
    BagAssoc(s.written, multiset{ep}, multiset(steps));
    BagAssoc(PartsRows(s.pending), multiset{ep}, multiset(steps));
  }

  lemma OutcomesAccounted(s: Sink, rows: seq<Row>)
    requires Accounted(s)
    ensures Accounted(Apply(s, WriteOutcomes(rows))) && Accounted(Apply(s, WriteRewards(rows)))
  {
    hide Visible, Held, PartsRows;
    var x := multiset(rows);
    Shuffle(PartsRows(s.pending), multiset(s.outcomes), multiset(s.rewards), x);
    Grown(s.written, Visible(s.objects, s.manifests), Waiting(s), Held(s.running), s.abandoned, x);
    assert multiset(s.outcomes + rows) == multiset(s.outcomes) + x;
    assert multiset(s.rewards + rows) == multiset(s.rewards) + x;
  }

  lemma StartAccounted(s: Sink, ev: Event)
    requires Accounted(s) && ev.Start? && Enabled(s, ev)
    ensures Accounted(Apply(s, ev))
  {
    hide Visible, PartsRows;
    PartsPermuted(ev.due + ev.rest, s.pending);
    PartsConcat(ev.due, ev.rest);
    var r := Apply(s, ev);
    var f := r.running[|s.running|];
    assert r.running == s.running + [f];
    HeldConcat(s.running, [f]);
    assert Held([f]) == HeldBy(f) by { assert [f][1..] == []; }
    hide Held;
    assert Waiting(s) == Waiting(r) + HeldBy(f);
    hide HeldBy;
    Taken(s.written, Visible(s.objects, s.manifests), Waiting(r), Held(s.running), s.abandoned, HeldBy(f));
  }

  lemma PutOkAccounted(s: Sink, i: nat)
    requires Pub(s) && Accounted(s) && Enabled(s, PutOk(i))
    ensures Accounted(Apply(s, PutOk(i)))
  {
    hide Visible, PartsRows, Units, Pub, Held, HeldBy;
    var f := s.running[i];
    var u := Units(f)[f.puts];
    BatchIn(s, i);
    UnitPath(f, f.puts);
    InvisiblePut(s, u.path, u.rows);
    HeldReplaced(s.running, i, f.(puts := f.puts + 1));
  }

  lemma HeldReplaced(fs: seq<Flushing>, i: nat, g: Flushing)
    requires i < |fs| && g == fs[i].(puts := g.puts)
    ensures Held(fs[i := g]) == Held(fs)
  {
    hide Held;
    HeldWithout(fs, i);
    HeldWithout(fs[i := g], i);
    assert Without(fs[i := g], i) == Without(fs, i);
  }

  lemma PutFailAccounted(s: Sink, i: nat, stored: bool)
    requires Pub(s) && Accounted(s) && Enabled(s, PutFail(i, stored))
    ensures Accounted(Apply(s, PutFail(i, stored)))
  {
    hide Visible, PartsRows, Units, Pub, Held, HeldBy, Restore, Without, PartRows;
    var f := s.running[i];
    var u := Units(f)[f.puts];
    var r := Fail(s, i, stored);
    BatchIn(s, i);
    UnitPath(f, f.puts);
    if stored { InvisiblePut(s, u.path, u.rows); }
    HeldWithout(s.running, i);
    ReturnedHeld(f, f.puts);
    FailShape(s, i, stored);
    assert Waiting(r) == Waiting(s) + Returned(u) by {
      Shuffle(PartsRows(s.pending), multiset(s.outcomes), multiset(s.rewards), Returned(u));
      if u.back.BackPart? {
        RestoreRows(s.pending, u.back.p);
      } else if u.back.BackOutcomes? {
        assert multiset(u.rows + s.outcomes) == multiset(u.rows) + multiset(s.outcomes);
      } else {
        assert multiset(u.rows + s.rewards) == multiset(u.rows) + multiset(s.rewards);
      }
    }
    Returning(s.written, Visible(s.objects, s.manifests), Waiting(s), Held(r.running), s.abandoned, HeldBy(f),
              Returned(u));
  }

  lemma PublishAccounted(s: Sink, i: nat)
    requires Pub(s) && Accounted(s) && i < |s.running| && s.running[i].puts == |Units(s.running[i])|
    ensures Accounted(Publish(s, i))
  {
    hide Visible, PartsRows, Units, Pub, Held, HeldBy, Without, FilesRows;
    var f := s.running[i];
    BatchIn(s, i);
    HeldWithout(s.running, i);
    assert Units(f)[..f.puts] == Units(f);
    FilesOf(s.objects, Units(f));
    UnitsAreHeld(f);
    VisibleSnoc(s.objects, s.manifests, ManifestOf(f));
    Moved(s.written, Visible(s.objects, s.manifests), Waiting(s), Held(Without(s.running, i)), s.abandoned, HeldBy(f));
  }

  lemma StepAccounted(s: Sink, ev: Event)
    requires Pub(s) && Accounted(s) && Enabled(s, ev)
    ensures Accounted(Apply(s, ev))
  {
    match ev
    case Write(key, ep, steps, size, now) => WriteAccounted(s, key, ep, steps, size, now);
    case WriteOutcomes(rows) => OutcomesAccounted(s, rows);
    case WriteRewards(rows) => OutcomesAccounted(s, rows);
    case Start(_, _, _, _, _) => StartAccounted(s, ev);
    case PutOk(i) => PutOkAccounted(s, i);
    case PutFail(i, stored) => PutFailAccounted(s, i, stored);
    case ManifestOk(i) => PublishAccounted(s, i);
    case ManifestFail(i, stored) =>
      if stored {
        PublishAccounted(s, i);
      } else {
        HeldWithout(s.running, i);
        hide Visible, PartsRows, Held, HeldBy, Without, Pub;
        Moved(s.written, Visible(s.objects, s.manifests), Waiting(s), Held(Without(s.running, i)), s.abandoned,
              HeldBy(s.running[i]));
      }
  }

  lemma StartState()
    ensures Pub(EMPTY_SINK) && Accounted(EMPTY_SINK)
  {
  }

  lemma {:induction false} RunKeeps(states: seq<Sink>, evs: seq<Event>, i: nat)
    requires IsRun(states, evs) && i < |states|
    ensures Pub(states[i]) && Accounted(states[i])
  {
    hide Pub, Accounted, Apply, Enabled;
    if i == 0 {
      StartState();
    } else {
      RunKeeps(states, evs, i - 1);
      StepPub(states[i - 1], evs[i - 1]);
      StepAccounted(states[i - 1], evs[i - 1]);
    }
  }

  /** Exact accounting: under any interleaving of writes and flushes with failing puts, the
      rows written are the rows visible, waiting, held by running flushes and abandoned, each
      once - so no row is ever visible more often than it was written. */
  lemma RowAccounting(states: seq<Sink>, evs: seq<Event>, i: nat)
    requires IsRun(states, evs) && i < |states|
    ensures var s := states[i];
            && s.written == Visible(s.objects, s.manifests) + Waiting(s) + Held(s.running) + s.abandoned
            && Visible(s.objects, s.manifests) <= s.written
  {
    hide Pub, Apply, Enabled, Visible, Held, PartsRows;
    RunKeeps(states, evs, i);
    var s := states[i];
    Part3(Visible(s.objects, s.manifests), Waiting(s), Held(s.running), s.abandoned);
  }

  lemma Part3(v: multiset<Row>, p: multiset<Row>, h: multiset<Row>, a: multiset<Row>)
    ensures v <= v + p + h + a
  {
  }

  // ---------- all or nothing ----------

  /** m is complete: every object it lists exists with the number of rows it says, and its
      totals are the sums over the objects of each table. */
  ghost predicate Complete(objects: map<Path, seq<Row>>, m: Manifest)
  {
    && (forall k | 0 <= k < |m.files| :: m.files[k].path in objects && |objects[m.files[k].path]| == m.files[k].rows)
    && (forall t: Table :: t in m.counts && m.counts[t] == TableRows(m.files, t))
  }

  /** m shows the rows of partition p, episodes and steps alike. */
  ghost predicate Shows(objects: map<Path, seq<Row>>, m: Manifest, p: Part)
  {
    && Lists(objects, m, Path(Episodes, p.key, m.batch), p.episodes)
    && (p.steps != [] ==> Lists(objects, m, Path(Steps, p.key, m.batch), p.steps))
  }

  ghost predicate Lists(objects: map<Path, seq<Row>>, m: Manifest, path: Path, rows: seq<Row>)
  {
    path in objects && objects[path] == rows && FileRef(path, |rows|) in m.files
  }

  lemma {:induction false} DueListed(batch: string, ps: seq<Part>, p: Part)
    requires p in ps
    ensures Unit(Path(Episodes, p.key, batch), p.episodes, BackPart(p)) in DueUnits(batch, ps)
    ensures p.steps != [] ==> Unit(Path(Steps, p.key, batch), p.steps, BackPart(p)) in DueUnits(batch, ps)
  {
    if p == ps[0] {
      var h := PartUnits(batch, p);
      assert h[0] in h && (p.steps != [] ==> h[1] in h);
    } else {
      DueListed(batch, ps[1..], p);
    }
  }

  lemma UnitListed(objects: map<Path, seq<Row>>, f: Flushing, u: Unit)
    requires Stored(objects, Units(f)) && u in Units(f)
    ensures Lists(objects, ManifestOf(f), u.path, u.rows)
  {
    hide Units;
    var k :| 0 <= k < |Units(f)| && Units(f)[k] == u;
    assert ManifestOf(f).files[k] == FileRef(u.path, |u.rows|);
  }

  lemma PartShown(objects: map<Path, seq<Row>>, f: Flushing, p: Part)
    requires Stored(objects, Units(f)) && p in f.due
    ensures Shows(objects, ManifestOf(f), p)
  {
    DueListed(f.batch, f.due, p);
    var d := DueUnits(f.batch, f.due);
    assert forall u | u in d :: u in Units(f);
    hide Units, DueUnits;
    UnitListed(objects, f, Unit(Path(Episodes, p.key, f.batch), p.episodes, BackPart(p)));
    if p.steps != [] { UnitListed(objects, f, Unit(Path(Steps, p.key, f.batch), p.steps, BackPart(p))); }
  }

  /** All or nothing: in every reachable state every manifest is complete, shows both tables of
      each partition its flush took, and belongs to no flush that failed a data put. */
  lemma AllOrNothing(states: seq<Sink>, evs: seq<Event>, i: nat, k: nat)
    requires IsRun(states, evs) && i < |states| && k < |states[i].manifests|
    ensures var s := states[i]; var m := s.manifests[k];
            && Complete(s.objects, m)
            && k < |s.published| && (forall p | p in s.published[k].due :: Shows(s.objects, m, p))
            && m.batch !in s.failed
  {
    hide Apply, Enabled, Accounted, Units, Refs, CountOf, RunningOk;
    RunKeeps(states, evs, i);
    var s := states[i];
    var f := s.published[k];
    assert f in s.published && s.manifests[k] == ManifestOf(f);
    ManifestComplete(s.objects, f);
    forall p | p in f.due
      ensures Shows(s.objects, ManifestOf(f), p)
    {
      PartShown(s.objects, f, p);
    }
  }

  lemma ManifestComplete(objects: map<Path, seq<Row>>, f: Flushing)
    requires Stored(objects, Units(f))
    ensures Complete(objects, ManifestOf(f))
  {
    hide Units;
    var m := ManifestOf(f);
    forall t: Table
      ensures t in m.counts && m.counts[t] == TableRows(m.files, t)
    {
      CountsAgree(Units(f), t);
      match t { case Episodes => case Steps => case Outcomes => case Rewards => }
    }
  }

  // ---------- which failures abandon rows ----------

  /** The flush holds nothing but what the failed put gives back. */
  predicate Alone(f: Flushing, u: Unit)
  {
    match u.back
    case BackPart(p) => f.due == [p] && f.outcomes == [] && f.rewards == []
    case BackOutcomes => f.due == [] && f.rewards == []
    case BackRewards => f.due == [] && f.outcomes == []
  }

  /** A failed data put abandons nothing if and only if the flush held nothing else. A failed
      manifest put always abandons the batch. */
  lemma AbandonedExactly(s: Sink, i: nat, stored: bool)
    requires Pub(s) && Enabled(s, PutFail(i, stored))
    ensures var f := s.running[i];
            Apply(s, PutFail(i, stored)).abandoned == s.abandoned <==> Alone(f, Units(f)[f.puts])
  {
    hide Units, Pub, Restore, Without;
    var f := s.running[i];
    var u := Units(f)[f.puts];
    BatchIn(s, i);
    ReturnedHeld(f, f.puts);
    FailAbandons(s, i, stored);
    Unchanged(s.abandoned, HeldBy(f), Returned(u));
    HeldIsReturned(f, u);
  }

  lemma FailAbandons(s: Sink, i: nat, stored: bool)
    requires Enabled(s, PutFail(i, stored))
    ensures var f := s.running[i];
            Apply(s, PutFail(i, stored)).abandoned == s.abandoned + (HeldBy(f) - Returned(Units(f)[f.puts]))
  {
  }

  lemma Unchanged(a: multiset<Row>, x: multiset<Row>, y: multiset<Row>)
    requires y <= x
    ensures a + (x - y) == a <==> x == y
  {
    if a + (x - y) == a { assert |a + (x - y)| == |a|; assert |x - y| == 0; assert x == y + (x - y); }
    if x == y { assert x - y == multiset{}; }
  }

  lemma HeldIsReturned(f: Flushing, u: Unit)
    requires PartsOk(f.due)
    requires u.back.BackPart? ==> u.back.p in f.due
    requires (u.back.BackOutcomes? ==> u.rows == f.outcomes) && (u.back.BackRewards? ==> u.rows == f.rewards)
    ensures HeldBy(f) == Returned(u) <==> Alone(f, u)
  {
    match u.back
    case BackPart(p) =>
      OnePart(f.due, p);
      if f.outcomes != [] { assert f.outcomes[0] in multiset(f.outcomes); }
      if f.rewards != [] { assert f.rewards[0] in multiset(f.rewards); }
      Sizes(PartsRows(f.due), multiset(f.outcomes), multiset(f.rewards), PartRows(p));
    case BackOutcomes =>
      NoParts(f.due);
      Sizes(multiset(f.outcomes), PartsRows(f.due), multiset(f.rewards), multiset(u.rows));
      assert PartsRows(f.due) + multiset(f.outcomes) + multiset(f.rewards)
          == multiset(f.outcomes) + PartsRows(f.due) + multiset(f.rewards);
    case BackRewards =>
      NoParts(f.due);
      Sizes(multiset(f.rewards), PartsRows(f.due), multiset(f.outcomes), multiset(u.rows));
      assert PartsRows(f.due) + multiset(f.outcomes) + multiset(f.rewards)
          == multiset(f.rewards) + PartsRows(f.due) + multiset(f.outcomes);
  }

  lemma Sizes(a: multiset<Row>, b: multiset<Row>, c: multiset<Row>, x: multiset<Row>)
    requires x <= a
    ensures a + b + c == x <==> a == x && |b| == 0 && |c| == 0
  {
    assert a == x + (a - x);
    assert |a + b + c| == |x| + |a - x| + |b| + |c|;
    if a == x && |b| == 0 && |c| == 0 { assert b == multiset{} && c == multiset{}; }
  }

  lemma {:induction false} NoParts(ps: seq<Part>)
    requires PartsOk(ps)
    ensures |PartsRows(ps)| == 0 <==> ps == []
  {
    if ps != [] {
      assert ps[0] in ps;
      PartIn(ps, ps[0]);
      assert ps[0].episodes[0] in PartRows(ps[0]);
      assert ps[0].episodes[0] in PartsRows(ps);
    }
  }

  lemma {:induction false} OnePart(ps: seq<Part>, p: Part)
    requires PartsOk(ps) && p in ps
    ensures PartRows(p) <= PartsRows(ps) && (PartsRows(ps) == PartRows(p) <==> ps == [p])
  {
    hide PartRows, PartsRows, PartsOk;
    PartIn(ps, p);
    var i :| 0 <= i < |ps| && ps[i] == p;
    var rest := ps[..i] + ps[i + 1..];
    RowsAt(ps, i);
    var x, y := PartRows(p), PartsRows(rest);
    assert |x + y| == |x| + |y|;
    if |y| == 0 { assert y == multiset{}; }
    SubOk(ps, i);
    NoParts(rest);
    assert rest == [] ==> |ps| == 1;
    assert |ps| == 1 ==> rest == [];
  }

  lemma {:induction false} RowsAt(ps: seq<Part>, i: nat)
    requires i < |ps|
    ensures PartsRows(ps) == PartRows(ps[i]) + PartsRows(ps[..i] + ps[i + 1..])
  {
    hide PartRows;
    var p, tail := ps[i], ps[i + 1..];
    assert ps == ps[..i] + ([p] + tail);
    PartsConcat(ps[..i], [p] + tail);
    PartsConcat(ps[..i], tail);
    assert ([p] + tail)[1..] == tail;
    assert PartsRows([p] + tail) == PartRows(p) + PartsRows(tail);
    hide PartsRows;
    Shuffle(PartsRows(ps[..i]), PartsRows(tail), multiset{}, PartRows(p));
  }

  lemma SubOk(ps: seq<Part>, i: nat)
    requires PartsOk(ps) && i < |ps|
    ensures PartsOk(ps[..i] + ps[i + 1..])
  {
    var rest := ps[..i] + ps[i + 1..];
    forall a, b | 0 <= a < b < |rest|
      ensures PartKey(rest[a]) != PartKey(rest[b])
    {
      var a', b' := if a < i then a else a + 1, if b < i then b else b + 1;
      assert PartKey(ps[a']) != PartKey(ps[b']);
    }
    assert forall p | p in rest :: p in ps;
  }

  /** The event loses nothing: it is no failure, or a put that fails for a flush holding
      nothing else, or a manifest put that was stored after all. */
  ghost predicate Harmless(s: Sink, ev: Event)
  {
    match ev
    case PutFail(i, _) => i < |s.running| && s.running[i].puts < |Units(s.running[i])|
        && Alone(s.running[i], Units(s.running[i])[s.running[i].puts])
    case ManifestFail(_, stored) => stored
    case _ => true
  }

  /** Rows are abandoned in a run if and only if some failure in it was not of that kind. */
  lemma {:induction false} NothingAbandoned(states: seq<Sink>, evs: seq<Event>, i: nat)
    requires IsRun(states, evs) && i < |states|
    ensures states[i].abandoned == multiset{} <==> forall k | 0 <= k < i :: Harmless(states[k], evs[k])
  {
    hide Harmless, Enabled, Apply, Pub, Accounted;
    if i > 0 {
      NothingAbandoned(states, evs, i - 1);
      var s, ev := states[i - 1], evs[i - 1];
      RunKeeps(states, evs, i - 1);
      assert Enabled(s, ev) && states[i] == Apply(s, ev);
      StepAbandons(s, ev);
      assert (forall k | 0 <= k < i :: Harmless(states[k], evs[k]))
        <==> (forall k | 0 <= k < i - 1 :: Harmless(states[k], evs[k])) && Harmless(s, ev);
    }
  }

  lemma StepAbandons(s: Sink, ev: Event)
    requires Pub(s) && Enabled(s, ev)
    ensures var t := Apply(s, ev);
            && s.abandoned <= t.abandoned && (t.abandoned == s.abandoned <==> Harmless(s, ev))
  {
    hide Units, Restore, Without, AddTo, ManifestOf, HeldBy, Alone;
    match ev
    case PutFail(i, stored) =>
      AbandonedExactly(s, i, stored);
      FailAbandons(s, i, stored);
    case ManifestFail(i, stored) =>
      BatchIn(s, i);
      if !stored {
        var held := HeldBy(s.running[i]);
        Unchanged(s.abandoned, held, multiset{});
        BagAssoc(s.abandoned, s.abandoned, held - multiset{});
        assert held - multiset{} == held;
      }
    case _ =>
  }
}
