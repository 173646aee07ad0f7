/** The lake sink as the program runs it: buffered partitions, the flush that writes data
    objects first and the manifest last, and the restore on failure. Every call is a path of
    the step system. */
module SinkImpl {
  import opened Basics
  import opened Sorting
  import opened LakeSink
  import L = LakeSink

  /** How a put ends: stored, not stored, or stored although an error came back. */
  datatype PutResult = Done | Refused | Unclear

  datatype Item = Item(key: string, ep: Row, steps: seq<Row>, size: nat)

  ghost predicate IsPath(states: seq<L.Sink>, evs: seq<Event>)
  {
    && |states| == |evs| + 1
    && forall i | 0 <= i < |evs| :: Enabled(states[i], evs[i]) && states[i + 1] == Apply(states[i], evs[i])
  }

  ghost predicate Leads(states: seq<L.Sink>, evs: seq<Event>, cur: L.Sink)
  {
    IsPath(states, evs) && states[|evs|] == cur
  }

  function Writes(items: seq<Item>, now: int): (r: seq<Event>)
  {
    seq(|items|, i requires 0 <= i < |items| =>
      Event.Write(items[i].key, items[i].ep, items[i].steps, items[i].size, now))
  }

  function ItemsRows(items: seq<Item>): multiset<Row>
  {
    if items == [] then multiset{}
    else ItemsRows(items[..|items| - 1]) + multiset{items[|items| - 1].ep} + multiset(items[|items| - 1].steps)
  }

  lemma WritesSnoc(items: seq<Item>, i: nat, now: int, evs: seq<Event>, w: multiset<Row>)
    requires i < |items|
    ensures var it := items[i];
            && evs + Writes(items[..i + 1], now)
               == evs + Writes(items[..i], now) + [Event.Write(it.key, it.ep, it.steps, it.size, now)]
            && w + ItemsRows(items[..i]) + multiset{it.ep} + multiset(it.steps) == w + ItemsRows(items[..i + 1])
  {
    assert items[..i + 1][..i] == items[..i];
  }

  lemma {:induction false} WriteStep(s: L.Sink, it: Item, now: int)
    ensures var ev := Event.Write(it.key, it.ep, it.steps, it.size, now);
            Enabled(s, ev) && Apply(s, ev) == s.(pending := AddTo(s.pending, it.key, it.ep, it.steps, it.size, now),
                                                 written := s.written + multiset{it.ep} + multiset(it.steps))
  {
  }

  predicate KeyLe(a: Part, b: Part) { a.key == b.key || StrLess(a.key, b.key) }

  class Sink {
    const targetFileBytes: nat
    const rollInterval: int
    var pending: seq<Part>
    var outcomes: seq<Row>
    var outcomesSince: int
    var rewards: seq<Row>
    /** The object store. */
    var objects: map<Path, seq<Row>>
    var manifests: seq<Manifest>
    var filesWritten: nat
    var batches: nat

    /** The state of the step system, and the path that led to it. */
    ghost var cur: L.Sink
    ghost var states: seq<L.Sink>
    ghost var evs: seq<Event>

    constructor (targetFileBytes: int, rollInterval: int)
      ensures Valid() && cur == EMPTY_SINK && states == [EMPTY_SINK] && filesWritten == batches == 0
      ensures this.targetFileBytes == (if targetFileBytes > 0 then targetFileBytes else 268435456)
      ensures this.rollInterval == (if rollInterval > 0 then rollInterval else 900_000_000_000)
    {
      this.targetFileBytes := if targetFileBytes <= 0 then 268435456 else targetFileBytes;
      this.rollInterval := if rollInterval <= 0 then 900_000_000_000 else rollInterval;
      pending, outcomes, outcomesSince, rewards, objects, manifests := [], [], 0, [], map[], [];
      filesWritten, batches := 0, 0;
      cur, states, evs := EMPTY_SINK, [EMPTY_SINK], [];
    }

    ghost predicate Valid()
      reads this
    {
      && Leads(states, evs, cur)
      && cur.pending == pending && cur.outcomes == outcomes && cur.rewards == rewards
      && cur.objects == objects && cur.manifests == manifests
    }

    ghost method Note(ev: Event)
      requires Leads(states, evs, cur) && Enabled(cur, ev)
      modifies `states, `evs, `cur
      ensures Leads(states, evs, cur) && old(states) <= states && cur == Apply(old(cur), ev) && evs == old(evs) + [ev]
    {
      hide Enabled, Apply;
      cur := Apply(cur, ev);
      states := states + [cur];
      evs := evs + [ev];
    }

    /** Buffers episodes in their partitions. */
    method Write(items: seq<Item>, now: int)
      requires Valid()
      modifies this
      ensures Valid() && old(states) <= states && evs == old(evs) + Writes(items, now)
      ensures manifests == old(manifests) && objects == old(objects) && outcomes == old(outcomes)
              && rewards == old(rewards)
      ensures cur.running == old(cur.running) && cur.abandoned == old(cur.abandoned)
      ensures cur.written == old(cur.written) + ItemsRows(items)
    {
      assert Writes(items[..0], now) == [] && ItemsRows(items[..0]) == multiset{};
      hide Leads, AddTo, Apply, Enabled, Writes, ItemsRows;
      var i := 0;
      while i < |items|
        invariant i <= |items| && Valid() && old(states) <= states && evs == old(evs) + Writes(items[..i], now)
        invariant manifests == old(manifests) && objects == old(objects) && outcomes == old(outcomes)
                  && rewards == old(rewards)
        invariant cur.running == old(cur.running) && cur.abandoned == old(cur.abandoned)
        invariant cur.written == old(cur.written) + ItemsRows(items[..i])
      {
        var it := items[i];
        WriteStep(cur, it, now);
        pending := AddTo(pending, it.key, it.ep, it.steps, it.size, now);
        Note(Event.Write(it.key, it.ep, it.steps, it.size, now));
        WritesSnoc(items, i, now, old(evs), old(cur.written));
        i := i + 1;
      }
      assert items[..i] == items;
    }

    /** Outcomes wait for the next flush; the clock of their roll interval starts with the first. */
    method WriteOutcomes(rows: seq<Row>, now: int)
      requires Valid()
      modifies this
      ensures Valid() && old(states) <= states && evs == old(evs) + [Event.WriteOutcomes(rows)]
      ensures outcomes == old(outcomes) + rows
              && outcomesSince == (if old(outcomes) == [] then now else old(outcomesSince))
      ensures pending == old(pending) && rewards == old(rewards) && manifests == old(manifests)
    {
      hide Leads;
      if |outcomes| == 0 { outcomesSince := now; }
      outcomes := outcomes + rows;
      Note(Event.WriteOutcomes(rows));
    }

    method WriteRewards(rows: seq<Row>)
      requires Valid()
      modifies this
      ensures Valid() && old(states) <= states && evs == old(evs) + [Event.WriteRewards(rows)]
      ensures rewards == old(rewards) + rows
      ensures pending == old(pending) && outcomes == old(outcomes) && manifests == old(manifests)
    {
      hide Leads;
      rewards := rewards + rows;
      Note(Event.WriteRewards(rows));
    }

    /** Splits the pending partitions: a partition waits until it has reached the size target or
        the roll interval, and no longer. */
    method TakeDue(force: bool, now: int) returns (due: seq<Part>, rest: seq<Part>)
      ensures multiset(due + rest) == multiset(pending)
      ensures forall p | p in due :: force || targetFileBytes <= p.bytes || p.firstSeen + rollInterval <= now
      ensures forall p | p in rest :: !force && p.bytes < targetFileBytes && now < p.firstSeen + rollInterval
    {
      due, rest := [], [];
      var i := 0;
      while i < |pending|
        invariant i <= |pending|
        invariant multiset(due + rest) == multiset(pending[..i])
        invariant forall p | p in due :: force || targetFileBytes <= p.bytes || p.firstSeen + rollInterval <= now
        invariant forall p | p in rest :: !force && p.bytes < targetFileBytes && now < p.firstSeen + rollInterval
      {
        var p := pending[i];
        assert pending[..i + 1] == pending[..i] + [p];
        if force || p.bytes >= targetFileBytes || now - p.firstSeen >= rollInterval {
          assert multiset(due + [p] + rest) == multiset(due + rest) + multiset{p};
          due := due + [p];
        } else {
          assert multiset(due + (rest + [p])) == multiset(due + rest) + multiset{p};
          rest := rest + [p];
        }
        i := i + 1;
      }
      assert pending[..i] == pending;
    }

    /** Returns a partition's rows to the pending set. */
    method RestoreLocked(p: Part)
      modifies `pending
      ensures pending == Restore(old(pending), p)
    {
      var i := 0;
      while i < |pending| && pending[i].key != p.key
        invariant i <= |pending|
        invariant pending[..i] + Restore(pending[i..], p) == Restore(pending, p)
      {
        assert pending[i..][0] == pending[i] && pending[i..][1..] == pending[i + 1..];
        assert pending[..i] + ([pending[i]] + Restore(pending[i + 1..], p))
            == pending[..i + 1] + Restore(pending[i + 1..], p);
        i := i + 1;
      }
      if i < |pending| {
        assert pending[i..][0] == pending[i] && pending[i..][1..] == pending[i + 1..];
        assert Restore(pending[i..], p) == [Joined(pending[i], p)] + pending[i + 1..];
        pending := pending[..i] + [Joined(pending[i], p)] + pending[i + 1..];
      } else {
        assert pending[i..] == [];
        pending := pending + [p];
      }
    }

    /** Writes the next data object of flush f, whatever other flushes are in progress. On failure
        the rows it belongs to go back, the flush is over and nothing has been published. */
    method PutOne(u: Unit, r: PutResult, ghost others: seq<Flushing>, ghost f: Flushing) returns (ok: bool)
      requires Valid() && cur.running == others + [f] && f.puts < |Units(f)| && Units(f)[f.puts] == u
      modifies this
      ensures outcomesSince == old(outcomesSince)
      ensures Valid() && old(states) <= states && ok == r.Done? && cur.written == old(cur.written)
      ensures manifests == old(manifests) && batches == old(batches)
      ensures if ok then
                && cur.running == others + [f.(puts := f.puts + 1)] && cur.abandoned == old(cur.abandoned)
                && pending == old(pending) && outcomes == old(outcomes) && rewards == old(rewards)
              else cur.running == others && f.batch in cur.failed
    {
      hide Leads, Units, Restore, Enabled, Apply;
      PutIs(cur, others, f, r.Unclear?);
      ok := r.Done?;
      if r != Refused { objects := objects[u.path := u.rows]; }
      if ok {
        Note(PutOk(|others|));
      } else {
        match u.back {
          case BackPart(p) => RestoreLocked(p);
          case BackOutcomes => outcomes := u.rows + outcomes;
          case BackRewards => rewards := u.rows + rewards;
        }
        Note(PutFail(|others|, r.Unclear?));
      }
    }

    /** Writes every due partition's objects, in order, and widens the range by its episodes. */
    method PutParts(batch: string, due: seq<Part>, put: nat -> PutResult, ghost others: seq<Flushing>,
                    ghost f: Flushing)
      returns (ok: bool, files: seq<FileRef>, range: Range, calls: nat)
      requires Valid() && cur.running == others + [f] && f.batch == batch && f.due == due && f.puts == 0
      modifies this
      ensures outcomesSince == old(outcomesSince)
      ensures Valid() && old(states) <= states && manifests == old(manifests) && batches == old(batches)
      ensures cur.written == old(cur.written)
      ensures if ok then
                && cur.running == others + [f.(puts := |DueUnits(batch, due)|)]
                && files == Refs(DueUnits(batch, due)) && range == DueRange(due)
                && pending == old(pending) && outcomes == old(outcomes) && rewards == old(rewards)
                && cur.abandoned == old(cur.abandoned)
              else cur.running == others && calls > 0 && !put(calls - 1).Done?
    {
      hide Leads, Units, DueUnits, DueRange, WidenAll, Enabled, Apply;
      files, calls, range := [], 0, Range(0, 0);
      var j := 0;
      DueStart(batch, due);
      while j < |due|
        invariant j <= |due| && Valid() && old(states) <= states && cur.written == old(cur.written)
        invariant outcomesSince == old(outcomesSince)
        invariant manifests == old(manifests) && batches == old(batches)
        invariant cur.running == others + [f.(puts := |DueUnits(batch, due[..j])|)]
        invariant files == Refs(DueUnits(batch, due[..j])) && range == DueRange(due[..j])
        invariant pending == old(pending) && outcomes == old(outcomes) && rewards == old(rewards)
        invariant cur.abandoned == old(cur.abandoned)
      {
        var p := due[j];
        ghost var g := f.(puts := |DueUnits(batch, due[..j])|);
        DueStep(g, j);
        DueRangeStep(due, j);
        var e := Unit(Path(Episodes, p.key, batch), p.episodes, BackPart(p));
        ok := PutOne(e, put(calls), others, g);
        calls := calls + 1;
        if !ok { return; }
        files := files + [FileRef(e.path, |p.episodes|)];
        range := Span(range, p.episodes);
        if |p.steps| > 0 {
          var t := Unit(Path(Steps, p.key, batch), p.steps, BackPart(p));
          ok := PutOne(t, put(calls), others, g.(puts := g.puts + 1));
          calls := calls + 1;
          if !ok { return; }
          files := files + [FileRef(t.path, |p.steps|)];
        }
        j := j + 1;
      }
      assert due[..j] == due;
      ok := true;
    }

    method SortedDue(force: bool, now: int) returns (due: seq<Part>, rest: seq<Part>)
      ensures multiset(due + rest) == multiset(pending) && Sorted(KeyLe, due)
      ensures (due == [] && rest == [] ==> pending == []) && (force ==> rest == [])
      ensures forall p | p in due :: force || targetFileBytes <= p.bytes || p.firstSeen + rollInterval <= now
      ensures forall p | p in rest :: !force && p.bytes < targetFileBytes && now < p.firstSeen + rollInterval
      ensures due == [] ==> forall p | p in pending ::
                !force && p.bytes < targetFileBytes && now < p.firstSeen + rollInterval
    {
      hide Sorted, Sort;
      var d;
      d, rest := TakeDue(force, now);
      if rest != [] { assert rest[0] in rest; }
      SplitFacts(d, rest, pending);
      SortKeeps(d, rest);
      SortMembers(KeyLe, d);
      due := Sort(KeyLe, d);
    }

    /** Takes what is due out of the pending state, sorted by partition. */
    method Take(force: bool, now: int, batch: string) returns (any: bool, due: seq<Part>, oc: seq<Row>, rw: seq<Row>)
      requires Valid() && batch !in cur.used
      modifies this
      ensures Valid() && old(states) <= states && manifests == old(manifests) && batches == old(batches)
      ensures cur.abandoned == old(cur.abandoned) && cur.written == old(cur.written)
      ensures cur.running == old(cur.running) + if any then [Flushing(batch, due, oc, rw, 0)] else []
      ensures !any ==> pending == old(pending) && outcomes == old(outcomes) && rewards == old(rewards)
      ensures force ==> pending == [] && outcomes == [] && rewards == []
      ensures Sorted(KeyLe, due) && outcomesSince == old(outcomesSince)
      ensures forall p | p in due :: force || targetFileBytes <= p.bytes || p.firstSeen + rollInterval <= now
      ensures forall p | p in pending :: p.bytes < targetFileBytes && now < p.firstSeen + rollInterval
      ensures oc == [] || oc == old(outcomes)
      ensures oc != [] ==> force || 50000 <= |oc| || old(outcomesSince) + rollInterval <= now
      ensures outcomes == [] || (outcomes == old(outcomes) && |outcomes| < 50000 && now < outcomesSince + rollInterval)
      ensures if force then rw == old(rewards) else rw == [] && rewards == old(rewards)
    {
      hide Leads, Sorted, Enabled, Apply;
      var rest;
      due, rest := SortedDue(force, now);
      oc := if |outcomes| > 0 && (force || |outcomes| >= 50000 || now - outcomesSince >= rollInterval)
            then outcomes else [];
      rw := if force then rewards else [];
      any := |due| > 0 || |oc| > 0 || |rw| > 0;
      if any {
        StartIs(cur, batch, due, rest, oc != [], rw != []);
        pending := rest;
        Note(Start(batch, due, rest, oc != [], rw != []));
        if |oc| > 0 { outcomes := []; }
        if |rw| > 0 { rewards := []; }
      }
    }

    /** Writes the outcomes and then the rewards, when there are any, and completes the range. */
    method PutTail(batch: string, oc: seq<Row>, rw: seq<Row>, put: nat -> PutResult, from: nat, sofar: Range,
                   ghost others: seq<Flushing>, ghost f: Flushing)
      returns (ok: bool, files: seq<FileRef>, range: Range)
      requires Valid() && cur.running == others + [f] && f.batch == batch && f.outcomes == oc && f.rewards == rw
      requires f.puts == |DueUnits(batch, f.due)| && sofar == DueRange(f.due)
      modifies this
      ensures outcomesSince == old(outcomesSince)
      ensures Valid() && old(states) <= states && manifests == old(manifests) && batches == old(batches)
      ensures cur.written == old(cur.written)
      ensures if ok then
                && cur.running == others + [f.(puts := |Units(f)|)] && range == RangeOf(f)
                && Refs(DueUnits(batch, f.due)) + files == Refs(Units(f))
                && pending == old(pending) && outcomes == old(outcomes) && rewards == old(rewards)
                && cur.abandoned == old(cur.abandoned)
              else cur.running == others && (!put(from).Done? || !put(from + 1).Done?)
    {
      hide Leads, Units, DueUnits, Enabled, Apply, Refs, DueRange;
      files, range := [], sofar;
      var calls := from;
      ghost var g := f;
      UnitsAre(f);
      if |oc| > 0 {
        var u := Unit(Path(Outcomes, "", batch), oc, BackOutcomes);
        ok := PutOne(u, put(calls), others, g);
        calls := calls + 1;
        if !ok { return; }
        g := g.(puts := g.puts + 1);
        files := files + [FileRef(u.path, |oc|)];
        range := Span(range, oc);
      }
      if |rw| > 0 {
        var u := Unit(Path(Rewards, "", batch), rw, BackRewards);
        ok := PutOne(u, put(calls), others, g);
        if !ok { return; }
        files := files + [FileRef(u.path, |rw|)];
        if range.min == 0 { range := Range(rw[0].at, rw[0].at); }
      }
      ok := true;
    }

    /** The manifest goes last; it is what makes the batch real to a reader. */
    method WriteManifest(batch: string, files: seq<FileRef>, range: Range, r: PutResult,
                         ghost others: seq<Flushing>, ghost f: Flushing)
      returns (err: bool)
      requires Valid() && cur.running == others + [f]
      requires f.batch == batch && f.puts == |Units(f)| && files == Refs(Units(f)) && range == RangeOf(f)
      modifies this
      ensures outcomesSince == old(outcomesSince)
      ensures Valid() && old(states) <= states && cur.running == others && err == !r.Done?
      ensures pending == old(pending) && outcomes == old(outcomes) && rewards == old(rewards)
      ensures manifests == if r == Refused then old(manifests) else old(manifests) + [ManifestOf(f)]
      ensures batches == old(batches) + (if err then 0 else 1) && cur.written == old(cur.written)
      ensures !err ==> cur.abandoned == old(cur.abandoned)
    {
      hide Leads, Units, DueUnits, ManifestOf, Enabled, Apply, RangeOf;
      var counts := CountRows(files);
      ManifestIs(f, files, counts);
      ManifestStep(cur, others, f, r.Unclear?);
      if r != Refused { manifests := manifests + [Manifest(batch, range, files, counts)]; }
      err := !r.Done?;
      if err {
        Note(ManifestFail(|others|, r.Unclear?));
      } else {
        Note(ManifestOk(|others|));
        filesWritten := filesWritten + |files|;
        batches := batches + 1;
      }
    }

    /** Flushes what is due, or everything when forced: data objects first, the manifest last,
        whatever other flushes are in progress. Success publishes at most one batch, with
        everything it took, and abandons nothing; a failure publishes nothing unless the manifest
        was stored although an error came back. */
    method Flush(force: bool, now: int, batch: string, put: nat -> PutResult, manifestPut: PutResult)
      returns (err: bool)
      requires Valid() && batch !in cur.used
      modifies this
      ensures Valid() && old(states) <= states && cur.running == old(cur.running) && cur.written == old(cur.written)
      ensures !err && batches == old(batches) ==> manifests == old(manifests) && pending == old(pending)
      ensures !err && batches != old(batches)
              ==> |manifests| == |old(manifests)| + 1 && old(manifests) <= manifests
                  && manifests[|old(manifests)|].batch == batch
      ensures !err ==> cur.abandoned == old(cur.abandoned)
      ensures !err ==> forall p | p in pending :: p.bytes < targetFileBytes && now < p.firstSeen + rollInterval
      ensures !err ==> outcomes == [] || (|outcomes| < 50000 && now < outcomesSince + rollInterval)
      ensures !err && force ==> pending == [] && outcomes == [] && rewards == []
      ensures err ==> batches == old(batches) && (manifests == old(manifests) || manifestPut.Unclear?)
      ensures err ==> !manifestPut.Done? || exists k: nat :: !put(k).Done?
    {
      hide Valid, Leads, Units, DueUnits, Enabled, Apply, Refs, Sorted, RangeOf, DueRange;
      ghost var others := cur.running;
      var any, due, oc, rw := Take(force, now, batch);
      if !any { return false; }
      ghost var f := Flushing(batch, due, oc, rw, 0);
      var ok, files, range, calls := PutParts(batch, due, put, others, f);
      if !ok { return true; }
      UnitsAre(f);
      SameRange(f);
      var ok2, more, all := PutTail(batch, oc, rw, put, calls, range, others, f.(puts := |DueUnits(batch, due)|));
      if !ok2 { return true; }
      err := WriteManifest(batch, files + more, all, manifestPut, others, f.(puts := |Units(f)|));
    }
  }

  /** Widens a range by the times of rows. */
  method Span(r: Range, rows: seq<Row>) returns (s: Range)
    ensures s == WidenAll(r, rows)
  {
    s := r;
    var i := 0;
    while i < |rows|
      invariant i <= |rows| && s == WidenAll(r, rows[..i])
    {
      var at := rows[i].at;
      assert rows[..i + 1][..i] == rows[..i];
      s := Range(if s.min == 0 || at < s.min then at else s.min, if at > s.max then at else s.max);
      i := i + 1;
    }
    assert rows[..i] == rows;
  }

  lemma DueRangeStep(due: seq<Part>, j: nat)
    requires j < |due|
    ensures DueRange(due[..j + 1]) == WidenAll(DueRange(due[..j]), due[j].episodes)
  {
    assert due[..j + 1][..j] == due[..j];
  }

  lemma SameRange(f: Flushing)
    ensures forall n: nat :: RangeOf(f.(puts := n)) == RangeOf(f)
  {
  }

  /** Row totals per table. */
  method CountRows(files: seq<FileRef>) returns (counts: map<Table, nat>)
    ensures counts == map[Episodes := TableRows(files, Episodes), Steps := TableRows(files, Steps),
                          Outcomes := TableRows(files, Outcomes), Rewards := TableRows(files, Rewards)]
  {
    var e, s, o, r := 0, 0, 0, 0;
    var i := |files|;
    while i > 0
      invariant 0 <= i <= |files|
      invariant e == TableRows(files[i..], Episodes) && s == TableRows(files[i..], Steps)
      invariant o == TableRows(files[i..], Outcomes) && r == TableRows(files[i..], Rewards)
    {
      i := i - 1;
      assert files[i..][0] == files[i] && files[i..][1..] == files[i + 1..];
      match files[i].path.table {
        case Episodes => e := e + files[i].rows;
        case Steps => s := s + files[i].rows;
        case Outcomes => o := o + files[i].rows;
        case Rewards => r := r + files[i].rows;
      }
    }
    assert files[0..] == files;
    counts := map[Episodes := e, Steps := s, Outcomes := o, Rewards := r];
  }

  /** What starting a flush does. */
  lemma StartIs(s: L.Sink, batch: string, due: seq<Part>, rest: seq<Part>, takeO: bool, takeR: bool)
    requires batch !in s.used && multiset(due + rest) == multiset(s.pending)
    requires due != [] || (takeO && s.outcomes != []) || (takeR && s.rewards != [])
    ensures var e := Start(batch, due, rest, takeO, takeR);
            && Enabled(s, e)
            && var t := Apply(s, e);
               && t.pending == rest && t.outcomes == (if takeO then [] else s.outcomes)
                  && t.rewards == (if takeR then [] else s.rewards)
               && t.running == s.running
                  + [Flushing(batch, due, if takeO then s.outcomes else [], if takeR then s.rewards else [], 0)]
               && t.objects == s.objects && t.manifests == s.manifests && t.abandoned == s.abandoned
               && t.written == s.written
  {
  }

  /** What a put of the last flush does. */
  lemma PutIs(s: L.Sink, others: seq<Flushing>, f: Flushing, stored: bool)
    requires s.running == others + [f] && f.puts < |Units(f)|
    ensures var n := |others|; var u := Units(f)[f.puts];
            && Enabled(s, PutOk(n)) && Enabled(s, PutFail(n, stored))
            && var t := Apply(s, PutOk(n));
               && t == s.(objects := s.objects[u.path := u.rows], running := others + [f.(puts := f.puts + 1)])
    ensures var n := |others|; var u := Units(f)[f.puts]; var t := Apply(s, PutFail(n, stored));
            && t.running == others && t.written == s.written && t.manifests == s.manifests && f.batch in t.failed
            && t.objects == (if stored then s.objects[u.path := u.rows] else s.objects)
            && t.pending == (if u.back.BackPart? then Restore(s.pending, u.back.p) else s.pending)
            && t.outcomes == (if u.back.BackOutcomes? then u.rows + s.outcomes else s.outcomes)
            && t.rewards == (if u.back.BackRewards? then u.rows + s.rewards else s.rewards)
  {
    hide Units, Restore, HeldBy;
    assert Without(s.running, |others|) == others;
    assert s.running[|others| := f.(puts := f.puts + 1)] == others + [f.(puts := f.puts + 1)];
  }

  /** What the end of the last flush does. */
  lemma ManifestStep(s: L.Sink, others: seq<Flushing>, f: Flushing, stored: bool)
    requires s.running == others + [f] && f.puts == |Units(f)|
    ensures var n := |others|; Enabled(s, ManifestOk(n)) && Enabled(s, ManifestFail(n, stored))
    ensures var t := Apply(s, ManifestOk(|others|));
            && t.running == others && t.manifests == s.manifests + [ManifestOf(f)] && t.abandoned == s.abandoned
            && t.pending == s.pending && t.outcomes == s.outcomes && t.rewards == s.rewards && t.objects == s.objects
            && t.written == s.written
    ensures var t := Apply(s, ManifestFail(|others|, stored));
            && t.running == others && t.manifests == (if stored then s.manifests + [ManifestOf(f)] else s.manifests)
            && t.pending == s.pending && t.outcomes == s.outcomes && t.rewards == s.rewards && t.objects == s.objects
            && t.written == s.written
  {
    hide ManifestOf, Units, HeldBy;
    assert Without(s.running, |others|) == others;
  }

  lemma SplitFacts(due: seq<Part>, rest: seq<Part>, all: seq<Part>)
    requires multiset(due + rest) == multiset(all)
    ensures due == [] && rest == [] ==> all == []
    ensures due == [] ==> forall p | p in all :: p in rest
  {
    assert forall p | p in all :: p in multiset(due + rest);
    if due == [] && rest == [] { assert |multiset(all)| == 0; }
  }

  lemma {:induction false} SortKeeps(due: seq<Part>, rest: seq<Part>)
    ensures multiset(Sort(KeyLe, due) + rest) == multiset(due + rest) && (Sort(KeyLe, due) == [] ==> due == [])
    ensures Sorted(KeyLe, Sort(KeyLe, due))
  {
    KeyLePreorder();
    SortSorted(KeyLe, due);
    SortMultiset(KeyLe, due);
  }

  lemma KeyLePreorder()
    ensures Preorder(KeyLe)
  {
    forall a: Part, b: Part ensures KeyLe(a, b) || KeyLe(b, a) { StrTotal(a.key, b.key); }
    forall a: Part, b: Part, c: Part | KeyLe(a, b) && KeyLe(b, c)
      ensures KeyLe(a, c)
    {
      if a.key != b.key && b.key != c.key { StrTransitive(a.key, b.key, c.key); }
    }
  }

  lemma {:induction false} ManifestIs(f: Flushing, files: seq<FileRef>, counts: map<Table, nat>)
    requires files == Refs(Units(f))
    requires counts == map[Episodes := TableRows(files, Episodes), Steps := TableRows(files, Steps),
                           Outcomes := TableRows(files, Outcomes), Rewards := TableRows(files, Rewards)]
    ensures Manifest(f.batch, RangeOf(f), files, counts) == ManifestOf(f)
  {
    CountsAgree(Units(f), Episodes);
    CountsAgree(Units(f), Steps);
    CountsAgree(Units(f), Outcomes);
    CountsAgree(Units(f), Rewards);
  }

  lemma SeqAssoc<T>(a: seq<T>, b: seq<T>, c: seq<T>)
    ensures a + (b + c) == (a + b) + c
  {
  }

  lemma {:induction false} DueConcat(batch: string, a: seq<Part>, b: seq<Part>)
    ensures DueUnits(batch, a + b) == DueUnits(batch, a) + DueUnits(batch, b)
  {
    hide PartUnits;
    if a == [] {
      assert a + b == b;
    } else {
      DueConcat(batch, a[1..], b);
      assert (a + b)[0] == a[0] && (a + b)[1..] == a[1..] + b;
      SeqAssoc(PartUnits(batch, a[0]), DueUnits(batch, a[1..]), DueUnits(batch, b));
    }
  }

  lemma {:induction false} DueStart(batch: string, due: seq<Part>)
    ensures DueUnits(batch, due[..0]) == [] && Refs([]) == [] && DueRange(due[..0]) == Range(0, 0)
  {
  }

  /** The objects of the j-th partition follow those of the partitions before it. */
  lemma DueStep(f: Flushing, j: nat)
    requires j < |f.due| && f.puts == |DueUnits(f.batch, f.due[..j])|
    ensures var p := f.due[j]; var n := f.puts; var us := Units(f);
            && n < |us| && us[n] == Unit(Path(Episodes, p.key, f.batch), p.episodes, BackPart(p))
            && Units(f.(puts := n + 1)) == us
            && (p.steps != [] ==> n + 1 < |us| && us[n + 1] == Unit(Path(Steps, p.key, f.batch), p.steps, BackPart(p)))
            && DueUnits(f.batch, f.due[..j + 1]) == DueUnits(f.batch, f.due[..j]) + PartUnits(f.batch, p)
            && Refs(DueUnits(f.batch, f.due[..j + 1]))
               == Refs(DueUnits(f.batch, f.due[..j])) + Refs(PartUnits(f.batch, p))
            && Refs(PartUnits(f.batch, p)) == [FileRef(Path(Episodes, p.key, f.batch), |p.episodes|)]
               + (if p.steps == [] then [] else [FileRef(Path(Steps, p.key, f.batch), |p.steps|)])
  {
    hide DueUnits;
    var p := f.due[j];
    var b := f.batch;
    assert f.due[..j + 1] == f.due[..j] + [p];
    assert f.due == f.due[..j] + ([p] + f.due[j + 1..]);
    DueConcat(b, f.due[..j], [p]);
    DueConcat(b, f.due[..j], [p] + f.due[j + 1..]);
    DueConcat(b, [p], f.due[j + 1..]);
    DueOne(b, p);
  }

  lemma {:induction false} DueOne(batch: string, p: Part)
    ensures DueUnits(batch, [p]) == PartUnits(batch, p)
  {
    assert [p][1..] == [];
    assert DueUnits(batch, []) == [];
  }

  /** After the partitions come the outcomes and then the rewards. */
  lemma UnitsAre(f: Flushing)
    ensures var d := DueUnits(f.batch, f.due); var us := Units(f);
            var o := if f.outcomes == [] then [] else [Unit(Path(Outcomes, "", f.batch), f.outcomes, BackOutcomes)];
            var r := if f.rewards == [] then [] else [Unit(Path(Rewards, "", f.batch), f.rewards, BackRewards)];
            && us == d + o + r && |us| == |d| + |o| + |r|
            && (o != [] ==> us[|d|] == o[0]) && (r != [] ==> us[|d| + |o|] == r[0])
            && Refs(us) == Refs(d)
               + ((if f.outcomes == [] then [] else [FileRef(Path(Outcomes, "", f.batch), |f.outcomes|)])
                  + (if f.rewards == [] then [] else [FileRef(Path(Rewards, "", f.batch), |f.rewards|)]))
            && (forall n: nat :: Units(f.(puts := n)) == us)
  {
    hide DueUnits;
  }
}
