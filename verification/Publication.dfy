/** What every reachable state of the sink keeps: rows written are visible, pending, held by a
    running flush or abandoned, once each; manifests list only complete objects; a failed
    flush shows nothing. */
module Publication {
  import opened Basics
  import opened Dedup
  import opened LakeSink

  function PartKey(p: Part): string { p.key }

  ghost predicate PartsOk(ps: seq<Part>)
  {
    DistinctKeys(PartKey, ps) && forall p | p in ps :: p.episodes != []
  }

  /** The objects hold these units' rows. */
  ghost predicate Stored(objects: map<Path, seq<Row>>, us: seq<Unit>)
  {
    forall i | 0 <= i < |us| :: us[i].path in objects && objects[us[i].path] == us[i].rows
  }

  ghost predicate RunningOk(s: Sink, f: Flushing)
  {
    && PartsOk(f.due) && f.puts <= |Units(f)| && Stored(s.objects, Units(f)[..f.puts])
    && HeldBy(f) != multiset{}
    && f.batch in s.used && f.batch !in s.failed
    && (forall g | g in s.published :: g.batch != f.batch)
  }

  ghost predicate PublishedOk(s: Sink, f: Flushing)
  {
    PartsOk(f.due) && Stored(s.objects, Units(f)) && f.batch in s.used && f.batch !in s.failed
  }

  function BatchOf(f: Flushing): string { f.batch }

  ghost predicate Pub(s: Sink)
  {
    && PartsOk(s.pending)
    && (forall f | f in s.running :: RunningOk(s, f))
    && DistinctKeys(BatchOf, s.running)
    && (forall f | f in s.published :: PublishedOk(s, f))
    && |s.manifests| == |s.published|
    && (forall i | 0 <= i < |s.manifests| :: s.manifests[i] == ManifestOf(s.published[i]))
    && s.failed <= s.used
  }

  /** Every row is in exactly one place. */
  ghost predicate Accounted(s: Sink)
  {
    s.written == Visible(s.objects, s.manifests)
               + (PartsRows(s.pending) + multiset(s.outcomes) + multiset(s.rewards)) + Held(s.running) + s.abandoned
  }

  // ---------- paths of one flush ----------

  lemma {:induction false} DuePaths(batch: string, ps: seq<Part>, k: nat)
    requires k < |DueUnits(batch, ps)|
    ensures var u := DueUnits(batch, ps)[k];
            && u.path.batch == batch && (u.path.table == Episodes || u.path.table == Steps)
            && exists p :: p in ps && u.path.partition == p.key
  {
    var h := PartUnits(batch, ps[0]);
    if k < |h| {
      assert ps[0] in ps;
    } else {
      assert DueUnits(batch, ps)[k] == DueUnits(batch, ps[1..])[k - |h|];
      DuePaths(batch, ps[1..], k - |h|);
      var p :| p in ps[1..] && DueUnits(batch, ps)[k].path.partition == p.key;
      assert p in ps;
    }
  }

  lemma {:induction false} DueDistinct(batch: string, ps: seq<Part>, i: nat, j: nat)
    requires DistinctKeys(PartKey, ps) && i < j < |DueUnits(batch, ps)|
    ensures DueUnits(batch, ps)[i].path != DueUnits(batch, ps)[j].path
  {
    var h, t := PartUnits(batch, ps[0]), DueUnits(batch, ps[1..]);
    assert DueUnits(batch, ps) == h + t;
    if j < |h| {
    } else {
      assert (h + t)[j] == t[j - |h|];
      DuePaths(batch, ps[1..], j - |h|);
      var p :| p in ps[1..] && t[j - |h|].path.partition == p.key;
      var m :| 0 <= m < |ps[1..]| && ps[1..][m] == p;
      assert PartKey(ps[0]) != PartKey(ps[m + 1]);
      if i >= |h| {
        assert (h + t)[i] == t[i - |h|];
        DueDistinct(batch, ps[1..], i - |h|, j - |h|);
      }
    }
  }

  lemma UnitPath(f: Flushing, k: nat)
    requires k < |Units(f)|
    ensures var u := Units(f)[k]; var d := DueUnits(f.batch, f.due);
            && u.path.batch == f.batch
            && (k < |d| ==> u == d[k] && (u.path.table == Episodes || u.path.table == Steps))
            && (k >= |d| ==> u.path.table == Outcomes || u.path.table == Rewards)
  {
    var d := DueUnits(f.batch, f.due);
    if k < |d| { DuePaths(f.batch, f.due, k); }
  }

  /** A flush writes each of its objects under its own name. */
  lemma PathsDistinct(f: Flushing, i: nat, j: nat)
    requires DistinctKeys(PartKey, f.due) && i < j < |Units(f)|
    ensures Units(f)[i].path != Units(f)[j].path
  {
    UnitPath(f, i);
    UnitPath(f, j);
    var d := DueUnits(f.batch, f.due);
    if j < |d| { DueDistinct(f.batch, f.due, i, j); }
  }

  // ---------- a new object changes nothing that is visible ----------

  lemma StoredElsewhere(objects: map<Path, seq<Row>>, us: seq<Unit>, path: Path, rows: seq<Row>)
    requires Stored(objects, us) && forall i | 0 <= i < |us| :: us[i].path != path
    ensures Stored(objects[path := rows], us)
  {
  }

  lemma OtherBatch(f: Flushing, n: nat, path: Path)
    requires n <= |Units(f)| && path.batch != f.batch
    ensures forall i | 0 <= i < n :: Units(f)[..n][i].path != path
  {
    forall i | 0 <= i < n
      ensures Units(f)[..n][i].path != path
    {
      UnitPath(f, i);
    }
  }

  lemma {:induction false} FilesOf(objects: map<Path, seq<Row>>, us: seq<Unit>)
    requires Stored(objects, us)
    ensures FilesRows(objects, Refs(us)) == UnitsRows(us)
  {
    if us != [] {
      assert Refs(us)[1..] == Refs(us[1..]);
      assert Stored(objects, us[1..]) by {
        assert forall i | 0 <= i < |us[1..]| :: us[1..][i] == us[i + 1];
      }
      FilesOf(objects, us[1..]);
    }
  }

  lemma {:induction false} FilesElsewhere(objects: map<Path, seq<Row>>, files: seq<FileRef>, path: Path, rows: seq<Row>)
    requires forall i | 0 <= i < |files| :: files[i].path != path
    ensures FilesRows(objects[path := rows], files) == FilesRows(objects, files)
  {
    if files != [] {
      assert files[0].path != path;
      assert forall i | 0 <= i < |files[1..]| :: files[1..][i] == files[i + 1];
      FilesElsewhere(objects, files[1..], path, rows);
    }
  }

  lemma {:induction false} VisibleElsewhere(objects: map<Path, seq<Row>>, ms: seq<Manifest>, path: Path, rows: seq<Row>)
    requires forall m, i | m in ms && 0 <= i < |m.files| :: m.files[i].path != path
    ensures Visible(objects[path := rows], ms) == Visible(objects, ms)
  {
    if ms != [] {
      assert ms[0] in ms;
      FilesElsewhere(objects, ms[0].files, path, rows);
      VisibleElsewhere(objects, ms[1..], path, rows);
    }
  }

  lemma {:induction false} VisibleSnoc(objects: map<Path, seq<Row>>, ms: seq<Manifest>, m: Manifest)
    ensures Visible(objects, ms + [m]) == Visible(objects, ms) + FilesRows(objects, m.files)
  {
    hide FilesRows;
    if ms == [] {
      assert [m][1..] == [] && ms + [m] == [m];
      BagAssoc(multiset{}, multiset{}, FilesRows(objects, m.files));
    } else {
      VisibleSnoc(objects, ms[1..], m);
      assert (ms + [m])[0] == ms[0] && (ms + [m])[1..] == ms[1..] + [m];
      BagAssoc(FilesRows(objects, ms[0].files), Visible(objects, ms[1..]), FilesRows(objects, m.files));
    }
  }

  /** An object named after a batch that is not published is invisible. */
  lemma InvisiblePut(s: Sink, path: Path, rows: seq<Row>)
    requires Pub(s) && forall g | g in s.published :: g.batch != path.batch
    ensures Visible(s.objects[path := rows], s.manifests) == Visible(s.objects, s.manifests)
  {
    hide Visible, PublishedOk, RunningOk, PartsOk, Units;
    forall m, i | m in s.manifests && 0 <= i < |m.files|
      ensures m.files[i].path != path
    {
      var k :| 0 <= k < |s.manifests| && s.manifests[k] == m;
      var g := s.published[k];
      assert g in s.published;
      UnitPath(g, i);
    }
    VisibleElsewhere(s.objects, s.manifests, path, rows);
  }

  // ---------- each step keeps the publication invariant ----------

  /** Objects may be added under the name of batch b, which no published or other running
      flush uses. */
  lemma PutKeeps(s: Sink, path: Path, rows: seq<Row>, t: Sink)
    requires Pub(s) && (forall g | g in s.published :: g.batch != path.batch)
    requires t == s.(objects := s.objects[path := rows])
    ensures forall g | g in s.published :: PublishedOk(t, g)
    ensures forall g | g in s.running && g.batch != path.batch :: RunningOk(t, g)
  {
    hide Units, PartsOk, HeldBy;
    forall g | g in s.published
      ensures PublishedOk(t, g)
    {
      assert PublishedOk(s, g);
      OtherBatch(g, |Units(g)|, path);
      assert Units(g)[..|Units(g)|] == Units(g);
      StoredElsewhere(s.objects, Units(g), path, rows);
    }
    forall g | g in s.running && g.batch != path.batch
      ensures RunningOk(t, g)
    {
      assert RunningOk(s, g);
      OtherBatch(g, g.puts, path);
      StoredElsewhere(s.objects, Units(g)[..g.puts], path, rows);
    }
  }

  lemma BatchIn(s: Sink, i: nat)
    requires Pub(s) && i < |s.running|
    ensures RunningOk(s, s.running[i])
    ensures forall g | g in Without(s.running, i) :: g in s.running && g.batch != s.running[i].batch
    ensures DistinctKeys(BatchOf, Without(s.running, i))
  {
    hide RunningOk, PublishedOk, PartsOk;
    assert s.running[i] in s.running;
    var w := Without(s.running, i);
    assert forall k | 0 <= k < |w| :: w[k] == if k < i then s.running[k] else s.running[k + 1];
    forall g | g in w
      ensures g in s.running && g.batch != s.running[i].batch
    {
      var k :| 0 <= k < |w| && w[k] == g;
      var m := if k < i then k else k + 1;
      assert s.running[m] == g && m != i;
      assert BatchOf(s.running[m]) != BatchOf(s.running[i]);
    }
    forall a, b | 0 <= a < b < |w|
      ensures BatchOf(w[a]) != BatchOf(w[b])
    {
    }
  }

  lemma PutOkPub(s: Sink, i: nat)
    requires Pub(s) && Enabled(s, PutOk(i))
    ensures Pub(Apply(s, PutOk(i)))
  {
    hide Units, PartsOk, HeldBy, Stored, ManifestOf;
    var f := s.running[i];
    var u := Units(f)[f.puts];
    var t := s.(objects := s.objects[u.path := u.rows]);
    var r := Apply(s, PutOk(i));
    BatchIn(s, i);
    UnitPath(f, f.puts);
    PutKeeps(s, u.path, u.rows, t);
    OwnPut(s, f);
    SameHeld(f);
    forall g | g in r.running
      ensures RunningOk(r, g)
    {
      var k :| 0 <= k < |r.running| && r.running[k] == g;
      if k != i {
        assert s.running[k] == g && g in s.running && BatchOf(s.running[k]) != BatchOf(s.running[i]);
        assert RunningOk(t, g);
      }
    }
    forall g | g in r.published
      ensures PublishedOk(r, g)
    {
      assert PublishedOk(t, g);
    }
    forall a, b | 0 <= a < b < |r.running|
      ensures BatchOf(r.running[a]) != BatchOf(r.running[b])
    {
      assert BatchOf(s.running[a]) != BatchOf(s.running[b]);
    }
  }

  lemma SameHeld(f: Flushing)
    ensures HeldBy(f.(puts := f.puts + 1)) == HeldBy(f)
  {
  }

  /** The flush's own earlier objects survive its next one. */
  lemma OwnPut(s: Sink, f: Flushing)
    requires PartsOk(f.due) && f.puts < |Units(f)| && Stored(s.objects, Units(f)[..f.puts])
    ensures var u := Units(f)[f.puts]; Stored(s.objects[u.path := u.rows], Units(f)[..f.puts + 1])
    ensures Units(f.(puts := f.puts + 1)) == Units(f)
  {
    var us := Units(f);
    var u := us[f.puts];
    forall k | 0 <= k < f.puts + 1
      ensures us[k].path in s.objects[u.path := u.rows] && s.objects[u.path := u.rows][us[k].path] == us[k].rows
    {
      if k < f.puts {
        PathsDistinct(f, k, f.puts);
        assert us[..f.puts][k] == us[k];
      }
    }
  }

  lemma PutFailPub(s: Sink, i: nat, stored: bool)
    requires Pub(s) && Enabled(s, PutFail(i, stored))
    ensures Pub(Apply(s, PutFail(i, stored)))
  {
    hide Units, PartsOk, HeldBy, Stored, Restore, ManifestOf;
    var f := s.running[i];
    var u := Units(f)[f.puts];
    var t := if stored then s.(objects := s.objects[u.path := u.rows]) else s;
    var r := Apply(s, PutFail(i, stored));
    BatchIn(s, i);
    UnitPath(f, f.puts);
    if stored { PutKeeps(s, u.path, u.rows, t); }
    FailPending(s, f);
    FailShape(s, i, stored);
    hide Fail;
    forall g | g in r.running
      ensures RunningOk(r, g)
    {
      assert RunningOk(t, g);
    }
    forall g | g in r.published
      ensures PublishedOk(r, g)
    {
      assert PublishedOk(t, g);
    }
  }

  /** What a failed put leaves as it was. */
  lemma FailShape(s: Sink, i: nat, stored: bool)
    requires i < |s.running| && s.running[i].puts < |Units(s.running[i])|
    ensures var f := s.running[i]; var u := Units(f)[f.puts]; var r := Fail(s, i, stored);
            && r.objects == (if stored then s.objects[u.path := u.rows] else s.objects)
            && r.running == Without(s.running, i) && r.failed == s.failed + {f.batch} && r.used == s.used
            && r.manifests == s.manifests && r.published == s.published && r.written == s.written
            && r.pending == (if u.back.BackPart? then Restore(s.pending, u.back.p) else s.pending)
  {
  }

  lemma FailPending(s: Sink, f: Flushing)
    requires PartsOk(s.pending) && PartsOk(f.due) && f.puts < |Units(f)|
    ensures var u := Units(f)[f.puts]; PartsOk(if u.back.BackPart? then Restore(s.pending, u.back.p) else s.pending)
  {
    var u := Units(f)[f.puts];
    ReturnedHeld(f, f.puts);
    if u.back.BackPart? { RestoreOk(s.pending, u.back.p); }
  }

  lemma {:induction false} RestoreMembers(ps: seq<Part>, p: Part, q: Part)
    requires q in Restore(ps, p)
    ensures q in ps || q == p || (q.key == p.key && q.episodes != [] <== p.episodes != [])
    ensures q.key == p.key || (q in ps)
  {
    if ps != [] && ps[0].key != p.key && q != ps[0] {
      RestoreMembers(ps[1..], p, q);
    }
  }

  lemma {:induction false} RestoreOk(ps: seq<Part>, p: Part)
    requires PartsOk(ps) && p.episodes != []
    ensures PartsOk(Restore(ps, p))
  {
    if ps == [] {
    } else if ps[0].key == p.key {
      ReplaceHead(ps, Joined(ps[0], p));
    } else {
      TailOk(ps);
      RestoreOk(ps[1..], p);
      var t := Restore(ps[1..], p);
      forall q | q in t
        ensures PartKey(q) != PartKey(ps[0])
      {
        RestoreMembers(ps[1..], p, q);
      }
      ConsOk(ps[0], t);
    }
  }

  lemma TailOk(ps: seq<Part>)
    requires PartsOk(ps) && ps != []
    ensures PartsOk(ps[1..]) && ps[0].episodes != [] && forall q | q in ps[1..] :: PartKey(q) != PartKey(ps[0])
  {
    assert ps[0] in ps;
    assert forall k | 0 < k < |ps| :: PartKey(ps[0]) != PartKey(ps[k]);
  }

  lemma ConsOk(p: Part, ps: seq<Part>)
    requires PartsOk(ps) && p.episodes != [] && forall q | q in ps :: PartKey(q) != PartKey(p)
    ensures PartsOk([p] + ps)
  {
  }

  lemma ReplaceHead(ps: seq<Part>, q: Part)
    requires PartsOk(ps) && ps != [] && q.key == ps[0].key && q.episodes != []
    ensures PartsOk([q] + ps[1..])
  {
    TailOk(ps);
    ConsOk(q, ps[1..]);
  }

  /** Buffering an episode: its partition has the rows behind those it had, their sizes added, and
      has waited since it was opened; it is opened if there was none; no other is touched. */
  lemma {:induction false} AddedTo(ps: seq<Part>, key: string, ep: Row, steps: seq<Row>, size: nat, now: int)
    requires DistinctKeys(PartKey, ps)
    ensures var r := AddTo(ps, key, ep, steps, size, now);
            && DistinctKeys(PartKey, r) && (forall p: Part | p.key != key :: p in r <==> p in ps)
            && (forall w | w in ps && w.key == key ::
                  Part(key, w.episodes + [ep], w.steps + steps, w.bytes + size, w.firstSeen) in r)
            && ((forall w | w in ps :: w.key != key) ==> Part(key, [ep], steps, size, now) in r)
  {
    if ps != [] && ps[0].key != key {
      AddedTo(ps[1..], key, ep, steps, size, now);
      NotBehind(ps);
      NextTo(ps[0], AddTo(ps[1..], key, ep, steps, size, now), ps[1..], key);
      assert forall w :: w in ps <==> w == ps[0] || w in ps[1..];
    } else if ps != [] {
      NotBehind(ps);
      var q := Part(key, ps[0].episodes + [ep], ps[0].steps + steps, ps[0].bytes + size, ps[0].firstSeen);
      NextTo(q, ps[1..], ps[1..], key);
      assert forall w :: w in ps <==> w == ps[0] || w in ps[1..];
    }
  }

  lemma NotBehind(ps: seq<Part>)
    requires DistinctKeys(PartKey, ps) && ps != []
    ensures DistinctKeys(PartKey, ps[1..]) && forall w | w in ps[1..] :: w.key != ps[0].key
  {
  }

  lemma NextTo(p: Part, r: seq<Part>, ps: seq<Part>, key: string)
    requires DistinctKeys(PartKey, r) && (forall w: Part | w.key != key :: w in r <==> w in ps)
    requires (forall w | w in ps :: w.key != p.key) && (p.key == key ==> forall w | w in r :: w.key != key)
    ensures DistinctKeys(PartKey, [p] + r) && forall w :: w in [p] + r <==> w == p || w in r
  {
  }

  /** Giving rows back: they go behind what the partition has collected since, or are its first. */
  lemma {:induction false} RestoredTo(ps: seq<Part>, p: Part)
    requires DistinctKeys(PartKey, ps)
    ensures var r := Restore(ps, p);
            && DistinctKeys(PartKey, r) && (forall q: Part | q.key != p.key :: q in r <==> q in ps)
            && (forall w | w in ps && w.key == p.key ::
                  Part(p.key, w.episodes + p.episodes, w.steps + p.steps, w.bytes + p.bytes, w.firstSeen) in r)
            && ((forall w | w in ps :: w.key != p.key) ==> p in r)
  {
    if ps != [] {
      NotBehind(ps);
      assert forall w :: w in ps <==> w == ps[0] || w in ps[1..];
      if ps[0].key != p.key {
        RestoredTo(ps[1..], p);
        NextTo(ps[0], Restore(ps[1..], p), ps[1..], p.key);
      } else {
        NextTo(Joined(ps[0], p), ps[1..], ps[1..], p.key);
      }
    }
  }

  lemma {:induction false} AddToMembers(ps: seq<Part>, key: string, ep: Row, steps: seq<Row>, size: nat, now: int,
                                        q: Part)
    requires q in AddTo(ps, key, ep, steps, size, now)
    ensures q in ps || q.key == key
  {
    if ps != [] && ps[0].key != key && q != ps[0] { AddToMembers(ps[1..], key, ep, steps, size, now, q); }
  }

  lemma {:induction false} AddToOk(ps: seq<Part>, key: string, ep: Row, steps: seq<Row>, size: nat, now: int)
    requires PartsOk(ps)
    ensures PartsOk(AddTo(ps, key, ep, steps, size, now))
  {
    if ps == [] {
    } else if ps[0].key == key {
      ReplaceHead(ps, Part(key, ps[0].episodes + [ep], ps[0].steps + steps, ps[0].bytes + size, ps[0].firstSeen));
    } else {
      TailOk(ps);
      AddToOk(ps[1..], key, ep, steps, size, now);
      var t := AddTo(ps[1..], key, ep, steps, size, now);
      forall q | q in t
        ensures PartKey(q) != PartKey(ps[0])
      {
        AddToMembers(ps[1..], key, ep, steps, size, now, q);
      }
      ConsOk(ps[0], t);
    }
  }

  lemma SplitOk(due: seq<Part>, rest: seq<Part>, pending: seq<Part>)
    requires PartsOk(pending) && multiset(due + rest) == multiset(pending)
    ensures PartsOk(due) && PartsOk(rest)
  {
    var all := due + rest;
    PermutedDistinct(PartKey, pending, all);
    assert forall p | p in all :: p in multiset(pending);
    forall i, j | 0 <= i < j < |due|
      ensures PartKey(due[i]) != PartKey(due[j])
    {
      assert PartKey(all[i]) != PartKey(all[j]);
    }
    forall i, j | 0 <= i < j < |rest|
      ensures PartKey(rest[i]) != PartKey(rest[j])
    {
      assert PartKey(all[|due| + i]) != PartKey(all[|due| + j]);
    }
    assert forall p | p in due || p in rest :: p in all;
  }

  lemma StartPub(s: Sink, ev: Event)
    requires Pub(s) && ev.Start? && Enabled(s, ev)
    ensures Pub(Apply(s, ev))
  {
    var r := Apply(s, ev);
    var f := r.running[|s.running|];
    SplitOk(ev.due, ev.rest, s.pending);
    StartHeld(f);
    hide Units, PartsOk, HeldBy, ManifestOf;
    assert Units(f)[..0] == [];
    forall g | g in r.running
      ensures RunningOk(r, g)
    {
      if g in s.running { assert RunningOk(s, g); }
    }
    forall g | g in r.published
      ensures PublishedOk(r, g)
    {
      assert PublishedOk(s, g);
    }
    forall a, b | 0 <= a < b < |r.running|
      ensures BatchOf(r.running[a]) != BatchOf(r.running[b])
    {
      assert r.running[a] in s.running && RunningOk(s, s.running[a]);
      if b < |s.running| { assert BatchOf(s.running[a]) != BatchOf(s.running[b]); }
    }
  }

  lemma StartHeld(f: Flushing)
    requires PartsOk(f.due) && (f.due != [] || f.outcomes != [] || f.rewards != [])
    ensures HeldBy(f) != multiset{}
  {
    if f.due != [] {
      assert f.due[0] in f.due;
      PartIn(f.due, f.due[0]);
      assert f.due[0].episodes[0] in multiset(f.due[0].episodes);
      assert f.due[0].episodes[0] in PartsRows(f.due);
    } else if f.outcomes != [] {
      assert f.outcomes[0] in multiset(f.outcomes);
    } else {
      assert f.rewards[0] in multiset(f.rewards);
    }
  }

  lemma PublishPub(s: Sink, i: nat)
    requires Pub(s) && i < |s.running| && s.running[i].puts == |Units(s.running[i])|
    ensures Pub(Publish(s, i))
  {
    var f := s.running[i];
    var r := Publish(s, i);
    BatchIn(s, i);
    assert Units(f)[..f.puts] == Units(f);
    hide Units, PartsOk, HeldBy, Stored, ManifestOf;
    forall g | g in r.running
      ensures RunningOk(r, g)
    {
      assert RunningOk(s, g) && g.batch != f.batch;
    }
    forall g | g in r.published
      ensures PublishedOk(r, g)
    {
      if g in s.published { assert PublishedOk(s, g); }
    }
  }

  lemma DropPub(s: Sink, i: nat, t: Sink)
    requires Pub(s) && i < |s.running|
    requires t == s.(running := Without(s.running, i), failed := s.failed + {s.running[i].batch},
                     abandoned := t.abandoned)
    ensures Pub(t)
  {
    BatchIn(s, i);
    hide Units, PartsOk, HeldBy, Stored, ManifestOf;
    forall g | g in t.running
      ensures RunningOk(t, g)
    {
      assert RunningOk(s, g);
    }
    forall g | g in t.published
      ensures PublishedOk(t, g)
    {
      assert PublishedOk(s, g);
    }
  }

  lemma SamePub(s: Sink, t: Sink)
    requires Pub(s) && PartsOk(t.pending)
    requires t == s.(pending := t.pending, outcomes := t.outcomes, rewards := t.rewards, written := t.written)
    ensures Pub(t)
  {
    hide Units, PartsOk, HeldBy, Stored, ManifestOf;
    assert forall f | f in t.running :: RunningOk(s, f) ==> RunningOk(t, f);
    assert forall f | f in t.published :: PublishedOk(s, f) ==> PublishedOk(t, f);
  }

  lemma StepPub(s: Sink, ev: Event)
    requires Pub(s) && Enabled(s, ev)
    ensures Pub(Apply(s, ev))
  {
    match ev
    case Write(key, ep, steps, size, now) =>
      AddToOk(s.pending, key, ep, steps, size, now);
      hide Pub, PartsOk;
      PubParts(s);
      SamePub(s, Apply(s, ev));
    case WriteOutcomes(rows) => PubParts(s); hide Pub, PartsOk; SamePub(s, Apply(s, ev));
    case WriteRewards(rows) => PubParts(s); hide Pub, PartsOk; SamePub(s, Apply(s, ev));
    case Start(_, _, _, _, _) => StartPub(s, ev);
    case PutOk(i) => PutOkPub(s, i);
    case PutFail(i, stored) => PutFailPub(s, i, stored);
    case ManifestOk(i) => PublishPub(s, i);
    case ManifestFail(i, stored) =>
      if stored { PublishPub(s, i); } else { DropPub(s, i, Apply(s, ev)); }
  }

  lemma PubParts(s: Sink)
    requires Pub(s)
    ensures PartsOk(s.pending)
  {
  }
}
