/** The lake sink: rows wait in partitions, a flush writes data objects and then one manifest,
    and any number of flushes and writes interleave because the lock is not held during I/O.
    Every row is accounted for at every moment, and a manifest never shows half a batch. */
module LakeSink {
  import opened Basics
  import Sorting

  datatype Table = Episodes | Steps | Outcomes | Rewards

  /** A row; at is the time the manifest's range looks at. */
  datatype Row = Row(table: Table, body: string, at: int)

  /** bytes and firstSeen decide when a partition is due. */
  datatype Part = Part(key: string, episodes: seq<Row>, steps: seq<Row>, bytes: nat, firstSeen: int)

  datatype Path = Path(table: Table, partition: string, batch: string)

  /** A manifest's line for one object. */
  datatype FileRef = FileRef(path: Path, rows: nat)

  /** The time range of a batch; a least time of 0 stands for none yet. */
  datatype Range = Range(min: int, max: int)

  datatype Manifest = Manifest(batch: string, range: Range, files: seq<FileRef>, counts: map<Table, nat>)

  /** What to do with a data object that could not be written. */
  datatype Unit = Unit(path: Path, rows: seq<Row>, back: Back)
  datatype Back = BackPart(p: Part) | BackOutcomes | BackRewards

  /** A running flush: what it took out of the pending state, and how many of its data objects
      it has written. */
  datatype Flushing = Flushing(batch: string, due: seq<Part>, outcomes: seq<Row>, rewards: seq<Row>, puts: nat)

  /** abandoned, written, published and failed are history, not state of the program. */
  datatype Sink = Sink(
    pending: seq<Part>, outcomes: seq<Row>, rewards: seq<Row>,
    objects: map<Path, seq<Row>>, manifests: seq<Manifest>,
    running: seq<Flushing>,
    abandoned: multiset<Row>, written: multiset<Row>, published: seq<Flushing>, used: set<string>, failed: set<string>)

  const EMPTY_SINK := Sink([], [], [], map[], [], [], multiset{}, multiset{}, [], {}, {})

  // ---------- bags of rows ----------

  function PartRows(p: Part): multiset<Row> { multiset(p.episodes) + multiset(p.steps) }

  function PartsRows(ps: seq<Part>): multiset<Row>
  {
    if ps == [] then multiset{} else PartRows(ps[0]) + PartsRows(ps[1..])
  }

  function HeldBy(f: Flushing): multiset<Row> { PartsRows(f.due) + multiset(f.outcomes) + multiset(f.rewards) }

  function Held(fs: seq<Flushing>): multiset<Row>
  {
    if fs == [] then multiset{} else HeldBy(fs[0]) + Held(fs[1..])
  }

  function FilesRows(objects: map<Path, seq<Row>>, files: seq<FileRef>): multiset<Row>
  {
    if files == [] then multiset{}
    else
      var p := files[0].path;
      (if p in objects then multiset(objects[p]) else multiset{}) + FilesRows(objects, files[1..])
  }

  /** What a reader that follows the manifests gets. */
  function Visible(objects: map<Path, seq<Row>>, ms: seq<Manifest>): multiset<Row>
  {
    if ms == [] then multiset{} else FilesRows(objects, ms[0].files) + Visible(objects, ms[1..])
  }

  // ---------- the objects of a flush, in the order they are written ----------

  function PartUnits(batch: string, p: Part): (r: seq<Unit>)
  {
    [Unit(Path(Episodes, p.key, batch), p.episodes, BackPart(p))]
    + if p.steps == [] then [] else [Unit(Path(Steps, p.key, batch), p.steps, BackPart(p))]
  }

  function DueUnits(batch: string, ps: seq<Part>): (r: seq<Unit>)
  {
    if ps == [] then [] else PartUnits(batch, ps[0]) + DueUnits(batch, ps[1..])
  }

  function Units(f: Flushing): (r: seq<Unit>)
  {
    DueUnits(f.batch, f.due)
    + (if f.outcomes == [] then [] else [Unit(Path(Outcomes, "", f.batch), f.outcomes, BackOutcomes)])
    + (if f.rewards == [] then [] else [Unit(Path(Rewards, "", f.batch), f.rewards, BackRewards)])
  }

  function UnitRows(u: Unit): multiset<Row> { multiset(u.rows) }

  function UnitsRows(us: seq<Unit>): multiset<Row>
  {
    if us == [] then multiset{} else UnitRows(us[0]) + UnitsRows(us[1..])
  }

  function Refs(us: seq<Unit>): (r: seq<FileRef>)
    ensures |r| == |us|
  {
    seq(|us|, i requires 0 <= i < |us| => FileRef(us[i].path, |us[i].rows|))
  }

  function CountOf(us: seq<Unit>, t: Table): nat
  {
    if us == [] then 0 else (if us[0].path.table == t then |us[0].rows| else 0) + CountOf(us[1..], t)
  }

  /** A table's rows among the objects listed. */
  function TableRows(files: seq<FileRef>, t: Table): nat
  {
    if files == [] then 0 else (if files[0].path.table == t then files[0].rows else 0) + TableRows(files[1..], t)
  }

  lemma {:induction false} CountsAgree(us: seq<Unit>, t: Table)
    ensures TableRows(Refs(us), t) == CountOf(us, t)
  {
    if us != [] {
      assert Refs(us)[1..] == Refs(us[1..]);
      CountsAgree(us[1..], t);
    }
  }

  function Widen(r: Range, at: int): Range
  {
    Range(if r.min == 0 || at < r.min then at else r.min, if at > r.max then at else r.max)
  }

  function WidenAll(r: Range, rows: seq<Row>): Range
  {
    if rows == [] then r else Widen(WidenAll(r, rows[..|rows| - 1]), rows[|rows| - 1].at)
  }

  function DueRange(ps: seq<Part>): Range
  {
    if ps == [] then Range(0, 0) else WidenAll(DueRange(ps[..|ps| - 1]), ps[|ps| - 1].episodes)
  }

  /** Episodes and outcomes make the range; the first reward does if there is none yet. */
  function RangeOf(f: Flushing): Range
  {
    var r := WidenAll(DueRange(f.due), f.outcomes);
    if f.rewards != [] && r.min == 0 then Range(f.rewards[0].at, f.rewards[0].at) else r
  }

  function ManifestOf(f: Flushing): Manifest
  {
    var us := Units(f);
    Manifest(f.batch, RangeOf(f), Refs(us),
             map[Episodes := CountOf(us, Episodes), Steps := CountOf(us, Steps),
                 Outcomes := CountOf(us, Outcomes), Rewards := CountOf(us, Rewards)])
  }

  // ---------- steps ----------

  /** Appends an episode and its steps to its partition, opening the partition if needed. */
  function AddTo(ps: seq<Part>, key: string, ep: Row, steps: seq<Row>, size: nat, now: int): (r: seq<Part>)
  {
    if ps == [] then [Part(key, [ep], steps, size, now)]
    else if ps[0].key == key then
      [Part(key, ps[0].episodes + [ep], ps[0].steps + steps, ps[0].bytes + size, ps[0].firstSeen)] + ps[1..]
    else [ps[0]] + AddTo(ps[1..], key, ep, steps, size, now)
  }

  /** p's rows joined to those of a partition with the same key. */
  function Joined(q: Part, p: Part): Part
  {
    Part(p.key, q.episodes + p.episodes, q.steps + p.steps, q.bytes + p.bytes, q.firstSeen)
  }

  /** Returns a partition's rows to the pending set after a failed write. */
  function Restore(ps: seq<Part>, p: Part): (r: seq<Part>)
  {
    if ps == [] then [p]
    else if ps[0].key == p.key then [Joined(ps[0], p)] + ps[1..]
    else [ps[0]] + Restore(ps[1..], p)
  }

  datatype Event =
    | Write(key: string, ep: Row, steps: seq<Row>, size: nat, now: int)
    | WriteOutcomes(rows: seq<Row>)
    | WriteRewards(rows: seq<Row>)
    | Start(batch: string, due: seq<Part>, rest: seq<Part>, takeOutcomes: bool, takeRewards: bool)
    | PutOk(i: nat)
    | PutFail(i: nat, stored: bool)
    | ManifestOk(i: nat)
    | ManifestFail(i: nat, stored: bool)

  ghost predicate Enabled(s: Sink, ev: Event)
  {
    match ev
    case Write(_, _, _, _, _) => true
    case WriteOutcomes(_) => true
    case WriteRewards(_) => true
    case Start(batch, due, rest, takeO, takeR) =>
      // the due partitions leave, the rest stays; batch ids are never used twice
      && batch !in s.used && multiset(due + rest) == multiset(s.pending)
      && (due != [] || (takeO && s.outcomes != []) || (takeR && s.rewards != []))
    case PutOk(i) => i < |s.running| && s.running[i].puts < |Units(s.running[i])|
    case PutFail(i, _) => i < |s.running| && s.running[i].puts < |Units(s.running[i])|
    case ManifestOk(i) => i < |s.running| && s.running[i].puts == |Units(s.running[i])|
    case ManifestFail(i, _) => i < |s.running| && s.running[i].puts == |Units(s.running[i])|
  }

  function Without(fs: seq<Flushing>, i: nat): seq<Flushing>
    requires i < |fs|
  {
    fs[..i] + fs[i + 1..]
  }

  /** The rows a failed put gives back. */
  function Returned(u: Unit): multiset<Row>
  {
    if u.back.BackPart? then PartRows(u.back.p) else multiset(u.rows)
  }

  function Fail(s: Sink, i: nat, stored: bool): Sink
    requires i < |s.running| && s.running[i].puts < |Units(s.running[i])|
  {
    var f := s.running[i];
    var u := Units(f)[f.puts];
    var t := s.(running := Without(s.running, i), failed := s.failed + {f.batch},
                objects := if stored then s.objects[u.path := u.rows] else s.objects,
                abandoned := s.abandoned + (HeldBy(f) - Returned(u)));
    match u.back
    case BackPart(p) => t.(pending := Restore(s.pending, p))
    case BackOutcomes => t.(outcomes := u.rows + s.outcomes)
    case BackRewards => t.(rewards := u.rows + s.rewards)
  }

  function Publish(s: Sink, i: nat): Sink
    requires i < |s.running|
  {
    var f := s.running[i];
    s.(running := Without(s.running, i), manifests := s.manifests + [ManifestOf(f)], published := s.published + [f])
  }

  ghost function Apply(s: Sink, ev: Event): Sink
    requires Enabled(s, ev)
  {
    match ev
    case Write(key, ep, steps, size, now) =>
      s.(pending := AddTo(s.pending, key, ep, steps, size, now), written := s.written + multiset{ep} + multiset(steps))
    case WriteOutcomes(rows) => s.(outcomes := s.outcomes + rows, written := s.written + multiset(rows))
    case WriteRewards(rows) => s.(rewards := s.rewards + rows, written := s.written + multiset(rows))
    case Start(batch, due, rest, takeO, takeR) =>
      s.(pending := rest,
         outcomes := if takeO then [] else s.outcomes, rewards := if takeR then [] else s.rewards,
         running := s.running
                    + [Flushing(batch, due, if takeO then s.outcomes else [], if takeR then s.rewards else [], 0)],
         used := s.used + {batch})
    case PutOk(i) =>
      var f := s.running[i];
      var u := Units(f)[f.puts];
      s.(objects := s.objects[u.path := u.rows], running := s.running[i := f.(puts := f.puts + 1)])
    case PutFail(i, stored) => Fail(s, i, stored)
    case ManifestOk(i) => Publish(s, i)
    case ManifestFail(i, stored) =>
      // nothing is restored: unless the manifest was stored after all, the batch is gone
      if stored then Publish(s, i)
      else s.(running := Without(s.running, i), failed := s.failed + {s.running[i].batch},
              abandoned := s.abandoned + HeldBy(s.running[i]))
  }

  ghost predicate IsRun(states: seq<Sink>, evs: seq<Event>)
  {
    && |states| == |evs| + 1 && states[0] == EMPTY_SINK
    && forall i | 0 <= i < |evs| :: Enabled(states[i], evs[i]) && states[i + 1] == Apply(states[i], evs[i])
  }

  // ---------- bag arithmetic ----------

  lemma BagAssoc(a: multiset<Row>, b: multiset<Row>, c: multiset<Row>)
    ensures a + b + c == a + (b + c) && multiset{} + c == c && c + multiset{} == c
  {
  }

  lemma {:induction false} PartsConcat(a: seq<Part>, b: seq<Part>)
    ensures PartsRows(a + b) == PartsRows(a) + PartsRows(b)
  {
    hide PartRows;
    if a == [] {
      assert a + b == b;
      BagAssoc(multiset{}, multiset{}, PartsRows(b));
    } else {
      PartsConcat(a[1..], b);
      assert (a + b)[0] == a[0] && (a + b)[1..] == a[1..] + b;
      BagAssoc(PartRows(a[0]), PartsRows(a[1..]), PartsRows(b));
    }
  }

  lemma {:induction false} HeldConcat(a: seq<Flushing>, b: seq<Flushing>)
    ensures Held(a + b) == Held(a) + Held(b)
  {
    hide HeldBy;
    if a == [] {
      assert a + b == b;
      BagAssoc(multiset{}, multiset{}, Held(b));
    } else {
      HeldConcat(a[1..], b);
      assert (a + b)[0] == a[0] && (a + b)[1..] == a[1..] + b;
      BagAssoc(HeldBy(a[0]), Held(a[1..]), Held(b));
    }
  }

  lemma HeldOne(f: Flushing)
    ensures Held([f]) == HeldBy(f)
  {
    hide HeldBy;
    assert [f][1..] == [];
    BagAssoc(multiset{}, multiset{}, HeldBy(f));
  }

  lemma BagMove(a: multiset<Row>, x: multiset<Row>, b: multiset<Row>)
    ensures a + (x + b) == a + b + x
  {
  }

  lemma {:induction false} HeldWithout(fs: seq<Flushing>, i: nat)
    requires i < |fs|
    ensures Held(fs) == Held(Without(fs, i)) + HeldBy(fs[i])
  {
    hide HeldBy, Held;
    var a, b := fs[..i], fs[i + 1..];
    assert fs == a + ([fs[i]] + b);
    HeldConcat(a, [fs[i]] + b);
    HeldConcat([fs[i]], b);
    HeldConcat(a, b);
    HeldOne(fs[i]);
    BagMove(Held(a), HeldBy(fs[i]), Held(b));
  }

  lemma {:induction false} PartsPermuted(a: seq<Part>, b: seq<Part>)
    requires multiset(a) == multiset(b)
    ensures PartsRows(a) == PartsRows(b)
    decreases |a|
  {
    if a == [] {
      assert |multiset(b)| == 0;
      assert b == [];
    } else {
      hide PartRows, PartsRows;
      var j := Sorting.TakeOne(a, b);
      var n := |a| - 1;
      var l, r, x := b[..j], b[j + 1..], [b[j]];
      PartsPermuted(a[..n], l + r);
      assert a == a[..n] + x;
      assert b == l + (x + r);
      PartsConcat(a[..n], x);
      PartsConcat(l, r);
      PartsConcat(x, r);
      PartsConcat(l, x + r);
      BagMove(PartsRows(l), PartsRows(x), PartsRows(r));
    }
  }

  lemma {:induction false} AddToRows(ps: seq<Part>, key: string, ep: Row, steps: seq<Row>, size: nat, now: int)
    ensures PartsRows(AddTo(ps, key, ep, steps, size, now)) == PartsRows(ps) + multiset{ep} + multiset(steps)
  {
    if ps == [] {
      assert [Part(key, [ep], steps, size, now)][1..] == [];
    } else if ps[0].key == key {
      var q := Part(key, ps[0].episodes + [ep], ps[0].steps + steps, ps[0].bytes + size, ps[0].firstSeen);
      assert ([q] + ps[1..])[1..] == ps[1..];
    } else {
      AddToRows(ps[1..], key, ep, steps, size, now);
      var t := AddTo(ps[1..], key, ep, steps, size, now);
      assert ([ps[0]] + t)[1..] == t;
    }
  }

  lemma {:induction false} RestoreRows(ps: seq<Part>, p: Part)
    ensures PartsRows(Restore(ps, p)) == PartsRows(ps) + PartRows(p)
  {
    if ps == [] {
      assert [p][1..] == [];
    } else if ps[0].key == p.key {
      var q := Joined(ps[0], p);
      assert ([q] + ps[1..])[1..] == ps[1..];
    } else {
      RestoreRows(ps[1..], p);
      var t := Restore(ps[1..], p);
      assert ([ps[0]] + t)[1..] == t;
    }
  }

  lemma {:induction false} UnitsConcat(a: seq<Unit>, b: seq<Unit>)
    ensures UnitsRows(a + b) == UnitsRows(a) + UnitsRows(b)
  {
    hide UnitRows;
    if a == [] {
      assert a + b == b;
      BagAssoc(multiset{}, multiset{}, UnitsRows(b));
    } else {
      UnitsConcat(a[1..], b);
      assert (a + b)[0] == a[0] && (a + b)[1..] == a[1..] + b;
      BagAssoc(UnitRows(a[0]), UnitsRows(a[1..]), UnitsRows(b));
    }
  }

  lemma {:induction false} DueRows(batch: string, ps: seq<Part>)
    ensures UnitsRows(DueUnits(batch, ps)) == PartsRows(ps)
  {
    if ps != [] {
      DueRows(batch, ps[1..]);
      UnitsConcat(PartUnits(batch, ps[0]), DueUnits(batch, ps[1..]));
      PartUnitRows(batch, ps[0]);
    }
  }

  lemma PartUnitRows(batch: string, p: Part)
    ensures UnitsRows(PartUnits(batch, p)) == PartRows(p)
  {
    var us := PartUnits(batch, p);
    if p.steps == [] {
      assert us[1..] == [];
    } else {
      assert us == [us[0], us[1]] && us[1..] == [us[1]] && us[1..][1..] == [];
      assert UnitsRows([]) == multiset{};
      assert UnitsRows(us[1..]) == multiset(us[1].rows);
    }
  }

  /** The objects a flush writes hold exactly the rows it took. */
  lemma UnitsAreHeld(f: Flushing)
    ensures UnitsRows(Units(f)) == HeldBy(f)
  {
    hide DueUnits;
    var d := DueUnits(f.batch, f.due);
    var o := if f.outcomes == [] then [] else [Unit(Path(Outcomes, "", f.batch), f.outcomes, BackOutcomes)];
    var r := if f.rewards == [] then [] else [Unit(Path(Rewards, "", f.batch), f.rewards, BackRewards)];
    UnitsConcat(d + o, r);
    UnitsConcat(d, o);
    DueRows(f.batch, f.due);
    SingleRows(o, f.outcomes);
    SingleRows(r, f.rewards);
  }

  lemma {:induction false} SingleRows(us: seq<Unit>, rows: seq<Row>)
    requires if rows == [] then us == [] else |us| == 1 && us[0].rows == rows
    ensures UnitsRows(us) == multiset(rows)
  {
    if rows != [] { assert us[1..] == []; }
  }

  /** What a failed put gives back is part of what the flush held. */
  lemma ReturnedHeld(f: Flushing, k: nat)
    requires k < |Units(f)|
    ensures var u := Units(f)[k];
            && Returned(u) <= HeldBy(f)
            && (u.back.BackPart? ==> u.back.p in f.due)
            && (u.back.BackOutcomes? ==> u.rows == f.outcomes) && (u.back.BackRewards? ==> u.rows == f.rewards)
  {
    hide DueUnits, PartsRows, PartRows;
    var u := Units(f)[k];
    var d := DueUnits(f.batch, f.due);
    if k < |d| {
      assert u == d[k];
      DueBack(f.batch, f.due, k);
      PartIn(f.due, u.back.p);
    }
  }

  lemma {:induction false} DueBack(batch: string, ps: seq<Part>, k: nat)
    requires k < |DueUnits(batch, ps)|
    ensures var u := DueUnits(batch, ps)[k]; u.back.BackPart? && u.back.p in ps
  {
    var h := PartUnits(batch, ps[0]);
    if k >= |h| {
      assert DueUnits(batch, ps)[k] == DueUnits(batch, ps[1..])[k - |h|];
      DueBack(batch, ps[1..], k - |h|);
    }
  }

  lemma {:induction false} PartIn(ps: seq<Part>, p: Part)
    requires p in ps
    ensures PartRows(p) <= PartsRows(ps)
  {
    if p != ps[0] { PartIn(ps[1..], p); }
  }
}
