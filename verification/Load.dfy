/** Reading a lake: the first copy of each episode, its steps from every file, and a mark when a
    patch was merged. What a reader gets does not depend on how often or in which files rows
    were delivered. */
module Load {
  import opened Basics
  import opened Sorting
  import opened Dedup
  import opened Records
  import opened LakeRead

  /** rest stands for the columns no rule here looks at. */
  datatype EpisodeRow = EpisodeRow(id: string, startedAt: int, patched: bool, rest: string)

  /** A listed file; outcomes and rewards are carried through as they are. */
  datatype File =
    | EpisodeFile(episodes: seq<EpisodeRow>)
    | StepFile(steps: seq<Step>)
    | OutcomeFile(outcomes: seq<string>)
    | RewardFile(rewards: seq<string>)
    | Unreadable

  datatype Trajectory = Trajectory(row: EpisodeRow, steps: seq<Step>, patched: bool)

  function EpisodeRows(files: seq<File>): (r: seq<EpisodeRow>)
  {
    if files == [] then []
    else
      var last := files[|files| - 1];
      EpisodeRows(files[..|files| - 1]) + (if last.EpisodeFile? then last.episodes else [])
  }

  function StepRows(files: seq<File>): (r: seq<Step>)
  {
    if files == [] then []
    else
      var last := files[|files| - 1];
      StepRows(files[..|files| - 1]) + (if last.StepFile? then last.steps else [])
  }

  function OutcomeRows(files: seq<File>): (r: seq<string>)
  {
    if files == [] then []
    else
      var last := files[|files| - 1];
      OutcomeRows(files[..|files| - 1]) + (if last.OutcomeFile? then last.outcomes else [])
  }

  function RewardRows(files: seq<File>): (r: seq<string>)
  {
    if files == [] then []
    else
      var last := files[|files| - 1];
      RewardRows(files[..|files| - 1]) + (if last.RewardFile? then last.rewards else [])
  }

  function Id(e: EpisodeRow): string { e.id }
  function IdOf(t: Trajectory): string { t.row.id }
  predicate IsOriginal(e: EpisodeRow) { !e.patched }
  predicate IsPatch(e: EpisodeRow) { e.patched }
  function OfEpisode(id: string): (p: Step -> bool) { (s: Step) => s.episodeID == id }

  predicate Earlier(a: Trajectory, b: Trajectory)
  {
    if a.row.startedAt != b.row.startedAt then a.row.startedAt < b.row.startedAt
    else a.row.id == b.row.id || StrLess(a.row.id, b.row.id)
  }

  /** What the reader makes of one original row. */
  function Assembled(eps: seq<EpisodeRow>, steps: seq<Step>, e: EpisodeRow): Trajectory
  {
    Trajectory(e, Deduped(Filter(OfEpisode(e.id), steps)), exists p :: p in eps && p.patched && p.id == e.id)
  }

  function AssembledAll(eps: seq<EpisodeRow>, steps: seq<Step>, originals: seq<EpisodeRow>): (r: seq<Trajectory>)
    ensures |r| == |originals|
  {
    seq(|originals|, i requires 0 <= i < |originals| => Assembled(eps, steps, originals[i]))
  }

  function Loaded(files: seq<File>): seq<Trajectory>
  {
    var eps := EpisodeRows(files);
    Sort(Earlier, AssembledAll(eps, StepRows(files), FirstOf(Id, Filter(IsOriginal, eps), {})))
  }

  // ---------- redelivery ----------

  lemma EarlierOrder()
    ensures Preorder(Earlier) && Separates(Earlier, IdOf)
  {
    forall a: Trajectory, b: Trajectory
      ensures Earlier(a, b) || Earlier(b, a)
      ensures Earlier(a, b) && Earlier(b, a) ==> a.row.id == b.row.id
    {
      StrTotal(a.row.id, b.row.id);
    }
    forall a: Trajectory, b: Trajectory, c: Trajectory | Earlier(a, b) && Earlier(b, c)
      ensures Earlier(a, c)
    {
      if StrLess(a.row.id, b.row.id) && StrLess(b.row.id, c.row.id) { StrTransitive(a.row.id, b.row.id, c.row.id); }
    }
  }

  /** Delivered copies are copies: one original row per id, one step row per episode and index. */
  ghost predicate Consistent(eps: seq<EpisodeRow>, steps: seq<Step>)
  {
    && (forall a, b | a in eps && b in eps && !a.patched && !b.patched && a.id == b.id :: a == b)
    && (forall a, b | a in steps && b in steps && a.episodeID == b.episodeID && a.idx == b.idx :: a == b)
  }

  /** With one row per id, the rows kept are the original rows, each once. */
  lemma {:induction false} Originals(eps: seq<EpisodeRow>, steps: seq<Step>)
    requires Consistent(eps, steps)
    ensures var o := FirstOf(Id, Filter(IsOriginal, eps), {});
            DistinctKeys(Id, o) && forall e :: e in o <==> e in eps && !e.patched
  {
    hide FirstOf, Filter, DistinctKeys;
    var s := Filter(IsOriginal, eps);
    FirstOfDistinct(Id, s, {});
    forall e ensures e in s <==> e in eps && !e.patched { FilterMembers(IsOriginal, eps, e); }
    OneRowEach(s);
  }

  lemma {:induction false} OneRowEach(s: seq<EpisodeRow>)
    requires forall a, b | a in s && b in s && a.id == b.id :: a == b
    ensures forall e :: e in FirstOf(Id, s, {}) <==> e in s
  {
    hide FirstOf;
    var none: set<string> := {};
    FirstOfMembers(Id, s, none);
    forall e | e in s
      ensures e in FirstOf(Id, s, none)
    {
      assert Id(e) !in none;
      var y :| y in FirstOf(Id, s, none) && Id(y) == Id(e);
      assert y in s;
    }
  }

  /** The reader's steps depend only on which rows there are. */
  lemma {:induction false} SameSteps(a: seq<Step>, b: seq<Step>, id: string)
    requires forall s :: s in a <==> s in b
    requires forall x, y | x in a && y in a && x.episodeID == y.episodeID && x.idx == y.idx :: x == y
    ensures Deduped(Filter(OfEpisode(id), a)) == Deduped(Filter(OfEpisode(id), b))
  {
    hide Filter, Deduped;
    var fa, fb := Filter(OfEpisode(id), a), Filter(OfEpisode(id), b);
    forall s ensures (s in fa <==> s in a && s.episodeID == id) && (s in fb <==> s in b && s.episodeID == id) {
      FilterMembers(OfEpisode(id), a, s);
      FilterMembers(OfEpisode(id), b, s);
    }
    OnePerIndex(fa);
    OnePerIndex(fb);
    StrictSteps(fa, fb);
  }

  /** Where equal indices mean equal rows, nothing but copies is dropped. */
  lemma OnePerIndex(rows: seq<Step>)
    requires forall x, y | x in rows && y in rows && x.idx == y.idx :: x == y
    ensures var r := Deduped(rows); Sorted(ByTime, r) && DistinctKeys(Idx, r) && forall s :: s in r <==> s in rows
  {
    hide Deduped, Sorted, DistinctKeys, KeySet;
    DedupedFacts(rows);
    var r := Deduped(rows);
    forall s | s in rows
      ensures s in r
    {
      var t :| t in r && t.idx == s.idx;
      assert t in rows;
    }
  }

  lemma StrictSteps(fa: seq<Step>, fb: seq<Step>)
    requires forall s :: s in fa <==> s in fb
    requires var r := Deduped(fa); Sorted(ByTime, r) && DistinctKeys(Idx, r) && forall s :: s in r <==> s in fa
    requires var r := Deduped(fb); Sorted(ByTime, r) && DistinctKeys(Idx, r) && forall s :: s in r <==> s in fb
    ensures Deduped(fa) == Deduped(fb)
  {
    hide Deduped, Sorted, DistinctKeys, Separates;
    ByTimePreorder();
    StrictUnique(ByTime, Idx, Deduped(fa), Deduped(fb));
  }

  lemma AssembledMembers(eps: seq<EpisodeRow>, steps: seq<Step>, o: seq<EpisodeRow>)
    requires DistinctKeys(Id, o)
    ensures var r := AssembledAll(eps, steps, o);
            DistinctKeys(IdOf, r) && forall t :: t in r <==> t.row in o && t == Assembled(eps, steps, t.row)
  {
    hide Assembled;
    var r := AssembledAll(eps, steps, o);
    forall i | 0 <= i < |o| ensures r[i].row == o[i] { RowKept(eps, steps, o[i]); }
    forall i, j | 0 <= i < j < |r| ensures IdOf(r[i]) != IdOf(r[j]) { assert Id(o[i]) != Id(o[j]); }
    forall t
      ensures t in r <==> t.row in o && t == Assembled(eps, steps, t.row)
    {
      if t.row in o && t == Assembled(eps, steps, t.row) {
        var i :| 0 <= i < |o| && o[i] == t.row;
        assert r[i] == t;
      }
    }
  }

  lemma RowKept(eps: seq<EpisodeRow>, steps: seq<Step>, e: EpisodeRow)
    ensures Assembled(eps, steps, e).row == e
  {
  }

  lemma SameAssembled(eps: seq<EpisodeRow>, eps': seq<EpisodeRow>, steps: seq<Step>, steps': seq<Step>, e: EpisodeRow)
    requires Consistent(eps, steps)
    requires (forall x :: x in eps <==> x in eps') && (forall s :: s in steps <==> s in steps')
    ensures Assembled(eps, steps, e) == Assembled(eps', steps', e)
  {
    hide Deduped, Filter;
    SameSteps(steps, steps', e.id);
  }

  lemma {:induction false} LoadedFacts(eps: seq<EpisodeRow>, steps: seq<Step>)
    requires Consistent(eps, steps)
    ensures var r := Sort(Earlier, AssembledAll(eps, steps, FirstOf(Id, Filter(IsOriginal, eps), {})));
            && Sorted(Earlier, r) && DistinctKeys(IdOf, r)
            && forall t :: t in r <==> t.row in eps && !t.row.patched && t == Assembled(eps, steps, t.row)
  {
    hide Assembled, FirstOf, Filter, Sort, Sorted, DistinctKeys, AssembledAll;
    var o := FirstOf(Id, Filter(IsOriginal, eps), {});
    Originals(eps, steps);
    AssembledMembers(eps, steps, o);
    var all := AssembledAll(eps, steps, o);
    EarlierOrder();
    SortSorted(Earlier, all);
    SortMembers(Earlier, all);
    SortMultiset(Earlier, all);
    PermutedDistinct(IdOf, all, Sort(Earlier, all));
  }

  /** Redelivery is invisible to the reader: two lakes that hold the same rows, however often,
      in whatever files and order, are read as the same trajectories. */
  lemma {:induction false} RedeliveredLake(files: seq<File>, files': seq<File>)
    requires Consistent(EpisodeRows(files), StepRows(files))
    requires forall e :: e in EpisodeRows(files) <==> e in EpisodeRows(files')
    requires forall s :: s in StepRows(files) <==> s in StepRows(files')
    ensures Loaded(files) == Loaded(files')
  {
    hide EpisodeRows, StepRows, Assembled, FirstOf, Filter, Sort, Sorted, DistinctKeys, AssembledAll, Separates;
    var eps, steps, eps', steps' := EpisodeRows(files), StepRows(files), EpisodeRows(files'), StepRows(files');
    assert Consistent(eps', steps');
    LoadedFacts(eps, steps);
    LoadedFacts(eps', steps');
    forall e
      ensures Assembled(eps, steps, e) == Assembled(eps', steps', e)
    {
      SameAssembled(eps, eps', steps, steps', e);
    }
    EarlierOrder();
    StrictUnique(Earlier, IdOf, Loaded(files), Loaded(files'));
  }

  // ---------- what the reader gets, row by row ----------

  /** One episode of a lake: an original row, marked exactly when a patch row names it, and of the
      step rows with its id one for each index, in order of time and then index. */
  ghost predicate Reads(eps: seq<EpisodeRow>, steps: seq<Step>, t: Trajectory)
  {
    && t.row in eps && !t.row.patched
    && (t.patched <==> exists p :: p in eps && p.patched && p.id == t.row.id)
    && (forall s | s in t.steps :: s in steps && s.episodeID == t.row.id)
    && (forall s | s in steps && s.episodeID == t.row.id :: exists i :: 0 <= i < |t.steps| && t.steps[i].idx == s.idx)
    && (forall a, b | 0 <= a < b < |t.steps| ::
          || t.steps[a].startedAt < t.steps[b].startedAt
          || (t.steps[a].startedAt == t.steps[b].startedAt && t.steps[a].idx < t.steps[b].idx))
    && (forall a, b | 0 <= a < b < |t.steps| :: t.steps[a].idx != t.steps[b].idx)
  }

  lemma AssembledReads(eps: seq<EpisodeRow>, steps: seq<Step>, e: EpisodeRow)
    requires e in eps && !e.patched
    ensures Reads(eps, steps, Assembled(eps, steps, e))
  {
    hide Filter, Deduped;
    var rows := Filter(OfEpisode(e.id), steps);
    forall s ensures s in rows <==> s in steps && s.episodeID == e.id { FilterMembers(OfEpisode(e.id), steps, s); }
    var r := Deduped(rows);
    DedupedShape(rows);
    forall s | s in steps && s.episodeID == e.id
      ensures exists i :: 0 <= i < |r| && r[i].idx == s.idx
    {
      var u := KeptFor(rows, s);
      var i :| 0 <= i < |r| && r[i] == u;
    }
    forall a, b | 0 <= a < b < |r|
      ensures r[a].idx != r[b].idx && ByTime(r[a], r[b])
    {
      assert Idx(r[a]) != Idx(r[b]);
    }
  }

  lemma {:induction false} OriginalKept(rows: seq<EpisodeRow>, seen: set<string>, e: EpisodeRow) returns (d: EpisodeRow)
    requires e in rows && e.id !in seen
    ensures d in FirstOf(Id, rows, seen) && d.id == e.id
  {
    var x := rows[0];
    if x.id == e.id {
      d := x;
    } else {
      d := OriginalKept(rows[1..], if x.id in seen then seen else seen + {x.id}, e);
    }
  }

  lemma FirstRows(eps: seq<EpisodeRow>)
    ensures var o := FirstOf(Id, Filter(IsOriginal, eps), {});
            DistinctKeys(Id, o) && forall e | e in o :: e in eps && !e.patched
  {
    hide FirstOf, Filter;
    var s := Filter(IsOriginal, eps);
    forall e ensures e in s <==> e in eps && !e.patched { FilterMembers(IsOriginal, eps, e); }
    FirstOfDistinct(Id, s, {});
    forall e | e in FirstOf(Id, s, {}) ensures e in s { FirstOfMembers(Id, s, {}); }
  }

  /** The whole lake: every episode with an original row exactly once, by start and then id. */
  lemma LoadedMeans(files: seq<File>)
    ensures var r := Loaded(files); var eps := EpisodeRows(files);
            && (forall t | t in r :: Reads(eps, StepRows(files), t))
            && (forall e | e in eps && !e.patched :: exists i :: 0 <= i < |r| && r[i].row.id == e.id)
            && (forall a, b | 0 <= a < b < |r| ::
                  || r[a].row.startedAt < r[b].row.startedAt
                  || (r[a].row.startedAt == r[b].row.startedAt && StrLess(r[a].row.id, r[b].row.id)))
            && (forall a, b | 0 <= a < b < |r| :: r[a].row.id != r[b].row.id)
  {
    hide EpisodeRows, StepRows, Filter, FirstOf, Sort, AssembledAll, Assembled, Reads;
    var eps, steps := EpisodeRows(files), StepRows(files);
    var s := Filter(IsOriginal, eps);
    var o := FirstOf(Id, s, {});
    FirstRows(eps);
    AssembledMembers(eps, steps, o);
    var all := AssembledAll(eps, steps, o);
    var r := Loaded(files);
    assert r == Sort(Earlier, all);
    hide Loaded;
    LoadedOrder(all);
    forall t | t in r
      ensures Reads(eps, steps, t)
    {
      AssembledReads(eps, steps, t.row);
    }
    forall e | e in eps && !e.patched
      ensures exists i :: 0 <= i < |r| && r[i].row.id == e.id
    {
      FilterMembers(IsOriginal, eps, e);
      var d := OriginalKept(s, {}, e);
      RowKept(eps, steps, d);
      var i :| 0 <= i < |r| && r[i] == Assembled(eps, steps, d);
    }
  }

  lemma LoadedOrder(all: seq<Trajectory>)
    requires DistinctKeys(IdOf, all)
    ensures var r := Sort(Earlier, all);
            && (forall t :: t in r <==> t in all) && (forall a, b | 0 <= a < b < |r| :: r[a].row.id != r[b].row.id)
            && (forall a, b | 0 <= a < b < |r| ::
                  || r[a].row.startedAt < r[b].row.startedAt
                  || (r[a].row.startedAt == r[b].row.startedAt && StrLess(r[a].row.id, r[b].row.id)))
  {
    hide Sort, StrLess;
    var r := Sort(Earlier, all);
    EarlierOrder();
    SortSorted(Earlier, all);
    SortMembers(Earlier, all);
    SortMultiset(Earlier, all);
    PermutedDistinct(IdOf, all, r);
    forall a, b | 0 <= a < b < |r|
      ensures r[a].row.id != r[b].row.id && Earlier(r[a], r[b])
    {
      assert IdOf(r[a]) != IdOf(r[b]);
    }
  }
}
