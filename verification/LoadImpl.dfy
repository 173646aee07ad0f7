/** The reader as the program runs it: one pass over the files, then the steps and the patch marks. */
module LoadImpl {
  import opened Basics
  import opened Sorting
  import opened Dedup
  import opened Records
  import opened LakeRead
  import opened Load

  type StepMap = map<string, seq<Step>>

  function At(m: StepMap, id: string): seq<Step> { if id in m then m[id] else [] }

  /** What has been gathered from the episode rows so far. */
  ghost predicate Gathered(rows: seq<EpisodeRow>, episodes: seq<EpisodeRow>, ids: set<string>, patches: seq<EpisodeRow>)
  {
    var o := Filter(IsOriginal, rows);
    episodes == FirstOf(Id, o, {}) && ids == KeySet(Id, o) && patches == Filter(IsPatch, rows)
  }

  lemma GatherOne(rows: seq<EpisodeRow>, episodes: seq<EpisodeRow>, ids: set<string>, patches: seq<EpisodeRow>,
                  e: EpisodeRow)
    requires Gathered(rows, episodes, ids, patches)
    ensures e.patched ==> Gathered(rows + [e], episodes, ids, patches + [e])
    ensures !e.patched && e.id in ids ==> Gathered(rows + [e], episodes, ids, patches)
    ensures !e.patched && e.id !in ids ==> Gathered(rows + [e], episodes + [e], ids + {e.id}, patches)
  {
    hide Filter, FirstOf, KeySet;
    FilterConcat(IsOriginal, rows, [e]);
    FilterConcat(IsPatch, rows, [e]);
    FilterSingle(e);
    var o := Filter(IsOriginal, rows);
    assert o + [] == o && patches + [] == patches;
    KeepSnoc(o, e);
  }

  lemma FilterSingle(e: EpisodeRow)
    ensures Filter(IsOriginal, [e]) == (if e.patched then [] else [e])
            && Filter(IsPatch, [e]) == (if e.patched then [e] else [])
  {
    assert [e][1..] == [];
  }

  lemma {:induction false} KeepSnoc(o: seq<EpisodeRow>, e: EpisodeRow)
    ensures FirstOf(Id, o + [e], {}) == FirstOf(Id, o, {}) + (if e.id in KeySet(Id, o) then [] else [e])
    ensures KeySet(Id, o + [e]) == KeySet(Id, o) + {e.id}
  {
    FirstOfConcat(Id, o, [e], {});
    assert {} + KeySet(Id, o) == KeySet(Id, o);
    assert [e][1..] == [];
    var w := o + [e];
    forall k | k in KeySet(Id, o) + {e.id}
      ensures k in KeySet(Id, w)
    {
      if k in KeySet(Id, o) { var i :| 0 <= i < |o| && Id(o[i]) == k; assert Id(w[i]) == k; }
      else { assert Id(w[|o|]) == k; }
    }
  }

  /** Adds one file's episode rows. */
  method AddEpisodes(rows: seq<EpisodeRow>, episodes: seq<EpisodeRow>, ids: set<string>, patches: seq<EpisodeRow>,
                     ghost before: seq<EpisodeRow>)
    returns (episodes': seq<EpisodeRow>, ids': set<string>, patches': seq<EpisodeRow>)
    requires Gathered(before, episodes, ids, patches)
    ensures Gathered(before + rows, episodes', ids', patches')
  {
    hide Gathered;
    episodes', ids', patches' := episodes, ids, patches;
    var j := 0;
    assert before + rows[..0] == before;
    while j < |rows|
      invariant j <= |rows| && Gathered(before + rows[..j], episodes', ids', patches')
    {
      var e := rows[j];
      GatherOne(before + rows[..j], episodes', ids', patches', e);
      assert before + rows[..j + 1] == before + rows[..j] + [e];
      j := j + 1;
      if e.patched {
        patches' := patches' + [e];
        continue;
      }
      if e.id in ids' { continue; }
      ids' := ids' + {e.id};
      episodes' := episodes' + [e];
    }
    assert rows[..j] == rows;
  }

  ghost predicate StepsGathered(rows: seq<Step>, m: StepMap) { forall id :: At(m, id) == Filter(OfEpisode(id), rows) }

  lemma StepOne(rows: seq<Step>, m: StepMap, s: Step)
    requires StepsGathered(rows, m)
    ensures StepsGathered(rows + [s], m[s.episodeID := At(m, s.episodeID) + [s]])
  {
    var m' := m[s.episodeID := At(m, s.episodeID) + [s]];
    forall id
      ensures At(m', id) == Filter(OfEpisode(id), rows + [s])
    {
      FilterConcat(OfEpisode(id), rows, [s]);
      assert [s][1..] == [];
    }
  }

  /** Adds one file's steps, episode by episode. */
  method AddSteps(rows: seq<Step>, m: StepMap, ghost before: seq<Step>) returns (m': StepMap)
    requires StepsGathered(before, m)
    ensures StepsGathered(before + rows, m')
  {
    hide StepsGathered;
    m' := m;
    var j := 0;
    assert before + rows[..0] == before;
    while j < |rows|
      invariant j <= |rows| && StepsGathered(before + rows[..j], m')
    {
      var s := rows[j];
      StepOne(before + rows[..j], m', s);
      assert before + rows[..j + 1] == before + rows[..j] + [s];
      m' := m'[s.episodeID := At(m', s.episodeID) + [s]];
      j := j + 1;
    }
    assert rows[..j] == rows;
  }

  /** What has been read so far. */
  ghost predicate ReadUpTo(files: seq<File>, i: nat, episodes: seq<EpisodeRow>, ids: set<string>,
                           patches: seq<EpisodeRow>,
                           steps: StepMap, outcomes: seq<string>, rewards: seq<string>)
    requires i <= |files|
  {
    && Gathered(EpisodeRows(files[..i]), episodes, ids, patches) && StepsGathered(StepRows(files[..i]), steps)
    && outcomes == OutcomeRows(files[..i]) && rewards == RewardRows(files[..i]) && Unreadable !in files[..i]
  }

  /** One pass over the files; an unreadable one ends it. */
  method Gather(files: seq<File>)
    returns (err: bool, episodes: seq<EpisodeRow>, patches: seq<EpisodeRow>, steps: StepMap, outcomes: seq<string>,
             rewards: seq<string>)
    ensures err <==> Unreadable in files
    ensures !err ==>
              && episodes == FirstOf(Id, Filter(IsOriginal, EpisodeRows(files)), {})
              && patches == Filter(IsPatch, EpisodeRows(files)) && StepsGathered(StepRows(files), steps)
              && outcomes == OutcomeRows(files) && rewards == RewardRows(files)
  {
    hide Gathered, StepsGathered, EpisodeRows, StepRows, OutcomeRows, RewardRows, Filter, FirstOf;
    var ids: set<string> := {};
    NothingRead(files);
    err, episodes, patches, steps, outcomes, rewards := false, [], [], map[], [], [];
    var i := 0;
    while i < |files|
      invariant i <= |files| && !err && ReadUpTo(files, i, episodes, ids, patches, steps, outcomes, rewards)
    {
      RowsSnoc(files, i);
      match files[i] {
        case EpisodeFile(rows) =>
          episodes, ids, patches := AddEpisodes(rows, episodes, ids, patches, EpisodeRows(files[..i]));
        case StepFile(rows) => steps := AddSteps(rows, steps, StepRows(files[..i]));
        case OutcomeFile(rows) => outcomes := outcomes + rows;
        case RewardFile(rows) => rewards := rewards + rows;
        case Unreadable => err := true; return;
      }
      i := i + 1;
    }
    assert files[..i] == files;
    GatheredIs(EpisodeRows(files), episodes, ids, patches);
  }

  lemma NothingRead(files: seq<File>)
    ensures ReadUpTo(files, 0, [], {}, [], map[], [], [])
  {
  }

  lemma {:induction false} GatheredIs(rows: seq<EpisodeRow>, episodes: seq<EpisodeRow>, ids: set<string>,
                                      patches: seq<EpisodeRow>)
    requires Gathered(rows, episodes, ids, patches)
    ensures episodes == FirstOf(Id, Filter(IsOriginal, rows), {}) && patches == Filter(IsPatch, rows)
  {
  }

  lemma RowsSnoc(files: seq<File>, i: nat)
    requires i < |files|
    ensures var f, a, b := files[i], files[..i], files[..i + 1];
            && EpisodeRows(b) == (if f.EpisodeFile? then EpisodeRows(a) + f.episodes else EpisodeRows(a))
            && StepRows(b) == (if f.StepFile? then StepRows(a) + f.steps else StepRows(a))
            && OutcomeRows(b) == (if f.OutcomeFile? then OutcomeRows(a) + f.outcomes else OutcomeRows(a))
            && RewardRows(b) == (if f.RewardFile? then RewardRows(a) + f.rewards else RewardRows(a))
            && (Unreadable in b <==> Unreadable in a || f == Unreadable)
  {
    assert files[..i + 1][..i] == files[..i] && files[..i + 1][i] == files[i];
    assert files[..i + 1] == files[..i] + [files[i]];
  }

  /** One episode's steps, deduplicated in place. */
  method StepsFor(m: StepMap, id: string) returns (steps: seq<Step>)
    ensures steps == Deduped(At(m, id))
  {
    if id !in m { return []; }
    var a := new Step[|m[id]|](i requires 0 <= i < |m[id]| => m[id][i]);
    assert a[..] == m[id];
    var n := DedupeSteps(a);
    steps := a[..n];
  }

  /** Where each id is. */
  ghost predicate Indexes(byId: map<string, nat>, episodes: seq<EpisodeRow>, n: nat)
    requires n <= |episodes|
  {
    && (forall id | id in byId :: byId[id] < n && episodes[byId[id]].id == id)
    && (forall j | 0 <= j < n :: episodes[j].id in byId && byId[episodes[j].id] == j)
  }

  method Build(episodes: seq<EpisodeRow>, m: StepMap) returns (all: array<Trajectory>, byId: map<string, nat>)
    requires DistinctKeys(Id, episodes)
    ensures fresh(all) && all.Length == |episodes| && Indexes(byId, episodes, |episodes|)
    ensures forall j | 0 <= j < |episodes| :: all[j] == Trajectory(episodes[j], Deduped(At(m, episodes[j].id)), false)
  {
    hide Deduped;
    all := new Trajectory[|episodes|];
    byId := map[];
    var i := 0;
    while i < |episodes|
      invariant i <= |episodes| && Indexes(byId, episodes, i)
      invariant forall j | 0 <= j < i :: all[j] == Trajectory(episodes[j], Deduped(At(m, episodes[j].id)), false)
    {
      var steps := StepsFor(m, episodes[i].id);
      all[i] := Trajectory(episodes[i], steps, false);
      assert forall j | 0 <= j < i :: Id(episodes[j]) != Id(episodes[i]);
      byId := byId[episodes[i].id := i];
      i := i + 1;
    }
  }

  predicate Marked(patches: seq<EpisodeRow>, k: nat, id: string)
    requires k <= |patches|
  {
    exists q :: 0 <= q < k && patches[q].id == id
  }

  method MarkPatched(episodes: seq<EpisodeRow>, patches: seq<EpisodeRow>, byId: map<string, nat>,
                     all: array<Trajectory>)
    requires all.Length == |episodes| && Indexes(byId, episodes, |episodes|)
    requires forall j | 0 <= j < |episodes| :: !all[j].patched
    modifies all
    ensures forall j | 0 <= j < |episodes| ::
              all[j] == old(all[j]).(patched := Marked(patches, |patches|, episodes[j].id))
  {
    var k := 0;
    while k < |patches|
      invariant k <= |patches|
      invariant forall j | 0 <= j < |episodes| :: all[j] == old(all[j]).(patched := Marked(patches, k, episodes[j].id))
    {
      var id := patches[k].id;
      MarkNext(patches, k);
      if id in byId { all[byId[id]] := all[byId[id]].(patched := true); }
      hide Marked;
      k := k + 1;
    }
  }

  lemma MarkNext(patches: seq<EpisodeRow>, k: nat)
    requires k < |patches|
    ensures forall id :: Marked(patches, k + 1, id) <==> Marked(patches, k, id) || id == patches[k].id
  {
    forall id
      ensures Marked(patches, k + 1, id) <==> Marked(patches, k, id) || id == patches[k].id
    {
      if id == patches[k].id { assert patches[k].id == id; }
    }
  }

  /** Reads the listed files, or fails if one of them cannot be read. */
  method LoadFiles(files: seq<File>)
    returns (err: bool, lake: seq<Trajectory>, outcomes: seq<string>, rewards: seq<string>)
    ensures err <==> Unreadable in files
    ensures !err ==> lake == Loaded(files) && outcomes == OutcomeRows(files) && rewards == RewardRows(files)
  {
    hide Loaded, EpisodeRows, StepRows, OutcomeRows, RewardRows, Filter, FirstOf, Deduped, Sort, Marked,
        DistinctKeys, Indexes;
    var episodes, patches, m;
    lake := [];
    err, episodes, patches, m, outcomes, rewards := Gather(files);
    if err { return; }
    KeptIds(EpisodeRows(files));
    var all, byId := Build(episodes, m);
    MarkPatched(episodes, patches, byId, all);
    Assembly(files, episodes, patches, m, all[..]);
    lake := Sort(Earlier, all[..]);
  }

  lemma {:induction false} KeptIds(rows: seq<EpisodeRow>)
    ensures DistinctKeys(Id, FirstOf(Id, Filter(IsOriginal, rows), {}))
  {
    FirstOfDistinct(Id, Filter(IsOriginal, rows), {});
  }

  lemma {:induction false} Assembly(files: seq<File>, episodes: seq<EpisodeRow>, patches: seq<EpisodeRow>, m: StepMap,
                 all: seq<Trajectory>)
    requires episodes == FirstOf(Id, Filter(IsOriginal, EpisodeRows(files)), {})
             && patches == Filter(IsPatch, EpisodeRows(files))
    requires StepsGathered(StepRows(files), m) && |all| == |episodes|
    requires forall j | 0 <= j < |episodes| ::
               all[j] == Trajectory(episodes[j], Deduped(At(m, episodes[j].id)),
                                    Marked(patches, |patches|, episodes[j].id))
    ensures Sort(Earlier, all) == Loaded(files)
  {
    hide EpisodeRows, StepRows, Filter, FirstOf, Deduped, Sort;
    var eps := EpisodeRows(files);
    forall j | 0 <= j < |episodes|
      ensures all[j] == Assembled(eps, StepRows(files), episodes[j])
    {
      PatchMark(eps, patches, episodes[j].id);
    }
    assert all == AssembledAll(eps, StepRows(files), episodes);
  }

  lemma {:induction false} PatchMark(eps: seq<EpisodeRow>, patches: seq<EpisodeRow>, id: string)
    requires patches == Filter(IsPatch, eps)
    ensures Marked(patches, |patches|, id) <==> exists p :: p in eps && p.patched && p.id == id
  {
    hide Filter;
    forall e ensures e in patches <==> e in eps && e.patched { FilterMembers(IsPatch, eps, e); }
    if p :| p in eps && p.patched && p.id == id {
      assert p in patches;
      var q :| 0 <= q < |patches| && patches[q] == p;
      assert patches[q].id == id;
    }
    if q :| 0 <= q < |patches| && patches[q].id == id { assert patches[q] in patches; }
  }
}
