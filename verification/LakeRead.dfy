/** The reader's step order: time, then index, redeliveries dropped. Late arrival and repeated
    delivery leave no trace in it. */
module LakeRead {
  import opened Basics
  import opened Sorting
  import opened Dedup
  import opened Records
  import opened Episode
  import opened Close
  import opened Assembling
  import Conserve

  predicate ByTime(a: Step, b: Step)
  {
    if a.startedAt != b.startedAt then a.startedAt < b.startedAt else a.idx <= b.idx
  }

  function Idx(s: Step): int { s.idx }

  /** What a reader sees of an episode's rows. */
  function Deduped(rows: seq<Step>): seq<Step> { FirstOf(Idx, Sort(ByTime, rows), {}) }

  lemma ByTimePreorder()
    ensures Preorder(ByTime) && Separates(ByTime, Idx)
  {
  }

  /** Sorts the rows, then drops repeated indices in place. */
  method DedupeSteps(a: array<Step>) returns (n: nat)
    modifies a
    ensures n <= a.Length && a[..n] == Deduped(old(a[..]))
  {
    var sorted := Sort(ByTime, a[..]);
    var i := 0;
    while i < a.Length
      invariant i <= a.Length == |sorted|
      invariant a[..i] == sorted[..i]
    {
      a[i] := sorted[i];
      i := i + 1;
    }
    assert a[..] == sorted;
    n := Compact(Idx, a);
  }

  // ---------- copies are invisible ----------

  /** rows holds each of the distinct rows at least once, and nothing else. */
  ghost predicate CopiesOf(rows: seq<Step>, distinct: seq<Step>)
  {
    forall s :: s in rows <==> s in distinct
  }

  lemma DedupedFacts(rows: seq<Step>)
    ensures var r := Deduped(rows);
            && Sorted(ByTime, r) && DistinctKeys(Idx, r)
            && (forall s | s in r :: s in rows)
            && (forall s | s in rows :: exists t :: t in r && t.idx == s.idx)
            && |r| == |KeySet(Idx, rows)|
  {
    ByTimePreorder();
    var sorted := Sort(ByTime, rows);
    SortSorted(ByTime, rows);
    SortMembers(ByTime, rows);
    FirstOfMembers(Idx, sorted, {});
    FirstOfDistinct(Idx, sorted, {});
    FirstOfSorted(ByTime, Idx, sorted, {});
    FirstOfLength(Idx, sorted, {});
    assert KeySet(Idx, sorted) - {} == KeySet(Idx, rows) by { SameKeys(sorted, rows); }
    forall s | s in rows
      ensures exists t :: t in Deduped(rows) && t.idx == s.idx
    {
      assert s in sorted && Idx(s) !in {};
      var t :| t in FirstOf(Idx, sorted, {}) && Idx(t) == Idx(s);
      assert t.idx == s.idx;
    }
  }

  lemma SameKeys(a: seq<Step>, b: seq<Step>)
    requires forall s :: s in a <==> s in b
    ensures KeySet(Idx, a) == KeySet(Idx, b)
  {
    SameKeySet(Idx, a, b);
    SameKeySet(Idx, b, a);
  }

  /** Redelivery: whatever copies of an episode's rows are in the lake and in whatever order,
      the reader gets each row once, in time order - provided distinct rows have distinct
      indices. */
  lemma {:induction false} RedeliveryInvisible(rows: seq<Step>, distinct: seq<Step>)
    requires CopiesOf(rows, distinct) && DistinctKeys(Idx, distinct)
    ensures Deduped(rows) == Sort(ByTime, distinct)
  {
    hide Deduped, Sort, Sorted, DistinctKeys, KeySet, Separates;
    var r, c := Deduped(rows), Sort(ByTime, distinct);
    DedupedShape(rows);
    ByTimePreorder();
    SortSorted(ByTime, distinct);
    SortMembers(ByTime, distinct);
    SortKeysDistinct(distinct);
    forall s | s in distinct
      ensures s in r
    {
      var t := KeptFor(rows, s);
      OneRow(distinct, s, t);
    }
    StrictUnique(ByTime, Idx, r, c);
  }

  lemma DedupedShape(rows: seq<Step>)
    ensures var r := Deduped(rows); Sorted(ByTime, r) && DistinctKeys(Idx, r) && forall s | s in r :: s in rows
  {
    hide Deduped, KeySet;
    DedupedFacts(rows);
  }

  lemma KeptFor(rows: seq<Step>, s: Step) returns (t: Step)
    requires s in rows
    ensures t in Deduped(rows) && t.idx == s.idx
  {
    hide Deduped, KeySet, Sorted, DistinctKeys;
    DedupedFacts(rows);
    t :| t in Deduped(rows) && t.idx == s.idx;
  }

  lemma OneRow(rows: seq<Step>, s: Step, t: Step)
    requires DistinctKeys(Idx, rows) && s in rows && t in rows && s.idx == t.idx
    ensures s == t
  {
    var i :| 0 <= i < |rows| && rows[i] == s;
    var j :| 0 <= j < |rows| && rows[j] == t;
    assert Idx(rows[i]) == Idx(rows[j]);
  }

  lemma {:induction false} SortKeysDistinct(rows: seq<Step>)
    requires DistinctKeys(Idx, rows)
    ensures DistinctKeys(Idx, Sort(ByTime, rows))
  {
    SortMultiset(ByTime, rows);
    PermutedDistinct(Idx, rows, Sort(ByTime, rows));
  }

  // ---------- late arrival ----------

  /** A late span as its patch row. */
  function LateRow(id: string, env: Envelope, n: nat): Step
  {
    env.step.(episodeID := id, idx := PATCH_IDX_BASE + n)
  }

  function LateRows(id: string, late: seq<Envelope>): (rows: seq<Step>)
    ensures |rows| == |late|
  {
    seq(|late|, i requires 0 <= i < |late| => LateRow(id, late[i], i))
  }

  /** The step row a patch is emitted with. */
  function PatchRow(o: Out): Step
    requires o.Patch?
  {
    o.env.step.(episodeID := o.episodeID, idx := o.idx)
  }

  /** Late rows are what the assembler emits: in a run that forgot no session, the j-th patch
      of an episode is the j-th late row. */
  lemma {:induction false} PatchesAreLateRows(c: Config, evs: seq<Event>, id: string, j: nat)
    requires Configured(c) && |Conserve.ClosedIn(Run(c, evs).out)| <= c.patchMemory
    requires j < |Conserve.PatchesOf(Run(c, evs).out, id)|
    ensures var p := Conserve.PatchesOf(Run(c, evs).out, id); p[j].Patch? && PatchRow(p[j]) == LateRow(id, p[j].env, j)
  {
    hide Run, Conserve.PatchesOf, Conserve.ClosedIn;
    Conserve.PatchesNumbered(c, evs, id);
    var p := Conserve.PatchesOf(Run(c, evs).out, id);
    assert Conserve.IsPatchOf(p[j], id);
  }

  /** The rows of an episode: those it was emitted with and one patch per late span. */
  function RowsOf(f: InFlight, ids: seq<string>, late: seq<Envelope>): seq<Step>
    requires forall k | k in ids :: k in f.spans
  {
    StepsOf(f, ids) + LateRows(f.episodeID, late)
  }

  lemma RowIndex(f: InFlight, ids: seq<string>, late: seq<Envelope>, i: nat)
    requires (forall k | k in ids :: k in f.spans) && i < |ids| + |late|
    ensures var rows := RowsOf(f, ids, late);
            |rows| == |ids| + |late| && rows[i].idx == if i < |ids| then i else PATCH_IDX_BASE + (i - |ids|)
  {
    hide ParentOf;
  }

  /** Original and patch indices never collide if and only if at most 2^20 spans were on time,
      or none was late. */
  lemma IndicesDistinct(f: InFlight, ids: seq<string>, late: seq<Envelope>)
    requires forall k | k in ids :: k in f.spans
    ensures DistinctKeys(Idx, RowsOf(f, ids, late)) <==> |ids| <= PATCH_IDX_BASE || late == []
  {
    hide StepsOf, LateRows;
    var rows := RowsOf(f, ids, late);
    forall i | 0 <= i < |ids| + |late|
      ensures |rows| == |ids| + |late| && Idx(rows[i]) == if i < |ids| then i else PATCH_IDX_BASE + (i - |ids|)
    {
      RowIndex(f, ids, late, i);
    }
    if |ids| > PATCH_IDX_BASE && late != [] {
      assert Idx(rows[PATCH_IDX_BASE]) == Idx(rows[|ids|]);
    }
    if |ids| + |late| == 0 { NoRows(f, ids, late); }
  }

  lemma NoRows(f: InFlight, ids: seq<string>, late: seq<Envelope>)
    requires ids == [] && late == []
    ensures StepsOf(f, ids) == [] && LateRows(f.episodeID, late) == []
  {
  }

  /** No step is lost, whatever copies arrive, if and only if that holds. */
  lemma NoStepLost(f: InFlight, ids: seq<string>, late: seq<Envelope>, rows: seq<Step>)
    requires (forall k | k in ids :: k in f.spans) && CopiesOf(rows, RowsOf(f, ids, late))
    ensures |Deduped(rows)| == |ids| + |late| <==> |ids| <= PATCH_IDX_BASE || late == []
  {
    hide RowsOf, Deduped, KeySet, DistinctKeys, Sorted;
    var all := RowsOf(f, ids, late);
    RowsLength(f, ids, late);
    IndicesDistinct(f, ids, late);
    DedupedFacts(rows);
    SameKeys(rows, all);
    DistinctIffFull(Idx, all);
  }

  lemma RowsLength(f: InFlight, ids: seq<string>, late: seq<Envelope>)
    requires forall k | k in ids :: k in f.spans
    ensures |RowsOf(f, ids, late)| == |ids| + |late|
  {
    hide ParentOf;
  }

  /** A step without the fields that say when it was assembled. */
  function Content(s: Step): Step { s.(idx := 0, parent := None) }

  function Contents(rows: seq<Step>): (r: seq<Step>)
    ensures |r| == |rows|
  {
    seq(|rows|, i requires 0 <= i < |rows| => Content(rows[i]))
  }

  function SpanContent(id: string, env: Envelope): Step { Content(env.step.(episodeID := id)) }

  function SpanContents(id: string, envs: seq<Envelope>): (r: seq<Step>)
    ensures |r| == |envs|
  {
    seq(|envs|, i requires 0 <= i < |envs| => SpanContent(id, envs[i]))
  }

  function Chosen(spans: map<string, Envelope>, ids: seq<string>): (envs: seq<Envelope>)
    requires forall k | k in ids :: k in spans
    ensures |envs| == |ids|
  {
    seq(|ids|, i requires 0 <= i < |ids| => assert ids[i] in ids; spans[ids[i]])
  }

  lemma RowContents(f: InFlight, ids: seq<string>, late: seq<Envelope>)
    requires forall k | k in ids :: k in f.spans
    ensures Contents(RowsOf(f, ids, late)) == SpanContents(f.episodeID, Chosen(f.spans, ids) + late)
  {
    hide ParentOf;
    assert forall i | 0 <= i < |ids| :: ids[i] in ids;
  }

  lemma ContentsMultiset(a: seq<Step>, b: seq<Step>)
    requires multiset(a) == multiset(b)
    ensures multiset(Contents(a)) == multiset(Contents(b))
  {
    MapMultiset(Content, a, b, Contents(a), Contents(b));
  }

  lemma SpanContentsMultiset(id: string, a: seq<Envelope>, b: seq<Envelope>)
    requires multiset(a) == multiset(b)
    ensures multiset(SpanContents(id, a)) == multiset(SpanContents(id, b))
  {
    MapMultiset((e: Envelope) => SpanContent(id, e), a, b, SpanContents(id, a), SpanContents(id, b));
  }

  predicate TimeOrdered(rows: seq<Step>) { forall i, j | 0 <= i < j < |rows| :: rows[i].startedAt <= rows[j].startedAt }

  /** What the reader gets of an episode's rows, in whatever copies: the content of every span
      kept, on time or late, once each and in time order. */
  lemma ReadContents(f: InFlight, ids: seq<string>, late: seq<Envelope>, rows: seq<Step>)
    requires (forall k | k in ids :: k in f.spans) && |ids| <= PATCH_IDX_BASE && CopiesOf(rows, RowsOf(f, ids, late))
    ensures multiset(Contents(Deduped(rows))) == multiset(SpanContents(f.episodeID, Chosen(f.spans, ids) + late))
    ensures TimeOrdered(Deduped(rows))
  {
    hide StepsOf, LateRows, Deduped, Contents, SpanContents, Chosen;
    var all := RowsOf(f, ids, late);
    IndicesDistinct(f, ids, late);
    RedeliveryInvisible(rows, all);
    SortMultiset(ByTime, all);
    ContentsMultiset(Deduped(rows), all);
    RowContents(f, ids, late);
    DedupedFacts(rows);
    assert TimeOrdered(Deduped(rows));
  }

  /** Late arrival and redelivery are invisible: let the spans of a session be split in any way
      into those on time (at most 2^20) and those late, and let every row be in the lake any
      positive number of times. The reader gets the same steps, content for content and in time
      order, as from the episode emitted with all of them on time - up to index, parent and the
      order of steps that start together. */
  lemma LateArrivalInvisible(f: InFlight, ids: seq<string>, late: seq<Envelope>, rows: seq<Step>, whole: InFlight,
                             wids: seq<string>)
    requires Canonical(f.spans, ids) && |ids| <= PATCH_IDX_BASE && CopiesOf(rows, RowsOf(f, ids, late))
    requires Canonical(whole.spans, wids) && whole.episodeID == f.episodeID
    requires multiset(Chosen(whole.spans, wids)) == multiset(Chosen(f.spans, ids) + late)
    ensures multiset(Contents(Deduped(rows))) == multiset(Contents(StepsOf(whole, wids)))
    ensures TimeOrdered(Deduped(rows)) && TimeOrdered(StepsOf(whole, wids))
  {
    hide StepsOf, LateRows, Deduped, Contents, SpanContents, Canonical;
    CanonicalMembers(f.spans, ids);
    CanonicalMembers(whole.spans, wids);
    ReadContents(f, ids, late, rows);
    WholeContents(whole, wids);
    SpanContentsMultiset(f.episodeID, Chosen(f.spans, ids) + late, Chosen(whole.spans, wids));
    CanonicalTimes(whole, wids);
  }

  lemma WholeContents(f: InFlight, ids: seq<string>)
    requires forall k | k in ids :: k in f.spans
    ensures Contents(StepsOf(f, ids)) == SpanContents(f.episodeID, Chosen(f.spans, ids))
  {
    hide ParentOf;
    assert forall i | 0 <= i < |ids| :: ids[i] in ids;
  }

  lemma CanonicalTimes(f: InFlight, ids: seq<string>)
    requires Canonical(f.spans, ids)
    ensures (forall k | k in ids :: k in f.spans) && TimeOrdered(StepsOf(f, ids))
  {
    hide ParentOf;
    var steps := StepsOf(f, ids);
    forall i, j | 0 <= i < j < |steps|
      ensures steps[i].startedAt <= steps[j].startedAt
    {
      assert ids[i] in ids && ids[j] in ids && Less(f.spans, ids[i], ids[j]);
    }
  }
}
