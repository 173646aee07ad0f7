/** From the assembler to the reader: whatever a run emitted for an episode, delivered in whatever
    copies and order, is read as the spans the assembler kept. */
module LateRuns {
  import opened Basics
  import opened Sorting
  import opened Dedup
  import opened Records
  import opened Episode
  import opened Close
  import opened Assembling
  import opened LakeRead
  import Conserve

  /** s is a row of what the assembler handed on as o for episode id. */
  ghost predicate RowFrom(o: Out, id: string, s: Step)
  {
    match o
    case Closed(f, _) => f.episodeID == id && exists ids :: Canonical(f.spans, ids) && s in StepsOf(f, ids)
    case Patch(_, _, _, _, _) => Conserve.IsPatchOf(o, id) && s == PatchRow(o)
  }

  ghost predicate EmittedRow(out: seq<Out>, id: string, s: Step) { exists o :: o in out && RowFrom(o, id, s) }

  function Envelopes(patches: seq<Out>): (r: seq<Envelope>)
    requires forall p | p in patches :: p.Patch?
    ensures |r| == |patches|
  {
    seq(|patches|, i requires 0 <= i < |patches| => assert patches[i] in patches; patches[i].env)
  }

  lemma {:induction false} PatchMembers(out: seq<Out>, id: string, o: Out)
    ensures o in Conserve.PatchesOf(out, id) <==> o in out && Conserve.IsPatchOf(o, id)
  {
    if out != [] {
      var n := |out| - 1;
      PatchMembers(out[..n], id, o);
      assert o in out <==> o in out[..n] || o == out[n];
    }
  }

  lemma {:induction false} AllPatches(out: seq<Out>, id: string)
    ensures forall p | p in Conserve.PatchesOf(out, id) :: p.Patch?
  {
    forall p | p in Conserve.PatchesOf(out, id) ensures p.Patch? { PatchMembers(out, id, p); }
  }

  /** The only episode emitted under id is f. */
  predicate OnlyEpisode(out: seq<Out>, f: InFlight)
  {
    && (exists o :: o in out && o.Closed? && o.f == f)
    && forall o | o in out && o.Closed? && o.f.episodeID == f.episodeID :: o.f == f
  }

  /** The rows emitted for an episode are its canonical steps and its patches. */
  lemma {:induction false} EmittedAre(c: Config, evs: seq<Event>, f: InFlight, ids: seq<string>, s: Step)
    requires Configured(c) && |Conserve.ClosedIn(Run(c, evs).out)| <= c.patchMemory
    requires OnlyEpisode(Run(c, evs).out, f) && Canonical(f.spans, ids)
    ensures var out := Run(c, evs).out; var ps := Conserve.PatchesOf(out, f.episodeID);
            && (forall p | p in ps :: p.Patch?) && (forall k | k in ids :: k in f.spans)
            && (EmittedRow(out, f.episodeID, s) <==> s in RowsOf(f, ids, Envelopes(ps)))
  {
    hide Run, Conserve.PatchesOf, Conserve.ClosedIn, StepsOf, Less;
    var out, id := Run(c, evs).out, f.episodeID;
    var ps := Conserve.PatchesOf(out, id);
    AllPatches(out, id);
    CanonicalMembers(f.spans, ids);
    var late := LateRows(id, Envelopes(ps));
    forall j | 0 <= j < |ps|
      ensures ps[j].Patch? && late[j] == PatchRow(ps[j]) && ps[j] in ps
    {
      PatchesAreLateRows(c, evs, id, j);
    }
    if o :| o in out && RowFrom(o, id, s) {
      match o
      case Closed(g, _) =>
        var gids :| Canonical(g.spans, gids) && s in StepsOf(g, gids);
        SameOrder(f.spans, ids, gids);
      case Patch(_, _, _, _, _) =>
        PatchMembers(out, id, o);
        var j :| 0 <= j < |ps| && ps[j] == o;
        assert late[j] == s;
    }
    if s in StepsOf(f, ids) {
      var o :| o in out && o.Closed? && o.f == f;
      assert RowFrom(o, id, s);
    }
    if s in late {
      var j :| 0 <= j < |late| && late[j] == s;
      PatchMembers(out, id, ps[j]);
      assert RowFrom(ps[j], id, s);
    }
  }

  lemma SameOrder(spans: map<string, Envelope>, a: seq<string>, b: seq<string>)
    requires Canonical(spans, a) && Canonical(spans, b)
    ensures a == b
  {
    hide Less;
    CanonicalUnique(spans, a, b);
  }

  /** In every run that forgot no session: let an episode be the only one emitted under its id,
      with at most 2^20 steps, and let the lake hold any copies of exactly the rows the run
      emitted for it, as the episode and as patches. The reader gets every span kept, on time or
      late, content for content, once each and in time order. */
  lemma {:induction false} RunReadBack(c: Config, evs: seq<Event>, f: InFlight, ids: seq<string>, rows: seq<Step>)
    requires Configured(c) && |Conserve.ClosedIn(Run(c, evs).out)| <= c.patchMemory
    requires OnlyEpisode(Run(c, evs).out, f) && Canonical(f.spans, ids) && |ids| <= PATCH_IDX_BASE
    requires forall s :: s in rows <==> EmittedRow(Run(c, evs).out, f.episodeID, s)
    ensures var ps := Conserve.PatchesOf(Run(c, evs).out, f.episodeID);
            && (forall p | p in ps :: p.Patch?) && (forall k | k in ids :: k in f.spans)
            && multiset(Contents(Deduped(rows)))
               == multiset(SpanContents(f.episodeID, Chosen(f.spans, ids) + Envelopes(ps)))
            && TimeOrdered(Deduped(rows)) && |Deduped(rows)| == |ids| + |ps|
  {
    hide Run, Conserve.PatchesOf, Conserve.ClosedIn, Canonical, RowsOf, EmittedRow, OnlyEpisode;
    var ps := Conserve.PatchesOf(Run(c, evs).out, f.episodeID);
    AllPatches(Run(c, evs).out, f.episodeID);
    CanonicalMembers(f.spans, ids);
    var late := Envelopes(ps);
    forall s ensures s in rows <==> s in RowsOf(f, ids, late) { EmittedAre(c, evs, f, ids, s); }
    ReadContents(f, ids, late, rows);
    NoStepLost(f, ids, late, rows);
  }
}
