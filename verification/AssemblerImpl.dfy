/** The assembler as the program runs it: maps, the creation-ordered list and the FIFO updated
    in place, with the scanning and eviction loops. */
module AssemblerImpl {
  import opened Basics
  import opened Records
  import opened Episode
  import opened Close
  import opened Assembling

  /** An emitted episode. */
  datatype Assembled = Assembled(
    episodeID: string, source: string, status: Status, startedAt: int, endedAt: Option<int>,
    stepCount: nat, fidelity: Option<Fidelity>, error: Option<string>, meta: Meta, steps: seq<Step>)

  /** r is what closing f with this status emits: its steps in canonical order, counted. */
  ghost predicate Renders(f: InFlight, status: Status, r: Assembled)
  {
    && r.episodeID == f.episodeID && r.source == f.source && r.status == status && r.meta == f.meta
    && r.startedAt == f.startedAt && r.endedAt == (if f.endedAt > 0 then Some(f.endedAt) else None)
    && r.error == f.error && r.stepCount == |r.steps| == |f.spans|
    && r.fidelity.Some? && FidelityIs(r.steps, r.fidelity.value)
    && exists ids :: Canonical(f.spans, ids) && r.steps == StepsOf(f, ids)
  }

  ghost predicate FidelityIs(steps: seq<Step>, fid: Fidelity)
  {
    && (fid.hasParams <==> AllCarry(steps, KIND_LLM, (s: Step) => s.hasParams))
    && (fid.hasTokenSpans <==> AllCarry(steps, KIND_LLM, (s: Step) => s.tokenSpans > 0))
    && (fid.hasToolVersions <==> AllCarry(steps, KIND_TOOL, (s: Step) => s.hasToolVersion))
  }

  /** ep is the record handed on for o. */
  ghost predicate Emitted(o: Out, ep: Assembled)
  {
    match o
    case Closed(f, status) => Renders(f, status, ep)
    case Patch(_, _, id, env, idx) =>
      && ep.episodeID == id && ep.status == Patched && ep.stepCount == 1 && ep.fidelity == None
      && ep.source == env.source && ep.startedAt == env.step.startedAt && ep.endedAt == None && ep.error == None
      && ep.meta == env.meta.(raw := map[])
      && ep.steps == [env.step.(episodeID := id, idx := idx)]
  }

  /** What is handed on is exactly what has been emitted since, in order. */
  ghost predicate HandsOn(before: seq<Out>, now: seq<Out>, ready: seq<Assembled>)
  {
    && |now| == |before| + |ready| && before <= now
    && forall i | 0 <= i < |ready| :: Emitted(now[|before| + i], ready[i])
  }

  lemma HandsOnOne(before: seq<Out>, now: seq<Out>, ready: seq<Assembled>, o: Out, ep: Assembled)
    requires HandsOn(before, now, ready) && Emitted(o, ep)
    ensures HandsOn(before, now + [o], ready + [ep])
  {
    hide Emitted;
  }

  lemma HandsOnMore(a: seq<Out>, b: seq<Out>, c: seq<Out>, x: seq<Assembled>, y: seq<Assembled>)
    requires HandsOn(a, b, x) && HandsOn(b, c, y)
    ensures HandsOn(a, c, x + y)
  {
    hide Emitted;
  }

  lemma HandsOnNone(a: seq<Out>)
    ensures HandsOn(a, a, [])
  {
  }

  method Render(f: InFlight, status: Status) returns (ep: Assembled)
    ensures Renders(f, status, ep)
  {
    var ids, steps := OrderedSteps(f);
    var fid := FidelityOf(steps);
    CanonicalLength(f, ids, steps);
    ep := Assembled(f.episodeID, f.source, status, f.startedAt, if f.endedAt > 0 then Some(f.endedAt) else None,
                    |steps|, Some(fid), f.error, f.meta, steps);
  }

  function Marked(m: map<string, set<string>>, session: string, spans: set<string>): map<string, set<string>>
  {
    m[session := (if session in m then m[session] else {}) + spans]
  }

  class Assembler {
    const cfg: Config
    var open: map<string, InFlight>
    var order: seq<string>
    var emitted: map<string, string>
    var emittedFIFO: seq<string>
    var patchIdx: map<string, nat>
    var emittedSpans: map<string, set<string>>
    /** What has been handed to emit. */
    var out: seq<Out>

    ghost function View(): (a: Asm)
      reads this
    {
      Asm(open, order, emitted, emittedFIFO, patchIdx, emittedSpans, out)
    }

    ghost predicate Valid()
      reads this
    {
      Configured(cfg) && Bounded(cfg, View())
    }

    constructor (maxInFlight: int, patchMemory: int, window: int, settle: int, syn: Step -> string)
      ensures Valid() && View() == NEW
      ensures cfg.maxInFlight == (if maxInFlight <= 0 then 50000 else maxInFlight)
      ensures cfg.patchMemory == (if patchMemory <= 0 then 10000 else patchMemory)
      ensures cfg.window == (if window > 0 then window else 300_000_000_000) && cfg.syn == syn
      ensures cfg.settle == (if settle > 0 then settle else 0)
    {
      cfg := Config(if maxInFlight <= 0 then 50000 else maxInFlight,
                    if patchMemory <= 0 then 10000 else patchMemory,
                    if window <= 0 then 300_000_000_000 else window, if settle < 0 then 0 else settle, syn);
      open, order, emitted, emittedFIFO, patchIdx, emittedSpans, out := map[], [], map[], [], map[], map[], [];
    }

    method RememberEmitted(key: string, id: string)
      modifies `emitted, `emittedFIFO, `patchIdx, `emittedSpans
      ensures View() == Remember(cfg, old(View()), key, id)
    {
      if key !in emitted { emittedFIFO := emittedFIFO + [key]; }
      emitted := emitted[key := id];
      while |emittedFIFO| > cfg.patchMemory
        invariant Trim(View(), cfg.patchMemory) == Remember(cfg, old(View()), key, id)
        decreases |emittedFIFO|
      {
        var oldest := emittedFIFO[0];
        emittedFIFO := emittedFIFO[1..];
        if oldest in emitted {
          var gone := emitted[oldest];
          emitted := emitted - {oldest};
          patchIdx := patchIdx - {gone};
          emittedSpans := emittedSpans - {oldest};
        }
      }
    }

    method MarkEmittedSpan(session: string, span: string)
      modifies `emittedSpans
      ensures emittedSpans == Marked(old(emittedSpans), session, {span})
    {
      var s := if session in emittedSpans then emittedSpans[session] else {};
      emittedSpans := emittedSpans[session := s + {span}];
    }

    /** Marks every span of a closed episode. */
    method MarkAll(session: string, spans: set<string>)
      modifies `emittedSpans
      ensures emittedSpans == if spans == {} then old(emittedSpans) else Marked(old(emittedSpans), session, spans)
    {
      hide Marked;
      var left := spans;
      ghost var done: set<string> := {};
      while left != {}
        invariant done + left == spans
        invariant emittedSpans == if done == {} then old(emittedSpans) else Marked(old(emittedSpans), session, done)
        decreases |left|
      {
        var k :| k in left;
        MarkedMore(old(emittedSpans), session, done, k, emittedSpans);
        MovedOver(done, left, k);
        MarkEmittedSpan(session, k);
        left := left - {k};
        done := done + {k};
      }
      assert done == spans;
    }

    method CloseLocked(key: string, status: Status) returns (ep: Assembled)
      requires Valid() && key in open
      modifies this
      ensures Valid() && View() == CloseOne(cfg, old(View()), key, status)
      ensures Renders(old(open)[key], status, ep)
    {
      CloseOneBounded(cfg, View(), key, status);
      hide Bounded, Renders, CloseOne;
      var f := open[key];
      RemoveLocked(key, status);
      ep := Render(f, status);
    }

    /** Closes one more and adds it to what is ready. */
    method CloseAlso(key: string, status: Status, ready: seq<Assembled>, ghost before: seq<Out>)
      returns (more: seq<Assembled>)
      requires Valid() && key in open && HandsOn(before, out, ready)
      modifies this
      ensures Valid() && View() == CloseOne(cfg, old(View()), key, status)
      ensures HandsOn(before, out, more)
    {
      CloseOneBounded(cfg, View(), key, status);
      hide Bounded, CloseOne, Renders, HandsOn;
      ghost var f := open[key];
      var ep := CloseLocked(key, status);
      HandsOnOne(before, old(out), ready, Closed(f, status), ep);
      more := ready + [ep];
    }

    /** The bookkeeping of a close: out of the open set, remembered, its spans marked. */
    method RemoveLocked(key: string, status: Status)
      requires key in open
      modifies this
      ensures View() == CloseOne(cfg, old(View()), key, status)
    {
      CloseIs(cfg, View(), key, status);
      hide Remember, Marked, Remove, CloseOne;
      var f := open[key];
      order := Remove(order, key);
      open := open - {key};
      RememberEmitted(f.key, f.episodeID);
      MarkAll(f.key, f.spans.Keys);
      out := out + [Closed(f, status)];
    }

    /** Closes every episode that has reached a deadline; none that is left has. */
    method ExpireLocked(now: int) returns (ready: seq<Assembled>)
      requires Valid()
      modifies this
      ensures Valid() && View() == Expire(cfg, old(View()), now)
      ensures forall k | k in open :: Waits(cfg, open[k], now)
      ensures Emits(old(View()), View())
      ensures forall i | |old(out)| <= i < |out| :: ExpiredAs(cfg, out[i].f, out[i].status, now)
      ensures HandsOn(old(out), out, ready)
    {
      ExpireBounded(cfg, View(), now);
      EmitsOpen(View(), Expire(cfg, View(), now));
      ready := [];
      HandsOnNone(out);
      var keys := order;
      var i := 0;
      assert keys[0..] == keys;
      assert forall b :: ExpireEach(cfg, b, [], now) == b;
      hide Bounded, CloseOne, Renders, HandsOn, Waits, ExpiredAs, Emits, ExpireEach;
      while i < |keys|
        invariant i <= |keys| && Valid()
        invariant ExpireEach(cfg, View(), keys[i..], now) == Expire(cfg, old(View()), now)
        invariant HandsOn(old(out), out, ready)
      {
        var k := keys[i];
        ExpireStep(cfg, View(), keys, i, now);
        if k in open {
          var e := open[k];
          if e.terminalAt.Some? && now >= e.terminalAt.value + cfg.settle {
            ready := CloseAlso(k, Complete, ready, old(out));
          } else if e.lastSeen <= now - cfg.window {
            ready := CloseAlso(k, TimedOut, ready, old(out));
          }
        }
        i := i + 1;
      }
      assert keys[i..] == [];
    }

    /** Closes everything. */
    method FlushAll(fallback: Status) returns (ready: seq<Assembled>)
      requires Valid()
      modifies this
      ensures Valid() && View() == Flush(cfg, old(View()), fallback) && open == map[] && Emits(old(View()), View())
      ensures forall i | |old(out)| <= i < |out| :: StoppedAs(out[i].f, out[i].status, fallback)
      ensures HandsOn(old(out), out, ready)
    {
      FlushBounded(cfg, View(), fallback);
      ready := [];
      HandsOnNone(out);
      while |order| > 0
        invariant Valid()
        invariant Flush(cfg, View(), fallback) == Flush(cfg, old(View()), fallback)
        invariant HandsOn(old(out), out, ready)
        decreases |order|
      {
        var k := order[0];
        FrontIsOpen(cfg, View());
        var status := fallback;
        if open[k].terminalAt.Some? { status := Complete; }
        CloseOneBounded(cfg, View(), k, status);
        hide Bounded, CloseOne, Renders, HandsOn;
        ready := CloseAlso(k, status, ready, old(out));
      }
    }

    method NextPatchIdx(id: string) returns (idx: nat)
      modifies `patchIdx
      ensures idx == if id in old(patchIdx) then old(patchIdx)[id] else PATCH_IDX_BASE
      ensures patchIdx == old(patchIdx)[id := idx + 1]
    {
      idx := if id in patchIdx then patchIdx[id] else PATCH_IDX_BASE;
      patchIdx := patchIdx[id := idx + 1];
    }

    /** A patch of one step for a span that came after its episode was emitted. */
    method PatchFor(session: string, span: string, env: Envelope) returns (ep: Assembled)
      requires session in emitted
      modifies this
      ensures View() == PatchLate(old(View()), session, span, env)
      ensures HandsOn(old(out), out, [ep])
    {
      var id := emitted[session];
      MarkEmittedSpan(session, span);
      var idx := NextPatchIdx(id);
      out := out + [Patch(session, span, id, env, idx)];
      ep := Assembled(id, env.source, Patched, env.step.startedAt, None, 1, None, None, env.meta.(raw := map[]),
                      [env.step.(episodeID := id, idx := idx)]);
    }

    /** Makes room by closing the oldest episode if it has to, and opens a new one. */
    method OpenLocked(session: string, env: Envelope, now: int, freshID: string) returns (ready: seq<Assembled>)
      requires Valid() && session !in open && session !in emitted
      modifies this
      ensures Valid() && View() == OpenSession(cfg, old(View()), session, env, now, freshID) && session in open
      ensures HandsOn(old(out), out, ready)
    {
      hide CloseOne, Renders, HandsOn, Bounded, Remove;
      ready := [];
      HandsOnNone(out);
      OpenSessionBounded(cfg, View(), session, env, now, freshID);
      if |order| >= cfg.maxInFlight {
        FrontIsOpen(cfg, View());
        ready := CloseAlso(order[0], Evicted, ready, out);
      }
      var id := if env.episodeID == "" then freshID else env.episodeID;
      open := open[session := InFlight(session, id, now, 0, NO_META, env.source, None, None, map[], 0, 0)];
      order := order + [session];
    }

    method Ingest(ev: Event) returns (ready: seq<Assembled>)
      requires Valid() && ev.Add?
      modifies this
      ensures Valid() && View() == AddOne(cfg, old(View()), ev)
      ensures HandsOn(old(out), out, ready)
    {
      hide CloseOne, Absorb, Renders, HandsOn, OpenSession;
      ready := [];
      HandsOnNone(out);
      var s, k := Session(ev), SpanKey(cfg.syn, ev.env);
      if s !in open {
        if s in emitted {
          if s in emittedSpans && k in emittedSpans[s] { return; }
          PatchBounded(cfg, View(), s, k, ev.env);
          var patch := PatchFor(s, k, ev.env);
          return [patch];
        }
      }
      AbsorbedBounded(cfg, View(), ev);
      ghost var a := View();
      if s !in open { ready := OpenLocked(s, ev.env, ev.now, ev.freshID); }
      hide Bounded;
      open := open[s := Absorb(cfg.syn, open[s], ev.env, ev.now)];
      assert View() == Absorbed(cfg, a, ev);
      ghost var before := out;
      var more := ExpireLocked(ev.due);
      HandsOnMore(old(out), before, out, ready, more);
      ready := ready + more;
    }
  }

  lemma MarkedMore(m: map<string, set<string>>, session: string, done: set<string>, k: string, now: map<string,
                   set<string>>)
    requires now == if done == {} then m else Marked(m, session, done)
    ensures Marked(now, session, {k}) == Marked(m, session, done + {k}) && done + {k} != {}
  {
    var base := if session in m then m[session] else {};
    assert base + done + {k} == base + (done + {k});
    assert k in done + {k};
    if done == {} { assert done + {k} == {k}; }
  }

  lemma MovedOver(done: set<string>, left: set<string>, k: string)
    requires k in left
    ensures (done + {k}) + (left - {k}) == done + left
  {
  }

  /** The close step, field by field. */
  lemma {:induction false} CloseIs(c: Config, a: Asm, key: string, status: Status)
    requires key in a.open
    ensures var f := a.open[key];
            var b := Remember(c, a.(open := a.open - {key}, order := Remove(a.order, key)), f.key, f.episodeID);
            CloseOne(c, a, key, status)
            == b.(spansOut := if f.spans.Keys == {} then b.spansOut else Marked(b.spansOut, f.key, f.spans.Keys),
                  out := b.out + [Closed(f, status)])
  {
    hide Remember;
    assert a.open[key].spans.Keys == {} <==> a.open[key].spans == map[];
  }

  lemma FrontIsOpen(c: Config, a: Asm)
    requires Configured(c) && Bounded(c, a)
    ensures a.order != [] ==> a.order[0] in a.open && Remove(a.order, a.order[0]) == a.order[1..]
    ensures |a.order| >= c.maxInFlight ==> a.order != []
  {
    if a.order != [] {
      assert a.order[0] in a.order;
      RemoveHead(a.order);
    }
  }

  lemma {:induction false} RemoveHead(order: seq<string>)
    requires order != [] && Distinct(order)
    ensures Remove(order, order[0]) == order[1..]
  {
    RemoveAbsent(order[1..], order[0]);
  }

  lemma {:induction false} RemoveAbsent(order: seq<string>, k: string)
    requires k !in order
    ensures Remove(order, k) == order
  {
    if order != [] { RemoveAbsent(order[1..], k); }
  }

  lemma CanonicalLength(f: InFlight, ids: seq<string>, steps: seq<Step>)
    requires Canonical(f.spans, ids) && steps == StepsOf(f, ids)
    ensures |steps| == |f.spans|
  {
    hide Less;
    assert Distinct(ids) by {
      forall i, j | 0 <= i < j < |ids|
        ensures ids[i] != ids[j]
      {
        LessTotal(f.spans, ids[i], ids[j]);
        LessTotal(f.spans, ids[i], ids[i]);
      }
    }
    ListsLength(ids, f.spans.Keys);
  }
}
