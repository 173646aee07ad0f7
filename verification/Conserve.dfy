/** Span conservation over whole runs of the assembler: every span added comes out, and comes
    out once as long as no closed session has been forgotten. */
module Conserve {
  import opened Basics
  import opened Records
  import opened Episode
  import opened Assembling

  /** o carries span k of session s. */
  predicate Carries(o: Out, s: string, k: string)
  {
    match o
    case Closed(f, _) => f.key == s && k in f.spans
    case Patch(session, span, _, _, _) => session == s && span == k
  }

  /** How many of the emitted records carry span k of session s. */
  function Count(out: seq<Out>, s: string, k: string): (n: nat)
  {
    if out == [] then 0
    else Count(out[..|out| - 1], s, k) + if Carries(out[|out| - 1], s, k) then 1 else 0
  }

  lemma {:induction false} CountSnoc(out: seq<Out>, o: Out, s: string, k: string)
    ensures Count(out + [o], s, k) == Count(out, s, k) + if Carries(o, s, k) then 1 else 0
  {
    assert (out + [o])[..|out|] == out;
  }

  /** The sessions whose episode has been emitted. */
  function ClosedIn(out: seq<Out>): (r: set<string>)
  {
    if out == [] then {}
    else ClosedIn(out[..|out| - 1]) + if out[|out| - 1].Closed? then {out[|out| - 1].f.key} else {}
  }

  lemma {:induction false} ClosedSnoc(out: seq<Out>, o: Out)
    ensures ClosedIn(out + [o]) == ClosedIn(out) + if o.Closed? then {o.f.key} else {}
  {
    assert (out + [o])[..|out|] == out;
  }

  predicate Held(a: Asm, s: string, k: string) { s in a.open && k in a.open[s].spans }

  predicate Marked(a: Asm, s: string, k: string) { s in a.spansOut && k in a.spansOut[s] }

  /** What is marked as emitted has been emitted. */
  predicate Honest(a: Asm, s: string, k: string) { Marked(a, s, k) ==> Count(a.out, s, k) >= 1 }

  predicate Accounted(a: Asm, s: string, k: string) { Held(a, s, k) || Count(a.out, s, k) >= 1 }

  /** Nothing has been forgotten, and nothing has come out twice. */
  ghost predicate Exact(a: Asm, s: string, k: string)
  {
    && a.emitted.Keys == ClosedIn(a.out)
    && Count(a.out, s, k) <= 1
    && (Count(a.out, s, k) == 1 ==> Marked(a, s, k))
    && (s !in ClosedIn(a.out) ==> Count(a.out, s, k) == 0)
  }

  // ---------- closing ----------

  lemma CloseFacts(c: Config, a: Asm, key: string, status: Status)
    requires Configured(c) && Bounded(c, a) && key in a.open
    ensures var r := CloseOne(c, a, key, status); var f := a.open[key];
            && f.key == key && Bounded(c, r) && r.open == a.open - {key}
            && r.out == a.out + [Closed(f, status)]
            && (forall s, k :: Marked(r, s, k) ==> (s == key && k in f.spans) || Marked(a, s, k))
            && (|a.fifo| < c.patchMemory ==>
                  && r.emitted.Keys == a.emitted.Keys + {key} && r.patchIdx == a.patchIdx
                  && forall s, k :: (s == key && k in f.spans) || Marked(a, s, k) ==> Marked(r, s, k))
  {
    CloseOneBounded(c, a, key, status);
    var f := a.open[key];
    var b := a.(open := a.open - {key}, order := Remove(a.order, key));
    BeforeRemember(c, a, key);
    RememberBounded(c, b, key, f.episodeID);
    hide Remember, Bounded, Consistent, Remove;
    var m := Remember(c, b, key, f.episodeID);
    var r := CloseOne(c, a, key, status);
    assert key !in m.spansOut;
    assert r.spansOut == if f.spans == map[] then m.spansOut else Mark(m, key, f.spans.Keys).spansOut;
    MarkFacts(m, r, key, f.spans);
    assert forall s, k :: Marked(m, s, k) ==> Marked(a, s, k);
    assert r.emitted == m.emitted && r.patchIdx == m.patchIdx;
  }

  lemma MarkFacts(m: Asm, r: Asm, key: string, spans: map<string, Envelope>)
    requires key !in m.spansOut
    requires r.spansOut == if spans == map[] then m.spansOut else Mark(m, key, spans.Keys).spansOut
    ensures forall s, k :: Marked(r, s, k) <==> (s == key && k in spans) || Marked(m, s, k)
  {
  }

  lemma {:induction false} BeforeRemember(c: Config, a: Asm, key: string)
    requires Configured(c) && Bounded(c, a) && key in a.open
    ensures var b := a.(open := a.open - {key}, order := Remove(a.order, key));
            && Consistent(b) && key !in b.emitted && key !in b.open && |b.fifo| <= c.patchMemory
            && a.open[key].key == key && key !in a.spansOut
  {
    RemoveLists(a.order, key, a.open.Keys);
    var b := a.(open := a.open - {key}, order := Remove(a.order, key));
    assert b.open.Keys == a.open.Keys - {key};
  }

  lemma CloseSafe(c: Config, a: Asm, key: string, status: Status, s: string, k: string)
    requires Configured(c) && Bounded(c, a) && key in a.open && Honest(a, s, k)
    ensures var r := CloseOne(c, a, key, status);
            && Bounded(c, r) && Honest(r, s, k) && (Accounted(a, s, k) ==> Accounted(r, s, k))
            && ClosedIn(r.out) == ClosedIn(a.out) + {key}
  {
    hide CloseOne, Bounded, Marked;
    CloseFacts(c, a, key, status);
    CountSnoc(a.out, Closed(a.open[key], status), s, k);
    ClosedSnoc(a.out, Closed(a.open[key], status));
  }

  lemma CloseExact(c: Config, a: Asm, key: string, status: Status, s: string, k: string)
    requires Configured(c) && Bounded(c, a) && key in a.open && Exact(a, s, k)
    requires |ClosedIn(a.out) + {key}| <= c.patchMemory
    ensures Exact(CloseOne(c, a, key, status), s, k)
  {
    CloseFacts(c, a, key, status);
    FifoIsClosed(c, a, key);
    hide CloseOne, Bounded, Marked, Count, ClosedIn;
    CountSnoc(a.out, Closed(a.open[key], status), s, k);
    ClosedSnoc(a.out, Closed(a.open[key], status));
    NotYetClosed(c, a, key);
  }

  lemma NotYetClosed(c: Config, a: Asm, key: string)
    requires Bounded(c, a) && key in a.open
    ensures key !in a.emitted
  {
  }

  lemma FifoIsClosed(c: Config, a: Asm, key: string)
    requires Bounded(c, a) && key in a.open && a.emitted.Keys == ClosedIn(a.out)
    requires |ClosedIn(a.out) + {key}| <= c.patchMemory
    ensures |a.fifo| < c.patchMemory
  {
    ListsLength(a.fifo, a.emitted.Keys);
    assert key !in a.emitted.Keys;
  }

  // ---------- expiring and flushing ----------

  lemma {:induction false} ExpireSafe(c: Config, a: Asm, keys: seq<string>, now: int, s: string, k: string)
    requires Configured(c) && Bounded(c, a) && Honest(a, s, k)
    ensures var r := ExpireEach(c, a, keys, now);
            && Bounded(c, r) && Honest(r, s, k) && (Accounted(a, s, k) ==> Accounted(r, s, k))
            && ClosedIn(a.out) <= ClosedIn(r.out)
            && (Exact(a, s, k) && |ClosedIn(r.out)| <= c.patchMemory ==> Exact(r, s, k))
    decreases |keys|
  {
    hide CloseOne, Bounded, Honest, Accounted, Exact, ClosedIn, Due;
    if keys != [] {
      var x := keys[0];
      if x in a.open && Due(c, a.open[x], now).Some? {
        var st := Due(c, a.open[x], now).value;
        var b := CloseOne(c, a, x, st);
        CloseSafe(c, a, x, st, s, k);
        ExpireSafe(c, b, keys[1..], now, s, k);
        CloseThen(c, a, x, st, s, k, ClosedIn(ExpireEach(c, a, keys, now).out));
      } else {
        ExpireSafe(c, a, keys[1..], now, s, k);
      }
    }
  }

  /** Closing keeps exactness if the sessions closed in the end are few enough. */
  lemma CloseThen(c: Config, a: Asm, key: string, status: Status, s: string, k: string, all: set<string>)
    requires Configured(c) && Bounded(c, a) && key in a.open && ClosedIn(a.out) + {key} <= all
    ensures Exact(a, s, k) && |all| <= c.patchMemory ==> Exact(CloseOne(c, a, key, status), s, k)
  {
    hide CloseOne, Bounded, Exact, ClosedIn;
    Subset(ClosedIn(a.out) + {key}, all);
    if Exact(a, s, k) && |all| <= c.patchMemory { CloseExact(c, a, key, status, s, k); }
  }

  lemma Subset(a: set<string>, b: set<string>)
    requires a <= b
    ensures |a| <= |b|
  {
    assert b == a + (b - a);
  }

  lemma {:induction false} FlushSafe(c: Config, a: Asm, keys: seq<string>, fallback: Status, s: string, k: string)
    requires Configured(c) && Bounded(c, a) && Honest(a, s, k)
    ensures var r := FlushEach(c, a, keys, fallback);
            && Bounded(c, r) && Honest(r, s, k) && (Accounted(a, s, k) ==> Accounted(r, s, k))
            && ClosedIn(a.out) <= ClosedIn(r.out)
            && (Exact(a, s, k) && |ClosedIn(r.out)| <= c.patchMemory ==> Exact(r, s, k))
    decreases |keys|
  {
    hide CloseOne, Bounded, Honest, Accounted, Exact, ClosedIn;
    if keys != [] {
      var x := keys[0];
      if x in a.open {
        var st := FlushStatus(a.open[x], fallback);
        var b := CloseOne(c, a, x, st);
        CloseSafe(c, a, x, st, s, k);
        FlushSafe(c, b, keys[1..], fallback, s, k);
        CloseThen(c, a, x, st, s, k, ClosedIn(FlushEach(c, a, keys, fallback).out));
      } else {
        FlushSafe(c, a, keys[1..], fallback, s, k);
      }
    }
  }

  // ---------- adding ----------

  lemma PatchSafe(c: Config, a: Asm, session: string, span: string, env: Envelope, s: string, k: string)
    requires Bounded(c, a) && Honest(a, s, k) && session in a.emitted && !Marked(a, session, span)
    ensures var r := PatchLate(a, session, span, env);
            && Honest(r, s, k) && (Accounted(a, s, k) ==> Accounted(r, s, k))
            && ((s, k) == (session, span) ==> Accounted(r, s, k))
            && ClosedIn(r.out) == ClosedIn(a.out) && (Exact(a, s, k) ==> Exact(r, s, k))
  {
    hide Bounded, Count, ClosedIn;
    var r := PatchLate(a, session, span, env);
    var o := r.out[|a.out|];
    assert r.out == a.out + [o] && o.Patch? && (Carries(o, s, k) <==> (s, k) == (session, span));
    CountSnoc(a.out, o, s, k);
    ClosedSnoc(a.out, o);
    assert r.emitted == a.emitted && r.open == a.open;
    assert Marked(r, s, k) <==> Marked(a, s, k) || (s, k) == (session, span);
  }

  lemma OpenSafe(c: Config, a: Asm, session: string, env: Envelope, now: int, freshID: string, s: string, k: string)
    requires Configured(c) && Bounded(c, a) && Honest(a, s, k) && session !in a.open && session !in a.emitted
    ensures var r := OpenSession(c, a, session, env, now, freshID);
            && Honest(r, s, k) && (Accounted(a, s, k) ==> Accounted(r, s, k))
            && ClosedIn(a.out) <= ClosedIn(r.out)
            && (Exact(a, s, k) && |ClosedIn(r.out)| <= c.patchMemory ==> Exact(r, s, k))
  {
    hide CloseOne, Bounded, Count, ClosedIn;
    if |a.order| >= c.maxInFlight && a.order != [] && a.order[0] in a.open {
      var x := a.order[0];
      var b := CloseOne(c, a, x, Evicted);
      CloseSafe(c, a, x, Evicted, s, k);
      CloseFacts(c, a, x, Evicted);
      CloseThen(c, a, x, Evicted, s, k, ClosedIn(b.out));
      assert session !in b.open;
    }
  }

  lemma AbsorbedSafe(c: Config, a: Asm, ev: Event, s: string, k: string)
    requires Configured(c) && Bounded(c, a) && Honest(a, s, k) && ev.Add?
    requires Session(ev) in a.open || Session(ev) !in a.emitted
    ensures var r := Absorbed(c, a, ev);
            && Bounded(c, r) && Honest(r, s, k) && (Accounted(a, s, k) ==> Accounted(r, s, k))
            && ((s, k) == (Session(ev), SpanKey(c.syn, ev.env)) ==> Accounted(r, s, k))
            && ClosedIn(a.out) <= ClosedIn(r.out)
            && (Exact(a, s, k) && |ClosedIn(r.out)| <= c.patchMemory ==> Exact(r, s, k))
  {
    hide Bounded, OpenSession, Absorb, Count, ClosedIn;
    AbsorbedBounded(c, a, ev);
    var x := Session(ev);
    if x !in a.open { OpenSafe(c, a, x, ev.env, ev.now, ev.freshID, s, k); }
    var b := if x in a.open then a else OpenSession(c, a, x, ev.env, ev.now, ev.freshID);
    if x in b.open { AbsorbKeeps(c.syn, b.open[x], ev.env, ev.now); }
  }

  // ---------- whole runs ----------

  /** The event brings span k of session s. */
  predicate Brings(c: Config, ev: Event, s: string, k: string)
  {
    ev.Add? && Session(ev) == s && SpanKey(c.syn, ev.env) == k
  }

  lemma ApplySafe(c: Config, a: Asm, ev: Event, s: string, k: string)
    requires Configured(c) && Bounded(c, a) && Honest(a, s, k)
    ensures var r := Apply(c, a, ev);
            && Bounded(c, r) && Honest(r, s, k)
            && (Accounted(a, s, k) || Brings(c, ev, s, k) ==> Accounted(r, s, k))
            && ClosedIn(a.out) <= ClosedIn(r.out)
            && (Exact(a, s, k) && |ClosedIn(r.out)| <= c.patchMemory ==> Exact(r, s, k))
  {
    hide Bounded, ExpireEach, FlushEach, PatchLate, Absorbed, OpenSession, Absorb, Count, ClosedIn, Exact;
    match ev
    case Add(_, _, _, _, _) =>
      var x, y := Session(ev), SpanKey(c.syn, ev.env);
      if x !in a.open && x in a.emitted {
        if !Marked(a, x, y) {
          PatchSafe(c, a, x, y, ev.env, s, k);
          PatchBounded(c, a, x, y, ev.env);
        }
      } else {
        AbsorbedBounded(c, a, ev);
        AbsorbedSafe(c, a, ev, s, k);
        var b := Absorbed(c, a, ev);
        ExpireSafe(c, b, b.order, ev.due, s, k);
        var r := Apply(c, a, ev);
        assert r == Expire(c, b, ev.due);
        Subset(ClosedIn(b.out), ClosedIn(r.out));
      }
    case Tick(now) => ExpireSafe(c, a, a.order, now, s, k);
    case Stop(fallback) => FlushSafe(c, a, a.order, fallback, s, k);
  }

  predicate Brought(c: Config, evs: seq<Event>, s: string, k: string)
  {
    exists i :: 0 <= i < |evs| && Brings(c, evs[i], s, k)
  }

  lemma BroughtSnoc(c: Config, evs: seq<Event>, s: string, k: string)
    requires evs != []
    ensures var n := |evs| - 1; Brought(c, evs, s, k) ==> Brought(c, evs[..n], s, k) || Brings(c, evs[n], s, k)
  {
    var n := |evs| - 1;
    if i :| 0 <= i < |evs| && Brings(c, evs[i], s, k) {
      if i < n { assert evs[..n][i] == evs[i]; }
    }
  }

  lemma NewSafe(c: Config, s: string, k: string)
    ensures Bounded(c, NEW) && Honest(NEW, s, k) && Exact(NEW, s, k)
  {
    NewBounded(c);
  }

  lemma {:induction false} RunSafe(c: Config, evs: seq<Event>, s: string, k: string)
    requires Configured(c)
    ensures var a := Run(c, evs);
            && Bounded(c, a) && Honest(a, s, k)
            && (Brought(c, evs, s, k) ==> Accounted(a, s, k))
            && (|ClosedIn(a.out)| <= c.patchMemory ==> Exact(a, s, k))
  {
    hide Bounded, Honest, Accounted, Exact, Apply, ClosedIn;
    if evs == [] {
      NewSafe(c, s, k);
    } else {
      hide Brought;
      var n := |evs| - 1;
      RunSafe(c, evs[..n], s, k);
      BroughtSnoc(c, evs, s, k);
      var a := Run(c, evs[..n]);
      ApplySafe(c, a, evs[n], s, k);
      Subset(ClosedIn(a.out), ClosedIn(Run(c, evs).out));
    }
  }

  /** Conservation: in every run that ends with a flush, each span added comes out in an
      episode or a patch at least once - and exactly once if the sessions closed were never
      more than PatchMemory. */
  lemma {:induction false} SpanConservation(c: Config, evs: seq<Event>, fallback: Status, i: nat)
    requires Configured(c) && i < |evs| && evs[i].Add?
    ensures var out := Run(c, evs + [Stop(fallback)]).out;
            var s, k := Session(evs[i]), SpanKey(c.syn, evs[i].env);
            && Count(out, s, k) >= 1
            && (|ClosedIn(out)| <= c.patchMemory ==> Count(out, s, k) == 1)
  {
    hide Bounded, ClosedIn, Count, Flush;
    var all := evs + [Stop(fallback)];
    var s, k := Session(evs[i]), SpanKey(c.syn, evs[i].env);
    assert all[i] == evs[i] && Brings(c, all[i], s, k);
    RunSafe(c, all, s, k);
    assert all[..|evs|] == evs && all[|evs|] == Stop(fallback);
    RunSafe(c, evs, s, k);
    FlushBounded(c, Run(c, evs), fallback);
  }

  /** Why the bound matters: once a session has been forgotten, its span sent again is emitted
      again. */
  lemma ForgottenComesTwice(c: Config, a: Asm, ev: Event, fallback: Status)
    requires Configured(c) && Bounded(c, a) && ev.Add?
    requires Session(ev) !in a.open && Session(ev) !in a.emitted
    requires Count(a.out, Session(ev), SpanKey(c.syn, ev.env)) >= 1
    requires Honest(a, Session(ev), SpanKey(c.syn, ev.env))
    ensures Count(Flush(c, Apply(c, a, ev), fallback).out, Session(ev), SpanKey(c.syn, ev.env))
            > Count(a.out, Session(ev), SpanKey(c.syn, ev.env))
  {
    hide Bounded, ExpireEach, FlushEach, Absorbed, Count;
    var s, k := Session(ev), SpanKey(c.syn, ev.env);
    AbsorbedBounded(c, a, ev);
    var b := Absorbed(c, a, ev);
    AbsorbedCounts(c, a, ev, s, k);
    HeldCounts(c, b, b.order, ev.due, s, k);
    var r := Apply(c, a, ev);
    ExpireBounded(c, b, ev.due);
    HeldFlushes(c, r, r.order, fallback, s, k);
    FlushBounded(c, r, fallback);
  }

  /** Records emitted so far, plus one if the span is still held. */
  function Total(a: Asm, s: string, k: string): nat { Count(a.out, s, k) + if Held(a, s, k) then 1 else 0 }

  lemma CloseTotal(c: Config, a: Asm, key: string, status: Status, s: string, k: string)
    requires Configured(c) && Bounded(c, a) && key in a.open
    ensures Bounded(c, CloseOne(c, a, key, status)) && Total(CloseOne(c, a, key, status), s, k) == Total(a, s, k)
  {
    hide CloseOne, Bounded, Count, Marked;
    CloseFacts(c, a, key, status);
    CountSnoc(a.out, Closed(a.open[key], status), s, k);
  }

  lemma {:induction false} AbsorbedCounts(c: Config, a: Asm, ev: Event, s: string, k: string)
    requires Configured(c) && Bounded(c, a) && ev.Add? && s == Session(ev) && k == SpanKey(c.syn, ev.env)
    requires s !in a.open && s !in a.emitted
    ensures Total(Absorbed(c, a, ev), s, k) == Count(a.out, s, k) + 1
  {
    hide CloseOne, Bounded, Count, Absorb, Marked;
    AbsorbedBounded(c, a, ev);
    if |a.order| >= c.maxInFlight && a.order != [] && a.order[0] in a.open {
      CloseFacts(c, a, a.order[0], Evicted);
      CountSnoc(a.out, Closed(a.open[a.order[0]], Evicted), s, k);
    }
  }

  lemma {:induction false} HeldCounts(c: Config, a: Asm, keys: seq<string>, now: int, s: string, k: string)
    requires Configured(c) && Bounded(c, a)
    ensures Total(ExpireEach(c, a, keys, now), s, k) == Total(a, s, k)
    decreases |keys|
  {
    hide CloseOne, Bounded, Total, Due;
    if keys != [] {
      var x := keys[0];
      if x in a.open && Due(c, a.open[x], now).Some? {
        CloseTotal(c, a, x, Due(c, a.open[x], now).value, s, k);
        HeldCounts(c, CloseOne(c, a, x, Due(c, a.open[x], now).value), keys[1..], now, s, k);
      } else {
        HeldCounts(c, a, keys[1..], now, s, k);
      }
    }
  }

  lemma {:induction false} HeldFlushes(c: Config, a: Asm, keys: seq<string>, fallback: Status, s: string, k: string)
    requires Configured(c) && Bounded(c, a)
    ensures Total(FlushEach(c, a, keys, fallback), s, k) == Total(a, s, k)
    decreases |keys|
  {
    hide CloseOne, Bounded, Total;
    if keys != [] {
      var x := keys[0];
      if x in a.open {
        CloseTotal(c, a, x, FlushStatus(a.open[x], fallback), s, k);
        HeldFlushes(c, CloseOne(c, a, x, FlushStatus(a.open[x], fallback)), keys[1..], fallback, s, k);
      } else {
        HeldFlushes(c, a, keys[1..], fallback, s, k);
      }
    }
  }

  // ---------- patch numbers ----------

  predicate IsPatchOf(o: Out, id: string) { o.Patch? && o.episodeID == id }

  /** The patches emitted for one episode, in order. */
  function PatchesOf(out: seq<Out>, id: string): (r: seq<Out>)
  {
    if out == [] then []
    else
      var n := |out| - 1;
      PatchesOf(out[..n], id) + if IsPatchOf(out[n], id) then [out[n]] else []
  }

  lemma {:induction false} PatchesSnoc(out: seq<Out>, o: Out, id: string)
    ensures PatchesOf(out + [o], id) == PatchesOf(out, id) + if IsPatchOf(o, id) then [o] else []
  {
    assert (out + [o])[..|out|] == out;
  }

  /** They are numbered consecutively from 2^20, and the counter knows the next number. */
  ghost predicate Numbered(a: Asm, id: string)
  {
    var p := PatchesOf(a.out, id);
    && (forall j | 0 <= j < |p| :: IsPatchOf(p[j], id) && p[j].idx == PATCH_IDX_BASE + j)
    && (if id in a.patchIdx then a.patchIdx[id] == PATCH_IDX_BASE + |p| else p == [])
  }

  ghost predicate NoneForgotten(a: Asm) { a.emitted.Keys == ClosedIn(a.out) }

  lemma CloseNumbered(c: Config, a: Asm, key: string, status: Status, id: string, all: set<string>)
    requires Configured(c) && Bounded(c, a) && key in a.open && NoneForgotten(a) && Numbered(a, id)
    requires ClosedIn(a.out) + {key} <= all && |all| <= c.patchMemory
    ensures var r := CloseOne(c, a, key, status); Bounded(c, r) && NoneForgotten(r) && Numbered(r, id)
    ensures ClosedIn(CloseOne(c, a, key, status).out) == ClosedIn(a.out) + {key}
  {
    Subset(ClosedIn(a.out) + {key}, all);
    CloseFacts(c, a, key, status);
    FifoIsClosed(c, a, key);
    hide CloseOne, Bounded, Marked, PatchesOf, ClosedIn;
    PatchesSnoc(a.out, Closed(a.open[key], status), id);
    ClosedSnoc(a.out, Closed(a.open[key], status));
    assert PatchesOf(a.out, id) + [] == PatchesOf(a.out, id);
  }

  lemma {:induction false} ExpireNumbered(c: Config, a: Asm, keys: seq<string>, now: int, id: string)
    requires Configured(c) && Bounded(c, a) && NoneForgotten(a) && Numbered(a, id)
    requires |ClosedIn(ExpireEach(c, a, keys, now).out)| <= c.patchMemory
    ensures var r := ExpireEach(c, a, keys, now); NoneForgotten(r) && Numbered(r, id)
    decreases |keys|
  {
    hide CloseOne, Bounded, NoneForgotten, Numbered, ClosedIn, Due;
    if keys != [] {
      var x := keys[0];
      if x in a.open && Due(c, a.open[x], now).Some? {
        var st := Due(c, a.open[x], now).value;
        var b := CloseOne(c, a, x, st);
        var all := ClosedIn(ExpireEach(c, a, keys, now).out);
        ClosedGrows(c, a, x, st);
        ExpireClosed(c, b, keys[1..], now);
        CloseNumbered(c, a, x, st, id, all);
        ExpireNumbered(c, b, keys[1..], now, id);
      } else {
        ExpireNumbered(c, a, keys[1..], now, id);
      }
    }
  }

  lemma ClosedGrows(c: Config, a: Asm, key: string, status: Status)
    requires Configured(c) && Bounded(c, a) && key in a.open
    ensures Bounded(c, CloseOne(c, a, key, status))
    ensures ClosedIn(CloseOne(c, a, key, status).out) == ClosedIn(a.out) + {key}
  {
    hide CloseOne, Bounded, Marked, ClosedIn;
    CloseFacts(c, a, key, status);
    ClosedSnoc(a.out, Closed(a.open[key], status));
  }

  lemma {:induction false} ExpireClosed(c: Config, a: Asm, keys: seq<string>, now: int)
    requires Configured(c) && Bounded(c, a)
    ensures ClosedIn(a.out) <= ClosedIn(ExpireEach(c, a, keys, now).out)
    decreases |keys|
  {
    hide CloseOne, Bounded, ClosedIn, Due;
    if keys != [] {
      var x := keys[0];
      if x in a.open && Due(c, a.open[x], now).Some? {
        ClosedGrows(c, a, x, Due(c, a.open[x], now).value);
        ExpireClosed(c, CloseOne(c, a, x, Due(c, a.open[x], now).value), keys[1..], now);
      } else {
        ExpireClosed(c, a, keys[1..], now);
      }
    }
  }

  lemma {:induction false} FlushNumbered(c: Config, a: Asm, keys: seq<string>, fallback: Status, id: string)
    requires Configured(c) && Bounded(c, a) && NoneForgotten(a) && Numbered(a, id)
    requires |ClosedIn(FlushEach(c, a, keys, fallback).out)| <= c.patchMemory
    ensures var r := FlushEach(c, a, keys, fallback); NoneForgotten(r) && Numbered(r, id)
    decreases |keys|
  {
    hide CloseOne, Bounded, NoneForgotten, Numbered, ClosedIn;
    if keys != [] {
      var x := keys[0];
      if x in a.open {
        var st := FlushStatus(a.open[x], fallback);
        var b := CloseOne(c, a, x, st);
        var all := ClosedIn(FlushEach(c, a, keys, fallback).out);
        ClosedGrows(c, a, x, st);
        FlushClosed(c, b, keys[1..], fallback);
        CloseNumbered(c, a, x, st, id, all);
        FlushNumbered(c, b, keys[1..], fallback, id);
      } else {
        FlushNumbered(c, a, keys[1..], fallback, id);
      }
    }
  }

  lemma {:induction false} FlushClosed(c: Config, a: Asm, keys: seq<string>, fallback: Status)
    requires Configured(c) && Bounded(c, a)
    ensures ClosedIn(a.out) <= ClosedIn(FlushEach(c, a, keys, fallback).out)
    decreases |keys|
  {
    hide CloseOne, Bounded, ClosedIn;
    if keys != [] {
      var x := keys[0];
      if x in a.open {
        ClosedGrows(c, a, x, FlushStatus(a.open[x], fallback));
        FlushClosed(c, CloseOne(c, a, x, FlushStatus(a.open[x], fallback)), keys[1..], fallback);
      } else {
        FlushClosed(c, a, keys[1..], fallback);
      }
    }
  }

  lemma PatchNumbered(a: Asm, session: string, span: string, env: Envelope, id: string)
    requires session in a.emitted && NoneForgotten(a) && Numbered(a, id)
    ensures var r := PatchLate(a, session, span, env); NoneForgotten(r) && Numbered(r, id)
  {
    hide PatchesOf, ClosedIn;
    var r := PatchLate(a, session, span, env);
    var o := r.out[|a.out|];
    assert r.out == a.out + [o] && o.Patch?;
    PatchesSnoc(a.out, o, id);
    ClosedSnoc(a.out, o);
    assert PatchesOf(a.out, id) + [] == PatchesOf(a.out, id);
  }

  lemma AbsorbedNumbered(c: Config, a: Asm, ev: Event, id: string)
    requires Configured(c) && Bounded(c, a) && NoneForgotten(a) && Numbered(a, id) && ev.Add?
    requires Session(ev) in a.open || Session(ev) !in a.emitted
    requires |ClosedIn(Absorbed(c, a, ev).out)| <= c.patchMemory
    ensures var r := Absorbed(c, a, ev); Bounded(c, r) && NoneForgotten(r) && Numbered(r, id)
  {
    hide Bounded, CloseOne, Absorb, PatchesOf, ClosedIn;
    AbsorbedBounded(c, a, ev);
    var r := Absorbed(c, a, ev);
    if Session(ev) !in a.open && |a.order| >= c.maxInFlight && a.order != [] && a.order[0] in a.open {
      var x := a.order[0];
      ClosedGrows(c, a, x, Evicted);
      assert r.out == CloseOne(c, a, x, Evicted).out;
      CloseNumbered(c, a, x, Evicted, id, ClosedIn(r.out));
    }
  }

  lemma ApplyNumbered(c: Config, a: Asm, ev: Event, id: string)
    requires Configured(c) && Bounded(c, a) && NoneForgotten(a) && Numbered(a, id)
    requires |ClosedIn(Apply(c, a, ev).out)| <= c.patchMemory
    ensures var r := Apply(c, a, ev); NoneForgotten(r) && Numbered(r, id)
  {
    hide Bounded, NoneForgotten, Numbered, ExpireEach, FlushEach, PatchLate, Absorbed, OpenSession, Absorb, ClosedIn;
    match ev
    case Add(_, _, _, _, _) =>
      var x, y := Session(ev), SpanKey(c.syn, ev.env);
      if x !in a.open && x in a.emitted {
        PatchNumbered(a, x, y, ev.env, id);
      } else {
        AbsorbedBounded(c, a, ev);
        var b := Absorbed(c, a, ev);
        ExpireClosed(c, b, b.order, ev.due);
        Subset(ClosedIn(b.out), ClosedIn(Apply(c, a, ev).out));
        AbsorbedNumbered(c, a, ev, id);
        ExpireNumbered(c, b, b.order, ev.due, id);
      }
    case Tick(now) => ExpireNumbered(c, a, a.order, now, id);
    case Stop(fallback) => FlushNumbered(c, a, a.order, fallback, id);
  }

  /** In every run in which no closed session was forgotten, the patches of an episode are
      numbered consecutively from 2^20, so no two of them collide. */
  lemma {:induction false} PatchesNumbered(c: Config, evs: seq<Event>, id: string)
    requires Configured(c) && |ClosedIn(Run(c, evs).out)| <= c.patchMemory
    ensures NoneForgotten(Run(c, evs)) && Numbered(Run(c, evs), id)
  {
    if evs != [] {
      hide Bounded, Numbered, NoneForgotten, Apply, ClosedIn, Honest;
      var n := |evs| - 1;
      var a := Run(c, evs[..n]);
      RunBounded(c, evs[..n]);
      RunSafe(c, evs[..n], "", "");
      ApplySafe(c, a, evs[n], "", "");
      Subset(ClosedIn(a.out), ClosedIn(Run(c, evs).out));
      PatchesNumbered(c, evs[..n], id);
      ApplyNumbered(c, a, evs[n], id);
    }
  }
}
