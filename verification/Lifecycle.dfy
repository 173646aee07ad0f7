/** The life of an episode over whole runs of the assembler: it is opened by an event, absorbs
    exactly the arrivals of its session from then on, and comes out for one of five reasons, with
    the status that goes with the reason. */
module Lifecycle {
  import opened Basics
  import opened Records
  import opened Episode
  import opened Assembling

  // ---------- the moments that decide an episode's end ----------

  /** The first terminal marker among xs came at this time. */
  ghost predicate FirstTerminal(xs: seq<Arrival>, at: int)
  {
    exists i :: 0 <= i < |xs| && xs[i].env.terminal && xs[i].now == at && forall j | 0 <= j < i :: !xs[j].env.terminal
  }

  /** An episode was last seen when its last span came, and has been terminal since the first
      terminal marker did. */
  lemma {:induction false} ArrivalTimes(syn: Step -> string, f: InFlight, xs: seq<Arrival>)
    requires Blank(f)
    ensures var r := AbsorbAll(syn, f, xs);
            && (xs != [] ==> r.lastSeen == xs[|xs| - 1].now)
            && (r.terminalAt.Some? ==> FirstTerminal(xs, r.terminalAt.value))
            && (r.terminalAt.None? ==> forall i | 0 <= i < |xs| :: !xs[i].env.terminal)
  {
    if xs != [] {
      var n := |xs| - 1;
      ArrivalTimes(syn, f, xs[..n]);
      var g := AbsorbAll(syn, f, xs[..n]);
      if g.terminalAt.Some? {
        var i :| 0 <= i < n && xs[..n][i].env.terminal && xs[..n][i].now == g.terminalAt.value
            && forall j | 0 <= j < i :: !xs[..n][j].env.terminal;
        assert xs[i] == xs[..n][i] && forall j | 0 <= j < i :: xs[j] == xs[..n][j];
      } else {
        assert forall j | 0 <= j < n :: xs[j] == xs[..n][j];
      }
    }
  }

  // ---------- what an open episode has absorbed ----------

  /** The arrivals of a session from the a-th event on. */
  function Arrived(evs: seq<Event>, key: string, a: nat): (xs: seq<Arrival>)
  {
    if |evs| <= a then []
    else
      var n := |evs| - 1;
      Arrived(evs[..n], key, a)
      + if evs[n].Add? && Session(evs[n]) == key then [Arrival(evs[n].env, evs[n].now)] else []
  }

  /** Grouping: an arrival counts for the session its envelope names, and one that names none for
      a session of its own. */
  lemma {:induction false} ArrivedFor(evs: seq<Event>, key: string, a: nat, x: Arrival)
    ensures x in Arrived(evs, key, a) <==>
            exists j :: && a <= j < |evs| && evs[j].Add? && x == Arrival(evs[j].env, evs[j].now)
                        && (evs[j].env.sessionKey != "" ==> evs[j].env.sessionKey == key)
                        && (evs[j].env.sessionKey == "" ==> evs[j].freshKey == key)
  {
    if |evs| > a {
      var n := |evs| - 1;
      var e, xs := evs[n], Arrived(evs[..n], key, a);
      ArrivedFor(evs[..n], key, a, x);
      assert forall j | 0 <= j < n :: evs[..n][j] == evs[j];
      var last := if e.Add? && Session(e) == key then [Arrival(e.env, e.now)] else [];
      assert Arrived(evs, key, a) == xs + last;
      assert x in xs + last <==> x in xs || x in last;
      if x in last { assert evs[n].Add? && x == Arrival(evs[n].env, evs[n].now); }
    }
  }

  /** f as it was opened by an event. */
  predicate OpenedBy(f: InFlight, ev: Event)
  {
    && ev.Add? && Session(ev) == f.key && f.createdAt == ev.now && f.source == ev.env.source
    && f.episodeID == if ev.env.episodeID != "" then ev.env.episodeID else ev.freshID
  }

  function New(f: InFlight): InFlight
  {
    InFlight(f.key, f.episodeID, f.createdAt, 0, NO_META, f.source, None, None, map[], 0, 0)
  }

  /** f was opened by one of the events and has absorbed every arrival of its session since. */
  ghost predicate Built(c: Config, evs: seq<Event>, f: InFlight)
  {
    exists a: nat :: BuiltFrom(c, evs, f, a)
  }

  ghost predicate BuiltFrom(c: Config, evs: seq<Event>, f: InFlight, a: nat)
  {
    && a < |evs| && OpenedBy(f, evs[a]) && Arrived(evs, f.key, a) != []
    && f == AbsorbAll(c.syn, New(f), Arrived(evs, f.key, a))
  }

  ghost predicate AllBuilt(c: Config, evs: seq<Event>, a: Asm)
  {
    forall k | k in a.open :: a.open[k].key == k && Built(c, evs, a.open[k])
  }

  /** An event of another session, or no arrival at all, leaves it as it is. */
  lemma BuiltStays(c: Config, evs: seq<Event>, ev: Event, f: InFlight)
    requires Built(c, evs, f) && (ev.Add? ==> Session(ev) != f.key)
    ensures Built(c, evs + [ev], f)
  {
    var a: nat :| BuiltFrom(c, evs, f, a);
    assert (evs + [ev])[..|evs|] == evs;
    assert Arrived(evs + [ev], f.key, a) == Arrived(evs, f.key, a);
    hide AbsorbAll, Arrived;
    assert BuiltFrom(c, evs + [ev], f, a);
  }

  lemma BuiltMore(c: Config, evs: seq<Event>, ev: Event, f: InFlight)
    requires Built(c, evs, f) && ev.Add? && Session(ev) == f.key
    ensures Built(c, evs + [ev], Absorb(c.syn, f, ev.env, ev.now))
  {
    var a: nat :| BuiltFrom(c, evs, f, a);
    var xs, x := Arrived(evs, f.key, a), Arrival(ev.env, ev.now);
    assert (evs + [ev])[..|evs|] == evs;
    assert Arrived(evs + [ev], f.key, a) == xs + [x];
    assert (xs + [x])[..|xs|] == xs;
    assert AbsorbAll(c.syn, New(f), xs + [x]) == Absorb(c.syn, f, x.env, x.now);
    var g := Absorb(c.syn, f, ev.env, ev.now);
    assert New(g) == New(f) && OpenedBy(g, evs[a]);
    hide AbsorbAll, Arrived, Absorb;
    assert BuiltFrom(c, evs + [ev], g, a);
  }

  lemma BuiltNew(c: Config, evs: seq<Event>, ev: Event, f: InFlight)
    requires OpenedBy(f, ev) && f == New(f)
    ensures Built(c, evs + [ev], Absorb(c.syn, f, ev.env, ev.now))
  {
    var a, x := |evs|, Arrival(ev.env, ev.now);
    assert (evs + [ev])[..|evs|] == evs;
    assert Arrived(evs + [ev], f.key, a) == [x];
    assert [x][..0] == [] && AbsorbAll(c.syn, f, [x]) == Absorb(c.syn, AbsorbAll(c.syn, f, []), x.env, x.now);
    assert AbsorbAll(c.syn, f, []) == f;
    var g := Absorb(c.syn, f, ev.env, ev.now);
    assert New(g) == f && OpenedBy(g, ev);
    hide AbsorbAll, Arrived, Absorb;
    assert BuiltFrom(c, evs + [ev], g, a);
  }

  // ---------- why something comes out ----------

  /** The five reasons. A patch: its session is closed, remembered, and has not had the span yet.
      Evicted: the oldest of as many open episodes as there may be, for a new session. A deadline,
      looked at on every tick and after every arrival absorbed. The stop. */
  ghost predicate Reason(c: Config, a: Asm, ev: Event, o: Out)
  {
    match o
    case Patch(session, span, id, env, _) =>
      && ev.Add? && session == Session(ev) && env == ev.env && span == SpanKey(c.syn, env)
      && session !in a.open && session in a.emitted && id == a.emitted[session]
      && (session in a.spansOut ==> span !in a.spansOut[session])
    case Closed(f, status) =>
      match ev
      case Add(_, _, due, _, _) =>
        || (status == Evicted && |a.order| == c.maxInFlight && a.order != [] && a.order[0] == f.key
            && f.key in a.open && f == a.open[f.key] && Session(ev) !in a.open && Session(ev) !in a.emitted)
        || ExpiredAs(c, f, status, due)
      case Tick(now) => ExpiredAs(c, f, status, now)
      case Stop(fallback) => StoppedAs(f, status, fallback)
  }

  /** What an event adds to the output has a reason, and is built from the events so far. */
  ghost predicate Explained(c: Config, evs: seq<Event>, ev: Event, a: Asm, r: Asm)
  {
    && a.out <= r.out
    && forall i | |a.out| <= i < |r.out| ::
         Reason(c, a, ev, r.out[i]) && (r.out[i].Closed? ==> Built(c, evs + [ev], r.out[i].f))
  }

  lemma ExpireExplained(c: Config, evs: seq<Event>, ev: Event, a: Asm, b: Asm, now: int)
    requires Configured(c) && Bounded(c, b) && AllBuilt(c, evs + [ev], b) && Explained(c, evs, ev, a, b)
    requires !ev.Stop? && now == if ev.Add? then ev.due else ev.now
    ensures var r := Expire(c, b, now); Explained(c, evs, ev, a, r) && AllBuilt(c, evs + [ev], r)
  {
    hide Bounded, Expire, ExpiredAs, AllBuilt, Explained, Emits;
    ExpireBounded(c, b, now);
    var r := Expire(c, b, now);
    EmitsOpen(b, r);
    EmittedBuilt(c, evs + [ev], b, r);
    assert forall i | |b.out| <= i < |r.out| :: ExpiredAs(c, r.out[i].f, r.out[i].status, now);
    DeadlinesExplain(c, evs, ev, a, b, r, now);
  }

  lemma EmittedBuilt(c: Config, evs: seq<Event>, b: Asm, r: Asm)
    requires AllBuilt(c, evs, b) && Emits(b, r)
    ensures AllBuilt(c, evs, r) && forall i | |b.out| <= i < |r.out| :: Built(c, evs, r.out[i].f)
  {
    hide Built;
  }

  lemma DeadlinesExplain(c: Config, evs: seq<Event>, ev: Event, a: Asm, b: Asm, r: Asm, now: int)
    requires Explained(c, evs, ev, a, b) && b.out <= r.out && !ev.Stop? && now == if ev.Add? then ev.due else ev.now
    requires forall i | |b.out| <= i < |r.out| :: r.out[i].Closed? && Built(c, evs + [ev], r.out[i].f)
    requires forall i | |b.out| <= i < |r.out| :: r.out[i].Closed? && ExpiredAs(c, r.out[i].f, r.out[i].status, now)
    ensures Explained(c, evs, ev, a, r)
  {
    hide ExpiredAs, Built, Reason;
    forall i | |a.out| <= i < |r.out|
      ensures Reason(c, a, ev, r.out[i]) && (r.out[i].Closed? ==> Built(c, evs + [ev], r.out[i].f))
    {
      if i < |b.out| { assert r.out[i] == b.out[i]; } else { ReasonExpired(c, a, ev, r.out[i], now); }
    }
  }

  lemma ReasonExpired(c: Config, a: Asm, ev: Event, o: Out, now: int)
    requires o.Closed? && ExpiredAs(c, o.f, o.status, now) && !ev.Stop? && now == if ev.Add? then ev.due else ev.now
    ensures Reason(c, a, ev, o)
  {
    hide ExpiredAs;
  }

  lemma OpenedNew(c: Config, a: Asm, ev: Event)
    requires Configured(c) && Bounded(c, a) && ev.Add? && Session(ev) !in a.open && Session(ev) !in a.emitted
    ensures var s := Session(ev); var b := OpenSession(c, a, s, ev.env, ev.now, ev.freshID);
            && s in b.open && b.open[s] == New(b.open[s]) && OpenedBy(b.open[s], ev)
            && (forall k | k in b.open && k != s :: k in a.open && b.open[k] == a.open[k])
            && (if |a.order| < c.maxInFlight then b.out == a.out
                else |a.order| == c.maxInFlight && a.order[0] in a.open
                     && b.out == a.out + [Closed(a.open[a.order[0]], Evicted)])
  {
    hide CloseOne;
    if |a.order| >= c.maxInFlight {
      OldestOpen(a);
      CloseOneBounded(c, a, a.order[0], Evicted);
    }
  }

  lemma AbsorbedExplained(c: Config, evs: seq<Event>, ev: Event, a: Asm)
    requires Configured(c) && Bounded(c, a) && AllBuilt(c, evs, a)
    requires ev.Add? && (Session(ev) in a.open || Session(ev) !in a.emitted)
    ensures var b := Absorbed(c, a, ev); AllBuilt(c, evs + [ev], b) && Explained(c, evs, ev, a, b)
  {
    var s, b := Session(ev), Absorbed(c, a, ev);
    if s !in a.open { OpenedNew(c, a, ev); }
    hide Bounded, OpenSession, Absorb, Built, New, Explained, Reason;
    EvictExplained(c, evs, ev, a, b);
    forall k | k in b.open
      ensures b.open[k].key == k && Built(c, evs + [ev], b.open[k])
    {
      if k != s {
        BuiltStays(c, evs, ev, a.open[k]);
      } else if s in a.open {
        BuiltMore(c, evs, ev, a.open[s]);
        AbsorbKeeps(c.syn, a.open[s], ev.env, ev.now);
      } else {
        var f := OpenSession(c, a, s, ev.env, ev.now, ev.freshID).open[s];
        BuiltNew(c, evs, ev, f);
        AbsorbKeeps(c.syn, f, ev.env, ev.now);
      }
    }
  }

  lemma EvictExplained(c: Config, evs: seq<Event>, ev: Event, a: Asm, b: Asm)
    requires AllBuilt(c, evs, a) && ev.Add?
    requires b.out == a.out
             || (&& |a.order| == c.maxInFlight && a.order != [] && a.order[0] in a.open
                 && b.out == a.out + [Closed(a.open[a.order[0]], Evicted)]
                 && Session(ev) !in a.open && Session(ev) !in a.emitted)
    ensures Explained(c, evs, ev, a, b)
  {
    hide Built, ExpiredAs;
    if b.out != a.out {
      assert b.out[|a.out|] == Closed(a.open[a.order[0]], Evicted);
      BuiltStays(c, evs, ev, a.open[a.order[0]]);
    }
  }

  /** One event: everything open stays built, everything that comes out is explained. */
  lemma StepExplained(c: Config, evs: seq<Event>, ev: Event, a: Asm)
    requires Configured(c) && Bounded(c, a) && AllBuilt(c, evs, a)
    ensures var r := Apply(c, a, ev); AllBuilt(c, evs + [ev], r) && Explained(c, evs, ev, a, r)
  {
    hide Bounded, Expire, Flush, Absorbed, Built;
    forall k | k in a.open && (ev.Add? ==> Session(ev) != k)
      ensures Built(c, evs + [ev], a.open[k])
    {
      BuiltStays(c, evs, ev, a.open[k]);
    }
    match ev
    case Add(_, _, _, _, _) =>
      if Session(ev) in a.open || Session(ev) !in a.emitted {
        AbsorbedBounded(c, a, ev);
        AbsorbedExplained(c, evs, ev, a);
        ExpireExplained(c, evs, ev, a, Absorbed(c, a, ev), ev.due);
      }
    case Tick(now) => ExpireExplained(c, evs, ev, a, a, now);
    case Stop(fallback) => FlushBounded(c, a, fallback);
  }

  lemma {:induction false} RunBuilt(c: Config, evs: seq<Event>)
    requires Configured(c)
    ensures AllBuilt(c, evs, Run(c, evs))
  {
    hide AllBuilt, Explained, Bounded, Apply;
    if evs == [] {
      NoneBuilt(c);
    } else {
      var n := |evs| - 1;
      RunBuilt(c, evs[..n]);
      RunBounded(c, evs[..n]);
      StepExplained(c, evs[..n], evs[n], Run(c, evs[..n]));
      assert evs[..n] + [evs[n]] == evs;
    }
  }

  lemma NoneBuilt(c: Config)
    ensures AllBuilt(c, [], NEW)
  {
  }

  /** Every episode open after a run was opened by one of its events and has absorbed exactly the
      arrivals of its session since then, in order. */
  lemma OpenAbsorbed(c: Config, evs: seq<Event>, k: string) returns (a: nat)
    requires Configured(c) && k in Run(c, evs).open
    ensures var f := Run(c, evs).open[k]; f.key == k && BuiltFrom(c, evs, f, a)
  {
    hide Run, BuiltFrom;
    RunBuilt(c, evs);
    a :| BuiltFrom(c, evs, Run(c, evs).open[k], a);
  }

  /** Everything a run emits, explained: the n-th event put it out, for one of the five reasons
      seen in the state before that event; and an episode that was closed holds exactly the
      arrivals of its session from the event that opened it to that one. */
  lemma {:induction false} RunExplained(c: Config, evs: seq<Event>, i: nat) returns (n: nat, a: nat)
    requires Configured(c) && i < |Run(c, evs).out|
    ensures var o := Run(c, evs).out[i];
            && n < |evs| && Reason(c, Run(c, evs[..n]), evs[n], o)
            && (o.Closed? ==> BuiltFrom(c, evs[..n + 1], o.f, a))
  {
    hide Reason, AllBuilt, Bounded, Apply, BuiltFrom;
    var m := |evs| - 1;
    var s := Run(c, evs[..m]);
    RunBounded(c, evs[..m]);
    RunBuilt(c, evs[..m]);
    StepExplained(c, evs[..m], evs[m], s);
    var o := Run(c, evs).out[i];
    assert evs[..m] + [evs[m]] == evs && evs[..m + 1] == evs;
    if i < |s.out| {
      n, a := RunExplained(c, evs[..m], i);
      assert evs[..m][..n] == evs[..n] && evs[..m][..n + 1] == evs[..n + 1];
    } else {
      n, a := m, 0;
      if o.Closed? { a :| BuiltFrom(c, evs, o.f, a); }
    }
  }

  /** An episode is emitted as complete only if its terminal marker arrived, and, unless the run
      was stopped, the settle time after the first one; as timed out only after a whole window
      without an arrival, counted from the last one. */
  lemma StatusMeans(c: Config, evs: seq<Event>, i: nat) returns (n: nat, a: nat, xs: seq<Arrival>)
    requires Configured(c) && i < |Run(c, evs).out| && Run(c, evs).out[i].Closed?
    ensures var o := Run(c, evs).out[i];
            && n < |evs| && xs != [] && xs == Arrived(evs[..n + 1], o.f.key, a)
            && (o.status == Complete && !evs[n].Stop? ==>
                  exists t :: FirstTerminal(xs, t) && t + c.settle <= if evs[n].Add? then evs[n].due else evs[n].now)
            && (o.status == TimedOut && !evs[n].Stop? ==>
                  xs[|xs| - 1].now + c.window <= if evs[n].Add? then evs[n].due else evs[n].now)
            && (evs[n].Stop? && evs[n].fallback != Complete ==>
                  (o.status == Complete <==> exists j :: 0 <= j < |xs| && xs[j].env.terminal))
  {
    hide Run, Arrived, AbsorbAll;
    n, a := RunExplained(c, evs, i);
    var o := Run(c, evs).out[i];
    xs := Arrived(evs[..n + 1], o.f.key, a);
    ArrivalTimes(c.syn, New(o.f), xs);
    if o.f.terminalAt.Some? { assert FirstTerminal(xs, o.f.terminalAt.value); }
  }
}
