/** Row types shared by the assembler, the sink and the reader. */
module Records {
  import opened Basics

  const KIND_LLM := "llm"
  const KIND_TOOL := "tool"

  /** rest stands for the columns no rule here looks at. */
  datatype Step = Step(
    episodeID: string, idx: int, parent: Option<int>, kind: string, startedAt: int, latencyMs: Option<int>,
    inline: Option<string>, contentRef: Option<string>, truncated: bool,
    hasParams: bool, tokenSpans: nat, hasToolVersion: bool, rest: string)

  datatype Status = Complete | TimedOut | Evicted | Patched

  datatype Fidelity = Fidelity(hasParams: bool, hasTokenSpans: bool, hasToolVersions: bool)
}

/** One episode being assembled: absorbing envelopes, and the canonical steps it closes with.
    What comes out does not depend on the order or the number of times envelopes came in. */
module Episode {
  import opened Basics
  import opened Sorting
  import opened Records

  datatype Meta = Meta(
    taskType: string, groupID: string, instrumentation: string, instrumentationVersion: string,
    raw: map<string, string>)

  const NO_META := Meta("", "", "", "", map[])

  datatype Envelope = Envelope(
    sessionKey: string, episodeID: string, source: string, spanID: string, parentSpanID: string,
    terminal: bool, error: Option<string>, meta: Meta, step: Step)

  datatype InFlight = InFlight(
    key: string, episodeID: string, createdAt: int, lastSeen: int, meta: Meta, source: string,
    terminalAt: Option<int>, error: Option<string>, spans: map<string, Envelope>, startedAt: int, endedAt: int)

  /** An envelope and the moment it arrived. */
  datatype Arrival = Arrival(env: Envelope, now: int)

  /** The identity used for deduplication: the producer's span id, or a hash of the content. */
  function SpanKey(syn: Step -> string, env: Envelope): string
  {
    if env.spanID != "" then env.spanID else syn(env.step)
  }

  /** On a duplicate the earliest sighting is kept. */
  function Keep(spans: map<string, Envelope>, k: string, env: Envelope): map<string, Envelope>
  {
    if k in spans && env.step.startedAt >= spans[k].step.startedAt then spans else spans[k := env]
  }

  function End(env: Envelope): int
  {
    env.step.startedAt + (if env.step.latencyMs.Some? then env.step.latencyMs.value * 1000 else 0)
  }

  function OrElse(a: string, b: string): string { if a == "" then b else a }

  function Absorb(syn: Step -> string, f: InFlight, env: Envelope, now: int): InFlight
  {
    var s := env.step.startedAt;
    f.(lastSeen := now,
       spans := Keep(f.spans, SpanKey(syn, env), env),
       meta := Meta(OrElse(f.meta.taskType, env.meta.taskType), OrElse(f.meta.groupID, env.meta.groupID),
                    OrElse(f.meta.instrumentation, env.meta.instrumentation),
                    OrElse(f.meta.instrumentationVersion, env.meta.instrumentationVersion),
                    f.meta.raw + env.meta.raw),
       error := if env.error.Some? && f.error.None? then env.error else f.error,
       terminalAt := if env.terminal && f.terminalAt.None? then Some(now) else f.terminalAt,
       startedAt := if s > 0 && (f.startedAt == 0 || s < f.startedAt) then s else f.startedAt,
       endedAt := if End(env) > f.endedAt then End(env) else f.endedAt)
  }

  function AbsorbAll(syn: Step -> string, f: InFlight, xs: seq<Arrival>): InFlight
  {
    if xs == [] then f
    else
      var n := |xs| - 1;
      Absorb(syn, AbsorbAll(syn, f, xs[..n]), xs[n].env, xs[n].now)
  }

  /** A new episode has seen nothing. */
  predicate Blank(f: InFlight)
  {
    f.spans == map[] && f.startedAt == 0 && f.endedAt == 0 && f.meta == NO_META && f.error == None
        && f.terminalAt == None
  }

  // ---------- what absorbing computes, said without the order ----------

  /** The envelopes that arrived, whatever the order and the number of copies. */
  ghost function Sent(xs: seq<Arrival>): set<Envelope>
  {
    set i | 0 <= i < |xs| :: xs[i].env
  }

  lemma SentSnoc(xs: seq<Arrival>, a: Arrival)
    ensures Sent(xs + [a]) == Sent(xs) + {a.env}
  {
    var ys := xs + [a];
    assert ys[|xs|] == a && forall i | 0 <= i < |xs| :: ys[i] == xs[i];
    forall e | e in Sent(xs) + {a.env}
      ensures e in Sent(ys)
    {
      if e in Sent(xs) { var i :| 0 <= i < |xs| && xs[i].env == e; assert ys[i].env == e; }
    }
  }

  lemma SentCons(a: Arrival, xs: seq<Arrival>)
    ensures Sent([a] + xs) == Sent(xs) + {a.env}
  {
    var ys := [a] + xs;
    assert ys[0] == a && forall i | 0 <= i < |xs| :: ys[i + 1] == xs[i];
    forall e | e in Sent(xs) + {a.env}
      ensures e in Sent(ys)
    {
      if e in Sent(xs) { var i :| 0 <= i < |xs| && xs[i].env == e; assert ys[i + 1].env == e; }
    }
    forall e | e in Sent(ys)
      ensures e in Sent(xs) + {a.env}
    {
      var i :| 0 <= i < |ys| && ys[i].env == e;
      if i > 0 { assert xs[i - 1].env == e; }
    }
  }

  /** e is an earliest sighting of span k in a set of envelopes. */
  predicate Earliest(syn: Step -> string, sent: set<Envelope>, k: string, e: Envelope)
  {
    && e in sent && SpanKey(syn, e) == k
    && forall x | x in sent && SpanKey(syn, x) == k :: e.step.startedAt <= x.step.startedAt
  }

  ghost predicate SpansSummarise(syn: Step -> string, spans: map<string, Envelope>, sent: set<Envelope>)
  {
    && (forall x | x in sent :: SpanKey(syn, x) in spans)
    && (forall k | k in spans :: Earliest(syn, sent, k, spans[k]))
  }

  /** The least positive start, or 0 if there is none. */
  ghost predicate IsStart(sent: set<Envelope>, s: int)
  {
    && s >= 0
    && (forall x | x in sent && x.step.startedAt > 0 :: 0 < s <= x.step.startedAt)
    && (s == 0 || exists x :: x in sent && x.step.startedAt == s)
  }

  /** A span ends its latency, in milliseconds, after its start, or at once if it has none. */
  predicate EndsAt(x: Envelope, t: int)
  {
    match x.step.latencyMs
    case Some(ms) => t - x.step.startedAt == ms * 1000
    case None => t == x.step.startedAt
  }

  /** The greatest end, or 0 if all are negative. */
  ghost predicate IsEnd(sent: set<Envelope>, e: int)
  {
    && e >= 0
    && (forall x, t | x in sent && EndsAt(x, t) :: t <= e)
    && (e == 0 || exists x :: x in sent && EndsAt(x, e))
  }

  lemma EndIs(x: Envelope)
    ensures forall t :: EndsAt(x, t) <==> t == End(x)
  {
  }

  lemma KeepSummarises(syn: Step -> string, spans: map<string, Envelope>, sent: set<Envelope>, e: Envelope)
    requires SpansSummarise(syn, spans, sent)
    ensures SpansSummarise(syn, Keep(spans, SpanKey(syn, e), e), sent + {e})
  {
    var k0 := SpanKey(syn, e);
    var r := Keep(spans, k0, e);
    forall k | k in r
      ensures Earliest(syn, sent + {e}, k, r[k])
    {
      if k in spans { assert Earliest(syn, sent, k, spans[k]); }
    }
  }

  /** Absorbing any sequence of envelopes into a new episode keeps, for each span, an earliest
      sighting of it and nothing else, the least positive start and the greatest end. */
  lemma {:induction false} AbsorbSummarises(syn: Step -> string, f: InFlight, xs: seq<Arrival>)
    requires Blank(f)
    ensures SpansSummarise(syn, AbsorbAll(syn, f, xs).spans, Sent(xs))
    ensures IsStart(Sent(xs), AbsorbAll(syn, f, xs).startedAt)
    ensures IsEnd(Sent(xs), AbsorbAll(syn, f, xs).endedAt)
  {
    hide SpansSummarise, IsStart, IsEnd, Keep, Sent, SpanKey, End, AbsorbAll;
    if xs == [] {
      NothingAbsorbed(syn, f);
    } else {
      var n := |xs| - 1;
      var init, a := xs[..n], xs[n];
      AbsorbSummarises(syn, f, init);
      AbsorbLast(syn, f, xs);
      assert xs == init + [a];
      SentSnoc(init, a);
      var g := AbsorbAll(syn, f, init);
      KeepSummarises(syn, g.spans, Sent(init), a.env);
      StartEndStep(Sent(init), a.env, g.startedAt, g.endedAt);
    }
  }

  lemma {:induction false} NothingAbsorbed(syn: Step -> string, f: InFlight)
    requires Blank(f)
    ensures var r := AbsorbAll(syn, f, []);
            SpansSummarise(syn, r.spans, Sent([])) && IsStart(Sent([]), r.startedAt) && IsEnd(Sent([]), r.endedAt)
  {
  }

  lemma {:induction false} AbsorbLast(syn: Step -> string, f: InFlight, xs: seq<Arrival>)
    requires xs != []
    ensures var n := |xs| - 1; var g, e, r := AbsorbAll(syn, f, xs[..n]), xs[n].env, AbsorbAll(syn, f, xs);
            && r.spans == Keep(g.spans, SpanKey(syn, e), e)
            && r.startedAt == (var t := e.step.startedAt;
                               if t > 0 && (g.startedAt == 0 || t < g.startedAt) then t else g.startedAt)
            && r.endedAt == if End(e) > g.endedAt then End(e) else g.endedAt
  {
    hide Keep, SpanKey, End;
  }

  lemma StartEndStep(sent: set<Envelope>, a: Envelope, s: int, e: int)
    requires IsStart(sent, s) && IsEnd(sent, e)
    ensures var t := a.step.startedAt; IsStart(sent + {a}, if t > 0 && (s == 0 || t < s) then t else s)
    ensures IsEnd(sent + {a}, if End(a) > e then End(a) else e)
  {
    EndIs(a);
    hide End, EndsAt;
    if x :| x in sent && x.step.startedAt == s { assert x in sent + {a}; }
    if x :| x in sent && EndsAt(x, e) { assert x in sent + {a}; }
  }

  /** Two sightings of one span: the same span id, or no ids and the same content hash. */
  predicate SameSpan(syn: Step -> string, a: Envelope, b: Envelope)
  {
    a.spanID == b.spanID && (a.spanID == "" ==> syn(a.step) == syn(b.step))
  }

  /** No span id that was sent is also the content hash of a span without an id. */
  ghost predicate IdsApart(syn: Step -> string, sent: set<Envelope>)
  {
    forall a, b | a in sent && b in sent && a.spanID != "" && b.spanID == "" :: a.spanID != syn(b.step)
  }

  /** What an episode keeps, span by span: of every span that was sent one sighting, no later than
      any other, and no span twice. */
  lemma SpansKept(syn: Step -> string, f: InFlight, xs: seq<Arrival>)
    requires Blank(f) && IdsApart(syn, Sent(xs))
    ensures var s := AbsorbAll(syn, f, xs).spans;
            && (forall k | k in s :: s[k] in Sent(xs))
            && (forall k, l | k in s && l in s && k != l :: !SameSpan(syn, s[k], s[l]))
            && (forall x | x in Sent(xs) ::
                  exists k :: k in s && SameSpan(syn, s[k], x) && s[k].step.startedAt <= x.step.startedAt)
  {
    hide AbsorbAll, Sent, SpansSummarise, IsStart, IsEnd;
    AbsorbSummarises(syn, f, xs);
    SummaryKept(syn, AbsorbAll(syn, f, xs).spans, Sent(xs));
  }

  lemma SummaryKept(syn: Step -> string, s: map<string, Envelope>, sent: set<Envelope>)
    requires SpansSummarise(syn, s, sent) && IdsApart(syn, sent)
    ensures forall k | k in s :: s[k] in sent
    ensures forall k, l | k in s && l in s && k != l :: !SameSpan(syn, s[k], s[l])
    ensures forall x | x in sent ::
              exists k :: k in s && SameSpan(syn, s[k], x) && s[k].step.startedAt <= x.step.startedAt
  {
    hide Earliest, SameSpan, IdsApart, SpanKey;
    forall k | k in s
      ensures s[k] in sent && SpanKey(syn, s[k]) == k
    {
      EarliestIs(syn, sent, k, s[k]);
    }
    forall k, l | k in s && l in s && k != l ensures !SameSpan(syn, s[k], s[l]) { SameKey(syn, sent, s[k], s[l]); }
    forall x | x in sent
      ensures exists k :: k in s && SameSpan(syn, s[k], x) && s[k].step.startedAt <= x.step.startedAt
    {
      var k := SpanKey(syn, x);
      EarliestOf(syn, sent, k, s[k], x);
      SameKey(syn, sent, s[k], x);
    }
  }

  lemma EarliestIs(syn: Step -> string, sent: set<Envelope>, k: string, e: Envelope)
    requires Earliest(syn, sent, k, e)
    ensures e in sent && SpanKey(syn, e) == k
  {
  }

  lemma EarliestOf(syn: Step -> string, sent: set<Envelope>, k: string, e: Envelope, x: Envelope)
    requires Earliest(syn, sent, k, e) && x in sent && SpanKey(syn, x) == k
    ensures e in sent && SpanKey(syn, e) == k && e.step.startedAt <= x.step.startedAt
  {
  }

  /** Spans are told apart exactly by their keys. */
  lemma SameKey(syn: Step -> string, sent: set<Envelope>, a: Envelope, b: Envelope)
    requires a in sent && b in sent && IdsApart(syn, sent)
    ensures SpanKey(syn, a) == SpanKey(syn, b) <==> SameSpan(syn, a, b)
  {
  }

  // ---------- order independence ----------

  /** The same envelopes arrived, in whatever order and however often. */
  ghost predicate SameEnvelopes(xs: seq<Arrival>, ys: seq<Arrival>) { Sent(xs) == Sent(ys) }

  /** No span has two different earliest sightings. */
  ghost predicate UniqueEarliest(syn: Step -> string, sent: set<Envelope>)
  {
    forall k, a, b :: Earliest(syn, sent, k, a) && Earliest(syn, sent, k, b) ==> a == b
  }

  lemma SpansAgree(syn: Step -> string, s: map<string, Envelope>, t: map<string, Envelope>, sent: set<Envelope>)
    requires SpansSummarise(syn, s, sent) && SpansSummarise(syn, t, sent) && UniqueEarliest(syn, sent)
    ensures s == t
  {
    assert forall k | k in s :: s[k] in sent && SpanKey(syn, s[k]) == k;
    assert forall k | k in t :: t[k] in sent && SpanKey(syn, t[k]) == k;
    assert s.Keys == t.Keys;
    hide Earliest;
    assert forall k | k in s :: Earliest(syn, sent, k, s[k]) && Earliest(syn, sent, k, t[k]);
  }

  lemma TimesAgree(sent: set<Envelope>, s: int, t: int, e: int, g: int)
    requires IsStart(sent, s) && IsStart(sent, t) && IsEnd(sent, e) && IsEnd(sent, g)
    ensures s == t && e == g
  {
    hide EndsAt;
  }

  /** The first arrival, if it is an earliest sighting, is the one kept. */
  lemma {:induction false} FirstStays(syn: Step -> string, f: InFlight, a: Arrival, xs: seq<Arrival>)
    requires Blank(f)
    requires forall i | 0 <= i < |xs| && SpanKey(syn, xs[i].env) == SpanKey(syn, a.env) ::
               a.env.step.startedAt <= xs[i].env.step.startedAt
    ensures var s := AbsorbAll(syn, f, [a] + xs).spans; var k := SpanKey(syn, a.env); k in s && s[k] == a.env
  {
    hide AbsorbAll, SpanKey, End, Keep;
    if xs == [] {
      OneKept(syn, f, a);
      assert [a] + xs == [a];
    } else {
      var n := |xs| - 1;
      var all := [a] + xs;
      FirstStays(syn, f, a, xs[..n]);
      AbsorbLast(syn, f, all);
      assert all[..n + 1] == [a] + xs[..n] && all[n + 1] == xs[n];
      KeepStays(AbsorbAll(syn, f, [a] + xs[..n]).spans, SpanKey(syn, xs[n].env), xs[n].env, SpanKey(syn, a.env), a.env);
    }
  }

  lemma {:induction false} OneKept(syn: Step -> string, f: InFlight, a: Arrival)
    requires Blank(f)
    ensures AbsorbAll(syn, f, [a]).spans == map[SpanKey(syn, a.env) := a.env]
  {
    hide SpanKey, End;
    assert [a][..0] == [] && AbsorbAll(syn, f, []) == f;
  }

  lemma KeepStays(spans: map<string, Envelope>, k: string, e: Envelope, kept: string, env: Envelope)
    requires kept in spans && spans[kept] == env && (k == kept ==> env.step.startedAt <= e.step.startedAt)
    ensures var r := Keep(spans, k, e); kept in r && r[kept] == env
  {
  }

  /** Order independence, exactly: whatever order a set of envelopes arrives in, and however
      often each of them, the episode ends with the same spans - if and only if no span has
      two different earliest sightings. */
  lemma {:induction false} OrderIndependence(syn: Step -> string, f: InFlight, xs: seq<Arrival>)
    requires Blank(f)
    ensures (forall ys, zs | SameEnvelopes(xs, ys) && SameEnvelopes(xs, zs) ::
               AbsorbAll(syn, f, ys).spans == AbsorbAll(syn, f, zs).spans)
            <==> UniqueEarliest(syn, Sent(xs))
  {
    hide AbsorbAll, Earliest, Sent;
    if UniqueEarliest(syn, Sent(xs)) {
      forall ys, zs | SameEnvelopes(xs, ys) && SameEnvelopes(xs, zs)
        ensures AbsorbAll(syn, f, ys).spans == AbsorbAll(syn, f, zs).spans
      {
        AbsorbSummarises(syn, f, ys);
        AbsorbSummarises(syn, f, zs);
        SpansAgree(syn, AbsorbAll(syn, f, ys).spans, AbsorbAll(syn, f, zs).spans, Sent(xs));
      }
    } else {
      var k, a, b :| Earliest(syn, Sent(xs), k, a) && Earliest(syn, Sent(xs), k, b) && a != b;
      LedBy(syn, f, xs, k, a);
      LedBy(syn, f, xs, k, b);
      var ys, zs := [Arrival(a, 0)] + xs, [Arrival(b, 0)] + xs;
      assert SameEnvelopes(xs, ys) && SameEnvelopes(xs, zs);
    }
  }

  /** Let an earliest sighting come first: it is the one kept. */
  lemma {:induction false} LedBy(syn: Step -> string, f: InFlight, xs: seq<Arrival>, k: string, e: Envelope)
    requires Blank(f) && Earliest(syn, Sent(xs), k, e)
    ensures var ys := [Arrival(e, 0)] + xs;
            SameEnvelopes(xs, ys) && k in AbsorbAll(syn, f, ys).spans && AbsorbAll(syn, f, ys).spans[k] == e
  {
    SentCons(Arrival(e, 0), xs);
    assert Sent(xs) + {e} == Sent(xs);
    assert forall i | 0 <= i < |xs| :: xs[i].env in Sent(xs);
    FirstStays(syn, f, Arrival(e, 0), xs);
  }

  /** The start and the end of an episode never depend on the order. */
  lemma {:induction false} TimesIndependent(syn: Step -> string, f: InFlight, xs: seq<Arrival>, ys: seq<Arrival>)
    requires Blank(f) && SameEnvelopes(xs, ys)
    ensures AbsorbAll(syn, f, xs).startedAt == AbsorbAll(syn, f, ys).startedAt
    ensures AbsorbAll(syn, f, xs).endedAt == AbsorbAll(syn, f, ys).endedAt
  {
    hide AbsorbAll, IsStart, IsEnd, SpansSummarise;
    AbsorbSummarises(syn, f, xs);
    AbsorbSummarises(syn, f, ys);
    var a, b := AbsorbAll(syn, f, xs), AbsorbAll(syn, f, ys);
    TimesAgree(Sent(xs), a.startedAt, b.startedAt, a.endedAt, b.endedAt);
  }

  // ---------- episode-level fields: first non-empty value wins ----------

  function FirstWins(g: Envelope -> string, xs: seq<Arrival>): string
  {
    if xs == [] then "" else OrElse(FirstWins(g, xs[..|xs| - 1]), g(xs[|xs| - 1].env))
  }

  /** An error as a string that is empty only if there is none. */
  function Coded(e: Option<string>): string { if e.None? then "" else "!" + e.value }

  /** The raw metadata: of each key the last value wins. */
  function LastRaw(xs: seq<Arrival>): map<string, string>
  {
    if xs == [] then map[] else LastRaw(xs[..|xs| - 1]) + xs[|xs| - 1].env.meta.raw
  }

  /** Every field of an episode: the four metadata fields and the error are the first that came,
      the raw metadata are the last, and the source and the id stay those it was opened with. */
  lemma {:induction false} MetaFirstWins(syn: Step -> string, f: InFlight, xs: seq<Arrival>)
    requires Blank(f)
    ensures var r := AbsorbAll(syn, f, xs);
            && r.meta == Meta(FirstWins((e: Envelope) => e.meta.taskType, xs),
                              FirstWins((e: Envelope) => e.meta.groupID, xs),
                              FirstWins((e: Envelope) => e.meta.instrumentation, xs),
                              FirstWins((e: Envelope) => e.meta.instrumentationVersion, xs), LastRaw(xs))
            && Coded(r.error) == FirstWins((e: Envelope) => Coded(e.error), xs)
            && r.source == f.source && r.episodeID == f.episodeID && r.key == f.key
  {
    if xs != [] { MetaFirstWins(syn, f, xs[..|xs| - 1]); }
  }

  lemma {:induction false} LastRawIs(xs: seq<Arrival>, k: string)
    ensures k in LastRaw(xs) <==> exists x :: x in Sent(xs) && k in x.meta.raw
    ensures k in LastRaw(xs) ==> exists x :: x in Sent(xs) && k in x.meta.raw && x.meta.raw[k] == LastRaw(xs)[k]
  {
    if xs != [] {
      var n := |xs| - 1;
      LastRawIs(xs[..n], k);
      SentSnoc(xs[..n], xs[n]);
      assert xs == xs[..n] + [xs[n]];
      var e := xs[n].env;
      assert e in Sent(xs);
      if k in LastRaw(xs) && k !in e.meta.raw {
        var x :| x in Sent(xs[..n]) && k in x.meta.raw && x.meta.raw[k] == LastRaw(xs[..n])[k];
        assert x in Sent(xs);
      }
    }
  }

  /** The envelopes that carry a raw key agree on its value. */
  ghost predicate RawAgreed(sent: set<Envelope>)
  {
    forall x, y, k | x in sent && y in sent && k in x.meta.raw && k in y.meta.raw :: x.meta.raw[k] == y.meta.raw[k]
  }

  /** The raw metadata are the same in every order if and only if the envelopes agree on them. */
  lemma RawIndependence(xs: seq<Arrival>)
    ensures (forall ys, zs | SameEnvelopes(xs, ys) && SameEnvelopes(xs, zs) :: LastRaw(ys) == LastRaw(zs))
            <==> RawAgreed(Sent(xs))
  {
    hide Sent;
    if RawAgreed(Sent(xs)) {
      hide LastRaw;
      forall ys, zs | SameEnvelopes(xs, ys) && SameEnvelopes(xs, zs)
        ensures LastRaw(ys) == LastRaw(zs)
      {
        forall k
          ensures k in LastRaw(ys) <==> k in LastRaw(zs)
          ensures k in LastRaw(ys) ==> LastRaw(ys)[k] == LastRaw(zs)[k]
        {
          LastRawIs(ys, k);
          LastRawIs(zs, k);
        }
      }
    } else {
      var a, b, k :| a in Sent(xs) && b in Sent(xs) && k in a.meta.raw && k in b.meta.raw
          && a.meta.raw[k] != b.meta.raw[k];
      var ys, zs := xs + [Arrival(a, 0)], xs + [Arrival(b, 0)];
      SentSnoc(xs, Arrival(a, 0));
      SentSnoc(xs, Arrival(b, 0));
      assert Sent(xs) + {a} == Sent(xs) && Sent(xs) + {b} == Sent(xs);
      assert ys[..|xs|] == xs && zs[..|xs|] == xs;
      assert LastRaw(ys)[k] == a.meta.raw[k] && LastRaw(zs)[k] == b.meta.raw[k];
      assert SameEnvelopes(xs, ys) && SameEnvelopes(xs, zs);
    }
  }

  /** The value won is one of those sent, and is empty only if all were. */
  lemma {:induction false} FirstWinsIs(g: Envelope -> string, xs: seq<Arrival>)
    ensures var v := FirstWins(g, xs);
            && (v != "" ==> exists x :: x in Sent(xs) && g(x) == v)
            && (v == "" ==> forall x | x in Sent(xs) :: g(x) == "")
  {
    if xs != [] {
      var n := |xs| - 1;
      FirstWinsIs(g, xs[..n]);
      SentSnoc(xs[..n], xs[n]);
      assert xs == xs[..n] + [xs[n]];
      assert xs[n].env in Sent(xs);
    }
  }

  lemma {:induction false} FirstWinsHead(g: Envelope -> string, a: Arrival, xs: seq<Arrival>)
    requires g(a.env) != ""
    ensures FirstWins(g, [a] + xs) == g(a.env)
  {
    if xs == [] {
      assert [a] + xs == [a] && [a][..0] == [];
    } else {
      var n := |xs| - 1;
      FirstWinsHead(g, a, xs[..n]);
      assert ([a] + xs)[..n + 1] == [a] + xs[..n];
    }
  }

  /** The envelopes that carry a value agree on it. */
  ghost predicate Agreed(g: Envelope -> string, sent: set<Envelope>)
  {
    forall x, y | x in sent && y in sent && g(x) != "" && g(y) != "" :: g(x) == g(y)
  }

  /** A first-wins field is the same in every order if and only if the envelopes that carry a
      value agree on it. */
  lemma FieldIndependence(g: Envelope -> string, xs: seq<Arrival>)
    ensures (forall ys, zs | SameEnvelopes(xs, ys) && SameEnvelopes(xs, zs) :: FirstWins(g, ys) == FirstWins(g, zs))
            <==> Agreed(g, Sent(xs))
  {
    hide FirstWins, Sent;
    if Agreed(g, Sent(xs)) {
      forall ys, zs | SameEnvelopes(xs, ys) && SameEnvelopes(xs, zs)
        ensures FirstWins(g, ys) == FirstWins(g, zs)
      {
        FirstWinsIs(g, ys);
        FirstWinsIs(g, zs);
      }
    } else {
      var a, b :| a in Sent(xs) && b in Sent(xs) && g(a) != "" && g(b) != "" && g(a) != g(b);
      var ys, zs := [Arrival(a, 0)] + xs, [Arrival(b, 0)] + xs;
      SentCons(Arrival(a, 0), xs);
      SentCons(Arrival(b, 0), xs);
      assert Sent(xs) + {a} == Sent(xs) && Sent(xs) + {b} == Sent(xs);
      FirstWinsHead(g, Arrival(a, 0), xs);
      FirstWinsHead(g, Arrival(b, 0), xs);
      assert SameEnvelopes(xs, ys) && SameEnvelopes(xs, zs);
    }
  }
}
