/** What a label says, in terms of the lake alone: which outcomes it carries, in which order, with
    which latest values and status. */
module Labels {
  import opened Basics
  import opened Sorting
  import opened Dedup
  import opened Join
  import opened Attribution

  const DAY: int := 24 * 60 * 60 * 1_000_000

  /** The configured horizon, or thirty days. */
  predicate IsHorizon(o: Options, h: int) { if o.horizon > 0 then h == o.horizon else h == 30 * DAY }

  /** t is no later than h past the end of the episode, an end before the start not counting. */
  predicate Within(ep: Ep, h: int, t: int) { t - h <= ep.startedAt || (ep.endedAt.Some? && t - h <= ep.endedAt.value) }

  /** The fact is about a key of the episode, and happened between its start and its horizon. */
  predicate Touches(h: int, ep: Ep, f: Fact)
  {
    && (exists k :: k in ep.keys && k.value == f.entityKey
                    && (f.entityName.Some? ==> k.name == f.entityName.value) && (f.entityName.None? ==> k.name == ""))
    && ep.startedAt <= f.occurredAt && Within(ep, h, f.occurredAt)
  }

  /** x is what a label shows of f. */
  predicate Shows(x: Outcome, f: Fact)
  {
    && x.kind == f.kind && x.value == f.value && x.source == f.source
    && x.occurredAt == f.occurredAt && x.observedAt == f.observedAt
    && x.key.value == f.entityKey && (f.entityName.Some? ==> x.key.name == f.entityName.value)
    && (f.id.Some? ==> x.id == f.id.value) && (f.id.None? ==> x.id == "") && (f.entityName.None? ==> x.key.name == "")
  }

  lemma ShowsOne(f: Fact)
    ensures forall x :: x == ToOutcome(f) <==> Shows(x, f)
  {
  }

  lemma TouchesIs(o: Options, h: int, eps: seq<Ep>, i: nat, f: Fact)
    requires i < |eps| && IsHorizon(o, h)
    ensures Eligible(o, eps, i, f) <==> Touches(h, eps[i], f)
  {
    var k := KeyOf(f);
    if Touches(h, eps[i], f) {
      var l :| l in eps[i].keys && l.value == f.entityKey
          && (f.entityName.Some? ==> l.name == f.entityName.value) && (f.entityName.None? ==> l.name == "");
      assert l == k;
    }
    if k in eps[i].keys { assert k.value == f.entityKey; }
  }

  lemma {:induction false} CopiesMembers(to: seq<nat>, i: nat, x: Outcome, y: Outcome)
    ensures y in Copies(to, i, x) <==> y == x && i in to
  {
    if to != [] { CopiesMembers(to[1..], i, x, y); }
  }

  lemma {:induction false} PutOnMembers(o: Options, eps: seq<Ep>, facts: seq<Fact>, i: nat, x: Outcome)
    ensures x in PutOn(o, eps, facts, i) <==> exists f :: f in facts && i in GoesTo(o, eps, f) && x == ToOutcome(f)
  {
    hide GoesTo, Copies, ToOutcome;
    if facts != [] {
      var n := |facts| - 1;
      PutOnMembers(o, eps, facts[..n], i, x);
      CopiesMembers(GoesTo(o, eps, facts[n]), i, ToOutcome(facts[n]), x);
      assert forall f :: f in facts <==> f in facts[..n] || f == facts[n];
    }
  }

  /** What is on a label, exactly: the facts left by deduplication and observed by then that go to
      the episode, field for field. */
  lemma LabelMembers(o: Options, eps: seq<Ep>, facts: seq<Fact>, i: nat, x: Outcome)
    ensures x in OutcomesOf(o, eps, facts, i) <==>
            exists f :: f in Deduped(o, facts) && f.observedAt <= o.asOf && i in GoesTo(o, eps, f) && Shows(x, f)
  {
    hide Deduped, PutOn, GoesTo, Filter, Sort, Shows, ToOutcome;
    var s := Survivors(o, facts);
    SortMembers(OlderFirst, PutOn(o, eps, s, i));
    PutOnMembers(o, eps, s, i, x);
    forall f ensures f in s <==> f in Deduped(o, facts) && f.observedAt <= o.asOf {
      FilterMembers(KnownBy(o.asOf), Deduped(o, facts), f);
    }
    forall f ensures x == ToOutcome(f) <==> Shows(x, f) { ShowsOne(f); }
  }

  /** Nothing is on a label by mistake: every outcome on it shows a fact of the lake that was
      observed by then and touches the episode; and under last touch no episode that the fact
      also touches started later. */
  lemma OnLabelFor(o: Options, h: int, eps: seq<Ep>, facts: seq<Fact>, i: nat, x: Outcome) returns (f: Fact)
    requires i < |eps| && IsHorizon(o, h) && x in OutcomesOf(o, eps, facts, i)
    ensures f in facts && f.observedAt <= o.asOf && Shows(x, f) && Touches(h, eps[i], f)
    ensures !o.all ==> forall j | 0 <= j < |eps| && Touches(h, eps[j], f) :: eps[j].startedAt <= eps[i].startedAt
  {
    hide Deduped, OutcomesOf, GoesTo, Shows, Touches, Eligible, IsHorizon;
    LabelMembers(o, eps, facts, i, x);
    f :| f in Deduped(o, facts) && f.observedAt <= o.asOf && i in GoesTo(o, eps, f) && Shows(x, f);
    FromLake(o, facts, f);
    GoesEligible(o, eps, f, i);
    TouchesIs(o, h, eps, i, f);
    if !o.all {
      LastTouch(o, eps, f);
      forall j | 0 <= j < |eps| && Touches(h, eps[j], f)
        ensures eps[j].startedAt <= eps[i].startedAt
      {
        TouchesIs(o, h, eps, j, f);
      }
    }
  }

  lemma FromLake(o: Options, facts: seq<Fact>, f: Fact)
    requires f in Deduped(o, facts)
    ensures f in facts
  {
    hide Deduped;
    DedupedMeaning(o, facts);
  }

  /** Nothing is missing: a fact observed by then is on every episode it touches under "all", and
      under last touch on the one it touches that started last. */
  lemma OnLabelIf(o: Options, h: int, eps: seq<Ep>, facts: seq<Fact>, i: nat, f: Fact, x: Outcome)
    requires i < |eps| && IsHorizon(o, h) && f in Deduped(o, facts) && f.observedAt <= o.asOf && Shows(x, f)
    requires Touches(h, eps[i], f)
    requires o.all || forall j | 0 <= j < |eps| && j != i && Touches(h, eps[j], f) ::
               eps[j].startedAt < eps[i].startedAt
    ensures x in OutcomesOf(o, eps, facts, i)
  {
    hide Deduped, OutcomesOf, GoesTo, Shows, Touches, IsHorizon;
    TouchesIs(o, h, eps, i, f);
    if o.all {
      AllTouch(o, eps, f, i);
      assert multiset(eps[i].keys)[KeyOf(f)] > 0;
      assert i in multiset(GoesTo(o, eps, f));
    } else {
      LastTouch(o, eps, f);
      var j := GoesTo(o, eps, f)[0];
      TouchesIs(o, h, eps, j, f);
    }
    LabelMembers(o, eps, facts, i, x);
  }

  /** Outcomes are listed by the time they happened and then by the time they were observed, and
      the latest value of a kind is that of an outcome of it behind which no other comes. */
  lemma LabelOrder(o: Options, eps: seq<Ep>, facts: seq<Fact>, i: nat)
    ensures var s := OutcomesOf(o, eps, facts, i);
            && (forall a, b | 0 <= a < b < |s| ::
                  s[a].occurredAt < s[b].occurredAt
                  || (s[a].occurredAt == s[b].occurredAt && s[a].observedAt <= s[b].observedAt))
            && (forall x | x in s :: x.kind in LatestOf(s))
            && forall kind | kind in LatestOf(s) ::
                 exists x :: && x in s && x.kind == kind && x.value == LatestOf(s)[kind]
                             && forall y | y in s && y.kind == kind ::
                                  y.occurredAt < x.occurredAt
                                  || (y.occurredAt == x.occurredAt && y.observedAt <= x.observedAt)
  {
    var p := PutOn(o, eps, Survivors(o, facts), i);
    assert Preorder(OlderFirst);
    SortSorted(OlderFirst, p);
    var s := OutcomesOf(o, eps, facts, i);
    hide Sort, LatestOf, PutOn, Survivors, OutcomesOf;
    forall kind
      ensures (exists x :: x in s && x.kind == kind) ==> kind in LatestOf(s)
      ensures kind in LatestOf(s) ==>
                exists x :: x in s && x.kind == kind && x.value == LatestOf(s)[kind]
                            && forall y | y in s && y.kind == kind :: OlderFirst(y, x)
    {
      LatestMaximal(s, kind);
    }
  }

  /** A label is unjoinable without keys, final once the horizon has passed since the start and,
      if there is one, the end of the episode, and provisional until then. */
  lemma StatusMeans(o: Options, h: int, ep: Ep)
    requires IsHorizon(o, h)
    ensures StatusOf(o, ep) == Unjoinable <==> ep.keys == []
    ensures StatusOf(o, ep) == Final <==>
            ep.keys != [] && ep.startedAt + h <= o.asOf && (ep.endedAt.Some? ==> ep.endedAt.value + h <= o.asOf)
  {
  }
}
