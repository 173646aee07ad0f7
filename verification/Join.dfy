/** The as-of join of outcomes to episodes: what a label holds, and what it does not depend on. */
module Join {
  import opened Basics
  import opened Sorting
  import opened Dedup

  datatype EntityKey = EntityKey(name: string, value: string)

  datatype Ep = Ep(id: string, startedAt: int, endedAt: Option<int>, keys: seq<EntityKey>)

  datatype Fact = Fact(
    id: Option<string>, entityName: Option<string>, entityKey: string, kind: string, value: string,
    occurredAt: int, observedAt: int, source: string)

  /** An outcome as a label carries it. */
  datatype Outcome = Outcome(id: string, key: EntityKey, kind: string, value: string, occurredAt: int,
                             observedAt: int, source: string)

  /** stamp renders a time; a horizon that is not positive means thirty days. */
  datatype Options = Options(asOf: int, horizon: int, all: bool, stamp: int -> string)

  datatype LabelStatus = Final | Provisional | Unjoinable

  /** An episode as the index by key refers to it. */
  datatype Ref = Ref(idx: nat, startedAt: int, closesAt: int)

  function OrEmpty(s: Option<string>): string { if s.Some? then s.value else "" }

  function KeyOf(f: Fact): EntityKey { EntityKey(OrEmpty(f.entityName), f.entityKey) }

  function ToOutcome(f: Fact): Outcome
  {
    Outcome(OrEmpty(f.id), KeyOf(f), f.kind, f.value, f.occurredAt, f.observedAt, f.source)
  }

  /** The identity of a fact: its id when it has one, else all of it. */
  function Identity(o: Options, f: Fact): string
  {
    if f.id.Some? && f.id.value != "" then "id:" + f.id.value
    else OrEmpty(f.entityName) + "\0" + f.entityKey + "\0" + f.kind + "\0" + f.value + "\0" + o.stamp(f.occurredAt)
  }

  function IdentityBy(o: Options): (k: Fact -> string) { (f: Fact) => Identity(o, f) }

  predicate ObservedLe(a: Fact, b: Fact) { a.observedAt <= b.observedAt }

  function Deduped(o: Options, facts: seq<Fact>): (r: seq<Fact>)
  {
    FirstOf(IdentityBy(o), Sort(ObservedLe, facts), {})
  }

  predicate Known(asOf: int, f: Fact) { f.observedAt <= asOf }

  function KnownBy(asOf: int): (p: Fact -> bool) { (f: Fact) => Known(asOf, f) }

  /** The facts a join at asOf looks at. */
  function Survivors(o: Options, facts: seq<Fact>): seq<Fact> { Filter(KnownBy(o.asOf), Deduped(o, facts)) }

  function HorizonOf(o: Options): (h: int)
    ensures h > 0
  {
    if o.horizon <= 0 then 2_592_000_000_000 else o.horizon
  }

  function EndOf(ep: Ep): int
  {
    if ep.endedAt.Some? && ep.endedAt.value > ep.startedAt then ep.endedAt.value else ep.startedAt
  }

  function ClosesAt(o: Options, ep: Ep): int { EndOf(ep) + HorizonOf(o) }

  function StatusOf(o: Options, ep: Ep): LabelStatus
  {
    if ep.keys == [] then Unjoinable else if o.asOf >= ClosesAt(o, ep) then Final else Provisional
  }

  // ---------- attribution ----------

  /** One entry for each of the keys that is k. */
  function Hits(keys: seq<EntityKey>, k: EntityKey, r: Ref): (s: seq<Ref>)
  {
    if keys == [] then [] else Hits(keys[..|keys| - 1], k, r) + (if keys[|keys| - 1] == k then [r] else [])
  }

  function RefTo(o: Options, eps: seq<Ep>, i: nat): Ref
    requires i < |eps|
  {
    Ref(i, eps[i].startedAt, ClosesAt(o, eps[i]))
  }

  /** The episodes that touched k, in lake order. */
  function Touched(o: Options, eps: seq<Ep>, k: EntityKey, n: nat): (s: seq<Ref>)
    requires n <= |eps|
  {
    if n == 0 then [] else Touched(o, eps, k, n - 1) + Hits(eps[n - 1].keys, k, RefTo(o, eps, n - 1))
  }

  predicate NewerFirst(a: Ref, b: Ref) { a.startedAt >= b.startedAt }

  function Ranked(o: Options, eps: seq<Ep>, k: EntityKey): (s: seq<Ref>) { Sort(NewerFirst, Touched(o, eps, k, |eps|)) }

  predicate InWindow(r: Ref, f: Fact) { r.startedAt <= f.occurredAt <= r.closesAt }

  /** The first eligible reference, or all of them. */
  function Winners(all: bool, refs: seq<Ref>, f: Fact): (s: seq<nat>)
  {
    if refs == [] then []
    else if !InWindow(refs[0], f) then Winners(all, refs[1..], f)
    else [refs[0].idx] + (if all then Winners(all, refs[1..], f) else [])
  }

  /** The labels a fact is put on. */
  function GoesTo(o: Options, eps: seq<Ep>, f: Fact): (s: seq<nat>) { Winners(o.all, Ranked(o, eps, KeyOf(f)), f) }

  function Copies(to: seq<nat>, i: nat, x: Outcome): (s: seq<Outcome>)
  {
    if to == [] then [] else (if to[0] == i then [x] else []) + Copies(to[1..], i, x)
  }

  /** What facts put on label i, in order. */
  function PutOn(o: Options, eps: seq<Ep>, facts: seq<Fact>, i: nat): (s: seq<Outcome>)
  {
    if facts == [] then []
    else
      var n := |facts| - 1;
      PutOn(o, eps, facts[..n], i) + Copies(GoesTo(o, eps, facts[n]), i, ToOutcome(facts[n]))
  }

  predicate OlderFirst(a: Outcome, b: Outcome)
  {
    a.occurredAt < b.occurredAt || (a.occurredAt == b.occurredAt && a.observedAt <= b.observedAt)
  }

  function OutcomesOf(o: Options, eps: seq<Ep>, facts: seq<Fact>, i: nat): (s: seq<Outcome>)
  {
    Sort(OlderFirst, PutOn(o, eps, Survivors(o, facts), i))
  }

  function LatestOf(s: seq<Outcome>): (m: map<string, string>)
  {
    if s == [] then map[] else LatestOf(s[..|s| - 1])[s[|s| - 1].kind := s[|s| - 1].value]
  }

  function Matched(o: Options, eps: seq<Ep>, facts: seq<Fact>): (n: nat)
  {
    if facts == [] then 0
    else Matched(o, eps, facts[..|facts| - 1]) + (if GoesTo(o, eps, facts[|facts| - 1]) == [] then 0 else 1)
  }

  /** Episode i has the fact's key and the fact falls between its start and its horizon. */
  predicate Eligible(o: Options, eps: seq<Ep>, i: nat, f: Fact)
  {
    i < |eps| && KeyOf(f) in eps[i].keys && eps[i].startedAt <= f.occurredAt <= ClosesAt(o, eps[i])
  }

  // ---------- deduplication and as-of ----------

  lemma ObservedPreorder()
    ensures Preorder(ObservedLe)
  {
  }

  lemma HeadEarliest(s: seq<Fact>, x: Fact)
    requires Sorted(ObservedLe, s) && x in s
    ensures s[0].observedAt <= x.observedAt && Sorted(ObservedLe, s[1..]) && (x == s[0] || x in s[1..])
  {
  }

  lemma {:induction false} EarliestKept<K>(key: Fact -> K, s: seq<Fact>, seen: set<K>, y: Fact, x: Fact)
    requires Sorted(ObservedLe, s) && y in FirstOf(key, s, seen) && x in s && key(x) == key(y)
    ensures y.observedAt <= x.observedAt
  {
    hide Sorted;
    HeadEarliest(s, x);
    if key(s[0]) in seen {
      FirstOfMembers(key, s, seen);
      EarliestKept(key, s[1..], seen, y, x);
    } else if y != s[0] {
      LaterKept(key, s, seen, y);
      EarliestKept(key, s[1..], seen + {key(s[0])}, y, x);
    }
  }

  lemma {:induction false} LaterKept<K>(key: Fact -> K, s: seq<Fact>, seen: set<K>, y: Fact)
    requires s != [] && key(s[0]) !in seen && y in FirstOf(key, s, seen) && y != s[0]
    ensures y in FirstOf(key, s[1..], seen + {key(s[0])}) && key(y) != key(s[0])
  {
    FirstOfMembers(key, s[1..], seen + {key(s[0])});
  }

  /** Of every key, first-wins on facts in order of observation keeps one, the earliest. */
  lemma {:induction false} KeptMeaning(key: Fact -> string, s: seq<Fact>)
    requires Sorted(ObservedLe, s)
    ensures var r := FirstOf(key, s, {});
            && (forall f | f in r :: f in s)
            && (forall f | f in s :: exists d :: d in r && key(d) == key(f))
            && DistinctKeys(key, r) && Sorted(ObservedLe, r)
            && (forall d, f | d in r && f in s && key(d) == key(f) :: d.observedAt <= f.observedAt)
  {
    hide FirstOf, DistinctKeys, Sorted;
    FirstOfDistinct(key, s, {});
    FirstOfSorted(ObservedLe, key, s, {});
    KeysKept(key, s);
    AllEarliest(key, s);
  }

  lemma KeyKept(key: Fact -> string, s: seq<Fact>, f: Fact) returns (d: Fact)
    requires f in s
    ensures d in FirstOf(key, s, {}) && key(d) == key(f)
  {
    hide FirstOf;
    var none: set<string> := {};
    assert key(f) !in none;
    FirstOfMembers(key, s, none);
    d :| d in FirstOf(key, s, none) && key(d) == key(f);
  }

  lemma {:induction false} KeysKept(key: Fact -> string, s: seq<Fact>)
    ensures var r := FirstOf(key, s, {});
            (forall f | f in r :: f in s) && (forall f | f in s :: exists d :: d in r && key(d) == key(f))
  {
    hide FirstOf;
    forall f | f in FirstOf(key, s, {}) ensures f in s { FirstOfMembers(key, s, {}); }
    forall f | f in s
      ensures exists d :: d in FirstOf(key, s, {}) && key(d) == key(f)
    {
      var d := KeyKept(key, s, f);
    }
  }

  lemma {:induction false} AllEarliest(key: Fact -> string, s: seq<Fact>)
    requires Sorted(ObservedLe, s)
    ensures forall d, f | d in FirstOf(key, s, {}) && f in s && key(d) == key(f) :: d.observedAt <= f.observedAt
  {
    hide FirstOf, Sorted;
    forall d, f | d in FirstOf(key, s, {}) && f in s && key(d) == key(f)
      ensures d.observedAt <= f.observedAt
    {
      EarliestKept(key, s, {}, d, f);
    }
  }

  /** Deduplication keeps, of every identity, one fact, and it is the earliest observation. */
  lemma DedupedMeaning(o: Options, facts: seq<Fact>)
    ensures var r := Deduped(o, facts); var key := IdentityBy(o);
            && (forall f | f in r :: f in facts)
            && (forall f | f in facts :: exists d :: d in r && key(d) == key(f))
            && DistinctKeys(key, r) && Sorted(ObservedLe, r)
            && (forall d, f | d in r && f in facts && key(d) == key(f) :: d.observedAt <= f.observedAt)
  {
    hide IdentityBy, Sort, FirstOf, DistinctKeys, Sorted;
    SortedFacts(facts);
    KeptMeaning(IdentityBy(o), Sort(ObservedLe, facts));
  }

  lemma {:induction false} SortedFacts(facts: seq<Fact>)
    ensures Sorted(ObservedLe, Sort(ObservedLe, facts)) && forall f :: f in Sort(ObservedLe, facts) <==> f in facts
  {
    ObservedPreorder();
    SortSorted(ObservedLe, facts);
    SortMembers(ObservedLe, facts);
  }

  /** On facts in order of observation, keeping the known ones commutes with first-wins. */
  lemma {:induction false} KnownFirstOf<K>(key: Fact -> K, asOf: int, s: seq<Fact>, seen: set<K>)
    requires Sorted(ObservedLe, s)
    ensures Filter(KnownBy(asOf), FirstOf(key, s, seen)) == FirstOf(key, Filter(KnownBy(asOf), s), seen)
  {
    var p := KnownBy(asOf);
    if s != [] {
      if !p(s[0]) {
        NoneKnown(asOf, s);
        FirstOfMembers(key, s, seen);
        NoneKnown(asOf, FirstOf(key, s, seen));
      } else {
        var k := key(s[0]);
        FilterCons(p, s[0], s[1..]);
        assert s == [s[0]] + s[1..];
        assert ([s[0]] + Filter(p, s[1..]))[1..] == Filter(p, s[1..]);
        if k in seen {
          KnownFirstOf(key, asOf, s[1..], seen);
        } else {
          KnownFirstOf(key, asOf, s[1..], seen + {k});
          FilterCons(p, s[0], FirstOf(key, s[1..], seen + {k}));
        }
      }
    }
  }

  lemma {:induction false} NoneKnown(asOf: int, s: seq<Fact>)
    requires forall x | x in s :: !Known(asOf, x)
    ensures Filter(KnownBy(asOf), s) == []
  {
    if s != [] { NoneKnown(asOf, s[1..]); }
  }

  /** What a join looks at is a function of the facts observed by then. */
  lemma {:induction false} SurvivorsKnown(o: Options, facts: seq<Fact>)
    ensures Survivors(o, facts) == Deduped(o, Filter(KnownBy(o.asOf), facts))
  {
    hide Identity, Sort, FirstOf, Filter;
    ObservedPreorder();
    SortSorted(ObservedLe, facts);
    KnownFirstOf(IdentityBy(o), o.asOf, Sort(ObservedLe, facts), {});
    SortFilter(ObservedLe, KnownBy(o.asOf), facts);
  }

  /** As-of non-interference: two lakes that agree on what was observed by asOf give the same
      labels at asOf, whatever else was observed later. */
  lemma {:induction false} NonInterference(o: Options, eps: seq<Ep>, facts: seq<Fact>, facts': seq<Fact>, i: nat)
    requires Filter(KnownBy(o.asOf), facts) == Filter(KnownBy(o.asOf), facts')
    ensures Survivors(o, facts) == Survivors(o, facts')
    ensures OutcomesOf(o, eps, facts, i) == OutcomesOf(o, eps, facts', i)
    ensures Matched(o, eps, Survivors(o, facts)) == Matched(o, eps, Survivors(o, facts'))
  {
    hide Deduped, Filter;
    SurvivorsKnown(o, facts);
    SurvivorsKnown(o, facts');
  }

  /** In particular one fact observed later, anywhere in the lake, changes nothing. */
  lemma LateFactInvisible(o: Options, eps: seq<Ep>, a: seq<Fact>, f: Fact, b: seq<Fact>, i: nat)
    requires f.observedAt > o.asOf
    ensures OutcomesOf(o, eps, a + [f] + b, i) == OutcomesOf(o, eps, a + b, i)
  {
    hide OutcomesOf;
    var p := KnownBy(o.asOf);
    FilterConcat(p, a + [f], b);
    FilterConcat(p, a, [f]);
    FilterConcat(p, a, b);
    NoneKnown(o.asOf, [f]);
    assert Filter(p, a) + [] == Filter(p, a);
    NonInterference(o, eps, a + [f] + b, a + b, i);
  }

  // ---------- growth ----------

  function Between(a: int, b: int): (p: Fact -> bool) { (f: Fact) => a < f.observedAt <= b }

  /** The survivors observed after a and by o.asOf. */
  function News(o: Options, a: int, facts: seq<Fact>): seq<Fact> { Filter(Between(a, o.asOf), Deduped(o, facts)) }

  lemma {:induction false} SplitKnown(a: int, b: int, s: seq<Fact>)
    requires a <= b && Sorted(ObservedLe, s)
    ensures Filter(KnownBy(b), s) == Filter(KnownBy(a), s) + Filter(Between(a, b), s)
  {
    if s != [] {
      SplitKnown(a, b, s[1..]);
      if !Known(a, s[0]) { NoneKnown(a, s[1..]); }
    }
  }

  lemma {:induction false} PutOnConcat(o: Options, eps: seq<Ep>, x: seq<Fact>, y: seq<Fact>, i: nat)
    ensures PutOn(o, eps, x + y, i) == PutOn(o, eps, x, i) + PutOn(o, eps, y, i)
  {
    hide GoesTo, Copies;
    if y == [] {
      assert x + y == x;
    } else {
      var n := |y| - 1;
      PutOnConcat(o, eps, x, y[..n], i);
      assert (x + y)[..|x + y| - 1] == x + y[..n];
      assert (x + y)[|x + y| - 1] == y[n];
    }
  }

  /** The options only matter through attribution and the horizon, not through the time. */
  lemma {:induction false} PutOnAnyTime(o: Options, t: int, eps: seq<Ep>, facts: seq<Fact>, i: nat)
    ensures PutOn(o.(asOf := t), eps, facts, i) == PutOn(o, eps, facts, i)
  {
    hide Copies;
    if facts != [] {
      PutOnAnyTime(o, t, eps, facts[..|facts| - 1], i);
      var f := facts[|facts| - 1];
      TouchedAnyTime(o, t, eps, KeyOf(f), |eps|);
    }
  }

  lemma {:induction false} TouchedAnyTime(o: Options, t: int, eps: seq<Ep>, k: EntityKey, n: nat)
    requires n <= |eps|
    ensures Touched(o.(asOf := t), eps, k, n) == Touched(o, eps, k, n)
  {
    if n > 0 { TouchedAnyTime(o, t, eps, k, n - 1); }
  }

  lemma DedupedAnyTime(o: Options, t: int, facts: seq<Fact>)
    ensures Deduped(o.(asOf := t), facts) == Deduped(o, facts)
  {
    SameFirst(IdentityBy(o.(asOf := t)), IdentityBy(o), Sort(ObservedLe, facts), {});
  }

  lemma {:induction false} SameFirst(k: Fact -> string, l: Fact -> string, s: seq<Fact>, seen: set<string>)
    requires forall f :: k(f) == l(f)
    ensures FirstOf(k, s, seen) == FirstOf(l, s, seen)
  {
    if s != [] {
      SameFirst(k, l, s[1..], seen);
      SameFirst(k, l, s[1..], seen + {k(s[0])});
    }
  }

  /** From a to a later time a label only grows, by what was observed in between. */
  lemma {:induction false} LabelsGrow(o: Options, a: int, eps: seq<Ep>, facts: seq<Fact>, i: nat)
    requires a <= o.asOf
    ensures PutOn(o, eps, Survivors(o, facts), i)
            == PutOn(o, eps, Survivors(o.(asOf := a), facts), i) + PutOn(o, eps, News(o, a, facts), i)
    ensures multiset(OutcomesOf(o, eps, facts, i))
            == multiset(OutcomesOf(o.(asOf := a), eps, facts, i)) + multiset(PutOn(o, eps, News(o, a, facts), i))
  {
    hide Deduped, PutOn, Filter, Sort;
    var old_ := o.(asOf := a);
    DedupedAnyTime(o, a, facts);
    assert Sorted(ObservedLe, Deduped(o, facts)) by { DedupedMeaning(o, facts); }
    SplitKnown(a, o.asOf, Deduped(o, facts));
    PutOnConcat(o, eps, Survivors(old_, facts), News(o, a, facts), i);
    PutOnAnyTime(o, a, eps, Survivors(old_, facts), i);
    SortMultiset(OlderFirst, PutOn(o, eps, Survivors(o, facts), i));
    SortMultiset(OlderFirst, PutOn(old_, eps, Survivors(old_, facts), i));
  }

  /** A label is the same at a and later exactly when nothing observed in between goes to it. */
  lemma LabelSameIff(o: Options, a: int, eps: seq<Ep>, facts: seq<Fact>, i: nat)
    requires a <= o.asOf
    ensures OutcomesOf(o, eps, facts, i) == OutcomesOf(o.(asOf := a), eps, facts, i)
            <==> forall f | f in News(o, a, facts) :: i !in GoesTo(o, eps, f)
  {
    hide Deduped, Survivors, News, Sort;
    LabelsGrow(o, a, eps, facts, i);
    PutOnAnyTime(o, a, eps, Survivors(o.(asOf := a), facts), i);
    var older := PutOn(o, eps, Survivors(o.(asOf := a), facts), i);
    var more := PutOn(o, eps, News(o, a, facts), i);
    NothingPut(o, eps, News(o, a, facts), i);
    if more == [] {
      assert older + more == older;
    } else {
      assert more[0] in multiset(more);
      Bigger(multiset(OutcomesOf(o.(asOf := a), eps, facts, i)), multiset(more), more[0]);
    }
  }

  lemma Bigger(a: multiset<Outcome>, b: multiset<Outcome>, x: Outcome)
    requires x in b
    ensures a + b != a
  {
    assert (a + b)[x] == a[x] + b[x];
  }

  lemma {:induction false} NothingPut(o: Options, eps: seq<Ep>, facts: seq<Fact>, i: nat)
    ensures PutOn(o, eps, facts, i) == [] <==> forall f | f in facts :: i !in GoesTo(o, eps, f)
  {
    hide GoesTo;
    if facts != [] {
      var n := |facts| - 1;
      NothingPut(o, eps, facts[..n], i);
      NoCopies(GoesTo(o, eps, facts[n]), i, ToOutcome(facts[n]));
      assert forall f | f in facts :: f in facts[..n] || f == facts[n];
    }
  }

  lemma {:induction false} NoCopies(to: seq<nat>, i: nat, x: Outcome)
    ensures Copies(to, i, x) == [] <==> i !in to
  {
    if to != [] { NoCopies(to[1..], i, x); }
  }

  /** A label that is final stays as it is from then on exactly when no fact that goes to it is
      observed later. */
  lemma FinalStaysIff(o: Options, eps: seq<Ep>, facts: seq<Fact>, i: nat)
    ensures (forall b | b >= o.asOf :: OutcomesOf(o.(asOf := b), eps, facts, i) == OutcomesOf(o, eps, facts, i))
            <==> (forall f | f in Deduped(o, facts) && f.observedAt > o.asOf :: i !in GoesTo(o, eps, f))
  {
    hide Deduped, OutcomesOf;
    forall b | b >= o.asOf
      ensures OutcomesOf(o.(asOf := b), eps, facts, i) == OutcomesOf(o, eps, facts, i)
              <==> forall f | f in Deduped(o, facts) && o.asOf < f.observedAt <= b :: i !in GoesTo(o, eps, f)
    {
      SameUntil(o, b, eps, facts, i);
    }
    if f :| f in Deduped(o, facts) && f.observedAt > o.asOf && i in GoesTo(o, eps, f) {
      assert OutcomesOf(o.(asOf := f.observedAt), eps, facts, i) != OutcomesOf(o, eps, facts, i);
    }
  }

  lemma SameUntil(o: Options, b: int, eps: seq<Ep>, facts: seq<Fact>, i: nat)
    requires o.asOf <= b
    ensures OutcomesOf(o.(asOf := b), eps, facts, i) == OutcomesOf(o, eps, facts, i)
            <==> forall f | f in Deduped(o, facts) && o.asOf < f.observedAt <= b :: i !in GoesTo(o, eps, f)
  {
    hide Deduped, OutcomesOf, Filter;
    var l := o.(asOf := b);
    assert l.(asOf := o.asOf) == o;
    LabelSameIff(l, o.asOf, eps, facts, i);
    DedupedAnyTime(o, b, facts);
    forall f
      ensures f in News(l, o.asOf, facts) <==> f in Deduped(o, facts) && o.asOf < f.observedAt <= b
    {
      FilterMembers(Between(o.asOf, b), Deduped(l, facts), f);
    }
    forall f ensures GoesTo(l, eps, f) == GoesTo(o, eps, f) { TouchedAnyTime(o, b, eps, KeyOf(f), |eps|); }
  }
}
