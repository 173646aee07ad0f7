/** The join as the program runs it: an index by key, newest episodes first, one pass over the
    deduplicated outcomes, and one over the labels. */
module JoinImpl {
  import opened Basics
  import opened Sorting
  import opened Dedup
  import opened Join
  import opened Attribution

  datatype Label = Label(ep: Ep, endedAt: int, status: LabelStatus, closesAt: int, asOf: int, outcomes: seq<Outcome>,
                         latest: map<string, string>)

  datatype Stats = Stats(
    episodes: nat, finals: nat, provisional: nat, unjoinable: nat, withOutcomes: nat, outcomes: nat,
    attributed: nat, unattributed: nat, futureObserved: nat, duplicates: nat)

  function FreshLabel(o: Options, ep: Ep): Label
  {
    Label(ep, EndOf(ep), StatusOf(o, ep), ClosesAt(o, ep), o.asOf, [], map[])
  }

  type Index = map<EntityKey, seq<Ref>>

  function At(m: Index, k: EntityKey): seq<Ref> { if k in m then m[k] else [] }

  /** Adds an episode under each of its keys. */
  method IndexEpisode(m: Index, keys: seq<EntityKey>, r: Ref) returns (m': Index)
    ensures forall k :: At(m', k) == At(m, k) + Hits(keys, k, r)
  {
    m' := m;
    var j := 0;
    while j < |keys|
      invariant j <= |keys|
      invariant forall k :: At(m', k) == At(m, k) + Hits(keys[..j], k, r)
    {
      var id := keys[j];
      assert keys[..j + 1][..j] == keys[..j] && keys[..j + 1][j] == id;
      forall k
        ensures At(m'[id := At(m', id) + [r]], k) == At(m, k) + Hits(keys[..j + 1], k, r)
      {
        assert Hits(keys[..j + 1], k, r) == Hits(keys[..j], k, r) + if id == k then [r] else [];
      }
      m' := m'[id := At(m', id) + [r]];
      j := j + 1;
    }
    assert keys[..j] == keys;
  }

  /** One label per episode, and the index of episodes by key in lake order. */
  method Prepare(o: Options, eps: seq<Ep>) returns (labels: array<Label>, byKey: Index)
    ensures fresh(labels) && labels.Length == |eps|
    ensures forall i | 0 <= i < |eps| :: labels[i] == FreshLabel(o, eps[i])
    ensures forall k :: At(byKey, k) == Touched(o, eps, k, |eps|)
  {
    hide Touched, Hits;
    labels := new Label[|eps|];
    byKey := map[];
    var i := 0;
    assert forall k :: At(byKey, k) == Touched(o, eps, k, 0) by { TouchedNone(o, eps); }
    while i < |eps|
      invariant i <= |eps| && forall j | 0 <= j < i :: labels[j] == FreshLabel(o, eps[j])
      invariant forall k :: At(byKey, k) == Touched(o, eps, k, i)
    {
      labels[i] := FreshLabel(o, eps[i]);
      TouchedOne(o, eps, i);
      byKey := IndexEpisode(byKey, eps[i].keys, RefTo(o, eps, i));
      i := i + 1;
    }
  }

  lemma TouchedNone(o: Options, eps: seq<Ep>)
    ensures forall k :: Touched(o, eps, k, 0) == []
  {
  }

  lemma {:induction false} TouchedOne(o: Options, eps: seq<Ep>, i: nat)
    requires i < |eps|
    ensures forall k :: Touched(o, eps, k, i + 1) == Touched(o, eps, k, i) + Hits(eps[i].keys, k, RefTo(o, eps, i))
  {
  }

  /** Newest first under every key. */
  method RankIndex(byKey: Index) returns (ranked: Index)
    ensures forall k :: At(ranked, k) == Sort(NewerFirst, At(byKey, k))
  {
    ranked := map[];
    var left := byKey.Keys;
    while left != {}
      invariant left <= byKey.Keys && ranked.Keys == byKey.Keys - left
      invariant forall k | k in ranked :: ranked[k] == Sort(NewerFirst, byKey[k])
    {
      var k :| k in left;
      ranked := ranked[k := Sort(NewerFirst, byKey[k])];
      left := left - {k};
    }
  }

  /** Sorts by observation and compacts in place. */
  method Dedupe(o: Options, facts: seq<Fact>) returns (kept: seq<Fact>, duplicates: nat)
    ensures kept == Deduped(o, facts) && duplicates == |facts| - |kept|
  {
    var sorted := Sort(ObservedLe, facts);
    var a := new Fact[|sorted|](i requires 0 <= i < |sorted| => sorted[i]);
    assert a[..] == sorted;
    var n := Compact(IdentityBy(o), a);
    kept, duplicates := a[..n], |facts| - n;
  }

  /** Walks the ranked references and appends the outcome to the labels it goes to. */
  method Place(o: Options, refs: seq<Ref>, f: Fact, labels: array<Label>) returns (matched: bool)
    requires forall r | r in refs :: r.idx < labels.Length && labels[r.idx].closesAt == r.closesAt
    modifies labels
    ensures matched <==> Winners(o.all, refs, f) != []
    ensures forall i | 0 <= i < labels.Length ::
              labels[i] == old(labels[i]).(
                outcomes := old(labels[i].outcomes) + Copies(Winners(o.all, refs, f), i, ToOutcome(f)))
  {
    hide Winners, Copies;
    var x := ToOutcome(f);
    ghost var done: seq<nat> := [];
    matched := false;
    var j := 0;
    assert refs[0..] == refs && forall i: nat :: Copies(done, i, x) == [] by { NoCopiesYet(x); }
    while j < |refs|
      invariant j <= |refs| && done + Winners(o.all, refs[j..], f) == Winners(o.all, refs, f)
                && (matched <==> done != [])
      invariant forall i | 0 <= i < labels.Length ::
                  labels[i] == old(labels[i]).(outcomes := old(labels[i].outcomes) + Copies(done, i, x))
    {
      var r := refs[j];
      assert r in refs;
      WinnersStep(o.all, refs, j, f, done);
      if f.occurredAt < r.startedAt || f.occurredAt > labels[r.idx].closesAt {
        j := j + 1;
        continue;
      }
      CopiesSnoc(done, r.idx, x);
      labels[r.idx] := labels[r.idx].(outcomes := labels[r.idx].outcomes + [x]);
      done := done + [r.idx];
      matched := true;
      j := j + 1;
      if !o.all { return; }
    }
    assert refs[j..] == [];
    WinnersNone(o.all, f);
    assert done + [] == done;
  }

  lemma NoCopiesYet(x: Outcome)
    ensures forall i: nat :: Copies([], i, x) == []
  {
  }

  lemma {:induction false} WinnersNone(all: bool, f: Fact)
    ensures Winners(all, [], f) == []
  {
  }

  lemma {:induction false} WinnersStep(all: bool, refs: seq<Ref>, j: nat, f: Fact, done: seq<nat>)
    requires j < |refs|
    ensures !InWindow(refs[j], f) ==> done + Winners(all, refs[j..], f) == done + Winners(all, refs[j + 1..], f)
    ensures InWindow(refs[j], f) && all
            ==> done + Winners(all, refs[j..], f) == done + [refs[j].idx] + Winners(all, refs[j + 1..], f)
    ensures InWindow(refs[j], f) && !all ==> done + Winners(all, refs[j..], f) == done + [refs[j].idx]
  {
    assert refs[j..][0] == refs[j] && refs[j..][1..] == refs[j + 1..];
  }

  lemma {:induction false} CopiesSnoc(to: seq<nat>, t: nat, x: Outcome)
    ensures forall i: nat :: Copies(to + [t], i, x) == Copies(to, i, x) + if t == i then [x] else []
  {
    forall i: nat
      ensures Copies(to + [t], i, x) == Copies(to, i, x) + if t == i then [x] else []
    {
      CopiesSnocAt(to, t, i, x);
    }
  }

  lemma {:induction false} CopiesSnocAt(to: seq<nat>, t: nat, i: nat, x: Outcome)
    ensures Copies(to + [t], i, x) == Copies(to, i, x) + if t == i then [x] else []
  {
    if to == [] {
      assert to + [t] == [t] && [t][1..] == [];
    } else {
      CopiesSnocAt(to[1..], t, i, x);
      assert (to + [t])[1..] == to[1..] + [t];
    }
  }

  /** Passes over the deduplicated outcomes, skipping those observed after asOf. */
  method Attribute(o: Options, eps: seq<Ep>, ranked: Index, kept: seq<Fact>, labels: array<Label>)
    returns (outcomes: nat, attributed: nat, unattributed: nat, future: nat)
    requires labels.Length == |eps| && forall i | 0 <= i < |eps| :: labels[i] == FreshLabel(o, eps[i])
    requires forall k :: At(ranked, k) == Ranked(o, eps, k)
    modifies labels
    ensures var s := Filter(KnownBy(o.asOf), kept);
            && (forall i | 0 <= i < |eps| :: labels[i] == FreshLabel(o, eps[i]).(outcomes := PutOn(o, eps, s, i)))
            && outcomes == |s| && future == |kept| - |s|
            && attributed == Matched(o, eps, s) && unattributed == |s| - attributed
  {
    hide Filter, PutOn, Matched, Ranked, Winners, Copies;
    outcomes, attributed, unattributed, future := 0, 0, 0, 0;
    ghost var s: seq<Fact> := [];
    var j := 0;
    assert kept[..0] == [];
    NoneYet(o, eps);
    while j < |kept|
      invariant j <= |kept| && s == Filter(KnownBy(o.asOf), kept[..j])
      invariant forall i | 0 <= i < |eps| :: labels[i] == FreshLabel(o, eps[i]).(outcomes := PutOn(o, eps, s, i))
      invariant outcomes == |s| && future == j - |s| && attributed == Matched(o, eps, s)
                && unattributed == |s| - attributed
    {
      var f := kept[j];
      KnownSnoc(o, kept, j);
      j := j + 1;
      if f.observedAt > o.asOf {
        future := future + 1;
        continue;
      }
      outcomes := outcomes + 1;
      RankedFacts(o, eps, KeyOf(f));
      PutOnNext(o, eps, s, f);
      var matched := Place(o, At(ranked, KeyOf(f)), f, labels);
      s := s + [f];
      if matched { attributed := attributed + 1; } else { unattributed := unattributed + 1; }
    }
    assert kept[..j] == kept;
  }

  lemma {:induction false} NoneYet(o: Options, eps: seq<Ep>)
    ensures Filter(KnownBy(o.asOf), []) == [] && Matched(o, eps, []) == 0 && forall i: nat :: PutOn(o, eps, [], i) == []
  {
  }

  lemma KnownSnoc(o: Options, kept: seq<Fact>, j: nat)
    requires j < |kept|
    ensures Filter(KnownBy(o.asOf), kept[..j + 1])
            == Filter(KnownBy(o.asOf), kept[..j]) + if Known(o.asOf, kept[j]) then [kept[j]] else []
  {
    assert kept[..j + 1] == kept[..j] + [kept[j]];
    FilterConcat(KnownBy(o.asOf), kept[..j], [kept[j]]);
    assert [kept[j]][1..] == [];
  }

  lemma {:induction false} PutOnNext(o: Options, eps: seq<Ep>, s: seq<Fact>, f: Fact)
    ensures forall i: nat ::
              PutOn(o, eps, s + [f], i) == PutOn(o, eps, s, i) + Copies(GoesTo(o, eps, f), i, ToOutcome(f))
    ensures Matched(o, eps, s + [f]) == Matched(o, eps, s) + if GoesTo(o, eps, f) == [] then 0 else 1
  {
    hide GoesTo, Copies;
    assert (s + [f])[..|s|] == s;
  }

  method Latest(s: seq<Outcome>) returns (m: map<string, string>)
    ensures m == LatestOf(s)
  {
    m := map[];
    var j := 0;
    while j < |s|
      invariant j <= |s| && m == LatestOf(s[..j])
    {
      assert s[..j + 1][..j] == s[..j];
      m := m[s[j].kind := s[j].value];
      j := j + 1;
    }
    assert s[..j] == s;
  }

  function HasStatus(o: Options, s: LabelStatus): (p: Ep -> bool) { (e: Ep) => StatusOf(o, e) == s }

  function WithOutcomes(labels: seq<Label>): nat
  {
    if labels == [] then 0
    else WithOutcomes(labels[..|labels| - 1]) + if labels[|labels| - 1].outcomes == [] then 0 else 1
  }

  lemma WithOutcomesSnoc(labels: seq<Label>, i: nat)
    requires i < |labels|
    ensures WithOutcomes(labels[..i + 1]) == WithOutcomes(labels[..i]) + if labels[i].outcomes == [] then 0 else 1
  {
    assert labels[..i + 1][..i] == labels[..i];
  }

  /** Sorts each label's outcomes, takes the latest values and counts the labels. */
  method Finish(o: Options, eps: seq<Ep>, labels: array<Label>)
    returns (finals: nat, provisional: nat, unjoinable: nat, withOutcomes: nat)
    requires labels.Length == |eps| && forall i | 0 <= i < |eps| :: labels[i].status == StatusOf(o, eps[i])
    modifies labels
    ensures forall i | 0 <= i < |eps| ::
              var s := Sort(OlderFirst, old(labels[i].outcomes));
              labels[i] == old(labels[i]).(outcomes := s, latest := LatestOf(s))
    ensures finals == |Filter(HasStatus(o, Final), eps)| && provisional == |Filter(HasStatus(o, Provisional), eps)|
    ensures unjoinable == |Filter(HasStatus(o, Unjoinable), eps)|
    ensures withOutcomes == WithOutcomes(labels[..])
    ensures finals + provisional + unjoinable == |eps|
  {
    hide Sort, Filter, LatestOf, WithOutcomes;
    NoneWith();
    finals, provisional, unjoinable, withOutcomes := 0, 0, 0, 0;
    var i := 0;
    assert eps[..0] == [] && labels[..0] == [];
    NoneCounted(o);
    while i < |eps|
      invariant i <= |eps|
      invariant forall j | 0 <= j < i ::
                  var s := Sort(OlderFirst, old(labels[j].outcomes));
                  labels[j] == old(labels[j]).(outcomes := s, latest := LatestOf(s))
      invariant forall j | i <= j < |eps| :: labels[j] == old(labels[j])
      invariant finals == |Filter(HasStatus(o, Final), eps[..i])|
                && provisional == |Filter(HasStatus(o, Provisional), eps[..i])|
      invariant unjoinable == |Filter(HasStatus(o, Unjoinable), eps[..i])|
      invariant withOutcomes == WithOutcomes(labels[..i])
      invariant finals + provisional + unjoinable == i
    {
      var lb := labels[i];
      var s := Sort(OlderFirst, lb.outcomes);
      var m := Latest(s);
      ghost var before := labels[..i];
      labels[i] := lb.(outcomes := s, latest := m);
      assert labels[..i] == before && labels[..][..i] == before && labels[..][..i + 1] == labels[..i + 1];
      WithOutcomesSnoc(labels[..], i);
      CountedSnoc(o, eps, i, Final);
      CountedSnoc(o, eps, i, Provisional);
      CountedSnoc(o, eps, i, Unjoinable);
      match lb.status {
        case Final => finals := finals + 1;
        case Provisional => provisional := provisional + 1;
        case Unjoinable => unjoinable := unjoinable + 1;
      }
      if |s| > 0 { withOutcomes := withOutcomes + 1; }
      i := i + 1;
    }
    assert eps[..i] == eps && labels[..i] == labels[..];
  }

  lemma NoneWith()
    ensures WithOutcomes([]) == 0
  {
  }

  lemma NoneCounted(o: Options)
    ensures forall s: LabelStatus :: Filter(HasStatus(o, s), []) == []
  {
  }

  lemma CountedSnoc(o: Options, eps: seq<Ep>, i: nat, s: LabelStatus)
    requires i < |eps|
    ensures |Filter(HasStatus(o, s), eps[..i + 1])|
            == |Filter(HasStatus(o, s), eps[..i])| + if StatusOf(o, eps[i]) == s then 1 else 0
  {
    assert eps[..i + 1] == eps[..i] + [eps[i]];
    FilterConcat(HasStatus(o, s), eps[..i], [eps[i]]);
    assert [eps[i]][1..] == [];
  }

  /** Joins a lake's outcomes to its episodes. Every outcome in the lake is counted once, and
      under last touch the labels together hold exactly the attributed ones. */
  method Run(o: Options, eps: seq<Ep>, facts: seq<Fact>) returns (labels: seq<Label>, st: Stats)
    ensures |labels| == |eps|
    ensures forall i | 0 <= i < |eps| ::
              var s := OutcomesOf(o, eps, facts, i);
              labels[i] == FreshLabel(o, eps[i]).(outcomes := s, latest := LatestOf(s))
    ensures st.attributed + st.unattributed + st.futureObserved + st.duplicates == |facts|
    ensures st.outcomes == |Survivors(o, facts)| && st.attributed == Matched(o, eps, Survivors(o, facts))
    ensures !o.all ==> st.attributed == OnLabels(o, eps, Survivors(o, facts), |eps|)
    ensures st.withOutcomes == WithOutcomes(labels)
    ensures st.episodes == |eps| == st.finals + st.provisional + st.unjoinable
    ensures st.finals == |Filter(HasStatus(o, Final), eps)|
            && st.provisional == |Filter(HasStatus(o, Provisional), eps)|
  {
    hide Filter, PutOn, Matched, Ranked, Sort, LatestOf, Touched, Deduped;
    var a, byKey := Prepare(o, eps);
    var ranked := RankIndex(byKey);
    RankedIs(o, eps, byKey, ranked);
    var kept, duplicates := Dedupe(o, facts);
    var outcomes, attributed, unattributed, future := Attribute(o, eps, ranked, kept, a);
    var finals, provisional, unjoinable, withOutcomes := Finish(o, eps, a);
    labels := a[..];
    st := Stats(|eps|, finals, provisional, unjoinable, withOutcomes, outcomes, attributed, unattributed, future,
                duplicates);
    if !o.all { LastTouchOnce(o, eps, Survivors(o, facts)); }
  }

  lemma RankedIs(o: Options, eps: seq<Ep>, byKey: Index, ranked: Index)
    requires forall k :: At(byKey, k) == Touched(o, eps, k, |eps|)
    requires forall k :: At(ranked, k) == Sort(NewerFirst, At(byKey, k))
    ensures forall k :: At(ranked, k) == Ranked(o, eps, k)
  {
  }
}
