/** Who gets an outcome: last touch is the newest eligible episode, every outcome is accounted
    for, and the latest value of a kind is the latest one. */
module Attribution {
  import opened Basics
  import opened Sorting
  import opened Dedup
  import opened Join

  // ---------- the index by key ----------

  lemma {:induction false} HitsMembers(keys: seq<EntityKey>, k: EntityKey, r: Ref)
    ensures forall x | x in Hits(keys, k, r) :: x == r && k in keys
    ensures k in keys ==> r in Hits(keys, k, r)
  {
    if keys != [] {
      var n := |keys| - 1;
      HitsMembers(keys[..n], k, r);
      assert forall x :: x in keys <==> x in keys[..n] || x == keys[n];
    }
  }

  /** As many entries as the key is listed. */
  lemma {:induction false} HitsLength(keys: seq<EntityKey>, k: EntityKey, r: Ref)
    ensures |Hits(keys, k, r)| == multiset(keys)[k]
  {
    if keys != [] {
      var n := |keys| - 1;
      HitsLength(keys[..n], k, r);
      assert keys == keys[..n] + [keys[n]];
    }
  }

  lemma {:induction false} TouchedMembers(o: Options, eps: seq<Ep>, k: EntityKey, n: nat)
    requires n <= |eps|
    ensures forall r | r in Touched(o, eps, k, n) :: r.idx < n && r == RefTo(o, eps, r.idx) && k in eps[r.idx].keys
    ensures forall i: nat | i < n && k in eps[i].keys :: RefTo(o, eps, i) in Touched(o, eps, k, n)
  {
    hide Hits;
    if n > 0 {
      TouchedMembers(o, eps, k, n - 1);
      HitsMembers(eps[n - 1].keys, k, RefTo(o, eps, n - 1));
    }
  }

  /** The episodes ranked for a key are those that have it, newest first. */
  lemma RankedFacts(o: Options, eps: seq<Ep>, k: EntityKey)
    ensures Sorted(NewerFirst, Ranked(o, eps, k))
    ensures forall r | r in Ranked(o, eps, k) :: r.idx < |eps| && r == RefTo(o, eps, r.idx) && k in eps[r.idx].keys
    ensures forall i: nat | i < |eps| && k in eps[i].keys :: RefTo(o, eps, i) in Ranked(o, eps, k)
  {
    hide Touched, Sort;
    var t := Touched(o, eps, k, |eps|);
    assert Preorder(NewerFirst);
    SortSorted(NewerFirst, t);
    SortMembers(NewerFirst, t);
    TouchedMembers(o, eps, k, |eps|);
  }

  lemma {:induction false} WinnersFrom(all: bool, refs: seq<Ref>, f: Fact, i: nat)
    requires i in Winners(all, refs, f)
    ensures exists r :: r in refs && r.idx == i && InWindow(r, f)
  {
    if !InWindow(refs[0], f) || refs[0].idx != i {
      WinnersFrom(all, refs[1..], f, i);
      var r :| r in refs[1..] && r.idx == i && InWindow(r, f);
      assert r in refs;
    } else {
      assert refs[0] in refs;
    }
  }

  lemma {:induction false} NewestWins(refs: seq<Ref>, f: Fact)
    requires Sorted(NewerFirst, refs)
    ensures |Winners(false, refs, f)| <= 1
    ensures Winners(false, refs, f) == [] <==> forall r | r in refs :: !InWindow(r, f)
    ensures Winners(false, refs, f) != [] ==>
              exists w :: w in refs && w.idx == Winners(false, refs, f)[0] && InWindow(w, f)
                          && forall r | r in refs && InWindow(r, f) :: r.startedAt <= w.startedAt
  {
    if refs != [] {
      assert refs[0] in refs && forall r | r in refs :: r == refs[0] || r in refs[1..];
      if InWindow(refs[0], f) {
        var w := refs[0];
        assert forall r | r in refs :: r.startedAt <= w.startedAt;
      } else {
        NewestWins(refs[1..], f);
        if Winners(false, refs, f) != [] {
          var w :| w in refs[1..] && w.idx == Winners(false, refs[1..], f)[0] && InWindow(w, f)
                   && forall r | r in refs[1..] && InWindow(r, f) :: r.startedAt <= w.startedAt;
          assert w in refs;
        }
      }
    }
  }

  /** Only an eligible episode gets an outcome. */
  lemma GoesEligible(o: Options, eps: seq<Ep>, f: Fact, i: nat)
    ensures i in GoesTo(o, eps, f) ==> Eligible(o, eps, i, f)
  {
    hide Winners, Ranked;
    RankedFacts(o, eps, KeyOf(f));
    if i in GoesTo(o, eps, f) { WinnersFrom(o.all, Ranked(o, eps, KeyOf(f)), f, i); }
  }

  /** Last touch: an outcome goes to one eligible episode, none of which started later, or to
      none exactly when none is eligible. */
  lemma LastTouch(o: Options, eps: seq<Ep>, f: Fact)
    requires !o.all
    ensures |GoesTo(o, eps, f)| <= 1
    ensures GoesTo(o, eps, f) == [] <==> forall i: nat :: !Eligible(o, eps, i, f)
    ensures GoesTo(o, eps, f) != [] ==>
              var i := GoesTo(o, eps, f)[0];
              Eligible(o, eps, i, f) && forall j: nat | Eligible(o, eps, j, f) :: eps[j].startedAt <= eps[i].startedAt
  {
    hide Winners, Ranked;
    var refs := Ranked(o, eps, KeyOf(f));
    RankedFacts(o, eps, KeyOf(f));
    NewestWins(refs, f);
    forall j: nat | Eligible(o, eps, j, f)
      ensures RefTo(o, eps, j) in refs && InWindow(RefTo(o, eps, j), f)
    {
    }
    if GoesTo(o, eps, f) != [] { GoesEligible(o, eps, f, GoesTo(o, eps, f)[0]); }
  }

  /** With attribution to all, an eligible episode gets an outcome once for every time it lists
      the key: twice if it lists the key twice. */
  lemma AllTouch(o: Options, eps: seq<Ep>, f: Fact, i: nat)
    requires o.all
    ensures multiset(GoesTo(o, eps, f))[i] == if Eligible(o, eps, i, f) then multiset(eps[i].keys)[KeyOf(f)] else 0
  {
    hide Winners, Sort, Touched;
    var k := KeyOf(f);
    var t := Touched(o, eps, k, |eps|);
    SortMultiset(NewerFirst, t);
    RankedFacts(o, eps, k);
    TouchedMembers(o, eps, k, |eps|);
    if i < |eps| {
      var r := RefTo(o, eps, i);
      AllWinners(o, eps, Ranked(o, eps, k), f, i);
      TouchedCount(o, eps, k, |eps|, i);
    } else {
      GoesEligible(o, eps, f, i);
    }
  }

  lemma {:induction false} AllWinners(o: Options, eps: seq<Ep>, refs: seq<Ref>, f: Fact, i: nat)
    requires i < |eps| && forall r | r in refs :: r.idx < |eps| && r == RefTo(o, eps, r.idx)
    ensures multiset(Winners(true, refs, f))[i]
            == if InWindow(RefTo(o, eps, i), f) then multiset(refs)[RefTo(o, eps, i)] else 0
  {
    if refs != [] {
      AllWinners(o, eps, refs[1..], f, i);
      assert refs == [refs[0]] + refs[1..];
      assert refs[0] in refs;
    }
  }

  lemma {:induction false} TouchedCount(o: Options, eps: seq<Ep>, k: EntityKey, n: nat, i: nat)
    requires n <= |eps| && i < |eps|
    ensures multiset(Touched(o, eps, k, n))[RefTo(o, eps, i)] == if i < n then multiset(eps[i].keys)[k] else 0
  {
    hide Hits, RefTo;
    if n > 0 {
      RefSame(o, eps, i, n - 1);
      TouchedCount(o, eps, k, n - 1, i);
      var h := Hits(eps[n - 1].keys, k, RefTo(o, eps, n - 1));
      HitsMembers(eps[n - 1].keys, k, RefTo(o, eps, n - 1));
      HitsLength(eps[n - 1].keys, k, RefTo(o, eps, n - 1));
      HitsCount(h, RefTo(o, eps, n - 1), RefTo(o, eps, i));
      ConcatCount(Touched(o, eps, k, n - 1), h, RefTo(o, eps, i));
    }
  }

  lemma RefSame(o: Options, eps: seq<Ep>, i: nat, j: nat)
    requires i < |eps| && j < |eps|
    ensures RefTo(o, eps, i) == RefTo(o, eps, j) <==> i == j
  {
  }

  lemma ConcatCount(a: seq<Ref>, b: seq<Ref>, x: Ref)
    ensures multiset(a + b)[x] == multiset(a)[x] + multiset(b)[x]
  {
  }

  lemma {:induction false} HitsCount(h: seq<Ref>, r: Ref, x: Ref)
    requires forall y | y in h :: y == r
    ensures multiset(h)[x] == if x == r then |h| else 0
  {
    if h != [] {
      assert h[0] in h && forall y | y in h[1..] :: y in h;
      HitsCount(h[1..], r, x);
      assert h == [h[0]] + h[1..];
    }
  }

  // ---------- accounting ----------

  /** Outcomes on the labels below n. */
  function OnLabels(o: Options, eps: seq<Ep>, facts: seq<Fact>, n: nat): nat
  {
    if n == 0 then 0 else OnLabels(o, eps, facts, n - 1) + |PutOn(o, eps, facts, n - 1)|
  }

  function Placements(o: Options, eps: seq<Ep>, facts: seq<Fact>): nat
  {
    if facts == [] then 0 else Placements(o, eps, facts[..|facts| - 1]) + |GoesTo(o, eps, facts[|facts| - 1])|
  }

  function CopiesBelow(to: seq<nat>, n: nat, x: Outcome): nat
  {
    if n == 0 then 0 else CopiesBelow(to, n - 1, x) + |Copies(to, n - 1, x)|
  }

  lemma {:induction false} CopiesBelowNone(n: nat, x: Outcome)
    ensures CopiesBelow([], n, x) == 0
  {
    if n > 0 { CopiesBelowNone(n - 1, x); }
  }

  lemma {:induction false} CopiesBelowCons(to: seq<nat>, n: nat, x: Outcome)
    requires to != []
    ensures CopiesBelow(to, n, x) == CopiesBelow(to[1..], n, x) + if to[0] < n then 1 else 0
  {
    hide Copies;
    if n > 0 {
      CopiesBelowCons(to, n - 1, x);
      CopiesCons(to, n - 1, x);
    }
  }

  lemma {:induction false} CopiesCons(to: seq<nat>, i: nat, x: Outcome)
    requires to != []
    ensures |Copies(to, i, x)| == |Copies(to[1..], i, x)| + if to[0] == i then 1 else 0
  {
  }

  lemma {:induction false} CopiesBelowAll(to: seq<nat>, n: nat, x: Outcome)
    requires forall i | i in to :: i < n
    ensures CopiesBelow(to, n, x) == |to|
  {
    hide CopiesBelow;
    if to == [] {
      CopiesBelowNone(n, x);
    } else {
      CopiesBelowCons(to, n, x);
      assert to[0] in to && forall i | i in to[1..] :: i in to;
      CopiesBelowAll(to[1..], n, x);
    }
  }

  lemma {:induction false} OnLabelsSnoc(o: Options, eps: seq<Ep>, facts: seq<Fact>, n: nat)
    requires facts != []
    ensures var m := |facts| - 1;
            OnLabels(o, eps, facts, n)
                == OnLabels(o, eps, facts[..m], n) + CopiesBelow(GoesTo(o, eps, facts[m]), n, ToOutcome(facts[m]))
  {
    hide GoesTo, PutOn, Copies;
    if n > 0 {
      OnLabelsSnoc(o, eps, facts, n - 1);
      PutOnSnoc(o, eps, facts, n - 1);
    }
  }

  lemma {:induction false} PutOnSnoc(o: Options, eps: seq<Ep>, facts: seq<Fact>, i: nat)
    requires facts != []
    ensures var m := |facts| - 1;
            |PutOn(o, eps, facts, i)|
                == |PutOn(o, eps, facts[..m], i)| + |Copies(GoesTo(o, eps, facts[m]), i, ToOutcome(facts[m]))|
  {
    hide GoesTo, Copies;
  }

  lemma {:induction false} OnLabelsNone(o: Options, eps: seq<Ep>, n: nat)
    ensures OnLabels(o, eps, [], n) == 0
  {
    if n > 0 { OnLabelsNone(o, eps, n - 1); }
  }

  /** The outcomes on all labels together are those placed: none lost, none invented. */
  lemma {:induction false} OnLabelsExact(o: Options, eps: seq<Ep>, facts: seq<Fact>)
    ensures OnLabels(o, eps, facts, |eps|) == Placements(o, eps, facts)
  {
    hide GoesTo;
    if facts == [] {
      OnLabelsNone(o, eps, |eps|);
    } else {
      var m := |facts| - 1;
      OnLabelsSnoc(o, eps, facts, |eps|);
      OnLabelsExact(o, eps, facts[..m]);
      forall i | i in GoesTo(o, eps, facts[m]) ensures i < |eps| { GoesEligible(o, eps, facts[m], i); }
      CopiesBelowAll(GoesTo(o, eps, facts[m]), |eps|, ToOutcome(facts[m]));
    }
  }

  /** Under last touch every matched outcome is on exactly one label. */
  lemma {:induction false} LastTouchOnce(o: Options, eps: seq<Ep>, facts: seq<Fact>)
    requires !o.all
    ensures OnLabels(o, eps, facts, |eps|) == Matched(o, eps, facts)
  {
    OnLabelsExact(o, eps, facts);
    PlacedOnce(o, eps, facts);
  }

  lemma {:induction false} PlacedOnce(o: Options, eps: seq<Ep>, facts: seq<Fact>)
    requires !o.all
    ensures Placements(o, eps, facts) == Matched(o, eps, facts)
  {
    hide GoesTo;
    if facts != [] {
      PlacedOnce(o, eps, facts[..|facts| - 1]);
      LastTouch(o, eps, facts[|facts| - 1]);
    }
  }

  // ---------- the latest value ----------

  /** On outcomes oldest first, the latest value of a kind is that of a maximal outcome of the
      kind, and there is one exactly when the kind occurs. */
  lemma {:induction false} LatestMaximal(s: seq<Outcome>, kind: string)
    requires Sorted(OlderFirst, s)
    ensures kind in LatestOf(s) <==> exists x :: x in s && x.kind == kind
    ensures kind in LatestOf(s) ==>
              exists x :: x in s && x.kind == kind && x.value == LatestOf(s)[kind]
                          && forall y | y in s && y.kind == kind :: OlderFirst(y, x)
  {
    hide Sorted;
    if s != [] {
      var n := |s| - 1;
      LastIsLatest(s);
      if s[n].kind != kind {
        LatestMaximal(s[..n], kind);
        if kind in LatestOf(s) {
          var x :| x in s[..n] && x.kind == kind && x.value == LatestOf(s[..n])[kind]
              && forall y | y in s[..n] && y.kind == kind :: OlderFirst(y, x);
          assert x in s;
        }
      }
    }
  }

  lemma LastIsLatest(s: seq<Outcome>)
    requires Sorted(OlderFirst, s) && s != []
    ensures var n := |s| - 1;
            && Sorted(OlderFirst, s[..n]) && s[n] in s && (forall x :: x in s <==> x == s[n] || x in s[..n])
            && forall y | y in s :: OlderFirst(y, s[n])
  {
  }

  // ---------- final labels ----------

  /** When nothing inside the horizon is observed late, a final label never changes. */
  lemma FinalNeverChanges(o: Options, eps: seq<Ep>, facts: seq<Fact>, i: nat, b: int)
    requires i < |eps| && StatusOf(o, eps[i]) == Final && b >= o.asOf
    requires forall f | f in facts && Eligible(o, eps, i, f) :: f.observedAt <= ClosesAt(o, eps[i])
    ensures OutcomesOf(o.(asOf := b), eps, facts, i) == OutcomesOf(o, eps, facts, i)
  {
    hide Deduped, OutcomesOf, GoesTo, Eligible;
    assert forall f | f in Deduped(o, facts) :: f in facts by { DedupedMeaning(o, facts); }
    forall f | f in Deduped(o, facts) && o.asOf < f.observedAt <= b
      ensures i !in GoesTo(o, eps, f)
    {
      GoesEligible(o, eps, f, i);
    }
    SameUntil(o, b, eps, facts, i);
  }

  /** "Final" is not final: an outcome that happened inside the horizon but is observed after the
      join changes the label on a later join. */
  lemma FinalLabelChanges(stamp: int -> string)
    ensures var o := Options(200, 100, false, stamp);
            var eps := [Ep("e", 0, None, [EntityKey("ticket", "7")])];
            var f := Fact(Some("1"), Some("ticket"), "7", "status", "reopened", 50, 300, "crm");
            && StatusOf(o, eps[0]) == Final
            && OutcomesOf(o, eps, [f], 0) == [] && OutcomesOf(o.(asOf := 300), eps, [f], 0) != []
  {
    var o := Options(200, 100, false, stamp);
    var k := EntityKey("ticket", "7");
    var eps := [Ep("e", 0, None, [k])];
    var f := Fact(Some("1"), Some("ticket"), "7", "status", "reopened", 50, 300, "crm");
    assert Deduped(o, [f]) == [f] by { assert [f][1..] == []; assert Sort(ObservedLe, [f]) == [f]; }
    assert Filter(KnownBy(200), [f]) == [] by { assert [f][1..] == []; }
    assert Eligible(o, eps, 0, f) by { assert k in eps[0].keys; }
    hide Deduped, OutcomesOf, GoesTo, Filter;
    EmptyLabel(o, eps, [f]);
    LastTouch(o, eps, f);
    var i := GoesTo(o, eps, f)[0];
    assert i == 0;
    SameUntil(o, 300, eps, [f], 0);
    assert f in Deduped(o, [f]);
    assert 0 in GoesTo(o, eps, f);
  }

  lemma EmptyLabel(o: Options, eps: seq<Ep>, facts: seq<Fact>)
    requires Survivors(o, facts) == []
    ensures OutcomesOf(o, eps, facts, 0) == []
  {
  }
}
