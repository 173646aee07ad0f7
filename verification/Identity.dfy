/** Which outcomes are the same fact: the key the join deduplicates by, read back as the fields it
    was made of. */
module Identity {
  import opened Basics
  import opened Sorting
  import opened Dedup
  import opened Join

  predicate NoNul(s: string) { '\0' !in s }

  /** None of the fields that make up the key contains the separator. */
  predicate Clean(f: Fact)
  {
    && NoNul(OrEmpty(f.id)) && NoNul(OrEmpty(f.entityName)) && NoNul(f.entityKey)
    && NoNul(f.kind) && NoNul(f.value)
  }

  predicate HasId(f: Fact) { f.id.Some? && f.id.value != "" }

  /** The same fact: the same id, or no ids and the same entity, kind, value and time. */
  predicate SameFact(f: Fact, g: Fact)
  {
    if HasId(f) || HasId(g) then f.id == g.id
    else
      && OrEmpty(f.entityName) == OrEmpty(g.entityName) && f.entityKey == g.entityKey
      && f.kind == g.kind && f.value == g.value && f.occurredAt == g.occurredAt
  }

  ghost predicate Injective(stamp: int -> string) { forall s, t :: stamp(s) == stamp(t) ==> s == t }

  lemma FirstNul(a: string, x: string)
    requires NoNul(a)
    ensures var s := a + "\0" + x; s[|a|] == '\0' && forall i | 0 <= i < |a| :: s[i] != '\0'
  {
    assert forall i | 0 <= i < |a| :: (a + "\0" + x)[i] == a[i];
  }

  /** What comes before the first separator, and what comes after it, can be told apart. */
  lemma SplitAtNul(a: string, x: string, b: string, y: string)
    requires NoNul(a) && NoNul(b) && a + "\0" + x == b + "\0" + y
    ensures a == b && x == y
  {
    var s, t := a + "\0" + x, b + "\0" + y;
    FirstNul(a, x);
    FirstNul(b, y);
    assert |a| == |b|;
    assert a == s[..|a|] && b == t[..|b|] && x == s[|a| + 1..] && y == t[|b| + 1..];
  }

  /** The key of a fact without an id, one field at a time. */
  lemma WithoutId(o: Options, f: Fact)
    requires !HasId(f)
    ensures Identity(o, f)
            == OrEmpty(f.entityName) + "\0"
                + (f.entityKey + "\0" + (f.kind + "\0" + (f.value + "\0" + o.stamp(f.occurredAt))))
  {
    Regroup(OrEmpty(f.entityName), f.entityKey, f.kind, f.value, o.stamp(f.occurredAt));
  }

  lemma Regroup(a: string, b: string, c: string, d: string, e: string)
    ensures a + "\0" + b + "\0" + c + "\0" + d + "\0" + e == a + "\0" + (b + "\0" + (c + "\0" + (d + "\0" + e)))
  {
  }

  lemma IdApart(o: Options, f: Fact, g: Fact)
    requires HasId(f) && !HasId(g) && Clean(f)
    ensures Identity(o, f) != Identity(o, g)
  {
    var n := |OrEmpty(g.entityName)|;
    WithoutId(o, g);
    assert Identity(o, g)[n] == '\0';
    assert Identity(o, f) == "id:" + f.id.value;
    assert NoNul(Identity(o, f));
  }

  lemma FieldsApart(o: Options, f: Fact, g: Fact)
    requires !HasId(f) && !HasId(g) && Clean(f) && Clean(g) && Injective(o.stamp) && Identity(o, f) == Identity(o, g)
    ensures SameFact(f, g)
  {
    WithoutId(o, f);
    WithoutId(o, g);
    hide Identity, NoNul;
    var f3, g3 := f.value + "\0" + o.stamp(f.occurredAt), g.value + "\0" + o.stamp(g.occurredAt);
    var f2, g2 := f.kind + "\0" + f3, g.kind + "\0" + g3;
    SplitAtNul(OrEmpty(f.entityName), f.entityKey + "\0" + f2, OrEmpty(g.entityName), g.entityKey + "\0" + g2);
    SplitAtNul(f.entityKey, f2, g.entityKey, g2);
    SplitAtNul(f.kind, f3, g.kind, g3);
    SplitAtNul(f.value, o.stamp(f.occurredAt), g.value, o.stamp(g.occurredAt));
  }

  /** Two facts get the same key exactly when they are the same fact, as long as no field contains
      the separator and times are rendered apart. */
  lemma IdentityExact(o: Options, f: Fact, g: Fact)
    requires Clean(f) && Clean(g) && Injective(o.stamp)
    ensures Identity(o, f) == Identity(o, g) <==> SameFact(f, g)
  {
    if HasId(f) && HasId(g) {
      Behind("id:", f.id.value, g.id.value);
    } else if HasId(f) {
      IdApart(o, f, g);
    } else if HasId(g) {
      IdApart(o, g, f);
    } else if Identity(o, f) == Identity(o, g) {
      FieldsApart(o, f, g);
    }
  }

  lemma Behind(p: string, a: string, b: string)
    ensures p + a == p + b <==> a == b
  {
    assert (p + a)[|p|..] == a && (p + b)[|p|..] == b;
  }

  /** Deduplication in terms of the facts alone: no fact is kept twice, and every fact is
      represented by one that is the same fact, observed no later. */
  lemma DedupedFacts(o: Options, facts: seq<Fact>)
    requires Injective(o.stamp) && forall f | f in facts :: Clean(f)
    ensures var r := Deduped(o, facts);
            && (forall d | d in r :: d in facts)
            && (forall i, j | 0 <= i < j < |r| :: !SameFact(r[i], r[j]))
            && (forall f | f in facts :: exists d :: d in r && SameFact(d, f) && d.observedAt <= f.observedAt)
  {
    hide *;
    Members(o, facts);
    NoneTwice(o, Deduped(o, facts));
    forall f | f in facts
      ensures exists d :: d in Deduped(o, facts) && SameFact(d, f) && d.observedAt <= f.observedAt
    {
      var d := Represented(o, facts, f);
      KeyExact(o, d, f);
    }
  }

  lemma Members(o: Options, facts: seq<Fact>)
    ensures DistinctKeys(IdentityBy(o), Deduped(o, facts)) && forall d | d in Deduped(o, facts) :: d in facts
  {
    hide Deduped, IdentityBy;
    DedupedMeaning(o, facts);
  }

  lemma Represented(o: Options, facts: seq<Fact>, f: Fact) returns (d: Fact)
    requires f in facts
    ensures d in Deduped(o, facts) && IdentityBy(o)(d) == IdentityBy(o)(f) && d.observedAt <= f.observedAt
  {
    hide IdentityBy, FirstOf, Sort, Sorted;
    SortedFacts(facts);
    d := KeyKept(IdentityBy(o), Sort(ObservedLe, facts), f);
    EarliestKept(IdentityBy(o), Sort(ObservedLe, facts), {}, d, f);
  }

  lemma KeyExact(o: Options, f: Fact, g: Fact)
    requires Clean(f) && Clean(g) && Injective(o.stamp)
    ensures IdentityBy(o)(f) == IdentityBy(o)(g) <==> SameFact(f, g)
  {
    hide Clean, Injective, Identity, SameFact;
    IdentityExact(o, f, g);
  }

  lemma NoneTwice(o: Options, r: seq<Fact>)
    requires Injective(o.stamp) && DistinctKeys(IdentityBy(o), r) && forall d | d in r :: Clean(d)
    ensures forall i, j | 0 <= i < j < |r| :: !SameFact(r[i], r[j])
  {
    hide Clean, Injective, SameFact, IdentityBy;
    forall i, j | 0 <= i < j < |r|
      ensures !SameFact(r[i], r[j])
    {
      KeyExact(o, r[i], r[j]);
    }
  }

  /** With the separator inside a field two different facts can share a key, and one is dropped. */
  lemma SeparatorMixesUp(o: Options)
    ensures var f := Fact(None, Some("a\0b"), "c", "k", "v", 0, 0, "s");
            var g := Fact(None, Some("a"), "b\0c", "k", "v", 0, 1, "s");
            !SameFact(f, g) && Deduped(o, [f, g]) == [f]
  {
    var f := Fact(None, Some("a\0b"), "c", "k", "v", 0, 0, "s");
    var g := Fact(None, Some("a"), "b\0c", "k", "v", 0, 1, "s");
    assert "a\0b" + "\0" + "c" == "a" + "\0" + "b\0c";
    assert Identity(o, f) == Identity(o, g);
    assert "a\0b" != "a" by { assert |"a\0b"| != |"a"|; }
    hide Identity;
    assert Sort(ObservedLe, [f, g]) == [f, g] by { TwoSorted(f, g); }
    var key := IdentityBy(o);
    assert [f, g][1..] == [g] && [g][1..] == [];
    assert key(g) == key(f);
    assert FirstOf(key, [g], {key(f)}) == FirstOf(key, [], {key(f)});
  }

  lemma TwoSorted(f: Fact, g: Fact)
    requires f.observedAt < g.observedAt
    ensures Sort(ObservedLe, [f, g]) == [f, g]
  {
    assert [f, g][..1] == [f] && [f][..0] == [] && [f, g][1..] == [g] && [f][1..] == [];
  }
}
