/** First-wins deduplication: what both readers of the lake do after sorting. */
module Dedup {
  import opened Basics
  import opened Sorting

  /** Keeps the first element of each key not seen before. */
  function FirstOf<T, K(==)>(key: T -> K, s: seq<T>, seen: set<K>): (r: seq<T>)
    ensures |r| <= |s|
  {
    if s == [] then []
    else if key(s[0]) in seen then FirstOf(key, s[1..], seen)
    else [s[0]] + FirstOf(key, s[1..], seen + {key(s[0])})
  }

  lemma {:induction false} FirstOfConcat<T, K>(key: T -> K, a: seq<T>, b: seq<T>, seen: set<K>)
    ensures FirstOf(key, a + b, seen) == FirstOf(key, a, seen) + FirstOf(key, b, seen + KeySet(key, a))
  {
    if a == [] {
      assert a + b == b && seen + KeySet(key, a) == seen;
    } else {
      var x := key(a[0]);
      assert (a + b)[0] == a[0] && (a + b)[1..] == a[1..] + b;
      KeySetCons(key, a);
      if x in seen {
        FirstOfConcat(key, a[1..], b, seen);
        assert seen + KeySet(key, a[1..]) == seen + KeySet(key, a);
      } else {
        FirstOfConcat(key, a[1..], b, seen + {x});
        assert seen + {x} + KeySet(key, a[1..]) == seen + KeySet(key, a);
        Shift(a[0], FirstOf(key, a[1..], seen + {x}), FirstOf(key, b, seen + KeySet(key, a)));
      }
    }
  }

  lemma Shift<T>(x: T, a: seq<T>, b: seq<T>)
    ensures [x] + (a + b) == ([x] + a) + b
  {
  }

  function KeySet<T, K(==)>(key: T -> K, s: seq<T>): (r: set<K>)
  {
    set i | 0 <= i < |s| :: key(s[i])
  }

  lemma KeySetCons<T, K>(key: T -> K, s: seq<T>)
    requires s != []
    ensures KeySet(key, s) == {key(s[0])} + KeySet(key, s[1..])
  {
    forall k | k in KeySet(key, s)
      ensures k in {key(s[0])} + KeySet(key, s[1..])
    {
      var i :| 0 <= i < |s| && key(s[i]) == k;
      if i > 0 { assert s[1..][i - 1] == s[i]; }
    }
    forall k | k in KeySet(key, s[1..])
      ensures k in KeySet(key, s)
    {
      var i :| 0 <= i < |s[1..]| && key(s[1..][i]) == k;
      assert s[i + 1] == s[1..][i];
    }
  }

  /** What is kept comes from the input, has an unseen key, and every unseen key is kept. */
  lemma {:induction false} FirstOfMembers<T, K>(key: T -> K, s: seq<T>, seen: set<K>)
    ensures forall x | x in FirstOf(key, s, seen) :: x in s && key(x) !in seen
    ensures forall x | x in s && key(x) !in seen :: exists y :: y in FirstOf(key, s, seen) && key(y) == key(x)
  {
    if s != [] {
      var k := key(s[0]);
      if k in seen {
        FirstOfMembers(key, s[1..], seen);
      } else {
        FirstOfMembers(key, s[1..], seen + {k});
        var r := FirstOf(key, s, seen);
        assert r[0] == s[0] && r[1..] == FirstOf(key, s[1..], seen + {k});
        forall x | x in s && key(x) !in seen
          ensures exists y :: y in r && key(y) == key(x)
        {
          if key(x) == k {
            assert s[0] in r;
          } else {
            var y :| y in FirstOf(key, s[1..], seen + {k}) && key(y) == key(x);
            assert y in r;
          }
        }
      }
    }
  }

  predicate DistinctKeys<T, K(==)>(key: T -> K, s: seq<T>) { forall i, j | 0 <= i < j < |s| :: key(s[i]) != key(s[j]) }

  lemma {:induction false} FirstOfDistinct<T, K>(key: T -> K, s: seq<T>, seen: set<K>)
    ensures DistinctKeys(key, FirstOf(key, s, seen))
  {
    if s != [] {
      var k := key(s[0]);
      if k in seen {
        FirstOfDistinct(key, s[1..], seen);
      } else {
        FirstOfDistinct(key, s[1..], seen + {k});
        FirstOfMembers(key, s[1..], seen + {k});
        var t := FirstOf(key, s[1..], seen + {k});
        assert forall j | 0 <= j < |t| :: t[j] in t;
      }
    }
  }

  lemma {:induction false} FirstOfSorted<T, K>(le: (T, T) -> bool, key: T -> K, s: seq<T>, seen: set<K>)
    requires Sorted(le, s)
    ensures Sorted(le, FirstOf(key, s, seen))
  {
    if s != [] {
      var k := key(s[0]);
      if k in seen {
        FirstOfSorted(le, key, s[1..], seen);
      } else {
        FirstOfSorted(le, key, s[1..], seen + {k});
        FirstOfMembers(key, s[1..], seen + {k});
        SortedCons(le, s[0], FirstOf(key, s[1..], seen + {k}));
      }
    }
  }

  /** Rows with distinct keys all stay. */
  lemma {:induction false} FirstOfAll<T, K>(key: T -> K, s: seq<T>, seen: set<K>)
    requires DistinctKeys(key, s) && forall x | x in s :: key(x) !in seen
    ensures FirstOf(key, s, seen) == s
  {
    if s != [] {
      assert forall j | 0 < j < |s| :: key(s[0]) != key(s[j]);
      FirstOfAll(key, s[1..], seen + {key(s[0])});
    }
  }

  /** As many rows are kept as there are keys. */
  lemma {:induction false} FirstOfLength<T, K>(key: T -> K, s: seq<T>, seen: set<K>)
    ensures |FirstOf(key, s, seen)| == |KeySet(key, s) - seen|
  {
    if s != [] {
      var k := key(s[0]);
      KeySetCons(key, s);
      if k in seen {
        FirstOfLength(key, s[1..], seen);
        assert KeySet(key, s) - seen == KeySet(key, s[1..]) - seen;
      } else {
        FirstOfLength(key, s[1..], seen + {k});
        assert KeySet(key, s) - seen == (KeySet(key, s[1..]) - (seen + {k})) + {k};
      }
    }
  }

  /** Nothing dropped means nothing repeated. */
  lemma {:induction false} FullLength<T, K>(key: T -> K, s: seq<T>, seen: set<K>)
    requires |FirstOf(key, s, seen)| == |s|
    ensures DistinctKeys(key, s) && forall x | x in s :: key(x) !in seen
  {
    if s != [] {
      var k := key(s[0]);
      FullLength(key, s[1..], seen + {k});
      assert forall j | 0 < j < |s| :: s[j] == s[1..][j - 1] && s[1..][j - 1] in s[1..];
    }
  }

  lemma SameKeySet<T, K>(key: T -> K, a: seq<T>, b: seq<T>)
    requires forall x | x in a :: x in b
    ensures KeySet(key, a) <= KeySet(key, b)
  {
    forall k | k in KeySet(key, a)
      ensures k in KeySet(key, b)
    {
      var i :| 0 <= i < |a| && key(a[i]) == k;
      assert a[i] in b;
      var j :| 0 <= j < |b| && b[j] == a[i];
      assert key(b[j]) == k;
    }
  }

  /** Keys are distinct exactly when there are as many of them as elements. */
  lemma DistinctIffFull<T, K>(key: T -> K, s: seq<T>)
    ensures DistinctKeys(key, s) <==> |KeySet(key, s)| == |s|
  {
    var none: set<K> := {};
    FirstOfLength(key, s, none);
    assert KeySet(key, s) - none == KeySet(key, s);
    var n := |FirstOf(key, s, none)|;
    assert n == |KeySet(key, s)|;
    if DistinctKeys(key, s) { FirstOfAll(key, s, none); assert n == |s|; }
    if n == |s| { FullLength(key, s, none); assert DistinctKeys(key, s); }
  }

  /** Distinct keys stay distinct under permutation. */
  lemma PermutedDistinct<T, K>(key: T -> K, a: seq<T>, b: seq<T>)
    requires multiset(a) == multiset(b) && DistinctKeys(key, a)
    ensures DistinctKeys(key, b)
  {
    assert forall x | x in a :: x in multiset(b);
    assert forall x | x in b :: x in multiset(a);
    SameKeySet(key, a, b);
    SameKeySet(key, b, a);
    assert KeySet(key, a) == KeySet(key, b);
    assert |a| == |multiset(a)| && |b| == |multiset(b)|;
    DistinctIffFull(key, a);
    DistinctIffFull(key, b);
  }

  /** The order tells different keys apart. */
  ghost predicate Separates<T(!new), K(!new)>(le: (T, T) -> bool, key: T -> K)
  {
    forall x, y :: le(x, y) && le(y, x) ==> key(x) == key(y)
  }

  /** Two sequences in the same strict order with the same members are the same. */
  lemma {:induction false} StrictUnique<T(!new), K(!new)>(le: (T, T) -> bool, key: T -> K, a: seq<T>, b: seq<T>)
    requires Separates(le, key)
    requires Sorted(le, a) && DistinctKeys(key, a) && Sorted(le, b) && DistinctKeys(key, b)
    requires forall x :: x in a <==> x in b
    ensures a == b
  {
    hide Sorted, DistinctKeys, Separates;
    if a == [] {
      if b != [] { FirstIn(b); }
    } else {
      SameFirst(le, key, a, b);
      RestOf(le, key, a);
      RestOf(le, key, b);
      StrictUnique(le, key, a[1..], b[1..]);
      assert a == [a[0]] + a[1..] && b == [b[0]] + b[1..];
    }
  }

  lemma FirstIn<T>(b: seq<T>)
    requires b != []
    ensures b[0] in b
  {
  }

  lemma RestOf<T, K>(le: (T, T) -> bool, key: T -> K, a: seq<T>)
    requires a != [] && DistinctKeys(key, a) && Sorted(le, a)
    ensures Sorted(le, a[1..]) && DistinctKeys(key, a[1..])
    ensures forall x :: x in a[1..] <==> x in a && x != a[0]
  {
    assert forall j | 0 < j < |a| :: key(a[0]) != key(a[j]);
    assert forall x :: x in a <==> x == a[0] || x in a[1..];
  }

  lemma SameFirst<T(!new), K(!new)>(le: (T, T) -> bool, key: T -> K, a: seq<T>, b: seq<T>)
    requires Separates(le, key)
    requires a != [] && Sorted(le, a) && DistinctKeys(key, a) && Sorted(le, b) && DistinctKeys(key, b)
    requires forall x :: x in a <==> x in b
    ensures b != [] && a[0] == b[0]
  {
    assert a[0] in b;
    assert b[0] in a;
    HeadOf(le, key, a, b[0]);
    HeadOf(le, key, b, a[0]);
  }

  /** The head comes before every other member, and no other has its key. */
  lemma HeadOf<T, K>(le: (T, T) -> bool, key: T -> K, a: seq<T>, x: T)
    requires x in a && Sorted(le, a) && DistinctKeys(key, a)
    ensures (x == a[0] || le(a[0], x)) && (key(x) == key(a[0]) ==> x == a[0])
  {
    var i :| 0 <= i < |a| && a[i] == x;
    assert i == 0 || (le(a[0], a[i]) && key(a[0]) != key(a[i]));
  }

  /** Compacts an array in place: the write position never overtakes the read position. */
  method Compact<T, K(==)>(key: T -> K, a: array<T>) returns (n: nat)
    modifies a
    ensures n <= a.Length && a[..n] == FirstOf(key, old(a[..]), {})
  {
    var seen: set<K> := {};
    n := 0;
    var i := 0;
    while i < a.Length
      invariant n <= i <= a.Length
      invariant a[i..] == old(a[..])[i..]
      invariant a[..n] + FirstOf(key, old(a[..])[i..], seen) == FirstOf(key, old(a[..]), {})
    {
      var x := a[i];
      ghost var rest := old(a[..])[i..];
      assert rest[0] == x && rest[1..] == old(a[..])[i + 1..];
      if key(x) in seen {
      } else {
        Shift(x, [], FirstOf(key, rest[1..], seen + {key(x)}));
        ghost var before := a[..n];
        assert before + ([x] + FirstOf(key, rest[1..], seen + {key(x)}))
            == (before + [x]) + FirstOf(key, rest[1..], seen + {key(x)});
        seen := seen + {key(x)};
        a[n] := x;
        assert a[..n + 1] == before + [x];
        n := n + 1;
      }
      i := i + 1;
      assert a[i..] == old(a[..])[i..];
    }
  }
}
