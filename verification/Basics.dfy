/** Small shared vocabulary: optional values, filtering, the order on strings. */
module Basics {

  datatype Option<+T> = None | Some(value: T)

  function Filter<T>(p: T -> bool, s: seq<T>): (r: seq<T>)
  {
    if s == [] then [] else (if p(s[0]) then [s[0]] else []) + Filter(p, s[1..])
  }

  lemma {:induction false} FilterMembers<T>(p: T -> bool, s: seq<T>, x: T)
    ensures x in Filter(p, s) <==> x in s && p(x)
  {
    if s != [] {
      FilterMembers(p, s[1..], x);
      assert x in s <==> x == s[0] || x in s[1..];
    }
  }

  lemma {:induction false} FilterCons<T>(p: T -> bool, x: T, s: seq<T>)
    ensures Filter(p, [x] + s) == (if p(x) then [x] else []) + Filter(p, s)
  {
    assert ([x] + s)[1..] == s;
  }

  lemma {:induction false} FilterConcat<T>(p: T -> bool, a: seq<T>, b: seq<T>)
    ensures Filter(p, a + b) == Filter(p, a) + Filter(p, b)
  {
    if a == [] {
      assert a + b == b;
    } else {
      FilterConcat(p, a[1..], b);
      FilterCons(p, a[0], a[1..] + b);
      FilterCons(p, a[0], a[1..]);
      assert a + b == [a[0]] + (a[1..] + b) && a == [a[0]] + a[1..];
      hide Filter;
      var one := if p(a[0]) then [a[0]] else [];
      assert one + (Filter(p, a[1..]) + Filter(p, b)) == (one + Filter(p, a[1..])) + Filter(p, b);
    }
  }

  lemma {:induction false} FilterAll<T>(p: T -> bool, s: seq<T>)
    requires forall x | x in s :: p(x)
    ensures Filter(p, s) == s
  {
    if s != [] { FilterAll(p, s[1..]); }
  }

  predicate Distinct<T(==)>(s: seq<T>) { forall i, j | 0 <= i < j < |s| :: s[i] != s[j] }

  /** Byte-wise order on strings. */
  predicate StrLess(a: string, b: string)
  {
    if b == "" then false
    else if a == "" then true
    else if a[0] != b[0] then a[0] < b[0]
    else StrLess(a[1..], b[1..])
  }

  lemma {:induction false} StrTotal(a: string, b: string)
    ensures StrLess(a, b) || StrLess(b, a) || a == b
    ensures !(StrLess(a, b) && StrLess(b, a)) && !StrLess(a, a)
  {
    if a != "" { StrTotal(a[1..], a[1..]); }
    if a != "" && b != "" && a[0] == b[0] {
      StrTotal(a[1..], b[1..]);
      assert a == [a[0]] + a[1..] && b == [b[0]] + b[1..];
    }
  }

  lemma {:induction false} StrTransitive(a: string, b: string, c: string)
    requires StrLess(a, b) && StrLess(b, c)
    ensures StrLess(a, c)
  {
    if a != "" && a[0] == b[0] && b[0] == c[0] { StrTransitive(a[1..], b[1..], c[1..]); }
  }
}

/** Sorting by a total preorder, as a stable insertion sort. */
module Sorting {
  import opened Basics

  ghost predicate Preorder<T(!new)>(le: (T, T) -> bool)
  {
    && (forall a, b :: le(a, b) || le(b, a))
    && (forall a, b, c :: le(a, b) && le(b, c) ==> le(a, c))
  }

  predicate Sorted<T>(le: (T, T) -> bool, s: seq<T>)
  {
    forall i, j | 0 <= i < j < |s| :: le(s[i], s[j])
  }

  /** Puts x before the first element it does not exceed. */
  function Insert<T>(le: (T, T) -> bool, x: T, s: seq<T>): (r: seq<T>)
    ensures |r| == |s| + 1
  {
    if s == [] || le(x, s[0]) then [x] + s else [s[0]] + Insert(le, x, s[1..])
  }

  function Sort<T>(le: (T, T) -> bool, s: seq<T>): (r: seq<T>)
    ensures |r| == |s|
  {
    if s == [] then [] else Insert(le, s[0], Sort(le, s[1..]))
  }

  lemma {:induction false} InsertMultiset<T>(le: (T, T) -> bool, x: T, s: seq<T>)
    ensures multiset(Insert(le, x, s)) == multiset(s) + multiset{x}
  {
    if s == [] || le(x, s[0]) {
    } else {
      InsertMultiset(le, x, s[1..]);
      assert s == [s[0]] + s[1..];
    }
  }

  lemma {:induction false} SortMultiset<T>(le: (T, T) -> bool, s: seq<T>)
    ensures multiset(Sort(le, s)) == multiset(s)
  {
    if s != [] {
      SortMultiset(le, s[1..]);
      InsertMultiset(le, s[0], Sort(le, s[1..]));
      assert s == [s[0]] + s[1..];
    }
  }

  lemma {:induction false} SortMembers<T>(le: (T, T) -> bool, s: seq<T>)
    ensures forall x :: x in Sort(le, s) <==> x in s
  {
    SortMultiset(le, s);
    forall x
      ensures x in Sort(le, s) <==> x in s
    {
      assert x in multiset(Sort(le, s)) <==> x in multiset(s);
    }
  }

  lemma {:induction false} InsertMembers<T>(le: (T, T) -> bool, x: T, s: seq<T>, y: T)
    ensures y in Insert(le, x, s) <==> y == x || y in s
  {
    if s == [] || le(x, s[0]) {
    } else {
      InsertMembers(le, x, s[1..], y);
      assert y in s <==> y == s[0] || y in s[1..];
    }
  }

  lemma SortedCons<T>(le: (T, T) -> bool, x: T, s: seq<T>)
    requires Sorted(le, s) && forall y | y in s :: le(x, y)
    ensures Sorted(le, [x] + s)
  {
  }

  lemma {:induction false} InsertSorted<T(!new)>(le: (T, T) -> bool, x: T, s: seq<T>)
    requires Preorder(le) && Sorted(le, s)
    ensures Sorted(le, Insert(le, x, s))
  {
    if s == [] {
    } else if le(x, s[0]) {
      assert forall y | y in s :: le(x, y);
      SortedCons(le, x, s);
    } else {
      InsertSorted(le, x, s[1..]);
      forall y | y in Insert(le, x, s[1..])
        ensures le(s[0], y)
      {
        InsertMembers(le, x, s[1..], y);
      }
      SortedCons(le, s[0], Insert(le, x, s[1..]));
    }
  }

  lemma {:induction false} SortSorted<T(!new)>(le: (T, T) -> bool, s: seq<T>)
    requires Preorder(le)
    ensures Sorted(le, Sort(le, s))
  {
    if s != [] {
      SortSorted(le, s[1..]);
      InsertSorted(le, s[0], Sort(le, s[1..]));
    }
  }

  /** Stability: dropping elements before or after the sort gives the same sequence. */
  lemma {:induction false} InsertFilter<T(!new)>(le: (T, T) -> bool, p: T -> bool, x: T, s: seq<T>)
    requires Preorder(le) && Sorted(le, s)
    ensures Filter(p, Insert(le, x, s)) == if p(x) then Insert(le, x, Filter(p, s)) else Filter(p, s)
  {
    hide Preorder, Sorted, Insert, Filter;
    if s == [] {
      InsertNone(le, p, x);
    } else if le(x, s[0]) {
      HeadAbove(le, p, x, s);
      FilterCons(p, x, s);
      assert [] + Filter(p, s) == Filter(p, s);
    } else {
      var y, t := s[0], s[1..];
      assert s == [y] + t;
      SortedTail(le, s);
      InsertFilter(le, p, x, t);
      InsertAfter(le, x, y, t);
      FilterCons(p, y, Insert(le, x, t));
      FilterCons(p, y, t);
      InsertAfter(le, x, y, Filter(p, t));
      var g := if p(x) then Insert(le, x, Filter(p, t)) else Filter(p, t);
      assert Filter(p, Insert(le, x, s)) == (if p(y) then [y] else []) + g;
      assert [] + g == g && [] + Filter(p, t) == Filter(p, t);
    }
  }

  lemma InsertNone<T>(le: (T, T) -> bool, p: T -> bool, x: T)
    ensures Filter(p, Insert(le, x, [])) == (if p(x) then Insert(le, x, Filter(p, [])) else Filter(p, []))
  {
    assert [x] + [] == [x];
    FilterCons(p, x, []);
  }

  lemma SortedTail<T>(le: (T, T) -> bool, s: seq<T>)
    requires Sorted(le, s) && s != []
    ensures Sorted(le, s[1..])
  {
  }

  lemma {:induction false} HeadAbove<T(!new)>(le: (T, T) -> bool, p: T -> bool, x: T, s: seq<T>)
    requires Preorder(le) && Sorted(le, s) && s != [] && le(x, s[0])
    ensures Insert(le, x, Filter(p, s)) == [x] + Filter(p, s) && Insert(le, x, s) == [x] + s
  {
    var f := Filter(p, s);
    if f != [] {
      FilterMembers(p, s, f[0]);
      var i :| 0 <= i < |s| && s[i] == f[0];
      assert i == 0 || le(s[0], s[i]);
    }
  }

  lemma {:induction false} InsertAfter<T>(le: (T, T) -> bool, x: T, y: T, s: seq<T>)
    requires !le(x, y)
    ensures Insert(le, x, [y] + s) == [y] + Insert(le, x, s)
  {
    assert ([y] + s)[1..] == s;
  }

  lemma {:induction false} SortFilter<T(!new)>(le: (T, T) -> bool, p: T -> bool, s: seq<T>)
    requires Preorder(le)
    ensures Filter(p, Sort(le, s)) == Sort(le, Filter(p, s))
  {
    if s != [] {
      SortFilter(le, p, s[1..]);
      SortSorted(le, s[1..]);
      InsertFilter(le, p, s[0], Sort(le, s[1..]));
      FilterCons(p, s[0], s[1..]);
      assert s == [s[0]] + s[1..];
      SortCons(le, s[0], Filter(p, s[1..]));
      hide Preorder, Sorted, Insert, Filter;
      assert [] + Filter(p, s[1..]) == Filter(p, s[1..]);
    }
  }

  lemma {:induction false} SortCons<T>(le: (T, T) -> bool, x: T, s: seq<T>)
    ensures Sort(le, [x] + s) == Insert(le, x, Sort(le, s))
  {
    assert ([x] + s)[1..] == s;
  }

  /** A sequence that is already sorted stays as it is. */
  lemma {:induction false} SortOfSorted<T>(le: (T, T) -> bool, s: seq<T>)
    requires Sorted(le, s)
    ensures Sort(le, s) == s
  {
    if s != [] {
      SortOfSorted(le, s[1..]);
    }
  }

  // ---------- permutations ----------

  /** Taking one occurrence of a's last element out of a permutation of a. */
  lemma TakeOne<T>(a: seq<T>, b: seq<T>) returns (j: nat)
    requires a != [] && multiset(a) == multiset(b)
    ensures j < |b| && b[j] == a[|a| - 1]
    ensures multiset(a[..|a| - 1]) == multiset(b[..j] + b[j + 1..])
    ensures b == b[..j] + [b[j]] + b[j + 1..]
  {
    var n := |a| - 1;
    var x := a[n];
    assert x in multiset(b);
    j :| 0 <= j < |b| && b[j] == x;
    assert a == a[..n] + [x];
    assert b == b[..j] + [x] + b[j + 1..];
    assert multiset(a) == multiset(a[..n]) + multiset{x};
    assert multiset(b) == multiset(b[..j] + b[j + 1..]) + multiset{x};
    SameRest(multiset(a[..n]), multiset(b[..j] + b[j + 1..]), x);
  }

  lemma SameRest<T>(a: multiset<T>, b: multiset<T>, x: T)
    requires a + multiset{x} == b + multiset{x}
    ensures a == b
  {
    assert a == a + multiset{x} - multiset{x};
    assert b == b + multiset{x} - multiset{x};
  }

  /** A function applied to two permutations of each other gives permutations of each other. */
  lemma {:induction false} MapMultiset<T, U>(f: T -> U, a: seq<T>, b: seq<T>, fa: seq<U>, fb: seq<U>)
    requires multiset(a) == multiset(b) && |fa| == |a| && |fb| == |b|
    requires (forall i | 0 <= i < |a| :: fa[i] == f(a[i])) && (forall i | 0 <= i < |b| :: fb[i] == f(b[i]))
    ensures multiset(fa) == multiset(fb)
    decreases |a|
  {
    if a == [] {
      assert |multiset(b)| == 0;
      assert b == [];
    } else {
      var j := TakeOne(a, b);
      var n := |a| - 1;
      MapMultiset(f, a[..n], b[..j] + b[j + 1..], fa[..n], fb[..j] + fb[j + 1..]);
      assert fa == fa[..n] + [fa[n]];
      assert fb == fb[..j] + [fb[j]] + fb[j + 1..];
    }
  }
}
