/** Redaction of detected entities: overlapping findings are merged, and the text is rewritten
    from the end. No covered byte survives, every uncovered byte does. */
module Redact {
  import opened Basics
  import opened Sorting
  import Dedup

  datatype Finding = Finding(entity: string, start: int, end: int, score: real)

  datatype Action = Mask | Tokenize

  predicate StartLe(a: Finding, b: Finding) { a.start <= b.start }

  predicate Within(n: nat, f: Finding) { 0 <= f.start < f.end <= n }

  predicate Usable(n: nat, minScore: real, f: Finding) { f.score >= minScore && Within(n, f) }

  function UsableBy(n: nat, minScore: real): (p: Finding -> bool) { (f: Finding) => Usable(n, minScore, f) }

  predicate Covers(f: Finding, p: int) { f.start <= p < f.end }

  /** p - 1 and p are both covered by f. */
  predicate Straddles(f: Finding, p: int) { f.start < p < f.end }

  ghost predicate Covered(fs: seq<Finding>, p: int) { exists f :: f in fs && Covers(f, p) }

  ghost predicate Joined(fs: seq<Finding>, p: int) { exists f :: f in fs && Straddles(f, p) }

  ghost predicate Named(fs: seq<Finding>, m: Finding)
  {
    exists u :: u in fs && u.start == m.start && u.entity == m.entity
  }

  ghost predicate AllWithin(n: nat, fs: seq<Finding>) { forall f | f in fs :: Within(n, f) }

  /** In order and without overlap. */
  predicate Apart(fs: seq<Finding>) { forall i, j | 0 <= i < j < |fs| :: fs[i].end <= fs[j].start }

  function Extend(last: Finding, f: Finding): Finding { if f.end > last.end then last.(end := f.end) else last }

  function MergeInto(last: Finding, rest: seq<Finding>): (r: seq<Finding>)
    ensures r != []
    decreases |rest|
  {
    if rest == [] then [last]
    else if rest[0].start < last.end then MergeInto(Extend(last, rest[0]), rest[1..])
    else [last] + MergeInto(rest[0], rest[1..])
  }

  function Merge(fs: seq<Finding>): (r: seq<Finding>) { if fs == [] then [] else MergeInto(fs[0], fs[1..]) }

  /** The ranges to rewrite in a text of n bytes. */
  function Ranges(n: nat, minScore: real, found: seq<Finding>): (r: seq<Finding>)
  {
    Merge(Sort(StartLe, Filter(UsableBy(n, minScore), found)))
  }

  /** What one range becomes; token stands for the keyed digest. */
  function Replacement(action: Action, token: string -> string, f: Finding, text: string): string
  {
    if action == Tokenize then token(text) else "[redacted:" + f.entity + "]"
  }

  predicate Fits(ms: seq<Finding>, pos: nat, n: nat)
  {
    Apart(ms) && pos <= n && forall i | 0 <= i < |ms| :: pos <= ms[i].start < ms[i].end <= n
  }

  lemma FitsTail(ms: seq<Finding>, pos: nat, n: nat)
    requires Fits(ms, pos, n) && ms != []
    ensures Fits(ms[1..], ms[0].end, n)
  {
  }

  /** Left to right: the text between the ranges, and each range replaced by what the original
      text there calls for. */
  function Splice(action: Action, token: string -> string, value: string, ms: seq<Finding>, pos: nat): string
    requires Fits(ms, pos, |value|)
    decreases |ms|
  {
    if ms == [] then value[pos..]
    else
      FitsTail(ms, pos, |value|);
      value[pos..ms[0].start] + Replacement(action, token, ms[0], value[ms[0].start..ms[0].end])
      + Splice(action, token, value, ms[1..], ms[0].end)
  }

  // ---------- merging ----------

  lemma SortedHead(last: Finding, rest: seq<Finding>)
    requires Sorted(StartLe, [last] + rest) && rest != []
    ensures last.start <= rest[0].start
    ensures Sorted(StartLe, [Extend(last, rest[0])] + rest[1..]) && Sorted(StartLe, [rest[0]] + rest[1..])
  {
    var s := [last] + rest;
    assert s[0] == last && s[1] == rest[0];
    forall i, j | 0 <= i < j < |rest|
      ensures StartLe(rest[i], rest[j])
    {
      assert s[i + 1] == rest[i] && s[j + 1] == rest[j];
    }
    var e := [Extend(last, rest[0])] + rest[1..];
    forall i, j | 0 <= i < j < |e|
      ensures StartLe(e[i], e[j])
    {
      assert s[0] == last && s[j + 1] == e[j];
      if i > 0 { assert s[i + 1] == e[i]; }
    }
    assert [rest[0]] + rest[1..] == rest;
  }

  /** Merged ranges are apart, inside the text, and start no earlier than the first one. */
  lemma {:induction false} MergedApart(last: Finding, rest: seq<Finding>, n: nat)
    requires Sorted(StartLe, [last] + rest) && Within(n, last) && AllWithin(n, rest)
    ensures Fits(MergeInto(last, rest), last.start, n)
    decreases |rest|
  {
    if rest != [] {
      SortedHead(last, rest);
      hide Sorted;
      assert rest[0] in rest;
      if rest[0].start < last.end {
        MergedApart(Extend(last, rest[0]), rest[1..], n);
      } else {
        MergedApart(rest[0], rest[1..], n);
      }
    }
  }

  lemma CoveredCons(f: Finding, fs: seq<Finding>, p: int)
    ensures Covered([f] + fs, p) <==> Covers(f, p) || Covered(fs, p)
    ensures Joined([f] + fs, p) <==> Straddles(f, p) || Joined(fs, p)
  {
    var s := [f] + fs;
    assert f in s && forall x :: x in s <==> x == f || x in fs;
  }

  /** Merging covers exactly what the findings cover, and joins two neighbouring bytes exactly
      when one finding covers both: it neither bridges a gap nor glues ranges that only touch. */
  lemma {:induction false} MergedExactly(last: Finding, rest: seq<Finding>, p: int)
    requires Sorted(StartLe, [last] + rest) && last.start < last.end && forall f | f in rest :: f.start < f.end
    ensures Covered(MergeInto(last, rest), p) <==> Covered([last] + rest, p)
    ensures Joined(MergeInto(last, rest), p) <==> Joined([last] + rest, p)
    decreases |rest|
  {
    if rest == [] {
      assert [last] + rest == [last];
    } else {
      SortedHead(last, rest);
      hide Sorted, Covered, Joined;
      var f := rest[0];
      assert f in rest;
      assert rest == [f] + rest[1..];
      CoveredCons(last, rest, p);
      CoveredCons(f, rest[1..], p);
      if f.start < last.end {
        MergedExactly(Extend(last, f), rest[1..], p);
        CoveredCons(Extend(last, f), rest[1..], p);
      } else {
        MergedExactly(f, rest[1..], p);
        CoveredCons(last, MergeInto(f, rest[1..]), p);
      }
    }
  }

  /** A merged range carries the name of a finding that starts where it does. */
  lemma {:induction false} MergedNamed(last: Finding, rest: seq<Finding>, m: Finding)
    requires m in MergeInto(last, rest)
    ensures exists u :: (u == last || u in rest) && u.start == m.start && u.entity == m.entity
    decreases |rest|
  {
    if rest != [] {
      var f := rest[0];
      assert forall u | u in rest[1..] :: u in rest;
      if f.start < last.end {
        MergedNamed(Extend(last, f), rest[1..], m);
      } else if m != last {
        MergedNamed(f, rest[1..], m);
      }
    }
  }

  /** The merge as a whole, on findings in order of their start. */
  lemma MergeMeaning(fs: seq<Finding>, n: nat)
    requires Sorted(StartLe, fs) && AllWithin(n, fs)
    ensures Fits(Merge(fs), 0, n)
    ensures forall p :: Covered(Merge(fs), p) <==> Covered(fs, p)
    ensures forall p :: Joined(Merge(fs), p) <==> Joined(fs, p)
    ensures forall m | m in Merge(fs) :: Named(fs, m)
  {
    if fs != [] {
      forall m | m in Merge(fs) ensures Named(fs, m) { MergedNamed(fs[0], fs[1..], m); }
      assert [fs[0]] + fs[1..] == fs;
      assert fs[0] in fs && forall f | f in fs[1..] :: f in fs;
      MergedApart(fs[0], fs[1..], n);
      forall p
        ensures Covered(Merge(fs), p) <==> Covered(fs, p)
        ensures Joined(Merge(fs), p) <==> Joined(fs, p)
      {
        MergedExactly(fs[0], fs[1..], p);
      }
    }
  }

  // ---------- what the text keeps and hides ----------

  /** The bytes of value from pos on that no range covers. */
  ghost function Uncovered(value: string, ms: seq<Finding>, pos: nat): string
    requires pos <= |value|
    decreases |value| - pos
  {
    if pos == |value| then "" else (if Covered(ms, pos) then "" else [value[pos]]) + Uncovered(value, ms, pos + 1)
  }

  lemma {:induction false} UncoveredRun(value: string, ms: seq<Finding>, a: nat, b: nat)
    requires a <= b <= |value| && forall p | a <= p < b :: !Covered(ms, p)
    ensures Uncovered(value, ms, a) == value[a..b] + Uncovered(value, ms, b)
    decreases b - a
  {
    hide Covered, Uncovered;
    if a < b {
      UncoveredRun(value, ms, a + 1, b);
      UncoveredOne(value, ms, a);
      assert value[a..b] == [value[a]] + value[a + 1..b];
      StrAssoc([value[a]], value[a + 1..b], Uncovered(value, ms, b));
    } else {
      assert value[a..b] == "";
    }
  }

  lemma StrAssoc(a: string, b: string, c: string)
    ensures a + b + c == a + (b + c)
  {
  }

  lemma UncoveredOne(value: string, ms: seq<Finding>, a: nat)
    requires a < |value| && !Covered(ms, a)
    ensures Uncovered(value, ms, a) == [value[a]] + Uncovered(value, ms, a + 1)
  {
    hide Covered;
  }

  lemma {:induction false} CoveredRun(value: string, ms: seq<Finding>, a: nat, b: nat)
    requires a <= b <= |value| && forall p | a <= p < b :: Covered(ms, p)
    ensures Uncovered(value, ms, a) == Uncovered(value, ms, b)
    decreases b - a
  {
    hide Covered;
    if a < b { CoveredRun(value, ms, a + 1, b); }
  }

  /** Seen from past its first range, only the later ranges matter. */
  lemma {:induction false} UncoveredTail(value: string, ms: seq<Finding>, pos: nat)
    requires ms != [] && ms[0].end <= pos <= |value|
    ensures Uncovered(value, ms, pos) == Uncovered(value, ms[1..], pos)
    decreases |value| - pos
  {
    hide Covered;
    assert ms == [ms[0]] + ms[1..];
    if pos < |value| {
      CoveredCons(ms[0], ms[1..], pos);
      UncoveredTail(value, ms, pos + 1);
    }
  }

  /** Rewriting keeps every uncovered byte, in order: with empty replacements nothing else is left. */
  lemma {:induction false} UncoveredKept(value: string, ms: seq<Finding>, pos: nat)
    requires Fits(ms, pos, |value|)
    ensures Splice(Tokenize, (s: string) => "", value, ms, pos) == Uncovered(value, ms, pos)
    decreases |ms|
  {
    var erase := (s: string) => "";
    if ms == [] {
      assert forall p :: !Covered(ms, p);
      UncoveredRun(value, ms, pos, |value|);
      assert value[pos..|value|] == value[pos..];
    } else {
      FitsTail(ms, pos, |value|);
      var f := ms[0];
      forall p | pos <= p < f.start ensures !Covered(ms, p) { BeforeFirst(ms, pos, |value|, p); }
      forall p | f.start <= p < f.end ensures Covered(ms, p) { assert f in ms && Covers(f, p); }
      hide Covered;
      UncoveredRun(value, ms, pos, f.start);
      CoveredRun(value, ms, f.start, f.end);
      UncoveredTail(value, ms, f.end);
      UncoveredKept(value, ms[1..], f.end);
      assert value[pos..f.start] + "" == value[pos..f.start];
    }
  }

  lemma BeforeFirst(ms: seq<Finding>, pos: nat, n: nat, p: int)
    requires Fits(ms, pos, n) && ms != [] && p < ms[0].start
    ensures !Covered(ms, p)
  {
  }

  lemma FitsAround(ms: seq<Finding>, pos: nat, n: nat, i: nat)
    requires Fits(ms, pos, n) && i < |ms|
    ensures pos <= ms[i].start < ms[i].end <= n && Fits(ms[..i], pos, ms[i].start) && Fits(ms[i + 1..], ms[i].end, n)
  {
  }

  /** Rewriting is local: the text before range i rewritten, then the token of the original bytes
      of the range or the mask that names its entity, then the text behind it rewritten. */
  lemma {:induction false} RangeShows(action: Action, token: string -> string, value: string, ms: seq<Finding>,
                                      pos: nat, i: nat)
    requires Fits(ms, pos, |value|) && i < |ms|
    ensures Fits(ms[..i], pos, ms[i].start) && Fits(ms[i + 1..], ms[i].end, |value|)
            && pos <= ms[i].start < ms[i].end <= |value|
    ensures Splice(action, token, value, ms, pos)
            == Splice(action, token, value[..ms[i].start], ms[..i], pos)
               + (match action
                  case Tokenize => token(value[ms[i].start..ms[i].end])
                  case Mask => "[redacted:" + ms[i].entity + "]")
               + Splice(action, token, value, ms[i + 1..], ms[i].end)
    decreases |ms|
  {
    hide Splice, Fits;
    FitsAround(ms, pos, |value|, i);
    var f, head := ms[0], value[..ms[i].start];
    SpliceHead(action, token, value, ms, pos);
    if i == 0 {
      SpliceNone(action, token, head, pos);
      assert ms[..0] == [] && head[pos..] == value[pos..f.start];
    } else {
      RangeShows(action, token, value, ms[1..], f.end, i - 1);
      assert ms[..i][0] == f;
      SpliceHead(action, token, head, ms[..i], pos);
      assert ms[1..][i - 1] == ms[i] && ms[1..][..i - 1] == ms[..i][1..] && ms[1..][i..] == ms[i + 1..];
      assert head[pos..f.start] == value[pos..f.start] && head[f.start..f.end] == value[f.start..f.end];
      hide Replacement;
      Regroup(value[pos..f.start] + Replacement(action, token, f, value[f.start..f.end]),
              Splice(action, token, head, ms[..i][1..], f.end),
              match action
              case Tokenize => token(value[ms[i].start..ms[i].end])
              case Mask => "[redacted:" + ms[i].entity + "]",
              Splice(action, token, value, ms[i + 1..], ms[i].end));
    }
  }

  lemma Regroup(a: string, b: string, c: string, d: string)
    ensures a + (b + c + d) == (a + b) + c + d
  {
  }

  lemma {:induction false} SpliceHead(action: Action, token: string -> string, value: string, ms: seq<Finding>,
                                      pos: nat)
    requires Fits(ms, pos, |value|) && ms != []
    ensures pos <= ms[0].start < ms[0].end <= |value| && Fits(ms[1..], ms[0].end, |value|)
    ensures Splice(action, token, value, ms, pos)
            == value[pos..ms[0].start] + Replacement(action, token, ms[0], value[ms[0].start..ms[0].end])
               + Splice(action, token, value, ms[1..], ms[0].end)
  {
    hide Replacement;
    FitsTail(ms, pos, |value|);
  }

  lemma {:induction false} SpliceNone(action: Action, token: string -> string, value: string, pos: nat)
    requires pos <= |value|
    ensures Fits([], pos, |value|) && Splice(action, token, value, [], pos) == value[pos..]
  {
  }

  /** Masking hides every covered byte: texts that differ only there come out the same. */
  lemma {:induction false} CoveredHidden(token: string -> string, v: string, w: string, ms: seq<Finding>, pos: nat)
    requires |v| == |w| && Fits(ms, pos, |v|)
    requires forall p | pos <= p < |v| && !Covered(ms, p) :: v[p] == w[p]
    ensures Splice(Mask, token, v, ms, pos) == Splice(Mask, token, w, ms, pos)
    decreases |ms|
  {
    if ms == [] {
      assert forall p :: !Covered(ms, p);
      assert v[pos..] == w[pos..];
    } else {
      FitsTail(ms, pos, |v|);
      var f := ms[0];
      forall p | pos <= p < f.start ensures !Covered(ms, p) { BeforeFirst(ms, pos, |v|, p); }
      forall p | f.end <= p < |v| && !Covered(ms[1..], p)
        ensures v[p] == w[p]
      {
        assert ms == [f] + ms[1..];
        CoveredCons(f, ms[1..], p);
      }
      hide Covered;
      CoveredHidden(token, v, w, ms[1..], f.end);
      assert v[pos..f.start] == w[pos..f.start];
    }
  }

  /** The ranges rewritten, in terms of what was found: they lie apart in the text, cover exactly
      the bytes some usable finding covers, and join two neighbours exactly when one covers both;
      each is named after a usable finding that starts where it does. */
  lemma {:induction false} RangesMeaning(n: nat, minScore: real, found: seq<Finding>)
    ensures var ms := Ranges(n, minScore, found); var us := Filter(UsableBy(n, minScore), found);
            && Fits(ms, 0, n) && (forall m | m in ms :: Named(us, m))
            && forall p :: (Covered(ms, p) <==> Covered(us, p)) && (Joined(ms, p) <==> Joined(us, p))
  {
    hide Filter, Sort, Merge;
    var us := Filter(UsableBy(n, minScore), found);
    forall f | f in us ensures Within(n, f) { FilterMembers(UsableBy(n, minScore), found, f); }
    SortedUsable(us, n);
    var s := Sort(StartLe, us);
    MergeMeaning(s, n);
    SortMembers(StartLe, us);
    forall p ensures (Covered(s, p) <==> Covered(us, p)) && (Joined(s, p) <==> Joined(us, p)) { SameCover(s, us, p); }
    forall m | m in Merge(s) ensures Named(us, m) { SameNames(s, us, m); }
  }

  lemma SameNames(a: seq<Finding>, b: seq<Finding>, m: Finding)
    requires (forall f :: f in a <==> f in b) && Named(a, m)
    ensures Named(b, m)
  {
  }

  lemma SameCover(a: seq<Finding>, b: seq<Finding>, p: int)
    requires forall f :: f in a <==> f in b
    ensures (Covered(a, p) <==> Covered(b, p)) && (Joined(a, p) <==> Joined(b, p))
  {
  }

  /** Masking leaks nothing that was found: two texts of the same length that differ only inside
      usable findings are redacted to the same text. */
  lemma {:induction false} MaskingLeaksNothing(token: string -> string, minScore: real, v: string, w: string,
                                               found: seq<Finding>)
    requires |v| == |w|
    requires forall p | 0 <= p < |v| && !Covered(Filter(UsableBy(|v|, minScore), found), p) :: v[p] == w[p]
    ensures var ms := Ranges(|v|, minScore, found);
            Fits(ms, 0, |v|) && Splice(Mask, token, v, ms, 0) == Splice(Mask, token, w, ms, 0)
  {
    hide Ranges, Filter, Covered, Splice;
    RangesMeaning(|v|, minScore, found);
    CoveredHidden(token, v, w, Ranges(|v|, minScore, found), 0);
  }

  // ---------- as the program does it ----------

  /** The text from p on, rewritten; before p, as it was. */
  ghost function Halfway(action: Action, token: string -> string, value: string, ms: seq<Finding>, i: nat): string
    requires i <= |ms| && Fits(ms, 0, |value|)
  {
    var p := if i == 0 then 0 else ms[i - 1].end;
    HalfwayFits(ms, i, |value|);
    value[..p] + Splice(action, token, value, ms[i..], p)
  }

  lemma HalfwayFits(ms: seq<Finding>, i: nat, n: nat)
    requires i <= |ms| && Fits(ms, 0, n)
    ensures Fits(ms[i..], if i == 0 then 0 else ms[i - 1].end, n)
  {
  }

  /** One turn of the loop from the end: the text before the range is still the original. */
  lemma HalfwayStep(action: Action, token: string -> string, value: string, ms: seq<Finding>, i: nat)
    requires i < |ms| && Fits(ms, 0, |value|)
    ensures var f := ms[i]; var out := Halfway(action, token, value, ms, i + 1);
            && 0 <= f.start <= f.end <= |out| && out[f.start..f.end] == value[f.start..f.end]
            && out[..f.start] + Replacement(action, token, f, value[f.start..f.end]) + out[f.end..]
               == Halfway(action, token, value, ms, i)
  {
    hide Replacement;
    HalfwayFits(ms, i, |value|);
    HalfwayFits(ms, i + 1, |value|);
    var f := ms[i];
    var p := if i == 0 then 0 else ms[i - 1].end;
    var rest := Splice(action, token, value, ms[i + 1..], f.end);
    assert ms[i..][0] == f && ms[i..][1..] == ms[i + 1..];
    Around(value, p, f.start, f.end, Replacement(action, token, f, value[f.start..f.end]), rest);
  }

  lemma Around(value: string, p: nat, a: nat, b: nat, repl: string, rest: string)
    requires p <= a <= b <= |value|
    ensures var out := value[..b] + rest;
            && b <= |out| && out[a..b] == value[a..b] && out[..a] == value[..a] && out[b..] == rest
            && value[..a] + repl + rest == value[..p] + (value[p..a] + repl + rest)
  {
    assert value[..a] == value[..p] + value[p..a];
  }

  function CountOf(m: map<string, nat>, t: string): nat { if t in m then m[t] else 0 }

  function IsEntity(t: string): (p: Finding -> bool) { (f: Finding) => f.entity == t }

  lemma NoneCounted()
    ensures forall t :: Filter(IsEntity(t), []) == []
  {
  }

  lemma CountStep(ms: seq<Finding>, i: nat)
    requires i < |ms|
    ensures forall t ::
              |Filter(IsEntity(t), ms[i..])| == |Filter(IsEntity(t), ms[i + 1..])| + if t == ms[i].entity then 1 else 0
  {
    forall t
      ensures |Filter(IsEntity(t), ms[i..])| == |Filter(IsEntity(t), ms[i + 1..])| + if t == ms[i].entity then 1 else 0
    {
      assert ms[i..] == [ms[i]] + ms[i + 1..];
      FilterCons(IsEntity(t), ms[i], ms[i + 1..]);
    }
  }

  lemma {:induction false} KeepStart(p: Finding -> bool, found: seq<Finding>)
    ensures [] + Filter(p, found[0..]) == Filter(p, found)
  {
    assert found[0..] == found;
  }

  lemma KeepStep(p: Finding -> bool, kept: seq<Finding>, found: seq<Finding>, i: nat)
    requires i < |found|
    ensures kept + Filter(p, found[i..])
            == (if p(found[i]) then kept + [found[i]] else kept) + Filter(p, found[i + 1..])
  {
    hide Filter;
    assert found[i..] == [found[i]] + found[i + 1..];
    FilterCons(p, found[i], found[i + 1..]);
  }

  lemma KeepEnd(p: Finding -> bool, kept: seq<Finding>, found: seq<Finding>)
    ensures kept + Filter(p, found[|found|..]) == kept
  {
    assert found[|found|..] == [];
  }

  class Redactor {
    const action: Action
    const hasKey: bool
    const token: string -> string
    const minScore: real
    var errors: nat
    var matches: map<string, nat>

    constructor (action: Action, hasKey: bool, token: string -> string, minScore: real)
      ensures this.action == action && this.hasKey == hasKey && this.token == token && this.minScore == minScore
      ensures errors == 0 && matches == map[]
    {
      this.action, this.hasKey, this.token, this.minScore := action, hasKey, token, minScore;
      errors, matches := 0, map[];
    }

    /** Keeps the findings that are sure enough and lie in the text. */
    method KeepUsable(found: seq<Finding>, n: nat) returns (kept: seq<Finding>)
      ensures kept == Filter(UsableBy(n, minScore), found) && AllWithin(n, kept)
    {
      hide Filter;
      ghost var p := UsableBy(n, minScore);
      kept := [];
      var i := 0;
      KeepStart(p, found);
      while i < |found|
        invariant i <= |found| && kept + Filter(p, found[i..]) == Filter(p, found)
        invariant AllWithin(n, kept)
      {
        KeepStep(p, kept, found, i);
        if found[i].score >= minScore && found[i].start >= 0 && found[i].end <= n && found[i].start < found[i].end {
          kept := kept + [found[i]];
        }
        i := i + 1;
      }
      KeepEnd(p, kept, found);
    }

    /** Merges overlaps by extending the last range. */
    method MergeSorted(found: seq<Finding>) returns (merged: seq<Finding>)
      requires found != []
      ensures merged == Merge(found)
    {
      merged := [found[0]];
      var i := 1;
      while i < |found|
        invariant 1 <= i <= |found| && merged != []
        invariant merged[..|merged| - 1] + MergeInto(merged[|merged| - 1], found[i..]) == Merge(found)
      {
        var f := found[i];
        assert found[i..][0] == f && found[i..][1..] == found[i + 1..];
        var n := |merged| - 1;
        if f.start < merged[n].end {
          if f.end > merged[n].end { merged := merged[..n] + [merged[n].(end := f.end)]; }
        } else {
          assert (merged + [f])[..n + 1] == merged[..n] + [merged[n]];
          merged := merged + [f];
        }
        i := i + 1;
      }
      assert found[i..] == [];
    }

    /** Redacts what the detector found; None stands for a detector that failed. The result is
        the left-to-right splice over the merged findings, whatever was found, with one manifest
        entry for each kind of entity and as many matches as there were ranges of it. */
    method ApplyDetector(value: string, detected: Option<seq<Finding>>)
      returns (out: Option<string>, entries: seq<Match>)
      modifies this
      ensures detected.None? ==> out.None? && errors == old(errors) + 1 && matches == old(matches)
      ensures detected.Some? ==>
                var ms := Ranges(|value|, minScore, detected.value);
                && Fits(ms, 0, |value|)
                && (if ms != [] && action == Tokenize && !hasKey then out == None && errors == old(errors) + 1
                    else out == Some(Splice(action, token, value, ms, 0)) && errors == old(errors)
                         && Reports(entries, ms)
                         && forall t :: CountOf(matches, t) == CountOf(old(matches), t) + |Filter(IsEntity(t), ms)|)
      ensures out.None? ==> entries == [] && matches == old(matches)
    {
      hide Filter, Sort, AllWithin, MergeInto, Fits, IsEntity, Reports;
      entries := [];
      if detected.None? {
        errors := errors + 1;
        return None, [];
      }
      var found := KeepUsable(detected.value, |value|);
      SortedUsable(found, |value|);
      if |found| == 0 {
        NoneCounted();
        NothingFound(action, token, value);
        NothingReported();
        return Some(value), [];
      }
      var merged := MergeSorted(Sort(StartLe, found));
      var counts;
      out, counts := Rewrite(value, merged);
      if out.None? { return; }
      entries := Report(counts);
      ReportsCounts(entries, counts, merged);
    }

    /** Replaces from the end, so that earlier offsets stay valid, and counts by entity. */
    method Rewrite(value: string, merged: seq<Finding>) returns (out: Option<string>, counts: map<string, nat>)
      requires merged != [] && Fits(merged, 0, |value|)
      modifies `errors
      ensures if action == Tokenize && !hasKey then out == None && errors == old(errors) + 1
              else out == Some(Splice(action, token, value, merged, 0)) && errors == old(errors)
                   && (forall t :: CountOf(counts, t) == |Filter(IsEntity(t), merged)|)
                   && (forall t | t in counts :: counts[t] > 0)
    {
      hide Filter, Halfway, Replacement, Splice, Fits;
      var text := value;
      counts := map[];
      var i := |merged|;
      AllDone(action, token, value, merged);
      assert merged[i..] == [];
      NoneCounted();
      while i > 0
        invariant 0 <= i <= |merged| && errors == old(errors)
        invariant text == Halfway(action, token, value, merged, i)
        invariant action == Tokenize && !hasKey ==> i == |merged|
        invariant (forall t :: CountOf(counts, t) == |Filter(IsEntity(t), merged[i..])|)
                  && (forall t | t in counts :: counts[t] > 0)
      {
        i := i - 1;
        var f := merged[i];
        if action == Tokenize && !hasKey {
          errors := errors + 1;
          return None, counts;
        }
        HalfwayStep(action, token, value, merged, i);
        CountStep(merged, i);
        var repl := Replacement(action, token, f, text[f.start..f.end]);
        text := text[..f.start] + repl + text[f.end..];
        counts := counts[f.entity := CountOf(counts, f.entity) + 1];
      }
      AllUndone(action, token, value, merged);
      assert merged[0..] == merged;
      out := Some(text);
    }

    /** Adds the counts to the statistics and lists them, by entity. */
    method Report(counts: map<string, nat>) returns (entries: seq<Match>)
      modifies `matches
      ensures forall t :: CountOf(matches, t) == CountOf(old(matches), t) + CountOf(counts, t)
      ensures Lists(entries, counts)
    {
      var keys := SortedKeys(counts);
      entries := [];
      var i := 0;
      while i < |keys|
        invariant i <= |keys| && |entries| == i
        invariant forall j | 0 <= j < i :: entries[j] == Match(keys[j], counts[keys[j]])
        invariant forall t ::
                    CountOf(matches, t) == CountOf(old(matches), t) + if t in keys[..i] then CountOf(counts, t) else 0
      {
        var t := keys[i];
        assert keys[..i + 1] == keys[..i] + [t] && t in keys;
        assert t !in keys[..i] by { NotBefore(keys, i); }
        matches := matches[t := CountOf(matches, t) + counts[t]];
        entries := entries + [Match(t, counts[t])];
        i := i + 1;
      }
      assert keys[..i] == keys;
    }
  }

  /** A line of the redaction manifest. */
  datatype Match = Match(entity: string, matches: nat)

  predicate StrLe(a: string, b: string) { a == b || StrLess(a, b) }

  /** One line for every entity counted, in order. */
  ghost predicate Lists(entries: seq<Match>, counts: map<string, nat>)
  {
    && (forall i, j | 0 <= i < j < |entries| :: StrLess(entries[i].entity, entries[j].entity))
    && (forall i | 0 <= i < |entries| :: entries[i].entity in counts && entries[i].matches == counts[entries[i].entity])
    && (forall t | t in counts :: exists i :: 0 <= i < |entries| && entries[i].entity == t)
  }

  /** One line for every entity among the ranges, in order, with the number of its ranges. */
  ghost predicate Reports(entries: seq<Match>, ms: seq<Finding>)
  {
    && (forall i, j | 0 <= i < j < |entries| :: StrLess(entries[i].entity, entries[j].entity))
    && (forall i | 0 <= i < |entries| :: 0 < entries[i].matches == |Filter(IsEntity(entries[i].entity), ms)|)
    && (forall t | Filter(IsEntity(t), ms) != [] :: exists i :: 0 <= i < |entries| && entries[i].entity == t)
  }

  lemma {:induction false} ReportsCounts(entries: seq<Match>, counts: map<string, nat>, ms: seq<Finding>)
    requires Lists(entries, counts) && (forall t | t in counts :: counts[t] > 0)
    requires forall t :: CountOf(counts, t) == |Filter(IsEntity(t), ms)|
    ensures Reports(entries, ms)
  {
    hide Filter, IsEntity, StrLess;
  }

  lemma NothingReported()
    ensures Reports([], [])
  {
    NoneCounted();
  }

  lemma NotBefore(keys: seq<string>, i: nat)
    requires Distinct(keys) && i < |keys|
    ensures keys[i] !in keys[..i]
  {
  }

  method SortedKeys(m: map<string, nat>) returns (keys: seq<string>)
    ensures Distinct(keys) && (forall t :: t in keys <==> t in m)
    ensures forall i, j | 0 <= i < j < |keys| :: StrLess(keys[i], keys[j])
  {
    var left := m.Keys;
    var found: seq<string> := [];
    while left != {}
      invariant left <= m.Keys && Distinct(found)
      invariant forall t :: t in found <==> t in m && t !in left
      decreases |left|
    {
      var t :| t in left;
      left := left - {t};
      found := found + [t];
    }
    keys := Sort(StrLe, found);
    InOrder(found);
  }

  function Same(t: string): string { t }

  lemma {:induction false} InOrder(found: seq<string>)
    requires Distinct(found)
    ensures var keys := Sort(StrLe, found);
            && Distinct(keys) && (forall t :: t in keys <==> t in found)
            && forall i, j | 0 <= i < j < |keys| :: StrLess(keys[i], keys[j])
  {
    hide Sort, StrLess;
    var keys := Sort(StrLe, found);
    StrLePreorder();
    SortSorted(StrLe, found);
    SortMembers(StrLe, found);
    SortMultiset(StrLe, found);
    assert Dedup.DistinctKeys(Same, found);
    Dedup.PermutedDistinct(Same, found, keys);
    forall i, j | 0 <= i < j < |keys|
      ensures keys[i] != keys[j] && StrLess(keys[i], keys[j])
    {
      assert Same(keys[i]) != Same(keys[j]) && StrLe(keys[i], keys[j]);
    }
  }

  lemma StrLePreorder()
    ensures Preorder(StrLe)
  {
    forall a: string, b: string ensures StrLe(a, b) || StrLe(b, a) { StrTotal(a, b); }
    forall a: string, b: string, c: string | StrLe(a, b) && StrLe(b, c)
      ensures StrLe(a, c)
    {
      if a != b && b != c { StrTransitive(a, b, c); }
    }
  }

  lemma {:induction false} NothingFound(action: Action, token: string -> string, value: string)
    ensures Sort(StartLe, []) == [] && Fits([], 0, |value|) && Splice(action, token, value, [], 0) == value
  {
  }

  lemma {:induction false} SortedUsable(found: seq<Finding>, n: nat)
    requires AllWithin(n, found)
    ensures var s := Sort(StartLe, found);
            Sorted(StartLe, s) && AllWithin(n, s) && Fits(Merge(s), 0, n) && (found != [] ==> s != [] && Merge(s) != [])
  {
    assert Preorder(StartLe);
    SortSorted(StartLe, found);
    SortMembers(StartLe, found);
    MergeMeaning(Sort(StartLe, found), n);
  }

  lemma AllDone(action: Action, token: string -> string, value: string, ms: seq<Finding>)
    requires Fits(ms, 0, |value|)
    ensures Halfway(action, token, value, ms, |ms|) == value
  {
    assert ms[|ms|..] == [];
  }

  lemma {:induction false} AllUndone(action: Action, token: string -> string, value: string, ms: seq<Finding>)
    requires Fits(ms, 0, |value|)
    ensures Halfway(action, token, value, ms, 0) == Splice(action, token, value, ms, 0)
  {
    assert ms[0..] == ms;
  }
}
