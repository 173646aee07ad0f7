/** Closing an episode: the canonical order of its steps, their parent links, and the fidelity
    flags - functions of the spans alone, however the library enumerates and sorts them. */
module Close {
  import opened Basics
  import opened Sorting
  import opened Records
  import opened Episode

  // ---------- the canonical order ----------

  function StartOf(spans: map<string, Envelope>, k: string): int
  {
    if k in spans then spans[k].step.startedAt else 0
  }

  /** By start, then by span id. */
  predicate Less(spans: map<string, Envelope>, a: string, b: string)
  {
    if StartOf(spans, a) != StartOf(spans, b) then StartOf(spans, a) < StartOf(spans, b) else StrLess(a, b)
  }

  lemma LessTotal(spans: map<string, Envelope>, a: string, b: string)
    ensures Less(spans, a, b) || Less(spans, b, a) || a == b
    ensures !(Less(spans, a, b) && Less(spans, b, a)) && !Less(spans, a, a)
  {
    StrTotal(a, b);
  }

  lemma LessTransitive(spans: map<string, Envelope>, a: string, b: string, c: string)
    requires Less(spans, a, b) && Less(spans, b, c)
    ensures Less(spans, a, c)
  {
    if StartOf(spans, a) == StartOf(spans, b) == StartOf(spans, c) { StrTransitive(a, b, c); }
  }

  /** ids lists every span once, each before the next. */
  ghost predicate Canonical(spans: map<string, Envelope>, ids: seq<string>)
  {
    && (forall k :: k in ids <==> k in spans)
    && (forall i, j | 0 <= i < j < |ids| :: Less(spans, ids[i], ids[j]))
  }

  /** There is only one such list: the order carries no trace of how it was found. */
  lemma {:induction false} CanonicalUnique(spans: map<string, Envelope>, a: seq<string>, b: seq<string>)
    requires forall k :: k in a <==> k in b
    requires forall i, j | 0 <= i < j < |a| :: Less(spans, a[i], a[j])
    requires forall i, j | 0 <= i < j < |b| :: Less(spans, b[i], b[j])
    ensures a == b
  {
    if a == [] {
      if b != [] { HeadIn(b); }
    } else {
      SameHead(spans, a, b);
      var x := a[0];
      NotAgain(spans, a);
      NotAgain(spans, b);
      assert forall k :: k in a[1..] <==> k in a && k != x;
      assert forall k :: k in b[1..] <==> k in b && k != x;
      hide Less;
      CanonicalUnique(spans, a[1..], b[1..]);
      assert a == [x] + a[1..] && b == [x] + b[1..];
    }
  }

  lemma HeadIn(b: seq<string>)
    requires b != []
    ensures b[0] in b
  {
  }

  lemma NotAgain(spans: map<string, Envelope>, a: seq<string>)
    requires a != [] && forall i, j | 0 <= i < j < |a| :: Less(spans, a[i], a[j])
    ensures a[0] !in a[1..]
  {
    LessTotal(spans, a[0], a[0]);
    assert forall i | 0 < i < |a| :: Less(spans, a[0], a[i]);
  }

  lemma SameHead(spans: map<string, Envelope>, a: seq<string>, b: seq<string>)
    requires a != [] && forall k :: k in a <==> k in b
    requires forall i, j | 0 <= i < j < |a| :: Less(spans, a[i], a[j])
    requires forall i, j | 0 <= i < j < |b| :: Less(spans, b[i], b[j])
    ensures b != [] && a[0] == b[0]
  {
    hide Less;
    assert a[0] in b;
    assert b[0] in a;
    var i :| 0 <= i < |a| && a[i] == b[0];
    var j :| 0 <= j < |b| && b[j] == a[0];
    LessTotal(spans, a[0], b[0]);
  }

  // ---------- steps ----------

  function IndexOf(ids: seq<string>, k: string): (i: nat)
    ensures i <= |ids|
    ensures i < |ids| ==> ids[i] == k
    ensures i == |ids| ==> k !in ids
  {
    if ids == [] || ids[0] == k then 0 else 1 + IndexOf(ids[1..], k)
  }

  /** A parent link is resolved to the position of the span it names; a parent that is not in
      the episode, or the step itself, leaves what the producer sent. */
  function ParentOf(env: Envelope, ids: seq<string>, i: nat): Option<int>
  {
    var p := IndexOf(ids, env.parentSpanID);
    if env.parentSpanID != "" && p < |ids| && p != i then Some(p) else env.step.parent
  }

  function StepsOf(f: InFlight, ids: seq<string>): (steps: seq<Step>)
    requires forall k | k in ids :: k in f.spans
    ensures |steps| == |ids|
  {
    seq(|ids|, i requires 0 <= i < |ids| =>
      assert ids[i] in ids;
      var env := f.spans[ids[i]];
      env.step.(episodeID := f.episodeID, idx := i, parent := ParentOf(env, ids, i)))
  }

  /** Links never invent anything: with no link preset, a step has a parent exactly when the
      span its envelope names is another span of the episode, and then it is that one. */
  lemma ParentLinks(f: InFlight, ids: seq<string>, i: nat)
    requires Canonical(f.spans, ids) && i < |ids| && f.spans[ids[i]].step.parent == None
    ensures var env := f.spans[ids[i]]; var s := StepsOf(f, ids)[i];
            && (s.parent.Some? <==> env.parentSpanID != "" && env.parentSpanID in f.spans && env.parentSpanID != ids[i])
            && (s.parent.Some? ==> 0 <= s.parent.value < |ids| && ids[s.parent.value] == env.parentSpanID)
  {
    hide Less;
    assert ids[i] in ids;
    var env := f.spans[ids[i]];
    var p := IndexOf(ids, env.parentSpanID);
    if p < |ids| && ids[p] == ids[i] {
      LessTotal(f.spans, ids[i], ids[i]);
      assert p == i;
    }
  }

  /** Collects the span ids in whatever order the map yields them, and sorts them. */
  method OrderedIds(spans: map<string, Envelope>) returns (ids: seq<string>)
    ensures Canonical(spans, ids)
  {
    var left := spans.Keys;
    var found: seq<string> := [];
    while left != {}
      invariant left <= spans.Keys
      invariant forall k :: k in found <==> k in spans && k !in left
      invariant Distinct(found)
      decreases |left|
    {
      var k :| k in left;
      left := left - {k};
      found := found + [k];
    }
    var le := (a: string, b: string) => a == b || Less(spans, a, b);
    ids := Sort(le, found);
    SortCanonical(spans, found, le);
  }

  /** idx holds the position of every id, and nothing else. */
  predicate Indexes(ids: seq<string>, idx: map<string, nat>)
  {
    && (forall k | k in idx :: idx[k] < |ids| && ids[idx[k]] == k)
    && (forall j | 0 <= j < |ids| :: ids[j] in idx)
  }

  /** Maps each span id to its position. */
  method Positions(ids: seq<string>) returns (idx: map<string, nat>)
    ensures Indexes(ids, idx)
  {
    idx := map[];
    var i := 0;
    while i < |ids|
      invariant i <= |ids|
      invariant forall k | k in idx :: idx[k] < i && ids[idx[k]] == k
      invariant forall j | 0 <= j < i :: ids[j] in idx
    {
      idx := idx[ids[i] := i];
      i := i + 1;
    }
  }

  /** The step of one envelope, numbered and linked through the positions. */
  function Linked(env: Envelope, episodeID: string, idx: map<string, nat>, i: nat): Step
  {
    var k := env.parentSpanID;
    env.step.(episodeID := episodeID, idx := i,
              parent := if k != "" && k in idx && idx[k] != i then Some(idx[k]) else env.step.parent)
  }

  /** The canonical steps, whatever order the map yields its spans in. */
  method OrderedSteps(f: InFlight) returns (ids: seq<string>, steps: seq<Step>)
    ensures Canonical(f.spans, ids) && steps == StepsOf(f, ids)
  {
    hide Canonical, StepsOf, Indexes, Linked;
    ids := OrderedIds(f.spans);
    var idx := Positions(ids);
    CanonicalMembers(f.spans, ids);
    StepsLength(f, ids);
    ghost var all := StepsOf(f, ids);
    steps := [];
    var i := 0;
    while i < |ids|
      invariant i <= |ids| == |all| && steps == all[..i]
    {
      LinkedIs(f, ids, idx, i);
      steps := steps + [Linked(f.spans[ids[i]], f.episodeID, idx, i)];
      i := i + 1;
    }
  }

  /** The linked step is the canonical one. */
  lemma LinkedIs(f: InFlight, ids: seq<string>, idx: map<string, nat>, i: nat)
    requires Canonical(f.spans, ids) && Indexes(ids, idx) && i < |ids|
    requires (forall k | k in ids :: k in f.spans) && |StepsOf(f, ids)| == |ids|
    ensures ids[i] in f.spans && StepsOf(f, ids)[i] == Linked(f.spans[ids[i]], f.episodeID, idx, i)
  {
    hide Canonical, Indexes, StepsOf, ParentOf;
    assert ids[i] in ids;
    StepAt(f, ids, i);
    Indexed(f.spans, ids, idx, f.spans[ids[i]], i);
  }

  lemma StepsLength(f: InFlight, ids: seq<string>)
    requires forall k | k in ids :: k in f.spans
    ensures |StepsOf(f, ids)| == |ids|
  {
  }

  lemma StepAt(f: InFlight, ids: seq<string>, i: nat)
    requires (forall k | k in ids :: k in f.spans) && i < |ids| && ids[i] in f.spans && |StepsOf(f, ids)| == |ids|
    ensures var env := f.spans[ids[i]];
            StepsOf(f, ids)[i] == env.step.(episodeID := f.episodeID, idx := i, parent := ParentOf(env, ids, i))
  {
  }

  lemma CanonicalMembers(spans: map<string, Envelope>, ids: seq<string>)
    requires Canonical(spans, ids)
    ensures forall k | k in ids :: k in spans
  {
  }

  lemma Indexed(spans: map<string, Envelope>, ids: seq<string>, idx: map<string, nat>, env: Envelope, i: nat)
    requires Canonical(spans, ids) && Indexes(ids, idx)
    ensures var k := env.parentSpanID;
            ParentOf(env, ids, i) == if k != "" && k in idx && idx[k] != i then Some(idx[k]) else env.step.parent
  {
    hide Less;
    var k := env.parentSpanID;
    var p := IndexOf(ids, k);
    if k in idx {
      assert ids[idx[k]] in ids;
      LessTotal(spans, k, k);
    }
  }

  lemma {:induction false} SortCanonical(spans: map<string, Envelope>, found: seq<string>, le: (string, string) -> bool)
    requires forall a, b :: le(a, b) <==> a == b || Less(spans, a, b)
    requires Distinct(found) && forall k :: k in found <==> k in spans
    ensures Canonical(spans, Sort(le, found))
  {
    var ids := Sort(le, found);
    assert Preorder(le) by { OrderIsPreorder(spans, le); }
    SortSorted(le, found);
    SortMembers(le, found);
    SortMultiset(le, found);
    DistinctMultiset(found);
    forall i, j | 0 <= i < j < |ids|
      ensures Less(spans, ids[i], ids[j])
    {
      assert le(ids[i], ids[j]);
      if ids[i] == ids[j] {
        TwiceMultiset(ids, i, j);
        assert false;
      }
    }
  }

  lemma OrderIsPreorder(spans: map<string, Envelope>, le: (string, string) -> bool)
    requires forall a, b :: le(a, b) <==> a == b || Less(spans, a, b)
    ensures Preorder(le)
  {
    hide Less;
    forall a, b
      ensures le(a, b) || le(b, a)
    {
      LessTotal(spans, a, b);
    }
    forall a, b, c | le(a, b) && le(b, c)
      ensures le(a, c)
    {
      if a != b && b != c { LessTransitive(spans, a, b, c); }
    }
  }

  lemma {:induction false} DistinctMultiset(s: seq<string>)
    requires Distinct(s)
    ensures forall x :: multiset(s)[x] <= 1
  {
    if s != [] {
      DistinctMultiset(s[1..]);
      assert s == [s[0]] + s[1..];
      assert s[0] !in s[1..];
    }
  }

  lemma TwiceMultiset(s: seq<string>, i: nat, j: nat)
    requires i < j < |s| && s[i] == s[j]
    ensures multiset(s)[s[i]] >= 2
  {
    assert s == s[..j] + [s[j]] + s[j + 1..];
    assert s[i] in s[..j];
  }

  // ---------- fidelity ----------

  predicate AllCarry(steps: seq<Step>, kind: string, has: Step -> bool)
  {
    && (exists i :: 0 <= i < |steps| && steps[i].kind == kind)
    && (forall i | 0 <= i < |steps| && steps[i].kind == kind :: has(steps[i]))
  }

  /** A flag is set exactly when some step could carry the field and every such step does. */
  method FidelityOf(steps: seq<Step>) returns (fid: Fidelity)
    ensures fid.hasParams <==> AllCarry(steps, KIND_LLM, (s: Step) => s.hasParams)
    ensures fid.hasTokenSpans <==> AllCarry(steps, KIND_LLM, (s: Step) => s.tokenSpans > 0)
    ensures fid.hasToolVersions <==> AllCarry(steps, KIND_TOOL, (s: Step) => s.hasToolVersion)
  {
    if |steps| == 0 { return Fidelity(false, false, false); }
    fid := Fidelity(true, true, true);
    var sawLLM, sawTool := false, false;
    var i := 0;
    while i < |steps|
      invariant i <= |steps|
      invariant sawLLM <==> exists j :: 0 <= j < i && steps[j].kind == KIND_LLM
      invariant sawTool <==> exists j :: 0 <= j < i && steps[j].kind == KIND_TOOL
      invariant fid.hasParams <==> forall j | 0 <= j < i && steps[j].kind == KIND_LLM :: steps[j].hasParams
      invariant fid.hasTokenSpans <==> forall j | 0 <= j < i && steps[j].kind == KIND_LLM :: steps[j].tokenSpans > 0
      invariant fid.hasToolVersions <==> forall j | 0 <= j < i && steps[j].kind == KIND_TOOL :: steps[j].hasToolVersion
    {
      var s := steps[i];
      if s.kind == KIND_LLM {
        sawLLM := true;
        if !s.hasParams { fid := fid.(hasParams := false); }
        if s.tokenSpans == 0 { fid := fid.(hasTokenSpans := false); }
      }
      if s.kind == KIND_TOOL {
        sawTool := true;
        if !s.hasToolVersion { fid := fid.(hasToolVersions := false); }
      }
      i := i + 1;
    }
    if !sawLLM { fid := fid.(hasParams := false, hasTokenSpans := false); }
    if !sawTool { fid := fid.(hasToolVersions := false); }
  }

  /** The whole of an episode's steps - contents, order, numbers, parent links, and with them
      the fidelity flags - is the same for any two arrival orders of the same envelopes. */
  lemma {:induction false} StepsIndependent(syn: Step -> string, f: InFlight, xs: seq<Arrival>, ys: seq<Arrival>,
                                            a: seq<string>,
                         b: seq<string>)
    requires Blank(f) && SameEnvelopes(xs, ys) && UniqueEarliest(syn, Sent(xs))
    requires Canonical(AbsorbAll(syn, f, xs).spans, a) && Canonical(AbsorbAll(syn, f, ys).spans, b)
    ensures a == b && StepsOf(AbsorbAll(syn, f, xs), a) == StepsOf(AbsorbAll(syn, f, ys), b)
  {
    hide Less, AbsorbAll, UniqueEarliest, Sent, ParentOf;
    OrderIndependence(syn, f, xs);
    var p, q := AbsorbAll(syn, f, xs), AbsorbAll(syn, f, ys);
    assert SameEnvelopes(xs, xs);
    assert p.spans == q.spans;
    CanonicalUnique(p.spans, a, b);
    SameId(syn, f, xs);
    SameId(syn, f, ys);
    assert StepsOf(p, a) == StepsOf(q, b);
  }

  lemma {:induction false} SameId(syn: Step -> string, f: InFlight, xs: seq<Arrival>)
    ensures AbsorbAll(syn, f, xs).episodeID == f.episodeID && AbsorbAll(syn, f, xs).key == f.key
  {
    if xs != [] { SameId(syn, f, xs[..|xs| - 1]); }
  }
}
