/** The assembler as a state machine: sessions open, close, are remembered for a while and are
    patched when a span comes late. Its memory is bounded in every reachable state, and no
    span is ever lost. */
module Assembling {
  import opened Basics
  import opened Records
  import opened Episode

  /** Limits are positive: New replaces anything else by its defaults. */
  datatype Config = Config(maxInFlight: nat, patchMemory: nat, window: int, settle: int, syn: Step -> string)

  predicate Configured(c: Config) { c.maxInFlight >= 1 && c.patchMemory >= 1 }

  const PATCH_IDX_BASE: nat := 1048576

  /** What is handed to emit: a closed episode, or a late span as a patch of one. */
  datatype Out =
    | Closed(f: InFlight, status: Status)
    | Patch(session: string, span: string, episodeID: string, env: Envelope, idx: nat)

  datatype Asm = Asm(
    open: map<string, InFlight>, order: seq<string>,
    emitted: map<string, string>, fifo: seq<string>, patchIdx: map<string, nat>,
    spansOut: map<string, set<string>>, out: seq<Out>)

  const NEW := Asm(map[], [], map[], [], map[], map[], [])

  // ---------- operations ----------

  function Remove(order: seq<string>, k: string): (r: seq<string>)
  {
    if order == [] then [] else (if order[0] == k then [] else [order[0]]) + Remove(order[1..], k)
  }

  /** Forgets the oldest closed sessions while there are too many. */
  function Trim(a: Asm, limit: nat): (r: Asm)
    decreases |a.fifo|
  {
    if |a.fifo| <= limit then a
    else
      var oldest := a.fifo[0];
      var b := a.(fifo := a.fifo[1..]);
      Trim(if oldest in a.emitted
           then b.(emitted := a.emitted - {oldest}, patchIdx := a.patchIdx - {a.emitted[oldest]},
                   spansOut := a.spansOut - {oldest})
           else b, limit)
  }

  function Remember(c: Config, a: Asm, key: string, id: string): (r: Asm)
  {
    Trim(a.(fifo := if key in a.emitted then a.fifo else a.fifo + [key], emitted := a.emitted[key := id]),
         c.patchMemory)
  }

  function Mark(a: Asm, session: string, spans: set<string>): (r: Asm)
  {
    a.(spansOut := a.spansOut[session := (if session in a.spansOut then a.spansOut[session] else {}) + spans])
  }

  /** Finalises an open episode and removes it from the open set. */
  function CloseOne(c: Config, a: Asm, key: string, status: Status): (r: Asm)
    requires key in a.open
  {
    var f := a.open[key];
    var b := Remember(c, a.(open := a.open - {key}, order := Remove(a.order, key)), f.key, f.episodeID);
    // with no spans nothing is marked
    var m := if f.spans == map[] then b else Mark(b, f.key, f.spans.Keys);
    m.(out := m.out + [Closed(f, status)])
  }

  /** Settled after its terminal marker, or idle for the whole window. */
  function Due(c: Config, f: InFlight, now: int): Option<Status>
  {
    if f.terminalAt.Some? && now >= f.terminalAt.value + c.settle then Some(Complete)
    else if f.lastSeen <= now - c.window then Some(TimedOut)
    else None
  }

  function ExpireEach(c: Config, a: Asm, keys: seq<string>, now: int): (r: Asm)
    decreases |keys|
  {
    if keys == [] then a
    else
      var k := keys[0];
      var b := if k in a.open && Due(c, a.open[k], now).Some? then CloseOne(c, a, k, Due(c, a.open[k], now).value)
               else a;
      ExpireEach(c, b, keys[1..], now)
  }

  function Expire(c: Config, a: Asm, now: int): (r: Asm) { ExpireEach(c, a, a.order, now) }

  /** An episode that has its terminal marker is complete even if the process is stopping. */
  function FlushStatus(f: InFlight, fallback: Status): Status
  {
    if f.terminalAt.Some? then Complete else fallback
  }

  function FlushEach(c: Config, a: Asm, keys: seq<string>, fallback: Status): (r: Asm)
    decreases |keys|
  {
    if keys == [] then a
    else
      var k := keys[0];
      FlushEach(c, if k in a.open then CloseOne(c, a, k, FlushStatus(a.open[k], fallback)) else a, keys[1..], fallback)
  }

  function Flush(c: Config, a: Asm, fallback: Status): (r: Asm) { FlushEach(c, a, a.order, fallback) }

  function PatchLate(a: Asm, session: string, span: string, env: Envelope): (r: Asm)
    requires session in a.emitted
  {
    var id := a.emitted[session];
    var idx := if id in a.patchIdx then a.patchIdx[id] else PATCH_IDX_BASE;
    Mark(a, session, {span}).(patchIdx := a.patchIdx[id := idx + 1],
                              out := a.out + [Patch(session, span, id, env, idx)])
  }

  /** Makes room if needed and opens an episode for a session not seen before, or forgotten. */
  function OpenSession(c: Config, a: Asm, session: string, env: Envelope, now: int, freshID: string): (r: Asm)
  {
    var b := if |a.order| >= c.maxInFlight && a.order != [] && a.order[0] in a.open
             then CloseOne(c, a, a.order[0], Evicted) else a;
    var id := if env.episodeID == "" then freshID else env.episodeID;
    var f := InFlight(session, id, now, 0, NO_META, env.source, None, None, map[], 0, 0);
    b.(open := b.open[session := f], order := b.order + [session])
  }

  /** An event of a run. freshKey and freshID are what NewID would return; due is the clock
      when Add looks for episodes to expire. */
  datatype Event =
    | Add(env: Envelope, now: int, due: int, freshKey: string, freshID: string)
    | Tick(now: int)
    | Stop(fallback: Status)

  function Session(ev: Event): string
    requires ev.Add?
  {
    if ev.env.sessionKey == "" then ev.freshKey else ev.env.sessionKey
  }

  function AddOne(c: Config, a: Asm, ev: Event): (r: Asm)
    requires ev.Add?
  {
    var s, k := Session(ev), SpanKey(c.syn, ev.env);
    if s !in a.open && s in a.emitted then
      if s in a.spansOut && k in a.spansOut[s] then a else PatchLate(a, s, k, ev.env)
    else
      var b := if s in a.open then a else OpenSession(c, a, s, ev.env, ev.now, ev.freshID);
      if s !in b.open then b
      else Expire(c, b.(open := b.open[s := Absorb(c.syn, b.open[s], ev.env, ev.now)]), ev.due)
  }

  function Apply(c: Config, a: Asm, ev: Event): (r: Asm)
  {
    match ev
    case Add(_, _, _, _, _) => AddOne(c, a, ev)
    case Tick(now) => Expire(c, a, now)
    case Stop(fallback) => Flush(c, a, fallback)
  }

  function Run(c: Config, evs: seq<Event>): (a: Asm)
  {
    if evs == [] then NEW else Apply(c, Run(c, evs[..|evs| - 1]), evs[|evs| - 1])
  }

  // ---------- bounded memory ----------

  ghost predicate Lists<T(!new)>(s: seq<T>, keys: set<T>) { Distinct(s) && forall x :: x in s <==> x in keys }

  ghost predicate Consistent(a: Asm)
  {
    && Lists(a.order, a.open.Keys)
    && Lists(a.fifo, a.emitted.Keys)
    && a.open.Keys !! a.emitted.Keys
    && a.spansOut.Keys <= a.emitted.Keys
    && (forall id | id in a.patchIdx :: exists s :: s in a.emitted && a.emitted[s] == id)
    && (forall k | k in a.open :: a.open[k].key == k)
  }

  ghost predicate Bounded(c: Config, a: Asm)
  {
    Consistent(a) && |a.order| <= c.maxInFlight && |a.fifo| <= c.patchMemory
  }

  lemma {:induction false} RemoveLists(order: seq<string>, k: string, keys: set<string>)
    requires Lists(order, keys)
    ensures Lists(Remove(order, k), keys - {k})
    ensures |Remove(order, k)| == if k in keys then |order| - 1 else |order|
  {
    if order != [] {
      var x, rest := order[0], order[1..];
      assert forall y :: y in order <==> y == x || y in rest;
      assert x !in rest;
      RemoveLists(rest, k, keys - {x});
      if x == k {
        assert keys - {x} - {k} == keys - {k};
      } else {
        assert keys - {x} - {k} + {x} == keys - {k};
      }
    }
  }

  lemma ListsSnoc<T(!new)>(s: seq<T>, keys: set<T>, x: T)
    requires Lists(s, keys) && x !in keys
    ensures Lists(s + [x], keys + {x})
  {
  }

  lemma {:induction false} ListsLength<T(!new)>(s: seq<T>, keys: set<T>)
    requires Lists(s, keys)
    ensures |s| == |keys|
  {
    if s == [] {
      assert forall x :: x !in keys;
      assert keys == {};
    } else {
      var x, rest := s[0], s[1..];
      assert forall y :: y in s <==> y == x || y in rest;
      assert x !in rest;
      ListsLength(rest, keys - {x});
    }
  }

  /** One session forgotten. */
  function Forget(a: Asm): (r: Asm)
    requires a.fifo != [] && a.fifo[0] in a.emitted
  {
    var oldest := a.fifo[0];
    a.(fifo := a.fifo[1..], emitted := a.emitted - {oldest},
       patchIdx := a.patchIdx - {a.emitted[oldest]}, spansOut := a.spansOut - {oldest})
  }

  lemma ForgetConsistent(a: Asm)
    requires Consistent(a) && a.fifo != []
    ensures a.fifo[0] in a.emitted && Consistent(Forget(a)) && |Forget(a).fifo| == |a.fifo| - 1
  {
    var x, rest := a.fifo[0], a.fifo[1..];
    assert x in a.fifo;
    var r := Forget(a);
    assert forall y :: y in a.fifo <==> y == x || y in rest;
    assert x !in rest;
    forall id | id in r.patchIdx
      ensures exists s :: s in r.emitted && r.emitted[s] == id
    {
      var s :| s in a.emitted && a.emitted[s] == id;
      assert s != x;
      assert s in r.emitted;
    }
  }

  /** Remembering one more closed session forgets at most the oldest one. */
  lemma RememberBounded(c: Config, a: Asm, key: string, id: string)
    requires Configured(c) && Consistent(a) && |a.fifo| <= c.patchMemory && key !in a.emitted && key !in a.open
    ensures var r := Remember(c, a, key, id);
            && Consistent(r) && |r.fifo| <= c.patchMemory && key in r.emitted
            && r.open == a.open && r.order == a.order && r.out == a.out
            && r.emitted.Keys <= a.emitted.Keys + {key}
            && (forall s | s in r.spansOut :: s in a.spansOut && r.spansOut[s] == a.spansOut[s])
            && (|a.fifo| < c.patchMemory ==>
                  && r.emitted == a.emitted[key := id] && r.spansOut == a.spansOut
                  && r.patchIdx == a.patchIdx && |r.fifo| == |a.fifo| + 1)
  {
    var b := a.(fifo := a.fifo + [key], emitted := a.emitted[key := id]);
    RememberConsistent(a, key, id);
    TrimOnce(b, c.patchMemory);
    if |b.fifo| > c.patchMemory {
      hide Consistent;
      assert b.fifo[0] == a.fifo[0];
      assert key != a.fifo[0] by { HeadEmitted(a); }
    }
  }

  lemma HeadEmitted(a: Asm)
    requires Consistent(a) && a.fifo != []
    ensures a.fifo[0] in a.emitted
  {
    assert a.fifo[0] in a.fifo;
  }

  lemma {:induction false} TrimOnce(b: Asm, limit: nat)
    requires Consistent(b) && |b.fifo| <= limit + 1
    ensures |b.fifo| <= limit ==> Trim(b, limit) == b
    ensures |b.fifo| == limit + 1 ==> b.fifo[0] in b.emitted && Trim(b, limit) == Forget(b) && Consistent(Forget(b))
  {
    if |b.fifo| == limit + 1 {
      ForgetConsistent(b);
      hide Consistent;
      var r := Forget(b);
      assert Trim(r, limit) == r;
      assert Trim(b, limit) == Trim(r, limit);
    }
  }

  lemma RememberConsistent(a: Asm, key: string, id: string)
    requires Consistent(a) && key !in a.emitted && key !in a.open
    ensures Consistent(a.(fifo := a.fifo + [key], emitted := a.emitted[key := id]))
  {
    ListsSnoc(a.fifo, a.emitted.Keys, key);
    var b := a.(fifo := a.fifo + [key], emitted := a.emitted[key := id]);
    assert b.emitted.Keys == a.emitted.Keys + {key};
    forall x | x in b.patchIdx
      ensures exists s :: s in b.emitted && b.emitted[s] == x
    {
      var s :| s in a.emitted && a.emitted[s] == x;
      assert s in b.emitted && b.emitted[s] == x;
    }
  }

  lemma {:induction false} RemovedConsistent(a: Asm, key: string)
    requires Consistent(a) && key in a.open
    ensures Consistent(a.(open := a.open - {key}, order := Remove(a.order, key)))
    ensures |Remove(a.order, key)| == |a.order| - 1 && a.open[key].key == key && key !in a.emitted
  {
    RemoveLists(a.order, key, a.open.Keys);
    assert (a.open - {key}).Keys == a.open.Keys - {key};
  }

  /** What closing one episode does to everything that is kept. */
  lemma {:induction false} CloseOneBounded(c: Config, a: Asm, key: string, status: Status)
    requires Configured(c) && Bounded(c, a) && key in a.open
    ensures var r := CloseOne(c, a, key, status);
            && Bounded(c, r) && r.open == a.open - {key} && |r.order| == |a.order| - 1
            && r.order == Remove(a.order, key) && r.out == a.out + [Closed(a.open[key], status)]
  {
    hide Remember, Consistent;
    var f := a.open[key];
    var b := a.(open := a.open - {key}, order := Remove(a.order, key));
    RemovedConsistent(a, key);
    RememberBounded(c, b, f.key, f.episodeID);
    MarkConsistent(Remember(c, b, f.key, f.episodeID), key, f.spans.Keys, [Closed(f, status)]);
  }

  lemma MarkConsistent(a: Asm, key: string, spans: set<string>, more: seq<Out>)
    requires Consistent(a) && key in a.emitted
    ensures var m := Mark(a, key, spans);
            && Consistent(m.(out := m.out + more)) && Consistent(a.(out := a.out + more))
            && m.order == a.order && m.open == a.open && m.fifo == a.fifo && m.out == a.out
  {
  }

  /** Seen within the window, and not yet settled after a terminal marker. */
  predicate Waits(c: Config, f: InFlight, now: int)
  {
    now - c.window < f.lastSeen && (f.terminalAt.Some? ==> now < f.terminalAt.value + c.settle)
  }

  /** The status a deadline gives: complete once settled after the terminal marker, else timed
      out after a whole window without a span. */
  predicate ExpiredAs(c: Config, f: InFlight, status: Status, now: int)
  {
    if f.terminalAt.Some? && f.terminalAt.value + c.settle <= now then status == Complete
    else status == TimedOut && f.lastSeen + c.window <= now
  }

  /** What leaves the open set between two states is what comes out, in some order, as it was. */
  ghost predicate Emits(a: Asm, r: Asm)
  {
    && r.open.Keys <= a.open.Keys && (forall k | k in r.open :: r.open[k] == a.open[k]) && a.out <= r.out
    && (forall i | |a.out| <= i < |r.out| ::
          && r.out[i].Closed? && r.out[i].f.key in a.open && r.out[i].f.key !in r.open
          && r.out[i].f == a.open[r.out[i].f.key])
    && (forall k | k in a.open && k !in r.open :: exists i :: |a.out| <= i < |r.out| && r.out[i].f == a.open[k])
  }

  lemma CloseEmits(c: Config, a: Asm, k: string, status: Status, r: Asm)
    requires Configured(c) && Bounded(c, a) && k in a.open && Emits(CloseOne(c, a, k, status), r)
    ensures Emits(a, r) && |r.out| > |a.out| && r.out[|a.out|] == Closed(a.open[k], status)
  {
    CloseOneBounded(c, a, k, status);
    hide CloseOne, Emits;
    OneMoreEmits(a, k, status, CloseOne(c, a, k, status), r);
  }

  lemma OneMoreEmits(a: Asm, k: string, status: Status, b: Asm, r: Asm)
    requires k in a.open && a.open[k].key == k && Emits(b, r)
    requires b.open == a.open - {k} && b.out == a.out + [Closed(a.open[k], status)]
    ensures Emits(a, r) && |r.out| > |a.out| && r.out[|a.out|] == Closed(a.open[k], status)
  {
    assert b.out[|a.out|] == Closed(a.open[k], status);
    forall x | x in a.open && x !in r.open
      ensures exists i :: |a.out| <= i < |r.out| && r.out[i].f == a.open[x]
    {
      if x != k { var i :| |b.out| <= i < |r.out| && r.out[i].f == b.open[x]; assert r.out[i].f == a.open[x]; }
    }
  }

  lemma NothingEmits(a: Asm)
    ensures Emits(a, a)
  {
  }

  lemma DueMeans(c: Config, f: InFlight, now: int)
    ensures var d := Due(c, f, now); if d.None? then Waits(c, f, now) else ExpiredAs(c, f, d.value, now)
  {
  }

  lemma {:induction false} ExpireEachBounded(c: Config, a: Asm, keys: seq<string>, now: int)
    requires Configured(c) && Bounded(c, a)
    ensures var r := ExpireEach(c, a, keys, now);
            && Bounded(c, r) && Emits(a, r)
            && (forall k | k in r.open && k in keys :: Waits(c, r.open[k], now))
            && (forall i | |a.out| <= i < |r.out| :: ExpiredAs(c, r.out[i].f, r.out[i].status, now))
    decreases |keys|
  {
    hide Bounded, CloseOne, Due, Waits, ExpiredAs, Emits;
    if keys == [] {
      NothingEmits(a);
    } else {
      var k := keys[0];
      var due := if k in a.open then Due(c, a.open[k], now) else None;
      if k in a.open { DueMeans(c, a.open[k], now); }
      var b := if due.Some? then CloseOne(c, a, k, due.value) else a;
      if due.Some? { CloseOneBounded(c, a, k, due.value); }
      ExpireEachBounded(c, b, keys[1..], now);
      var r := ExpireEach(c, a, keys, now);
      if due.Some? { CloseEmits(c, a, k, due.value, r); }
      EmitsOpen(b, r);
      assert forall x :: x in keys <==> x == k || x in keys[1..];
    }
  }

  /** One turn of the loop. */
  lemma {:induction false} ExpireStep(c: Config, a: Asm, keys: seq<string>, i: nat, now: int)
    requires i < |keys|
    ensures var k := keys[i];
            if k !in a.open then ExpireEach(c, a, keys[i..], now) == ExpireEach(c, a, keys[i + 1..], now)
            else
              var f := a.open[k];
              if f.terminalAt.Some? && now >= f.terminalAt.value + c.settle then
                ExpireEach(c, a, keys[i..], now) == ExpireEach(c, CloseOne(c, a, k, Complete), keys[i + 1..], now)
              else if f.lastSeen <= now - c.window then
                ExpireEach(c, a, keys[i..], now) == ExpireEach(c, CloseOne(c, a, k, TimedOut), keys[i + 1..], now)
              else ExpireEach(c, a, keys[i..], now) == ExpireEach(c, a, keys[i + 1..], now)
  {
    hide CloseOne;
    assert keys[i..][0] == keys[i] && keys[i..][1..] == keys[i + 1..];
  }

  lemma EmitsOpen(a: Asm, r: Asm)
    requires Emits(a, r)
    ensures forall k | k in r.open :: k in a.open && r.open[k] == a.open[k]
    ensures a.out <= r.out && forall i | |a.out| <= i < |r.out| :: r.out[i].Closed?
  {
  }

  /** After expiring, no episode that is still open has reached either deadline; those that left
      came out once each, as they were, with the status of the deadline they reached. */
  lemma ExpireBounded(c: Config, a: Asm, now: int)
    requires Configured(c) && Bounded(c, a)
    ensures var r := Expire(c, a, now);
            && Bounded(c, r) && Emits(a, r)
            && (forall k | k in r.open :: Waits(c, r.open[k], now))
            && (forall i | |a.out| <= i < |r.out| :: ExpiredAs(c, r.out[i].f, r.out[i].status, now))
  {
    hide Waits, ExpiredAs;
    ExpireEachBounded(c, a, a.order, now);
    assert forall k | k in a.open :: k in a.order;
  }

  /** Stopped: complete if the terminal marker had come, whatever the status given. */
  predicate StoppedAs(f: InFlight, status: Status, fallback: Status)
  {
    (f.terminalAt.Some? ==> status == Complete) && (f.terminalAt.None? ==> status == fallback)
  }

  lemma {:induction false} FlushEachBounded(c: Config, a: Asm, keys: seq<string>, fallback: Status)
    requires Configured(c) && Bounded(c, a)
    ensures var r := FlushEach(c, a, keys, fallback);
            && Bounded(c, r) && Emits(a, r) && (forall k | k in r.open :: k in a.open && k !in keys)
            && (forall i | |a.out| <= i < |r.out| :: StoppedAs(r.out[i].f, r.out[i].status, fallback))
    decreases |keys|
  {
    hide Bounded, CloseOne, Emits;
    if keys == [] {
      NothingEmits(a);
    } else {
      var k := keys[0];
      var st := if k in a.open then FlushStatus(a.open[k], fallback) else fallback;
      var b := if k in a.open then CloseOne(c, a, k, st) else a;
      if k in a.open { CloseOneBounded(c, a, k, st); }
      FlushEachBounded(c, b, keys[1..], fallback);
      var r := FlushEach(c, a, keys, fallback);
      if k in a.open { CloseEmits(c, a, k, st, r); }
      EmitsOpen(b, r);
      assert forall x :: x in keys <==> x == k || x in keys[1..];
    }
  }

  /** Stopping closes everything, each episode once and as it was. */
  lemma FlushBounded(c: Config, a: Asm, fallback: Status)
    requires Configured(c) && Bounded(c, a)
    ensures var r := Flush(c, a, fallback);
            && Bounded(c, r) && r.open == map[] && Emits(a, r)
            && (forall i | |a.out| <= i < |r.out| :: StoppedAs(r.out[i].f, r.out[i].status, fallback))
  {
    FlushEachBounded(c, a, a.order, fallback);
    assert forall k | k in a.open :: k in a.order;
    assert Flush(c, a, fallback).open.Keys == {};
  }

  lemma PatchBounded(c: Config, a: Asm, session: string, span: string, env: Envelope)
    requires Bounded(c, a) && session in a.emitted
    ensures Bounded(c, PatchLate(a, session, span, env))
  {
    var r := PatchLate(a, session, span, env);
    assert r.emitted == a.emitted;
    forall id | id in r.patchIdx
      ensures exists s :: s in r.emitted && r.emitted[s] == id
    {
      if id in a.patchIdx {
        var s :| s in a.emitted && a.emitted[s] == id;
        assert s in r.emitted;
      } else {
        assert r.emitted[session] == id;
      }
    }
  }

  lemma OpenSessionBounded(c: Config, a: Asm, session: string, env: Envelope, now: int, freshID: string)
    requires Configured(c) && Bounded(c, a) && session !in a.open && session !in a.emitted
    ensures var r := OpenSession(c, a, session, env, now, freshID);
            && Bounded(c, r) && session in r.open && r.open[session].spans == map[] && r.open[session].key == session
  {
    hide CloseOne, Consistent;
    if |a.order| >= c.maxInFlight {
      OldestOpen(a);
      CloseOneBounded(c, a, a.order[0], Evicted);
      ClosedKeys(c, a, a.order[0], Evicted);
    }
    var b := if |a.order| >= c.maxInFlight then CloseOne(c, a, a.order[0], Evicted) else a;
    PushConsistent(b, session, OpenSession(c, a, session, env, now, freshID).open[session]);
  }

  lemma OldestOpen(a: Asm)
    requires Consistent(a) && a.order != []
    ensures a.order[0] in a.open
  {
    assert a.order[0] in a.order;
  }

  lemma PushConsistent(b: Asm, session: string, f: InFlight)
    requires Consistent(b) && session !in b.open && session !in b.emitted && f.key == session
    ensures Consistent(b.(open := b.open[session := f], order := b.order + [session]))
  {
    ListsSnoc(b.order, b.open.Keys, session);
    assert b.open[session := f].Keys == b.open.Keys + {session};
  }

  /** Closing adds no session but its own to those remembered. */
  lemma ClosedKeys(c: Config, a: Asm, key: string, status: Status)
    requires Configured(c) && Bounded(c, a) && key in a.open
    ensures CloseOne(c, a, key, status).emitted.Keys <= a.emitted.Keys + {key}
  {
    hide Remember;
    var f := a.open[key];
    var b := a.(open := a.open - {key}, order := Remove(a.order, key));
    RemoveLists(a.order, key, a.open.Keys);
    assert b.open.Keys == a.open.Keys - {key};
    RememberBounded(c, b, f.key, f.episodeID);
  }

  lemma AbsorbKeeps(syn: Step -> string, f: InFlight, env: Envelope, now: int)
    ensures var g := Absorb(syn, f, env, now);
            g.key == f.key && g.episodeID == f.episodeID && g.spans.Keys == f.spans.Keys + {SpanKey(syn, env)}
  {
  }

  /** What Add looks at before it expires: the session is open and has absorbed the span. */
  function Absorbed(c: Config, a: Asm, ev: Event): (r: Asm)
    requires ev.Add?
  {
    var s := Session(ev);
    var b := if s in a.open then a else OpenSession(c, a, s, ev.env, ev.now, ev.freshID);
    if s !in b.open then b else b.(open := b.open[s := Absorb(c.syn, b.open[s], ev.env, ev.now)])
  }

  lemma AbsorbedBounded(c: Config, a: Asm, ev: Event)
    requires Configured(c) && Bounded(c, a) && ev.Add? && (Session(ev) in a.open || Session(ev) !in a.emitted)
    ensures var r := Absorbed(c, a, ev); var s := Session(ev);
            && Bounded(c, r) && s in r.open && SpanKey(c.syn, ev.env) in r.open[s].spans
    ensures AddOne(c, a, ev) == Expire(c, Absorbed(c, a, ev), ev.due)
  {
    hide CloseOne, OpenSession, Absorb, Expire;
    var s := Session(ev);
    if s !in a.open { OpenSessionBounded(c, a, s, ev.env, ev.now, ev.freshID); }
    var b := if s in a.open then a else OpenSession(c, a, s, ev.env, ev.now, ev.freshID);
    AbsorbKeeps(c.syn, b.open[s], ev.env, ev.now);
    var r := Absorbed(c, a, ev);
    assert r.open.Keys == b.open.Keys;
  }

  lemma ApplyBounded(c: Config, a: Asm, ev: Event)
    requires Configured(c) && Bounded(c, a)
    ensures Bounded(c, Apply(c, a, ev))
  {
    hide Bounded, Expire, Flush, PatchLate, Absorbed;
    match ev
    case Add(_, _, _, _, _) =>
      var s := Session(ev);
      if s !in a.open && s in a.emitted {
        PatchBounded(c, a, s, SpanKey(c.syn, ev.env), ev.env);
      } else {
        AbsorbedBounded(c, a, ev);
        ExpireBounded(c, Absorbed(c, a, ev), ev.due);
      }
    case Tick(now) => ExpireBounded(c, a, now);
    case Stop(fallback) => FlushBounded(c, a, fallback);
  }

  /** Bounded memory in every reachable state: open episodes within MaxInFlight and listed once
      each in creation order, remembered sessions within PatchMemory and listed once each,
      never both open and remembered, span and patch bookkeeping only for remembered ones. */
  lemma {:induction false} RunBounded(c: Config, evs: seq<Event>)
    requires Configured(c)
    ensures Bounded(c, Run(c, evs))
  {
    hide Bounded, Apply;
    if evs == [] {
      NewBounded(c);
    } else {
      RunBounded(c, evs[..|evs| - 1]);
      ApplyBounded(c, Run(c, evs[..|evs| - 1]), evs[|evs| - 1]);
    }
  }

  lemma NewBounded(c: Config)
    ensures Bounded(c, NEW)
  {
  }
}
