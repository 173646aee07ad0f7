/** Payloads: cut at the hard limit, kept inline when small, moved to a content-addressed blob
    when large, and read back. What comes back is the payload that went in, cut at the limit. */
module Payload {
  import opened Basics
  import opened Sorting
  import opened Records
  import opened SinkImpl

  /** hash stands for the hex digest; max and threshold count bytes. */
  datatype Limits = Limits(max: nat, threshold: nat, hash: string -> string)

  type Key = seq<string>
  type Blobs = map<Key, string>

  datatype Blob = Blob(sha: string, bytes: nat, firstSeenAt: int)

  ghost predicate CollisionFree(hash: string -> string)
  {
    (forall x, y :: hash(x) == hash(y) ==> x == y) && (forall x :: |hash(x)| >= 4)
  }

  /** Where a blob is stored. */
  function BlobKey(h: string): Key
  {
    if |h| < 4 then ["blobs", "sha256", h] else ["blobs", "sha256", h[0..2], h[2..4], h]
  }

  lemma BlobKeyInjective(a: string, b: string)
    ensures BlobKey(a) == BlobKey(b) ==> a == b
  {
    var x, y := BlobKey(a), BlobKey(b);
    assert x[|x| - 1] == a && y[|y| - 1] == b;
  }

  function Cut(l: Limits, content: string): (r: string)
    ensures r <= content && |r| == if |content| <= l.max then |content| else l.max
  {
    if |content| > l.max then content[..l.max] else content
  }

  function Original(s: Step): string { if s.inline.Some? then s.inline.value else "" }

  /** A step whose payload has been dealt with. */
  function Settled(l: Limits, s: Step): Step
  {
    if s.inline.None? then s
    else
      var c := Cut(l, s.inline.value);
      var m := Marked(l, s);
      if |c| <= l.threshold then m.(inline := Some(c)) else m.(contentRef := Some(l.hash(c)), inline := None)
  }

  /** The payload is too large to stay inline. */
  predicate Moves(l: Limits, s: Step) { s.inline.Some? && |Cut(l, s.inline.value)| > l.threshold }

  /** A step marked as truncated where it has to be, and not yet moved. */
  function Marked(l: Limits, s: Step): Step
  {
    if s.inline.Some? && |s.inline.value| > l.max then s.(truncated := true) else s
  }

  function SettledAll(l: Limits, s: seq<Step>): (r: seq<Step>)
    ensures |r| == |s|
  {
    seq(|s|, i requires 0 <= i < |s| => Settled(l, s[i]))
  }

  /** How the reader gets at a payload. */
  datatype Read = Content(text: string) | Missing | Malformed

  function Resolve(store: Blobs, s: Step): Read
  {
    if s.inline.Some? then Content(s.inline.value)
    else if s.contentRef.None? then Content("")
    else
      var h := s.contentRef.value;
      if |h| < 4 then Malformed
      else
        var k := ["blobs", "sha256", h[0..2], h[2..4], h];
        if k in store then Content(store[k]) else Missing
  }

  /** Every object sits under the key of its own content. */
  ghost predicate Honest(hash: string -> string, store: Blobs)
  {
    forall k | k in store :: k == BlobKey(hash(store[k]))
  }

  /** The step's reference, if it has one, is in the store. */
  predicate Backed(store: Blobs, s: Step) { s.contentRef.Some? ==> BlobKey(s.contentRef.value) in store }

  /** What an attempt that failed may leave of a step. */
  predicate Partly(l: Limits, was: Step, now: Step) { now == was || now == Marked(l, was) || now == Settled(l, was) }

  // ---------- what it means ----------

  /** In an honest store, a step that came without a reference reads back as its payload cut at
      the limit; it carries at most one of inline and reference, exactly the large ones the
      reference; and it is marked truncated exactly when it was cut or was marked already. */
  lemma PayloadRoundTrip(l: Limits, store: Blobs, s: Step)
    requires CollisionFree(l.hash) && Honest(l.hash, store) && s.contentRef == None
    requires Backed(store, Settled(l, s))
    ensures var d := Settled(l, s);
            && Resolve(store, d) == Content(Cut(l, Original(s)))
            && !(d.inline.Some? && d.contentRef.Some?)
            && (d.contentRef.Some? <==> |Cut(l, Original(s))| > l.threshold)
            && (d.truncated <==> s.truncated || Cut(l, Original(s)) != Original(s))
  {
    if s.inline.Some? {
      var c := Cut(l, s.inline.value);
      BlobKeyInjective(l.hash(c), if BlobKey(l.hash(c)) in store then l.hash(store[BlobKey(l.hash(c))]) else "");
    }
  }

  /** With no assumption on the hash, what comes back at least has the digest of what went in. */
  lemma DigestKept(l: Limits, store: Blobs, s: Step)
    requires Honest(l.hash, store) && s.contentRef == None && Settled(l, s).contentRef.Some?
    requires Backed(store, Settled(l, s)) && |l.hash(Cut(l, Original(s)))| >= 4
    ensures var r := Resolve(store, Settled(l, s)); r.Content? && l.hash(r.text) == l.hash(Cut(l, Original(s)))
  {
    var h := l.hash(Cut(l, Original(s)));
    BlobKeyInjective(h, l.hash(store[BlobKey(h)]));
  }

  /** A hash that collides makes two payloads read back as one. */
  lemma CollisionMixesUp(l: Limits, store: Blobs, a: Step, b: Step)
    requires Honest(l.hash, store) && a.contentRef == None && b.contentRef == None
    requires Settled(l, a).contentRef.Some? && Settled(l, b).contentRef.Some? && Backed(store, Settled(l, a))
    requires Cut(l, Original(a)) != Cut(l, Original(b)) && l.hash(Cut(l, Original(a))) == l.hash(Cut(l, Original(b)))
    ensures Resolve(store, Settled(l, a)) != Content(Cut(l, Original(a)))
            || Resolve(store, Settled(l, b)) != Content(Cut(l, Original(b)))
  {
  }

  /** Reading is stable: a store that other collectors have added to reads the same. */
  lemma ResolveStable(hash: string -> string, store: Blobs, more: Blobs, s: Step)
    requires CollisionFree(hash) && Honest(hash, store) && Honest(hash, more) && store.Keys <= more.Keys
             && Backed(store, s)
    ensures Backed(more, s) && Resolve(more, s) == Resolve(store, s)
  {
    if s.contentRef.Some? {
      var k := BlobKey(s.contentRef.value);
      BlobKeyInjective(hash(store[k]), hash(more[k]));
    }
  }

  /** Trying again after a failed attempt ends where one successful attempt would have. */
  lemma RetryConverges(l: Limits, was: Step, now: Step)
    requires Partly(l, was, now)
    ensures Settled(l, now) == Settled(l, was)
  {
  }

  predicate ShaLe(a: Blob, b: Blob) { a.sha == b.sha || StrLess(a.sha, b.sha) }

  ghost predicate Listed(blobs: seq<Blob>, before: Blobs, after: Blobs)
  {
    && (forall b | b in blobs :: var k := BlobKey(b.sha); k !in before && k in after && b.bytes == |after[k]|)
    && (forall k | k in after && k !in before :: exists b :: b in blobs && k == BlobKey(b.sha))
    && |after| == |before| + |blobs|
  }

  /** The rows of each episode. */
  ghost function Contents(eps: seq<array<Step>>): (r: seq<seq<Step>>)
    reads set a | a in eps
    ensures |r| == |eps| && forall e | 0 <= e < |eps| :: r[e] == eps[e][..]
  {
    seq(|eps|, e requires 0 <= e < |eps| reads set a | a in eps => eps[e][..])
  }

  function Flat(eps: seq<seq<Step>>): seq<Step>
  {
    if eps == [] then [] else Flat(eps[..|eps| - 1]) + eps[|eps| - 1]
  }

  /** The answers of the object store, call by call. */
  datatype Replies = Replies(existsFails: nat -> bool, put: nat -> PutResult)

  /** One of these calls to the store failed. */
  ghost predicate Failing(r: Replies, a: nat, b: nat)
  {
    exists k: nat :: a <= k < b && (r.existsFails(k) || !r.put(k).Done?)
  }

  // ---------- the sink's side ----------

  class Externaliser {
    const limits: Limits
    var blobsSeen: set<string>
    var store: Blobs
    var calls: nat
    var truncated: nat
    var blobsNew: nat
    var blobsDeduped: nat
    /** Every step handed on to the pending partitions so far, and what it was when it came. */
    var buffered: seq<Step>
    ghost var originals: seq<Step>

    constructor (maxPayloadBytes: int, blobThresholdBytes: int, hash: string -> string, store: Blobs)
      requires Honest(hash, store)
      ensures Valid() && buffered == [] && this.store == store && limits.hash == hash
      ensures limits.max == (if maxPayloadBytes <= 0 then 8388608 else maxPayloadBytes)
      ensures limits.threshold == (if blobThresholdBytes <= 0 then 8192 else blobThresholdBytes)
      ensures blobsSeen == {} && calls == truncated == blobsNew == blobsDeduped == 0
    {
      limits := Limits(if maxPayloadBytes <= 0 then 8388608 else maxPayloadBytes,
                       if blobThresholdBytes <= 0 then 8192 else blobThresholdBytes, hash);
      this.store := store;
      blobsSeen, calls, truncated, blobsNew, blobsDeduped, buffered, originals := {}, 0, 0, 0, 0, [], [];
    }

    /** The cache never claims a blob that is not stored, and no object is under a wrong key. */
    ghost predicate StoreOk()
      reads this
    {
      Honest(limits.hash, store) && forall h | h in blobsSeen :: BlobKey(h) in store
    }

    /** Every step handed on is settled, and its reference resolves if it was made here. */
    ghost predicate Valid()
      reads this
    {
      StoreOk() && AllFinished(limits, store, originals, buffered)
    }

    /** Writes a blob unless it is already there. */
    method PutBlob(hash: string, content: string, existsFails: bool, put: PutResult) returns (err: bool, isNew: bool)
      requires StoreOk() && hash == limits.hash(content)
      modifies `blobsSeen, `store, `blobsNew, `blobsDeduped
      ensures StoreOk() && Grows(old(store), store)
      // the cache answers first, then the store's Exists, then Put
      ensures err <==> hash !in old(blobsSeen) && (existsFails || (BlobKey(hash) !in old(store) && !put.Done?))
      ensures isNew <==> hash !in old(blobsSeen) && !existsFails && BlobKey(hash) !in old(store) && put.Done?
      ensures blobsSeen == old(blobsSeen) + if err then {} else {hash}
      ensures store == if isNew || (err && !existsFails && put.Unclear?) then old(store)[BlobKey(hash) := content]
                       else old(store)
      ensures blobsNew == old(blobsNew) + (if isNew then 1 else 0)
      ensures blobsDeduped == old(blobsDeduped) + (if err || isNew then 0 else 1)
    {
      err, isNew := false, false;
      if hash in blobsSeen {
        blobsDeduped := blobsDeduped + 1;
        return;
      }
      if existsFails { return true, false; }
      var key := BlobKey(hash);
      if key in store {
        blobsSeen := blobsSeen + {hash};
        blobsDeduped := blobsDeduped + 1;
        return;
      }
      if put != Refused { store := store[key := content]; }
      if !put.Done? { return true, false; }
      blobsSeen := blobsSeen + {hash};
      blobsNew := blobsNew + 1;
      isNew := true;
    }

    /** Deals with one step. On failure it comes back marked but not moved. */
    method SettleStep(step: Step, now: int, r: Replies) returns (err: bool, done: Step, out: seq<Blob>)
      requires StoreOk()
      modifies `blobsSeen, `store, `blobsNew, `blobsDeduped, `truncated, `calls
      ensures StoreOk() && Grows(old(store), store)
      ensures if err then done == Marked(limits, step) && out == []
              else done == Settled(limits, step) && (Moves(limits, step) ==> Backed(store, done))
      ensures !err ==> Listed(out, old(store), store) && blobsNew == old(blobsNew) + |out|
      ensures truncated == old(truncated) + if step.inline.Some? && |step.inline.value| > limits.max then 1 else 0
      ensures calls == old(calls) + (if Moves(limits, step) then 1 else 0) && (err ==> Failing(r, old(calls), calls))
      ensures blobsNew >= old(blobsNew)
    {
      hide Honest, BlobKey;
      err, done, out := false, step, [];
      if step.inline.None? { return; }
      var content := step.inline.value;
      if |content| > limits.max {
        content := content[..limits.max];
        done := done.(truncated := true);
        truncated := truncated + 1;
      }
      if |content| <= limits.threshold {
        done := done.(inline := Some(content));
        return;
      }
      var hash := limits.hash(content);
      var isNew;
      ghost var before := store;
      err, isNew := PutBlob(hash, content, r.existsFails(calls), r.put(calls));
      calls := calls + 1;
      if err { return; }
      if isNew {
        out := [Blob(hash, |content|, now)];
        AddedKey(before, Blob(hash, |content|, now), content);
      }
      done := done.(contentRef := Some(hash), inline := None);
    }

    /** Deals with an episode's steps in place. */
    method SettleSteps(steps: array<Step>, now: int, r: Replies) returns (err: bool, out: seq<Blob>)
      requires StoreOk()
      modifies `blobsSeen, `store, `blobsNew, `blobsDeduped, `truncated, `calls, steps
      ensures StoreOk() && Grows(old(store), store)
      ensures if err then forall i | 0 <= i < steps.Length :: Partly(limits, old(steps[i]), steps[i])
              else forall i | 0 <= i < steps.Length :: Finished(limits, store, old(steps[i]), steps[i])
      ensures !err ==> Listed(out, old(store), store) && blobsNew == old(blobsNew) + |out|
      ensures calls >= old(calls) && blobsNew >= old(blobsNew) && (err ==> Failing(r, old(calls), calls))
    {
      hide Honest, BlobKey, Listed, Grows, Settled, Marked;
      err, out := false, [];
      NothingListed(store);
      var i := 0;
      while i < steps.Length
        invariant i <= steps.Length && StoreOk() && Grows(old(store), store)
        invariant forall j | 0 <= j < i :: Finished(limits, store, old(steps[j]), steps[j])
        invariant forall j | i <= j < steps.Length :: steps[j] == old(steps[j])
        invariant Listed(out, old(store), store) && blobsNew == old(blobsNew) + |out| && calls >= old(calls)
      {
        ghost var before := store;
        var done, more;
        err, done, more := SettleStep(steps[i], now, r);
        GrowsOn(old(store), before, store);
        forall j | 0 <= j < i
          ensures Finished(limits, store, old(steps[j]), steps[j])
        {
          FinishedStays(limits, before, store, old(steps[j]), steps[j]);
        }
        steps[i] := done;
        if err { return; }
        ListedConcat(out, more, old(store), before, store);
        out := out + more;
        i := i + 1;
      }
    }

    /** Deals with every episode's steps in place. New blobs are listed once each, by digest. */
    method Externalise(eps: seq<array<Step>>, now: int, r: Replies) returns (err: bool, out: seq<Blob>)
      requires StoreOk() && Distinct(eps)
      modifies `blobsSeen, `store, `blobsNew, `blobsDeduped, `truncated, `calls, set a | a in eps
      ensures StoreOk() && Grows(old(store), store)
      ensures err ==> forall e, i | 0 <= e < |eps| && 0 <= i < eps[e].Length ::
                Partly(limits, old(eps[e][i]), eps[e][i])
      ensures !err ==> forall e, i | 0 <= e < |eps| && 0 <= i < eps[e].Length ::
                Finished(limits, store, old(eps[e][i]), eps[e][i])
      ensures !err ==> Listed(out, old(store), store) && Sorted(ShaLe, out) && blobsNew == old(blobsNew) + |out|
      ensures calls >= old(calls) && blobsNew >= old(blobsNew) && (err ==> Failing(r, old(calls), calls))
    {
      hide Honest, BlobKey, Listed, Grows, Settled, Marked, Backed;
      err, out := false, [];
      NothingListed(store);
      var e := 0;
      while e < |eps|
        invariant e <= |eps| && StoreOk() && Grows(old(store), store)
        invariant forall d, i | 0 <= d < e && 0 <= i < eps[d].Length ::
                    Finished(limits, store, old(eps[d][i]), eps[d][i])
        invariant forall d, i | e <= d < |eps| && 0 <= i < eps[d].Length :: eps[d][i] == old(eps[d][i])
        invariant Listed(out, old(store), store) && blobsNew == old(blobsNew) + |out| && calls >= old(calls)
      {
        ghost var before := store;
        var more;
        err, more := SettleSteps(eps[e], now, r);
        GrowsOn(old(store), before, store);
        forall d, i | 0 <= d < e && 0 <= i < eps[d].Length
          ensures Finished(limits, store, old(eps[d][i]), eps[d][i])
        {
          assert eps[d] != eps[e];
          FinishedStays(limits, before, store, old(eps[d][i]), eps[d][i]);
        }
        if err { return true, []; }
        ListedConcat(out, more, old(store), before, store);
        out := out + more;
        e := e + 1;
      }
      ListedSorted(out, old(store), store);
      out := Sort(ShaLe, out);
    }

    /** Buffers episodes. Nothing is buffered on an error; on success exactly the settled rows
        are, and every reference among them resolves that was made here or resolved before. */
    method Write(eps: seq<array<Step>>, now: int, r: Replies, tableFails: bool) returns (err: bool)
      requires Valid() && Distinct(eps)
      modifies this, set a | a in eps
      ensures Valid() && Grows(old(store), store)
      ensures err ==> buffered == old(buffered) && originals == old(originals)
      // it fails when the store did, or when there are new blobs and their table could not be written
      ensures calls >= old(calls) && blobsNew >= old(blobsNew)
      ensures err ==> (tableFails && blobsNew > old(blobsNew)) || Failing(r, old(calls), calls)
      ensures tableFails && blobsNew > old(blobsNew) ==> err
      ensures err ==> forall e, i | 0 <= e < |eps| && 0 <= i < eps[e].Length ::
                Settled(limits, eps[e][i]) == Settled(limits, old(eps[e][i]))
      ensures !err ==> originals == old(originals) + Flat(old(Contents(eps)))
      ensures !err ==> buffered == old(buffered) + SettledAll(limits, Flat(old(Contents(eps))))
      ensures !err ==> buffered == old(buffered) + Flat(Contents(eps))
    {
      hide Honest, BlobKey, Listed, Grows, Settled, Marked, Backed, Flat, SettledAll;
      ghost var was := Contents(eps);
      ghost var before := store;
      var blobs;
      err, blobs := Externalise(eps, now, r);
      StillBacked(limits, before, store, originals, buffered);
      if err || (|blobs| > 0 && tableFails) {
        forall e, i | 0 <= e < |eps| && 0 <= i < eps[e].Length
          ensures Settled(limits, eps[e][i]) == Settled(limits, old(eps[e][i]))
        {
          assert Partly(limits, old(eps[e][i]), eps[e][i]);
          RetryConverges(limits, old(eps[e][i]), eps[e][i]);
        }
        return true;
      }
      BufferRows(eps, was);
    }

    /** Appends every episode's steps to what is handed on. */
    method BufferRows(eps: seq<array<Step>>, ghost was: seq<seq<Step>>)
      requires Valid() && |was| == |eps|
      requires forall e | 0 <= e < |eps| :: AllFinished(limits, store, was[e], eps[e][..])
      modifies `buffered, `originals
      ensures Valid() && originals == old(originals) + Flat(was)
              && buffered == old(buffered) + SettledAll(limits, Flat(was))
      ensures buffered == old(buffered) + Flat(Contents(eps))
    {
      ghost var now := Contents(eps);
      hide Honest, BlobKey, Finished, Flat, SettledAll, AllFinished;
      var e := 0;
      FlatStart(limits, was, originals, buffered);
      FlatStart(limits, now, buffered, buffered);
      while e < |eps|
        invariant e <= |eps| && Valid()
        invariant originals == old(originals) + Flat(was[..e])
        invariant buffered == old(buffered) + SettledAll(limits, Flat(was[..e]))
        invariant buffered == old(buffered) + Flat(now[..e])
      {
        FlatSnoc(limits, was, e);
        FlatSnoc(limits, now, e);
        Assoc(old(buffered), Flat(now[..e]), now[e]);
        FinishedSettled(limits, store, was[e], eps[e][..]);
        FinishedConcat(limits, store, originals, buffered, was[e], eps[e][..]);
        Assoc(old(originals), Flat(was[..e]), was[e]);
        Assoc(old(buffered), SettledAll(limits, Flat(was[..e])), eps[e][..]);
        buffered := buffered + eps[e][..];
        originals := originals + was[e];
        e := e + 1;
      }
      assert was[..e] == was && now[..e] == now;
    }
  }

  ghost predicate Grows(a: Blobs, b: Blobs) { a.Keys <= b.Keys && forall k | k in a :: a[k] == b[k] }

  /** Settled, and stored if it was moved to a blob; another reference is the one it came with. */
  predicate Finished(l: Limits, store: Blobs, was: Step, now: Step)
  {
    now == Settled(l, was) && (Moves(l, was) ==> Backed(store, now))
  }

  /** A reference resolves in the end unless it came in unresolved and was left alone. */
  lemma FinishedBacked(l: Limits, before: Blobs, store: Blobs, was: Step, now: Step)
    requires Finished(l, store, was, now) && Grows(before, store)
    ensures Moves(l, was) || Backed(before, was) ==> Backed(store, now)
    ensures !Moves(l, was) ==> now.contentRef == was.contentRef
  {
  }

  ghost predicate AllFinished(l: Limits, store: Blobs, was: seq<Step>, now: seq<Step>)
  {
    |was| == |now| && forall i | 0 <= i < |was| :: Finished(l, store, was[i], now[i])
  }

  lemma GrowsOn(a: Blobs, b: Blobs, c: Blobs)
    requires Grows(a, b) && Grows(b, c)
    ensures Grows(a, c)
  {
  }

  lemma FinishedStays(l: Limits, a: Blobs, b: Blobs, was: Step, now: Step)
    requires Grows(a, b) && Finished(l, a, was, now)
    ensures Finished(l, b, was, now)
  {
  }

  lemma NothingListed(store: Blobs)
    ensures Listed([], store, store) && Grows(store, store)
  {
  }

  lemma ListedConcat(x: seq<Blob>, y: seq<Blob>, a: Blobs, b: Blobs, c: Blobs)
    requires Grows(a, b) && Grows(b, c) && Listed(x, a, b) && Listed(y, b, c)
    ensures Listed(x + y, a, c)
  {
    hide BlobKey;
    forall k | k in c && k !in a
      ensures exists e :: e in x + y && k == BlobKey(e.sha)
    {
      if k in b {
        var e :| e in x && k == BlobKey(e.sha);
        assert e in x + y;
      } else {
        var e :| e in y && k == BlobKey(e.sha);
        assert e in x + y;
      }
    }
  }

  lemma AddedKey(before: Blobs, b: Blob, content: string)
    requires BlobKey(b.sha) !in before && b.bytes == |content|
    ensures Listed([b], before, before[BlobKey(b.sha) := content])
  {
    hide BlobKey;
    var k := BlobKey(b.sha);
    assert before[k := content].Keys == before.Keys + {k};
    assert |before[k := content].Keys| == |before[k := content]|;
    assert b in [b];
  }

  lemma Assoc<T>(a: seq<T>, b: seq<T>, c: seq<T>)
    ensures a + b + c == a + (b + c)
  {
  }

  lemma {:induction false} ListedSorted(out: seq<Blob>, a: Blobs, b: Blobs)
    requires Listed(out, a, b)
    ensures Listed(Sort(ShaLe, out), a, b) && Sorted(ShaLe, Sort(ShaLe, out))
  {
    hide BlobKey, Sort;
    forall x: Blob, y: Blob ensures ShaLe(x, y) || ShaLe(y, x) { StrTotal(x.sha, y.sha); }
    forall x: Blob, y: Blob, z: Blob | ShaLe(x, y) && ShaLe(y, z) ensures ShaLe(x, z) {
      if x.sha != y.sha && y.sha != z.sha { StrTransitive(x.sha, y.sha, z.sha); }
    }
    SortSorted(ShaLe, out);
    SortMembers(ShaLe, out);
    SortMultiset(ShaLe, out);
    SameLength(out, Sort(ShaLe, out));
  }

  lemma SameLength<T>(a: seq<T>, b: seq<T>)
    requires multiset(a) == multiset(b)
    ensures |a| == |b|
  {
    assert |multiset(a)| == |a| && |multiset(b)| == |b|;
  }

  lemma StillBacked(l: Limits, a: Blobs, b: Blobs, was: seq<Step>, now: seq<Step>)
    requires Grows(a, b) && AllFinished(l, a, was, now)
    ensures AllFinished(l, b, was, now)
  {
    hide Grows, Finished;
    forall i | 0 <= i < |was| ensures Finished(l, b, was[i], now[i]) { FinishedStays(l, a, b, was[i], now[i]); }
  }

  lemma FinishedConcat(l: Limits, store: Blobs, a: seq<Step>, b: seq<Step>, c: seq<Step>, d: seq<Step>)
    requires AllFinished(l, store, a, b) && AllFinished(l, store, c, d)
    ensures AllFinished(l, store, a + c, b + d)
  {
    hide Finished;
  }

  lemma FlatStart(l: Limits, was: seq<seq<Step>>, a: seq<Step>, b: seq<Step>)
    ensures a == a + Flat(was[..0]) && b == b + SettledAll(l, Flat(was[..0]))
  {
  }

  lemma FlatSnoc(l: Limits, was: seq<seq<Step>>, e: nat)
    requires e < |was|
    ensures Flat(was[..e + 1]) == Flat(was[..e]) + was[e]
    ensures SettledAll(l, Flat(was[..e + 1])) == SettledAll(l, Flat(was[..e])) + SettledAll(l, was[e])
  {
    assert was[..e + 1][..e] == was[..e];
    hide Flat, Settled;
  }

  lemma FinishedSettled(l: Limits, store: Blobs, was: seq<Step>, now: seq<Step>)
    requires AllFinished(l, store, was, now)
    ensures now == SettledAll(l, was)
  {
  }
}
