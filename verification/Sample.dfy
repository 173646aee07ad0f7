/** Sampling by a hash of the session: the mixing step loses nothing, the value lies on an even
    grid of [0, 1), and raising a rate never drops a session that was kept. */
module Sample {
  import opened Basics

  function Xor(a: bv64, b: bv64): bv64 { a ^ b }
  function Right30(a: bv64): bv64 { a >> 30 }
  function Right27(a: bv64): bv64 { a >> 27 }
  function Right31(a: bv64): bv64 { a >> 31 }

  /** The two multiplications, which wrap around at 64 bits, and those by the inverses of their
      factors modulo 2^64. */
  function Times1(x: bv64): bv64 { x * 0xbf58476d1ce4e5b9 }
  function Times2(x: bv64): bv64 { x * 0x94d049bb133111eb }
  function Untimes1(x: bv64): bv64 { x * 0x96de1b173f119089 }
  function Untimes2(x: bv64): bv64 { x * 0x319642b2d24d8ec3 }

  /** A word combined with itself shifted by r, and the way back. */
  function Fold(r: bv64 -> bv64, x: bv64): bv64 { Xor(x, r(x)) }
  function Unfold(r: bv64 -> bv64, y: bv64): bv64 { Xor(Xor(y, r(y)), r(r(y))) }

  function Mix64(x: bv64): bv64 { Fold(Right31, Times2(Fold(Right27, Times1(Fold(Right30, x))))) }

  /** The mix is the finaliser of splitmix64: two of its known values. */
  lemma KnownValues()
    ensures Mix64(1) == 0x5692161d100b05e5 && Mix64(0xcbf29ce484222325) == 0xf52a15e9a9b5e89b
  {
  }

  /** Undoes each step of the mix, last first. */
  function Unmix64(y: bv64): bv64 { Unfold(Right30, Untimes1(Unfold(Right27, Untimes2(Unfold(Right31, y))))) }

  /** On x, the shift distributes over exclusive or, and three of it leave nothing. */
  ghost predicate ShiftLike(r: bv64 -> bv64, x: bv64)
  {
    && r(Xor(x, r(x))) == Xor(r(x), r(r(x)))
    && r(Xor(r(x), r(r(x)))) == Xor(r(r(x)), r(r(r(x))))
    && r(Xor(Xor(x, r(x)), r(r(x)))) == Xor(Xor(r(x), r(r(x))), r(r(r(x))))
    && r(r(r(x))) == 0
  }

  lemma Distributes30(a: bv64, b: bv64)
    ensures Right30(Xor(a, b)) == Xor(Right30(a), Right30(b))
  {
  }

  lemma Vanishes30(a: bv64)
    ensures Right30(Right30(Right30(a))) == 0
  {
  }

  lemma Shift30(x: bv64)
    ensures ShiftLike(Right30, x)
  {
    hide Xor, Right30;
    var b := Right30(x);
    var c := Right30(b);
    Distributes30(x, b);
    Distributes30(b, c);
    Distributes30(Xor(x, b), c);
    Vanishes30(x);
  }

  lemma Distributes27(a: bv64, b: bv64)
    ensures Right27(Xor(a, b)) == Xor(Right27(a), Right27(b))
  {
  }

  lemma Vanishes27(a: bv64)
    ensures Right27(Right27(Right27(a))) == 0
  {
  }

  lemma Shift27(x: bv64)
    ensures ShiftLike(Right27, x)
  {
    hide Xor, Right27;
    var b := Right27(x);
    var c := Right27(b);
    Distributes27(x, b);
    Distributes27(b, c);
    Distributes27(Xor(x, b), c);
    Vanishes27(x);
  }

  lemma Distributes31(a: bv64, b: bv64)
    ensures Right31(Xor(a, b)) == Xor(Right31(a), Right31(b))
  {
  }

  lemma Vanishes31(a: bv64)
    ensures Right31(Right31(Right31(a))) == 0
  {
  }

  lemma Shift31(x: bv64)
    ensures ShiftLike(Right31, x)
  {
    hide Xor, Right31;
    var b := Right31(x);
    var c := Right31(b);
    Distributes31(x, b);
    Distributes31(b, c);
    Distributes31(Xor(x, b), c);
    Vanishes31(x);
  }

  lemma XorAssociates(a: bv64, b: bv64, c: bv64)
    ensures Xor(Xor(a, b), c) == Xor(a, Xor(b, c))
  {
  }

  lemma XorSelf(a: bv64)
    ensures Xor(a, a) == 0
  {
  }

  lemma XorTwice(a: bv64, b: bv64)
    ensures Xor(Xor(a, b), b) == a
  {
    hide Xor;
    XorAssociates(a, b, b);
    XorSelf(b);
    XorZero(a);
  }

  lemma CancelLast(a: bv64, b: bv64, c: bv64)
    ensures Xor(Xor(Xor(a, b), Xor(b, c)), c) == a
  {
    hide Xor;
    XorAssociates(Xor(a, b), b, c);
    XorTwice(a, b);
    XorTwice(a, c);
  }

  lemma CancelBoth(a: bv64, b: bv64, c: bv64)
    ensures Xor(Xor(Xor(a, b), c), Xor(b, c)) == a
  {
    hide Xor;
    XorAssociates(a, b, c);
    XorTwice(a, Xor(b, c));
  }

  lemma XorZero(a: bv64)
    ensures Xor(a, 0) == a
  {
  }

  lemma FoldInverse(r: bv64 -> bv64, x: bv64)
    requires ShiftLike(r, x)
    ensures Unfold(r, Fold(r, x)) == x && Fold(r, Unfold(r, x)) == x
  {
    hide Xor;
    var b := r(x);
    var c := r(b);
    XorZero(c);
    XorZero(Xor(b, c));
    CancelLast(x, b, c);
    CancelBoth(x, b, c);
  }

  lemma Product1(x: bv64)
    ensures Untimes1(x * 0xbf58476d1ce4e5b9) == x
  {
  }

  lemma Quotient1(x: bv64)
    ensures Times1(x * 0x96de1b173f119089) == x
  {
  }

  lemma UndoTimes1(x: bv64)
    ensures Untimes1(Times1(x)) == x
  {
    hide Untimes1;
    Product1(x);
  }

  lemma RedoTimes1(x: bv64)
    ensures Times1(Untimes1(x)) == x
  {
    hide Times1;
    Quotient1(x);
  }

  lemma Product2(x: bv64)
    ensures Untimes2(x * 0x94d049bb133111eb) == x
  {
  }

  lemma Quotient2(x: bv64)
    ensures Times2(x * 0x319642b2d24d8ec3) == x
  {
  }

  lemma UndoTimes2(x: bv64)
    ensures Untimes2(Times2(x)) == x
  {
    hide Untimes2;
    Product2(x);
  }

  lemma RedoTimes2(x: bv64)
    ensures Times2(Untimes2(x)) == x
  {
    hide Times2;
    Quotient2(x);
  }

  /** The mix is a bijection on 64-bit words, with Unmix64 as its inverse on both sides. */
  lemma MixBijective(x: bv64)
    ensures Unmix64(Mix64(x)) == x && Mix64(Unmix64(x)) == x
  {
    UnmixMix(x);
    MixUnmix(x);
    hide Mix64, Unmix64;
  }

  lemma UnmixMix(x: bv64)
    ensures Unmix64(Mix64(x)) == x
  {
    hide Fold, Unfold, Times1, Times2, Untimes1, Untimes2, ShiftLike;
    var a1 := Fold(Right30, x);
    var a2 := Times1(a1);
    var a3 := Fold(Right27, a2);
    var a4 := Times2(a3);
    Shift31(a4);
    FoldInverse(Right31, a4);
    UndoTimes2(a3);
    Shift27(a2);
    FoldInverse(Right27, a2);
    UndoTimes1(a1);
    Shift30(x);
    FoldInverse(Right30, x);
  }

  lemma MixUnmix(y: bv64)
    ensures Mix64(Unmix64(y)) == y
  {
    hide Fold, Unfold, Times1, Times2, Untimes1, Untimes2, ShiftLike;
    var b1 := Unfold(Right31, y);
    var b2 := Untimes2(b1);
    var b3 := Unfold(Right27, b2);
    var b4 := Untimes1(b3);
    Shift30(b4);
    FoldInverse(Right30, b4);
    RedoTimes1(b3);
    Shift27(b2);
    FoldInverse(Right27, b2);
    RedoTimes2(b1);
    Shift31(y);
    FoldInverse(Right31, y);
  }

  /** Different hashes mix to different words, and every word is the mix of some hash. */
  lemma MixInjective(x: bv64, y: bv64)
    ensures Mix64(x) == Mix64(y) ==> x == y
    ensures exists z :: Mix64(z) == y
  {
    hide Mix64, Unmix64;
    MixBijective(x);
    MixBijective(y);
  }

  // ---------- the value of a key ----------

  /** The 53 bits used and the eleven that are cut off. */
  function Top(w: bv64): bv53 { (w >> 11) as bv53 }
  function Low(w: bv64): bv64 { w & 0x7ff }
  function Word(top: bv53, low: bv64): bv64 { ((top as bv64) << 11) | low }

  function Scale(c: int): real { c as real / 9007199254740992.0 }

  /** fnv stands for the 64-bit hash of the key. */
  function HashUnit(fnv: string -> bv64, key: string): real { Scale(Top(Mix64(fnv(key))) as int) }

  lemma Below53(t: bv53)
    ensures 0 <= t as int < 9007199254740992
  {
  }

  predicate AtPoint(u: real, c: nat) { c < 9007199254740992 && u * 9007199254740992.0 == c as real }

  lemma ScaleOnGrid(c: nat)
    requires c < 9007199254740992
    ensures 0.0 <= Scale(c) < 1.0 && AtPoint(Scale(c), c)
  {
  }

  /** The value is in [0, 1), on the grid of 2^53 points a double holds exactly. */
  lemma HashUnitOnGrid(fnv: string -> bv64, key: string)
    ensures 0.0 <= HashUnit(fnv, key) < 1.0
    ensures exists c :: AtPoint(HashUnit(fnv, key), c)
  {
    hide Mix64, Top, Scale, AtPoint;
    var v := Mix64(fnv(key));
    Below53(Top(v));
    ScaleOnGrid(Top(v) as int);
  }

  /** Every grid point is the value of as many hashes as any other: exactly one for each setting
      of the eleven bits that are cut off. */
  lemma GridEven(cell: bv53, low: bv64)
    requires low < 0x800
    ensures var x := Unmix64(Word(cell, low));
            Top(Mix64(x)) == cell && Low(Mix64(x)) == low
            && forall y :: Top(Mix64(y)) == cell && Low(Mix64(y)) == low ==> y == x
  {
    hide Mix64, Unmix64, Top, Low, Word;
    Parts(cell, low);
    MixBijective(Word(cell, low));
    forall y | Top(Mix64(y)) == cell && Low(Mix64(y)) == low
      ensures y == Unmix64(Word(cell, low))
    {
      Whole(Mix64(y));
      MixBijective(y);
    }
  }

  /** The same for the value of a key: it is at a grid point exactly when the key's hash is one of
      the 2^11 words that mix to it, one for each setting of the bits cut off. */
  lemma HashUnitEven(fnv: string -> bv64, key: string, cell: bv53)
    ensures AtPoint(HashUnit(fnv, key), cell as int) <==>
            exists low: bv64 :: low < 0x800 && fnv(key) == Unmix64(Word(cell, low))
  {
    hide Mix64, Unmix64, Top, Low, Word, Scale, AtPoint;
    var x := fnv(key);
    ScaledAt(Top(Mix64(x)), cell);
    if Top(Mix64(x)) == cell {
      var low := Low(Mix64(x));
      LowSmall(Mix64(x));
      GridEven(cell, low);
    }
    if low: bv64 :| low < 0x800 && x == Unmix64(Word(cell, low)) { GridEven(cell, low); }
  }

  lemma LowSmall(w: bv64)
    ensures Low(w) < 0x800
  {
  }

  lemma ScaledAt(t: bv53, cell: bv53)
    ensures AtPoint(Scale(t as int), cell as int) <==> t == cell
  {
    Below53(t);
    Below53(cell);
    ScaleOnGrid(t as int);
    SameWord(t, cell);
  }

  lemma SameWord(t: bv53, cell: bv53)
    ensures t as int == cell as int ==> t == cell
  {
    BackAgain(t);
    BackAgain(cell);
  }

  function Number(t: bv53): (n: nat)
    ensures n < 9007199254740992
  {
    t as nat
  }

  lemma BackAgain(t: bv53)
    ensures Number(t) as bv53 == t
  {
  }

  lemma Parts(cell: bv53, low: bv64)
    requires low < 0x800
    ensures Top(Word(cell, low)) == cell && Low(Word(cell, low)) == low
  {
  }

  lemma Whole(w: bv64)
    ensures Word(Top(w), Low(w)) == w
  {
  }

  // ---------- decisions ----------

  /** Whether a key is kept at a rate. */
  predicate Keep(fnv: string -> bv64, rate: real, key: string)
  {
    rate >= 1.0 || (rate > 0.0 && HashUnit(fnv, key) < rate)
  }

  /** What is kept at one rate is kept at every higher one; the ends behave like any other rate. */
  lemma KeepMonotone(fnv: string -> bv64, r: real, s: real, key: string)
    requires r <= s
    ensures Keep(fnv, r, key) ==> Keep(fnv, s, key)
    ensures Keep(fnv, r, key) <==> HashUnit(fnv, key) < r
  {
    hide HashUnit;
    HashUnitOnGrid(fnv, key);
  }

  datatype Verdict = Failed | Holds | Fails

  datatype Rule = Rule(src: string, eval: string -> Verdict)

  function Count(m: map<string, nat>, k: string): nat { if k in m then m[k] else 0 }

  /** The first rule that fails to evaluate or holds. */
  function Decisive(rules: seq<Rule>, ep: string): (i: nat)
    ensures i <= |rules|
  {
    if rules == [] then 0 else if rules[0].eval(ep) == Fails then 1 + Decisive(rules[1..], ep) else 0
  }

  class Sampler {
    const fnv: string -> bv64
    const headRate: real
    const otherwise: real
    const keepIf: seq<Rule>
    var bySource: map<string, real>
    var headKept: nat
    var headDropped: nat
    var tailKept: map<string, nat>
    var tailDropped: nat
    var ruleErrors: nat

    constructor (fnv: string -> bv64, headRate: real, otherwise: real, keepIf: seq<Rule>)
      ensures this.fnv == fnv && this.headRate == headRate && this.otherwise == otherwise && this.keepIf == keepIf
      ensures bySource == map[] && headKept == headDropped == tailDropped == ruleErrors == 0 && tailKept == map[]
    {
      this.fnv, this.headRate, this.otherwise, this.keepIf := fnv, headRate, otherwise, keepIf;
      bySource, headKept, headDropped, tailKept, tailDropped, ruleErrors := map[], 0, 0, map[], 0, 0;
    }

    function RateFor(source: string): real
      reads this
    {
      if source in bySource then bySource[source] else headRate
    }

    method SetSourceRate(source: string, rate: real)
      modifies `bySource
      ensures RateFor(source) == rate && forall s | s != source :: RateFor(s) == old(RateFor(s))
    {
      bySource := bySource[source := rate];
    }

    /** Counts and returns the decision, which is the plain comparison at every rate. */
    method Decide(rate: real, sessionKey: string) returns (keep: bool)
      modifies `headKept, `headDropped
      ensures keep <==> HashUnit(fnv, sessionKey) < rate
      ensures headKept == old(headKept) + (if keep then 1 else 0)
              && headDropped == old(headDropped) + (if keep then 0 else 1)
    {
      hide HashUnit;
      KeepMonotone(fnv, rate, rate, sessionKey);
      if rate >= 1.0 {
        headKept := headKept + 1;
        return true;
      }
      if rate <= 0.0 {
        headDropped := headDropped + 1;
        return false;
      }
      keep := HashUnit(fnv, sessionKey) < rate;
      if keep { headKept := headKept + 1; } else { headDropped := headDropped + 1; }
    }

    /** One answer for a session and a source, whoever asks and however often. */
    method HeadKeepFrom(source: string, sessionKey: string) returns (keep: bool)
      modifies `headKept, `headDropped
      ensures keep <==> HashUnit(fnv, sessionKey) < RateFor(source)
      ensures headKept + headDropped == old(headKept + headDropped) + 1
    {
      if source in bySource {
        keep := Decide(bySource[source], sessionKey);
      } else {
        keep := Decide(headRate, sessionKey);
      }
    }

    /** Keeps an episode when a rule holds or cannot be evaluated, and otherwise by its hash: an
        episode is dropped only when every rule was evaluated and none held. */
    method TailKeep(ep: string) returns (keep: bool, reason: string)
      modifies `tailKept, `tailDropped, `ruleErrors
      ensures var i := Decisive(keepIf, ep);
              keep <==> i < |keepIf| || HashUnit(fnv, ep) < otherwise
      ensures var i := Decisive(keepIf, ep);
              if i < |keepIf| && keepIf[i].eval(ep) == Failed
              then ruleErrors == old(ruleErrors) + 1 && tailKept == old(tailKept) && reason == "tail:rule_error"
              else ruleErrors == old(ruleErrors)
                   && (keep ==> reason == (if i < |keepIf| then "tail:" + keepIf[i].src else "tail:rate"))
      ensures tailDropped == old(tailDropped) + if keep then 0 else 1
      ensures var i := Decisive(keepIf, ep);
              var why := if i < |keepIf| then keepIf[i].src else "tail:rate";
              keep && ruleErrors == old(ruleErrors) ==> tailKept == old(tailKept)[why := Count(old(tailKept), why) + 1]
      ensures !keep ==> tailKept == old(tailKept)
    {
      hide HashUnit;
      KeepMonotone(fnv, otherwise, otherwise, ep);
      reason := "";
      var i := 0;
      assert keepIf[0..] == keepIf;
      while i < |keepIf|
        invariant i <= |keepIf| && Decisive(keepIf, ep) == i + Decisive(keepIf[i..], ep)
        invariant tailKept == old(tailKept) && tailDropped == old(tailDropped) && ruleErrors == old(ruleErrors)
      {
        var rule := keepIf[i];
        assert keepIf[i..][0] == rule && keepIf[i..][1..] == keepIf[i + 1..];
        var out := rule.eval(ep);
        if out == Failed {
          ruleErrors := ruleErrors + 1;
          return true, "tail:rule_error";
        }
        if out == Holds {
          tailKept := tailKept[rule.src := Count(tailKept, rule.src) + 1];
          return true, "tail:" + rule.src;
        }
        i := i + 1;
      }
      if otherwise >= 1.0 || (otherwise > 0.0 && HashUnit(fnv, ep) < otherwise) {
        tailKept := tailKept["tail:rate" := Count(tailKept, "tail:rate") + 1];
        return true, "tail:rate";
      }
      tailDropped := tailDropped + 1;
      keep := false;
    }
  }
}
