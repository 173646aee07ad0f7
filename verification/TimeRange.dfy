/** What the time range of a manifest says: the least and the greatest time of its episodes and
    outcomes, and exactly when it does not. */
module TimeRange {
  import opened LakeSink

  function Least(rows: seq<Row>): int
    requires rows != []
  {
    var at := rows[|rows| - 1].at;
    if |rows| == 1 then at else var m := Least(rows[..|rows| - 1]); if at < m then at else m
  }

  function Greatest(rows: seq<Row>): int
    requires rows != []
  {
    var at := rows[|rows| - 1].at;
    if |rows| == 1 then at else var m := Greatest(rows[..|rows| - 1]); if at > m then at else m
  }

  lemma {:induction false} LeastIs(rows: seq<Row>)
    requires rows != []
    ensures (exists r :: r in rows && r.at == Least(rows)) && (forall r | r in rows :: Least(rows) <= r.at)
    ensures (exists r :: r in rows && r.at == Greatest(rows)) && (forall r | r in rows :: r.at <= Greatest(rows))
  {
    var n := |rows| - 1;
    assert rows[n] in rows && forall r :: r in rows <==> r == rows[n] || r in rows[..n];
    if n > 0 { LeastIs(rows[..n]); }
  }

  /** The scan for the least time: right unless that is 0, which it takes for "none yet". */
  lemma {:induction false} ScannedMin(rows: seq<Row>)
    requires rows != []
    ensures var m := WidenAll(Range(0, 0), rows).min; var at := rows[|rows| - 1].at;
            && (Least(rows) != 0 ==> m == Least(rows))
            && (Least(rows) == 0 ==> m >= 0 && (m == 0 <==> at == 0))
  {
    var n := |rows| - 1;
    if n > 0 { ScannedMin(rows[..n]); } else { assert rows[..0] == []; }
  }

  /** The scan for the greatest time starts from 0. */
  lemma {:induction false} ScannedMax(rows: seq<Row>)
    requires rows != []
    ensures WidenAll(Range(0, 0), rows).max == if Greatest(rows) > 0 then Greatest(rows) else 0
  {
    var n := |rows| - 1;
    if n > 0 { ScannedMax(rows[..n]); } else { assert rows[..0] == []; }
  }

  /** The rows the range looks at, in the order it looks at them. */
  function TimedParts(ps: seq<Part>): seq<Row>
  {
    if ps == [] then [] else TimedParts(ps[..|ps| - 1]) + ps[|ps| - 1].episodes
  }

  function Timed(f: Flushing): seq<Row> { TimedParts(f.due) + f.outcomes }

  lemma {:induction false} WidenConcat(r: Range, a: seq<Row>, b: seq<Row>)
    ensures WidenAll(r, a + b) == WidenAll(WidenAll(r, a), b)
  {
    if b == [] {
      assert a + b == a;
    } else {
      var n := |b| - 1;
      WidenConcat(r, a, b[..n]);
      assert (a + b)[..|a + b| - 1] == a + b[..n];
    }
  }

  lemma {:induction false} DueRangeIs(ps: seq<Part>)
    ensures DueRange(ps) == WidenAll(Range(0, 0), TimedParts(ps))
  {
    if ps != [] {
      var n := |ps| - 1;
      DueRangeIs(ps[..n]);
      WidenConcat(Range(0, 0), TimedParts(ps[..n]), ps[n].episodes);
    }
  }

  /** A batch with episodes or outcomes and no rewards: its range is from the least to the greatest
      of their times if and only if the greatest is not negative and the least is not 0, or is
      that of the last row looked at. */
  lemma RangeExact(f: Flushing)
    requires Timed(f) != [] && f.rewards == []
    ensures var rows := Timed(f);
            RangeOf(f) == Range(Least(rows), Greatest(rows))
            <==> Greatest(rows) >= 0 && (Least(rows) != 0 || rows[|rows| - 1].at == 0)
  {
    hide Least, Greatest;
    DueRangeIs(f.due);
    WidenConcat(Range(0, 0), TimedParts(f.due), f.outcomes);
    ScannedMin(Timed(f));
    ScannedMax(Timed(f));
  }

  /** Rewards are looked at only when no time, or a least time of 0, has been found. */
  lemma RewardsRange(f: Flushing)
    requires f.rewards != []
    ensures Timed(f) != [] && Least(Timed(f)) != 0 ==> RangeOf(f) == RangeOf(f.(rewards := []))
    ensures Timed(f) == [] ==> RangeOf(f) == Range(f.rewards[0].at, f.rewards[0].at)
  {
    hide Least, Greatest;
    DueRangeIs(f.due);
    WidenConcat(Range(0, 0), TimedParts(f.due), f.outcomes);
    if Timed(f) != [] { ScannedMin(Timed(f)); }
  }
}
