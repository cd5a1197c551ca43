/**
 The ten-sample position averager (`averPosFun` in hmi/HmiFunction/stopCalClass.cpp), over real numbers.
 */
module Averager {
  const POS_AVER_TIMES: nat := 10

  datatype Position = Position(lat: real, lng: real, heading: real)

  function Plus(p: Position, q: Position): Position {
    Position(p.lat + q.lat, p.lng + q.lng, p.heading + q.heading)
  }

  function Tenth(p: Position): Position {
    Position(p.lat / 10.0, p.lng / 10.0, p.heading / 10.0)
  }

  const ZERO := Position(0.0, 0.0, 0.0)

  /** One call: the receiver's state, 2 meaning a usable position, and the position. */
  datatype Fix = Fix(gpsState: int, pos: Position)

  predicate Usable(f: Fix) {
    f.gpsState == 2 && f.pos != ZERO
  }

  datatype State = State(count: nat, sum: Position, average: Position, ok: bool)

  const RESET := State(0, ZERO, ZERO, false)

  // ---------------------------------------------------------------- specification of one call

  function Step(s: State, f: Fix): State {
    if !Usable(f) then RESET
    else
      var sum := Plus(s.sum, f.pos);
      if s.count + 1 == POS_AVER_TIMES then State(0, ZERO, Tenth(sum), true)
      else s.(count := s.count + 1, sum := sum)
  }

  // ---------------------------------------------------------------- the code

  class StopCal {
    var calcLoadStopPointCnt: nat
    var tmpAvPos: Position
    var avPos: Position
    var avPosOk: bool

    constructor ()
      ensures View() == RESET
    {
      calcLoadStopPointCnt, tmpAvPos, avPos, avPosOk := 0, ZERO, ZERO, false;
    }

    function View(): State
      reads this
    {
      State(calcLoadStopPointCnt, tmpAvPos, avPos, avPosOk)
    }

    method AverPosFun(gpsState: int, pos: Position)
      modifies this
      ensures View() == Step(old(View()), Fix(gpsState, pos))
    {
      if gpsState != 2 {
        Clear();
        return;
      }
      if pos.heading == 0.0 && pos.lat == 0.0 && pos.lng == 0.0 {
        Clear();
        return;
      }
      tmpAvPos := Position(tmpAvPos.lat + pos.lat, tmpAvPos.lng + pos.lng, tmpAvPos.heading + pos.heading);
      calcLoadStopPointCnt := calcLoadStopPointCnt + 1;
      if calcLoadStopPointCnt == POS_AVER_TIMES {
        avPos := tmpAvPos;
        tmpAvPos := ZERO;
        calcLoadStopPointCnt := 0;
        avPos := avPos.(heading := avPos.heading / 10.0);
        avPos := avPos.(lat := avPos.lat / 10.0);
        avPos := avPos.(lng := avPos.lng / 10.0);
        avPosOk := true;
      }
    }

    method Clear()
      modifies this
      ensures View() == RESET
    {
      tmpAvPos, avPos, calcLoadStopPointCnt, avPosOk := ZERO, ZERO, 0, false;
    }
  }

  // ---------------------------------------------------------------- runs

  function After(fixes: seq<Fix>): State {
    if fixes == [] then RESET else Step(After(fixes[..|fixes| - 1]), fixes[|fixes| - 1])
  }

  /** The positions since the last unusable fix. */
  function SinceReset(fixes: seq<Fix>): seq<Position> {
    if fixes == [] || !Usable(fixes[|fixes| - 1]) then []
    else SinceReset(fixes[..|fixes| - 1]) + [fixes[|fixes| - 1].pos]
  }

  function Total(ps: seq<Position>): Position {
    if ps == [] then ZERO else Plus(Total(ps[..|ps| - 1]), ps[|ps| - 1])
  }

  /** Where the latest complete block of ten ends. */
  function Complete(n: nat): nat {
    n / POS_AVER_TIMES * POS_AVER_TIMES
  }

  function LatestBlock(ps: seq<Position>): seq<Position>
    requires |ps| >= POS_AVER_TIMES
  {
    ps[Complete(|ps|) - POS_AVER_TIMES..Complete(|ps|)]
  }

  /** Over every run: the counter is the number of usable fixes since the last reset modulo ten, the sum is
      that of the incomplete block, and the average is valid exactly from the tenth such fix on, being then
      the mean of the latest complete block of ten. */
  lemma {:induction false} AverageOverRuns(fixes: seq<Fix>)
    ensures var s, ps := After(fixes), SinceReset(fixes);
            && s.count == |ps| % POS_AVER_TIMES
            && s.sum == Total(ps[Complete(|ps|)..])
            && (s.ok <==> |ps| >= POS_AVER_TIMES)
            && s.average == if |ps| < POS_AVER_TIMES then ZERO else Tenth(Total(LatestBlock(ps)))
  {
    hide Plus, Tenth, LatestBlock, Complete;
    TailOfNone();
    if fixes != [] && Usable(fixes[|fixes| - 1]) {
      var before := fixes[..|fixes| - 1];
      AverageOverRuns(before);
      BlockStep(SinceReset(before), fixes[|fixes| - 1].pos);
    }
  }

  lemma TailOfNone()
    ensures Complete(0) == 0 && Total([]) == ZERO
  {
  }

  lemma BlockStep(ps: seq<Position>, p: Position)
    ensures var r := ps + [p];
            if |ps| % POS_AVER_TIMES + 1 == POS_AVER_TIMES then
              && Complete(|r|) == |r| && |r| % POS_AVER_TIMES == 0 && |r| >= POS_AVER_TIMES
              && Total(LatestBlock(r)) == Plus(Total(ps[Complete(|ps|)..]), p)
            else
              && Complete(|r|) == Complete(|ps|) && |r| % POS_AVER_TIMES == |ps| % POS_AVER_TIMES + 1
              && Total(r[Complete(|r|)..]) == Plus(Total(ps[Complete(|ps|)..]), p)
              && (|r| >= POS_AVER_TIMES <==> |ps| >= POS_AVER_TIMES)
              && (|r| >= POS_AVER_TIMES ==> LatestBlock(r) == LatestBlock(ps))
  {
    hide Plus, Total, Complete, LatestBlock;
    CompleteStep(|ps|);
    if |ps| % POS_AVER_TIMES + 1 == POS_AVER_TIMES {
      BlockEnds(ps, p, Complete(|ps|));
    } else {
      BlockGoesOn(ps, p, Complete(|ps|));
    }
  }

  lemma BlockEnds(ps: seq<Position>, p: Position, c: nat)
    requires c + POS_AVER_TIMES == |ps| + 1 && Complete(|ps| + 1) == |ps| + 1
    ensures Total(LatestBlock(ps + [p])) == Plus(Total(ps[c..]), p)
  {
    hide Plus, Total, Complete, LatestBlock;
    TotalSnoc(ps[c..], p);
    BlockSlices(ps, p, c);
    LatestIs(ps + [p], |ps| + 1);
  }

  lemma BlockGoesOn(ps: seq<Position>, p: Position, c: nat)
    requires c <= |ps| && Complete(|ps|) == c == Complete(|ps| + 1)
    ensures Total((ps + [p])[c..]) == Plus(Total(ps[c..]), p)
    ensures c >= POS_AVER_TIMES ==> LatestBlock(ps + [p]) == LatestBlock(ps)
  {
    hide Plus, Total, Complete, LatestBlock;
    TotalSnoc(ps[c..], p);
    BlockSlices(ps, p, c);
    if c >= POS_AVER_TIMES {
      LatestIs(ps, c);
      LatestIs(ps + [p], c);
    }
  }

  lemma LatestIs(ps: seq<Position>, c: nat)
    requires POS_AVER_TIMES <= c <= |ps| && Complete(|ps|) == c
    ensures LatestBlock(ps) == ps[c - POS_AVER_TIMES..c]
  {
    hide Complete;
  }

  lemma TotalSnoc(ps: seq<Position>, p: Position)
    ensures Total(ps + [p]) == Plus(Total(ps), p)
  {
    hide Plus;
    assert (ps + [p])[..|ps|] == ps;
  }

  lemma BlockSlices(ps: seq<Position>, p: Position, c: nat)
    requires c <= |ps|
    ensures (ps + [p])[c..] == ps[c..] + [p] && (ps + [p])[c..|ps| + 1] == ps[c..] + [p]
    ensures c >= POS_AVER_TIMES ==> (ps + [p])[c - POS_AVER_TIMES..c] == ps[c - POS_AVER_TIMES..c]
  {
  }

  lemma CompleteStep(n: nat)
    ensures n == Complete(n) + n % POS_AVER_TIMES
    ensures n >= POS_AVER_TIMES ==> Complete(n) >= POS_AVER_TIMES
    ensures if n % POS_AVER_TIMES + 1 == POS_AVER_TIMES
            then Complete(n + 1) == n + 1 && (n + 1) % POS_AVER_TIMES == 0
            else Complete(n + 1) == Complete(n) && (n + 1) % POS_AVER_TIMES == n % POS_AVER_TIMES + 1
  {
  }

  predicate Between(lo: Position, p: Position, hi: Position) {
    lo.lat <= p.lat <= hi.lat && lo.lng <= p.lng <= hi.lng && lo.heading <= p.heading <= hi.heading
  }

  predicate Within(ps: seq<Position>, lo: Position, hi: Position) {
    forall k :: 0 <= k < |ps| ==> Between(lo, ps[k], hi)
  }

  function Times(n: nat, p: Position): Position {
    if n == 0 then ZERO else Plus(Times(n - 1, p), p)
  }

  lemma {:induction false} TotalWithin(ps: seq<Position>, lo: Position, hi: Position)
    requires Within(ps, lo, hi)
    ensures Between(Times(|ps|, lo), Total(ps), Times(|ps|, hi))
  {
    if ps != [] { TotalWithin(ps[..|ps| - 1], lo, hi); }
  }

  lemma {:induction false} TimesIs(n: nat, p: Position)
    ensures Times(n, p) == Position(n as real * p.lat, n as real * p.lng, n as real * p.heading)
  {
    if n > 0 {
      TimesIs(n - 1, p);
      OneMore(n - 1, p.lat);
      OneMore(n - 1, p.lng);
      OneMore(n - 1, p.heading);
    }
  }

  lemma OneMore(n: nat, x: real)
    ensures n as real * x + x == (n + 1) as real * x
  {
  }

  lemma TenthBetween(lo: Position, total: Position, hi: Position, n: nat)
    requires n == POS_AVER_TIMES && Between(Times(n, lo), total, Times(n, hi))
    ensures Between(lo, Tenth(total), hi)
  {
    hide Times;
    TimesIs(n, lo);
    TimesIs(n, hi);
  }

  lemma BlockLength(ps: seq<Position>)
    requires |ps| >= POS_AVER_TIMES
    ensures |LatestBlock(ps)| == POS_AVER_TIMES
  {
  }

  /** A valid average lies within the bounds of its ten samples, in each coordinate. */
  lemma AverageWithin(fixes: seq<Fix>, lo: Position, hi: Position)
    requires After(fixes).ok
    ensures |SinceReset(fixes)| >= POS_AVER_TIMES
    ensures Within(LatestBlock(SinceReset(fixes)), lo, hi) ==> Between(lo, After(fixes).average, hi)
  {
    hide Total, Within, Between, Times, Plus, Tenth, After, SinceReset, LatestBlock, Complete;
    AverageOverRuns(fixes);
    var block := LatestBlock(SinceReset(fixes));
    BlockLength(SinceReset(fixes));
    if Within(block, lo, hi) {
      TotalWithin(block, lo, hi);
      TenthBetween(lo, Total(block), hi, |block|);
    }
  }

  // ---------------------------------------------------------------- one fix

  /** A fix counts exactly when the receiver's state is 2 and the position is not zero in all coordinates; any
      other one starts everything again. */
  lemma FixIs(fixes: seq<Fix>, f: Fix)
    ensures var none := f.gpsState != 2 || (f.pos.lat == 0.0 && f.pos.lng == 0.0 && f.pos.heading == 0.0);
            && SinceReset(fixes + [f]) == (if none then [] else SinceReset(fixes) + [f.pos])
            && (none ==> After(fixes + [f]) == State(0, Position(0.0, 0.0, 0.0), Position(0.0, 0.0, 0.0), false))
  {
    assert (fixes + [f])[..|fixes|] == fixes;
  }

  /** Totals and tenths are taken in each coordinate. */
  lemma TotalIs(ps: seq<Position>, p: Position)
    ensures var t, u := Total(ps), Total(ps + [p]);
            u.lat == t.lat + p.lat && u.lng == t.lng + p.lng && u.heading == t.heading + p.heading
    ensures Total([]) == Position(0.0, 0.0, 0.0)
    ensures 10.0 * Tenth(p).lat == p.lat && 10.0 * Tenth(p).lng == p.lng && 10.0 * Tenth(p).heading == p.heading
  {
    assert (ps + [p])[..|ps|] == ps;
  }
}
