/**
 The stop allocator of the digger and collector screens (hmi/HmiUI/uiDigger/uidigger.cpp and
 hmi/HmiUI/uiCollector/uicollector.cpp): a cyclic search for a free stop and two maps that record who has
 which.  Vehicles are told apart by IMEI, as the maps' keys are.
 */
module Stops {
  import opened Options

  type Imei = string

  datatype State = State(current: nat, stopOf: map<Imei, nat>, heldBy: map<nat, Imei>)

  // ---------------------------------------------------------------- specification

  /** The search step: two further, wrapping from the odd numbers to 2 and from the even ones to 1. */
  function Next(c: nat, n: nat): nat {
    if c + 2 > n then (if (c + 2) % 2 == 1 then 2 else 1) else c + 2
  }

  /** The first stop not taken among the next `left` ones. */
  function Search(c: nat, n: nat, taken: set<nat>, left: nat): Option<nat>
    decreases left
  {
    if left == 0 then None
    else if Next(c, n) !in taken then Some(Next(c, n))
    else Search(Next(c, n), n, taken, left - 1)
  }

  /** Recording a stop for a vehicle, which gives up the one it had. */
  function Record(s: State, imei: Imei, stop: nat): State {
    var heldBy := if imei in s.stopOf then s.heldBy - {s.stopOf[imei]} else s.heldBy;
    State(stop, s.stopOf[imei := stop], heldBy[stop := imei])
  }

  /** Letting a vehicle in at a site with `n` stops. */
  function AllocateStep(s: State, imei: Imei, n: nat): State {
    if s.current > n then s
    else if n < 2 then State(1, s.stopOf[imei := 1], s.heldBy[1 := imei])
    else match Search(s.current, n, s.heldBy.Keys, n)
      case None => s
      case Some(stop) => Record(s, imei, stop)
  }

  /** The stop whose position is sent to the vehicle: the current one, before the search. */
  function SentStop(s: State, n: nat): Option<nat> {
    if s.current <= n then Some(s.current) else None
  }

  function ReleaseStep(s: State, imei: Imei): State {
    if imei in s.stopOf then State(s.current, s.stopOf - {imei}, s.heldBy - {s.stopOf[imei]}) else s
  }

  /** Starting the search again at the first stop; the records stay. */
  function RestartStep(s: State): State {
    s.(current := 1)
  }

  // ---------------------------------------------------------------- the code

  class StopAllocator {
    var currentStopNum: nat
    var imeiStopNumMap: map<Imei, nat>
    var stopNumImeiMap: map<nat, Imei>

    constructor ()
      ensures View() == State(1, map[], map[])
    {
      currentStopNum, imeiStopNumMap, stopNumImeiMap := 1, map[], map[];
    }

    function View(): State
      reads this
    {
      State(currentStopNum, imeiStopNumMap, stopNumImeiMap)
    }

    /** The drive-in button, once the chosen vehicle's state allows it; returns the stop number whose
        position is sent. */
    method Allocate(imei: Imei, stopCount: nat) returns (sent: Option<nat>)
      requires currentStopNum >= 1
      modifies this
      ensures View() == AllocateStep(old(View()), imei, stopCount)
      ensures sent == SentStop(old(View()), stopCount)
    {
      sent := None;
      if currentStopNum <= stopCount {
        sent := Some(currentStopNum);
        if stopCount < 2 {
          currentStopNum := 1;
          stopNumImeiMap := stopNumImeiMap[currentStopNum := imei];
          imeiStopNumMap := imeiStopNumMap[imei := currentStopNum];
        } else {
          SearchFree(imei, stopCount);
        }
      }
    }

    method SearchFree(imei: Imei, stopCount: nat)
      requires 2 <= stopCount && 1 <= currentStopNum <= stopCount
      modifies this
      ensures View() == AllocateStep(old(View()), imei, stopCount)
    {
      ghost var start := View();
      for count := 0 to stopCount
        invariant imeiStopNumMap == start.stopOf && stopNumImeiMap == start.heldBy
        invariant currentStopNum == Iterate(start.current, stopCount, count)
        invariant Search(start.current, stopCount, start.heldBy.Keys, stopCount)
               == Search(currentStopNum, stopCount, start.heldBy.Keys, stopCount - count)
      {
        Advance(stopCount);
        if currentStopNum !in stopNumImeiMap {
          TakeStop(imei);
          return;
        }
      }
      FullCycle(start.current, stopCount);
    }

    method Advance(stopCount: nat)
      modifies `currentStopNum
      ensures currentStopNum == Next(old(currentStopNum), stopCount)
    {
      currentStopNum := currentStopNum + 2;
      if currentStopNum > stopCount {
        if currentStopNum % 2 == 1 {
          currentStopNum := 2;
        } else {
          currentStopNum := 1;
        }
      }
    }

    method TakeStop(imei: Imei)
      modifies `imeiStopNumMap, `stopNumImeiMap
      ensures View() == Record(old(View()), imei, currentStopNum)
    {
      ghost var stopOf := imeiStopNumMap;
      if imei in imeiStopNumMap {
        var oldstopnum := imeiStopNumMap[imei];
        imeiStopNumMap := imeiStopNumMap - {imei};
        stopNumImeiMap := stopNumImeiMap - {oldstopnum};
      }
      stopNumImeiMap := stopNumImeiMap[currentStopNum := imei];
      imeiStopNumMap := imeiStopNumMap[imei := currentStopNum];
      assert imeiStopNumMap == stopOf[imei := currentStopNum];
    }

    /** Clearing or releasing a vehicle. */
    method Release(imei: Imei)
      modifies this
      ensures View() == ReleaseStep(old(View()), imei)
    {
      if imei in imeiStopNumMap {
        var stopnum := imeiStopNumMap[imei];
        stopNumImeiMap := stopNumImeiMap - {stopnum};
        imeiStopNumMap := imeiStopNumMap - {imei};
      }
    }

    /** The button that goes on with the boundary in use, when its stop list is kept. */
    method UseCurBoundary()
      modifies this
      ensures View() == RestartStep(old(View()))
    {
      currentStopNum := 1;
    }
  }

  // ---------------------------------------------------------------- the search step is one cycle

  function Iterate(c: nat, n: nat, k: nat): nat {
    if k == 0 then c else Next(Iterate(c, n, k - 1), n)
  }

  /** The place of a stop in the order 1, 3, 5, ..., 2, 4, 6, ... */
  function Place(c: nat, n: nat): nat
    requires 1 <= c <= n
  {
    if c % 2 == 1 then c / 2 else (n + 1) / 2 + c / 2 - 1
  }

  function AtPlace(p: nat, n: nat): nat
    requires p < n
  {
    if p < (n + 1) / 2 then 2 * p + 1 else 2 * (p - (n + 1) / 2) + 2
  }

  lemma PlaceInverse(c: nat, p: nat, n: nat)
    requires 1 <= c <= n && p < n
    ensures Place(c, n) < n && AtPlace(Place(c, n), n) == c
    ensures 1 <= AtPlace(p, n) <= n && Place(AtPlace(p, n), n) == p
  {
    var m, q := n / 2, n % 2;
    Half(c, c / 2, c % 2);
    Half(n + 1, m + q, 1 - q);
    if p < m + q {
      Half(2 * p + 1, p, 1);
    } else {
      Half(2 * (p - (m + q)) + 2, p - (m + q) + 1, 0);
    }
  }

  lemma NextPlace(c: nat, n: nat)
    requires 1 <= c <= n && n >= 2
    ensures 1 <= Next(c, n) <= n
    ensures Place(Next(c, n), n) == if Place(c, n) + 1 == n then 0 else Place(c, n) + 1
  {
    var h, p, m, q := c / 2, c % 2, n / 2, n % 2;
    Half(c, h, p);
    Half(c + 2, h + 1, p);
    Half(n, m, q);
    Half(n + 1, m + q, 1 - q);
    assert Place(c, n) == if p == 1 then h else m + q + h - 1;
  }

  lemma Half(x: nat, h: nat, r: nat)
    requires x == 2 * h + r && r < 2
    ensures x / 2 == h && x % 2 == r
  {
  }

  lemma {:induction false} IteratePlace(c: nat, n: nat, k: nat)
    requires 1 <= c <= n && n >= 2 && k <= n
    ensures 1 <= Iterate(c, n, k) <= n
    ensures Place(c, n) < n
    ensures Place(Iterate(c, n, k), n) == if Place(c, n) + k < n then Place(c, n) + k else Place(c, n) + k - n
  {
    PlaceInverse(c, 0, n);
    if k > 0 {
      IteratePlace(c, n, k - 1);
      NextPlace(Iterate(c, n, k - 1), n);
    }
  }

  predicate IsStop(d: nat, n: nat) {
    1 <= d <= n
  }

  /** The step leads from `c` to `d` in `k` turns, 1 <= k <= n. */
  predicate Leads(c: nat, n: nat, k: nat, d: nat) {
    1 <= k <= n && Iterate(c, n, k) == d
  }

  /** The step's iterates run through all of 1..n once and come back: one n-cycle. */
  lemma FullCycle(c: nat, n: nat)
    requires 1 <= c <= n && n >= 2
    ensures Iterate(c, n, n) == c
    ensures forall d :: IsStop(d, n) ==> exists k :: Leads(c, n, k, d)
    ensures forall j, k, d :: Leads(c, n, j, d) && Leads(c, n, k, d) ==> j == k
  {
    hide Iterate, Place, AtPlace;
    forall d | IsStop(d, n)
      ensures exists k :: Leads(c, n, k, d)
    {
      var k := IterateReaches(c, n, d);
    }
    forall j, k, d | Leads(c, n, j, d) && Leads(c, n, k, d)
      ensures j == k
    {
      IteratePlace(c, n, j);
      IteratePlace(c, n, k);
    }
    IteratePlace(c, n, n);
    PlaceInverse(c, 0, n);
    PlaceInverse(Iterate(c, n, n), 0, n);
  }

  lemma IterateReaches(c: nat, n: nat, d: nat) returns (k: nat)
    requires 1 <= c <= n && n >= 2 && IsStop(d, n)
    ensures Leads(c, n, k, d)
  {
    hide Iterate, Place, AtPlace;
    PlaceInverse(c, 0, n);
    PlaceInverse(d, 0, n);
    k := if Place(d, n) > Place(c, n) then Place(d, n) - Place(c, n) else Place(d, n) - Place(c, n) + n;
    IteratePlace(c, n, k);
    PlaceInverse(Iterate(c, n, k), 0, n);
  }

  /** The stop `k` turns on is free and all before it are taken. */
  ghost predicate FirstFree(c: nat, n: nat, taken: set<nat>, stop: nat, k: nat) {
    Leads(c, n, k, stop) && stop !in taken && forall j :: 1 <= j < k ==> Iterate(c, n, j) in taken
  }

  /** The search finds the first free stop of the cycle. */
  lemma {:induction false} SearchFirst(c: nat, n: nat, taken: set<nat>, done: nat) returns (k: nat)
    requires done <= n && forall j :: 1 <= j <= done ==> Iterate(c, n, j) in taken
    ensures match Search(Iterate(c, n, done), n, taken, n - done)
            case None => forall j :: 1 <= j <= n ==> Iterate(c, n, j) in taken
            case Some(stop) => FirstFree(c, n, taken, stop, k)
    decreases n - done
  {
    k := done + 1;
    if done < n {
      assert Iterate(c, n, done + 1) == Next(Iterate(c, n, done), n);
      if Iterate(c, n, done + 1) in taken {
        k := SearchFirst(c, n, taken, done + 1);
      }
    }
  }

  /** The loop finds a stop exactly when one of 1..n is free, and then it is the first free one in cyclic
      order behind the current one. */
  lemma SearchComplete(c: nat, n: nat, taken: set<nat>)
    requires 1 <= c <= n && n >= 2
    ensures Search(c, n, taken, n).Some? <==> exists d :: IsStop(d, n) && d !in taken
    ensures Search(c, n, taken, n).Some? ==>
              IsStop(Search(c, n, taken, n).value, n)
              && exists k :: FirstFree(c, n, taken, Search(c, n, taken, n).value, k)
  {
    var k := SearchFirst(c, n, taken, 0);
    FullCycle(c, n);
    hide Search;
    if Search(c, n, taken, n).Some? {
      IteratePlace(c, n, k);
    } else {
      forall d | IsStop(d, n)
        ensures d in taken
      {
        var j :| Leads(c, n, j, d);
      }
    }
  }

  // ---------------------------------------------------------------- the maps over runs

  ghost predicate Inverse(s: State) {
    && (forall imei :: imei in s.stopOf ==> s.stopOf[imei] in s.heldBy && s.heldBy[s.stopOf[imei]] == imei)
    && (forall stop :: stop in s.heldBy ==> s.heldBy[stop] in s.stopOf && s.stopOf[s.heldBy[stop]] == stop)
  }

  ghost predicate InRange(s: State, n: nat) {
    1 <= s.current <= n && forall stop :: stop in s.heldBy ==> 1 <= stop <= n
  }

  datatype Action = Allocate(imei: Imei) | Release(imei: Imei) | Restart

  function Apply(s: State, a: Action, n: nat): State {
    match a
    case Allocate(imei) => AllocateStep(s, imei, n)
    case Release(imei) => ReleaseStep(s, imei)
    case Restart => RestartStep(s)
  }

  function After(actions: seq<Action>, n: nat): State {
    if actions == [] then State(1, map[], map[])
    else Apply(After(actions[..|actions| - 1], n), actions[|actions| - 1], n)
  }

  lemma AllocateKeeps(s: State, imei: Imei, n: nat)
    requires n >= 2 && Inverse(s) && InRange(s, n)
    ensures Inverse(AllocateStep(s, imei, n)) && InRange(AllocateStep(s, imei, n), n)
  {
    SearchComplete(s.current, n, s.heldBy.Keys);
    hide Search, Next, Iterate;
  }

  /** With two stops or more the maps are mutually inverse after every run: no stop is recorded for two
      vehicles, no vehicle for two stops, and at most n stops are held. */
  lemma {:induction false} RunKeepsInverse(actions: seq<Action>, n: nat)
    requires n >= 2
    ensures Inverse(After(actions, n)) && InRange(After(actions, n), n)
    ensures |After(actions, n).heldBy| <= n && |After(actions, n).stopOf| == |After(actions, n).heldBy|
  {
    if actions != [] {
      RunKeepsInverse(actions[..|actions| - 1], n);
      var s := After(actions[..|actions| - 1], n);
      match actions[|actions| - 1]
      case Allocate(imei) => AllocateKeeps(s, imei, n);
      case Release(imei) =>
      case Restart =>
    }
    AtMost(After(actions, n).heldBy.Keys, n);
    SameSize(After(actions, n));
  }

  lemma {:induction false} AtMost(stops: set<nat>, n: nat)
    requires forall stop :: stop in stops ==> 1 <= stop <= n
    ensures |stops| <= n
  {
    if n > 0 {
      AtMost(stops - {n}, n - 1);
    } else {
      assert stops == {};
    }
  }

  lemma {:induction false} SameSize(s: State)
    requires Inverse(s)
    ensures |s.stopOf| == |s.heldBy|
    decreases |s.stopOf|
  {
    if s.stopOf.Keys == {} {
      assert forall stop :: stop in s.heldBy ==> s.heldBy[stop] in s.stopOf.Keys;
      assert s.heldBy.Keys == {};
    } else {
      var imei :| imei in s.stopOf.Keys;
      var t := ReleaseStep(s, imei);
      assert t.stopOf.Keys == s.stopOf.Keys - {imei} && t.heldBy.Keys == s.heldBy.Keys - {s.stopOf[imei]};
      SameSize(t);
    }
  }

  // ---------------------------------------------------------------- what one action does

  /** The stops of all vehicles but one are as they were. */
  ghost predicate OthersKeep(s: State, t: State, imei: Imei) {
    forall other :: other != imei ==>
      (other in t.stopOf <==> other in s.stopOf) && (other in s.stopOf ==> t.stopOf[other] == s.stopOf[other])
  }

  /** Letting a vehicle in changes nothing when every stop is taken.  Otherwise the vehicle gets the first free
      stop behind the current one, which becomes the current one, and no other vehicle's stop changes. */
  lemma AllocateIs(s: State, imei: Imei, n: nat)
    requires n >= 2 && Inverse(s) && InRange(s, n)
    ensures var t := AllocateStep(s, imei, n);
            if forall d :: IsStop(d, n) ==> d in s.heldBy then t == s
            else
              && imei in t.stopOf && t.current == t.stopOf[imei]
              && t.current in t.heldBy && t.heldBy[t.current] == imei
              && (exists k :: FirstFree(s.current, n, s.heldBy.Keys, t.current, k))
              && OthersKeep(s, t, imei)
  {
    SearchComplete(s.current, n, s.heldBy.Keys);
    hide Search, Next, Iterate, FirstFree;
  }

  /** A vehicle let go has no stop, its stop is free, and every other record is as it was. */
  lemma ReleaseIs(s: State, imei: Imei)
    requires Inverse(s)
    ensures var t := ReleaseStep(s, imei);
            && imei !in t.stopOf && (forall stop :: stop in t.heldBy ==> t.heldBy[stop] != imei)
            && (forall stop :: stop in s.heldBy && s.heldBy[stop] != imei ==>
                  stop in t.heldBy && t.heldBy[stop] == s.heldBy[stop])
            && OthersKeep(s, t, imei) && t.current == s.current && Inverse(t)
  {
  }

  /** Starting again sets the search back to stop 1 and keeps every record. */
  lemma RestartIs(s: State)
    ensures RestartStep(s) == State(1, s.stopOf, s.heldBy)
  {
  }

  /** Behind the end of the stop list nothing is sent and nothing changes. */
  lemma NoStopLeft(s: State, imei: Imei, n: nat)
    requires s.current > n
    ensures SentStop(s, n) == None && AllocateStep(s, imei, n) == s
  {
  }

  /** From stop 1 the search goes through the odd stops upwards and then through the even ones. */
  lemma {:induction false} CycleOrder(n: nat, k: nat)
    requires n >= 2 && k < n
    ensures Iterate(1, n, k) == if 2 * k + 1 <= n then 2 * k + 1 else 2 * (k - (n - 1) / 2)
  {
    if k > 0 {
      CycleOrder(n, k - 1);
      var m := (n - 1) / 2;
      if n % 2 == 1 { assert n == 2 * m + 1; } else { assert n == 2 * m + 2; }
      var c := Iterate(1, n, k - 1);
      if 2 * k - 1 <= n {
        Half(c + 2, k, 1);
      } else {
        Half(c + 2, k - m, 0);
      }
    }
  }

  // ---------------------------------------------------------------- what the code does not promise

  /** With a single stop the maps stay inverse exactly when no other vehicle holds it.  The stop sent is
      then always the one recorded. */
  lemma SingleStop(s: State, imei: Imei)
    requires Inverse(s) && InRange(s, 1)
    ensures Inverse(AllocateStep(s, imei, 1)) <==> (1 in s.heldBy ==> s.heldBy[1] == imei)
    ensures SentStop(s, 1) == Some(AllocateStep(s, imei, 1).stopOf[imei]) == Some(1)
    ensures AllocateStep(s, imei, 1).heldBy == map[1 := imei]
    ensures AllocateStep(s, imei, 1).current == 1 && OthersKeep(s, AllocateStep(s, imei, 1), imei)
  {
    var t := AllocateStep(s, imei, 1);
    if 1 in s.heldBy {
      var other := s.heldBy[1];
      assert t.stopOf[other] == 1 && t.heldBy[1] == imei;
    }
  }

  lemma AfterTwo(a: Action, b: Action, n: nat)
    ensures After([a], n) == Apply(State(1, map[], map[]), a, n)
    ensures After([a, b], n) == Apply(After([a], n), b, n)
  {
    assert [a][..0] == [] && [a, b][..1] == [a];
  }

  /** A run to such a state: a second vehicle at a site with one stop. */
  lemma SecondVehicle(a: Imei, b: Imei)
    requires a != b
    ensures !Inverse(After([Allocate(a), Allocate(b)], 1))
  {
    AfterTwo(Allocate(a), Allocate(b), 1);
    var t := After([Allocate(a), Allocate(b)], 1);
    assert t.stopOf[a] == 1 && t.heldBy[1] == b;
  }

  /** The stop sent to a vehicle is the one then recorded for it exactly when every other stop is taken and
      the sent one is free or already its own. */
  lemma SentIsRecorded(s: State, imei: Imei, n: nat)
    requires n >= 2 && Inverse(s) && InRange(s, n)
    ensures var t := AllocateStep(s, imei, n);
            imei in t.stopOf && SentStop(s, n) == Some(t.stopOf[imei])
            <==> (forall d :: IsStop(d, n) && d != s.current ==> d in s.heldBy)
                 && (s.current in s.heldBy ==> s.heldBy[s.current] == imei)
  {
    SearchEnds(s.current, n, s.heldBy.Keys);
    hide Search, Next, Iterate, Leads;
    if imei in s.stopOf && s.stopOf[imei] == s.current {
      assert s.heldBy[s.current] == imei;
    }
  }

  /** The search comes back to where it started exactly when all the other stops are taken and that one is
      free, and finds nothing exactly when it is taken too. */
  lemma SearchEnds(c: nat, n: nat, taken: set<nat>)
    requires 1 <= c <= n && n >= 2
    ensures var others := forall d :: IsStop(d, n) && d != c ==> d in taken;
            && (Search(c, n, taken, n) == Some(c) <==> others && c !in taken)
            && (Search(c, n, taken, n) == None <==> others && c in taken)
  {
    SearchComplete(c, n, taken);
    FullCycle(c, n);
    hide Search, Next, Iterate;
    if Search(c, n, taken, n).Some? {
      var stop := Search(c, n, taken, n).value;
      var k :| FirstFree(c, n, taken, stop, k);
      if stop == c {
        assert Leads(c, n, n, c);
        forall d | IsStop(d, n) && d != c
          ensures d in taken
        {
          var j :| Leads(c, n, j, d);
        }
      }
    } else {
      assert IsStop(c, n);
    }
  }

  /** Runs on both sides: the first vehicle at a site is sent to stop 1 and recorded at another one; when
      both stops of a site are held, a vehicle let in again is sent to the stop it has. */
  lemma FirstVehicle(a: Imei, b: Imei, n: nat)
    requires n >= 2 && a != b
    ensures var t := After([Allocate(a)], n);
            SentStop(After([], n), n) == Some(1) && a in t.stopOf && t.stopOf[a] != 1
    ensures var s := After([Allocate(a), Allocate(b)], 2);
            s.stopOf == map[a := 2, b := 1] && SentStop(s, 2) == Some(AllocateStep(s, b, 2).stopOf[b])
  {
    AfterTwo(Allocate(a), Allocate(b), n);
    AfterTwo(Allocate(a), Allocate(b), 2);
    var s0, s1 := State(1, map[], map[]), State(2, map[a := 2], map[2 := a]);
    assert s0.heldBy.Keys == {} && Search(1, 2, {}, 2) == Some(2);
    assert After([Allocate(a)], 2) == s1;
    assert s1.heldBy.Keys == {2} && Search(2, 2, {2}, 2) == Some(1);
    var s := State(1, map[a := 2, b := 1], map[2 := a, 1 := b]);
    assert AllocateStep(s1, b, 2) == s;
    assert s.heldBy.Keys == {1, 2};
    SearchEnds(1, 2, {1, 2});
    assert AllocateStep(s0, a, n) == Record(s0, a, Next(1, n));
  }
}
