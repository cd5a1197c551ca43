/** The queue over every run of gateway reports, from an empty queue. */
module QueueRuns {
  import opened Options
  import opened WorkList

  function After(reports: seq<Report>, vehicleType: nat): seq<Node> {
    if reports == [] then []
    else ApplyReport(After(reports[..|reports| - 1], vehicleType), reports[|reports| - 1], vehicleType)
  }

  // ---------------------------------------------------------------- the reference: each vehicle's own reports

  /** The effect of the vehicle's latest recognised report. */
  function LatestEffect(reports: seq<Report>, id: Vehicle, vehicleType: nat): Effect {
    if reports == [] then Nothing
    else
      var r := reports[|reports| - 1];
      if r.id == id && EffectOf(r, vehicleType) != Nothing then EffectOf(r, vehicleType)
      else LatestEffect(reports[..|reports| - 1], id, vehicleType)
  }

  predicate Present(reports: seq<Report>, id: Vehicle, vehicleType: nat) {
    LatestEffect(reports, id, vehicleType).Enter?
  }

  /** The number of the report with which the vehicle entered the queue the last time. */
  function EntryNumber(reports: seq<Report>, id: Vehicle, vehicleType: nat): (n: nat)
    ensures Present(reports, id, vehicleType) ==> n < |reports|
  {
    if reports == [] then 0
    else
      var before, r := reports[..|reports| - 1], reports[|reports| - 1];
      if r.id == id && EffectOf(r, vehicleType).Enter? && !Present(before, id, vehicleType) then |before|
      else EntryNumber(before, id, vehicleType)
  }

  // ---------------------------------------------------------------- refinement

  ghost predicate InEntryOrder(list: seq<Node>, reports: seq<Report>, vehicleType: nat) {
    forall i, j :: 0 <= i < j < |list| ==>
      EntryNumber(reports, list[i].id, vehicleType) < EntryNumber(reports, list[j].id, vehicleType)
  }

  ghost predicate StatesMatch(list: seq<Node>, reports: seq<Report>, vehicleType: nat) {
    forall id :: Lookup(list, id) == match LatestEffect(reports, id, vehicleType)
                                     case Enter(state) => Some(state)
                                     case Leave => None
                                     case Nothing => None
  }

  /** After any reports: no vehicle is queued twice; a vehicle is queued exactly when its latest recognised
      report was not a removing one, with the state of that report; and the queue is in order of entry. */
  lemma {:induction false} QueueRefines(reports: seq<Report>, vehicleType: nat)
    ensures NoDuplicates(After(reports, vehicleType))
    ensures StatesMatch(After(reports, vehicleType), reports, vehicleType)
    ensures InEntryOrder(After(reports, vehicleType), reports, vehicleType)
  {
    if reports != [] {
      QueueRefines(reports[..|reports| - 1], vehicleType);
      ReportKeeps(reports, vehicleType);
    }
  }

  lemma ReportKeeps(reports: seq<Report>, vehicleType: nat)
    requires reports != []
    requires var before := reports[..|reports| - 1];
             && NoDuplicates(After(before, vehicleType))
             && StatesMatch(After(before, vehicleType), before, vehicleType)
             && InEntryOrder(After(before, vehicleType), before, vehicleType)
    ensures NoDuplicates(After(reports, vehicleType))
    ensures StatesMatch(After(reports, vehicleType), reports, vehicleType)
    ensures InEntryOrder(After(reports, vehicleType), reports, vehicleType)
  {
    hide Insert, RemoveOne;
    var before, r := reports[..|reports| - 1], reports[|reports| - 1];
    var list, t := After(before, vehicleType), After(reports, vehicleType);
    TableKeeps(reports, vehicleType);
    match EffectOf(r, vehicleType)
    case Enter(state) => EnterKeepsOrder(list, reports, vehicleType);
    case Leave => LeaveKeepsOrder(list, reports, vehicleType);
    case Nothing =>
  }

  lemma TableKeeps(reports: seq<Report>, vehicleType: nat)
    requires reports != []
    requires NoDuplicates(After(reports[..|reports| - 1], vehicleType))
    requires StatesMatch(After(reports[..|reports| - 1], vehicleType), reports[..|reports| - 1], vehicleType)
    ensures NoDuplicates(After(reports, vehicleType))
    ensures StatesMatch(After(reports, vehicleType), reports, vehicleType)
  {
    hide Insert, RemoveOne, Lookup, NoDuplicates;
    var list, r := After(reports[..|reports| - 1], vehicleType), reports[|reports| - 1];
    match EffectOf(r, vehicleType)
    case Enter(state) =>
      InsertTable(list, Node(r.id, state), r.id);
      forall id { InsertTable(list, Node(r.id, state), id); }
    case Leave =>
      RemoveTable(list, r.id, r.id);
      forall id { RemoveTable(list, r.id, id); }
    case Nothing =>
  }

  /** Being queued is having an entry. */
  lemma PresentIs(list: seq<Node>, reports: seq<Report>, vehicleType: nat, id: Vehicle)
    requires StatesMatch(list, reports, vehicleType)
    ensures Present(reports, id, vehicleType) <==> IndexOf(list, id) >= 0
  {
    assert Lookup(list, id).Some? <==> Present(reports, id, vehicleType);
  }

  lemma EnterKeepsOrder(list: seq<Node>, reports: seq<Report>, vehicleType: nat)
    requires reports != [] && EffectOf(reports[|reports| - 1], vehicleType).Enter?
    requires NoDuplicates(list) && StatesMatch(list, reports[..|reports| - 1], vehicleType)
    requires InEntryOrder(list, reports[..|reports| - 1], vehicleType)
    ensures var r := reports[|reports| - 1];
            InEntryOrder(Insert(list, Node(r.id, EffectOf(r, vehicleType).workState)), reports, vehicleType)
  {
    var before, r := reports[..|reports| - 1], reports[|reports| - 1];
    PresentIs(list, before, vehicleType, r.id);
    forall i | 0 <= i < |list|
      ensures EntryNumber(reports, list[i].id, vehicleType) == EntryNumber(before, list[i].id, vehicleType) < |before|
    {
      PresentIs(list, before, vehicleType, list[i].id);
    }
  }

  lemma LeaveKeepsOrder(list: seq<Node>, reports: seq<Report>, vehicleType: nat)
    requires reports != [] && EffectOf(reports[|reports| - 1], vehicleType).Leave?
    requires InEntryOrder(list, reports[..|reports| - 1], vehicleType)
    ensures InEntryOrder(RemoveOne(list, reports[|reports| - 1].id), reports, vehicleType)
  {
    var before, r := reports[..|reports| - 1], reports[|reports| - 1];
    assert forall id :: EntryNumber(reports, id, vehicleType) == EntryNumber(before, id, vehicleType);
    var i, t := IndexOf(list, r.id), RemoveOne(list, r.id);
    if i >= 0 {
      assert forall k :: 0 <= k < |t| ==> t[k] == if k < i then list[k] else list[k + 1];
    }
  }

  /** The front of the queue, which the handlers fetch: there is one exactly when some vehicle is present,
      and it is the one that entered first, with its latest state. */
  lemma FrontEnteredFirst(reports: seq<Report>, vehicleType: nat)
    ensures var list := After(reports, vehicleType);
            && (list != [] <==> exists id :: Present(reports, id, vehicleType))
            && (list != [] ==>
                  && LatestEffect(reports, list[0].id, vehicleType) == Enter(list[0].workState)
                  && forall id :: Present(reports, id, vehicleType) && id != list[0].id ==>
                       EntryNumber(reports, list[0].id, vehicleType) < EntryNumber(reports, id, vehicleType))
  {
    var list := After(reports, vehicleType);
    QueueRefines(reports, vehicleType);
    hide After, LatestEffect, EntryNumber;
    if list != [] {
      LookupAt(list, 0);
      assert Present(reports, list[0].id, vehicleType);
    }
    forall id | Present(reports, id, vehicleType)
      ensures list != []
      ensures id != list[0].id ==>
                EntryNumber(reports, list[0].id, vehicleType) < EntryNumber(reports, id, vehicleType)
    {
      PresentIs(list, reports, vehicleType, id);
    }
  }

  /** These three facts determine the queue: it is the only list they hold of. */
  lemma QueueDetermined(a: seq<Node>, b: seq<Node>, reports: seq<Report>, vehicleType: nat)
    requires NoDuplicates(a) && StatesMatch(a, reports, vehicleType) && InEntryOrder(a, reports, vehicleType)
    requires NoDuplicates(b) && StatesMatch(b, reports, vehicleType) && InEntryOrder(b, reports, vehicleType)
    ensures a == b
  {
    SameTableSameOrder(a, b, id => EntryNumber(reports, id, vehicleType));
  }

  lemma {:induction false} SameTableSameOrder(a: seq<Node>, b: seq<Node>, key: Vehicle -> nat)
    requires NoDuplicates(a) && NoDuplicates(b)
    requires forall id :: Lookup(a, id) == Lookup(b, id)
    requires forall i, j :: 0 <= i < j < |a| ==> key(a[i].id) < key(a[j].id)
    requires forall i, j :: 0 <= i < j < |b| ==> key(b[i].id) < key(b[j].id)
    ensures a == b
    decreases |a|
  {
    if a == [] {
      if b != [] {
        assert Lookup(a, b[0].id) == None;
        LookupAt(b, 0);
      }
    } else {
      LookupAt(a, 0);
      var k := IndexOf(b, a[0].id);
      LookupAt(b, 0);
      var m := IndexOf(a, b[0].id);
      assert k >= 0 && m >= 0;
      assert k == 0;
      assert a[0] == b[0];
      assert RemoveOne(a, a[0].id) == a[1..] && RemoveOne(b, a[0].id) == b[1..];
      forall id
        ensures Lookup(a[1..], id) == Lookup(b[1..], id)
      {
        RemoveTable(a, a[0].id, id);
        RemoveTable(b, a[0].id, id);
      }
      SameTableSameOrder(a[1..], b[1..], key);
    }
  }
}
