/**
 The queue of vehicles at a work site (`inList` of hmi/HmiFunction/worklistdeal.cpp) and the gateway
 reports that drive it (hmi/HmiFunction/commonuifunction.cpp).
 */
module WorkList {
  import opened Options

  /** A vehicle is identified by its IMEI and name together; both are the strings the source compares. */
  datatype Vehicle = Vehicle(imei: string, name: string)

  datatype Node = Node(id: Vehicle, workState: int)

  const OUT_TASK: int := 0x01
  const IN_TASK: int := 0x02
  const FINISH_TASK: int := 0x03
  const STOP_TASK: int := 0x04
  const RECOVER_TASK: int := 0x05
  const MAN_TASK: int := 0x06
  const RE_IN_TASK: int := 0x07
  const UNLOAD_TASK: int := 0x08
  const RUN: int := 0x09
  const CLEAR_TASK: int := 0x11

  const PARKING: nat := 7
  const CRUSHER: nat := 8

  // ---------------------------------------------------------------- specification of the queue

  /** The first entry of a vehicle, -1 if it has none. */
  function IndexOf(list: seq<Node>, id: Vehicle): (r: int)
    ensures -1 <= r < |list|
    ensures r >= 0 ==> list[r].id == id && forall k :: 0 <= k < r ==> list[k].id != id
    ensures r < 0 ==> forall k :: 0 <= k < |list| ==> list[k].id != id
  {
    if list == [] then -1
    else
      var before := IndexOf(list[..|list| - 1], id);
      if before >= 0 then before
      else if list[|list| - 1].id == id then |list| - 1
      else -1
  }

  function Replaced(list: seq<Node>, e: Node): seq<Node> {
    seq(|list|, i requires 0 <= i < |list| => if list[i].id == e.id then e else list[i])
  }

  function Insert(list: seq<Node>, e: Node): seq<Node> {
    if IndexOf(list, e.id) < 0 then list + [e] else Replaced(list, e)
  }

  function RemoveAt(list: seq<Node>, i: int): seq<Node>
    requires i < |list|
  {
    if i < 0 then list else list[..i] + list[i + 1..]
  }

  function RemoveOne(list: seq<Node>, id: Vehicle): seq<Node> {
    RemoveAt(list, IndexOf(list, id))
  }

  function SetFirst(list: seq<Node>, e: Node): seq<Node> {
    var i := IndexOf(list, e.id);
    if i > 0 then [e] + RemoveAt(list, i) else list
  }

  // ---------------------------------------------------------------- the code of the queue

  class WorkListDeal {
    var inList: seq<Node>

    constructor ()
      ensures inList == []
    {
      inList := [];
    }

    method InsertInList(element: Node)
      modifies this
      ensures inList == Insert(old(inList), element)
    {
      if IndexOf(inList, element.id) < 0 {
        inList := inList + [element];
      } else {
        ghost var before := inList;
        for count := 0 to |inList|
          invariant |inList| == |before|
          invariant forall k :: 0 <= k < count ==> inList[k] == Replaced(before, element)[k]
          invariant forall k :: count <= k < |inList| ==> inList[k] == before[k]
        {
          if inList[count].id == element.id {
            inList := inList[count := element];
          }
        }
        assert inList == Replaced(before, element);
      }
    }

    method SetFirstInList(element: Node)
      modifies this
      ensures inList == SetFirst(old(inList), element)
    {
      var index := IndexOf(inList, element.id);
      if index > 0 {
        inList := inList[..index] + inList[index + 1..];
        inList := [element] + inList;
      }
    }

    method RemoveInList(id: Vehicle)
      modifies this
      ensures inList == RemoveOne(old(inList), id)
    {
      var index := IndexOf(inList, id);
      if index >= 0 {
        inList := inList[..index] + inList[index + 1..];
      }
    }

    method RemoveFirstInList()
      modifies this
      ensures inList == if old(inList) == [] then [] else old(inList)[1..]
    {
      if inList != [] {
        inList := inList[1..];
      }
    }

    method GetFirstInList() returns (node: Option<Node>)
      ensures node == if inList == [] then None else Some(inList[0])
    {
      node := if inList == [] then None else Some(inList[0]);
    }
  }

  // ---------------------------------------------------------------- reports

  /** A report on the planned (0305) or the real-time channel. */
  datatype Report = Report(realTime: bool, cmdType: int, id: Vehicle)

  datatype Effect = Enter(workState: int) | Leave | Nothing

  /** Reports that put the vehicle in the queue, or leave it there, with a new state. */
  const ENTERING: set<int> := {FINISH_TASK, UNLOAD_TASK, STOP_TASK, RECOVER_TASK, MAN_TASK, RE_IN_TASK}

  function EffectOf(r: Report, vehicleType: nat): Effect {
    if r.cmdType == IN_TASK then Enter(if r.realTime then RUN else IN_TASK)
    else if r.cmdType == OUT_TASK || r.cmdType == CLEAR_TASK then Leave
    else if r.cmdType == FINISH_TASK && !r.realTime && vehicleType == PARKING then Leave
    else if r.cmdType in ENTERING then Enter(r.cmdType)
    else Nothing
  }

  function ApplyReport(list: seq<Node>, r: Report, vehicleType: nat): seq<Node> {
    match EffectOf(r, vehicleType)
    case Enter(state) => Insert(list, Node(r.id, state))
    case Leave => RemoveOne(list, r.id)
    case Nothing => list
  }

  method G2hReqWorkRealOptSlot(worklist: WorkListDeal, cmdType: int, id: Vehicle, ghost vehicleType: nat)
    modifies worklist
    ensures worklist.inList == ApplyReport(old(worklist.inList), Report(true, cmdType, id), vehicleType)
  {
    hide Insert, RemoveOne;
    if cmdType == IN_TASK {
      worklist.InsertInList(Node(id, RUN));
    } else if cmdType == OUT_TASK {
      worklist.RemoveInList(id);
    } else if cmdType == FINISH_TASK {
      worklist.InsertInList(Node(id, FINISH_TASK));
    } else if cmdType == UNLOAD_TASK {
      worklist.InsertInList(Node(id, UNLOAD_TASK));
    } else if cmdType == CLEAR_TASK {
      worklist.RemoveInList(id);
    } else if cmdType == STOP_TASK {
      worklist.InsertInList(Node(id, STOP_TASK));
    } else if cmdType == RECOVER_TASK {
      worklist.InsertInList(Node(id, RECOVER_TASK));
    } else if cmdType == MAN_TASK {
      worklist.InsertInList(Node(id, MAN_TASK));
    } else if cmdType == RE_IN_TASK {
      worklist.InsertInList(Node(id, RE_IN_TASK));
    }
  }

  method G2hReqWorkOptSlot(worklist: WorkListDeal, cmdType: int, id: Vehicle, vehicleType: nat)
    modifies worklist
    ensures worklist.inList == ApplyReport(old(worklist.inList), Report(false, cmdType, id), vehicleType)
  {
    hide Insert, RemoveOne;
    if cmdType == IN_TASK {
      worklist.InsertInList(Node(id, IN_TASK));
    } else if cmdType == OUT_TASK {
      worklist.RemoveInList(id);
    } else if cmdType == FINISH_TASK {
      if vehicleType == CRUSHER {
        worklist.InsertInList(Node(id, FINISH_TASK));
      } else if vehicleType == PARKING {
        worklist.RemoveInList(id);
      } else {
        worklist.InsertInList(Node(id, FINISH_TASK));
      }
    } else if cmdType == UNLOAD_TASK {
      worklist.InsertInList(Node(id, UNLOAD_TASK));
    } else if cmdType == CLEAR_TASK {
      worklist.RemoveInList(id);
    } else if cmdType == STOP_TASK {
      worklist.InsertInList(Node(id, STOP_TASK));
    } else if cmdType == RECOVER_TASK {
      worklist.InsertInList(Node(id, RECOVER_TASK));
    } else if cmdType == MAN_TASK {
      worklist.InsertInList(Node(id, MAN_TASK));
    } else if cmdType == RE_IN_TASK {
      worklist.InsertInList(Node(id, RE_IN_TASK));
    }
  }

  // ---------------------------------------------------------------- the queue as a table

  ghost predicate NoDuplicates(list: seq<Node>) {
    forall i, j :: 0 <= i < j < |list| ==> list[i].id != list[j].id
  }

  /** The recorded state of a vehicle, if it is queued. */
  function Lookup(list: seq<Node>, id: Vehicle): Option<int> {
    var i := IndexOf(list, id);
    if i < 0 then None else Some(list[i].workState)
  }

  lemma LookupAt(list: seq<Node>, i: nat)
    requires NoDuplicates(list) && i < |list|
    ensures IndexOf(list, list[i].id) == i && Lookup(list, list[i].id) == Some(list[i].workState)
  {
  }

  lemma InsertTable(list: seq<Node>, e: Node, id: Vehicle)
    requires NoDuplicates(list)
    ensures NoDuplicates(Insert(list, e))
    ensures Lookup(Insert(list, e), id) == if id == e.id then Some(e.workState) else Lookup(list, id)
    ensures IndexOf(list, e.id) >= 0 ==> IndexOf(Insert(list, e), id) == IndexOf(list, id)
    ensures IndexOf(list, e.id) < 0 ==>
              IndexOf(Insert(list, e), id) == if id == e.id then |list| else IndexOf(list, id)
  {
    var t := Insert(list, e);
    if IndexOf(list, e.id) >= 0 {
      assert forall k :: 0 <= k < |list| ==> t[k].id == list[k].id;
    }
  }

  lemma RemoveTable(list: seq<Node>, gone: Vehicle, id: Vehicle)
    requires NoDuplicates(list)
    ensures NoDuplicates(RemoveOne(list, gone))
    ensures Lookup(RemoveOne(list, gone), id) == if id == gone then None else Lookup(list, id)
  {
    var i, t := IndexOf(list, gone), RemoveOne(list, gone);
    if i >= 0 {
      assert forall k :: 0 <= k < |t| ==> t[k] == if k < i then list[k] else list[k + 1];
      var j := IndexOf(list, id);
      if id != gone && j >= 0 {
        assert t[if j < i then j else j - 1] == list[j];
      }
    }
  }

  /** The effect of every report by its number: 1 and 0x11 take the vehicle out; 2 puts it in as 2, or as 9 on
      the real-time channel; 3 takes it out when planned at a parking place (type 7); 3 to 8 otherwise put it in
      with that state; any other number has no effect. */
  lemma EffectTable(r: Report, vehicleType: nat)
    ensures r.cmdType in {0x01, 0x11} ==> EffectOf(r, vehicleType) == Leave
    ensures r.cmdType == 2 ==> EffectOf(r, vehicleType) == Enter(if r.realTime then 9 else 2)
    ensures r.cmdType == 3 && !r.realTime && vehicleType == 7 ==> EffectOf(r, vehicleType) == Leave
    ensures r.cmdType == 3 && (r.realTime || vehicleType != 7) ==> EffectOf(r, vehicleType) == Enter(3)
    ensures 4 <= r.cmdType <= 8 ==> EffectOf(r, vehicleType) == Enter(r.cmdType)
    ensures !(1 <= r.cmdType <= 8) && r.cmdType != 0x11 ==> EffectOf(r, vehicleType) == Nothing
  {
  }

  function Moved(list: seq<Node>, i: nat): seq<Node>
    requires i < |list|
  {
    [list[i]] + list[..i] + list[i + 1..]
  }

  /** Moving to the front keeps every recorded state when the record given is the one in the queue. */
  lemma SetFirstTable(list: seq<Node>, i: nat, id: Vehicle)
    requires NoDuplicates(list) && i < |list|
    ensures NoDuplicates(SetFirst(list, list[i]))
    ensures Lookup(SetFirst(list, list[i]), id) == Lookup(list, id)
    ensures SetFirst(list, list[i])[0] == list[i]
  {
    LookupAt(list, i);
    assert SetFirst(list, list[i]) == Moved(list, i) by {
      if i == 0 { assert Moved(list, i) == list; }
    }
    hide SetFirst;
    MovedTable(list, i, id);
  }

  lemma MovedTable(list: seq<Node>, i: nat, id: Vehicle)
    requires NoDuplicates(list) && i < |list|
    ensures NoDuplicates(Moved(list, i)) && Lookup(Moved(list, i), id) == Lookup(list, id)
  {
    var t := Moved(list, i);
    MovedNoDuplicates(list, i);
    hide Lookup, NoDuplicates;
    var j := IndexOf(list, id);
    if j < 0 {
      assert forall k :: 0 <= k < |t| ==> t[k] in list;
      LookupNone(list, id);
      LookupNone(t, id);
    } else {
      LookupAt(list, j);
      LookupAt(t, if j == i then 0 else if j < i then j + 1 else j);
    }
  }

  lemma MovedNoDuplicates(list: seq<Node>, i: nat)
    requires NoDuplicates(list) && i < |list|
    ensures NoDuplicates(Moved(list, i))
  {
  }

  lemma LookupNone(list: seq<Node>, id: Vehicle)
    ensures Lookup(list, id) == None <==> forall k :: 0 <= k < |list| ==> list[k].id != id
  {
  }

  /** Moving to the front is a permutation exactly when it does nothing or the record given is queued. */
  lemma SetFirstPermutes(list: seq<Node>, e: Node)
    requires NoDuplicates(list)
    ensures multiset(SetFirst(list, e)) == multiset(list) <==> IndexOf(list, e.id) <= 0 || e in list
  {
    var i := IndexOf(list, e.id);
    if i > 0 {
      var others := RemoveAt(list, i);
      assert list == list[..i] + [list[i]] + list[i + 1..];
      assert multiset(list) == multiset(others) + multiset{list[i]};
      assert multiset(SetFirst(list, e)) == multiset(others) + multiset{e};
      if e in list {
        var k :| 0 <= k < |list| && list[k] == e;
        LookupAt(list, k);
      }
      if multiset(SetFirst(list, e)) == multiset(list) {
        assert multiset(list)[list[i]] == multiset(others)[list[i]] + 1;
        assert list[i] == e;
      }
    }
  }

  /** A record that is out of date replaces the queued one, so the list is not permuted. */
  lemma StaleRecord(a: Vehicle, b: Vehicle)
    requires a != b
    ensures var list := [Node(a, IN_TASK), Node(b, IN_TASK)];
            SetFirst(list, Node(b, UNLOAD_TASK)) == [Node(b, UNLOAD_TASK), Node(a, IN_TASK)]
            && multiset(SetFirst(list, Node(b, UNLOAD_TASK))) != multiset(list)
  {
    var list := [Node(a, IN_TASK), Node(b, IN_TASK)];
    assert list[..1] == [Node(a, IN_TASK)] && list[1..] == [Node(b, IN_TASK)];
    assert IndexOf(list, b) == 1;
    SetFirstPermutes(list, Node(b, UNLOAD_TASK));
  }
}
