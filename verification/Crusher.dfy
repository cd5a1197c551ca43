/**
 The crusher station's screen (hmi/HmiUI/uiCrush/uicrush.cpp): operator buttons that reorder and edit the
 shared vehicle queue and send grants to vehicles.  The row selected in the vehicle table, whether that row
 shows a vehicle, and whether the drive-in button is checked are inputs.
 */
module Crusher {
  import opened Options
  import opened WorkList

  /** What concerns one vehicle, in order: its reports, the operator's overrides and removals, and the
      grants sent to it. */
  datatype Event =
    | Reported(id: Vehicle, effect: Effect)
    | Overridden(id: Vehicle, workState: int)
    | Cleared(id: Vehicle)
    | Granted(id: Vehicle, cmdType: int)

  datatype Site = Site(queue: seq<Node>, trace: seq<Event>)

  datatype Action =
    | Report(report: WorkList.Report)
    | RunWork(row: int, hasItem: bool, checked: bool)
    | OverOut(row: int, hasItem: bool)
    | AbnormalOk(row: int, hasItem: bool, choice: int)
    | Abnormal(row: int, hasItem: bool)
    | Emergence(row: int, hasItem: bool)

  // ---------------------------------------------------------------- specification

  /** A selected row that shows a vehicle is a position in the queue; the source indexes the queue with it. */
  predicate Selectable(queue: seq<Node>, row: int, hasItem: bool) {
    row > 0 && hasItem ==> row < |queue|
  }

  /** The queue after the selection has been moved to the front. */
  function Selected(queue: seq<Node>, row: int, hasItem: bool): seq<Node>
    requires Selectable(queue, row, hasItem)
  {
    if row > 0 && hasItem then SetFirst(queue, queue[row]) else queue
  }

  /** The handlers act on the front vehicle, unless the row lies behind the queue. */
  predicate Acts(queue: seq<Node>, row: int) {
    queue != [] && |queue| > row
  }

  function RunWorkStep(s: Site, row: int, hasItem: bool, checked: bool, vehicleType: nat): Site
    requires Selectable(s.queue, row, hasItem)
  {
    var queue := Selected(s.queue, row, hasItem);
    if !Acts(queue, row) then Site(queue, s.trace)
    else
      var first := queue[0];
      if checked && vehicleType == CRUSHER then
        Site(queue, s.trace + if first.workState == FINISH_TASK then [Granted(first.id, UNLOAD_TASK)] else [])
      else
        Site(queue, s.trace + if first.workState == IN_TASK || first.workState == RECOVER_TASK
                              then [Granted(first.id, IN_TASK)] else [])
  }

  function OverOutStep(s: Site, row: int, hasItem: bool): Site
    requires Selectable(s.queue, row, hasItem)
  {
    var queue := Selected(s.queue, row, hasItem);
    if Acts(queue, row) && queue[0].workState == UNLOAD_TASK
    then Site(RemoveOne(queue, queue[0].id), s.trace + [Granted(queue[0].id, OUT_TASK)])
    else Site(queue, s.trace)
  }

  function ClearStep(s: Site, row: int, hasItem: bool): Site
    requires Selectable(s.queue, row, hasItem)
  {
    var queue := Selected(s.queue, row, hasItem);
    if Acts(queue, row) then Site(queue[1..], s.trace + [Cleared(queue[0].id)]) else Site(queue, s.trace)
  }

  function OverrideStep(s: Site, row: int, hasItem: bool, state: int): Site
    requires Selectable(s.queue, row, hasItem)
  {
    var queue := Selected(s.queue, row, hasItem);
    if Acts(queue, row)
    then Site(Insert(queue, Node(queue[0].id, state)),
              s.trace + [Granted(queue[0].id, state), Overridden(queue[0].id, state)])
    else Site(queue, s.trace)
  }

  /** Sending an order that changes nothing in the queue. */
  function OrderStep(s: Site, row: int, hasItem: bool, cmdType: int): Site
    requires Selectable(s.queue, row, hasItem)
  {
    var queue := Selected(s.queue, row, hasItem);
    Site(queue, s.trace + if Acts(queue, row) then [Granted(queue[0].id, cmdType)] else [])
  }

  /** The abnormal-situation page: without a checked choice (0 here) nothing happens at all. */
  function AbnormalOkStep(s: Site, row: int, hasItem: bool, choice: int): Site
    requires choice != 0 ==> Selectable(s.queue, row, hasItem)
  {
    if choice == 0 then s
    else if choice == 1 then OverrideStep(s, row, hasItem, MAN_TASK)
    else if choice == 2 then OverrideStep(s, row, hasItem, RE_IN_TASK)
    else if choice == 3 then ClearStep(s, row, hasItem)
    else if choice == 4 then OrderStep(s, row, hasItem, RECOVER_TASK)
    else Site(Selected(s.queue, row, hasItem), s.trace)
  }

  function ReportStep(s: Site, r: WorkList.Report, vehicleType: nat): Site {
    Site(ApplyReport(s.queue, r, vehicleType), s.trace + [Reported(r.id, EffectOf(r, vehicleType))])
  }

  predicate Enabled(s: Site, a: Action) {
    match a
    case Report(_) => true
    case RunWork(row, hasItem, _) => Selectable(s.queue, row, hasItem)
    case OverOut(row, hasItem) => Selectable(s.queue, row, hasItem)
    case AbnormalOk(row, hasItem, choice) => choice != 0 ==> Selectable(s.queue, row, hasItem)
    case Abnormal(row, hasItem) => Selectable(s.queue, row, hasItem)
    case Emergence(row, hasItem) => Selectable(s.queue, row, hasItem)
  }

  function Apply(s: Site, a: Action, vehicleType: nat): Site
    requires Enabled(s, a)
  {
    match a
    case Report(r) => ReportStep(s, r, vehicleType)
    case RunWork(row, hasItem, checked) => RunWorkStep(s, row, hasItem, checked, vehicleType)
    case OverOut(row, hasItem) => OverOutStep(s, row, hasItem)
    case AbnormalOk(row, hasItem, choice) => AbnormalOkStep(s, row, hasItem, choice)
    case Abnormal(row, hasItem) => ClearStep(s, row, hasItem)
    case Emergence(row, hasItem) => OrderStep(s, row, hasItem, STOP_TASK)
  }

  // ---------------------------------------------------------------- the code

  class UiCrush {
    const worklist: WorkListDeal
    const vehicleType: nat
    /** The reports, overrides, removals and grants so far. */
    var trace: seq<Event>

    constructor (worklist: WorkListDeal, vehicleType: nat)
      ensures this.worklist == worklist && this.vehicleType == vehicleType && trace == []
    {
      this.worklist, this.vehicleType, trace := worklist, vehicleType, [];
    }

    function View(): Site
      reads this, worklist
    {
      Site(worklist.inList, trace)
    }

    /** Common start of the handlers: move the selected vehicle to the front and fetch the front one. */
    method SelectFirst(selectedRow: int, hasItem: bool) returns (firstNode: Option<Node>)
      requires Selectable(worklist.inList, selectedRow, hasItem)
      modifies worklist
      ensures worklist.inList == Selected(old(worklist.inList), selectedRow, hasItem)
      ensures firstNode == if worklist.inList == [] then None else Some(worklist.inList[0])
    {
      hide SetFirst;
      firstNode := None;
      if selectedRow >= 0 {
        if hasItem && selectedRow != 0 {
          worklist.SetFirstInList(worklist.inList[selectedRow]);
        }
        if |worklist.inList| != 0 {
          firstNode := Some(worklist.inList[0]);
        }
      } else {
        firstNode := worklist.GetFirstInList();
      }
    }

    method OnUnLoadRunWorkBtnClicked(selectedRow: int, hasItem: bool, isChecked: bool)
      requires Selectable(worklist.inList, selectedRow, hasItem)
      modifies this, worklist
      ensures View() == RunWorkStep(old(View()), selectedRow, hasItem, isChecked, vehicleType)
    {
      hide Selected;
      var firstNode := SelectFirst(selectedRow, hasItem);
      if firstNode.Some? && |worklist.inList| > selectedRow {
        var node := firstNode.value;
        if isChecked && vehicleType == CRUSHER {
          if node.workState == FINISH_TASK {
            trace := trace + [Granted(node.id, UNLOAD_TASK)];
          }
        } else {
          if node.workState == IN_TASK || node.workState == RECOVER_TASK {
            trace := trace + [Granted(node.id, IN_TASK)];
          }
        }
      }
    }

    method OnUnLoadOverOutBtnClicked(selectedRow: int, hasItem: bool)
      requires Selectable(worklist.inList, selectedRow, hasItem)
      modifies this, worklist
      ensures View() == OverOutStep(old(View()), selectedRow, hasItem)
    {
      hide Selected, RemoveOne;
      var firstNode := SelectFirst(selectedRow, hasItem);
      if firstNode.Some? && |worklist.inList| > selectedRow {
        var node := firstNode.value;
        if node.workState == UNLOAD_TASK {
          trace := trace + [Granted(node.id, OUT_TASK)];
          worklist.RemoveInList(node.id);
        }
      }
    }

    method OnAbnormalOkBtnClicked(selectedRow: int, hasItem: bool, checkedId: int)
      requires checkedId != 0 ==> Selectable(worklist.inList, selectedRow, hasItem)
      modifies this, worklist
      ensures View() == AbnormalOkStep(old(View()), selectedRow, hasItem, checkedId)
    {
      hide Selected, Insert;
      if checkedId != 0 {
        var firstNode := SelectFirst(selectedRow, hasItem);
        if firstNode.Some? && |worklist.inList| > selectedRow {
          var node := firstNode.value;
          if checkedId == 1 {
            trace := trace + [Granted(node.id, MAN_TASK), Overridden(node.id, MAN_TASK)];
            worklist.InsertInList(Node(node.id, MAN_TASK));
          } else if checkedId == 2 {
            trace := trace + [Granted(node.id, RE_IN_TASK), Overridden(node.id, RE_IN_TASK)];
            worklist.InsertInList(Node(node.id, RE_IN_TASK));
          } else if checkedId == 3 {
            trace := trace + [Cleared(node.id)];
            worklist.RemoveFirstInList();
          } else if checkedId == 4 {
            trace := trace + [Granted(node.id, RECOVER_TASK)];
          }
        }
      }
    }

    method OnAbnormalBtnClicked(selectedRow: int, hasItem: bool)
      requires Selectable(worklist.inList, selectedRow, hasItem)
      modifies this, worklist
      ensures View() == ClearStep(old(View()), selectedRow, hasItem)
    {
      hide Selected;
      var firstNode := SelectFirst(selectedRow, hasItem);
      if firstNode.Some? && |worklist.inList| > selectedRow {
        trace := trace + [Cleared(firstNode.value.id)];
        worklist.RemoveFirstInList();
      }
    }

    method OnEmergenceBtnClicked(selectedRow: int, hasItem: bool)
      requires Selectable(worklist.inList, selectedRow, hasItem)
      modifies this, worklist
      ensures View() == OrderStep(old(View()), selectedRow, hasItem, STOP_TASK)
    {
      hide Selected;
      var firstNode := SelectFirst(selectedRow, hasItem);
      if firstNode.Some? && |worklist.inList| > selectedRow {
        trace := trace + [Granted(firstNode.value.id, STOP_TASK)];
      }
    }

    /** Both report slots, which hand the report to the shared queue. */
    method OnReport(r: WorkList.Report)
      modifies this, worklist
      ensures View() == ReportStep(old(View()), r, vehicleType)
    {
      hide ApplyReport, EffectOf;
      if r.realTime {
        G2hReqWorkRealOptSlot(worklist, r.cmdType, r.id, vehicleType);
      } else {
        G2hReqWorkOptSlot(worklist, r.cmdType, r.id, vehicleType);
      }
      trace := trace + [Reported(r.id, EffectOf(r, vehicleType))];
    }
  }

  // ---------------------------------------------------------------- runs

  datatype Outcome = Stuck | At(site: Site)

  /** The site after a run from an empty queue, unless some action of it could not happen. */
  function Run(actions: seq<Action>, vehicleType: nat): Outcome {
    if actions == [] then At(Site([], []))
    else match Run(actions[..|actions| - 1], vehicleType)
      case Stuck => Stuck
      case At(s) =>
        if Enabled(s, actions[|actions| - 1]) then At(Apply(s, actions[|actions| - 1], vehicleType)) else Stuck
  }

  // ---------------------------------------------------------------- the reference: one vehicle's history

  /** The state recorded for a vehicle, from the events that concern it alone. */
  function StateOf(trace: seq<Event>, id: Vehicle): Option<int> {
    if trace == [] then None
    else
      var e := trace[|trace| - 1];
      if Changes(e, id) then StateAfter(e) else StateOf(trace[..|trace| - 1], id)
  }

  /** Events that change what is recorded for a vehicle; leaving is one of them. */
  predicate Changes(e: Event, id: Vehicle) {
    e.id == id && match e
      case Reported(_, effect) => effect != Nothing
      case Overridden(_, _) => true
      case Cleared(_) => true
      case Granted(_, cmdType) => cmdType == OUT_TASK
  }

  function StateAfter(e: Event): Option<int> {
    match e
    case Reported(_, Enter(state)) => Some(state)
    case Overridden(_, state) => Some(state)
    case _ => None
  }

  /** The recorded states a grant needs. */
  predicate Permits(state: Option<int>, cmdType: int) {
    && (cmdType == OUT_TASK ==> state == Some(UNLOAD_TASK))
    && (cmdType == UNLOAD_TASK ==> state == Some(FINISH_TASK))
    && (cmdType == IN_TASK ==> state == Some(IN_TASK) || state == Some(RECOVER_TASK))
  }

  ghost predicate GrantsPermitted(trace: seq<Event>) {
    forall k :: 0 <= k < |trace| && trace[k].Granted? ==> Permits(StateOf(trace[..k], trace[k].id), trace[k].cmdType)
  }

  ghost predicate OverridesOnly(trace: seq<Event>) {
    forall k :: 0 <= k < |trace| && trace[k].Overridden? ==>
      trace[k].workState == MAN_TASK || trace[k].workState == RE_IN_TASK
  }

  ghost predicate Consistent(s: Site) {
    && NoDuplicates(s.queue)
    && (forall id :: Lookup(s.queue, id) == StateOf(s.trace, id))
    && GrantsPermitted(s.trace) && OverridesOnly(s.trace)
  }
}
