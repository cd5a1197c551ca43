/** Safety of the crusher's grants over every run of reports and operator actions. */
module CrusherRuns {
  import opened Options
  import opened WorkList
  import opened Crusher

  // ---------------------------------------------------------------- one event

  lemma StateOfAppend(trace: seq<Event>, e: Event, id: Vehicle)
    ensures StateOf(trace + [e], id) == if Changes(e, id) then StateAfter(e) else StateOf(trace, id)
  {
    assert (trace + [e])[..|trace|] == trace;
  }

  lemma GrantsPermittedAppend(trace: seq<Event>, e: Event)
    requires GrantsPermitted(trace) && (e.Granted? ==> Permits(StateOf(trace, e.id), e.cmdType))
    ensures GrantsPermitted(trace + [e])
  {
    hide StateOf, Permits;
    var t := trace + [e];
    forall k | 0 <= k < |t| && t[k].Granted?
      ensures Permits(StateOf(t[..k], t[k].id), t[k].cmdType)
    {
      if k < |trace| {
        assert t[..k] == trace[..k] && t[k] == trace[k];
      } else {
        assert t[..k] == trace && t[k] == e;
      }
    }
  }

  /** An event is safe to append when its grant is permitted and the queue changes as it says. */
  lemma EventKeeps(queue: seq<Node>, after: seq<Node>, trace: seq<Event>, e: Event)
    requires Consistent(Site(queue, trace)) && NoDuplicates(after)
    requires e.Granted? ==> Permits(Lookup(queue, e.id), e.cmdType)
    requires e.Overridden? ==> e.workState == MAN_TASK || e.workState == RE_IN_TASK
    requires forall id :: Lookup(after, id) == if Changes(e, id) then StateAfter(e) else Lookup(queue, id)
    ensures Consistent(Site(after, trace + [e]))
  {
    hide Lookup, Changes, StateOf, NoDuplicates, GrantsPermitted, StateAfter;
    GrantsPermittedAppend(trace, e);
    forall id
      ensures Lookup(after, id) == StateOf(trace + [e], id)
    {
      StateOfAppend(trace, e, id);
    }
  }

  // ---------------------------------------------------------------- one action

  lemma SelectedKeeps(s: Site, row: int, hasItem: bool)
    requires Consistent(s) && Selectable(s.queue, row, hasItem)
    ensures Consistent(Site(Selected(s.queue, row, hasItem), s.trace))
  {
    hide Lookup, NoDuplicates, StateOf, GrantsPermitted, OverridesOnly, SetFirst;
    if row > 0 && hasItem {
      forall id
        ensures NoDuplicates(SetFirst(s.queue, s.queue[row]))
        ensures Lookup(SetFirst(s.queue, s.queue[row]), id) == Lookup(s.queue, id)
      {
        SetFirstTable(s.queue, row, id);
      }
      SetFirstTable(s.queue, row, s.queue[row].id);
    }
  }

  /** A grant that does not release the vehicle leaves the queue alone. */
  lemma GrantKeeps(s: Site, cmdType: int)
    requires Consistent(s) && s.queue != [] && cmdType != OUT_TASK
    requires Permits(Some(s.queue[0].workState), cmdType)
    ensures Consistent(Site(s.queue, s.trace + [Granted(s.queue[0].id, cmdType)]))
  {
    LookupAt(s.queue, 0);
    EventKeeps(s.queue, s.queue, s.trace, Granted(s.queue[0].id, cmdType));
  }

  lemma LeaveKeeps(s: Site, e: Event)
    requires Consistent(s) && s.queue != [] && e.id == s.queue[0].id
    requires e.Cleared? || (e.Granted? && e.cmdType == OUT_TASK && s.queue[0].workState == UNLOAD_TASK)
    ensures Consistent(Site(RemoveOne(s.queue, e.id), s.trace + [e]))
    ensures RemoveOne(s.queue, e.id) == s.queue[1..]
  {
    LookupAt(s.queue, 0);
    RemoveTable(s.queue, e.id, e.id);
    forall id
      ensures Lookup(RemoveOne(s.queue, e.id), id) == if Changes(e, id) then StateAfter(e) else Lookup(s.queue, id)
    {
      RemoveTable(s.queue, e.id, id);
    }
    EventKeeps(s.queue, RemoveOne(s.queue, e.id), s.trace, e);
  }

  lemma EnterKeeps(s: Site, node: Node, e: Event)
    requires Consistent(s) && e.id == node.id
    requires e == Reported(node.id, Enter(node.workState))
             || (e == Overridden(node.id, node.workState) && node.workState in {MAN_TASK, RE_IN_TASK})
    ensures Consistent(Site(Insert(s.queue, node), s.trace + [e]))
  {
    hide Insert;
    InsertTable(s.queue, node, node.id);
    forall id
      ensures Lookup(Insert(s.queue, node), id) == if Changes(e, id) then StateAfter(e) else Lookup(s.queue, id)
    {
      InsertTable(s.queue, node, id);
    }
    EventKeeps(s.queue, Insert(s.queue, node), s.trace, e);
  }

  lemma ReportKeeps(s: Site, r: WorkList.Report, vehicleType: nat)
    requires Consistent(s)
    ensures Consistent(ReportStep(s, r, vehicleType))
  {
    hide Insert, RemoveOne, Consistent;
    match EffectOf(r, vehicleType)
    case Enter(state) => EnterKeeps(s, Node(r.id, state), Reported(r.id, Enter(state)));
    case Leave => LeaveReportKeeps(s, r.id);
    case Nothing => NothingKeeps(s, r.id);
  }

  lemma LeaveReportKeeps(s: Site, id: Vehicle)
    requires Consistent(s)
    ensures Consistent(Site(RemoveOne(s.queue, id), s.trace + [Reported(id, Leave)]))
  {
    hide RemoveOne;
    RemoveTable(s.queue, id, id);
    forall k
      ensures Lookup(RemoveOne(s.queue, id), k) == if k == id then None else Lookup(s.queue, k)
    {
      RemoveTable(s.queue, id, k);
    }
    EventKeeps(s.queue, RemoveOne(s.queue, id), s.trace, Reported(id, Leave));
  }

  lemma NothingKeeps(s: Site, id: Vehicle)
    requires Consistent(s)
    ensures Consistent(Site(s.queue, s.trace + [Reported(id, Nothing)]))
  {
    EventKeeps(s.queue, s.queue, s.trace, Reported(id, Nothing));
  }

  lemma RunWorkKeeps(s: Site, row: int, hasItem: bool, checked: bool, vehicleType: nat)
    requires Consistent(s) && Selectable(s.queue, row, hasItem)
    ensures Consistent(RunWorkStep(s, row, hasItem, checked, vehicleType))
  {
    hide Consistent, Selected;
    SelectedKeeps(s, row, hasItem);
    var t := Site(Selected(s.queue, row, hasItem), s.trace);
    assert t.trace + [] == t.trace;
    if Acts(t.queue, row) {
      if checked && vehicleType == CRUSHER {
        if t.queue[0].workState == FINISH_TASK { GrantKeeps(t, UNLOAD_TASK); }
      } else if t.queue[0].workState == IN_TASK || t.queue[0].workState == RECOVER_TASK {
        GrantKeeps(t, IN_TASK);
      }
    }
  }

  lemma OverOutKeeps(s: Site, row: int, hasItem: bool)
    requires Consistent(s) && Selectable(s.queue, row, hasItem)
    ensures Consistent(OverOutStep(s, row, hasItem))
  {
    hide Consistent, Selected, RemoveOne;
    SelectedKeeps(s, row, hasItem);
    var t := Site(Selected(s.queue, row, hasItem), s.trace);
    if Acts(t.queue, row) && t.queue[0].workState == UNLOAD_TASK {
      LeaveKeeps(t, Granted(t.queue[0].id, OUT_TASK));
    }
  }

  lemma ClearKeeps(s: Site, row: int, hasItem: bool)
    requires Consistent(s) && Selectable(s.queue, row, hasItem)
    ensures Consistent(ClearStep(s, row, hasItem))
  {
    hide Consistent, Selected, RemoveOne;
    SelectedKeeps(s, row, hasItem);
    var t := Site(Selected(s.queue, row, hasItem), s.trace);
    if Acts(t.queue, row) {
      LeaveKeeps(t, Cleared(t.queue[0].id));
    }
  }

  lemma OverrideKeeps(s: Site, row: int, hasItem: bool, state: int)
    requires Consistent(s) && Selectable(s.queue, row, hasItem) && state in {MAN_TASK, RE_IN_TASK}
    ensures Consistent(OverrideStep(s, row, hasItem, state))
  {
    hide Consistent, Selected, Insert;
    SelectedKeeps(s, row, hasItem);
    var t := Site(Selected(s.queue, row, hasItem), s.trace);
    if Acts(t.queue, row) {
      var id := t.queue[0].id;
      GrantKeeps(t, state);
      EnterKeeps(Site(t.queue, t.trace + [Granted(id, state)]), Node(id, state), Overridden(id, state));
      assert t.trace + [Granted(id, state)] + [Overridden(id, state)]
          == t.trace + [Granted(id, state), Overridden(id, state)];
    }
  }

  lemma OrderKeeps(s: Site, row: int, hasItem: bool, cmdType: int)
    requires Consistent(s) && Selectable(s.queue, row, hasItem) && cmdType in {STOP_TASK, RECOVER_TASK}
    ensures Consistent(OrderStep(s, row, hasItem, cmdType))
  {
    hide Consistent, Selected;
    SelectedKeeps(s, row, hasItem);
    var t := Site(Selected(s.queue, row, hasItem), s.trace);
    assert t.trace + [] == t.trace;
    if Acts(t.queue, row) { GrantKeeps(t, cmdType); }
  }

  lemma ActionKeeps(s: Site, a: Action, vehicleType: nat)
    requires Consistent(s) && Enabled(s, a)
    ensures Consistent(Apply(s, a, vehicleType))
  {
    hide Consistent, OverrideStep, ClearStep, OrderStep, ReportStep, RunWorkStep, OverOutStep, Selected;
    match a
    case Report(r) => ReportKeeps(s, r, vehicleType);
    case RunWork(row, hasItem, checked) => RunWorkKeeps(s, row, hasItem, checked, vehicleType);
    case OverOut(row, hasItem) => OverOutKeeps(s, row, hasItem);
    case AbnormalOk(row, hasItem, choice) =>
      if choice == 1 { OverrideKeeps(s, row, hasItem, MAN_TASK); }
      else if choice == 2 { OverrideKeeps(s, row, hasItem, RE_IN_TASK); }
      else if choice == 3 { ClearKeeps(s, row, hasItem); }
      else if choice == 4 { OrderKeeps(s, row, hasItem, RECOVER_TASK); }
      else if choice != 0 { SelectedKeeps(s, row, hasItem); }
    case Abnormal(row, hasItem) => ClearKeeps(s, row, hasItem);
    case Emergence(row, hasItem) => OrderKeeps(s, row, hasItem, STOP_TASK);
  }

  /** Over every run the queue records, for each vehicle, what that vehicle's own events say, and every
      grant was permitted by it. */
  lemma {:induction false} RunConsistent(actions: seq<Action>, vehicleType: nat)
    requires Run(actions, vehicleType).At?
    ensures Consistent(Run(actions, vehicleType).site)
  {
    hide Apply, Enabled;
    if actions == [] {
      assert Consistent(Site([], []));
    } else {
      hide Consistent;
      var before, a := actions[..|actions| - 1], actions[|actions| - 1];
      RunConsistent(before, vehicleType);
      ActionKeeps(Run(before, vehicleType).site, a, vehicleType);
    }
  }

  // ---------------------------------------------------------------- where a grant comes from

  /** `j` is the vehicle's last state-changing event before `k`. */
  predicate LastChange(trace: seq<Event>, id: Vehicle, j: nat, k: nat) {
    j < k <= |trace| && Changes(trace[j], id) && forall i :: j < i < k ==> !Changes(trace[i], id)
  }

  lemma {:induction false} Origin(trace: seq<Event>, id: Vehicle, k: nat) returns (j: nat)
    requires k <= |trace| && StateOf(trace[..k], id).Some?
    ensures LastChange(trace, id, j, k) && StateAfter(trace[j]) == StateOf(trace[..k], id)
    decreases k
  {
    assert trace[..k][..k - 1] == trace[..k - 1];
    if Changes(trace[k - 1], id) {
      j := k - 1;
    } else {
      j := Origin(trace, id, k - 1);
    }
  }

  /** The vehicle reported `state` at `j`, and nothing between `j` and `k` changed what is recorded for it. */
  predicate FreshReport(trace: seq<Event>, id: Vehicle, state: int, j: nat, k: nat) {
    LastChange(trace, id, j, k) && trace[j] == Reported(id, Enter(state))
  }

  /** Every release follows the vehicle's own unload report, every unload grant its docking report, and
      every drive-in grant its request or recovery report, with no later report, override, removal or
      release of that vehicle in between. */
  lemma GrantSafety(actions: seq<Action>, vehicleType: nat, k: nat)
    requires Run(actions, vehicleType).At?
    requires k < |Run(actions, vehicleType).site.trace| && Run(actions, vehicleType).site.trace[k].Granted?
    ensures var trace := Run(actions, vehicleType).site.trace;
            var id, cmdType := trace[k].id, trace[k].cmdType;
            && (cmdType == OUT_TASK ==> exists j: nat :: FreshReport(trace, id, UNLOAD_TASK, j, k))
            && (cmdType == UNLOAD_TASK ==> exists j: nat :: FreshReport(trace, id, FINISH_TASK, j, k))
            && (cmdType == IN_TASK ==> exists j: nat ::
                  FreshReport(trace, id, IN_TASK, j, k) || FreshReport(trace, id, RECOVER_TASK, j, k))
  {
    RunConsistent(actions, vehicleType);
    hide Run;
    var trace := Run(actions, vehicleType).site.trace;
    var id, cmdType := trace[k].id, trace[k].cmdType;
    assert Permits(StateOf(trace[..k], id), cmdType);
    if cmdType in {OUT_TASK, UNLOAD_TASK, IN_TASK} {
      var j := Origin(trace, id, k);
      var state := StateAfter(trace[j]).value;
      assert FreshReport(trace, id, state, j, k);
    }
  }

  /** Two releases of one vehicle are separated by a fresh unload report. */
  lemma ReleasesSeparated(actions: seq<Action>, vehicleType: nat, k1: nat, k2: nat)
    requires Run(actions, vehicleType).At?
    requires k1 < k2 < |Run(actions, vehicleType).site.trace|
    requires var trace := Run(actions, vehicleType).site.trace;
             trace[k1] == trace[k2] && trace[k1].Granted? && trace[k1].cmdType == OUT_TASK
    ensures var trace := Run(actions, vehicleType).site.trace;
            exists j :: k1 < j < k2 && trace[j] == Reported(trace[k1].id, Enter(UNLOAD_TASK))
  {
    GrantSafety(actions, vehicleType, k2);
    hide Run;
    var trace := Run(actions, vehicleType).site.trace;
    var j: nat :| FreshReport(trace, trace[k2].id, UNLOAD_TASK, j, k2);
    assert Changes(trace[k1], trace[k2].id);
    assert j != k1;
    assert k1 < j < k2 && trace[j] == Reported(trace[k1].id, Enter(UNLOAD_TASK));
  }
}
