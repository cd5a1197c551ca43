/**
 Which rows the crusher's vehicle table shows (its three rows are laid down in
 hmi/HmiUI/uiCrush/uicrush.ui).  The handlers index the queue with the selected row, and the table is filled
 again only by some of them, so a row can outlive its vehicle.
 */
module CrusherTable {
  import opened WorkList
  import opened Crusher
  import CrusherRuns

  /** The rows of the table; filling a row that does not exist has no effect. */
  const TABLE_ROWS: nat := 3

  /** The handlers that fill the table again; releasing a vehicle is not one of them. */
  predicate Refreshes(s: Site, a: Action)
    requires Enabled(s, a)
  {
    match a
    case Report(_) => true
    case RunWork(_, _, _) => true
    case OverOut(_, _) => false
    case AbnormalOk(row, hasItem, choice) => choice == 3 && Acts(Selected(s.queue, row, hasItem), row)
    case Abnormal(row, hasItem) => Acts(Selected(s.queue, row, hasItem), row)
    case Emergence(row, hasItem) => Acts(Selected(s.queue, row, hasItem), row)
  }

  predicate Releases(s: Site, a: Action)
    requires Enabled(s, a)
  {
    a.OverOut? && var queue := Selected(s.queue, a.row, a.hasItem);
                  Acts(queue, a.row) && queue[0].workState == UNLOAD_TASK
  }

  /** How many vehicles were queued when the table was last filled; it starts empty. */
  function Filled(actions: seq<Action>, vehicleType: nat): nat {
    if actions == [] then 0
    else
      var before, a := actions[..|actions| - 1], actions[|actions| - 1];
      match Run(before, vehicleType)
      case Stuck => 0
      case At(s) =>
        if Enabled(s, a) && Refreshes(s, a) then |Apply(s, a, vehicleType).queue| else Filled(before, vehicleType)
  }

  /** The number of rows that show a vehicle. */
  function Shown(actions: seq<Action>, vehicleType: nat): nat {
    if Filled(actions, vehicleType) < TABLE_ROWS then Filled(actions, vehicleType) else TABLE_ROWS
  }

  /** How many vehicles have been released since the table was last filled. */
  function ReleasedSince(actions: seq<Action>, vehicleType: nat): nat {
    if actions == [] then 0
    else
      var before, a := actions[..|actions| - 1], actions[|actions| - 1];
      match Run(before, vehicleType)
      case Stuck => 0
      case At(s) =>
        if !Enabled(s, a) || Refreshes(s, a) then 0
        else ReleasedSince(before, vehicleType) + if Releases(s, a) then 1 else 0
  }

  /** The table is up to date, with nothing released since, after every report and every drive-in click,
      and after the clear, clear-choice and emergency buttons when there is a vehicle to act on. */
  lemma FilledAfter(actions: seq<Action>, a: Action, vehicleType: nat)
    requires Run(actions, vehicleType).At? && Enabled(Run(actions, vehicleType).site, a)
    requires var queue := Run(actions, vehicleType).site.queue;
             match a
             case Report(_) => true
             case RunWork(_, _, _) => true
             case OverOut(_, _) => false
             case AbnormalOk(row, hasItem, choice) => choice == 3 && queue != [] && row < |queue|
             case Abnormal(row, _) => queue != [] && row < |queue|
             case Emergence(row, _) => queue != [] && row < |queue|
    ensures Run(actions + [a], vehicleType).At? && ReleasedSince(actions + [a], vehicleType) == 0
    ensures Filled(actions + [a], vehicleType) == |Run(actions + [a], vehicleType).site.queue|
  {
    hide Selected, Apply;
    var queue := Run(actions, vehicleType).site.queue;
    assert (actions + [a])[..|actions|] == actions;
    match a
    case Report(_) =>
    case RunWork(_, _, _) =>
    case AbnormalOk(row, hasItem, _) => SelectedSize(queue, row, hasItem);
    case Abnormal(row, hasItem) => SelectedSize(queue, row, hasItem);
    case Emergence(row, hasItem) => SelectedSize(queue, row, hasItem);
  }

  lemma SelectedSize(queue: seq<Node>, row: int, hasItem: bool)
    requires Selectable(queue, row, hasItem)
    ensures |Selected(queue, row, hasItem)| == |queue|
  {
  }

  /** An action that does not fill the table takes a vehicle from the queue exactly when it releases one. */
  lemma SizeAfter(s: Site, a: Action, vehicleType: nat)
    requires Enabled(s, a) && !Refreshes(s, a)
    ensures |Apply(s, a, vehicleType).queue| == |s.queue| - if Releases(s, a) then 1 else 0
  {
    hide Selected, OverOutStep, AbnormalOkStep;
    match a
    case Report(_) =>
    case RunWork(_, _, _) =>
    case OverOut(row, hasItem) => OverOutSize(s, row, hasItem);
    case AbnormalOk(row, hasItem, choice) => AbnormalOkSize(s, row, hasItem, choice);
    case Abnormal(row, hasItem) => SelectedSize(s.queue, row, hasItem);
    case Emergence(row, hasItem) => SelectedSize(s.queue, row, hasItem);
  }

  lemma OverOutSize(s: Site, row: int, hasItem: bool)
    requires Selectable(s.queue, row, hasItem)
    ensures |OverOutStep(s, row, hasItem).queue| == |s.queue| - if Releases(s, OverOut(row, hasItem)) then 1 else 0
  {
    SelectedSize(s.queue, row, hasItem);
    hide Selected;
  }

  lemma AbnormalOkSize(s: Site, row: int, hasItem: bool, choice: int)
    requires choice != 0 ==> Selectable(s.queue, row, hasItem)
    requires !Refreshes(s, AbnormalOk(row, hasItem, choice))
    ensures |AbnormalOkStep(s, row, hasItem, choice).queue| == |s.queue|
  {
    if choice != 0 { SelectedSize(s.queue, row, hasItem); }
    hide Selected;
  }

  /** After every run, the vehicles queued when the table was last filled are those in the queue and those
      released since. */
  lemma {:induction false} FilledCounts(actions: seq<Action>, vehicleType: nat)
    requires Run(actions, vehicleType).At?
    ensures Filled(actions, vehicleType)
         == |Run(actions, vehicleType).site.queue| + ReleasedSince(actions, vehicleType)
  {
    hide Apply, Refreshes, Releases, Enabled;
    if actions != [] {
      var before, a := actions[..|actions| - 1], actions[|actions| - 1];
      FilledCounts(before, vehicleType);
      var s := Run(before, vehicleType).site;
      if !Refreshes(s, a) { SizeAfter(s, a, vehicleType); }
    }
  }

  /** So a row that shows a vehicle can be used exactly when it is the first one or its position, moved on
      by the vehicles released since the table was filled, was filled too. */
  lemma StaleRows(actions: seq<Action>, vehicleType: nat, row: nat)
    requires Run(actions, vehicleType).At? && row < Shown(actions, vehicleType)
    ensures Selectable(Run(actions, vehicleType).site.queue, row, true)
       <==> row == 0 || row + ReleasedSince(actions, vehicleType) < Filled(actions, vehicleType)
  {
    FilledCounts(actions, vehicleType);
  }

  ghost predicate HasStaleRow(actions: seq<Action>, vehicleType: nat)
    requires Run(actions, vehicleType).At?
  {
    exists row: nat :: row < Shown(actions, vehicleType)
                       && !Selectable(Run(actions, vehicleType).site.queue, row, true)
  }

  /** A row that cannot be used is shown exactly when a vehicle has been released since the table was
      filled, the queue has become shorter than the table, and more than the first row is shown. */
  lemma StaleRowShown(actions: seq<Action>, vehicleType: nat)
    requires Run(actions, vehicleType).At?
    ensures HasStaleRow(actions, vehicleType)
       <==> ReleasedSince(actions, vehicleType) > 0 && Shown(actions, vehicleType) > 1
            && |Run(actions, vehicleType).site.queue| < 3
  {
    hide Filled, ReleasedSince, Run;
    FilledCounts(actions, vehicleType);
    var last: int := Shown(actions, vehicleType) - 1;
    if last >= 1 && last >= |Run(actions, vehicleType).site.queue| {
      assert !Selectable(Run(actions, vehicleType).site.queue, last, true);
    }
  }

  /** Releasing the vehicle in the last row leaves such a row behind: still shown, no longer usable. */
  lemma SecondClick(before: seq<Action>, vehicleType: nat, row: nat)
    requires 0 < row < 3 && Run(before, vehicleType).At?
    requires row == |Run(before, vehicleType).site.queue| - 1
    requires Run(before, vehicleType).site.queue[row].workState == UNLOAD_TASK
    ensures var after := before + [OverOut(row, true)];
            && Run(after, vehicleType).At? && row < Shown(after, vehicleType)
            && !Selectable(Run(after, vehicleType).site.queue, row, true)
  {
    hide Filled, Apply;
    var a, after, s := OverOut(row, true), before + [OverOut(row, true)], Run(before, vehicleType).site;
    assert after[..|before|] == before;
    CrusherRuns.RunConsistent(before, vehicleType);
    SetFirstTable(s.queue, row, s.queue[row].id);
    SizeAfter(s, a, vehicleType);
    ReleasedOne(before, a, vehicleType);
    FilledCounts(after, vehicleType);
  }

  lemma ReleasedOne(before: seq<Action>, a: Action, vehicleType: nat)
    requires Run(before, vehicleType).At?
    requires var s := Run(before, vehicleType).site; Enabled(s, a) && !Refreshes(s, a) && Releases(s, a)
    ensures ReleasedSince(before + [a], vehicleType) == ReleasedSince(before, vehicleType) + 1
  {
    hide Refreshes, Releases, Enabled;
    assert (before + [a])[..|before|] == before;
  }

  function Unload(id: Vehicle): Action {
    Action.Report(WorkList.Report(true, UNLOAD_TASK, id))
  }

  /** Two vehicles that report one after the other that they have unloaded bring that about. */
  lemma TwoUnloaded(a: Vehicle, b: Vehicle)
    requires a != b
    ensures Run([Unload(a), Unload(b)], CRUSHER).At?
    ensures Run([Unload(a), Unload(b)], CRUSHER).site.queue == [Node(a, UNLOAD_TASK), Node(b, UNLOAD_TASK)]
  {
    hide IndexOf;
    var one, two := [Unload(a)], [Unload(a), Unload(b)];
    assert two[..1] == one && one[..0] == [];
    assert Run(one, CRUSHER) == At(ReportStep(Site([], []), Unload(a).report, CRUSHER));
    assert Run(two, CRUSHER) == At(ReportStep(Run(one, CRUSHER).site, Unload(b).report, CRUSHER));
    assert [] + [Node(a, UNLOAD_TASK)] == [Node(a, UNLOAD_TASK)];
  }
}
