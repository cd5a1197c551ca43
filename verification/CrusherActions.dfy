/**
 What each action at the crusher sends and does, by the numbers of the protocol: 1 out, 2 in, 3 finished,
 4 stop, 5 recover, 6 manual, 7 in again, 8 unload; vehicle type 8 is a crusher.
 */
module CrusherActions {
  import opened Options
  import opened WorkList
  import opened Crusher
  import CrusherRuns

  /** The queue with the vehicle of a selected row, if that row shows one, in front. */
  function Front(queue: seq<Node>, row: int, hasItem: bool): seq<Node>
    requires Selectable(queue, row, hasItem)
  {
    if row > 0 && hasItem then [queue[row]] + queue[..row] + queue[row + 1..] else queue
  }

  lemma SelectedIs(queue: seq<Node>, row: int, hasItem: bool)
    requires NoDuplicates(queue) && Selectable(queue, row, hasItem)
    ensures Selected(queue, row, hasItem) == Front(queue, row, hasItem)
  {
    if row > 0 && hasItem { LookupAt(queue, row); }
  }

  /** There is a vehicle to act on: the queue is longer than the row's number, and not empty. */
  predicate HasTarget(queue: seq<Node>, row: int) {
    |queue| > 0 && row < |queue|
  }

  /** The drive-in button.  Checked at a crusher it sends the unload grant, and exactly to a vehicle that has
      finished; otherwise it sends the drive-in grant, exactly to one that asks to come in or to go on. */
  lemma RunWorkIs(s: Site, row: int, hasItem: bool, checked: bool, vehicleType: nat)
    requires NoDuplicates(s.queue) && Selectable(s.queue, row, hasItem)
    ensures var t, queue := RunWorkStep(s, row, hasItem, checked, vehicleType), Front(s.queue, row, hasItem);
            && t.queue == queue
            && (!HasTarget(queue, row) ==> t.trace == s.trace)
            && (HasTarget(queue, row) && checked && vehicleType == 8 ==>
                  t.trace == s.trace + if queue[0].workState == 3 then [Granted(queue[0].id, 8)] else [])
            && (HasTarget(queue, row) && !(checked && vehicleType == 8) ==>
                  t.trace == s.trace + if queue[0].workState in {2, 5} then [Granted(queue[0].id, 2)] else [])
  {
    hide Selected;
    SelectedIs(s.queue, row, hasItem);
    assert s.trace + [] == s.trace;
  }

  /** The release button sends a vehicle out, and takes it from the queue, exactly when it has unloaded. */
  lemma OverOutIs(s: Site, row: int, hasItem: bool)
    requires NoDuplicates(s.queue) && Selectable(s.queue, row, hasItem)
    ensures var t, queue := OverOutStep(s, row, hasItem), Front(s.queue, row, hasItem);
            if HasTarget(queue, row) && queue[0].workState == 8
            then t == Site(queue[1..], s.trace + [Granted(queue[0].id, 1)])
            else t == Site(queue, s.trace)
  {
    hide Selected;
    SelectedIs(s.queue, row, hasItem);
  }

  /** The abnormal page: nothing without a choice, two overrides, a removal, a recovery order. */
  lemma AbnormalOkIs(s: Site, row: int, hasItem: bool, choice: int)
    requires NoDuplicates(s.queue) && (choice != 0 ==> Selectable(s.queue, row, hasItem))
    ensures choice == 0 ==> AbnormalOkStep(s, row, hasItem, choice) == s
    ensures choice != 0 ==>
              var t, queue := AbnormalOkStep(s, row, hasItem, choice), Front(s.queue, row, hasItem);
              if !HasTarget(queue, row) then t == Site(queue, s.trace)
              else
                var id := queue[0].id;
                && (choice == 1 ==> t == Site(queue[0 := Node(id, 6)], s.trace + [Granted(id, 6), Overridden(id, 6)]))
                && (choice == 2 ==> t == Site(queue[0 := Node(id, 7)], s.trace + [Granted(id, 7), Overridden(id, 7)]))
                && (choice == 3 ==> t == Site(queue[1..], s.trace + [Cleared(id)]))
                && (choice == 4 ==> t == Site(queue, s.trace + [Granted(id, 5)]))
                && (choice !in {1, 2, 3, 4} ==> t == Site(queue, s.trace))
  {
    if choice != 0 {
      SelectedIs(s.queue, row, hasItem);
      hide Selected;
      var queue := Front(s.queue, row, hasItem);
      if HasTarget(queue, row) && (choice == 1 || choice == 2) {
        FrontKeeps(s.queue, row, hasItem);
        InsertFront(queue, if choice == 1 then 6 else 7);
      }
    }
  }

  lemma FrontKeeps(queue: seq<Node>, row: int, hasItem: bool)
    requires NoDuplicates(queue) && Selectable(queue, row, hasItem)
    ensures NoDuplicates(Front(queue, row, hasItem))
  {
    if row > 0 && hasItem {
      SelectedIs(queue, row, hasItem);
      SetFirstTable(queue, row, queue[row].id);
    }
  }

  lemma InsertFront(queue: seq<Node>, state: int)
    requires NoDuplicates(queue) && queue != []
    ensures Insert(queue, Node(queue[0].id, state)) == queue[0 := Node(queue[0].id, state)]
  {
    LookupAt(queue, 0);
  }

  /** The clear button takes the vehicle from the queue without sending anything. */
  lemma AbnormalIs(s: Site, row: int, hasItem: bool)
    requires NoDuplicates(s.queue) && Selectable(s.queue, row, hasItem)
    ensures var t, queue := ClearStep(s, row, hasItem), Front(s.queue, row, hasItem);
            t == if HasTarget(queue, row) then Site(queue[1..], s.trace + [Cleared(queue[0].id)])
                 else Site(queue, s.trace)
  {
    hide Selected;
    SelectedIs(s.queue, row, hasItem);
  }

  /** The emergency button sends the stop order and changes no record. */
  lemma EmergenceIs(s: Site, row: int, hasItem: bool, vehicleType: nat)
    requires NoDuplicates(s.queue) && Selectable(s.queue, row, hasItem)
    ensures var t, queue := Apply(s, Emergence(row, hasItem), vehicleType), Front(s.queue, row, hasItem);
            t == Site(queue, s.trace + if HasTarget(queue, row) then [Granted(queue[0].id, 4)] else [])
  {
    hide Selected;
    SelectedIs(s.queue, row, hasItem);
  }

  // ---------------------------------------------------------------- over runs

  /** After every run, what a button sends to a vehicle is decided by that vehicle's own events alone: the
      release is sent exactly when they leave it in state 8, the unload grant exactly in state 3, the drive-in
      grant exactly in state 2 or 5. */
  lemma GrantsExactly(actions: seq<Action>, vehicleType: nat, row: int, hasItem: bool, checked: bool)
    requires Run(actions, vehicleType).At?
    requires var s := Run(actions, vehicleType).site;
             Selectable(s.queue, row, hasItem) && HasTarget(Front(s.queue, row, hasItem), row)
    ensures var s := Run(actions, vehicleType).site;
            var id := Front(s.queue, row, hasItem)[0].id;
            var state := StateOf(s.trace, id);
            && OverOutStep(s, row, hasItem).trace
            == s.trace + (if state == Some(8) then [Granted(id, 1)] else [])
            && RunWorkStep(s, row, hasItem, checked, vehicleType).trace
            == s.trace + (if checked && vehicleType == 8
                          then if state == Some(3) then [Granted(id, 8)] else []
                          else if state == Some(2) || state == Some(5) then [Granted(id, 2)] else [])
  {
    hide Run, OverOutStep, RunWorkStep, StateOf, Lookup, NoDuplicates, IndexOf;
    var s := Run(actions, vehicleType).site;
    CrusherRuns.RunConsistent(actions, vehicleType);
    FrontAt(s.queue, row, hasItem);
    OverOutIs(s, row, hasItem);
    RunWorkIs(s, row, hasItem, checked, vehicleType);
    assert s.trace + [] == s.trace;
  }

  lemma FrontAt(queue: seq<Node>, row: int, hasItem: bool)
    requires NoDuplicates(queue) && Selectable(queue, row, hasItem) && Front(queue, row, hasItem) != []
    ensures var first := Front(queue, row, hasItem)[0]; Lookup(queue, first.id) == Some(first.workState)
  {
    LookupAt(queue, if row > 0 && hasItem then row else 0);
  }
}
