/** What retransmission guarantees over every run of sendings, acknowledgements, timer firings and
    passing time. */
module ReSendRuns {
  import opened Options
  import opened Jt808
  import opened ReSend

  datatype Action =
    | Add(id: Id, bytes: seq<Byte>)
    | Ack(msg: Msg)
    | Fire(deadline: int)
    | Tick(to: int)

  /** A timer never fires early, and time does not pass a deadline by more than `latency` before that
      timer has fired. */
  predicate Enabled(s: State, a: Action, latency: nat) {
    match a
    case Add(_, _) => true
    case Ack(msg) => msg.Valid()
    case Fire(d) => d in s.timers && d <= s.now
    case Tick(to) => s.now <= to && forall d :: d in s.timers ==> to <= d + latency
  }

  function Apply(s: State, a: Action): State {
    match a
    case Add(id, bytes) => AddStep(s, id, bytes)
    case Ack(msg) => if msg.Valid() then AckStep(s, msg) else s
    case Fire(d) => FireStep(s, d)
    case Tick(to) => s.(now := to)
  }

  function After(s: State, acts: seq<Action>): State {
    if acts == [] then s else Apply(After(s, acts[..|acts| - 1]), acts[|acts| - 1])
  }

  predicate Possible(s: State, acts: seq<Action>, latency: nat) {
    acts == [] ||
    (Possible(s, acts[..|acts| - 1], latency) && Enabled(After(s, acts[..|acts| - 1]), acts[|acts| - 1], latency))
  }

  function Start(now: int): State {
    State(now, map[], multiset{}, [])
  }

  // ---------------------------------------------------------------- timing

  /** Some armed timer will look at the entry no later than 10000 ms after its last sending. */
  ghost predicate Watched(e: Entry, timers: multiset<int>) {
    exists d :: d in timers && d <= e.lastTime + 2 * RESEND_TIMEVAL
  }

  ghost predicate TimingInv(s: State, latency: nat) {
    && (forall d :: d in s.timers ==> s.now - latency <= d <= s.now + RESEND_TIMEVAL)
    && (forall id :: id in s.pending ==> s.pending[id].lastTime <= s.now && Watched(s.pending[id], s.timers))
  }

  lemma AddKeepsTiming(s: State, id: Id, bytes: seq<Byte>, latency: nat)
    requires TimingInv(s, latency)
    ensures TimingInv(AddStep(s, id, bytes), latency)
  {
    var t := AddStep(s, id, bytes);
    assert forall d :: d in s.timers ==> d in t.timers;
    forall k | k in t.pending
      ensures Watched(t.pending[k], t.timers)
    {
      if |t.pending| == 1 {
        OnlyKey(t.pending, id, k);
        assert s.now + RESEND_TIMEVAL in t.timers;
      } else if k == id {
        var other := OtherKey(t.pending, id);
        assert Watched(s.pending[other], s.timers);
      } else {
        assert Watched(s.pending[k], s.timers);
      }
    }
  }

  lemma OnlyKey(m: map<Id, Entry>, a: Id, b: Id)
    requires |m| == 1 && a in m && b in m
    ensures a == b
  {
    var others := m.Keys - {a};
    assert |others| == 0;
    assert b == a || b in others;
  }

  lemma OtherKey(m: map<Id, Entry>, a: Id) returns (b: Id)
    requires |m| != 1 && a in m
    ensures b in m && b != a
  {
    var others := m.Keys - {a};
    assert m.Keys == others + {a};
    assert |others| == |m.Keys| - 1;
    b :| b in others;
  }

  /** The delay computed by a firing: at most 5000, and no longer than the age of any entry not due. */
  lemma {:induction false} NextValLeast(keys: seq<Id>, pending: map<Id, Entry>, now: int)
    requires forall k :: 0 <= k < |keys| ==> keys[k] in pending && pending[keys[k]].lastTime <= now
    ensures 0 <= NextVal(keys, pending, now) <= RESEND_TIMEVAL
    ensures forall k :: 0 <= k < |keys| && !Due(pending[keys[k]], now) ==>
                          NextVal(keys, pending, now) <= now - pending[keys[k]].lastTime
  {
    if keys != [] {
      NextValLeast(keys[..|keys| - 1], pending, now);
    }
  }

  lemma FireKeepsTiming(s: State, d: int, latency: nat)
    requires TimingInv(s, latency) && d in s.timers
    ensures TimingInv(FireStep(s, d), latency)
  {
    hide Ascending, NextVal, Resends, Visit, Due, Watched;
    if s.pending != map[] {
      var keys := Ascending(s.pending.Keys);
      AscendingKeys(s.pending.Keys);
      NextValLeast(keys, s.pending, s.now);
      var next := s.now + NextVal(keys, s.pending, s.now);
      TimersAfterFiring(s.timers, d, next);
      var timers := s.timers - multiset{d} + multiset{next};
      forall id | id in s.pending
        ensures Visit(s.pending[id], s.now).lastTime <= s.now && Watched(Visit(s.pending[id], s.now), timers)
      {
        assert id in keys;
        VisitedWatched(s.pending[id], s.now, next, timers);
      }
    }
  }

  lemma VisitedWatched(e: Entry, now: int, next: int, timers: multiset<int>)
    requires e.lastTime <= now <= next <= now + RESEND_TIMEVAL && next in timers
    requires !Due(e, now) ==> next - now <= now - e.lastTime
    ensures Visit(e, now).lastTime <= now && Watched(Visit(e, now), timers)
  {
    assert next <= Visit(e, now).lastTime + 2 * RESEND_TIMEVAL;
  }

  lemma TimersAfterFiring(timers: multiset<int>, d: int, next: int)
    ensures var after := timers - multiset{d} + multiset{next};
            next in after && forall x :: x in after ==> x == next || x in timers
  {
  }

  /** Over every run: a timer is armed while anything is unacknowledged, no deadline is further away than
      5000 ms, and nothing waits longer than 10000 ms (plus the timer latency) since it was last sent. */
  lemma {:induction false} BoundedRetransmission(start: int, acts: seq<Action>, latency: nat)
    requires Possible(Start(start), acts, latency)
    ensures var s := After(Start(start), acts);
            && TimingInv(s, latency)
            && (s.pending != map[] ==> s.timers != multiset{})
            && (forall d :: d in s.timers ==> d <= s.now + RESEND_TIMEVAL)
            && (forall id :: id in s.pending ==>
                  0 <= s.now - s.pending[id].lastTime <= 2 * RESEND_TIMEVAL + latency)
  {
    hide FireStep, AddStep;
    if acts != [] {
      var before, a := After(Start(start), acts[..|acts| - 1]), acts[|acts| - 1];
      BoundedRetransmission(start, acts[..|acts| - 1], latency);
      match a
      case Add(id, bytes) => AddKeepsTiming(before, id, bytes, latency);
      case Ack(msg) => AckKeepsTiming(before, msg, latency);
      case Fire(d) => FireKeepsTiming(before, d, latency);
      case Tick(to) => TickKeepsTiming(before, to, latency);
    }
    TimingMeans(After(Start(start), acts), latency);
  }

  lemma AckKeepsTiming(s: State, msg: Msg, latency: nat)
    requires TimingInv(s, latency) && msg.Valid()
    ensures TimingInv(AckStep(s, msg), latency)
  {
    hide Unsigned;
  }

  lemma TickKeepsTiming(s: State, to: int, latency: nat)
    requires TimingInv(s, latency) && Enabled(s, Tick(to), latency)
    ensures TimingInv(s.(now := to), latency)
  {
  }

  lemma TimingMeans(s: State, latency: nat)
    requires TimingInv(s, latency)
    ensures s.pending != map[] ==> s.timers != multiset{}
    ensures forall id :: id in s.pending ==> s.now - s.pending[id].lastTime <= 2 * RESEND_TIMEVAL + latency
  {
    if s.pending != map[] {
      var id :| id in s.pending;
      assert Watched(s.pending[id], s.timers);
    }
  }

  // ---------------------------------------------------------------- what is sent, and when

  /** The latest event that concerns a command. */
  function LastOf(trace: seq<Event>, id: Id): Option<Event> {
    if trace == [] then None
    else if trace[|trace| - 1].id == id then Some(trace[|trace| - 1])
    else LastOf(trace[..|trace| - 1], id)
  }

  /** A retransmission repeats the bytes of the latest sending, more than 5000 ms after it, and the
      command has not been acknowledged since. */
  predicate Justified(trace: seq<Event>, k: nat)
    requires k < |trace|
  {
    trace[k].Resent? ==> (
      var last := LastOf(trace[..k], trace[k].id);
      && last.Some? && !last.value.Acked?
      && trace[k].time - last.value.time > RESEND_TIMEVAL
      && trace[k].bytes == last.value.bytes)
  }

  ghost predicate AllJustified(trace: seq<Event>) {
    forall k :: 0 <= k < |trace| ==> Justified(trace, k)
  }

  /** The map holds exactly the commands whose latest event is a sending, with its time and bytes. */
  ghost predicate Tracks(pending: map<Id, Entry>, trace: seq<Event>) {
    forall id: Id ::
      (id in pending <==> LastOf(trace, id).Some? && !LastOf(trace, id).value.Acked?)
      && (id in pending ==> Entry(LastOf(trace, id).value.bytes, LastOf(trace, id).value.time) == pending[id])
  }

  lemma LastOfAppend(trace: seq<Event>, e: Event, id: Id)
    ensures LastOf(trace + [e], id) == if e.id == id then Some(e) else LastOf(trace, id)
  {
    assert (trace + [e])[..|trace|] == trace;
  }

  lemma JustifiedAppend(trace: seq<Event>, e: Event)
    requires AllJustified(trace)
    requires Justified(trace + [e], |trace|)
    ensures AllJustified(trace + [e])
  {
    var t := trace + [e];
    forall k | 0 <= k < |t|
      ensures Justified(t, k)
    {
      if k < |trace| {
        assert t[..k] == trace[..k];
        assert Justified(trace, k);
      }
    }
  }

  lemma AppendKeepsTrace(s: State, t: State, e: Event)
    requires Tracks(s.pending, s.trace) && AllJustified(s.trace)
    requires !e.Resent? && t.trace == s.trace + [e]
    requires e.Added? ==> t.pending == s.pending[e.id := Entry(e.bytes, e.time)]
    requires e.Acked? ==> t.pending == s.pending - {e.id}
    ensures Tracks(t.pending, t.trace) && AllJustified(t.trace)
  {
    JustifiedAppend(s.trace, e);
    forall id: Id
      ensures LastOf(t.trace, id) == if e.id == id then Some(e) else LastOf(s.trace, id)
    {
      LastOfAppend(s.trace, e, id);
    }
  }

  /** Walking part of the map: each due entry gets one justified retransmission. */
  lemma {:induction false} WalkKeepsTrace(keys: seq<Id>, n: nat, pending: map<Id, Entry>, now: int, trace: seq<Event>)
    requires n <= |keys| && Distinct(keys)
    requires forall k :: 0 <= k < |keys| ==> keys[k] in pending
    requires Tracks(pending, trace) && AllJustified(trace)
    ensures Tracks(VisitSome(keys[..n], pending, now), trace + Resends(keys[..n], pending, now))
    ensures AllJustified(trace + Resends(keys[..n], pending, now))
  {
    if n == 0 {
      WalkStart(pending, now);
      assert keys[..0] == [] && trace + [] == trace;
    } else {
      hide Tracks, AllJustified, VisitSome, Visit, Resends, ResendOne;
      WalkKeepsTrace(keys, n - 1, pending, now, trace);
      WalkStep(keys, n - 1, pending, now);
      var id, before := keys[n - 1], trace + Resends(keys[..n - 1], pending, now);
      Regroup(trace, Resends(keys[..n - 1], pending, now), ResendOne(id, pending[id], now));
      VisitKeepsTrace(VisitSome(keys[..n - 1], pending, now), before, id, now);
    }
  }

  lemma VisitKeepsTrace(pending: map<Id, Entry>, trace: seq<Event>, id: Id, now: int)
    requires Tracks(pending, trace) && AllJustified(trace) && id in pending
    ensures Tracks(pending[id := Visit(pending[id], now)], trace + ResendOne(id, pending[id], now))
    ensures AllJustified(trace + ResendOne(id, pending[id], now))
  {
    if Due(pending[id], now) {
      var e := Resent(id, now, pending[id].bytes);
      assert (trace + [e])[..|trace|] == trace;
      JustifiedAppend(trace, e);
      forall k: Id
        ensures LastOf(trace + [e], k) == if k == id then Some(e) else LastOf(trace, k)
      {
        LastOfAppend(trace, e, k);
      }
    } else {
      assert trace + [] == trace;
      assert pending[id := pending[id]] == pending;
    }
  }

  lemma FireKeepsTrace(s: State, d: int)
    requires Tracks(s.pending, s.trace) && AllJustified(s.trace)
    ensures Tracks(FireStep(s, d).pending, FireStep(s, d).trace) && AllJustified(FireStep(s, d).trace)
  {
    hide Ascending, Tracks, AllJustified, Resends, NextVal;
    if s.pending != map[] {
      var keys := Ascending(s.pending.Keys);
      AscendingKeys(s.pending.Keys);
      WalkKeepsTrace(keys, |keys|, s.pending, s.now, s.trace);
      assert keys[..|keys|] == keys;
      VisitSomeIsAll(keys, s.pending, s.now);
    }
  }

  /** Over every run, no command is retransmitted within 5000 ms of its latest sending or after its
      acknowledgement, and the map holds exactly the unacknowledged commands. */
  lemma {:induction false} RetransmissionsJustified(start: int, acts: seq<Action>, latency: nat)
    requires Possible(Start(start), acts, latency)
    ensures AllJustified(After(Start(start), acts).trace)
    ensures Tracks(After(Start(start), acts).pending, After(Start(start), acts).trace)
  {
    hide FireStep, AllJustified, Tracks;
    if acts == [] {
      NothingSent(start);
    } else {
      var before, a := After(Start(start), acts[..|acts| - 1]), acts[|acts| - 1];
      RetransmissionsJustified(start, acts[..|acts| - 1], latency);
      match a
      case Add(id, bytes) => AppendKeepsTrace(before, AddStep(before, id, bytes), Added(id, before.now, bytes));
      case Ack(msg) =>
        if AckStep(before, msg) != before {
          var id := AckRemoves(before, msg);
          AppendKeepsTrace(before, RemoveStep(before, id), Acked(id));
        }
      case Fire(d) => FireKeepsTrace(before, d);
      case Tick(to) =>
    }
  }

  lemma NothingSent(start: int)
    ensures AllJustified(Start(start).trace) && Tracks(Start(start).pending, Start(start).trace)
  {
  }

  // ---------------------------------------------------------------- what the code does not promise

  /** A waiting command can leave the map, in some possible run, exactly when the acknowledgement switch
      lists it; any other one, such as the map-collection command, is retransmitted for ever. */
  lemma RemovableExactly(s: State, id: Id, latency: nat)
    requires id in s.pending
    ensures id in ACKNOWLEDGED <==> exists acts :: Possible(s, acts, latency) && id !in After(s, acts).pending
    ensures H2G_COLLECT_MAP_CMD !in ACKNOWLEDGED
  {
    hide FireStep, AddStep, AckStep;
    if id in ACKNOWLEDGED {
      var msg := AckFor(s, id);
      var acts := [Ack(msg)];
      assert acts[..0] == [] && Possible(s, [], latency) && After(s, []) == s;
      assert After(s, acts) == RemoveStep(s, id);
      assert Possible(s, acts, latency) && id !in After(s, acts).pending;
    } else {
      forall acts | Possible(s, acts, latency)
        ensures id in After(s, acts).pending
      {
        NeverAcknowledged(s, acts, latency, id);
      }
    }
  }

  lemma {:induction false} NeverAcknowledged(s: State, acts: seq<Action>, latency: nat, id: Id)
    requires id in s.pending && id !in ACKNOWLEDGED && Possible(s, acts, latency)
    ensures id in After(s, acts).pending
  {
    hide Ascending, NextVal, Resends, AckStep;
    if acts != [] {
      var before, a := After(s, acts[..|acts| - 1]), acts[|acts| - 1];
      NeverAcknowledged(s, acts[..|acts| - 1], latency, id);
      if a.Ack? && AckStep(before, a.msg) != before {
        var other := AckRemoves(before, a.msg);
      }
    }
  }

  /** The delay is zero exactly when some entry has age zero. */
  lemma {:induction false} NextValZero(keys: seq<Id>, pending: map<Id, Entry>, now: int)
    requires forall k :: 0 <= k < |keys| ==> keys[k] in pending && pending[keys[k]].lastTime <= now
    ensures NextVal(keys, pending, now) == 0 <==>
            exists k :: 0 <= k < |keys| && pending[keys[k]].lastTime == now
  {
    if keys != [] {
      var n := |keys| - 1;
      NextValZero(keys[..n], pending, now);
      NextValLeast(keys[..n], pending, now);
      if k :| 0 <= k < n && pending[keys[k]].lastTime == now {
        assert pending[keys[..n][k]].lastTime == now;
      }
    }
  }

  lemma {:induction false} ResendsNothing(keys: seq<Id>, pending: map<Id, Entry>, now: int)
    requires forall k :: 0 <= k < |keys| ==> keys[k] in pending
    ensures Resends(keys, pending, now) == [] <==> forall k :: 0 <= k < |keys| ==> !Due(pending[keys[k]], now)
  {
    if keys != [] {
      var n := |keys| - 1;
      ResendsNothing(keys[..n], pending, now);
      assert forall k :: 0 <= k < n ==> keys[..n][k] == keys[k];
    }
  }

  /** Some entry was sent at this very instant and none is due. */
  ghost predicate Stalls(s: State) {
    && (exists id :: id in s.pending && s.pending[id].lastTime == s.now)
    && (forall id :: id in s.pending ==> !Due(s.pending[id], s.now))
  }

  /** A firing changes nothing at all exactly when it comes on time, some entry was sent at this very
      instant and none is due: the delay computed is zero, and the timer is armed again for now. */
  lemma FireChangesNothing(s: State, deadline: int)
    requires deadline in s.timers && deadline <= s.now
    requires forall id :: id in s.pending ==> s.pending[id].lastTime <= s.now
    ensures FireStep(s, deadline) == s <==> deadline == s.now && Stalls(s)
  {
    if s.pending == map[] {
      assert FireStep(s, deadline).timers[deadline] == s.timers[deadline] - 1;
    } else {
      var keys := Ascending(s.pending.Keys);
      WalkedStall(s, keys);
      hide Ascending, NextVal, Resends, VisitAll, Due, Stalls;
      var next, resends := s.now + NextVal(keys, s.pending, s.now), Resends(keys, s.pending, s.now);
      TimersKept(s.timers, deadline, next);
      TraceKept(s.trace, resends);
      var t := FireStep(s, deadline);
      assert t.now == s.now && t.pending == VisitAll(s.pending, s.now);
      assert t.timers == s.timers - multiset{deadline} + multiset{next} && t.trace == s.trace + resends;
    }
  }

  /** What the walk over the map finds in a stalling state. */
  lemma WalkedStall(s: State, keys: seq<Id>)
    requires keys == Ascending(s.pending.Keys)
    requires forall id :: id in s.pending ==> s.pending[id].lastTime <= s.now
    ensures forall k :: 0 <= k < |keys| ==> keys[k] in s.pending
    ensures NextVal(keys, s.pending, s.now) >= 0
    ensures Stalls(s) <==> NextVal(keys, s.pending, s.now) == 0 && Resends(keys, s.pending, s.now) == []
    ensures Stalls(s) ==> VisitAll(s.pending, s.now) == s.pending
  {
    hide Ascending, NextVal, Resends, VisitAll, Due;
    AscendingKeys(s.pending.Keys);
    NextValLeast(keys, s.pending, s.now);
    NextValZero(keys, s.pending, s.now);
    ResendsNothing(keys, s.pending, s.now);
    assert forall id :: id in s.pending <==> id in keys;
    if Stalls(s) { NothingVisited(s.pending, s.now); }
  }

  lemma TimersKept(timers: multiset<int>, deadline: int, next: int)
    requires deadline in timers
    ensures timers - multiset{deadline} + multiset{next} == timers <==> next == deadline
  {
    if next == deadline {
      assert timers - multiset{deadline} + multiset{deadline} == timers;
    } else {
      assert (timers - multiset{deadline} + multiset{next})[deadline] == timers[deadline] - 1;
    }
  }

  lemma TraceKept(trace: seq<Event>, more: seq<Event>)
    ensures trace + more == trace <==> more == []
  {
    assert |trace + more| == |trace| + |more|;
  }

  lemma NothingVisited(pending: map<Id, Entry>, now: int)
    requires forall id :: id in pending ==> !Due(pending[id], now)
    ensures VisitAll(pending, now) == pending
  {
  }

  /** An entry sent at this very instant, with a timer armed for now. */
  predicate Stalled(s: State, id: Id) {
    id in s.pending && s.pending[id].lastTime == s.now && s.now in s.timers
  }

  /** With an ideal timer the clock then stands still until that command is acknowledged: no deadline may
      be passed, and each firing due now arms a timer for now.  The bounds above say nothing about such
      runs beyond this instant. */
  lemma {:induction false} StalledUntilAcknowledged(s: State, acts: seq<Action>, id: Id)
    requires Stalled(s, id) && Possible(s, acts, 0)
    requires forall msg :: Ack(msg) in acts ==> !Acknowledges(msg, id)
    requires forall k :: k in s.pending ==> s.pending[k].lastTime <= s.now
    ensures After(s, acts).now == s.now && Stalled(After(s, acts), id)
    ensures forall k :: k in After(s, acts).pending ==> After(s, acts).pending[k].lastTime <= s.now
  {
    hide FireStep, AckStep, Acknowledges;
    if acts != [] {
      var before, a := After(s, acts[..|acts| - 1]), acts[|acts| - 1];
      StalledUntilAcknowledged(s, acts[..|acts| - 1], id);
      assert a in acts;
      match a
      case Add(_, _) =>
      case Ack(msg) => if AckStep(before, msg) != before { var other := AckRemoves(before, msg); }
      case Fire(d) => StalledFire(before, id, d);
      case Tick(_) =>
    }
  }

  lemma StalledFire(s: State, id: Id, deadline: int)
    requires Stalled(s, id) && deadline in s.timers
    requires forall k :: k in s.pending ==> s.pending[k].lastTime <= s.now
    ensures var t := FireStep(s, deadline);
            t.now == s.now && Stalled(t, id) && forall k :: k in t.pending ==> t.pending[k].lastTime <= s.now
  {
    hide Ascending, NextVal, Resends;
    var keys := Ascending(s.pending.Keys);
    AscendingKeys(s.pending.Keys);
    assert id in keys;
    NextValZero(keys, s.pending, s.now);
  }

  /** A run to such a state: a second command is sent at the instant the first one's timer is due. */
  lemma SecondCommand(a: Id, b: Id, bytes: seq<Byte>)
    requires a != b
    ensures var acts := [Add(a, bytes), Tick(5000), Add(b, bytes)];
            var s := After(Start(0), acts);
            && Possible(Start(0), acts, 0) && Enabled(s, Fire(5000), 0) && Stalled(s, b)
            && FireStep(s, 5000) == s
  {
    hide FireStep, AddStep, Enabled;
    var acts := [Add(a, bytes), Tick(5000), Add(b, bytes)];
    AfterThree(Start(0), acts, 0);
    TwoSent(a, b, bytes);
    FireChangesNothing(After(Start(0), acts), 5000);
  }

  lemma AfterThree(s: State, acts: seq<Action>, latency: nat)
    requires |acts| == 3
    ensures var s1 := Apply(s, acts[0]);
            var s2 := Apply(s1, acts[1]);
            && After(s, acts) == Apply(s2, acts[2])
            && (Possible(s, acts, latency) <==>
                  Enabled(s, acts[0], latency) && Enabled(s1, acts[1], latency) && Enabled(s2, acts[2], latency))
  {
    hide FireStep, AddStep, Enabled;
    var two, one := acts[..2], acts[..1];
    assert Possible(s, [], latency) && After(s, []) == s;
    assert two[..1] == one && one[..0] == [];
    assert After(s, one) == Apply(s, acts[0]);
    assert After(s, two) == Apply(After(s, one), acts[1]);
    assert Possible(s, one, latency) <==> Enabled(s, acts[0], latency);
    assert Possible(s, two, latency) <==> Possible(s, one, latency) && Enabled(After(s, one), acts[1], latency);
  }

  lemma TwoSent(a: Id, b: Id, bytes: seq<Byte>)
    requires a != b
    ensures var s1 := Apply(Start(0), Add(a, bytes));
            var s2 := Apply(s1, Tick(5000));
            var s := Apply(s2, Add(b, bytes));
            && Enabled(Start(0), Add(a, bytes), 0) && Enabled(s1, Tick(5000), 0) && Enabled(s2, Add(b, bytes), 0)
            && Enabled(s, Fire(5000), 0) && Stalled(s, b) && Stalls(s) && s.now == 5000
            && forall id :: id in s.pending ==> s.pending[id].lastTime <= s.now
  {
    var s1 := Apply(Start(0), Add(a, bytes));
    assert s1.pending == map[a := Entry(bytes, 0)] && s1.timers == multiset{5000};
    var s := AddStep(s1.(now := 5000), b, bytes);
    assert s.pending == map[a := Entry(bytes, 0), b := Entry(bytes, 5000)];
    assert s.pending.Keys == {a, b};
  }

  /** The 10000 ms bound is reached by every lone command under an ideal timer: the firing after 5000 ms
      sends nothing, the next one, after 10000 ms, is the first retransmission. */
  lemma LoneCommand(start: int, id: Id, bytes: seq<Byte>)
    ensures var s0 := AddStep(Start(start), id, bytes);
            var s1 := FireStep(s0.(now := start + 5000), start + 5000);
            var s2 := FireStep(s1.(now := start + 10000), start + 10000);
            && s0.timers == multiset{start + 5000}
            && s1.timers == multiset{start + 10000} && s1.trace == s0.trace
            && s2.trace == s0.trace + [Resent(id, start + 10000, bytes)]
  {
    hide Ascending;
    var s0 := AddStep(Start(start), id, bytes);
    var s1 := FireStep(s0.(now := start + 5000), start + 5000);
    assert s0.pending == map[id := Entry(bytes, start)];
    LoneWalk(s0.pending, id, start + 5000);
    assert s1.pending == s0.pending;
    LoneWalk(s1.pending, id, start + 10000);
  }

  lemma LoneWalk(pending: map<Id, Entry>, id: Id, now: int)
    requires pending.Keys == {id} && pending[id].lastTime <= now
    ensures var keys := Ascending(pending.Keys);
            && (forall k :: 0 <= k < |keys| ==> keys[k] in pending)
            && Resends(keys, pending, now) == ResendOne(id, pending[id], now)
            && NextVal(keys, pending, now) == NextOf(RESEND_TIMEVAL, pending[id], now)
  {
    hide Ascending;
    var keys := Ascending(pending.Keys);
    AscendingKeys(pending.Keys);
    assert id in keys;
    assert forall k :: 0 <= k < |keys| ==> keys[k] in pending.Keys;
    FirstTwo(keys);
    assert keys == [id] && [id][..0] == [];
  }

  lemma FirstTwo(keys: seq<Id>)
    requires Distinct(keys)
    ensures |keys| <= 1 || keys[0] < keys[1]
  {
  }
}
