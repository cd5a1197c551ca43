/**
 Retransmission of unacknowledged commands (hmi/HmiFunction/resendclass.cpp) and the acknowledgement
 that ends it (`g2hComAckDeal` in hmi/HmiFunction/cmddealclass.cpp).

 Time is in milliseconds.  `timers` holds the deadlines of the single-shot timers that are armed.  A
 timer runs at most `latency` milliseconds after its deadline; `latency == 0` is an ideal timer.
 */
module ReSend {
  import opened Jt808

  const ID_LIMIT := 0x1_0000
  const RESEND_TIMEVAL := 5000
  const G2H_COM_ACK_LEN: Word16 := 2
  const H2G_COLLECT_MAP_CMD: Id := 0x0F0F

  /** Command numbers, as the map orders them. */
  type Id = n: nat | n < ID_LIMIT

  /** The commands an acknowledgement removes: the cases of the acknowledgement switch. */
  const ACKNOWLEDGED: set<Id> := {
    0x00F1, // H2G_VERSION_CMD
    0x0F01, // H2G_SET_WORK_STATU_CMD
    0x8F0B, // H2G_UP_FILE_CMD
    0x2030, // H2G_START_UP_ACK_CMD
    0x2050, // H2G_SHUT_DOWN_CMD
    0x0F03, // H2G_REQ_MATER_CMD
    0x8306, // H2G_RES_WORK_OPT_CMD
    0x0305, // H2G_REQ_WORK_OPT_CMD
    0x8403, // H2G_SET_LOAD_CMD
    0x0104, // H2G_CHECK_PARA_CMD
    0x0F0E  // G2H_CLEAR_VEHICLE_ERROR_CMD
  }

  datatype Entry = Entry(bytes: seq<Byte>, lastTime: int)

  /** What happens to a command: the first sending, a retransmission, an acknowledgement. */
  datatype Event =
    | Added(id: Id, time: int, bytes: seq<Byte>)
    | Resent(id: Id, time: int, bytes: seq<Byte>)
    | Acked(id: Id)

  datatype State = State(now: int, pending: map<Id, Entry>, timers: multiset<int>, trace: seq<Event>)

  // ---------------------------------------------------------------- specification of the steps

  function AddStep(s: State, id: Id, bytes: seq<Byte>): State {
    var pending := s.pending[id := Entry(bytes, s.now)];
    s.(pending := pending,
       timers := if |pending| == 1 then s.timers + multiset{s.now + RESEND_TIMEVAL} else s.timers,
       trace := s.trace + [Added(id, s.now, bytes)])
  }

  function RemoveStep(s: State, id: Id): State {
    s.(pending := s.pending - {id}, trace := s.trace + [Acked(id)])
  }

  /** What a general acknowledgement does: its body is the number of the acknowledged command. */
  function AckStep(s: State, msg: Msg): State
    requires msg.Valid()
  {
    if msg.bodyLen != G2H_COM_ACK_LEN then s
    else
      assert Unsigned(2) == 2;
      var subId := Unsigned(Word(msg.body[0], msg.body[1]));
      if subId in ACKNOWLEDGED then RemoveStep(s, subId) else s
  }

  predicate Due(e: Entry, now: int) {
    now - e.lastTime > RESEND_TIMEVAL
  }

  function Visit(e: Entry, now: int): Entry {
    if Due(e, now) then e.(lastTime := now) else e
  }

  function VisitAll(pending: map<Id, Entry>, now: int): map<Id, Entry> {
    map id | id in pending :: Visit(pending[id], now)
  }

  /** The delay to the next firing: the least age of the entries that are not due, at most 5000. */
  function NextVal(keys: seq<Id>, pending: map<Id, Entry>, now: int): int
    requires forall k :: 0 <= k < |keys| ==> keys[k] in pending
  {
    if keys == [] then RESEND_TIMEVAL
    else
      NextOf(NextVal(keys[..|keys| - 1], pending, now), pending[keys[|keys| - 1]], now)
  }

  function NextOf(nextVal: int, e: Entry, now: int): int {
    if Due(e, now) || nextVal < now - e.lastTime then nextVal else now - e.lastTime
  }

  function Resends(keys: seq<Id>, pending: map<Id, Entry>, now: int): seq<Event>
    requires forall k :: 0 <= k < |keys| ==> keys[k] in pending
  {
    if keys == [] then []
    else
      var id := keys[|keys| - 1];
      Resends(keys[..|keys| - 1], pending, now) + ResendOne(id, pending[id], now)
  }

  function ResendOne(id: Id, e: Entry, now: int): seq<Event> {
    if Due(e, now) then [Resent(id, now, e.bytes)] else []
  }

  /** The keys below `n` in the order in which the map is walked. */
  function KeysBelow(keys: set<Id>, n: nat): seq<Id>
    requires n <= ID_LIMIT
  {
    if n == 0 then []
    else if n - 1 in keys then KeysBelow(keys, n - 1) + [n - 1]
    else KeysBelow(keys, n - 1)
  }

  function Ascending(keys: set<Id>): seq<Id> {
    KeysBelow(keys, ID_LIMIT)
  }

  /** The walk meets every key once, in ascending order. */
  lemma {:induction false} KeysBelowAscend(keys: set<Id>, n: nat)
    requires n <= ID_LIMIT
    ensures forall id: Id :: id in KeysBelow(keys, n) <==> id in keys && id < n
    ensures Distinct(KeysBelow(keys, n))
  {
    if n > 0 {
      KeysBelowAscend(keys, n - 1);
      var before := KeysBelow(keys, n - 1);
      assert forall i :: 0 <= i < |before| ==> before[i] in before;
    }
  }

  function FireStep(s: State, deadline: int): State {
    var timers := s.timers - multiset{deadline};
    if s.pending == map[] then s.(timers := timers)
    else
      var keys := Ascending(s.pending.Keys);
      AscendingKeys(s.pending.Keys);
      s.(pending := VisitAll(s.pending, s.now),
         timers := timers + multiset{s.now + NextVal(keys, s.pending, s.now)},
         trace := s.trace + Resends(keys, s.pending, s.now))
  }

  // ---------------------------------------------------------------- the code

  class ReSendClass {
    var reSendMap: map<Id, Entry>
    /** Deadlines of the armed single-shot timers. */
    var timers: multiset<int>
    /** Everything sent and acknowledged so far. */
    var trace: seq<Event>

    constructor (curTime: int)
      ensures View(curTime) == State(curTime, map[], multiset{}, [])
    {
      reSendMap, timers, trace := map[], multiset{}, [];
    }

    function View(now: int): State
      reads this
    {
      State(now, reSendMap, timers, trace)
    }

    method AddReSendMsg(curTime: int, id: Id, bytes: seq<Byte>)
      modifies this
      ensures View(curTime) == AddStep(old(View(curTime)), id, bytes)
    {
      reSendMap := reSendMap[id := Entry(bytes, curTime)];
      trace := trace + [Added(id, curTime, bytes)];
      if |reSendMap| == 1 {
        timers := timers + multiset{curTime + RESEND_TIMEVAL};
      }
    }

    method RemoveReSendMsg(id: Id)
      modifies this
      ensures forall now :: View(now) == RemoveStep(old(View(now)), id)
    {
      reSendMap := reSendMap - {id};
      trace := trace + [Acked(id)];
    }

    /** The slot run when the timer armed for `deadline` fires. */
    method TimeoutReSendMsgSlot(curTime: int, deadline: int)
      requires deadline in timers
      modifies this
      ensures View(curTime) == FireStep(old(View(curTime)), deadline)
    {
      hide Ascending, VisitAll, NextVal, Resends, Visit, ResendOne, NextOf, Due;
      timers := timers - multiset{deadline};
      if reSendMap == map[] {
        return;
      }
      AscendingKeys(reSendMap.Keys);
      var nextVal := VisitEntries(curTime);
      timers := timers + multiset{curTime + nextVal};
    }

    /** The iterator loop of the slot. */
    method VisitEntries(curTime: int) returns (nextVal: int)
      modifies `reSendMap, `trace
      ensures var pending, keys := old(reSendMap), Ascending(old(reSendMap).Keys);
              && (forall k :: 0 <= k < |keys| ==> keys[k] in pending)
              && reSendMap == VisitAll(pending, curTime)
              && nextVal == NextVal(keys, pending, curTime)
              && trace == old(trace) + Resends(keys, pending, curTime)
    {
      hide Ascending, Visit, VisitSome, NextVal, NextOf, Resends, ResendOne;
      nextVal := RESEND_TIMEVAL;
      ghost var pending, before := reSendMap, trace;
      var keys := Ascending(reSendMap.Keys);
      AscendingKeys(reSendMap.Keys);
      WalkStart(pending, curTime);
      assert trace == before + [];
      for i := 0 to |keys|
        invariant reSendMap == VisitSome(keys[..i], pending, curTime)
        invariant nextVal == NextVal(keys[..i], pending, curTime)
        invariant trace == before + Resends(keys[..i], pending, curTime)
      {
        WalkStep(keys, i, pending, curTime);
        Regroup(before, Resends(keys[..i], pending, curTime), ResendOne(keys[i], pending[keys[i]], curTime));
        nextVal := VisitEntry(keys[i], curTime, nextVal);
      }
      assert keys[..|keys|] == keys;
      VisitSomeIsAll(keys, pending, curTime);
    }

    /** One turn of the loop, at the map entry of `it`. */
    method VisitEntry(it: Id, curTime: int, nextVal: int) returns (next: int)
      requires it in reSendMap
      modifies `reSendMap, `trace
      ensures reSendMap == old(reSendMap)[it := Visit(old(reSendMap)[it], curTime)]
      ensures trace == old(trace) + ResendOne(it, old(reSendMap)[it], curTime)
      ensures next == NextOf(nextVal, old(reSendMap)[it], curTime)
    {
      next := nextVal;
      if curTime - reSendMap[it].lastTime > RESEND_TIMEVAL {
        trace := trace + [Resent(it, curTime, reSendMap[it].bytes)];
        reSendMap := reSendMap[it := reSendMap[it].(lastTime := curTime)];
      } else {
        next := if nextVal < curTime - reSendMap[it].lastTime then nextVal else curTime - reSendMap[it].lastTime;
      }
    }

    /** A general acknowledgement; false is the source's -1. */
    method G2hComAckDeal(msg: Msg) returns (ok: bool)
      requires msg.Valid()
      modifies this
      ensures ok == (msg.bodyLen == G2H_COM_ACK_LEN)
      ensures forall now :: View(now) == AckStep(old(View(now)), msg)
    {
      if msg.bodyLen != G2H_COM_ACK_LEN {
        return false;
      }
      assert Unsigned(2) == 2;
      var subId := Unsigned(Word(msg.body[0], msg.body[1]));
      if subId in ACKNOWLEDGED {
        RemoveReSendMsg(subId);
      }
      ok := true;
    }
  }


  // ---------------------------------------------------------------- acknowledgements

  /** The commands that an acknowledgement ends. */
  lemma ListedCommands(id: Id)
    ensures id in ACKNOWLEDGED <==>
              || id == 0x00F1 || id == 0x0F01 || id == 0x8F0B || id == 0x2030 || id == 0x2050 || id == 0x0F03
              || id == 0x8306 || id == 0x0305 || id == 0x8403 || id == 0x0104 || id == 0x0F0E
  {
  }

  /** An acknowledgement of command `id` carries its number low byte first; it removes that command if it
      is listed, and changes nothing otherwise. */
  lemma AckIs(s: State, id: Word16, msgId: Word16, serial: Word16)
    ensures var msg := Msg(msgId, serial, 2, [(id & 0xFF) as Byte, (id >> 8) as Byte]);
            && msg.Valid()
            && AckStep(s, msg) == if Unsigned(id) in ACKNOWLEDGED then RemoveStep(s, Unsigned(id)) else s
  {
    TwoIsTwo();
    LittleEndianRoundTrip(id);
    hide Unsigned, RemoveStep;
  }

  lemma TwoIsTwo()
    ensures Unsigned(2) == 2
  {
  }

  /** A message of any other length is no acknowledgement. */
  lemma AckOfOtherLength(s: State, msg: Msg)
    requires msg.Valid() && |msg.body| != 2
    ensures AckStep(s, msg) == s
  {
    TwoIsTwo();
  }

  /** Removing a command leaves the others, the clock and all timers as they are. */
  lemma RemoveIs(s: State, id: Id)
    ensures var t := RemoveStep(s, id);
            && t.now == s.now && t.timers == s.timers && t.trace == s.trace + [Acked(id)]
            && id !in t.pending
            && forall k: Id :: k != id ==>
                 (k in t.pending <==> k in s.pending) && (k in s.pending ==> t.pending[k] == s.pending[k])
  {
  }

  /** The message acknowledges command `id`. */
  predicate Acknowledges(msg: Msg, id: Id) {
    msg.Valid() && msg.bodyLen == 2 && |msg.body| == 2 && Unsigned(Word(msg.body[0], msg.body[1])) == id
  }

  /** Every listed command has a message that acknowledges it. */
  lemma AckFor(s: State, id: Id) returns (msg: Msg)
    requires id in ACKNOWLEDGED
    ensures Acknowledges(msg, id) && AckStep(s, msg) == RemoveStep(s, id)
  {
    var w := WordFor(id);
    msg := Msg(1, 0, 2, [(w & 0xFF) as Byte, (w >> 8) as Byte]);
    AckIs(s, w, 1, 0);
    LittleEndianRoundTrip(w);
  }

  /** An acknowledgement that changes anything removes one listed command, the one it names. */
  lemma AckRemoves(s: State, msg: Msg) returns (id: Id)
    requires msg.Valid() && AckStep(s, msg) != s
    ensures id in ACKNOWLEDGED && Acknowledges(msg, id) && AckStep(s, msg) == RemoveStep(s, id)
  {
    TwoIsTwo();
    hide Unsigned;
    id := Unsigned(Word(msg.body[0], msg.body[1]));
  }

  // ---------------------------------------------------------------- the loop

  lemma AscendingKeys(keys: set<Id>)
    ensures forall id: Id :: id in Ascending(keys) <==> id in keys
    ensures Distinct(Ascending(keys))
  {
    hide KeysBelow;
    KeysBelowAscend(keys, ID_LIMIT);
  }

  ghost function VisitSome(keys: seq<Id>, pending: map<Id, Entry>, now: int): map<Id, Entry>
    requires forall k :: 0 <= k < |keys| ==> keys[k] in pending
  {
    map id | id in pending :: if id in keys then Visit(pending[id], now) else pending[id]
  }

  predicate Distinct(keys: seq<Id>) {
    forall i, j :: 0 <= i < j < |keys| ==> keys[i] < keys[j]
  }

  lemma WalkStart(pending: map<Id, Entry>, now: int)
    ensures VisitSome([], pending, now) == pending
    ensures NextVal([], pending, now) == RESEND_TIMEVAL && Resends([], pending, now) == []
  {
  }

  lemma WalkStep(keys: seq<Id>, i: nat, pending: map<Id, Entry>, now: int)
    requires i < |keys| && Distinct(keys)
    requires forall k :: 0 <= k < |keys| ==> keys[k] in pending
    ensures VisitSome(keys[..i], pending, now).Keys == pending.Keys
    ensures VisitSome(keys[..i], pending, now)[keys[i]] == pending[keys[i]]
    ensures VisitSome(keys[..i + 1], pending, now)
         == VisitSome(keys[..i], pending, now)[keys[i] := Visit(pending[keys[i]], now)]
    ensures NextVal(keys[..i + 1], pending, now)
         == NextOf(NextVal(keys[..i], pending, now), pending[keys[i]], now)
    ensures Resends(keys[..i + 1], pending, now)
         == Resends(keys[..i], pending, now) + ResendOne(keys[i], pending[keys[i]], now)
  {
    hide Visit, NextOf, ResendOne;
    assert keys[i] !in keys[..i];
    assert keys[..i + 1] == keys[..i] + [keys[i]];
    assert keys[..i + 1][..i] == keys[..i];
  }

  lemma VisitSomeIsAll(keys: seq<Id>, pending: map<Id, Entry>, now: int)
    requires forall id: Id :: id in keys <==> id in pending
    ensures VisitSome(keys, pending, now) == VisitAll(pending, now)
  {
  }
}
