/**
 What one sending, one acknowledgement and one firing do, stated without the steps' own definitions: which
 message acknowledges which command, when a timer is armed and for when, and what is sent again.
 */
module ReSendSteps {
  import opened Jt808
  import opened ReSend
  import opened ReSendRuns

  /** A sending is stamped with the present time; it arms a timer for 5000 ms later exactly when no other
      command is waiting. */
  lemma AddIs(s: State, id: Id, bytes: seq<Byte>)
    ensures var t := AddStep(s, id, bytes);
            && t.now == s.now && t.trace == s.trace + [Added(id, s.now, bytes)]
            && id in t.pending && t.pending[id] == Entry(bytes, s.now)
            && (forall k: Id :: k != id ==>
                  (k in t.pending <==> k in s.pending) && (k in s.pending ==> t.pending[k] == s.pending[k]))
            && t.timers == if forall k :: k in s.pending ==> k == id then s.timers + multiset{s.now + 5000}
                           else s.timers
  {
    var t := AddStep(s, id, bytes);
    if k :| k in s.pending && k != id {
      assert {k, id} <= t.pending.Keys;
      OneKeyOnly(t.pending, k, id);
    } else {
      assert t.pending.Keys == {id};
    }
  }

  lemma OneKeyOnly(m: map<Id, Entry>, a: Id, b: Id)
    requires a in m && b in m && a != b
    ensures |m| != 1
  {
    if |m| == 1 { OnlyKey(m, a, b); }
  }

  /** A command waiting for more than 5000 ms. */
  predicate Overdue(s: State, id: Id) {
    id in s.pending && s.now - s.pending[id].lastTime > 5000
  }

  /** The events of a firing: every overdue command once, with its bytes, in ascending order. */
  ghost predicate ResendsOverdue(s: State, sent: seq<Event>) {
    && (forall i, j :: 0 <= i < j < |sent| ==> sent[i].id < sent[j].id)
    && (forall i :: 0 <= i < |sent| ==>
          Overdue(s, sent[i].id) && sent[i] == Resent(sent[i].id, s.now, s.pending[sent[i].id].bytes))
    && (forall id :: Overdue(s, id) ==> exists i :: 0 <= i < |sent| && sent[i].id == id)
  }

  /** The delay to the next firing: 5000 ms, or the least age of the commands not overdue. */
  ghost predicate NextDelay(s: State, delay: int) {
    && 0 <= delay <= 5000
    && (forall id :: id in s.pending && !Overdue(s, id) ==> delay <= s.now - s.pending[id].lastTime)
    && (delay == 5000 || exists id :: id in s.pending && !Overdue(s, id) && delay == s.now - s.pending[id].lastTime)
  }

  /** A firing with nothing waiting only uses its timer up.  Otherwise every overdue command, and no other,
      is sent again and stamped, and the timer is armed for the next delay. */
  lemma FireIs(s: State, deadline: int)
    requires deadline in s.timers && forall id :: id in s.pending ==> s.pending[id].lastTime <= s.now
    ensures s.pending == map[] ==> FireStep(s, deadline) == s.(timers := s.timers - multiset{deadline})
    ensures s.pending != map[] ==>
              exists delay, sent ::
                && NextDelay(s, delay) && ResendsOverdue(s, sent)
                && Fired(s, FireStep(s, deadline), deadline, delay, sent)
  {
    if s.pending != map[] {
      var keys := Ascending(s.pending.Keys);
      AscendingKeys(s.pending.Keys);
      FiredIs(s, deadline, keys);
      hide Ascending, NextVal, Resends, FireStep, Fired, NextDelay, ResendsOverdue, SentFor;
      NextValLeast(keys, s.pending, s.now);
      NextValAttained(keys, s.pending, s.now);
      ResendsAre(keys, s.pending, s.now);
      DelayIs(s, keys, NextVal(keys, s.pending, s.now));
      SentAre(s, keys, Resends(keys, s.pending, s.now));
    }
  }

  lemma FiredIs(s: State, deadline: int, keys: seq<Id>)
    requires s.pending != map[] && keys == Ascending(s.pending.Keys)
    requires forall k :: 0 <= k < |keys| ==> keys[k] in s.pending
    ensures Fired(s, FireStep(s, deadline), deadline, NextVal(keys, s.pending, s.now), Resends(keys, s.pending, s.now))
  {
    hide Ascending, NextVal, Resends;
  }

  ghost predicate Fired(s: State, t: State, deadline: int, delay: int, sent: seq<Event>) {
    && t.now == s.now && t.trace == s.trace + sent
    && t.timers == s.timers - multiset{deadline} + multiset{s.now + delay}
    && t.pending.Keys == s.pending.Keys
    && forall id :: id in s.pending ==>
         t.pending[id] == if Overdue(s, id) then Entry(s.pending[id].bytes, s.now) else s.pending[id]
  }

  lemma DelayIs(s: State, keys: seq<Id>, delay: int)
    requires forall id: Id :: id in keys <==> id in s.pending
    requires 0 <= delay <= RESEND_TIMEVAL
    requires forall k :: 0 <= k < |keys| && !Due(s.pending[keys[k]], s.now) ==>
                           delay <= s.now - s.pending[keys[k]].lastTime
    requires delay == RESEND_TIMEVAL || exists k :: 0 <= k < |keys| && IsAge(s.pending[keys[k]], s.now, delay)
    ensures NextDelay(s, delay)
  {
    if delay != RESEND_TIMEVAL {
      var k :| 0 <= k < |keys| && IsAge(s.pending[keys[k]], s.now, delay);
      assert keys[k] in keys && !Overdue(s, keys[k]);
    }
  }

  predicate IsAge(e: Entry, now: int, delay: int) {
    !Due(e, now) && delay == now - e.lastTime
  }

  lemma {:induction false} NextValAttained(keys: seq<Id>, pending: map<Id, Entry>, now: int)
    requires forall k :: 0 <= k < |keys| ==> keys[k] in pending
    ensures var delay := NextVal(keys, pending, now);
            delay == RESEND_TIMEVAL || exists k :: 0 <= k < |keys| && IsAge(pending[keys[k]], now, delay)
  {
    if keys != [] {
      var n := |keys| - 1;
      var before := NextVal(keys[..n], pending, now);
      NextValAttained(keys[..n], pending, now);
      if before != RESEND_TIMEVAL {
        var k :| 0 <= k < n && IsAge(pending[keys[..n][k]], now, before);
        assert keys[..n][k] == keys[k];
      }
      if NextVal(keys, pending, now) != before {
        assert IsAge(pending[keys[n]], now, NextVal(keys, pending, now));
      }
    }
  }

  /** The retransmissions of a walk belong to the due entries, in the order of the walk. */
  ghost predicate SentFor(keys: seq<Id>, pending: map<Id, Entry>, now: int, sent: seq<Event>)
    requires forall k :: 0 <= k < |keys| ==> keys[k] in pending
  {
    && (forall i, j :: 0 <= i < j < |sent| ==> sent[i].id < sent[j].id)
    && (forall i :: 0 <= i < |sent| ==>
          && sent[i].id in keys && Due(pending[sent[i].id], now)
          && sent[i] == Resent(sent[i].id, now, pending[sent[i].id].bytes))
    && (forall id :: id in keys && Due(pending[id], now) ==> exists i :: 0 <= i < |sent| && sent[i].id == id)
  }

  lemma {:induction false} ResendsAre(keys: seq<Id>, pending: map<Id, Entry>, now: int)
    requires Distinct(keys) && forall k :: 0 <= k < |keys| ==> keys[k] in pending
    ensures SentFor(keys, pending, now, Resends(keys, pending, now))
  {
    if keys != [] {
      var n := |keys| - 1;
      ResendsAre(keys[..n], pending, now);
      hide SentFor;
      var before := Resends(keys[..n], pending, now);
      if Due(pending[keys[n]], now) {
        OneMoreSent(keys, pending, now, before);
      } else {
        NoneMoreSent(keys, pending, now, before);
        assert before + [] == before;
      }
    }
  }

  lemma OneMoreSent(keys: seq<Id>, pending: map<Id, Entry>, now: int, before: seq<Event>)
    requires keys != [] && Distinct(keys) && forall k :: 0 <= k < |keys| ==> keys[k] in pending
    requires var n := |keys| - 1; SentFor(keys[..n], pending, now, before) && Due(pending[keys[n]], now)
    ensures var id := keys[|keys| - 1]; SentFor(keys, pending, now, before + [Resent(id, now, pending[id].bytes)])
  {
    hide Due;
    var n := |keys| - 1;
    var sent := before + [Resent(keys[n], now, pending[keys[n]].bytes)];
    forall i | 0 <= i < |before|
      ensures before[i].id < keys[n] && before[i].id in keys && sent[i] == before[i]
    {
      var k :| 0 <= k < n && keys[..n][k] == before[i].id;
      assert keys[k] == before[i].id;
    }
    forall id | id in keys && Due(pending[id], now)
      ensures exists i :: 0 <= i < |sent| && sent[i].id == id
    {
      if id == keys[n] {
        assert sent[|before|].id == id;
      } else {
        assert id in keys[..n];
        var i :| 0 <= i < |before| && before[i].id == id;
        assert sent[i].id == id;
      }
    }
  }

  lemma NoneMoreSent(keys: seq<Id>, pending: map<Id, Entry>, now: int, before: seq<Event>)
    requires keys != [] && forall k :: 0 <= k < |keys| ==> keys[k] in pending
    requires var n := |keys| - 1; SentFor(keys[..n], pending, now, before) && !Due(pending[keys[n]], now)
    ensures SentFor(keys, pending, now, before)
  {
    hide Due;
    assert keys == keys[..|keys| - 1] + [keys[|keys| - 1]];
  }

  lemma SentAre(s: State, keys: seq<Id>, sent: seq<Event>)
    requires forall id: Id :: id in keys <==> id in s.pending
    requires SentFor(keys, s.pending, s.now, sent)
    ensures ResendsOverdue(s, sent)
  {
  }
}
