/**
 Warning bits (hmi/HmiFunction/warnning.cpp) and the signals sent when they change (`warnninOpt` in
 hmi/HmiFunction/cmddealclass.cpp).
 */
module Warnings {
  const BITSET_LENGTH: nat := 8
  const BITSET_BYTE_LEN: nat := 16
  /** The warning bytes and the four status bytes behind them. */
  const RAW_LEN: nat := 20

  type Bits = bv8

  /** The start of a position message's body. */
  type Raw = m: seq<Bits> | |m| >= RAW_LEN witness seq(RAW_LEN, _ => 0)

  datatype Signal = Inserted(bit: nat) | Removed(bit: nat)

  // ---------------------------------------------------------------- specification

  predicate Test(b: Bits, pos: nat)
    requires pos < BITSET_LENGTH
  {
    (b >> pos) & 1 == 1
  }

  /** The bits of one byte below position `n`, numbered from `offset`. */
  function BitsBelow(b: Bits, offset: nat, n: nat): seq<nat>
    requires n <= BITSET_LENGTH
  {
    if n == 0 then []
    else BitsBelow(b, offset, n - 1) + if Test(b, n - 1) then [offset + n - 1] else []
  }

  function WarningBits(vector: seq<Bits>): seq<nat> {
    if vector == [] then []
    else
      var n := |vector| - 1;
      WarningBits(vector[..n]) + BitsBelow(vector[n], n * BITSET_LENGTH, BITSET_LENGTH)
  }

  /** The intended meaning: bit `n` of the bytes, counted from the low end of the first. */
  predicate IsSet(vector: seq<Bits>, n: nat) {
    n / BITSET_LENGTH < |vector| && Test(vector[n / BITSET_LENGTH], n % BITSET_LENGTH)
  }

  predicate Ascending(s: seq<nat>) {
    forall i, j :: 0 <= i < j < |s| ==> s[i] < s[j]
  }

  /** The library's difference of two sorted ranges, a merge. */
  function SetDifference(a: seq<nat>, b: seq<nat>): seq<nat>
    decreases |a| + |b|
  {
    if a == [] then []
    else if b == [] then a
    else if a[0] < b[0] then [a[0]] + SetDifference(a[1..], b)
    else if b[0] < a[0] then SetDifference(a, b[1..])
    else SetDifference(a[1..], b[1..])
  }

  function InsertSignals(bits: seq<nat>): seq<Signal> {
    seq(|bits|, i requires 0 <= i < |bits| => Inserted(bits[i]))
  }

  function RemoveSignals(bits: seq<nat>): seq<Signal> {
    seq(|bits|, i requires 0 <= i < |bits| => Removed(bits[i]))
  }

  /** The signals for a change of the warning list. */
  function Signals(before: seq<nat>, after: seq<nat>): seq<Signal> {
    InsertSignals(SetDifference(after, before)) + RemoveSignals(SetDifference(before, after))
  }

  // ---------------------------------------------------------------- the code

  class Warnning {
    var warningVector: seq<Bits>

    constructor ()
      ensures warningVector == seq(BITSET_BYTE_LEN, _ => 0)
    {
      warningVector := seq(BITSET_BYTE_LEN, _ => 0);
    }

    method LoadFromRawData(rawData: Raw) returns (index: nat)
      modifies this
      ensures warningVector == rawData[..16] && index == 20
    {
      index := 0;
      warningVector := [];
      for i := 0 to BITSET_BYTE_LEN
        invariant index == i && warningVector == rawData[..i]
      {
        warningVector := warningVector + [rawData[index]];
        index := index + 1;
      }
      index := index + 4;
    }

    method TestWarning(bit: nat) returns (r: bool)
      requires bit < |warningVector| * BITSET_LENGTH
      ensures r == IsSet(warningVector, bit)
    {
      var index := bit / BITSET_LENGTH;
      var bitOffset := bit % BITSET_LENGTH;
      r := Test(warningVector[index], bitOffset);
    }

    method GetWarningBit() returns (result: seq<nat>)
      ensures result == WarningBits(warningVector)
    {
      hide BitsBelow;
      result := [];
      for index := 0 to |warningVector|
        invariant result == WarningBits(warningVector[..index])
      {
        assert warningVector[..index + 1][..index] == warningVector[..index];
        result := AppendBits(warningVector[index], result, index * BITSET_LENGTH);
      }
      assert warningVector[..|warningVector|] == warningVector;
    }
  }

  method AppendBits(warn: Bits, outResult: seq<nat>, offset: nat) returns (r: seq<nat>)
    ensures r == outResult + BitsBelow(warn, offset, BITSET_LENGTH)
  {
    hide Test;
    r := outResult;
    if exists k | 0 <= k < BITSET_LENGTH :: Test(warn, k) {
      var pos := 0;
      while pos < BITSET_LENGTH
        invariant pos <= BITSET_LENGTH && r == outResult + BitsBelow(warn, offset, pos)
      {
        if Test(warn, pos) {
          r := r + [pos + offset];
        }
        pos := pos + 1;
      }
    } else {
      NoBits(warn, offset, BITSET_LENGTH);
    }
  }

  lemma {:induction false} NoBits(b: Bits, offset: nat, n: nat)
    requires n <= BITSET_LENGTH && forall k :: 0 <= k < n ==> !Test(b, k)
    ensures BitsBelow(b, offset, n) == []
  {
    if n > 0 { NoBits(b, offset, n - 1); }
  }

  /** The part of the command class that keeps the warnings. */
  class WarningState {
    var warnList: seq<nat>
    /** All signals emitted so far. */
    var signals: seq<Signal>

    constructor ()
      ensures warnList == [] && signals == []
    {
      warnList, signals := [], [];
    }

    method WarnninOpt(buf: Raw)
      modifies this
      ensures warnList == WarningBits(buf[..BITSET_BYTE_LEN])
      ensures signals == old(signals) + Signals(old(warnList), warnList)
    {
      hide WarningBits, SetDifference;
      var warn := new Warnning();
      var index := warn.LoadFromRawData(buf);
      var warnBitVector := warn.GetWarningBit();
      var addWarn := SetDifference(warnBitVector, warnList);
      var removeWarn := SetDifference(warnList, warnBitVector);
      warnList := warnBitVector;
      ghost var before := signals;
      for k := 0 to |addWarn|
        invariant signals == before + InsertSignals(addWarn)[..k]
        invariant warnList == warnBitVector
      {
        signals := signals + [Inserted(addWarn[k])];
      }
      assert InsertSignals(addWarn)[..|addWarn|] == InsertSignals(addWarn);
      before := signals;
      for k := 0 to |removeWarn|
        invariant signals == before + RemoveSignals(removeWarn)[..k]
        invariant warnList == warnBitVector
      {
        signals := signals + [Removed(removeWarn[k])];
      }
      assert RemoveSignals(removeWarn)[..|removeWarn|] == RemoveSignals(removeWarn);
    }
  }

  // ---------------------------------------------------------------- the list is the set of bits

  lemma {:induction false} BitsBelowAre(b: Bits, offset: nat, n: nat)
    requires n <= BITSET_LENGTH
    ensures Ascending(BitsBelow(b, offset, n))
    ensures forall x :: x in BitsBelow(b, offset, n) <==> offset <= x < offset + n && Test(b, x - offset)
  {
    hide Test;
    if n > 0 {
      BitsBelowAre(b, offset, n - 1);
      var before := BitsBelow(b, offset, n - 1);
      assert forall i :: 0 <= i < |before| ==> before[i] in before;
    }
  }

  /** The list is strictly ascending and holds exactly the bits that are set. */
  lemma {:induction false} WarningBitsAre(vector: seq<Bits>)
    ensures Ascending(WarningBits(vector))
    ensures forall x :: x in WarningBits(vector) <==> IsSet(vector, x)
    ensures forall x :: x in WarningBits(vector) ==> x < |vector| * BITSET_LENGTH
  {
    hide Test, BitsBelow;
    if vector != [] {
      var n := |vector| - 1;
      var before, last := WarningBits(vector[..n]), BitsBelow(vector[n], n * BITSET_LENGTH, BITSET_LENGTH);
      WarningBitsAre(vector[..n]);
      BitsBelowAre(vector[n], n * BITSET_LENGTH, BITSET_LENGTH);
      AscendingConcat(before, last, n * BITSET_LENGTH);
      forall x: nat
        ensures x in WarningBits(vector) <==> IsSet(vector, x)
      {
        ByteOf(x, n);
      }
    }
  }

  /** Which byte a bit number falls into. */
  lemma ByteOf(x: nat, n: nat)
    ensures n * BITSET_LENGTH <= x < n * BITSET_LENGTH + BITSET_LENGTH ==>
              x / BITSET_LENGTH == n && x % BITSET_LENGTH == x - n * BITSET_LENGTH
    ensures x < n * BITSET_LENGTH ==> x / BITSET_LENGTH < n
    ensures x >= n * BITSET_LENGTH + BITSET_LENGTH ==> x / BITSET_LENGTH > n
  {
  }

  lemma AscendingConcat(a: seq<nat>, b: seq<nat>, m: nat)
    requires Ascending(a) && Ascending(b)
    requires (forall x :: x in a ==> x < m) && (forall x :: x in b ==> m <= x)
    ensures Ascending(a + b)
  {
    assert forall i :: 0 <= i < |a| ==> a[i] in a;
    assert forall i :: 0 <= i < |b| ==> b[i] in b;
  }

  lemma AscendingTail(a: seq<nat>)
    requires Ascending(a) && a != []
    ensures Ascending(a[1..]) && forall x :: x in a[1..] ==> a[0] < x
  {
  }

  lemma AscendingSingle(x: nat)
    ensures Ascending([x])
  {
  }

  /** On ascending lists the merge is the true difference, and ascending. */
  lemma {:induction false} SetDifferenceIs(a: seq<nat>, b: seq<nat>)
    requires Ascending(a) && Ascending(b)
    ensures Ascending(SetDifference(a, b)) && IsDifference(SetDifference(a, b), a, b)
    ensures forall x :: x in SetDifference(a, b) <==> x in a && x !in b
    decreases |a| + |b|
  {
    if a != [] && b != [] {
      hide Ascending, IsDifference;
      AscendingTail(a);
      AscendingTail(b);
      if a[0] < b[0] {
        SetDifferenceIs(a[1..], b);
        TakeFirst(a, b, SetDifference(a[1..], b));
      } else if b[0] < a[0] {
        SetDifferenceIs(a, b[1..]);
        DropOther(a, b, SetDifference(a, b[1..]));
      } else {
        SetDifferenceIs(a[1..], b[1..]);
        DropBoth(a, b, SetDifference(a[1..], b[1..]));
      }
    }
    DifferenceMeans(SetDifference(a, b), a, b);
  }

  ghost predicate IsDifference(d: seq<nat>, a: seq<nat>, b: seq<nat>) {
    forall x :: x in d <==> x in a && x !in b
  }

  lemma DifferenceMeans(d: seq<nat>, a: seq<nat>, b: seq<nat>)
    requires IsDifference(d, a, b)
    ensures forall x :: x in d <==> x in a && x !in b
  {
  }

  lemma TakeFirst(a: seq<nat>, b: seq<nat>, d: seq<nat>)
    requires a != [] && b != [] && Ascending(a) && Ascending(b) && a[0] < b[0]
    requires Ascending(d) && IsDifference(d, a[1..], b)
    ensures Ascending([a[0]] + d) && IsDifference([a[0]] + d, a, b)
  {
    AscendingTail(a);
    AscendingTail(b);
    AscendingSingle(a[0]);
    hide Ascending;
    assert a == [a[0]] + a[1..] && b == [b[0]] + b[1..];
    AscendingConcat([a[0]], d, a[0] + 1);
  }

  lemma DropOther(a: seq<nat>, b: seq<nat>, d: seq<nat>)
    requires a != [] && b != [] && Ascending(a) && b[0] < a[0] && IsDifference(d, a, b[1..])
    ensures IsDifference(d, a, b)
  {
    AscendingTail(a);
    hide Ascending;
    assert a == [a[0]] + a[1..] && b == [b[0]] + b[1..];
  }

  lemma DropBoth(a: seq<nat>, b: seq<nat>, d: seq<nat>)
    requires a != [] && b != [] && Ascending(a) && a[0] == b[0] && IsDifference(d, a[1..], b[1..])
    ensures IsDifference(d, a, b)
  {
    AscendingTail(a);
    hide Ascending;
    assert a == [a[0]] + a[1..] && b == [b[0]] + b[1..];
  }

  // ---------------------------------------------------------------- replaying the signals

  function SetOf(s: seq<nat>): set<nat> {
    set x | x in s
  }

  /** The warnings a listener shows after these signals. */
  function Replay(signals: seq<Signal>): set<nat> {
    if signals == [] then {}
    else match signals[|signals| - 1]
      case Inserted(bit) => Replay(signals[..|signals| - 1]) + {bit}
      case Removed(bit) => Replay(signals[..|signals| - 1]) - {bit}
  }

  /** Every insertion is of a warning not shown, every removal of one shown: for each bit the signals
      alternate, starting with an insertion. */
  ghost predicate Alternating(signals: seq<Signal>) {
    forall k :: 0 <= k < |signals| ==>
      (signals[k].Inserted? <==> signals[k].bit !in Replay(signals[..k]))
  }

  lemma ReplayAppend(signals: seq<Signal>, s: Signal)
    requires Alternating(signals) && (s.Inserted? <==> s.bit !in Replay(signals))
    ensures Replay(signals + [s]) == if s.Inserted? then Replay(signals) + {s.bit} else Replay(signals) - {s.bit}
    ensures Alternating(signals + [s])
  {
    var t := signals + [s];
    assert t[..|signals|] == signals;
    forall k | 0 <= k < |t|
      ensures t[k].Inserted? <==> t[k].bit !in Replay(t[..k])
    {
      if k < |signals| { assert t[..k] == signals[..k]; }
    }
  }

  lemma SignalsSnoc(bits: seq<nat>, n: nat)
    requires Ascending(bits) && |bits| == n + 1
    ensures InsertSignals(bits) == InsertSignals(bits[..n]) + [Inserted(bits[n])]
    ensures RemoveSignals(bits) == RemoveSignals(bits[..n]) + [Removed(bits[n])]
    ensures SetOf(bits) == SetOf(bits[..n]) + {bits[n]} && bits[n] !in SetOf(bits[..n]) && Ascending(bits[..n])
  {
    assert bits == bits[..n] + [bits[n]];
  }

  lemma {:induction false} ReplayInserts(signals: seq<Signal>, bits: seq<nat>)
    requires Alternating(signals) && Ascending(bits) && SetOf(bits) !! Replay(signals)
    ensures Alternating(signals + InsertSignals(bits))
    ensures Replay(signals + InsertSignals(bits)) == Replay(signals) + SetOf(bits)
  {
    hide Alternating, Replay, Ascending;
    if bits == [] {
      assert signals + InsertSignals(bits) == signals;
    } else {
      var n := |bits| - 1;
      SignalsSnoc(bits, n);
      hide InsertSignals, SetOf;
      ReplayInserts(signals, bits[..n]);
      var t := signals + InsertSignals(bits[..n]);
      ReplayAppend(t, Inserted(bits[n]));
      assert signals + InsertSignals(bits) == t + [Inserted(bits[n])];
    }
  }

  lemma {:induction false} ReplayRemoves(signals: seq<Signal>, bits: seq<nat>)
    requires Alternating(signals) && Ascending(bits) && SetOf(bits) <= Replay(signals)
    ensures Alternating(signals + RemoveSignals(bits))
    ensures Replay(signals + RemoveSignals(bits)) == Replay(signals) - SetOf(bits)
  {
    hide Alternating, Replay, Ascending;
    if bits == [] {
      assert signals + RemoveSignals(bits) == signals;
    } else {
      var n := |bits| - 1;
      SignalsSnoc(bits, n);
      hide RemoveSignals, SetOf;
      ReplayRemoves(signals, bits[..n]);
      var t := signals + RemoveSignals(bits[..n]);
      ReplayAppend(t, Removed(bits[n]));
      assert signals + RemoveSignals(bits) == t + [Removed(bits[n])];
    }
  }

  // ---------------------------------------------------------------- runs

  datatype State = State(warnList: seq<nat>, signals: seq<Signal>)

  /** The state after a sequence of position messages. */
  function After(messages: seq<Raw>): State {
    if messages == [] then State([], [])
    else
      var s := After(messages[..|messages| - 1]);
      var list := WarningBits(messages[|messages| - 1][..BITSET_BYTE_LEN]);
      State(list, s.signals + Signals(s.warnList, list))
  }

  /** Over every run of messages the list is ascending, replaying all signals rebuilds it, and the signals
      of each bit alternate from an insertion. */
  lemma {:induction false} WarningReplay(messages: seq<Raw>)
    ensures var s := After(messages);
            Ascending(s.warnList) && Alternating(s.signals) && Replay(s.signals) == SetOf(s.warnList)
  {
    hide WarningBits, SetDifference, Replay, Alternating, InsertSignals, RemoveSignals;
    if messages == [] {
      NothingShown();
    } else {
      var before, after := After(messages[..|messages| - 1]), After(messages);
      WarningReplay(messages[..|messages| - 1]);
      WarningBitsAre(messages[|messages| - 1][..BITSET_BYTE_LEN]);
      var added := SetDifference(after.warnList, before.warnList);
      var removed := SetDifference(before.warnList, after.warnList);
      SetDifferenceIs(after.warnList, before.warnList);
      SetDifferenceIs(before.warnList, after.warnList);
      ReplayInserts(before.signals, added);
      ReplayRemoves(before.signals + InsertSignals(added), removed);
      assert before.signals + InsertSignals(added) + RemoveSignals(removed)
          == before.signals + (InsertSignals(added) + RemoveSignals(removed));
      assert SetOf(before.warnList) + SetOf(added) - SetOf(removed) == SetOf(after.warnList);
    }
  }

  lemma NothingShown()
    ensures Replay([]) == {} && Alternating([])
  {
  }

  // ---------------------------------------------------------------- which bits, which signals

  /** The bits are the binary digits of the byte, position 0 being worth one. */
  lemma TestIs(b: Bits)
    ensures Test(b, 0) <==> b % 2 == 1
    ensures Test(b, 1) <==> b / 2 % 2 == 1
    ensures Test(b, 2) <==> b / 4 % 2 == 1
    ensures Test(b, 3) <==> b / 8 % 2 == 1
    ensures Test(b, 4) <==> b / 16 % 2 == 1
    ensures Test(b, 5) <==> b / 32 % 2 == 1
    ensures Test(b, 6) <==> b / 64 % 2 == 1
    ensures Test(b, 7) <==> b / 128 == 1
  {
  }

  /** The list after a message: number n is bit n % 8 of byte n / 8, for the first sixteen bytes. */
  lemma ListIs(messages: seq<Raw>, raw: Raw, n: nat)
    ensures n in After(messages + [raw]).warnList <==> n < 128 && Test(raw[n / 8], n % 8)
  {
    hide Test, WarningBits, Signals;
    var all := messages + [raw];
    assert all[|all| - 1] == raw;
    WarningBitsAre(raw[..BITSET_BYTE_LEN]);
  }

  /** The signals for one message: an insertion for each bit that is new, in ascending order, and then a
      removal for each bit that is gone, in ascending order. */
  lemma SignalsAre(before: seq<nat>, after: seq<nat>) returns (added: seq<nat>, removed: seq<nat>)
    requires Ascending(before) && Ascending(after)
    ensures Ascending(added) && forall x :: x in added <==> x in after && x !in before
    ensures Ascending(removed) && forall x :: x in removed <==> x in before && x !in after
    ensures var s := Signals(before, after);
            && |s| == |added| + |removed|
            && (forall i :: 0 <= i < |added| ==> s[i] == Inserted(added[i]))
            && (forall i :: 0 <= i < |removed| ==> s[|added| + i] == Removed(removed[i]))
  {
    added, removed := SetDifference(after, before), SetDifference(before, after);
    hide SetDifference, Ascending, InsertSignals, RemoveSignals;
    SetDifferenceIs(after, before);
    SetDifferenceIs(before, after);
    SignalsAt(added, removed);
  }

  lemma SignalsAt(added: seq<nat>, removed: seq<nat>)
    ensures var s := InsertSignals(added) + RemoveSignals(removed);
            && |s| == |added| + |removed|
            && (forall i :: 0 <= i < |added| ==> s[i] == Inserted(added[i]))
            && (forall i :: 0 <= i < |removed| ==> s[|added| + i] == Removed(removed[i]))
  {
  }
}
