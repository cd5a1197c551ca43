/** What the rotating log keeps, over one rotation and over every run of writes. */
module LogRuns {
  import opened LogRotation

  function Min(a: nat, b: nat): nat {
    if a < b then a else b
  }

  // ---------------------------------------------------------------- one rotation

  predicate SameAt(fs: Files, t: Files, name: Name) {
    (name in t <==> name in fs) && (name in fs ==> t[name] == fs[name])
  }

  /** Backup `i` holds what was one place lower, the first one what was in the live file. */
  predicate MovedTo(fs: Files, t: Files, i: nat)
    requires i >= 1
  {
    var from := if i == 1 then Live else Backup(i - 1);
    from in fs && Backup(i) in t && t[Backup(i)] == fs[from]
  }

  lemma KeptAt(fs: Files, kept: nat)
    requires Live in fs && forall i :: 1 <= i <= kept ==> Backup(i) in fs
    ensures var t := RotateKept(fs, kept);
            && Live !in t
            && (forall i :: 1 <= i <= kept + 1 ==> MovedTo(fs, t, i))
            && (forall name :: name != Live && !(name.Backup? && 1 <= name.n <= kept + 1) ==> SameAt(fs, t, name))
  {
    var t := RotateKept(fs, kept);
    forall i | 1 <= i <= kept + 1
      ensures MovedTo(fs, t, i)
    {
      assert Backup(i) in fs || Backup(i) == Backup(kept + 1);
    }
    forall name | name != Live && !(name.Backup? && 1 <= name.n <= kept + 1)
      ensures SameAt(fs, t, name)
    {
    }
  }

  lemma RotatedAt(fs: Files, backups: nat, n: nat, k: nat)
    requires Live in fs && backups >= 1 && n == Contiguous(fs, 1, backups) && k == Min(n + 1, backups)
    ensures k >= 1 && n <= backups
    ensures forall i :: 1 <= i <= n ==> Backup(i) in fs
    ensures RotateFiles(fs, backups) == RotateKept(fs, k - 1)
  {
    ContiguousExist(fs, 1, backups);
  }

  /** From `fs` to `t` the `n` contiguous backups became `k`: the history is the old one behind the live
      file, cut to `k` files, and every name outside it has what it had. */
  ghost predicate Refines(fs: Files, t: Files, n: nat, k: nat)
    requires Live in fs
  {
    && (forall i :: 1 <= i <= n ==> Backup(i) in fs) && (forall i :: 1 <= i <= k ==> Backup(i) in t)
    && k <= n + 1 && History(t, k) == ([fs[Live]] + History(fs, n))[..k]
    && Live !in t
    && (forall name :: name != Live && !(name.Backup? && 1 <= name.n <= k) ==> SameAt(fs, t, name))
  }

  /** A rotation is `history := take(B, live : history)` on the contiguous backups, for B = 0 too.  No file
      above `.B` appears, and everything behind the first gap stays. */
  lemma RotationRefines(fs: Files, backups: nat)
    requires Live in fs
    ensures var n := Contiguous(fs, 1, backups);
            n <= backups && Refines(fs, RotateFiles(fs, backups), n, Min(n + 1, backups))
  {
    hide Contiguous, RotateFiles, RotateKept, Refines;
    var n := Contiguous(fs, 1, backups);
    var k := Min(n + 1, backups);
    if backups == 0 {
      DeletedRefines(fs);
    } else {
      RotatedAt(fs, backups, n, k);
      KeptRefines(fs, n, k);
    }
  }

  lemma DeletedRefines(fs: Files)
    requires Live in fs
    ensures Contiguous(fs, 1, 0) == 0 && Refines(fs, RotateFiles(fs, 0), 0, 0)
  {
  }

  /** Without a live file the backups move up all the same, and there is no `.1`. */
  lemma RotationWithoutLive(fs: Files, backups: nat)
    requires Live !in fs && backups >= 1
    ensures var t, k := RotateFiles(fs, backups), Min(Contiguous(fs, 1, backups) + 1, backups);
            && Live !in t && Backup(1) !in t
            && (forall i :: 2 <= i <= k ==> MovedTo(fs, t, i))
            && (forall name :: name != Live && !(name.Backup? && 1 <= name.n <= k) ==> SameAt(fs, t, name))
  {
    hide Contiguous;
    KeptExist(fs, backups);
    assert Kept(fs, backups) + 1 == Min(Contiguous(fs, 1, backups) + 1, backups);
    hide Kept, MovedTo, SameAt;
    KeptWithoutLive(fs, Kept(fs, backups));
  }

  lemma KeptWithoutLive(fs: Files, kept: nat)
    requires Live !in fs && forall i :: 1 <= i <= kept ==> Backup(i) in fs
    ensures var t := RotateKept(fs, kept);
            && Live !in t && Backup(1) !in t
            && (forall i :: 2 <= i <= kept + 1 ==> MovedTo(fs, t, i))
            && (forall name :: name != Live && !(name.Backup? && 1 <= name.n <= kept + 1) ==> SameAt(fs, t, name))
  {
  }

  lemma KeptRefines(fs: Files, n: nat, k: nat)
    requires Live in fs && 1 <= k <= n + 1 && forall i :: 1 <= i <= n ==> Backup(i) in fs
    ensures Refines(fs, RotateKept(fs, k - 1), n, k)
  {
    hide RotateKept, History, MovedTo, SameAt;
    KeptAt(fs, k - 1);
    HistoryShifts(fs, RotateKept(fs, k - 1), n, k);
  }

  lemma HistoryShifts(fs: Files, t: Files, n: nat, k: nat)
    requires Live in fs && 1 <= k <= n + 1 && forall i :: 1 <= i <= n ==> Backup(i) in fs
    requires forall i :: 1 <= i <= k ==> MovedTo(fs, t, i)
    ensures forall i :: 1 <= i <= k ==> Backup(i) in t
    ensures History(t, k) == ([fs[Live]] + History(fs, n))[..k]
  {
    forall i | 1 <= i <= k
      ensures Backup(i) in t
    {
      assert MovedTo(fs, t, i);
    }
    var expected := ([fs[Live]] + History(fs, n))[..k];
    forall i | 0 <= i < k
      ensures History(t, k)[i] == expected[i]
    {
      assert MovedTo(fs, t, i + 1);
    }
  }

  // ---------------------------------------------------------------- the reference: segments

  function Flatten(segments: seq<seq<Message>>): seq<Message> {
    if segments == [] then [] else Flatten(segments[..|segments| - 1]) + segments[|segments| - 1]
  }

  /** The bytes that count against the maximum: the message that caused a rotation opens the next file
      and is not counted there. */
  function Counted(segment: seq<Message>, first: bool): nat {
    if first || segment == [] then Bytes(segment) else Bytes(segment[1..])
  }

  /** A division of a message list into files: every file stays within the maximum, and was left only
      because the next message would have exceeded it. */
  ghost predicate Division(segments: seq<seq<Message>>, messages: seq<Message>, maxSize: nat) {
    && |segments| >= 1 && Flatten(segments) == messages
    && (forall k :: 0 <= k < |segments| ==> Counted(segments[k], k == 0) <= maxSize)
    && (forall k :: 1 <= k < |segments| ==>
          segments[k] != [] && Counted(segments[k - 1], k == 1) + |segments[k][0]| > maxSize)
  }

  function Segments(messages: seq<Message>, maxSize: nat): (r: seq<seq<Message>>)
    ensures |r| >= 1
  {
    if messages == [] then [[]]
    else
      var before, m := Segments(messages[..|messages| - 1], maxSize), messages[|messages| - 1];
      Extend(before, m, maxSize)
  }

  /** One more message: into the last segment, or into a new one. */
  function Extend(segments: seq<seq<Message>>, m: Message, maxSize: nat): (r: seq<seq<Message>>)
    requires |segments| >= 1
    ensures |r| >= 1
  {
    var s := |segments| - 1;
    if Counted(segments[s], s == 0) + |m| > maxSize then segments + [[m]]
    else segments[..s] + [segments[s] + [m]]
  }

  lemma {:induction false} BytesAppend(content: seq<Message>, m: Message)
    ensures Bytes(content + [m]) == Bytes(content) + |m|
    ensures content != [] ==> Bytes((content + [m])[1..]) == Bytes(content[1..]) + |m|
  {
    assert (content + [m])[..|content|] == content;
    if content != [] {
      assert (content + [m])[1..] == content[1..] + [m];
      assert (content[1..] + [m])[..|content| - 1] == content[1..];
    }
  }

  lemma CountedAppend(segment: seq<Message>, m: Message, first: bool)
    requires first || segment != []
    ensures Counted(segment + [m], first) == Counted(segment, first) + |m|
  {
    BytesAppend(segment, m);
  }

  lemma CountedStart(m: Message)
    ensures Counted([m], false) == 0 && Counted([], true) == 0
  {
    assert [m][1..] == [];
  }

  lemma ExtendKeepsDivision(segments: seq<seq<Message>>, messages: seq<Message>, m: Message, maxSize: nat)
    requires Division(segments, messages, maxSize)
    ensures Division(Extend(segments, m, maxSize), messages + [m], maxSize)
  {
    var s: nat := |segments| - 1;
    hide Counted, Division;
    if Counted(segments[s], s == 0) + |m| > maxSize {
      NewFileDivides(segments, messages, m, maxSize);
    } else {
      LongerFileDivides(segments, messages, m, maxSize);
    }
  }

  lemma NewFileDivides(segments: seq<seq<Message>>, messages: seq<Message>, m: Message, maxSize: nat)
    requires Division(segments, messages, maxSize)
    requires Counted(segments[|segments| - 1], |segments| == 1) + |m| > maxSize
    ensures Division(segments + [[m]], messages + [m], maxSize)
  {
    hide Counted;
    assert (segments + [[m]])[..|segments|] == segments;
    CountedStart(m);
  }

  lemma LongerFileDivides(segments: seq<seq<Message>>, messages: seq<Message>, m: Message, maxSize: nat)
    requires Division(segments, messages, maxSize)
    requires Counted(segments[|segments| - 1], |segments| == 1) + |m| <= maxSize
    ensures Division(segments[..|segments| - 1] + [segments[|segments| - 1] + [m]], messages + [m], maxSize)
  {
    hide Counted;
    var s := |segments| - 1;
    CountedAppend(segments[s], m, s == 0);
    ReplaceLast(segments, segments[s] + [m]);
    assert Flatten(segments[..s]) + (segments[s] + [m]) == Flatten(segments[..s]) + segments[s] + [m];
    assert s > 0 ==> (segments[s] + [m])[0] == segments[s][0];
  }

  lemma ReplaceLast(segments: seq<seq<Message>>, last: seq<Message>)
    requires |segments| >= 1
    ensures var s, r := |segments| - 1, segments[..|segments| - 1] + [last];
            && |r| == |segments| && r[s] == last
            && (forall k :: 0 <= k < s ==> r[k] == segments[k])
            && Flatten(r) == Flatten(segments[..s]) + last
  {
    var r := segments[..|segments| - 1] + [last];
    assert r[..|r| - 1] == segments[..|segments| - 1];
  }

  lemma {:induction false} SegmentsDivide(messages: seq<Message>, maxSize: nat)
    ensures Division(Segments(messages, maxSize), messages, maxSize)
  {
    if messages == [] {
      var one: seq<seq<Message>> := [[]];
      assert one[..0] == [] && Flatten(one) == [];
    } else {
      var before, m := messages[..|messages| - 1], messages[|messages| - 1];
      SegmentsDivide(before, maxSize);
      ExtendKeepsDivision(Segments(before, maxSize), before, m, maxSize);
      assert before + [m] == messages;
    }
  }

  /** There is only one division of a message list. */
  lemma {:induction false} DivisionUnique(segments: seq<seq<Message>>, messages: seq<Message>, maxSize: nat)
    requires Division(segments, messages, maxSize)
    ensures segments == Segments(messages, maxSize)
    decreases |messages|
  {
    var s := |segments| - 1;
    var last := segments[s];
    assert Flatten(segments) == Flatten(segments[..s]) + last;
    if last == [] {
      assert s == 0 && segments == [[]] && messages == [];
    } else {
      var m := last[|last| - 1];
      var before := Flatten(segments[..s]) + last[..|last| - 1];
      assert before + [m] == messages;
      assert messages[..|messages| - 1] == before && messages[|messages| - 1] == m;
      var shorter := WithoutLast(segments);
      WithoutLastDivides(segments, messages, maxSize);
      DivisionUnique(shorter, before, maxSize);
    }
  }

  /** The division with the last message taken away. */
  function WithoutLast(segments: seq<seq<Message>>): seq<seq<Message>>
    requires |segments| >= 1 && segments[|segments| - 1] != []
  {
    var s, last := |segments| - 1, segments[|segments| - 1];
    if s > 0 && |last| == 1 then segments[..s] else segments[..s] + [last[..|last| - 1]]
  }

  lemma WithoutLastDivides(segments: seq<seq<Message>>, messages: seq<Message>, maxSize: nat)
    requires |segments| >= 1 && Division(segments, messages, maxSize) && segments[|segments| - 1] != []
    ensures var s, last := |segments| - 1, segments[|segments| - 1];
            && Division(WithoutLast(segments), Flatten(segments[..s]) + last[..|last| - 1], maxSize)
            && Extend(WithoutLast(segments), last[|last| - 1], maxSize) == segments
  {
    hide Counted, Division, Extend;
    var s, last := |segments| - 1, segments[|segments| - 1];
    if s > 0 && |last| == 1 {
      SegmentDropped(segments, messages, maxSize);
    } else {
      SegmentShortened(segments, messages, maxSize);
    }
  }

  lemma SegmentDropped(segments: seq<seq<Message>>, messages: seq<Message>, maxSize: nat)
    requires Division(segments, messages, maxSize) && |segments| > 1 && |segments[|segments| - 1]| == 1
    ensures var s, last := |segments| - 1, segments[|segments| - 1];
            && Division(segments[..s], Flatten(segments[..s]) + last[..0], maxSize)
            && Extend(segments[..s], last[0], maxSize) == segments
  {
    hide Counted;
    var s, last := |segments| - 1, segments[|segments| - 1];
    assert Flatten(segments[..s]) + last[..0] == Flatten(segments[..s]);
    assert last == [last[0]];
    assert segments[..s] + [last] == segments;
  }

  lemma SegmentShortened(segments: seq<seq<Message>>, messages: seq<Message>, maxSize: nat)
    requires Division(segments, messages, maxSize) && segments[|segments| - 1] != []
    requires |segments| == 1 || |segments[|segments| - 1]| > 1
    ensures var s, last := |segments| - 1, segments[|segments| - 1];
            var shorter := segments[..s] + [last[..|last| - 1]];
            && Division(shorter, Flatten(segments[..s]) + last[..|last| - 1], maxSize)
            && Extend(shorter, last[|last| - 1], maxSize) == segments
  {
    hide Counted, Flatten;
    var s, last := |segments| - 1, segments[|segments| - 1];
    var rest, m := last[..|last| - 1], last[|last| - 1];
    assert rest + [m] == last;
    CountedAppend(rest, m, s == 0);
    ReplaceLast(segments, rest);
    assert s > 0 ==> rest[0] == last[0];
    assert (segments[..s] + [rest])[..s] + [last] == segments;
  }

  // ---------------------------------------------------------------- runs

  function Run(disk: Files, messages: seq<Message>, maxSize: nat, backups: nat): (r: State)
    ensures Live in r.files
  {
    if messages == [] then Open(disk)
    else WriteStep(Run(disk, messages[..|messages| - 1], maxSize, backups), messages[|messages| - 1], maxSize, backups)
  }

  /** The disk holds the latest segments: the last one live, the ones before it in the backups. */
  ghost predicate OnDisk(fs: Files, segments: seq<seq<Message>>, backups: nat) {
    var last := |segments| - 1;
    && last >= 0
    && Live in fs && fs[Live] == segments[last]
    && (forall i :: i >= 1 ==> (Backup(i) in fs <==> i <= Min(backups, last)))
    && (forall i :: 1 <= i <= Min(backups, last) ==> fs[Backup(i)] == segments[last - i])
  }

  /** And the recorded size is what counts of the last segment. */
  ghost predicate Holds(s: State, segments: seq<seq<Message>>, backups: nat) {
    OnDisk(s.files, segments, backups) && s.size == Counted(segments[|segments| - 1], |segments| == 1)
  }

  lemma {:induction false} ContiguousIs(fs: Files, from: nat, limit: nat, n: nat)
    requires 1 <= from <= n + 1 <= limit + 1
    requires forall i :: from <= i ==> (Backup(i) in fs <==> i <= n)
    ensures Contiguous(fs, from, limit) == n + 1 - from
    decreases limit + 1 - from
  {
    if from <= n { ContiguousIs(fs, from + 1, limit, n); }
  }

  /** After a rotation and re-opening, the first message goes to a fresh live file. */
  lemma RotationHolds(fs: Files, segments: seq<seq<Message>>, m: Message, backups: nat)
    requires OnDisk(fs, segments, backups)
    ensures var t := Open(RotateFiles(fs, backups));
            OnDisk(t.files[Live := t.files[Live] + [m]], segments + [[m]], backups) && t.size == 0
  {
    var t := RotateFiles(fs, backups);
    RotatedBackups(fs, segments, backups);
    hide RotateFiles, BackedUp, Counted, Open, OnDisk;
    OpenFresh(t);
    assert [] + [m] == [m] && t[Live := []][Live := [m]] == t[Live := [m]];
    FreshHolds(t, segments, m, backups);
  }

  lemma FreshHolds(t: Files, segments: seq<seq<Message>>, m: Message, backups: nat)
    requires |segments| >= 1 && Live !in t && forall i :: i >= 1 ==> BackedUp(t, segments, backups, i)
    ensures OnDisk(t[Live := [m]], segments + [[m]], backups)
  {
    hide BackedUp;
    forall i | i >= 1
      ensures Backup(i) in t[Live := [m]] <==> i <= Min(backups, |segments|)
      ensures i <= Min(backups, |segments|) ==>
                t[Live := [m]][Backup(i)] == (segments + [[m]])[|segments| - i]
    {
      BackedUpMeans(t, segments, m, backups, i);
    }
  }

  lemma OpenFresh(t: Files)
    requires Live !in t
    ensures Open(t) == State(t[Live := []], 0)
  {
  }

  lemma BackedUpMeans(t: Files, segments: seq<seq<Message>>, m: Message, backups: nat, i: nat)
    requires i >= 1 && BackedUp(t, segments, backups, i)
    ensures Backup(i) in t[Live := [m]] <==> i <= Min(backups, |segments|)
    ensures i <= Min(backups, |segments|) ==>
              t[Live := [m]][Backup(i)] == (segments + [[m]])[|segments| - i]
  {
  }

  /** Backup `i` after the division has one file more than `segments`. */
  predicate BackedUp(t: Files, segments: seq<seq<Message>>, backups: nat, i: nat)
    requires i >= 1
  {
    && (Backup(i) in t <==> i <= Min(backups, |segments|))
    && (i <= Min(backups, |segments|) ==> t[Backup(i)] == segments[|segments| - i])
  }

  lemma RotatedBackups(fs: Files, segments: seq<seq<Message>>, backups: nat)
    requires OnDisk(fs, segments, backups)
    ensures var t := RotateFiles(fs, backups);
            Live !in t && forall i :: i >= 1 ==> BackedUp(t, segments, backups, i)
  {
    if backups >= 1 {
      HeldRotates(fs, segments, backups);
      hide RotateFiles, RotateKept, OnDisk, MovedTo, SameAt, BackedUp;
      var k := Min(backups, |segments|);
      var t := RotateKept(fs, k - 1);
      forall i | i >= 1
        ensures BackedUp(t, segments, backups, i)
      {
        KeptBackup(fs, k - 1, i);
        RotatedBackup(fs, t, segments, backups, i);
      }
      KeptBackup(fs, k - 1, 1);
    }
  }

  lemma KeptBackup(fs: Files, kept: nat, i: nat)
    requires i >= 1 && Live in fs && forall j :: 1 <= j <= kept ==> Backup(j) in fs
    ensures var t := RotateKept(fs, kept);
            Live !in t && if i <= kept + 1 then MovedTo(fs, t, i) else SameAt(fs, t, Backup(i))
  {
    hide RotateKept, MovedTo, SameAt;
    KeptAt(fs, kept);
  }

  lemma HeldRotates(fs: Files, segments: seq<seq<Message>>, backups: nat)
    requires OnDisk(fs, segments, backups) && backups >= 1
    ensures var k := Min(backups, |segments|);
            && k >= 1 && (forall i :: 1 <= i < k ==> Backup(i) in fs)
            && RotateFiles(fs, backups) == RotateKept(fs, k - 1)
  {
    hide Contiguous, RotateFiles, RotateKept;
    var n := Min(backups, |segments| - 1);
    ContiguousIs(fs, 1, backups, n);
    RotatedAt(fs, backups, n, Min(n + 1, backups));
  }

  lemma RotatedBackup(fs: Files, t: Files, segments: seq<seq<Message>>, backups: nat, i: nat)
    requires i >= 1 && backups >= 1 && OnDisk(fs, segments, backups)
    requires if i <= Min(backups, |segments|) then MovedTo(fs, t, i) else SameAt(fs, t, Backup(i))
    ensures BackedUp(t, segments, backups, i)
  {
  }

  /** Without a rotation the message joins the last segment. */
  lemma AppendHolds(fs: Files, segments: seq<seq<Message>>, m: Message, backups: nat)
    requires OnDisk(fs, segments, backups)
    ensures var s := |segments| - 1;
            OnDisk(fs[Live := fs[Live] + [m]], segments[..s] + [segments[s] + [m]], backups)
  {
  }

  lemma WriteHolds(s: State, segments: seq<seq<Message>>, m: Message, maxSize: nat, backups: nat)
    requires Holds(s, segments, backups) && (|segments| > 1 ==> segments[|segments| - 1] != [])
    ensures Holds(WriteStep(s, m, maxSize, backups), Extend(segments, m, maxSize), backups)
  {
    hide RotateFiles, OnDisk, Open, Counted;
    LiveIs(s.files, segments, backups);
    var last := |segments| - 1;
    if Counted(segments[last], last == 0) + |m| > maxSize {
      RotationHolds(s.files, segments, m, backups);
      CountedStart(m);
    } else {
      AppendHolds(s.files, segments, m, backups);
      CountedAppend(segments[last], m, last == 0);
    }
  }

  lemma LiveIs(fs: Files, segments: seq<seq<Message>>, backups: nat)
    requires OnDisk(fs, segments, backups)
    ensures |segments| >= 1 && Live in fs && fs[Live] == segments[|segments| - 1]
  {
  }

  /** Starting without log files, the disk always holds the last B + 1 files of the division. */
  lemma {:induction false} RunHolds(disk: Files, messages: seq<Message>, maxSize: nat, backups: nat)
    requires Live !in disk && forall i :: i >= 1 ==> Backup(i) !in disk
    ensures Holds(Run(disk, messages, maxSize, backups), Segments(messages, maxSize), backups)
  {
    if messages != [] {
      var before := messages[..|messages| - 1];
      RunHolds(disk, before, maxSize, backups);
      SegmentsDivide(before, maxSize);
      var s, m := Run(disk, before, maxSize, backups), messages[|messages| - 1];
      WriteHolds(s, Segments(before, maxSize), m, maxSize, backups);
    }
  }

  /** The log read back: backups from `.n` down to `.1`, then the live file. */
  function ReadBack(fs: Files, n: nat): seq<Message>
    requires Live in fs && forall i :: 1 <= i <= n ==> Backup(i) in fs
  {
    ReadBackups(fs, n) + fs[Live]
  }

  function ReadBackups(fs: Files, n: nat): seq<Message>
    requires forall i :: 1 <= i <= n ==> Backup(i) in fs
  {
    if n == 0 then [] else fs[Backup(n)] + ReadBackups(fs, n - 1)
  }

  lemma {:induction false} FlattenConcat(a: seq<seq<Message>>, b: seq<seq<Message>>)
    ensures Flatten(a + b) == Flatten(a) + Flatten(b)
  {
    if b == [] {
      assert a + b == a;
    } else {
      var n := |b| - 1;
      assert (a + b)[..|a| + n] == a + b[..n];
      FlattenConcat(a, b[..n]);
      assert Flatten(a) + Flatten(b[..n]) + b[n] == Flatten(a) + (Flatten(b[..n]) + b[n]);
    }
  }

  lemma {:induction false} ReadBackupsIs(fs: Files, segments: seq<seq<Message>>, n: nat)
    requires n < |segments|
    requires forall i :: 1 <= i <= n ==> Backup(i) in fs && fs[Backup(i)] == segments[|segments| - 1 - i]
    ensures ReadBackups(fs, n) == Flatten(segments[|segments| - 1 - n..|segments| - 1])
  {
    var last := |segments| - 1;
    if n > 0 {
      ReadBackupsIs(fs, segments, n - 1);
      var head := [segments[last - n]];
      assert segments[last - n..last] == head + segments[last - n + 1..last];
      FlattenConcat(head, segments[last - n + 1..last]);
      assert head[..0] == [];
    }
  }

  /** Reading `n` backups and the live file gives the messages of the last n + 1 segments: a suffix of
      all messages, and all of them when that is every segment. */
  ghost predicate ReadsLatest(fs: Files, segments: seq<seq<Message>>, messages: seq<Message>, n: nat)
    requires Live in fs
  {
    var last := |segments| - 1;
    && 0 <= n <= last && (forall i :: 1 <= i <= n ==> Backup(i) in fs)
    && ReadBack(fs, n) == Flatten(segments[last - n..])
    && messages == Flatten(segments[..last - n]) + ReadBack(fs, n)
    && (n == last ==> ReadBack(fs, n) == messages)
  }

  /** No file exceeds the maximum, its first message not counted unless it is the first file of all. */
  ghost predicate WithinMaximum(fs: Files, n: nat, last: nat, maxSize: nat)
    requires Live in fs
  {
    && Counted(fs[Live], last == 0) <= maxSize
    && (forall i :: 1 <= i <= n ==> Backup(i) in fs && Counted(fs[Backup(i)], i == last) <= maxSize)
  }

  /** Over every run from no log files: the contiguous backups number min(B, files started - 1); the log
      read back is a contiguous suffix of everything written, namely its last files; nothing is lost until
      a rotation has to drop the oldest file; and each file keeps within the maximum, line feeds not
      counted. */
  lemma LogRun(disk: Files, messages: seq<Message>, maxSize: nat, backups: nat)
    requires Live !in disk && forall i :: i >= 1 ==> Backup(i) !in disk
    ensures var fs, segments := Run(disk, messages, maxSize, backups).files, Segments(messages, maxSize);
            var n, last := Contiguous(fs, 1, backups), |segments| - 1;
            && Division(segments, messages, maxSize)
            && n == Min(backups, last)
            && ReadsLatest(fs, segments, messages, n)
            && WithinMaximum(fs, n, last, maxSize)
  {
    hide Contiguous, Counted, Run, Segments, OnDisk, Min, ReadsLatest, WithinMaximum;
    var s, segments := Run(disk, messages, maxSize, backups), Segments(messages, maxSize);
    SegmentsDivide(messages, maxSize);
    RunHolds(disk, messages, maxSize, backups);
    DiskReads(s.files, segments, messages, backups);
    DiskWithin(s.files, segments, maxSize, backups);
  }

  lemma DiskWithin(fs: Files, segments: seq<seq<Message>>, maxSize: nat, backups: nat)
    requires OnDisk(fs, segments, backups)
    requires forall k :: 0 <= k < |segments| ==> Counted(segments[k], k == 0) <= maxSize
    ensures WithinMaximum(fs, Min(backups, |segments| - 1), |segments| - 1, maxSize)
  {
    hide Counted;
  }

  lemma DiskReads(fs: Files, segments: seq<seq<Message>>, messages: seq<Message>, backups: nat)
    requires OnDisk(fs, segments, backups) && Flatten(segments) == messages
    ensures Contiguous(fs, 1, backups) == Min(backups, |segments| - 1)
    ensures ReadsLatest(fs, segments, messages, Min(backups, |segments| - 1))
  {
    var last := |segments| - 1;
    var n := Min(backups, last);
    DiskContiguous(fs, segments, backups);
    hide Contiguous, Flatten, ReadBackups, OnDisk;
    ReadBackupsIs(fs, segments, n);
    SegmentsRead(segments, n);
  }

  lemma DiskContiguous(fs: Files, segments: seq<seq<Message>>, backups: nat)
    requires OnDisk(fs, segments, backups)
    ensures var last := |segments| - 1;
            var n := Min(backups, last);
            && 0 <= n <= last && Contiguous(fs, 1, backups) == n && Live in fs && fs[Live] == segments[last]
            && forall i :: 1 <= i <= n ==> Backup(i) in fs && fs[Backup(i)] == segments[last - i]
  {
    hide Contiguous;
    ContiguousIs(fs, 1, backups, Min(backups, |segments| - 1));
  }

  lemma SegmentsRead(segments: seq<seq<Message>>, n: nat)
    requires n < |segments|
    ensures var last := |segments| - 1;
            var read := Flatten(segments[last - n..last]) + segments[last];
            && read == Flatten(segments[last - n..])
            && Flatten(segments) == Flatten(segments[..last - n]) + read
            && (n == last ==> read == Flatten(segments))
  {
    hide Flatten;
    var last := |segments| - 1;
    FlattenSplit(segments, last - n);
    assert segments[0..] == segments;
  }

  lemma FlattenSplit(segments: seq<seq<Message>>, k: nat)
    requires k < |segments|
    ensures var last := |segments| - 1;
            && Flatten(segments[k..]) == Flatten(segments[k..last]) + segments[last]
            && Flatten(segments) == Flatten(segments[..k]) + Flatten(segments[k..])
  {
    FlattenTail(segments, k);
    hide Flatten;
    assert segments == segments[..k] + segments[k..];
    FlattenConcat(segments[..k], segments[k..]);
  }

  lemma FlattenTail(segments: seq<seq<Message>>, k: nat)
    requires k < |segments|
    ensures Flatten(segments[k..]) == Flatten(segments[k..|segments| - 1]) + segments[|segments| - 1]
  {
    var c := segments[k..];
    assert c[..|c| - 1] == segments[k..|segments| - 1];
  }
}
