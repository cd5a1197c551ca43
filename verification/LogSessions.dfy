/**
 The log over several sessions: writes, and re-openings in between, which is what a restart does to the
 files that it finds.  A re-opened file counts with its whole size on the disk, line feeds and first message
 included, so it is left earlier.
 */
module LogSessions {
  import opened LogRotation
  import opened LogRuns

  datatype Action = Write(message: Message) | Reopen

  function Step(s: State, a: Action, maxSize: nat, backups: nat): (r: State)
    requires Live in s.files
    ensures Live in r.files
  {
    match a
    case Write(m) => WriteStep(s, m, maxSize, backups)
    case Reopen => Open(s.files)
  }

  function After(disk: Files, actions: seq<Action>, maxSize: nat, backups: nat): (r: State)
    ensures Live in r.files
  {
    if actions == [] then Open(disk)
    else Step(After(disk, actions[..|actions| - 1], maxSize, backups), actions[|actions| - 1], maxSize, backups)
  }

  /** Every message written, in order. */
  function Written(actions: seq<Action>): seq<Message> {
    if actions == [] then []
    else
      Written(actions[..|actions| - 1]) +
      match actions[|actions| - 1]
      case Write(m) => [m]
      case Reopen => []
  }

  /** The messages file by file, those of dropped files included. */
  function Started(disk: Files, actions: seq<Action>, maxSize: nat, backups: nat): (r: seq<seq<Message>>)
    ensures |r| >= 1
  {
    if actions == [] then [[]]
    else
      var before := Started(disk, actions[..|actions| - 1], maxSize, backups);
      match actions[|actions| - 1]
      case Reopen => before
      case Write(m) =>
        if After(disk, actions[..|actions| - 1], maxSize, backups).size + |m| > maxSize then before + [[m]]
        else before[..|before| - 1] + [before[|before| - 1] + [m]]
  }

  /** A division of the messages into files within the maximum, each left only when the next message would
      have taken the file on the disk beyond it. */
  ghost predicate LooseDivision(segments: seq<seq<Message>>, messages: seq<Message>, maxSize: nat) {
    && |segments| >= 1 && Flatten(segments) == messages
    && (forall k :: 0 <= k < |segments| ==> Counted(segments[k], k == 0) <= maxSize)
    && (forall k :: 1 <= k < |segments| ==>
          segments[k] != [] && FileSize(segments[k - 1]) + |segments[k][0]| > maxSize)
  }

  /** The recorded size lies between what counts of the live file and its size on the disk. */
  ghost predicate SizeBetween(size: nat, segments: seq<seq<Message>>)
    requires |segments| >= 1
  {
    var last := |segments| - 1;
    Counted(segments[last], last == 0) <= size <= FileSize(segments[last])
  }

  lemma {:induction false} FileSizeCovers(content: seq<Message>)
    ensures Bytes(content) <= FileSize(content)
    ensures content != [] ==> Bytes(content[1..]) <= Bytes(content)
  {
    if content != [] {
      var n := |content| - 1;
      FileSizeCovers(content[..n]);
      if n > 0 {
        assert content[1..][..n - 1] == content[..n][1..];
      }
    }
  }

  lemma CountedCovered(segment: seq<Message>, first: bool)
    ensures Counted(segment, first) <= FileSize(segment)
  {
    FileSizeCovers(segment);
  }

  lemma FileSizeAppend(content: seq<Message>, m: Message)
    ensures FileSize(content + [m]) == FileSize(content) + |m| + 1
  {
    assert (content + [m])[..|content|] == content;
  }

  lemma LooseExtends(segments: seq<seq<Message>>, messages: seq<Message>, size: nat, m: Message, maxSize: nat)
    requires LooseDivision(segments, messages, maxSize) && SizeBetween(size, segments)
    ensures size + |m| > maxSize ==>
              LooseDivision(segments + [[m]], messages + [m], maxSize) && SizeBetween(0, segments + [[m]])
    ensures size + |m| <= maxSize ==>
              var grown := segments[..|segments| - 1] + [segments[|segments| - 1] + [m]];
              LooseDivision(grown, messages + [m], maxSize) && SizeBetween(size + |m|, grown)
  {
    hide Counted, FileSize;
    var s := |segments| - 1;
    if size + |m| > maxSize {
      assert (segments + [[m]])[..s + 1] == segments;
      CountedStart(m);
    } else {
      CountedAppend(segments[s], m, s == 0);
      FileSizeAppend(segments[s], m);
      ReplaceLast(segments, segments[s] + [m]);
      assert Flatten(segments[..s]) + (segments[s] + [m]) == Flatten(segments[..s]) + segments[s] + [m];
      assert s > 0 ==> (segments[s] + [m])[0] == segments[s][0];
    }
  }

  /** What every action keeps. */
  ghost predicate Tracked(s: State, segments: seq<seq<Message>>, messages: seq<Message>, maxSize: nat, backups: nat) {
    && OnDisk(s.files, segments, backups)
    && LooseDivision(segments, messages, maxSize) && SizeBetween(s.size, segments)
  }

  lemma WriteKeeps(s: State, segments: seq<seq<Message>>, messages: seq<Message>, m: Message, maxSize: nat,
                   backups: nat)
    requires Tracked(s, segments, messages, maxSize, backups) && Live in s.files
    ensures var last := |segments| - 1;
            Tracked(WriteStep(s, m, maxSize, backups),
                 if s.size + |m| > maxSize then segments + [[m]] else segments[..last] + [segments[last] + [m]],
                 messages + [m], maxSize, backups)
  {
    hide OnDisk, LooseDivision, SizeBetween, RotateFiles, Open;
    LooseExtends(segments, messages, s.size, m, maxSize);
    if s.size + |m| > maxSize {
      RotationHolds(s.files, segments, m, backups);
    } else {
      AppendHolds(s.files, segments, m, backups);
    }
  }

  lemma ReopenKeeps(s: State, segments: seq<seq<Message>>, messages: seq<Message>, maxSize: nat, backups: nat)
    requires Tracked(s, segments, messages, maxSize, backups)
    ensures Tracked(Open(s.files), segments, messages, maxSize, backups)
  {
    hide OnDisk, LooseDivision, Counted, FileSize;
    LiveIs(s.files, segments, backups);
    CountedCovered(segments[|segments| - 1], |segments| == 1);
  }

  lemma StartTracked(disk: Files, maxSize: nat, backups: nat)
    requires Live !in disk && forall i :: i >= 1 ==> Backup(i) !in disk
    ensures Tracked(Open(disk), [[]], [], maxSize, backups)
  {
    var one: seq<seq<Message>> := [[]];
    assert one[..0] == [] && Flatten(one) == [];
  }

  lemma {:induction false} SessionsTracked(disk: Files, actions: seq<Action>, maxSize: nat, backups: nat)
    requires Live !in disk && forall i :: i >= 1 ==> Backup(i) !in disk
    ensures Tracked(After(disk, actions, maxSize, backups), Started(disk, actions, maxSize, backups),
                 Written(actions), maxSize, backups)
  {
    hide Tracked, WriteStep, Open;
    if actions == [] {
      StartTracked(disk, maxSize, backups);
    } else {
      var before, a := actions[..|actions| - 1], actions[|actions| - 1];
      var s, segments := After(disk, before, maxSize, backups), Started(disk, before, maxSize, backups);
      SessionsTracked(disk, before, maxSize, backups);
      match a
      case Write(m) => WriteKeeps(s, segments, Written(before), m, maxSize, backups);
      case Reopen =>
        ReopenKeeps(s, segments, Written(before), maxSize, backups);
        assert Written(before) + [] == Written(before);
    }
  }

  /** Over every run of writes and re-openings from no log files: the log read back is a contiguous suffix
      of everything written, the whole of it until a rotation has to drop the oldest file, and each file
      keeps within the maximum, line feeds and the message that opened it not counted. */
  lemma LogOverSessions(disk: Files, actions: seq<Action>, maxSize: nat, backups: nat)
    requires Live !in disk && forall i :: i >= 1 ==> Backup(i) !in disk
    ensures var fs := After(disk, actions, maxSize, backups).files;
            var segments := Started(disk, actions, maxSize, backups);
            var n, last := Contiguous(fs, 1, backups), |segments| - 1;
            && LooseDivision(segments, Written(actions), maxSize)
            && n == Min(backups, last)
            && ReadsLatest(fs, segments, Written(actions), n)
            && WithinMaximum(fs, n, last, maxSize)
  {
    hide Contiguous, Counted, FileSize, After, Started, OnDisk, Min, ReadsLatest, WithinMaximum;
    var s, segments := After(disk, actions, maxSize, backups), Started(disk, actions, maxSize, backups);
    SessionsTracked(disk, actions, maxSize, backups);
    DiskReads(s.files, segments, Written(actions), backups);
    DiskWithin(s.files, segments, maxSize, backups);
  }

  // ---------------------------------------------------------------- what a re-opening counts

  lemma {:induction false} FileSizeIs(content: seq<Message>)
    ensures FileSize(content) == Bytes(content) + |content|
  {
    if content != [] { FileSizeIs(content[..|content| - 1]); }
  }

  /** A file found on the disk counts with the bytes of all its messages and one line feed each; a missing
      one is created empty.  No other file is touched. */
  lemma OpenIs(fs: Files)
    ensures Live in fs ==> Open(fs) == State(fs, Bytes(fs[Live]) + |fs[Live]|)
    ensures Live !in fs ==> Open(fs) == State(fs[Live := []], 0)
  {
    if Live in fs { FileSizeIs(fs[Live]); }
  }

  /** After any run, the first message written behind a re-opening leaves the live file for a new one
      exactly when the file's bytes, a line feed for each of its messages and the message itself exceed the
      maximum. */
  lemma FirstWriteAfterReopening(disk: Files, actions: seq<Action>, m: Message, maxSize: nat, backups: nat)
    ensures var live := After(disk, actions, maxSize, backups).files[Live];
            var next := actions + [Reopen, Write(m)];
            var segments, t := Started(disk, actions, maxSize, backups), After(disk, next, maxSize, backups);
            var last := |segments| - 1;
            if Bytes(live) + |live| + |m| > maxSize
            then Started(disk, next, maxSize, backups) == segments + [[m]] && t.files[Live] == [m] && t.size == 0
            else
              && Started(disk, next, maxSize, backups) == segments[..last] + [segments[last] + [m]]
              && t.files[Live] == live + [m] && t.size == Bytes(live) + |live| + |m|
  {
    hide After, Started, Step, WriteStep, Open, Bytes;
    var s, reopened := After(disk, actions, maxSize, backups), actions + [Reopen];
    AfterSnoc(disk, actions, Reopen, maxSize, backups);
    AfterSnoc(disk, reopened, Write(m), maxSize, backups);
    assert reopened + [Write(m)] == actions + [Reopen, Write(m)];
    OpenIs(s.files);
    StepIs(s, m, maxSize, backups);
    WriteIs(Open(s.files), m, maxSize, backups);
  }

  lemma AfterSnoc(disk: Files, actions: seq<Action>, a: Action, maxSize: nat, backups: nat)
    ensures var s, segments := After(disk, actions, maxSize, backups), Started(disk, actions, maxSize, backups);
            && After(disk, actions + [a], maxSize, backups) == Step(s, a, maxSize, backups)
            && Started(disk, actions + [a], maxSize, backups) ==
               match a
               case Reopen => segments
               case Write(m) =>
                 if s.size + |m| > maxSize then segments + [[m]]
                 else segments[..|segments| - 1] + [segments[|segments| - 1] + [m]]
  {
    hide Step, After, Started;
    AfterOne(disk, actions, a, maxSize, backups);
    StartedOne(disk, actions, a, maxSize, backups);
  }

  lemma AfterOne(disk: Files, actions: seq<Action>, a: Action, maxSize: nat, backups: nat)
    ensures After(disk, actions + [a], maxSize, backups)
         == Step(After(disk, actions, maxSize, backups), a, maxSize, backups)
  {
    hide Step, Open;
    assert (actions + [a])[..|actions|] == actions;
  }

  lemma StartedOne(disk: Files, actions: seq<Action>, a: Action, maxSize: nat, backups: nat)
    ensures var s, segments := After(disk, actions, maxSize, backups), Started(disk, actions, maxSize, backups);
            Started(disk, actions + [a], maxSize, backups) ==
            match a
            case Reopen => segments
            case Write(m) =>
              if s.size + |m| > maxSize then segments + [[m]]
              else segments[..|segments| - 1] + [segments[|segments| - 1] + [m]]
  {
    hide After;
    assert (actions + [a])[..|actions|] == actions;
  }

  lemma StepIs(s: State, m: Message, maxSize: nat, backups: nat)
    requires Live in s.files
    ensures Step(s, Reopen, maxSize, backups) == Open(s.files)
    ensures Step(s, Write(m), maxSize, backups) == WriteStep(s, m, maxSize, backups)
    ensures Live in Open(s.files).files
    ensures Step(Open(s.files), Write(m), maxSize, backups) == WriteStep(Open(s.files), m, maxSize, backups)
  {
    hide WriteStep;
  }

  /** A message that takes the recorded size beyond the maximum goes to a fresh file after a rotation, any
      other one to the end of the live file; no other file changes by the writing. */
  lemma WriteIs(s: State, m: Message, maxSize: nat, backups: nat)
    requires Live in s.files
    ensures var t := WriteStep(s, m, maxSize, backups);
            var rotates := s.size + |m| > maxSize;
            var others := if rotates then RotateFiles(s.files, backups) else s.files;
            && (if rotates then t.files[Live] == [m] && t.size == 0
                else t.files[Live] == s.files[Live] + [m] && t.size == s.size + |m|)
            && forall name :: name != Live ==> SameAt(others, t.files, name)
  {
    hide RotateFiles, FileSize;
    NoLiveAfterRotation(s.files, backups);
    assert [] + [m] == [m];
  }

  lemma NoLiveAfterRotation(fs: Files, backups: nat)
    requires Live in fs
    ensures Live !in RotateFiles(fs, backups)
    ensures Open(RotateFiles(fs, backups)).size == 0 && Open(RotateFiles(fs, backups)).files[Live] == []
  {
    hide Contiguous;
  }

  lemma {:induction false} SameAsRun(disk: Files, messages: seq<Message>, maxSize: nat, backups: nat)
    ensures After(disk, Writes(messages), maxSize, backups) == Run(disk, messages, maxSize, backups)
  {
    if messages != [] {
      var n := |messages| - 1;
      assert Writes(messages)[..n] == Writes(messages[..n]);
      SameAsRun(disk, messages[..n], maxSize, backups);
    }
  }

  function Writes(messages: seq<Message>): seq<Action> {
    seq(|messages|, i requires 0 <= i < |messages| => Write(messages[i]))
  }
}
