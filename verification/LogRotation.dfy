/**
 The rotating log file of rcd/pubQsLog/QsLogDestFile.cpp: a live file and numbered backups, `.1` being
 the most recent.  A file is the sequence of messages written to it.
 */
module LogRotation {
  /** A message as its UTF-8 bytes. */
  type Message = seq<bv8>

  /** The log file itself, its backups `.1`, `.2`, ..., and every other file. */
  datatype Name = Live | Backup(n: nat) | Other(path: string)

  type Files = map<Name, seq<Message>>

  const MAX_BACKUP_COUNT := 50

  // ---------------------------------------------------------------- the file system

  /** Removing a file that does not exist changes nothing. */
  function Remove(fs: Files, name: Name): Files {
    fs - {name}
  }

  /** Renaming fails when the source is missing or the target exists. */
  function Rename(fs: Files, from: Name, to: Name): Files {
    if from in fs && to !in fs then (fs - {from})[to := fs[from]] else fs
  }

  /** A message takes its bytes and a line feed. */
  function FileSize(content: seq<Message>): nat {
    if content == [] then 0 else FileSize(content[..|content| - 1]) + |content[|content| - 1]| + 1
  }

  /** Bytes of the messages, line feeds excluded. */
  function Bytes(content: seq<Message>): nat {
    if content == [] then 0 else Bytes(content[..|content| - 1]) + |content[|content| - 1]|
  }

  // ---------------------------------------------------------------- specification

  /** How many backups exist without a gap, counted from `from` up to `limit`. */
  function Contiguous(fs: Files, from: nat, limit: nat): nat
    decreases limit + 1 - from
  {
    if from > limit || Backup(from) !in fs then 0 else 1 + Contiguous(fs, from + 1, limit)
  }

  /** The backups that survive a rotation: all contiguous ones, but the last place is given up. */
  function Kept(fs: Files, backups: nat): nat
    requires backups >= 1
  {
    var n := Contiguous(fs, 1, backups);
    if n < backups then n else backups - 1
  }

  /** The contents of the contiguous backups, most recent first. */
  function History(fs: Files, n: nat): seq<seq<Message>>
    requires forall i :: 1 <= i <= n ==> Backup(i) in fs
  {
    seq(n, i requires 0 <= i < n => fs[Backup(i + 1)])
  }

  /** One rotation: the live file becomes `.1`, the surviving backups move up by one, and every other
      file stays as it is.  Without a live file there is no `.1` afterwards. */
  function RotateFiles(fs: Files, backups: nat): Files {
    if backups == 0 then fs - {Live}
    else
      KeptExist(fs, backups);
      RotateKept(fs, Kept(fs, backups))
  }

  function RotateKept(fs: Files, kept: nat): Files
    requires forall i :: 1 <= i <= kept ==> Backup(i) in fs
  {
    map name | name in fs.Keys + {Backup(kept + 1), Backup(1)} && name != Live && (name == Backup(1) ==> Live in fs) ::
      if name == Backup(1) then fs[Live]
      else if name.Backup? && 2 <= name.n <= kept + 1 then fs[Backup(name.n - 1)]
      else fs[name]
  }

  lemma {:induction false} ContiguousExist(fs: Files, from: nat, limit: nat)
    ensures forall i :: from <= i < from + Contiguous(fs, from, limit) ==> Backup(i) in fs
    ensures from <= limit + 1 ==> from + Contiguous(fs, from, limit) <= limit + 1
    ensures from + Contiguous(fs, from, limit) <= limit ==> Backup(from + Contiguous(fs, from, limit)) !in fs
    decreases limit + 1 - from
  {
    if from <= limit && Backup(from) in fs { ContiguousExist(fs, from + 1, limit); }
  }

  lemma KeptExist(fs: Files, backups: nat)
    requires backups >= 1
    ensures Kept(fs, backups) + 1 <= backups
    ensures forall i :: 1 <= i <= Kept(fs, backups) ==> Backup(i) in fs
    ensures Kept(fs, backups) + 1 < backups ==> Backup(Kept(fs, backups) + 1) !in fs
  {
    ContiguousExist(fs, 1, backups);
  }

  datatype State = State(files: Files, size: nat)

  /** Opening for append creates the file when it is missing; its size is then taken from the disk. */
  function Open(fs: Files): State {
    var files := if Live in fs then fs else fs[Live := []];
    State(files, FileSize(files[Live]))
  }

  function WriteStep(s: State, message: Message, maxSize: nat, backups: nat): (r: State)
    requires Live in s.files
    ensures Live in r.files
  {
    var size := s.size + |message|;
    var t := if size > maxSize then Open(RotateFiles(s.files, backups)) else State(s.files, size);
    t.(files := t.files[Live := t.files[Live] + [message]])
  }

  /** The number of backups asked for, within the limit. */
  function Capped(backups: nat): nat {
    if backups < MAX_BACKUP_COUNT then backups else MAX_BACKUP_COUNT
  }

  lemma CappedIs(backups: nat)
    ensures Capped(backups) <= 50 && Capped(backups) <= backups
    ensures backups <= 50 || Capped(backups) == 50
    ensures backups <= 50 ==> Capped(backups) == backups
  {
  }

  // ---------------------------------------------------------------- the code

  class FileDestination {
    var files: Files
    var mCurrentSizeInBytes: nat
    const mMaxSizeInBytes: nat
    const mBackupsCount: nat

    constructor (disk: Files, maxSize: nat, backups: nat)
      ensures State(files, mCurrentSizeInBytes) == Open(disk)
      ensures mMaxSizeInBytes == maxSize
      ensures mBackupsCount == Capped(backups)
    {
      mMaxSizeInBytes := maxSize;
      mBackupsCount := if backups < MAX_BACKUP_COUNT then backups else MAX_BACKUP_COUNT;
      files := if Live in disk then disk else disk[Live := []];
      mCurrentSizeInBytes := FileSize(if Live in disk then disk[Live] else []);
    }

    method Write(message: Message)
      requires Live in files
      modifies this
      ensures State(files, mCurrentSizeInBytes)
           == WriteStep(old(State(files, mCurrentSizeInBytes)), message, mMaxSizeInBytes, mBackupsCount)
    {
      mCurrentSizeInBytes := mCurrentSizeInBytes + |message|;
      if mCurrentSizeInBytes > mMaxSizeInBytes {
        Rotate();
        if Live !in files {
          files := files[Live := []];
        }
        mCurrentSizeInBytes := FileSize(files[Live]);
      }
      files := files[Live := files[Live] + [message]];
    }

    method Rotate()
      modifies `files
      ensures files == RotateFiles(old(files), mBackupsCount)
    {
      hide Contiguous;
      if mBackupsCount == 0 {
        files := Remove(files, Live);
        return;
      }
      ghost var before := files;
      KeptExist(files, mBackupsCount);
      var lastExistingBackupIndex := LastExisting();
      ShiftUp(lastExistingBackupIndex);
      if Backup(1) in files {
        files := Remove(files, Backup(1));
      }
      files := Rename(files, Live, Backup(1));
      RotatedIs(before, mBackupsCount);
    }

    method LastExisting() returns (last: nat)
      requires mBackupsCount >= 1
      ensures last == Kept(files, mBackupsCount)
    {
      last := 0;
      var i := 1;
      while i <= mBackupsCount
        invariant 1 <= i <= mBackupsCount + 1
        invariant last == if i - 1 < mBackupsCount then i - 1 else mBackupsCount - 1
        invariant Contiguous(files, 1, mBackupsCount) == i - 1 + Contiguous(files, i, mBackupsCount)
      {
        if Backup(i) in files {
          last := if i < mBackupsCount - 1 then i else mBackupsCount - 1;
        } else {
          break;
        }
        i := i + 1;
      }
    }

    method ShiftUp(last: nat)
      requires forall i :: 1 <= i <= last ==> Backup(i) in files
      modifies `files
      ensures files == Shifted(old(files), last, 0)
    {
      ghost var before := files;
      var i := last;
      while i >= 1
        invariant 0 <= i <= last
        invariant files == Shifted(before, last, i)
      {
        ShiftOne(before, last, i);
        files := Remove(files, Backup(i + 1));
        files := Rename(files, Backup(i), Backup(i + 1));
        i := i - 1;
      }
    }
  }

  /** The files after moving backups `last` down to `i + 1` up by one. */
  function Shifted(before: Files, last: nat, i: nat): Files
    requires i <= last && forall j :: 1 <= j <= last ==> Backup(j) in before
  {
    if i == last then before
    else
      map name | name in before.Keys + {Backup(last + 1)} && name != Backup(i + 1) ::
        if name.Backup? && i + 2 <= name.n <= last + 1 then before[Backup(name.n - 1)] else before[name]
  }

  lemma ShiftOne(before: Files, last: nat, i: nat)
    requires 1 <= i <= last && forall j :: 1 <= j <= last ==> Backup(j) in before
    ensures Rename(Remove(Shifted(before, last, i), Backup(i + 1)), Backup(i), Backup(i + 1))
         == Shifted(before, last, i - 1)
  {
  }

  lemma RotatedIs(before: Files, backups: nat)
    requires backups >= 1
    requires forall j :: 1 <= j <= Kept(before, backups) ==> Backup(j) in before
    ensures Rename(Remove(Shifted(before, Kept(before, backups), 0), Backup(1)), Live, Backup(1))
         == RotateFiles(before, backups)
  {
    hide Kept;
  }
}
