/**
 The receive side of the gateway link (`udpRecvMsgDeal` in hmi/HmiFunction/cmddealclass.cpp): bytes
 arrive in arbitrary chunks, a buffer is cut at every CR LF, and the pieces go to the decoder.
 */
module CmdDeal {
  import opened Options
  import opened Jt808

  const ARRAY_ERR_BUFSIZE := 512

  // ---------------------------------------------------------------- specification

  predicate CrlfAt(s: seq<Byte>, k: int) {
    0 <= k < |s| - 1 && s[k] == REVERSE_BYTE1 && s[k + 1] == REVERSE_BYTE2
  }

  /** The library's search for CR LF. */
  function IndexOfCrlf(s: seq<Byte>): (r: int)
    ensures r < 0 || r + 2 <= |s|
  {
    IndexOfCrlfFrom(s, 0)
  }

  function IndexOfCrlfFrom(s: seq<Byte>, from: nat): (r: int)
    ensures r < 0 || (from <= r && r + 2 <= |s|)
    decreases |s| - from
  {
    if from >= |s| - 1 then -1
    else if CrlfAt(s, from) then from
    else IndexOfCrlfFrom(s, from + 1)
  }

  /** The search finds the first CR LF, if there is one. */
  lemma IndexOfCrlfIsFirst(s: seq<Byte>)
    ensures IndexOfCrlf(s) >= 0 ==>
              CrlfAt(s, IndexOfCrlf(s)) && forall k :: 0 <= k < IndexOfCrlf(s) ==> !CrlfAt(s, k)
    ensures IndexOfCrlf(s) < 0 ==> forall k :: !CrlfAt(s, k)
  {
    IndexOfCrlfFromIsFirst(s, 0);
  }

  lemma {:induction false} IndexOfCrlfFromIsFirst(s: seq<Byte>, from: nat)
    requires forall k :: 0 <= k < from ==> !CrlfAt(s, k)
    ensures var r := IndexOfCrlfFrom(s, from);
            if r >= 0 then CrlfAt(s, r) && forall k :: 0 <= k < r ==> !CrlfAt(s, k)
            else forall k :: !CrlfAt(s, k)
    decreases |s| - from
  {
    if from < |s| - 1 && !CrlfAt(s, from) {
      IndexOfCrlfFromIsFirst(s, from + 1);
    }
  }

  /** Pieces ending in CR LF, and what remains behind the last of them. */
  datatype Pieces = Pieces(frames: seq<seq<Byte>>, rest: seq<Byte>)

  /** The intended meaning: a stream is cut behind every CR LF. */
  function Cut(s: seq<Byte>): Pieces
    decreases |s|
  {
    var i := IndexOfCrlf(s);
    if i < 0 then Pieces([], s)
    else
      var tail := Cut(s[i + 2..]);
      Pieces([s[..i + 2]] + tail.frames, tail.rest)
  }

  /** One call: cut the buffered bytes and the new chunk, then drop an over-long remainder. */
  function Receive(buf: seq<Byte>, chunk: seq<Byte>): Pieces {
    var c := Cut(buf + chunk);
    Pieces(c.frames, if |c.rest| > ARRAY_ERR_BUFSIZE then [] else c.rest)
  }

  /** A run of calls; `frames` are all pieces cut, `rest` is the buffer at the end. */
  function Run(buf: seq<Byte>, chunks: seq<seq<Byte>>): Pieces
    decreases |chunks|
  {
    if chunks == [] then Pieces([], buf)
    else
      var first := Receive(buf, chunks[0]);
      var later := Run(first.rest, chunks[1..]);
      Pieces(first.frames + later.frames, later.rest)
  }

  function Flatten(parts: seq<seq<Byte>>): seq<Byte> {
    if parts == [] then [] else parts[0] + Flatten(parts[1..])
  }

  /** The messages handed to the command switch: pieces longer than six bytes that decode. */
  function Handled(frames: seq<seq<Byte>>): seq<Msg> {
    if frames == [] then []
    else Handled(frames[..|frames| - 1]) + HandledOne(frames[|frames| - 1])
  }

  function HandledOne(frame: seq<Byte>): seq<Msg> {
    if |frame| <= 6 then []
    else match DecodeFrame(frame)
      case None => []
      case Some(msg) => [msg]
  }

  // ---------------------------------------------------------------- the code

  class CmdDealClass {
    var cmdRecvArray: seq<Byte>
    /** Every message dispatched so far, in order. */
    var handled: seq<Msg>

    constructor ()
      ensures cmdRecvArray == [] && handled == []
    {
      cmdRecvArray, handled := [], [];
    }

    method UdpRecvMsgDeal(datagram: seq<Byte>)
      modifies this
      ensures cmdRecvArray == Receive(old(cmdRecvArray), datagram).rest
      ensures handled == old(handled) + Handled(Receive(old(cmdRecvArray), datagram).frames)
      ensures IndexOfCrlf(cmdRecvArray) < 0 && |cmdRecvArray| <= ARRAY_ERR_BUFSIZE
    {
      cmdRecvArray := cmdRecvArray + datagram;
      ghost var all := Cut(cmdRecvArray);
      ghost var done: seq<seq<Byte>> := [];
      while true
        invariant all == Pieces(done + Cut(cmdRecvArray).frames, Cut(cmdRecvArray).rest)
        invariant handled == old(handled) + Handled(done)
        decreases |cmdRecvArray|
      {
        var ret := IndexOfCrlf(cmdRecvArray);
        if ret < 0 {
          if |cmdRecvArray| > ARRAY_ERR_BUFSIZE {
            cmdRecvArray := [];
            IndexOfCrlfIsNone(cmdRecvArray);
          }
          assert done + [] == done;
          break;
        }
        var tmp := cmdRecvArray[..ret + 2];
        Deliver(tmp);
        HandledAppend(old(handled), done, tmp);
        CutStep(done, cmdRecvArray);
        done := done + [tmp];
        cmdRecvArray := cmdRecvArray[ret + 2..];
      }
    }

    /** Pieces of at most six bytes are skipped. */
    method Deliver(tmp: seq<Byte>)
      modifies `handled
      ensures handled == old(handled) + HandledOne(tmp)
    {
      if |tmp| > 6 {
        CmdAnalyzeDeal(tmp);
      }
    }

    /** Decodes one piece and dispatches the message, if there is one. */
    method CmdAnalyzeDeal(tmp: seq<Byte>)
      requires |tmp| > 6
      modifies `handled
      ensures handled == old(handled) + HandledOne(tmp)
    {
      var buf := new Byte[|tmp|](i requires 0 <= i < |tmp| => tmp[i]);
      assert buf[..|tmp|] == tmp;
      var msg := Decode(buf, |tmp|);
      if msg.Some? {
        handled := handled + [msg.value];
      }
    }
  }

  // ---------------------------------------------------------------- cutting

  lemma CutStep(done: seq<seq<Byte>>, s: seq<Byte>)
    requires IndexOfCrlf(s) >= 0
    ensures var tmp, later := s[..IndexOfCrlf(s) + 2], Cut(s[IndexOfCrlf(s) + 2..]);
            Pieces(done + Cut(s).frames, Cut(s).rest) == Pieces(done + [tmp] + later.frames, later.rest)
  {
    var tmp, later := s[..IndexOfCrlf(s) + 2], Cut(s[IndexOfCrlf(s) + 2..]);
    Regroup(done, [tmp], later.frames);
  }

  lemma HandledAppend(before: seq<Msg>, done: seq<seq<Byte>>, tmp: seq<Byte>)
    ensures before + Handled(done + [tmp]) == before + Handled(done) + HandledOne(tmp)
  {
    assert (done + [tmp])[..|done|] == done;
  }

  lemma IndexOfCrlfIs(s: seq<Byte>, i: nat)
    requires CrlfAt(s, i) && forall k :: 0 <= k < i ==> !CrlfAt(s, k)
    ensures IndexOfCrlf(s) == i
  {
    IndexOfCrlfIsFirst(s);
  }

  lemma IndexOfCrlfIsNone(s: seq<Byte>)
    requires forall k :: 0 <= k < |s| - 1 ==> !CrlfAt(s, k)
    ensures IndexOfCrlf(s) < 0
  {
    IndexOfCrlfIsFirst(s);
  }

  lemma IndexOfCrlfAppend(a: seq<Byte>, b: seq<Byte>)
    requires IndexOfCrlf(a) >= 0
    ensures IndexOfCrlf(a + b) == IndexOfCrlf(a)
  {
    IndexOfCrlfIsFirst(a);
    var i := IndexOfCrlf(a);
    assert forall k :: 0 <= k <= i ==> CrlfAt(a + b, k) == CrlfAt(a, k);
    IndexOfCrlfIs(a + b, i);
  }

  /** Cutting may stop anywhere and go on from the remainder. */
  lemma {:induction false} CutAppend(a: seq<Byte>, b: seq<Byte>)
    ensures Cut(a + b) == Pieces(Cut(a).frames + Cut(Cut(a).rest + b).frames, Cut(Cut(a).rest + b).rest)
    decreases |a|
  {
    var i := IndexOfCrlf(a);
    if i < 0 {
      assert [] + Cut(a + b).frames == Cut(a + b).frames;
    } else {
      var frame, later := a[..i + 2], Cut(a[i + 2..]);
      IndexOfCrlfAppend(a, b);
      CutAppend(a[i + 2..], b);
      SliceOfConcat(a, b, i + 2);
      Regroup([frame], later.frames, Cut(later.rest + b).frames);
    }
  }

  lemma SliceOfConcat(a: seq<Byte>, b: seq<Byte>, n: nat)
    requires n <= |a|
    ensures (a + b)[..n] == a[..n] && (a + b)[n..] == a[n..] + b
  {
  }

  /** Nothing is lost or reordered: pieces and remainder make up the stream. */
  lemma {:induction false} CutKeepsBytes(s: seq<Byte>)
    ensures Flatten(Cut(s).frames) + Cut(s).rest == s
    ensures IndexOfCrlf(Cut(s).rest) < 0
    decreases |s|
  {
    var i := IndexOfCrlf(s);
    if i < 0 {
      assert [] + s == s;
    } else {
      var frame, later := s[..i + 2], Cut(s[i + 2..]);
      CutKeepsBytes(s[i + 2..]);
      FlattenCons(frame, later.frames);
      Regroup(frame, Flatten(later.frames), later.rest);
      assert frame + s[i + 2..] == s;
    }
  }

  lemma FlattenCons(first: seq<Byte>, others: seq<seq<Byte>>)
    ensures Flatten([first] + others) == first + Flatten(others)
  {
    assert ([first] + others)[1..] == others;
  }

  // ---------------------------------------------------------------- chunking

  /** In no call does the remainder exceed 512 bytes, so the overflow clear never fires. */
  predicate NoClear(buf: seq<Byte>, chunks: seq<seq<Byte>>)
    decreases |chunks|
  {
    chunks == [] ||
    (|Cut(buf + chunks[0]).rest| <= ARRAY_ERR_BUFSIZE && NoClear(Cut(buf + chunks[0]).rest, chunks[1..]))
  }

  lemma FlattenFirst(buf: seq<Byte>, chunks: seq<seq<Byte>>)
    requires chunks != []
    ensures buf + Flatten(chunks) == buf + chunks[0] + Flatten(chunks[1..])
  {
  }

  /** A run cuts the stream as it is meant to be cut exactly when the overflow clear never fires in it. */
  lemma {:induction false} RunFollowsCut(buf: seq<Byte>, chunks: seq<seq<Byte>>)
    requires IndexOfCrlf(buf) < 0
    ensures NoClear(buf, chunks) <==> Run(buf, chunks) == Cut(buf + Flatten(chunks))
    decreases |chunks|
  {
    if chunks == [] {
      assert buf + [] == buf;
    } else {
      var c, more := Cut(buf + chunks[0]), Flatten(chunks[1..]);
      CutKeepsBytes(buf + chunks[0]);
      if |c.rest| > ARRAY_ERR_BUFSIZE {
        RunLosesBytes(buf, chunks);
      } else {
        FlattenFirst(buf, chunks);
        CutAppend(buf + chunks[0], more);
        RunFollowsCut(c.rest, chunks[1..]);
        SamePieces(c.frames, Run(c.rest, chunks[1..]), Cut(c.rest + more));
      }
    }
  }

  lemma SamePieces(first: seq<seq<Byte>>, p: Pieces, q: Pieces)
    ensures Pieces(first + p.frames, p.rest) == Pieces(first + q.frames, q.rest) <==> p == q
  {
    assert (first + p.frames)[|first|..] == p.frames && (first + q.frames)[|first|..] == q.frames;
  }

  lemma {:induction false} RunNeverGrows(buf: seq<Byte>, chunks: seq<seq<Byte>>)
    ensures |Flatten(Run(buf, chunks).frames)| + |Run(buf, chunks).rest| <= |buf| + |Flatten(chunks)|
    decreases |chunks|
  {
    if chunks != [] {
      var first := Receive(buf, chunks[0]);
      CutKeepsBytes(buf + chunks[0]);
      RunNeverGrows(first.rest, chunks[1..]);
      FlattenConcat(first.frames, Run(first.rest, chunks[1..]).frames);
    }
  }

  /** When the first call overflows the buffer, bytes are missing from what the run produces. */
  lemma RunLosesBytes(buf: seq<Byte>, chunks: seq<seq<Byte>>)
    requires chunks != [] && |Cut(buf + chunks[0]).rest| > ARRAY_ERR_BUFSIZE
    ensures Run(buf, chunks) != Cut(buf + Flatten(chunks))
  {
    var first := Receive(buf, chunks[0]);
    CutKeepsBytes(buf + chunks[0]);
    RunNeverGrows(first.rest, chunks[1..]);
    FlattenConcat(first.frames, Run(first.rest, chunks[1..]).frames);
    CutKeepsBytes(buf + Flatten(chunks));
  }

  lemma {:induction false} FlattenConcat(a: seq<seq<Byte>>, b: seq<seq<Byte>>)
    ensures Flatten(a + b) == Flatten(a) + Flatten(b)
  {
    if a == [] {
      assert a + b == b;
    } else {
      assert (a + b)[1..] == a[1..] + b;
      FlattenConcat(a[1..], b);
      Regroup(a[0], Flatten(a[1..]), Flatten(b));
    }
  }

  /** No piece is longer than 513 bytes: whatever comes before its line feed fits the buffer. */
  predicate Fits(frames: seq<seq<Byte>>) {
    forall k :: 0 <= k < |frames| ==> |frames[k]| <= ARRAY_ERR_BUFSIZE + 1
  }

  /** A remainder too long for the buffer cannot be the start of a piece that fits. */
  lemma OverflowIsFinal(r: seq<Byte>, y: seq<Byte>)
    requires IndexOfCrlf(r) < 0 && |r| > ARRAY_ERR_BUFSIZE && Fits(Cut(r + y).frames)
    ensures IndexOfCrlf(r + y) < 0 && IndexOfCrlf(y) < 0
  {
    var i := IndexOfCrlf(r + y);
    IndexOfCrlfIsFirst(r + y);
    IndexOfCrlfIsFirst(r);
    if i >= 0 {
      assert !CrlfAt(r, i);
      assert Cut(r + y).frames[0] == (r + y)[..i + 2];
    }
    IndexOfCrlfIsFirst(y);
    assert forall k :: CrlfAt(y, k) ==> CrlfAt(r + y, |r| + k);
  }

  lemma FitsTail(first: seq<seq<Byte>>, later: seq<seq<Byte>>)
    requires Fits(first + later)
    ensures Fits(later)
  {
    assert forall k :: 0 <= k < |later| ==> later[k] == (first + later)[|first| + k];
  }

  /** If every piece fits, no piece is lost: a clear can only hit the remainder behind the last one. */
  lemma {:induction false} RunKeepsFrames(buf: seq<Byte>, chunks: seq<seq<Byte>>)
    requires IndexOfCrlf(buf) < 0 && Fits(Cut(buf + Flatten(chunks)).frames)
    ensures Run(buf, chunks).frames == Cut(buf + Flatten(chunks)).frames
    decreases |chunks|
  {
    if chunks == [] {
      assert buf + [] == buf;
    } else {
      var c, more := Cut(buf + chunks[0]), Flatten(chunks[1..]);
      FlattenFirst(buf, chunks);
      CutAppend(buf + chunks[0], more);
      CutKeepsBytes(buf + chunks[0]);
      FitsTail(c.frames, Cut(c.rest + more).frames);
      if |c.rest| > ARRAY_ERR_BUFSIZE {
        OverflowIsFinal(c.rest, more);
        EmptyPrefix(more);
        IndexOfCrlfIsNone([]);
        RunKeepsFrames([], chunks[1..]);
      } else {
        RunKeepsFrames(c.rest, chunks[1..]);
      }
    }
  }

  /** If moreover the remainder has at most 513 bytes, it stays in the buffer, or nothing does at 513. */
  lemma {:induction false} RunKeepsRest(buf: seq<Byte>, chunks: seq<seq<Byte>>)
    requires IndexOfCrlf(buf) < 0 && |buf| <= ARRAY_ERR_BUFSIZE
    requires Fits(Cut(buf + Flatten(chunks)).frames) && |Cut(buf + Flatten(chunks)).rest| <= ARRAY_ERR_BUFSIZE + 1
    ensures var rest := Cut(buf + Flatten(chunks)).rest;
            Run(buf, chunks).rest == if |rest| > ARRAY_ERR_BUFSIZE then [] else rest
    decreases |chunks|
  {
    if chunks == [] {
      assert buf + [] == buf;
    } else {
      var c, more := Cut(buf + chunks[0]), Flatten(chunks[1..]);
      FlattenFirst(buf, chunks);
      CutAppend(buf + chunks[0], more);
      CutKeepsBytes(buf + chunks[0]);
      FitsTail(c.frames, Cut(c.rest + more).frames);
      if |c.rest| > ARRAY_ERR_BUFSIZE {
        OverflowIsFinal(c.rest, more);
        assert more == [];
        EmptyPrefix(more);
        IndexOfCrlfIsNone([]);
        RunKeepsRest([], chunks[1..]);
      } else {
        RunKeepsRest(c.rest, chunks[1..]);
      }
    }
  }

  lemma TakeThenDrop(s: seq<Byte>, n: nat, m: nat)
    requires n + m <= |s|
    ensures s[..n + m][n..] == s[n..][..m] && s[n..][m..] == s[n + m..]
  {
  }

  lemma IndexOfCrlfPrefix(s: seq<Byte>, k: nat)
    requires 0 <= IndexOfCrlf(s) && IndexOfCrlf(s) + 2 <= k <= |s|
    ensures IndexOfCrlf(s[..k]) == IndexOfCrlf(s)
  {
    IndexOfCrlfIsFirst(s);
    assert forall m :: 0 <= m <= IndexOfCrlf(s) ==> CrlfAt(s[..k], m) == CrlfAt(s, m);
    IndexOfCrlfIs(s[..k], IndexOfCrlf(s));
  }

  /** A stray line feed in front adds no piece. */
  lemma StrayLineFeed(t: seq<Byte>)
    ensures |Cut([REVERSE_BYTE2] + t).frames| == |Cut(t).frames|
  {
    var w, i := [REVERSE_BYTE2] + t, IndexOfCrlf(t);
    IndexOfCrlfIsFirst(t);
    assert forall k :: k >= 1 ==> CrlfAt(w, k) == CrlfAt(t, k - 1);
    if i < 0 {
      IndexOfCrlfIsNone(w);
    } else {
      IndexOfCrlfIs(w, i + 1);
      assert w[i + 3..] == t[i + 2..];
    }
  }

  /** The split of a stream at `k` overflows the buffer and cuts out one piece less. */
  predicate Loses(s: seq<Byte>, k: nat) {
    && k <= |s| && |Cut(s[..k]).rest| > ARRAY_ERR_BUFSIZE
    && |Cut(s[..k]).frames| + |Cut(s[k..]).frames| + 1 == |Cut(s).frames|
  }

  /** A stream with a piece that does not fit has such a split. */
  lemma {:induction false} LosingSplit(s: seq<Byte>) returns (k: nat)
    requires !Fits(Cut(s).frames)
    ensures Loses(s, k)
    decreases |s|
  {
    var i := IndexOfCrlf(s);
    hide Loses;
    if i + 2 > ARRAY_ERR_BUFSIZE + 1 {
      k := i + 1;
      SplitBeforeLineFeed(s);
    } else {
      assert Cut(s).frames == [s[..i + 2]] + Cut(s[i + 2..]).frames;
      var k' := LosingSplit(s[i + 2..]);
      k := i + 2 + k';
      LosesLater(s, k');
    }
  }

  lemma SplitBeforeLineFeed(s: seq<Byte>)
    requires IndexOfCrlf(s) >= ARRAY_ERR_BUFSIZE
    ensures Loses(s, IndexOfCrlf(s) + 1)
  {
    var i := IndexOfCrlf(s);
    var head := s[..i + 1];
    IndexOfCrlfIsFirst(s);
    assert forall m :: 0 <= m < i ==> CrlfAt(head, m) == CrlfAt(s, m);
    IndexOfCrlfIsNone(head);
    assert s[i + 1..] == [REVERSE_BYTE2] + s[i + 2..];
    StrayLineFeed(s[i + 2..]);
  }

  lemma LosesLater(s: seq<Byte>, k: nat)
    requires IndexOfCrlf(s) >= 0 && Loses(s[IndexOfCrlf(s) + 2..], k)
    ensures Loses(s, IndexOfCrlf(s) + 2 + k)
  {
    var n := IndexOfCrlf(s) + 2;
    IndexOfCrlfPrefix(s, n + k);
    TakeThenDrop(s, n, k);
  }

  lemma RunOne(s: seq<Byte>)
    ensures Flatten([s]) == s && Run([], [s]) == Receive([], s)
    ensures Receive([], s) == Pieces(Cut(s).frames, if |Cut(s).rest| > ARRAY_ERR_BUFSIZE then [] else Cut(s).rest)
  {
    EmptyPrefix(s);
    assert [s][1..] == [] && s + [] == s;
    var first := Receive([], s);
    assert first.frames + [] == first.frames;
  }

  lemma RunTwo(s: seq<Byte>, k: nat)
    requires k <= |s| && |Cut(s[..k]).rest| > ARRAY_ERR_BUFSIZE
    ensures Flatten([s[..k], s[k..]]) == s
    ensures Run([], [s[..k], s[k..]])
         == Pieces(Cut(s[..k]).frames + Cut(s[k..]).frames, Receive([], s[k..]).rest)
  {
    RunOne(s[k..]);
    EmptyPrefix(s[..k]);
    assert [s[..k], s[k..]][1..] == [s[k..]];
    assert s[..k] + s[k..] == s;
  }

  /** However the stream is cut into datagrams, the same pieces come out. */
  ghost predicate SameFrames(s: seq<Byte>) {
    forall c1, c2 :: Flatten(c1) == s && Flatten(c2) == s ==> Run([], c1).frames == Run([], c2).frames
  }

  /** The same pieces come out and the same bytes stay in the buffer. */
  ghost predicate SameRun(s: seq<Byte>) {
    forall c1, c2 :: Flatten(c1) == s && Flatten(c2) == s ==> Run([], c1) == Run([], c2)
  }

  /** Independence of the chunking, from an empty buffer: of the pieces exactly when none is longer than
      513 bytes, of the buffer left behind as well exactly when the remainder is not longer either.  Every
      chunking cuts the stream as meant exactly when that remainder is at most 512 bytes. */
  lemma ChunkingIndependent(s: seq<Byte>)
    ensures SameFrames(s) <==> Fits(Cut(s).frames)
    ensures SameRun(s) <==> Fits(Cut(s).frames) && |Cut(s).rest| <= ARRAY_ERR_BUFSIZE + 1
    ensures (forall chunks :: Flatten(chunks) == s ==> Run([], chunks) == Cut(s))
       <==> Fits(Cut(s).frames) && |Cut(s).rest| <= ARRAY_ERR_BUFSIZE
  {
    hide Run, Cut, Flatten, Fits;
    RunOne(s);
    if Fits(Cut(s).frames) {
      forall chunks | Flatten(chunks) == s
        ensures Run([], chunks).frames == Cut(s).frames
        ensures |Cut(s).rest| <= ARRAY_ERR_BUFSIZE + 1 ==> Run([], chunks).rest == Receive([], s).rest
      {
        RunWhenFits(s, chunks);
      }
      if |Cut(s).rest| > ARRAY_ERR_BUFSIZE + 1 { LongRemainder(s); }
    } else {
      LongPieceLost(s);
    }
  }

  lemma RunWhenFits(s: seq<Byte>, chunks: seq<seq<Byte>>)
    requires Fits(Cut(s).frames) && Flatten(chunks) == s
    ensures Run([], chunks).frames == Cut(s).frames
    ensures |Cut(s).rest| <= ARRAY_ERR_BUFSIZE + 1 ==> Run([], chunks).rest == Receive([], s).rest
  {
    hide Run, Cut, Flatten, Fits;
    EmptyPrefix(s);
    IndexOfCrlfIsNone([]);
    RunKeepsFrames([], chunks);
    if |Cut(s).rest| <= ARRAY_ERR_BUFSIZE + 1 { RunKeepsRest([], chunks); }
  }

  lemma LongPieceLost(s: seq<Byte>)
    requires !Fits(Cut(s).frames)
    ensures !SameFrames(s) && !SameRun(s)
    ensures exists chunks :: Flatten(chunks) == s && Run([], chunks) != Cut(s)
  {
    hide Run, Cut, Flatten, Fits;
    var k := LosingSplit(s);
    RunOne(s);
    RunTwo(s, k);
    assert |Run([], [s[..k], s[k..]]).frames| < |Run([], [s]).frames|;
  }

  /** A remainder of more than 513 bytes: all in one datagram nothing stays, with the last byte apart
      that byte stays. */
  lemma LongRemainder(s: seq<Byte>)
    requires |Cut(s).rest| > ARRAY_ERR_BUFSIZE + 1
    ensures !SameRun(s)
  {
    var k := |s| - 1;
    CutWithoutLast(s);
    CutOneByte(s[k..]);
    hide Run, Cut, Flatten;
    RunOne(s);
    RunTwo(s, k);
    EmptyPrefix(s);
    EmptyPrefix(s[k..]);
    assert Run([], [s]).rest == [] && Run([], [s[..k], s[k..]]).rest == s[k..];
  }

  lemma CutOneByte(s: seq<Byte>)
    requires |s| == 1
    ensures Cut(s) == Pieces([], s)
  {
    IndexOfCrlfIsNone(s);
  }

  lemma {:induction false} CutWithoutLast(s: seq<Byte>)
    requires Cut(s).rest != []
    ensures |s| >= 1 && |Cut(s[..|s| - 1]).rest| == |Cut(s).rest| - 1
    decreases |s|
  {
    var i, k := IndexOfCrlf(s), |s| - 1;
    if i < 0 {
      IndexOfCrlfIsFirst(s);
      assert forall m :: CrlfAt(s[..k], m) ==> CrlfAt(s, m);
      IndexOfCrlfIsNone(s[..k]);
    } else {
      CutWithoutLast(s[i + 2..]);
      IndexOfCrlfPrefix(s, k);
      assert s[..k][i + 2..] == s[i + 2..][..|s[i + 2..]| - 1];
    }
  }

  /** A piece of 514 bytes is lost when the first 513 come in a datagram of their own, and 514 bytes
      without an end leave a different buffer behind. */
  lemma LongPiece()
    ensures var s := seq(512, _ => 0) + CRLF;
            !SameFrames(s)
    ensures SameFrames(seq(514, _ => 0)) && !SameRun(seq(514, _ => 0))
  {
    var zeros := seq(512, _ => 0 as Byte);
    var s := zeros + CRLF;
    IndexOfCrlfIs(s, 512);
    assert s[..514] == s;
    assert Cut(s).frames[0] == s[..514];
    ChunkingIndependent(s);
    var t := seq(514, _ => 0 as Byte);
    IndexOfCrlfIsNone(t);
    ChunkingIndependent(t);
  }

  // ---------------------------------------------------------------- end to end

  /** Messages as the encoder numbers them, from a given serial, wrapping at 65536. */
  function Numbered(msgs: seq<Msg>, serial: Word16): seq<Msg>
    decreases |msgs|
  {
    if msgs == [] then [] else [msgs[0].(serial := serial)] + Numbered(msgs[1..], serial + 1)
  }

  function Frames(msgs: seq<Msg>): seq<seq<Byte>> {
    seq(|msgs|, i requires 0 <= i < |msgs| => Frame(msgs[i]))
  }

  predicate Sendable(msgs: seq<Msg>) {
    forall k :: 0 <= k < |msgs| ==> msgs[k].Valid() && |msgs[k].body| <= MAX_BODY
  }

  /** The first CR LF of an encoded frame is its end, also behind noise that holds none. */
  lemma FrameIndex(noise: seq<Byte>, msg: Msg)
    requires IndexOfCrlf(noise) < 0
    ensures IndexOfCrlf(noise + Frame(msg)) == |noise| + |Frame(msg)| - 2
  {
    var s, w := Stuff(Content(msg)), noise + Frame(msg);
    StuffHasNoLineFeed(Content(msg));
    IndexOfCrlfIsFirst(noise);
    var i := |noise| + |s|;
    forall k | 0 <= k < i
      ensures !CrlfAt(w, k)
    {
      if k + 1 < |noise| {
        assert !CrlfAt(noise, k);
      } else if k + 1 < i {
        assert w[k + 1] == s[k + 1 - |noise|];
      }
    }
    IndexOfCrlfIs(w, i);
  }

  lemma CutFrame(noise: seq<Byte>, msg: Msg)
    requires IndexOfCrlf(noise) < 0
    ensures Cut(noise + Frame(msg)) == Pieces([noise + Frame(msg)], [])
  {
    var w := noise + Frame(msg);
    FrameIndex(noise, msg);
    assert w[|w|..] == [] && w[..|w|] == w;
    IndexOfCrlfIsNone([]);
    assert Cut([]) == Pieces([], []);
  }

  lemma FramesCons(msgs: seq<Msg>)
    requires msgs != []
    ensures Frames(msgs) == [Frame(msgs[0])] + Frames(msgs[1..])
    ensures Flatten(Frames(msgs)) == Frame(msgs[0]) + Flatten(Frames(msgs[1..]))
  {
    hide Frame;
    FlattenCons(Frame(msgs[0]), Frames(msgs[1..]));
    assert Frames(msgs) == [Frame(msgs[0])] + Frames(msgs[1..]);
  }

  /** A stream of frames is cut back into those frames; leading noise joins the first of them. */
  lemma {:induction false} CutFrames(noise: seq<Byte>, msgs: seq<Msg>)
    requires IndexOfCrlf(noise) < 0
    ensures msgs == [] ==> Cut(noise + Flatten(Frames(msgs))) == Pieces([], noise)
    ensures msgs != [] ==>
              Cut(noise + Flatten(Frames(msgs))) == Pieces([noise + Frame(msgs[0])] + Frames(msgs[1..]), [])
    decreases |msgs|
  {
    if msgs == [] {
      assert noise + [] == noise;
    } else {
      var w, more := noise + Frame(msgs[0]), Flatten(Frames(msgs[1..]));
      FramesCons(msgs);
      assert noise + Flatten(Frames(msgs)) == w + more;
      CutFrame(noise, msgs[0]);
      CutAppend(w, more);
      IndexOfCrlfIsNone([]);
      CutFrames([], msgs[1..]);
      assert [] + more == more;
      if |msgs| > 1 {
        assert [] + Frame(msgs[1]) == Frame(msgs[1]);
        FramesCons(msgs[1..]);
      }
    }
  }

  lemma HandledFrames(msgs: seq<Msg>)
    requires Sendable(msgs)
    ensures Handled(Frames(msgs)) == msgs
  {
    forall k | 0 <= k < |msgs|
      ensures HandledOne(Frame(msgs[k])) == [msgs[k]]
    {
      HandledFrame(msgs[k]);
    }
    HandledEach(Frames(msgs), msgs);
  }

  lemma {:induction false} HandledEach(frames: seq<seq<Byte>>, msgs: seq<Msg>)
    requires |frames| == |msgs|
    requires forall k :: 0 <= k < |msgs| ==> HandledOne(frames[k]) == [msgs[k]]
    ensures Handled(frames) == msgs
  {
    hide HandledOne;
    if msgs != [] {
      var n := |msgs| - 1;
      HandledEach(frames[..n], msgs[..n]);
      assert msgs[..n] + [msgs[n]] == msgs;
    }
  }

  lemma HandledFrame(msg: Msg)
    requires msg.Valid()
    ensures HandledOne(Frame(msg)) == [msg]
  {
    DecodeEncode(msg);
    FrameLength(msg);
  }

  lemma {:induction false} HandledConcat(a: seq<seq<Byte>>, b: seq<seq<Byte>>)
    ensures Handled(a + b) == Handled(a) + Handled(b)
  {
    if b == [] {
      assert a + b == a;
    } else {
      var n := |b| - 1;
      assert (a + b)[..|a + b| - 1] == a + b[..n];
      HandledConcat(a, b[..n]);
      Regroup(Handled(a), Handled(b[..n]), HandledOne(b[n]));
    }
  }

  /** Messages sent one after the other arrive unchanged, in order and consecutively numbered, whatever
      datagrams the bytes travel in. */
  lemma EndToEnd(msgs: seq<Msg>, serial: Word16, chunks: seq<seq<Byte>>)
    requires Sendable(msgs)
    requires Flatten(chunks) == Flatten(Frames(Numbered(msgs, serial)))
    ensures Handled(Run([], chunks).frames) == Numbered(msgs, serial)
    ensures Run([], chunks).rest == []
  {
    hide Frame, HandledOne;
    var sent := Numbered(msgs, serial);
    NumberedSendable(msgs, serial);
    IndexOfCrlfIsNone([]);
    assert [] + Flatten(Frames(sent)) == Flatten(Frames(sent));
    if sent != [] {
      FrameLength(sent[0]);
      assert [] + Frame(sent[0]) == Frame(sent[0]);
      FramesCons(sent);
    }
    Resynchronise([], sent, chunks);
    HandledFrames(sent);
  }

  lemma {:induction false} NumberedSendable(msgs: seq<Msg>, serial: Word16)
    requires Sendable(msgs)
    ensures Sendable(Numbered(msgs, serial)) && |Numbered(msgs, serial)| == |msgs|
    decreases |msgs|
  {
    if msgs != [] { NumberedSendable(msgs[1..], serial + 1); }
  }

  /** Noise without CR LF before the frames is short enough: with the first frame it has at most 513 bytes,
      or 512 if no frame follows. */
  predicate ShortNoise(noise: seq<Byte>, sent: seq<Msg>) {
    if sent == [] then |noise| <= ARRAY_ERR_BUFSIZE else |noise| + |Frame(sent[0])| <= ARRAY_ERR_BUFSIZE + 1
  }

  /** Recovery: behind short noise every later frame is cut out intact under any chunking; only the first
      one is merged with the noise. */
  lemma Resynchronise(noise: seq<Byte>, sent: seq<Msg>, chunks: seq<seq<Byte>>)
    requires IndexOfCrlf(noise) < 0 && Sendable(sent) && ShortNoise(noise, sent)
    requires Flatten(chunks) == noise + Flatten(Frames(sent))
    ensures Run([], chunks) == if sent == [] then Pieces([], noise)
                               else Pieces([noise + Frame(sent[0])] + Frames(sent[1..]), [])
  {
    CutFramesShort(noise, sent);
    ChunkingIndependent(Flatten(chunks));
    CutFrames(noise, sent);
  }

  lemma EmptyPrefix(s: seq<Byte>)
    ensures [] + s == s
  {
  }

  lemma CutFramesShort(noise: seq<Byte>, sent: seq<Msg>)
    requires IndexOfCrlf(noise) < 0 && Sendable(sent) && ShortNoise(noise, sent)
    ensures var c := Cut(noise + Flatten(Frames(sent)));
            Fits(c.frames) && |c.rest| <= ARRAY_ERR_BUFSIZE
  {
    hide Frame, Cut, Sendable;
    CutFrames(noise, sent);
    if sent != [] {
      FramesShort(sent);
      var others := Frames(sent[1..]);
      assert forall k :: 0 <= k < |others| ==> others[k] == Frame(sent[k + 1]);
    }
  }

  lemma FramesShort(sent: seq<Msg>)
    requires Sendable(sent)
    ensures forall k :: 0 <= k < |sent| ==> |Frame(sent[k])| <= SCRATCH_SIZE
  {
    forall k | 0 <= k < |sent|
      ensures |Frame(sent[k])| <= SCRATCH_SIZE
    {
      FrameLength(sent[k]);
    }
  }

  /** What the switch sees after noise: at most one stray message, then every message but the first. */
  lemma ResynchroniseHandled(noise: seq<Byte>, sent: seq<Msg>, chunks: seq<seq<Byte>>)
    requires IndexOfCrlf(noise) < 0 && Sendable(sent) && sent != [] && ShortNoise(noise, sent)
    requires Flatten(chunks) == noise + Flatten(Frames(sent))
    ensures Handled(Run([], chunks).frames) == HandledOne(noise + Frame(sent[0])) + sent[1..]
  {
    hide Frame, Frames, Run, Handled, HandledOne, Flatten, IndexOfCrlf;
    Resynchronise(noise, sent, chunks);
    var w := noise + Frame(sent[0]);
    HandledConcat([w], Frames(sent[1..]));
    HandledFrames(sent[1..]);
    HandledSingle(w);
  }

  lemma HandledSingle(frame: seq<Byte>)
    ensures Handled([frame]) == HandledOne(frame)
  {
    hide HandledOne;
    assert [frame][..0] == [];
  }
}
