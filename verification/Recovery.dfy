/**
 How the receiver recovers from noise in front of a run of frames.  Noise of any length costs at most the
 first two frames, and the second one exactly when noise and first frame have more than 513 bytes.
 */
module Recovery {
  import opened Options
  import opened Jt808
  import opened CmdDeal

  predicate EndsWith<T(==)>(list: seq<T>, last: seq<T>) {
    |last| <= |list| && list[|list| - |last|..] == last
  }

  lemma EndsWithAppend<T>(first: seq<T>, last: seq<T>)
    ensures EndsWith(first + last, last)
  {
  }

  // ---------------------------------------------------------------- a stream that begins inside a frame

  /** What is left of noise and a first frame: it ends with a line feed and has no CR LF before its end. */
  predicate Head(h: seq<Byte>) {
    h != [] && h[|h| - 1] == REVERSE_BYTE2 && IndexOfCrlf(h[..|h| - 1]) < 0
  }

  lemma HeadTail(h: seq<Byte>, n: nat)
    requires Head(h) && n < |h|
    ensures IndexOfCrlf(h[..n]) < 0 && Head(h[n..])
  {
    var before, start, end := h[..|h| - 1], h[..n], h[n..];
    var middle := end[..|end| - 1];
    IndexOfCrlfIsFirst(before);
    assert forall k :: CrlfAt(start, k) ==> CrlfAt(before, k);
    IndexOfCrlfIsNone(start);
    forall k | 0 <= k < |middle| - 1
      ensures !CrlfAt(middle, k)
    {
      assert !CrlfAt(before, n + k);
    }
    IndexOfCrlfIsNone(middle);
  }

  lemma NoiseIsHead(noise: seq<Byte>, msg: Msg)
    requires IndexOfCrlf(noise) < 0
    ensures Head(noise + Frame(msg))
  {
    var h := noise + Frame(msg);
    FrameIndex(noise, msg);
    IndexOfCrlfIsFirst(h);
    var before := h[..|h| - 1];
    forall k | 0 <= k < |before| - 1
      ensures !CrlfAt(before, k)
    {
      assert !CrlfAt(h, k);
    }
    IndexOfCrlfIsNone(before);
  }

  /** A head is a piece of its own, unless the clear has left nothing of it but the line feed. */
  lemma HeadCut(h: seq<Byte>)
    requires Head(h)
    ensures if |h| >= 2 && h[|h| - 2] == REVERSE_BYTE1 then Cut(h) == Pieces([h], []) else IndexOfCrlf(h) < 0
  {
    var before := h[..|h| - 1];
    IndexOfCrlfIsFirst(before);
    assert forall k :: 0 <= k < |h| - 2 ==> CrlfAt(h, k) == CrlfAt(before, k);
    if |h| >= 2 && h[|h| - 2] == REVERSE_BYTE1 {
      IndexOfCrlfIs(h, |h| - 2);
      assert h[|h|..] == [] && h[..|h|] == h;
      IndexOfCrlfIsNone([]);
    } else {
      IndexOfCrlfIsNone(h);
    }
  }

  /** A head whose last two bytes are CR LF, or which is a line feed alone. */
  predicate WholeOrStray(h: seq<Byte>) {
    h == [REVERSE_BYTE2] || (|h| >= 2 && h[|h| - 2] == REVERSE_BYTE1)
  }

  /** A run over the rest of a first frame and later ones: either that rest comes out as a piece and the
      later frames after it, or a line feed remains of it and joins the next frame. */
  ghost predicate Recovers(frames: seq<seq<Byte>>, more: seq<Msg>)
    requires more != []
  {
    || (|frames| >= 1 && frames[1..] == Frames(more))
    || frames == [[REVERSE_BYTE2] + Frame(more[0])] + Frames(more[1..])
  }

  lemma {:induction false} RunRecovers(buf: seq<Byte>, chunks: seq<seq<Byte>>, h: seq<Byte>, more: seq<Msg>)
    requires Head(h) && WholeOrStray(h) && Sendable(more) && more != []
    requires |buf| < |h| && buf + Flatten(chunks) == h + Flatten(Frames(more))
    ensures Recovers(Run(buf, chunks).frames, more)
    decreases |chunks|
  {
    hide Frame, Frames, Cut, Flatten, Recovers, Sendable;
    var wire := Flatten(Frames(more));
    assert chunks != [] by { FlattenNone(buf, chunks, h + wire); }
    var b, rest := buf + chunks[0], Flatten(chunks[1..]);
    FlattenFirst(buf, chunks);
    if h == [REVERSE_BYTE2] {
      StrayRecovers(buf, chunks, more);
    } else if |b| < |h| {
      Shorter(b, rest, h, wire);
      HeadTail(h, |b|);
      assert Cut(b) == Pieces([], b) by { CutNothing(b); }
      var first := Receive(buf, chunks[0]);
      if |b| > ARRAY_ERR_BUFSIZE {
        EmptyPrefix(rest);
        RunRecovers([], chunks[1..], h[|b|..], more);
      } else {
        RunRecovers(b, chunks[1..], h, more);
      }
      assert first.frames == [];
      EmptyPrefixFrames(Run(first.rest, chunks[1..]).frames);
    } else {
      Longer(b, rest, h, wire);
      WholeRecovers(buf, chunks, h, b[|h|..], more);
    }
  }

  lemma FlattenNone(buf: seq<Byte>, chunks: seq<seq<Byte>>, all: seq<Byte>)
    requires buf + Flatten(chunks) == all && |buf| < |all|
    ensures chunks != []
  {
  }

  lemma CutNothing(b: seq<Byte>)
    requires IndexOfCrlf(b) < 0
    ensures Cut(b) == Pieces([], b)
  {
  }

  lemma EmptyPrefixFrames(frames: seq<seq<Byte>>)
    ensures [] + frames == frames
  {
  }

  lemma Shorter(b: seq<Byte>, rest: seq<Byte>, h: seq<Byte>, wire: seq<Byte>)
    requires b + rest == h + wire && |b| < |h|
    ensures b == h[..|b|] && rest == h[|b|..] + wire
  {
    assert (b + rest)[..|b|] == b && (b + rest)[|b|..] == rest;
  }

  lemma Longer(b: seq<Byte>, rest: seq<Byte>, h: seq<Byte>, wire: seq<Byte>)
    requires b + rest == h + wire && |b| >= |h|
    ensures b == h + b[|h|..] && b[|h|..] + rest == wire
  {
    assert (b + rest)[..|h|] == b[..|h|] && (h + wire)[..|h|] == h;
    assert (b + rest)[|h|..] == b[|h|..] + rest && (h + wire)[|h|..] == wire;
  }

  lemma FramesFrom(more: seq<Msg>)
    requires more != []
    ensures [[] + Frame(more[0])] + Frames(more[1..]) == Frames(more)
  {
    hide Frame;
    FramesCons(more);
    EmptyPrefix(Frame(more[0]));
  }

  /** Only the line feed of the first frame is left. */
  lemma StrayRecovers(buf: seq<Byte>, chunks: seq<seq<Byte>>, more: seq<Msg>)
    requires Sendable(more) && more != []
    requires buf == [] && buf + Flatten(chunks) == [REVERSE_BYTE2] + Flatten(Frames(more))
    ensures Recovers(Run(buf, chunks).frames, more)
  {
    hide Frame, Frames, Cut, Flatten;
    IndexOfCrlfIsNone([REVERSE_BYTE2]);
    FramesShort(more);
    EmptyPrefix(Flatten(chunks));
    Resynchronise([REVERSE_BYTE2], more, chunks);
  }

  /** The first call sees the end of the first frame, and `y` behind it. */
  lemma WholeRecovers(buf: seq<Byte>, chunks: seq<seq<Byte>>, h: seq<Byte>, y: seq<Byte>, more: seq<Msg>)
    requires Head(h) && |h| >= 2 && h[|h| - 2] == REVERSE_BYTE1 && Sendable(more) && more != []
    requires chunks != [] && buf + chunks[0] == h + y && y + Flatten(chunks[1..]) == Flatten(Frames(more))
    ensures Recovers(Run(buf, chunks).frames, more)
  {
    hide Frame, Frames, Cut, Flatten, Head, Sendable;
    HeadCut(h);
    CutAppend(h, y);
    EmptyPrefix(y);
    var later := [y] + chunks[1..];
    FlattenCons(y, chunks[1..]);
    assert later[1..] == chunks[1..];
    IndexOfCrlfIsNone([]);
    FramesShort(more);
    EmptyPrefix(Flatten(Frames(more)));
    Resynchronise([], more, later);
    FramesFrom(more);
    var frames, rest := Cut(y).frames, Run(Receive(buf, chunks[0]).rest, chunks[1..]).frames;
    Regroup([h], frames, rest);
    assert Run(buf, chunks).frames == [h] + Frames(more);
  }

  // ---------------------------------------------------------------- what noise costs

  /** Behind noise of any length without CR LF, under any chunking, every frame from the third on is cut
      out and its message dispatched; the second one is, too, or a stray line feed stands before it. */
  lemma LosesAtMostTwo(noise: seq<Byte>, sent: seq<Msg>, chunks: seq<seq<Byte>>)
    requires IndexOfCrlf(noise) < 0 && Sendable(sent) && |sent| >= 2
    requires Flatten(chunks) == noise + Flatten(Frames(sent))
    ensures Recovers(Run([], chunks).frames, sent[1..])
    ensures EndsWith(Run([], chunks).frames, Frames(sent[2..]))
    ensures EndsWith(Handled(Run([], chunks).frames), sent[2..])
  {
    hide Frame, Frames, Flatten, Run, Handled, Sendable;
    var h, more := noise + Frame(sent[0]), sent[1..];
    NoiseIsHead(noise, sent[0]);
    SendableTail(sent);
    FramesCons(sent);
    Regroup(noise, Frame(sent[0]), Flatten(Frames(more)));
    EmptyPrefix(Flatten(chunks));
    FrameEnds(noise, sent[0]);
    RunRecovers([], chunks, h, more);
    RecoversMeans(Run([], chunks).frames, more);
  }

  lemma FrameEnds(noise: seq<Byte>, msg: Msg)
    ensures var h := noise + Frame(msg); |h| >= 2 && h[|h| - 2] == REVERSE_BYTE1
  {
  }

  lemma SendableTail(sent: seq<Msg>)
    requires Sendable(sent) && sent != []
    ensures Sendable(sent[1..])
  {
  }

  lemma RecoversMeans(frames: seq<seq<Byte>>, more: seq<Msg>)
    requires more != [] && Sendable(more) && Recovers(frames, more)
    ensures EndsWith(frames, Frames(more[1..])) && EndsWith(Handled(frames), more[1..])
  {
    hide Frame, Frames, Handled, HandledOne, Sendable;
    var first := frames[0];
    SendableTail(more);
    HandledFrames(more[1..]);
    FramesFrom(more);
    if frames[1..] == Frames(more) {
      var head := [first] + [Frame(more[0])];
      EmptyPrefix(Frame(more[0]));
      assert frames == head + Frames(more[1..]);
      HandledConcat(head, Frames(more[1..]));
      EndsWithAppend(head, Frames(more[1..]));
      EndsWithAppend(Handled(head), more[1..]);
    } else {
      var stray := [[REVERSE_BYTE2] + Frame(more[0])];
      HandledConcat(stray, Frames(more[1..]));
      EndsWithAppend(stray, Frames(more[1..]));
      EndsWithAppend(Handled(stray), more[1..]);
    }
  }

  /** A frame with a stray line feed in front is rejected: its check byte no longer fits. */
  lemma StrayRejected(msg: Msg)
    requires msg.Valid()
    ensures HandledOne([REVERSE_BYTE2] + Frame(msg)) == []
  {
    hide Frame, Content, Xor;
    var content, w := Content(msg), Frame(msg);
    assert ([REVERSE_BYTE2] + w)[1..] == w;
    UnstuffFrame(msg);
    ContentChecks(msg);
    var n := |content| - 1;
    var p := [REVERSE_BYTE2] + content;
    assert p[..|p| - 1] == [REVERSE_BYTE2] + content[..n];
    XorPrepend(REVERSE_BYTE2, content[..n]);
    XorChanges(REVERSE_BYTE2, Xor(content[..n]));
  }

  lemma UnstuffFrame(msg: Msg)
    ensures Unstuff(Frame(msg)) == Some(Content(msg)) && |Frame(msg)| > 2
  {
    UnstuffStuff(Content(msg), CRLF);
    FrameLength(msg);
  }

  lemma ContentChecks(msg: Msg)
    ensures ChecksumOk(Content(msg))
  {
    assert Content(msg)[..|Content(msg)| - 1] == HeadAndBody(msg);
  }

  lemma {:induction false} XorPrepend(b: Byte, s: seq<Byte>)
    ensures Xor([b] + s) == b ^ Xor(s)
  {
    if s == [] {
      assert [b] + s == [b] && [b][..0] == [];
    } else {
      var n := |s| - 1;
      assert ([b] + s)[..n + 1] == [b] + s[..n];
      XorPrepend(b, s[..n]);
      XorRegroup(b, Xor(s[..n]), s[n]);
    }
  }

  lemma XorRegroup(a: Byte, b: Byte, c: Byte)
    ensures (a ^ b) ^ c == a ^ (b ^ c)
  {
  }

  lemma XorChanges(a: Byte, b: Byte)
    requires a != 0
    ensures a ^ b != b
  {
  }

  /** Under every chunking the pieces end with every frame but the first. */
  ghost predicate AllCut(noise: seq<Byte>, sent: seq<Msg>)
    requires sent != []
  {
    forall chunks :: Flatten(chunks) == noise + Flatten(Frames(sent)) ==>
      EndsWith(Run([], chunks).frames, Frames(sent[1..]))
  }

  /** Under every chunking every message but the first is dispatched, in order and last. */
  ghost predicate AllHandled(noise: seq<Byte>, sent: seq<Msg>)
    requires sent != []
  {
    forall chunks :: Flatten(chunks) == noise + Flatten(Frames(sent)) ==>
      EndsWith(Handled(Run([], chunks).frames), sent[1..])
  }

  /** Only the first frame is lost, whatever the chunking, exactly when noise and first frame have at most
      513 bytes together. */
  lemma ResynchroniseExactly(noise: seq<Byte>, sent: seq<Msg>)
    requires IndexOfCrlf(noise) < 0 && Sendable(sent) && |sent| >= 2
    ensures AllCut(noise, sent) <==> |noise| + |Frame(sent[0])| <= ARRAY_ERR_BUFSIZE + 1
    ensures AllHandled(noise, sent) <==> |noise| + |Frame(sent[0])| <= ARRAY_ERR_BUFSIZE + 1
  {
    hide Frame, Frames, Flatten, Run, Handled, HandledOne, EndsWith;
    if |noise| + |Frame(sent[0])| <= ARRAY_ERR_BUFSIZE + 1 {
      forall chunks | Flatten(chunks) == noise + Flatten(Frames(sent))
        ensures EndsWith(Run([], chunks).frames, Frames(sent[1..]))
        ensures EndsWith(Handled(Run([], chunks).frames), sent[1..])
      {
        Resynchronise(noise, sent, chunks);
        ResynchroniseHandled(noise, sent, chunks);
        EndsWithAppend([noise + Frame(sent[0])], Frames(sent[1..]));
        EndsWithAppend(HandledOne(noise + Frame(sent[0])), sent[1..]);
      }
    } else {
      var chunks := ClearBeforeLineFeed(noise, sent);
      SecondLost(sent);
    }
  }

  /** The chunking that loses the second frame: the first datagram ends between CR and LF. */
  lemma ClearBeforeLineFeed(noise: seq<Byte>, sent: seq<Msg>) returns (chunks: seq<seq<Byte>>)
    requires IndexOfCrlf(noise) < 0 && Sendable(sent) && |sent| >= 2
    requires |noise| + |Frame(sent[0])| > ARRAY_ERR_BUFSIZE + 1
    ensures Flatten(chunks) == noise + Flatten(Frames(sent))
    ensures Run([], chunks).frames == [[REVERSE_BYTE2] + Frame(sent[1])] + Frames(sent[2..])
  {
    hide Frame, Frames, Flatten, Cut;
    var h, more := noise + Frame(sent[0]), sent[1..];
    var wire, k := h + Flatten(Frames(more)), |h| - 1;
    NoiseIsHead(noise, sent[0]);
    FramesCons(sent);
    Regroup(noise, Frame(sent[0]), Flatten(Frames(more)));
    assert wire[..k] == h[..k] && wire[k..] == [REVERSE_BYTE2] + Flatten(Frames(more));
    CutNothing(h[..k]);
    RunTwo(wire, k);
    IndexOfCrlfIsNone([REVERSE_BYTE2]);
    CutFrames([REVERSE_BYTE2], more);
    chunks := [wire[..k], wire[k..]];
    EmptyPrefixFrames(Cut(wire[k..]).frames);
  }

  lemma SecondLost(sent: seq<Msg>)
    requires Sendable(sent) && |sent| >= 2
    ensures var frames := [[REVERSE_BYTE2] + Frame(sent[1])] + Frames(sent[2..]);
            !EndsWith(frames, Frames(sent[1..])) && !EndsWith(Handled(frames), sent[1..])
  {
    hide Frame, Frames, Handled, HandledOne;
    var more, stray := sent[1..], [REVERSE_BYTE2] + Frame(sent[1]);
    FramesCons(more);
    assert more[1..] == sent[2..];
    var frames := [stray] + Frames(sent[2..]);
    assert |Frames(more)| == |frames| && Frames(more)[0] == Frame(sent[1]) && |frames[0]| == |Frames(more)[0]| + 1;
    HandledConcat([stray], Frames(sent[2..]));
    HandledSingle(stray);
    StrayRejected(sent[1]);
    HandledFrames(sent[2..]);
  }

  /** 600 bytes of noise before any two messages are too much. */
  lemma LongNoise(a: Msg, b: Msg)
    requires Sendable([a, b])
    ensures !AllHandled(seq(600, _ => 0), [a, b])
  {
    hide Frame;
    var noise := seq(600, _ => 0 as Byte);
    IndexOfCrlfIsNone(noise);
    ResynchroniseExactly(noise, [a, b]);
  }
}
