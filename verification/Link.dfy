/**
 The gateway link end to end, through the code: the encoder sends a list of messages, the bytes travel in
 datagrams of any sizes, and the receiver's framer and decoder hand out what they find.
 */
module Link {
  import opened Jt808
  import opened CmdDeal

  /** The bytes in datagrams of the given sizes, the last one taking whatever is left. */
  function Datagrams(wire: seq<Byte>, sizes: seq<nat>): (r: seq<seq<Byte>>)
    ensures Flatten(r) == wire
    decreases |sizes|
  {
    if sizes == [] || sizes[0] > |wire| then
      assert [wire][1..] == [] && wire + [] == wire;
      [wire]
    else
      var later := Datagrams(wire[sizes[0]..], sizes[1..]);
      assert ([wire[..sizes[0]]] + later)[1..] == later;
      [wire[..sizes[0]]] + later
  }

  /** Encodes the messages one after the other; the frames follow each other on the wire. */
  method SendAll(encoder: Encoder, msgs: seq<Msg>) returns (wire: seq<Byte>)
    requires Sendable(msgs)
    modifies encoder
    ensures wire == Flatten(Frames(Numbered(msgs, old(encoder.serial))))
  {
    hide Frame, Frames, Numbered, Flatten;
    wire := [];
    ghost var all := Flatten(Frames(Numbered(msgs, encoder.serial)));
    SendStep(msgs, encoder.serial);
    assert msgs[0..] == msgs && [] + all == all;
    for k := 0 to |msgs|
      invariant Sendable(msgs[k..])
      invariant all == wire + Flatten(Frames(Numbered(msgs[k..], encoder.serial)))
    {
      var buf := new Byte[SCRATCH_SIZE];
      ghost var serial, before := encoder.serial, wire;
      FrameLength(msgs[k].(serial := serial));
      SendStep(msgs[k..], serial);
      assert msgs[k..][0] == msgs[k] && msgs[k..][1..] == msgs[k + 1..];
      var n := encoder.Encode(buf, msgs[k]);
      wire := wire + buf[..n];
      Regroup(before, Frame(msgs[k].(serial := serial)), Flatten(Frames(Numbered(msgs[k + 1..], encoder.serial))));
    }
    SendStep(msgs[|msgs|..], encoder.serial);
    assert wire + [] == wire;
  }

  lemma SendStep(msgs: seq<Msg>, serial: Word16)
    requires Sendable(msgs)
    ensures msgs == [] ==> Flatten(Frames(Numbered(msgs, serial))) == []
    ensures msgs != [] ==> (
              && Sendable(msgs[1..])
              && Flatten(Frames(Numbered(msgs, serial)))
              == Frame(msgs[0].(serial := serial)) + Flatten(Frames(Numbered(msgs[1..], serial + 1))))
  {
    hide Frame;
    if msgs != [] {
      var sent := Numbered(msgs, serial);
      assert sent[1..] == Numbered(msgs[1..], serial + 1);
      FramesCons(sent);
    }
  }

  /** Hands the receiver one datagram after the other. */
  method ReceiveAll(receiver: CmdDealClass, chunks: seq<seq<Byte>>)
    modifies receiver
    ensures receiver.cmdRecvArray == Run(old(receiver.cmdRecvArray), chunks).rest
    ensures receiver.handled == old(receiver.handled) + Handled(Run(old(receiver.cmdRecvArray), chunks).frames)
  {
    hide Cut, Handled;
    ghost var run := Run(receiver.cmdRecvArray, chunks);
    ghost var done: seq<seq<Byte>> := [];
    assert chunks[0..] == chunks && [] + run.frames == run.frames;
    HandledNone(receiver.handled);
    for k := 0 to |chunks|
      invariant run == Pieces(done + Run(receiver.cmdRecvArray, chunks[k..]).frames,
                              Run(receiver.cmdRecvArray, chunks[k..]).rest)
      invariant receiver.handled == old(receiver.handled) + Handled(done)
    {
      assert chunks[k..][0] == chunks[k] && chunks[k..][1..] == chunks[k + 1..];
      ghost var first := Receive(receiver.cmdRecvArray, chunks[k]);
      receiver.UdpRecvMsgDeal(chunks[k]);
      HandledConcat(done, first.frames);
      Regroup(old(receiver.handled), Handled(done), Handled(first.frames));
      Regroup(done, first.frames, Run(first.rest, chunks[k + 1..]).frames);
      done := done + first.frames;
    }
    assert done + [] == done;
  }

  lemma HandledNone(before: seq<Msg>)
    ensures before + Handled([]) == before
  {
  }

  /** Whatever the datagrams, the receiver dispatches the messages sent: unchanged, in order, numbered
      consecutively from the sender's serial on, and its buffer is empty afterwards. */
  method Transmit(encoder: Encoder, receiver: CmdDealClass, msgs: seq<Msg>, sizes: seq<nat>)
    requires Sendable(msgs) && receiver.cmdRecvArray == []
    modifies encoder, receiver
    ensures receiver.handled == old(receiver.handled) + Numbered(msgs, old(encoder.serial))
    ensures receiver.cmdRecvArray == []
  {
    hide Run, Handled, Frames, Flatten, Numbered;
    ghost var serial := encoder.serial;
    var wire := SendAll(encoder, msgs);
    var chunks := Datagrams(wire, sizes);
    EndToEnd(msgs, serial, chunks);
    ReceiveAll(receiver, chunks);
  }
}
