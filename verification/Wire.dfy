/**
 The bytes on the gateway link, position by position: what the encoder puts where, which contents the decoder
 accepts as which message, how sent messages are numbered, and one frame written out.
 */
module Wire {
  import opened Options
  import opened Jt808
  import opened CmdDeal

  // ---------------------------------------------------------------- what is sent

  /** The sixteen-bit number stands at position `k`, its low byte first. */
  predicate LowFirst(p: seq<Byte>, k: nat, n: Word16) {
    k + 2 <= |p| && p[k] == (n & 0xFF) as Byte && p[k + 1] == (n >> 8) as Byte
  }

  /** Id, body length and serial, one package of one, the body, and a byte that makes the XOR of all of them
      zero. */
  lemma ContentLayout(msg: Msg)
    ensures var c := Content(msg);
            && |c| == 11 + |msg.body|
            && LowFirst(c, 0, msg.id) && LowFirst(c, 2, msg.bodyLen) && LowFirst(c, 4, msg.serial)
            && LowFirst(c, 6, 1) && LowFirst(c, 8, 1)
            && c[10..10 + |msg.body|] == msg.body && Xor(c) == 0
  {
    var c := Content(msg);
    XorZero(c);
    assert c[..|c| - 1] == HeadAndBody(msg);
  }

  /** Content that passes the check has XOR zero, and the other way round. */
  lemma XorZero(p: seq<Byte>)
    ensures |p| > 0 ==> (Xor(p) == 0 <==> ChecksumOk(p))
  {
    if |p| > 0 { XorEqual(Xor(p[..|p| - 1]), p[|p| - 1]); }
  }

  /** All but the serials agree. */
  predicate SameBut(sent: Msg, msg: Msg) {
    sent.id == msg.id && sent.bodyLen == msg.bodyLen && sent.body == msg.body
  }

  /** Message `k` goes out unchanged, with the number behind that of the message before it. */
  predicate Follows(sent: seq<Msg>, msgs: seq<Msg>, k: nat)
    requires k < |msgs| == |sent|
  {
    SameBut(sent[k], msgs[k]) && (k > 0 ==> sent[k].serial == sent[k - 1].serial + 1)
  }

  /** Messages are numbered one after the other from the first serial, 65535 being followed by 0, and are
      otherwise unchanged. */
  lemma NumberedAt(msgs: seq<Msg>, serial: Word16)
    ensures var sent := Numbered(msgs, serial);
            && |sent| == |msgs| && (msgs != [] ==> sent[0].serial == serial)
            && forall k :: 0 <= k < |msgs| ==> Follows(sent, msgs, k)
  {
    hide Numbered, Follows;
    NumberedStart(msgs, serial);
    forall k | 0 <= k < |msgs|
      ensures Follows(Numbered(msgs, serial), msgs, k)
    {
      NumberedOne(msgs, serial, k);
    }
  }

  lemma {:induction false} NumberedStart(msgs: seq<Msg>, serial: Word16)
    ensures |Numbered(msgs, serial)| == |msgs| && (msgs != [] ==> Numbered(msgs, serial)[0].serial == serial)
    decreases |msgs|
  {
    if msgs != [] { NumberedStart(msgs[1..], serial + 1); }
  }

  lemma {:induction false} NumberedOne(msgs: seq<Msg>, serial: Word16, k: nat)
    requires k < |msgs| == |Numbered(msgs, serial)|
    ensures Follows(Numbered(msgs, serial), msgs, k)
    decreases k
  {
    NumberedCons(msgs, serial);
    hide Numbered, Follows, SameBut;
    var first, later := msgs[0].(serial := serial), Numbered(msgs[1..], serial + 1);
    if k == 0 {
      FollowsFirst(first, later, msgs);
    } else {
      NumberedStart(msgs[1..], serial + 1);
      NumberedOne(msgs[1..], serial + 1, k - 1);
      FollowsNext(first, later, msgs, k);
    }
  }

  lemma NumberedCons(msgs: seq<Msg>, serial: Word16)
    requires msgs != []
    ensures Numbered(msgs, serial) == [msgs[0].(serial := serial)] + Numbered(msgs[1..], serial + 1)
    ensures SameBut(msgs[0].(serial := serial), msgs[0])
  {
  }

  lemma FollowsFirst(first: Msg, later: seq<Msg>, msgs: seq<Msg>)
    requires |later| + 1 == |msgs| && SameBut(first, msgs[0])
    ensures Follows([first] + later, msgs, 0)
  {
    hide SameBut;
  }

  lemma FollowsNext(first: Msg, later: seq<Msg>, msgs: seq<Msg>, k: nat)
    requires |later| + 1 == |msgs| && 0 < k < |msgs| && later[0].serial == first.serial + 1
    requires Follows(later, msgs[1..], k - 1)
    ensures Follows([first] + later, msgs, k)
  {
    hide SameBut;
    var sent := [first] + later;
    assert sent[k] == later[k - 1] && msgs[k] == msgs[1..][k - 1];
    assert sent[k - 1] == if k == 1 then first else later[k - 2];
  }

  // ---------------------------------------------------------------- what is accepted

  /** Content is accepted as `msg` exactly when its XOR is zero, it has room for the body between header and
      check byte, and id, length, serial and body stand in their places. */
  lemma ParseExactly(p: seq<Byte>, msg: Msg)
    ensures Parse(p) == Some(msg) <==>
              && msg.Valid() && |p| >= 11 + |msg.body| && Xor(p) == 0
              && LowFirst(p, 0, msg.id) && LowFirst(p, 2, msg.bodyLen) && LowFirst(p, 4, msg.serial)
              && p[10..10 + |msg.body|] == msg.body
  {
    hide Unsigned, Xor, Word, LowFirst, ChecksumOk;
    XorZero(p);
    if |p| >= 11 {
      WordIs(p, 0, msg.id);
      WordIs(p, 2, msg.bodyLen);
      WordIs(p, 4, msg.serial);
    }
  }

  lemma WordIs(p: seq<Byte>, k: nat, n: Word16)
    requires k + 2 <= |p|
    ensures Word(p[k], p[k + 1]) == n <==> LowFirst(p, k, n)
  {
    BytesOfWord(p[k], p[k + 1]);
    LittleEndianRoundTrip(n);
  }

  lemma BytesOfWord(lo: Byte, hi: Byte)
    ensures (Word(lo, hi) & 0xFF) as Byte == lo && (Word(lo, hi) >> 8) as Byte == hi
  {
  }

  /** A flag byte followed by anything but 1 and 2 makes the frame unacceptable, wherever it stands. */
  lemma {:induction false} BadFlagRejected(p: seq<Byte>, x: Byte, rest: seq<Byte>)
    requires x != 1 && x != 2 && rest != []
    ensures Unstuff(Stuff(p) + [0x0D, x] + rest) == None
  {
    var w := [0x0D, x] + rest;
    Regroup(Stuff(p), [0x0D, x], rest);
    if p == [] {
      assert Stuff(p) + w == w;
    } else {
      BadFlagRejected(p[1..], x, rest);
      StuffHead(p);
      Regroup(Stuff(p[1..]), [0x0D, x], rest);
      Regroup(StuffByte(p[0]), Stuff(p[1..]), w);
      UnstuffByte(p[0], Stuff(p[1..]) + w);
    }
  }

  // ---------------------------------------------------------------- one frame

  lemma XorSnoc(s: seq<Byte>, b: Byte)
    ensures Xor(s + [b]) == Xor(s) ^ b
  {
    assert (s + [b])[..|s|] == s;
  }

  const KNOWN: Msg := Msg(0x0102, 0x0304, 2, [0x0D, 0x0A])
  const KNOWN_HEAD: seq<Byte> := [0x02, 0x01, 0x02, 0x00, 0x04, 0x03, 0x01, 0x00, 0x01, 0x00]

  /** Message 0x0102 with serial 0x0304 and the two bytes 0x0D 0x0A as its body. */
  lemma KnownFrame()
    ensures Frame(Msg(0x0102, 0x0304, 2, [0x0D, 0x0A]))
         == [0x02, 0x01, 0x02, 0x00, 0x04, 0x03, 0x01, 0x00, 0x01, 0x00, 0x0D, 0x01, 0x0D, 0x02, 0x01, 0x0D, 0x0A]
  {
    KnownContent();
    KnownHead();
    assert StuffByte(0x0D) == [0x0D, 0x01] && StuffByte(0x0A) == [0x0D, 0x02] && StuffByte(0x01) == [0x01];
    hide Content, Stuff, StuffByte;
    StuffSnoc(KNOWN_HEAD, 0x0D);
    StuffSnoc(KNOWN_HEAD + [0x0D], 0x0A);
    StuffSnoc(KNOWN_HEAD + [0x0D] + [0x0A], 0x01);
    assert Frame(KNOWN) == KNOWN_HEAD + [0x0D, 0x01] + [0x0D, 0x02] + [0x01] + CRLF;
  }

  lemma KnownContent()
    ensures Content(KNOWN) == KNOWN_HEAD + [0x0D] + [0x0A] + [0x01]
  {
    assert Head(KNOWN) == KNOWN_HEAD;
    hide Head, Xor;
    KnownHead();
    XorSnoc(KNOWN_HEAD, 0x0D);
    XorSnoc(KNOWN_HEAD + [0x0D], 0x0A);
    assert HeadAndBody(KNOWN) == KNOWN_HEAD + [0x0D] + [0x0A];
  }

  /** The header has XOR 6 and is not changed by stuffing. */
  lemma KnownHead()
    ensures Xor(KNOWN_HEAD) == 0x06 && Stuff(KNOWN_HEAD) == KNOWN_HEAD
  {
    var a: seq<Byte>, b: seq<Byte> := [0x02, 0x01, 0x02, 0x00, 0x04], [0x03, 0x01, 0x00, 0x01, 0x00];
    XorFive(0x02, 0x01, 0x02, 0x00, 0x04);
    XorFive(0x03, 0x01, 0x00, 0x01, 0x00);
    XorConcat(a, b);
    assert a + b == KNOWN_HEAD;
    StuffPlain(a + b);
  }

  /** Bytes other than 0x0D and 0x0A go out as they are. */
  lemma {:induction false} StuffPlain(p: seq<Byte>)
    requires 0x0D !in p && 0x0A !in p
    ensures Stuff(p) == p
  {
    if p != [] {
      var n := |p| - 1;
      StuffPlain(p[..n]);
      assert p[n] in p && p == p[..n] + [p[n]];
    }
  }

  lemma XorFive(a: Byte, b: Byte, c: Byte, d: Byte, e: Byte)
    ensures Xor([a, b, c, d, e]) == a ^ b ^ c ^ d ^ e
  {
    hide Xor;
    Nothing();
    XorSnoc([], a);
    XorSnoc([a], b);
    XorSnoc([a, b], c);
    XorSnoc([a, b, c], d);
    XorSnoc([a, b, c, d], e);
    ZeroXor(a);
    assert [] + [a] == [a] && [a] + [b] == [a, b] && [a, b] + [c] == [a, b, c];
    assert [a, b, c] + [d] == [a, b, c, d] && [a, b, c, d] + [e] == [a, b, c, d, e];
  }

  lemma Nothing()
    ensures Xor([]) == 0
  {
  }

  lemma ZeroXor(a: Byte)
    ensures 0 ^ a == a
  {
  }

  lemma {:induction false} XorConcat(p: seq<Byte>, q: seq<Byte>)
    ensures Xor(p + q) == Xor(p) ^ Xor(q)
  {
    if q == [] {
      assert p + q == p;
    } else {
      var n := |q| - 1;
      assert (p + q)[..|p| + n] == p + q[..n];
      XorConcat(p, q[..n]);
      XorAssociates(Xor(p), Xor(q[..n]), q[n]);
    }
  }

  lemma XorAssociates(a: Byte, b: Byte, c: Byte)
    ensures (a ^ b) ^ c == a ^ (b ^ c)
  {
  }
}
