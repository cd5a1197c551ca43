/**
 The gateway link codec (hmi/HmiFunction/jt808.cpp).

 A frame is the stuffed content followed by 0x0D 0x0A.  The content is a ten-byte
 little-endian header, the body and one XOR check byte.  Stuffing replaces 0x0D by
 0x0D 0x01 and 0x0A by 0x0D 0x02, so the terminator occurs only at the end.
 */
module Jt808 {
  import opened Options

  type Byte = bv8
  type Word16 = bv16

  const REVERSE_BYTE1: Byte := 0x0D
  const REVERSE_BYTE2: Byte := 0x0A
  const CRLF: seq<Byte> := [REVERSE_BYTE1, REVERSE_BYTE2]
  const HEAD_LEN := 10
  const SCRATCH_SIZE := 512
  const MAX_BODY := 244

  /** `body` is the used part of the source's 1024-byte body buffer. */
  datatype Msg = Msg(id: Word16, serial: Word16, bodyLen: Word16, body: seq<Byte>) {
    predicate Valid() {
      |body| == Unsigned(bodyLen)
    }
  }

  /** The number a 16-bit word stands for, bit by bit. */
  function Unsigned(n: Word16): nat {
    if n == 0 then 0 else (if n & 1 == 1 then 1 else 0) + 2 * Unsigned(n >> 1)
  }

  // ---------------------------------------------------------------- specification

  function StuffByte(b: Byte): seq<Byte> {
    if b == REVERSE_BYTE1 then [REVERSE_BYTE1, 1]
    else if b == REVERSE_BYTE2 then [REVERSE_BYTE1, 2]
    else [b]
  }

  function Stuff(p: seq<Byte>): seq<Byte> {
    if p == [] then [] else Stuff(p[..|p| - 1]) + StuffByte(p[|p| - 1])
  }

  /** The content of a wire frame `w`, whose last two bytes are the terminator and are only looked at
      as the byte after a flag byte. */
  function Unstuff(w: seq<Byte>): Option<seq<Byte>> {
    if |w| <= 2 then Some([])
    else if w[0] == REVERSE_BYTE1 then
      if w[1] == 1 then Prepend(REVERSE_BYTE1, Unstuff(w[2..]))
      else if w[1] == 2 then Prepend(REVERSE_BYTE2, Unstuff(w[2..]))
      else None
    else Prepend(w[0], Unstuff(w[1..]))
  }

  function Prepend(b: Byte, rest: Option<seq<Byte>>): Option<seq<Byte>> {
    match rest
    case None => None
    case Some(p) => Some([b] + p)
  }

  function Xor(s: seq<Byte>): Byte {
    if s == [] then 0 else Xor(s[..|s| - 1]) ^ s[|s| - 1]
  }

  function Lo(n: Word16): Byte {
    (n & 0xFF) as Byte
  }

  function Hi(n: Word16): Byte {
    (n >> 8) as Byte
  }

  function Word(lo: Byte, hi: Byte): Word16 {
    lo as Word16 | (hi as Word16 << 8)
  }

  /** Header and body, in wire order: id, body length, serial, package total 1, package number 1. */
  function Head(msg: Msg): seq<Byte> {
    [Lo(msg.id), Hi(msg.id), Lo(msg.bodyLen), Hi(msg.bodyLen), Lo(msg.serial), Hi(msg.serial), 1, 0, 1, 0]
  }

  function HeadAndBody(msg: Msg): seq<Byte> {
    Head(msg) + msg.body
  }

  function Content(msg: Msg): seq<Byte> {
    HeadAndBody(msg) + [Xor(HeadAndBody(msg))]
  }

  function Frame(msg: Msg): seq<Byte> {
    Stuff(Content(msg)) + CRLF
  }

  predicate ChecksumOk(p: seq<Byte>) {
    |p| > 0 && Xor(p[..|p| - 1]) == p[|p| - 1]
  }

  /** The message held by unstuffed content: the check byte is last, and the body may be shorter than
      the room between header and check byte, never longer. */
  function Parse(p: seq<Byte>): Option<Msg> {
    if !ChecksumOk(p) || |p| < HEAD_LEN + 1 then None
    else
      var bodyLen := Word(p[2], p[3]);
      var end := HEAD_LEN + Unsigned(bodyLen);
      if end > |p| - 1 then None
      else Some(Msg(Word(p[0], p[1]), Word(p[4], p[5]), bodyLen, p[HEAD_LEN..end]))
  }

  function DecodeFrame(w: seq<Byte>): Option<Msg> {
    match Unstuff(w)
    case None => None
    case Some(p) => Parse(p)
  }

  // ---------------------------------------------------------------- the code

  method Sum(buf: array<Byte>, len: nat) returns (sum: Byte)
    requires len <= buf.Length
    ensures sum == Xor(buf[..len])
  {
    sum := 0;
    for i := 0 to len
      invariant sum == Xor(buf[..i])
    {
      assert buf[..i + 1][..i] == buf[..i];
      sum := sum ^ buf[i];
    }
  }

  /** Unstuffs the frame `buf[..len]` in place; -1 on a flag byte followed by anything but 1 or 2. */
  method ReverseRecv(buf: array<Byte>, len: nat) returns (j: int)
    requires 2 <= len <= buf.Length
    modifies buf
    ensures match Unstuff(old(buf[..len]))
            case None => j == -1
            case Some(p) => j == |p| + 2 <= len && buf[..j] == p + CRLF
    ensures forall k :: len <= k < buf.Length ==> buf[k] == old(buf[k])
  {
    hide Unstuff, Prepend, Join;
    ghost var wire := buf[..len];
    var i := 0;
    j := 0;
    assert wire[0..] == wire && buf[..0] == [];
    JoinEmpty(Unstuff(wire));
    while i < len - 2
      invariant 0 <= j <= i < len && j <= len - 2
      invariant forall k :: i <= k < buf.Length ==> buf[k] == old(buf[k])
      invariant Unstuff(wire) == Join(buf[..j], Unstuff(wire[i..]))
    {
      ghost var done := buf[..j];
      assert wire[i] == buf[i] && wire[i + 1] == buf[i + 1];
      UnstuffAt(wire, i);
      if buf[i] == REVERSE_BYTE1 {
        if buf[i + 1] == 0x01 {
          buf[j] := REVERSE_BYTE1;
        } else if buf[i + 1] == 0x02 {
          buf[j] := REVERSE_BYTE2;
        } else {
          JoinNone(done);
          return -1;
        }
        i := i + 1;
      } else {
        buf[j] := buf[i];
      }
      i := i + 1;
      JoinPrepend(done, buf[j], Unstuff(wire[i..]));
      assert buf[..j + 1] == done + [buf[j]];
      j := j + 1;
    }
    UnstuffEnd(wire, i);
    ghost var p := buf[..j];
    JoinEnd(p);
    buf[j] := 0x0D;
    buf[j + 1] := 0x0A;
    j := j + 2;
    assert buf[..j] == p + CRLF;
  }

  /** Unstuffing one byte, or one flag pair, at position `i`. */
  lemma UnstuffAt(w: seq<Byte>, i: nat)
    requires i + 2 < |w|
    ensures Unstuff(w[i..]) ==
            if w[i] != REVERSE_BYTE1 then Prepend(w[i], Unstuff(w[i + 1..]))
            else if w[i + 1] == 1 then Prepend(REVERSE_BYTE1, Unstuff(w[i + 2..]))
            else if w[i + 1] == 2 then Prepend(REVERSE_BYTE2, Unstuff(w[i + 2..]))
            else None
  {
    assert w[i..][1..] == w[i + 1..] && w[i..][2..] == w[i + 2..];
  }

  lemma UnstuffEnd(w: seq<Byte>, i: nat)
    requires |w| - 2 <= i <= |w|
    ensures Unstuff(w[i..]) == Some([])
  {
  }

  ghost function Join(done: seq<Byte>, rest: Option<seq<Byte>>): Option<seq<Byte>> {
    match rest
    case None => None
    case Some(p) => Some(done + p)
  }

  lemma JoinEmpty(rest: Option<seq<Byte>>)
    ensures Join([], rest) == rest
  {
    if rest.Some? {
      assert [] + rest.value == rest.value;
    }
  }

  lemma JoinNone(done: seq<Byte>)
    ensures Join(done, None) == None
  {
  }

  lemma JoinEnd(done: seq<Byte>)
    ensures Join(done, Some([])) == Some(done)
  {
    assert done + [] == done;
  }

  lemma JoinPrepend(done: seq<Byte>, b: Byte, rest: Option<seq<Byte>>)
    ensures Join(done, Prepend(b, rest)) == Join(done + [b], rest)
  {
    if rest.Some? {
      assert done + ([b] + rest.value) == done + [b] + rest.value;
    }
  }

  /** Stuffs `buf[..len - 2]` through a 512-byte scratch buffer and terminates it. */
  method ReverseSend(buf: array<Byte>, len: nat) returns (j: nat)
    requires 2 <= len <= buf.Length
    requires |Stuff(buf[..len - 2])| + 2 <= SCRATCH_SIZE && |Stuff(buf[..len - 2])| + 2 <= buf.Length
    modifies buf
    ensures j == |Stuff(old(buf[..len - 2]))| + 2
    ensures buf[..j] == Stuff(old(buf[..len - 2])) + CRLF
    ensures forall k :: j <= k < buf.Length ==> buf[k] == old(buf[k])
  {
    var buf1 := new Byte[SCRATCH_SIZE];
    ghost var p := buf[..len - 2];
    j := 0;
    for i := 0 to len - 2
      invariant buf[..] == old(buf[..])
      invariant j == |Stuff(p[..i])| && j + 2 <= SCRATCH_SIZE
      invariant buf1[..j] == Stuff(p[..i])
    {
      StuffStep(p, i);
      assert buf[i] == p[i];
      j := PutStuffed(buf1, j, buf[i]);
    }
    assert p[..len - 2] == p;
    buf1[j] := 0x0D;
    buf1[j + 1] := 0x0A;
    j := j + 2;
    assert buf1[..j] == Stuff(p) + CRLF;
    CopyInto(buf, buf1, j);
  }

  /** One turn of the stuffing loop: the one or two bytes that stand for `b`. */
  method PutStuffed(buf1: array<Byte>, at: nat, b: Byte) returns (j: nat)
    requires at + |StuffByte(b)| <= buf1.Length
    modifies buf1
    ensures j == at + |StuffByte(b)|
    ensures buf1[..j] == old(buf1[..at]) + StuffByte(b)
  {
    j := at;
    if b == REVERSE_BYTE1 {
      buf1[j] := REVERSE_BYTE1;
      buf1[j + 1] := 0x01;
      j := j + 2;
    } else if b == REVERSE_BYTE2 {
      buf1[j] := REVERSE_BYTE1;
      buf1[j + 1] := 0x02;
      j := j + 2;
    } else {
      buf1[j] := b;
      j := j + 1;
    }
  }

  /** The copy back from the scratch buffer. */
  method CopyInto(buf: array<Byte>, buf1: array<Byte>, j: nat)
    requires j <= buf.Length && j <= buf1.Length && buf != buf1
    modifies buf
    ensures buf[..j] == buf1[..j]
    ensures forall k :: j <= k < buf.Length ==> buf[k] == old(buf[k])
  {
    for i := 0 to j
      invariant buf[..i] == buf1[..i]
      invariant forall k :: i <= k < buf.Length ==> buf[k] == old(buf[k])
    {
      buf[i] := buf1[i];
    }
  }

  /** Decodes the frame `buf[..len]` (destroying it); `None` is the source's -1.  The framer passes only
      frames longer than six bytes, which keeps every header read inside the frame. */
  method Decode(buf: array<Byte>, len: nat) returns (r: Option<Msg>)
    requires 6 < len <= buf.Length
    modifies buf
    ensures r == DecodeFrame(old(buf[..len]))
  {
    UnstuffLength(buf[..len]);
    var ret := ReverseRecv(buf, len);
    if ret < 0 {
      return None;
    }
    ghost var p := Unstuff(old(buf[..len])).value;
    assert buf[..ret - 2] == p by { assert buf[..ret][..ret - 2] == p; }
    r := ReadContent(buf, ret);
  }

  /** The part of decoding that follows unstuffing: check byte, header, body. */
  method ReadContent(buf: array<Byte>, ret: nat) returns (r: Option<Msg>)
    requires 3 <= ret <= buf.Length && 6 <= buf.Length
    ensures r == Parse(buf[..ret - 2])
  {
    ghost var p := buf[..ret - 2];
    var s := Sum(buf, ret - 3);
    assert buf[..ret - 3] == p[..|p| - 1];
    assert forall k :: 0 <= k < |p| ==> p[k] == buf[k];
    if s != buf[ret - 3] {
      return None;
    }
    var id := Word(buf[0], buf[1]);
    var bodyLen := Word(buf[2], buf[3]);
    var serial := Word(buf[4], buf[5]);
    var len := Unsigned(bodyLen);
    if len > ret - 10 - 3 {
      return None;
    }
    assert buf[10..10 + len] == p[10..10 + len];
    r := Some(Msg(id, serial, bodyLen, buf[10..10 + len]));
  }

  /** Holds the serial counter, a static member of the source's class. */
  class Encoder {
    var serial: Word16

    constructor ()
      ensures serial == 0
    {
      serial := 0;
    }

    /** Builds the frame of a message in `buf`, giving it the next serial number; returns its length.  The
        frame has to fit the scratch buffer, as every frame with a body of at most 244 bytes does. */
    method Encode(buf: array<Byte>, msg: Msg) returns (n: nat)
      requires msg.Valid() && |Frame(msg.(serial := serial))| <= SCRATCH_SIZE <= buf.Length
      modifies this, buf
      ensures serial == old(serial) + 1
      ensures n == |Frame(msg.(serial := old(serial)))| && n <= SCRATCH_SIZE
      ensures buf[..n] == Frame(msg.(serial := old(serial)))
    {
      var sent := msg.(serial := serial);
      serial := serial + 1;
      StuffLength(Content(sent));
      var len := PutContent(buf, sent);
      n := ReverseSend(buf, len + 2);
    }
  }

  /** Header, body and check byte, and the terminator behind them; returns the content's length. */
  method PutContent(buf: array<Byte>, msg: Msg) returns (len: nat)
    requires msg.Valid() && HEAD_LEN + |msg.body| + 3 <= buf.Length
    modifies buf
    ensures len == |Content(msg)| && buf[..len] == Content(msg)
    ensures buf[len..len + 2] == CRLF
  {
    PutHead(buf, msg);
    len := HEAD_LEN + Unsigned(msg.bodyLen);
    PutBody(buf, msg.body);
    var check := Sum(buf, len);
    assert buf[..len] == HeadAndBody(msg);
    buf[len] := check;
    buf[len + 1] := 0x0D;
    buf[len + 2] := 0x0A;
    len := len + 1;
    assert buf[..len - 1] == HeadAndBody(msg);
  }

  /** The packed header structure, copied to the start of the buffer. */
  method PutHead(buf: array<Byte>, msg: Msg)
    requires HEAD_LEN <= buf.Length
    modifies buf
    ensures buf[..HEAD_LEN] == Head(msg)
  {
    buf[0], buf[1] := Lo(msg.id), Hi(msg.id);
    buf[2], buf[3] := Lo(msg.bodyLen), Hi(msg.bodyLen);
    buf[4], buf[5] := Lo(msg.serial), Hi(msg.serial);
    buf[6], buf[7] := 1, 0;
    buf[8], buf[9] := 1, 0;
  }

  /** The body, copied behind the header. */
  method PutBody(buf: array<Byte>, body: seq<Byte>)
    requires HEAD_LEN + |body| <= buf.Length
    modifies buf
    ensures buf[..HEAD_LEN + |body|] == old(buf[..HEAD_LEN]) + body
  {
    for k := 0 to |body|
      invariant buf[..HEAD_LEN + k] == old(buf[..HEAD_LEN]) + body[..k]
    {
      buf[HEAD_LEN + k] := body[k];
    }
  }

  // ---------------------------------------------------------------- properties of stuffing

  lemma {:induction false} StuffLength(p: seq<Byte>)
    ensures |p| <= |Stuff(p)| <= 2 * |p|
  {
    if p != [] { StuffLength(p[..|p| - 1]); }
  }

  lemma Regroup<T>(a: seq<T>, b: seq<T>, c: seq<T>)
    ensures a + b + c == a + (b + c)
  {
  }

  lemma StuffSnoc(p: seq<Byte>, b: Byte)
    ensures Stuff(p + [b]) == Stuff(p) + StuffByte(b)
  {
    assert (p + [b])[..|p|] == p;
  }

  lemma {:induction false} StuffConcat(p: seq<Byte>, q: seq<Byte>)
    ensures Stuff(p + q) == Stuff(p) + Stuff(q)
  {
    hide StuffByte;
    if q == [] {
      assert p + q == p;
    } else {
      var before, last := q[..|q| - 1], q[|q| - 1];
      StuffConcat(p, before);
      assert before + [last] == q;
      Regroup(p, before, [last]);
      StuffSnoc(p + before, last);
      Regroup(Stuff(p), Stuff(before), StuffByte(last));
    }
  }

  lemma StuffStep(p: seq<Byte>, n: nat)
    requires n < |p|
    ensures Stuff(p[..n + 1]) == Stuff(p[..n]) + StuffByte(p[n])
    ensures |Stuff(p[..n + 1])| <= |Stuff(p)|
  {
    assert p[..n + 1][..n] == p[..n];
    assert p[..n + 1] + p[n + 1..] == p;
    StuffConcat(p[..n + 1], p[n + 1..]);
  }

  lemma StuffHead(p: seq<Byte>)
    requires p != []
    ensures Stuff(p) == StuffByte(p[0]) + Stuff(p[1..])
  {
    assert [p[0]] + p[1..] == p;
    assert Stuff([p[0]]) == StuffByte(p[0]) by { assert [p[0]][..0] == []; }
    StuffConcat([p[0]], p[1..]);
  }

  /** A stuffed payload never holds the second terminator byte. */
  lemma {:induction false} StuffHasNoLineFeed(p: seq<Byte>)
    ensures REVERSE_BYTE2 !in Stuff(p)
  {
    if p != [] { StuffHasNoLineFeed(p[..|p| - 1]); }
  }

  /** Round trip: any payload survives stuffing, whatever two bytes follow it. */
  lemma {:induction false} UnstuffStuff(p: seq<Byte>, t: seq<Byte>)
    requires |t| == 2
    ensures Unstuff(Stuff(p) + t) == Some(p)
  {
    if p == [] {
      assert Stuff(p) + t == t;
    } else {
      StuffHead(p);
      UnstuffStuff(p[1..], t);
      Regroup(StuffByte(p[0]), Stuff(p[1..]), t);
      UnstuffByte(p[0], Stuff(p[1..]) + t);
      assert [p[0]] + p[1..] == p;
    }
  }

  lemma UnstuffByte(b: Byte, w: seq<Byte>)
    requires |w| >= 2
    ensures Unstuff(StuffByte(b) + w) == Prepend(b, Unstuff(w))
  {
    assert (StuffByte(b) + w)[|StuffByte(b)|..] == w;
  }

  /** Round trip the other way: an accepted frame is the stuffing of its content exactly when it
      carries no bare line feed before the terminator. */
  lemma {:induction false} StuffUnstuff(w: seq<Byte>)
    requires |w| >= 2 && w[|w| - 2..] == CRLF && Unstuff(w).Some?
    ensures Stuff(Unstuff(w).value) + CRLF == w <==> REVERSE_BYTE2 !in w[..|w| - 2]
  {
    var p := Unstuff(w).value;
    if Stuff(p) + CRLF == w {
      StuffHasNoLineFeed(p);
      assert w[..|w| - 2] == Stuff(p);
    }
    if REVERSE_BYTE2 !in w[..|w| - 2] {
      StuffUnstuffForward(w);
    }
  }

  /** A frame with a bare line feed is accepted, but is not what the encoder makes of its content. */
  lemma BareLineFeed()
    ensures Unstuff([REVERSE_BYTE2] + CRLF) == Some([REVERSE_BYTE2])
    ensures Stuff([REVERSE_BYTE2]) + CRLF == [REVERSE_BYTE1, 2] + CRLF
  {
    var w := [REVERSE_BYTE2] + CRLF;
    assert w[1..] == CRLF && Unstuff(CRLF) == Some([]);
    assert [REVERSE_BYTE2][..0] == [] && Stuff([]) == [];
    assert [REVERSE_BYTE2] + [] == [REVERSE_BYTE2];
  }

  lemma {:induction false} StuffUnstuffForward(w: seq<Byte>)
    requires |w| >= 2 && w[|w| - 2..] == CRLF && Unstuff(w).Some?
    requires REVERSE_BYTE2 !in w[..|w| - 2]
    ensures Stuff(Unstuff(w).value) + CRLF == w
  {
    if |w| > 2 {
      hide Unstuff, Stuff;
      var k := if w[0] == REVERSE_BYTE1 then 2 else 1;
      var v := w[k..];
      assert w[|w| - 2] == w[|w| - 2..][0];
      assert w[0] == w[..|w| - 2][0];
      assert v[|v| - 2..] == w[|w| - 2..];
      UnstuffHead(w, k);
      NotInSuffix(w[..|w| - 2], v[..|v| - 2], k);
      StuffUnstuffForward(v);
      var p, q := Unstuff(w).value, Unstuff(v).value;
      StuffHead(p);
      assert p[1..] == q;
      Regroup(w[..k], Stuff(q), CRLF);
    }
  }

  lemma UnstuffHead(w: seq<Byte>, k: nat)
    requires |w| > 2 && Unstuff(w).Some? && w[0] != REVERSE_BYTE2
    requires k == if w[0] == REVERSE_BYTE1 then 2 else 1
    ensures Unstuff(w[k..]).Some?
    ensures Unstuff(w).value == [Unstuff(w).value[0]] + Unstuff(w[k..]).value
    ensures StuffByte(Unstuff(w).value[0]) == w[..k]
  {
  }

  lemma NotInSuffix(s: seq<Byte>, t: seq<Byte>, k: nat)
    requires REVERSE_BYTE2 !in s && k <= |s| && t == s[k..]
    ensures REVERSE_BYTE2 !in t
  {
  }

  lemma {:induction false} UnstuffLength(w: seq<Byte>)
    requires |w| >= 2
    ensures Unstuff(w).Some? ==> |w| - 3 <= 2 * |Unstuff(w).value| && |Unstuff(w).value| <= |w| - 2
  {
    if |w| > 2 && Unstuff(w).Some? {
      if w[0] == REVERSE_BYTE1 {
        if |w| > 3 { UnstuffLength(w[2..]); }
      } else {
        UnstuffLength(w[1..]);
      }
    }
  }

  /** A decoded message is consistent, and its body is at least thirteen bytes shorter than the frame: the
      decoder's body buffer of 1024 bytes is enough for every frame of at most 1037. */
  lemma DecodedBody(w: seq<Byte>)
    requires |w| >= 2 && DecodeFrame(w).Some?
    ensures DecodeFrame(w).value.Valid() && |DecodeFrame(w).value.body| + HEAD_LEN + 3 <= |w|
  {
    UnstuffLength(w);
    hide Unstuff;
  }

  // ---------------------------------------------------------------- encode, then decode

  function Power2(k: nat): nat {
    if k == 0 then 1 else 2 * Power2(k - 1)
  }

  /** The `k` low bits of the word are ones. */
  predicate Ones(k: nat, w: Word16) {
    k == 0 || (w & 1 == 1 && Ones(k - 1, w >> 1))
  }

  /** Every number below 65536 is that of some word. */
  lemma WordFor(n: nat) returns (w: Word16)
    requires n < 0x1_0000
    ensures Unsigned(w) == n
  {
    AllOnes();
    w := WordBelow(n, 16, 0xFFFF);
  }

  lemma {:induction false} WordBelow(n: nat, k: nat, max: Word16) returns (w: Word16)
    requires n < Power2(k) && Ones(k, max)
    ensures Unsigned(w) == n && AtMost(w, max)
  {
    hide Unsigned, Ones, AtMost;
    if k == 0 {
      w := 0;
      ZeroWord(max);
    } else {
      var rest := OnesHalf(k, max);
      var half := WordBelow(n / 2, k - 1, rest);
      if n % 2 == 1 {
        w := OddWord(half, rest, max);
      } else {
        w := EvenWord(half, rest, max);
      }
    }
  }

  predicate AtMost(w: Word16, max: Word16) {
    w <= max
  }

  /** `max` is `rest` with a one behind it. */
  predicate Extends(rest: Word16, max: Word16) {
    rest == max >> 1 && max & 1 == 1
  }

  lemma ZeroWord(max: Word16)
    ensures Unsigned(0) == 0 && AtMost(0, max)
  {
  }

  lemma OnesHalf(k: nat, max: Word16) returns (rest: Word16)
    requires k > 0 && Ones(k, max)
    ensures Extends(rest, max) && Ones(k - 1, rest)
  {
    rest := max >> 1;
  }

  lemma HalfSmall(half: Word16, rest: Word16, max: Word16)
    requires AtMost(half, rest) && Extends(rest, max)
    ensures half <= 0x7FFF
  {
  }

  lemma EvenWord(half: Word16, rest: Word16, max: Word16) returns (w: Word16)
    requires AtMost(half, rest) && Extends(rest, max)
    ensures AtMost(w, max) && Unsigned(w) == 2 * Unsigned(half)
  {
    hide AtMost, Extends;
    w := half << 1;
    HalfSmall(half, rest, max);
    EvenBits(half);
    EvenBelow(half, rest, max);
  }

  lemma OddWord(half: Word16, rest: Word16, max: Word16) returns (w: Word16)
    requires AtMost(half, rest) && Extends(rest, max)
    ensures AtMost(w, max) && Unsigned(w) == 2 * Unsigned(half) + 1
  {
    hide AtMost, Extends;
    w := (half << 1) | 1;
    HalfSmall(half, rest, max);
    OddBits(half);
    OddBelow(half, rest, max);
  }

  lemma EvenBits(half: Word16)
    requires half <= 0x7FFF
    ensures (half << 1) >> 1 == half && (half << 1) & 1 == 0 && (half << 1 == 0 ==> half == 0)
  {
  }

  lemma OddBits(half: Word16)
    requires half <= 0x7FFF
    ensures ((half << 1) | 1) >> 1 == half && ((half << 1) | 1) & 1 == 1 && (half << 1) | 1 != 0
  {
  }

  lemma EvenBelow(half: Word16, rest: Word16, max: Word16)
    requires AtMost(half, rest) && Extends(rest, max)
    ensures AtMost(half << 1, max)
  {
  }

  lemma OddBelow(half: Word16, rest: Word16, max: Word16)
    requires AtMost(half, rest) && Extends(rest, max)
    ensures AtMost((half << 1) | 1, max)
  {
    OddIs(rest, max);
    OddMonotone(half, rest);
  }

  lemma OddIs(rest: Word16, max: Word16)
    requires Extends(rest, max)
    ensures max == rest * 2 + 1 && rest <= 0x7FFF
  {
  }

  lemma OddMonotone(half: Word16, rest: Word16)
    requires half <= rest <= 0x7FFF
    ensures (half << 1) | 1 <= rest * 2 + 1
  {
    assert (half << 1) | 1 == half * 2 + 1;
    assert half * 2 <= rest * 2;
  }

  lemma AllOnes()
    ensures Ones(16, 0xFFFF) && Power2(16) == 0x1_0000
  {
    assert Ones(4, 0xF) by { assert Ones(1, 1) && Ones(2, 3) && Ones(3, 7); }
    assert Ones(8, 0xFF) by { assert Ones(5, 0x1F) && Ones(6, 0x3F) && Ones(7, 0x7F); }
    assert Ones(12, 0xFFF) by { assert Ones(9, 0x1FF) && Ones(10, 0x3FF) && Ones(11, 0x7FF); }
    assert Ones(13, 0x1FFF) && Ones(14, 0x3FFF) && Ones(15, 0x7FFF);
    assert Power2(4) == 16 && Power2(8) == 256 && Power2(12) == 4096;
  }

  lemma LittleEndianRoundTrip(n: Word16)
    ensures Word(Lo(n), Hi(n)) == n
  {
  }

  lemma ParseContent(msg: Msg)
    requires msg.Valid()
    ensures Parse(Content(msg)) == Some(msg)
  {
    var p, head := Content(msg), Head(msg);
    assert p[..|p| - 1] == HeadAndBody(msg);
    HeadBytes(msg);
    LittleEndianRoundTrip(msg.id);
    LittleEndianRoundTrip(msg.bodyLen);
    LittleEndianRoundTrip(msg.serial);
  }

  lemma HeadBytes(msg: Msg)
    ensures forall k :: 0 <= k < HEAD_LEN ==> Content(msg)[k] == Head(msg)[k]
    ensures Content(msg)[HEAD_LEN..HEAD_LEN + |msg.body|] == msg.body
  {
  }

  /** Every message is recovered from its frame: id, serial and body. */
  lemma DecodeEncode(msg: Msg)
    requires msg.Valid()
    ensures DecodeFrame(Frame(msg)) == Some(msg)
  {
    UnstuffStuff(Content(msg), CRLF);
    ParseContent(msg);
  }

  /** The frame fits the 512-byte scratch buffer for every body of at most 244 bytes. */
  lemma FrameLength(msg: Msg)
    ensures HEAD_LEN + |msg.body| + 3 <= |Frame(msg)| <= 2 * (HEAD_LEN + 1 + |msg.body|) + 2
    ensures |msg.body| <= MAX_BODY ==> |Frame(msg)| <= SCRATCH_SIZE
  {
    StuffLength(Content(msg));
  }

  // ---------------------------------------------------------------- checksum

  function Differences(p: seq<Byte>, q: seq<Byte>): seq<Byte>
    requires |p| == |q|
  {
    seq(|p|, i requires 0 <= i < |p| => p[i] ^ q[i])
  }

  lemma {:induction false} XorDifferences(p: seq<Byte>, q: seq<Byte>)
    requires |p| == |q|
    ensures Xor(Differences(p, q)) == Xor(p) ^ Xor(q)
  {
    if p != [] {
      var n := |p| - 1;
      assert Differences(p, q)[..n] == Differences(p[..n], q[..n]);
      XorDifferences(p[..n], q[..n]);
      XorSwap(Xor(p[..n]), Xor(q[..n]), p[n], q[n]);
    }
  }

  lemma XorSwap(a: Byte, b: Byte, c: Byte, d: Byte)
    ensures (a ^ b) ^ (c ^ d) == (a ^ c) ^ (b ^ d)
  {
  }

  lemma XorEqual(a: Byte, b: Byte)
    ensures a ^ b == 0 <==> a == b
  {
  }

  /** A content of the same length passes the check exactly when its differences from an accepted one
      cancel out. */
  lemma ChecksumOfChange(p: seq<Byte>, q: seq<Byte>)
    requires ChecksumOk(p) && |q| == |p|
    ensures ChecksumOk(q) <==> Xor(Differences(p, q)) == 0
  {
    XorDifferences(p, q);
    var n := |p| - 1;
    XorEqual(Xor(p[..n]), p[n]);
    XorEqual(Xor(q[..n]), q[n]);
    XorEqual(Xor(p), Xor(q));
  }

  lemma {:induction false} XorOfSingle(s: seq<Byte>, k: nat)
    requires k < |s| && forall i :: 0 <= i < |s| && i != k ==> s[i] == 0
    ensures Xor(s) == s[k]
  {
    var n := |s| - 1;
    if k == n {
      XorOfZeros(s[..n]);
    } else {
      XorOfSingle(s[..n], k);
    }
  }

  lemma {:induction false} XorOfZeros(s: seq<Byte>)
    requires forall i :: 0 <= i < |s| ==> s[i] == 0
    ensures Xor(s) == 0
  {
    if s != [] { XorOfZeros(s[..|s| - 1]); }
  }

  /** Changing any one byte of an accepted frame's content, check byte included, and stuffing it again
      gives a frame that is rejected. */
  lemma SingleByteChangeRejected(w: seq<Byte>, k: nat, b: Byte)
    requires DecodeFrame(w).Some?
    requires k < |Unstuff(w).value| && b != Unstuff(w).value[k]
    ensures DecodeFrame(Stuff(Unstuff(w).value[k := b]) + CRLF) == None
  {
    var p := Unstuff(w).value;
    var q := p[k := b];
    forall i | 0 <= i < |p| && i != k
      ensures Differences(p, q)[i] == 0
    {
      XorEqual(p[i], q[i]);
    }
    XorOfSingle(Differences(p, q), k);
    XorEqual(p[k], b);
    ChecksumOfChange(p, q);
    UnstuffStuff(q, CRLF);
  }
}
