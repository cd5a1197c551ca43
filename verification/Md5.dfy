/**
 The streaming digest of hmi/HmiFunction/md5.cpp: a context with a 64-bit bit count in two 32-bit words
 and a partial-block buffer, and the two drivers that use it.  Unsigned 32-bit arithmetic on counts and
 lengths is written out modulo 2^32.
 */
module Md5 {
  import opened Options
  import opened Md5Spec
  import opened Md5Words
  import opened Md5Transform

  const M: nat := 0x1_0000_0000
  const READ_DATA_SIZE: nat := 1024

  // ---------------------------------------------------------------- the block loop's unsigned counter

  /** Where the block loop must stop: the first position with fewer than 64 bytes left. */
  function LastPosition(index: nat, inputlen: nat): nat
    requires index < BLOCK && BLOCK - index <= inputlen
  {
    (index + inputlen) / BLOCK * BLOCK - index
  }

  /** The loop's bound is computed in 32 bits; the sum must not wrap round at the last position. */
  predicate NoWrap(index: nat, inputlen: nat)
    requires index < BLOCK
  {
    BLOCK - index <= inputlen ==> LastPosition(index, inputlen) + BLOCK < M
  }

  /** The loop's test `i + 64 <= inputlen` fails at the last position exactly when the sum does not wrap
      there; otherwise the loop goes on past its input.  All lengths below 2^32 - 64 are safe. */
  lemma LoopStopsExactly(index: nat, inputlen: nat)
    requires index < BLOCK && BLOCK - index <= inputlen < M
    ensures NoWrap(index, inputlen) <==> !((LastPosition(index, inputlen) + BLOCK) % M <= inputlen)
    ensures inputlen - BLOCK < LastPosition(index, inputlen) <= inputlen
    ensures inputlen < M - BLOCK ==> NoWrap(index, inputlen)
  {
    var last := LastPosition(index, inputlen);
    if last + BLOCK >= M {
      assert (last + BLOCK) % M == last + BLOCK - M;
    }
  }

  /** The same condition on the arguments: the length has to be below 2^32 less the bytes in the buffer,
      or less a whole block when the buffer is empty. */
  lemma NoWrapExactly(index: nat, inputlen: nat)
    requires index < BLOCK && inputlen < M
    ensures NoWrap(index, inputlen) <==> inputlen < M - if index == 0 then BLOCK else index
  {
    if BLOCK - index <= inputlen {
      var q := (index + inputlen) / BLOCK;
      assert q * BLOCK <= index + inputlen < q * BLOCK + BLOCK;
      var all := M / BLOCK;
      assert M == all * BLOCK;
      if index == 0 {
        assert inputlen < M - BLOCK <==> q < all - 1;
      } else {
        assert index + inputlen < M <==> q < all;
      }
    }
  }

  /** The longest length is unsafe: with an empty buffer the test still holds at the last position. */
  lemma LongestLength()
    ensures !NoWrap(0, M - 1) && (LastPosition(0, M - 1) + BLOCK) % M <= M - 1
    ensures LastPosition(0, M - 1) + BLOCK > M - 1
  {
  }

  lemma SmallNoWrap(index: nat, inputlen: nat)
    requires index < BLOCK && inputlen < M - BLOCK
    ensures NoWrap(index, inputlen)
  {
    if BLOCK - index <= inputlen { LoopStopsExactly(index, inputlen); }
  }

  // ---------------------------------------------------------------- the bit count

  function CountLow(n: nat): nat { 8 * n % M }
  function CountHigh(n: nat): nat { 8 * n / M % M }

  /** Adding a length to the count: 32-bit addition, carry, and the bits shifted out of the low word. */
  lemma CountAdds(n: nat, len: nat)
    requires len < M
    ensures CountLow(n + len) == (CountLow(n) + len * 8 % M) % M
    ensures CountHigh(n + len)
         == ((if CountLow(n + len) < len * 8 % M then (CountHigh(n) + 1) % M else CountHigh(n))
             + len / 0x2000_0000) % M
  {
    SumOfQuotients(8 * n, 8 * len);
    var q, carry := 8 * n / M, if CountLow(n + len) < len * 8 % M then 1 else 0;
    assert 8 * (n + len) / M == q + len / 0x2000_0000 + carry;
    ModularSum(q, carry, len / 0x2000_0000);
  }

  lemma SumOfQuotients(x: nat, y: nat)
    ensures (x + y) % M == (x % M + y % M) % M
    ensures (x + y) / M == x / M + y / M + if (x + y) % M < y % M then 1 else 0
  {
    var r := x % M + y % M;
    assert x + y == M * (x / M + y / M) + r;
    if r < M {
      QuotientIs(x + y, x / M + y / M, r);
    } else {
      QuotientIs(x + y, x / M + y / M + 1, r - M);
    }
  }

  lemma QuotientIs(z: nat, q: nat, r: nat)
    requires z == M * q + r && r < M
    ensures z / M == q && z % M == r
  {
  }

  lemma ModularSum(q: nat, carry: nat, y: nat)
    requires carry <= 1
    ensures (q + y + carry) % M == ((if carry == 1 then (q % M + 1) % M else q % M) + y) % M
  {
    var k := q / M;
    assert q == M * k + q % M;
  }

  // ---------------------------------------------------------------- the context

  function Full(n: nat): nat {
    n / BLOCK * BLOCK
  }

  class MD5Context {
    var count0: nat
    var count1: nat
    const state: array<Word>
    const buffer: array<Byte>
    /** Every byte hashed so far. */
    ghost var consumed: seq<Byte>

    /** The count is the bit length; the state has absorbed the full blocks; the buffer holds the rest. */
    ghost predicate Valid()
      reads this, state, buffer
    {
      && state.Length == 4 && buffer.Length == BLOCK
      && Represents(count0, count1, state[..], buffer[..], consumed)
    }

    constructor MD5Init()
      ensures Valid() && consumed == [] && fresh(state) && fresh(buffer)
    {
      count0, count1 := 0, 0;
      state := new Word[4];
      buffer := new Byte[64];
      consumed := [];
      new;
      state[0] := 0x67452301;
      state[1] := 0xEFCDAB89;
      state[2] := 0x98BADCFE;
      state[3] := 0x10325476;
    }

    method MD5Update(input: array<Byte>, inputlen: nat)
      requires Valid() && inputlen <= input.Length && inputlen < M && input != buffer
      requires NoWrap(|consumed| % BLOCK, inputlen)
      modifies this, state, buffer
      ensures Valid() && consumed == old(consumed) + input[..inputlen]
    {
      hide HoldsBlocks, CountLow, CountHigh, NoWrap;
      ghost var m := consumed;
      var index := count0 / 8 % 0x40;
      IndexIs(|m|);
      var partlen := 64 - index;
      CountAdds(|m|, inputlen);
      count0 := (count0 + inputlen * 8 % M) % M;
      if count0 < inputlen * 8 % M {
        count1 := (count1 + 1) % M;
      }
      count1 := (count1 + inputlen / 0x2000_0000) % M;
      consumed := m + input[..inputlen];
      Absorb(m, index, partlen, input, inputlen);
    }

    /** The second half of the update: fill and hash the partial block, hash full blocks, keep the rest. */
    method Absorb(ghost m: seq<Byte>, index: nat, partlen: nat, input: array<Byte>, inputlen: nat)
      requires state.Length == 4 && buffer.Length == BLOCK && input != buffer
      requires index == |m| % BLOCK && partlen == BLOCK - index
      requires inputlen <= input.Length && inputlen < M && NoWrap(index, inputlen)
      requires HoldsBlocks(state[..], buffer[..], m)
      modifies state, buffer
      ensures HoldsBlocks(state[..], buffer[..], m + input[..inputlen])
    {
      hide HoldsBlocks, HashedTo, Compress, Full, LastPosition, NoWrap;
      if inputlen >= partlen {
        ghost var all := m + input[..inputlen];
        FillBlock(m, index, partlen, input, inputlen);
        var i := HashBlocks(m, all, input, inputlen, partlen);
        CopyBytes(buffer, 0, input, i, inputlen - i);
        TailOfInput(m, input[..inputlen], all, i);
        assert input[i..inputlen] == input[..inputlen][i..];
        Remainder(state[..], buffer[..], all, |m| + i);
      } else {
        CopyBytes(buffer, index, input, 0, inputlen);
        StillPartial(state[..], old(buffer[..]), m, input[..inputlen], buffer[..]);
      }
    }

    /** Completes the partial block and hashes it. */
    method FillBlock(ghost m: seq<Byte>, index: nat, partlen: nat, input: array<Byte>, inputlen: nat)
      requires state.Length == 4 && buffer.Length == BLOCK && input != buffer
      requires index == |m| % BLOCK && partlen == BLOCK - index && partlen <= inputlen <= input.Length
      requires HoldsBlocks(state[..], buffer[..], m)
      modifies state, buffer
      ensures HashedTo(state[..], m + input[..inputlen], |m| + partlen)
    {
      hide HoldsBlocks, HashedTo, Compress;
      CopyBytes(buffer, index, input, 0, partlen);
      assert buffer[..index + partlen] == buffer[..];
      assert buffer[0..0 + BLOCK] == buffer[..];
      Transform(state, buffer, 0);
      FirstBlock(old(state[..]), old(buffer[..]), m, input[..inputlen], buffer[..], state[..]);
    }

    /** The block loop; returns the position of the first byte not hashed. */
    method HashBlocks(ghost m: seq<Byte>, ghost all: seq<Byte>, input: array<Byte>, inputlen: nat, partlen: nat)
      returns (i: nat)
      requires state.Length == 4
      requires partlen == BLOCK - |m| % BLOCK && partlen <= inputlen <= input.Length
      requires inputlen < M && NoWrap(|m| % BLOCK, inputlen)
      requires all == m + input[..inputlen] && HashedTo(state[..], all, |m| + partlen)
      modifies state
      ensures i <= inputlen < i + BLOCK && |m| + i == Full(|m| + inputlen)
      ensures HashedTo(state[..], all, |m| + i)
    {
      hide Compress, Full, LastPosition, NoWrap, HashedTo, Position;
      i := partlen;
      HashedToMeans(state[..], all, |m| + partlen);
      FirstPosition(|m|, inputlen);
      while (i + 64) % M <= inputlen
        invariant Position(|m|, i, inputlen) && i <= inputlen && (i + 64) % M == i + 64
        invariant HashedTo(state[..], all, |m| + i)
        decreases inputlen - i
      {
        ghost var before := state[..];
        BlockOfInput(m, input[..inputlen], all, i);
        assert input[i..i + BLOCK] == input[..inputlen][i..i + BLOCK];
        Transform(state, input, i);
        NextBlock(before, state[..], all, |m| + i);
        NextPosition(|m|, i, inputlen);
        i := i + 64;
      }
      LastReached(|m|, i, inputlen);
    }

    method MD5Final(digest: array<Byte>)
      requires Valid() && digest.Length == 16 && digest != buffer
      modifies this, state, buffer, digest
      ensures digest[..] == Md5(old(consumed))
    {
      hide HoldsBlocks, CompressAll, Encode, LengthWords, CountLow, CountHigh, NoWrap, PadLength, Padding;
      ghost var m := consumed;
      var bits := new Byte[8];
      var index := count0 / 8 % 0x40;
      IndexIs(|m|);
      var padlen := if index < 56 then 56 - index else 120 - index;
      PutCount(bits);
      var PADDING := new Byte[64](k => if k == 0 then 0x80 else 0);
      PaddingIs(|m|, padlen, PADDING[..]);
      assert PADDING[..padlen] == PADDING[..][..padlen];
      SmallNoWrap(|m| % BLOCK, padlen);
      MD5Update(PADDING, padlen);
      SmallNoWrap(|consumed| % BLOCK, 8);
      MD5Update(bits, 8);
      MD5Encode(digest, state[..]);
      DigestIs(state[..], buffer[..], m, consumed);
      assert digest[..] == digest[..16];
    }

    /** The bit count as eight bytes. */
    method PutCount(bits: array<Byte>)
      requires Valid() && bits.Length == 8 && bits != buffer
      modifies bits
      ensures Valid() && bits[..] == Encode(LengthWords(|consumed|))
    {
      hide HoldsBlocks, Encode, CountLow, CountHigh, WordOf;
      CountsFit(|consumed|);
      MD5Encode(bits, [WordOf(count0), WordOf(count1)]);
      assert bits[..] == bits[..8];
    }
  }

  // ---------------------------------------------------------------- the drivers

  function HexDigit(n: Byte): char {
    if n < 10 then '0' + n as char else 'a' + (n - 10) as char
  }

  /** Two lower-case hexadecimal digits. */
  function HexByte(b: Byte): (text: string)
    ensures |text| == 2
  {
    [HexDigit(b >> 4), HexDigit(b & 0xF)]
  }

  function HexText(bytes: seq<Byte>): (text: string)
    ensures |text| == 2 * |bytes|
  {
    if bytes == [] then "" else HexText(bytes[..|bytes| - 1]) + HexByte(bytes[|bytes| - 1])
  }

  lemma HexByteInjective(a: Byte, b: Byte)
    requires HexByte(a) == HexByte(b)
    ensures a == b
  {
    assert HexByte(a)[0] == HexByte(b)[0] && HexByte(a)[1] == HexByte(b)[1];
  }

  lemma SameTails(x: string, y: string, u: string, v: string)
    requires x + u == y + v && |u| == |v|
    ensures x == y && u == v
  {
    assert (x + u)[..|x|] == x && (y + v)[..|y|] == y;
    assert (x + u)[|x|..] == u && (y + v)[|y|..] == v;
  }

  /** The text tells digests apart. */
  lemma {:induction false} HexInjective(a: seq<Byte>, b: seq<Byte>)
    ensures HexText(a) == HexText(b) <==> a == b
  {
    hide HexByte;
    if HexText(a) == HexText(b) && a != [] {
      var n := |a| - 1;
      SameTails(HexText(a[..n]), HexText(b[..n]), HexByte(a[n]), HexByte(b[n]));
      HexInjective(a[..n], b[..n]);
      HexByteInjective(a[n], b[n]);
      assert a == a[..n] + [a[n]] && b == b[..n] + [b[n]];
    }
  }

  /** The loop that writes the digest as text, shared by the drivers. */
  method WriteHex(digest: array<Byte>) returns (text: string)
    ensures text == HexText(digest[..])
  {
    hide HexByte;
    text := "";
    for i := 0 to digest.Length
      invariant text == HexText(digest[..i])
    {
      assert digest[..i + 1][..i] == digest[..i];
      text := text + HexByte(digest[i]);
    }
    assert digest[..digest.Length] == digest[..];
  }

  method ComputeStringMd5(destStr: array<Byte>, destLen: nat) returns (md5Str: string)
    requires destLen <= destStr.Length && destLen < M && NoWrap(0, destLen)
    ensures md5Str == HexText(Md5(destStr[..destLen]))
  {
    hide NoWrap, Represents, Md5, HexText;
    var context := new MD5Context.MD5Init();
    context.MD5Update(destStr, destLen);
    assert [] + destStr[..destLen] == destStr[..destLen];
    var digest := new Byte[16];
    context.MD5Final(digest);
    md5Str := WriteHex(digest);
  }

  /** All chunks together. */
  function Joined(chunks: seq<seq<Byte>>): seq<Byte> {
    if chunks == [] then [] else Joined(chunks[..|chunks| - 1]) + chunks[|chunks| - 1]
  }

  /** For every split of a message into updates the digest is the one-shot digest. */
  method HashChunks(chunks: seq<seq<Byte>>) returns (md5: array<Byte>)
    requires forall k :: 0 <= k < |chunks| ==> |chunks[k]| < M - BLOCK
    ensures fresh(md5) && md5[..] == Md5(Joined(chunks))
  {
    hide NoWrap, Represents, Md5;
    var context := new MD5Context.MD5Init();
    for k := 0 to |chunks|
      invariant context.Valid() && fresh(context) && fresh(context.state) && fresh(context.buffer)
      invariant context.consumed == Joined(chunks[..k])
    {
      var n := |chunks[k]|;
      var input := new Byte[n](i requires 0 <= i < n => chunks[k][i]);
      assert input[..n] == chunks[k] && chunks[..k + 1][..k] == chunks[..k];
      SmallNoWrap(|context.consumed| % BLOCK, n);
      context.MD5Update(input, n);
    }
    assert chunks[..|chunks|] == chunks;
    md5 := new Byte[16];
    context.MD5Final(md5);
  }

  /** One result of the system's read call, of at most `READ_DATA_SIZE` bytes. */
  datatype Read = Data(bytes: seq<Byte>) | Failed

  predicate Sized(results: seq<Read>) {
    forall k :: 0 <= k < |results| && results[k].Data? ==> |results[k].bytes| <= READ_DATA_SIZE
  }

  /** The bytes that get hashed: reading stops behind the first short read, or fails.  Reading past the
      results given is the end of the file. */
  function ReadAll(results: seq<Read>): Option<seq<Byte>> {
    if results == [] then Some([])
    else match results[0]
      case Failed => None
      case Data(bytes) =>
        if |bytes| < READ_DATA_SIZE then Some(bytes)
        else match ReadAll(results[1..])
          case None => None
          case Some(later) => Some(bytes + later)
  }

  /** Hashes a file, given what each read will return, or `None` when it cannot be opened; the result
      `None` is the source's -1. */
  method ComputeFileMd5(file: Option<seq<Read>>) returns (md5Str: Option<string>)
    requires file.Some? ==> Sized(file.value)
    ensures md5Str == if file.Some? && ReadAll(file.value).Some?
                      then Some(HexText(Md5(ReadAll(file.value).value))) else None
  {
    if file == None {
      return None;
    }
    md5Str := HashReads(file.value);
  }

  /** The reading loop and what follows it, on an open file. */
  method HashReads(results: seq<Read>) returns (md5Str: Option<string>)
    requires Sized(results)
    ensures md5Str == if ReadAll(results).Some? then Some(HexText(Md5(ReadAll(results).value))) else None
  {
    hide Md5, NoWrap, Represents, ReadAll, HexText;
    var context := new MD5Context.MD5Init();
    var data := new Byte[READ_DATA_SIZE];
    var k := 0;
    assert results[0..] == results;
    PrependNothing(ReadAll(results));
    while true
      invariant context.Valid() && fresh(context) && fresh(context.state) && fresh(context.buffer)
      invariant fresh(data) && data != context.buffer && data.Length == READ_DATA_SIZE
      invariant 0 <= k <= |results|
      invariant ReadAll(results) == PrependBytes(context.consumed, ReadAll(results[k..]))
      decreases |results| - k
    {
      var ret := 0;
      if k < |results| {
        if results[k].Failed? {
          ReadAllStep(results, k);
          return None;
        }
        ret := |results[k].bytes|;
        ReadInto(data, results[k].bytes);
      }
      ReadAllStep(results, k);
      SmallNoWrap(|context.consumed| % BLOCK, ret);
      ghost var before := context.consumed;
      context.MD5Update(data, ret);
      if ret == 0 || ret < READ_DATA_SIZE {
        break;
      }
      PrependTwice(before, results[k].bytes, ReadAll(results[k + 1..]));
      k := k + 1;
    }
    var digest := new Byte[16];
    context.MD5Final(digest);
    var text := WriteHex(digest);
    md5Str := Some(text);
  }

  lemma ReadAllStep(results: seq<Read>, k: nat)
    requires k <= |results|
    ensures k == |results| ==> ReadAll(results[k..]) == Some([])
    ensures k < |results| && results[k].Failed? ==> ReadAll(results[k..]) == None
    ensures k < |results| && results[k].Data? ==>
              var bytes := results[k].bytes;
              ReadAll(results[k..]) == if |bytes| < READ_DATA_SIZE then Some(bytes)
                                       else PrependBytes(bytes, ReadAll(results[k + 1..]))
  {
    if k < |results| { assert results[k..][1..] == results[k + 1..]; }
  }

  /** The system's copy into the caller's buffer. */
  method ReadInto(data: array<Byte>, bytes: seq<Byte>)
    requires |bytes| <= data.Length
    modifies data
    ensures data[..|bytes|] == bytes
  {
    for j := 0 to |bytes|
      invariant data[..j] == bytes[..j]
    {
      data[j] := bytes[j];
    }
  }

  ghost function PrependBytes(before: seq<Byte>, later: Option<seq<Byte>>): Option<seq<Byte>> {
    match later
    case None => None
    case Some(bytes) => Some(before + bytes)
  }

  lemma PrependNothing(later: Option<seq<Byte>>)
    ensures PrependBytes([], later) == later
  {
    if later.Some? { assert [] + later.value == later.value; }
  }

  lemma PrependTwice(a: seq<Byte>, b: seq<Byte>, later: Option<seq<Byte>>)
    ensures PrependBytes(a, PrependBytes(b, later)) == PrependBytes(a + b, later)
  {
    if later.Some? { assert a + (b + later.value) == a + b + later.value; }
  }

  function Contents(results: seq<Read>): seq<Byte> {
    if results == [] then []
    else (match results[0] case Data(bytes) => bytes case Failed => []) + Contents(results[1..])
  }

  /** The whole file is hashed exactly when no byte follows the first short read; in particular when
      only the last read is short. */
  lemma {:induction false} WholeFileHashed(results: seq<Read>)
    requires Sized(results) && forall k :: 0 <= k < |results| ==> results[k].Data?
    ensures ReadAll(results).Some?
    ensures ReadAll(results) == Some(Contents(results)) <==> Contents(AfterShort(results)) == []
    ensures (forall k :: 0 <= k < |results| - 1 ==> |results[k].bytes| == READ_DATA_SIZE) ==>
              AfterShort(results) == []
  {
    if results != [] {
      var tail, bytes := results[1..], results[0].bytes;
      assert forall k :: 0 <= k < |tail| ==> tail[k] == results[k + 1];
      WholeFileHashed(tail);
      if |bytes| < READ_DATA_SIZE {
        assert |Contents(results)| == |bytes| + |Contents(tail)|;
        assert bytes + [] == bytes;
      } else {
        assert (bytes + ReadAll(tail).value)[|bytes|..] == ReadAll(tail).value;
        assert (bytes + Contents(tail))[|bytes|..] == Contents(tail);
      }
    }
  }

  /** Hashing fails exactly when a read fails before any read of fewer than 1024 bytes. */
  lemma {:induction false} ReadFails(results: seq<Read>)
    requires Sized(results)
    ensures ReadAll(results) == None <==>
              exists k :: 0 <= k < |results| && results[k].Failed? && FullBefore(results, k)
  {
    if results != [] && results[0].Data? && |results[0].bytes| == 1024 {
      var tail := results[1..];
      assert forall k :: 0 <= k < |tail| ==> tail[k] == results[k + 1];
      ReadFails(tail);
      if k :| 0 <= k < |tail| && tail[k].Failed? && FullBefore(tail, k) {
        assert results[k + 1].Failed? && FullBefore(results, k + 1);
      }
      if k :| 0 <= k < |results| && results[k].Failed? && FullBefore(results, k) {
        assert tail[k - 1].Failed? && FullBefore(tail, k - 1);
      }
    } else if results != [] && results[0].Failed? {
      assert FullBefore(results, 0);
    }
  }

  predicate FullBefore(results: seq<Read>, k: nat)
    requires k <= |results|
  {
    forall j :: 0 <= j < k ==> results[j].Data? && |results[j].bytes| == 1024
  }

  /** A file that grows behind a short read: the byte that comes after it is left out. */
  lemma GrowingFile(a: Byte, b: Byte)
    ensures var results := [Data([a]), Data([b])];
            ReadAll(results) == Some([a]) && Contents(results) == [a, b]
  {
    var first, second := Data([a]), Data([b]);
    assert [first, second][1..] == [second] && [second][1..] == [] && Contents([]) == [];
    assert Contents([second]) == [b] + [];
  }

  /** The results behind the first short one. */
  function AfterShort(results: seq<Read>): seq<Read> {
    if results == [] then []
    else if results[0].Failed? || |results[0].bytes| < READ_DATA_SIZE then results[1..]
    else AfterShort(results[1..])
  }

  // ---------------------------------------------------------------- what the context represents

  ghost predicate HoldsBlocks(state: seq<Word>, buffer: seq<Byte>, m: seq<Byte>)
    requires |state| == 4 && |buffer| == BLOCK
  {
    && StateOf(state) == CompressAll(INITIAL, m[..Full(|m|)])
    && buffer[..|m| % BLOCK] == m[Full(|m|)..]
  }

  ghost predicate Represents(count0: nat, count1: nat, state: seq<Word>, buffer: seq<Byte>, m: seq<Byte>)
    requires |state| == 4 && |buffer| == BLOCK
  {
    count0 == CountLow(|m|) && count1 == CountHigh(|m|) && HoldsBlocks(state, buffer, m)
  }

  lemma FullIs(n: nat)
    ensures n == Full(n) + n % BLOCK && Full(n) % BLOCK == 0
  {
  }

  lemma FullUnique(p: nat, n: nat)
    requires p % BLOCK == 0 && p <= n < p + BLOCK
    ensures Full(n) == p
  {
  }

  /** The state has absorbed exactly the first `p` bytes, a number of full blocks. */
  ghost predicate HashedTo(state: seq<Word>, all: seq<Byte>, p: nat) {
    |state| == 4 && p <= |all| && p % BLOCK == 0 && StateOf(state) == CompressAll(INITIAL, all[..p])
  }

  lemma HashedToMeans(state: seq<Word>, all: seq<Byte>, p: nat)
    requires HashedTo(state, all, p)
    ensures p <= |all| && p % BLOCK == 0
  {
  }

  lemma FirstBlock(state: seq<Word>, buffer: seq<Byte>, m: seq<Byte>, input: seq<Byte>, block: seq<Byte>,
                   after: seq<Word>)
    requires |state| == |after| == 4 && |buffer| == |block| == BLOCK && HoldsBlocks(state, buffer, m)
    requires |m| % BLOCK + |input| >= BLOCK
    requires block == buffer[..|m| % BLOCK] + input[..BLOCK - |m| % BLOCK]
    requires StateOf(after) == Compress(StateOf(state), block)
    ensures HashedTo(after, m + input, |m| + BLOCK - |m| % BLOCK)
  {
    hide Compress, CompressAll;
    FullIs(|m|);
    var p := |m| + BLOCK - |m| % BLOCK;
    assert m == m[..Full(|m|)] + m[Full(|m|)..];
    assert (m + input)[..p] == m[..Full(|m|)] + block;
    CompressAllBlock(INITIAL, m[..Full(|m|)], block);
  }

  lemma LastPositionIs(n: nat, inputlen: nat)
    requires n % BLOCK + inputlen >= BLOCK
    ensures n + LastPosition(n % BLOCK, inputlen) == Full(n + inputlen)
    ensures BLOCK - n % BLOCK <= LastPosition(n % BLOCK, inputlen) <= inputlen
  {
    var index := n % BLOCK;
    FullIs(n);
    FullIs(index + inputlen);
    FullIs(n + inputlen);
    FullUnique(Full(n) + Full(index + inputlen), n + inputlen);
    FullAtLeast(BLOCK, index + inputlen);
  }

  lemma FullAtLeast(p: nat, n: nat)
    requires p % BLOCK == 0 && p <= n
    ensures p <= Full(n)
  {
  }

  /** A position the block loop comes to: a block boundary of the message, up to the last one. */
  ghost predicate Position(n: nat, i: nat, inputlen: nat) {
    && n % BLOCK + inputlen >= BLOCK && NoWrap(n % BLOCK, inputlen)
    && (n + i) % BLOCK == 0 && i <= LastPosition(n % BLOCK, inputlen)
  }

  lemma PositionMeans(n: nat, i: nat, inputlen: nat)
    requires Position(n, i, inputlen)
    ensures i <= inputlen && (i + 64) % M == i + 64
  {
    hide LastPosition;
    LastPositionIs(n, inputlen);
  }

  lemma FirstPosition(n: nat, inputlen: nat)
    requires n % BLOCK + inputlen >= BLOCK && NoWrap(n % BLOCK, inputlen)
    ensures var i := BLOCK - n % BLOCK; Position(n, i, inputlen) && i <= inputlen && (i + 64) % M == i + 64
  {
    LastPositionIs(n, inputlen);
    hide LastPosition, NoWrap;
    assert (n + (BLOCK - n % BLOCK)) % BLOCK == 0;
    PositionMeans(n, BLOCK - n % BLOCK, inputlen);
  }

  lemma NextPosition(n: nat, i: nat, inputlen: nat)
    requires Position(n, i, inputlen) && i + BLOCK <= inputlen
    ensures Position(n, i + BLOCK, inputlen) && (i + BLOCK + 64) % M == i + BLOCK + 64
  {
    hide LastPosition, Full, NoWrap;
    LastPositionIs(n, inputlen);
    FullAtLeast(n + i + BLOCK, n + inputlen);
    PositionMeans(n, i + BLOCK, inputlen);
  }

  lemma LastReached(n: nat, i: nat, inputlen: nat)
    requires Position(n, i, inputlen) && i <= inputlen < i + BLOCK
    ensures n + i == Full(n + inputlen)
  {
    hide LastPosition, Full, NoWrap;
    FullUnique(n + i, n + inputlen);
  }

  lemma TailOfInput(m: seq<Byte>, input: seq<Byte>, all: seq<Byte>, i: nat)
    requires all == m + input && i <= |input|
    ensures all[|m| + i..] == input[i..]
  {
  }

  lemma BlockOfInput(m: seq<Byte>, input: seq<Byte>, all: seq<Byte>, i: nat)
    requires all == m + input && i + BLOCK <= |input|
    ensures input[i..i + BLOCK] == all[|m| + i..|m| + i + BLOCK]
  {
  }

  lemma NextBlock(state: seq<Word>, after: seq<Word>, all: seq<Byte>, p: nat)
    requires HashedTo(state, all, p) && p + BLOCK <= |all| && |after| == 4
    requires StateOf(after) == Compress(StateOf(state), all[p..p + BLOCK])
    ensures HashedTo(after, all, p + BLOCK)
  {
    hide Compress, CompressAll;
    assert all[..p + BLOCK] == all[..p] + all[p..p + BLOCK];
    CompressAllBlock(INITIAL, all[..p], all[p..p + BLOCK]);
  }

  lemma StillPartial(state: seq<Word>, buffer: seq<Byte>, m: seq<Byte>, input: seq<Byte>, after: seq<Byte>)
    requires |state| == 4 && |buffer| == |after| == BLOCK && HoldsBlocks(state, buffer, m)
    requires |m| % BLOCK + |input| < BLOCK
    requires after[..|m| % BLOCK + |input|] == buffer[..|m| % BLOCK] + input
    ensures HoldsBlocks(state, after, m + input)
  {
    hide CompressAll;
    var n, all := |m| + |input|, m + input;
    FullIs(|m|);
    FullUnique(Full(|m|), n);
    FullIs(n);
    assert all[..Full(n)] == m[..Full(|m|)];
    assert all[Full(n)..] == m[Full(|m|)..] + input;
  }

  lemma Remainder(state: seq<Word>, buffer: seq<Byte>, all: seq<Byte>, p: nat)
    requires |state| == 4 && |buffer| == BLOCK
    requires p == Full(|all|) && p <= |all| && |all| - p < BLOCK
    requires HashedTo(state, all, p) && buffer[..|all| - p] == all[p..]
    ensures HoldsBlocks(state, buffer, all)
  {
    hide CompressAll;
    FullIs(|all|);
  }

  lemma FullOfBlocks(all: seq<Byte>)
    requires |all| % BLOCK == 0
    ensures all[..Full(|all|)] == all
  {
  }

  lemma IndexIs(n: nat)
    ensures CountLow(n) / 8 % 0x40 == n % BLOCK
  {
    var k := 8 * n / M;
    assert 8 * n == M * k + CountLow(n);
    assert CountLow(n) == 8 * (n - 0x2000_0000 * k);
    assert n == BLOCK * (n / BLOCK) + n % BLOCK;
    assert n - 0x2000_0000 * k == BLOCK * (n / BLOCK - 0x80_0000 * k) + n % BLOCK;
  }

  lemma CountsFit(n: nat)
    ensures CountLow(n) < M && CountHigh(n) < M
    ensures LengthWords(n) == [WordOf(CountLow(n)), WordOf(CountHigh(n))]
  {
    hide WordOf;
  }

  lemma PaddingIs(n: nat, padlen: nat, bytes: seq<Byte>)
    requires padlen == if n % BLOCK < 56 then 56 - n % BLOCK else 120 - n % BLOCK
    requires bytes == seq(64, k => if k == 0 then 0x80 else 0)
    ensures padlen == PadLength(n) <= 64 && bytes[..padlen] == Padding(n)
  {
    PaddingFills(n);
  }

  lemma DigestIs(state: seq<Word>, buffer: seq<Byte>, m: seq<Byte>, all: seq<Byte>)
    requires |state| == 4 && |buffer| == BLOCK && HoldsBlocks(state, buffer, all)
    requires all == m + Padding(|m|) + Encode(LengthWords(|m|))
    ensures Encode(state) == Md5(m)
  {
    hide CompressAll, Encode;
    assert all == Padded(m);
    FullOfBlocks(all);
    assert state == [state[0], state[1], state[2], state[3]];
  }

  method CopyBytes(dst: array<Byte>, at: nat, src: array<Byte>, from: nat, n: nat)
    requires at + n <= dst.Length && from + n <= src.Length && dst != src
    modifies dst
    ensures dst[..at + n] == old(dst[..at]) + src[from..from + n]
    ensures forall k :: at + n <= k < dst.Length ==> dst[k] == old(dst[k])
  {
    for k := 0 to n
      invariant dst[..at + k] == old(dst[..at]) + src[from..from + k]
      invariant forall j :: at + n <= j < dst.Length ==> dst[j] == old(dst[j])
    {
      dst[at + k] := src[from + k];
    }
  }
}
