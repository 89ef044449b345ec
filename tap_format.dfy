/** The ZX Spectrum `.TAP` container as the editor reads and writes it: a sequence of
    blocks, each a little-endian 16-bit length followed by that many bytes (flag,
    payload, checksum). A flag-0 block carries a 17-byte header, a flag-255 block data.
    This module holds the specification functions and what is proved about them. */
module Tap {
  import opened Binary
  import opened Stream

  datatype Header = Header(headerType: byte, filename: seq<byte>, lenData: int, param1: int, param2: int)

  /** One decoded block. `flag` and `checksum` are absent for a zero length and for a
      block whose bytes lie wholly past the end of the buffer; `header` is present only
      for flag 0 and `data` only for flag 255. */
  datatype TapBlock = TapBlock(
    lenBlock: int,
    flag: Option<byte>,
    checksum: Option<byte>,
    header: Option<Header>,
    data: Option<seq<byte>>)

  const EmptyBlock := TapBlock(0, None, None, None, None)

  // ---------------------------------------------------------------- decoding

  /** The header fields read from a block payload: type, a 10-byte name (trimmed),
      data length, first and second parameter. Any read past the payload's end throws. */
  function DecodeHeader(p: seq<byte>): (r: Result<Header>)
  {
    if |p| < 17 then Err(RangeError)
    else Ok(Header(p[0], Trim(p[1..11]), U16At(p, 11), U16At(p, 13), U16At(p, 15)))
  }

  /** `Uint8Array.prototype.slice(1, -1)`: the bytes between the first and the last. */
  function PayloadOf(body: seq<byte>): (p: seq<byte>)
  {
    if |body| >= 2 then body[1..|body| - 1] else []
  }

  /** The block made of a nonzero length field and the (possibly clamped) bytes read after it. */
  function BlockOf(len: int, body: seq<byte>): Result<TapBlock>
  {
    if body == [] then Ok(TapBlock(len, None, None, None, None))
    else
      var flag, checksum := body[0], body[|body| - 1];
      var payload := PayloadOf(body);
      if flag == 0 then
        match DecodeHeader(payload)
        case Err(e) => Err(e)
        case Ok(h) => Ok(TapBlock(len, Some(flag), Some(checksum), Some(h), None))
      else if flag == 255 then Ok(TapBlock(len, Some(flag), Some(checksum), None, Some(payload)))
      else Ok(TapBlock(len, Some(flag), Some(checksum), None, None))
  }

  /** The block that starts at `pos`, with the position after it. Every decoded block
      moves the position by its length field plus two, so by at least two. */
  function DecodeBlock(buf: seq<byte>, pos: nat): (r: Result<(TapBlock, nat)>)
    ensures pos + 2 > |buf| ==> r == Err(RangeError)
    ensures r.Ok? ==> r.value.1 == pos + 2 + r.value.0.lenBlock && r.value.0.lenBlock >= 0
  {
    if pos + 2 > |buf| then Err(RangeError)
    else
      var len := U16At(buf, pos);
      if len == 0 then Ok((EmptyBlock, pos + 2))
      else
        match BlockOf(len, Slice(buf, pos + 2, len))
        case Err(e) => Err(e)
        case Ok(b) => Ok((b, pos + 2 + len))
  }

  function Prepend(bs: seq<TapBlock>, r: Result<seq<TapBlock>>): Result<seq<TapBlock>>
  {
    match r
    case Ok(rest) => Ok(bs + rest)
    case Err(e) => Err(e)
  }

  /** All blocks from `pos` to the end of the buffer, or the first error. */
  function DecodeBlocks(buf: seq<byte>, pos: nat): Result<seq<TapBlock>>
    decreases |buf| - pos
  {
    if pos >= |buf| then Ok([])
    else
      match DecodeBlock(buf, pos)
      case Err(e) => Err(e)
      case Ok((b, next)) => Prepend([b], DecodeBlocks(buf, next))
  }

  lemma PrependNil(r: Result<seq<TapBlock>>)
    ensures Prepend([], r) == r
  {
    if r.Ok? {
      assert [] + r.value == r.value;
    }
  }

  lemma PrependConcat(a: seq<TapBlock>, b: seq<TapBlock>, r: Result<seq<TapBlock>>)
    ensures Prepend(a, Prepend(b, r)) == Prepend(a + b, r)
  {
    if r.Ok? {
      assert a + (b + r.value) == (a + b) + r.value;
    }
  }

  // ---------------------------------------------------------------- encoding

  /** The bytes `createTapBlock(flag, payload)` returns. */
  function EncodeBlock(flag: byte, payload: seq<byte>): seq<byte>
  {
    U16LE(|payload| + 2) + [flag] + payload + [Xor([flag] + payload)]
  }

  /** The layout of an encoded block: a little-endian length counting flag, payload and
      checksum, then the flag, the payload and their XOR. */
  lemma EncodeBlockLayout(flag: byte, payload: seq<byte>)
    ensures var block := EncodeBlock(flag, payload);
      && |block| == |payload| + 4
      && block[..2] == U16LE(|payload| + 2)
      && block[2] == flag && block[3..|block| - 1] == payload
      && block[|block| - 1] == Xor([flag] + payload)
      && block == U16LE(|payload| + 2) + ([flag] + payload) + [Xor([flag] + payload)]
  {
    var block, x := EncodeBlock(flag, payload), Xor([flag] + payload);
    Regroup(U16LE(|payload| + 2), [flag], payload, [x]);
    SplitAt(block, U16LE(|payload| + 2), [flag] + payload + [x]);
    assert block[3..|block| - 1] == ([flag] + payload + [x])[1..|payload| + 1];
  }

  /** The ten name bytes of a header: the first ten characters of `name`, space-padded,
      each stored modulo 256 by the `Uint8Array`. A name is modelled as characters that
      each occupy one UTF-16 unit, so character `i` is the unit that `padEnd` and `[i]`
      give. */
  function NameField(name: seq<char>): (f: seq<byte>)
    ensures |f| == 10
  {
    seq(10, i requires 0 <= i < 10 => if i < |name| then ToByte(name[i] as int) else 32)
  }

  /** The 17 header bytes `buildTapFile` writes: type 3 (code), name, data length,
      start address and the constant 32768. */
  function HeaderPayload(dataLen: int, name: seq<char>, start: int): (p: seq<byte>)
    ensures |p| == 17
  {
    [3] + NameField(name) + U16LE(dataLen) + U16LE(start) + U16LE(32768)
  }

  /** The whole tape `buildTapFile` returns: the header block, then the data block. */
  function TapFile(data: seq<byte>, name: seq<char>, start: int): seq<byte>
  {
    EncodeBlock(0, HeaderPayload(|data|, name, start)) + EncodeBlock(255, data)
  }

  // ---------------------------------------------------------------- round trips

  /** A payload that `createTapBlock` can frame without the length field wrapping, and
      that the decoder accepts: a header payload has all 17 bytes. */
  predicate Encodable(flag: byte, payload: seq<byte>)
  {
    |payload| + 2 < 65536 && (flag == 0 ==> |payload| >= 17)
  }

  /** What decoding `EncodeBlock(flag, payload)` must give back. */
  function ExpectedBlock(flag: byte, payload: seq<byte>): TapBlock
    requires flag == 0 ==> |payload| >= 17
  {
    TapBlock(|payload| + 2, Some(flag), Some(Xor([flag] + payload)),
      if flag == 0 then Some(DecodeHeader(payload).value) else None,
      if flag == 255 then Some(payload) else None)
  }

  /** A block written by `createTapBlock` and found at `pos` decodes to its flag, payload
      and checksum, and the position moves exactly past it. */
  lemma DecodeEncodedBlock(buf: seq<byte>, pos: nat, flag: byte, payload: seq<byte>)
    requires Encodable(flag, payload)
    requires pos + |payload| + 4 <= |buf| && buf[pos..pos + |payload| + 4] == EncodeBlock(flag, payload)
    ensures DecodeBlock(buf, pos) == Ok((ExpectedBlock(flag, payload), pos + |payload| + 4))
  {
    var n, x := |payload| + 2, Xor([flag] + payload);
    FramedBytes(buf, pos, flag, payload);
    assert Slice(buf, pos + 2, n) == buf[pos + 2..pos + |payload| + 4];
    BlockOfFramed(flag, payload, x);
  }

  /** The length field and the bytes after it, for a block written by `createTapBlock`. */
  lemma FramedBytes(buf: seq<byte>, pos: nat, flag: byte, payload: seq<byte>)
    requires |payload| + 2 < 65536
    requires pos + |payload| + 4 <= |buf| && buf[pos..pos + |payload| + 4] == EncodeBlock(flag, payload)
    ensures U16At(buf, pos) == |payload| + 2
    ensures buf[pos + 2..pos + |payload| + 4] == [flag] + payload + [Xor([flag] + payload)]
  {
    var x := Xor([flag] + payload);
    var rest := [flag] + payload + [x];
    Regroup(U16LE(|payload| + 2), [flag], payload, [x]);
    SplitAt(buf[pos..pos + |payload| + 4], U16LE(|payload| + 2), rest);
    SubSlice(buf, pos, pos + |payload| + 4, 2);
    U16Exact(|payload| + 2, buf, pos);
  }

  lemma Regroup(a: seq<byte>, b: seq<byte>, c: seq<byte>, d: seq<byte>)
    ensures a + b + c + d == a + (b + c + d)
  {
  }

  lemma SplitAt(w: seq<byte>, a: seq<byte>, b: seq<byte>)
    requires w == a + b
    ensures w[..|a|] == a && w[|a|..] == b
  {
  }

  /** The bytes after a length field, framed as flag, payload and checksum, decode to
      that flag, payload and checksum. */
  lemma BlockOfFramed(flag: byte, payload: seq<byte>, x: byte)
    requires flag == 0 ==> |payload| >= 17
    ensures BlockOf(|payload| + 2, [flag] + payload + [x])
         == Ok(TapBlock(|payload| + 2, Some(flag), Some(x),
              if flag == 0 then Some(DecodeHeader(payload).value) else None,
              if flag == 255 then Some(payload) else None))
  {
    var body := [flag] + payload + [x];
    assert body[0] == flag && body[|body| - 1] == x;
    assert PayloadOf(body) == payload;
  }

  /** The tape of a list of (flag, payload) pairs, each framed by `createTapBlock`. */
  function Concat(bs: seq<(byte, seq<byte>)>): seq<byte>
  {
    if bs == [] then [] else EncodeBlock(bs[0].0, bs[0].1) + Concat(bs[1..])
  }

  predicate AllEncodable(bs: seq<(byte, seq<byte>)>)
  {
    forall i :: 0 <= i < |bs| ==> Encodable(bs[i].0, bs[i].1)
  }

  function ExpectedBlocks(bs: seq<(byte, seq<byte>)>): (r: seq<TapBlock>)
    requires AllEncodable(bs)
    ensures |r| == |bs|
  {
    seq(|bs|, i requires 0 <= i < |bs| => ExpectedBlock(bs[i].0, bs[i].1))
  }

  lemma DecodeBlocksStep(buf: seq<byte>, pos: nat, b: TapBlock, next: nat)
    requires pos < |buf| && DecodeBlock(buf, pos) == Ok((b, next))
    ensures DecodeBlocks(buf, pos) == Prepend([b], DecodeBlocks(buf, next))
  {
  }

  lemma ExpectedBlocksCons(bs: seq<(byte, seq<byte>)>)
    requires bs != [] && AllEncodable(bs)
    ensures AllEncodable(bs[1..])
    ensures ExpectedBlocks(bs) == [ExpectedBlock(bs[0].0, bs[0].1)] + ExpectedBlocks(bs[1..])
  {
    assert forall i :: 0 <= i < |bs[1..]| ==> bs[1..][i] == bs[i + 1];
  }

  lemma SuffixAfter(buf: seq<byte>, pos: nat, e: seq<byte>, rest: seq<byte>)
    requires pos <= |buf| && buf[pos..] == e + rest
    ensures pos + |e| <= |buf| && buf[pos..pos + |e|] == e && buf[pos + |e|..] == rest
  {
    assert buf[pos..pos + |e|] == buf[pos..][..|e|];
    assert buf[pos + |e|..] == buf[pos..][|e|..];
  }

  /** Decoding a concatenation of encoded blocks, from wherever it starts, recovers every
      block in order and stops exactly at the end. */
  lemma {:induction false} DecodeConcat(buf: seq<byte>, pos: nat, bs: seq<(byte, seq<byte>)>)
    requires AllEncodable(bs)
    requires pos <= |buf| && buf[pos..] == Concat(bs)
    ensures DecodeBlocks(buf, pos) == Ok(ExpectedBlocks(bs))
    decreases |bs|
  {
    if bs == [] {
      assert pos == |buf|;
    } else {
      var f, p, rest := bs[0].0, bs[0].1, bs[1..];
      assert Encodable(f, p);
      var e := EncodeBlock(f, p);
      SuffixAfter(buf, pos, e, Concat(rest));
      DecodeEncodedBlock(buf, pos, f, p);
      DecodeBlocksStep(buf, pos, ExpectedBlock(f, p), pos + |e|);
      ExpectedBlocksCons(bs);
      DecodeConcat(buf, pos + |e|, rest);
    }
  }

  /** A zero length field is a whole block of two bytes, with no flag. */
  lemma DecodeZeroLength(buf: seq<byte>, pos: nat)
    requires pos + 2 <= |buf| && buf[pos] == 0 && buf[pos + 1] == 0
    ensures DecodeBlock(buf, pos) == Ok((EmptyBlock, pos + 2))
    ensures EmptyBlock.flag.None? && EmptyBlock.checksum.None?
  {
  }

  /** The tape `[0, 0]` decodes to one empty block. */
  lemma DecodeOnlyZeroLength()
    ensures DecodeBlocks([0, 0], 0) == Ok([EmptyBlock])
  {
    DecodeZeroLength([0, 0], 0);
    assert DecodeBlocks([0, 0], 2) == Ok([]);
    assert [EmptyBlock] + [] == [EmptyBlock];
  }

  /** The expected header of the tape written for `data` under `name` at `start`. */
  function SavedHeader(data: seq<byte>, name: seq<char>, start: int): Header
  {
    Header(3, Trim(NameField(name)), |data| % 65536, start % 65536, 32768)
  }

  /** Where the fields of a header payload sit. */
  lemma HeaderSlices(p: seq<byte>, n: seq<byte>, a: seq<byte>, b: seq<byte>, c: seq<byte>)
    requires |n| == 10 && |a| == 2 && |b| == 2 && |c| == 2 && p == [3] + n + a + b + c
    ensures |p| == 17 && p[0] == 3 && p[1..11] == n
    ensures p[11..13] == a && p[13..15] == b && p[15..17] == c
  {
    assert p[1..11] == n by {
      forall k | 0 <= k < 10 ensures p[1 + k] == n[k] { }
    }
    assert p[11..13] == a && p[13..15] == b && p[15..17] == c;
  }

  /** The header decoder reads back the fields `buildTapFile` writes, each 16-bit value
      modulo 65536. */
  lemma DecodeHeaderPayload(dataLen: int, name: seq<char>, start: int)
    ensures DecodeHeader(HeaderPayload(dataLen, name, start))
         == Ok(Header(3, Trim(NameField(name)), dataLen % 65536, start % 65536, 32768))
  {
    var p := HeaderPayload(dataLen, name, start);
    HeaderSlices(p, NameField(name), U16LE(dataLen), U16LE(start), U16LE(32768));
    U16RoundTrip(dataLen, p, 11);
    U16RoundTrip(start, p, 13);
    U16RoundTrip(32768, p, 15);
  }

  lemma TapFileIsConcat(data: seq<byte>, name: seq<char>, start: int)
    ensures Concat([(0, HeaderPayload(|data|, name, start)), (255, data)]) == TapFile(data, name, start)
  {
    var bs: seq<(byte, seq<byte>)> := [(0, HeaderPayload(|data|, name, start)), (255, data)];
    assert bs[1..] == [(255, data)] && bs[1..][1..] == [];
    assert Concat(bs[1..]) == EncodeBlock(255, data) + [];
  }

  lemma ExpectedPair(hp: seq<byte>, data: seq<byte>)
    requires |hp| == 17 && |data| + 2 < 65536
    ensures AllEncodable([(0, hp), (255, data)])
    ensures ExpectedBlocks([(0, hp), (255, data)]) == [ExpectedBlock(0, hp), ExpectedBlock(255, data)]
  {
    var bs: seq<(byte, seq<byte>)> := [(0, hp), (255, data)];
    assert AllEncodable(bs);
    var blocks := ExpectedBlocks(bs);
    assert blocks == [blocks[0], blocks[1]];
  }

  /** Decoding the tape `buildTapFile` writes yields exactly two blocks: the header
      (type 3, the padded and trimmed name, the data length, the start address, 32768)
      and the data block carrying `data` unchanged. */
  lemma DecodeTapFile(data: seq<byte>, name: seq<char>, start: int)
    requires |data| + 2 < 65536
    ensures DecodeBlocks(TapFile(data, name, start), 0) == Ok([
      TapBlock(19, Some(0), Some(Xor([0] + HeaderPayload(|data|, name, start))),
        Some(SavedHeader(data, name, start)), None),
      TapBlock(|data| + 2, Some(255), Some(Xor([255] + data)), None, Some(data))])
  {
    var hp := HeaderPayload(|data|, name, start);
    var tape := TapFile(data, name, start);
    TapFileIsConcat(data, name, start);
    ExpectedPair(hp, data);
    DecodeConcat(tape, 0, [(0, hp), (255, data)]);
    DecodeHeaderPayload(|data|, name, start);
  }

  /** A name of at most ten single-byte characters with no whitespace at either end is
      recovered exactly by the header decoder. */
  lemma {:induction false} NameRoundTrip(name: seq<char>, bytes: seq<byte>)
    requires |name| <= 10 && |bytes| == |name|
    requires forall i :: 0 <= i < |name| ==> name[i] as int < 256 && bytes[i] as int == name[i] as int
    requires bytes == [] || (!IsJsSpace(bytes[0]) && !IsJsSpace(bytes[|bytes| - 1]))
    ensures Trim(NameField(name)) == bytes
  {
    var pad := seq(10 - |name|, _ => 32 as byte);
    assert NameField(name) == bytes + pad;
    TrimPadded(bytes, pad);
  }

  // ---------------------------------------------------------------- pairing

  /** The header/data adjacency `handleLoad` looks for: block `i` has a header and the
      next block exists and has data. */
  predicate IsCodePair(blocks: seq<TapBlock>, i: int)
  {
    0 <= i && i + 1 < |blocks| && blocks[i].header.Some? && blocks[i + 1].data.Some?
  }

  function PairAt(blocks: seq<TapBlock>, i: int): (seq<byte>, seq<byte>)
    requires IsCodePair(blocks, i)
  {
    (blocks[i].header.value.filename, blocks[i + 1].data.value)
  }

  /** The named code blocks `handleLoad` collects, from index `i` on, in tape order. */
  function CodeBlocksFrom(blocks: seq<TapBlock>, i: nat): seq<(seq<byte>, seq<byte>)>
    decreases |blocks| - i
  {
    if i >= |blocks| then []
    else (if IsCodePair(blocks, i) then [PairAt(blocks, i)] else []) + CodeBlocksFrom(blocks, i + 1)
  }

  /** An entry is collected exactly when it is the name and data of some adjacent
      header/data pair at or after `i`. */
  lemma CodeBlocksMembership(blocks: seq<TapBlock>, i: nat, e: (seq<byte>, seq<byte>))
    ensures e in CodeBlocksFrom(blocks, i)
        <==> exists j :: i <= j && IsCodePair(blocks, j) && PairAt(blocks, j) == e
  {
    if e in CodeBlocksFrom(blocks, i) {
      CollectedIsPair(blocks, i, e);
    }
    if exists j :: i <= j && IsCodePair(blocks, j) && PairAt(blocks, j) == e {
      var j :| i <= j && IsCodePair(blocks, j) && PairAt(blocks, j) == e;
      PairIsCollected(blocks, i, j);
    }
  }

  /** Every collected entry comes from an adjacent header/data pair at or after `i`. */
  lemma {:induction false} CollectedIsPair(blocks: seq<TapBlock>, i: nat, e: (seq<byte>, seq<byte>))
    requires e in CodeBlocksFrom(blocks, i)
    ensures exists j :: i <= j && IsCodePair(blocks, j) && PairAt(blocks, j) == e
    decreases |blocks| - i
  {
    var here := if IsCodePair(blocks, i) then [PairAt(blocks, i)] else [];
    assert CodeBlocksFrom(blocks, i) == here + CodeBlocksFrom(blocks, i + 1);
    if e in here {
      assert IsCodePair(blocks, i) && PairAt(blocks, i) == e;
    } else {
      CollectedIsPair(blocks, i + 1, e);
      var j :| i + 1 <= j && IsCodePair(blocks, j) && PairAt(blocks, j) == e;
      assert i <= j;
    }
  }

  /** Every adjacent header/data pair at or after `i` is collected. */
  lemma {:induction false} PairIsCollected(blocks: seq<TapBlock>, i: nat, j: nat)
    requires i <= j && IsCodePair(blocks, j)
    ensures PairAt(blocks, j) in CodeBlocksFrom(blocks, i)
    decreases j - i
  {
    var here := if IsCodePair(blocks, i) then [PairAt(blocks, i)] else [];
    assert CodeBlocksFrom(blocks, i) == here + CodeBlocksFrom(blocks, i + 1);
    if i < j {
      PairIsCollected(blocks, i + 1, j);
    }
  }

  /** The tape written by `buildTapFile` offers exactly one named code block: its
      trimmed name with the data unchanged. */
  lemma CodeBlocksOfTapFile(data: seq<byte>, name: seq<char>, start: int)
    requires |data| + 2 < 65536
    ensures DecodeBlocks(TapFile(data, name, start), 0).Ok?
    ensures CodeBlocksFrom(DecodeBlocks(TapFile(data, name, start), 0).value, 0)
         == [(Trim(NameField(name)), data)]
  {
    DecodeTapFile(data, name, start);
    var blocks := DecodeBlocks(TapFile(data, name, start), 0).value;
    assert CodeBlocksFrom(blocks, 2) == [];
    assert !IsCodePair(blocks, 1);
    assert CodeBlocksFrom(blocks, 1) == [];
  }
}
