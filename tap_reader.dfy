/** The TAP parser as the editor runs it: `Header._read`, `TapBlock._read` and the
    block loop, each reading through a `TapeStream`, and the header/data pairing of
    `handleLoad`. Each method is proved to compute its specification in `Tap`. */
module TapReader {
  import opened Binary
  import opened Stream
  import opened Tap

  /** Reads the header fields through a fresh cursor over a block payload. */
  method ReadHeader(io: TapeStream) returns (r: Result<Header>)
    requires io.pos == 0
    modifies io
    ensures r == DecodeHeader(io.buf)
  {
    var headerType := io.ReadU1();
    if headerType.Err? {
      return Err(headerType.error);
    }
    var name := io.ReadBytes(10);
    var lenData := io.ReadU2le();
    if lenData.Err? {
      return Err(lenData.error);
    }
    var param1 := io.ReadU2le();
    if param1.Err? {
      return Err(param1.error);
    }
    var param2 := io.ReadU2le();
    if param2.Err? {
      return Err(param2.error);
    }
    assert name == io.buf[1..11];
    r := Ok(Header(headerType.value, Trim(name), lenData.value, param1.value, param2.value));
  }

  /** Reads one block at the cursor: the length, then (for a nonzero length) flag,
      payload and checksum, parsing a flag-0 payload as a header. */
  method ReadBlock(io: TapeStream) returns (r: Result<TapBlock>)
    modifies io
    ensures r.Ok? <==> DecodeBlock(io.buf, old(io.pos)).Ok?
    ensures r.Ok? ==> (r.value, io.pos) == DecodeBlock(io.buf, old(io.pos)).value
    ensures r.Err? ==> r.error == DecodeBlock(io.buf, old(io.pos)).error
  {
    var len := io.ReadU2le();
    if len.Err? {
      return Err(len.error);
    }
    var lenBlock := len.value;
    if lenBlock == 0 {
      return Ok(EmptyBlock);
    }
    var body := io.ReadBytes(lenBlock);
    if body == [] {
      // reading index 0 of an empty Uint8Array gives `undefined`: no flag, no checksum
      return Ok(TapBlock(lenBlock, None, None, None, None));
    }
    var flag := body[0];
    var payload := if |body| >= 2 then body[1..|body| - 1] else [];
    var checksum := body[|body| - 1];
    var header: Option<Header> := None;
    var data: Option<seq<byte>> := None;
    if flag == 0 {
      var hs := new TapeStream(payload);
      var h := ReadHeader(hs);
      if h.Err? {
        return Err(h.error);
      }
      header := Some(h.value);
    } else if flag == 255 {
      data := Some(payload);
    }
    r := Ok(TapBlock(lenBlock, Some(flag), Some(checksum), header, data));
  }

  /** `new ZxSpectrumTap(new TapeStream(buffer))`: blocks are read until the cursor
      reaches the end of the buffer; any read error aborts the whole parse. */
  method DecodeTap(buffer: seq<byte>) returns (r: Result<seq<TapBlock>>)
    ensures r == DecodeBlocks(buffer, 0)
  {
    var io := new TapeStream(buffer);
    var blocks: seq<TapBlock> := [];
    PrependNil(DecodeBlocks(buffer, 0));
    while !io.IsEof()
      invariant io.buf == buffer
      invariant DecodeBlocks(buffer, 0) == Prepend(blocks, DecodeBlocks(buffer, io.pos))
      decreases |buffer| - io.pos
    {
      ghost var pos := io.pos;
      var b := ReadBlock(io);
      if b.Err? {
        return Err(b.error);
      }
      DecodeBlocksStep(buffer, pos, b.value, io.pos);
      PrependConcat(blocks, [b.value], DecodeBlocks(buffer, io.pos));
      blocks := blocks + [b.value];
    }
    assert DecodeBlocks(buffer, io.pos) == Ok([]);
    assert blocks + [] == blocks;
    r := Ok(blocks);
  }

  /** The pairing loop of `handleLoad`: every header block directly followed by a data
      block contributes its file name and that data, in tape order. */
  method SelectCodeBlocks(blocks: seq<TapBlock>) returns (codeBlocks: seq<(seq<byte>, seq<byte>)>)
    ensures codeBlocks == CodeBlocksFrom(blocks, 0)
  {
    codeBlocks := [];
    var i := 0;
    while i < |blocks|
      invariant 0 <= i <= |blocks|
      invariant CodeBlocksFrom(blocks, 0) == codeBlocks + CodeBlocksFrom(blocks, i)
    {
      ghost var before := codeBlocks;
      ghost var here := if IsCodePair(blocks, i) then [PairAt(blocks, i)] else [];
      assert CodeBlocksFrom(blocks, i) == here + CodeBlocksFrom(blocks, i + 1);
      if blocks[i].header.Some? && i + 1 < |blocks| && blocks[i + 1].data.Some? {
        codeBlocks := codeBlocks + [(blocks[i].header.value.filename, blocks[i + 1].data.value)];
      }
      assert codeBlocks == before + here;
      Associative(before, here, CodeBlocksFrom(blocks, i + 1));
      i := i + 1;
    }
    assert codeBlocks + [] == codeBlocks;
  }
  /** Concatenation regroups. */
  lemma Associative<T>(a: seq<T>, b: seq<T>, c: seq<T>)
    ensures a + (b + c) == (a + b) + c
  {
  }

}
