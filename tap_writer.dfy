/** The TAP writer: `createTapBlock` frames one payload, `buildTapFile` writes the
    17-byte code header and the data block behind it. */
module TapWriter {
  import opened Binary
  import opened Tap

  /** Frames `payload` as a block: the length field counts flag, payload and checksum,
      and the checksum is the XOR of the flag with every payload byte. */
  method CreateTapBlock(flag: byte, payload: seq<byte>) returns (block: seq<byte>)
    ensures |block| == |payload| + 4
    ensures block[..2] == U16LE(|payload| + 2)
    ensures block[2] == flag && block[3..|block| - 1] == payload
    ensures block[|block| - 1] == Xor([flag] + payload)
    ensures block == EncodeBlock(flag, payload)
  {
    var contents := new byte[1 + |payload|](_ => 0);
    contents[0] := flag;
    forall k | 0 <= k < |payload| {
      contents[1 + k] := payload[k];
    }
    assert contents[..] == [flag] + payload;
    var checksum := Checksum(contents);
    assert checksum == Xor([flag] + payload);
    var full := new byte[2 + contents.Length + 1](_ => 0);
    var len := U16LE(contents.Length + 1);
    assert len == U16LE(|payload| + 2);
    full[0], full[1] := len[0], len[1];
    forall k | 0 <= k < contents.Length {
      full[2 + k] := contents[k];
    }
    full[full.Length - 1] := checksum;
    block := full[..];
    Framed(block, len, contents[..], checksum);
    EncodeBlockLayout(flag, payload);
    assert block == EncodeBlock(flag, payload);
  }

  /** The checksum loop of `createTapBlock`: the XOR of every byte of `contents`. */
  method Checksum(contents: array<byte>) returns (checksum: byte)
    ensures checksum == Xor(contents[..])
  {
    checksum := 0;
    for k := 0 to contents.Length
      invariant checksum == XorUpTo(contents[..], k)
    {
      checksum := XorByte(checksum, contents[k]);
    }
  }

  /** A buffer holding a two-byte length, the contents and the checksum, byte by byte,
      is their concatenation. */
  lemma Framed(full: seq<byte>, len: seq<byte>, contents: seq<byte>, checksum: byte)
    requires |len| == 2 && |full| == 2 + |contents| + 1
    requires full[0] == len[0] && full[1] == len[1] && full[|full| - 1] == checksum
    requires forall k :: 0 <= k < |contents| ==> full[2 + k] == contents[k]
    ensures full == len + contents + [checksum]
  {
  }

  /** Writes the tape for `spriteData` named `filename` and loaded at `startAddress`. */
  method BuildTapFile(spriteData: seq<byte>, filename: seq<char>, startAddress: int) returns (tap: seq<byte>)
    ensures tap == TapFile(spriteData, filename, startAddress)
    ensures |tap| == 21 + |spriteData| + 4
  {
    var headerPayload := new byte[17](_ => 0);
    headerPayload[0] := 3;
    for i := 0 to 10
      invariant headerPayload[0] == 3
      invariant forall j :: 0 <= j < i ==> headerPayload[1 + j] == NameField(filename)[j]
    {
      headerPayload[i + 1] := if i < |filename| then ToByte(filename[i] as int) else 32;
    }
    var dataLen, start, param2 := U16LE(|spriteData|), U16LE(startAddress), U16LE(32768);
    headerPayload[11], headerPayload[12] := dataLen[0], dataLen[1];
    headerPayload[13], headerPayload[14] := start[0], start[1];
    headerPayload[15], headerPayload[16] := param2[0], param2[1];
    assert headerPayload[..] == HeaderPayload(|spriteData|, filename, startAddress);
    var headerBlock := CreateTapBlock(0, headerPayload[..]);
    var dataBlock := CreateTapBlock(255, spriteData);
    tap := headerBlock + dataBlock;
  }
}
