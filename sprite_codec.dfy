/** The two conversion loops of the editor: `buildOption2Data` fills a buffer of
    `totalBytes` record by record through a `DataView`, and `parseOption2Data` walks a
    byte array collecting sprites until a record does not fit. */
module SpriteCodec {
  import opened Binary
  import opened Arith
  import opened Sprites
  import opened SpriteProofs

  /** `spriteSet.reduce((acc, s) => acc + 5 + 9 * s.width * s.height, 0)`. */
  method TotalBytes(sprites: seq<Sprite>) returns (total: nat)
    ensures total == TotalSize(sprites)
  {
    total := 0;
    for i := 0 to |sprites|
      invariant total == SizeBefore(sprites, i)
    {
      SpriteSizeIsProduct(sprites[i]);
      total := total + 5 + 9 * sprites[i].width * sprites[i].height;
    }
  }

  // ---------------------------------------------------------------- building

  /** One round of the builder keeps its buffer equal to the payload up to the bytes
      written so far: the round leaves the prefix alone and writes the next record. */
  lemma PrefixExtend(before: seq<byte>, after: seq<byte>, payload: seq<byte>, off: nat, n: nat)
    requires off + n <= |after| && off + n <= |payload| && off <= |before|
    requires before[..off] == payload[..off] && after[..off] == before[..off]
    requires after[off..off + n] == payload[off..off + n]
    ensures after[..off + n] == payload[..off + n]
  {
    assert after[..off + n] == after[..off] + after[off..off + n];
    assert payload[..off + n] == payload[..off] + payload[off..off + n];
  }

  /** `for (bit = 0; bit < 8; bit++) if (row[base + bit]) byte |= 1 << (7 - bit)`. */
  method PackByte(row: seq<int>, base: nat) returns (b: bv8)
    requires base + 8 <= |row|
    ensures b == PackBits(row, base, 8)
  {
    b := 0;
    for bit := 0 to 8
      invariant b == PackBits(row, base, bit)
    {
      if row[base + bit] != 0 {
        b := b | BitMask(bit);
      }
    }
  }

  /** The pixel loops for one sprite: row `y`, byte `xChar` is packed from pixels
      `xChar * 8 .. xChar * 8 + 7` and stored at `pixOff + y * width + xChar`.
      Nothing outside the pixel area changes. */
  method WritePixels(buf: array<byte>, pixOff: nat, s: Sprite)
    requires Shaped(s) && pixOff + 8 * Area(s.width, s.height) <= buf.Length
    modifies buf
    ensures forall k :: 0 <= k < 8 * Area(s.width, s.height) ==> buf[pixOff + k] == PackedByte(s, k)
    ensures forall j :: 0 <= j < pixOff ==> buf[j] == old(buf[j])
    ensures forall j :: pixOff + 8 * Area(s.width, s.height) <= j < buf.Length ==> buf[j] == old(buf[j])
  {
    var w, h := s.width, s.height;
    AreaIsProduct(w, h);
    assert (h * 8) * w == 8 * Area(w, h);
    ghost var done: nat := 0;
    for y := 0 to h * 8
      invariant done == y * w && done <= 8 * Area(w, h)
      invariant forall k :: 0 <= k < done ==> buf[pixOff + k] == PackedByte(s, k)
      invariant forall j :: 0 <= j < pixOff ==> buf[j] == old(buf[j])
      invariant forall j :: pixOff + 8 * Area(w, h) <= j < buf.Length ==> buf[j] == old(buf[j])
    {
      MulMonotone(y + 1, h * 8, w);
      for xChar := 0 to w
        invariant done == y * w + xChar && done <= 8 * Area(w, h)
        invariant forall k :: 0 <= k < done ==> buf[pixOff + k] == PackedByte(s, k)
        invariant forall j :: 0 <= j < pixOff ==> buf[j] == old(buf[j])
        invariant forall j :: pixOff + 8 * Area(w, h) <= j < buf.Length ==> buf[j] == old(buf[j])
      {
        var b := PackByte(s.pixelData[y], xChar * 8);
        PackedByteAt(s, y, xChar);
        buf[pixOff + y * w + xChar] := b as int;
        done := done + 1;
      }
      assert y * w + w == (y + 1) * w;
    }
  }

  /** The attribute loops for one sprite: attribute (yChar, xChar) is stored at
      `attrOff + yChar * width + xChar`. Nothing outside the attribute area changes. */
  method WriteAttributes(buf: array<byte>, attrOff: nat, s: Sprite)
    requires Shaped(s) && attrOff + Area(s.width, s.height) <= buf.Length
    modifies buf
    ensures forall k :: 0 <= k < Area(s.width, s.height) ==> buf[attrOff + k] == AttrByte(s, k)
    ensures forall j :: 0 <= j < attrOff ==> buf[j] == old(buf[j])
    ensures forall j :: attrOff + Area(s.width, s.height) <= j < buf.Length ==> buf[j] == old(buf[j])
  {
    var w, h := s.width, s.height;
    AreaIsProduct(w, h);
    ghost var done: nat := 0;
    for yChar := 0 to h
      invariant done == yChar * w && done <= Area(w, h)
      invariant forall k :: 0 <= k < done ==> buf[attrOff + k] == AttrByte(s, k)
      invariant forall j :: 0 <= j < attrOff ==> buf[j] == old(buf[j])
      invariant forall j :: attrOff + Area(w, h) <= j < buf.Length ==> buf[j] == old(buf[j])
    {
      MulMonotone(yChar + 1, h, w);
      for xChar := 0 to w
        invariant done == yChar * w + xChar && done <= Area(w, h)
        invariant forall k :: 0 <= k < done ==> buf[attrOff + k] == AttrByte(s, k)
        invariant forall j :: 0 <= j < attrOff ==> buf[j] == old(buf[j])
        invariant forall j :: attrOff + Area(w, h) <= j < buf.Length ==> buf[j] == old(buf[j])
      {
        AttrByteAt(s, yChar, xChar);
        buf[attrOff + yChar * w + xChar] := s.attributeData[yChar][xChar];
        done := done + 1;
      }
      assert yChar * w + w == (yChar + 1) * w;
    }
  }

  /** One round of the builder: the header through `setUint8`/`setUint16`, then the
      pixel and attribute bytes. The record lands at `off`; nothing before or after it changes. */
  method WriteRecord(buf: array<byte>, off: nat, s: Sprite, id: int, next: int)
    requires Shaped(s) && off + SpriteSize(s) <= buf.Length
    modifies buf
    ensures buf[off..off + SpriteSize(s)] == RecordBytes(s, id, next)
    ensures buf[..off] == old(buf[..off])
    ensures buf[off + SpriteSize(s)..] == old(buf[off + SpriteSize(s)..])
  {
    ghost var end := off + SpriteSize(s);
    ghost var before := buf[..];
    var link := U16LE(next);
    buf[off] := ToByte(id);
    buf[off + 1], buf[off + 2] := link[0], link[1];
    buf[off + 3] := ToByte(s.width);
    buf[off + 4] := ToByte(s.height);
    var pixelDataOffset := off + 5;
    WritePixels(buf, pixelDataOffset, s);
    AreaSizes(s.width, s.height);
    var attrDataOffset := pixelDataOffset + 8 * s.height * s.width;
    WriteAttributes(buf, attrDataOffset, s);
    RecordFromParts(buf[..], off, s, id, next);
    assert attrDataOffset + Area(s.width, s.height) == end;
    OutsideUnchanged(before, buf[..], off, end);
  }

  /** Two buffers that agree outside `lo..hi` have the same bytes before `lo` and after `hi`. */
  lemma OutsideUnchanged(before: seq<byte>, after: seq<byte>, lo: nat, hi: nat)
    requires lo <= hi <= |before| == |after|
    requires forall j :: 0 <= j < lo ==> after[j] == before[j]
    requires forall j :: hi <= j < |after| ==> after[j] == before[j]
    ensures after[..lo] == before[..lo] && after[hi..] == before[hi..]
  {
  }

  /** One round of the builder's loop: sprite `i` is written at `currentOffset`, linked
      to `currentAddress + spriteSize` or to 0 when it is the last one. */
  method PlaceRecord(buffer: array<byte>, ghost payload: seq<byte>, sprites: seq<Sprite>, startAddress: int,
                     i: nat, currentOffset: nat, currentAddress: int) returns (spriteSize: nat)
    requires AllShaped(sprites) && i < |sprites| && payload == Option2Data(sprites, startAddress)
    requires currentOffset == SizeBefore(sprites, i) && currentAddress == startAddress + currentOffset
    requires buffer.Length == |payload| && currentOffset <= buffer.Length
    requires buffer[..currentOffset] == payload[..currentOffset]
    modifies buffer
    ensures spriteSize == SpriteSize(sprites[i]) && currentOffset + spriteSize <= buffer.Length
    ensures buffer[..currentOffset + spriteSize] == payload[..currentOffset + spriteSize]
    ensures buffer[currentOffset + spriteSize..] == old(buffer[currentOffset + spriteSize..])
  {
    var sprite := sprites[i];
    SpriteSizeIsProduct(sprite);
    spriteSize := 5 + 9 * sprite.width * sprite.height;
    var nextAddress := if i == |sprites| - 1 then 0 else currentAddress + spriteSize;
    assert nextAddress == NextAddress(sprites, i, startAddress + currentOffset);
    Option2DataRecord(sprites, startAddress, i);
    ghost var record := RecordBytes(sprite, i + 1, nextAddress);
    assert payload[currentOffset..currentOffset + spriteSize] == record;
    ghost var before := buffer[..];
    WriteRecord(buffer, currentOffset, sprite, i + 1, nextAddress);
    ghost var after := buffer[..];
    assert after[currentOffset..currentOffset + spriteSize] == record;
    PrefixExtend(before, after, payload, currentOffset, spriteSize);
  }

  /** `buildOption2Data(startAddress)`: a zeroed buffer of `totalBytes`, then one record
      per sprite at `currentOffset`, linked to `currentAddress + spriteSize` (0 for the last). */
  method BuildOption2Data(sprites: seq<Sprite>, startAddress: int) returns (data: seq<byte>)
    requires AllShaped(sprites)
    ensures data == Option2Data(sprites, startAddress)
  {
    var totalBytes := TotalBytes(sprites);
    var buffer := new byte[totalBytes](_ => 0);
    ghost var payload := Option2Data(sprites, startAddress);
    Option2DataLength(sprites, startAddress);
    var currentOffset: nat, currentAddress := 0, startAddress;
    for i := 0 to |sprites|
      invariant currentOffset == SizeBefore(sprites, i) <= totalBytes
      invariant currentAddress == startAddress + currentOffset
      invariant buffer[..currentOffset] == payload[..currentOffset]
    {
      var spriteSize := PlaceRecord(buffer, payload, sprites, startAddress, i, currentOffset, currentAddress);
      currentOffset := currentOffset + spriteSize;
      currentAddress := currentAddress + spriteSize;
    }
    data := buffer[..];
    assert data == buffer[..currentOffset] && payload == payload[..currentOffset];
  }

  // ---------------------------------------------------------------- parsing

  /** The bit loop of the parser: the eight pixels of the byte at
      `pixOff + y * w + xChar`, bit 7 first, appended to row `y`. */
  method UnpackByte(data: seq<byte>, pixOff: nat, w: nat, h: nat, y: nat, xChar: nat, row: seq<int>)
    returns (r: seq<int>)
    requires y < 8 * h && xChar < w && pixOff + 8 * Area(w, h) <= |data|
    requires row == PixelRow(data, pixOff, w, h, y, xChar * 8)
    ensures r == PixelRow(data, pixOff, w, h, y, xChar * 8 + 8)
  {
    PixelCell(y, xChar, w, h);
    var b := data[pixOff + y * w + xChar];
    r := row;
    ghost var n := xChar * 8;
    for bit := 0 to 8
      invariant n == xChar * 8 + bit && r == PixelRow(data, pixOff, w, h, y, n)
    {
      PixelRowStep(data, pixOff, w, h, y, xChar, bit, n);
      r := r + [PixelAt(b, bit)];
      n := n + 1;
    }
  }

  /** Row `y` of the parser's pixel loops. */
  method UnpackRow(data: seq<byte>, pixOff: nat, w: nat, h: nat, y: nat) returns (row: seq<int>)
    requires y < 8 * h && pixOff + 8 * Area(w, h) <= |data|
    ensures row == PixelRow(data, pixOff, w, h, y, 8 * w)
  {
    row := [];
    for xChar := 0 to w
      invariant row == PixelRow(data, pixOff, w, h, y, xChar * 8)
    {
      row := UnpackByte(data, pixOff, w, h, y, xChar, row);
    }
  }

  /** The pixel loops of the parser: 8*h rows of 8*w pixels. */
  method UnpackPixels(data: seq<byte>, pixOff: nat, w: nat, h: nat) returns (pixelData: seq<seq<int>>)
    requires pixOff + 8 * Area(w, h) <= |data|
    ensures pixelData == PixelGrid(data, pixOff, w, h)
  {
    pixelData := [];
    for y := 0 to h * 8
      invariant pixelData == PixelRows(data, pixOff, w, h, y)
    {
      var row := UnpackRow(data, pixOff, w, h, y);
      pixelData := pixelData + [row];
    }
  }

  /** The attribute loops of the parser: attribute (yChar, xChar) is the byte at
      `attrOff + yChar * w + xChar`. */
  method UnpackAttributes(data: seq<byte>, attrOff: nat, w: nat, h: nat) returns (attributeData: seq<seq<byte>>)
    requires attrOff + Area(w, h) <= |data|
    ensures attributeData == AttrGrid(data, attrOff, w, h)
  {
    attributeData := [];
    for yChar := 0 to h
      invariant attributeData == AttrRows(data, attrOff, w, h, yChar)
    {
      var row: seq<byte> := [];
      for xChar := 0 to w
        invariant row == AttrRow(data, attrOff, w, h, yChar, xChar)
      {
        AttrCell(yChar, xChar, w, h);
        row := row + [data[attrOff + yChar * w + xChar]];
      }
      attributeData := attributeData + [row];
    }
  }

  /** The body of the parser's loop once a record is known to fit: the pixel loops, then
      the attribute loops, over the `w` by `h` cells of the record at `offset`. */
  method UnpackRecord(data: seq<byte>, offset: nat, w: nat, h: nat) returns (sprite: Sprite)
    requires offset + 5 + 9 * Area(w, h) <= |data|
    ensures sprite == ReadSprite(data, offset, w, h)
  {
    var pixelDataOffset := offset + 5;
    var pixelData := UnpackPixels(data, pixelDataOffset, w, h);
    var attrDataOffset := pixelDataOffset + 8 * Area(w, h);
    var attributeData := UnpackAttributes(data, attrDataOffset, w, h);
    sprite := Sprite(w, h, pixelData, attributeData);
  }

  /** `parseOption2Data(data)`: records are read while the next one starts with a nonzero
      id, has a complete header, nonzero dimensions and fits in the buffer. */
  method ParseOption2Data(data: seq<byte>) returns (sprites: seq<Sprite>)
    ensures sprites == ParseFrom(data, 0)
  {
    sprites := [];
    var offset: nat := 0;
    while offset < |data|
      invariant sprites + ParseFrom(data, offset) == ParseFrom(data, 0)
      decreases |data| - offset
    {
      if data[offset] == 0 || offset + 5 > |data| {
        ParseEmpty(data, offset);
        break;
      }
      var spriteLenChars: nat, spriteHgtChars: nat := data[offset + 3], data[offset + 4];
      if spriteLenChars == 0 || spriteHgtChars == 0 {
        ParseEmpty(data, offset);
        break;
      }
      AreaSizes(spriteLenChars, spriteHgtChars);
      var pixelDataSize := 8 * spriteHgtChars * spriteLenChars;
      var attrDataSize := spriteHgtChars * spriteLenChars;
      var totalSpriteSize := 5 + pixelDataSize + attrDataSize;
      if offset + totalSpriteSize > |data| {
        ParseEmpty(data, offset);
        break;
      }
      var sprite := UnpackRecord(data, offset, spriteLenChars, spriteHgtChars);
      ParseRound(data, offset, sprites, totalSpriteSize);
      sprites := sprites + [sprite];
      offset := offset + totalSpriteSize;
    }
    ParseEmpty(data, offset);
    assert sprites + [] == sprites;
  }

  /** One round of the parser keeps its invariant: the sprites read so far followed by what
      parsing from the new offset gives is the whole parse. */
  lemma ParseRound(data: seq<byte>, offset: nat, sprites: seq<Sprite>, total: nat)
    requires RecordFits(data, offset) && total == 5 + 9 * Area(data[offset + 3], data[offset + 4])
    ensures var sprite := ReadSprite(data, offset, data[offset + 3], data[offset + 4]);
      sprites + ParseFrom(data, offset) == (sprites + [sprite]) + ParseFrom(data, offset + total)
  {
    ParseGoesOn(data, offset);
  }
}
