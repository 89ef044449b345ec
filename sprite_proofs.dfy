/** What is proved about the sprite records: where each field of a record lies, that the
    payload is the records laid end to end, that the parser only ever returns whole,
    well-formed records, and that parsing a built payload gives the sprites back. */
module SpriteProofs {
  import opened Binary
  import opened Arith
  import opened Sprites

  // ---------------------------------------------------------------- one record

  lemma SliceIndex(data: seq<byte>, off: nat, r: seq<byte>, j: nat)
    requires off + |r| <= |data| && data[off..off + |r|] == r && j < |r|
    ensures data[off + j] == r[j]
  {
    assert data[off..off + |r|][j] == data[off + j];
  }

  lemma SplitSuffix(a: seq<byte>, off: nat, r: seq<byte>, rest: seq<byte>, n: nat)
    requires off <= |a| && a[off..] == r + rest && |r| == n
    ensures off + n <= |a| && a[off..off + n] == r && a[off + n..] == rest
  {
    assert a[off..off + |r|] == a[off..][..|r|];
    assert a[off + |r|..] == a[off..][|r|..];
  }

  /** Where each field of a record lies. */
  lemma RecordFields(s: Sprite, id: int, next: int)
    requires Shaped(s)
    ensures var r := RecordBytes(s, id, next);
      && r[0] == ToByte(id) && r[1..3] == U16LE(next)
      && r[3] == ToByte(s.width) && r[4] == ToByte(s.height)
      && r[5..5 + 8 * Area(s.width, s.height)] == PixelBytes(s)
      && r[5 + 8 * Area(s.width, s.height)..] == AttrBytes(s)
  {
    var head := [ToByte(id)] + U16LE(next) + [ToByte(s.width), ToByte(s.height)];
    var r := RecordBytes(s, id, next);
    assert |head| == 5;
    assert r == head + PixelBytes(s) + AttrBytes(s);
    assert r[1..3] == head[1..3];
  }

  /** The five header bytes of a record found in a buffer. */
  lemma RecordHeader(data: seq<byte>, off: nat, s: Sprite, id: int, next: int)
    requires Shaped(s)
    requires off + SpriteSize(s) <= |data| && data[off..off + SpriteSize(s)] == RecordBytes(s, id, next)
    ensures data[off] == id % 256 && data[off + 1..off + 3] == U16LE(next)
    ensures data[off + 3] == s.width % 256 && data[off + 4] == s.height % 256
  {
    var r := RecordBytes(s, id, next);
    RecordFields(s, id, next);
    SliceIndex(data, off, r, 0);
    SliceIndex(data, off, r, 3);
    SliceIndex(data, off, r, 4);
    SliceIndex(data, off, r, 1);
    SliceIndex(data, off, r, 2);
    assert data[off + 1..off + 3] == [r[1], r[2]] == r[1..3];
  }

  /** A record assembled field by field: the five header bytes, then pixel byte `k` at
      `off + 5 + k`, then attribute byte `k` after the pixels. */
  lemma RecordFromParts(data: seq<byte>, off: nat, s: Sprite, id: int, next: int)
    requires Shaped(s) && off + SpriteSize(s) <= |data|
    requires data[off] == ToByte(id) && data[off + 1] == U16LE(next)[0] && data[off + 2] == U16LE(next)[1]
    requires data[off + 3] == ToByte(s.width) && data[off + 4] == ToByte(s.height)
    requires forall k :: 0 <= k < 8 * Area(s.width, s.height) ==> data[off + 5 + k] == PackedByte(s, k)
    requires forall k :: 0 <= k < Area(s.width, s.height) ==> data[off + 5 + 8 * Area(s.width, s.height) + k] == AttrByte(s, k)
    ensures data[off..off + SpriteSize(s)] == RecordBytes(s, id, next)
  {
    var a := Area(s.width, s.height);
    var head := data[off..off + 5];
    var pixels := data[off + 5..off + 5 + 8 * a];
    var attrs := data[off + 5 + 8 * a..off + SpriteSize(s)];
    forall k | 0 <= k < 8 * a
      ensures pixels[k] == PixelBytes(s)[k]
    {
      PackedBytesIndex(s, 8 * a, k);
    }
    forall k | 0 <= k < a
      ensures attrs[k] == AttrBytes(s)[k]
    {
      AttrBytesIndex(s, a, k);
    }
    assert head == [ToByte(id)] + U16LE(next) + [ToByte(s.width), ToByte(s.height)];
    assert data[off..off + SpriteSize(s)] == head + pixels + attrs;
  }

  lemma RecordPixelByte(data: seq<byte>, off: nat, s: Sprite, id: int, next: int, k: nat)
    requires Shaped(s) && k < 8 * Area(s.width, s.height)
    requires off + SpriteSize(s) <= |data| && data[off..off + SpriteSize(s)] == RecordBytes(s, id, next)
    ensures data[off + 5 + k] == PackedByte(s, k)
  {
    var r := RecordBytes(s, id, next);
    RecordFields(s, id, next);
    SliceIndex(data, off, r, 5 + k);
    assert r[5 + k] == PixelBytes(s)[k];
    PackedBytesIndex(s, 8 * Area(s.width, s.height), k);
  }

  lemma RecordAttrByte(data: seq<byte>, off: nat, s: Sprite, id: int, next: int, k: nat)
    requires Shaped(s) && k < Area(s.width, s.height)
    requires off + SpriteSize(s) <= |data| && data[off..off + SpriteSize(s)] == RecordBytes(s, id, next)
    ensures data[off + 5 + 8 * Area(s.width, s.height) + k] == AttrByte(s, k)
  {
    var r := RecordBytes(s, id, next);
    RecordFields(s, id, next);
    SliceIndex(data, off, r, 5 + 8 * Area(s.width, s.height) + k);
    assert r[5 + 8 * Area(s.width, s.height) + k] == AttrBytes(s)[k];
    AttrBytesIndex(s, Area(s.width, s.height), k);
  }

  /** Pixel byte (y, xb) packs pixels `8 * xb` to `8 * xb + 7` of row `y`. */
  lemma PackedByteAt(s: Sprite, y: nat, xb: nat)
    requires Shaped(s) && y < 8 * s.height && xb < s.width
    ensures y * s.width + xb < 8 * Area(s.width, s.height)
    ensures PackedByte(s, y * s.width + xb) == PackBits(s.pixelData[y], xb * 8, 8) as int
  {
    PixelCell(y, xb, s.width, s.height);
  }

  lemma AttrByteAt(s: Sprite, y: nat, x: nat)
    requires Shaped(s) && y < s.height && x < s.width
    ensures y * s.width + x < Area(s.width, s.height)
    ensures AttrByte(s, y * s.width + x) == s.attributeData[y][x]
  {
    AttrCell(y, x, s.width, s.height);
  }

  lemma RecordPixel(data: seq<byte>, off: nat, s: Sprite, id: int, next: int, y: nat, x: nat)
    requires WellFormed(s) && y < 8 * s.height && x < 8 * s.width
    requires off + SpriteSize(s) <= |data| && data[off..off + SpriteSize(s)] == RecordBytes(s, id, next)
    ensures ReadPixel(data, off + 5, s.width, s.height, y, x) == s.pixelData[y][x]
  {
    var xb, bit := x / 8, x % 8;
    assert xb * 8 + bit == x;
    PackedByteAt(s, y, xb);
    RecordPixelByte(data, off, s, id, next, y * s.width + xb);
    UnpackPacked(s.pixelData[y], xb * 8, bit);
  }

  lemma RecordAttr(data: seq<byte>, off: nat, s: Sprite, id: int, next: int, y: nat, x: nat)
    requires WellFormed(s) && y < s.height && x < s.width
    requires off + SpriteSize(s) <= |data| && data[off..off + SpriteSize(s)] == RecordBytes(s, id, next)
    ensures ReadAttr(data, off + 5 + 8 * Area(s.width, s.height), s.width, s.height, y, x) == s.attributeData[y][x]
  {
    AttrByteAt(s, y, x);
    RecordAttrByte(data, off, s, id, next, y * s.width + x);
  }

  /** Reading a record back yields the sprite that was written, for any id and link. */
  lemma ReadRecord(data: seq<byte>, off: nat, s: Sprite, id: int, next: int)
    requires WellFormed(s)
    requires off + SpriteSize(s) <= |data| && data[off..off + SpriteSize(s)] == RecordBytes(s, id, next)
    ensures off + 5 + 8 * Area(s.width, s.height) + Area(s.width, s.height) <= |data|
    ensures ReadSprite(data, off, s.width, s.height) == s
  {
    var w, h := s.width, s.height;
    var pixOff, attrOff := off + 5, off + 5 + 8 * Area(w, h);
    var t := ReadSprite(data, off, w, h);
    forall y | 0 <= y < 8 * h
      ensures t.pixelData[y] == s.pixelData[y]
    {
      PixelRowsIndex(data, pixOff, w, h, 8 * h, y);
      forall x | 0 <= x < 8 * w
        ensures t.pixelData[y][x] == s.pixelData[y][x]
      {
        PixelRowIndex(data, pixOff, w, h, y, 8 * w, x);
        RecordPixel(data, off, s, id, next, y, x);
      }
    }
    forall y | 0 <= y < h
      ensures t.attributeData[y] == s.attributeData[y]
    {
      AttrRowsIndex(data, attrOff, w, h, h, y);
      forall x | 0 <= x < w
        ensures t.attributeData[y][x] == s.attributeData[y][x]
      {
        AttrRowIndex(data, attrOff, w, h, y, w, x);
        RecordAttr(data, off, s, id, next, y, x);
      }
    }
  }

  // ---------------------------------------------------------------- the payload

  /** The buffer holds, from `off` to its end, the records of the sprites from index `i`
      on, the first placed at address `addr`. */
  predicate RecordsAt(data: seq<byte>, off: nat, sprites: seq<Sprite>, i: nat, addr: int)
    requires AllShaped(sprites)
    decreases |sprites| - i
  {
    if i >= |sprites| then off == |data|
    else
      && off + SpriteSize(sprites[i]) <= |data|
      && data[off..off + SpriteSize(sprites[i])] == RecordBytes(sprites[i], i + 1, NextAddress(sprites, i, addr))
      && RecordsAt(data, off + SpriteSize(sprites[i]), sprites, i + 1, addr + SpriteSize(sprites[i]))
  }

  /** A buffer that ends with the records from index `i` holds record `i` first. */
  lemma RecordAt(data: seq<byte>, off: nat, sprites: seq<Sprite>, i: nat, addr: int)
    requires AllShaped(sprites) && i < |sprites|
    requires off <= |data| && data[off..] == EncodeFrom(sprites, i, addr)
    ensures off + SpriteSize(sprites[i]) <= |data|
    ensures data[off..off + SpriteSize(sprites[i])] == RecordBytes(sprites[i], i + 1, NextAddress(sprites, i, addr))
    ensures data[off + SpriteSize(sprites[i])..] == EncodeFrom(sprites, i + 1, addr + SpriteSize(sprites[i]))
  {
    EncodeFromCons(sprites, i, addr);
    SplitSuffix(data, off, RecordBytes(sprites[i], i + 1, NextAddress(sprites, i, addr)),
      EncodeFrom(sprites, i + 1, addr + SpriteSize(sprites[i])), SpriteSize(sprites[i]));
  }

  lemma {:induction false} EncodedRecordsAt(data: seq<byte>, off: nat, sprites: seq<Sprite>, i: nat, addr: int)
    requires AllShaped(sprites) && i <= |sprites|
    requires off <= |data| && data[off..] == EncodeFrom(sprites, i, addr)
    ensures RecordsAt(data, off, sprites, i, addr)
    decreases |sprites| - i
  {
    if i < |sprites| {
      RecordAt(data, off, sprites, i, addr);
      EncodedRecordsAt(data, off + SpriteSize(sprites[i]), sprites, i + 1, addr + SpriteSize(sprites[i]));
    } else {
      assert off == |data|;
    }
  }

  /** The payload holds every record, one after the other, from its first byte to its last. */
  lemma Option2DataRecords(sprites: seq<Sprite>, startAddress: int)
    requires AllShaped(sprites)
    ensures RecordsAt(Option2Data(sprites, startAddress), 0, sprites, 0, startAddress)
  {
    var data := Option2Data(sprites, startAddress);
    assert data[0..] == data;
    EncodedRecordsAt(data, 0, sprites, 0, startAddress);
  }

  lemma {:induction false} RecordsAtLength(data: seq<byte>, off: nat, sprites: seq<Sprite>, i: nat, addr: int)
    requires AllShaped(sprites) && i <= |sprites| && RecordsAt(data, off, sprites, i, addr)
    ensures |data| == off + TotalSize(sprites) - SizeBefore(sprites, i)
    decreases |sprites| - i
  {
    if i < |sprites| {
      RecordsAtLength(data, off + SpriteSize(sprites[i]), sprites, i + 1, addr + SpriteSize(sprites[i]));
    }
  }

  /** Record `j` of a payload that starts at byte 0 lies after the records before it. */
  lemma RecordsAtIndex(data: seq<byte>, sprites: seq<Sprite>, start: int, j: nat)
    requires AllShaped(sprites) && j < |sprites| && RecordsAt(data, 0, sprites, 0, start)
    ensures var off := SizeBefore(sprites, j);
      && off + SpriteSize(sprites[j]) <= |data|
      && data[off..off + SpriteSize(sprites[j])]
         == RecordBytes(sprites[j], j + 1, NextAddress(sprites, j, start + off))
  {
    RecordsAtSkip(data, 0, sprites, 0, start, start, j);
    RecordsAtHead(data, SizeBefore(sprites, j), sprites, j, start + SizeBefore(sprites, j));
  }

  /** The records from `i` on, the first at `off` and address `addr`, include those from
      any later `j` on, each where it belongs. */
  lemma {:induction false} RecordsAtSkip(data: seq<byte>, off: nat, sprites: seq<Sprite>, i: nat, addr: int, start: int, j: nat)
    requires AllShaped(sprites) && i <= j <= |sprites| && RecordsAt(data, off, sprites, i, addr)
    requires off == SizeBefore(sprites, i) && addr == start + off
    ensures RecordsAt(data, SizeBefore(sprites, j), sprites, j, start + SizeBefore(sprites, j))
    decreases j - i
  {
    if i < j {
      RecordsAtSkip(data, off + SpriteSize(sprites[i]), sprites, i + 1, addr + SpriteSize(sprites[i]), start, j);
    }
  }

  /** The first record of a `RecordsAt` layout. */
  lemma RecordsAtHead(data: seq<byte>, off: nat, sprites: seq<Sprite>, i: nat, addr: int)
    requires AllShaped(sprites) && i < |sprites| && RecordsAt(data, off, sprites, i, addr)
    ensures off + SpriteSize(sprites[i]) <= |data|
    ensures data[off..off + SpriteSize(sprites[i])] == RecordBytes(sprites[i], i + 1, NextAddress(sprites, i, addr))
  {
  }

  /** The header of record `i` in a payload described by `RecordsAt`. */
  lemma RecordsLayout(data: seq<byte>, sprites: seq<Sprite>, start: int, i: nat)
    requires AllShaped(sprites) && i < |sprites| && RecordsAt(data, 0, sprites, 0, start)
    ensures var off := SizeBefore(sprites, i);
      var next := if i == |sprites| - 1 then 0 else start + SizeBefore(sprites, i + 1);
      && off + SpriteSize(sprites[i]) <= |data|
      && data[off] == (i + 1) % 256
      && data[off + 1..off + 3] == U16LE(next)
      && data[off + 3] == sprites[i].width % 256
      && data[off + 4] == sprites[i].height % 256
  {
    var off := SizeBefore(sprites, i);
    RecordsAtIndex(data, sprites, start, i);
    RecordHeader(data, off, sprites[i], i + 1, NextAddress(sprites, i, start + off));
    assert NextAddress(sprites, i, start + off) == if i == |sprites| - 1 then 0 else start + SizeBefore(sprites, i + 1);
  }

  /** The payload is exactly as long as the sizes `handleSave` adds up. */
  lemma Option2DataLength(sprites: seq<Sprite>, startAddress: int)
    requires AllShaped(sprites)
    ensures |Option2Data(sprites, startAddress)| == TotalSize(sprites)
  {
    Option2DataRecords(sprites, startAddress);
    RecordsAtLength(Option2Data(sprites, startAddress), 0, sprites, 0, startAddress);
  }

  /** Record `i` starts at the sum of the sizes before it, carries id `i + 1` (modulo 256),
      its width and height, and links to the address just past itself, except the last,
      which links to 0. */
  lemma Option2DataLayout(sprites: seq<Sprite>, startAddress: int, i: nat)
    requires AllShaped(sprites) && i < |sprites|
    ensures var data, off := Option2Data(sprites, startAddress), SizeBefore(sprites, i);
      var next := if i == |sprites| - 1 then 0 else startAddress + SizeBefore(sprites, i + 1);
      && off + SpriteSize(sprites[i]) <= |data|
      && data[off] == (i + 1) % 256
      && data[off + 1..off + 3] == U16LE(next)
      && data[off + 3] == sprites[i].width % 256
      && data[off + 4] == sprites[i].height % 256
  {
    Option2DataRecords(sprites, startAddress);
    RecordsLayout(Option2Data(sprites, startAddress), sprites, startAddress, i);
  }

  /** Record `i` of the payload is the record `RecordBytes` lays out for sprite `i`. */
  lemma Option2DataRecord(sprites: seq<Sprite>, startAddress: int, i: nat)
    requires AllShaped(sprites) && i < |sprites|
    ensures var data, off := Option2Data(sprites, startAddress), SizeBefore(sprites, i);
      && off + SpriteSize(sprites[i]) <= |data|
      && data[off..off + SpriteSize(sprites[i])]
         == RecordBytes(sprites[i], i + 1, NextAddress(sprites, i, startAddress + off))
  {
    Option2DataRecords(sprites, startAddress);
    RecordsAtIndex(Option2Data(sprites, startAddress), sprites, startAddress, i);
  }

  // ---------------------------------------------------------------- parsing

  /** A record read from any bytes has 0/1 pixels, since each is one bit of a byte. */
  lemma ReadSpriteBinary(data: seq<byte>, offset: nat, w: nat, h: nat)
    requires offset + 5 + 8 * Area(w, h) + Area(w, h) <= |data|
    ensures var s := ReadSprite(data, offset, w, h);
      forall y, x :: 0 <= y < |s.pixelData| && 0 <= x < |s.pixelData[y]| ==>
        s.pixelData[y][x] == 0 || s.pixelData[y][x] == 1
  {
    var s := ReadSprite(data, offset, w, h);
    forall y, x | 0 <= y < |s.pixelData| && 0 <= x < |s.pixelData[y]|
      ensures s.pixelData[y][x] == 0 || s.pixelData[y][x] == 1
    {
      PixelRowsIndex(data, offset + 5, w, h, 8 * h, y);
      PixelRowIndex(data, offset + 5, w, h, y, 8 * w, x);
    }
  }

  /** The parser returns nothing exactly when no record fits at `offset`. */
  lemma ParseEmpty(data: seq<byte>, offset: nat)
    ensures ParseFrom(data, offset) == [] <==> !RecordFits(data, offset)
  {
  }

  /** When a record fits at `offset`, it is read and parsing resumes right after it. */
  lemma ParseGoesOn(data: seq<byte>, offset: nat)
    requires RecordFits(data, offset)
    ensures var w: nat, h: nat := data[offset + 3], data[offset + 4];
      ParseFrom(data, offset) == [ReadSprite(data, offset, w, h)] + ParseFrom(data, offset + 5 + 9 * Area(w, h))
  {
  }

  /** The parser never returns a partial or malformed record: every sprite it returns has
      nonzero byte-sized dimensions, grids of exactly the right shape and 0/1 pixels. */
  lemma {:induction false} ParseWellFormed(data: seq<byte>, offset: nat)
    ensures AllWellFormed(ParseFrom(data, offset))
    decreases |data| - offset
  {
    var r := ParseFrom(data, offset);
    if r != [] {
      ParseEmpty(data, offset);
      ParseGoesOn(data, offset);
      var w: nat, h: nat := data[offset + 3], data[offset + 4];
      var s := ReadSprite(data, offset, w, h);
      var rest := ParseFrom(data, offset + 5 + 9 * Area(w, h));
      ParseWellFormed(data, offset + 5 + 9 * Area(w, h));
      ReadSpriteBinary(data, offset, w, h);
      assert WellFormed(s);
      forall i | 0 <= i < |r| ensures WellFormed(r[i]) {
        if i > 0 {
          assert r[i] == rest[i - 1];
        }
      }
    }
  }

  /** The records the parser returns fit, together, in the bytes after `offset`. */
  lemma {:induction false} ParseFits(data: seq<byte>, offset: nat)
    requires offset <= |data|
    ensures TotalSize(ParseFrom(data, offset)) <= |data| - offset
    decreases |data| - offset
  {
    var r := ParseFrom(data, offset);
    if r != [] {
      ParseEmpty(data, offset);
      ParseGoesOn(data, offset);
      var w: nat, h: nat := data[offset + 3], data[offset + 4];
      var s := ReadSprite(data, offset, w, h);
      var rest := ParseFrom(data, offset + 5 + 9 * Area(w, h));
      ParseFits(data, offset + 5 + 9 * Area(w, h));
      TotalSizeCons(s, rest);
      assert SpriteSize(s) == 5 + 9 * Area(w, h);
      assert TotalSize(r) == SpriteSize(s) + TotalSize(rest);
    }
  }

  /** A well-formed record with a nonzero id is parsed back whole, and parsing resumes
      right after it. */
  lemma ParseStep(data: seq<byte>, off: nat, s: Sprite, id: int, next: int, tail: seq<Sprite>)
    requires WellFormed(s) && 1 <= id <= 255
    requires off + SpriteSize(s) <= |data| && data[off..off + SpriteSize(s)] == RecordBytes(s, id, next)
    requires ParseFrom(data, off + SpriteSize(s)) == tail
    ensures ParseFrom(data, off) == [s] + tail
  {
    RecordHeader(data, off, s, id, next);
    ReadRecord(data, off, s, id, next);
  }

  /** Parsing a buffer that holds the records from index `i` on gives back the sprites
      from index `i` on. */
  lemma {:induction false} ParseEncoded(data: seq<byte>, off: nat, sprites: seq<Sprite>, i: nat, addr: int)
    requires AllWellFormed(sprites) && |sprites| <= 255 && i <= |sprites|
    requires AllShaped(sprites) && RecordsAt(data, off, sprites, i, addr)
    ensures ParseFrom(data, off) == sprites[i..]
    decreases |sprites| - i
  {
    if i < |sprites| {
      var s := sprites[i];
      ParseEncoded(data, off + SpriteSize(s), sprites, i + 1, addr + SpriteSize(s));
      ParseStep(data, off, s, i + 1, NextAddress(sprites, i, addr), sprites[i + 1..]);
      ConsSuffix(sprites, i);
    }
  }

  lemma ConsSuffix<T>(xs: seq<T>, i: nat)
    requires i < |xs|
    ensures xs[i..] == [xs[i]] + xs[i + 1..]
  {
  }

  /** `parseOption2Data(buildOption2Data(S, a)) == S` for up to 255 well-formed sprites. */
  lemma RoundTrip(sprites: seq<Sprite>, startAddress: int)
    requires AllWellFormed(sprites) && |sprites| <= 255
    ensures ParseFrom(Option2Data(sprites, startAddress), 0) == sprites
  {
    assert AllShaped(sprites);
    Option2DataRecords(sprites, startAddress);
    ParseEncoded(Option2Data(sprites, startAddress), 0, sprites, 0, startAddress);
  }

  /** A buffer that ends inside a record, after any number of its bytes, yields nothing
      at that record: when the header is there its id is nonzero and its dimensions are
      the sprite's, and the total they give runs past the end. */
  lemma TruncatedStop(data: seq<byte>, off: nat, m: nat, s: Sprite, id: int, next: int)
    requires WellFormed(s) && 1 <= id <= 255 && m < SpriteSize(s)
    requires off + SpriteSize(s) <= |data| && data[off..off + SpriteSize(s)] == RecordBytes(s, id, next)
    ensures ParseFrom(data[..off + m], off) == []
  {
    RecordHeader(data, off, s, id, next);
    var d := data[..off + m];
    if off + 5 <= |d| {
      assert d[off] == data[off] && d[off + 3] == data[off + 3] && d[off + 4] == data[off + 4];
    }
    ParseEmpty(d, off);
  }

  /** A complete record before the cut is parsed back whole from the cut-off buffer. */
  lemma TruncatedStep(data: seq<byte>, d: seq<byte>, off: nat, s: Sprite, id: int, next: int)
    requires WellFormed(s) && 1 <= id <= 255 && off + SpriteSize(s) <= |d| <= |data|
    requires d == data[..|d|] && data[off..off + SpriteSize(s)] == RecordBytes(s, id, next)
    ensures ParseFrom(d, off) == [s] + ParseFrom(d, off + SpriteSize(s))
  {
    assert d[off..off + SpriteSize(s)] == data[off..off + SpriteSize(s)];
    ParseStep(d, off, s, id, next, ParseFrom(d, off + SpriteSize(s)));
  }

  /** A chain of results, each the next element glued to the following result and the
      last one empty, spells out the elements from where it starts. */
  lemma {:induction false} ConsChain<T>(xs: seq<T>, rs: seq<seq<T>>, i: nat)
    requires i < |rs| <= |xs| + 1
    requires forall j :: i <= j < |rs| - 1 ==> rs[j] == [xs[j]] + rs[j + 1]
    requires rs[|rs| - 1] == []
    ensures rs[i] == xs[i..|rs| - 1]
    decreases |rs| - i
  {
    if i < |rs| - 1 {
      ConsChain(xs, rs, i + 1);
      assert xs[i..|rs| - 1] == [xs[i]] + xs[i + 1..|rs| - 1];
    }
  }

  /** The parser's result on `d` from the place of record `j`. */
  function ParseAtRecord(d: seq<byte>, sprites: seq<Sprite>, j: nat): seq<Sprite>
    requires j <= |sprites|
  {
    ParseFrom(d, SizeBefore(sprites, j))
  }

  /** Record `j` lies whole inside a prefix `d` that reaches record `k > j`; the parser
      reads it there and goes on at record `j + 1`. */
  lemma CutStep(data: seq<byte>, d: seq<byte>, sprites: seq<Sprite>, start: int, j: nat, k: nat)
    requires j < k < |sprites| <= 255 && WellFormed(sprites[j])
    requires SizeBefore(sprites, k) <= |d| <= |data| && d == data[..|d|]
    requires SizeBefore(sprites, j) + SpriteSize(sprites[j]) <= |data|
    requires data[SizeBefore(sprites, j)..SizeBefore(sprites, j) + SpriteSize(sprites[j])]
      == RecordBytes(sprites[j], j + 1, NextAddress(sprites, j, start + SizeBefore(sprites, j)))
    ensures ParseAtRecord(d, sprites, j) == [sprites[j]] + ParseAtRecord(d, sprites, j + 1)
  {
    var off, after := SizeBefore(sprites, j), SizeBefore(sprites, j + 1);
    assert after == off + SpriteSize(sprites[j]);
    SizeBeforeMonotone(sprites, j + 1, k);
    TruncatedStep(data, d, off, sprites[j], j + 1, NextAddress(sprites, j, start + off));
    assert ParseAtRecord(d, sprites, j + 1) == ParseFrom(d, after);
  }

  /** A prefix `d` that ends inside record `k` holds nothing the parser reads at record `k`. */
  lemma CutEnd(data: seq<byte>, d: seq<byte>, sprites: seq<Sprite>, start: int, k: nat)
    requires k < |sprites| <= 255 && WellFormed(sprites[k])
    requires SizeBefore(sprites, k) <= |d| < SizeBefore(sprites, k) + SpriteSize(sprites[k])
    requires SizeBefore(sprites, k) + SpriteSize(sprites[k]) <= |data| && d == data[..|d|]
    requires data[SizeBefore(sprites, k)..SizeBefore(sprites, k) + SpriteSize(sprites[k])]
      == RecordBytes(sprites[k], k + 1, NextAddress(sprites, k, start + SizeBefore(sprites, k)))
    ensures ParseAtRecord(d, sprites, k) == []
  {
    var off := SizeBefore(sprites, k);
    assert data[..off + (|d| - off)] == d;
    TruncatedStop(data, off, |d| - off, sprites[k], k + 1, NextAddress(sprites, k, start + off));
  }

  /** In `d`, a buffer of records cut off inside record `k`, the parser reads each record
      before `k` at its place and goes on at the next one, and stops at record `k`. */
  lemma CutRecords(data: seq<byte>, d: seq<byte>, sprites: seq<Sprite>, start: int, k: nat)
    requires AllWellFormed(sprites) && |sprites| <= 255 && k < |sprites|
    requires AllShaped(sprites) && RecordsAt(data, 0, sprites, 0, start)
    requires |d| <= |data| && d == data[..|d|]
    requires SizeBefore(sprites, k) <= |d| < SizeBefore(sprites, k) + SpriteSize(sprites[k])
    ensures forall j :: 0 <= j < k ==>
      ParseAtRecord(d, sprites, j) == [sprites[j]] + ParseAtRecord(d, sprites, j + 1)
    ensures ParseAtRecord(d, sprites, k) == []
  {
    forall j | 0 <= j < k
      ensures ParseAtRecord(d, sprites, j) == [sprites[j]] + ParseAtRecord(d, sprites, j + 1)
    {
      RecordsAtIndex(data, sprites, start, j);
      CutStep(data, d, sprites, start, j, k);
    }
    RecordsAtIndex(data, sprites, start, k);
    CutEnd(data, d, sprites, start, k);
  }

  /** When the parser reads record `j` at its place for every `j` before `k` and stops at
      record `k`, parsing from the start gives the first `k` records. */
  lemma ParseChain(d: seq<byte>, sprites: seq<Sprite>, k: nat)
    requires k < |sprites|
    requires forall j :: 0 <= j < k ==>
      ParseAtRecord(d, sprites, j) == [sprites[j]] + ParseAtRecord(d, sprites, j + 1)
    requires ParseAtRecord(d, sprites, k) == []
    ensures ParseFrom(d, 0) == sprites[..k]
  {
    var rs := seq(k + 1, j requires 0 <= j <= k => ParseAtRecord(d, sprites, j));
    ConsChain(sprites, rs, 0);
    assert rs[0] == ParseFrom(d, 0);
  }

  /** A buffer of records cut off anywhere inside record `k` parses to the `k` complete
      records before the cut. */
  lemma TruncatedLayout(data: seq<byte>, sprites: seq<Sprite>, start: int, k: nat, m: nat)
    requires AllWellFormed(sprites) && |sprites| <= 255 && k < |sprites| && m < SpriteSize(sprites[k])
    requires AllShaped(sprites) && RecordsAt(data, 0, sprites, 0, start)
    ensures SizeBefore(sprites, k) + m <= |data|
    ensures ParseFrom(data[..SizeBefore(sprites, k) + m], 0) == sprites[..k]
  {
    RecordsAtIndex(data, sprites, start, k);
    var d := data[..SizeBefore(sprites, k) + m];
    CutRecords(data, d, sprites, start, k);
    ParseChain(d, sprites, k);
  }

  /** A payload cut off anywhere inside record `k` parses to exactly the `k` complete
      records before the cut: the parser drops the partial record and nothing else. */
  lemma TruncatedParse(sprites: seq<Sprite>, startAddress: int, k: nat, m: nat)
    requires AllWellFormed(sprites) && |sprites| <= 255 && k < |sprites| && m < SpriteSize(sprites[k])
    ensures SizeBefore(sprites, k) + m <= |Option2Data(sprites, startAddress)|
    ensures ParseFrom(Option2Data(sprites, startAddress)[..SizeBefore(sprites, k) + m], 0) == sprites[..k]
  {
    assert AllShaped(sprites);
    Option2DataRecords(sprites, startAddress);
    TruncatedLayout(Option2Data(sprites, startAddress), sprites, startAddress, k, m);
  }
}
