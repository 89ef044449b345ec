/** The editor's sprite records ("Option 2" data), as they travel inside a TAP data
    block. A record is: id (1-based), the absolute address of the next record (0 after
    the last), width and height in character cells, 8*height rows of width bytes of
    pixels packed most significant bit first, then height rows of width attribute bytes.
    This module holds the data model and the specification functions of both directions. */
module Sprites {
  import opened Binary
  import opened Arith

  /** One sprite of the editor: size in 8x8 character cells, a grid of 8*height rows of
      8*width pixels, and a grid of height rows of width attribute bytes. */
  datatype Sprite = Sprite(width: nat, height: nat, pixelData: seq<seq<int>>, attributeData: seq<seq<byte>>)

  predicate Shaped(s: Sprite)
  {
    && |s.pixelData| == 8 * s.height
    && (forall y :: 0 <= y < |s.pixelData| ==> |s.pixelData[y]| == 8 * s.width)
    && |s.attributeData| == s.height
    && (forall y :: 0 <= y < |s.attributeData| ==> |s.attributeData[y]| == s.width)
  }

  /** A sprite the record format can carry exactly: dimensions that fit their byte and
      are nonzero, grids of the right shape, and pixels that are 0 or 1. */
  predicate WellFormed(s: Sprite)
  {
    && 1 <= s.width <= 255 && 1 <= s.height <= 255
    && Shaped(s)
    && forall y, x :: 0 <= y < |s.pixelData| && 0 <= x < |s.pixelData[y]| ==>
         s.pixelData[y][x] == 0 || s.pixelData[y][x] == 1
  }

  predicate AllShaped(sprites: seq<Sprite>)
  {
    forall i :: 0 <= i < |sprites| ==> Shaped(sprites[i])
  }

  predicate AllWellFormed(sprites: seq<Sprite>)
  {
    forall i :: 0 <= i < |sprites| ==> WellFormed(sprites[i])
  }

  /** Bytes of one record: 5 header bytes, 8 pixel bytes and 1 attribute byte per cell. */
  function SpriteSize(s: Sprite): nat
  {
    5 + 9 * Area(s.width, s.height)
  }

  /** Character cells of a sprite, `spriteHgtChars * spriteLenChars`, written as repeated
      addition so that record sizes stay linear for the solver; `AreaIsProduct` connects it
      to the product. */
  function Area(w: nat, h: nat): nat
  {
    if h == 0 then 0 else Area(w, h - 1) + w
  }

  lemma {:induction false} AreaIsProduct(w: nat, h: nat)
    ensures Area(w, h) == h * w
  {
    if h > 0 {
      AreaIsProduct(w, h - 1);
      assert h * w == (h - 1) * w + w;
    }
  }

  /** The pixel and attribute sizes as `parseOption2Data` and `buildOption2Data` compute them. */
  lemma AreaSizes(w: nat, h: nat)
    ensures 8 * h * w == 8 * Area(w, h) && h * w == Area(w, h)
  {
    AreaIsProduct(w, h);
    assert 8 * h * w == 8 * (h * w);
  }

  /** `5 + 9 * s.width * s.height`, the size `buildOption2Data` computes for a record. */
  lemma SpriteSizeIsProduct(s: Sprite)
    ensures SpriteSize(s) == 5 + 9 * s.width * s.height
  {
    AreaIsProduct(s.width, s.height);
    assert 9 * s.width * s.height == 9 * (s.height * s.width);
  }

  /** Pixel byte (y, xb) of a grid of 8*h rows of w bytes sits at offset `y * w + xb`. */
  lemma PixelCell(y: nat, xb: nat, w: nat, h: nat)
    requires y < 8 * h && xb < w
    ensures y * w + xb < 8 * Area(w, h)
    ensures (y * w + xb) / w == y && (y * w + xb) % w == xb
  {
    RowMajor(y, xb, 8 * h, w);
    AreaIsProduct(w, h);
    assert (8 * h) * w == 8 * (h * w);
  }

  lemma PixelSplit(k: nat, w: nat, h: nat)
    requires k < 8 * Area(w, h)
    ensures 0 < w && k / w < 8 * h && k % w < w && k == (k / w) * w + k % w
  {
    AreaIsProduct(w, h);
    assert (8 * h) * w == 8 * (h * w);
    RowMajorSplit(k, 8 * h, w);
  }

  /** Attribute (y, x) of a grid of h rows of w bytes sits at offset `y * w + x`. */
  lemma AttrCell(y: nat, x: nat, w: nat, h: nat)
    requires y < h && x < w
    ensures y * w + x < Area(w, h)
    ensures (y * w + x) / w == y && (y * w + x) % w == x
  {
    RowMajor(y, x, h, w);
    AreaIsProduct(w, h);
  }

  lemma AttrSplit(k: nat, w: nat, h: nat)
    requires k < Area(w, h)
    ensures 0 < w && k / w < h && k % w < w && k == (k / w) * w + k % w
  {
    AreaIsProduct(w, h);
    RowMajorSplit(k, h, w);
  }

  /** The sizes of the first `i` records added up from the left, as `reduce` does. */
  function SizeBefore(sprites: seq<Sprite>, i: nat): nat
    requires i <= |sprites|
  {
    if i == 0 then 0 else SizeBefore(sprites, i - 1) + SpriteSize(sprites[i - 1])
  }

  /** The `totalBytes` of all records. */
  function TotalSize(sprites: seq<Sprite>): nat
  {
    SizeBefore(sprites, |sprites|)
  }

  lemma {:induction false} SizeBeforeCons(s: Sprite, rest: seq<Sprite>, k: nat)
    requires k <= |rest|
    ensures SizeBefore([s] + rest, k + 1) == SpriteSize(s) + SizeBefore(rest, k)
  {
    if k > 0 {
      SizeBeforeCons(s, rest, k - 1);
      assert ([s] + rest)[k] == rest[k - 1];
    }
  }

  lemma TotalSizeCons(s: Sprite, rest: seq<Sprite>)
    ensures TotalSize([s] + rest) == SpriteSize(s) + TotalSize(rest)
  {
    SizeBeforeCons(s, rest, |rest|);
  }

  lemma {:induction false} SizeBeforeMonotone(sprites: seq<Sprite>, i: nat, j: nat)
    requires i <= j <= |sprites|
    ensures SizeBefore(sprites, i) <= SizeBefore(sprites, j)
    decreases j - i
  {
    if i < j {
      SizeBeforeMonotone(sprites, i, j - 1);
    }
  }

  // ---------------------------------------------------------------- pixel bits

  /** `1 << (7 - bit)`: pixel `bit` of a byte, counted from the most significant bit. */
  function BitMask(bit: nat): bv8
    requires bit < 8
  {
    (1 as bv8) << (7 - bit)
  }

  /** The byte after the first `n` rounds of `if (pixel) byte |= 1 << (7 - bit)` over the
      eight pixels of `row` starting at `base`. */
  function PackBits(row: seq<int>, base: nat, n: nat): bv8
    requires n <= 8 && base + n <= |row|
  {
    if n == 0 then 0
    else PackBits(row, base, n - 1) | (if row[base + n - 1] != 0 then BitMask(n - 1) else 0)
  }

  /** `(byte & (1 << (7 - bit))) ? 1 : 0`. */
  function PixelAt(b: byte, bit: nat): int
    requires bit < 8
  {
    if (b as bv8) & BitMask(bit) != 0 then 1 else 0
  }

  lemma MaskBits(i: nat, j: nat)
    requires i < 8 && j < 8
    ensures (BitMask(i) & BitMask(j) != 0) <==> i == j
  {
  }

  lemma BvRoundTrip(b: bv8)
    ensures (b as int) as bv8 == b
  {
  }

  /** Bit `bit` of the packed byte is set exactly when that pixel was set and was among
      the first `n` packed. */
  lemma {:induction false} PackedBit(row: seq<int>, base: nat, n: nat, bit: nat)
    requires n <= 8 && base + n <= |row| && bit < 8
    ensures (PackBits(row, base, n) & BitMask(bit) != 0) <==> (bit < n && row[base + bit] != 0)
  {
    if n > 0 {
      PackedBit(row, base, n - 1, bit);
      MaskBits(n - 1, bit);
      var x := PackBits(row, base, n - 1);
      var m: bv8 := if row[base + n - 1] != 0 then BitMask(n - 1) else 0;
      assert (x | m) & BitMask(bit) == (x & BitMask(bit)) | (m & BitMask(bit));
    }
  }

  /** Unpacking a packed byte gives back each of its eight pixels, read as 0 or 1. */
  lemma UnpackPacked(row: seq<int>, base: nat, bit: nat)
    requires base + 8 <= |row| && bit < 8
    ensures PixelAt(PackBits(row, base, 8) as int, bit) == if row[base + bit] != 0 then 1 else 0
  {
    PackedBit(row, base, 8, bit);
    BvRoundTrip(PackBits(row, base, 8));
  }

  // ---------------------------------------------------------------- encoding

  /** Pixel byte `k` of a sprite, in row-major order over 8*height rows of width bytes. */
  function PackedByte(s: Sprite, k: nat): byte
    requires Shaped(s) && k < 8 * Area(s.width, s.height)
  {
    PixelSplit(k, s.width, s.height);
    PackBits(s.pixelData[k / s.width], (k % s.width) * 8, 8) as int
  }

  /** The first `n` pixel bytes, in the order `buildOption2Data` writes them. */
  function PackedBytes(s: Sprite, n: nat): (r: seq<byte>)
    requires Shaped(s) && n <= 8 * Area(s.width, s.height)
    ensures |r| == n
  {
    if n == 0 then [] else PackedBytes(s, n - 1) + [PackedByte(s, n - 1)]
  }

  lemma {:induction false} PackedBytesIndex(s: Sprite, n: nat, k: nat)
    requires Shaped(s) && k < n <= 8 * Area(s.width, s.height)
    ensures PackedBytes(s, n)[k] == PackedByte(s, k)
  {
    if k < n - 1 {
      PackedBytesIndex(s, n - 1, k);
    }
  }

  function PixelBytes(s: Sprite): (r: seq<byte>)
    requires Shaped(s)
    ensures |r| == 8 * Area(s.width, s.height)
  {
    PackedBytes(s, 8 * Area(s.width, s.height))
  }

  function AttrByte(s: Sprite, k: nat): byte
    requires Shaped(s) && k < Area(s.width, s.height)
  {
    AttrSplit(k, s.width, s.height);
    s.attributeData[k / s.width][k % s.width]
  }

  /** The first `n` attribute bytes, row by row. */
  function AttrBytesUpTo(s: Sprite, n: nat): (r: seq<byte>)
    requires Shaped(s) && n <= Area(s.width, s.height)
    ensures |r| == n
  {
    if n == 0 then [] else AttrBytesUpTo(s, n - 1) + [AttrByte(s, n - 1)]
  }

  lemma {:induction false} AttrBytesIndex(s: Sprite, n: nat, k: nat)
    requires Shaped(s) && k < n <= Area(s.width, s.height)
    ensures AttrBytesUpTo(s, n)[k] == AttrByte(s, k)
  {
    if k < n - 1 {
      AttrBytesIndex(s, n - 1, k);
    }
  }

  function AttrBytes(s: Sprite): (r: seq<byte>)
    requires Shaped(s)
    ensures |r| == Area(s.width, s.height)
  {
    AttrBytesUpTo(s, Area(s.width, s.height))
  }

  /** One record as `buildOption2Data` writes it; every field goes through `setUint8`
      or `setUint16`, so each is reduced modulo 256 or 65536. */
  function RecordBytes(s: Sprite, id: int, next: int): (r: seq<byte>)
    requires Shaped(s)
    ensures |r| == SpriteSize(s)
  {
    [ToByte(id)] + U16LE(next) + [ToByte(s.width), ToByte(s.height)] + PixelBytes(s) + AttrBytes(s)
  }

  /** The link `buildOption2Data` writes into record `i` placed at `addr`: the address
      just past it, or 0 for the last record. */
  function NextAddress(sprites: seq<Sprite>, i: nat, addr: int): int
    requires i < |sprites|
  {
    if i == |sprites| - 1 then 0 else addr + SpriteSize(sprites[i])
  }

  /** The records from index `i` on, the first placed at address `addr`. */
  function EncodeFrom(sprites: seq<Sprite>, i: nat, addr: int): seq<byte>
    requires AllShaped(sprites)
    decreases |sprites| - i
  {
    if i >= |sprites| then []
    else RecordBytes(sprites[i], i + 1, NextAddress(sprites, i, addr))
         + EncodeFrom(sprites, i + 1, addr + SpriteSize(sprites[i]))
  }

  /** The payload `buildOption2Data(startAddress)` returns for the sprite list. */
  function Option2Data(sprites: seq<Sprite>, startAddress: int): seq<byte>
    requires AllShaped(sprites)
  {
    EncodeFrom(sprites, 0, startAddress)
  }

  lemma EncodeFromCons(sprites: seq<Sprite>, i: nat, addr: int)
    requires AllShaped(sprites) && i < |sprites|
    ensures EncodeFrom(sprites, i, addr)
         == RecordBytes(sprites[i], i + 1, NextAddress(sprites, i, addr))
            + EncodeFrom(sprites, i + 1, addr + SpriteSize(sprites[i]))
  {
  }

  // ---------------------------------------------------------------- decoding

  /** Pixel (y, x) read back from the pixel bytes that start at `pixOff`. */
  function ReadPixel(data: seq<byte>, pixOff: nat, w: nat, h: nat, y: nat, x: nat): int
    requires y < 8 * h && x < 8 * w && pixOff + 8 * Area(w, h) <= |data|
  {
    PixelCell(y, x / 8, w, h);
    PixelAt(data[pixOff + y * w + x / 8], x % 8)
  }

  /** The first `n` pixels of row `y`. */
  function PixelRow(data: seq<byte>, pixOff: nat, w: nat, h: nat, y: nat, n: nat): (r: seq<int>)
    requires y < 8 * h && n <= 8 * w && pixOff + 8 * Area(w, h) <= |data|
    ensures |r| == n
  {
    if n == 0 then [] else PixelRow(data, pixOff, w, h, y, n - 1) + [ReadPixel(data, pixOff, w, h, y, n - 1)]
  }

  /** Pixel `xChar * 8 + bit` of row `y` is bit `bit` of byte `y * w + xChar`, so the row
      grows by that bit. */
  lemma {:induction false} PixelRowStep(data: seq<byte>, pixOff: nat, w: nat, h: nat, y: nat, xChar: nat, bit: nat, n: nat)
    requires y < 8 * h && xChar < w && bit < 8 && pixOff + 8 * Area(w, h) <= |data| && n == xChar * 8 + bit
    ensures y * w + xChar < 8 * Area(w, h)
    ensures PixelRow(data, pixOff, w, h, y, n + 1)
         == PixelRow(data, pixOff, w, h, y, n) + [PixelAt(data[pixOff + y * w + xChar], bit)]
  {
    PixelCell(y, xChar, w, h);
    DivModUnique(xChar * 8 + bit, xChar, bit, 8);
  }

  /** The first `n` rows of pixels. */
  function PixelRows(data: seq<byte>, pixOff: nat, w: nat, h: nat, n: nat): (g: seq<seq<int>>)
    requires n <= 8 * h && pixOff + 8 * Area(w, h) <= |data|
    ensures |g| == n && forall y :: 0 <= y < n ==> |g[y]| == 8 * w
  {
    if n == 0 then [] else PixelRows(data, pixOff, w, h, n - 1) + [PixelRow(data, pixOff, w, h, n - 1, 8 * w)]
  }

  lemma {:induction false} PixelRowIndex(data: seq<byte>, pixOff: nat, w: nat, h: nat, y: nat, n: nat, x: nat)
    requires y < 8 * h && x < n <= 8 * w && pixOff + 8 * Area(w, h) <= |data|
    ensures PixelRow(data, pixOff, w, h, y, n)[x] == ReadPixel(data, pixOff, w, h, y, x)
  {
    if x < n - 1 {
      PixelRowIndex(data, pixOff, w, h, y, n - 1, x);
    }
  }

  lemma {:induction false} PixelRowsIndex(data: seq<byte>, pixOff: nat, w: nat, h: nat, n: nat, y: nat)
    requires y < n <= 8 * h && pixOff + 8 * Area(w, h) <= |data|
    ensures PixelRows(data, pixOff, w, h, n)[y] == PixelRow(data, pixOff, w, h, y, 8 * w)
  {
    if y < n - 1 {
      PixelRowsIndex(data, pixOff, w, h, n - 1, y);
    }
  }

  function PixelGrid(data: seq<byte>, pixOff: nat, w: nat, h: nat): (g: seq<seq<int>>)
    requires pixOff + 8 * Area(w, h) <= |data|
    ensures |g| == 8 * h && forall y :: 0 <= y < |g| ==> |g[y]| == 8 * w
  {
    PixelRows(data, pixOff, w, h, 8 * h)
  }

  function ReadAttr(data: seq<byte>, attrOff: nat, w: nat, h: nat, y: nat, x: nat): byte
    requires y < h && x < w && attrOff + Area(w, h) <= |data|
  {
    AttrCell(y, x, w, h);
    data[attrOff + y * w + x]
  }

  function AttrRow(data: seq<byte>, attrOff: nat, w: nat, h: nat, y: nat, n: nat): (r: seq<byte>)
    requires y < h && n <= w && attrOff + Area(w, h) <= |data|
    ensures |r| == n
  {
    if n == 0 then [] else AttrRow(data, attrOff, w, h, y, n - 1) + [ReadAttr(data, attrOff, w, h, y, n - 1)]
  }

  function AttrRows(data: seq<byte>, attrOff: nat, w: nat, h: nat, n: nat): (g: seq<seq<byte>>)
    requires n <= h && attrOff + Area(w, h) <= |data|
    ensures |g| == n && forall y :: 0 <= y < n ==> |g[y]| == w
  {
    if n == 0 then [] else AttrRows(data, attrOff, w, h, n - 1) + [AttrRow(data, attrOff, w, h, n - 1, w)]
  }

  lemma {:induction false} AttrRowIndex(data: seq<byte>, attrOff: nat, w: nat, h: nat, y: nat, n: nat, x: nat)
    requires y < h && x < n <= w && attrOff + Area(w, h) <= |data|
    ensures AttrRow(data, attrOff, w, h, y, n)[x] == ReadAttr(data, attrOff, w, h, y, x)
  {
    if x < n - 1 {
      AttrRowIndex(data, attrOff, w, h, y, n - 1, x);
    }
  }

  lemma {:induction false} AttrRowsIndex(data: seq<byte>, attrOff: nat, w: nat, h: nat, n: nat, y: nat)
    requires y < n <= h && attrOff + Area(w, h) <= |data|
    ensures AttrRows(data, attrOff, w, h, n)[y] == AttrRow(data, attrOff, w, h, y, w)
  {
    if y < n - 1 {
      AttrRowsIndex(data, attrOff, w, h, n - 1, y);
    }
  }

  function AttrGrid(data: seq<byte>, attrOff: nat, w: nat, h: nat): (g: seq<seq<byte>>)
    requires attrOff + Area(w, h) <= |data|
    ensures |g| == h && forall y :: 0 <= y < |g| ==> |g[y]| == w
  {
    AttrRows(data, attrOff, w, h, h)
  }

  /** The sprite of the record at `offset`, whose width and height are `w` and `h`. */
  function ReadSprite(data: seq<byte>, offset: nat, w: nat, h: nat): (s: Sprite)
    requires offset + 5 + 8 * Area(w, h) + Area(w, h) <= |data|
    ensures s.width == w && s.height == h && Shaped(s)
  {
    Sprite(w, h, PixelGrid(data, offset + 5, w, h), AttrGrid(data, offset + 5 + 8 * Area(w, h), w, h))
  }

  /** `parseOption2Data` from `offset`: records are read until an id of 0, fewer than 5
      bytes left, a zero width or height, or a record that would overrun the buffer. */
  function ParseFrom(data: seq<byte>, offset: nat): (r: seq<Sprite>)
    decreases |data| - offset
  {
    if offset >= |data| then []
    else if data[offset] == 0 || offset + 5 > |data| then []
    else
      var w: nat, h: nat := data[offset + 3], data[offset + 4];
      if w == 0 || h == 0 then []
      else
        var total := 5 + 8 * Area(w, h) + Area(w, h);
        if offset + total > |data| then []
        else [ReadSprite(data, offset, w, h)] + ParseFrom(data, offset + total)
  }

  /** The parser's test for reading one more record at `offset`: a nonzero id, a complete
      header, nonzero dimensions and the whole record inside the buffer. */
  predicate RecordFits(data: seq<byte>, offset: nat)
  {
    && offset < |data| && data[offset] != 0 && offset + 5 <= |data|
    && data[offset + 3] != 0 && data[offset + 4] != 0
    && offset + 5 + 9 * Area(data[offset + 3], data[offset + 4]) <= |data|
  }
}
