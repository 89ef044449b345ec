/** `handleSave`: the sprite records are placed so that they end just below address
    56575, the save is refused when they would have to start below address 0, and the
    tape holds a code header followed by the records. */
module Save {
  import opened Binary
  import opened Sprites
  import opened SpriteProofs
  import opened SpriteCodec
  import opened Tap
  import opened TapWriter

  /** The address the sprite data must end at (`endAddress`). */
  const EndAddress: int := 56575

  /** `startAddress = endAddress - totalSpriteDataSize`, refused when it is negative. */
  function StartAddress(sprites: seq<Sprite>): Result<int>
  {
    var start := EndAddress - TotalSize(sprites);
    if start < 0 then Err(SpriteDataTooLarge(TotalSize(sprites))) else Ok(start)
  }

  /** A save succeeds exactly when the records fit below 56575; the payload then occupies
      the addresses from the start address up to 56575 exactly. */
  lemma StartAddressFits(sprites: seq<Sprite>)
    requires AllShaped(sprites)
    ensures StartAddress(sprites).Ok? <==> TotalSize(sprites) <= EndAddress
    ensures StartAddress(sprites).Err? ==> StartAddress(sprites).error == SpriteDataTooLarge(TotalSize(sprites))
    ensures StartAddress(sprites).Ok? ==>
      var start := StartAddress(sprites).value;
      0 <= start && start + |Option2Data(sprites, start)| == EndAddress
  {
    if StartAddress(sprites).Ok? {
      Option2DataLength(sprites, StartAddress(sprites).value);
    }
  }

  /** The largest payload that fits starts at address 0. */
  lemma FullMemory(sprites: seq<Sprite>)
    requires TotalSize(sprites) == EndAddress
    ensures StartAddress(sprites) == Ok(0)
  {
  }

  /** In a saved payload the links are exact: the link of record `i` read back as a
      16-bit value is the address of record `i + 1`, which lies below 56575, or 0 for
      the last record; and the id byte is `i + 1` when there are at most 255 records. */
  lemma SavedLinks(sprites: seq<Sprite>, i: nat)
    requires AllShaped(sprites) && i < |sprites| && StartAddress(sprites).Ok?
    ensures var start := StartAddress(sprites).value;
      var data, off := Option2Data(sprites, start), SizeBefore(sprites, i);
      && off + SpriteSize(sprites[i]) <= |data|
      && (|sprites| <= 255 ==> data[off] == i + 1)
      && U16At(data, off + 1)
         == (if i == |sprites| - 1 then 0 else start + SizeBefore(sprites, i + 1))
      && (i < |sprites| - 1 ==> start < start + SizeBefore(sprites, i + 1) < EndAddress)
  {
    var start := StartAddress(sprites).value;
    Option2DataRecords(sprites, start);
    LinksAt(Option2Data(sprites, start), sprites, start, i);
  }

  /** `SavedLinks` for any bytes that hold the records from offset 0 on. */
  lemma LinksAt(data: seq<byte>, sprites: seq<Sprite>, start: int, i: nat)
    requires AllShaped(sprites) && i < |sprites| && RecordsAt(data, 0, sprites, 0, start)
    requires 0 <= start && start + TotalSize(sprites) == EndAddress
    ensures var off := SizeBefore(sprites, i);
      && off + SpriteSize(sprites[i]) <= |data|
      && (|sprites| <= 255 ==> data[off] == i + 1)
      && U16At(data, off + 1)
         == (if i == |sprites| - 1 then 0 else start + SizeBefore(sprites, i + 1))
      && (i < |sprites| - 1 ==> start < start + SizeBefore(sprites, i + 1) < EndAddress)
  {
    RecordsLayout(data, sprites, start, i);
    var next := if i == |sprites| - 1 then 0 else start + SizeBefore(sprites, i + 1);
    if i < |sprites| - 1 {
      LinkInside(sprites, i);
    }
    HeaderFields(data, SizeBefore(sprites, i), i + 1, next);
  }

  /** The id byte and the link of a record header read back as stored, once both are in range. */
  lemma HeaderFields(data: seq<byte>, off: nat, id: int, next: int)
    requires off + 3 <= |data| && data[off] == id % 256 && data[off + 1..off + 3] == U16LE(next)
    ensures 0 <= id < 256 ==> data[off] == id
    ensures 0 <= next < 65536 ==> U16At(data, off + 1) == next
  {
    U16RoundTrip(next, data, off + 1);
  }

  /** Every record but the first starts strictly inside the payload. */
  lemma LinkInside(sprites: seq<Sprite>, i: nat)
    requires i + 1 < |sprites|
    ensures 0 < SizeBefore(sprites, i + 1) < TotalSize(sprites)
  {
    SizeBeforeMonotone(sprites, i + 2, |sprites|);
  }

  /** `handleSave`, given the sprite list and the answer to the filename prompt (`None`
      when it was cancelled). On success it returns the bytes of the tape file. */
  method HandleSave(sprites: seq<Sprite>, filename: Option<seq<char>>) returns (r: Result<seq<byte>>)
    requires AllShaped(sprites)
    ensures sprites == [] ==> r == Err(NothingToSave)
    ensures sprites != [] && (filename.None? || filename.value == []) ==> r == Err(NoFilename)
    ensures sprites != [] && filename.Some? && filename.value != [] ==>
      match StartAddress(sprites)
      case Err(e) => r == Err(e)
      case Ok(start) => r == Ok(TapFile(Option2Data(sprites, start), filename.value, start))
  {
    if |sprites| == 0 {
      return Err(NothingToSave);
    }
    if filename.None? || |filename.value| == 0 {
      return Err(NoFilename);
    }
    var totalSpriteDataSize := TotalBytes(sprites);
    var startAddress := EndAddress - totalSpriteDataSize;
    if startAddress < 0 {
      return Err(SpriteDataTooLarge(totalSpriteDataSize));
    }
    var spriteDataBuffer := BuildOption2Data(sprites, startAddress);
    var tapBuffer := BuildTapFile(spriteDataBuffer, filename.value, startAddress);
    return Ok(tapBuffer);
  }

  /** Loading a saved tape gives the save back: it offers exactly one named code block,
      whose name is the trimmed, padded filename and whose records parse to the sprites. */
  lemma SaveThenLoad(sprites: seq<Sprite>, filename: seq<char>)
    requires AllWellFormed(sprites) && |sprites| <= 255 && StartAddress(sprites).Ok?
    ensures var start := StartAddress(sprites).value;
      var tap := TapFile(Option2Data(sprites, start), filename, start);
      && DecodeBlocks(tap, 0).Ok?
      && var blocks := CodeBlocksFrom(DecodeBlocks(tap, 0).value, 0);
      && |blocks| == 1
      && blocks[0].0 == Trim(NameField(filename))
      && ParseFrom(blocks[0].1, 0) == sprites
  {
    var start := StartAddress(sprites).value;
    assert AllShaped(sprites);
    var data := Option2Data(sprites, start);
    Option2DataLength(sprites, start);
    CodeBlocksOfTapFile(data, filename, start);
    RoundTrip(sprites, start);
  }
}
