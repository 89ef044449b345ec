# ZX Spectrum sprite editor: the binary data layer

This project models the binary data layer of a browser sprite editor for the ZX Spectrum.
The editor is written in JavaScript (`script.js`). The model covers:

- **The tape cursor** (`TapeStream`). It holds a position over a fixed buffer, with
  one-byte and little-endian two-byte reads that fail past the end. Its byte-string
  read is clamped to the end of the buffer, yet it still moves the position by the
  full length.
- **The `.TAP` decoder** (`ZxSpectrumTap`, `TapBlock`, `Header`). It reads blocks until
  the cursor reaches the end. Each block is a 16-bit length followed by flag, payload
  and checksum. A flag-0 block carries a 17-byte header (type, 10-byte trimmed name,
  data length, two parameters). A flag-255 block carries data.
- **The load dialog's pairing rule** (`handleLoad`). It collects every header block
  that is directly followed by a data block.
- **The `.TAP` encoder** (`createTapBlock`, `buildTapFile`). It writes the length field
  (payload + 2), the flag, the payload and the XOR checksum. The tape is a type-3
  "code" header loaded at the start address, then the data block.
- **The sprite record format** (`buildOption2Data`, `parseOption2Data`). One record per
  sprite:
  - an id byte (`i + 1`);
  - a 16-bit link to the next record's address (0 for the last);
  - width and height in character cells;
  - `8·h·w` pixel bytes, packed MSB first;
  - `h·w` attribute bytes.
- **The save arithmetic** (`handleSave`). The records are placed so that they end at
  address 56575; the save is refused when they would start below 0.
- **Per-sprite undo/redo** (`pushHistoryState`, `undo`, `redo`). It keeps two stacks of
  deep-copied snapshots.
- **The editor operations that drive them.** These are adding a sprite (capped at 255),
  moving a sprite up or down, selecting, painting a pixel, picking an attribute cell,
  toggling an attribute bit, and replacing the sprite list with a loaded block.

Bytes are the integers 0..255. Every JavaScript store into a `Uint8Array` or through
`DataView.setUint8`/`setUint16` is reduced modulo 256 or 65536 explicitly. Errors thrown
by `DataView.get*`, and the refusals of `handleSave`, are `Result` values.

Imperative code stays imperative:
- The cursor is a class with a mutable `pos`.
- The decoder, the pairing loop, the record builder and parser, the checksum loop and
  the header fill are methods with loops.
- The builder writes into an `array` through `WriteRecord`.

Each of these methods is proved against a specification function, and the properties
are proved as lemmas about those functions. The symmetric properties are:
- the decode/encode round trips for blocks, whole tapes, names, records and record lists;
- the layout of the record payload and its address chain;
- the completeness and soundness of the pairing rule;
- undo/redo inverses.

The editor state is a class whose methods keep an invariant. The invariant says the
selection is in range and every sprite and every saved snapshot is well-formed.

## Model

| member | source | states |
|---|---|---|
| Binary.ToByte | script.js:372-375 | the byte `setUint8` or a `Uint8Array` store keeps is the value modulo 256, and a value already in 0..255 is kept as is |
| Binary.U16LE | script.js:373 | `setUint16(_, x, true)` writes two bytes whose little-endian value is `x` modulo 65536 |
| Binary.U16At | script.js:155-159 | a little-endian `getUint16` read lies in 0..65535 |
| Binary.U16RoundTrip | script.js:155-159 | two bytes written by `setUint16(_, x, true)` read back through `getUint16(_, true)` as `x` modulo 65536 |
| Binary.U16Exact | script.js:155-159 | a value in 0..65535 written by `setUint16` reads back unchanged |
| Binary.Trim | script.js:205 | `trim()` yields the middle slice of its input: it starts right after the leading whitespace, is followed only by whitespace, and neither starts nor ends with whitespace |
| Binary.TrimPadded | script.js:205 | a name without whitespace at either end, followed by spaces, trims back to the name |
| Stream.Slice | script.js:145-149 | `ArrayBuffer.slice(pos, pos + len)` returns the bytes from `pos`, clamped at the buffer's end (empty when `pos` is past it) |
| Stream.TapeStream.constructor | script.js:141-144 | a fresh cursor stands at position 0 of the given buffer |
| Stream.TapeStream.ReadBytes | script.js:145-149 | returns the clamped slice at the position and advances the position by the full `len` |
| Stream.TapeStream.ReadU1 | script.js:150-154 | returns the byte at the position and advances by 1, or fails with a RangeError past the end, leaving the position |
| Stream.TapeStream.ReadU2le | script.js:155-159 | returns the little-endian value of the two bytes at the position and advances by 2, or fails with a RangeError unless two bytes remain |
| Tap.DecodeBlock | script.js:182-195 | a block needs its two length bytes; a decoded block advances the position by its length plus two, so by at least two |
| Tap.DecodeEncodedBlock | script.js:182-195 | a block written by `createTapBlock` decodes to its length, flag, checksum, and the header or data it carries, ending right after it |
| Tap.DecodeConcat | script.js:171-176 | decoding a concatenation of `createTapBlock` outputs recovers every block, in order |
| Tap.DecodeZeroLength | script.js:183-184 | a zero length field is a whole block: it consumes exactly two bytes and sets no flag and no checksum |
| Tap.DecodeOnlyZeroLength | script.js:171-176 | the tape `[0, 0]` decodes to one empty block |
| Tap.DecodeHeaderPayload | script.js:203-209 | the header payload `buildTapFile` writes decodes to type 3, the trimmed name field, the data length, the start address and 32768, each modulo 65536 |
| Tap.DecodeTapFile | script.js:171-195 | a tape written by `buildTapFile` decodes to exactly two blocks: the flag-0 header block with the expected header, then the flag-255 block whose data is the sprite payload |
| Tap.NameRoundTrip | script.js:416 | a name of at most 10 single-byte characters without whitespace at either end comes back from the header unchanged |
| Tap.EncodeBlockLayout | script.js:398-410 | a block is the payload length + 4 bytes: the little-endian length `payload + 2`, the flag, the payload verbatim, then the XOR of flag and payload |
| Tap.NameField | script.js:416 | the name field is exactly 10 bytes |
| Tap.HeaderPayload | script.js:413-419 | the header payload is exactly 17 bytes |
| Tap.CodeBlocksMembership | script.js:226-234 | an entry is collected exactly when it is the trimmed name and data of a header block that is directly followed by a data block |
| Tap.CollectedIsPair | script.js:226-234 | every collected entry comes from such an adjacent header/data pair |
| Tap.PairIsCollected | script.js:226-234 | every adjacent header/data pair is collected |
| Tap.CodeBlocksOfTapFile | script.js:225-234 | the tape `buildTapFile` writes offers exactly one code block: the trimmed name field with the sprite payload |
| TapReader.ReadHeader | script.js:203-209 | reading a header through a fresh cursor over a payload gives the header decoder's result, failing when the payload is shorter than 17 bytes |
| TapReader.ReadBlock | script.js:182-195 | reading a block at the cursor gives the block the decoder specifies and leaves the cursor after it, or fails as the decoder does |
| TapReader.DecodeTap | script.js:166-176 | the block loop returns the blocks from position 0 to the end of the buffer, or the first error |
| TapReader.SelectCodeBlocks | script.js:226-234 | the pairing loop returns the entries of the pairing rule, in tape order |
| TapWriter.CreateTapBlock | script.js:398-410 | returns payload length + 4 bytes: the little-endian `payload + 2`, the flag, the payload verbatim, and the XOR of flag and payload last |
| TapWriter.Checksum | script.js:402-403 | the checksum loop computes the XOR of every byte of the block contents |
| TapWriter.BuildTapFile | script.js:412-429 | the tape is the header block over the 17-byte header payload followed by the data block, 25 bytes longer than the payload |
| Sprites.AreaSizes | script.js:330-331 | the pixel area is `8·h·w` bytes and the attribute area `h·w` bytes |
| Sprites.SpriteSizeIsProduct | script.js:369 | a record is `5 + 9·w·h` bytes |
| Sprites.PackedBit | script.js:380-382 | bit `7 - k` of a packed byte is set exactly when pixel `k` was among those packed and was truthy |
| Sprites.UnpackPacked | script.js:340 | unpacking a packed byte gives each of its eight pixels back as 0 or 1 |
| Sprites.RecordBytes | script.js:372-391 | one record is exactly `5 + 9·w·h` bytes |
| Sprites.ReadSprite | script.js:334-354 | a sprite read from a record has the record's width and height and grids of `8h × 8w` pixels and `h × w` attributes |
| SpriteProofs.ReadRecord | script.js:334-354 | a record written for a well-formed sprite, with any id and link, reads back as that sprite |
| SpriteProofs.ReadSpriteBinary | script.js:340 | every pixel read from any bytes is 0 or 1 |
| SpriteProofs.Option2DataLength | script.js:361-362 | the payload is exactly the sum of the record sizes |
| SpriteProofs.Option2DataLayout | script.js:367-375 | record `i` starts at the sum of the sizes before it, carries id `i + 1` (mod 256), the width and height, and a link of `start + Σ_{j≤i} sizeⱼ` (mod 65536), or 0 for the last |
| SpriteProofs.Option2DataRecord | script.js:367-394 | the bytes of record `i` are the record laid out for sprite `i` |
| SpriteProofs.ParseEmpty | script.js:325-333 | the parser returns nothing exactly when the first record does not fit: id 0, fewer than 5 bytes, a zero dimension, or an overrun |
| SpriteProofs.ParseGoesOn | script.js:349-355 | when a record fits, it is read and parsing resumes right after it |
| SpriteProofs.ParseWellFormed | script.js:322-358 | every parsed sprite has dimensions in 1..255, 0/1 pixels on an `8h × 8w` grid and an `h × w` attribute grid |
| SpriteProofs.ParseFits | script.js:322-358 | the parsed records together fit in the bytes that were parsed, so no partial record is returned |
| SpriteProofs.ParseEncoded | script.js:322-358 | parsing bytes that hold the records from index `i` on returns exactly the sprites from `i` on |
| SpriteProofs.RoundTrip | script.js:322-396 | parsing the payload built for up to 255 well-formed sprites gives back those sprites, for every start address |
| SpriteProofs.TruncatedParse | script.js:325-333 | a payload cut off anywhere inside record `k` parses to exactly the `k` complete records before the cut |
| SpriteCodec.TotalBytes | script.js:361 | the `reduce` adds up `5 + 9·w·h` over all sprites |
| SpriteCodec.PackByte | script.js:380-382 | the bit loop packs eight pixels MSB first |
| SpriteCodec.WritePixels | script.js:377-385 | the pixel loops store pixel byte `k` of the sprite at `pixOff + k` and leave every byte outside the pixel area alone |
| SpriteCodec.WriteAttributes | script.js:386-391 | the attribute loops store attribute `k` at `attrOff + k` and leave every byte outside the attribute area alone |
| SpriteCodec.WriteRecord | script.js:372-391 | one round of the builder stores the whole record at the offset and leaves the bytes before and after it alone |
| SpriteCodec.PlaceRecord | script.js:367-394 | after sprite `i` is placed, the buffer agrees with the payload up to the end of record `i` and is unchanged after it |
| SpriteCodec.BuildOption2Data | script.js:360-396 | the builder returns the record payload for the sprites at the start address |
| SpriteCodec.UnpackByte | script.js:339-340 | the bit loop extends a pixel row by the eight pixels of one byte |
| SpriteCodec.UnpackRow | script.js:337-341 | one row of the pixel loops yields the `8w` pixels of that row |
| SpriteCodec.UnpackPixels | script.js:334-342 | the pixel loops yield the `8h × 8w` pixel grid of the record |
| SpriteCodec.UnpackAttributes | script.js:343-348 | the attribute loops copy the `h × w` attribute bytes verbatim |
| SpriteCodec.UnpackRecord | script.js:334-354 | the body of the parser's loop reads the sprite of the record at the offset |
| SpriteCodec.ParseOption2Data | script.js:322-358 | the parser returns the sprites of the records read from offset 0 until one does not fit |
| SpriteCodec.ParseRound | script.js:349-355 | one round of the parser keeps its invariant: sprites so far plus what remains is the whole result |
| Save.StartAddressFits | script.js:257-263 | a save succeeds exactly when the total is at most 56575, and the failure reports the total; on success the payload runs from the start address to 56575 exactly |
| Save.FullMemory | script.js:258-263 | a total of exactly 56575 gives start address 0 |
| Save.SavedLinks | script.js:365-373 | in a saved payload, record `i`'s id byte is `i + 1` and its link reads back as the address of record `i + 1`, which lies inside the payload below 56575, or 0 for the last record |
| Save.LinksAt | script.js:365-375 | the same for any bytes that hold the records from offset 0 on |
| Save.HandleSave | script.js:248-268 | an empty sprite list is refused, a cancelled or empty filename is refused, records too large are refused with their size, and otherwise the tape over the payload at `56575 - total` is returned |
| Save.SaveThenLoad | script.js:225-268 | loading a saved tape offers one code block, named by the trimmed name field, whose records parse back to the saved sprites |
| History.Apply | script.js:106-110 | applying a snapshot replaces the pixel and attribute grids and keeps the dimensions |
| History.Capture | script.js:82-87 | a snapshot applied to the sprite it was taken from changes nothing |
| History.PushEditUndo | script.js:93-122 | push, then an edit that keeps the dimensions, then undo, restores the pre-push sprite and undo stack, with the edited state on the redo stack |
| History.UndoRedo | script.js:112-134 | an undo on a non-empty undo stack is reversed by a redo |
| History.RedoUndo | script.js:112-134 | a redo on a non-empty redo stack is reversed by an undo |
| History.PushClearsRedo | script.js:93-99 | a push empties the redo stack and keeps the sprite, so a redo right after it does nothing |
| History.EmptyStacks | script.js:112-134 | undo on an empty undo stack and redo on an empty redo stack change nothing |
| History.StackSizes | script.js:112-134 | undo and redo move one snapshot between the stacks, keeping their total, and keep the dimensions |
| History.HistoryKeepsFit | script.js:93-134 | push, undo and redo keep a sprite and all its snapshots well-formed at its dimensions |
| History.EditKeepsFit | script.js:695-698 | an edit that keeps the sprite well-formed and its dimensions keeps its history valid |
| History.ToggleFlips | script.js:636 | `attr ^= 1 << bit` flips bit `bit` and leaves the other seven bits as they were |
| History.ToggleTwice | script.js:636 | toggling the same bit twice gives the attribute back |
| History.SetAttr | script.js:637 | storing an attribute changes exactly that cell and keeps the sprite well-formed |
| History.SetPixel | script.js:698 | storing a pixel changes exactly that pixel, and a 0/1 value keeps the sprite well-formed |
| Editor.NewSprite | script.js:438-453 | a new sprite has the requested size, all pixels clear, every attribute 56, and is well-formed for sizes in 1..255 |
| Editor.NewEditorSprite | script.js:438-453 | a new sprite starts with both history stacks empty |
| Editor.AddedBound | script.js:455-462 | adding never grows the list beyond 255, appends exactly one sprite to a list that is not full, leaves a full list alone, and keeps every sprite valid |
| Editor.Swap | script.js:509 | the destructuring swap exchanges two entries, keeps the others, and permutes the list |
| Editor.SwapTwice | script.js:507-517 | moving a sprite up and then back down restores the order |
| Editor.LoadedSprites | script.js:299-305 | the loaded list holds exactly the parsed sprites, each with empty stacks, and they are valid editor sprites |
| Editor.StaleSelection | script.js:476-480 | as written, selecting on an empty list keeps both the non-negative index and the selected cell, so `handleAttributeChange` gets past its guard; the corrected selection keeps neither |
| Editor.Select | script.js:476-484 | the selected index is an in-range index kept as is, any other index falls back to 0, and an empty list selects nothing (-1) |
| Editor.SpriteEditor.constructor | script.js:35-39 | the editor starts with no sprites, no sprite selected and no cell selected |
| Editor.SpriteEditor.SelectSprite | script.js:476-493 | selecting keeps the list, stores the corrected selected index and clears the selected cell, also on an empty list (the correction of the Findings row) |
| Editor.SpriteEditor.PushHistoryState | script.js:93-99 | with a sprite selected, its history is pushed; otherwise nothing changes |
| Editor.SpriteEditor.Undo | script.js:112-122 | with a sprite selected, that sprite is undone; otherwise nothing changes |
| Editor.SpriteEditor.Redo | script.js:124-134 | with a sprite selected, that sprite is redone; otherwise nothing changes |
| Editor.SpriteEditor.AddSprite | script.js:455-462 | a full list is left alone; otherwise a new 2 by 2 sprite is appended and selected |
| Editor.SpriteEditor.MoveSpriteUp | script.js:507-511 | the selected sprite swaps with the one before it and stays selected; nothing happens for the first or no sprite |
| Editor.SpriteEditor.MoveSpriteDown | script.js:513-517 | the selected sprite swaps with the one after it and stays selected; nothing happens for the last or no sprite |
| Editor.SpriteEditor.PickCell | script.js:686-706 | a press in attribute mode pushes the history and selects the cell under the mouse, or none outside the sprite |
| Editor.SpriteEditor.PaintPixel | script.js:686-698 | a press in pixel mode pushes the history and inverts the pixel under the mouse when it lies inside the sprite |
| Editor.SpriteEditor.HandleAttributeChange | script.js:632-640 | with a cell selected, the history is pushed and bit `bit` of that cell's attribute is inverted; otherwise nothing changes |
| Editor.SpriteEditor.LoadBlock | script.js:298-308 | choosing a block replaces the list with its parsed sprites, each with empty stacks, and selects the first sprite or none |
| Editor.PaintThenUndo | script.js:686-698 | a pixel press followed by undo gives the sprite back as it was, with the painted state on the redo stack |
| Editor.ToggleThenUndo | script.js:632-637 | an attribute toggle followed by undo gives the sprite back as it was |

## Left out

- DOM, canvas drawing, grid lines, previews, the sprite list view, colour tables, the flash timer, theme handling and `localStorage`: these are rendering and browser state with no bearing on the data.
- `FileReader`, `Blob`, the object-URL download, `alert` and `prompt`: these are I/O. The filename prompt's answer is a parameter of `Save.HandleSave` (`None` when cancelled). The file bytes are a parameter of `TapReader.DecodeTap`.
- The output file name and the Laser Basic load command (script.js:270-284): string glue after the tape is built.
- `TextDecoder("ascii")` and the Unicode side of `trim()`: header names stay bytes. Only the single-byte whitespace that `trim()` removes is modelled (tab to carriage return, space, no-break space). Names are modelled as characters that each occupy one UTF-16 unit, and a character outside one byte is stored modulo 256, as the `Uint8Array` store does.
- The block list dialog (script.js:292-312): only the click handler is modelled, as `Editor.SpriteEditor.LoadBlock`. The "no valid blocks" message is left out.
- The `startAddress` that `buildTapFile` echoes back next to the buffer: it is the argument unchanged.
- `deleteSelectedSprite`, `resizeSelectedSprite`, the mouse-move drawing and the mouse-up handlers: these are editor operations outside the data layer. The keyboard shortcut is modelled only as the `Undo` and `Redo` it dispatches to.
- `isEof` is the loop test of `TapReader.DecodeTap`. It is a predicate and has no contract of its own.
- Exceptions that escape `handleLoad` and `handleSave` end the operation. They are modelled as `Err` results, not as control flow.
- Save.HandleSave: requires every sprite's grids to have its declared size. The editor keeps that (`History.Fits`). The outcome for ill-shaped sprites is not modelled. There JavaScript packs or stores a missing cell of a too-short row as 0, and throws a TypeError on a missing row (script.js:381, 389), which fails the save inside the `try` of script.js:256.
- SpriteCodec.BuildOption2Data: requires grids of the declared size, for the same reason.
- Editor.SpriteEditor.HandleAttributeChange: requires `bit < 8`, which is what its callers pass (7, 6 and the buttons' bit numbers). Wider shifts are not modelled.
- Editor.SpriteEditor.PickCell: takes non-negative pixel coordinates, since a press on the canvas lies inside it. The same holds for Editor.SpriteEditor.PaintPixel.
- The encoder's 16-bit fields (length, start address, data length) are modelled with their modulo-65536 wrap. The decoding round trips therefore require payloads below 65534 bytes, which every save meets because the records fit below address 56575.
- Tap.NameField: characters above U+FFFF are not modelled. JavaScript counts each of them as two UTF-16 units in `padEnd` and `[i]` (script.js:416), while the model counts it as one character.
- Behaviour of the code that is easy to misread, which the model follows:
  - the length field counts payload + 2;
  - the header name is trimmed at both ends;
  - `readBytes` clamps at the end of the buffer yet advances the position in full;
  - a header block fails when its payload is shorter than 17 bytes;
  - record ids are stored modulo 256.

## Findings

| source | as written | input that shows it | evidently intended | confidence | as-written member | corrected member |
|---|---|---|---|---|---|---|
| script.js:476-480 (with script.js:298-308) | `selectSprite` returns early on an empty list and `clearEditor` (script.js:608-612) resets neither `selectedSpriteIndex` nor `selectedCharX`/`selectedCharY`, so the previous index and the previous attribute cell survive | load a code block whose data starts with a zero id byte while sprite 0 is selected: the list becomes empty and the index stays 0, so a later undo, redo or press reads a sprite that does not exist; with a cell still selected, `handleAttributeChange` (script.js:633-635) passes its guard and reads it too | an empty list leaves no sprite selected (index -1), as `deleteSelectedSprite` does at script.js:467-469, and no cell selected (-1, -1), as `selectSprite` does for a non-empty list at script.js:488-489 | not executed | Editor.StaleSelection | Editor.Select |
