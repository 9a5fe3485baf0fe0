# PCX loading and blitting, modelled in Dafny

This project models `sgp/PCX.cc`, the loader for 8-bit, run-length-encoded
ZSoft PCX images. The model covers:

- **`LoadPcx`** checks the 128-byte header and sizes the compressed payload,
  which is the file length minus the header and the 768-byte palette,
  computed in UINT32. It returns a PCX object holding the payload, the raw
  palette, the width, the height and a flags word.
- **`BlitPcxToBuffer`** runs the PCX run-length decoder while it places the
  decoded bytes into a caller's 8-bit destination buffer at an offset
  (x, y). It has four loops:
  - an exact fit, opaque;
  - an exact fit, transparent, where a decoded 0 leaves the cell alone;
  - a clipped transparent loop;
  - a clipped opaque loop.

  The clipped branch also ORs `PCX_X_CLIPPING` and `PCX_Y_CLIPPING` into
  the object's flags.
- **`SetPcxPalette`** turns the 768 interleaved palette bytes into 256
  entries (red, green, blue, flags 0).
- **`LoadPCXFileToImage`** copies width, height, bit depth 8 and the
  requested content bits into the image. It decodes the bitmap with the
  exact-fit opaque blit at (0, 0) and builds the palette.

Modules:

- `Bytes`: UINT8, UINT16 and UINT32 as integer subset types. `Wrap16` and
  `Wrap32` give the C wrap-around explicitly, and `Dec8` is the UINT8
  decrement. `Option` and `Result` live here too.
- `Arith`: small division and remainder facts used by the placement proofs.
- `Rle`: the decoder state that all four loops share (`ubMode`,
  `ubCurrentByte`, `ubRepCount`, `uiOffset`).
  - `Step` is one iteration, `Exec`/`Run` are n iterations, and
    `Decode` is the first n decoded bytes.
  - Reading past the payload gives `None`: the source never compares its
    read cursor with `uiBufferSize`, so every loop here requires that its
    decode succeeds.
  - `Expand` is an independent packet-by-packet reference decoder.
    `Encode` is a reference encoder used only to state the round trip.
    Neither has a counterpart in the source.
- `PcxLoad`: `LoadPcx` as a pure function and the `PcxObject` class. The
  class's only mutable field is the flags word.
- `PcxBlit`: the four loops as methods over an `array`, and the dispatcher
  `BlitPcxToBuffer`.
  - Each clipped loop is specified by a sequence function (`TransparentBlit`,
    `OpaqueBlit`). It says, for every destination cell, which decoded byte
    (if any) the loop leaves there.
  - Placement lemmas prove that function against the loop's own
    cursor arithmetic.
- `PcxPalette`: the palette table and its inverse.
- `PcxImage`: the image handle fields as a class, plus `SetPcxPalette` and
  `LoadPcxFileToImage`.

## Behaviour as written

The clipped branch of `BlitPcxToBuffer` does not do what clipping would
suggest. It is unreachable from `LoadPCXFileToImage`, which always blits an
exact fit at (0, 0). The model follows the code:

- **Transparent clipped loop** (sgp/PCX.cc:255-287):
  - Each row takes `usMaxX - x + 1` decoded bytes. When the image is not
    X-clipped, `usMaxX` is `width + x` (line 234), not `width + x - 1`, so a
    row takes `width + 1` bytes.
  - The loop never compares the row with `usMaxY`.
  - `PcxBlit.TransparentOverrun` shows that without the precondition on
    `n`, byte n − 1 is placed past the end of the `bufW * bufH` destination,
    and is stored there when it is non-zero.
- **Opaque clipped loop** (sgp/PCX.cc:288-342):
  - Each destination row consumes `bufW` decoded bytes, not `width`.
  - It writes columns `x` to `usMaxX - 1`, so the last buffer column is never
    written when X-clipped.
  - It stops after row `usMaxY`.
  - Example: a 10×10 image at (95, 95) in a 100×100 buffer decodes 50 bytes
    and writes only columns 95-98 of row 95.
- **Exact-fit branch** (sgp/PCX.cc:161-223): it is taken whenever
  `width + x == bufW` and `height + y == bufH`, but it ignores (x, y).
  - It decodes `bufW * bufH` bytes, not `width * height`, into cells 0 onwards.
  - At a non-zero offset, a payload holding only the image's
    `width * height` bytes is normally too short for that decode.
  - `CanBlit` then excludes the call: it requires `Run(payload, bufW * bufH)`
    to succeed.

## Model

| member | source | states |
|---|---|---|
| Rle.RunLength | sgp/PCX.cc:176-183 | A control byte (> 0xBF) stands for 1 to 256 copies. That count minus one is the UINT8 decrement of the byte's low six bits, so a count of 0 gives 256 |
| Rle.Step | sgp/PCX.cc:173-192 | One decoder iteration advances the read cursor by at most two bytes. In run mode it reads nothing and re-emits the current byte. Only a normal-mode iteration can run out of payload |
| Rle.Exec | sgp/PCX.cc:171-197 | Every iteration emits exactly one byte: n successful iterations produce n bytes |
| Rle.LiteralPacket | sgp/PCX.cc:173-185 | A byte ≤ 0xBF read in normal mode is emitted unchanged, advances the read cursor by 1 and stays in normal mode |
| Rle.RunPacket | sgp/PCX.cc:176-192 | Control byte c followed by v: for every j up to RunLength(c), the first j iterations emit v j times and leave the cursor 2 further on. The decoder returns to normal mode exactly at j = RunLength(c) |
| Rle.RunPacketReadsTwoBytes | sgp/PCX.cc:176-192 | During a run packet the decoder reads no payload byte beyond the two packet bytes: any payload with the same two bytes gives the same outcome |
| Rle.RepeatSteps | sgp/PCX.cc:186-192 | In run mode with count r, j ≤ r iterations repeat the current byte j times, without reading, and count r down to r - j |
| Rle.ExecSplit | sgp/PCX.cc:171-197 | a + b iterations are a iterations followed by b iterations from the state reached |
| Rle.ExecPrefix | sgp/PCX.cc:171-197 | If n iterations succeed, every m ≤ n succeed, and their output is the first m bytes |
| Rle.NextByte | sgp/PCX.cc:173-192 | The step each loop body performs: after i bytes, it yields decoded byte i and the decoder state after i + 1 bytes |
| Rle.DecodeIsExpandPrefix | sgp/PCX.cc:173-192 | The loops' state machine agrees with the packet-by-packet reference decoder: n bytes decode iff the payload expands to at least n bytes, and they are the first n of the expansion |
| Rle.ExpandEncode | sgp/PCX.cc:173-192 | The reference decoder inverts the reference encoder |
| Rle.DecodeEncode | sgp/PCX.cc:173-192 | The blit loops' decoder recovers any pixel sequence from its run-length encoding |
| PcxLoad.LoadPcx | sgp/PCX.cc:108-144 | On success the payload is exactly uiBufferSize bytes and the palette 768 bytes, and together they are the leading bytes of the file body |
| PcxLoad.FormatCheckedFirst | sgp/PCX.cc:114-119 | A header that is not manufacturer 10 and encoding 1 is refused, whatever the file size, body or allocator do |
| PcxLoad.LoadOutcome | sgp/PCX.cc:114-135 | Loading succeeds iff the header was read, manufacturer is 10, encoding is 1, the size is non-zero, allocation succeeds and the body holds the UINT32-wrapped payload size plus 768 bytes. Then width = right - left + 1 and height = bottom - top + 1 (mod 2^16), uiBufferSize = size - 896 (mod 2^32), and the flags are PCX_256COLOR iff 8 bits per pixel and nothing else |
| PcxLoad.ConsistentFile | sgp/PCX.cc:118-135 | For a file whose reported size matches its body, loading succeeds iff it holds at least header + palette. It then splits the body into payload and the trailing 768 palette bytes. Shorter files are refused because the wrapped payload size cannot be read |
| PcxLoad.PcxObject.constructor | sgp/PCX.cc:126-132 | The object carries the loaded payload, palette, width, height, buffer size and flags |
| PcxBlit.BlitExactOpaque | sgp/PCX.cc:199-223 | Decoded byte k lands at index k for every k < n (n = bufW * bufH at the call); the rest of the buffer is unchanged |
| PcxBlit.BlitExactTransparent | sgp/PCX.cc:169-197 | Each cell k < n gets decoded byte k unless that byte is 0, in which case it keeps its old value, so it matches the opaque result wherever the byte is non-zero. Cells beyond n are unchanged |
| PcxBlit.ClipSetup | sgp/PCX.cc:227-246 | The X-clip bit is set iff width + x ≥ bufW and the Y-clip bit iff height + y ≥ bufH, and no other bit is. The byte count is width * (bufH - y) when Y-clipped, else width * height. maxX is bufW - 1 when X-clipped, else width + x (one column beyond the image). maxY is bufH - 1 when Y-clipped, else height + y. Both lie inside the buffer |
| PcxBlit.TransparentTargetIndex | sgp/PCX.cc:278-286 | The cell the clipped transparent loop stores byte j on is assigned byte j |
| PcxBlit.TransparentIndexTarget | sgp/PCX.cc:278-286 | A cell assigned byte j is the cell at row y + j / stride, column x + j % stride |
| PcxBlit.TransparentPlacement | sgp/PCX.cc:278-286 | Cell k receives byte j iff k is byte j's target: each byte goes to one cell and each cell receives at most one byte |
| PcxBlit.TransparentStep | sgp/PCX.cc:278-286 | One iteration writes byte i at (row, col) inside the destination when it is non-zero, and otherwise leaves the destination as it was |
| PcxBlit.TransparentCursor | sgp/PCX.cc:281-286 | The column/row update keeps byte i at row y + i / stride, column x + i % stride, where stride = maxX - x + 1 |
| PcxBlit.TransparentOverrun | sgp/PCX.cc:255-287 | If the byte count n exceeds (bufH - y) * stride, the cell the loop computes for byte n − 1 lies past the end of the bufW * bufH destination. The loop stores the byte there when it is non-zero |
| PcxBlit.BlitClippedTransparent | sgp/PCX.cc:255-287 | The destination after the loop is TransparentBlit of the old contents: each cell holds its assigned non-zero decoded byte, or its old value |
| PcxBlit.OpaqueTargetIndex | sgp/PCX.cc:318-341 | A byte in a writable position of its bufW-byte group, on a row ≤ maxY, is the one assigned to its target cell |
| PcxBlit.OpaqueIndexTarget | sgp/PCX.cc:318-341 | A cell assigned byte j is that byte's target, and byte j is in a writable position on a row ≤ maxY |
| PcxBlit.OpaquePlacement | sgp/PCX.cc:318-341 | Cell k receives byte j iff j % bufW < maxX - x, y + j / bufW ≤ maxY and k is the target of j |
| PcxBlit.OpaqueInBounds | sgp/PCX.cc:318-341 | Every cell the clipped opaque loop writes is inside the destination and left of column maxX |
| PcxBlit.OpaqueStep | sgp/PCX.cc:318-341 | One iteration stores byte i at column x + p of the current row, inside the destination, when p < maxX - x, and otherwise leaves the destination unchanged |
| PcxBlit.OpaqueNextRow | sgp/PCX.cc:325-339 | After a row's bufW bytes, the next byte is the first of the following row |
| PcxBlit.OpaqueStop | sgp/PCX.cc:331-336 | Stopping after row maxY loses no write: the destination is already what decoding all n bytes would give |
| PcxBlit.BlitClippedOpaque | sgp/PCX.cc:288-342 | The destination after the loop is OpaqueBlit of the old contents, from the bytes decoded before the loop ends or stops |
| PcxBlit.BlitPcxToBuffer | sgp/PCX.cc:147-347 | Always reports success. Exact fit: the flags are unchanged and each cell is set as the exact loops say (the first bufW * bufH cells are the decoded image when opaque). Clipped: the flags gain exactly ClipSetup's bits and the buffer is TransparentBlit or OpaqueBlit of its old contents |
| PcxPalette.PaletteTable | sgp/PCX.cc:366-372 | Entry i is (raw[3i], raw[3i+1], raw[3i+2], 0), with one entry per three bytes |
| PcxPalette.InterleaveTable | sgp/PCX.cc:366-372 | No colour byte is lost: re-interleaving the table gives the raw palette back |
| PcxPalette.TableInterleave | sgp/PCX.cc:366-372 | A table whose flags are all 0 is rebuilt exactly from its interleaved bytes |
| PcxImage.SetPcxPalette | sgp/PCX.cc:350-375 | Reports whether the allocation succeeded. On success the palette holds the 256 entries of PaletteTable, which interleave back to the object's 768 bytes. On failure the palette is null. Only the palette field changes and the PCX object is untouched |
| PcxImage.DecodeBitmap | sgp/PCX.cc:79-89 | The fresh width * height bitmap holds exactly the decoded image, and the object's flags are unchanged |
| PcxImage.LoadPcxFileToImage | sgp/PCX.cc:60-105 | Succeeds iff LoadPcx does, and leaves the image unchanged otherwise. On success: width and height come from the object, the bit depth is 8 and the flags gain fContents. When IMAGE_BITMAPDATA is requested the bitmap is a fresh array holding the decoded image; otherwise it is left as it was. If IMAGE_PALETTE is requested the palette is the table (or null when its allocation fails); otherwise it is left as it was |
| PcxImage.EncodedFileLoads | sgp/PCX.cc:82-84 | A file whose payload is the encoding of px, with header extents spanning \|px\| pixels, loads, and its decoded image is px and its palette the trailing 768 bytes |

## Left out

- File I/O (`FileOpen`, `FileRead`, `FileGetSize`, `AutoSGPFile`, sgp/PCX.cc:110-135) is replaced by parameters:
  - the header read's outcome as an `Option`, where a failed open counts as a failed header read;
  - the reported size;
  - the bytes after the header.
- `MALLOC`, `MALLOCN` and `MemFree` are not modelled as memory. Allocation success is a boolean parameter: one for the two allocations in `LoadPcx`, one for the palette. Freeing is not modelled.
- PcxImage.LoadPcxFileToImage: does not model a NULL returned by the bitmap `MALLOCN` (sgp/PCX.cc:82), which the source passes unchecked to the blit; the bitmap is always a fresh array.
- PcxImage.LoadPcxFileToImage: the `MemFree` and `return FALSE` after a failed blit (sgp/PCX.cc:84-88) are not modelled. `BlitPcxToBuffer` always returns TRUE, so that branch cannot run.
- PcxImage.LoadPcxFileToImage: requires that the payload decodes `width * height` bytes when the bitmap is requested. The source reads the payload unchecked, and on a short payload it reads past its buffer.
- PcxImage.LoadPcxFileToImage: `Create16BPPPalette` and the `pui16BPPPalette` field (sgp/PCX.cc:96) are left out, because that function's source is not part of this model.
- `IMAGE_BITMAPDATA` and `IMAGE_PALETTE` are parameters (`bitmapMask`, `paletteMask`), because HImage.h is not part of this model.
- Other HIMAGE fields are left out: the file name and everything not written at sgp/PCX.cc:73-96.
- PcxBlit.BlitPcxToBuffer: requires `CanBlit`, conditions the source does not check:
  - the payload holds every byte the chosen loop decodes;
  - in the clipped branch, x < bufW and y < bufH;
  - for the clipped transparent loop, the byte count fits the rows below y at its stride (see `TransparentOverrun`).

  It also requires a destination of at least bufW * bufH cells.
- PcxBlit.BlitClippedTransparent: requires the byte count to fit the rows below y at its stride. Beyond that, the source places the extra bytes past the destination and stores each one that is non-zero there.
  - The precondition therefore also excludes over-long calls whose extra bytes all decode to 0.
  - The source handles those calls inside the buffer, but the model does not cover them.
- C integer widths are not modelled. The UINT16 cursors, the UINT32 offsets and the C `int` products are unbounded integers. Those products are:
  - `usBufferWidth * usBufferHeight` (sgp/PCX.cc:163);
  - `usWidth * (usBufferHeight - usY)` (sgp/PCX.cc:240);
  - `usWidth * usHeight` (sgp/PCX.cc:244 and 82);
  - `usCurrentY * usBufferWidth` (sgp/PCX.cc:279, 290, 337).

  Under the preconditions no UINT16 or UINT32 value exceeds its type. The signed `int` products can pass 2^31, which is undefined behaviour in C and is not modelled.
  - The two image-size products can do so even for a small destination: for example, width 65535, height 40000 and bufW 1 in an opaque clipped blit, which `CanBlit` allows.
  - Their true value still fits in UINT32, so under two's-complement wrapping the stored result equals the model's.
- The header is reduced to the fields `LoadPcx` interprets. Struct layout, byte order, the `CASSERT` and the unused fields (resolution, EGA palette, planes, bytes per line, palette type, filler) are left out.
- The unused flag constants (`PCX_TRANSPARENT`, `PCX_CLIPPED`, `PCX_REALIZEPALETTE`, `PCX_NOTLOADED`, and the `PCX_ERROR*` codes) are left out; nothing in the file sets them.
