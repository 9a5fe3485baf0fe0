/** LoadPcx of sgp/PCX.cc: header checks, sizing and the two reads that fill a
    PcxObject. */
module PcxLoad {
  import opened Bytes

  const HeaderSize := 128
  const PaletteSize := 768
  /** PCX_256COLOR */
  const Flag256Color: bv16 := 4

  /** The fields of the 128-byte PcxHeader that LoadPcx interprets. */
  datatype Header = Header(manufacturer: byte, version: byte, encoding: byte, bitsPerPixel: byte,
                           left: uint16, top: uint16, right: uint16, bottom: uint16)

  /** Which early return of LoadPcx was taken (the source returns NULL for all). */
  datatype LoadFailure =
    | HeaderUnreadable  // FileRead of the header failed
    | NotPcx            // ubManufacturer != 10
    | NotRle            // ubEncoding != 1
    | EmptyFile         // FileGetSize returned 0
    | OutOfMemory       // MALLOC or MALLOCN returned NULL
    | ShortPayload      // FileRead of uiBufferSize bytes failed
    | ShortPalette      // FileRead of the 768 palette bytes failed

  /** The contents of a loaded PcxObject. */
  datatype Pcx = Pcx(payload: seq<byte>, palette: seq<byte>, width: uint16, height: uint16,
                     bufferSize: uint32, flags: bv16)

  /** LoadPcx. `header` is the outcome of reading the header (None when that
      read fails), `fileSize` what FileGetSize reports, `body` the bytes of the
      file after the header, and `allocOk` whether the allocations succeed.
      The payload size is computed in UINT32 and wraps for files shorter than
      header + palette. */
  function LoadPcx(header: Option<Header>, fileSize: uint32, body: seq<byte>, allocOk: bool): (r: Result<Pcx, LoadFailure>)
    ensures r.Success? ==> |r.value.payload| == r.value.bufferSize && |r.value.palette| == PaletteSize
    ensures r.Success? ==> r.value.bufferSize + PaletteSize <= |body|
    ensures r.Success? ==> r.value.payload + r.value.palette == body[..r.value.bufferSize + PaletteSize]
  {
    if header.None? then Failure(HeaderUnreadable)
    else if header.value.manufacturer != 10 then Failure(NotPcx)
    else if header.value.encoding != 1 then Failure(NotRle)
    else if fileSize == 0 then Failure(EmptyFile)
    else
      var bufferSize := Wrap32(fileSize - HeaderSize - PaletteSize);
      if !allocOk then Failure(OutOfMemory)
      else if |body| < bufferSize then Failure(ShortPayload)
      else if |body| - bufferSize < PaletteSize then Failure(ShortPalette)
      else
        var h := header.value;
        Success(Pcx(body[..bufferSize], body[bufferSize..bufferSize + PaletteSize],
                    Wrap16(h.right - h.left + 1), Wrap16(h.bottom - h.top + 1), bufferSize,
                    if h.bitsPerPixel == 8 then Flag256Color else 0))
  }

  /** The format checks come first: a header that is not PCX or not RLE is
      refused whatever the file's size, contents or the allocator do. */
  lemma FormatCheckedFirst(h: Header, size1: uint32, body1: seq<byte>, alloc1: bool,
                           size2: uint32, body2: seq<byte>, alloc2: bool)
    requires h.manufacturer != 10 || h.encoding != 1
    ensures LoadPcx(Some(h), size1, body1, alloc1).Failure?
    ensures LoadPcx(Some(h), size1, body1, alloc1) == LoadPcx(Some(h), size2, body2, alloc2)
  {
  }

  /** Loading succeeds exactly when the header was read, is PCX and RLE, the
      size is non-zero, the allocation succeeds and the body holds the
      (wrapped) payload size plus the palette; the object then carries the
      header's inclusive extents and the 256-colour flag iff 8 bits per pixel. */
  lemma LoadOutcome(header: Option<Header>, fileSize: uint32, body: seq<byte>, allocOk: bool)
    ensures var r := LoadPcx(header, fileSize, body, allocOk);
      r.Success? <==>
        && header.Some? && header.value.manufacturer == 10 && header.value.encoding == 1
        && fileSize != 0 && allocOk
        && Wrap32(fileSize - HeaderSize - PaletteSize) + PaletteSize <= |body|
    ensures var r := LoadPcx(header, fileSize, body, allocOk);
      r.Success? ==>
        && r.value.width == Wrap16(header.value.right - header.value.left + 1)
        && r.value.height == Wrap16(header.value.bottom - header.value.top + 1)
        && r.value.bufferSize == Wrap32(fileSize - HeaderSize - PaletteSize)
        && (r.value.flags & Flag256Color != 0 <==> header.value.bitsPerPixel == 8)
        && r.value.flags & !Flag256Color == 0
  {
  }

  /** For a file whose reported size matches its contents, the UINT32 wrap is
      harmless: a file shorter than header + palette is refused (the read of
      the wrapped, huge payload size fails), and a long enough one is split
      into payload and the trailing 768 palette bytes. */
  lemma {:induction false} ConsistentFile(h: Header, fileSize: uint32, body: seq<byte>)
    requires fileSize == HeaderSize + |body|
    requires h.manufacturer == 10 && h.encoding == 1
    ensures LoadPcx(Some(h), fileSize, body, true).Success? <==> fileSize >= HeaderSize + PaletteSize
    ensures LoadPcx(Some(h), fileSize, body, true).Success? ==>
              && LoadPcx(Some(h), fileSize, body, true).value.payload == body[..|body| - PaletteSize]
              && LoadPcx(Some(h), fileSize, body, true).value.palette == body[|body| - PaletteSize..]
  {
    if fileSize < HeaderSize + PaletteSize {
      assert Wrap32(fileSize - HeaderSize - PaletteSize) == fileSize - HeaderSize - PaletteSize + 0x1_0000_0000;
    } else {
      assert Wrap32(fileSize - HeaderSize - PaletteSize) == |body| - PaletteSize;
    }
  }

  /** The heap object LoadPcx returns. Only usPcxFlags changes after loading:
      BlitPcxToBuffer ORs clipping bits into it. */
  class PcxObject {
    const payload: seq<byte>
    const palette: seq<byte>
    const width: uint16
    const height: uint16
    const bufferSize: uint32
    var flags: bv16

    /** The object LoadPcx fills in when every check and read succeeds. */
    constructor (p: Pcx)
      ensures payload == p.payload && palette == p.palette
      ensures width == p.width && height == p.height
      ensures bufferSize == p.bufferSize && flags == p.flags
    {
      payload := p.payload;
      palette := p.palette;
      width := p.width;
      height := p.height;
      bufferSize := p.bufferSize;
      flags := p.flags;
    }
  }
}
