/** LoadPCXFileToImage and SetPcxPalette of sgp/PCX.cc: a loaded PCX object
    fills the fields of an image. */
module PcxImage {
  import opened Bytes
  import opened Rle
  import opened PcxLoad
  import opened PcxBlit
  import opened PcxPalette

  /** The fields of the image handle (HIMAGE) that loading a PCX file sets. */
  class Image {
    var width: uint16
    var height: uint16
    var bitDepth: byte
    var flags: bv16
    var bitmap: array?<byte>
    var palette: array?<PaletteEntry>

    /** An image whose fields no loader has set yet. */
    constructor (flags: bv16)
      ensures this.flags == flags && width == 0 && height == 0 && bitDepth == 0
      ensures bitmap == null && palette == null
    {
      this.flags := flags;
      width, height, bitDepth := 0, 0, 0;
      bitmap, palette := null, null;
    }
  }

  /** SetPcxPalette: allocates a 256-entry palette for the image and fills it
      from the object's 768 palette bytes; when the allocation fails
      (`allocOk` false) the image's palette is null and the result is false.
      The PCX object is not changed. */
  method SetPcxPalette(pcx: PcxObject, image: Image, allocOk: bool) returns (ok: bool)
    requires |pcx.palette| == PaletteSize
    modifies image`palette
    ensures ok == allocOk
    ensures ok ==> image.palette != null && fresh(image.palette) && image.palette.Length == 256
    ensures ok ==> forall i :: 0 <= i < 256 ==>
              image.palette[i] == PaletteEntry(pcx.palette[3 * i], pcx.palette[3 * i + 1], pcx.palette[3 * i + 2], 0)
    ensures ok ==> image.palette[..] == PaletteTable(pcx.palette)
    ensures ok ==> Interleave(image.palette[..]) == pcx.palette
    ensures !ok ==> image.palette == null
    ensures unchanged(pcx)
  {
    if !allocOk {
      image.palette := null;
      return false;
    }
    var table := new PaletteEntry[256];
    image.palette := table;
    var index := 0;
    while index < 256
      invariant 0 <= index <= 256
      modifies table
      invariant forall i :: 0 <= i < index ==>
                  table[i] == PaletteEntry(pcx.palette[3 * i], pcx.palette[3 * i + 1], pcx.palette[3 * i + 2], 0)
    {
      table[index] := PaletteEntry(pcx.palette[index * 3], pcx.palette[index * 3 + 1], pcx.palette[index * 3 + 2], 0);
      index := index + 1;
    }
    assert table[..] == PaletteTable(pcx.palette);
    InterleaveTable(pcx.palette);
    ok := true;
  }

  /** The bitmap step of LoadPCXFileToImage: a width * height buffer filled by
      the opaque blit at (0, 0), which is always the exact fit. */
  method DecodeBitmap(pcx: PcxObject) returns (data: array<byte>)
    requires Run(pcx.payload, pcx.width * pcx.height).Some?
    modifies pcx
    ensures fresh(data)
    ensures data[..] == Decode(pcx.payload, pcx.width * pcx.height)
    ensures pcx.flags == old(pcx.flags)
  {
    var size: nat := pcx.width * pcx.height;
    data := new byte[size];
    assert ExactFit(pcx.width, pcx.height, pcx.width, pcx.height, 0, 0);
    var _ := BlitPcxToBuffer(pcx, data, pcx.width, pcx.height, 0, 0, false);
    assert data[..] == data[..size];
  }

  /** LoadPCXFileToImage. The file is given as LoadPcx receives it (header,
      size, bytes after the header, allocation outcome); `contents` is
      fContents, and `bitmapMask` and `paletteMask` the IMAGE_BITMAPDATA and
      IMAGE_PALETTE bits it is masked with. The image is decoded into a
      width * height bitmap by the exact-fit opaque blit at (0, 0); the
      result of SetPcxPalette is not looked at. */
  method LoadPcxFileToImage(image: Image, contents: bv16, bitmapMask: bv16, paletteMask: bv16,
                            header: Option<Header>, fileSize: uint32, body: seq<byte>,
                            allocOk: bool, paletteAllocOk: bool) returns (ok: bool)
    requires LoadPcx(header, fileSize, body, allocOk).Success? && contents & bitmapMask != 0 ==>
               var p := LoadPcx(header, fileSize, body, allocOk).value;
               Run(p.payload, p.width * p.height).Some?
    modifies image
    ensures ok <==> LoadPcx(header, fileSize, body, allocOk).Success?
    ensures !ok ==> unchanged(image)
    ensures ok ==> var p := LoadPcx(header, fileSize, body, allocOk).value;
              image.width == p.width && image.height == p.height && image.bitDepth == 8
    ensures ok ==> image.flags == old(image.flags) | contents
    ensures ok && contents & bitmapMask != 0 ==>
              var p := LoadPcx(header, fileSize, body, allocOk).value;
              image.bitmap != null && fresh(image.bitmap) && image.bitmap[..] == Decode(p.payload, p.width * p.height)
    ensures ok && contents & bitmapMask == 0 ==> image.bitmap == old(image.bitmap)
    ensures ok && contents & paletteMask != 0 && paletteAllocOk ==>
              image.palette != null && fresh(image.palette)
              && image.palette[..] == PaletteTable(LoadPcx(header, fileSize, body, allocOk).value.palette)
    ensures ok && contents & paletteMask != 0 && !paletteAllocOk ==> image.palette == null
    ensures ok && contents & paletteMask == 0 ==> image.palette == old(image.palette)
  {
    // The flags the image ends with; LoadPcx does not touch the image.
    var flags := image.flags | contents;
    var loaded := LoadPcx(header, fileSize, body, allocOk);
    if loaded.Failure? {
      return false;
    }
    var pcx := new PcxObject(loaded.value);
    image.width := pcx.width;
    image.height := pcx.height;
    image.bitDepth := 8;
    image.flags := flags;
    if contents & bitmapMask != 0 {
      image.bitmap := DecodeBitmap(pcx);
    }
    if contents & paletteMask != 0 {
      var _ := SetPcxPalette(pcx, image, paletteAllocOk);
    }
    assert loaded == LoadPcx(header, fileSize, body, allocOk);
    assert image.width == loaded.value.width && image.height == loaded.value.height;
    ok := true;
  }

  /** A file whose image data is the RLE encoding of px, whose header extents
      span |px| pixels and whose last 768 bytes are pal loads; its payload
      decodes to exactly px, the bitmap LoadPcxFileToImage then holds, and its
      palette is pal. */
  lemma EncodedFileLoads(h: Header, px: seq<byte>, pal: seq<byte>)
    requires h.manufacturer == 10 && h.encoding == 1
    requires |pal| == PaletteSize
    requires HeaderSize + |Encode(px)| + PaletteSize < 0x1_0000_0000
    requires Wrap16(h.right - h.left + 1) * Wrap16(h.bottom - h.top + 1) == |px|
    ensures var r := LoadPcx(Some(h), HeaderSize + |Encode(px)| + PaletteSize, Encode(px) + pal, true);
            && r.Success?
            && r.value.payload == Encode(px) && r.value.palette == pal
            && Run(r.value.payload, r.value.width * r.value.height).Some?
            && Decode(r.value.payload, r.value.width * r.value.height) == px
  {
    var body := Encode(px) + pal;
    var size := HeaderSize + |Encode(px)| + PaletteSize;
    ConsistentFile(h, size, body);
    LoadOutcome(Some(h), size, body, true);
    assert body[..|body| - PaletteSize] == Encode(px);
    assert body[|body| - PaletteSize..] == pal;
    DecodeEncode(px);
  }
}
