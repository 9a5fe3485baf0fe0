/** The palette of sgp/PCX.cc: the 768 bytes after the image data hold 256
    colours as interleaved red, green and blue bytes. */
module PcxPalette {
  import opened Bytes

  /** SGPPaletteEntry: three colour components and a flags byte. */
  datatype PaletteEntry = PaletteEntry(red: byte, green: byte, blue: byte, flags: byte)

  /** The table SetPcxPalette builds: entry i takes bytes 3i, 3i + 1 and 3i + 2
      as red, green and blue, with flags 0. */
  function PaletteTable(raw: seq<byte>): (t: seq<PaletteEntry>)
    requires |raw| % 3 == 0
    ensures |t| == |raw| / 3
    ensures forall i :: 0 <= i < |t| ==> t[i] == PaletteEntry(raw[3 * i], raw[3 * i + 1], raw[3 * i + 2], 0)
    decreases |raw|
  {
    if raw == [] then []
    else [PaletteEntry(raw[0], raw[1], raw[2], 0)] + PaletteTable(raw[3..])
  }

  /** The colour bytes of a table, interleaved again. */
  function Interleave(t: seq<PaletteEntry>): (raw: seq<byte>)
    ensures |raw| == 3 * |t|
  {
    if t == [] then []
    else [t[0].red, t[0].green, t[0].blue] + Interleave(t[1..])
  }

  /** No colour byte is lost: interleaving the table gives the raw bytes back. */
  lemma {:induction false} InterleaveTable(raw: seq<byte>)
    requires |raw| % 3 == 0
    ensures Interleave(PaletteTable(raw)) == raw
    decreases |raw|
  {
    if raw != [] {
      var t := PaletteTable(raw);
      assert t[1..] == PaletteTable(raw[3..]);
      InterleaveTable(raw[3..]);
      assert raw == [raw[0], raw[1], raw[2]] + raw[3..];
    }
  }

  /** A table whose flags are all 0, as SetPcxPalette writes them, is rebuilt
      exactly from its interleaved colour bytes. */
  lemma {:induction false} TableInterleave(t: seq<PaletteEntry>)
    requires forall i :: 0 <= i < |t| ==> t[i].flags == 0
    ensures PaletteTable(Interleave(t)) == t
    decreases |t|
  {
    if t != [] {
      var raw := Interleave(t);
      assert raw[3..] == Interleave(t[1..]);
      TableInterleave(t[1..]);
      assert t == [t[0]] + t[1..];
    }
  }
}
