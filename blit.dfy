/** BlitPcxToBuffer of sgp/PCX.cc: the run-length decoder of module Rle drives
    one of four loops that place decoded bytes in a destination raster of
    bufW * bufH bytes. The clipped loops are modelled as written. */
module PcxBlit {
  import opened Bytes
  import opened Arith
  import opened Rle
  import opened PcxLoad

  /** PCX_X_CLIPPING */
  const XClipping: bv16 := 64
  /** PCX_Y_CLIPPING */
  const YClipping: bv16 := 128

  /** The blit takes the exact-fit branch: the image at (x, y) ends exactly at
      the destination's right and bottom edges. */
  predicate ExactFit(width: nat, height: nat, bufW: nat, bufH: nat, x: nat, y: nat)
  {
    width + x == bufW && height + y == bufH
  }

  /** The value a destination cell ends with, given the old value, the decoded
      bytes d and which of them (if any) the loop placed on the cell: a
      transparent blit leaves the old value where that byte is 0. */
  function Cell(was: byte, d: seq<byte>, source: Option<nat>, transparent: bool): byte
    requires source.Some? ==> source.value < |d|
  {
    match source
    case None => was
    case Some(j) => if transparent && d[j] == 0 then was else d[j]
  }

  /** Keeps a decoded-byte index only when it is below the count n the loop decodes. */
  function Upto(j: Option<nat>, n: nat): (r: Option<nat>)
    ensures r.Some? ==> r.value < n
  {
    if j.Some? && j.value < n then j else None
  }

  // ---------------------------------------------------------------- exact fit

  /** The exact-fit opaque loop: byte k of the decoded image lands at index k. */
  method BlitExactOpaque(src: seq<byte>, buffer: array<byte>, n: nat)
    requires n <= buffer.Length && Run(src, n).Some?
    modifies buffer
    ensures buffer[..n] == Decode(src, n)
    ensures buffer[n..] == old(buffer[n..])
  {
    ghost var d := Decode(src, n);
    var st := Initial;
    var i := 0;
    while i < n
      invariant 0 <= i <= n
      invariant Run(src, i) == Some(Trace(d[..i], st))
      invariant buffer[..i] == d[..i]
      invariant buffer[n..] == old(buffer[n..])
    {
      var b;
      st, b := NextByte(src, n, i, st);
      buffer[i] := b;
      i := i + 1;
    }
  }

  /** The exact-fit transparent loop: byte k lands at index k unless it is 0. */
  method BlitExactTransparent(src: seq<byte>, buffer: array<byte>, n: nat)
    requires n <= buffer.Length && Run(src, n).Some?
    modifies buffer
    ensures forall k :: 0 <= k < buffer.Length ==>
              buffer[k] == Cell(old(buffer[k]), Decode(src, n), Upto(Some(k), n), true)
  {
    ghost var was := buffer[..];
    ghost var d := Decode(src, n);
    var st := Initial;
    var i := 0;
    while i < n
      invariant 0 <= i <= n
      invariant Run(src, i) == Some(Trace(d[..i], st))
      invariant forall k :: 0 <= k < buffer.Length ==> buffer[k] == Cell(was[k], d, Upto(Some(k), i), true)
    {
      var b;
      st, b := NextByte(src, n, i, st);
      if b != 0 {
        buffer[i] := b;
      }
      i := i + 1;
    }
  }

  // ------------------------------------------------------------ clip set-up

  /** What the clipped branch computes before decoding. */
  datatype Clip = Clip(maxX: nat, maxY: nat, imageSize: nat, flagBits: bv16)

  /** The clipped branch's set-up: the last column and row bounds, the number
      of bytes to decode and the clipping bits it ORs into the flags. */
  function ClipSetup(width: uint16, height: uint16, bufW: uint16, bufH: uint16, x: uint16, y: uint16): (g: Clip)
    requires x < bufW && y < bufH
    ensures x <= g.maxX < bufW && y <= g.maxY < bufH
    ensures g.maxX == if width + x >= bufW then bufW - 1 else width + x
    ensures g.maxY == if height + y >= bufH then bufH - 1 else height + y
    ensures g.imageSize == width * Min(height, bufH - y)
    ensures (g.flagBits & XClipping != 0) <==> width + x >= bufW
    ensures (g.flagBits & YClipping != 0) <==> height + y >= bufH
    ensures g.flagBits & !(XClipping | YClipping) == 0
  {
    var xClipped := width + x >= bufW;
    var yClipped := height + y >= bufH;
    Clip(if xClipped then bufW - 1 else width + x,
         if yClipped then bufH - 1 else height + y,
         if yClipped then width * (bufH - y) else width * height,
         (if xClipped then XClipping else 0) | (if yClipped then YClipping else 0))
  }

  // ---------------------------------------------------- clipped, transparent

  /** The decoded-byte index the clipped transparent loop places on linear
      index k, however many bytes it decodes: it wraps to column x only once
      the column passes maxX, so each row takes maxX - x + 1 bytes (width + 1
      when not X-clipped, since maxX is then width + x). */
  function TransparentIndex(k: nat, bufW: nat, x: nat, y: nat, maxX: nat): Option<nat>
  {
    if bufW == 0 then None
    else
      var row, col := k / bufW, k % bufW;
      if row < y || col < x || maxX < col then None
      else Some((row - y) * (maxX - x + 1) + (col - x))
  }

  /** Where the clipped transparent loop stores decoded byte j. */
  function TransparentTarget(j: nat, bufW: nat, x: nat, y: nat, maxX: nat): nat
    requires x <= maxX
  {
    (y + j / (maxX - x + 1)) * bufW + x + j % (maxX - x + 1)
  }

  /** The destination after the clipped transparent loop has decoded n bytes
      into d, from the old contents was. */
  function TransparentBlit(was: seq<byte>, d: seq<byte>, bufW: nat, x: nat, y: nat, maxX: nat, n: nat): seq<byte>
    requires n <= |d|
  {
    seq(|was|, k requires 0 <= k < |was| => Cell(was[k], d, Upto(TransparentIndex(k, bufW, x, y, maxX), n), true))
  }

  lemma TransparentTargetIndex(j: nat, bufW: nat, x: nat, y: nat, maxX: nat)
    requires x <= maxX < bufW
    ensures TransparentIndex(TransparentTarget(j, bufW, x, y, maxX), bufW, x, y, maxX) == Some(j)
  {
    var c := maxX - x + 1;
    var q, r := j / c, j % c;
    assert j == q * c + r;
    assert TransparentTarget(j, bufW, x, y, maxX) == (y + q) * bufW + (x + r);
    DivModOf(y + q, x + r, bufW);
  }

  lemma TransparentIndexTarget(k: nat, j: nat, bufW: nat, x: nat, y: nat, maxX: nat)
    requires x <= maxX < bufW
    requires TransparentIndex(k, bufW, x, y, maxX) == Some(j)
    ensures k == TransparentTarget(j, bufW, x, y, maxX)
  {
    var c := maxX - x + 1;
    var row, col := k / bufW, k % bufW;
    assert k == row * bufW + col;
    assert j == (row - y) * c + (col - x);
    DivModOf(row - y, col - x, c);
  }

  /** TransparentIndex and TransparentTarget are inverse: each decoded byte
      goes to one cell and each cell receives at most one byte. */
  lemma TransparentPlacement(k: nat, j: nat, bufW: nat, x: nat, y: nat, maxX: nat)
    requires x <= maxX < bufW
    ensures TransparentIndex(k, bufW, x, y, maxX) == Some(j) <==> k == TransparentTarget(j, bufW, x, y, maxX)
  {
    if k == TransparentTarget(j, bufW, x, y, maxX) {
      TransparentTargetIndex(j, bufW, x, y, maxX);
    }
    if TransparentIndex(k, bufW, x, y, maxX) == Some(j) {
      TransparentIndexTarget(k, j, bufW, x, y, maxX);
    }
  }

  /** One iteration of the clipped transparent loop, at row `row` and column
      `col`: that cell is inside the destination and is the only cell whose
      decoded-byte index becomes available. */
  lemma TransparentAdvance(bufW: nat, bufH: nat, x: nat, y: nat, maxX: nat, n: nat, i: nat, row: nat, col: nat)
    requires x <= col <= maxX < bufW && y <= row && y < bufH
    requires i < n <= (bufH - y) * (maxX - x + 1)
    requires i == (row - y) * (maxX - x + 1) + (col - x)
    ensures row < bufH
    ensures row * bufW + col < bufW * bufH
    ensures forall k: nat :: Upto(TransparentIndex(k, bufW, x, y, maxX), i + 1) ==
              if k == row * bufW + col then Some(i) else Upto(TransparentIndex(k, bufW, x, y, maxX), i)
  {
    var c := maxX - x + 1;
    if row >= bufH {
      MulLe(bufH - y, row - y, c);
    }
    InGrid(row, col, bufW, bufH);
    DivModOf(row - y, col - x, c);
    assert TransparentTarget(i, bufW, x, y, maxX) == row * bufW + col;
    forall k: nat
      ensures TransparentIndex(k, bufW, x, y, maxX) == Some(i) <==> k == row * bufW + col
    {
      TransparentPlacement(k, i, bufW, x, y, maxX);
    }
  }

  /** The effect of one iteration on the destination: decoded byte i is
      stored at (row, col) unless it is 0; after the last column the next
      byte starts the following row. */
  lemma TransparentStep(was: seq<byte>, d: seq<byte>, bufW: nat, bufH: nat, x: nat, y: nat, maxX: nat,
                        n: nat, i: nat, row: nat, col: nat)
    requires x <= col <= maxX < bufW && y <= row && y < bufH && bufW * bufH <= |was|
    requires i < n <= (bufH - y) * (maxX - x + 1) && n <= |d|
    requires i == (row - y) * (maxX - x + 1) + (col - x)
    ensures row < bufH && 0 <= row * bufW && row * bufW + col < bufW * bufH
    ensures TransparentBlit(was, d, bufW, x, y, maxX, i + 1) ==
              if d[i] == 0 then TransparentBlit(was, d, bufW, x, y, maxX, i)
              else TransparentBlit(was, d, bufW, x, y, maxX, i)[row * bufW + col := d[i]]
  {
    TransparentAdvance(bufW, bufH, x, y, maxX, n, i, row, col);
    var before, after := TransparentBlit(was, d, bufW, x, y, maxX, i), TransparentBlit(was, d, bufW, x, y, maxX, i + 1);
    var t := row * bufW + col;
    var expected := if d[i] == 0 then before else before[t := d[i]];
    forall k | 0 <= k < |was|
      ensures after[k] == expected[k]
    {
      assert Upto(TransparentIndex(k, bufW, x, y, maxX), i + 1) ==
        if k == t then Some(i) else Upto(TransparentIndex(k, bufW, x, y, maxX), i);
    }
    assert after == expected;
  }

  /** The cursor update of the clipped transparent loop keeps byte i at row
      y + i / stride, column x + i % stride. */
  lemma TransparentCursor(x: nat, y: nat, maxX: nat, i: nat, row: nat, col: nat, row': nat, col': nat)
    requires x <= col <= maxX && y <= row
    requires i == (row - y) * (maxX - x + 1) + (col - x)
    requires if col + 1 > maxX then row' == row + 1 && col' == x else row' == row && col' == col + 1
    ensures i + 1 == (row' - y) * (maxX - x + 1) + (col' - x)
  {
    if col + 1 > maxX {
      assert (row + 1 - y) * (maxX - x + 1) == (row - y) * (maxX - x + 1) + (maxX - x + 1);
    }
  }

  /** Why the clipped transparent loop needs its precondition: if the image
      size exceeds the rows left below y times the stride, the loop places
      decoded byte n - 1 past the end of the bufW * bufH destination (it never
      compares the row with maxY), and stores it there when it is non-zero. */
  lemma TransparentOverrun(bufW: nat, bufH: nat, x: nat, y: nat, maxX: nat, n: nat)
    requires x <= maxX < bufW && y < bufH
    requires (bufH - y) * (maxX - x + 1) < n
    ensures TransparentTarget(n - 1, bufW, x, y, maxX) >= bufW * bufH
  {
    var c := maxX - x + 1;
    var q, r := (n - 1) / c, (n - 1) % c;
    assert n - 1 == q * c + r;
    MulDivLe(bufH - y, n - 1, c);
    MulLe(bufH, y + q, bufW);
  }

  /** The clipped transparent loop (a row's column runs from x to maxX, and
      the row index is never checked): decoded byte j goes to
      TransparentTarget(j), and is stored there unless it is 0. */
  method BlitClippedTransparent(src: seq<byte>, buffer: array<byte>, bufW: uint16, bufH: uint16,
                                x: uint16, y: uint16, maxX: uint16, n: nat)
    requires x <= maxX < bufW && y < bufH && bufW * bufH <= buffer.Length
    requires n <= (bufH - y) * (maxX - x + 1)
    requires Run(src, n).Some?
    modifies buffer
    ensures buffer[..] == TransparentBlit(old(buffer[..]), Decode(src, n), bufW, x, y, maxX, n)
  {
    ghost var was := buffer[..];
    ghost var d := Decode(src, n);
    var st := Initial;
    var curX: nat, curY: nat := x, y;
    var i := 0;
    while i < n
      invariant 0 <= i <= n
      invariant x <= curX <= maxX && y <= curY
      invariant i == (curY - y) * (maxX - x + 1) + (curX - x)
      invariant Run(src, i) == Some(Trace(d[..i], st))
      invariant buffer[..] == TransparentBlit(was, d, bufW, x, y, maxX, i)
    {
      TransparentStep(was, d, bufW, bufH, x, y, maxX, n, i, curY, curX);
      var b;
      st, b := NextByte(src, n, i, st);
      if b != 0 {
        buffer[curY * bufW + curX] := b;
      }
      ghost var row, col := curY, curX;
      curX := curX + 1;
      if curX > maxX {
        curX := x;
        curY := curY + 1;
      }
      TransparentCursor(x, y, maxX, i, row, col, curY, curX);
      i := i + 1;
    }
  }

  // --------------------------------------------------------- clipped, opaque

  /** The decoded-byte index the clipped opaque loop places on linear index
      k, however many bytes it decodes. The loop consumes bufW decoded bytes
      per destination row: it writes columns x to maxX - 1, then consumes
      bytes without writing until the end of the destination line, and one
      more to change rows; it stops after row maxY. */
  function OpaqueIndex(k: nat, bufW: nat, x: nat, y: nat, maxX: nat, maxY: nat): (j: Option<nat>)
    ensures j.Some? ==> j.value < (maxY - y + 1) * bufW
  {
    if bufW == 0 then None
    else
      var row, col := k / bufW, k % bufW;
      if row < y || maxY < row || col < x || maxX <= col then None
      else
        MulLe(row - y + 1, maxY - y + 1, bufW);
        assert (row - y + 1) * bufW == (row - y) * bufW + bufW;
        Some((row - y) * bufW + (col - x))
  }

  /** Where the clipped opaque loop would store decoded byte j. */
  function OpaqueTarget(j: nat, bufW: nat, x: nat, y: nat): nat
    requires 0 < bufW
  {
    (y + j / bufW) * bufW + x + j % bufW
  }

  /** How many bytes the clipped opaque loop decodes: n, or fewer when it
      stops on passing row maxY. */
  function OpaqueReads(n: nat, bufW: nat, y: nat, maxY: nat): nat
    requires y <= maxY
  {
    Min(n, (maxY - y + 1) * bufW)
  }

  /** The destination after the clipped opaque loop has decoded n bytes into
      d (or stopped earlier), from the old contents was. */
  function OpaqueBlit(was: seq<byte>, d: seq<byte>, bufW: nat, x: nat, y: nat, maxX: nat, maxY: nat, n: nat): seq<byte>
    requires Min(n, (maxY - y + 1) * bufW) <= |d|
  {
    seq(|was|, k requires 0 <= k < |was| => Cell(was[k], d, Upto(OpaqueIndex(k, bufW, x, y, maxX, maxY), n), false))
  }

  lemma OpaqueTargetIndex(j: nat, bufW: nat, x: nat, y: nat, maxX: nat, maxY: nat)
    requires x <= maxX < bufW
    requires j % bufW < maxX - x && y + j / bufW <= maxY
    ensures OpaqueIndex(OpaqueTarget(j, bufW, x, y), bufW, x, y, maxX, maxY) == Some(j)
  {
    var q, r := j / bufW, j % bufW;
    assert j == q * bufW + r;
    assert OpaqueTarget(j, bufW, x, y) == (y + q) * bufW + (x + r);
    DivModOf(y + q, x + r, bufW);
  }

  lemma OpaqueIndexTarget(k: nat, j: nat, bufW: nat, x: nat, y: nat, maxX: nat, maxY: nat)
    requires x <= maxX < bufW
    requires OpaqueIndex(k, bufW, x, y, maxX, maxY) == Some(j)
    ensures j % bufW < maxX - x && y + j / bufW <= maxY && k == OpaqueTarget(j, bufW, x, y)
  {
    var row, col := k / bufW, k % bufW;
    assert k == row * bufW + col;
    assert j == (row - y) * bufW + (col - x);
    DivModOf(row - y, col - x, bufW);
  }

  /** Decoded byte j is stored exactly when its position in its bufW-byte
      group is below maxX - x and its row is at most maxY, and then at
      OpaqueTarget(j); no other cell is written. */
  lemma OpaquePlacement(k: nat, j: nat, bufW: nat, x: nat, y: nat, maxX: nat, maxY: nat)
    requires x <= maxX < bufW
    ensures OpaqueIndex(k, bufW, x, y, maxX, maxY) == Some(j) <==>
              j % bufW < maxX - x && y + j / bufW <= maxY && k == OpaqueTarget(j, bufW, x, y)
  {
    if j % bufW < maxX - x && y + j / bufW <= maxY && k == OpaqueTarget(j, bufW, x, y) {
      OpaqueTargetIndex(j, bufW, x, y, maxX, maxY);
    }
    if OpaqueIndex(k, bufW, x, y, maxX, maxY) == Some(j) {
      OpaqueIndexTarget(k, j, bufW, x, y, maxX, maxY);
    }
  }

  /** Every cell the clipped opaque loop writes lies inside the destination and
      left of column maxX: when X-clipped (maxX = bufW - 1) the last column
      is never written. */
  lemma OpaqueInBounds(k: nat, bufW: nat, bufH: nat, x: nat, y: nat, maxX: nat, maxY: nat)
    requires x <= maxX < bufW && y <= maxY < bufH
    requires OpaqueIndex(k, bufW, x, y, maxX, maxY).Some?
    ensures k < bufW * bufH && k % bufW < maxX
  {
    InGrid(k / bufW, k % bufW, bufW, bufH);
  }

  /** One iteration of the clipped opaque loop, on row `row` after p bytes
      of that row's bufW: it still has payload to decode, and when
      p < maxX - x it stores decoded byte i at column x + p of the row, inside
      the destination; otherwise the destination is unchanged. After the
      row's last byte the next byte starts the following row. */
  lemma OpaqueStep(was: seq<byte>, d: seq<byte>, bufW: nat, bufH: nat, x: nat, y: nat, maxX: nat, maxY: nat,
                   n: nat, i: nat, row: nat, p: nat)
    requires x <= maxX < bufW && y <= row <= maxY < bufH && bufW * bufH <= |was|
    requires i < n && p < bufW && i == (row - y) * bufW + p
    requires OpaqueReads(n, bufW, y, maxY) <= |d|
    ensures i < OpaqueReads(n, bufW, y, maxY)
    ensures p < maxX - x ==> 0 <= row * bufW && row * bufW + x + p < bufW * bufH
    ensures OpaqueBlit(was, d, bufW, x, y, maxX, maxY, i + 1) ==
              if p < maxX - x then OpaqueBlit(was, d, bufW, x, y, maxX, maxY, i)[row * bufW + x + p := d[i]]
              else OpaqueBlit(was, d, bufW, x, y, maxX, maxY, i)
  {
    MulLe(row - y + 1, maxY - y + 1, bufW);
    assert (row - y + 1) * bufW == (row - y) * bufW + bufW;
    var t := row * bufW + x + p;
    if p < maxX - x {
      InGrid(row, x + p, bufW, bufH);
    }
    DivModOf(row - y, p, bufW);
    assert OpaqueTarget(i, bufW, x, y) == t;
    var before, after := OpaqueBlit(was, d, bufW, x, y, maxX, maxY, i), OpaqueBlit(was, d, bufW, x, y, maxX, maxY, i + 1);
    var expected := if p < maxX - x then before[t := d[i]] else before;
    forall k | 0 <= k < |was|
      ensures after[k] == expected[k]
    {
      OpaquePlacement(k, i, bufW, x, y, maxX, maxY);
    }
    assert after == expected;
  }

  /** The line change of the clipped opaque loop: the byte after the last of
      row `row` is the first of row `row'`. */
  lemma OpaqueNextRow(bufW: nat, y: nat, i: nat, p: nat, row: nat, row': nat)
    requires y <= row && i == (row - y) * bufW + p && p + 1 == bufW && row' == row + 1
    ensures i + 1 == (row' - y) * bufW
  {
    assert (row' - y) * bufW == (row - y) * bufW + bufW;
  }

  /** When the loop stops on the line change after row maxY, every cell it
      would ever write has been written. */
  lemma OpaqueStop(was: seq<byte>, d: seq<byte>, bufW: nat, x: nat, y: nat, maxX: nat, maxY: nat, n: nat, i: nat, row': nat)
    requires x <= maxX < bufW && y <= maxY && row' == maxY + 1
    requires i < n && i + 1 == (row' - y) * bufW
    requires OpaqueReads(n, bufW, y, maxY) <= |d|
    ensures OpaqueBlit(was, d, bufW, x, y, maxX, maxY, i + 1) == OpaqueBlit(was, d, bufW, x, y, maxX, maxY, n)
  {
    assert (row' - y) * bufW == (maxY - y) * bufW + bufW;
    forall k: nat | OpaqueIndex(k, bufW, x, y, maxX, maxY).Some?
      ensures OpaqueIndex(k, bufW, x, y, maxX, maxY).value <= i
    {
      var j := OpaqueIndex(k, bufW, x, y, maxX, maxY).value;
      OpaqueIndexTarget(k, j, bufW, x, y, maxX, maxY);
      assert j == (j / bufW) * bufW + j % bufW;
      MulLe(j / bufW, maxY - y, bufW);
    }
    var a, b := OpaqueBlit(was, d, bufW, x, y, maxX, maxY, i + 1), OpaqueBlit(was, d, bufW, x, y, maxX, maxY, n);
    forall k | 0 <= k < |was|
      ensures a[k] == b[k]
    {
    }
    assert a == b;
  }

  /** The clipped opaque loop, with its running offset and next-line offset. */
  method BlitClippedOpaque(src: seq<byte>, buffer: array<byte>, bufW: uint16, bufH: uint16,
                           x: uint16, y: uint16, maxX: uint16, maxY: uint16, n: nat)
    requires x <= maxX < bufW && y <= maxY < bufH && bufW * bufH <= buffer.Length
    requires Run(src, OpaqueReads(n, bufW, y, maxY)).Some?
    modifies buffer
    ensures buffer[..] == OpaqueBlit(old(buffer[..]), Decode(src, OpaqueReads(n, bufW, y, maxY)), bufW, x, y, maxX, maxY, n)
  {
    ghost var was := buffer[..];
    ghost var consumed := OpaqueReads(n, bufW, y, maxY);
    ghost var d := Decode(src, consumed);
    ghost var p: nat := 0;
    var st := Initial;
    var curX: nat, curY: nat := x, y;
    var start := curY * bufW + curX;
    var next := start + bufW;
    var cur := start;
    var i := 0;
    while i < n
      invariant 0 <= i <= n && i <= consumed
      invariant p < bufW && i == (curY - y) * bufW + p
      invariant y <= curY <= maxY
      invariant curX == x + Min(p, maxX - x)
      invariant cur == curY * bufW + x + p && next == curY * bufW + x + bufW
      invariant Run(src, i) == Some(Trace(d[..i], st))
      invariant buffer[..] == OpaqueBlit(was, d, bufW, x, y, maxX, maxY, i)
    {
      OpaqueStep(was, d, bufW, bufH, x, y, maxX, maxY, n, i, curY, p);
      var b;
      st, b := NextByte(src, consumed, i, st);
      if curX < maxX {
        buffer[cur] := b;
        cur := cur + 1;
        curX := curX + 1;
        p := p + 1;
      } else if cur + 1 < next {
        cur := cur + 1;
        p := p + 1;
      } else {
        ghost var row := curY;
        curX := x;
        curY := curY + 1;
        OpaqueNextRow(bufW, y, i, p, row, curY);
        if curY > maxY {
          OpaqueStop(was, d, bufW, x, y, maxX, maxY, n, i, curY);
          break;
        }
        start := curY * bufW + curX;
        next := start + bufW;
        cur := start;
        p := 0;
      }
      i := i + 1;
    }
  }

  // ------------------------------------------------------------- dispatcher

  /** What BlitPcxToBuffer needs and does not check: the payload holds every
      byte the chosen loop decodes, the offset lies inside the destination
      when clipping, and the clipped transparent loop has rows for all its
      bytes. */
  predicate CanBlit(payload: seq<byte>, width: uint16, height: uint16, bufW: uint16, bufH: uint16,
                    x: uint16, y: uint16, transparent: bool)
  {
    if ExactFit(width, height, bufW, bufH, x, y) then Run(payload, bufW * bufH).Some?
    else
      && x < bufW && y < bufH
      && var g := ClipSetup(width, height, bufW, bufH, x, y);
         if transparent then g.imageSize <= (bufH - y) * (g.maxX - x + 1) && Run(payload, g.imageSize).Some?
         else Run(payload, OpaqueReads(g.imageSize, bufW, y, g.maxY)).Some?
  }

  /** BlitPcxToBuffer: always reports success; the exact fit fills the first
      bufW * bufH cells with the decoded image and leaves the flags alone, the
      clipped branch ORs its clipping bits into the flags and places bytes as
      its loop does. */
  method BlitPcxToBuffer(pcx: PcxObject, buffer: array<byte>, bufW: uint16, bufH: uint16,
                         x: uint16, y: uint16, transparent: bool) returns (ok: bool)
    requires bufW * bufH <= buffer.Length
    requires CanBlit(pcx.payload, pcx.width, pcx.height, bufW, bufH, x, y, transparent)
    modifies pcx, buffer
    ensures ok
    ensures ExactFit(pcx.width, pcx.height, bufW, bufH, x, y) ==>
              && pcx.flags == old(pcx.flags)
              && (!transparent ==> buffer[..bufW * bufH] == Decode(pcx.payload, bufW * bufH))
              && forall k :: 0 <= k < buffer.Length ==>
                   buffer[k] == Cell(old(buffer[k]), Decode(pcx.payload, bufW * bufH), Upto(Some(k), bufW * bufH), transparent)
    ensures !ExactFit(pcx.width, pcx.height, bufW, bufH, x, y) ==>
              var g := ClipSetup(pcx.width, pcx.height, bufW, bufH, x, y);
              && pcx.flags == old(pcx.flags) | g.flagBits
              && (transparent ==> buffer[..] == TransparentBlit(old(buffer[..]), Decode(pcx.payload, g.imageSize),
                                                                bufW, x, y, g.maxX, g.imageSize))
              && (!transparent ==> buffer[..] == OpaqueBlit(old(buffer[..]),
                                                            Decode(pcx.payload, OpaqueReads(g.imageSize, bufW, y, g.maxY)),
                                                            bufW, x, y, g.maxX, g.maxY, g.imageSize))
  {
    if pcx.width + x == bufW && pcx.height + y == bufH {
      var imageSize := bufW * bufH;
      if transparent {
        BlitExactTransparent(pcx.payload, buffer, imageSize);
      } else {
        BlitExactOpaque(pcx.payload, buffer, imageSize);
        forall k | 0 <= k < buffer.Length
          ensures buffer[k] == Cell(old(buffer[k]), Decode(pcx.payload, imageSize), Upto(Some(k), imageSize), false)
        {
          if k < imageSize {
            assert buffer[k] == buffer[..imageSize][k];
          } else {
            assert buffer[k] == buffer[imageSize..][k - imageSize];
          }
        }
      }
    } else {
      var g := ClipSetup(pcx.width, pcx.height, bufW, bufH, x, y);
      pcx.flags := pcx.flags | g.flagBits;
      if transparent {
        BlitClippedTransparent(pcx.payload, buffer, bufW, bufH, x, y, g.maxX, g.imageSize);
      } else {
        BlitClippedOpaque(pcx.payload, buffer, bufW, bufH, x, y, g.maxX, g.maxY, g.imageSize);
      }
    }
    ok := true;
  }
}
