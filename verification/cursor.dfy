/** The Cursor pseudo-encoding renderer (section 7.8.1 of RFC 6143): the
    cursor image as Raw pixels, then a bitmask that blanks the pixels it
    does not show. */
module Cursors {
  import opened Bytes
  import opened Outcomes
  import opened Failures
  import opened Streams
  import opened Messages
  import opened ImageBuffers
  import opened Renderers

  /** The bytes of one bitmask row: `(width + 7) / 8`, each row padded to a
      whole byte. */
  function MaskRowBytes(w: nat): nat
  {
    (w + 7) / 8
  }

  /** Bytes of the mask of a w x h cursor: whole bytes per row. */
  function MaskLength(w: nat, h: nat): nat
  {
    MaskRowBytes(w) * h
  }

  /** A row of w > 0 bits fills its last byte partly or wholly: the bytes
      before it hold fewer than w bits, all of them hold at least w. */
  lemma MaskRowBytesBounds(w: nat)
    requires w > 0
    ensures MaskRowBytes(w) >= 1 && 8 * (MaskRowBytes(w) - 1) < w <= 8 * MaskRowBytes(w)
  {
    DivModUnique(w + 7, 8, (w + 7) / 8, (w + 7) % 8);
  }

  /** The byte holding the bit of the pixel (px, py) lies inside a mask of
      h rows. */
  lemma MaskIndexInRange(w: nat, h: nat, px: nat, py: nat)
    requires px < w && py < h
    ensures py * MaskRowBytes(w) + px / 8 < MaskRowBytes(w) * h
  {
    MaskRowBytesBounds(w);
    MulMonotone(py + 1, h, MaskRowBytes(w));
  }

  /** Whether the cursor shows its pixel (px, py): bit 7 - px % 8 of byte
      px / 8 of mask row py, so the leftmost pixel of a byte is its most
      significant bit. */
  function MaskVisible(mask: seq<byte>, w: nat, h: nat, px: nat, py: nat): bool
    requires px < w && py < h && |mask| == MaskRowBytes(w) * h
  {
    MaskIndexInRange(w, h, px, py);
    BitAt(mask[py * MaskRowBytes(w) + px / 8], 7 - px % 8)
  }

  /** The pixel the bitmask leaves at (px, py) of the Raw-rendered image
      raw: blanked to 0 where the mask hides it, unchanged elsewhere. */
  function MaskedPixel(raw: ImageBuffer, mask: seq<byte>, w: nat, h: nat, px: nat, py: nat): int
    requires raw.Valid() && raw.Contains(px, py) && |mask| == MaskRowBytes(w) * h
  {
    if px < w && py < h && !MaskVisible(mask, w, h, px, py) then 0 else raw.At(px, py)
  }

  /** out is raw with the whole bitmask applied. */
  ghost predicate Masked(raw: ImageBuffer, out: ImageBuffer, mask: seq<byte>, w: nat, h: nat)
  {
    && SameShape(raw, out)
    && |mask| == MaskRowBytes(w) * h
    && forall px, py {:trigger out.At(px, py)} :: raw.Contains(px, py) ==>
         out.At(px, py) == MaskedPixel(raw, mask, w, h, px, py)
  }

  /** The mask loop's invariant: every pixel before (sx, sy) in raster order
      has had its bit applied, every other pixel is as Raw left it. */
  ghost predicate MaskSoFar(raw: ImageBuffer, cur: ImageBuffer, mask: seq<byte>, w: nat, h: nat, sx: nat, sy: nat)
  {
    && SameShape(raw, cur)
    && |mask| == MaskRowBytes(w) * h
    && forall px, py {:trigger cur.At(px, py)} :: raw.Contains(px, py) ==>
         cur.At(px, py) == if py < sy || (py == sy && px < sx) then MaskedPixel(raw, mask, w, h, px, py) else raw.At(px, py)
  }

  /** Where the mask loop stands: the buffer so far and the next pixel's
      column and row. */
  datatype MaskState = MaskState(buffer: ImageBuffer, x: nat, y: nat)

  /** The inner loop over the bits of one mask byte, from bit i down to bit
      0: a clear bit blanks the pixel at (x, y), and reaching column w moves
      to the start of the next row and abandons the byte's remaining bits. */
  function MaskByte(cur: ImageBuffer, b: byte, i: int, x: nat, y: nat, w: nat): (r: Res<MaskState>)
    requires cur.Valid() && -1 <= i <= 7
    ensures r.Ok? ==> SameShape(cur, r.value.buffer)
    decreases i + 1
  {
    if i < 0 then Ok(MaskState(cur, x, y))
    else
      var next :- if BitAt(b, i) then Ok(cur) else Set(cur, x, y, 0);
      if x + 1 == w then Ok(MaskState(next, 0, y + 1))
      else MaskByte(next, b, i - 1, x + 1, y, w)
  }

  /** The outer loop over the mask bytes from byte j on, carrying the
      position from byte to byte. */
  function MaskBytes(cur: ImageBuffer, mask: seq<byte>, j: nat, x: nat, y: nat, w: nat): (r: Res<ImageBuffer>)
    requires cur.Valid() && j <= |mask|
    ensures r.Ok? ==> SameShape(cur, r.value)
    decreases |mask| - j
  {
    if j == |mask| then Ok(cur)
    else
      var s :- MaskByte(cur, mask[j], 7, x, y, w);
      MaskBytes(s.buffer, mask, j + 1, s.x, s.y, w)
  }

  /** Applying the bit of the pixel (x, y) and stepping right keeps the
      invariant, and so does wrapping to the next row at the cursor's right
      edge. */
  lemma MaskAdvance(raw: ImageBuffer, cur: ImageBuffer, next: ImageBuffer, mask: seq<byte>, w: nat, h: nat, x: nat, y: nat)
    requires MaskSoFar(raw, cur, mask, w, h, x, y) && SameShape(cur, next)
    requires raw.Contains(x, y) && x < w && y < h
    requires next.At(x, y) == MaskedPixel(raw, mask, w, h, x, y)
    requires forall px, py :: cur.Contains(px, py) && (px != x || py != y) ==> next.At(px, py) == cur.At(px, py)
    ensures MaskSoFar(raw, next, mask, w, h, x + 1, y)
    ensures x + 1 == w ==> MaskSoFar(raw, next, mask, w, h, 0, y + 1)
  {
    assert forall px, py {:trigger next.At(px, py)} :: raw.Contains(px, py) && (px != x || py != y) ==>
      next.At(px, py) == cur.At(px, py);
  }

  /** Bit i of byte c of row y applied to the pixel (8c + 7 - i, y): `set`
      succeeds where the bit is clear, and the invariant moves one pixel
      on. */
  lemma MaskBit(raw: ImageBuffer, cur: ImageBuffer, mask: seq<byte>, w: nat, h: nat,
                i: nat, j: nat, c: nat, x: nat, y: nat)
    requires MaskSoFar(raw, cur, mask, w, h, x, y)
    requires w <= raw.width && h <= raw.height && x < w && y < h
    requires i <= 7 && x == 8 * c + 7 - i && j == y * MaskRowBytes(w) + c && j < |mask|
    ensures var next := if BitAt(mask[j], i) then Ok(cur) else Set(cur, x, y, 0);
            && next.Ok?
            && MaskSoFar(raw, next.value, mask, w, h, x + 1, y)
            && (x + 1 == w ==> MaskSoFar(raw, next.value, mask, w, h, 0, y + 1))
  {
    DivModUnique(x, 8, c, 7 - i);
    assert MaskVisible(mask, w, h, x, y) == BitAt(mask[j], i);
    var next := if BitAt(mask[j], i) then Ok(cur) else Set(cur, x, y, 0);
    ModSmall(x, cur.width);
    MaskAdvance(raw, cur, next.value, mask, w, h, x, y);
  }

  /** Byte j applied from bit i with the pixel (x, y) next: it succeeds,
      ends at the next pixel after the byte or at the start of the next
      row, and keeps the mask loop's invariant. */
  ghost predicate ByteApplied(raw: ImageBuffer, cur: ImageBuffer, mask: seq<byte>, w: nat, h: nat,
                              i: int, j: nat, x: nat, y: nat)
    requires cur.Valid() && -1 <= i <= 7 && j < |mask|
  {
    var r := MaskByte(cur, mask[j], i, x, y, w);
    && r.Ok?
    && (if x + i + 1 >= w then r.value.x == 0 && r.value.y == y + 1 else r.value.x == x + i + 1 && r.value.y == y)
    && MaskSoFar(raw, r.value.buffer, mask, w, h, r.value.x, r.value.y)
  }

  /** Where the byte loop may stand: the invariant holds up to the pixel
      (x, y) = (8c + 7 - i, y) of row y, inside the cursor, and byte j is
      byte c of that row. */
  ghost predicate ByteEntry(raw: ImageBuffer, cur: ImageBuffer, mask: seq<byte>, w: nat, h: nat,
                            i: int, j: nat, c: nat, x: nat, y: nat)
  {
    && MaskSoFar(raw, cur, mask, w, h, x, y)
    && w <= raw.width && h <= raw.height && x < w && y < h
    && -1 <= i <= 7 && x == 8 * c + 7 - i && c < MaskRowBytes(w)
    && j == y * MaskRowBytes(w) + c && j < |mask|
  }

  /** One mask byte, entered at bit i with the pixel (x, y) = (8c + 7 - i, y)
      next: it applies its bits up to the end of the byte or of the row. */
  lemma {:induction false} MaskByteCorrect(raw: ImageBuffer, cur: ImageBuffer, mask: seq<byte>, w: nat, h: nat,
                                           i: int, j: nat, c: nat, x: nat, y: nat)
    requires ByteEntry(raw, cur, mask, w, h, i, j, c, x, y)
    ensures cur.Valid() && ByteApplied(raw, cur, mask, w, h, i, j, x, y)
    decreases i + 1
  {
    if i >= 0 {
      MaskBit(raw, cur, mask, w, h, i, j, c, x, y);
      var next := (if BitAt(mask[j], i) then Ok(cur) else Set(cur, x, y, 0)).value;
      if x + 1 != w {
        MaskByteCorrect(raw, next, mask, w, h, i - 1, j, c, x + 1, y);
      }
      MaskByteStep(raw, cur, next, mask, w, h, i, j, x, y);
    }
  }

  /** The step of the byte loop: bit i applied to (x, y), then the rest of
      the byte from the next pixel, unless the row ended there. */
  lemma MaskByteStep(raw: ImageBuffer, cur: ImageBuffer, next: ImageBuffer, mask: seq<byte>, w: nat, h: nat,
                     i: int, j: nat, x: nat, y: nat)
    requires cur.Valid() && 0 <= i <= 7 && j < |mask|
    requires (if BitAt(mask[j], i) then Ok(cur) else Set(cur, x, y, 0)) == Ok(next)
    requires next.Valid()
    requires x + 1 == w ==> MaskSoFar(raw, next, mask, w, h, 0, y + 1)
    requires x + 1 != w ==> ByteApplied(raw, next, mask, w, h, i - 1, j, x + 1, y)
    ensures ByteApplied(raw, cur, mask, w, h, i, j, x, y)
  {
  }

  /** The byte column and the row the mask loop moves to after byte c of
      row y: the next byte of the row, or the first byte of the next row
      when byte c reached the row's last pixel. */
  function NextByteColumn(w: nat, c: nat): nat
  {
    if 8 * c + 8 >= w then 0 else c + 1
  }

  function NextByteRow(w: nat, c: nat, y: nat): nat
  {
    if 8 * c + 8 >= w then y + 1 else y
  }

  /** Where byte j = y * bpr + c of the mask sits: while bytes remain, on
      row y < h with its first pixel inside the row; the byte after it is
      byte NextByteColumn of row NextByteRow. */
  lemma MaskBytePosition(w: nat, h: nat, j: nat, c: nat, y: nat)
    requires w > 0 && c < MaskRowBytes(w) && j == y * MaskRowBytes(w) + c
    ensures j < MaskRowBytes(w) * h <==> y < h
    ensures 8 * c < w
    ensures NextByteColumn(w, c) < MaskRowBytes(w)
    ensures j + 1 == NextByteRow(w, c, y) * MaskRowBytes(w) + NextByteColumn(w, c)
  {
    var bpr := MaskRowBytes(w);
    MaskRowBytesBounds(w);
    if y < h {
      MulMonotone(y + 1, h, bpr);
    } else {
      MulMonotone(h, y, bpr);
    }
  }

  /** Once the position has passed the last row every pixel has had its bit
      applied. */
  lemma MaskEnd(raw: ImageBuffer, cur: ImageBuffer, mask: seq<byte>, w: nat, h: nat, x: nat, y: nat)
    requires MaskSoFar(raw, cur, mask, w, h, x, y) && y >= h
    ensures Masked(raw, cur, mask, w, h)
  {
    forall px, py | raw.Contains(px, py)
      ensures cur.At(px, py) == MaskedPixel(raw, mask, w, h, px, py)
    {
      assert py < y || py >= h;
    }
  }

  /** A whole mask byte, entered at the first pixel of byte c of row y:
      it succeeds, applies its bits and leaves the position at the next
      byte's first pixel. */
  lemma MaskWholeByte(raw: ImageBuffer, cur: ImageBuffer, mask: seq<byte>, w: nat, h: nat, j: nat, c: nat, y: nat)
    requires MaskSoFar(raw, cur, mask, w, h, 8 * c, y)
    requires w <= raw.width && h <= raw.height && 8 * c < w && y < h && c < MaskRowBytes(w)
    requires j == y * MaskRowBytes(w) + c && j < |mask|
    ensures var r := MaskByte(cur, mask[j], 7, 8 * c, y, w);
            && r.Ok?
            && r.value.x == 8 * NextByteColumn(w, c) && r.value.y == NextByteRow(w, c, y)
            && MaskSoFar(raw, r.value.buffer, mask, w, h, r.value.x, r.value.y)
  {
    MaskByteCorrect(raw, cur, mask, w, h, 7, j, c, 8 * c, y);
  }

  /** A mask of h rows applied from the start of byte c of row y (byte
      number j) on completes the whole mask. */
  lemma {:induction false} MaskBytesCorrect(raw: ImageBuffer, cur: ImageBuffer, mask: seq<byte>, w: nat, h: nat,
                                            j: nat, c: nat, y: nat)
    requires MaskSoFar(raw, cur, mask, w, h, 8 * c, y)
    requires 0 < w <= raw.width && h <= raw.height && y <= h
    requires j == y * MaskRowBytes(w) + c && c < MaskRowBytes(w) && j <= |mask|
    ensures MaskBytes(cur, mask, j, 8 * c, y, w).Ok? && Masked(raw, MaskBytes(cur, mask, j, 8 * c, y, w).value, mask, w, h)
    decreases |mask| - j
  {
    MaskBytePosition(w, h, j, c, y);
    if j == |mask| {
      MaskEnd(raw, cur, mask, w, h, 8 * c, y);
    } else {
      MaskWholeByte(raw, cur, mask, w, h, j, c, y);
      var s := MaskByte(cur, mask[j], 7, 8 * c, y, w).value;
      MaskBytesCorrect(raw, s.buffer, mask, w, h, j + 1, NextByteColumn(w, c), NextByteRow(w, c, y));
    }
  }

  /** Before the first mask byte nothing has been blanked. */
  lemma MaskStart(raw: ImageBuffer, mask: seq<byte>, w: nat, h: nat)
    requires raw.Valid() && |mask| == MaskRowBytes(w) * h
    ensures MaskSoFar(raw, raw, mask, w, h, 0, 0)
  {
  }

  /** out shows the cursor image: inside the w x h block at the origin, the
      Raw pixel where the mask shows it and 0 where it hides it; the rest of
      the buffer as it was. */
  ghost predicate CursorDrawn(dest: ImageBuffer, out: ImageBuffer, w: nat, h: nat, pixels: seq<int>, mask: seq<byte>)
  {
    && SameShape(dest, out)
    && |pixels| == w * h
    && |mask| == MaskRowBytes(w) * h
    && forall px, py {:trigger out.At(px, py)} :: dest.Contains(px, py) ==>
         if InRect(px, py, 0, 0, w, h) then
           0 <= RasterIndex(w, px, py) < |pixels|
           && out.At(px, py) == if MaskVisible(mask, w, h, px, py) then pixels[RasterIndex(w, px, py)] else 0
         else
           out.At(px, py) == dest.At(px, py)
  }

  /** The Raw image with the mask applied is the cursor image. */
  lemma CursorCombine(dest: ImageBuffer, raw: ImageBuffer, out: ImageBuffer, w: nat, h: nat,
                      pixels: seq<int>, mask: seq<byte>)
    requires Placed(dest, raw, 0, 0, w, h, pixels) && Masked(raw, out, mask, w, h)
    ensures CursorDrawn(dest, out, w, h, pixels, mask)
  {
    forall px, py | dest.Contains(px, py)
      ensures if InRect(px, py, 0, 0, w, h) then
                0 <= RasterIndex(w, px, py) < |pixels|
                && out.At(px, py) == if MaskVisible(mask, w, h, px, py) then pixels[RasterIndex(w, px, py)] else 0
              else
                out.At(px, py) == dest.At(px, py)
    {
      var v := raw.At(px, py);
      assert out.At(px, py) == MaskedPixel(raw, mask, w, h, px, py);
    }
  }

  /** `CursorRenderer.render`: the cursor image as Raw pixels at the
      origin of the destination, then `((width + 7) / 8) * height` mask
      bytes read in full, then the mask loop over them. */
  function RenderCursor(decode: PixelDecoder, input: seq<byte>, dest: ImageBuffer, rect: Rectangle)
    : (r: Res<Parsed<ImageBuffer>>)
    requires dest.Valid() && rect.Valid()
    ensures r.Ok? ==> SameShape(dest, r.value.value)
  {
    var w := rect.width;
    var h := rect.height;
    var raw :- RenderRaw(decode, input, dest, 0, 0, w, h);
    var m :- ReadFully(raw.rest, MaskLength(w, h));
    var out :- MaskBytes(raw.value, m.value, 0, 0, 0, w);
    Ok(Parsed(out, m.rest))
  }

  /** An empty cursor reads nothing and draws nothing. */
  lemma CursorEmpty(decode: PixelDecoder, input: seq<byte>, dest: ImageBuffer, rect: Rectangle)
    requires dest.Valid() && rect.Valid() && (rect.width == 0 || rect.height == 0)
    ensures RenderCursor(decode, input, dest, rect) == Ok(Parsed(dest, input))
    ensures CursorDrawn(dest, dest, rect.width, rect.height, [], [])
  {
    var w := rect.width;
    var h := rect.height;
    assert w * h == 0 && MaskRowBytes(w) * h == 0;
    forall px, py | dest.Contains(px, py)
      ensures !InRect(px, py, 0, 0, w, h)
    {
    }
  }

  /** A non-empty cursor inside the destination: the Raw pixels are placed
      and the stream is left after them, or decoding them fails. */
  lemma CursorRaw(decode: PixelDecoder, input: seq<byte>, dest: ImageBuffer, rect: Rectangle)
    requires dest.Valid() && rect.Valid() && rect.width > 0 && rect.height > 0
    requires rect.width <= dest.width && rect.height <= dest.height
    ensures var raw := RenderRaw(decode, input, dest, 0, 0, rect.width, rect.height);
      match ReadMany(decode, input, rect.width * rect.height)
      case Err(e) => raw == Err(e)
      case Ok(p) => raw.Ok? && raw.value.rest == p.rest
                    && Placed(dest, raw.value.value, 0, 0, rect.width, rect.height, p.value)
  {
    BlockSmall(dest, 0, 0, rect.width, rect.height);
  }

  /** After the Raw pixels, the mask is read in full and applied, or the
      stream ends first. */
  lemma CursorMask(decode: PixelDecoder, input: seq<byte>, dest: ImageBuffer, rect: Rectangle,
                   raw: Parsed<ImageBuffer>, pixels: seq<int>)
    requires dest.Valid() && rect.Valid() && rect.width > 0 && rect.height > 0
    requires rect.width <= dest.width && rect.height <= dest.height
    requires RenderRaw(decode, input, dest, 0, 0, rect.width, rect.height) == Ok(raw)
    requires Placed(dest, raw.value, 0, 0, rect.width, rect.height, pixels)
    ensures var r := RenderCursor(decode, input, dest, rect);
      var maskLength := MaskRowBytes(rect.width) * rect.height;
      if |raw.rest| < maskLength then r == Err(EndOfStream)
      else r.Ok? && r.value.rest == raw.rest[maskLength..]
           && CursorDrawn(dest, r.value.value, rect.width, rect.height, pixels, raw.rest[..maskLength])
  {
    var w := rect.width;
    var h := rect.height;
    var maskLength := MaskRowBytes(w) * h;
    if |raw.rest| >= maskLength {
      var mask := raw.rest[..maskLength];
      MaskStart(raw.value, mask, w, h);
      MaskBytesCorrect(raw.value, raw.value, mask, w, h, 0, 0, 0);
      CursorCombine(dest, raw.value, MaskBytes(raw.value, mask, 0, 0, 0, w).value, w, h, pixels, mask);
    }
  }

  /** A cursor that fits the destination is drawn from its Raw pixels and
      its mask, and the stream is left after the mask; a stream that ends
      early fails as the read that runs out of bytes does. */
  lemma RenderCursorDraws(decode: PixelDecoder, input: seq<byte>, dest: ImageBuffer, rect: Rectangle)
    requires dest.Valid() && rect.Valid() && ContainsRect(dest, 0, 0, rect.width, rect.height)
    ensures var r := RenderCursor(decode, input, dest, rect);
      var maskLength := MaskRowBytes(rect.width) * rect.height;
      match ReadMany(decode, input, rect.width * rect.height)
      case Err(e) => r == Err(e)
      case Ok(p) =>
        if |p.rest| < maskLength then r == Err(EndOfStream)
        else r.Ok? && r.value.rest == p.rest[maskLength..]
             && CursorDrawn(dest, r.value.value, rect.width, rect.height, p.value, p.rest[..maskLength])
  {
    if rect.width == 0 || rect.height == 0 {
      CursorEmpty(decode, input, dest, rect);
    } else {
      CursorRaw(decode, input, dest, rect);
      if ReadMany(decode, input, rect.width * rect.height).Ok? {
        var p := ReadMany(decode, input, rect.width * rect.height).value;
        CursorMask(decode, input, dest, rect, RenderRaw(decode, input, dest, 0, 0, rect.width, rect.height).value, p.value);
      }
    }
  }
}
