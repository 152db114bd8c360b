/** The rectangle renderers: Raw (section 7.7.1 of RFC 6143), CopyRect
    (section 7.7.2), RRE (section 7.7.3) and the Cursor pseudo-encoding
    (section 7.8.1). Each reads its payload from the front of the stream and
    draws into a buffer. */
module Renderers {
  import opened Bytes
  import opened Outcomes
  import opened Failures
  import opened Streams
  import opened Messages
  import opened ImageBuffers
  import opened BlockCopy

  /** The pixel decoder: reads one pixel in the session's pixel format from
      the front of the stream and yields its colour as an `int`. How it maps
      bytes to colours is not part of this model. */
  type PixelDecoder = Reader<int>

  /** The number of iterations of the Raw loop: `width * height` in `int`
      arithmetic, where a product of 2^31 or more is negative and runs the
      loop zero times. */
  function RawCount(w: nat, h: nat): (n: nat)
    requires w <= MAX_DIMENSION && h <= MAX_DIMENSION
    ensures n == if w * h < TWO_31 then w * h else 0
  {
    ProductBound(w, h);
    Int32OfUnsigned(w * h);
    if Int32(w * h) < 0 then 0 else Int32(w * h)
  }

  /** A block inside a valid buffer has fewer than 2^31 pixels. */
  lemma BlockSmall(b: ImageBuffer, x: nat, y: nat, w: nat, h: nat)
    requires b.Valid() && x + w <= b.width && y + h <= b.height
    ensures w * h < TWO_31 && w * h <= b.width * b.height
  {
    MulMonotone(w, b.width, h);
    MulMonotone(h, b.height, b.width);
  }

  /** Raster order inside a w-wide block: the position (c, r) of the block,
      column c and row r, holds pixel number r * w + c. */
  function RasterIndex(w: nat, c: int, r: int): int
  {
    r * w + c
  }

  /** Wrapping from the last column of row r to column 0 of row r + 1 moves
      one pixel on. */
  lemma RasterWrap(w: nat, r: int)
    requires w > 0
    ensures RasterIndex(w, 0, r + 1) == RasterIndex(w, w - 1, r) + 1
  {
  }

  /** A raster position whose pixel number is below w * h lies in one of
      the first h rows. */
  lemma RasterRowBelow(w: nat, h: nat, c: nat, r: nat)
    requires RasterIndex(w, c, r) < w * h
    ensures r < h
  {
    if r >= h {
      MulMonotone(h, r, w);
    }
  }

  /** The position after the last pixel of a w x h block is column 0 of
      row h. */
  lemma RasterEnd(w: nat, h: nat, c: nat, r: nat)
    requires c < w && RasterIndex(w, c, r) == w * h
    ensures c == 0 && r == h
  {
    DivModUnique(w * h, w, h, 0);
    DivModUnique(w * h, w, r, c);
  }

  /** out is dest with the decoded pixels placed row by row in the w x h
      block at (x, y): the pixel at (px, py) in the block is pixel number
      (py - y) * w + (px - x), and every pixel outside the block is as it
      was. */
  ghost predicate Placed(dest: ImageBuffer, out: ImageBuffer, x: nat, y: nat, w: nat, h: nat, pixels: seq<int>)
  {
    && SameShape(dest, out)
    && |pixels| == w * h
    && forall px, py {:trigger out.At(px, py)} :: dest.Contains(px, py) ==>
         if InRect(px, py, x, y, w, h) then
           0 <= RasterIndex(w, px - x, py - y) < |pixels| && out.At(px, py) == pixels[RasterIndex(w, px - x, py - y)]
         else
           out.At(px, py) == dest.At(px, py)
  }

  /** The Raw loop's invariant: every block position before (sx, sy) in
      raster order holds its decoded pixel, and every other pixel of the
      buffer is as it was. */
  ghost predicate RasterSoFar(dest: ImageBuffer, cur: ImageBuffer, x: nat, y: nat, w: nat, h: nat,
                              pixels: seq<int>, sx: int, sy: int)
  {
    && SameShape(dest, cur)
    && forall px, py {:trigger cur.At(px, py)} :: dest.Contains(px, py) ==>
         if InRect(px, py, x, y, w, h) && (py < sy || (py == sy && px < sx)) then
           0 <= RasterIndex(w, px - x, py - y) < |pixels| && cur.At(px, py) == pixels[RasterIndex(w, px - x, py - y)]
         else
           cur.At(px, py) == dest.At(px, py)
  }

  /** Before the first pixel nothing is painted. */
  lemma RasterStart(dest: ImageBuffer, x: nat, y: nat, w: nat, h: nat)
    requires dest.Valid()
    ensures RasterSoFar(dest, dest, x, y, w, h, [], x, y)
  {
    forall px, py | dest.Contains(px, py)
      ensures !(InRect(px, py, x, y, w, h) && (py < y || (py == y && px < x)))
    {
    }
  }

  /** Painting pixel number |pixels| at its raster position (sx, sy) and
      stepping to the next raster position (nx, ny) keeps the invariant. */
  lemma RasterStep(dest: ImageBuffer, cur: ImageBuffer, next: ImageBuffer, x: nat, y: nat, w: nat, h: nat,
                   pixels: seq<int>, v: int, sx: nat, sy: nat, nx: nat, ny: nat)
    requires x <= sx < x + w && y <= sy < y + h
    requires |pixels| == RasterIndex(w, sx - x, sy - y)
    requires RasterSoFar(dest, cur, x, y, w, h, pixels, sx, sy)
    requires Updated(cur, next, sx, sy, v)
    requires sx + 1 == x + w ==> nx == x && ny == sy + 1
    requires sx + 1 != x + w ==> nx == sx + 1 && ny == sy
    ensures RasterSoFar(dest, next, x, y, w, h, pixels + [v], nx, ny)
  {
    var ps := pixels + [v];
    forall px, py | dest.Contains(px, py)
      ensures if InRect(px, py, x, y, w, h) && (py < ny || (py == ny && px < nx)) then
                0 <= RasterIndex(w, px - x, py - y) < |ps| && next.At(px, py) == ps[RasterIndex(w, px - x, py - y)]
              else
                next.At(px, py) == dest.At(px, py)
    {
      if px != sx || py != sy {
        assert next.At(px, py) == cur.At(px, py);
      }
    }
  }

  /** The column after sx in raster order within the block of width w at
      column x, and the row it is on. */
  function NextColumn(x: nat, w: nat, sx: nat): nat
  {
    if sx + 1 == x + w then x else sx + 1
  }

  function NextRow(x: nat, w: nat, sx: nat, sy: nat): nat
  {
    if sx + 1 == x + w then sy + 1 else sy
  }

  /** One pass of the Raw loop: the raster position of pixel number
      |pixels| advances to that of the next pixel, and inside the buffer
      `set` succeeds and keeps the loop's invariant. */
  lemma RasterAdvance(dest: ImageBuffer, cur: ImageBuffer, x: nat, y: nat, w: nat, h: nat,
                      pixels: seq<int>, v: int, sx: nat, sy: nat)
    requires SameShape(dest, cur) && x <= sx < x + w && y <= sy
    requires |pixels| == RasterIndex(w, sx - x, sy - y)
    ensures |pixels| + 1 == RasterIndex(w, NextColumn(x, w, sx) - x, NextRow(x, w, sx, sy) - y)
    ensures x + w <= dest.width && y + h <= dest.height && |pixels| < w * h
            && RasterSoFar(dest, cur, x, y, w, h, pixels, sx, sy) ==>
              Set(cur, sx, sy, v).Ok?
              && RasterSoFar(dest, Set(cur, sx, sy, v).value, x, y, w, h, pixels + [v],
                             NextColumn(x, w, sx), NextRow(x, w, sx, sy))
  {
    if sx + 1 == x + w {
      RasterWrap(w, sy - y);
    }
    if x + w <= dest.width && y + h <= dest.height && |pixels| < w * h
       && RasterSoFar(dest, cur, x, y, w, h, pixels, sx, sy) {
      RasterRowBelow(w, h, sx - x, sy - y);
      ModSmall(sx, cur.width);
      RasterStep(dest, cur, Set(cur, sx, sy, v).value, x, y, w, h, pixels, v, sx, sy,
                 NextColumn(x, w, sx), NextRow(x, w, sx, sy));
    }
  }

  /** When all w * h pixels are in place the raster position is column x of
      the row after the block, so the whole block is painted. */
  lemma RasterDone(dest: ImageBuffer, cur: ImageBuffer, x: nat, y: nat, w: nat, h: nat, pixels: seq<int>)
    requires |pixels| == w * h
    requires RasterSoFar(dest, cur, x, y, w, h, pixels, x, y + h)
    ensures Placed(dest, cur, x, y, w, h, pixels)
  {
    forall px, py | dest.Contains(px, py)
      ensures if InRect(px, py, x, y, w, h) then
                0 <= RasterIndex(w, px - x, py - y) < |pixels| && cur.At(px, py) == pixels[RasterIndex(w, px - x, py - y)]
              else
                cur.At(px, py) == dest.At(px, py)
    {
      RasterDoneAt(dest, cur, x, y, w, h, pixels, px, py);
    }
  }

  /** RasterDone at one pixel: a block pixel lies above row y + h, so it is
      one of those already painted. */
  lemma RasterDoneAt(dest: ImageBuffer, cur: ImageBuffer, x: nat, y: nat, w: nat, h: nat, pixels: seq<int>, px: int, py: int)
    requires |pixels| == w * h
    requires RasterSoFar(dest, cur, x, y, w, h, pixels, x, y + h) && dest.Contains(px, py)
    ensures if InRect(px, py, x, y, w, h) then
              0 <= RasterIndex(w, px - x, py - y) < |pixels| && cur.At(px, py) == pixels[RasterIndex(w, px - x, py - y)]
            else
              cur.At(px, py) == dest.At(px, py)
  {
    if InRect(px, py, x, y, w, h) {
      assert py < y + h;
      assert 0 <= RasterIndex(w, px - x, py - y) < |pixels| && cur.At(px, py) == pixels[RasterIndex(w, px - x, py - y)];
    } else {
      assert cur.At(px, py) == dest.At(px, py);
    }
  }

  /** The Raw loop from the middle: k more pixels to decode, the next one
      going to (sx, sy) of the w-wide block at column x. Each pass decodes a
      pixel, sets it, and steps right, wrapping to column x of the next row
      at the block's right edge. */
  function RawLoop(decode: PixelDecoder, input: seq<byte>, b: ImageBuffer, x: nat, w: nat, sx: nat, sy: nat, k: nat)
    : (r: Res<Parsed<ImageBuffer>>)
    requires b.Valid()
    ensures r.Ok? ==> SameShape(b, r.value.value)
    decreases k
  {
    if k == 0 then Ok(Parsed(b, input))
    else
      var p :- decode(input);
      var next :- Set(b, sx, sy, p.value);
      RawLoop(decode, p.rest, next, x, w, NextColumn(x, w, sx), NextRow(x, w, sx, sy), k - 1)
  }

  /** A completed Raw loop has decoded exactly k pixels and left the stream
      after them. */
  lemma {:induction false} RawLoopReads(decode: PixelDecoder, input: seq<byte>, b: ImageBuffer,
                                        x: nat, w: nat, sx: nat, sy: nat, k: nat)
    requires b.Valid()
    ensures RawLoop(decode, input, b, x, w, sx, sy, k).Ok? ==>
              ReadMany(decode, input, k).Ok?
              && RawLoop(decode, input, b, x, w, sx, sy, k).value.rest == ReadMany(decode, input, k).value.rest
    decreases k
  {
    if k > 0 && decode(input).Ok? && Set(b, sx, sy, decode(input).value.value).Ok? {
      var p := decode(input).value;
      RawLoopReads(decode, p.rest, Set(b, sx, sy, p.value).value, x, w, NextColumn(x, w, sx), NextRow(x, w, sx, sy), k - 1);
    }
  }

  /** Inside the buffer, the rest of the Raw loop fails exactly when decoding
      the remaining pixels fails, and otherwise completes the block. */
  lemma {:induction false} RawLoopPlaced(decode: PixelDecoder, input: seq<byte>, dest: ImageBuffer, b: ImageBuffer,
                                         x: nat, y: nat, w: nat, h: nat, pixels: seq<int>, sx: nat, sy: nat, k: nat)
    requires x + w <= dest.width && y + h <= dest.height
    requires x <= sx < x + w && y <= sy
    requires |pixels| == RasterIndex(w, sx - x, sy - y) && |pixels| + k == w * h
    requires RasterSoFar(dest, b, x, y, w, h, pixels, sx, sy)
    ensures match ReadMany(decode, input, k)
            case Err(e) => RawLoop(decode, input, b, x, w, sx, sy, k) == Err(e)
            case Ok(q) => RawLoop(decode, input, b, x, w, sx, sy, k).Ok?
                          && Placed(dest, RawLoop(decode, input, b, x, w, sx, sy, k).value.value, x, y, w, h, pixels + q.value)
    decreases k
  {
    if k == 0 {
      RasterEnd(w, h, sx - x, sy - y);
      assert pixels + [] == pixels;
      RasterDone(dest, b, x, y, w, h, pixels);
    } else {
      match decode(input)
      case Err(_) =>
      case Ok(p) =>
        RasterAdvance(dest, b, x, y, w, h, pixels, p.value, sx, sy);
        var next := Set(b, sx, sy, p.value).value;
        RawLoopPlaced(decode, p.rest, dest, next, x, y, w, h, pixels + [p.value],
                      NextColumn(x, w, sx), NextRow(x, w, sx, sy), k - 1);
        match ReadMany(decode, p.rest, k - 1)
        case Err(_) =>
        case Ok(q) =>
          assert pixels + [p.value] + q.value == pixels + ([p.value] + q.value);
    }
  }

  /** Raw rendering of a block inside the buffer places the decoded pixels,
      or fails as decoding them fails; an empty block changes nothing. */
  lemma RawLoopPlacesBlock(decode: PixelDecoder, input: seq<byte>, dest: ImageBuffer, x: nat, y: nat, w: nat, h: nat)
    requires dest.Valid() && w <= MAX_DIMENSION && h <= MAX_DIMENSION
    ensures ContainsRect(dest, x, y, w, h) ==>
      match ReadMany(decode, input, w * h)
      case Err(e) => RawLoop(decode, input, dest, x, w, x, y, RawCount(w, h)) == Err(e)
      case Ok(p) => RawLoop(decode, input, dest, x, w, x, y, RawCount(w, h)).Ok?
                    && Placed(dest, RawLoop(decode, input, dest, x, w, x, y, RawCount(w, h)).value.value, x, y, w, h, p.value)
  {
    if w > 0 && h > 0 && x + w <= dest.width && y + h <= dest.height {
      BlockSmall(dest, x, y, w, h);
      RasterStart(dest, x, y, w, h);
      RawLoopPlaced(decode, input, dest, dest, x, y, w, h, [], x, y, w * h);
    } else if ContainsRect(dest, x, y, w, h) {
      assert w * h == 0;
      forall px, py | dest.Contains(px, py)
        ensures !InRect(px, py, x, y, w, h)
      {
      }
    }
  }

  /** `RawRenderer.render(in, destination, x, y, width, height)`: decodes
      `width * height` pixels and sets them in raster order from (x, y). */
  function RenderRaw(decode: PixelDecoder, input: seq<byte>, dest: ImageBuffer, x: nat, y: nat, w: nat, h: nat)
    : (r: Res<Parsed<ImageBuffer>>)
    requires dest.Valid() && w <= MAX_DIMENSION && h <= MAX_DIMENSION
    ensures r.Ok? ==> SameShape(dest, r.value.value)
    ensures r.Ok? ==> ReadMany(decode, input, RawCount(w, h)).Ok?
                      && r.value.rest == ReadMany(decode, input, RawCount(w, h)).value.rest
    ensures RawCount(w, h) == 0 ==> r == Ok(Parsed(dest, input))
    ensures ContainsRect(dest, x, y, w, h) ==>
      match ReadMany(decode, input, w * h)
      case Err(e) => r == Err(e)
      case Ok(p) => r.Ok? && Placed(dest, r.value.value, x, y, w, h, p.value)
  {
    RawLoopReads(decode, input, dest, x, w, x, y, RawCount(w, h));
    RawLoopPlacesBlock(decode, input, dest, x, y, w, h);
    RawLoop(decode, input, dest, x, w, x, y, RawCount(w, h))
  }

  /** `CopyRectRenderer.render`: reads the source position as two unsigned
      16-bit values and runs `duplicate` from there onto the rectangle, with
      the in-place loop of `BlockCopy.Duplicate`. */
  function RenderCopyRect(input: seq<byte>, dest: ImageBuffer, rect: Rectangle): (r: Res<Parsed<ImageBuffer>>)
    requires dest.Valid()
    ensures |input| < 4 ==> r == Err(EndOfStream)
    ensures r.Ok? ==> SameShape(dest, r.value.value) && r.value.rest == input[4..]
  {
    var sx :- ReadUnsignedShort(input);
    var sy :- ReadUnsignedShort(sx.rest);
    var out :- Duplicate(dest, sx.value, sy.value, rect.width, rect.height, rect.x, rect.y);
    Ok(Parsed(out, sy.rest))
  }

  /** The payload of a CopyRect rectangle: srcX then srcY, each as two
      big-endian bytes, followed by whatever comes next on the stream. */
  function CopyRectPayload(srcX: nat, srcY: nat, rest: seq<byte>): seq<byte>
  {
    FixedBigEndian(srcX, 2) + FixedBigEndian(srcY, 2) + rest
  }

  /** The payload reads back as the source position, with `rest` left over. */
  lemma CopyRectPayloadReads(srcX: nat, srcY: nat, rest: seq<byte>)
    requires srcX < TWO_16 && srcY < TWO_16
    ensures var sx := ReadUnsignedShort(CopyRectPayload(srcX, srcY, rest));
      && sx == Ok(Parsed(srcX, FixedBigEndian(srcY, 2) + rest))
      && ReadUnsignedShort(sx.value.rest) == Ok(Parsed(srcY, rest))
  {
    assert CopyRectPayload(srcX, srcY, rest) == FixedBigEndian(srcX, 2) + (FixedBigEndian(srcY, 2) + rest);
    ReadUnsignedShortOfWritten(srcX, FixedBigEndian(srcY, 2) + rest);
    ReadUnsignedShortOfWritten(srcY, rest);
  }

  /** A CopyRect payload naming a source block that lies inside the buffer
      and does not overlap the rectangle copies that block onto the
      rectangle, and consumes nothing after the payload. */
  lemma CopyRectCopiesBlock(srcX: nat, srcY: nat, rest: seq<byte>, dest: ImageBuffer, rect: Rectangle)
    requires dest.Valid() && srcX < TWO_16 && srcY < TWO_16
    requires BlocksInside(dest, srcX, srcY, rect.width, rect.height, rect.x, rect.y)
    requires Disjoint(srcX, srcY, rect.width, rect.height, rect.x, rect.y)
    ensures var r := RenderCopyRect(CopyRectPayload(srcX, srcY, rest), dest, rect);
            r.Ok? && r.value.rest == rest
            && IsBlockCopy(dest, r.value.value, srcX, srcY, rect.width, rect.height, rect.x, rect.y)
  {
    CopyRectPayloadReads(srcX, srcY, rest);
  }

  /** An overlapping CopyRect rectangle as the renderer draws it: in a row
      of three pixels whose first two differ, copying the two pixels at
      (0, 0) one pixel to the right leaves the old (0, 0) at (2, 0), which
      is not the block copy RFC 6143 describes. */
  lemma CopyRectOverlapDrawn(rest: seq<byte>, dest: ImageBuffer, rect: Rectangle)
    requires dest.Valid() && dest.width == 3 && dest.height == 1 && dest.At(0, 0) != dest.At(1, 0)
    requires rect.x == 1 && rect.y == 0 && rect.width == 2 && rect.height == 1
    ensures var r := RenderCopyRect(CopyRectPayload(0, 0, rest), dest, rect);
            && r.Ok? && r.value.rest == rest
            && r.value.value.At(2, 0) == dest.At(0, 0)
            && !IsBlockCopy(dest, r.value.value, 0, 0, 2, 1, 1, 0)
  {
    CopyRectPayloadReads(0, 0, rest);
    DuplicateOverlapCounterexample(dest);
  }

  /** The CopyRect renderer as RFC 6143 describes it, with the buffered copy
      `BlockCopy.DuplicateBuffered` in place of the in-place loop. */
  function RenderCopyRectBuffered(input: seq<byte>, dest: ImageBuffer, rect: Rectangle): (r: Res<Parsed<ImageBuffer>>)
    requires dest.Valid()
    ensures |input| < 4 ==> r == Err(EndOfStream)
    ensures r.Ok? ==> SameShape(dest, r.value.value) && r.value.rest == input[4..]
  {
    var sx :- ReadUnsignedShort(input);
    var sy :- ReadUnsignedShort(sx.rest);
    var out :- DuplicateBuffered(dest, sx.value, sy.value, rect.width, rect.height, rect.x, rect.y);
    Ok(Parsed(out, sy.rest))
  }

  /** The buffered renderer copies the source block onto the rectangle
      whether or not the two overlap, and on non-overlapping blocks it draws
      what the in-place renderer draws. */
  lemma CopyRectBufferedCopiesBlock(srcX: nat, srcY: nat, rest: seq<byte>, dest: ImageBuffer, rect: Rectangle)
    requires dest.Valid() && srcX < TWO_16 && srcY < TWO_16
    requires BlocksInside(dest, srcX, srcY, rect.width, rect.height, rect.x, rect.y)
    ensures var r := RenderCopyRectBuffered(CopyRectPayload(srcX, srcY, rest), dest, rect);
            && r.Ok? && r.value.rest == rest
            && IsBlockCopy(dest, r.value.value, srcX, srcY, rect.width, rect.height, rect.x, rect.y)
            && (Disjoint(srcX, srcY, rect.width, rect.height, rect.x, rect.y) ==>
                  r == RenderCopyRect(CopyRectPayload(srcX, srcY, rest), dest, rect))
  {
    CopyRectPayloadReads(srcX, srcY, rest);
    if Disjoint(srcX, srcY, rect.width, rect.height, rect.x, rect.y) {
      DuplicateAgreesWhenDisjoint(dest, srcX, srcY, rect.width, rect.height, rect.x, rect.y);
    }
  }

  /** One RRE subrectangle: a colour and a block relative to the
      rectangle's top-left corner (section 7.7.3 of RFC 6143). */
  datatype Subrect = Subrect(color: int, x: nat, y: nat, width: nat, height: nat)

  /** An RRE payload: the background colour and the subrectangles in
      stream order. */
  datatype RreData = RreData(background: int, subrects: seq<Subrect>)

  /** One subrectangle: its pixel, then x, y, width and height as unsigned
      16-bit values. */
  function ReadSubrect(decode: PixelDecoder, input: seq<byte>): (r: Res<Parsed<Subrect>>)
    ensures r.Ok? ==> r.value.value.x < TWO_16 && r.value.value.y < TWO_16
                      && r.value.value.width < TWO_16 && r.value.value.height < TWO_16
  {
    var c :- decode(input);
    var sx :- ReadUnsignedShort(c.rest);
    var sy :- ReadUnsignedShort(sx.rest);
    var sw :- ReadUnsignedShort(sy.rest);
    var sh :- ReadUnsignedShort(sw.rest);
    Ok(Parsed(Subrect(c.value, sx.value, sy.value, sw.value, sh.value), sh.rest))
  }

  function SubrectReader(decode: PixelDecoder): Reader<Subrect>
  {
    s => ReadSubrect(decode, s)
  }

  /** The number of passes of `for (int i = 0; i < n; i++)`: none for a
      negative n. */
  function LoopCount(n: int): (k: nat)
    ensures n >= 0 ==> k == n
    ensures n < 0 ==> k == 0
  {
    if n < 0 then 0 else n
  }

  /** The whole RRE payload as the renderer consumes it: the signed 32-bit
      subrectangle count, the background pixel, then the subrectangles. */
  function ParseRre(decode: PixelDecoder, input: seq<byte>): (r: Res<Parsed<RreData>>)
    ensures |input| < 4 ==> r == Err(EndOfStream)
  {
    var n :- ReadInt(input);
    var bg :- decode(n.rest);
    var subs :- ReadMany(SubrectReader(decode), bg.rest, LoopCount(n.value));
    Ok(Parsed(RreData(bg.value, subs.value), subs.rest))
  }

  /** A subrectangle, placed relative to the rectangle, lies inside the buffer. */
  predicate SubrectInside(dest: ImageBuffer, rect: Rectangle, s: Subrect)
  {
    ContainsRect(dest, s.x + rect.x, s.y + rect.y, s.width, s.height)
  }

  /** The colour RRE gives the pixel (px, py): that of the last subrectangle
      covering it, else the background inside the rectangle, else the
      buffer's own. */
  function RrePixel(dest: ImageBuffer, rect: Rectangle, bg: int, subs: seq<Subrect>, px: int, py: int): int
    requires dest.Valid() && dest.Contains(px, py)
    decreases |subs|
  {
    if |subs| == 0 then
      if InRect(px, py, rect.x, rect.y, rect.width, rect.height) then bg else dest.At(px, py)
    else
      var last := subs[|subs| - 1];
      if InRect(px, py, last.x + rect.x, last.y + rect.y, last.width, last.height) then last.color
      else RrePixel(dest, rect, bg, subs[..|subs| - 1], px, py)
  }

  /** cur shows the background and the subrectangles subs painted in order. */
  ghost predicate RreDrawn(dest: ImageBuffer, cur: ImageBuffer, rect: Rectangle, bg: int, subs: seq<Subrect>)
  {
    && SameShape(dest, cur)
    && forall px, py {:trigger cur.At(px, py)} :: dest.Contains(px, py) ==>
         cur.At(px, py) == RrePixel(dest, rect, bg, subs, px, py)
  }

  /** Painting one more subrectangle over an RRE drawing in progress. */
  lemma RreStep(dest: ImageBuffer, cur: ImageBuffer, next: ImageBuffer, rect: Rectangle, bg: int,
                subs: seq<Subrect>, s: Subrect)
    requires RreDrawn(dest, cur, rect, bg, subs) && SameShape(cur, next)
    requires forall px, py :: cur.Contains(px, py) ==>
      next.At(px, py) == if InRect(px, py, s.x + rect.x, s.y + rect.y, s.width, s.height) then s.color else cur.At(px, py)
    ensures RreDrawn(dest, next, rect, bg, subs + [s])
  {
    var all := subs + [s];
    assert all[..|all| - 1] == subs;
    forall px, py | dest.Contains(px, py)
      ensures next.At(px, py) == RrePixel(dest, rect, bg, all, px, py)
    {
      assert cur.At(px, py) == RrePixel(dest, rect, bg, subs, px, py);
    }
  }

  /** Every subrectangle, placed relative to the rectangle, lies inside the buffer. */
  predicate SubrectsInside(dest: ImageBuffer, rect: Rectangle, subs: seq<Subrect>)
  {
    forall k :: 0 <= k < |subs| ==> SubrectInside(dest, rect, subs[k])
  }

  /** One subrectangle filled with its colour, placed relative to the
      rectangle's top-left corner. */
  function PaintSubrect(cur: ImageBuffer, rect: Rectangle, s: Subrect): (r: Res<ImageBuffer>)
    requires cur.Valid()
    ensures r.Ok? ==> SameShape(cur, r.value)
    ensures SubrectInside(cur, rect, s) ==> r.Ok? && forall px, py {:trigger r.value.At(px, py)} :: cur.Contains(px, py) ==>
      r.value.At(px, py) == if InRect(px, py, s.x + rect.x, s.y + rect.y, s.width, s.height) then s.color else cur.At(px, py)
  {
    FillRect(cur, s.x + rect.x, s.y + rect.y, s.width, s.height, s.color)
  }

  /** The subrectangle loop of RRE from the middle: k more subrectangles,
      each read by read and then filled. */
  function RreLoop(read: Reader<Subrect>, input: seq<byte>, cur: ImageBuffer, rect: Rectangle, k: nat)
    : (r: Res<Parsed<ImageBuffer>>)
    requires cur.Valid()
    ensures r.Ok? ==> SameShape(cur, r.value.value)
    decreases k
  {
    if k == 0 then Ok(Parsed(cur, input))
    else
      var s :- read(input);
      var next :- PaintSubrect(cur, rect, s.value);
      RreLoop(read, s.rest, next, rect, k - 1)
  }

  /** A completed subrectangle loop has read exactly k subrectangles. */
  lemma {:induction false} RreLoopReads(read: Reader<Subrect>, input: seq<byte>, cur: ImageBuffer, rect: Rectangle, k: nat)
    requires cur.Valid()
    ensures RreLoop(read, input, cur, rect, k).Ok? ==>
              ReadMany(read, input, k).Ok?
              && RreLoop(read, input, cur, rect, k).value.rest == ReadMany(read, input, k).value.rest
    decreases k
  {
    if k > 0 && read(input).Ok? {
      var s := read(input).value;
      var next := PaintSubrect(cur, rect, s.value);
      if next.Ok? {
        RreLoopReads(read, s.rest, next.value, rect, k - 1);
      }
    }
  }

  /** The subrectangles filled one after the other, in order. */
  function PaintSubrects(cur: ImageBuffer, rect: Rectangle, subs: seq<Subrect>): (r: Res<ImageBuffer>)
    requires cur.Valid()
    ensures r.Ok? ==> SameShape(cur, r.value)
    decreases |subs|
  {
    if |subs| == 0 then Ok(cur)
    else
      var next :- PaintSubrect(cur, rect, subs[0]);
      PaintSubrects(next, rect, subs[1..])
  }

  /** When reading the k subrectangles succeeds and so does painting them,
      the interleaved loop is reading them all and then painting them all. */
  lemma {:induction false} RreLoopReadsThenPaints(read: Reader<Subrect>, input: seq<byte>, cur: ImageBuffer,
                                                  rect: Rectangle, k: nat)
    requires cur.Valid() && ReadMany(read, input, k).Ok?
    requires PaintSubrects(cur, rect, ReadMany(read, input, k).value.value).Ok?
    ensures RreLoop(read, input, cur, rect, k)
            == Ok(Parsed(PaintSubrects(cur, rect, ReadMany(read, input, k).value.value).value,
                         ReadMany(read, input, k).value.rest))
    decreases k
  {
    if k > 0 {
      var s := read(input).value;
      var subs := ReadMany(read, input, k).value.value;
      assert subs == [s.value] + ReadMany(read, s.rest, k - 1).value.value;
      assert subs[0] == s.value && subs[1..] == ReadMany(read, s.rest, k - 1).value.value;
      var next := PaintSubrect(cur, rect, s.value);
      assert PaintSubrects(cur, rect, subs) == PaintSubrects(next.value, rect, subs[1..]);
      RreLoopReadsThenPaints(read, s.rest, next.value, rect, k - 1);
      assert next.Ok?;
      assert RreLoop(read, input, cur, rect, k) == RreLoop(read, s.rest, next.value, rect, k - 1);
      assert ReadMany(read, input, k).value.rest == ReadMany(read, s.rest, k - 1).value.rest;
    }
  }

  /** Painting subrectangles that all lie inside the buffer never fails and
      extends the drawing by exactly those subrectangles. */
  lemma {:induction false} PaintSubrectsDraw(dest: ImageBuffer, cur: ImageBuffer, rect: Rectangle, bg: int,
                                             done: seq<Subrect>, subs: seq<Subrect>)
    requires RreDrawn(dest, cur, rect, bg, done) && SubrectsInside(dest, rect, subs)
    ensures PaintSubrects(cur, rect, subs).Ok?
    ensures RreDrawn(dest, PaintSubrects(cur, rect, subs).value, rect, bg, done + subs)
    decreases |subs|
  {
    if |subs| == 0 {
      assert done + subs == done;
    } else {
      assert SubrectInside(dest, rect, subs[0]);
      var next := PaintSubrect(cur, rect, subs[0]);
      RreStep(dest, cur, next.value, rect, bg, done, subs[0]);
      assert SubrectsInside(dest, rect, subs[1..]) by {
        forall j | 0 <= j < |subs| - 1
          ensures SubrectInside(dest, rect, subs[1..][j])
        {
          assert subs[1..][j] == subs[j + 1];
        }
      }
      PaintSubrectsDraw(dest, next.value, rect, bg, done + [subs[0]], subs[1..]);
      assert done + [subs[0]] + subs[1..] == done + subs;
    }
  }

  /** Filling the rectangle with the background starts the drawing. */
  lemma RreStart(dest: ImageBuffer, cur: ImageBuffer, rect: Rectangle, bg: int)
    requires SameShape(dest, cur)
    requires forall px, py :: dest.Contains(px, py) ==>
      cur.At(px, py) == if InRect(px, py, rect.x, rect.y, rect.width, rect.height) then bg else dest.At(px, py)
    ensures RreDrawn(dest, cur, rect, bg, [])
  {
  }

  /** `RRERenderer.render`: reads the subrectangle count and the background
      pixel, fills the rectangle with the background, then reads and fills
      each subrectangle in turn. */
  function RenderRre(decode: PixelDecoder, input: seq<byte>, dest: ImageBuffer, rect: Rectangle)
    : (r: Res<Parsed<ImageBuffer>>)
    requires dest.Valid()
    ensures |input| < 4 ==> r == Err(EndOfStream)
    ensures r.Ok? ==> SameShape(dest, r.value.value)
    ensures r.Ok? ==> ParseRre(decode, input).Ok? && r.value.rest == ParseRre(decode, input).value.rest
    ensures ParseRre(decode, input).Ok? && ContainsRect(dest, rect.x, rect.y, rect.width, rect.height)
            && SubrectsInside(dest, rect, ParseRre(decode, input).value.value.subrects) ==>
              r.Ok? && RreDrawn(dest, r.value.value, rect, ParseRre(decode, input).value.value.background,
                                ParseRre(decode, input).value.value.subrects)
  {
    var n :- ReadInt(input);
    var bg :- decode(n.rest);
    var cur :- FillRect(dest, rect.x, rect.y, rect.width, rect.height, bg.value);
    var k := LoopCount(n.value);
    RreLoopReads(SubrectReader(decode), bg.rest, cur, rect, k);
    if ContainsRect(dest, rect.x, rect.y, rect.width, rect.height) && ReadMany(SubrectReader(decode), bg.rest, k).Ok?
       && SubrectsInside(dest, rect, ReadMany(SubrectReader(decode), bg.rest, k).value.value) then
      RreStart(dest, cur, rect, bg.value);
      PaintSubrectsDraw(dest, cur, rect, bg.value, [], ReadMany(SubrectReader(decode), bg.rest, k).value.value);
      RreLoopReadsThenPaints(SubrectReader(decode), bg.rest, cur, rect, k);
      assert [] + ReadMany(SubrectReader(decode), bg.rest, k).value.value
             == ReadMany(SubrectReader(decode), bg.rest, k).value.value;
      RreLoop(SubrectReader(decode), bg.rest, cur, rect, k)
    else
      RreLoop(SubrectReader(decode), bg.rest, cur, rect, k)
  }
}
