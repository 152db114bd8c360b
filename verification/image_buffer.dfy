/** The pixel store every renderer draws into: a width x height `int` array
    in row-major order, addressed with Java `int` arithmetic. The array is
    held as its height rows of width cells each; cell i of the Java array is
    cell i % width of row i / width. */
module ImageBuffers {
  import opened Bytes
  import opened Outcomes
  import opened Failures

  /** Every width and height the client hands to a buffer comes from an
      unsigned 16-bit protocol field. */
  const MAX_DIMENSION: nat := 65535

  datatype ImageBuffer = ImageBuffer(width: nat, height: nat, alpha: bool, rows: seq<seq<int>>)
  {
    /** height rows of width cells, 16-bit dimensions, and few enough cells
        that Java could allocate them. */
    predicate Valid() {
      && width <= MAX_DIMENSION && height <= MAX_DIMENSION
      && width * height < TWO_31
      && |rows| == height
      && forall j :: 0 <= j < |rows| ==> |rows[j]| == width
    }

    predicate Contains(x: int, y: int) {
      0 <= x < width && 0 <= y < height
    }

    /** The colour of the pixel at (x, y). */
    function At(x: nat, y: nat): int
      requires Valid() && Contains(x, y)
    {
      rows[y][x]
    }
  }

  /** Same dimensions and alpha flag: nothing but pixels differ. */
  predicate SameShape(a: ImageBuffer, b: ImageBuffer) {
    a.Valid() && b.Valid() && a.width == b.width && a.height == b.height && a.alpha == b.alpha
  }

  predicate InRect(px: int, py: int, x: int, y: int, w: int, h: int) {
    x <= px < x + w && y <= py < y + h
  }

  /** A w x h block at (x, y) lies inside the buffer (an empty block always does). */
  predicate ContainsRect(b: ImageBuffer, x: nat, y: nat, w: nat, h: nat) {
    w == 0 || h == 0 || (x + w <= b.width && y + h <= b.height)
  }

  lemma ModSmall(x: nat, w: nat)
    requires x < w
    ensures x % w == x
  {
    DivModUnique(x, w, 0, x);
  }

  lemma MulMonotone(a: int, b: int, c: nat)
    requires a <= b
    ensures a * c <= b * c
  {
  }

  /** Two 16-bit dimensions multiply to less than 2^32. */
  lemma ProductBound(width: nat, height: nat)
    requires width <= MAX_DIMENSION && height <= MAX_DIMENSION
    ensures width * height < TWO_32
  {
    MulMonotone(width, MAX_DIMENSION, height);
    MulMonotone(height, MAX_DIMENSION, MAX_DIMENSION);
  }

  /** A row-major index of an in-range coordinate lies in [0, width * height),
      and the coordinate can be read back from it. */
  lemma RowMajorBound(width: nat, height: nat, x: nat, y: nat)
    requires x < width && y < height
    ensures 0 <= y * width + x < width * height
    ensures (y * width + x) / width == y && (y * width + x) % width == x
  {
    MulMonotone(y + 1, height, width);
    DivModUnique(y * width + x, width, y, x);
  }

  /** Distinct in-range coordinates have distinct row-major indices. */
  lemma RowMajorInjective(width: nat, x1: nat, y1: nat, x2: nat, y2: nat)
    requires x1 < width && x2 < width
    requires y1 * width + x1 == y2 * width + x2
    ensures x1 == x2 && y1 == y2
  {
    DivModUnique(y1 * width + x1, width, y1, x1);
    DivModUnique(y2 * width + x2, width, y2, x2);
  }

  /** Every index below width * height is the row-major index of a pixel. */
  lemma RowMajorSplit(width: nat, height: nat, i: nat)
    requires i < width * height
    ensures width > 0 && i / width < height && i % width < width
  {
    assert width > 0;
    if i / width >= height {
      MulMonotone(height, i / width, width);
    }
  }

  /** Cell i of the Java array. */
  function Cell(b: ImageBuffer, i: nat): int
    requires b.Valid() && i < b.width * b.height
  {
    RowMajorSplit(b.width, b.height, i);
    var row := i / b.width;
    var col := i % b.width;
    assert row < |b.rows| && col < |b.rows[row]|;
    b.rows[row][col]
  }

  /** The buffer with cell i of the Java array set to c. */
  function WriteCell(b: ImageBuffer, i: nat, c: int): (r: ImageBuffer)
    requires b.Valid() && i < b.width * b.height
    ensures SameShape(b, r)
  {
    RowMajorSplit(b.width, b.height, i);
    var row := i / b.width;
    b.(rows := b.rows[row := b.rows[row][i % b.width := c]])
  }

  /** `row + column` where the row offset was itself computed in `int`. */
  function AddInt32(row: int, column: int): int
  {
    Int32(Int32(row) + column)
  }

  /** `flatIndex`: `y * width + (x % width)` evaluated in Java `int`
      arithmetic, so a column past the right edge wraps into the same row
      and a row offset that overflows wraps around. */
  function FlatIndex(b: ImageBuffer, x: nat, y: nat): int
    requires b.width > 0
  {
    AddInt32(y * b.width, x % b.width)
  }

  /** Without overflow the `int` sum is the true sum. */
  lemma AddInt32Small(row: int, column: int)
    requires 0 <= row && 0 <= column && row + column < TWO_31
    ensures AddInt32(row, column) == row + column
  {
    Int32Range(row);
    Int32Range(row + column);
  }

  /** A row offset at or past n that fits in an `int`, plus a 16-bit column,
      is either at least n or wraps to a negative value. */
  lemma AddInt32Beyond(row: int, column: int, n: int)
    requires n <= row < TWO_31 && 0 <= column <= MAX_DIMENSION
    ensures AddInt32(row, column) < 0 || AddInt32(row, column) >= n
  {
    Int32Range(row);
    var q := row + column;
    if q >= TWO_31 {
      Int32Wrap(q);
    } else {
      Int32Range(q);
    }
  }

  /** Where `flatIndex` lands: the cell of the wrapped column in row y when
      that row exists, and outside the array for a row past the bottom edge
      whose offset does not overflow. */
  lemma FlatIndexFacts(b: ImageBuffer, x: nat, y: nat)
    requires b.Valid() && b.width > 0
    ensures y < b.height ==> && FlatIndex(b, x, y) == y * b.width + x % b.width
                             && 0 <= FlatIndex(b, x, y) < b.width * b.height
                             && FlatIndex(b, x, y) / b.width == y
                             && FlatIndex(b, x, y) % b.width == x % b.width
    ensures b.height <= y && y * b.width < TWO_31 ==> !(0 <= FlatIndex(b, x, y) < b.width * b.height)
  {
    var w := b.width;
    var row := y * w;
    var column := x % w;
    if y < b.height {
      RowMajorBound(w, b.height, column, y);
      AddInt32Small(row, column);
    } else if row < TWO_31 {
      MulMonotone(b.height, y, w);
      AddInt32Beyond(row, column, w * b.height);
    }
  }

  /** For an in-range coordinate the index is the plain row-major one. */
  lemma FlatIndexInRange(b: ImageBuffer, x: nat, y: nat)
    requires b.Valid() && b.Contains(x, y)
    ensures FlatIndex(b, x, y) == y * b.width + x
    ensures 0 <= FlatIndex(b, x, y) < b.width * b.height
  {
    FlatIndexFacts(b, x, y);
    ModSmall(x, b.width);
  }

  /** Two in-range coordinates share an index only if they are the same. */
  lemma FlatIndexInjective(b: ImageBuffer, x1: nat, y1: nat, x2: nat, y2: nat)
    requires b.Valid() && b.Contains(x1, y1) && b.Contains(x2, y2)
    requires FlatIndex(b, x1, y1) == FlatIndex(b, x2, y2)
    ensures x1 == x2 && y1 == y2
  {
    FlatIndexInRange(b, x1, y1);
    FlatIndexInRange(b, x2, y2);
    RowMajorInjective(b.width, x1, y1, x2, y2);
  }

  /** The ImageBuffer constructor: `new int[width * height]`, all zero. The
      size is computed in `int`, so a product of 2^31 or more is negative
      and the allocation fails. */
  function New(width: nat, height: nat, alpha: bool): (r: Res<ImageBuffer>)
    requires width <= MAX_DIMENSION && height <= MAX_DIMENSION
    ensures r.Ok? <==> width * height < TWO_31
    ensures r.Ok? ==> r.value.Valid() && r.value.width == width && r.value.height == height && r.value.alpha == alpha
    ensures r.Ok? ==> forall x, y :: r.value.Contains(x, y) ==> r.value.At(x, y) == 0
  {
    ProductBound(width, height);
    var p := width * height;
    Int32OfUnsigned(p);
    if Int32(p) < 0 then Err(NegativeArraySize)
    else Ok(ImageBuffer(width, height, alpha, seq(height, _ => seq(width, _ => 0))))
  }

  /** `buffer[i]`, with Java's bounds check. */
  function GetCell(b: ImageBuffer, i: int): (r: Res<int>)
    requires b.Valid()
    ensures 0 <= i < b.width * b.height <==> r.Ok?
  {
    if 0 <= i < b.width * b.height then Ok(Cell(b, i)) else Err(IndexOutOfBounds)
  }

  /** `get(x, y)`. */
  function Get(b: ImageBuffer, x: nat, y: nat): (r: Res<int>)
    requires b.Valid()
    ensures b.Contains(x, y) ==> r == Ok(b.At(x, y))
    ensures b.width > 0 && y < b.height ==> r == Ok(b.At(x % b.width, y))
    ensures b.width == 0 ==> r == Err(DivisionByZero)
    ensures b.width > 0 && b.height <= y && y * b.width < TWO_31 ==> r == Err(IndexOutOfBounds)
  {
    if b.width == 0 then Err(DivisionByZero)
    else
      FlatIndexFacts(b, x, y);
      if x < b.width then ModSmall(x, b.width); GetCell(b, FlatIndex(b, x, y))
      else GetCell(b, FlatIndex(b, x, y))
  }

  /** b' is b with the single pixel (x, y) set to colour c. */
  ghost predicate Updated(b: ImageBuffer, b': ImageBuffer, x: nat, y: nat, c: int) {
    && SameShape(b, b')
    && b.Contains(x, y)
    && b'.At(x, y) == c
    && forall px, py :: b.Contains(px, py) && (px != x || py != y) ==> b'.At(px, py) == b.At(px, py)
  }

  /** `set(x, y, color)`. */
  function Set(b: ImageBuffer, x: nat, y: nat, c: int): (r: Res<ImageBuffer>)
    requires b.Valid()
    ensures r.Ok? ==> SameShape(b, r.value)
    ensures b.width > 0 && y < b.height ==> r.Ok? && Updated(b, r.value, x % b.width, y, c)
    ensures b.width == 0 ==> r == Err(DivisionByZero)
    ensures b.width > 0 && b.height <= y && y * b.width < TWO_31 ==> r == Err(IndexOutOfBounds)
  {
    if b.width == 0 then Err(DivisionByZero)
    else
      FlatIndexFacts(b, x, y);
      var i := FlatIndex(b, x, y);
      if 0 <= i < b.width * b.height then Ok(WriteCell(b, i, c)) else Err(IndexOutOfBounds)
  }

  /** Reading a pixel just written returns the written colour. */
  lemma GetAfterSet(b: ImageBuffer, x: nat, y: nat, c: int)
    requires b.Valid() && b.Contains(x, y)
    ensures Set(b, x, y, c).Ok? && Get(Set(b, x, y, c).value, x, y) == Ok(c)
  {
    ModSmall(x, b.width);
  }

  /** Writing a pixel leaves every other pixel readable as before. */
  lemma GetAfterSetOther(b: ImageBuffer, x: nat, y: nat, c: int, px: nat, py: nat)
    requires b.Valid() && b.Contains(x, y) && b.Contains(px, py) && (px != x || py != y)
    ensures Set(b, x, y, c).Ok? && Get(Set(b, x, y, c).value, px, py) == Get(b, px, py)
  {
    ModSmall(x, b.width);
  }

  /** Two buffers of the same shape that agree on every pixel are equal. */
  lemma PixelsDetermine(a: ImageBuffer, c: ImageBuffer)
    requires SameShape(a, c)
    requires forall px, py :: a.Contains(px, py) ==> a.At(px, py) == c.At(px, py)
    ensures a == c
  {
    forall j | 0 <= j < a.height
      ensures a.rows[j] == c.rows[j]
    {
      forall i | 0 <= i < a.width
        ensures a.rows[j][i] == c.rows[j][i]
      {
        assert a.At(i, j) == c.At(i, j);
      }
    }
  }

  /** cur is b with the first ox columns of the w x h block at (x, y) filled
      with colour c, and the top oy cells of column ox as well. */
  ghost predicate FilledUpTo(b: ImageBuffer, cur: ImageBuffer, x: nat, y: nat, h: nat, c: int, ox: nat, oy: nat)
    requires SameShape(b, cur)
  {
    forall px, py :: b.Contains(px, py) ==>
      cur.At(px, py) == if InRect(px, py, x, y, ox, h) || (px == x + ox && y <= py < y + oy) then c else b.At(px, py)
  }

  /** The inner loop of `fillRect`: column ox of the block, rows oy to h - 1. */
  function FillCells(cur: ImageBuffer, x: nat, y: nat, h: nat, color: int, ox: nat, oy: nat): (r: Res<ImageBuffer>)
    requires cur.Valid()
    ensures r.Ok? ==> SameShape(cur, r.value)
    decreases h - oy
  {
    if oy >= h then Ok(cur)
    else
      var next :- Set(cur, x + ox, y + oy, color);
      FillCells(next, x, y, h, color, ox, oy + 1)
  }

  /** The outer loop of `fillRect`: columns ox to w - 1. */
  function FillColumns(cur: ImageBuffer, x: nat, y: nat, w: nat, h: nat, color: int, ox: nat): (r: Res<ImageBuffer>)
    requires cur.Valid()
    ensures r.Ok? ==> SameShape(cur, r.value)
    ensures h == 0 ==> r == Ok(cur)
    decreases w - ox
  {
    if ox >= w then Ok(cur)
    else
      var next :- FillCells(cur, x, y, h, color, ox, 0);
      FillColumns(next, x, y, w, h, color, ox + 1)
  }

  lemma {:induction false} FillCellsCorrect(b: ImageBuffer, cur: ImageBuffer, x: nat, y: nat, h: nat, color: int,
                                            ox: nat, oy: nat)
    requires SameShape(b, cur) && x + ox < b.width && y + h <= b.height && oy <= h
    requires FilledUpTo(b, cur, x, y, h, color, ox, oy)
    ensures FillCells(cur, x, y, h, color, ox, oy).Ok?
    ensures FilledUpTo(b, FillCells(cur, x, y, h, color, ox, oy).value, x, y, h, color, ox + 1, 0)
    decreases h - oy
  {
    if oy < h {
      ModSmall(x + ox, cur.width);
      var next := Set(cur, x + ox, y + oy, color).value;
      FillCellsCorrect(b, next, x, y, h, color, ox, oy + 1);
    }
  }

  lemma {:induction false} FillColumnsCorrect(b: ImageBuffer, cur: ImageBuffer, x: nat, y: nat, w: nat, h: nat,
                                              color: int, ox: nat)
    requires SameShape(b, cur) && x + w <= b.width && y + h <= b.height && ox <= w
    requires FilledUpTo(b, cur, x, y, h, color, ox, 0)
    ensures FillColumns(cur, x, y, w, h, color, ox).Ok?
    ensures FilledUpTo(b, FillColumns(cur, x, y, w, h, color, ox).value, x, y, h, color, w, 0)
    decreases w - ox
  {
    if ox < w {
      FillCellsCorrect(b, cur, x, y, h, color, ox, 0);
      FillColumnsCorrect(b, FillCells(cur, x, y, h, color, ox, 0).value, x, y, w, h, color, ox + 1);
    }
  }

  /** `fillRect(x, y, w, h, color)`: column by column, each column top to bottom. */
  function FillRect(b: ImageBuffer, x: nat, y: nat, w: nat, h: nat, color: int): (r: Res<ImageBuffer>)
    requires b.Valid()
    ensures r.Ok? ==> SameShape(b, r.value)
    ensures w == 0 || h == 0 ==> r == Ok(b)
    ensures ContainsRect(b, x, y, w, h) ==> r.Ok? && forall px, py {:trigger r.value.At(px, py)} :: b.Contains(px, py) ==>
      r.value.At(px, py) == if InRect(px, py, x, y, w, h) then color else b.At(px, py)
  {
    if w > 0 && h > 0 && x + w <= b.width && y + h <= b.height then
      FillColumnsCorrect(b, b, x, y, w, h, color, 0);
      FillColumns(b, x, y, w, h, color, 0)
    else FillColumns(b, x, y, w, h, color, 0)
  }

  /** `extend(nw, nh)`: a new nw x nh buffer with the same alpha flag that keeps
      the old pixels where both buffers have them and is zero elsewhere. */
  method Extend(b: ImageBuffer, nw: nat, nh: nat) returns (r: Res<ImageBuffer>)
    requires b.Valid()
    requires nw <= MAX_DIMENSION && nh <= MAX_DIMENSION
    ensures r.Ok? <==> nw * nh < TWO_31
    ensures r.Ok? ==> r.value.Valid() && r.value.width == nw && r.value.height == nh && r.value.alpha == b.alpha
    ensures r.Ok? ==> forall ox, oy :: r.value.Contains(ox, oy) ==>
      r.value.At(ox, oy) == if b.Contains(ox, oy) then b.At(ox, oy) else 0
  {
    var made := New(nw, nh, b.alpha);
    if made.Err? {
      return Err(made.error);
    }
    var cur := made.value;
    var ox := 0;
    while ox < nw
      invariant 0 <= ox <= nw
      invariant SameShape(made.value, cur)
      invariant forall px, py :: cur.Contains(px, py) ==>
        cur.At(px, py) == if px < ox && b.Contains(px, py) then b.At(px, py) else 0
    {
      var oy := 0;
      while oy < nh
        invariant 0 <= oy <= nh
        invariant SameShape(made.value, cur)
        invariant forall px, py :: cur.Contains(px, py) ==>
          cur.At(px, py) == if (px < ox || (px == ox && py < oy)) && b.Contains(px, py) then b.At(px, py) else 0
      {
        var v := if ox < b.width && oy < b.height then b.At(ox, oy) else 0;
        ModSmall(ox, cur.width);
        cur := Set(cur, ox, oy, v).value;
        oy := oy + 1;
      }
      ox := ox + 1;
    }
    return Ok(cur);
  }
}
