/** `ImageBuffer.duplicate`: copying a w x h block of pixels from (x, y) to
    (tx, ty) inside the same buffer, one cell at a time, column by column. */
module BlockCopy {
  import opened Bytes
  import opened Outcomes
  import opened Failures
  import opened ImageBuffers

  /** Both the source block at (x, y) and the target block at (tx, ty) lie inside b. */
  predicate BlocksInside(b: ImageBuffer, x: nat, y: nat, w: nat, h: nat, tx: nat, ty: nat) {
    ContainsRect(b, x, y, w, h) && ContainsRect(b, tx, ty, w, h)
  }

  /** The source and target blocks share no pixel. */
  predicate Disjoint(x: nat, y: nat, w: nat, h: nat, tx: nat, ty: nat) {
    x + w <= tx || tx + w <= x || y + h <= ty || ty + h <= y
  }

  /** r is b with the target block replaced by the source block as it was in
      b, and every pixel outside the target block as it was. */
  ghost predicate IsBlockCopy(b: ImageBuffer, r: ImageBuffer, x: nat, y: nat, w: nat, h: nat, tx: nat, ty: nat) {
    && SameShape(b, r)
    && BlocksInside(b, x, y, w, h, tx, ty)
    && forall px, py {:trigger r.At(px, py)} :: b.Contains(px, py) ==>
         r.At(px, py) == if InRect(px, py, tx, ty, w, h) then b.At(px - tx + x, py - ty + y) else b.At(px, py)
  }

  /** The inner loop: column ox, rows oy to h - 1. Each cell is read either
      from the buffer being written (`staged` false, as `duplicate` does) or
      from the snapshot taken before the copy began (`staged` true). */
  function CopyCells(staged: bool, snapshot: ImageBuffer, cur: ImageBuffer,
                     x: nat, y: nat, h: nat, tx: nat, ty: nat, ox: nat, oy: nat): (r: Res<ImageBuffer>)
    requires snapshot.Valid() && cur.Valid()
    ensures r.Ok? ==> SameShape(cur, r.value)
    decreases h - oy
  {
    if oy >= h then Ok(cur)
    else
      var v :- Get(if staged then snapshot else cur, x + ox, y + oy);
      var next :- Set(cur, tx + ox, ty + oy, v);
      CopyCells(staged, snapshot, next, x, y, h, tx, ty, ox, oy + 1)
  }

  /** The outer loop: columns ox to w - 1. */
  function CopyColumns(staged: bool, snapshot: ImageBuffer, cur: ImageBuffer,
                       x: nat, y: nat, w: nat, h: nat, tx: nat, ty: nat, ox: nat): (r: Res<ImageBuffer>)
    requires snapshot.Valid() && cur.Valid()
    ensures r.Ok? ==> SameShape(cur, r.value)
    decreases w - ox
  {
    if ox >= w then Ok(cur)
    else
      var next :- CopyCells(staged, snapshot, cur, x, y, h, tx, ty, ox, 0);
      CopyColumns(staged, snapshot, next, x, y, w, h, tx, ty, ox + 1)
  }

  /** `duplicate(x, y, width, height, targetX, targetY)` as written: every
      cell is read from the live buffer, so a source cell already
      overwritten earlier in the loop is copied in its new colour. */
  function Duplicate(b: ImageBuffer, x: nat, y: nat, w: nat, h: nat, tx: nat, ty: nat): (r: Res<ImageBuffer>)
    requires b.Valid()
    ensures r.Ok? ==> SameShape(b, r.value)
    ensures BlocksInside(b, x, y, w, h, tx, ty) && Disjoint(x, y, w, h, tx, ty) ==>
      r.Ok? && IsBlockCopy(b, r.value, x, y, w, h, tx, ty)
  {
    if BlocksInside(b, x, y, w, h, tx, ty) && Disjoint(x, y, w, h, tx, ty) then
      CopyColumnsCorrect(false, b, b, x, y, w, h, tx, ty, 0);
      CopyColumns(false, b, b, x, y, w, h, tx, ty, 0)
    else CopyColumns(false, b, b, x, y, w, h, tx, ty, 0)
  }

  /** The block copy `duplicate` evidently means: every cell is read from a
      snapshot of the buffer taken before the first write. */
  function DuplicateBuffered(b: ImageBuffer, x: nat, y: nat, w: nat, h: nat, tx: nat, ty: nat): (r: Res<ImageBuffer>)
    requires b.Valid()
    ensures r.Ok? ==> SameShape(b, r.value)
    ensures BlocksInside(b, x, y, w, h, tx, ty) ==> r.Ok? && IsBlockCopy(b, r.value, x, y, w, h, tx, ty)
  {
    if BlocksInside(b, x, y, w, h, tx, ty) then
      CopyColumnsCorrect(true, b, b, x, y, w, h, tx, ty, 0);
      CopyColumns(true, b, b, x, y, w, h, tx, ty, 0)
    else CopyColumns(true, b, b, x, y, w, h, tx, ty, 0)
  }

  /** The loop invariant: columns before ox of the target block, and the top
      oy cells of column ox, hold the source pixels; nothing else changed. */
  ghost predicate CopiedUpTo(b: ImageBuffer, cur: ImageBuffer, x: nat, y: nat, w: nat, h: nat,
                             tx: nat, ty: nat, ox: nat, oy: nat) {
    && SameShape(b, cur)
    && BlocksInside(b, x, y, w, h, tx, ty)
    && ox <= w && oy <= h
    && forall px, py {:trigger cur.At(px, py)} :: b.Contains(px, py) ==>
         cur.At(px, py) ==
           if InRect(px, py, tx, ty, ox, h) || (ox < w && px == tx + ox && ty <= py < ty + oy)
           then b.At(px - tx + x, py - ty + y)
           else b.At(px, py)
  }

  /** Writing the next cell of column ox extends the invariant by one row. */
  lemma CopyStep(b: ImageBuffer, cur: ImageBuffer, next: ImageBuffer, x: nat, y: nat, w: nat, h: nat,
                 tx: nat, ty: nat, ox: nat, oy: nat)
    requires CopiedUpTo(b, cur, x, y, w, h, tx, ty, ox, oy) && ox < w && oy < h
    requires Updated(cur, next, tx + ox, ty + oy, b.At(x + ox, y + oy))
    ensures CopiedUpTo(b, next, x, y, w, h, tx, ty, ox, oy + 1)
  {
    forall px, py | b.Contains(px, py)
      ensures next.At(px, py) ==
        if InRect(px, py, tx, ty, ox, h) || (ox < w && px == tx + ox && ty <= py < ty + oy + 1)
        then b.At(px - tx + x, py - ty + y)
        else b.At(px, py)
    {
      if px != tx + ox || py != ty + oy {
        assert next.At(px, py) == cur.At(px, py);
      }
    }
  }

  /** A finished column counts towards the completed columns. */
  lemma CopyColumnDone(b: ImageBuffer, cur: ImageBuffer, x: nat, y: nat, w: nat, h: nat, tx: nat, ty: nat, ox: nat)
    requires CopiedUpTo(b, cur, x, y, w, h, tx, ty, ox, h) && ox < w
    ensures CopiedUpTo(b, cur, x, y, w, h, tx, ty, ox + 1, 0)
  {
    forall px, py | b.Contains(px, py)
      ensures cur.At(px, py) ==
        if InRect(px, py, tx, ty, ox + 1, h) || (ox + 1 < w && px == tx + ox + 1 && ty <= py < ty)
        then b.At(px - tx + x, py - ty + y)
        else b.At(px, py)
    {
    }
  }

  /** With every column done the invariant is the block copy itself. */
  lemma CopyDone(b: ImageBuffer, cur: ImageBuffer, x: nat, y: nat, w: nat, h: nat, tx: nat, ty: nat)
    requires CopiedUpTo(b, cur, x, y, w, h, tx, ty, w, 0)
    ensures IsBlockCopy(b, cur, x, y, w, h, tx, ty)
  {
    forall px, py | b.Contains(px, py)
      ensures cur.At(px, py) == if InRect(px, py, tx, ty, w, h) then b.At(px - tx + x, py - ty + y) else b.At(px, py)
    {
    }
  }

  /** While the blocks are disjoint the source cell about to be read has not
      been written yet. */
  lemma SourceUntouched(b: ImageBuffer, cur: ImageBuffer, x: nat, y: nat, w: nat, h: nat,
                        tx: nat, ty: nat, ox: nat, oy: nat)
    requires CopiedUpTo(b, cur, x, y, w, h, tx, ty, ox, oy) && ox < w && oy < h
    requires Disjoint(x, y, w, h, tx, ty)
    ensures b.Contains(x + ox, y + oy) && cur.At(x + ox, y + oy) == b.At(x + ox, y + oy)
  {
    assert b.Contains(x + ox, y + oy);
    assert !InRect(x + ox, y + oy, tx, ty, w, h);
  }

  /** One pass of the inner loop reads the source pixel as it was in b and
      writes it, keeping the invariant. */
  lemma CopyCellStep(staged: bool, b: ImageBuffer, cur: ImageBuffer, x: nat, y: nat, w: nat, h: nat,
                     tx: nat, ty: nat, ox: nat, oy: nat) returns (next: ImageBuffer)
    requires CopiedUpTo(b, cur, x, y, w, h, tx, ty, ox, oy) && ox < w && oy < h
    requires staged || Disjoint(x, y, w, h, tx, ty)
    ensures next.Valid() && CopiedUpTo(b, next, x, y, w, h, tx, ty, ox, oy + 1)
    ensures CopyCells(staged, b, cur, x, y, h, tx, ty, ox, oy) == CopyCells(staged, b, next, x, y, h, tx, ty, ox, oy + 1)
  {
    if !staged {
      SourceUntouched(b, cur, x, y, w, h, tx, ty, ox, oy);
    }
    var v := b.At(x + ox, y + oy);
    assert Get(if staged then b else cur, x + ox, y + oy) == Ok(v);
    ModSmall(tx + ox, cur.width);
    next := Set(cur, tx + ox, ty + oy, v).value;
    CopyStep(b, cur, next, x, y, w, h, tx, ty, ox, oy);
  }

  lemma {:induction false} CopyCellsCorrect(staged: bool, b: ImageBuffer, cur: ImageBuffer, x: nat, y: nat, w: nat, h: nat,
                                            tx: nat, ty: nat, ox: nat, oy: nat)
    requires CopiedUpTo(b, cur, x, y, w, h, tx, ty, ox, oy) && ox < w
    requires staged || Disjoint(x, y, w, h, tx, ty)
    ensures CopyCells(staged, b, cur, x, y, h, tx, ty, ox, oy).Ok?
    ensures CopiedUpTo(b, CopyCells(staged, b, cur, x, y, h, tx, ty, ox, oy).value, x, y, w, h, tx, ty, ox, h)
    decreases h - oy
  {
    if oy < h {
      var next := CopyCellStep(staged, b, cur, x, y, w, h, tx, ty, ox, oy);
      CopyCellsCorrect(staged, b, next, x, y, w, h, tx, ty, ox, oy + 1);
    }
  }

  lemma {:induction false} CopyColumnsCorrect(staged: bool, b: ImageBuffer, cur: ImageBuffer, x: nat, y: nat, w: nat, h: nat,
                                              tx: nat, ty: nat, ox: nat)
    requires CopiedUpTo(b, cur, x, y, w, h, tx, ty, ox, 0)
    requires staged || Disjoint(x, y, w, h, tx, ty)
    ensures CopyColumns(staged, b, cur, x, y, w, h, tx, ty, ox).Ok?
    ensures IsBlockCopy(b, CopyColumns(staged, b, cur, x, y, w, h, tx, ty, ox).value, x, y, w, h, tx, ty)
    decreases w - ox
  {
    if ox < w {
      CopyCellsCorrect(staged, b, cur, x, y, w, h, tx, ty, ox, 0);
      var next := CopyCells(staged, b, cur, x, y, h, tx, ty, ox, 0).value;
      CopyColumnDone(b, next, x, y, w, h, tx, ty, ox);
      CopyColumnsCorrect(staged, b, next, x, y, w, h, tx, ty, ox + 1);
    } else {
      CopyDone(b, cur, x, y, w, h, tx, ty);
    }
  }

  /** A block copy is determined by its inputs: two buffers that are both the
      copy of the same block of b are the same buffer. */
  lemma BlockCopyUnique(b: ImageBuffer, r1: ImageBuffer, r2: ImageBuffer, x: nat, y: nat, w: nat, h: nat, tx: nat, ty: nat)
    requires IsBlockCopy(b, r1, x, y, w, h, tx, ty) && IsBlockCopy(b, r2, x, y, w, h, tx, ty)
    ensures r1 == r2
  {
    forall px, py | r1.Contains(px, py)
      ensures r1.At(px, py) == r2.At(px, py)
    {
      assert b.Contains(px, py);
    }
    PixelsDetermine(r1, r2);
  }

  /** On disjoint blocks the in-place loop and the buffered copy agree. */
  lemma DuplicateAgreesWhenDisjoint(b: ImageBuffer, x: nat, y: nat, w: nat, h: nat, tx: nat, ty: nat)
    requires b.Valid() && BlocksInside(b, x, y, w, h, tx, ty) && Disjoint(x, y, w, h, tx, ty)
    ensures Duplicate(b, x, y, w, h, tx, ty) == DuplicateBuffered(b, x, y, w, h, tx, ty)
  {
    BlockCopyUnique(b, Duplicate(b, x, y, w, h, tx, ty).value, DuplicateBuffered(b, x, y, w, h, tx, ty).value,
                    x, y, w, h, tx, ty);
  }

  /** Copying the 2 x 1 block at (0, 0) one pixel to the right in a row of
      three pixels whose first two differ, such as [1, 2, 3]: the loop reads
      pixel 1 after it has already been overwritten with pixel 0, so pixel 2
      ends up with the colour of pixel 0 instead of that of pixel 1 ([1, 1, 1]
      instead of [1, 1, 2]). The buffered copy gets it right. */
  lemma DuplicateOverlapCounterexample(b: ImageBuffer)
    requires b.Valid() && b.width == 3 && b.height == 1 && b.At(0, 0) != b.At(1, 0)
    ensures Duplicate(b, 0, 0, 2, 1, 1, 0).Ok?
    ensures Duplicate(b, 0, 0, 2, 1, 1, 0).value.At(2, 0) == b.At(0, 0)
    ensures !IsBlockCopy(b, Duplicate(b, 0, 0, 2, 1, 1, 0).value, 0, 0, 2, 1, 1, 0)
    ensures DuplicateBuffered(b, 0, 0, 2, 1, 1, 0).value.At(2, 0) == b.At(1, 0)
  {
    var first := b.At(0, 0);
    assert Get(b, 0, 0) == Ok(first);
    ModSmall(1, 3);
    var s1 := Set(b, 1, 0, first).value;
    assert Updated(b, s1, 1, 0, first);
    assert CopyCells(false, b, s1, 0, 0, 1, 1, 0, 0, 1) == Ok(s1);
    assert CopyCells(false, b, b, 0, 0, 1, 1, 0, 0, 0) == Ok(s1);
    assert Get(s1, 1, 0) == Ok(first);
    ModSmall(2, 3);
    var s2 := Set(s1, 2, 0, first).value;
    assert Updated(s1, s2, 2, 0, first);
    assert CopyCells(false, b, s2, 0, 0, 1, 1, 0, 1, 1) == Ok(s2);
    assert CopyCells(false, b, s1, 0, 0, 1, 1, 0, 1, 0) == Ok(s2);
    assert CopyColumns(false, b, s2, 0, 0, 2, 1, 1, 0, 2) == Ok(s2);
    assert CopyColumns(false, b, s1, 0, 0, 2, 1, 1, 0, 1) == Ok(s2);
    assert Duplicate(b, 0, 0, 2, 1, 1, 0) == Ok(s2);
    assert InRect(2, 0, 1, 0, 2, 1);
  }
}
