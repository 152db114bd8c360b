/** The framebuffer update engine: one FramebufferUpdate (section 7.6.1 of
    RFC 6143) dispatched rectangle by rectangle to the renderers, the
    DesktopSize (section 7.8.2) and Cursor (section 7.8.1) pseudo-encodings,
    and the colour map that SetColorMapEntries (section 7.6.2) fills. */
module Framebuffers {
  import opened Bytes
  import opened Outcomes
  import opened Failures
  import opened Encodings
  import opened Streams
  import opened Messages
  import opened ImageBuffers
  import opened Renderers
  import opened Cursors

  /** A renderer the model does not open up (Hextile, ZLib): given the pixel
      decoder, it reads its payload and draws into the frame. */
  type RectRenderer = (PixelDecoder, seq<byte>, ImageBuffer, Rectangle) -> Res<Parsed<ImageBuffer>>

  /** What the session hands the framebuffer: the rectangle-header decoder,
      the pixel decoder built over the current colour map, the Hextile and
      ZLib renderers, and whether a screen listener and a pointer listener
      are configured. */
  datatype Environment = Environment(
    readRectangle: Reader<Rectangle>,
    pixelDecoder: ColorMap -> PixelDecoder,
    hextile: RectRenderer,
    zlib: RectRenderer,
    screenListener: bool,
    pointerListener: bool)
  {
    /** A renderer draws into the buffer it is given and cannot resize it:
        the Java array and its dimensions are final. */
    static ghost predicate KeepsShape(render: RectRenderer)
    {
      forall decode: PixelDecoder, input: seq<byte>, b: ImageBuffer, rect: Rectangle :: b.Valid() && render(decode, input, b, rect).Ok? ==>
        SameShape(b, render(decode, input, b, rect).value.value)
    }

    /** Rectangle headers carry unsigned 16-bit positions and sizes, and
        the opaque renderers keep the frame's shape. */
    ghost predicate Valid()
    {
      && (forall input :: readRectangle(input).Ok? ==> readRectangle(input).value.value.Valid())
      && KeepsShape(hextile)
      && KeepsShape(zlib)
    }
  }

  /** What the framebuffer tells its listeners. */
  datatype Event =
    | CursorChanged(x: nat, y: nat, image: ImageBuffer)  // the pointer listener's `update`
    | Painted(frame: ImageBuffer)                        // the screen listener's `accept`
    | FramebufferUpdated                                 // `session.framebufferUpdated()`

  /** The frame, the session's framebuffer size, and the colour map. */
  datatype Framebuffer = Framebuffer(frame: ImageBuffer, width: nat, height: nat, colorMap: ColorMap)
  {
    /** The session's size is the frame's size. */
    predicate Valid()
    {
      frame.Valid() && frame.width == width && frame.height == height
    }
  }

  /** The framebuffer after some rectangles, the listener calls they made,
      and the rest of the stream. */
  datatype Step = Step(state: Framebuffer, events: seq<Event>, rest: seq<byte>)

  /** The constructor: a non-alpha frame of the session's size, all zero,
      and an empty colour map. */
  function Create(width: nat, height: nat): (r: Res<Framebuffer>)
    requires width <= MAX_DIMENSION && height <= MAX_DIMENSION
    ensures r.Ok? <==> width * height < TWO_31
    ensures r.Ok? ==> r.value.Valid() && r.value.width == width && r.value.height == height
                      && !r.value.frame.alpha && r.value.colorMap == map[]
    ensures r.Ok? ==> forall x, y :: r.value.frame.Contains(x, y) ==> r.value.frame.At(x, y) == 0
  {
    var frame :- New(width, height, false);
    Ok(Framebuffer(frame, width, height, map[]))
  }

  /** `resizeFramebuffer`: the session takes the rectangle's size and the
      frame is replaced by a fresh non-alpha buffer of that size. */
  function Resize(fb: Framebuffer, rect: Rectangle): (r: Res<Framebuffer>)
    requires rect.Valid()
    ensures r.Ok? <==> rect.width * rect.height < TWO_31
    ensures r.Ok? ==> r.value.Valid() && r.value.width == rect.width && r.value.height == rect.height
                      && !r.value.frame.alpha && r.value.colorMap == fb.colorMap
    ensures r.Ok? ==> forall x, y :: r.value.frame.Contains(x, y) ==> r.value.frame.At(x, y) == 0
  {
    var frame :- New(rect.width, rect.height, false);
    Ok(fb.(frame := frame, width := rect.width, height := rect.height))
  }

  /** `updateCursor`: a non-empty cursor is rendered into a fresh alpha
      buffer of its own size and handed to the pointer listener with the
      hotspot; an empty one reads nothing. The frame is never touched. */
  function UpdateCursor(env: Environment, fb: Framebuffer, rect: Rectangle, input: seq<byte>)
    : (r: Res<Parsed<seq<Event>>>)
    requires rect.Valid()
    ensures rect.width == 0 || rect.height == 0 ==> r == Ok(Parsed([], input))
    ensures r.Ok? ==> |r.value.value| <= 1 && (|r.value.value| == 1 <==> env.pointerListener && rect.width > 0 && rect.height > 0)
  {
    if rect.width > 0 && rect.height > 0 then
      var blank :- New(rect.width, rect.height, true);
      var image :- RenderCursor(env.pixelDecoder(fb.colorMap), input, blank, rect);
      Ok(Parsed(if env.pointerListener then [CursorChanged(rect.x, rect.y, image.value)] else [], image.rest))
    else Ok(Parsed([], input))
  }

  /** The renderer registered for an encoding draws the rectangle into the
      frame; an encoding with none registered dereferences null. */
  function Render(env: Environment, fb: Framebuffer, rect: Rectangle, input: seq<byte>): (r: Res<Parsed<ImageBuffer>>)
    requires env.Valid() && fb.Valid() && rect.Valid()
    ensures r.Ok? ==> SameShape(fb.frame, r.value.value)
    ensures rect.encoding !in {Raw, CopyRect, Rre, Hextile, ZLib} ==> r == Err(NoRenderer(rect.encoding))
  {
    var decode := env.pixelDecoder(fb.colorMap);
    match rect.encoding
    case Raw => RenderRaw(decode, input, fb.frame, rect.x, rect.y, rect.width, rect.height)
    case CopyRect => RenderCopyRect(input, fb.frame, rect)
    case Rre => RenderRre(decode, input, fb.frame, rect)
    case Hextile => env.hextile(decode, input, fb.frame, rect)
    case ZLib => env.zlib(decode, input, fb.frame, rect)
    case _ => Err(NoRenderer(rect.encoding))
  }

  /** One pass of the `processUpdate` loop: decode a rectangle header and
      act on its encoding. */
  function ProcessRectangle(env: Environment, fb: Framebuffer, input: seq<byte>): (r: Res<Step>)
    requires env.Valid() && fb.Valid()
    ensures r.Ok? ==> r.value.state.Valid() && r.value.state.colorMap == fb.colorMap
    ensures r.Ok? ==> forall i :: 0 <= i < |r.value.events| ==> r.value.events[i].CursorChanged?
    ensures r.Ok? ==> env.readRectangle(input).Ok?
    ensures r.Ok? && env.readRectangle(input).value.value.encoding != DesktopSize ==>
              SameShape(fb.frame, r.value.state.frame) && r.value.state.width == fb.width && r.value.state.height == fb.height
  {
    var header :- env.readRectangle(input);
    var rect := header.value;
    if rect.encoding == DesktopSize then
      var resized :- Resize(fb, rect);
      Ok(Step(resized, [], header.rest))
    else if rect.encoding == Cursor then
      var cursor :- UpdateCursor(env, fb, rect, header.rest);
      Ok(Step(fb, cursor.value, cursor.rest))
    else
      var drawn :- Render(env, fb, rect, header.rest);
      Ok(Step(fb.(frame := drawn.value), [], drawn.rest))
  }

  /** The `processUpdate` loop from the middle: k more rectangles, in
      stream order, each acting on the framebuffer the previous one left. */
  function ProcessRectangles(env: Environment, fb: Framebuffer, input: seq<byte>, k: nat): (r: Res<Step>)
    requires env.Valid() && fb.Valid()
    ensures r.Ok? ==> r.value.state.Valid() && r.value.state.colorMap == fb.colorMap
    ensures r.Ok? ==> forall i :: 0 <= i < |r.value.events| ==> r.value.events[i].CursorChanged?
    decreases k
  {
    if k == 0 then Ok(Step(fb, [], input))
    else
      var first :- ProcessRectangle(env, fb, input);
      var others :- ProcessRectangles(env, first.state, first.rest, k - 1);
      Ok(Step(others.state, first.events + others.events, others.rest))
  }

  /** The events that close an update: the frame to the screen listener,
      if there is one, then the session's update signal. */
  function Publish(env: Environment, frame: ImageBuffer): seq<Event>
  {
    (if env.screenListener then [Painted(frame)] else []) + [FramebufferUpdated]
  }

  /** `processUpdate`: all of the update's rectangles, then the frame is
      published and the update signalled, exactly once and last. */
  function ProcessUpdate(env: Environment, fb: Framebuffer, numberOfRectangles: int, input: seq<byte>): (r: Res<Step>)
    requires env.Valid() && fb.Valid()
    ensures r.Ok? ==> r.value.state.Valid() && r.value.state.colorMap == fb.colorMap
    ensures r.Ok? ==> ProcessRectangles(env, fb, input, LoopCount(numberOfRectangles)).Ok?
    ensures r.Err? <==> ProcessRectangles(env, fb, input, LoopCount(numberOfRectangles)).Err?
    ensures r.Ok? ==>
      var ev := r.value.events;
      && |ev| >= 1 && ev[|ev| - 1] == FramebufferUpdated
      && (forall i :: 0 <= i < |ev| - 1 ==> ev[i] != FramebufferUpdated)
      && (forall i :: 0 <= i < |ev| && ev[i].Painted? ==> i == |ev| - 2 && ev[i].frame == r.value.state.frame)
      && (env.screenListener <==> |ev| >= 2 && ev[|ev| - 2].Painted?)
    ensures r.Ok? ==>
      var all := ProcessRectangles(env, fb, input, LoopCount(numberOfRectangles)).value;
      && r.value.state == all.state && r.value.rest == all.rest
      && r.value.events == all.events + Publish(env, all.state.frame)
    ensures numberOfRectangles <= 0 ==> r == Ok(Step(fb, Publish(env, fb.frame), input))
  {
    var all :- ProcessRectangles(env, fb, input, LoopCount(numberOfRectangles));
    assert [] + Publish(env, fb.frame) == Publish(env, fb.frame);
    Ok(Step(all.state, all.events + Publish(env, all.state.frame), all.rest))
  }

  /** An update of a + b rectangles processes the first a, then b more from
      where those left the framebuffer and the stream, and only then
      publishes: the rectangles are taken in stream order. */
  lemma UpdateInStreamOrder(env: Environment, fb: Framebuffer, input: seq<byte>, a: nat, b: nat)
    requires env.Valid() && fb.Valid()
    ensures var r := ProcessUpdate(env, fb, a + b, input);
      var split := Continue(env, ProcessRectangles(env, fb, input, a), b);
      && (r.Ok? <==> split.Ok?)
      && (r.Ok? ==>
            && r.value.state == split.value.state && r.value.rest == split.value.rest
            && r.value.events == split.value.events + Publish(env, split.value.state.frame))
  {
    ProcessRectanglesSplit(env, fb, input, a, b);
  }

  /** b more rectangles after the steps so far, failing if those failed,
      the events of both in order. */
  function Continue(env: Environment, before: Res<Step>, b: nat): Res<Step>
    requires env.Valid() && (before.Ok? ==> before.value.state.Valid())
  {
    match before
    case Err(e) => Err(e)
    case Ok(s) =>
      match ProcessRectangles(env, s.state, s.rest, b)
      case Err(e) => Err(e)
      case Ok(t) => Ok(Step(t.state, s.events + t.events, t.rest))
  }

  /** Rectangles a + b are the first a and then b more from where they
      stopped: the update is processed in stream order, one rectangle
      after the other. */
  lemma {:induction false} ProcessRectanglesSplit(env: Environment, fb: Framebuffer, input: seq<byte>, a: nat, b: nat)
    requires env.Valid() && fb.Valid()
    ensures ProcessRectangles(env, fb, input, a + b) == Continue(env, ProcessRectangles(env, fb, input, a), b)
    decreases a
  {
    if a > 0 {
      match ProcessRectangle(env, fb, input)
      case Err(_) =>
      case Ok(first) =>
        ProcessRectanglesSplit(env, first.state, first.rest, a - 1, b);
        SplitStep(env, fb, input, a, b, first);
    } else {
      match ProcessRectangles(env, fb, input, b)
      case Err(_) =>
      case Ok(t) =>
        assert [] + t.events == t.events;
    }
  }

  /** A rectangle's events ahead of what follows it. */
  function Prepend(first: Step, after: Res<Step>): (r: Res<Step>)
    ensures r.Ok? <==> after.Ok?
    ensures r.Ok? ==> r.value.state == after.value.state && r.value.rest == after.value.rest
  {
    match after
    case Err(e) => Err(e)
    case Ok(o) => Ok(Step(o.state, first.events + o.events, o.rest))
  }

  /** k > 0 rectangles are the first and then k - 1 more. */
  lemma ProcessRectanglesCons(env: Environment, fb: Framebuffer, input: seq<byte>, k: nat, first: Step)
    requires env.Valid() && fb.Valid() && k > 0
    requires ProcessRectangle(env, fb, input) == Ok(first) && first.state.Valid()
    ensures ProcessRectangles(env, fb, input, k) == Prepend(first, ProcessRectangles(env, first.state, first.rest, k - 1))
  {
  }

  /** Prepending a rectangle's events commutes with continuing. */
  lemma PrependContinue(env: Environment, first: Step, before: Res<Step>, b: nat)
    requires env.Valid() && (before.Ok? ==> before.value.state.Valid())
    ensures Prepend(first, Continue(env, before, b)) == Continue(env, Prepend(first, before), b)
  {
    match before
    case Err(_) =>
    case Ok(s) =>
      match ProcessRectangles(env, s.state, s.rest, b)
      case Err(_) =>
      case Ok(t) =>
        assert first.events + (s.events + t.events) == (first.events + s.events) + t.events;
  }

  /** The step of the split: one rectangle, then the split of the rest. */
  lemma SplitStep(env: Environment, fb: Framebuffer, input: seq<byte>, a: nat, b: nat, first: Step)
    requires env.Valid() && fb.Valid() && a > 0
    requires ProcessRectangle(env, fb, input) == Ok(first) && first.state.Valid()
    requires ProcessRectangles(env, first.state, first.rest, a - 1 + b)
             == Continue(env, ProcessRectangles(env, first.state, first.rest, a - 1), b)
    ensures ProcessRectangles(env, fb, input, a + b) == Continue(env, ProcessRectangles(env, fb, input, a), b)
  {
    ProcessRectanglesCons(env, fb, input, a + b, first);
    ProcessRectanglesCons(env, fb, input, a, first);
    assert a + b - 1 == a - 1 + b;
    PrependContinue(env, first, ProcessRectangles(env, first.state, first.rest, a - 1), b);
  }

  /** A DesktopSize rectangle gives the session its size and a fresh, all
      zero, non-alpha frame of that size; nothing else is read and no
      listener is called. */
  lemma DesktopSizeReplacesFrame(env: Environment, fb: Framebuffer, input: seq<byte>, rect: Rectangle, rest: seq<byte>)
    requires env.Valid() && fb.Valid()
    requires env.readRectangle(input) == Ok(Parsed(rect, rest)) && rect.encoding == DesktopSize
    ensures var r := ProcessRectangle(env, fb, input);
      if rect.width * rect.height < TWO_31 then
        && r.Ok? && r.value.rest == rest && r.value.events == []
        && r.value.state.width == rect.width && r.value.state.height == rect.height
        && r.value.state.frame.width == rect.width && r.value.state.frame.height == rect.height
        && !r.value.state.frame.alpha
        && forall x, y :: r.value.state.frame.Contains(x, y) ==> r.value.state.frame.At(x, y) == 0
      else r == Err(NegativeArraySize)
  {
    assert rect.Valid();
  }

  /** A Cursor rectangle leaves the framebuffer as it was. A non-empty one
      hands the pointer listener the cursor image, drawn over a blank alpha
      buffer of the cursor's size, with the hotspot; an empty one reads
      nothing more and calls no listener. */
  lemma CursorLeavesFrame(env: Environment, fb: Framebuffer, input: seq<byte>, rect: Rectangle, rest: seq<byte>)
    requires env.Valid() && fb.Valid()
    requires env.readRectangle(input) == Ok(Parsed(rect, rest)) && rect.encoding == Cursor
    ensures var r := ProcessRectangle(env, fb, input);
      && (r.Ok? ==> r.value.state == fb)
      && (rect.width == 0 || rect.height == 0 ==> r == Ok(Step(fb, [], rest)))
      && (rect.width > 0 && rect.height > 0 && r.Ok? && env.pointerListener ==>
            var blank := New(rect.width, rect.height, true).value;
            var image := RenderCursor(env.pixelDecoder(fb.colorMap), rest, blank, rect);
            image.Ok? && r.value.events == [CursorChanged(rect.x, rect.y, image.value.value)]
            && r.value.rest == image.value.rest)
  {
    assert rect.Valid();
  }

  /** A rectangle whose encoding has no renderer registered fails, naming
      the encoding. */
  lemma UnregisteredEncodingFails(env: Environment, fb: Framebuffer, input: seq<byte>, rect: Rectangle, rest: seq<byte>)
    requires env.Valid() && fb.Valid()
    requires env.readRectangle(input) == Ok(Parsed(rect, rest))
    requires rect.encoding !in {Raw, CopyRect, Rre, Hextile, ZLib, DesktopSize, Cursor}
    ensures ProcessRectangle(env, fb, input) == Err(NoRenderer(rect.encoding))
  {
    assert rect.Valid();
  }

  /** A Raw rectangle inside the frame is drawn there by the Raw renderer
      from the pixels decoded over the current colour map; everything else
      stays as it was. */
  lemma RawRectangleDrawn(env: Environment, fb: Framebuffer, input: seq<byte>, rect: Rectangle, rest: seq<byte>)
    requires env.Valid() && fb.Valid()
    requires env.readRectangle(input) == Ok(Parsed(rect, rest)) && rect.encoding == Raw
    requires ContainsRect(fb.frame, rect.x, rect.y, rect.width, rect.height)
    ensures var r := ProcessRectangle(env, fb, input);
      match ReadMany(env.pixelDecoder(fb.colorMap), rest, rect.width * rect.height)
      case Err(e) => r == Err(e)
      case Ok(p) => r.Ok? && r.value.events == [] && r.value.rest == p.rest
                    && Placed(fb.frame, r.value.state.frame, rect.x, rect.y, rect.width, rect.height, p.value)
  {
    assert rect.Valid();
    RenderedRectangle(env, fb, input, rect, rest);
    var drawn := RenderRaw(env.pixelDecoder(fb.colorMap), rest, fb.frame, rect.x, rect.y, rect.width, rect.height);
    assert Render(env, fb, rect, rest) == drawn;
    if rect.width > 0 && rect.height > 0 {
      BlockSmall(fb.frame, rect.x, rect.y, rect.width, rect.height);
    }
  }

  /** A rectangle that is neither DesktopSize nor Cursor is whatever its
      renderer makes of the frame, and calls no listener. */
  lemma RenderedRectangle(env: Environment, fb: Framebuffer, input: seq<byte>, rect: Rectangle, rest: seq<byte>)
    requires env.Valid() && fb.Valid()
    requires env.readRectangle(input) == Ok(Parsed(rect, rest)) && rect.encoding != DesktopSize && rect.encoding != Cursor
    ensures rect.Valid()
    ensures ProcessRectangle(env, fb, input) ==
      match Render(env, fb, rect, rest)
      case Err(e) => Err(e)
      case Ok(d) => Ok(Step(fb.(frame := d.value), [], d.rest))
  {
  }

  /** `updateColorMap` from the i-th colour on: colour i goes to index
      firstColor + i, replacing whatever was there. */
  function StoreColors(m: ColorMap, firstColor: nat, colors: seq<ColorMapEntry>, i: nat): (r: ColorMap)
    requires i <= |colors|
    ensures forall k :: k in r <==> k in m || firstColor + i <= k < firstColor + |colors|
    ensures forall k :: k in r ==> r[k] == if firstColor + i <= k < firstColor + |colors| then colors[k - firstColor] else m[k]
    decreases |colors| - i
  {
    if i == |colors| then m
    else StoreColors(m[firstColor + i := colors[i]], firstColor, colors, i + 1)
  }

  /** `updateColorMap`: the entries of a SetColorMapEntries message stored
      at consecutive indices from its first colour. */
  function UpdateColorMap(fb: Framebuffer, update: SetColorMapEntries): (r: Framebuffer)
    ensures r.frame == fb.frame && r.width == fb.width && r.height == fb.height
    ensures forall k :: k in r.colorMap <==>
      k in fb.colorMap || update.firstColor <= k < update.firstColor + |update.colors|
    ensures forall k :: k in r.colorMap ==>
      r.colorMap[k] == if update.firstColor <= k < update.firstColor + |update.colors|
                       then update.colors[k - update.firstColor] else fb.colorMap[k]
  {
    fb.(colorMap := StoreColors(fb.colorMap, update.firstColor, update.colors, 0))
  }

  /** Two colour-map updates naming disjoint index ranges can be applied in
      either order: neither overwrites an entry of the other. */
  lemma ColorMapUpdatesCommute(fb: Framebuffer, u: SetColorMapEntries, v: SetColorMapEntries)
    requires u.firstColor + |u.colors| <= v.firstColor || v.firstColor + |v.colors| <= u.firstColor
    ensures UpdateColorMap(UpdateColorMap(fb, u), v) == UpdateColorMap(UpdateColorMap(fb, v), u)
  {
  }

  /** Applying the same colour-map update twice is applying it once. */
  lemma ColorMapUpdateIdempotent(fb: Framebuffer, update: SetColorMapEntries)
    ensures UpdateColorMap(UpdateColorMap(fb, update), update) == UpdateColorMap(fb, update)
  {
    var once := UpdateColorMap(fb, update).colorMap;
    var twice := UpdateColorMap(UpdateColorMap(fb, update), update).colorMap;
    assert once.Keys == twice.Keys;
    assert forall k :: k in once ==> once[k] == twice[k];
  }
}
