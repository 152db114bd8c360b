/** Client initialisation (sections 7.3.1, 7.3.2, 7.5.1 and 7.5.2 of RFC
    6143): ClientInit, the server's ServerInit, then the client's pixel
    format and the encodings it accepts. */
module Initializer {
  import opened Bytes
  import opened Outcomes
  import opened Failures
  import opened Encodings
  import opened Streams
  import opened Messages

  /** The settings initialisation consults. */
  datatype Config = Config(
    shared: bool,
    colorDepth: ColorDepth,
    enableZLib: bool,
    enableHextile: bool,
    enableRre: bool,
    enableCopyRect: bool,
    enableExtendedClipboard: bool,
    useLocalMousePointer: bool)

  /** The messages the client writes during initialisation. */
  datatype ClientMessage =
    | ClientInit(shared: bool)
    | SetPixelFormat(format: PixelFormat)
    | SetEncodings(encodings: seq<Encoding>)

  /** What initialisation leaves in the session, and what it wrote. */
  datatype Initialised = Initialised(
    serverInit: ServerInit,
    framebufferWidth: nat,
    framebufferHeight: nat,
    pixelFormat: PixelFormat,
    sent: seq<ClientMessage>)

  /** Whether the configuration asks for an encoding: Raw and DesktopSize
      always, the others by their own switch, and nothing else. */
  predicate Requested(config: Config, e: Encoding)
  {
    match e
    case ZLib => config.enableZLib
    case Hextile => config.enableHextile
    case Rre => config.enableRre
    case CopyRect => config.enableCopyRect
    case ExtendedClipboard => config.enableExtendedClipboard
    case Raw => true
    case DesktopSize => true
    case Cursor => config.useLocalMousePointer
    case Unlisted(_) => false
  }

  /** Where an encoding goes in the list, relative to the others. */
  function Slot(e: Encoding): nat
  {
    match e
    case ZLib => 0
    case Hextile => 1
    case Rre => 2
    case CopyRect => 3
    case ExtendedClipboard => 4
    case Raw => 5
    case DesktopSize => 6
    case Cursor => 7
    case Unlisted(_) => 8
  }

  /** How many of the six switches are on. */
  function SwitchesOn(config: Config): nat
  {
    (if config.enableZLib then 1 else 0) + (if config.enableHextile then 1 else 0)
    + (if config.enableRre then 1 else 0) + (if config.enableCopyRect then 1 else 0)
    + (if config.enableExtendedClipboard then 1 else 0) + (if config.useLocalMousePointer then 1 else 0)
  }

  /** Strictly increasing slots: each encoding at most once, in slot order. */
  predicate SlotOrdered(s: seq<Encoding>)
  {
    forall i, j :: 0 <= i < j < |s| ==> Slot(s[i]) < Slot(s[j])
  }

  /** The appends of `initialise`, in program order: each encoding with the
      switch that guards it. */
  function Candidates(config: Config): (c: seq<(bool, Encoding)>)
    ensures |c| == 8
    ensures forall i :: 0 <= i < |c| ==> Slot(c[i].1) == i && c[i].0 == Requested(config, c[i].1)
  {
    [(config.enableZLib, ZLib),
     (config.enableHextile, Hextile),
     (config.enableRre, Rre),
     (config.enableCopyRect, CopyRect),
     (config.enableExtendedClipboard, ExtendedClipboard),
     (true, Raw),
     (true, DesktopSize),
     (config.useLocalMousePointer, Cursor)]
  }

  /** The encodings of the candidates whose switch is on, in order. */
  function Kept(c: seq<(bool, Encoding)>): (r: seq<Encoding>)
    ensures |r| <= |c|
  {
    if |c| == 0 then []
    else (if c[0].0 then [c[0].1] else []) + Kept(c[1..])
  }

  /** The SetEncodings list: the switched-on encodings in a fixed order,
      Raw and DesktopSize unconditionally, and Cursor last. */
  function EncodingList(config: Config): (r: seq<Encoding>)
    ensures |r| <= 8
  {
    Kept(Candidates(config))
  }

  /** An encoding is kept exactly when some candidate carrying it is on. */
  lemma {:induction false} KeptMembers(c: seq<(bool, Encoding)>, e: Encoding)
    ensures e in Kept(c) <==> exists i :: 0 <= i < |c| && c[i].0 && c[i].1 == e
    decreases |c|
  {
    if |c| > 0 {
      KeptMembers(c[1..], e);
      if exists i :: 0 <= i < |c[1..]| && c[1..][i].0 && c[1..][i].1 == e {
        var i :| 0 <= i < |c[1..]| && c[1..][i].0 && c[1..][i].1 == e;
        assert c[i + 1] == c[1..][i];
      }
      if exists i :: 0 <= i < |c| && c[i].0 && c[i].1 == e {
        var i :| 0 <= i < |c| && c[i].0 && c[i].1 == e;
        if i > 0 {
          assert c[1..][i - 1] == c[i];
        }
      }
    }
  }

  /** Candidates whose slots strictly increase. */
  predicate Increasing(c: seq<(bool, Encoding)>)
  {
    forall i, j :: 0 <= i < j < |c| ==> Slot(c[i].1) < Slot(c[j].1)
  }

  /** Whatever is kept comes from a candidate, so it is bounded below by
      any bound on the candidates' slots. */
  lemma {:induction false} KeptAbove(c: seq<(bool, Encoding)>, n: nat)
    requires forall i :: 0 <= i < |c| ==> n <= Slot(c[i].1)
    ensures forall k :: 0 <= k < |Kept(c)| ==> n <= Slot(Kept(c)[k])
    decreases |c|
  {
    if |c| > 0 {
      assert forall i :: 0 <= i < |c[1..]| ==> c[1..][i] == c[i + 1];
      KeptAbove(c[1..], n);
    }
  }

  /** Candidates in increasing slot order are kept in slot order. */
  lemma {:induction false} KeptOrdered(c: seq<(bool, Encoding)>)
    requires Increasing(c)
    ensures SlotOrdered(Kept(c))
    decreases |c|
  {
    if |c| > 0 {
      var tail := c[1..];
      assert forall i :: 0 <= i < |tail| ==> tail[i] == c[i + 1];
      KeptOrdered(tail);
      KeptAbove(tail, Slot(c[0].1) + 1);
      var head := if c[0].0 then [c[0].1] else [];
      var r := Kept(c);
      assert r == head + Kept(tail);
      forall i, j | 0 <= i < j < |r| ensures Slot(r[i]) < Slot(r[j]) {
        assert r[j] == Kept(tail)[j - |head|];
        if i >= |head| {
          assert r[i] == Kept(tail)[i - |head|];
        }
      }
    }
  }

  /** How many candidates are switched on. */
  function OnCount(c: seq<(bool, Encoding)>): nat
  {
    if |c| == 0 then 0 else (if c[0].0 then 1 else 0) + OnCount(c[1..])
  }

  /** One encoding is kept per candidate that is on. */
  lemma {:induction false} KeptLength(c: seq<(bool, Encoding)>)
    ensures |Kept(c)| == OnCount(c)
    decreases |c|
  {
    if |c| > 0 {
      KeptLength(c[1..]);
    }
  }

  /** An encoding is in the list exactly when it is requested; Raw and
      DesktopSize always are. */
  lemma EncodingListMembers(config: Config, e: Encoding)
    ensures e in EncodingList(config) <==> Requested(config, e)
  {
    var c := Candidates(config);
    KeptMembers(c, e);
    if Requested(config, e) {
      assert c[Slot(e)].1 == e;
    }
  }

  /** The list is in slot order, so no encoding is offered twice. */
  lemma EncodingListOrdered(config: Config)
    ensures SlotOrdered(EncodingList(config))
  {
    var c := Candidates(config);
    assert Increasing(c);
    KeptOrdered(c);
  }

  /** One encoding per switch that is on, plus Raw and DesktopSize. */
  lemma {:induction false} EncodingListLength(config: Config)
    ensures |EncodingList(config)| == 2 + SwitchesOn(config)
  {
    var c := Candidates(config);
    KeptLength(c);
    assert OnCount(c[7..]) == (if config.useLocalMousePointer then 1 else 0) by {
      assert c[7..][1..] == [];
    }
    assert OnCount(c[6..]) == 1 + OnCount(c[7..]) by { assert c[6..][1..] == c[7..]; }
    assert OnCount(c[5..]) == 1 + OnCount(c[6..]) by { assert c[5..][1..] == c[6..]; }
    assert OnCount(c[4..]) == (if config.enableExtendedClipboard then 1 else 0) + OnCount(c[5..]) by { assert c[4..][1..] == c[5..]; }
    assert OnCount(c[3..]) == (if config.enableCopyRect then 1 else 0) + OnCount(c[4..]) by { assert c[3..][1..] == c[4..]; }
    assert OnCount(c[2..]) == (if config.enableRre then 1 else 0) + OnCount(c[3..]) by { assert c[2..][1..] == c[3..]; }
    assert OnCount(c[1..]) == (if config.enableHextile then 1 else 0) + OnCount(c[2..]) by { assert c[1..][1..] == c[2..]; }
  }

  /** The pixel format asked for: the configured colour depth, big-endian. */
  function PixelFormatFor(depth: ColorDepth): (r: PixelFormat)
    ensures r.bigEndian
  {
    PixelFormat(depth.bitsPerPixel, depth.depth, true, depth.trueColor,
                depth.redMax, depth.greenMax, depth.blueMax,
                depth.redShift, depth.greenShift, depth.blueShift)
  }

  /** The colour depth a pixel format describes, byte order aside. */
  function DepthOf(format: PixelFormat): ColorDepth
  {
    ColorDepth(format.bitsPerPixel, format.depth, format.trueColor,
               format.redMax, format.greenMax, format.blueMax,
               format.redShift, format.greenShift, format.blueShift)
  }

  /** `initialise`: ClientInit is written, ServerInit read (its decoder is
      not part of this model and comes in as a reader), then SetPixelFormat
      and SetEncodings are written; the session keeps the server's size and
      the pixel format it asked for. */
  function Initialise(config: Config, readServerInit: Reader<ServerInit>, input: seq<byte>): (r: Res<Parsed<Initialised>>)
    ensures r.Ok? <==> readServerInit(input).Ok?
    ensures r.Ok? ==>
      var s := r.value.value;
      var init := readServerInit(input).value;
      && s.serverInit == init.value && r.value.rest == init.rest
      && s.framebufferWidth == init.value.framebufferWidth
      && s.framebufferHeight == init.value.framebufferHeight
      && s.pixelFormat.bigEndian && DepthOf(s.pixelFormat) == config.colorDepth
      && |s.sent| == 3
      && s.sent[0] == ClientInit(config.shared)
      && s.sent[1] == SetPixelFormat(s.pixelFormat)
      && s.sent[2] == SetEncodings(EncodingList(config))
  {
    var serverInit :- readServerInit(input);
    var format := PixelFormatFor(config.colorDepth);
    var sent := [ClientInit(config.shared), SetPixelFormat(format), SetEncodings(EncodingList(config))];
    Ok(Parsed(Initialised(serverInit.value, serverInit.value.framebufferWidth, serverInit.value.framebufferHeight, format, sent),
              serverInit.rest))
  }

  /** The pixel format carries the configured depth unchanged, and only the
      byte order is fixed: a big-endian format is rebuilt from its depth. */
  lemma PixelFormatRoundTrip(depth: ColorDepth, format: PixelFormat)
    ensures DepthOf(PixelFormatFor(depth)) == depth
    ensures format.bigEndian ==> PixelFormatFor(DepthOf(format)) == format
  {
  }

  /** The list is determined by what is requested: any list holding exactly
      the requested encodings in slot order is it. */
  lemma {:induction false} EncodingListUnique(config: Config, other: seq<Encoding>)
    requires forall e :: e in other <==> Requested(config, e)
    requires SlotOrdered(other)
    ensures other == EncodingList(config)
  {
    EncodingListOrdered(config);
    forall e ensures e in other <==> e in EncodingList(config)
    {
      EncodingListMembers(config, e);
    }
    SlotOrderedUnique(other, EncodingList(config));
  }

  /** Two slot-ordered lists with the same members are equal. */
  lemma {:induction false} SlotOrderedUnique(a: seq<Encoding>, b: seq<Encoding>)
    requires forall e :: e in a <==> e in b
    requires SlotOrdered(a) && SlotOrdered(b)
    ensures a == b
    decreases |a|
  {
    SameHead(a, b);
    if |a| > 0 {
      TailMembers(a);
      TailMembers(b);
      assert SlotOrdered(a[1..]) && SlotOrdered(b[1..]);
      SlotOrderedUnique(a[1..], b[1..]);
      assert a == [a[0]] + a[1..];
      assert b == [b[0]] + b[1..];
    }
  }

  /** Slot-ordered lists with the same members start alike: each head is
      the member of least slot. */
  lemma SameHead(a: seq<Encoding>, b: seq<Encoding>)
    requires forall e :: e in a <==> e in b
    requires SlotOrdered(a) && SlotOrdered(b)
    ensures |a| > 0 <==> |b| > 0
    ensures |a| > 0 ==> a[0] == b[0]
  {
    assert |a| > 0 ==> a[0] in b;
    assert |b| > 0 ==> b[0] in a;
    if |a| > 0 {
      var j :| 0 <= j < |b| && b[j] == a[0];
      var i :| 0 <= i < |a| && a[i] == b[0];
      assert Slot(a[0]) <= Slot(a[i]);
      assert Slot(b[0]) <= Slot(b[j]);
      assert j == 0;
    }
  }

  /** The tail of a slot-ordered list is ordered and holds all but the
      head. */
  lemma TailMembers(a: seq<Encoding>)
    requires SlotOrdered(a) && |a| > 0
    ensures forall e :: e in a[1..] <==> e in a && e != a[0]
  {
    forall e ensures e in a[1..] <==> e in a && e != a[0] {
      if e in a[1..] {
        var k :| 0 <= k < |a[1..]| && a[1..][k] == e;
        assert a[k + 1] == e;
      }
      if e in a && e != a[0] {
        var m :| 0 <= m < |a| && a[m] == e;
        assert a[1..][m - 1] == e;
      }
    }
  }
}
