/** The protocol messages and records the core reads or writes, reduced to
    the fields the core uses. Their wire decoders are not part of this model;
    where the core reads one, the reader is a parameter. */
module Messages {
  import opened Encodings

  /** A rectangle header of a FramebufferUpdate (section 7.6.1 of RFC 6143):
      position and size are unsigned 16-bit fields. */
  datatype Rectangle = Rectangle(x: nat, y: nat, width: nat, height: nat, encoding: Encoding)
  {
    predicate Valid() {
      x < 0x1_0000 && y < 0x1_0000 && width < 0x1_0000 && height < 0x1_0000
    }
  }

  /** One colour of a SetColorMapEntries message (section 7.6.2 of RFC 6143). */
  datatype ColorMapEntry = ColorMapEntry(red: nat, green: nat, blue: nat)

  /** The client's colour map: index to colour. */
  type ColorMap = map<int, ColorMapEntry>

  /** SetColorMapEntries: colours for consecutive indices from firstColor. */
  datatype SetColorMapEntries = SetColorMapEntries(firstColor: nat, colors: seq<ColorMapEntry>)

  /** The PIXEL_FORMAT record (section 7.4 of RFC 6143). */
  datatype PixelFormat = PixelFormat(
    bitsPerPixel: nat,
    depth: nat,
    bigEndian: bool,
    trueColor: bool,
    redMax: nat,
    greenMax: nat,
    blueMax: nat,
    redShift: nat,
    greenShift: nat,
    blueShift: nat)

  /** A configured colour depth: every pixel-format field but the byte order. */
  datatype ColorDepth = ColorDepth(
    bitsPerPixel: nat,
    depth: nat,
    trueColor: bool,
    redMax: nat,
    greenMax: nat,
    blueMax: nat,
    redShift: nat,
    greenShift: nat,
    blueShift: nat)

  /** The ServerInit fields the client keeps (section 7.3.2 of RFC 6143). */
  datatype ServerInit = ServerInit(framebufferWidth: nat, framebufferHeight: nat, pixelFormat: PixelFormat, name: string)

  /** The protocol version agreed in the ProtocolVersion handshake (section
      7.1.1 of RFC 6143). */
  datatype ProtocolVersion = ProtocolVersion(major: nat, minor: nat)
  {
    /** `equals(3, 3)`: the version without a security-type list. */
    predicate Is33() {
      major == 3 && minor == 3
    }
  }
}
