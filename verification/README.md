# vernacular-vnc client core in Dafny

This project models the sequential core of the vernacular-vnc RFB (VNC,
RFC 6143) client and proves properties of the model. It covers three parts.

- **Framebuffer update engine.**
  - `ImageBuffer` is a width × height row-major array of `int` pixels.
  - Four renderers draw into it: Raw (section 7.7.1 of RFC 6143), CopyRect
    (7.7.2), RRE (7.7.3) and the Cursor pseudo-encoding (7.8.1).
  - `Framebuffer.processUpdate` handles one FramebufferUpdate (7.6.1),
    including DesktopSize (7.8.2). `updateColorMap` applies
    SetColorMapEntries (7.6.2).
- **Handshake policy.**
  - The closed `SecurityType` catalog.
  - The security-type preference of `SecurityTypeNegotiator` (7.1.2).
  - The `Initializer` sequence ClientInit, SetPixelFormat, SetEncodings
    (7.3.1, 7.5.1, 7.5.2).
- **RSA-AES (RA2) security type.**
  - The client side of the handshake in `RsaAesAuthenticationHandler`.
  - The AES-EAX frame layer in `AesEaxInputStream` / `AesEaxOutputStream`.
  - The byte reader `Decoder.ra2` over decrypted frames.

Java's mutation is modelled as pure functions.

- A call that changes a buffer returns the new buffer.
- A stream is the sequence of bytes still unread. A reader returns what it
  read together with the rest (`Parsed`).
- An exception becomes `Err` with a variant naming it (`failures.dfy`).
- Listener callbacks become events in a returned list.
- Java's 32-bit `int` is written out where it matters:
  - `flatIndex` overflows in `AddInt32`;
  - a `new int[w * h]` of negative size fails;
  - a loop bound of `w * h` can wrap negative.

Cryptography, randomness and the pixel decoder are parameters: fields of
type function in `Aead`, `Crypto` and `Environment`. What the model relies
on from them is a `Valid()` predicate taken as a precondition:

- `Aead.Valid`: opening what was sealed, under the same key, nonce and
  associated data, gives the plaintext back.
- `Aead.NoncesAgree`: the input stream and the output stream turn the same
  counter into the same 16 nonce bytes (see "## Left out").
- `Crypto.Valid`: `bigIntToBytes` returns the size asked for.
- `Environment.Valid`: the renderers the environment supplies keep the
  buffer's shape, and the rectangle reader returns headers with unsigned
  16-bit position and size (`Messages.Rectangle.Valid`).

Module layout, following the Java packages:

| file | module | Java counterpart |
|---|---|---|
| outcomes.dfy | Outcomes | `Res` / `Option` results |
| failures.dfy | Failures | the exception classes, as error variants |
| bytes.dfy | Bytes | big-endian fields, Java `int` / `short` / `byte` wrap-around |
| streams.dfy | Streams | `DataInputStream.readFully` / `readUnsignedShort` / `readShort` / `readInt` |
| encodings.dfy | Encodings | `Encoding` |
| messages.dfy | Messages | `Rectangle`, `PixelFormat`, `ColorDepth`, `ServerInit`, client messages |
| security_types.dfy | SecurityTypes | `SecurityType` |
| negotiator.dfy | Negotiator | `SecurityTypeNegotiator` |
| initializer.dfy | Initializer | `Initializer` |
| image_buffer.dfy | ImageBuffers | `ImageBuffer` except `duplicate` |
| block_copy.dfy | BlockCopy | `ImageBuffer.duplicate` |
| renderers.dfy | Renderers | `RawRenderer`, `CopyRectRenderer`, `RRERenderer` |
| cursor.dfy | Cursors | `CursorRenderer` |
| framebuffer.dfy | Framebuffers | `Framebuffer` |
| aes_eax.dfy | AesEax | `AesEaxOutputStream.write`, `AesEaxInputStream.read` |
| decoder.dfy | Decoders | `Decoder.raw`, `Decoder.ra2` |
| rsa_aes.dfy | RsaAes | `RsaAesAuthenticationHandler` |

Where the protocol description and the code differ, the model follows the
code.

- The one-byte authentication request is written when the protocol version
  is not 3.3 (`RsaAesAuthenticationHandler.java:73-75`). This matches section
  7.1.2 of RFC 6143: from 3.7 on the client sends the type it chose, while on
  3.3 the server has already decided the type.
- `SecurityResult.decode` is called on the raw input stream
  (`RsaAesAuthenticationHandler.java:90`), not the encrypted one.
  `RsaAes.Authenticate` therefore hands back the raw bytes after the last
  encrypted frame.
- The credentials always carry a zero-length username, whichever subtype the
  server chose (`RsaAesAuthenticationHandler.java:265`).
- The RA2ne variants are preferred over RA2
  (`SecurityTypeNegotiator.java:37-44`).
- A CopyRect rectangle is drawn with the in-place `duplicate` loop
  (`CopyRectRenderer.java:22`). When the source and target blocks overlap,
  this is not the block copy the protocol describes (see "## Findings").
  `Renderers.RenderCopyRect` and the framebuffer follow the code.
  `Renderers.RenderCopyRectBuffered` is the corrected renderer, kept beside
  it for comparison.

## Model

Source paths are relative to the repository root.

| member | source | states |
|---|---|---|
| SecurityTypes.CatalogCodesAre | src/main/java/com/shinyhut/vernacular/protocol/messages/SecurityType.java:12-18 | The catalog's codes, in declaration order, are exactly 1, 2, 5, 6, 113, 129, 130. |
| SecurityTypes.CatalogComplete | src/main/java/com/shinyhut/vernacular/protocol/messages/SecurityType.java:12-18 | Every security type is an entry of the catalog. |
| SecurityTypes.CodesDistinct | src/main/java/com/shinyhut/vernacular/protocol/messages/SecurityType.java:12-18 | Two types have the same code if and only if they are the same type. |
| SecurityTypes.FindFirst | src/main/java/com/shinyhut/vernacular/protocol/messages/SecurityType.java:29 | `findFirst` gives an entry with the code such that no earlier entry has it. It gives nothing exactly when no entry has the code. |
| SecurityTypes.Resolve | src/main/java/com/shinyhut/vernacular/protocol/messages/SecurityType.java:28-30 | A type comes back exactly when some type has the code, and it carries that code. |
| SecurityTypes.ResolveCode | src/main/java/com/shinyhut/vernacular/protocol/messages/SecurityType.java:28-30 | Resolving a type's own code gives back that type. |
| SecurityTypes.ResolveUnknown | src/main/java/com/shinyhut/vernacular/protocol/messages/SecurityType.java:28-30 | A code outside the catalog resolves to nothing. |
| Negotiator.ResolveOffer | src/main/java/com/shinyhut/vernacular/protocol/handshaking/SecurityTypeNegotiator.java:30-48 | The chosen handler's type is in the server's list. No type ranked above it in the order None, VncAuth, MsLogonII, RA2ne, RA2ne_256, RA2, RA2_256 is in the list. The handler is an RSA-AES handler exactly when its type is one of RA2ne, RA2ne_256, RA2 and RA2_256, and then it carries that type's code. With the type this fixes the handler (`Negotiator.HandlerDetermined`). It fails exactly when none of the seven codes is offered, with NoSupportedSecurityTypes carrying the server's list and the whole catalog. |
| Negotiator.ChosenIsMostPreferred | src/main/java/com/shinyhut/vernacular/protocol/handshaking/SecurityTypeNegotiator.java:30-48 | If any catalog type is offered, resolution succeeds and picks a type ranked at least as high. An equal rank means that very type. |
| Negotiator.ResolveDependsOnSet | src/main/java/com/shinyhut/vernacular/protocol/handshaking/SecurityTypeNegotiator.java:30-48 | Two lists with the same members resolve to the same outcome, so order and duplicates do not matter. |
| Negotiator.PrefersNone | src/main/java/com/shinyhut/vernacular/protocol/handshaking/SecurityTypeNegotiator.java:31-32 | The server list [2, 1] selects the no-authentication handler. |
| Negotiator.Negotiate | src/main/java/com/shinyhut/vernacular/protocol/handshaking/SecurityTypeNegotiator.java:20-28 | On 3.3 the single type read is resolved as a one-element list. On other versions a chosen handler's type is in the list read, and the stream continues after that list. |
| Negotiator.SingleTypeResolved | src/main/java/com/shinyhut/vernacular/protocol/handshaking/SecurityTypeNegotiator.java:21-23 | On 3.3, negotiation succeeds exactly when the server's code is in the catalog, and the handler is for that code's type. |
| Initializer.EncodingListMembers | src/main/java/com/shinyhut/vernacular/protocol/initialization/Initializer.java:50-77 | An encoding is sent exactly when it is requested. Raw and DesktopSize are always requested. ZLib, Hextile, RRE, CopyRect and ExtendedClipboard are requested by their flags, and Cursor by useLocalMousePointer. |
| Initializer.EncodingListOrdered | src/main/java/com/shinyhut/vernacular/protocol/initialization/Initializer.java:50-77 | The list is strictly increasing in the order ZLib, Hextile, RRE, CopyRect, ExtendedClipboard, Raw, DesktopSize, Cursor, so it has no duplicates. |
| Initializer.EncodingListUnique | src/main/java/com/shinyhut/vernacular/protocol/initialization/Initializer.java:50-77 | Any list that holds exactly the requested encodings, in that order, is the list sent. |
| Initializer.EncodingListLength | src/main/java/com/shinyhut/vernacular/protocol/initialization/Initializer.java:50-77 | The list's length is 2 plus the number of flags set. |
| Initializer.Initialise | src/main/java/com/shinyhut/vernacular/protocol/initialization/Initializer.java:21-85 | It succeeds exactly when ServerInit can be read. The session takes its framebuffer size from ServerInit. It sends ClientInit(shared), then SetPixelFormat, then SetEncodings with the flag-determined list. The pixel format sent and kept is big-endian with the configured depth. |
| Initializer.PixelFormatRoundTrip | src/main/java/com/shinyhut/vernacular/protocol/initialization/Initializer.java:36-46 | Reading the colour depth back from the built pixel format gives the configured depth. Any big-endian format is the one built from its own depth. |
| ImageBuffers.New | src/main/java/com/shinyhut/vernacular/client/rendering/ImageBuffer.java:10-15 | It succeeds exactly when width × height fits a Java `int`. The buffer has the given width, height and alpha flag, and every cell is 0. |
| ImageBuffers.FlatIndexInRange | src/main/java/com/shinyhut/vernacular/client/rendering/ImageBuffer.java:31-33 | For an in-range (x, y) the index is y × width + x and lies in [0, width × height). |
| ImageBuffers.FlatIndexInjective | src/main/java/com/shinyhut/vernacular/client/rendering/ImageBuffer.java:31-33 | Distinct in-range coordinates have distinct indices. |
| ImageBuffers.FlatIndexFacts | src/main/java/com/shinyhut/vernacular/client/rendering/ImageBuffer.java:31-33 | On a row inside the buffer any x wraps modulo the width. A row below the buffer gives an index outside the array whenever `y * width` does not overflow. |
| ImageBuffers.Get | src/main/java/com/shinyhut/vernacular/client/rendering/ImageBuffer.java:47-49 | An in-range get returns that cell, and x wraps modulo the width. Width 0 fails with ArithmeticException. A row below the buffer fails with ArrayIndexOutOfBounds. |
| ImageBuffers.Set | src/main/java/com/shinyhut/vernacular/client/rendering/ImageBuffer.java:35-37 | The shape is kept. On a row inside the buffer, cell (x mod width, y) takes the colour and every other cell is unchanged. It fails as `get` does. |
| ImageBuffers.GetAfterSet | src/main/java/com/shinyhut/vernacular/client/rendering/ImageBuffer.java:35-37 | `get(x, y)` after `set(x, y, c)` returns c. |
| ImageBuffers.GetAfterSetOther | src/main/java/com/shinyhut/vernacular/client/rendering/ImageBuffer.java:35-37 | After `set(x, y, c)`, `get` of any other in-range cell returns what it returned before. |
| ImageBuffers.FillRect | src/main/java/com/shinyhut/vernacular/client/rendering/ImageBuffer.java:39-45 | The shape is kept, and an empty block changes nothing. For a block inside the buffer, every cell in the block has the colour and every cell outside it is unchanged. |
| ImageBuffers.Extend | src/main/java/com/shinyhut/vernacular/client/rendering/ImageBuffer.java:21-29 | It succeeds exactly when nw × nh fits an `int`. The result is nw × nh with the old alpha flag. A cell inside both buffers keeps its old value; every other cell is 0. |
| BlockCopy.Duplicate | src/main/java/com/shinyhut/vernacular/client/rendering/ImageBuffer.java:51-57 | The in-place copy, column by column, reading the live buffer. The shape is kept. For source and target blocks inside the buffer that do not overlap, the target equals the old source and every other cell is unchanged. |
| BlockCopy.DuplicateOverlapCounterexample | src/main/java/com/shinyhut/vernacular/client/rendering/ImageBuffer.java:51-57 | On a 3 × 1 buffer whose first two cells differ, copying the 2 × 1 block at (0, 0) one cell right puts the old (0, 0) at (2, 0). That result is not a block copy. The buffered copy puts the old (1, 0) there. |
| BlockCopy.DuplicateBuffered | src/main/java/com/shinyhut/vernacular/client/rendering/ImageBuffer.java:51-57 | For blocks inside the buffer, overlapping or not, the target equals the old source and every other cell is unchanged. |
| BlockCopy.DuplicateAgreesWhenDisjoint | src/main/java/com/shinyhut/vernacular/client/rendering/ImageBuffer.java:51-57 | For non-overlapping blocks inside the buffer, the in-place copy and the buffered copy give the same buffer. |
| BlockCopy.BlockCopyUnique | src/main/java/com/shinyhut/vernacular/client/rendering/ImageBuffer.java:51-57 | At most one buffer is the block copy of a given buffer, so the copy is fully determined. |
| Renderers.RenderRaw | src/main/java/com/shinyhut/vernacular/client/rendering/renderers/RawRenderer.java:27-43 | It consumes exactly w × h pixels, and none when the product is 0 or wraps negative. For a block inside the buffer, the i-th pixel lands at (x + i mod w, y + i div w) and every other cell is unchanged. A failing pixel read is the result. |
| Renderers.RenderCopyRect | src/main/java/com/shinyhut/vernacular/client/rendering/renderers/CopyRectRenderer.java:17-26 | Fewer than 4 bytes fails with EOFException. On success exactly 4 bytes are consumed and the shape is kept. |
| Renderers.CopyRectCopiesBlock | src/main/java/com/shinyhut/vernacular/client/rendering/renderers/CopyRectRenderer.java:19-22 | A payload of srcX then srcY, each an unsigned 16-bit big-endian value, is consumed and nothing after it. When both blocks are inside the buffer and do not overlap, the rectangle's w × h block at (x, y) becomes the old block at (srcX, srcY) and every other cell is unchanged. |
| Renderers.CopyRectOverlapDrawn | src/main/java/com/shinyhut/vernacular/client/rendering/renderers/CopyRectRenderer.java:19-22 | For overlapping blocks the renderer does what the in-place loop does. On a 3 × 1 frame whose first two pixels differ, the rectangle (1, 0, 2, 1) with source (0, 0) leaves the old (0, 0) at (2, 0). That result is not a block copy. |
| Renderers.RenderCopyRectBuffered | src/main/java/com/shinyhut/vernacular/client/rendering/renderers/CopyRectRenderer.java:17-26 | The corrected renderer from "## Findings". It reads the same payload: fewer than 4 bytes fails with EOFException, and on success exactly 4 bytes are consumed and the shape is kept. |
| Renderers.CopyRectBufferedCopiesBlock | src/main/java/com/shinyhut/vernacular/client/rendering/renderers/CopyRectRenderer.java:19-22 | The corrected renderer copies the source block onto the rectangle whenever both lie inside the buffer, overlapping or not. On non-overlapping blocks it gives exactly what `Renderers.RenderCopyRect` gives. |
| Renderers.RenderRre | src/main/java/com/shinyhut/vernacular/client/rendering/renderers/RRERenderer.java:25-43 | Fewer than 4 bytes fails with EOFException. It consumes the count, the background pixel and that many subrectangles. When all are inside the buffer, a cell takes the colour of the last subrectangle, in stream order and offset by the rectangle's origin, that covers it. Failing that, a cell inside the rectangle takes the background, and any other cell is unchanged. |
| Cursors.MaskRowBytesBounds | src/main/java/com/shinyhut/vernacular/client/rendering/renderers/CursorRenderer.java:27 | A mask row has ⌈w / 8⌉ bytes: the least count of bytes with at least w bits. |
| Cursors.RenderCursorDraws | src/main/java/com/shinyhut/vernacular/client/rendering/renderers/CursorRenderer.java:23-49 | It reads w × h Raw pixels placed at (0, 0), whatever the rectangle's x and y. It then reads exactly ⌈w / 8⌉ × h mask bytes. A cell in [0, w) × [0, h) keeps its pixel if its bit is set and becomes 0 otherwise. Bits are taken most significant first, each row starts at a fresh byte, and padding bits are ignored. Cells outside are unchanged. A short mask fails with EOFException; a failing pixel read is the result. |
| Cursors.RenderCursor | src/main/java/com/shinyhut/vernacular/client/rendering/renderers/CursorRenderer.java:23-49 | The buffer's shape is kept. |
| Cursors.CursorEmpty | src/main/java/com/shinyhut/vernacular/client/rendering/renderers/CursorRenderer.java:25-28 | A cursor of width or height 0 reads nothing and changes nothing. |
| Framebuffers.Create | src/main/java/com/shinyhut/vernacular/client/rendering/Framebuffer.java:28-40 | The first frame has the session's framebuffer size, no alpha and all-zero cells, and the colour map is empty. It succeeds exactly when the size fits an `int`. |
| Framebuffers.Render | src/main/java/com/shinyhut/vernacular/client/rendering/Framebuffer.java:30-35 | Only Raw, CopyRect, RRE, Hextile and ZLib have renderers. Any other encoding fails with NoRenderer, which is the NullPointerException at line 52. The shape is kept. |
| Framebuffers.ProcessRectangle | src/main/java/com/shinyhut/vernacular/client/rendering/Framebuffer.java:46-53 | One rectangle header is read. On success the framebuffer stays well formed and keeps its colour map, and the only listener calls are cursor changes. Any rectangle other than DesktopSize keeps the frame's shape and the session size. |
| Framebuffers.Resize | src/main/java/com/shinyhut/vernacular/client/rendering/Framebuffer.java:75-85 | It succeeds exactly when width × height fits an `int`. The session size becomes the rectangle's, and the frame becomes a non-alpha all-zero buffer of that size. The colour map is kept. |
| Framebuffers.DesktopSizeReplacesFrame | src/main/java/com/shinyhut/vernacular/client/rendering/Framebuffer.java:75-85 | The session size becomes the rectangle's. The frame is replaced by a fresh non-alpha all-zero buffer of that size, or fails with NegativeArraySizeException. Nothing more is read and no listener is called. |
| Framebuffers.CursorLeavesFrame | src/main/java/com/shinyhut/vernacular/client/rendering/Framebuffer.java:87-96 | A Cursor rectangle never changes the framebuffer. An empty one reads nothing and calls no listener. A non-empty one hands the pointer listener, if set, the hotspot and the cursor rendered over a blank alpha buffer of the cursor's size. |
| Framebuffers.UpdateCursor | src/main/java/com/shinyhut/vernacular/client/rendering/Framebuffer.java:87-96 | There is one listener call exactly when the cursor is non-empty and a pointer listener is set, and none otherwise. |
| Framebuffers.UnregisteredEncodingFails | src/main/java/com/shinyhut/vernacular/client/rendering/Framebuffer.java:52 | A rectangle with no registered renderer and no pseudo-encoding fails, naming its encoding. |
| Framebuffers.RawRectangleDrawn | src/main/java/com/shinyhut/vernacular/client/rendering/Framebuffer.java:52 | A Raw rectangle inside the frame is drawn row-major from the pixels decoded over the current colour map, and the rest of the frame is unchanged. |
| Framebuffers.RenderedRectangle | src/main/java/com/shinyhut/vernacular/client/rendering/Framebuffer.java:51-53 | Any other rectangle becomes what its renderer makes of the frame, and calls no listener. |
| Framebuffers.ProcessRectanglesSplit | src/main/java/com/shinyhut/vernacular/client/rendering/Framebuffer.java:45-54 | Processing a + b rectangles is processing a of them, then b more from where they left the frame and the stream. The first failure ends the loop. |
| Framebuffers.ProcessUpdate | src/main/java/com/shinyhut/vernacular/client/rendering/Framebuffer.java:42-60 | It processes exactly max(n, 0) rectangles and fails exactly when one of them fails. On success the final framebuffer, the remaining input and the cursor events are those of the rectangle loop, followed by the publishing events. A count of 0 or less reads nothing and only publishes the unchanged frame. The update signal comes exactly once, last. The frame is painted only just before the signal, and only when a screen listener is set. The painted frame is the final one. |
| Framebuffers.UpdateInStreamOrder | src/main/java/com/shinyhut/vernacular/client/rendering/Framebuffer.java:44-56 | An update of a + b rectangles is the first a rectangles, then b more from where they left the framebuffer and the stream, then the publishing events. It succeeds exactly when that sequence does. |
| Framebuffers.UpdateColorMap | src/main/java/com/shinyhut/vernacular/client/rendering/Framebuffer.java:69-73 | The frame and the session size are unchanged. Index firstColor + i holds the i-th colour. Every other index keeps its entry, and no other index is added. |
| Framebuffers.StoreColors | src/main/java/com/shinyhut/vernacular/client/rendering/Framebuffer.java:69-73 | Index firstColor + i holds the i-th colour, overwriting any previous entry. Other indices keep their entries, and no index is added besides these. |
| Framebuffers.ColorMapUpdatesCommute | src/main/java/com/shinyhut/vernacular/client/rendering/Framebuffer.java:69-73 | Two updates whose index ranges do not overlap give the same framebuffer in either order. |
| Framebuffers.ColorMapUpdateIdempotent | src/main/java/com/shinyhut/vernacular/client/rendering/Framebuffer.java:69-73 | Applying the same update twice is the same as applying it once. |
| AesEax.Write | src/main/java/com/shinyhut/vernacular/utils/AesEaxOutputStream.java:32-45 | The nonce goes up by exactly 1. It succeeds exactly when ciphertext plus 16-byte tag fit the 1024-byte scratch buffer. The frame opens with the 2-byte big-endian length. |
| AesEax.FrameLayout | src/main/java/com/shinyhut/vernacular/utils/AesEaxOutputStream.java:37-43 | A written frame is the length read as an unsigned short, then the cipher output. The cipher output is the message sealed under the writer's nonce bytes `Aead.WriteNonce(nonce)`, which are `bigIntToBytes(nonce, 16)`, with the length bytes as the only associated data. It is 16 bytes longer than the message. |
| AesEax.WriteAll | src/main/java/com/shinyhut/vernacular/utils/AesEaxOutputStream.java:32-34 | After n writes the nonce has gone up by n, so no nonce is reused. The key is unchanged. It succeeds exactly when every message fits. |
| AesEax.ReadUpTo | src/main/java/com/shinyhut/vernacular/utils/AesEaxInputStream.java:36 | `readNBytes` takes n bytes, or all that remain when fewer do. What it took followed by the rest is the input. |
| AesEax.Read | src/main/java/com/shinyhut/vernacular/utils/AesEaxInputStream.java:27-45 | The nonce goes up by exactly 1, even when the read fails. It succeeds exactly when the 2-byte length is followed by at least length + 16 bytes, the length is at most 1024 (only the plaintext goes into the scratch array), and the tag verifies under the reader's nonce bytes, `bigIntToBytes(nonce, 16, true)`, with the length bytes as associated data. On success it consumed exactly length + 16 bytes after the length and returns exactly length bytes. |
| AesEax.ReadOfWrite | src/main/java/com/shinyhut/vernacular/utils/AesEaxInputStream.java:33-44 | When the two streams' nonce encodings agree (`Aead.NoncesAgree`), a frame written under the same key and nonce reads back as the message, and the input after it is untouched. |
| AesEax.TagFailureGivesNothing | src/main/java/com/shinyhut/vernacular/utils/AesEaxInputStream.java:39-43 | A frame whose tag does not verify fails with "Cipher failed" and returns no plaintext. |
| Decoders.RawRead | src/main/java/com/shinyhut/vernacular/protocol/messages/Decoder.java:9-16 | The raw decoder reads the session stream itself. It returns -1 exactly at the end, and otherwise the next byte unsigned. |
| Decoders.Ra2Read | src/main/java/com/shinyhut/vernacular/protocol/messages/Decoder.java:25-36 | It keeps 0 ≤ pos ≤ buf.length. It returns -1 or a value in 0..255. With bytes pending it returns the next one and reads no frame. When the buffer is missing or used up, it reads exactly one frame, as `AesEaxInputStream.read` does, resetting pos. It then returns -1 exactly when that frame is empty, and otherwise the frame's first byte. |
| Decoders.Ra2ReadsFrames | src/main/java/com/shinyhut/vernacular/protocol/messages/Decoder.java:21-36 | Over an input holding non-empty frames, reading byte by byte yields their concatenation in order, as unsigned values, and leaves the input after them. |
| Decoders.WrittenFramesAhead | src/main/java/com/shinyhut/vernacular/utils/AesEaxInputStream.java:27-45 | Messages written one after another are read back frame by frame, in order, by a reader that starts at the writer's key and nonce. |
| Decoders.Ra2ReadsWritten | src/main/java/com/shinyhut/vernacular/protocol/messages/Decoder.java:18-44 | Reading, through `ra2`, as many bytes as a peer wrote in non-empty messages yields exactly those bytes, in order. |
| RsaAes.RequestAuthentication | src/main/java/com/shinyhut/vernacular/protocol/auth/RsaAesAuthenticationHandler.java:73-75 | One byte is written exactly when the version is not 3.3, and it is the low byte of the type code. |
| RsaAes.OutputOpensWithRequest | src/main/java/com/shinyhut/vernacular/protocol/auth/RsaAesAuthenticationHandler.java:73-79 | A completed handshake's output starts with the type byte exactly when the version is not 3.3. The client key's 4-byte length comes next. |
| RsaAes.ModulusBytes | src/main/java/com/shinyhut/vernacular/protocol/auth/RsaAesAuthenticationHandler.java:106 | A key field has ⌈length / 8⌉ bytes. |
| RsaAes.ReadPublicKey | src/main/java/com/shinyhut/vernacular/protocol/auth/RsaAesAuthenticationHandler.java:97-120 | A key that is read has a 4-byte big-endian length in [1024, 8192]. Its modulus and exponent are ⌈length / 8⌉ bytes each and follow the length. The key factory accepts it. |
| RsaAes.ShortKeyRejected | src/main/java/com/shinyhut/vernacular/protocol/auth/RsaAesAuthenticationHandler.java:99-102 | A length below 1024 fails with "Server key is too short", whatever follows. |
| RsaAes.LongKeyRejected | src/main/java/com/shinyhut/vernacular/protocol/auth/RsaAesAuthenticationHandler.java:103-105 | A length above 8192 fails with "Server key is too long", whatever follows. |
| RsaAes.InvalidKeyRejected | src/main/java/com/shinyhut/vernacular/protocol/auth/RsaAesAuthenticationHandler.java:111-119 | A well-sized key that the factory refuses fails with "Server key is invalid". |
| RsaAes.ReadPublicKeyOfWritten | src/main/java/com/shinyhut/vernacular/protocol/auth/RsaAesAuthenticationHandler.java:97-120 | A well-sized valid key in the wire layout reads back as itself, and nothing after it is read. |
| RsaAes.GenerateClientKey | src/main/java/com/shinyhut/vernacular/protocol/auth/RsaAesAuthenticationHandler.java:136-149 | The client key has the server key's length. Its modulus and exponent have ⌈length / 8⌉ bytes each. |
| RsaAes.ClientKeyReadsBack | src/main/java/com/shinyhut/vernacular/protocol/auth/RsaAesAuthenticationHandler.java:136-153 | The client's key message, read by the rules the client applies to the server's, gives back the client key. |
| RsaAes.WriteRandom | src/main/java/com/shinyhut/vernacular/protocol/auth/RsaAesAuthenticationHandler.java:155-171 | The client random is keySize / 8 bytes. It fails exactly when RSA encryption refuses, with "Failed to encrypt random". |
| RsaAes.RandomMessageLayout | src/main/java/com/shinyhut/vernacular/protocol/auth/RsaAesAuthenticationHandler.java:169-170 | The random message read back with `readShort` is the ciphertext's length followed by the ciphertext. |
| RsaAes.ReadRandom | src/main/java/com/shinyhut/vernacular/protocol/auth/RsaAesAuthenticationHandler.java:173-192 | On success the input held a 2-byte length and then as many bytes as the client modulus has. The server random is the decryption of those bytes and is keySize / 8 bytes long. |
| RsaAes.ReadRandomOfWritten | src/main/java/com/shinyhut/vernacular/protocol/auth/RsaAesAuthenticationHandler.java:173-192 | A well-formed random message reads back as the decrypted random, and nothing after it is read. |
| RsaAes.RandomSizeMismatch | src/main/java/com/shinyhut/vernacular/protocol/auth/RsaAesAuthenticationHandler.java:175-178 | A length other than the client modulus's size fails with "Client key length doesn't match". |
| RsaAes.RandomLengthMismatch | src/main/java/com/shinyhut/vernacular/protocol/auth/RsaAesAuthenticationHandler.java:189-191 | A random of the wrong size fails with "Server random length doesn't match". |
| RsaAes.SetCipher | src/main/java/com/shinyhut/vernacular/protocol/auth/RsaAesAuthenticationHandler.java:194-204 | Both keys are keySize / 8 bytes. The read key is the digest of the client random then the server random, cut to that size. The write key is the digest of the two the other way round. |
| RsaAes.KeysMirror | src/main/java/com/shinyhut/vernacular/protocol/auth/RsaAesAuthenticationHandler.java:194-204 | The client's read key is the key a side holding the randoms the other way round writes with, and the same holds for the client's write key. |
| RsaAes.KeyLengthFieldIsInt | src/main/java/com/shinyhut/vernacular/protocol/auth/RsaAesAuthenticationHandler.java:207-218 | The four masked and shifted length bytes are the big-endian `writeInt` encoding of the length. |
| RsaAes.KeyBlockIsKeyMessage | src/main/java/com/shinyhut/vernacular/protocol/auth/RsaAesAuthenticationHandler.java:207-224 | What a key contributes to the hash is exactly its key message on the wire. |
| RsaAes.WriteHash | src/main/java/com/shinyhut/vernacular/protocol/auth/RsaAesAuthenticationHandler.java:206-227 | One frame holds the hash over the client key block then the server key block. It succeeds exactly when the hash fits a frame. The nonce goes up by 1. |
| RsaAes.ReadHash | src/main/java/com/shinyhut/vernacular/protocol/auth/RsaAesAuthenticationHandler.java:229-253 | It succeeds exactly when the next frame holds the hash over the server block then the client block. A frame holding anything else fails with "Hash doesn't match". |
| RsaAes.HashExchangeAgrees | src/main/java/com/shinyhut/vernacular/protocol/auth/RsaAesAuthenticationHandler.java:219-252 | A server that hashes by the client's rule, with its own block first, passes the client's check. |
| RsaAes.WrongHashRejected | src/main/java/com/shinyhut/vernacular/protocol/auth/RsaAesAuthenticationHandler.java:249-252 | Any other frame fails the check. |
| RsaAes.ReadSubtype | src/main/java/com/shinyhut/vernacular/protocol/auth/RsaAesAuthenticationHandler.java:255-260 | It succeeds exactly when the next frame is non-empty and its first byte, as a signed byte, is 1 or 2. An empty frame fails with ArrayIndexOutOfBounds. |
| RsaAes.SubtypeReadsBack | src/main/java/com/shinyhut/vernacular/protocol/auth/RsaAesAuthenticationHandler.java:255-260 | A subtype 1 or 2 that the server sends in its own frame is the one read. |
| RsaAes.CredentialsParse | src/main/java/com/shinyhut/vernacular/protocol/auth/RsaAesAuthenticationHandler.java:264-267 | A password shorter than 256 bytes arrives whole after an empty username. |
| RsaAes.LongPasswordLengthWraps | src/main/java/com/shinyhut/vernacular/protocol/auth/RsaAesAuthenticationHandler.java:266 | A 256-byte password's length byte wraps to 0, and the message no longer parses. |
| RsaAes.WriteCredentials | src/main/java/com/shinyhut/vernacular/protocol/auth/RsaAesAuthenticationHandler.java:262-269 | The credentials go in one encrypted write, succeeding exactly when they fit a frame. |
| RsaAes.CredentialsReadBack | src/main/java/com/shinyhut/vernacular/protocol/auth/RsaAesAuthenticationHandler.java:262-269 | The server decrypts the frame to [0, password length] followed by the password. |
| RsaAes.KeyExchange | src/main/java/com/shinyhut/vernacular/protocol/auth/RsaAesAuthenticationHandler.java:77-82 | The server key is well sized. The client key is generated at the server key's length. Both randoms are keySize / 8 bytes. The client random is the one `writeRandom` encrypted under the server key. What the client sends is its key message (length, modulus, exponent) and then the random message. |
| RsaAes.KeyExchangeCompletes | src/main/java/com/shinyhut/vernacular/protocol/auth/RsaAesAuthenticationHandler.java:77-82 | Against a server sending a valid key and a well-formed random, the exchange yields the server's key, the generated client random and the server random. Nothing after those messages is read. |
| RsaAes.SecureChannel | src/main/java/com/shinyhut/vernacular/protocol/auth/RsaAesAuthenticationHandler.java:83-88 | The keys are those `setCipher` derives. Each AES stream has moved exactly two nonces (hash and credentials out, hash and subtype in). The subtype is 1 or 2. What the client sends is the hash frame at nonce 0 and then the credential frame at nonce 1, both under its write key. |
| RsaAes.SecureChannelCompletes | src/main/java/com/shinyhut/vernacular/protocol/auth/RsaAesAuthenticationHandler.java:83-88 | Against a server keying and hashing by the same rules, the encrypted half yields the subtype the server sent. It leaves the raw input after the server's frames. |
| RsaAes.ShortKeyEndsHandshake | src/main/java/com/shinyhut/vernacular/protocol/auth/RsaAesAuthenticationHandler.java:77 | A server key below 1024 bits ends the whole handshake with "Server key is too short". |
| RsaAes.Authenticate | src/main/java/com/shinyhut/vernacular/protocol/auth/RsaAesAuthenticationHandler.java:68-91 | The output is the type byte, when sent, then what the key exchange sent, then what the encrypted half sent. The key exchange's part opens with the client key's 4-byte length. |
| RsaAes.KeyExchangeSentReads | src/main/java/com/shinyhut/vernacular/protocol/auth/RsaAesAuthenticationHandler.java:136-170 | A server reading the client's key message by the client's own rules, and then a `readShort` length and that many bytes, gets back the client key and the ciphertext, and nothing after them is read. |
| RsaAes.ChannelSentReads | src/main/java/com/shinyhut/vernacular/protocol/auth/RsaAesAuthenticationHandler.java:206-269 | The hash frame at nonce 0 and the credential frame at nonce 1 read back, under the key they were written with, as the hash and the credential message. |
| RsaAes.SentReads | src/main/java/com/shinyhut/vernacular/protocol/auth/RsaAesAuthenticationHandler.java:136-269 | The four client messages, laid out one after another, read back in order as the client key, the ciphertext, the hash and the credential message, with nothing left over. |
| RsaAes.SessionSends | src/main/java/com/shinyhut/vernacular/protocol/auth/RsaAesAuthenticationHandler.java:68-91 | For any completed handshake, the output opens with the type byte when it is sent. A protocol-following server reading the rest recovers, in order: the client key; the ciphertext of the client random; the hash over the client's key block and then its own, at nonce 0 under the key it derives to read; and the credential message at nonce 1. Nothing is left over. |
| RsaAes.HandshakeCompletes | src/main/java/com/shinyhut/vernacular/protocol/auth/RsaAesAuthenticationHandler.java:68-91 | Against a protocol-following server the handshake completes in the order of lines 77-88. It yields the server's key, both randoms and the server's subtype, and leaves for the security result exactly the input after the server's messages. |

## Left out

- VncSession's I/O, threads and signalling are left out: `waitForFramebufferUpdate`, `framebufferUpdated`'s lock and condition, and stream closing. `session.framebufferUpdated()` is the `FramebufferUpdated` event.
- The colour map's `ConcurrentHashMap` is a plain `map`. Concurrent access is not modelled.
- RSA, PKCS#1 v1.5 padding, SHA-1 / SHA-256, AES-EAX, `SecureRandom` and the RSA key factory are left out. They are function-valued parameters (`Crypto`, `Aead`) about which only `Aead.Valid` (decryption undoes encryption) and `Crypto.Valid` are assumed.
- `ByteUtils` is not part of this model. `bigIntToBytes` is the `Crypto.toBytes` parameter, assumed to return the size asked for, and `bitAt` is `Bytes.BitAt`, read as bit i counted from the least significant.
- The 128-bit nonce is a natural-number counter, and a counter that large never wraps. The two streams turn it into bytes with different calls: `AesEaxOutputStream.java:33` calls `bigIntToBytes(nonce, 16)` and `AesEaxInputStream.java:28` calls `bigIntToBytes(nonce, 16, true)`. The model keeps the difference as `Aead.nonceBytes(n, flag)`, with flag false for the writer (`Aead.WriteNonce`) and true for the reader (`Aead.ReadNonce`). Whether the two calls give the same bytes depends on `ByteUtils`, which is not part of this model. So every lemma that reads back what an output stream wrote requires `Aead.NoncesAgree`: AesEax.ReadOfWrite, Decoders.WrittenFramesAhead, Decoders.Ra2ReadsWritten, RsaAes.HashExchangeAgrees, RsaAes.WrongHashRejected, RsaAes.SubtypeReadsBack, RsaAes.CredentialsReadBack, RsaAes.SecureChannelCompletes, RsaAes.HandshakeCompletes, RsaAes.ChannelSentReads, RsaAes.SentReads and RsaAes.SessionSends. If the two calls differ, none of these round trips holds for the Java code.
- `verifyServer` (`RsaAesAuthenticationHandler.java:122-134`) computes a fingerprint and discards it. There is no behaviour to model; the fingerprint check it reserves is an open gap.
- `SecurityResult.decode` is not part of this model. `RsaAes.Authenticate` ends where it would start reading.
- What the handler writes after a failed step is not modelled. On failure the model returns only the error.
- The RA2ne factories named at `SecurityTypeNegotiator.java:38,40` are not part of this model. The negotiator's result records the variant and code it would pass them.
- The no-auth, VncAuth and MsLogonII handlers are only named by the negotiator's result.
- Hextile and ZLib renderers are not part of this model. They are opaque `Environment` functions that keep the buffer's shape.
- `PixelDecoder` is not part of this model. It is a reader over the current colour map, and a pixel is its `int`.
- Rectangle, ServerInit and ServerSecurityType(s) decoding are not part of this model. They are readers given as parameters. The rectangle reader is assumed (`Environment.Valid`) to return headers with unsigned 16-bit position and size (`Messages.Rectangle.Valid`), as the wire fields are 16-bit; `Framebuffers.ProcessRectangle`, `Framebuffers.Resize` and `Framebuffers.DesktopSizeReplacesFrame` rely on it for a well-formed frame.
- AesEax.Write: its own contract states the nonce step, when it fails and the length bytes. The sealed content after them is stated by `AesEax.FrameLayout`.
- Encoder is not part of this model. Messages sent are listed as values (`ClientMessage`), not encoded.
- VernacularConfig is reduced to the flags and values the modelled code reads. The exception message texts are error variants.
- Java's `OutOfMemoryError` for a huge `new int[w * h]` is not modelled. Only the negative-size case is; widths and heights are 16-bit, as on the wire.
- Negotiator.Negotiate: for versions other than 3.3 the contract states membership and stream position of the chosen type, not the full preference. That is `Negotiator.ResolveOffer`'s contract, applied to the list read.
- Renderers.RenderCopyRect: its own contract states only the bytes consumed and the shape. The drawing is stated by `Renderers.CopyRectCopiesBlock` for non-overlapping blocks inside the buffer, and by `Renderers.CopyRectOverlapDrawn` for one overlapping case. Out-of-range blocks are Java array-index errors or `%`-wrapped cells, and are not characterised.
- Renderers.RenderRre: the drawing is stated only when the rectangle and every subrectangle lie inside the buffer. Out-of-range subrectangles wrap or fail as `fillRect` does.
- Initializer.Initialise: when ServerInit cannot be read (`Initializer.java:28`), the model returns only the error. The ClientInit the Java has already written (`Initializer.java:26`) is dropped.
- Framebuffers.Resize: a size whose product does not fit an `int` fails with NegativeArraySizeException. The session size that `Framebuffer.java:78-79` has already set before the allocation is dropped with the rest of the state.
- Framebuffers.DesktopSizeReplacesFrame: as for `Framebuffers.Resize`, the session size set before a failing allocation is not kept.
- Framebuffers.ProcessUpdate: when a rectangle fails, the model returns only the error. The Java frame keeps what the earlier rectangles (and a partly drawn failing one) drew.
- Cursors.RenderCursor: its own contract states only the shape. The drawing is stated by `Cursors.RenderCursorDraws`.
- Framebuffers.ProcessRectangle: its own contract states what holds for every rectangle. What each kind does is stated by `Framebuffers.DesktopSizeReplacesFrame`, `Framebuffers.CursorLeavesFrame`, `Framebuffers.RawRectangleDrawn` and `Framebuffers.RenderedRectangle`.
- AesEax.Read: a short `readNBytes` is reported as its own error (`InputTooShort`). The exception BouncyCastle would raise when processing fewer than length + 16 bytes is not named.

## Findings

| source | as written | input that shows it | evidently intended | confidence | as-written member | corrected member |
|---|---|---|---|---|---|---|
| src/main/java/com/shinyhut/vernacular/client/rendering/ImageBuffer.java:51-57 | `duplicate` copies cell by cell in place, column by column, reading the live buffer, so a source cell already overwritten by the copy is read back. | A 3 × 1 buffer [1, 2, 3] and `duplicate(0, 0, 2, 1, 1, 0)`. The in-place loop gives [1, 1, 1]. | The CopyRect rectangle (section 7.7.2 of RFC 6143) takes the source block as it was before the copy, giving [1, 1, 2]; overlapping CopyRect rectangles are common when scrolling. | not executed | BlockCopy.Duplicate, BlockCopy.DuplicateOverlapCounterexample | BlockCopy.DuplicateBuffered, Renderers.RenderCopyRectBuffered |
