/** The rectangle encodings the client names. The numeric codes live in a
    catalog that is not part of this model; the engine only distinguishes the
    values, and any code outside the named ones is carried as `Unlisted`. */
module Encodings {

  datatype Encoding =
    | Raw
    | CopyRect
    | Rre
    | Hextile
    | ZLib
    | DesktopSize
    | Cursor
    | ExtendedClipboard
    | Unlisted(code: int)
}
