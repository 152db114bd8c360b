/** Everything that can end a session, one variant per exception the core
    raises. All are fatal: the session reports the first and stops. */
module Failures {
  import opened Outcomes
  import opened Encodings
  import opened SecurityTypes

  /** The diagnostic carried by a `SecurityTypeFailedException`. */
  datatype AuthFailure =
    | KeyTooShort                 // "Server key is too short"
    | KeyTooLong                  // "Server key is too long"
    | KeyInvalid                  // "Server key is invalid"
    | EncryptRandomFailed         // "Failed to encrypt random"
    | ClientKeyLengthMismatch     // "Client key length doesn't match"
    | DecryptRandomFailed         // "Failed to decrypt server random"
    | ServerRandomLengthMismatch  // "Server random length doesn't match"
    | HashMismatch                // "Hash doesn't match"
    | UnknownSubtype              // "Unknown RSA-AES authentication subtype"

  datatype Failure =
    | EndOfStream                 // EOFException from a DataInputStream read
    | IndexOutOfBounds            // ArrayIndexOutOfBoundsException
    | DivisionByZero              // ArithmeticException from `x % width` with width 0
    | NegativeArraySize           // `new int[width * height]` whose size overflowed
    | NoRenderer(encoding: Encoding)  // no renderer registered: a null dereference
    | NoSupportedSecurityTypes(available: seq<int>, supported: seq<SecurityType>)
    | SecurityTypeFailed(reason: AuthFailure)
    | CipherFailed                // IOException("Cipher failed"): the AEAD tag did not verify
    | ScratchBufferOverflow       // the cipher output does not fit the 1024-byte scratch array
    | InputTooShort               // the cipher was handed fewer bytes than the frame announced

  type Res<T> = Result<T, Failure>
}
