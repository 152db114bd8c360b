/** The RA2 and RA2_256 security types (`RsaAesAuthenticationHandler`):
    the two sides swap RSA public keys and RSA-encrypted randoms, derive an
    AES-EAX key per direction from the randoms, prove to each other that
    they saw the same keys by exchanging hashes over both, and the client
    then sends its credentials over the encrypted channel. RSA, the digests,
    key generation and randomness are collaborators of the model. */
module RsaAes {
  import opened Bytes
  import opened Outcomes
  import opened Failures
  import opened Streams
  import opened Messages
  import opened AesEax

  /** The bounds, in bits, on the server's key length. */
  const MIN_KEY_LENGTH: int := 1024
  const MAX_KEY_LENGTH: int := 8192

  datatype HashAlgorithm = Sha1 | Sha256

  /** What distinguishes the two factories: the AES key size in bits and
      the digest used for key derivation and the hash exchange. */
  datatype Suite = Suite(keySize: nat, hash: HashAlgorithm)
  {
    /** Bytes in a random and in an AES key: `keySize / 8`. */
    function KeyBytes(): nat
    {
      keySize / 8
    }
  }

  /** `RsaAesAuthenticationHandler.RA2`. */
  const RA2_SUITE: Suite := Suite(128, Sha1)

  /** `RsaAesAuthenticationHandler.RA2_256`. */
  const RA2_256_SUITE: Suite := Suite(256, Sha256)

  /** A generated client RSA key pair. */
  datatype KeyPair = KeyPair(modulus: nat, exponent: nat, privateExponent: nat)

  /** The collaborators of the handshake:
      - `digest`: SHA-1 or SHA-256 over the bytes fed to it;
      - `publicKeyValid`: whether the RSA key factory accepts a modulus and
        exponent;
      - `generateKeyPair`: an RSA key pair of the given bit length;
      - `toBytes`: `ByteUtils.bigIntToBytes(v, size, false)`;
      - `encrypt`: RSA with PKCS#1 v1.5 padding under a public modulus and
        exponent, or nothing when the cipher refuses;
      - `decrypt`: the same under a client key pair;
      - `randomByte`: the i-th byte `SecureRandom` hands out;
      - `password`: the configured password, UTF-8 encoded. */
  datatype Crypto = Crypto(
    digest: (HashAlgorithm, seq<byte>) -> seq<byte>,
    publicKeyValid: (nat, nat) -> bool,
    generateKeyPair: nat -> KeyPair,
    toBytes: (nat, nat) -> seq<byte>,
    encrypt: (nat, nat, seq<byte>) -> Option<seq<byte>>,
    decrypt: (KeyPair, seq<byte>) -> Option<seq<byte>>,
    randomByte: nat -> byte,
    password: seq<byte>)
  {
    /** What the model relies on from `ByteUtils.bigIntToBytes`, which is
        not part of this model: the result has exactly the size asked for. */
    ghost predicate Valid()
    {
      forall v, size :: |toBytes(v, size)| == size
    }
  }

  /** A public key as it travels: the length in bits, then modulus and
      exponent, each in `(length + 7) / 8` bytes. */
  datatype PublicKey = PublicKey(length: int, modulus: seq<byte>, exponent: seq<byte>)

  /** Bytes of a modulus or exponent of the given bit length. */
  function ModulusBytes(length: int): (r: nat)
    requires length >= 0
    ensures 8 * r >= length && 8 * (r - 1) < length
  {
    (length + 7) / 8
  }

  /** The four bytes of a key length in the hash exchange:
      `(byte) ((length & 0xff000000) >> 24)` down to `(byte) (length & 0xff)`.
      Each keeps bits 8k..8k+7 of the length, which is `length / 256^k`
      (an arithmetic shift rounds down, as `/` does for a positive divisor)
      cut to a byte. */
  function KeyLengthField(length: int): (r: seq<byte>)
  {
    [LowByte(length / 0x100_0000), LowByte(length / 0x1_0000), LowByte(length / 0x100), LowByte(length)]
  }

  /** The key-length field of the hash exchange is the `writeInt` encoding
      of the length, the one the key messages themselves carry. */
  lemma KeyLengthFieldIsInt(length: int)
    requires 0 <= length < TWO_31
    ensures KeyLengthField(length) == Int32Bytes(length)
  {
    var s := FixedBigEndian(length, 4);
    assert length % TWO_32 == length;
    assert s == FixedBigEndian(length / 256, 3) + [LowByte(length)];
    assert FixedBigEndian(length / 256, 3)
        == FixedBigEndian(length / 256 / 256, 2) + [LowByte(length / 256)];
    assert FixedBigEndian(length / 256 / 256, 2)
        == FixedBigEndian(length / 256 / 256 / 256, 1) + [LowByte(length / 256 / 256)];
    assert FixedBigEndian(length / 256 / 256 / 256, 1) == [LowByte(length / 256 / 256 / 256)];
    assert length / 256 / 256 == length / 0x1_0000;
    assert length / 256 / 256 / 256 == length / 0x100_0000;
  }

  /** `requestAuthentication`: the type code as one byte, sent unless the
      version is 3.3 (where the server picked the type itself). */
  function RequestAuthentication(version: ProtocolVersion, authCode: int): (r: seq<byte>)
    ensures |r| <= 1
    ensures |r| == 1 <==> !version.Is33()
    ensures |r| == 1 ==> r[0] as int == authCode % 256
  {
    if version.Is33() then [] else [LowByte(authCode)]
  }

  /** Modulus and exponent of a key of the given length, which the key
      factory must accept. */
  function ReadKeyBody(crypto: Crypto, length: int, input: seq<byte>): (r: Res<Parsed<PublicKey>>)
    requires length >= 0
    ensures r.Ok? ==>
      var key := r.value.value;
      && key.length == length
      && |key.modulus| == ModulusBytes(length) && |key.exponent| == ModulusBytes(length)
      && crypto.publicKeyValid(BigEndian(key.modulus), BigEndian(key.exponent))
      && input == key.modulus + key.exponent + r.value.rest
  {
    var size := ModulusBytes(length);
    var modulus :- ReadFully(input, size);
    var exponent :- ReadFully(modulus.rest, size);
    if !crypto.publicKeyValid(BigEndian(modulus.value), BigEndian(exponent.value)) then
      Err(SecurityTypeFailed(KeyInvalid))
    else
      Ok(Parsed(PublicKey(length, modulus.value, exponent.value), exponent.rest))
  }

  /** `readPublicKey`: the length, checked against both bounds before any
      key byte is read, then modulus and exponent of the matching size,
      which the key factory must accept. */
  function ReadPublicKey(crypto: Crypto, input: seq<byte>): (r: Res<Parsed<PublicKey>>)
    ensures r.Ok? ==>
      var key := r.value.value;
      && MIN_KEY_LENGTH <= key.length <= MAX_KEY_LENGTH
      && |key.modulus| == ModulusBytes(key.length) && |key.exponent| == ModulusBytes(key.length)
      && crypto.publicKeyValid(BigEndian(key.modulus), BigEndian(key.exponent))
      && 4 <= |input| && BigEndian(input[..4]) == key.length
      && input[4..] == key.modulus + key.exponent + r.value.rest
  {
    var length :- ReadInt(input);
    if length.value < MIN_KEY_LENGTH then Err(SecurityTypeFailed(KeyTooShort))
    else if length.value > MAX_KEY_LENGTH then Err(SecurityTypeFailed(KeyTooLong))
    else
      Int32Range(BigEndian(input[..4]));
      ReadKeyBody(crypto, length.value, length.rest)
  }

  /** The bytes of a public key message: length, modulus, exponent. */
  function KeyMessage(key: PublicKey): (r: seq<byte>)
    ensures |r| == 4 + |key.modulus| + |key.exponent|
  {
    Int32Bytes(key.length) + key.modulus + key.exponent
  }

  /** Modulus and exponent of the right size, after a length in bounds. */
  predicate WellSized(key: PublicKey)
  {
    && MIN_KEY_LENGTH <= key.length <= MAX_KEY_LENGTH
    && |key.modulus| == ModulusBytes(key.length) && |key.exponent| == ModulusBytes(key.length)
  }

  /** The body of a well-sized key is read back as the key, or found
      invalid when the factory refuses it. */
  lemma ReadKeyBodyOfWritten(crypto: Crypto, key: PublicKey, rest: seq<byte>)
    requires WellSized(key)
    ensures ReadKeyBody(crypto, key.length, key.modulus + key.exponent + rest)
            == if crypto.publicKeyValid(BigEndian(key.modulus), BigEndian(key.exponent))
               then Ok(Parsed(key, rest)) else Err(SecurityTypeFailed(KeyInvalid))
  {
    var tail := key.modulus + key.exponent + rest;
    assert tail[..|key.modulus|] == key.modulus && tail[|key.modulus|..] == key.exponent + rest;
    assert (key.exponent + rest)[..|key.exponent|] == key.exponent;
    assert (key.exponent + rest)[|key.exponent|..] == rest;
  }

  /** A length in bounds is followed by the key body. */
  lemma ReadPublicKeyAfterLength(crypto: Crypto, length: int, tail: seq<byte>)
    requires MIN_KEY_LENGTH <= length <= MAX_KEY_LENGTH
    ensures ReadPublicKey(crypto, Int32Bytes(length) + tail) == ReadKeyBody(crypto, length, tail)
  {
    ReadIntOfWritten(length, tail);
  }

  /** A key message reads its length and then the body. */
  lemma ReadPublicKeySplit(crypto: Crypto, key: PublicKey, rest: seq<byte>)
    requires WellSized(key)
    ensures ReadPublicKey(crypto, KeyMessage(key) + rest) == ReadKeyBody(crypto, key.length, key.modulus + key.exponent + rest)
  {
    assert KeyMessage(key) + rest == Int32Bytes(key.length) + (key.modulus + key.exponent + rest);
    ReadPublicKeyAfterLength(crypto, key.length, key.modulus + key.exponent + rest);
  }

  /** A key message with a length in bounds, modulus and exponent of the
      right size, and a key the factory accepts is read back as that key,
      and nothing after it is consumed. */
  lemma ReadPublicKeyOfWritten(crypto: Crypto, key: PublicKey, rest: seq<byte>)
    requires WellSized(key)
    requires crypto.publicKeyValid(BigEndian(key.modulus), BigEndian(key.exponent))
    ensures ReadPublicKey(crypto, KeyMessage(key) + rest) == Ok(Parsed(key, rest))
  {
    ReadPublicKeySplit(crypto, key, rest);
    ReadKeyBodyOfWritten(crypto, key, rest);
  }

  /** A length below 1024 bits fails as too short, whatever follows it:
      no key byte has to be there. */
  lemma ShortKeyRejected(crypto: Crypto, length: int, tail: seq<byte>)
    requires -TWO_31 <= length < MIN_KEY_LENGTH
    ensures ReadPublicKey(crypto, Int32Bytes(length) + tail) == Err(SecurityTypeFailed(KeyTooShort))
  {
    ReadIntOfWritten(length, tail);
  }

  /** A length above 8192 bits fails as too long, whatever follows it. */
  lemma LongKeyRejected(crypto: Crypto, length: int, tail: seq<byte>)
    requires MAX_KEY_LENGTH < length < TWO_31
    ensures ReadPublicKey(crypto, Int32Bytes(length) + tail) == Err(SecurityTypeFailed(KeyTooLong))
  {
    ReadIntOfWritten(length, tail);
  }

  /** A well-sized key that the factory refuses is invalid. */
  lemma InvalidKeyRejected(crypto: Crypto, key: PublicKey, rest: seq<byte>)
    requires WellSized(key)
    requires !crypto.publicKeyValid(BigEndian(key.modulus), BigEndian(key.exponent))
    ensures ReadPublicKey(crypto, KeyMessage(key) + rest) == Err(SecurityTypeFailed(KeyInvalid))
  {
    ReadPublicKeySplit(crypto, key, rest);
    ReadKeyBodyOfWritten(crypto, key, rest);
  }

  /** The client's half of the key exchange. */
  datatype ClientKey = ClientKey(pair: KeyPair, public: PublicKey)

  /** `writePublicKey`: a key pair of the server's key length, its modulus
      and exponent in `(length + 7) / 8` bytes each. */
  function GenerateClientKey(crypto: Crypto, serverKeyLength: int): (r: ClientKey)
    requires serverKeyLength >= 0
    ensures r.public.length == serverKeyLength
    ensures crypto.Valid() ==>
      |r.public.modulus| == ModulusBytes(serverKeyLength) && |r.public.exponent| == ModulusBytes(serverKeyLength)
  {
    var pair := crypto.generateKeyPair(serverKeyLength);
    var size := ModulusBytes(serverKeyLength);
    ClientKey(pair, PublicKey(serverKeyLength, crypto.toBytes(pair.modulus, size), crypto.toBytes(pair.exponent, size)))
  }

  /** The client's key message has the layout of the server's: read with
      the same rules, it gives back the client's key. */
  lemma ClientKeyReadsBack(crypto: Crypto, server: PublicKey, rest: seq<byte>)
    requires crypto.Valid() && MIN_KEY_LENGTH <= server.length <= MAX_KEY_LENGTH
    requires var c := GenerateClientKey(crypto, server.length).public;
      crypto.publicKeyValid(BigEndian(c.modulus), BigEndian(c.exponent))
    ensures var c := GenerateClientKey(crypto, server.length).public;
      ReadPublicKey(crypto, KeyMessage(c) + rest) == Ok(Parsed(c, rest))
  {
    ReadPublicKeyOfWritten(crypto, GenerateClientKey(crypto, server.length).public, rest);
  }

  /** The first n bytes `SecureRandom` hands out. */
  function RandomBytes(crypto: Crypto, n: nat): (r: seq<byte>)
    ensures |r| == n && forall i :: 0 <= i < n ==> r[i] == crypto.randomByte(i)
  {
    seq(n, i requires 0 <= i < n => crypto.randomByte(i))
  }

  /** The client random and the message carrying it. */
  datatype RandomMessage = RandomMessage(random: seq<byte>, bytes: seq<byte>)

  /** `writeRandom`: `keySize / 8` random bytes, encrypted under the
      server's key, sent as a `writeShort` length and the ciphertext. */
  function WriteRandom(crypto: Crypto, suite: Suite, server: PublicKey): (r: Res<RandomMessage>)
    ensures r.Ok? ==> |r.value.random| == suite.KeyBytes()
    ensures r.Err? <==> crypto.encrypt(BigEndian(server.modulus), BigEndian(server.exponent),
                                       RandomBytes(crypto, suite.KeyBytes())).None?
    ensures r.Err? ==> r.error == SecurityTypeFailed(EncryptRandomFailed)
    ensures r.Ok? ==> r.value.random == RandomBytes(crypto, suite.KeyBytes())
    ensures r.Ok? ==>
      var encrypted := crypto.encrypt(BigEndian(server.modulus), BigEndian(server.exponent), r.value.random).value;
      |encrypted| < TWO_15 ==> r.value.bytes == FixedBigEndian(|encrypted|, 2) + encrypted
  {
    var random := RandomBytes(crypto, suite.KeyBytes());
    match crypto.encrypt(BigEndian(server.modulus), BigEndian(server.exponent), random)
    case None => Err(SecurityTypeFailed(EncryptRandomFailed))
    case Some(encrypted) => Ok(RandomMessage(random, FixedBigEndian(|encrypted| % TWO_16, 2) + encrypted))
  }

  /** The random message read back with `readShort` (as the server does):
      the length is the ciphertext's, the bytes after it the ciphertext. */
  lemma RandomMessageLayout(crypto: Crypto, suite: Suite, server: PublicKey, encrypted: seq<byte>, rest: seq<byte>)
    requires crypto.encrypt(BigEndian(server.modulus), BigEndian(server.exponent), RandomBytes(crypto, suite.KeyBytes()))
             == Some(encrypted)
    requires |encrypted| < TWO_15
    ensures WriteRandom(crypto, suite, server).Ok?
    ensures ReadShort(WriteRandom(crypto, suite, server).value.bytes + rest) == Ok(Parsed(|encrypted|, encrypted + rest))
  {
    var bytes := FixedBigEndian(|encrypted|, 2) + encrypted;
    assert WriteRandom(crypto, suite, server).value.bytes == bytes;
    assert bytes + rest == FixedBigEndian(|encrypted|, 2) + (encrypted + rest);
    ReadShortOfWritten(|encrypted|, encrypted + rest);
  }

  /** `readRandom`: a signed `readShort` length that must equal the size of
      the client's modulus, that many bytes, decrypted with the client key
      to exactly `keySize / 8` bytes. */
  function ReadRandom(crypto: Crypto, suite: Suite, client: ClientKey, input: seq<byte>): (r: Res<Parsed<seq<byte>>>)
    ensures r.Ok? ==> |r.value.value| == suite.KeyBytes()
    ensures r.Ok? ==>
      && 2 + |client.public.modulus| <= |input|
      && crypto.decrypt(client.pair, input[2..2 + |client.public.modulus|]) == Some(r.value.value)
      && r.value.rest == input[2 + |client.public.modulus|..]
  {
    var size :- ReadShort(input);
    if size.value != |client.public.modulus| then Err(SecurityTypeFailed(ClientKeyLengthMismatch))
    else
      var buffer :- ReadFully(size.rest, size.value);
      match crypto.decrypt(client.pair, buffer.value)
      case None => Err(SecurityTypeFailed(DecryptRandomFailed))
      case Some(random) =>
        if |random| != suite.KeyBytes() then Err(SecurityTypeFailed(ServerRandomLengthMismatch))
        else
          assert buffer.value == input[2..2 + |client.public.modulus|];
          Ok(Parsed(random, buffer.rest))
  }

  /** A random message of the client modulus's size that decrypts to a
      random of the right size is read as that random. */
  lemma ReadRandomOfWritten(crypto: Crypto, suite: Suite, client: ClientKey, encrypted: seq<byte>, random: seq<byte>, rest: seq<byte>)
    requires |encrypted| == |client.public.modulus| < TWO_15
    requires crypto.decrypt(client.pair, encrypted) == Some(random) && |random| == suite.KeyBytes()
    ensures ReadRandom(crypto, suite, client, FixedBigEndian(|encrypted|, 2) + encrypted + rest) == Ok(Parsed(random, rest))
  {
    assert FixedBigEndian(|encrypted|, 2) + encrypted + rest == FixedBigEndian(|encrypted|, 2) + (encrypted + rest);
    ReadShortOfWritten(|encrypted|, encrypted + rest);
    assert (encrypted + rest)[..|encrypted|] == encrypted && (encrypted + rest)[|encrypted|..] == rest;
  }

  /** A ciphertext of any other size than the client's modulus fails as a
      key-length mismatch, before it is read. */
  lemma RandomSizeMismatch(crypto: Crypto, suite: Suite, client: ClientKey, size: nat, tail: seq<byte>)
    requires size < TWO_15 && size != |client.public.modulus|
    ensures ReadRandom(crypto, suite, client, FixedBigEndian(size, 2) + tail) == Err(SecurityTypeFailed(ClientKeyLengthMismatch))
  {
    ReadShortOfWritten(size, tail);
  }

  /** A random that decrypts to the wrong size fails. */
  lemma RandomLengthMismatch(crypto: Crypto, suite: Suite, client: ClientKey, encrypted: seq<byte>, random: seq<byte>, rest: seq<byte>)
    requires |encrypted| == |client.public.modulus| < TWO_15
    requires crypto.decrypt(client.pair, encrypted) == Some(random) && |random| != suite.KeyBytes()
    ensures ReadRandom(crypto, suite, client, FixedBigEndian(|encrypted|, 2) + encrypted + rest)
            == Err(SecurityTypeFailed(ServerRandomLengthMismatch))
  {
    assert FixedBigEndian(|encrypted|, 2) + encrypted + rest == FixedBigEndian(|encrypted|, 2) + (encrypted + rest);
    ReadShortOfWritten(|encrypted|, encrypted + rest);
    assert (encrypted + rest)[..|encrypted|] == encrypted;
  }

  /** The two session keys. */
  datatype Keys = Keys(readKey: seq<byte>, writeKey: seq<byte>)

  /** The digest of a sequence of bytes, cut or zero-padded to a key. */
  function KeyFrom(crypto: Crypto, suite: Suite, material: seq<byte>): (r: seq<byte>)
    ensures |r| == suite.KeyBytes()
  {
    CopyPrefix(crypto.digest(suite.hash, material), suite.KeyBytes())
  }

  /** `setCipher`: the read key from the client random then the server
      random, the write key from the two the other way round. */
  function SetCipher(crypto: Crypto, suite: Suite, clientRandom: seq<byte>, serverRandom: seq<byte>): (r: Keys)
    ensures |r.readKey| == suite.KeyBytes() && |r.writeKey| == suite.KeyBytes()
    ensures var toRead := crypto.digest(suite.hash, clientRandom + serverRandom);
      suite.KeyBytes() <= |toRead| ==> r.readKey == toRead[..suite.KeyBytes()]
    ensures var toWrite := crypto.digest(suite.hash, serverRandom + clientRandom);
      suite.KeyBytes() <= |toWrite| ==> r.writeKey == toWrite[..suite.KeyBytes()]
  {
    Keys(KeyFrom(crypto, suite, clientRandom + serverRandom), KeyFrom(crypto, suite, serverRandom + clientRandom))
  }

  /** The keys mirror each other: what one side derives to write, the side
      that holds the randoms the other way round derives to read, so a
      server following the same rule with its own random first encrypts
      with the client's read key and decrypts with its write key. */
  lemma KeysMirror(crypto: Crypto, suite: Suite, clientRandom: seq<byte>, serverRandom: seq<byte>)
    ensures SetCipher(crypto, suite, clientRandom, serverRandom).readKey == SetCipher(crypto, suite, serverRandom, clientRandom).writeKey
    ensures SetCipher(crypto, suite, clientRandom, serverRandom).writeKey == SetCipher(crypto, suite, serverRandom, clientRandom).readKey
  {
  }

  /** The bytes a key contributes to the hash exchange. */
  function KeyBlock(key: PublicKey): (r: seq<byte>)
    ensures |r| == 4 + |key.modulus| + |key.exponent|
  {
    KeyLengthField(key.length) + key.modulus + key.exponent
  }

  /** The hash over one side's key block and then the other's. */
  function HashOver(crypto: Crypto, suite: Suite, first: PublicKey, second: PublicKey): seq<byte>
  {
    crypto.digest(suite.hash, KeyBlock(first) + KeyBlock(second))
  }

  /** Within the key bounds, a key block is the key's own message. */
  lemma KeyBlockIsKeyMessage(key: PublicKey)
    requires MIN_KEY_LENGTH <= key.length <= MAX_KEY_LENGTH
    ensures KeyBlock(key) == KeyMessage(key)
  {
    KeyLengthFieldIsInt(key.length);
  }

  /** `writeHash`: one frame holding the hash over the client's key block
      and then the server's. */
  function WriteHash(aead: Aead, crypto: Crypto, suite: Suite, enc: Encryptor, client: PublicKey, server: PublicKey): (r: Outcome<Encryptor, seq<byte>>)
    ensures r.stream == enc.(nonce := enc.nonce + 1)
    ensures r.result.Ok? <==> Fits(|HashOver(crypto, suite, client, server)|)
  {
    Write(aead, enc, HashOver(crypto, suite, client, server))
  }

  /** `readHash`: one frame, which must hold the hash over the server's key
      block and then the client's. */
  function ReadHash(aead: Aead, crypto: Crypto, suite: Suite, dec: Decryptor, client: PublicKey, server: PublicKey, input: seq<byte>)
    : (r: Outcome<Decryptor, Parsed<()>>)
    ensures r.stream == dec.(nonce := dec.nonce + 1)
    ensures r.result.Ok? <==>
      && Read(aead, dec, input).result.Ok?
      && Read(aead, dec, input).result.value.value == HashOver(crypto, suite, server, client)
    ensures r.result.Ok? ==> r.result.value.rest == Read(aead, dec, input).result.value.rest
    ensures Read(aead, dec, input).result.Ok? && !r.result.Ok? ==> r.result == Err(SecurityTypeFailed(HashMismatch))
  {
    var received := Read(aead, dec, input);
    match received.result
    case Err(e) => Outcome(received.stream, Err(e))
    case Ok(frame) =>
      if frame.value != HashOver(crypto, suite, server, client) then Outcome(received.stream, Err(SecurityTypeFailed(HashMismatch)))
      else Outcome(received.stream, Ok(Parsed((), frame.rest)))
  }

  /** The hash exchange closes: a server that writes its hash by the same
      rule as the client, its own key block first, under the key and nonce
      the client reads with, passes the client's check. */
  lemma HashExchangeAgrees(aead: Aead, crypto: Crypto, suite: Suite, dec: Decryptor, client: PublicKey, server: PublicKey,
                           serverEnc: Encryptor, rest: seq<byte>)
    requires aead.Valid() && aead.NoncesAgree() && serverEnc.key == dec.key && serverEnc.nonce == dec.nonce
    requires Fits(|HashOver(crypto, suite, server, client)|)
    ensures var sent := WriteHash(aead, crypto, suite, serverEnc, server, client).result.value;
      ReadHash(aead, crypto, suite, dec, client, server, sent + rest).result == Ok(Parsed((), rest))
  {
    ReadOfWrite(aead, serverEnc, dec, HashOver(crypto, suite, server, client), rest);
  }

  /** A frame holding anything but the expected hash fails the check. */
  lemma WrongHashRejected(aead: Aead, crypto: Crypto, suite: Suite, dec: Decryptor, client: PublicKey, server: PublicKey,
                          serverEnc: Encryptor, sent: seq<byte>, rest: seq<byte>)
    requires aead.Valid() && aead.NoncesAgree() && serverEnc.key == dec.key && serverEnc.nonce == dec.nonce
    requires Fits(|sent|) && sent != HashOver(crypto, suite, server, client)
    ensures ReadHash(aead, crypto, suite, dec, client, server, Write(aead, serverEnc, sent).result.value + rest).result
            == Err(SecurityTypeFailed(HashMismatch))
  {
    ReadOfWrite(aead, serverEnc, dec, sent, rest);
  }

  /** Whether a subtype is one the handler knows: 1 or 2. */
  predicate KnownSubtype(subtype: int)
  {
    subtype == 1 || subtype == 2
  }

  /** `readSubtype`: the first byte of the next frame, as a signed byte,
      which must be 1 or 2; an empty frame has no first byte. */
  function ReadSubtype(aead: Aead, dec: Decryptor, input: seq<byte>): (r: Outcome<Decryptor, Parsed<int>>)
    ensures r.stream == dec.(nonce := dec.nonce + 1)
    ensures r.result.Ok? <==>
      var frame := Read(aead, dec, input).result;
      frame.Ok? && |frame.value.value| > 0 && KnownSubtype(SignedByte(frame.value.value[0]))
    ensures r.result.Ok? ==>
      var frame := Read(aead, dec, input).result.value;
      r.result.value.value == frame.value[0] as int && r.result.value.rest == frame.rest
    ensures Read(aead, dec, input).result.Ok? && |Read(aead, dec, input).result.value.value| == 0
            ==> r.result == Err(IndexOutOfBounds)
  {
    var received := Read(aead, dec, input);
    match received.result
    case Err(e) => Outcome(received.stream, Err(e))
    case Ok(frame) =>
      if |frame.value| == 0 then Outcome(received.stream, Err(IndexOutOfBounds))
      else
        var subtype := SignedByte(frame.value[0]);
        if !KnownSubtype(subtype) then Outcome(received.stream, Err(SecurityTypeFailed(UnknownSubtype)))
        else Outcome(received.stream, Ok(Parsed(subtype, frame.rest)))
  }

  /** The subtype a server sends in a one-byte frame is the one read. */
  lemma SubtypeReadsBack(aead: Aead, dec: Decryptor, serverEnc: Encryptor, subtype: int, rest: seq<byte>)
    requires aead.Valid() && aead.NoncesAgree() && serverEnc.key == dec.key && serverEnc.nonce == dec.nonce
    requires KnownSubtype(subtype)
    ensures ReadSubtype(aead, dec, Write(aead, serverEnc, [subtype as byte]).result.value + rest).result
            == Ok(Parsed(subtype, rest))
  {
    ReadOfWrite(aead, serverEnc, dec, [subtype as byte], rest);
  }

  /** The credential message: an empty username's length, the password's
      length cut to a byte, and the password. */
  function Credentials(password: seq<byte>): (r: seq<byte>)
    ensures |r| == 2 + |password|
  {
    [0, LowByte(|password|)] + password
  }

  /** How a server takes the credential message apart: a username length
      and username, then a password length and password, and nothing else. */
  function ParseCredentials(b: seq<byte>): (r: Option<(seq<byte>, seq<byte>)>)
    ensures r.Some? ==> |b| == 2 + |r.value.0| + |r.value.1|
  {
    if |b| < 1 || |b| < 1 + b[0] as int + 1 then None
    else
      var username := b[1..1 + b[0] as int];
      var afterName := b[1 + b[0] as int..];
      if |afterName| != 1 + afterName[0] as int then None
      else Some((username, afterName[1..]))
  }

  /** A password shorter than 256 bytes arrives whole, after an empty
      username. */
  lemma CredentialsParse(password: seq<byte>)
    requires |password| < 256
    ensures ParseCredentials(Credentials(password)) == Some(([], password))
  {
    var b := Credentials(password);
    assert b[1..] == [LowByte(|password|)] + password;
  }

  /** A 256-byte password is announced as empty: the length byte wraps. */
  lemma LongPasswordLengthWraps(password: seq<byte>)
    requires |password| == 256
    ensures Credentials(password)[1] == 0
    ensures ParseCredentials(Credentials(password)) == None
  {
  }

  /** `writeCredentials`: the credential message in one frame. */
  function WriteCredentials(aead: Aead, enc: Encryptor, password: seq<byte>): (r: Outcome<Encryptor, seq<byte>>)
    ensures r.stream == enc.(nonce := enc.nonce + 1)
    ensures r.result.Ok? <==> |password| + 2 + TAG_LENGTH <= SCRATCH_LENGTH
  {
    Write(aead, enc, Credentials(password))
  }

  /** What the server decrypts from the credential frame, under the key and
      nonce the client wrote with, is the credential message. */
  lemma CredentialsReadBack(aead: Aead, enc: Encryptor, serverDec: Decryptor, password: seq<byte>, rest: seq<byte>)
    requires aead.Valid() && aead.NoncesAgree() && serverDec.key == enc.key && serverDec.nonce == enc.nonce
    requires |password| + 2 + TAG_LENGTH <= SCRATCH_LENGTH
    ensures Read(aead, serverDec, WriteCredentials(aead, enc, password).result.value + rest).result
            == Ok(Parsed(Credentials(password), rest))
  {
    ReadOfWrite(aead, enc, serverDec, Credentials(password), rest);
  }

  /** The unencrypted half of the handshake: both keys and both randoms,
      and the client's message carrying its key and random. */
  datatype Exchange = Exchange(server: PublicKey, client: ClientKey, clientRandom: seq<byte>, serverRandom: seq<byte>,
                               sent: seq<byte>)

  /** `readPublicKey` to `readRandom`: the server's key, the client's key
      of the same length, the client random, the server random. */
  function KeyExchange(crypto: Crypto, suite: Suite, input: seq<byte>): (r: Res<Parsed<Exchange>>)
    ensures r.Ok? ==>
      var x := r.value.value;
      && WellSized(x.server)
      && x.client == GenerateClientKey(crypto, x.server.length)
      && |x.clientRandom| == suite.KeyBytes() && |x.serverRandom| == suite.KeyBytes()
      && |x.sent| >= 4 && x.sent[..4] == Int32Bytes(x.server.length)
    ensures r.Ok? ==>
      var x := r.value.value;
      && WriteRandom(crypto, suite, x.server).Ok?
      && x.clientRandom == WriteRandom(crypto, suite, x.server).value.random
      && x.sent == KeyMessage(x.client.public) + WriteRandom(crypto, suite, x.server).value.bytes
  {
    var server :- ReadPublicKey(crypto, input);
    var client := GenerateClientKey(crypto, server.value.length);
    var clientRandom :- WriteRandom(crypto, suite, server.value);
    var serverRandom :- ReadRandom(crypto, suite, client, server.rest);
    var sent := KeyMessage(client.public) + clientRandom.bytes;
    assert sent[..4] == Int32Bytes(client.public.length);
    Ok(Parsed(Exchange(server.value, client, clientRandom.random, serverRandom.value, sent), serverRandom.rest))
  }

  /** The encrypted half of the handshake, from the stream keys on. */
  datatype Secured = Secured(keys: Keys, encryptor: Encryptor, decryptor: Decryptor, subtype: int, sent: seq<byte>)

  /** `setCipher` to `writeCredentials`: the keys, the hash each way, the
      subtype and the credentials, both AES streams starting at nonce 0. */
  function SecureChannel(aead: Aead, crypto: Crypto, suite: Suite, x: Exchange, input: seq<byte>): (r: Res<Parsed<Secured>>)
    ensures r.Ok? ==>
      var c := r.value.value;
      && c.keys == SetCipher(crypto, suite, x.clientRandom, x.serverRandom)
      && c.encryptor == Encryptor(c.keys.writeKey, 2) && c.decryptor == Decryptor(c.keys.readKey, 2)
      && KnownSubtype(c.subtype)
    ensures r.Ok? ==>
      var c := r.value.value;
      var hash := WriteHash(aead, crypto, suite, Encryptor(c.keys.writeKey, 0), x.client.public, x.server).result;
      var credentials := WriteCredentials(aead, Encryptor(c.keys.writeKey, 1), crypto.password).result;
      && hash.Ok? && credentials.Ok?
      && c.sent == hash.value + credentials.value
  {
    var keys := SetCipher(crypto, suite, x.clientRandom, x.serverRandom);
    var hashOut := WriteHash(aead, crypto, suite, Encryptor(keys.writeKey, 0), x.client.public, x.server);
    var hashFrame :- hashOut.result;
    var hashIn := ReadHash(aead, crypto, suite, Decryptor(keys.readKey, 0), x.client.public, x.server, input);
    var checked :- hashIn.result;
    var subtypeIn := ReadSubtype(aead, hashIn.stream, checked.rest);
    var subtype :- subtypeIn.result;
    var credentialsOut := WriteCredentials(aead, hashOut.stream, crypto.password);
    var credentialsFrame :- credentialsOut.result;
    Ok(Parsed(Secured(keys, credentialsOut.stream, subtypeIn.stream, subtype.value, hashFrame + credentialsFrame), subtype.rest))
  }

  /** Everything a completed handshake holds. */
  datatype Session = Session(exchange: Exchange, channel: Secured, output: seq<byte>)

  /** `authenticate` up to the security result: the type byte unless the
      version is 3.3, then the key exchange, then the encrypted channel,
      the first failure ending the handshake. The output opens with the
      type byte, when sent, and then the client's key length. The rest of
      the input is where the security result is read, off the raw stream. */
  function Authenticate(aead: Aead, crypto: Crypto, suite: Suite, authCode: int, version: ProtocolVersion, input: seq<byte>)
    : (r: Res<Parsed<Session>>)
    ensures r.Ok? ==>
      r.value.value.output == RequestAuthentication(version, authCode) + r.value.value.exchange.sent + r.value.value.channel.sent
    ensures r.Ok? ==>
      |r.value.value.exchange.sent| >= 4 && r.value.value.exchange.sent[..4] == Int32Bytes(r.value.value.exchange.server.length)
  {
    var x :- KeyExchange(crypto, suite, input);
    var c :- SecureChannel(aead, crypto, suite, x.value, x.rest);
    Ok(Parsed(Session(x.value, c.value, RequestAuthentication(version, authCode) + x.value.sent + c.value.sent), c.rest))
  }

  /** The output opens with the type byte exactly when the version is not
      3.3, and the client's key length follows it. */
  lemma OutputOpensWithRequest(aead: Aead, crypto: Crypto, suite: Suite, authCode: int, version: ProtocolVersion, input: seq<byte>)
    requires Authenticate(aead, crypto, suite, authCode, version, input).Ok?
    ensures var s := Authenticate(aead, crypto, suite, authCode, version, input).value.value;
      var offset := if version.Is33() then 0 else 1;
      && |s.output| >= offset + 4
      && s.output[offset..offset + 4] == Int32Bytes(s.exchange.server.length)
      && (!version.Is33() ==> s.output[0] as int == authCode % 256)
  {
    var s := Authenticate(aead, crypto, suite, authCode, version, input).value.value;
    OpensWith(version, authCode, s.exchange.sent, s.exchange.server.length, s.channel.sent, s.output);
  }

  /** An output made of the type byte, when sent, then a message opening
      with a key length, then anything: the slicing step of the lemma
      above. */
  lemma OpensWith(version: ProtocolVersion, authCode: int, sent: seq<byte>, length: int, more: seq<byte>, output: seq<byte>)
    requires output == RequestAuthentication(version, authCode) + sent + more
    requires |sent| >= 4 && sent[..4] == Int32Bytes(length)
    ensures var offset := if version.Is33() then 0 else 1;
      && |output| >= offset + 4
      && output[offset..offset + 4] == Int32Bytes(length)
      && (!version.Is33() ==> output[0] as int == authCode % 256)
  {
    var request := RequestAuthentication(version, authCode);
    assert output[|request|..|request| + 4] == sent[..4];
  }

  /** A server key below 1024 bits ends the handshake at once, whatever
      the server sends after its length. */
  lemma ShortKeyEndsHandshake(aead: Aead, crypto: Crypto, suite: Suite, authCode: int, version: ProtocolVersion,
                              length: int, tail: seq<byte>)
    requires -TWO_31 <= length < MIN_KEY_LENGTH
    ensures Authenticate(aead, crypto, suite, authCode, version, Int32Bytes(length) + tail) == Err(SecurityTypeFailed(KeyTooShort))
  {
    ShortKeyRejected(crypto, length, tail);
  }

  /** A server's unencrypted messages: its key, then the encrypted server
      random with its length. */
  function ServerKeyMessages(server: PublicKey, encryptedRandom: seq<byte>): seq<byte>
  {
    KeyMessage(server) + FixedBigEndian(|encryptedRandom|, 2) + encryptedRandom
  }

  /** Against a server that sends a valid key of the right size and a
      server random the client key decrypts to the right size, the key
      exchange completes with those, and nothing after them is read. */
  lemma KeyExchangeCompletes(crypto: Crypto, suite: Suite, server: PublicKey, encryptedRandom: seq<byte>,
                             serverRandom: seq<byte>, rest: seq<byte>)
    requires WellSized(server) && crypto.publicKeyValid(BigEndian(server.modulus), BigEndian(server.exponent))
    requires WriteRandom(crypto, suite, server).Ok?
    requires var client := GenerateClientKey(crypto, server.length);
      && |encryptedRandom| == |client.public.modulus| < TWO_15
      && crypto.decrypt(client.pair, encryptedRandom) == Some(serverRandom)
    requires |serverRandom| == suite.KeyBytes()
    ensures var r := KeyExchange(crypto, suite, ServerKeyMessages(server, encryptedRandom) + rest);
      && r.Ok? && r.value.rest == rest
      && r.value.value.server == server && r.value.value.client == GenerateClientKey(crypto, server.length)
      && r.value.value.clientRandom == RandomBytes(crypto, suite.KeyBytes())
      && r.value.value.serverRandom == serverRandom
  {
    var client := GenerateClientKey(crypto, server.length);
    var afterKey := FixedBigEndian(|encryptedRandom|, 2) + encryptedRandom + rest;
    assert ServerKeyMessages(server, encryptedRandom) + rest == KeyMessage(server) + afterKey;
    ReadPublicKeyOfWritten(crypto, server, afterKey);
    ReadRandomOfWritten(crypto, suite, client, encryptedRandom, serverRandom, rest);
  }

  /** A server's encrypted messages: its hash over its own key block and
      then the client's, then the subtype, encrypted with the key it
      derives to write (the randoms the other way round) at nonces 0 and 1. */
  function ServerChannelMessages(aead: Aead, crypto: Crypto, suite: Suite, server: PublicKey, client: PublicKey,
                                 clientRandom: seq<byte>, serverRandom: seq<byte>, subtype: int): seq<byte>
    requires KnownSubtype(subtype) && Fits(|HashOver(crypto, suite, server, client)|)
  {
    var writeKey := SetCipher(crypto, suite, serverRandom, clientRandom).writeKey;
    Write(aead, Encryptor(writeKey, 0), HashOver(crypto, suite, server, client)).result.value
    + Write(aead, Encryptor(writeKey, 1), [subtype as byte]).result.value
  }

  /** Against a server that keys and hashes by the same rules, the
      encrypted half completes with the subtype the server sent, once both
      hashes and the credentials fit a frame. */
  lemma SecureChannelCompletes(aead: Aead, crypto: Crypto, suite: Suite, x: Exchange, subtype: int, rest: seq<byte>)
    requires aead.Valid() && aead.NoncesAgree() && KnownSubtype(subtype)
    requires Fits(|HashOver(crypto, suite, x.server, x.client.public)|)
    requires Fits(|HashOver(crypto, suite, x.client.public, x.server)|)
    requires Fits(|Credentials(crypto.password)|)
    ensures var input := ServerChannelMessages(aead, crypto, suite, x.server, x.client.public, x.clientRandom, x.serverRandom, subtype) + rest;
      var r := SecureChannel(aead, crypto, suite, x, input);
      r.Ok? && r.value.rest == rest && r.value.value.subtype == subtype
  {
    var keys := SetCipher(crypto, suite, x.clientRandom, x.serverRandom);
    KeysMirror(crypto, suite, x.clientRandom, x.serverRandom);
    var writeKey := SetCipher(crypto, suite, x.serverRandom, x.clientRandom).writeKey;
    var subtypeFrame := Write(aead, Encryptor(writeKey, 1), [subtype as byte]).result.value;
    var hashFrame := Write(aead, Encryptor(writeKey, 0), HashOver(crypto, suite, x.server, x.client.public)).result.value;
    assert ServerChannelMessages(aead, crypto, suite, x.server, x.client.public, x.clientRandom, x.serverRandom, subtype) + rest
        == hashFrame + (subtypeFrame + rest);
    HashExchangeAgrees(aead, crypto, suite, Decryptor(keys.readKey, 0), x.client.public, x.server, Encryptor(writeKey, 0), subtypeFrame + rest);
    SubtypeReadsBack(aead, Decryptor(keys.readKey, 1), Encryptor(writeKey, 1), subtype, rest);
  }

  /** The two halves make the handshake: when the key exchange completes
      and the encrypted half completes on what follows, so does the
      handshake, with both results. */
  lemma AuthenticateOfHalves(aead: Aead, crypto: Crypto, suite: Suite, authCode: int, version: ProtocolVersion,
                             input: seq<byte>, x: Exchange, middle: seq<byte>, c: Secured, rest: seq<byte>)
    requires KeyExchange(crypto, suite, input) == Ok(Parsed(x, middle))
    requires SecureChannel(aead, crypto, suite, x, middle) == Ok(Parsed(c, rest))
    ensures var r := Authenticate(aead, crypto, suite, authCode, version, input);
      r.Ok? && r.value.rest == rest && r.value.value.exchange == x && r.value.value.channel == c
  {
  }

  /** Against a server that follows the protocol, the handshake completes:
      the client ends up with the server's key, both randoms, the subtype
      the server sent, and the input after the server's messages. */
  lemma HandshakeCompletes(aead: Aead, crypto: Crypto, suite: Suite, authCode: int, version: ProtocolVersion,
                           server: PublicKey, encryptedRandom: seq<byte>, serverRandom: seq<byte>, subtype: int, rest: seq<byte>)
    requires aead.Valid() && aead.NoncesAgree() && KnownSubtype(subtype)
    requires WellSized(server) && crypto.publicKeyValid(BigEndian(server.modulus), BigEndian(server.exponent))
    requires WriteRandom(crypto, suite, server).Ok?
    requires var client := GenerateClientKey(crypto, server.length);
      && |encryptedRandom| == |client.public.modulus| < TWO_15
      && crypto.decrypt(client.pair, encryptedRandom) == Some(serverRandom)
    requires |serverRandom| == suite.KeyBytes()
    requires Fits(|HashOver(crypto, suite, server, GenerateClientKey(crypto, server.length).public)|)
    requires Fits(|HashOver(crypto, suite, GenerateClientKey(crypto, server.length).public, server)|)
    requires Fits(|Credentials(crypto.password)|)
    ensures var client := GenerateClientKey(crypto, server.length).public;
      var clientRandom := RandomBytes(crypto, suite.KeyBytes());
      var input := ServerKeyMessages(server, encryptedRandom)
                   + ServerChannelMessages(aead, crypto, suite, server, client, clientRandom, serverRandom, subtype) + rest;
      var r := Authenticate(aead, crypto, suite, authCode, version, input);
      && r.Ok? && r.value.rest == rest
      && r.value.value.exchange.server == server
      && r.value.value.exchange.clientRandom == clientRandom && r.value.value.exchange.serverRandom == serverRandom
      && r.value.value.channel.subtype == subtype
  {
    var client := GenerateClientKey(crypto, server.length).public;
    var clientRandom := RandomBytes(crypto, suite.KeyBytes());
    var channel := ServerChannelMessages(aead, crypto, suite, server, client, clientRandom, serverRandom, subtype);
    var input := ServerKeyMessages(server, encryptedRandom) + channel + rest;
    assert input == ServerKeyMessages(server, encryptedRandom) + (channel + rest);
    KeyExchangeCompletes(crypto, suite, server, encryptedRandom, serverRandom, channel + rest);
    var x := KeyExchange(crypto, suite, input).value.value;
    SecureChannelCompletes(aead, crypto, suite, x, subtype, rest);
    var c := SecureChannel(aead, crypto, suite, x, channel + rest).value;
    AuthenticateOfHalves(aead, crypto, suite, authCode, version, input, x, channel + rest, c.value, rest);
  }

  /** What a server following the protocol takes from the client's
      messages: the client key, the encrypted client random, the hash and
      the credential message. */
  datatype ClientMessages = ClientMessages(key: PublicKey, encryptedRandom: seq<byte>, hash: seq<byte>, credentials: seq<byte>)

  /** The server's reading of the unencrypted messages: the client key
      message by the rules the client applies to the server's, then a
      `readShort` length and that many ciphertext bytes. */
  function ServerReadsKeyExchange(crypto: Crypto, input: seq<byte>): Res<Parsed<(PublicKey, seq<byte>)>>
  {
    var key :- ReadPublicKey(crypto, input);
    var encrypted :- ServerReadsRandom(key.rest);
    Ok(Parsed((key.value, encrypted.value), encrypted.rest))
  }

  /** A `readShort` length and that many ciphertext bytes. */
  function ServerReadsRandom(input: seq<byte>): Res<Parsed<seq<byte>>>
  {
    var size :- ReadShort(input);
    if size.value < 0 then Err(NegativeArraySize)
    else ReadFully(size.rest, size.value)
  }

  /** The server's reading of the encrypted messages: two frames under the
      key it reads with, at nonces 0 and 1. */
  function ServerReadsChannel(aead: Aead, readKey: seq<byte>, input: seq<byte>): Res<Parsed<(seq<byte>, seq<byte>)>>
  {
    var hash :- Read(aead, Decryptor(readKey, 0), input).result;
    var credentials :- Read(aead, Decryptor(readKey, 1), hash.rest).result;
    Ok(Parsed((hash.value, credentials.value), credentials.rest))
  }

  /** The server's reading of everything the client sends after the type
      byte, in order. */
  function ServerReadsClient(aead: Aead, crypto: Crypto, readKey: seq<byte>, input: seq<byte>): Res<Parsed<ClientMessages>>
  {
    var kx :- ServerReadsKeyExchange(crypto, input);
    var channel :- ServerReadsChannel(aead, readKey, kx.rest);
    Ok(Parsed(ClientMessages(kx.value.0, kx.value.1, channel.value.0, channel.value.1), channel.rest))
  }

  /** The client's key message and random message read back on the server
      as the client key and the ciphertext. */
  lemma KeyExchangeSentReads(crypto: Crypto, client: PublicKey, encrypted: seq<byte>, tail: seq<byte>)
    requires WellSized(client) && crypto.publicKeyValid(BigEndian(client.modulus), BigEndian(client.exponent))
    requires |encrypted| < TWO_15
    ensures ServerReadsKeyExchange(crypto, KeyMessage(client) + (FixedBigEndian(|encrypted|, 2) + encrypted) + tail)
            == Ok(Parsed((client, encrypted), tail))
  {
    var header := FixedBigEndian(|encrypted|, 2);
    ReadPublicKeyOfWritten(crypto, client, header + encrypted + tail);
    RandomSentReads(encrypted, tail);
    RegroupMiddle(KeyMessage(client), header, encrypted, tail);
    KeyExchangeAfterKey(crypto, KeyMessage(client) + (header + encrypted + tail), client, header + encrypted + tail, encrypted, tail);
  }

  /** Once the key message reads as the key and the random message after
      it as the ciphertext, the two read together as both. */
  lemma KeyExchangeAfterKey(crypto: Crypto, input: seq<byte>, client: PublicKey, afterKey: seq<byte>,
                            encrypted: seq<byte>, tail: seq<byte>)
    requires ReadPublicKey(crypto, input) == Ok(Parsed(client, afterKey))
    requires ServerReadsRandom(afterKey) == Ok(Parsed(encrypted, tail))
    ensures ServerReadsKeyExchange(crypto, input) == Ok(Parsed((client, encrypted), tail))
  {
  }

  /** Moving the last part of a message into the middle group. */
  lemma RegroupMiddle(a: seq<byte>, b: seq<byte>, c: seq<byte>, d: seq<byte>)
    ensures a + (b + c) + d == a + (b + c + d)
  {
  }

  /** The random message reads back on the server as the ciphertext. */
  lemma RandomSentReads(encrypted: seq<byte>, tail: seq<byte>)
    requires |encrypted| < TWO_15
    ensures ServerReadsRandom(FixedBigEndian(|encrypted|, 2) + encrypted + tail) == Ok(Parsed(encrypted, tail))
  {
    ReadShortOfWritten(|encrypted|, encrypted + tail);
    RandomAfterLength(FixedBigEndian(|encrypted|, 2), encrypted, tail);
  }

  /** Once a header reads as `|encrypted|`, the ciphertext follows it. */
  lemma RandomAfterLength(header: seq<byte>, encrypted: seq<byte>, tail: seq<byte>)
    requires ReadShort(header + (encrypted + tail)) == Ok(Parsed(|encrypted|, encrypted + tail))
    ensures ServerReadsRandom(header + encrypted + tail) == Ok(Parsed(encrypted, tail))
  {
    assert header + encrypted + tail == header + (encrypted + tail);
    assert (encrypted + tail)[..|encrypted|] == encrypted && (encrypted + tail)[|encrypted|..] == tail;
  }

  /** The hash frame at nonce 0 and the credential frame at nonce 1 read
      back on the server, under the key the client wrote with, as the hash
      and the credential message. */
  lemma ChannelSentReads(aead: Aead, key: seq<byte>, hash: seq<byte>, credentials: seq<byte>, tail: seq<byte>)
    requires aead.Valid() && aead.NoncesAgree() && Fits(|hash|) && Fits(|credentials|)
    ensures var hashFrame := Write(aead, Encryptor(key, 0), hash).result.value;
      var credentialsFrame := Write(aead, Encryptor(key, 1), credentials).result.value;
      ServerReadsChannel(aead, key, hashFrame + credentialsFrame + tail) == Ok(Parsed((hash, credentials), tail))
  {
    var hashFrame := Write(aead, Encryptor(key, 0), hash).result.value;
    var credentialsFrame := Write(aead, Encryptor(key, 1), credentials).result.value;
    assert hashFrame + credentialsFrame + tail == hashFrame + (credentialsFrame + tail);
    ReadOfWrite(aead, Encryptor(key, 0), Decryptor(key, 0), hash, credentialsFrame + tail);
    ReadOfWrite(aead, Encryptor(key, 1), Decryptor(key, 1), credentials, tail);
  }

  /** The client's messages as the key exchange and the channel lay them
      out read back on the server, in order and with nothing left over. */
  lemma SentReads(aead: Aead, crypto: Crypto, key: seq<byte>, client: PublicKey, encrypted: seq<byte>,
                  hash: seq<byte>, credentials: seq<byte>)
    requires aead.Valid() && aead.NoncesAgree() && Fits(|hash|) && Fits(|credentials|)
    requires WellSized(client) && crypto.publicKeyValid(BigEndian(client.modulus), BigEndian(client.exponent))
    requires |encrypted| < TWO_15
    ensures var hashFrame := Write(aead, Encryptor(key, 0), hash).result.value;
      var credentialsFrame := Write(aead, Encryptor(key, 1), credentials).result.value;
      ServerReadsClient(aead, crypto, key, KeyMessage(client) + (FixedBigEndian(|encrypted|, 2) + encrypted) + (hashFrame + credentialsFrame))
      == Ok(Parsed(ClientMessages(client, encrypted, hash, credentials), []))
  {
    var hashFrame := Write(aead, Encryptor(key, 0), hash).result.value;
    var credentialsFrame := Write(aead, Encryptor(key, 1), credentials).result.value;
    KeyExchangeSentReads(crypto, client, encrypted, hashFrame + credentialsFrame);
    ChannelSentReads(aead, key, hash, credentials, []);
    assert hashFrame + credentialsFrame + [] == hashFrame + credentialsFrame;
    ClientAfterKeyExchange(aead, crypto, key, KeyMessage(client) + (FixedBigEndian(|encrypted|, 2) + encrypted) + (hashFrame + credentialsFrame),
                           client, encrypted, hashFrame + credentialsFrame, hash, credentials, []);
  }

  /** Once the unencrypted messages read as the key and the ciphertext and
      the frames after them as the hash and the credentials, the whole
      reads as all four. */
  lemma ClientAfterKeyExchange(aead: Aead, crypto: Crypto, key: seq<byte>, input: seq<byte>, client: PublicKey,
                               encrypted: seq<byte>, frames: seq<byte>, hash: seq<byte>, credentials: seq<byte>, rest: seq<byte>)
    requires ServerReadsKeyExchange(crypto, input) == Ok(Parsed((client, encrypted), frames))
    requires ServerReadsChannel(aead, key, frames) == Ok(Parsed((hash, credentials), rest))
    ensures ServerReadsClient(aead, crypto, key, input) == Ok(Parsed(ClientMessages(client, encrypted, hash, credentials), rest))
  {
  }

  /** The output side of any completed handshake: after the type byte,
      when sent, a server following the protocol reads the client key, the
      encrypted client random, the hash over the client's key block and
      then its own at nonce 0 under the key it derives to read, and the
      credential message at nonce 1, and nothing is left over. */
  lemma SessionSends(aead: Aead, crypto: Crypto, suite: Suite, authCode: int, version: ProtocolVersion, input: seq<byte>,
                     clientEncrypted: seq<byte>)
    requires aead.Valid() && aead.NoncesAgree() && crypto.Valid()
    requires Authenticate(aead, crypto, suite, authCode, version, input).Ok?
    requires var x := Authenticate(aead, crypto, suite, authCode, version, input).value.value.exchange;
      && crypto.publicKeyValid(BigEndian(x.client.public.modulus), BigEndian(x.client.public.exponent))
      && crypto.encrypt(BigEndian(x.server.modulus), BigEndian(x.server.exponent), x.clientRandom) == Some(clientEncrypted)
      && |clientEncrypted| < TWO_15
    ensures var s := Authenticate(aead, crypto, suite, authCode, version, input).value.value;
      var x := s.exchange;
      var request := RequestAuthentication(version, authCode);
      var serverReadKey := SetCipher(crypto, suite, x.serverRandom, x.clientRandom).readKey;
      && |s.output| >= |request| && s.output[..|request|] == request
      && ServerReadsClient(aead, crypto, serverReadKey, s.output[|request|..])
         == Ok(Parsed(ClientMessages(x.client.public, clientEncrypted, HashOver(crypto, suite, x.client.public, x.server),
                                     Credentials(crypto.password)), []))
  {
    var s := Authenticate(aead, crypto, suite, authCode, version, input).value.value;
    var x := s.exchange;
    var c := s.channel;
    var request := RequestAuthentication(version, authCode);
    SessionParts(aead, crypto, suite, authCode, version, input);
    var client := x.client.public;
    var writeKey := c.keys.writeKey;
    KeysMirror(crypto, suite, x.clientRandom, x.serverRandom);
    assert writeKey == SetCipher(crypto, suite, x.serverRandom, x.clientRandom).readKey;
    assert x.sent == KeyMessage(client) + (FixedBigEndian(|clientEncrypted|, 2) + clientEncrypted);
    var hash := HashOver(crypto, suite, client, x.server);
    var hashFrame := Write(aead, Encryptor(writeKey, 0), hash).result.value;
    var credentialsFrame := Write(aead, Encryptor(writeKey, 1), Credentials(crypto.password)).result.value;
    assert c.sent == hashFrame + credentialsFrame;
    SentReads(aead, crypto, writeKey, client, clientEncrypted, hash, Credentials(crypto.password));
    AfterPrefix(request, x.sent, c.sent, s.output);
  }

  /** The bytes after a prefix of three concatenated parts. */
  lemma AfterPrefix(request: seq<byte>, sent: seq<byte>, more: seq<byte>, output: seq<byte>)
    requires output == request + sent + more
    ensures |output| >= |request| && output[..|request|] == request && output[|request|..] == sent + more
  {
  }

  /** A completed handshake's exchange and channel are what the two halves
      computed, and its output is the type byte and what each half sent. */
  lemma SessionParts(aead: Aead, crypto: Crypto, suite: Suite, authCode: int, version: ProtocolVersion, input: seq<byte>)
    requires Authenticate(aead, crypto, suite, authCode, version, input).Ok?
    ensures var x := KeyExchange(crypto, suite, input);
      var s := Authenticate(aead, crypto, suite, authCode, version, input).value.value;
      && x.Ok? && s.exchange == x.value.value
      && SecureChannel(aead, crypto, suite, x.value.value, x.value.rest).Ok?
      && s.channel == SecureChannel(aead, crypto, suite, x.value.value, x.value.rest).value.value
      && s.output == RequestAuthentication(version, authCode) + s.exchange.sent + s.channel.sent
  {
  }
}
