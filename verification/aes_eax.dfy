/** The RA2 record layer: every message travels as a frame of a two-byte
    big-endian length, the AES-EAX ciphertext and its 16-byte tag, the
    length bytes serving as associated data, each direction numbering its
    frames with its own counter as the nonce. AES-EAX itself is a
    collaborator of the model. */
module AesEax {
  import opened Bytes
  import opened Outcomes
  import opened Failures
  import opened Streams

  /** Bytes of authentication tag per frame: the cipher is set up with a
      128-bit MAC. */
  const TAG_LENGTH: nat := 16

  /** The fixed output array both streams hand the cipher. */
  const SCRATCH_LENGTH: nat := 1024

  /** AES-EAX under a key and a 16-byte nonce, with associated data:
      `seal` gives ciphertext and tag, `open` the plaintext or nothing when
      the tag does not verify. `nonceBytes(n, flag)` is
      `ByteUtils.bigIntToBytes(n, 16, flag)`, which turns the frame counter
      into the nonce: the output stream calls it with the flag left out
      (false), the input stream with true. */
  datatype Aead = Aead(
    seal: (seq<byte>, seq<byte>, seq<byte>, seq<byte>) -> seq<byte>,
    open: (seq<byte>, seq<byte>, seq<byte>, seq<byte>) -> Option<seq<byte>>,
    nonceBytes: (nat, bool) -> seq<byte>)
  {
    /** What the model relies on: a sealed message is its plaintext plus a
        tag long, and opens under the same key, nonce and associated data
        to that plaintext. */
    ghost predicate Valid()
    {
      forall key, nonce, aad, plain :: |seal(key, nonce, aad, plain)| == |plain| + TAG_LENGTH
        && open(key, nonce, aad, seal(key, nonce, aad, plain)) == Some(plain)
    }

    /** Whether the two streams derive the same nonce bytes from the same
        counter. Which flag value `bigIntToBytes` gives which bytes is not
        part of this model, so every round trip between an output and an
        input stream requires this. */
    ghost predicate NoncesAgree()
    {
      forall n :: nonceBytes(n, true) == nonceBytes(n, false)
    }

    /** The nonce `AesEaxOutputStream.write` seals counter n under. */
    function WriteNonce(n: nat): seq<byte>
    {
      nonceBytes(n, false)
    }

    /** The nonce `AesEaxInputStream.read` opens counter n under. */
    function ReadNonce(n: nat): seq<byte>
    {
      nonceBytes(n, true)
    }
  }

  /** `AesEaxOutputStream`: the key and the next nonce. */
  datatype Encryptor = Encryptor(key: seq<byte>, nonce: nat)

  /** `AesEaxInputStream`: the key and the next nonce. */
  datatype Decryptor = Decryptor(key: seq<byte>, nonce: nat)

  /** The stream after a call, whatever became of the call. */
  datatype Outcome<S, T> = Outcome(stream: S, result: Res<T>)

  /** The two length bytes of a frame: bytes 2 and 3 of the big-endian
      `int`, that is its low 16 bits. */
  function LengthBytes(n: nat): (r: seq<byte>)
    ensures |r| == 2
  {
    FixedBigEndian(n % TWO_16, 2)
  }

  /** Whether ciphertext and tag of an n-byte message fit the scratch array. */
  predicate Fits(n: nat)
  {
    n + TAG_LENGTH <= SCRATCH_LENGTH
  }

  /** `write`: the nonce is consumed first; a message too long for the
      scratch array fails, anything else goes out as the length bytes then
      the cipher output. */
  function Write(aead: Aead, s: Encryptor, b: seq<byte>): (r: Outcome<Encryptor, seq<byte>>)
    ensures r.stream == s.(nonce := s.nonce + 1)
    ensures r.result.Ok? <==> Fits(|b|)
    ensures r.result.Ok? ==> |r.result.value| >= 2 && r.result.value[..2] == LengthBytes(|b|)
  {
    var next := s.(nonce := s.nonce + 1);
    var lengthBytes := LengthBytes(|b|);
    if !Fits(|b|) then Outcome(next, Err(ScratchBufferOverflow))
    else Outcome(next, Ok(lengthBytes + aead.seal(s.key, aead.WriteNonce(s.nonce), lengthBytes, b)))
  }

  /** `readNBytes`: up to n bytes, fewer when the stream ends first. */
  function ReadUpTo(input: seq<byte>, n: nat): (r: Parsed<seq<byte>>)
    ensures |r.value| == if n <= |input| then n else |input|
    ensures r.value + r.rest == input
  {
    if n <= |input| then Parsed(input[..n], input[n..]) else Parsed(input, [])
  }

  /** Whether the plaintext of an n-byte frame fits the scratch array: on
      decryption the cipher writes only the plaintext there, the tag is
      checked and not copied out. */
  predicate PlainFits(n: nat)
  {
    n <= SCRATCH_LENGTH
  }

  /** `read`: the nonce is consumed first; then the length, then length +
      16 bytes, which the cipher rejects when the stream ended early or the
      plaintext overflows the scratch array; a tag that does not verify is
      "Cipher failed"; otherwise the first `length` bytes of the scratch
      array. */
  function Read(aead: Aead, s: Decryptor, input: seq<byte>): (r: Outcome<Decryptor, Parsed<seq<byte>>>)
    ensures r.stream == s.(nonce := s.nonce + 1)
    ensures r.result.Ok? ==> 2 <= |input|
    ensures r.result.Ok? ==>
      var length := BigEndian(input[..2]);
      && 2 + length + TAG_LENGTH <= |input|
      && PlainFits(length)
      && |r.result.value.value| == length
      && r.result.value.rest == input[2 + length + TAG_LENGTH..]
    ensures 2 <= |input| ==>
      var length := BigEndian(input[..2]);
      (r.result.Ok? <==>
        && 2 + length + TAG_LENGTH <= |input|
        && PlainFits(length)
        && aead.open(s.key, aead.ReadNonce(s.nonce), input[..2], input[2..2 + length + TAG_LENGTH]).Some?)
  {
    var next := s.(nonce := s.nonce + 1);
    match ReadUnsignedShort(input)
    case Err(e) => Outcome(next, Err(e))
    case Ok(length) =>
      FixedOfBigEndian(input[..2]);
      assert length.value == BigEndian(input[..2]);
      var lengthBytes := FixedBigEndian(length.value, 2);
      var toRead := length.value + TAG_LENGTH;
      var frame := ReadUpTo(length.rest, toRead);
      assert |frame.value| == toRead ==> frame.value == input[2..2 + toRead];
      if |frame.value| < toRead then Outcome(next, Err(InputTooShort))
      else if !PlainFits(length.value) then Outcome(next, Err(ScratchBufferOverflow))
      else match aead.open(s.key, aead.ReadNonce(s.nonce), lengthBytes, frame.value)
        case None => Outcome(next, Err(CipherFailed))
        case Some(plain) => Outcome(next, Ok(Parsed(CopyPrefix(plain, length.value), frame.rest)))
  }

  /** A frame as `write` lays it out is taken apart by `read` into the same
      length field and the same ciphertext bytes. */
  lemma FrameLayout(aead: Aead, w: Encryptor, b: seq<byte>, rest: seq<byte>)
    requires aead.Valid() && Fits(|b|)
    ensures var frame := Write(aead, w, b).result.value;
      && ReadUnsignedShort(frame + rest) == Ok(Parsed(|b|, aead.seal(w.key, aead.WriteNonce(w.nonce), LengthBytes(|b|), b) + rest))
      && |aead.seal(w.key, aead.WriteNonce(w.nonce), LengthBytes(|b|), b)| == |b| + TAG_LENGTH
  {
    var sealed := aead.seal(w.key, aead.WriteNonce(w.nonce), LengthBytes(|b|), b);
    assert Write(aead, w, b).result.value + rest == LengthBytes(|b|) + (sealed + rest);
    ReadUnsignedShortOfWritten(|b|, sealed + rest);
  }

  /** A frame written under a key and nonce is read back, under the same
      key and nonce, as the message that was written, and nothing after it
      is consumed. */
  lemma ReadOfWrite(aead: Aead, w: Encryptor, r: Decryptor, b: seq<byte>, rest: seq<byte>)
    requires aead.Valid() && aead.NoncesAgree() && Fits(|b|) && r.key == w.key && r.nonce == w.nonce
    ensures Read(aead, r, Write(aead, w, b).result.value + rest).result == Ok(Parsed(b, rest))
  {
    FrameLayout(aead, w, b, rest);
    var sealed := aead.seal(w.key, aead.WriteNonce(w.nonce), LengthBytes(|b|), b);
    assert LengthBytes(|b|) == FixedBigEndian(|b|, 2);
    assert ReadUpTo(sealed + rest, |b| + TAG_LENGTH) == Parsed(sealed, rest);
    assert aead.ReadNonce(r.nonce) == aead.WriteNonce(w.nonce);
    assert aead.open(r.key, aead.ReadNonce(r.nonce), LengthBytes(|b|), sealed) == Some(b);
    assert CopyPrefix(b, |b|) == b;
  }

  /** A frame whose tag does not verify gives no plaintext. */
  lemma TagFailureGivesNothing(aead: Aead, s: Decryptor, input: seq<byte>)
    requires 2 <= |input| && 2 + BigEndian(input[..2]) + TAG_LENGTH <= |input| && PlainFits(BigEndian(input[..2]))
    requires aead.open(s.key, aead.ReadNonce(s.nonce), input[..2], input[2..2 + BigEndian(input[..2]) + TAG_LENGTH]).None?
    ensures Read(aead, s, input).result == Err(CipherFailed)
  {
    var length := BigEndian(input[..2]);
    FixedOfBigEndian(input[..2]);
    assert ReadUnsignedShort(input) == Ok(Parsed(length, input[2..]));
    assert ReadUpTo(input[2..], length + TAG_LENGTH).value == input[2..2 + length + TAG_LENGTH];
  }

  /** Every message fits a frame. */
  predicate AllFit(msgs: seq<seq<byte>>)
  {
    forall i :: 0 <= i < |msgs| ==> Fits(|msgs[i]|)
  }

  /** Several messages, each in its own frame, the nonce counting up: the
      writes succeed exactly when every message fits, and then each used
      its own nonce, one after the other. */
  function WriteAll(aead: Aead, s: Encryptor, msgs: seq<seq<byte>>): (r: Outcome<Encryptor, seq<byte>>)
    ensures r.stream.key == s.key
    ensures r.result.Ok? <==> AllFit(msgs)
    ensures r.result.Ok? ==> r.stream.nonce == s.nonce + |msgs|
    decreases |msgs|
  {
    if |msgs| == 0 then Outcome(s, Ok([]))
    else
      var first := Write(aead, s, msgs[0]);
      match first.result
      case Err(e) => Outcome(first.stream, Err(e))
      case Ok(frame) =>
        assert AllFit(msgs) <==> AllFit(msgs[1..]) by {
          assert forall i :: 0 <= i < |msgs[1..]| ==> msgs[1..][i] == msgs[i + 1];
        }
        var others := WriteAll(aead, first.stream, msgs[1..]);
        match others.result
        case Err(e) => Outcome(others.stream, Err(e))
        case Ok(frames) => Outcome(others.stream, Ok(frame + frames))
  }
}
