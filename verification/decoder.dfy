/** Where message bytes come from: before RA2 security the session reads
    the socket directly; once an RA2 handler has set up its ciphers, bytes
    come one at a time out of decrypted frames. */
module Decoders {
  import opened Bytes
  import opened Outcomes
  import opened Failures
  import opened Streams
  import opened AesEax

  /** `InputStream.read()`'s answer: a byte as 0..255, or -1. */
  predicate IsReadResult(v: int)
  {
    v == -1 || 0 <= v < 256
  }

  /** `Decoder.raw`: the underlying stream itself, so a read is the next
      byte of the input, or -1 once it is exhausted. */
  function RawRead(input: seq<byte>): (r: Parsed<int>)
    ensures IsReadResult(r.value)
    ensures r.value == -1 <==> |input| == 0
    ensures |input| > 0 ==> r.value == input[0] as int && r.rest == input[1..]
  {
    if |input| == 0 then Parsed(-1, input) else Parsed(input[0] as int, input[1..])
  }

  /** The state of the `ra2` stream: the current decrypted frame (none
      before the first read), the position in it, and the frame reader. */
  datatype Ra2Reader = Ra2Reader(buf: Option<seq<byte>>, pos: nat, aes: Decryptor)
  {
    /** The position never passes the end of the frame. */
    predicate Valid()
    {
      match buf
      case None => pos == 0
      case Some(b) => pos <= |b|
    }

    /** The bytes of the current frame not yet returned. */
    function Pending(): (r: seq<byte>)
      requires Valid()
    {
      match buf
      case None => []
      case Some(b) => b[pos..]
    }

    /** Whether the next read has to fetch a frame. */
    predicate Exhausted()
      requires Valid()
    {
      buf.None? || pos == |buf.value|
    }
  }

  /** The byte a valid reader returns from its current frame: -1 for an
      empty frame, else the byte at the position, which moves on. */
  function Emit(rd: Ra2Reader, input: seq<byte>): (r: Outcome<Ra2Reader, Parsed<int>>)
    requires rd.Valid() && rd.buf.Some? && (rd.pos < |rd.buf.value| || |rd.buf.value| == 0)
    ensures r.result.Ok? && IsReadResult(r.result.value.value) && r.result.value.rest == input
  {
    var b := rd.buf.value;
    if |b| == 0 then Outcome(rd, Ok(Parsed(-1, input)))
    else Outcome(rd.(pos := rd.pos + 1), Ok(Parsed(b[rd.pos] as int, input)))
  }

  /** One `read()` of the `ra2` stream: a new frame is fetched when there
      is none yet or the current one is used up, and the position starts
      over; an empty frame answers -1; any other answer is the next byte
      of the frame. A failed fetch consumes the frame reader's nonce and
      leaves the rest as it was. */
  function Ra2Read(aead: Aead, rd: Ra2Reader, input: seq<byte>): (r: Outcome<Ra2Reader, Parsed<int>>)
    requires rd.Valid()
    ensures r.stream.Valid()
    ensures r.result.Ok? ==> IsReadResult(r.result.value.value)
    ensures !rd.Exhausted() ==> r.stream.aes == rd.aes && r.result.Ok? && r.result.value.rest == input
                                && r.result.value.value == rd.buf.value[rd.pos] as int
                                && r.stream == rd.(pos := rd.pos + 1)
    ensures rd.Exhausted() ==> r.stream.aes == Read(aead, rd.aes, input).stream
    ensures rd.Exhausted() ==> (r.result.Ok? <==> Read(aead, rd.aes, input).result.Ok?)
    ensures rd.Exhausted() && r.result.Ok? ==>
      var frame := Read(aead, rd.aes, input).result.value;
      && r.result.value.rest == frame.rest
      && r.stream.buf == Some(frame.value)
      && (r.result.value.value == -1 <==> |frame.value| == 0)
      && (|frame.value| > 0 ==> r.result.value.value == frame.value[0] as int && r.stream.pos == 1)
  {
    if rd.Exhausted() then
      var fetched := Read(aead, rd.aes, input);
      match fetched.result
      case Err(e) => Outcome(rd.(aes := fetched.stream), Err(e))
      case Ok(frame) => Emit(Ra2Reader(Some(frame.value), 0, fetched.stream), frame.rest)
    else Emit(rd, input)
  }

  /** n reads of the `ra2` stream, one after the other. */
  function Ra2ReadMany(aead: Aead, rd: Ra2Reader, input: seq<byte>, n: nat): (r: Outcome<Ra2Reader, Parsed<seq<int>>>)
    requires rd.Valid()
    ensures r.stream.Valid()
    ensures r.result.Ok? ==> |r.result.value.value| == n
    decreases n
  {
    if n == 0 then Outcome(rd, Ok(Parsed([], input)))
    else
      var first := Ra2Read(aead, rd, input);
      match first.result
      case Err(e) => Outcome(first.stream, Err(e))
      case Ok(p) =>
        var others := Ra2ReadMany(aead, first.stream, p.rest, n - 1);
        match others.result
        case Err(e) => Outcome(others.stream, Err(e))
        case Ok(ps) => Outcome(others.stream, Ok(Parsed([p.value] + ps.value, ps.rest)))
  }

  /** The frames the input holds for a frame reader: each reads back, under
      the nonce the previous one left, as the next plaintext. */
  ghost predicate FramesAhead(aead: Aead, aes: Decryptor, input: seq<byte>, frames: seq<seq<byte>>, after: seq<byte>)
    decreases |frames|
  {
    if |frames| == 0 then input == after
    else
      var o := Read(aead, aes, input);
      && o.result.Ok? && o.result.value.value == frames[0]
      && FramesAhead(aead, o.stream, o.result.value.rest, frames[1..], after)
  }

  /** The frames joined end to end. */
  function Concat(frames: seq<seq<byte>>): (r: seq<byte>)
    decreases |frames|
  {
    if |frames| == 0 then [] else frames[0] + Concat(frames[1..])
  }

  /** Bytes as `read()` returns them. */
  function Unsigned(s: seq<byte>): (r: seq<int>)
    ensures |r| == |s|
    ensures forall i :: 0 <= i < |s| ==> r[i] == s[i] as int
  {
    seq(|s|, i requires 0 <= i < |s| => s[i] as int)
  }

  /** None of the frames is empty. */
  predicate NoneEmpty(frames: seq<seq<byte>>)
  {
    forall i :: 0 <= i < |frames| ==> |frames[i]| > 0
  }

  /** n > 0 reads are one read and then n - 1 more. */
  lemma Ra2ReadManyFirst(aead: Aead, rd: Ra2Reader, input: seq<byte>, n: nat, v: int, next: Ra2Reader, rest: seq<byte>,
                         vs: seq<int>, after: seq<byte>)
    requires rd.Valid() && n > 0 && Ra2Read(aead, rd, input) == Outcome(next, Ok(Parsed(v, rest)))
    requires next.Valid() && Ra2ReadMany(aead, next, rest, n - 1).result == Ok(Parsed(vs, after))
    ensures Ra2ReadMany(aead, rd, input, n).result == Ok(Parsed([v] + vs, after))
  {
  }

  lemma UnsignedCons(s: seq<byte>)
    requires |s| > 0
    ensures Unsigned(s) == [s[0] as int] + Unsigned(s[1..])
  {
    assert Unsigned(s) == [s[0] as int] + Unsigned(s[1..]);
  }

  /** A read from the current frame, then n - 1 more. */
  lemma PendingStep(aead: Aead, rd: Ra2Reader, input: seq<byte>, n: nat, more: seq<byte>, after: seq<byte>)
    requires rd.Valid() && !rd.Exhausted() && n > 0
    requires Ra2ReadMany(aead, rd.(pos := rd.pos + 1), input, n - 1).result == Ok(Parsed(Unsigned(rd.Pending()[1..] + more), after))
    ensures Ra2ReadMany(aead, rd, input, n).result == Ok(Parsed(Unsigned(rd.Pending() + more), after))
  {
    var pending := rd.Pending();
    Ra2ReadManyFirst(aead, rd, input, n, pending[0] as int, rd.(pos := rd.pos + 1), input,
                     Unsigned(pending[1..] + more), after);
    UnsignedCons(pending + more);
    TailOfJoin(pending, more);
  }

  /** A read that fetches a non-empty frame, then n - 1 more. */
  lemma FetchStep(aead: Aead, rd: Ra2Reader, input: seq<byte>, n: nat, frame: seq<byte>, more: seq<byte>, after: seq<byte>)
    requires rd.Valid() && rd.Exhausted() && n > 0 && |frame| > 0
    requires Read(aead, rd.aes, input).result.Ok? && Read(aead, rd.aes, input).result.value.value == frame
    requires var f := Read(aead, rd.aes, input);
      Ra2ReadMany(aead, Ra2Reader(Some(frame), 1, f.stream), f.result.value.rest, n - 1).result
        == Ok(Parsed(Unsigned(frame[1..] + more), after))
    ensures Ra2ReadMany(aead, rd, input, n).result == Ok(Parsed(Unsigned(frame + more), after))
  {
    var f := Read(aead, rd.aes, input);
    FetchRead(aead, rd, input, frame);
    Ra2ReadManyFirst(aead, rd, input, n, frame[0] as int, Ra2Reader(Some(frame), 1, f.stream), f.result.value.rest,
                     Unsigned(frame[1..] + more), after);
    UnsignedCons(frame + more);
    TailOfJoin(frame, more);
  }

  /** A read that fetches a non-empty frame returns its first byte and
      stands one byte into it. */
  lemma FetchRead(aead: Aead, rd: Ra2Reader, input: seq<byte>, frame: seq<byte>)
    requires rd.Valid() && rd.Exhausted() && |frame| > 0
    requires Read(aead, rd.aes, input).result.Ok? && Read(aead, rd.aes, input).result.value.value == frame
    ensures var f := Read(aead, rd.aes, input);
      Ra2Read(aead, rd, input) == Outcome(Ra2Reader(Some(frame), 1, f.stream), Ok(Parsed(frame[0] as int, f.result.value.rest)))
  {
  }

  lemma TailOfJoin(a: seq<byte>, b: seq<byte>)
    requires |a| > 0
    ensures (a + b)[1..] == a[1..] + b
  {
  }

  /** A valid reader whose frame reader will find the given non-empty
      frames in the input, and then the rest `after`. */
  ghost predicate FramesFollow(aead: Aead, rd: Ra2Reader, input: seq<byte>, frames: seq<seq<byte>>, after: seq<byte>)
  {
    rd.Valid() && NoneEmpty(frames) && FramesAhead(aead, rd.aes, input, frames, after)
  }

  /** Reading as many bytes as the reader has pending and the frames hold
      gives back exactly those bytes, in order, and leaves `after`. */
  ghost predicate ReadsBack(aead: Aead, rd: Ra2Reader, input: seq<byte>, frames: seq<seq<byte>>, after: seq<byte>)
    requires rd.Valid()
  {
    Ra2ReadMany(aead, rd, input, |rd.Pending()| + |Concat(frames)|).result
      == Ok(Parsed(Unsigned(rd.Pending() + Concat(frames)), after))
  }

  /** Byte by byte, the `ra2` stream returns what is left of its frame and
      then the frames ahead of it, joined in order, as long as none of them
      is empty; it stops right after the last of them. */
  lemma {:induction false} Ra2ReadsFrames(aead: Aead, rd: Ra2Reader, input: seq<byte>, frames: seq<seq<byte>>, after: seq<byte>)
    requires FramesFollow(aead, rd, input, frames, after)
    ensures rd.Valid() && ReadsBack(aead, rd, input, frames, after)
    decreases |rd.Pending()| + |Concat(frames)|, 1
  {
    if !rd.Exhausted() {
      ReadsFromFrame(aead, rd, input, frames, after);
    } else if |frames| > 0 {
      ReadsFetchedFrame(aead, rd, input, frames, after);
    } else {
      assert rd.Pending() + Concat(frames) == [];
    }
  }

  /** The case of a frame not yet used up. */
  lemma {:induction false} ReadsFromFrame(aead: Aead, rd: Ra2Reader, input: seq<byte>, frames: seq<seq<byte>>, after: seq<byte>)
    requires FramesFollow(aead, rd, input, frames, after) && !rd.Exhausted()
    ensures ReadsBack(aead, rd, input, frames, after)
    decreases |rd.Pending()| + |Concat(frames)|, 0
  {
    var next := rd.(pos := rd.pos + 1);
    Ra2ReadsFrames(aead, next, input, frames, after);
    PendingFrames(aead, rd, input, frames, after, next);
  }

  /** A read from the current frame, in the terms of the frames. */
  lemma PendingFrames(aead: Aead, rd: Ra2Reader, input: seq<byte>, frames: seq<seq<byte>>, after: seq<byte>, next: Ra2Reader)
    requires rd.Valid() && !rd.Exhausted() && next == rd.(pos := rd.pos + 1)
    requires next.Valid() && ReadsBack(aead, next, input, frames, after)
    ensures ReadsBack(aead, rd, input, frames, after)
  {
    var pending := rd.Pending();
    assert next.Pending() == pending[1..];
    PendingStep(aead, rd, input, |pending| + |Concat(frames)|, Concat(frames), after);
  }

  /** What fetching the first of the frames leaves: a reader on that frame,
      one byte in, with the other frames ahead of it. */
  lemma FetchedFrame(aead: Aead, rd: Ra2Reader, input: seq<byte>, frames: seq<seq<byte>>, after: seq<byte>)
    requires FramesFollow(aead, rd, input, frames, after) && rd.Exhausted() && |frames| > 0
    ensures var f := Read(aead, rd.aes, input);
      && f.result.Ok? && f.result.value.value == frames[0] && |frames[0]| > 0
      && FramesFollow(aead, Ra2Reader(Some(frames[0]), 1, f.stream), f.result.value.rest, frames[1..], after)
  {
    assert |frames[0]| > 0;
    assert NoneEmpty(frames[1..]) by {
      forall i | 0 <= i < |frames[1..]| ensures |frames[1..][i]| > 0 {
        assert frames[1..][i] == frames[i + 1];
      }
    }
  }

  /** A fetch of the first frame, in the terms of the frames: once the
      reader on that frame reads the rest of them, the used-up reader reads
      them all. */
  lemma FetchFrames(aead: Aead, rd: Ra2Reader, input: seq<byte>, frames: seq<seq<byte>>, after: seq<byte>,
                    next: Ra2Reader, rest: seq<byte>)
    requires rd.Valid() && rd.Exhausted() && |frames| > 0 && |frames[0]| > 0
    requires Read(aead, rd.aes, input).result == Ok(Parsed(frames[0], rest))
    requires next == Ra2Reader(Some(frames[0]), 1, Read(aead, rd.aes, input).stream)
    requires next.Valid() && ReadsBack(aead, next, rest, frames[1..], after)
    ensures ReadsBack(aead, rd, input, frames, after)
  {
    assert next.Pending() == frames[0][1..];
    assert rd.Pending() == [];
    assert Concat(frames) == frames[0] + Concat(frames[1..]);
    assert rd.Pending() + Concat(frames) == frames[0] + Concat(frames[1..]);
    FetchStep(aead, rd, input, |Concat(frames)|, frames[0], Concat(frames[1..]), after);
  }

  /** The case of a used-up frame and a next one to fetch. */
  lemma {:induction false} ReadsFetchedFrame(aead: Aead, rd: Ra2Reader, input: seq<byte>, frames: seq<seq<byte>>, after: seq<byte>)
    requires FramesFollow(aead, rd, input, frames, after) && rd.Exhausted() && |frames| > 0
    ensures ReadsBack(aead, rd, input, frames, after)
    decreases |rd.Pending()| + |Concat(frames)|, 0
  {
    FetchedFrame(aead, rd, input, frames, after);
    var f := Read(aead, rd.aes, input);
    var next := Ra2Reader(Some(frames[0]), 1, f.stream);
    Ra2ReadsFrames(aead, next, f.result.value.rest, frames[1..], after);
    FetchFrames(aead, rd, input, frames, after, next, f.result.value.rest);
  }

  /** The frames an encryptor wrote for msgs, followed by after, hold msgs
      for a frame reader starting at r. */
  ghost predicate WrittenAhead(aead: Aead, w: Encryptor, r: Decryptor, msgs: seq<seq<byte>>, after: seq<byte>)
  {
    WriteAll(aead, w, msgs).result.Ok? && FramesAhead(aead, r, WriteAll(aead, w, msgs).result.value + after, msgs, after)
  }

  /** Frames written one after the other by an encryptor are, for a frame
      reader on the same key and nonce, exactly the messages written, and
      they end where the writes ended. */
  lemma {:induction false} WrittenFramesAhead(aead: Aead, w: Encryptor, r: Decryptor, msgs: seq<seq<byte>>, after: seq<byte>)
    requires aead.Valid() && aead.NoncesAgree() && AllFit(msgs) && r.key == w.key && r.nonce == w.nonce
    ensures WrittenAhead(aead, w, r, msgs, after)
    decreases |msgs|
  {
    if |msgs| == 0 {
      assert WriteAll(aead, w, msgs).result.value + after == after;
    } else {
      var first := Write(aead, w, msgs[0]);
      assert AllFit(msgs[1..]) by {
        forall i | 0 <= i < |msgs[1..]| ensures Fits(|msgs[1..][i]|) {
          assert msgs[1..][i] == msgs[i + 1];
        }
      }
      WrittenFramesAhead(aead, first.stream, r.(nonce := r.nonce + 1), msgs[1..], after);
      var frames := WriteAll(aead, first.stream, msgs[1..]).result.value;
      WriteAllCons(aead, w, msgs, first.result.value, frames);
      WrittenStep(aead, w, r, msgs, after, first.result.value, frames);
    }
  }

  /** The step: the first frame reads back as the first message, under the
      nonce the reader starts with, and the others follow it. */
  lemma WrittenStep(aead: Aead, w: Encryptor, r: Decryptor, msgs: seq<seq<byte>>, after: seq<byte>,
                    frame: seq<byte>, frames: seq<byte>)
    requires aead.Valid() && aead.NoncesAgree() && |msgs| > 0 && r.key == w.key && r.nonce == w.nonce
    requires Write(aead, w, msgs[0]).result == Ok(frame)
    requires FramesAhead(aead, r.(nonce := r.nonce + 1), frames + after, msgs[1..], after)
    ensures FramesAhead(aead, r, frame + frames + after, msgs, after)
  {
    ReadOfWrite(aead, w, r, msgs[0], frames + after);
    FirstFrameAhead(aead, r, frame, frames + after, msgs, after);
    Regroup(frame, frames, after);
  }

  lemma Regroup(a: seq<byte>, b: seq<byte>, c: seq<byte>)
    ensures a + b + c == a + (b + c)
  {
  }

  /** Writing several messages is writing the first and then the others. */
  lemma WriteAllCons(aead: Aead, w: Encryptor, msgs: seq<seq<byte>>, frame: seq<byte>, frames: seq<byte>)
    requires |msgs| > 0
    requires Write(aead, w, msgs[0]).result == Ok(frame)
    requires WriteAll(aead, Write(aead, w, msgs[0]).stream, msgs[1..]).result == Ok(frames)
    ensures WriteAll(aead, w, msgs).result == Ok(frame + frames)
  {
  }

  /** Frames ahead of a reader: the first read gives the first message and
      the rest hold the others, under the next nonce. */
  lemma FirstFrameAhead(aead: Aead, r: Decryptor, frame: seq<byte>, rest: seq<byte>, msgs: seq<seq<byte>>, after: seq<byte>)
    requires |msgs| > 0
    requires Read(aead, r, frame + rest).result == Ok(Parsed(msgs[0], rest))
    requires FramesAhead(aead, r.(nonce := r.nonce + 1), rest, msgs[1..], after)
    ensures FramesAhead(aead, r, frame + rest, msgs, after)
  {
  }

  /** End to end: byte by byte, a fresh `ra2` stream returns the bytes of
      the non-empty messages its peer's encryptor wrote, in order, and
      stops right after the last frame. */
  lemma Ra2ReadsWritten(aead: Aead, w: Encryptor, r: Decryptor, msgs: seq<seq<byte>>, after: seq<byte>)
    requires aead.Valid() && aead.NoncesAgree() && AllFit(msgs) && NoneEmpty(msgs) && r.key == w.key && r.nonce == w.nonce
    ensures WriteAll(aead, w, msgs).result.Ok?
    ensures Ra2ReadMany(aead, Ra2Reader(None, 0, r), WriteAll(aead, w, msgs).result.value + after, |Concat(msgs)|).result
            == Ok(Parsed(Unsigned(Concat(msgs)), after))
  {
    var rd := Ra2Reader(None, 0, r);
    WrittenFramesAhead(aead, w, r, msgs, after);
    assert FramesFollow(aead, rd, WriteAll(aead, w, msgs).result.value + after, msgs, after);
    Ra2ReadsFrames(aead, rd, WriteAll(aead, w, msgs).result.value + after, msgs, after);
    assert rd.Pending() + Concat(msgs) == Concat(msgs);
  }
}
