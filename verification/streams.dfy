/** Reading from a byte stream, modelled as the sequence of bytes still to
    come. Every read either consumes a prefix or fails with end of stream,
    as `DataInputStream`'s `readFully`, `readUnsignedShort`, `readShort`
    and `readInt` do. */
module Streams {
  import opened Bytes
  import opened Outcomes
  import opened Failures

  /** A value read from the front of a stream and the bytes left behind. */
  datatype Parsed<+T> = Parsed(value: T, rest: seq<byte>)

  /** Something that reads one value from the front of a stream. */
  type Reader<T> = seq<byte> -> Res<Parsed<T>>

  /** n values read one after the other. */
  function ReadMany<T>(read: Reader<T>, input: seq<byte>, n: nat): (r: Res<Parsed<seq<T>>>)
    ensures r.Ok? ==> |r.value.value| == n
    decreases n
  {
    if n == 0 then Ok(Parsed([], input))
    else
      var p :- read(input);
      var ps :- ReadMany(read, p.rest, n - 1);
      Ok(Parsed([p.value] + ps.value, ps.rest))
  }

  /** Reading a + b values is reading a values and then b more. */
  lemma {:induction false} ReadManySplit<T>(read: Reader<T>, input: seq<byte>, a: nat, b: nat)
    ensures ReadMany(read, input, a + b) ==
      match ReadMany(read, input, a)
      case Err(e) => Err(e)
      case Ok(first) =>
        match ReadMany(read, first.rest, b)
        case Err(e) => Err(e)
        case Ok(second) => Ok(Parsed(first.value + second.value, second.rest))
    decreases a
  {
    if a > 0 {
      match read(input)
      case Err(_) =>
      case Ok(p) =>
        ReadManySplit(read, p.rest, a - 1, b);
        match ReadMany(read, p.rest, a - 1)
        case Err(_) =>
        case Ok(first) =>
          match ReadMany(read, first.rest, b)
          case Err(_) =>
          case Ok(second) =>
            assert [p.value] + (first.value + second.value) == ([p.value] + first.value) + second.value;
    } else {
      match ReadMany(read, input, b)
      case Err(_) =>
      case Ok(second) =>
        assert [] + second.value == second.value;
    }
  }

  /** `readFully` into an array of n bytes. */
  function ReadFully(input: seq<byte>, n: nat): (r: Res<Parsed<seq<byte>>>)
    ensures r.Ok? <==> n <= |input|
    ensures r.Ok? ==> |r.value.value| == n && r.value.value + r.value.rest == input
  {
    if |input| < n then Err(EndOfStream) else Ok(Parsed(input[..n], input[n..]))
  }

  /** `readUnsignedShort`: two bytes, big-endian, 0..65535. */
  function ReadUnsignedShort(input: seq<byte>): (r: Res<Parsed<nat>>)
    ensures r.Ok? <==> 2 <= |input|
    ensures r.Ok? ==> r.value.value < TWO_16 && r.value.rest == input[2..]
  {
    var p :- ReadFully(input, 2);
    Pow256Values();
    Ok(Parsed(BigEndian(p.value), p.rest))
  }

  /** `readShort`: two bytes, big-endian, sign-extended. */
  function ReadShort(input: seq<byte>): (r: Res<Parsed<int>>)
    ensures r.Ok? <==> 2 <= |input|
    ensures r.Ok? ==> -TWO_15 <= r.value.value < TWO_15 && r.value.rest == input[2..]
  {
    var p :- ReadUnsignedShort(input);
    Int16Range(p.value);
    Ok(Parsed(Int16(p.value), p.rest))
  }

  /** `readInt`: four bytes, big-endian, two's complement. */
  function ReadInt(input: seq<byte>): (r: Res<Parsed<int>>)
    ensures r.Ok? <==> 4 <= |input|
    ensures r.Ok? ==> -TWO_31 <= r.value.value < TWO_31 && r.value.rest == input[4..]
  {
    var p :- ReadFully(input, 4);
    Int32Range(BigEndian(p.value));
    Ok(Parsed(Int32(BigEndian(p.value)), p.rest))
  }

  /** What `writeShort`/two length bytes put on the wire, `readUnsignedShort`
      takes back off. */
  lemma ReadUnsignedShortOfWritten(v: nat, rest: seq<byte>)
    requires v < TWO_16
    ensures ReadUnsignedShort(FixedBigEndian(v, 2) + rest) == Ok(Parsed(v, rest))
  {
    var s := FixedBigEndian(v, 2) + rest;
    assert s[..2] == FixedBigEndian(v, 2);
    assert s[2..] == rest;
    U16RoundTrip(v);
  }

  /** `readShort` takes back what `writeShort` wrote, for every value a
      `short` holds. */
  lemma ReadShortOfWritten(v: int, rest: seq<byte>)
    requires 0 <= v < TWO_15
    ensures ReadShort(FixedBigEndian(v, 2) + rest) == Ok(Parsed(v, rest))
  {
    ReadUnsignedShortOfWritten(v, rest);
  }

  /** `readInt` takes back what `writeInt` wrote. */
  lemma ReadIntOfWritten(v: int, rest: seq<byte>)
    requires -TWO_31 <= v < TWO_31
    ensures ReadInt(Int32Bytes(v) + rest) == Ok(Parsed(v, rest))
  {
    var s := Int32Bytes(v) + rest;
    assert s[..4] == Int32Bytes(v);
    assert s[4..] == rest;
    Int32RoundTrip(v);
  }
}
