/** The deterministic CBOR subset: heads of section 3 of RFC 8949 in the shortest form of section 4.2.1. */
module Cbor {
  // An encoding function takes the bytes that come after the value, `tail`, so that encodings
  // nest without re-association; a reading function returns the value and the bytes left over.
  // The classes `Encoder` and `Decoder` are proved against these functions.

  import opened Wrappers
  import opened ByteStrings

  type uint64 = x: int | 0 <= x <= 0xffff_ffff_ffff_ffff

  /** A byte string short enough to exist: Go lengths are of type `int`. */
  type Text = s: Bytes | |s| <= MAX_INT witness []

  /** A list short enough to exist. */
  type Slice<T> = s: seq<T> | |s| <= MAX_INT witness []

  datatype CodecError =
    | UnexpectedEOF | UnsupportedType | NonCanonical | InvalidUTF8 | LengthLimit
    | Invalid | TrailingBytes

  datatype Parsed<+T> = Bad(error: CodecError) | Read(value: T, rest: Bytes) {
    predicate IsFailure() {
      Bad?
    }

    function PropagateFailure<U>(): Parsed<U>
      requires Bad?
    {
      Bad(error)
    }

    function Extract(): (T, Bytes)
      requires Read?
    {
      (value, rest)
    }
  }

  // ----- heads ---------------------------------------------------------------

  /** How many bytes after the initial byte the shortest head of `value` takes. */
  function Width(value: uint64): nat {
    if value < 24 then 0
    else if value <= 0xff then 1
    else if value <= 0xffff then 2
    else if value <= 0xffff_ffff then 4
    else 8
  }

  /** The additional information announcing `width` argument bytes. */
  function Info(width: nat): byte {
    if width <= 1 then 24 else if width == 2 then 25 else if width == 4 then 26 else 27
  }

  /** The smallest value for which `width` argument bytes are the shortest form. */
  function Least(width: nat): nat {
    if width == 0 then 0
    else if width == 1 then 24
    else if width == 2 then 0x100
    else if width == 4 then 0x1_0000
    else 0x1_0000_0000
  }

  /** The shortest head for `value`. */
  function HeadBytes(major: byte, value: uint64): Bytes
    requires major < 8
  {
    if Width(value) == 0 then [major * 32 + value]
    else [major * 32 + Info(Width(value))] + PutBigEndian(value, Width(value))
  }

  function PutHead(major: byte, value: uint64, tail: Bytes): Bytes
    requires major < 8
  {
    HeadBytes(major, value) + tail
  }

  datatype Header = Header(major: byte, value: uint64)

  /** The `width` bytes after an initial byte; a value that has a shorter form
      is refused. */
  function ReadArgument(major: byte, d: Bytes, width: nat): (r: Parsed<Header>)
    requires width in {1, 2, 4, 8}
    ensures r.Read? ==> r.value.major == major && Width(r.value.value) == width
                        && d == PutBigEndian(r.value.value, width) + r.rest
  {
    if |d| < width then Bad(UnexpectedEOF)
    else
      var v := BigEndian(d[..width]);
      if v < Least(width) then Bad(NonCanonical)
      else
        PutOfBigEndian(d[..width]);
        Pow256Values();
        Read(Header(major, v), d[width..])
  }

  /** The argument bytes that additional information `ai` announces. */
  function Announced(ai: byte): nat
    requires 24 <= ai < 28
  {
    if ai == 24 then 1 else if ai == 25 then 2 else if ai == 26 then 4 else 8
  }

  /** The head `d` starts with. Reading is canonical: only the shortest form of
      a value is accepted. */
  function ReadHead(d: Bytes): (r: Parsed<Header>)
    ensures r.Read? ==> r.value.major < 8 && d == PutHead(r.value.major, r.value.value, r.rest)
  {
    if d == [] then Bad(UnexpectedEOF)
    else
      var major, ai := d[0] / 32, d[0] % 32;
      if ai < 24 then
        assert d == [major * 32 + ai] + d[1..];
        Read(Header(major, ai), d[1..])
      else if ai < 28 then
        var r := ReadArgument(major, d[1..], Announced(ai));
        assert r.Read? ==> d == PutHead(major, r.value.value, r.rest) by {
          if r.Read? { ArgumentCanonical(d, r.value.value, r.rest); }
        }
        r
      else Bad(UnsupportedType)
  }

  lemma ArgumentCanonical(d: Bytes, value: uint64, rest: Bytes)
    requires d != [] && 24 <= d[0] % 32 < 28
    requires Width(value) == Announced(d[0] % 32) && d[1..] == PutBigEndian(value, Width(value)) + rest
    ensures d == PutHead(d[0] / 32, value, rest)
  {
    assert d == [d[0]] + d[1..];
    assert d[0] == (d[0] / 32) * 32 + Info(Width(value));
  }

  lemma ArgumentRoundTrip(major: byte, value: uint64, tail: Bytes)
    requires Width(value) > 0
    ensures ReadArgument(major, PutBigEndian(value, Width(value)) + tail, Width(value)) == Read(Header(major, value), tail)
  {
    var width := Width(value);
    var argument := PutBigEndian(value, width);
    assert (argument + tail)[..width] == argument && (argument + tail)[width..] == tail;
    Pow256Values();
    BigEndianOfPut(value, width);
  }

  lemma InitialByte(major: byte, ai: byte)
    requires major < 8 && ai < 32
    ensures (major * 32 + ai) / 32 == major && (major * 32 + ai) % 32 == ai && major * 32 + ai < 256
  {
  }

  // Reading goes by the initial byte.
  lemma ReadsAfter(major: byte, ai: byte, rest: Bytes)
    requires major < 8 && ai < 28
    ensures ReadHead([major * 32 + ai] + rest)
            == if ai < 24 then Read(Header(major, ai), rest) else ReadArgument(major, rest, Announced(ai))
  {
    InitialByte(major, ai);
    var d: Bytes := [major * 32 + ai] + rest;
    assert d[0] == major * 32 + ai && d[1..] == rest;
    hide ReadArgument, PutHead;
  }

  /** Every 64-bit head reads back, whatever follows it. */
  lemma HeadRoundTrip(major: byte, value: uint64, tail: Bytes)
    requires major < 8
    ensures ReadHead(PutHead(major, value, tail)) == Read(Header(major, value), tail)
  {
    hide PutBigEndian, BigEndian, ReadArgument, ReadHead;
    var width := Width(value);
    if width == 0 {
      ReadsAfter(major, value, tail);
    } else {
      ReadsAfter(major, Info(width), PutBigEndian(value, width) + tail);
      ArgumentRoundTrip(major, value, tail);
      assert PutHead(major, value, tail) == [major * 32 + Info(width)] + (PutBigEndian(value, width) + tail);
    }
  }

  // ----- values --------------------------------------------------------------

  function PutArray(n: uint64, tail: Bytes): Bytes {
    PutHead(4, n, tail)
  }

  function PutUint(v: uint64, tail: Bytes): Bytes {
    PutHead(0, v, tail)
  }

  function PutNil(tail: Bytes): Bytes {
    [0xf6] + tail
  }

  function PutText(v: Text, tail: Bytes): Bytes {
    PutHead(3, |v|, v + tail)
  }

  function PutBytestring(v: Text, tail: Bytes): Bytes {
    PutHead(2, |v|, v + tail)
  }

  function ReadMajor(d: Bytes, major: byte): (r: Parsed<uint64>)
    requires major < 8
    ensures r.Read? ==> d == PutHead(major, r.value, r.rest)
  {
    var (head, rest) :- ReadHead(d);
    if head.major != major then Bad(UnsupportedType) else Read(head.value, rest)
  }

  function ReadArray(d: Bytes): (r: Parsed<uint64>)
    ensures r.Read? ==> d == PutArray(r.value, r.rest)
  {
    ReadMajor(d, 4)
  }

  function ReadUint(d: Bytes): (r: Parsed<uint64>)
    ensures r.Read? ==> d == PutUint(r.value, r.rest)
  {
    ReadMajor(d, 0)
  }

  /** True and one byte consumed exactly on a null; otherwise nothing consumed. */
  function ReadNil(d: Bytes): (r: Parsed<bool>)
    ensures r.Read? ==> d == if r.value then PutNil(r.rest) else r.rest
  {
    if d == [] then Bad(UnexpectedEOF)
    else if d[0] == 0xf6 then Read(true, d[1..])
    else Read(false, d)
  }

  /** The body of a string: a length head of type `major`, then that many bytes. */
  function ReadBlob(d: Bytes, major: byte, max: uint64): (r: Parsed<Text>)
    requires major < 8 && max <= MAX_INT
    ensures r.Read? ==> |r.value| <= max && d == PutHead(major, |r.value|, r.value + r.rest)
  {
    var (n, rest) :- ReadMajor(d, major);
    if n > max then Bad(LengthLimit)
    else if n > |rest| then Bad(UnexpectedEOF)
    else
      assert rest == rest[..n] + rest[n..];
      Read(rest[..n], rest[n..])
  }

  function ReadText(d: Bytes, max: uint64): (r: Parsed<Text>)
    requires max <= MAX_INT
    ensures r.Read? ==> |r.value| <= max && ValidUtf8(r.value) && d == PutText(r.value, r.rest)
  {
    var (v, rest) :- ReadBlob(d, 3, max);
    if !ValidUtf8(v) then Bad(InvalidUTF8) else Read(v, rest)
  }

  function ReadBytestring(d: Bytes, max: uint64): (r: Parsed<Text>)
    requires max <= MAX_INT
    ensures r.Read? ==> |r.value| <= max && d == PutBytestring(r.value, r.rest)
  {
    ReadBlob(d, 2, max)
  }

  // ----- round trips ---------------------------------------------------------

  lemma ArrayRoundTrip(n: uint64, tail: Bytes)
    ensures ReadArray(PutArray(n, tail)) == Read(n, tail)
  {
    HeadRoundTrip(4, n, tail);
  }

  lemma UintRoundTrip(v: uint64, tail: Bytes)
    ensures ReadUint(PutUint(v, tail)) == Read(v, tail)
    ensures ReadNil(PutUint(v, tail)) == Read(false, PutUint(v, tail))
  {
    HeadRoundTrip(0, v, tail);
  }

  lemma BlobRoundTrip(major: byte, v: Text, max: uint64, tail: Bytes)
    requires major < 7 && |v| <= max <= MAX_INT
    ensures var d := PutHead(major, |v|, v + tail);
            ReadBlob(d, major, max) == Read(v, tail) && ReadNil(d) == Read(false, d)
  {
    HeadRoundTrip(major, |v|, v + tail);
    assert (v + tail)[..|v|] == v && (v + tail)[|v|..] == tail;
  }

  /** Text within the reader's limit reads back, and never looks like a null. */
  lemma TextRoundTrip(v: Text, max: uint64, tail: Bytes)
    requires |v| <= max <= MAX_INT && ValidUtf8(v)
    ensures ReadText(PutText(v, tail), max) == Read(v, tail)
    ensures ReadNil(PutText(v, tail)) == Read(false, PutText(v, tail))
  {
    BlobRoundTrip(3, v, max, tail);
  }

  lemma BytestringRoundTrip(v: Text, max: uint64, tail: Bytes)
    requires |v| <= max <= MAX_INT
    ensures ReadBytestring(PutBytestring(v, tail), max) == Read(v, tail)
    ensures ReadNil(PutBytestring(v, tail)) == Read(false, PutBytestring(v, tail))
  {
    BlobRoundTrip(2, v, max, tail);
  }

  // ----- the growing encoder -------------------------------------------------

  /** Every method appends the encoding of its argument: whatever bytes `t` come
      next, the buffer followed by `t` is the old buffer followed by the
      encoding whose tail is `t`. */
  class Encoder {
    var buf: Bytes

    constructor ()
      ensures buf == []
    {
      buf := [];
    }

    method Bytes() returns (b: Bytes)
      ensures b == buf
    {
      b := buf;
    }

    method AppendHead(major: byte, value: uint64)
      requires major < 8
      modifies this
      ensures forall t: Bytes :: buf + t == old(buf) + PutHead(major, value, t)
    {
      ghost var head := HeadBytes(major, value);
      if value < 24 {
        buf := buf + [major * 32 + value];
      } else if value <= 0xff {
        buf := buf + [major * 32 + 24] + PutBigEndian(value, 1);
      } else if value <= 0xffff {
        buf := buf + [major * 32 + 25] + PutBigEndian(value, 2);
      } else if value <= 0xffff_ffff {
        buf := buf + [major * 32 + 26] + PutBigEndian(value, 4);
      } else {
        buf := buf + [major * 32 + 27] + PutBigEndian(value, 8);
      }
      assert buf == old(buf) + head;
      forall t: Bytes ensures buf + t == old(buf) + PutHead(major, value, t) {
        assert old(buf) + head + t == old(buf) + (head + t);
      }
    }

    method Array(n: uint64)
      modifies this
      ensures forall t: Bytes :: buf + t == old(buf) + PutArray(n, t)
    {
      AppendHead(4, n);
    }

    method Uint(v: uint64)
      modifies this
      ensures forall t: Bytes :: buf + t == old(buf) + PutUint(v, t)
    {
      AppendHead(0, v);
    }

    method Nil()
      modifies this
      ensures forall t: Bytes :: buf + t == old(buf) + PutNil(t)
    {
      buf := buf + [0xf6];
    }

    method Text(v: Text)
      modifies this
      ensures forall t: Bytes :: buf + t == old(buf) + PutText(v, t)
    {
      AppendHead(3, |v|);
      ghost var headed := buf;
      buf := buf + v;
      forall t: Bytes ensures buf + t == old(buf) + PutText(v, t) {
        assert buf + t == headed + (v + t);
      }
    }

    method Bytestring(v: Text)
      modifies this
      ensures forall t: Bytes :: buf + t == old(buf) + PutBytestring(v, t)
    {
      AppendHead(2, |v|);
      ghost var headed := buf;
      buf := buf + v;
      forall t: Bytes ensures buf + t == old(buf) + PutBytestring(v, t) {
        assert buf + t == headed + (v + t);
      }
    }
  }

  // ----- the advancing decoder -----------------------------------------------

  /** Outcome `r` of a decoder call that left `rest` unread is what the reading
      function `p` says. */
  ghost predicate Follows<T>(r: Result<T, CodecError>, p: Parsed<T>, rest: Bytes) {
    match p
    case Bad(e) => r == Failure(e)
    case Read(v, after) => r == Success(v) && rest == after
  }

  class Decoder {
    const data: Bytes
    var off: nat

    ghost predicate Valid()
      reads this
    {
      off <= |data|
    }

    ghost function Rest(): (rest: Bytes)
      reads this
      requires Valid()
    {
      data[off..]
    }

    constructor (data: Bytes)
      ensures Valid() && this.data == data && Rest() == data
    {
      this.data := data;
      off := 0;
    }

    function Remaining(): (n: nat)
      reads this
      requires Valid()
      ensures n == |Rest()|
    {
      |data| - off
    }

    method Take(n: uint64) returns (r: Result<Bytes, CodecError>)
      requires Valid()
      modifies this`off
      ensures Valid()
      ensures n > |old(Rest())| ==> r == Failure(UnexpectedEOF) && Rest() == old(Rest())
      ensures n <= |old(Rest())| ==> r == Success(old(Rest())[..n]) && Rest() == old(Rest())[n..]
    {
      if n > |data| - off {
        return Failure(UnexpectedEOF);
      }
      var start := off;
      off := off + n;
      assert data[start..][..n] == data[start..off] && data[start..][n..] == data[off..];
      r := Success(data[start..off]);
    }

    method Head() returns (r: Result<Header, CodecError>)
      requires Valid()
      modifies this`off
      ensures Valid()
      ensures Follows(r, ReadHead(old(Rest())), Rest())
    {
      if off >= |data| {
        return Failure(UnexpectedEOF);
      }
      var initial := data[off];
      ghost var d := Rest();
      off := off + 1;
      assert Rest() == d[1..];
      var major, ai := initial / 32, initial % 32;
      if ai < 24 {
        return Success(Header(major, ai));
      }
      if ai > 27 {
        return Failure(UnsupportedType);
      }
      var width := Announced(ai);
      var b :- Take(width);
      var value := BigEndian(b);
      if value < Least(width) {
        return Failure(NonCanonical);
      }
      Pow256Values();
      r := Success(Header(major, value));
    }

    method Major(major: byte) returns (r: Result<uint64, CodecError>)
      requires Valid() && major < 8
      modifies this`off
      ensures Valid()
      ensures Follows(r, ReadMajor(old(Rest()), major), Rest())
    {
      var head :- Head();
      if head.major != major {
        return Failure(UnsupportedType);
      }
      r := Success(head.value);
    }

    method Array() returns (r: Result<uint64, CodecError>)
      requires Valid()
      modifies this`off
      ensures Valid()
      ensures Follows(r, ReadArray(old(Rest())), Rest())
    {
      r := Major(4);
    }

    method Uint() returns (r: Result<uint64, CodecError>)
      requires Valid()
      modifies this`off
      ensures Valid()
      ensures Follows(r, ReadUint(old(Rest())), Rest())
    {
      r := Major(0);
    }

    method TryNil() returns (r: Result<bool, CodecError>)
      requires Valid()
      modifies this`off
      ensures Valid()
      ensures Follows(r, ReadNil(old(Rest())), Rest())
      ensures r == Success(true) || off == old(off)
    {
      if off >= |data| {
        return Failure(UnexpectedEOF);
      }
      if data[off] == 0xf6 {
        off := off + 1;
        return Success(true);
      }
      r := Success(false);
    }

    method Text(max: uint64) returns (r: Result<Text, CodecError>)
      requires Valid() && max <= MAX_INT
      modifies this`off
      ensures Valid()
      ensures Follows(r, ReadText(old(Rest()), max), Rest())
    {
      var n :- Major(3);
      if n > max {
        return Failure(LengthLimit);
      }
      var b :- Take(n);
      if !ValidUtf8(b) {
        return Failure(InvalidUTF8);
      }
      r := Success(b);
    }

    method Bytestring(max: uint64) returns (r: Result<Text, CodecError>)
      requires Valid() && max <= MAX_INT
      modifies this`off
      ensures Valid()
      ensures Follows(r, ReadBytestring(old(Rest()), max), Rest())
    {
      var n :- Major(2);
      if n > max {
        return Failure(LengthLimit);
      }
      var b :- Take(n);
      r := Success(b);
    }
  }
}
