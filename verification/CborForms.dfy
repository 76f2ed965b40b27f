/** The encoder's bytes spelled out, and the examples of RFC 8949, Appendix A. */
module CborForms {
  import opened ByteStrings
  import opened Cbor

  lemma TwoBytes(v: nat)
    ensures PutBigEndian(v, 2) == [v / 256 % 256, v % 256]
  {
    assert PutBigEndian(v / 256, 1) == PutBigEndian(v / 256 / 256, 0) + [v / 256 % 256];
  }

  lemma FourBytes(v: nat)
    ensures PutBigEndian(v, 4) == [v / 0x100_0000 % 256, v / 0x1_0000 % 256, v / 256 % 256, v % 256]
  {
    TwoBytes(v / 0x1_0000);
    Shifts(v);
    assert PutBigEndian(v / 256, 3) == PutBigEndian(v / 256 / 256, 2) + [v / 256 % 256];
  }

  lemma Shifts(v: nat)
    ensures v / 256 / 256 == v / 0x1_0000 && v / 0x1_0000 / 256 == v / 0x100_0000
  {
  }

  /** Every head, byte by byte: the major type in the top three bits, then the value itself or the width
    * of the value that follows, most significant byte first, always in the shortest form. */
  lemma HeadForms(major: byte, value: uint64)
    requires major < 8
    ensures value < 24 ==> HeadBytes(major, value) == [32 * major + value]
    ensures 24 <= value < 0x100 ==> HeadBytes(major, value) == [32 * major + 24, value]
    ensures 0x100 <= value < 0x1_0000 ==> HeadBytes(major, value) == [32 * major + 25, value / 256, value % 256]
    ensures 0x1_0000 <= value < 0x1_0000_0000 ==>
              HeadBytes(major, value)
              == [32 * major + 26, value / 0x100_0000, value / 0x1_0000 % 256, value / 256 % 256, value % 256]
    ensures 0x1_0000_0000 <= value ==> HeadBytes(major, value) == [32 * major + 27] + PutBigEndian(value, 8)
  {
    if value < 0x100 {
      assert PutBigEndian(value, 1) == PutBigEndian(value / 256, 0) + [value];
    } else if value < 0x1_0000 {
      TwoBytes(value);
    } else if value < 0x1_0000_0000 {
      FourBytes(value);
    }
  }

  /** The examples for integers: 0, 1, 10 and 23 are one byte, 24, 25 and 100 two. */
  lemma SmallIntegers(v: nat)
    requires v < 256
    ensures PutUint(v, []) == if v < 24 then [v] else [0x18, v]
  {
    HeadForms(0, v);
  }

  lemma Thousand()
    ensures PutUint(1000, []) == [0x19, 0x03, 0xe8]
  {
    HeadForms(0, 1000);
  }

  lemma Million()
    ensures PutUint(1_000_000, []) == [0x1a, 0x00, 0x0f, 0x42, 0x40]
  {
    HeadForms(0, 1_000_000);
  }

  lemma Billions()
    ensures PutUint(1_000_000_000_000, []) == [0x1b, 0x00, 0x00, 0x00, 0xe8, 0xd4, 0xa5, 0x10, 0x00]
  {
  }

  lemma Greatest()
    ensures PutUint(0xffff_ffff_ffff_ffff, []) == [0x1b, 0xff, 0xff, 0xff, 0xff, 0xff, 0xff, 0xff, 0xff]
  {
  }

  /** The examples for strings, an array and null. */
  lemma Strings()
    ensures PutText(Ascii(""), []) == [0x60] && PutText(Ascii("a"), []) == [0x61, 0x61]
    ensures PutText(Ascii("IETF"), []) == [0x64, 0x49, 0x45, 0x54, 0x46]
    ensures PutBytestring([], []) == [0x40] && PutBytestring([1, 2, 3, 4], []) == [0x44, 0x01, 0x02, 0x03, 0x04]
    ensures PutArray(3, PutUint(1, PutUint(2, PutUint(3, [])))) == [0x83, 0x01, 0x02, 0x03]
    ensures PutNil([]) == [0xf6]
  {
  }
}
