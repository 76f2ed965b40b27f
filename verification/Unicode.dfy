/** What the checks on texts mean: UTF-8 (RFC 3629, section 3) and the order of byte strings. */
module Unicode {
  import opened ByteStrings

  // ----- UTF-8 ---------------------------------------------------------------

  /** Every code point that is not half of a surrogate pair. */
  predicate Scalar(c: int) {
    0 <= c <= 0x10_ffff && !(0xd800 <= c <= 0xdfff)
  }

  /** The bytes of a code point. */
  function Encoded(c: int): (b: Bytes)
    requires Scalar(c)
    ensures 1 <= |b| <= 4
  {
    if c < 0x80 then [c]
    else if c < 0x800 then [0xc0 + c / 64, 0x80 + c % 64]
    else if c < 0x1_0000 then [0xe0 + c / 4096, 0x80 + c / 64 % 64, 0x80 + c % 64]
    else [0xf0 + c / 0x4_0000, 0x80 + c / 4096 % 64, 0x80 + c / 64 % 64, 0x80 + c % 64]
  }

  function Text(points: seq<int>): Bytes
    requires forall c :: c in points ==> Scalar(c)
  {
    if points == [] then [] else Encoded(points[0]) + Text(points[1..])
  }

  /** A byte string is well-formed exactly when it is the encoding of some code points. */
  lemma {:induction false} TextsExactly(s: Bytes)
    ensures ValidUtf8(s) <==> exists points :: (forall c :: c in points ==> Scalar(c)) && Text(points) == s
  {
    if ValidUtf8(s) {
      var points := Points(s);
      assert (forall c :: c in points ==> Scalar(c)) && Text(points) == s;
    }
    forall points | (forall c :: c in points ==> Scalar(c)) && Text(points) == s ensures ValidUtf8(s) {
      TextIsValid(points);
    }
  }

  lemma {:induction false} Points(s: Bytes) returns (points: seq<int>)
    requires ValidUtf8(s)
    ensures (forall c :: c in points ==> Scalar(c)) && Text(points) == s
  {
    if s == [] {
      points := [];
    } else {
      var n := RuneLength(s);
      var c := PointAt(s);
      var rest := Points(s[n..]);
      points := [c] + rest;
      assert points[1..] == rest && s == s[..n] + s[n..];
    }
  }

  lemma {:induction false} TextIsValid(points: seq<int>)
    requires forall c :: c in points ==> Scalar(c)
    ensures ValidUtf8(Text(points))
  {
    if points != [] {
      TextIsValid(points[1..]);
      EncodedIsValid(points[0]);
      Utf8Joins(Encoded(points[0]), Text(points[1..]));
    }
  }

  lemma EncodedIsValid(c: int)
    requires Scalar(c)
    ensures ValidUtf8(Encoded(c)) && RuneLength(Encoded(c)) == |Encoded(c)|
  {
    var b := Encoded(c);
    Bytes64(c);
    assert RuneLength(b) == |b|;
    assert b[|b|..] == [];
  }

  // The digits of a code point in base 64.
  lemma Bytes64(c: int)
    requires 0 <= c <= 0x10_ffff
    ensures c == c / 64 * 64 + c % 64 && c / 64 == c / 4096 * 64 + c / 64 % 64
    ensures c / 4096 == c / 0x4_0000 * 64 + c / 4096 % 64
  {
  }

  // The quotients and remainders of a number given by its digits in base 64.
  lemma Digits64(q: nat, r: nat, k: nat)
    requires r < k
    ensures k == 64 ==> (q * 64 + r) / 64 == q && (q * 64 + r) % 64 == r
    ensures k == 4096 ==> (q * 4096 + r) / 4096 == q
    ensures k == 0x4_0000 ==> (q * 0x4_0000 + r) / 0x4_0000 == q
  {
  }

  /** The code point that a well-formed sequence stands for. */
  lemma PointAt(s: Bytes) returns (c: int)
    requires s != [] && RuneLength(s) > 0
    ensures Scalar(c) && Encoded(c) == s[..RuneLength(s)]
  {
    var n := RuneLength(s);
    var a: int := s[0];
    if n == 1 {
      c := a;
    } else if n == 2 {
      c := TwoBytes(a, s[1]);
    } else if n == 3 {
      c := ThreeBytes(a, s[1], s[2]);
    } else {
      c := FourBytes(a, s[1], s[2], s[3]);
    }
  }

  lemma TwoBytes(a: int, b: byte) returns (c: int)
    requires 0xc2 <= a <= 0xdf && Continuation(b)
    ensures Scalar(c) && Encoded(c) == [a, b]
  {
    c := (a - 0xc0) * 64 + (b as int - 0x80);
    Digits64(a - 0xc0, b as int - 0x80, 64);
  }

  lemma ThreeBytes(a: int, b: byte, d: byte) returns (c: int)
    requires 0xe0 <= a <= 0xef && Continuation(b) && Continuation(d)
    requires (a == 0xe0 ==> b >= 0xa0) && (a == 0xed ==> b < 0xa0)
    ensures Scalar(c) && Encoded(c) == [a, b, d]
  {
    var x, y, z := a - 0xe0, b as int - 0x80, d as int - 0x80;
    c := x * 4096 + y * 64 + z;
    Digits64(x, y * 64 + z, 4096);
    Digits64(x * 64 + y, z, 64);
    Digits64(x, y, 64);
  }

  lemma FourBytes(a: int, b: byte, d: byte, f: byte) returns (c: int)
    requires 0xf0 <= a <= 0xf4 && Continuation(b) && Continuation(d) && Continuation(f)
    requires (a == 0xf0 ==> b >= 0x90) && (a == 0xf4 ==> b < 0x90)
    ensures Scalar(c) && Encoded(c) == [a, b, d, f]
  {
    var x, y, z, w := a - 0xf0, b as int - 0x80, d as int - 0x80, f as int - 0x80;
    c := x * 0x4_0000 + y * 4096 + z * 64 + w;
    Digits64(x, y * 4096 + z * 64 + w, 0x4_0000);
    Digits64(x * 64 + y, z * 64 + w, 4096);
    Digits64(x, y, 64);
    Digits64(x * 4096 + y * 64 + z, w, 64);
    Digits64(x * 64 + y, z, 64);
  }

  // ----- order ---------------------------------------------------------------

  /** The length of what two byte strings have in common at the front. */
  predicate Differ(a: Bytes, b: Bytes, n: nat) {
    n <= |a| && n <= |b| && a[..n] == b[..n] && (n < |a| && n < |b| ==> a[n] != b[n])
  }

  /** A byte string comes before another exactly when it is a proper prefix of it, or has the smaller
    * byte where they first differ. */
  lemma {:induction false} OrderExactly(a: Bytes, b: Bytes)
    ensures Less(a, b) <==> exists n: nat :: Differ(a, b, n) && n < |b| && (n == |a| || a[n] < b[n])
  {
    if a == [] || b == [] || a[0] != b[0] {
      assert Differ(a, b, 0);
    } else {
      OrderExactly(a[1..], b[1..]);
      forall n: nat | Differ(a[1..], b[1..], n) ensures Differ(a, b, n + 1) {
        assert a[..n + 1] == [a[0]] + a[1..][..n] && b[..n + 1] == [b[0]] + b[1..][..n];
      }
      forall n: nat | Differ(a, b, n) ensures n > 0 && Differ(a[1..], b[1..], n - 1) {
        assert n == 0 ==> false;
        assert a[1..][..n - 1] == a[..n][1..] && b[1..][..n - 1] == b[..n][1..];
      }
    }
  }
}
