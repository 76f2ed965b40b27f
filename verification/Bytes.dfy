/** Byte strings: order, big-endian numbers and UTF-8 well-formedness. A Go
    `string` or `[]byte` is a `Bytes`. */
module ByteStrings {

  type byte = x: int | 0 <= x < 256
  type Bytes = seq<byte>

  /** The largest Go length (`int` on a 64-bit platform). */
  const MAX_INT: int := 0x7fff_ffff_ffff_ffff

  /** The bytes of an ASCII literal of the source text. */
  function Ascii(s: string): (r: Bytes)
    ensures |r| == |s|
    ensures forall i :: 0 <= i < |r| ==> r[i] < 128
  {
    seq(|s|, i requires 0 <= i < |s| => if s[i] as int < 128 then s[i] as int else 63)
  }

  lemma SliceOfSlice<T>(s: seq<T>, base: nat, end: nat, i: nat, j: nat)
    requires i <= j && base + j <= end <= |s|
    ensures s[base..end][i..j] == s[base + i..base + j]
  {
    var m := s[base..end];
    assert |m[i..j]| == |s[base + i..base + j]|;
    forall k | 0 <= k < j - i ensures m[i..j][k] == s[base + i..base + j][k] {
      assert m[i..j][k] == m[i + k] == s[base + (i + k)];
    }
  }

  lemma DropDrop<T>(s: seq<T>, i: nat, j: nat)
    requires i + j <= |s|
    ensures s[i..][j..] == s[i + j..]
  {}

  // ----- lexicographic order -------------------------------------------------

  /** `bytes.Compare(a, b) < 0`, which is also Go's `a < b` on strings. */
  predicate Less(a: Bytes, b: Bytes) {
    if b == [] then false
    else if a == [] then true
    else a[0] < b[0] || (a[0] == b[0] && Less(a[1..], b[1..]))
  }

  lemma {:induction false} LessIrreflexive(a: Bytes)
    ensures !Less(a, a)
  {
    if a != [] { LessIrreflexive(a[1..]); }
  }

  lemma {:induction false} LessTransitive(a: Bytes, b: Bytes, c: Bytes)
    requires Less(a, b) && Less(b, c)
    ensures Less(a, c)
  {
    if a != [] && a[0] == b[0] && b[0] == c[0] { LessTransitive(a[1..], b[1..], c[1..]); }
  }

  lemma {:induction false} LessTotal(a: Bytes, b: Bytes)
    ensures Less(a, b) || a == b || Less(b, a)
  {
    if a != [] && b != [] && a[0] == b[0] {
      LessTotal(a[1..], b[1..]);
      assert a == [a[0]] + a[1..] && b == [b[0]] + b[1..];
    }
  }

  predicate StrictlySorted(s: seq<Bytes>) {
    forall i :: 0 < i < |s| ==> Less(s[i - 1], s[i])
  }

  lemma {:induction false} SortedApart(s: seq<Bytes>, i: nat, j: nat)
    requires StrictlySorted(s) && i < j < |s|
    ensures Less(s[i], s[j])
  {
    if i + 1 < j {
      SortedApart(s, i, j - 1);
      LessTransitive(s[i], s[j - 1], s[j]);
    }
  }

  /** A strictly sorted list has no repetition. */
  lemma {:induction false} SortedDistinct(s: seq<Bytes>)
    requires StrictlySorted(s)
    ensures forall i, j :: 0 <= i < j < |s| ==> s[i] != s[j]
  {
    forall i, j | 0 <= i < j < |s| ensures s[i] != s[j] {
      SortedApart(s, i, j);
      LessIrreflexive(s[i]);
    }
  }

  /** A strictly sorted list is determined by its members. */
  lemma {:induction false} SortedUnique(a: seq<Bytes>, b: seq<Bytes>)
    requires StrictlySorted(a) && StrictlySorted(b)
    requires forall v :: v in a <==> v in b
    ensures a == b
  {
    assert a != [] ==> a[0] in a;
    assert b != [] ==> b[0] in b;
    if a != [] {
      SortedFirst(a, b);
      TailMembers(a);
      TailMembers(b);
      SortedUnique(a[1..], b[1..]);
      assert a == [a[0]] + a[1..] && b == [b[0]] + b[1..];
    }
  }

  lemma TailMembers(s: seq<Bytes>)
    requires StrictlySorted(s) && s != []
    ensures forall v :: v in s[1..] <==> v in s && v != s[0]
  {
    SortedDistinct(s);
    assert s == [s[0]] + s[1..];
    forall k | 0 <= k < |s| - 1 ensures s[1..][k] != s[0] {
      assert s[1..][k] == s[k + 1];
    }
  }

  lemma SortedFirst(a: seq<Bytes>, b: seq<Bytes>)
    requires StrictlySorted(a) && StrictlySorted(b) && a != [] && b != []
    requires a[0] in b && b[0] in a
    ensures a[0] == b[0]
  {
    var i: nat :| i < |b| && b[i] == a[0];
    var j: nat :| j < |a| && a[j] == b[0];
    if i > 0 && j > 0 {
      SortedApart(b, 0, i);
      SortedApart(a, 0, j);
      LessTransitive(a[0], b[0], a[0]);
      LessIrreflexive(a[0]);
    }
  }

  // ----- big-endian numbers --------------------------------------------------

  function Pow256(n: nat): (p: nat)
    ensures p >= 1
  {
    if n == 0 then 1 else 256 * Pow256(n - 1)
  }

  lemma Pow256Values()
    ensures Pow256(1) == 0x100 && Pow256(2) == 0x1_0000
    ensures Pow256(4) == 0x1_0000_0000 && Pow256(8) == 0x1_0000_0000_0000_0000
  {
    assert Pow256(3) == 0x100_0000;
    assert Pow256(4) == 0x1_0000_0000;
    assert Pow256(5) == 0x100_0000_0000;
    assert Pow256(6) == 0x1_0000_0000_0000;
    assert Pow256(7) == 0x100_0000_0000_0000;
  }

  /** `binary.BigEndian.PutUint<8n>`. */
  function PutBigEndian(v: nat, n: nat): (b: Bytes)
    ensures |b| == n
  {
    if n == 0 then [] else PutBigEndian(v / 256, n - 1) + [v % 256]
  }

  /** `binary.BigEndian.Uint<8n>`. */
  function BigEndian(b: Bytes): (v: nat)
    ensures v < Pow256(|b|)
  {
    if b == [] then 0 else 256 * BigEndian(b[..|b| - 1]) + b[|b| - 1]
  }

  lemma {:induction false} BigEndianOfPut(v: nat, n: nat)
    requires v < Pow256(n)
    ensures BigEndian(PutBigEndian(v, n)) == v
  {
    if n > 0 {
      BigEndianOfPut(v / 256, n - 1);
      assert PutBigEndian(v, n)[..n - 1] == PutBigEndian(v / 256, n - 1);
    }
  }

  lemma {:induction false} PutOfBigEndian(b: Bytes)
    ensures PutBigEndian(BigEndian(b), |b|) == b
  {
    if b != [] {
      var init := b[..|b| - 1];
      PutOfBigEndian(init);
      assert b == init + [b[|b| - 1]];
      assert BigEndian(b) / 256 == BigEndian(init) && BigEndian(b) % 256 == b[|b| - 1];
    }
  }

  // ----- UTF-8 (RFC 3629, section 4) -----------------------------------------

  predicate Continuation(b: byte) {
    0x80 <= b <= 0xbf
  }

  /** The length of the well-formed UTF-8 sequence `s` starts with, or 0. */
  function RuneLength(s: Bytes): (n: nat)
    requires s != []
    ensures n <= |s|
  {
    var b := s[0];
    if b < 0x80 then 1
    else if 0xc2 <= b <= 0xdf && |s| >= 2 && Continuation(s[1]) then 2
    else if 0xe0 <= b <= 0xef && |s| >= 3 && Continuation(s[1]) && Continuation(s[2])
            && (b == 0xe0 ==> s[1] >= 0xa0) && (b == 0xed ==> s[1] < 0xa0) then 3
    else if 0xf0 <= b <= 0xf4 && |s| >= 4 && Continuation(s[1]) && Continuation(s[2]) && Continuation(s[3])
            && (b == 0xf0 ==> s[1] >= 0x90) && (b == 0xf4 ==> s[1] < 0x90) then 4
    else 0
  }

  /** `utf8.Valid`. */
  predicate ValidUtf8(s: Bytes) {
    s == [] || (RuneLength(s) > 0 && ValidUtf8(s[RuneLength(s)..]))
  }

  predicate IsAscii(s: Bytes) {
    forall i :: 0 <= i < |s| ==> s[i] < 128
  }

  lemma {:induction false} AsciiIsUtf8(s: Bytes)
    requires IsAscii(s)
    ensures ValidUtf8(s)
  {
    if s != [] { AsciiIsUtf8(s[1..]); }
  }

  lemma {:induction false} Utf8Joins(a: Bytes, b: Bytes)
    requires ValidUtf8(a) && ValidUtf8(b)
    ensures ValidUtf8(a + b)
  {
    if a == [] {
      assert a + b == b;
    } else {
      var n := RuneLength(a);
      assert RuneLength(a + b) == n;
      assert (a + b)[n..] == a[n..] + b;
      Utf8Joins(a[n..], b);
    }
  }

  // ----- separators ----------------------------------------------------------

  /** `strings.Split` at one separator byte. */
  function Split(s: Bytes, separator: byte): (parts: seq<Bytes>)
    ensures parts != []
  {
    if s == [] then [[]]
    else if s[0] == separator then [[]] + Split(s[1..], separator)
    else var rest := Split(s[1..], separator); [[s[0]] + rest[0]] + rest[1..]
  }
}
