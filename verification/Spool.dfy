/** What the evidence spools share: digests in text form, spool directories as maps from
    relative paths to bytes, and bounded reads (the helper functions of
    internal/egressworker/worker.go and internal/archiveimport/workorder.go). */
module Spools {
  import opened Wrappers
  import opened ByteStrings
  import opened Lexical
  import opened Documents

  /** A hash function whose digests have 32 bytes, such as SHA-256. */
  type Hash = Bytes -> Digest

  type Files = map<Bytes, Bytes>

  // ----- digests in text form ------------------------------------------------

  function HexDigit(n: nat): byte
    requires n < 16
  {
    if n < 10 then 48 + n else 87 + n
  }

  predicate IsHex(b: byte) {
    IsDigit(b) || 65 <= b <= 70 || 97 <= b <= 102
  }

  function Hex(d: Bytes): (h: Bytes)
    ensures |h| == 2 * |d|
    ensures forall i :: 0 <= i < |h| ==> IsDigit(h[i]) || 97 <= h[i] <= 102
  {
    if d == [] then [] else [HexDigit(d[0] / 16), HexDigit(d[0] % 16)] + Hex(d[1..])
  }

  lemma {:induction false} HexInjective(a: Bytes, b: Bytes)
    requires Hex(a) == Hex(b)
    ensures a == b
  {
    if a != [] && b != [] {
      assert Hex(a)[2..] == Hex(a[1..]) && Hex(b)[2..] == Hex(b[1..]);
      HexInjective(a[1..], b[1..]);
      assert Hex(a)[0] == Hex(b)[0] && Hex(a)[1] == Hex(b)[1];
      assert a == [a[0]] + a[1..] && b == [b[0]] + b[1..];
    }
  }

  function DigestText(d: Digest): (t: Bytes)
    ensures |t| == 71
  {
    Ascii("sha256:") + Hex(d)
  }

  predicate ValidDigest(v: Bytes) {
    |v| == 71 && v[..7] == Ascii("sha256:") && forall i :: 7 <= i < 71 ==> IsHex(v[i])
  }

  lemma DigestTextValid(d: Digest)
    ensures ValidDigest(DigestText(d)) && IsAscii(DigestText(d))
  {
    assert DigestText(d)[..7] == Ascii("sha256:");
  }

  lemma DigestTextInjective(a: Digest, b: Digest)
    requires DigestText(a) == DigestText(b)
    ensures a == b
  {
    assert DigestText(a)[7..] == Hex(a) && DigestText(b)[7..] == Hex(b);
    HexInjective(a, b);
  }

  // ----- identifiers and paths -----------------------------------------------

  predicate IsLower(b: byte) {
    97 <= b <= 122
  }

  /** `^[a-z][a-z0-9-]{0,127}$`. */
  predicate ValidID(v: Bytes) {
    1 <= |v| <= 128 && IsLower(v[0]) && forall i :: 0 <= i < |v| ==> IsLower(v[i]) || IsDigit(v[i]) || v[i] == 45
  }

  predicate HasPrefix(v: Bytes, prefix: Bytes) {
    |prefix| <= |v| && v[..|prefix|] == prefix
  }

  /** A non-empty relative slash path in cleaned form that does not climb out of its root. */
  predicate SafeRelativePath(v: Bytes) {
    && v != [] && 92 !in v
    && v[|v| - 1] != 47
    && (v == [46] || forall i :: 0 <= i < |v| && (i == 0 || v[i - 1] == 47) ==> SafeComponent(v, i))
  }

  // The path component that starts at i is neither empty nor "." nor "..".
  predicate SafeComponent(v: Bytes, i: nat)
    requires i < |v|
  {
    && v[i] != 47
    && !(v[i] == 46 && (i + 1 == |v| || v[i + 1] == 47))
    && !(v[i] == 46 && i + 1 < |v| && v[i + 1] == 46 && (i + 2 == |v| || v[i + 2] == 47))
  }

  // ----- bounded reads -------------------------------------------------------

  function ReadRegular(files: Files, path: Bytes, maximum: int): (r: Option<Bytes>)
    ensures r.Some? <==> path in files && 0 < |files[path]| <= maximum
    ensures r.Some? ==> r.value == files[path]
  {
    if path in files && 0 < |files[path]| <= maximum then Some(files[path]) else None
  }
}
