/** What the texts of the evidence spools mean: hexadecimal digests and safe relative paths. */
module PathNames {
  // Digits and paths are said again without the scanning that checks them.

  import opened ByteStrings
  import opened Lexical
  import opened Spools
  import Pointers

  // ----- digests -------------------------------------------------------------

  /** The two digits of each byte stand in order, the high one first, in lower case. */
  lemma {:induction false} HexAt(d: Bytes, i: nat)
    requires i < |d|
    ensures Hex(d)[2 * i] == Ascii("0123456789abcdef")[d[i] / 16]
    ensures Hex(d)[2 * i + 1] == Ascii("0123456789abcdef")[d[i] % 16]
  {
    if i == 0 {
      DigitIs(d[0] / 16);
      DigitIs(d[0] % 16);
    } else {
      HexAt(d[1..], i - 1);
      assert Hex(d)[2..] == Hex(d[1..]);
      hide *;
      assert Hex(d)[2 * i] == Hex(d)[2..][2 * i - 2] && Hex(d)[2 * i + 1] == Hex(d)[2..][2 * i - 1];
    }
  }

  lemma DigitIs(n: nat)
    requires n < 16
    ensures HexDigit(n) == Ascii("0123456789abcdef")[n]
  {
  }

  // ----- paths ---------------------------------------------------------------

  /** A name that stays inside its directory. */
  predicate PlainName(c: Bytes) {
    c != [] && c != Ascii(".") && c != Ascii("..")
  }

  // Every component that starts in the path is safe, and the last one is not empty.
  predicate SafeFrom(v: Bytes) {
    && v != [] && v[|v| - 1] != 47
    && forall i :: 0 <= i < |v| && (i == 0 || v[i - 1] == 47) ==> SafeComponent(v, i)
  }

  lemma FirstName(v: Bytes, k: nat)
    requires k <= |v| && v != [] && 47 !in v[..k] && (k < |v| ==> v[k] == 47)
    ensures SafeComponent(v, 0) <==> PlainName(v[..k])
  {
    assert Ascii(".") == [46] && Ascii("..") == [46, 46];
    assert forall i :: 0 <= i < k ==> v[i] == v[..k][i];
    if k == 1 {
      assert v[..k] == [v[0]];
    }
    if k == 2 {
      assert v[..k] == [v[0], v[1]];
    }
  }

  lemma RestSafe(v: Bytes, k: nat)
    requires k + 1 < |v| && 47 !in v[..k] && v[k] == 47
    ensures SafeFrom(v) <==> SafeComponent(v, 0) && SafeFrom(v[k + 1..])
  {
    var rest := v[k + 1..];
    forall i | 0 <= i < |rest| ensures SafeComponent(rest, i) <==> SafeComponent(v, i + k + 1) {
      assert rest[i] == v[i + k + 1];
    }
    forall j | 0 <= j < k ensures v[j] != 47 {
      assert v[j] == v[..k][j];
    }
    hide SafeComponent;
    if SafeComponent(v, 0) && SafeFrom(rest) {
      forall i | 0 <= i < |v| && (i == 0 || v[i - 1] == 47) ensures SafeComponent(v, i) {
        if i > k {
          assert i - k - 1 == 0 || rest[i - k - 2] == 47;
          assert SafeComponent(rest, i - k - 1);
        }
      }
    }
    if SafeFrom(v) {
      forall i | 0 <= i < |rest| && (i == 0 || rest[i - 1] == 47) ensures SafeComponent(rest, i) {
        assert SafeComponent(v, i + k + 1);
      }
    }
  }

  lemma {:induction false} SafeByNames(v: Bytes)
    requires v != []
    ensures SafeFrom(v) <==> forall c :: c in Split(v, 47) ==> PlainName(c)
    decreases |v|
  {
    var k := IndexOf(v, 47);
    var name, more := v[..k], v[k..];
    assert v == name + more;
    Pointers.SplitToken(name, more);
    FirstName(v, k);
    hide SafeComponent, PlainName;
    if k == |v| {
      assert Split(v, 47) == [name];
      assert SafeFrom(v) <==> SafeComponent(v, 0);
    } else {
      assert more[1..] == v[k + 1..];
      var rest := v[k + 1..];
      assert Split(v, 47) == [name] + Split(rest, 47);
      if rest != [] {
        SafeByNames(rest);
        RestSafe(v, k);
      } else {
        NoName();
      }
    }
  }

  lemma NoName()
    ensures Split([], 47) == [[]] && !PlainName([])
  {
  }

  /** A path is safe exactly when it is ".", or has no backslash and every name between its slashes is
    * a plain one: none is empty, "." or "..". */
  lemma SafeExactly(v: Bytes)
    ensures SafeRelativePath(v)
            <==> v == Ascii(".") || (v != [] && 92 !in v && forall c :: c in Split(v, 47) ==> PlainName(c))
  {
    assert Ascii(".") == [46];
    hide PlainName;
    if v != [] && v != [46] {
      SafeByNames(v);
    }
  }
}
