/** Text and lexical-form checks shared by every canonical document
    (internal/dataplane/common.go). Every failed check is the one error
    `ErrInvalid`, so a check is a predicate. */
module Lexical {
  import opened ByteStrings
  import opened Cbor

  const MAX_IDENTIFIER: uint64 := 512
  const MAX_LOCATOR: uint64 := 0x4000
  const MAX_LEXICAL: uint64 := 0x4_0000
  const MAX_SHORT_TEXT: uint64 := 255

  predicate ValidText(v: Text, max: nat, empty: bool) {
    (empty || v != []) && |v| <= max && ValidUtf8(v) && 0 !in v
  }

  predicate ValidIdentifier(v: Text) {
    ValidText(v, MAX_IDENTIFIER, false)
  }

  predicate OneOf(v: Text, allowed: seq<string>) {
    exists i :: 0 <= i < |allowed| && v == Ascii(allowed[i])
  }

  /** An enumerated text is short and well-formed, so every reader accepts it. */
  lemma EnumFits(v: Text, allowed: seq<string>)
    requires OneOf(v, allowed) && forall i :: 0 <= i < |allowed| ==> |allowed[i]| <= 64
    ensures |v| <= 64 && ValidUtf8(v)
  {
    AsciiIsUtf8(v);
  }

  // ----- numbers and dates ---------------------------------------------------

  predicate IsDigit(b: byte) {
    48 <= b <= 57
  }

  predicate AllDigits(s: Bytes) {
    forall i :: 0 <= i < |s| ==> IsDigit(s[i])
  }

  function Decimal(s: Bytes): nat
    requires AllDigits(s)
  {
    if s == [] then 0 else 10 * Decimal(s[..|s| - 1]) + (s[|s| - 1] - 48)
  }

  /** The decimal numeral of a number. */
  function Numeral(n: nat): (t: Bytes)
    ensures CanonicalNatural(t) && Decimal(t) == n
    ensures n > 0 ==> t[0] != 48
  {
    if n < 10 then
      assert Decimal([]) == 0;
      [48 + n]
    else
      var t := Numeral(n / 10) + [48 + n % 10];
      assert t[..|t| - 1] == Numeral(n / 10);
      t
  }

  /** `(0|[1-9][0-9]*)`. */
  predicate CanonicalNatural(s: Bytes) {
    s != [] && AllDigits(s) && (|s| > 1 ==> s[0] != 48)
  }

  function Unsigned(s: Bytes): Bytes {
    if s != [] && s[0] == 45 then s[1..] else s
  }

  /** `^-?(0|[1-9][0-9]*)$`. */
  predicate CanonicalInteger(s: Bytes) {
    CanonicalNatural(Unsigned(s))
  }

  /** `^-?(0|[1-9][0-9]*)\.[0-9]+$`. */
  predicate CanonicalDecimal(s: Bytes) {
    var u := Unsigned(s);
    exists k :: 0 <= k < |u| - 1 && u[k] == 46 && CanonicalNatural(u[..k]) && AllDigits(u[k + 1..])
  }

  function DaysIn(year: nat, month: nat): nat {
    if month == 2 then if year % 4 == 0 && (year % 100 != 0 || year % 400 == 0) then 29 else 28
    else if month in {4, 6, 9, 11} then 30
    else 31
  }

  /** `YYYY-MM-DD`, a day of the proleptic Gregorian calendar. */
  predicate ValidDate(s: Bytes) {
    && |s| == 10 && s[4] == 45 && s[7] == 45
    && AllDigits(s[..4]) && AllDigits(s[5..7]) && AllDigits(s[8..10])
    && 1 <= Decimal(s[5..7]) <= 12
    && 1 <= Decimal(s[8..10]) <= DaysIn(Decimal(s[..4]), Decimal(s[5..7]))
  }

  /** `YYYY-MM-DDTHH:MM:SSZ`. */
  predicate ValidUTCSecond(s: Bytes) {
    && |s| == 20 && ValidDate(s[..10]) && s[10] == 84 && s[13] == 58 && s[16] == 58 && s[19] == 90
    && AllDigits(s[11..13]) && AllDigits(s[14..16]) && AllDigits(s[17..19])
    && Decimal(s[11..13]) < 24 && Decimal(s[14..16]) < 60 && Decimal(s[17..19]) < 60
  }

  lemma DateIsAscii(s: Bytes)
    requires ValidDate(s)
    ensures IsAscii(s)
  {
    assert s == s[..4] + [s[4]] + s[5..7] + [s[7]] + s[8..10];
  }

  lemma UTCSecondFits(s: Bytes)
    requires ValidUTCSecond(s)
    ensures |s| == 20 && ValidUtf8(s)
  {
    DateIsAscii(s[..10]);
    assert s == s[..10] + [s[10]] + s[11..13] + [s[13]] + s[14..16] + [s[16]] + s[17..19] + [s[19]];
    AsciiIsUtf8(s);
  }

  // ----- URIs ----------------------------------------------------------------

  predicate IsLetter(b: byte) {
    65 <= b <= 90 || 97 <= b <= 122
  }

  /** The first index of `b`, or |s|. */
  function IndexOf(s: Bytes, b: byte): (k: nat)
    ensures k <= |s| && (k < |s| ==> s[k] == b) && forall i :: 0 <= i < k ==> s[i] != b
  {
    if s == [] || s[0] == b then 0 else 1 + IndexOf(s[1..], b)
  }

  predicate ValidAbsoluteURI(s: Bytes) {
    var separator := IndexOf(s, 58);
    && 1 <= separator && separator + 1 < |s| && IsLetter(s[0])
    && (forall i :: 0 <= i < |s| ==> s[i] > 0x20 && s[i] != 0x7f)
    && (forall i :: 0 < i < separator ==> IsLetter(s[i]) || IsDigit(s[i]) || s[i] in {43, 45, 46})
  }

  // ----- languages and currencies --------------------------------------------

  predicate LanguageTag(s: Bytes) {
    2 <= |s| <= 63 && forall i :: 0 <= i < |s| ==> IsLetter(s[i]) || IsDigit(s[i]) || s[i] == 45
  }

  predicate CurrencyCode(s: Bytes) {
    |s| == 3 && forall i :: 0 <= i < |s| ==> 65 <= s[i] <= 90
  }
}
