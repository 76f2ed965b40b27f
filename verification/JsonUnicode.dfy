/** What the escape scan of the bounded JSON profile is for: escaped text is well-formed UTF-16. */
module JsonUnicode {
  // Escapes name code units; the scan admits exactly those sequences of them that encode Unicode
  // scalar values.

  import opened Wrappers
  import opened ByteStrings
  import opened JsonBounded

  // ----- digits --------------------------------------------------------------

  /** The hexadecimal digit of a number, in either case. */
  function Digit(v: nat, upper: bool): byte
    requires v < 16
  {
    Ascii(if upper then "0123456789ABCDEF" else "0123456789abcdef")[v]
  }

  lemma DigitReads(v: nat, upper: bool)
    requires v < 16
    ensures IsHex(Digit(v, upper)) && HexValue(Digit(v, upper)) == v
  {
  }

  /** The four digits of a code unit, each in either case. */
  function Digits(unit: nat, upper: (bool, bool, bool, bool)): Bytes
    requires unit < 0x1_0000
  {
    [Digit(unit / 4096, upper.0), Digit(unit / 256 % 16, upper.1), Digit(unit / 16 % 16, upper.2), Digit(unit % 16, upper.3)]
  }

  lemma FourDigits(d: Bytes)
    requires |d| == 4 && forall i :: 0 <= i < 4 ==> IsHex(d[i])
    ensures Hex(d) == ((HexValue(d[0]) * 16 + HexValue(d[1])) * 16 + HexValue(d[2])) * 16 + HexValue(d[3]) < 0x1_0000
  {
    assert d[..3][..2] == d[..2] && d[..2][..1] == d[..1] && d[..1][..0] == [];
    hide HexValue;
    assert Hex(d[..1]) == HexValue(d[0]);
    assert Hex(d[..2]) == Hex(d[..1]) * 16 + HexValue(d[1]);
    assert Hex(d[..3]) == Hex(d[..2]) * 16 + HexValue(d[2]);
  }

  lemma FourParts(unit: nat)
    requires unit < 0x1_0000
    ensures ((unit / 4096 * 16 + unit / 256 % 16) * 16 + unit / 16 % 16) * 16 + unit % 16 == unit
  {
    Nibble(unit);
    Nibble(unit / 16);
    Nibble(unit / 256);
    assert unit / 16 / 16 == unit / 256 && unit / 256 / 16 == unit / 4096;
  }

  lemma Nibble(n: nat)
    ensures n / 16 * 16 + n % 16 == n
  {
  }

  /** Four digits, in any mixture of cases, are read as the code unit they are the digits of, whatever
    * follows them. */
  lemma DigitsRead(unit: nat, upper: (bool, bool, bool, bool), tail: Bytes)
    requires unit < 0x1_0000
    ensures WellFormedPiece(Unit(Digits(unit, upper))) && Hex(Digits(unit, upper)) == unit
    ensures CodeUnit(Digits(unit, upper) + tail) == Some(unit)
  {
    FourParts(unit);
    hide CodeUnit, Hex, WellFormedPiece;
    FourRead(unit / 4096, unit / 256 % 16, unit / 16 % 16, unit % 16, upper, tail);
  }

  lemma FourRead(a: nat, b: nat, c: nat, d: nat, upper: (bool, bool, bool, bool), tail: Bytes)
    requires a < 16 && b < 16 && c < 16 && d < 16
    ensures var digits := [Digit(a, upper.0), Digit(b, upper.1), Digit(c, upper.2), Digit(d, upper.3)];
            && WellFormedPiece(Unit(digits)) && Hex(digits) == ((a * 16 + b) * 16 + c) * 16 + d
            && CodeUnit(digits + tail) == Some(Hex(digits))
  {
    DigitReads(a, upper.0);
    DigitReads(b, upper.1);
    DigitReads(c, upper.2);
    DigitReads(d, upper.3);
    hide Digit, IsHex, HexValue, Hex, CodeUnit;
    var digits := [Digit(a, upper.0), Digit(b, upper.1), Digit(c, upper.2), Digit(d, upper.3)];
    FourDigits(digits);
    UnitReads(digits, tail);
  }

  // ----- UTF-16 (RFC 2781, section 2) ----------------------------------------

  predicate Scalar(c: nat) {
    c < 0xd800 || 0xe000 <= c <= 0x10_ffff
  }

  function Utf16(c: nat): (units: seq<nat>)
    ensures units != []
  {
    if c < 0x1_0000 then [c]
    else [0xd800 + (c - 0x1_0000) / 0x400, 0xdc00 + (c - 0x1_0000) % 0x400]
  }

  /** The code units of a text. */
  function Encoded(text: seq<nat>): seq<nat> {
    if text == [] then [] else Utf16(text[0]) + Encoded(text[1..])
  }

  predicate Scalars(text: seq<nat>) {
    forall c :: c in text ==> Scalar(c)
  }

  predicate Escapes(pieces: seq<Piece>) {
    forall x :: x in pieces ==> x.Unit? && WellFormedPiece(x)
  }

  /** The code units that escapes name. */
  function UnitsOf(pieces: seq<Piece>): (units: seq<nat>)
    requires Escapes(pieces)
    ensures |units| == |pieces|
  {
    seq(|pieces|, i requires 0 <= i < |pieces| => Hex(pieces[i].digits))
  }

  // Pairing, of the code units alone.
  predicate Paired(units: seq<nat>) {
    forall i :: 0 <= i < |units| ==> HasPartner(units, i)
  }

  predicate HasPartner(units: seq<nat>, i: nat)
    requires i < |units|
  {
    && (High(units[i]) ==> i + 1 < |units| && Low(units[i + 1]))
    && (Low(units[i]) ==> i > 0 && High(units[i - 1]))
  }

  lemma PairedUnits(pieces: seq<Piece>)
    requires Escapes(pieces)
    ensures SurrogatesPaired(pieces) <==> Paired(UnitsOf(pieces))
  {
    hide Hex, High, Low;
    var units := UnitsOf(pieces);
    forall i | 0 <= i < |pieces|
      ensures (IsHigh(pieces[i]) <==> High(units[i])) && (IsLow(pieces[i]) <==> Low(units[i]))
    {
      assert pieces[i] in pieces;
    }
    forall i | 0 <= i < |pieces| ensures PairedAt(pieces, i) <==> HasPartner(units, i) {
    }
  }

  lemma {:induction false} EncodedPaired(text: seq<nat>)
    requires Scalars(text)
    ensures Paired(Encoded(text))
    ensures forall u :: u in Encoded(text) ==> u < 0x1_0000
  {
    if text != [] {
      assert Scalar(text[0]);
      EncodedPaired(text[1..]);
      OnePaired(text[0]);
      Joined(Utf16(text[0]), Encoded(text[1..]));
    }
  }

  lemma OnePaired(c: nat)
    requires Scalar(c)
    ensures Paired(Utf16(c)) && forall u :: u in Utf16(c) ==> u < 0x1_0000
  {
    var units := Utf16(c);
    forall i | 0 <= i < |units| ensures HasPartner(units, i) {
    }
  }

  lemma Joined(a: seq<nat>, b: seq<nat>)
    requires Paired(a) && Paired(b)
    ensures Paired(a + b)
  {
    hide High, Low;
    var s := a + b;
    forall i | 0 <= i < |s| ensures HasPartner(s, i) {
      if i < |a| {
        assert HasPartner(a, i);
      } else {
        assert HasPartner(b, i - |a|);
      }
    }
  }

  // The scalar value that paired code units begin with, and how many of them are its own.
  function Leading(units: seq<nat>): (nat, nat)
    requires Paired(units) && units != []
  {
    assert HasPartner(units, 0);
    if High(units[0]) then (0x1_0000 + (units[0] - 0xd800) * 0x400 + (units[1] - 0xdc00), 2) else (units[0], 1)
  }

  lemma LeadingIs(units: seq<nat>)
    requires Paired(units) && units != [] && forall u :: u in units ==> u < 0x1_0000
    ensures var (c, n) := Leading(units);
            n <= |units| && Scalar(c) && Utf16(c) == units[..n] && Paired(units[n..])
  {
    var (c, n) := Leading(units);
    assert units[0] in units;
    if n == 2 {
      SplitPair(units[0] - 0xd800, units[1] - 0xdc00);
    }
    assert HasPartner(units, 0);
    RestPaired(units, n);
  }

  lemma RestPaired(units: seq<nat>, n: nat)
    requires Paired(units) && n <= |units| && (0 < n < |units| ==> !High(units[n - 1]))
    ensures Paired(units[n..])
  {
    hide High, Low;
    forall i | 0 <= i < |units| - n ensures HasPartner(units[n..], i) {
      assert HasPartner(units, i + n);
    }
  }

  lemma SplitPair(a: nat, b: nat)
    requires a < 0x400 && b < 0x400
    ensures (a * 0x400 + b) / 0x400 == a && (a * 0x400 + b) % 0x400 == b && a * 0x400 + b < 0x10_0000
  {
  }

  /** The text that paired code units encode. */
  function Decoded(units: seq<nat>): (text: seq<nat>)
    requires Paired(units) && forall u :: u in units ==> u < 0x1_0000
    ensures Scalars(text) && Encoded(text) == units
  {
    if units == [] then []
    else
      var (c, n) := Leading(units);
      assert n <= |units| && Scalar(c) && Utf16(c) == units[..n] && Paired(units[n..]) by { LeadingIs(units); }
      assert units == units[..n] + units[n..];
      assert forall u :: u in units[n..] ==> u in units;
      var rest := Decoded(units[n..]);
      assert ([c] + rest)[1..] == rest;
      [c] + rest
  }

  /** A string of escapes passes the scan exactly when its code units encode a text of Unicode scalar
    * values: no half of a surrogate pair is left alone. */
  lemma EscapesAreText(pieces: seq<Piece>)
    requires Escapes(pieces)
    ensures ScanOutside(TextBytes([Quoted(pieces)])) <==> exists text :: Scalars(text) && Encoded(text) == UnitsOf(pieces)
  {
    hide ScanOutside, TextBytes, Hex;
    var segments: seq<Segment> := [Quoted(pieces)];
    EscapesAccepted(segments);
    PairedUnits(pieces);
    SmallUnits(pieces);
    assert segments[0] in segments;
    hide Paired, SurrogatesPaired, UnitsOf;
    if Paired(UnitsOf(pieces)) {
      var text := Decoded(UnitsOf(pieces));
      assert Scalars(text) && Encoded(text) == UnitsOf(pieces);
    }
    if text :| Scalars(text) && Encoded(text) == UnitsOf(pieces) {
      EncodedPaired(text);
    }
  }

  lemma SmallUnits(pieces: seq<Piece>)
    requires Escapes(pieces)
    ensures forall u :: u in UnitsOf(pieces) ==> u < 0x1_0000
  {
    var units := UnitsOf(pieces);
    forall i | 0 <= i < |units| ensures units[i] < 0x1_0000 {
      assert pieces[i] in pieces;
      FourDigits(pieces[i].digits);
    }
  }
}
