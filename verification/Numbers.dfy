/** What the number texts of typed values are: numerals, with a sign and a fraction where allowed. */
module Numbers {
  import opened ByteStrings
  import opened Lexical

  /** A text in canonical form is the numeral of the number it reads as. */
  lemma {:induction false} CanonicalIsNumeral(s: Bytes)
    requires CanonicalNatural(s)
    ensures Numeral(Decimal(s)) == s
  {
    var n := |s| - 1;
    assert s == s[..n] + [s[n]];
    if n == 0 {
      assert Decimal(s[..0]) == 0;
    } else {
      CanonicalIsNumeral(s[..n]);
      LeadingDigit(s[..n]);
    }
  }

  lemma {:induction false} LeadingDigit(s: Bytes)
    requires s != [] && AllDigits(s) && s[0] != 48
    ensures Decimal(s) >= 1
  {
    var n := |s| - 1;
    if n > 0 {
      LeadingDigit(s[..n]);
    }
  }

  /** The natural number texts are exactly the numerals. */
  lemma NaturalsExactly(s: Bytes)
    ensures CanonicalNatural(s) <==> exists n: nat :: s == Numeral(n)
  {
    if CanonicalNatural(s) {
      CanonicalIsNumeral(s);
      assert s == Numeral(Decimal(s));
    }
  }

  /** The integer texts are exactly the numerals, with or without a minus sign. */
  lemma IntegersExactly(s: Bytes)
    ensures CanonicalInteger(s) <==> exists n: nat :: s == Numeral(n) || s == [45] + Numeral(n)
  {
    NaturalsExactly(Unsigned(s));
    if CanonicalInteger(s) {
      var n: nat :| Unsigned(s) == Numeral(n);
      assert s == Numeral(n) || s == [45] + Numeral(n);
    }
    forall n: nat | s == Numeral(n) || s == [45] + Numeral(n) ensures Unsigned(s) == Numeral(n) {
      assert IsDigit(Numeral(n)[0]);
    }
  }

  /** The decimal texts are exactly the numerals, with or without a minus sign, followed by a point and
    * one digit or more. */
  lemma DecimalsExactly(s: Bytes)
    ensures CanonicalDecimal(s) <==>
              exists n: nat, fraction :: IsDecimalOf(s, n, fraction)
  {
    if CanonicalDecimal(s) {
      DecimalHasParts(s);
    }
    forall n: nat, fraction | IsDecimalOf(s, n, fraction) ensures CanonicalDecimal(s) {
      PartsAreDecimal(s, n, fraction);
    }
  }

  // A numeral with a point and a fraction behind it, and a minus sign or none in front.
  predicate IsDecimalOf(s: Bytes, n: nat, fraction: Bytes) {
    && fraction != [] && AllDigits(fraction)
    && (s == Numeral(n) + [46] + fraction || s == [45] + Numeral(n) + [46] + fraction)
  }

  lemma DecimalHasParts(s: Bytes)
    requires CanonicalDecimal(s)
    ensures exists n: nat, fraction :: IsDecimalOf(s, n, fraction)
  {
    hide Numeral, CanonicalNatural, Unsigned, IsDecimalOf;
    var u := Unsigned(s);
    var k :| 0 <= k < |u| - 1 && u[k] == 46 && CanonicalNatural(u[..k]) && AllDigits(u[k + 1..]);
    NaturalsExactly(u[..k]);
    var n: nat :| u[..k] == Numeral(n);
    var fraction := u[k + 1..];
    assert u == Numeral(n) + [46] + fraction;
    SignedIs(s, n, fraction);
  }

  lemma SignedIs(s: Bytes, n: nat, fraction: Bytes)
    requires Unsigned(s) == Numeral(n) + [46] + fraction && fraction != [] && AllDigits(fraction)
    ensures IsDecimalOf(s, n, fraction)
  {
    hide Numeral, AllDigits;
    var u := Unsigned(s);
    assert s == u || s == [45] + u;
    assert [45] + (Numeral(n) + [46] + fraction) == [45] + Numeral(n) + [46] + fraction;
  }

  lemma PartsAreDecimal(s: Bytes, n: nat, fraction: Bytes)
    requires IsDecimalOf(s, n, fraction)
    ensures CanonicalDecimal(s)
  {
    var t := Numeral(n);
    assert IsDigit(t[0]) && CanonicalNatural(t);
    hide Numeral, CanonicalNatural, IsDigit;
    assert [45] + t + [46] + fraction == [45] + (t + [46] + fraction);
    var u := t + [46] + fraction;
    Signless(s, u);
    var k := |t|;
    assert u[..k] == t && u[k] == 46 && u[k + 1..] == fraction;
  }

  lemma Signless(s: Bytes, u: Bytes)
    requires u != [] && IsDigit(u[0]) && (s == u || s == [45] + u)
    ensures Unsigned(s) == u
  {
  }
}
