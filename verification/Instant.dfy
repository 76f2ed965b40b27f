/** What the order of time texts means: the byte order of canonical UTC seconds is the order in time. */
module Instants {
  // Documents compare times as texts. An instant is a number of seconds, its days counted through
  // the years and months of the Gregorian calendar.

  import opened ByteStrings
  import opened Lexical
  import opened Documents
  import opened Packets
  import F = Frames

  // ----- instants ------------------------------------------------------------

  function DaysBeforeMonth(year: nat, month: nat): nat {
    if month <= 1 then 0 else DaysBeforeMonth(year, month - 1) + DaysIn(year, month - 1)
  }

  function DaysBeforeYear(year: nat): nat {
    if year == 0 then 0 else DaysBeforeYear(year - 1) + DaysBeforeMonth(year - 1, 13)
  }

  /** The date and the time of day that a text names. */
  datatype Moment = Moment(year: nat, month: nat, day: nat, hour: nat, minute: nat, second: nat)

  function MomentOf(s: Bytes): Moment
    requires ValidUTCSecond(s)
  {
    var date := s[..10];
    assert s[..4] == date[..4] && s[5..7] == date[5..7] && s[8..10] == date[8..10];
    Moment(Decimal(s[..4]), Decimal(s[5..7]), Decimal(s[8..10]), Decimal(s[11..13]), Decimal(s[14..16]), Decimal(s[17..19]))
  }

  predicate OnCalendar(m: Moment) {
    && 1 <= m.month <= 12 && 1 <= m.day <= DaysIn(m.year, m.month) && m.hour < 24 && m.minute < 60 && m.second < 60
  }

  function Day(m: Moment): int {
    DaysBeforeYear(m.year) + DaysBeforeMonth(m.year, m.month) + m.day
  }

  function Seconds(m: Moment): int {
    ((Day(m) * 24 + m.hour) * 60 + m.minute) * 60 + m.second
  }

  /** The seconds that a canonical time text stands for. */
  function Instant(s: Bytes): int
    requires ValidUTCSecond(s)
  {
    Seconds(MomentOf(s))
  }

  /** The calendar is the Gregorian one: a year in four has a day more, but not a hundredth, and yet
    * a four-hundredth. */
  lemma {:induction false} YearsAreGregorian(year: nat)
    ensures DaysBeforeYear(year) == 365 * year + (year + 3) / 4 - (year + 99) / 100 + (year + 399) / 400
  {
    hide DaysIn, DaysBeforeMonth;
    if year > 0 {
      YearsAreGregorian(year - 1);
      MonthTable(year - 1);
      LeapCount(year);
    }
  }

  /** The days before each month; those from March on are one more in a leap year. */
  lemma MonthTable(year: nat)
    ensures DaysBeforeMonth(year, 1) == 0 && DaysBeforeMonth(year, 2) == 31
    ensures var leap := if year % 4 == 0 && (year % 100 != 0 || year % 400 == 0) then 1 else 0;
            && DaysBeforeMonth(year, 3) - leap == 59 && DaysBeforeMonth(year, 4) - leap == 90
            && DaysBeforeMonth(year, 5) - leap == 120 && DaysBeforeMonth(year, 6) - leap == 151
            && DaysBeforeMonth(year, 7) - leap == 181 && DaysBeforeMonth(year, 8) - leap == 212
            && DaysBeforeMonth(year, 9) - leap == 243 && DaysBeforeMonth(year, 10) - leap == 273
            && DaysBeforeMonth(year, 11) - leap == 304 && DaysBeforeMonth(year, 12) - leap == 334
            && DaysBeforeMonth(year, 13) - leap == 365
  {
    var february := DaysIn(year, 2);
    assert DaysBeforeMonth(year, 2) == 31 && DaysBeforeMonth(year, 3) == 31 + february;
    assert DaysBeforeMonth(year, 4) == 62 + february && DaysBeforeMonth(year, 5) == 92 + february;
    assert DaysBeforeMonth(year, 6) == 123 + february && DaysBeforeMonth(year, 7) == 153 + february;
    assert DaysBeforeMonth(year, 8) == 184 + february && DaysBeforeMonth(year, 9) == 215 + february;
    assert DaysBeforeMonth(year, 10) == 245 + february && DaysBeforeMonth(year, 11) == 276 + february;
    assert DaysBeforeMonth(year, 12) == 306 + february && DaysBeforeMonth(year, 13) == 337 + february;
  }

  lemma LeapCount(year: nat)
    requires year > 0
    ensures var y := year - 1;
            (year + 3) / 4 - (year + 99) / 100 + (year + 399) / 400
            == (year + 2) / 4 - (year + 98) / 100 + (year + 398) / 400
               + if y % 4 == 0 && (y % 100 != 0 || y % 400 == 0) then 1 else 0
  {
    Fourth(year);
    Hundredth(year);
    FourHundredth(year);
    Nested(year - 1);
  }

  lemma Fourth(y: nat)
    requires y > 0
    ensures (y + 3) / 4 == (y + 2) / 4 + if (y - 1) % 4 == 0 then 1 else 0
  {
  }

  lemma Hundredth(y: nat)
    requires y > 0
    ensures (y + 99) / 100 == (y + 98) / 100 + if (y - 1) % 100 == 0 then 1 else 0
  {
  }

  lemma FourHundredth(y: nat)
    requires y > 0
    ensures (y + 399) / 400 == (y + 398) / 400 + if (y - 1) % 400 == 0 then 1 else 0
  {
  }

  lemma Nested(y: nat)
    ensures y % 400 == 0 ==> y % 100 == 0
    ensures y % 100 == 0 ==> y % 4 == 0
  {
    if y % 400 == 0 {
      Hundreds(4 * (y / 400));
    }
    if y % 100 == 0 {
      Fours(25 * (y / 100));
    }
  }

  lemma Hundreds(k: nat)
    ensures 100 * k % 100 == 0
  {
  }

  lemma Fours(k: nat)
    ensures 4 * k % 4 == 0
  {
  }

  // ----- later is greater ----------------------------------------------------

  predicate Earlier(a: Moment, b: Moment) {
    a.year < b.year || (a.year == b.year && (a.month < b.month || (a.month == b.month && (a.day < b.day || (a.day == b.day
      && (a.hour < b.hour || (a.hour == b.hour && (a.minute < b.minute || (a.minute == b.minute && a.second < b.second)))))))))
  }

  lemma {:induction false} YearsAdd(a: nat, b: nat)
    requires a < b
    ensures DaysBeforeYear(a) + DaysBeforeMonth(a, 13) <= DaysBeforeYear(b)
  {
    if a + 1 < b {
      YearsAdd(a, b - 1);
    }
  }

  lemma {:induction false} MonthsAdd(year: nat, a: nat, b: nat)
    requires 1 <= a < b
    ensures DaysBeforeMonth(year, a) + DaysIn(year, a) <= DaysBeforeMonth(year, b)
  {
    if a + 1 < b {
      MonthsAdd(year, a, b - 1);
    }
  }

  lemma DaysGrow(a: Moment, b: Moment)
    requires OnCalendar(a) && OnCalendar(b)
    requires a.year < b.year || (a.year == b.year && (a.month < b.month || (a.month == b.month && a.day < b.day)))
    ensures Day(a) < Day(b)
  {
    hide DaysIn;
    if a.year < b.year {
      YearsAdd(a.year, b.year);
      MonthsAdd(a.year, a.month, 13);
    } else if a.month < b.month {
      MonthsAdd(a.year, a.month, b.month);
    }
  }

  lemma EarlierIsLess(a: Moment, b: Moment)
    requires OnCalendar(a) && OnCalendar(b)
    ensures Earlier(a, b) <==> Seconds(a) < Seconds(b)
  {
    hide Seconds, OnCalendar;
    if Earlier(a, b) {
      Forward(a, b);
    } else if Earlier(b, a) {
      Forward(b, a);
    } else {
      assert a == b;
    }
  }

  lemma Forward(a: Moment, b: Moment)
    requires OnCalendar(a) && OnCalendar(b) && Earlier(a, b)
    ensures Seconds(a) < Seconds(b)
  {
    hide DaysIn;
    if (a.year, a.month, a.day) != (b.year, b.month, b.day) {
      DaysGrow(a, b);
    }
    hide Day;
  }

  // ----- texts ---------------------------------------------------------------

  /** The order of joined texts of equal width goes by their parts. */
  lemma {:induction false} LessJoined(p: Bytes, q: Bytes, s: Bytes, t: Bytes)
    requires |p| == |q|
    ensures Less(p + s, q + t) <==> Less(p, q) || (p == q && Less(s, t))
  {
    if p == [] {
      assert p + s == s && q + t == t;
    } else {
      assert (p + s)[1..] == p[1..] + s && (q + t)[1..] == q[1..] + t;
      LessJoined(p[1..], q[1..], s, t);
      assert p == [p[0]] + p[1..] && q == [q[0]] + q[1..];
    }
  }

  /** Digits of equal width are ordered as their numbers. */
  lemma {:induction false} LessDigits(p: Bytes, q: Bytes)
    requires AllDigits(p) && AllDigits(q) && |p| == |q|
    ensures Less(p, q) <==> Decimal(p) < Decimal(q)
    ensures p == q <==> Decimal(p) == Decimal(q)
  {
    if p != [] {
      var n := |p| - 1;
      LessDigits(p[..n], q[..n]);
      assert p == p[..n] + [p[n]] && q == q[..n] + [q[n]];
      LessJoined(p[..n], q[..n], [p[n]], [q[n]]);
      assert Less([p[n]], [q[n]]) <==> p[n] < q[n];
    }
  }

  // A canonical time text is the six numbers of its moment, in order and of fixed width.
  lemma FieldsOf(s: Bytes)
    requires ValidUTCSecond(s)
    ensures |s| == 20 && OnCalendar(MomentOf(s))
    ensures AllDigits(s[..4]) && AllDigits(s[5..7]) && AllDigits(s[8..10])
    ensures AllDigits(s[11..13]) && AllDigits(s[14..16]) && AllDigits(s[17..19])
    ensures s[4] == 45 && s[7] == 45 && s[10] == 84 && s[13] == 58 && s[16] == 58 && s[19] == 90
    ensures MomentOf(s) == Moment(Decimal(s[..4]), Decimal(s[5..7]), Decimal(s[8..10]), Decimal(s[11..13]),
                                  Decimal(s[14..16]), Decimal(s[17..19]))
  {
    hide Decimal, DaysIn;
    var date := s[..10];
    assert s[..4] == date[..4] && s[5..7] == date[5..7] && s[8..10] == date[8..10];
  }

  // One field of digits at `i`, of width `n`, and the byte behind it, decide the order unless they
  // are the same in both.
  lemma FieldOrder(a: Bytes, b: Bytes, i: nat, n: nat)
    requires |a| == |b| && i + n < |a| && a[i + n] == b[i + n]
    requires AllDigits(a[i..i + n]) && AllDigits(b[i..i + n])
    ensures var x, y := Decimal(a[i..i + n]), Decimal(b[i..i + n]);
            Less(a[i..], b[i..]) <==> x < y || (x == y && Less(a[i + n + 1..], b[i + n + 1..]))
  {
    hide Decimal, Less;
    var p, q, mark := a[i..i + n], b[i..i + n], [a[i + n]];
    LessDigits(p, q);
    var s, t := a[i + n + 1..], b[i + n + 1..];
    assert a[i..] == p + (mark + s) && b[i..] == q + (mark + t);
    LessJoined(p, q, mark + s, mark + t);
    LessJoined(mark, mark, s, t);
    LessIrreflexive(mark);
  }

  lemma TextOrder(a: Bytes, b: Bytes)
    requires ValidUTCSecond(a) && ValidUTCSecond(b)
    ensures Less(a, b) <==> Earlier(MomentOf(a), MomentOf(b))
  {
    FieldsOf(a);
    FieldsOf(b);
    hide ValidUTCSecond, MomentOf, Decimal, OnCalendar, AllDigits, Less;
    FieldOrder(a, b, 0, 4);
    FieldOrder(a, b, 5, 2);
    FieldOrder(a, b, 8, 2);
    FieldOrder(a, b, 11, 2);
    FieldOrder(a, b, 14, 2);
    FieldOrder(a, b, 17, 2);
    NoMore(a, b);
  }

  lemma NoMore(a: Bytes, b: Bytes)
    requires |a| == |b| == 20
    ensures a[0..] == a && b[0..] == b && !Less(a[20..], b[20..])
  {
  }

  /** The byte order of canonical time texts is the order of the instants they stand for. */
  lemma TextOrderIsTimeOrder(a: Bytes, b: Bytes)
    requires ValidUTCSecond(a) && ValidUTCSecond(b)
    ensures Less(a, b) <==> Instant(a) < Instant(b)
    ensures a == b <==> Instant(a) == Instant(b)
  {
    FieldsOf(a);
    FieldsOf(b);
    EarlierIsLess(MomentOf(a), MomentOf(b));
    EarlierIsLess(MomentOf(b), MomentOf(a));
    hide ValidUTCSecond, Earlier, MomentOf, Decimal, OnCalendar, Seconds, AllDigits, Less;
    TextOrder(a, b);
    TextOrder(b, a);
    LessTotal(a, b);
  }

  // ----- the texts themselves ------------------------------------------------

  /** A number in so many digits. */
  function Padded(n: nat, width: nat): (t: Bytes)
    ensures |t| == width && AllDigits(t)
  {
    if width == 0 then [] else Padded(n / 10, width - 1) + [48 + n % 10]
  }

  function PowerOfTen(k: nat): nat {
    if k == 0 then 1 else 10 * PowerOfTen(k - 1)
  }

  lemma {:induction false} PaddedReads(n: nat, width: nat)
    requires n < PowerOfTen(width)
    ensures Decimal(Padded(n, width)) == n
  {
    if width > 0 {
      PaddedReads(n / 10, width - 1);
      assert Padded(n, width)[..width - 1] == Padded(n / 10, width - 1);
    }
  }

  lemma {:induction false} DigitsArePadded(t: Bytes)
    requires AllDigits(t)
    ensures Decimal(t) < PowerOfTen(|t|) && Padded(Decimal(t), |t|) == t
  {
    if t != [] {
      var n := |t| - 1;
      DigitsArePadded(t[..n]);
      assert t == t[..n] + [t[n]];
    }
  }

  /** A moment as it is written. */
  function Written(m: Moment): Bytes {
    Padded(m.year, 4) + [45] + Padded(m.month, 2) + [45] + Padded(m.day, 2) + [84]
    + Padded(m.hour, 2) + [58] + Padded(m.minute, 2) + [58] + Padded(m.second, 2) + [90]
  }

  /** The canonical time texts are exactly the moments of the calendar, up to the year 9999, as they
    * are written. */
  lemma TimesAreMoments(s: Bytes)
    ensures ValidUTCSecond(s) <==> exists m :: OnCalendar(m) && m.year <= 9999 && s == Written(m)
  {
    if ValidUTCSecond(s) {
      WrittenBack(s);
    }
    forall m | OnCalendar(m) && m.year <= 9999 && s == Written(m) ensures ValidUTCSecond(s) {
      WrittenIsValid(m);
    }
  }

  lemma WrittenBack(s: Bytes)
    requires ValidUTCSecond(s)
    ensures OnCalendar(MomentOf(s)) && MomentOf(s).year <= 9999 && s == Written(MomentOf(s))
  {
    FieldsOf(s);
    hide ValidUTCSecond, MomentOf, OnCalendar, Decimal, Padded, AllDigits;
    DigitsArePadded(s[..4]);
    DigitsArePadded(s[5..7]);
    DigitsArePadded(s[8..10]);
    DigitsArePadded(s[11..13]);
    DigitsArePadded(s[14..16]);
    DigitsArePadded(s[17..19]);
    assert PowerOfTen(4) == 10_000;
    hide PowerOfTen;
    InPieces(s);
  }

  lemma InPieces(s: Bytes)
    requires |s| == 20
    ensures s == s[..4] + [s[4]] + s[5..7] + [s[7]] + s[8..10] + [s[10]]
                 + s[11..13] + [s[13]] + s[14..16] + [s[16]] + s[17..19] + [s[19]]
  {
  }

  lemma WrittenIsValid(m: Moment)
    requires OnCalendar(m) && m.year <= 9999
    ensures ValidUTCSecond(Written(m)) && MomentOf(Written(m)) == m
  {
    hide ValidDate, Written, DaysIn, Decimal, AllDigits;
    PiecesOf(m);
    PiecesRead(m);
    var s := Written(m);
    DateOf(s[..10], m.year, m.month, m.day);
  }

  lemma DateOf(date: Bytes, year: nat, month: nat, day: nat)
    requires |date| == 10 && date[4] == 45 && date[7] == 45
    requires AllDigits(date[..4]) && AllDigits(date[5..7]) && AllDigits(date[8..10])
    requires Decimal(date[..4]) == year && Decimal(date[5..7]) == month && Decimal(date[8..10]) == day
    requires 1 <= month <= 12 && 1 <= day <= DaysIn(year, month)
    ensures ValidDate(date)
  {
    hide Decimal, DaysIn, AllDigits;
  }

  // The fields are read back as the numbers of the moment.
  lemma PiecesRead(m: Moment)
    requires OnCalendar(m) && m.year <= 9999
    ensures AllDigits(Padded(m.year, 4)) && Decimal(Padded(m.year, 4)) == m.year
    ensures AllDigits(Padded(m.month, 2)) && Decimal(Padded(m.month, 2)) == m.month
    ensures AllDigits(Padded(m.day, 2)) && Decimal(Padded(m.day, 2)) == m.day
    ensures AllDigits(Padded(m.hour, 2)) && Decimal(Padded(m.hour, 2)) == m.hour
    ensures AllDigits(Padded(m.minute, 2)) && Decimal(Padded(m.minute, 2)) == m.minute
    ensures AllDigits(Padded(m.second, 2)) && Decimal(Padded(m.second, 2)) == m.second
  {
    MonthLength(m.year, m.month);
    assert PowerOfTen(2) == 100 && PowerOfTen(4) == 10_000;
    hide PowerOfTen, DaysIn, Padded, Decimal, AllDigits;
    PaddedReads(m.year, 4);
    PaddedReads(m.month, 2);
    PaddedReads(m.day, 2);
    PaddedReads(m.hour, 2);
    PaddedReads(m.minute, 2);
    PaddedReads(m.second, 2);
  }

  lemma MonthLength(year: nat, month: nat)
    ensures DaysIn(year, month) <= 31
  {
  }

  lemma PiecesOf(m: Moment)
    ensures var s := Written(m);
            && |s| == 20 && s[..10][..4] == Padded(m.year, 4) && s[..10][5..7] == Padded(m.month, 2)
            && s[..10][8..10] == Padded(m.day, 2) && s[..4] == Padded(m.year, 4) && s[5..7] == Padded(m.month, 2)
            && s[8..10] == Padded(m.day, 2) && s[11..13] == Padded(m.hour, 2) && s[14..16] == Padded(m.minute, 2)
            && s[17..19] == Padded(m.second, 2)
            && s[4] == 45 && s[7] == 45 && s[10] == 84 && s[13] == 58 && s[16] == 58 && s[19] == 90
            && s[..10][4] == 45 && s[..10][7] == 45 && |s[..10]| == 10
  {
    hide Padded, AllDigits;
    var s := Written(m);
    assert s[..10][..4] == s[..4] && s[..10][5..7] == s[5..7] && s[..10][8..10] == s[8..10];
  }

  // ----- documents -----------------------------------------------------------

  /** An interval of validity is empty only in that both ends are one instant: it never ends before it
    * begins. */
  predicate Ordered(from: OptionalText, until: OptionalText) {
    && (from.present ==> ValidUTCSecond(from.value)) && (until.present ==> ValidUTCSecond(until.value))
    && (from.present && until.present ==> Instant(from.value) <= Instant(until.value))
  }

  lemma NotAfterIsOrdered(from: OptionalText, until: OptionalText)
    requires ValidOptionalUTCSecond(from) && ValidOptionalUTCSecond(until)
    ensures NotAfter(from, until) <==> Ordered(from, until)
  {
    hide Instant, Less, ValidUTCSecond;
    if from.present && until.present {
      TextOrderIsTimeOrder(until.value, from.value);
    }
  }

  /** A packet whose only question is its interval of validity is valid, and marshalled if it fits,
    * exactly when the interval does not end before it begins. */
  lemma PacketInterval(p: Packet)
    requires ValidOptionalUTCSecond(p.time.validFrom)
    requires ValidPacket(p.(time := p.time.(validFrom := OptionalText(false, []))))
    ensures ValidPacket(p) <==> Ordered(p.time.validFrom, p.time.validUntil)
    ensures Marshal(p).Success?
            <==> Ordered(p.time.validFrom, p.time.validUntil) && |PutPacket(p, [])| <= MAX_DOCUMENT_BYTES
  {
    hide PutPacket, Ordered, NotAfter, ValidOptionalUTCSecond, ValidUTCSecond, OneOf;
    hide ValidSubject, ValidPredicate, ValidObject, ValidContext, ValidSource, ValidDerivation, ValidEpistemic;
    hide ValidLifecycle, ValidTime;
    IntervalKept(p.time);
    NotAfterIsOrdered(p.time.validFrom, p.time.validUntil);
  }

  lemma IntervalKept(t: Time)
    requires ValidTime(t.(validFrom := OptionalText(false, []))) && ValidOptionalUTCSecond(t.validFrom)
    ensures ValidTime(t) <==> NotAfter(t.validFrom, t.validUntil)
    ensures ValidOptionalUTCSecond(t.validUntil)
  {
    hide ValidUTCSecond, Less;
  }

  /** Every packet that the decoder accepts is valid for an interval that does not end before it
    * begins. */
  lemma PacketsAreOrdered(data: Bytes)
    ensures Unmarshal(data).Success? ==>
              Ordered(Unmarshal(data).value.time.validFrom, Unmarshal(data).value.time.validUntil)
  {
    hide PutPacket, ReadPacket, Ordered, NotAfter, ValidOptionalUTCSecond, ValidUTCSecond, OneOf;
    hide ValidSubject, ValidPredicate, ValidObject, ValidContext, ValidSource, ValidDerivation, ValidEpistemic, ValidLane;
    hide ValidLifecycle;
    if Unmarshal(data).Success? {
      var t := Unmarshal(data).value.time;
      NotAfterIsOrdered(t.validFrom, t.validUntil);
    }
  }

  /** The same of frames. */
  lemma FrameInterval(f: F.Frame)
    requires ValidOptionalUTCSecond(f.time.validFrom)
    requires F.ValidFrame(f.(time := f.time.(validFrom := OptionalText(false, []))))
    ensures F.ValidFrame(f) <==> Ordered(f.time.validFrom, f.time.validUntil)
    ensures F.Marshal(f).Success?
            <==> Ordered(f.time.validFrom, f.time.validUntil) && |F.PutFrame(f, [])| <= MAX_DOCUMENT_BYTES
  {
    hide F.PutFrame, Ordered, NotAfter, ValidOptionalUTCSecond, ValidUTCSecond, OneOf, ValidIdentifier, ValidSortedTexts;
    hide ValidContext, F.ValidFrameTime, F.ValidFrameEpistemic, F.ValidFrameDerivation, F.ValidSlots, ValidLifecycle;
    FrameIntervalKept(f.time);
    NotAfterIsOrdered(f.time.validFrom, f.time.validUntil);
  }

  lemma FrameIntervalKept(t: F.FrameTime)
    requires F.ValidFrameTime(t.(validFrom := OptionalText(false, []))) && ValidOptionalUTCSecond(t.validFrom)
    ensures F.ValidFrameTime(t) <==> NotAfter(t.validFrom, t.validUntil)
    ensures ValidOptionalUTCSecond(t.validUntil)
  {
    hide ValidUTCSecond, Less;
  }

  lemma FramesAreOrdered(data: Bytes)
    ensures F.Unmarshal(data).Success? ==>
              Ordered(F.Unmarshal(data).value.time.validFrom, F.Unmarshal(data).value.time.validUntil)
  {
    hide F.PutFrame, F.ReadFrame, Ordered, NotAfter, ValidOptionalUTCSecond, ValidUTCSecond, OneOf, ValidIdentifier;
    hide ValidSortedTexts, ValidContext, F.ValidFrameEpistemic, F.ValidFrameDerivation, F.ValidSlots, ValidLifecycle;
    if F.Unmarshal(data).Success? {
      var t := F.Unmarshal(data).value.time;
      NotAfterIsOrdered(t.validFrom, t.validUntil);
    }
  }
}
