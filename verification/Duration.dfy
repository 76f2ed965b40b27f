/** The bounded ISO 8601 duration form `P[nD][T[nH][nM][n[.n]S]]`, scanned with
    one index and backtracking (internal/dataplane/common.go). */
module Durations {
  import opened Wrappers
  import opened ByteStrings
  import opened Lexical

  const D: byte := 68
  const H: byte := 72
  const M: byte := 77
  const P: byte := 80
  const S: byte := 83
  const T: byte := 84
  const DOT: byte := 46

  // ----- the language --------------------------------------------------------

  /** Seconds may carry a fraction. */
  datatype Component = Component(digits: Bytes, fraction: Option<Bytes>)

  datatype Clock = Clock(hours: Option<Component>, minutes: Option<Component>, seconds: Option<Component>)

  datatype Duration = Duration(days: Option<Component>, clock: Option<Clock>)

  predicate Digits(s: Bytes) {
    s != [] && AllDigits(s)
  }

  predicate WellFormedComponent(c: Option<Component>, unit: byte) {
    c.Some? ==>
      && Digits(c.value.digits)
      && (c.value.fraction.Some? ==> unit == S && Digits(c.value.fraction.value))
  }

  /** At least one component, and a clock part is never empty. */
  predicate WellFormed(d: Duration) {
    && WellFormedComponent(d.days, D)
    && (d.clock.None? ==> d.days.Some?)
    && (d.clock.Some? ==>
          var c := d.clock.value;
          && WellFormedComponent(c.hours, H) && WellFormedComponent(c.minutes, M) && WellFormedComponent(c.seconds, S)
          && (c.hours.Some? || c.minutes.Some? || c.seconds.Some?))
  }

  function WriteComponent(c: Option<Component>, unit: byte, tail: Bytes): Bytes {
    if c.None? then tail
    else if c.value.fraction.None? then c.value.digits + ([unit] + tail)
    else c.value.digits + ([DOT] + (c.value.fraction.value + ([unit] + tail)))
  }

  function WriteClock(c: Clock): Bytes {
    WriteComponent(c.hours, H, WriteComponent(c.minutes, M, WriteComponent(c.seconds, S, [])))
  }

  function Write(d: Duration): Bytes {
    [P] + WriteComponent(d.days, D, if d.clock.None? then [] else [T] + WriteClock(d.clock.value))
  }

  // ----- the scan ------------------------------------------------------------

  function DigitRun(s: Bytes): (k: nat)
    ensures k <= |s| && AllDigits(s[..k]) && (k < |s| ==> !IsDigit(s[k]))
  {
    if s == [] || !IsDigit(s[0]) then 0 else 1 + DigitRun(s[1..])
  }

  datatype Scan = Reject | Absent | Present(c: Component, rest: Bytes)

  /** A unit letter ends the component; anything else means it is not there. */
  function ScanEnd(c: Component, s: Bytes, unit: byte): Scan {
    if s != [] && s[0] == unit then Present(c, s[1..]) else Absent
  }

  function ScanUnit(digits: Bytes, s: Bytes, unit: byte): Scan {
    if unit == S && s != [] && s[0] == DOT then
      var f := DigitRun(s[1..]);
      if f == 0 then Reject else ScanEnd(Component(digits, Some(s[1..][..f])), s[1..][f..], unit)
    else ScanEnd(Component(digits, None), s, unit)
  }

  function ScanComponent(s: Bytes, unit: byte): Scan {
    var k := DigitRun(s);
    if k == 0 then Absent else ScanUnit(s[..k], s[k..], unit)
  }

  function After(r: Scan, s: Bytes): Bytes {
    if r.Present? then r.rest else s
  }

  function Found(r: Scan): Option<Component> {
    if r.Present? then Some(r.c) else None
  }

  function ScanClock(s: Bytes): Option<Clock> {
    var hours := ScanComponent(s, H);
    var s1 := After(hours, s);
    var minutes := ScanComponent(s1, M);
    var s2 := After(minutes, s1);
    var seconds := ScanComponent(s2, S);
    if seconds.Reject? || After(seconds, s2) != [] then None
    else if hours.Present? || minutes.Present? || seconds.Present? then
      Some(Clock(Found(hours), Found(minutes), Found(seconds)))
    else None
  }

  /** The duration `s` spells, if it spells one. */
  function Parse(s: Bytes): Option<Duration> {
    if |s| < 2 || s[0] != P then None
    else
      var days := ScanComponent(s[1..], D);
      var rest := After(days, s[1..]);
      if rest == [] then
        if days.Present? then Some(Duration(Found(days), None)) else None
      else if rest[0] != T then None
      else
        var clock := ScanClock(rest[1..]);
        if clock.None? then None else Some(Duration(Found(days), clock))
  }

  predicate IsDuration(s: Bytes) {
    Parse(s).Some?
  }

  // ----- scan and language agree ---------------------------------------------

  lemma EndCanonical(c: Component, s: Bytes, unit: byte)
    requires ScanEnd(c, s, unit).Present?
    ensures s == [unit] + ScanEnd(c, s, unit).rest
  {}

  lemma UnitCanonical(digits: Bytes, s: Bytes, unit: byte)
    requires ScanUnit(digits, s, unit).Present?
    ensures var r := ScanUnit(digits, s, unit);
            && r.c.digits == digits
            && (r.c.fraction.Some? ==> unit == S && Digits(r.c.fraction.value))
            && digits + s == WriteComponent(Some(r.c), unit, r.rest)
  {
    hide DigitRun;
    var r := ScanUnit(digits, s, unit);
    if r.c.fraction.Some? {
      var f := DigitRun(s[1..]);
      assert s == [DOT] + s[1..] && s[1..] == s[1..][..f] + s[1..][f..];
      EndCanonical(r.c, s[1..][f..], unit);
    } else {
      EndCanonical(r.c, s, unit);
    }
  }

  lemma ScanCanonical(s: Bytes, unit: byte)
    ensures var r := ScanComponent(s, unit);
            WellFormedComponent(Found(r), unit) && s == WriteComponent(Found(r), unit, After(r, s))
  {
    hide ScanUnit, DigitRun;
    var k := DigitRun(s);
    assert s == s[..k] + s[k..];
    if ScanComponent(s, unit).Present? { UnitCanonical(s[..k], s[k..], unit); }
  }

  lemma ScanClockCanonical(s: Bytes)
    requires ScanClock(s).Some?
    ensures WellFormed(Duration(None, ScanClock(s))) && s == WriteClock(ScanClock(s).value)
  {
    var s1 := After(ScanComponent(s, H), s);
    var s2 := After(ScanComponent(s1, M), s1);
    ScanCanonical(s, H);
    ScanCanonical(s1, M);
    ScanCanonical(s2, S);
  }

  lemma ParseCanonical(s: Bytes)
    requires IsDuration(s)
    ensures WellFormed(Parse(s).value) && s == Write(Parse(s).value)
  {
    hide ScanComponent, ScanClock, WriteComponent, WriteClock;
    assert s == [P] + s[1..];
    ScanCanonical(s[1..], D);
    var rest := After(ScanComponent(s[1..], D), s[1..]);
    if rest != [] {
      assert rest == [T] + rest[1..];
      ScanClockCanonical(rest[1..]);
    }
  }

  lemma {:induction false} DigitRunOf(ds: Bytes, tail: Bytes)
    requires AllDigits(ds) && (tail != [] ==> !IsDigit(tail[0]))
    ensures var s := ds + tail; DigitRun(s) == |ds| && s[..|ds|] == ds && s[|ds|..] == tail
  {
    if ds != [] {
      assert (ds + tail)[1..] == ds[1..] + tail;
      DigitRunOf(ds[1..], tail);
    } else {
      assert ds + tail == tail;
    }
  }

  lemma ScanOf(c: Component, unit: byte, tail: Bytes)
    requires WellFormedComponent(Some(c), unit) && unit in {D, H, M, S}
    ensures ScanComponent(WriteComponent(Some(c), unit, tail), unit) == Present(c, tail)
  {
    hide DigitRun;
    var end := [unit] + tail;
    if c.fraction.None? {
      DigitRunOf(c.digits, end);
    } else {
      var inner := c.fraction.value + end;
      DigitRunOf(c.digits, [DOT] + inner);
      assert ([DOT] + inner)[1..] == inner;
      DigitRunOf(c.fraction.value, end);
    }
    assert end[1..] == tail;
  }

  lemma ScanNothing(unit: byte)
    ensures ScanComponent([], unit) == Absent
  {}

  /** What a component that belongs to another unit looks like to a scan. */
  lemma ScanOther(c: Component, unit: byte, other: byte, tail: Bytes)
    requires WellFormedComponent(Some(c), unit) && unit in {D, H, M, S} && other in {D, H, M} && unit != other
    ensures ScanComponent(WriteComponent(Some(c), unit, tail), other) == Absent
  {
    hide DigitRun;
    if c.fraction.None? {
      DigitRunOf(c.digits, [unit] + tail);
    } else {
      DigitRunOf(c.digits, [DOT] + (c.fraction.value + ([unit] + tail)));
    }
  }

  lemma ScanClockOf(c: Clock)
    requires WellFormed(Duration(None, Some(c)))
    ensures ScanClock(WriteClock(c)) == Some(c)
  {
    hide ScanComponent;
    var s2 := WriteComponent(c.seconds, S, []);
    var s1 := WriteComponent(c.minutes, M, s2);
    ScanNothing(M);
    ScanNothing(S);
    if c.hours.Some? { ScanOf(c.hours.value, H, s1); }
    else if c.minutes.Some? { ScanOther(c.minutes.value, M, H, s2); }
    else if c.seconds.Some? { ScanOther(c.seconds.value, S, H, []); }
    if c.minutes.Some? { ScanOf(c.minutes.value, M, s2); }
    else if c.seconds.Some? { ScanOther(c.seconds.value, S, M, []); }
    if c.seconds.Some? { ScanOf(c.seconds.value, S, []); }
  }

  lemma ParseOf(d: Duration)
    requires WellFormed(d)
    ensures Parse(Write(d)) == Some(d)
  {
    var rest := if d.clock.None? then [] else [T] + WriteClock(d.clock.value);
    assert Write(d)[1..] == WriteComponent(d.days, D, rest);
    if d.days.Some? { ScanOf(d.days.value, D, rest); }
    if d.clock.Some? {
      ScanClockOf(d.clock.value);
      assert rest[1..] == WriteClock(d.clock.value);
    }
  }

  /** The scan accepts exactly the written forms of well-formed durations. */
  lemma DurationLanguage(s: Bytes)
    ensures IsDuration(s) <==> exists d: Duration :: WellFormed(d) && s == Write(d)
  {
    if d: Duration :| WellFormed(d) && s == Write(d) { ParseOf(d); }
    if IsDuration(s) { ParseCanonical(s); }
  }

  // ----- the index-moving scan of the source ---------------------------------

  method ReadDigits(value: Bytes, start: nat) returns (i: nat)
    requires start <= |value|
    ensures i == start + DigitRun(value[start..]) <= |value|
  {
    i := start;
    while i < |value| && IsDigit(value[i])
      invariant start <= i <= |value|
      invariant start + DigitRun(value[start..]) == i + DigitRun(value[i..])
    {
      assert value[i..][1..] == value[i + 1..];
      i := i + 1;
    }
  }

  /** The part of a component after its digits: a fraction of seconds, the unit. */
  method ReadUnit(value: Bytes, start: nat, unit: byte, ghost digits: Bytes) returns (ghost scan: Scan, rejected: bool, i: nat)
    requires start <= |value|
    ensures scan == ScanUnit(digits, value[start..], unit) && rejected == scan.Reject?
    ensures scan.Present? ==> start < i <= |value| && value[i..] == scan.rest
    ensures !scan.Present? ==> i == 0
  {
    hide DigitRun;
    scan, rejected, i := ScanUnit(digits, value[start..], unit), false, start;
    if unit == S && i < |value| && value[i] == DOT {
      var fraction := i + 1;
      DropDrop(value, i, 1);
      i := ReadDigits(value, fraction);
      DropDrop(value, fraction, i - fraction);
      if i == fraction {
        return scan, true, 0;
      }
    }
    if i < |value| && value[i] == unit {
      DropDrop(value, i, 1);
      i := i + 1;
    } else {
      i := 0;
    }
  }

  /** The component of `unit` at `start`: `i` is after it, or `start` again. */
  method ReadComponent(value: Bytes, start: nat, unit: byte) returns (ghost scan: Scan, rejected: bool, i: nat)
    requires start <= |value|
    ensures scan == ScanComponent(value[start..], unit) && rejected == scan.Reject?
    ensures i <= |value| && value[i..] == After(scan, value[start..]) && (i > start <==> scan.Present?)
  {
    hide DigitRun, ScanUnit;
    scan, rejected, i := ScanComponent(value[start..], unit), false, start;
    var end := ReadDigits(value, start);
    if end == start {
      return;
    }
    DropDrop(value, start, end - start);
    var after;
    scan, rejected, after := ReadUnit(value, end, unit, value[start..][..end - start]);
    if after > end {
      i := after;
    }
  }

  /** Whether the components of `units`, in order and each optional, make up `s`. */
  predicate Clocked(s: Bytes, units: seq<byte>, seen: bool) {
    if units == [] then seen && s == []
    else
      var scan := ScanComponent(s, units[0]);
      !scan.Reject? && Clocked(After(scan, s), units[1..], seen || scan.Present?)
  }

  lemma ClockedIsClock(s: Bytes)
    ensures Clocked(s, [H, M, S], false) <==> ScanClock(s).Some?
  {
    var hours := ScanComponent(s, H);
    var minutes := ScanComponent(After(hours, s), M);
    assert Clocked(s, [H, M, S], false) == Clocked(After(hours, s), [M, S], hours.Present?);
    var seen := hours.Present? || minutes.Present?;
    var s2 := After(minutes, After(hours, s));
    assert Clocked(After(hours, s), [M, S], hours.Present?) == Clocked(s2, [S], seen);
    var seconds := ScanComponent(s2, S);
    assert Clocked(s2, [S], seen) == (!seconds.Reject? && Clocked(After(seconds, s2), [], seen || seconds.Present?));
  }

  method ValidDuration(value: Bytes) returns (ok: bool)
    ensures ok <==> IsDuration(value)
  {
    hide ScanComponent;
    if |value| < 2 || value[0] != P {
      return false;
    }
    ghost var days, scan;
    var i: nat, rejected;
    days, rejected, i := ReadComponent(value, 1, D);
    var seen := i > 1;
    if i < |value| && value[i] == T {
      i := i + 1;
      assert value[i..] == value[i - 1..][1..];
      ClockedIsClock(value[i..]);
      var timeSeen, units := false, [H, M, S];
      for u := 0 to 3
        invariant i <= |value|
        invariant IsDuration(value) <==> Clocked(value[i..], units[u..], timeSeen)
      {
        var start := i;
        scan, rejected, i := ReadComponent(value, start, units[u]);
        assert units[u..][1..] == units[u + 1..];
        if rejected {
          return false;
        }
        timeSeen := timeSeen || i > start;
      }
      return timeSeen && i == |value|;
    }
    ok := seen && i == |value|;
  }
}
