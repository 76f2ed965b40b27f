/** The title extraction of the archive profile (internal/archiveprofile/profile.go). */
module Titles {
  // A hand-written tag scanner over the lower-cased body, and the slice of the original body that
  // it selects.

  import opened Wrappers
  import opened ByteStrings

  const MAX_BODY: nat := 0x50_0000
  const MAX_TITLE: nat := 0x1_0000
  const LT: byte := 60
  const GT: byte := 62
  const SLASH: byte := 47

  predicate NameByte(b: byte) {
    97 <= b <= 122 || 48 <= b <= 57 || b == 58 || b == 45
  }

  predicate IsQuote(b: byte) {
    b == 39 || b == 34
  }

  datatype Tag = Tag(start: nat, end: nat, name: Bytes, closing: bool)

  datatype Found = Broken | Absent | At(tag: Tag)

  // ----- the scanning functions ----------------------------------------------

  predicate StartsWith(s: Bytes, i: nat, prefix: Bytes) {
    i + |prefix| <= |s| && s[i..i + |prefix|] == prefix
  }

  /** The first place at or after i where `pattern` starts. */
  function Index(s: Bytes, i: nat, pattern: Bytes): (r: Option<nat>)
    requires pattern != []
    ensures r.Some? ==> r.value >= i && StartsWith(s, r.value, pattern)
                        && forall k :: i <= k < r.value ==> !StartsWith(s, k, pattern)
    ensures r.None? ==> forall k :: i <= k ==> !StartsWith(s, k, pattern)
    decreases if i <= |s| then |s| - i else 0
  {
    if i + |pattern| > |s| then None
    else if s[i..i + |pattern|] == pattern then Some(i)
    else Index(s, i + 1, pattern)
  }

  /** Where a run of name bytes ends. */
  function NameEnd(s: Bytes, i: nat): (e: nat)
    requires i <= |s|
    ensures i <= e <= |s| && (forall k :: i <= k < e ==> NameByte(s[k])) && (e < |s| ==> !NameByte(s[e]))
    decreases |s| - i
  {
    if i == |s| || !NameByte(s[i]) then i else NameEnd(s, i + 1)
  }

  /** The '>' that ends a tag: the first one outside quotes; `quote` is the open quote, or 0. */
  function TagClose(s: Bytes, i: nat, quote: byte): (r: Option<nat>)
    requires i <= |s|
    ensures r.Some? ==> i <= r.value < |s| && s[r.value] == GT
    decreases |s| - i
  {
    if i == |s| then None
    else if quote != 0 then TagClose(s, i + 1, if s[i] == quote then 0 else quote)
    else if IsQuote(s[i]) then TagClose(s, i + 1, s[i])
    else if s[i] == GT then Some(i)
    else TagClose(s, i + 1, 0)
  }

  function IsClosing(s: Bytes, start: nat): bool {
    start + 1 < |s| && s[start + 1] == SLASH
  }

  function NameStart(s: Bytes, start: nat): nat {
    if IsClosing(s, start) then start + 2 else start + 1
  }

  /** The tag that a '<' starts: Absent when no name follows, Broken when nothing ends it. */
  function TagAt(s: Bytes, start: nat): (r: Found)
    requires start < |s| && s[start] == LT
    ensures r.At? ==> r.tag.start == start && start < r.tag.end <= |s| && r.tag.closing == IsClosing(s, start)
                      && |r.tag.name| > 0 && StartsWith(s, NameStart(s, start), r.tag.name)
  {
    var from := NameStart(s, start);
    var end := NameEnd(s, from);
    if end == from then Absent
    else
      var close := TagClose(s, end, 0);
      if close.None? then Broken else At(Tag(start, close.value + 1, s[from..end], IsClosing(s, start)))
  }

  function CommentOpen(): Bytes { Ascii("<!--") }
  function CommentClose(): Bytes { Ascii("-->") }

  /** The first tag at or after an offset, outside comments. */
  function NextTag(s: Bytes, offset: nat): (r: Found)
    ensures r.At? ==> offset <= r.tag.start < r.tag.end <= |s| && s[r.tag.start] == LT && TagAt(s, r.tag.start) == r
    decreases if offset <= |s| then |s| - offset else 0
  {
    if offset >= |s| then Absent
    else if s[offset] != LT then NextTag(s, offset + 1)
    else if StartsWith(s, offset, CommentOpen()) then
      var close := Index(s, offset + 4, CommentClose());
      if close.None? then Broken else NextTag(s, close.value + 3)
    else
      var t := TagAt(s, offset);
      if t.Absent? then NextTag(s, offset + 1) else t
  }

  predicate RawText(t: Tag) {
    !t.closing && (t.name == Ascii("script") || t.name == Ascii("style"))
  }

  /** The closing tag of `wanted`, skipping raw-text elements. */
  function FindClosing(s: Bytes, wanted: Bytes, offset: nat): (r: Found)
    ensures r.At? ==> offset <= r.tag.start < r.tag.end <= |s| && s[r.tag.start] == LT && TagAt(s, r.tag.start) == r
                      && r.tag.closing && r.tag.name == wanted
    decreases if offset <= |s| then |s| - offset else 0
  {
    var next := NextTag(s, offset);
    if !next.At? then next
    else if next.tag.closing && next.tag.name == wanted then next
    else if RawText(next.tag) then
      var raw := FindClosing(s, next.tag.name, next.tag.end);
      if !raw.At? then Broken else FindClosing(s, wanted, raw.tag.end)
    else FindClosing(s, wanted, next.tag.end)
  }

  /** The opening tag of `wanted`, before any closing tag of `boundary`, skipping raw-text
    * elements; with no boundary, anywhere. */
  function FindOpening(s: Bytes, wanted: Bytes, boundary: Option<Bytes>, offset: nat): (r: Found)
    ensures r.At? ==> offset <= r.tag.start < r.tag.end <= |s| && s[r.tag.start] == LT && TagAt(s, r.tag.start) == r
                      && !r.tag.closing && r.tag.name == wanted
    decreases if offset <= |s| then |s| - offset else 0
  {
    var next := NextTag(s, offset);
    if !next.At? then next
    else if next.tag.closing && boundary == Some(next.tag.name) then Absent
    else if !next.tag.closing && next.tag.name == wanted then next
    else if RawText(next.tag) then
      var raw := FindClosing(s, next.tag.name, next.tag.end);
      if !raw.At? then Broken else FindOpening(s, wanted, boundary, raw.tag.end)
    else FindOpening(s, wanted, boundary, next.tag.end)
  }

  // ----- the scanner ---------------------------------------------------------

  method IndexByte(s: Bytes, from: nat, b: byte) returns (r: Option<nat>)
    requires from <= |s|
    ensures r.Some? ==> from <= r.value < |s| && s[r.value] == b && forall k :: from <= k < r.value ==> s[k] != b
    ensures r.None? ==> forall k :: from <= k < |s| ==> s[k] != b
  {
    for i := from to |s|
      invariant forall k :: from <= k < i ==> s[k] != b
    {
      if s[i] == b {
        return Some(i);
      }
    }
    r := None;
  }

  lemma {:induction false} SkipPlain(s: Bytes, from: nat, until: nat)
    requires from <= until <= |s| && forall k :: from <= k < until ==> s[k] != LT
    ensures NextTag(s, from) == NextTag(s, until)
    decreases until
  {
    hide NextTag;
    if from < until {
      SkipPlain(s, from, until - 1);
      PassByte(s, until - 1);
    }
  }

  lemma PassByte(s: Bytes, k: nat)
    requires k < |s| && s[k] != LT
    ensures NextTag(s, k) == NextTag(s, k + 1)
  {
    hide TagAt, StartsWith, Index;
  }

  method ScanTag(s: Bytes, start: nat) returns (r: Found)
    requires start < |s| && s[start] == LT
    ensures r == TagAt(s, start)
  {
    hide NameEnd, TagClose, StartsWith;
    var cursor := start + 1;
    var closing := false;
    if cursor < |s| && s[cursor] == SLASH {
      closing := true;
      cursor := cursor + 1;
    }
    var nameStart := cursor;
    cursor := ScanName(s, nameStart);
    if cursor == nameStart {
      return Absent;
    }
    var close := ScanClose(s, cursor);
    r := if close.None? then Broken else At(Tag(start, close.value + 1, s[nameStart..cursor], closing));
  }

  method ScanName(s: Bytes, from: nat) returns (end: nat)
    requires from <= |s|
    ensures end == NameEnd(s, from)
  {
    end := from;
    while end < |s| && NameByte(s[end])
      invariant from <= end <= |s| && NameEnd(s, from) == NameEnd(s, end)
    {
      end := end + 1;
    }
  }

  /** The rest of a tag behind its name: the first '>' outside quotes. */
  method ScanClose(s: Bytes, from: nat) returns (r: Option<nat>)
    requires from <= |s|
    ensures r == TagClose(s, from, 0)
  {
    var cursor := from;
    var quote: byte := 0;
    while cursor < |s|
      invariant from <= cursor <= |s|
      invariant TagClose(s, from, 0) == TagClose(s, cursor, quote)
    {
      var b := s[cursor];
      if quote != 0 {
        if b == quote {
          quote := 0;
        }
      } else if b == 39 || b == 34 {
        quote := b;
      } else if b == GT {
        return Some(cursor);
      }
      cursor := cursor + 1;
    }
    r := None;
  }

  /** Every turn moves the offset forward: past plain bytes, a comment, or a bare '<'. */
  method ScanNextTag(s: Bytes, from: nat) returns (r: Found)
    ensures r == NextTag(s, from)
  {
    hide CommentOpen, CommentClose, TagAt, StartsWith, Index;
    var offset := from;
    while offset < |s|
      invariant NextTag(s, from) == NextTag(s, offset)
      decreases |s| - offset
    {
      var start := IndexByte(s, offset, LT);
      if start.None? {
        SkipPlain(s, offset, |s|);
        return Absent;
      }
      SkipPlain(s, offset, start.value);
      offset := start.value;
      if StartsWith(s, offset, CommentOpen()) {
        CommentSizes();
        var close := Index(s, offset + 4, CommentClose());
        if close.None? {
          return Broken;
        }
        offset := close.value + 3;
        continue;
      }
      var tag := ScanTag(s, offset);
      if !tag.Absent? {
        return tag;
      }
      offset := offset + 1;
    }
    r := Absent;
  }

  lemma CommentSizes()
    ensures |CommentOpen()| == 4 && |CommentClose()| == 3
  {
  }

  method FindClosingTag(s: Bytes, wanted: Bytes, from: nat) returns (r: Found)
    ensures r == FindClosing(s, wanted, from)
    decreases if from <= |s| then |s| - from else 0
  {
    hide NextTag, TagAt;
    var offset := from;
    while offset < |s|
      invariant from <= offset
      invariant FindClosing(s, wanted, from) == FindClosing(s, wanted, offset)
      decreases |s| - offset
    {
      var next := ScanNextTag(s, offset);
      if !next.At? {
        return next;
      }
      var t := next.tag;
      if t.closing && t.name == wanted {
        return next;
      }
      if !t.closing && (t.name == Ascii("script") || t.name == Ascii("style")) {
        var raw := FindClosingTag(s, t.name, t.end);
        if !raw.At? {
          return Broken;
        }
        offset := raw.tag.end;
        continue;
      }
      offset := t.end;
    }
    NoneLeft(s, offset);
    r := Absent;
  }

  lemma NoneLeft(s: Bytes, offset: nat)
    requires offset >= |s|
    ensures NextTag(s, offset) == Absent
  {
  }

  method FindOpeningTag(s: Bytes, wanted: Bytes, boundary: Option<Bytes>, from: nat) returns (r: Found)
    ensures r == FindOpening(s, wanted, boundary, from)
  {
    hide NextTag, TagAt, FindClosing;
    var offset := from;
    while offset < |s|
      invariant from <= offset
      invariant FindOpening(s, wanted, boundary, from) == FindOpening(s, wanted, boundary, offset)
      decreases |s| - offset
    {
      var next := ScanNextTag(s, offset);
      if !next.At? {
        return next;
      }
      var t := next.tag;
      if t.closing && boundary == Some(t.name) {
        return Absent;
      }
      if !t.closing && t.name == wanted {
        return next;
      }
      if !t.closing && (t.name == Ascii("script") || t.name == Ascii("style")) {
        var raw := FindClosingTag(s, t.name, t.end);
        if !raw.At? {
          return Broken;
        }
        offset := raw.tag.end;
        continue;
      }
      offset := t.end;
    }
    NoneLeft(s, offset);
    r := Absent;
  }

  // ----- extraction ----------------------------------------------------------

  /** What extraction does; a slice past the end of the body's memory panics. */
  datatype Outcome = Extracted(title: Bytes) | Refused | Panics

  /** The end of the first title opening tag in the head. */
  function TitleStart(s: Bytes): (r: Option<nat>)
    ensures r.Some? ==> r.value <= |s|
  {
    var head := FindOpening(s, Ascii("head"), None, 0);
    if !head.At? then None
    else
      var title := FindOpening(s, Ascii("title"), Some(Ascii("head")), head.tag.end);
      if !title.At? then None else Some(title.tag.end)
  }

  predicate InBounds(body: Bytes) {
    0 < |body| <= MAX_BODY && ValidUtf8(body) && 0 !in body
  }

  predicate Resolved(lexical: Bytes) {
    0 < |lexical| <= MAX_TITLE && LT !in lexical
  }

  /** Extraction from a body and its lower-cased form. A slice may reach into `spare`, the memory
    * of the body behind its length. */
  function Extract(body: Bytes, spare: Bytes, lower: Bytes): Outcome {
    var start := TitleStart(lower);
    if !InBounds(body) || start.None? then Refused
    else
      var close := FindClosing(lower, Ascii("title"), start.value);
      if !close.At? then Refused
      else if close.tag.start > |body| + |spare| then Panics
      else
        var lexical := (body + spare)[start.value..close.tag.start];
        if Resolved(lexical) then Extracted(lexical) else Refused
  }

  method ExtractTitle(body: Bytes, spare: Bytes, lower: Bytes) returns (r: Outcome)
    ensures r == Extract(body, spare, lower)
  {
    hide FindOpening, FindClosing, ValidUtf8;
    if |body| == 0 || |body| > MAX_BODY || !ValidUtf8(body) || 0 in body {
      return Refused;
    }
    var head := FindOpeningTag(lower, Ascii("head"), None, 0);
    if !head.At? {
      return Refused;
    }
    var title := FindOpeningTag(lower, Ascii("title"), Some(Ascii("head")), head.tag.end);
    if !title.At? {
      return Refused;
    }
    var close := FindClosingTag(lower, Ascii("title"), title.tag.end);
    if !close.At? {
      return Refused;
    }
    if close.tag.start > |body| + |spare| {
      return Panics;
    }
    var lexical := (body + spare)[title.tag.end..close.tag.start];
    r := if |lexical| == 0 || |lexical| > MAX_TITLE || LT in lexical then Refused else Extracted(lexical);
  }

  // ----- the search collapses to the first '<' -------------------------------

  /** Lower-casing kept every byte position, at least as far as '<' is concerned. */
  predicate KeepsPositions(body: Bytes, lower: Bytes) {
    |body| == |lower| && forall i :: 0 <= i < |body| ==> (body[i] == LT <==> lower[i] == LT)
  }

  // The '<' at k begins a complete closing title tag.
  predicate ClosesTitle(s: Bytes, k: nat) {
    k < |s| && s[k] == LT && TagAt(s, k).At? && TagAt(s, k).tag.closing && TagAt(s, k).tag.name == Ascii("title")
  }

  /** The simple form: the bytes from the title tag to the very next '<', which must begin the
    * closing tag. No comment and no raw-text element is looked at. */
  function SimpleExtract(body: Bytes, lower: Bytes): Outcome
    requires |body| == |lower|
  {
    var start := TitleStart(lower);
    if !InBounds(body) || start.None? then Refused
    else
      var k := Index(lower, start.value, [LT]);
      if k.Some? && ClosesTitle(lower, k.value) && 0 < k.value - start.value <= MAX_TITLE
      then Extracted(body[start.value..k.value]) else Refused
  }

  lemma AngleAt(s: Bytes, k: nat)
    ensures StartsWith(s, k, [LT]) <==> k < |s| && s[k] == LT
  {
    if k < |s| {
      assert s[k..k + 1] == [s[k]];
    }
  }

  lemma NotComment(s: Bytes, k: nat)
    requires k + 1 < |s| && s[k + 1] != 33
    ensures !StartsWith(s, k, CommentOpen())
  {
    assert k + 4 <= |s| ==> s[k..k + 4][1] == s[k + 1];
  }

  // If the next '<' begins the closing tag, the search returns it at once.
  lemma ClosingIsNext(s: Bytes, from: nat, k: nat)
    requires from <= k && ClosesTitle(s, k) && forall i :: from <= i < k ==> s[i] != LT
    ensures FindClosing(s, Ascii("title"), from) == TagAt(s, k)
  {
    SkipPlain(s, from, k);
    NotComment(s, k);
  }

  // The closing tag found lies right behind plain bytes exactly when the next '<' begins it.
  lemma CloseOrAngle(s: Bytes, from: nat)
    ensures var k, close := Index(s, from, [LT]), FindClosing(s, Ascii("title"), from);
            && (k.Some? && ClosesTitle(s, k.value) ==>
                  close.At? && close.tag.start == k.value && forall i :: from <= i < k.value ==> s[i] != LT)
            && (close.At? && (forall i :: from <= i < close.tag.start ==> s[i] != LT) ==>
                  k == Some(close.tag.start) && ClosesTitle(s, close.tag.start))
  {
    hide TagAt, FindClosing, Ascii;
    forall k: nat ensures StartsWith(s, k, [LT]) <==> k < |s| && s[k] == LT {
      AngleAt(s, k);
    }
    var k := Index(s, from, [LT]);
    hide Index, StartsWith;
    if k.Some? && ClosesTitle(s, k.value) {
      ClosingIsNext(s, from, k.value);
      TagPlace(s, k.value);
    }
  }

  /** Where lower-casing keeps byte positions, extraction is its simple form: it returns exactly
    * the body bytes from the end of the first title tag in the head to the next '<', and
    * succeeds exactly if that '<' begins a closing title tag and the title is non-empty and
    * bounded. It never panics. */
  lemma TitleCollapses(body: Bytes, spare: Bytes, lower: Bytes)
    requires KeepsPositions(body, lower)
    ensures Extract(body, spare, lower) == SimpleExtract(body, lower)
  {
    hide TitleStart, TagAt, InBounds, FindClosing, Index, ClosesTitle, Ascii;
    var start := TitleStart(lower);
    if start.Some? {
      var from := start.value;
      CloseOrAngle(lower, from);
      var close := FindClosing(lower, Ascii("title"), from);
      if close.At? {
        NoAngle(body, lower, from, close.tag.start);
        assert (body + spare)[from..close.tag.start] == body[from..close.tag.start];
      }
    }
  }

  lemma TagPlace(s: Bytes, k: nat)
    requires ClosesTitle(s, k)
    ensures TagAt(s, k).tag.start == k
  {
  }

  lemma NoAngle(body: Bytes, lower: Bytes, from: nat, until: nat)
    requires KeepsPositions(body, lower) && from <= until <= |body|
    ensures LT !in body[from..until] <==> forall i :: from <= i < until ==> lower[i] != LT
  {
    assert forall i :: from <= i < until ==> body[from..until][i - from] == body[i];
  }

  // ----- when lower-casing keeps positions -----------------------------------

  function LowerByte(b: byte): byte {
    if 65 <= b <= 90 then b + 32 else b
  }

  /** Lower-casing rune by rune: ASCII letters as usual, every longer rune by `fold`. */
  function ToLower(fold: Bytes -> Bytes, s: Bytes): Bytes
    requires ValidUtf8(s)
  {
    if s == [] then []
    else
      var n := RuneLength(s);
      (if n == 1 then [LowerByte(s[0])] else fold(s[..n])) + ToLower(fold, s[n..])
  }

  /** No rune of the text changes its width, or turns into a '<'. */
  predicate SameWidths(fold: Bytes -> Bytes, s: Bytes)
    requires ValidUtf8(s)
  {
    s == [] ||
    var n := RuneLength(s);
    && (n > 1 ==> |fold(s[..n])| == n && LT !in fold(s[..n])) && SameWidths(fold, s[n..])
  }

  lemma {:induction false} LowerKeepsPositions(fold: Bytes -> Bytes, s: Bytes)
    requires ValidUtf8(s) && SameWidths(fold, s)
    ensures KeepsPositions(s, ToLower(fold, s))
  {
    if s != [] {
      var n := RuneLength(s);
      LowerKeepsPositions(fold, s[n..]);
      var head := if n == 1 then [LowerByte(s[0])] else fold(s[..n]);
      var lower := ToLower(fold, s);
      assert lower == head + ToLower(fold, s[n..]);
      forall i | 0 <= i < |s| ensures s[i] == LT <==> lower[i] == LT {
        if i >= n {
          assert s[i] == s[n..][i - n] && lower[i] == ToLower(fold, s[n..])[i - n];
        } else if n > 1 {
          LongRune(s, i);
          assert lower[i] == head[i] && head[i] in head;
        }
      }
    }
  }

  lemma LongRune(s: Bytes, i: nat)
    requires s != [] && i < RuneLength(s) && RuneLength(s) > 1
    ensures s[i] != LT
  {
  }

  /** For a body whose runes keep their widths, extraction from the lower-cased body is the
    * simple form. */
  lemma TitleOfUniformBody(fold: Bytes -> Bytes, body: Bytes, spare: Bytes)
    requires ValidUtf8(body) && SameWidths(fold, body)
    ensures KeepsPositions(body, ToLower(fold, body))
    ensures Extract(body, spare, ToLower(fold, body)) == SimpleExtract(body, ToLower(fold, body))
  {
    LowerKeepsPositions(fold, body);
    TitleCollapses(body, spare, ToLower(fold, body));
  }

  // ----- lower-casing in pieces ----------------------------------------------

  lemma {:induction false} LowerJoins(fold: Bytes -> Bytes, a: Bytes, b: Bytes)
    requires ValidUtf8(a) && ValidUtf8(b)
    ensures ValidUtf8(a + b) && ToLower(fold, a + b) == ToLower(fold, a) + ToLower(fold, b)
  {
    hide RuneLength;
    Utf8Joins(a, b);
    if a == [] {
      assert a + b == b;
    } else {
      var n := RuneLength(a);
      LowerJoins(fold, a[n..], b);
      RuneStays(a, b);
      assert (a + b)[..n] == a[..n] && (a + b)[n..] == a[n..] + b && (a + b)[0] == a[0];
      var first := if n == 1 then [LowerByte(a[0])] else fold(a[..n]);
      assert ToLower(fold, a) == first + ToLower(fold, a[n..]);
      assert ToLower(fold, a + b) == first + ToLower(fold, a[n..] + b);
      hide ToLower, ValidUtf8;
      assert first + (ToLower(fold, a[n..]) + ToLower(fold, b)) == first + ToLower(fold, a[n..]) + ToLower(fold, b);
    }
  }

  lemma RuneStays(a: Bytes, b: Bytes)
    requires a != [] && RuneLength(a) > 0
    ensures RuneLength(a + b) == RuneLength(a)
  {
  }

  lemma {:induction false} LowerKeepsAscii(fold: Bytes -> Bytes, s: Bytes)
    requires IsAscii(s) && forall i :: 0 <= i < |s| ==> !(65 <= s[i] <= 90)
    ensures ValidUtf8(s) && ToLower(fold, s) == s
  {
    AsciiIsUtf8(s);
    if s != [] {
      LowerKeepsAscii(fold, s[1..]);
      assert [s[0]] + s[1..] == s;
    }
  }

  // ----- what is found stays found when more text follows --------------------

  lemma {:induction false} NameEndStays(s: Bytes, more: Bytes, i: nat)
    requires i <= |s| && NameEnd(s, i) < |s|
    ensures NameEnd(s + more, i) == NameEnd(s, i)
    decreases |s| - i
  {
    if NameByte(s[i]) {
      NameEndStays(s, more, i + 1);
    }
  }

  lemma {:induction false} TagCloseStays(s: Bytes, more: Bytes, i: nat, quote: byte)
    requires i <= |s| && TagClose(s, i, quote).Some?
    ensures TagClose(s + more, i, quote) == TagClose(s, i, quote)
    decreases |s| - i
  {
    if quote != 0 {
      TagCloseStays(s, more, i + 1, if s[i] == quote then 0 else quote);
    } else if IsQuote(s[i]) {
      TagCloseStays(s, more, i + 1, s[i]);
    } else if s[i] != GT {
      TagCloseStays(s, more, i + 1, 0);
    }
  }

  lemma {:induction false} IndexStays(s: Bytes, more: Bytes, i: nat, pattern: Bytes)
    requires pattern != [] && Index(s, i, pattern).Some?
    ensures Index(s + more, i, pattern) == Index(s, i, pattern)
    decreases |s| - i
  {
    assert (s + more)[i..i + |pattern|] == s[i..i + |pattern|];
    if s[i..i + |pattern|] != pattern {
      IndexStays(s, more, i + 1, pattern);
    }
  }

  lemma TagStays(s: Bytes, more: Bytes, start: nat)
    requires start < |s| && s[start] == LT && TagAt(s, start).At?
    ensures TagAt(s + more, start) == TagAt(s, start)
  {
    var from := NameStart(s, start);
    var end := NameEnd(s, from);
    NameEndStays(s, more, from);
    TagCloseStays(s, more, end, 0);
    assert (s + more)[from..end] == s[from..end];
  }

  // A '<' that starts no tag, with a tag behind it, starts none whatever follows.
  lemma AbsentStays(s: Bytes, more: Bytes, start: nat)
    requires start < |s| && s[start] == LT && TagAt(s, start).Absent? && NameStart(s, start) < |s|
    ensures TagAt(s + more, start).Absent?
  {
  }

  lemma {:induction false} NextTagStays(s: Bytes, more: Bytes, offset: nat)
    requires NextTag(s, offset).At?
    ensures NextTag(s + more, offset) == NextTag(s, offset)
    decreases |s| - offset
  {
    hide TagAt, Index, StartsWith, Ascii;
    if s[offset] != LT {
      NextTagStays(s, more, offset + 1);
    } else {
      CommentStays(s, more, offset);
      if StartsWith(s, offset, CommentOpen()) {
        IndexStays(s, more, offset + 4, CommentClose());
        CommentSizes();
        NextTagStays(s, more, Index(s, offset + 4, CommentClose()).value + 3);
      } else if TagAt(s, offset).Absent? {
        TagIsLong(s, offset + 1);
        AbsentStays(s, more, offset);
        NextTagStays(s, more, offset + 1);
      } else {
        TagStays(s, more, offset);
      }
    }
  }

  // A tag takes at least three bytes: '<', a name and '>'.
  lemma TagIsLong(s: Bytes, offset: nat)
    requires NextTag(s, offset).At?
    ensures offset + 3 <= |s|
  {
    var t := NextTag(s, offset).tag;
    assert TagAt(s, t.start).At?;
  }

  lemma CommentStays(s: Bytes, more: Bytes, offset: nat)
    requires offset < |s| && s[offset] == LT && NextTag(s, offset).At?
    ensures StartsWith(s + more, offset, CommentOpen()) == StartsWith(s, offset, CommentOpen())
  {
    CommentSizes();
    TagIsLong(s, offset);
    if offset + 4 <= |s| {
      assert (s + more)[offset..offset + 4] == s[offset..offset + 4];
    } else {
      assert !StartsWith(s, offset, CommentOpen());
      TagIsHere(s, offset);
      NotComment(s + more, offset);
    }
  }

  // With three bytes left a tag is found only if it starts at once.
  lemma TagIsHere(s: Bytes, offset: nat)
    requires offset + 3 == |s| && s[offset] == LT && NextTag(s, offset).At?
    ensures s[offset + 1] != 33
  {
    if TagAt(s, offset).Absent? && NextTag(s, offset + 1).At? {
      TagIsLong(s, offset + 1);
    }
  }

  lemma {:induction false} FindClosingStays(s: Bytes, more: Bytes, wanted: Bytes, offset: nat)
    requires FindClosing(s, wanted, offset).At?
    ensures FindClosing(s + more, wanted, offset) == FindClosing(s, wanted, offset)
    decreases |s| - offset
  {
    hide NextTag, Ascii;
    var next := NextTag(s, offset);
    NextTagStays(s, more, offset);
    if next.tag.closing && next.tag.name == wanted {
    } else if RawText(next.tag) {
      FindClosingStays(s, more, next.tag.name, next.tag.end);
      FindClosingStays(s, more, wanted, FindClosing(s, next.tag.name, next.tag.end).tag.end);
    } else {
      FindClosingStays(s, more, wanted, next.tag.end);
    }
  }

  lemma {:induction false} FindOpeningStays(s: Bytes, more: Bytes, wanted: Bytes, boundary: Option<Bytes>, offset: nat)
    requires FindOpening(s, wanted, boundary, offset).At?
    ensures FindOpening(s + more, wanted, boundary, offset) == FindOpening(s, wanted, boundary, offset)
    decreases |s| - offset
  {
    hide NextTag, FindClosing, Ascii;
    var next := NextTag(s, offset);
    NextTagStays(s, more, offset);
    if !next.tag.closing && next.tag.name == wanted {
    } else if RawText(next.tag) {
      FindClosingStays(s, more, next.tag.name, next.tag.end);
      FindOpeningStays(s, more, wanted, boundary, FindClosing(s, next.tag.name, next.tag.end).tag.end);
    } else {
      FindOpeningStays(s, more, wanted, boundary, next.tag.end);
    }
  }

  /** The title tag found in a text is found there whatever follows the text. */
  lemma TitleStartStays(s: Bytes, more: Bytes)
    requires TitleStart(s).Some?
    ensures TitleStart(s + more) == TitleStart(s)
  {
    hide FindOpening, Ascii;
    var head := FindOpening(s, Ascii("head"), None, 0);
    FindOpeningStays(s, more, Ascii("head"), None, 0);
    FindOpeningStays(s, more, Ascii("title"), Some(Ascii("head")), head.tag.end);
  }

  // ----- when extraction is exact --------------------------------------------

  function CloseTag(): Bytes { Ascii("</title>") }

  /** A text that ends with the opening tag of a title, the title, its closing tag, and the rest. */
  function Document(front: Bytes, title: Bytes, rest: Bytes): Bytes {
    front + title + (CloseTag() + rest)
  }

  /** The search for the title, in the lower-cased text, ends at the end of the text. */
  predicate OpensTitle(fold: Bytes -> Bytes, front: Bytes)
    requires ValidUtf8(front)
  {
    TitleStart(ToLower(fold, front)) == Some(|ToLower(fold, front)|)
  }

  /** A title that is one piece of text, as written and lower-cased. */
  predicate PlainTitle(fold: Bytes -> Bytes, title: Bytes) {
    ValidUtf8(title) && 0 < |title| <= MAX_TITLE && LT !in title && LT !in ToLower(fold, title)
  }

  lemma {:induction false} NameRun(s: Bytes, from: nat, n: nat)
    requires from + n < |s| && (forall k :: from <= k < from + n ==> NameByte(s[k])) && !NameByte(s[from + n])
    ensures NameEnd(s, from) == from + n
    decreases n
  {
    if n > 0 {
      NameRun(s, from + 1, n - 1);
    }
  }

  // A plain tag with nothing but a name is read as it stands.
  lemma PlainTag(s: Bytes, start: nat, n: nat)
    requires start < |s| && s[start] == LT && n > 0 && NameStart(s, start) + n < |s|
    requires forall k :: NameStart(s, start) <= k < NameStart(s, start) + n ==> NameByte(s[k])
    requires s[NameStart(s, start) + n] == GT
    ensures var from := NameStart(s, start);
            NextTag(s, start) == TagAt(s, start) == At(Tag(start, from + n + 1, s[from..from + n], IsClosing(s, start)))
  {
    var from := NameStart(s, start);
    NameRun(s, from, n);
    assert TagClose(s, from + n, 0) == Some(from + n);
    hide NameEnd, TagClose;
    NotComment(s, start);
  }

  lemma NamesPlain()
    ensures forall k :: 0 <= k < 4 ==> NameByte(Ascii("head")[k])
    ensures forall k :: 0 <= k < 5 ==> NameByte(Ascii("title")[k])
    ensures Ascii("head") != Ascii("title") && Ascii("head") !in {Ascii("script"), Ascii("style")}
  {
    assert Ascii("head")[0] != Ascii("title")[0];
    assert |Ascii("head")| == 4 && |Ascii("script")| == 6 && |Ascii("style")| == 5;
  }

  // A tag whose name is given as a slice.
  lemma NamedTag(s: Bytes, start: nat, closing: bool, name: Bytes)
    requires start + 1 < |s| && s[start] == LT && IsClosing(s, start) == closing && name != []
    requires (forall k :: 0 <= k < |name| ==> NameByte(name[k]))
    requires var from := NameStart(s, start); from + |name| < |s| && s[from..from + |name|] == name && s[from + |name|] == GT
    ensures NextTag(s, start) == At(Tag(start, NameStart(s, start) + |name| + 1, name, closing))
  {
    var from := NameStart(s, start);
    hide NextTag, TagAt, IsClosing, NameStart;
    forall k | from <= k < from + |name| ensures NameByte(s[k]) {
      assert s[k] == s[from..from + |name|][k - from] == name[k - from];
    }
    PlainTag(s, start, |name|);
  }

  lemma CloseTagBytes()
    ensures var tag := CloseTag();
            |tag| == 8 && tag[0] == LT && tag[1] == SLASH && tag[7] == GT && tag[2..7] == Ascii("title")
  {
  }

  lemma DocumentBytes(front: Bytes, title: Bytes, rest: Bytes)
    ensures var s, k := Document(front, title, rest), |front| + |title|;
            && k + 8 <= |s| && s[k] == LT && s[k + 1] == SLASH && s[k + 7] == GT && s[k + 2..k + 7] == Ascii("title")
            && s[|front|..k] == title
  {
    CloseTagBytes();
    hide CloseTag, Ascii;
    var s, k, tag := Document(front, title, rest), |front| + |title|, CloseTag();
    assert s[k..k + 8] == tag;
    assert s[k] == s[k..k + 8][0] && s[k + 1] == s[k..k + 8][1] && s[k + 7] == s[k..k + 8][7];
    assert s[k + 2..k + 7] == s[k..k + 8][2..7];
  }

  // The closing tag stands right behind the lower-cased title.
  lemma CloseIsFound(front: Bytes, title: Bytes, rest: Bytes)
    requires LT !in title
    ensures var s, k := Document(front, title, rest), |front| + |title|;
            FindClosing(s, Ascii("title"), |front|) == At(Tag(k, k + 8, Ascii("title"), true))
  {
    hide *;
    DocumentBytes(front, title, rest);
    CloseIsNext(Document(front, title, rest), |front|, |front| + |title|);
  }

  lemma CloseIsNext(s: Bytes, from: nat, k: nat)
    requires from <= k && k + 8 <= |s| && s[k] == LT && s[k + 1] == SLASH && s[k + 7] == GT
    requires s[k + 2..k + 7] == Ascii("title") && LT !in s[from..k]
    ensures FindClosing(s, Ascii("title"), from) == At(Tag(k, k + 8, Ascii("title"), true))
  {
    hide *;
    CloseTagAt(s, k);
    forall i | from <= i < k ensures s[i] != LT {
      assert s[i] == s[from..k][i - from];
    }
    ClosingIsNext(s, from, k);
  }

  lemma CloseTagAt(s: Bytes, k: nat)
    requires k + 8 <= |s| && s[k] == LT && s[k + 1] == SLASH && s[k + 7] == GT && s[k + 2..k + 7] == Ascii("title")
    ensures ClosesTitle(s, k) && TagAt(s, k) == At(Tag(k, k + 8, Ascii("title"), true))
  {
    NamesPlain();
    var name := Ascii("title");
    hide Ascii, NextTag, TagAt, StartsWith;
    NamedTag(s, k, true, name);
  }

  lemma LowerDocument(fold: Bytes -> Bytes, front: Bytes, title: Bytes, rest: Bytes)
    requires ValidUtf8(front) && ValidUtf8(title) && ValidUtf8(rest)
    ensures ValidUtf8(Document(front, title, rest))
    ensures ToLower(fold, Document(front, title, rest))
            == Document(ToLower(fold, front), ToLower(fold, title), ToLower(fold, rest))
  {
    hide ToLower, ValidUtf8;
    assert IsAscii(CloseTag()) && forall i :: 0 <= i < 8 ==> !(65 <= CloseTag()[i] <= 90);
    hide CloseTag;
    LowerKeepsAscii(fold, CloseTag());
    LowerJoins(fold, CloseTag(), rest);
    LowerJoins(fold, front, title);
    LowerJoins(fold, front + title, CloseTag() + rest);
  }

  /** What extraction takes from a document: as many bytes as the lower-cased title has, from where
    * the lower-cased front ends. */
  lemma DocumentSlice(fold: Bytes -> Bytes, front: Bytes, title: Bytes, rest: Bytes, spare: Bytes)
    requires ValidUtf8(front) && ValidUtf8(title) && ValidUtf8(rest) && OpensTitle(fold, front)
    requires LT !in ToLower(fold, title) && InBounds(Document(front, title, rest))
    ensures var body := Document(front, title, rest);
            var i, n := |ToLower(fold, front)|, |ToLower(fold, title)|;
            Extract(body, spare, ToLower(fold, body))
            == if i + n > |body| + |spare| then Panics
               else if Resolved((body + spare)[i..i + n]) then Extracted((body + spare)[i..i + n]) else Refused
  {
    hide ToLower, TitleStart, FindClosing, ValidUtf8, CloseTag, Ascii, Resolved, InBounds, Extract;
    LowerDocument(fold, front, title, rest);
    var f, t, r := ToLower(fold, front), ToLower(fold, title), ToLower(fold, rest);
    CloseIsFound(f, t, r);
    assert Document(f, t, r) == f + (t + (CloseTag() + r));
    TitleStartStays(f, t + (CloseTag() + r));
    hide Document;
    ExtractBetween(Document(front, title, rest), spare, Document(f, t, r), |f|, |f| + |t|);
  }

  // Extraction once the title and its closing tag have been found.
  lemma ExtractBetween(body: Bytes, spare: Bytes, lower: Bytes, i: nat, k: nat)
    requires InBounds(body) && TitleStart(lower) == Some(i) && i <= k
    requires FindClosing(lower, Ascii("title"), i) == At(Tag(k, k + 8, Ascii("title"), true))
    ensures Extract(body, spare, lower)
            == if k > |body| + |spare| then Panics
               else if Resolved((body + spare)[i..k]) then Extracted((body + spare)[i..k]) else Refused
  {
    hide TitleStart, FindClosing, Ascii, Resolved, InBounds;
  }

  /** Behind a front of unchanged width, extraction returns the title exactly when lower-casing
    * keeps the width of the title, whatever follows. */
  lemma TitleExact(fold: Bytes -> Bytes, front: Bytes, title: Bytes, rest: Bytes, spare: Bytes)
    requires ValidUtf8(front) && ValidUtf8(rest) && PlainTitle(fold, title) && InBounds(Document(front, title, rest))
    requires OpensTitle(fold, front) && |ToLower(fold, front)| == |front|
    ensures var body := Document(front, title, rest);
            ValidUtf8(body) &&
            (Extract(body, spare, ToLower(fold, body)) == Extracted(title) <==> |ToLower(fold, title)| == |title|)
  {
    hide ToLower, Extract, ValidUtf8, CloseTag, OpensTitle, InBounds;
    LowerDocument(fold, front, title, rest);
    DocumentSlice(fold, front, title, rest, spare);
    var n := |ToLower(fold, title)|;
    var body := Document(front, title, rest);
    if n == |title| {
      assert (body + spare)[|front|..|front| + n] == title;
    }
  }

  // Every title of unchanged width is extracted from between the front and the rest.
  ghost predicate ExactBehind(fold: Bytes -> Bytes, front: Bytes, rest: Bytes, spare: Bytes) {
    forall title :: KeptTitle(fold, front, title, rest) ==> IsExtracted(fold, front, title, rest, spare)
  }

  predicate KeptTitle(fold: Bytes -> Bytes, front: Bytes, title: Bytes, rest: Bytes) {
    PlainTitle(fold, title) && |ToLower(fold, title)| == |title| && InBounds(Document(front, title, rest))
  }

  predicate IsExtracted(fold: Bytes -> Bytes, front: Bytes, title: Bytes, rest: Bytes, spare: Bytes) {
    var body := Document(front, title, rest);
    ValidUtf8(body) && Extract(body, spare, ToLower(fold, body)) == Extracted(title)
  }

  /** The titles of unchanged width behind a front are all extracted exactly when lower-casing keeps
    * the width of the front: a shift in front of the title breaks some of them. */
  lemma FrontExact(fold: Bytes -> Bytes, front: Bytes, rest: Bytes, spare: Bytes)
    requires ValidUtf8(front) && ValidUtf8(rest) && OpensTitle(fold, front)
    requires 0 !in front && 0 !in rest && |front| + |rest| + 9 <= MAX_BODY
    ensures ExactBehind(fold, front, rest, spare) <==> |ToLower(fold, front)| == |front|
  {
    hide ToLower, Extract, ValidUtf8, CloseTag, OpensTitle, InBounds, PlainTitle;
    if |ToLower(fold, front)| == |front| {
      forall title | KeptTitle(fold, front, title, rest) ensures IsExtracted(fold, front, title, rest, spare) {
        TitleExact(fold, front, title, rest, spare);
      }
    } else {
      OneByteTitle(fold, front, 48, rest, spare);
      OneByteTitle(fold, front, 49, rest, spare);
      var at := |ToLower(fold, front)|;
      var a, b := Document(front, [48], rest) + spare, Document(front, [49], rest) + spare;
      if at + 1 <= |a| {
        assert a[at] == b[at];
        assert a[at..at + 1] == b[at..at + 1];
      }
    }
  }

  // A title that is one digit.
  lemma OneByteTitle(fold: Bytes -> Bytes, front: Bytes, b: byte, rest: Bytes, spare: Bytes)
    requires ValidUtf8(front) && ValidUtf8(rest) && OpensTitle(fold, front) && 48 <= b <= 57
    requires 0 !in front && 0 !in rest && |front| + |rest| + 9 <= MAX_BODY
    ensures KeptTitle(fold, front, [b], rest)
    ensures var body := Document(front, [b], rest);
            var at := |ToLower(fold, front)|;
            IsExtracted(fold, front, [b], rest, spare)
            ==> at + 1 <= |body + spare| && (body + spare)[at..at + 1] == [b]
  {
    hide ValidUtf8, ToLower, OpensTitle, CloseTag, OpenTags, Extract;
    LowerKeepsAscii(fold, [b]);
    LowerDocument(fold, front, [b], rest);
    NoNul();
    assert InBounds(Document(front, [b], rest)) by {
      var body := Document(front, [b], rest);
      assert forall i :: 0 <= i < |body| ==> body[i] in front || body[i] == b || body[i] in CloseTag() || body[i] in rest;
    }
    hide InBounds;
    DocumentSlice(fold, front, [b], rest, spare);
  }

  lemma NoNul()
    ensures |CloseTag()| == 8 && |OpenTags()| == 13 && 0 !in CloseTag() && 0 !in OpenTags()
  {
  }

  // ----- pages ---------------------------------------------------------------

  function OpenTags(): Bytes { Ascii("<head><title>") }

  function Page(title: Bytes): Bytes {
    Document(OpenTags(), title, [])
  }

  lemma OpenTagsBytes(plain: Bytes)
    ensures var s, n := plain + OpenTags(), |plain|;
            && |s| == n + 13 && s[n] == LT && s[n + 5] == GT && s[n + 6] == LT && s[n + 12] == GT
            && s[n + 1..n + 5] == Ascii("head") && s[n + 7..n + 12] == Ascii("title") && s[..n] == plain
  {
    var s, n, open := plain + OpenTags(), |plain|, OpenTags();
    assert |open| == 13 && open[0] == LT && open[5] == GT && open[6] == LT && open[12] == GT;
    assert open[1..5] == Ascii("head") && open[7..12] == Ascii("title");
    hide OpenTags, Ascii;
    assert s[n + 1..n + 5] == open[1..5] && s[n + 7..n + 12] == open[7..12];
    assert s[n] == open[0] && s[n + 5] == open[5] && s[n + 6] == open[6] && s[n + 12] == open[12];
  }

  // The two tags end the text, whatever plain bytes stand in front of them.
  lemma OpenTagsFound(plain: Bytes)
    requires LT !in plain
    ensures TitleStart(plain + OpenTags()) == Some(|plain| + 13)
  {
    var s, n := plain + OpenTags(), |plain|;
    OpenTagsBytes(plain);
    NamesPlain();
    hide OpenTags, Ascii, NextTag, TagAt, StartsWith;
    assert s[n + 1] == s[n + 1..n + 5][0] && s[n + 7] == s[n + 7..n + 12][0];
    NamedTag(s, n, false, Ascii("head"));
    NamedTag(s, n + 6, false, Ascii("title"));
    forall k | 0 <= k < n ensures s[k] != LT {
      assert s[k] == s[..n][k];
    }
    SkipPlain(s, 0, n);
  }

  lemma PlainFront(fold: Bytes -> Bytes, plain: Bytes)
    requires ValidUtf8(plain) && LT !in ToLower(fold, plain)
    ensures ValidUtf8(plain + OpenTags()) && OpensTitle(fold, plain + OpenTags())
    ensures ToLower(fold, plain + OpenTags()) == ToLower(fold, plain) + OpenTags() && |OpenTags()| == 13
  {
    hide ToLower, ValidUtf8, TitleStart;
    assert IsAscii(OpenTags()) && |OpenTags()| == 13 && forall i :: 0 <= i < 13 ==> !(65 <= OpenTags()[i] <= 90);
    hide OpenTags;
    LowerKeepsAscii(fold, OpenTags());
    LowerJoins(fold, plain, OpenTags());
    OpenTagsFound(ToLower(fold, plain));
  }

  /** On a page that is only a title, extraction from the lower-cased page returns the title exactly
    * when lower-casing keeps its width. */
  lemma PageExact(fold: Bytes -> Bytes, title: Bytes, spare: Bytes)
    requires PlainTitle(fold, title) && InBounds(Page(title))
    ensures ValidUtf8(Page(title))
    ensures Extract(Page(title), spare, ToLower(fold, Page(title))) == Extracted(title)
            <==> |ToLower(fold, title)| == |title|
  {
    hide Extract, OpensTitle, InBounds, ToLower, ValidUtf8, OpenTags;
    BareFront(fold);
    TitleExact(fold, OpenTags(), title, [], spare);
  }

  lemma BareFront(fold: Bytes -> Bytes)
    ensures ValidUtf8([]) && ToLower(fold, []) == []
    ensures ValidUtf8(OpenTags()) && OpensTitle(fold, OpenTags())
    ensures ToLower(fold, OpenTags()) == OpenTags() && |OpenTags()| == 13
  {
    assert ValidUtf8([]) && ToLower(fold, []) == [];
    hide ToLower, ValidUtf8, OpensTitle, OpenTags;
    PlainFront(fold, []);
    assert [] + OpenTags() == OpenTags();
  }

  // The Kelvin sign, three bytes.
  function Kelvin(): Bytes { [0xe2, 0x84, 0xaa] }

  lemma KelvinLowers(fold: Bytes -> Bytes)
    requires fold(Kelvin()) == [0x6b]
    ensures ValidUtf8(Kelvin()) && ToLower(fold, Kelvin()) == [0x6b]
    ensures LT !in Kelvin() && 0 !in Kelvin() && !ValidUtf8([0xe2])
  {
    var k := Kelvin();
    assert RuneLength(k) == 3 && k[3..] == [] && k[..3] == k;
    assert ToLower(fold, k) == fold(k) + ToLower(fold, []);
  }

  lemma SmallPage(plain: Bytes, title: Bytes)
    requires ValidUtf8(plain) && ValidUtf8(title) && 0 !in plain && 0 !in title && |plain| + |title| <= 1000
    ensures InBounds(Document(plain + OpenTags(), title, []))
  {
    hide ValidUtf8;
    AsciiIsUtf8(OpenTags());
    AsciiIsUtf8(CloseTag());
    NoNul();
    hide OpenTags, CloseTag;
    Utf8Joins(plain, OpenTags());
    Utf8Joins(plain + OpenTags(), title);
    Utf8Joins(plain + OpenTags() + title, CloseTag());
    assert CloseTag() + [] == CloseTag();
    var body := Document(plain + OpenTags(), title, []);
    assert forall i :: 0 <= i < |body| ==>
      body[i] in plain || body[i] in OpenTags() || body[i] in title || body[i] in CloseTag();
  }

  /** The page whose title is the Kelvin sign, which lower-cases to the one byte of 'k': extraction
    * returns the first of its bytes alone, which is not even UTF-8. */
  lemma KelvinTitleIsCut(fold: Bytes -> Bytes, spare: Bytes)
    requires fold(Kelvin()) == [0x6b]
    ensures ValidUtf8(Page(Kelvin())) && !ValidUtf8([0xe2])
    ensures Extract(Page(Kelvin()), spare, ToLower(fold, Page(Kelvin()))) == Extracted([0xe2])
  {
    hide ToLower, ValidUtf8, OpensTitle, Extract, InBounds, CloseTag, OpenTags;
    KelvinLowers(fold);
    BareFront(fold);
    SmallPage([], Kelvin());
    assert [] + OpenTags() == OpenTags();
    LowerDocument(fold, OpenTags(), Kelvin(), []);
    DocumentSlice(fold, OpenTags(), Kelvin(), [], spare);
    assert (Page(Kelvin()) + spare)[13..14] == [0xe2];
  }

  /** A Kelvin sign in front of the head moves everything behind it: from the page with the title
    * "no", extraction returns the end of the opening tag instead. */
  lemma KelvinShiftsTitle(fold: Bytes -> Bytes, spare: Bytes)
    requires fold(Kelvin()) == [0x6b]
    ensures var body := Document(Kelvin() + OpenTags(), Ascii("no"), []);
            ValidUtf8(body) && Extract(body, spare, ToLower(fold, body)) == Extracted(Ascii("e>"))
  {
    hide ToLower, ValidUtf8, OpensTitle, Extract, InBounds, CloseTag;
    var title := Ascii("no");
    assert title == [110, 111] && Ascii("e>") == [101, 62];
    assert OpenTags()[11] == 101 && OpenTags()[12] == 62 && |OpenTags()| == 13;
    hide OpenTags, Ascii;
    KelvinLowers(fold);
    BareFront(fold);
    PlainFront(fold, Kelvin());
    LowerKeepsAscii(fold, title);
    SmallPage(Kelvin(), title);
    var front := Kelvin() + OpenTags();
    var body := Document(front, title, []);
    LowerDocument(fold, front, title, []);
    DocumentSlice(fold, front, title, [], spare);
    assert (body + spare)[14..16] == [101, 62];
  }
}
