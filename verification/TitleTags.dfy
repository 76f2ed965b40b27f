/** What the title extraction selects, said without its searches: by the visible tags of the page. */
module TitleTags {
  // The visible tags are read off in one pass with a stack of open raw-text elements, where the
  // searches call each other.

  import opened Wrappers
  import opened ByteStrings
  import opened Titles

  // ----- visible tags --------------------------------------------------------

  /** The tags of `s` from `i` on that stand outside comments and outside the content of script and
    * style elements, up to the first that is not complete; `open` are the names of the elements
    * whose content it is. */
  function Visible(s: Bytes, i: nat, open: seq<Bytes>): seq<Tag>
    decreases if i <= |s| then |s| - i else 0
  {
    if i >= |s| then []
    else if s[i] != LT then Visible(s, i + 1, open)
    else if StartsWith(s, i, Ascii("<!--")) then
      var close := Index(s, i + 4, Ascii("-->"));
      if close.None? then [] else Visible(s, close.value + 3, open)
    else
      match TagAt(s, i)
      case Absent => Visible(s, i + 1, open)
      case Broken => []
      case At(tag) => Shown(tag, open) + Visible(s, tag.end, Opened(tag, open))
  }

  function Shown(tag: Tag, open: seq<Bytes>): seq<Tag> {
    if open == [] then [tag] else []
  }

  predicate Raw(tag: Tag) {
    !tag.closing && (tag.name == Ascii("script") || tag.name == Ascii("style"))
  }

  // A closing tag ends the innermost raw-text element of its name, an opening one begins another.
  function Opened(tag: Tag, open: seq<Bytes>): seq<Bytes> {
    if open != [] && tag.closing && tag.name == open[|open| - 1] then open[..|open| - 1]
    else if Raw(tag) then open + [tag.name] else open
  }

  lemma {:induction false} VisibleNext(s: Bytes, i: nat, open: seq<Bytes>)
    ensures Visible(s, i, open)
            == match NextTag(s, i)
               case At(tag) => Shown(tag, open) + Visible(s, tag.end, Opened(tag, open))
               case _ => []
    decreases if i <= |s| then |s| - i else 0
  {
    hide TagAt, Shown, Opened, Index, StartsWith;
    if i < |s| {
      if s[i] != LT {
        VisibleNext(s, i + 1, open);
      } else if StartsWith(s, i, CommentOpen()) {
        var close := Index(s, i + 4, CommentClose());
        if close.Some? {
          VisibleNext(s, close.value + 3, open);
        }
      } else if TagAt(s, i).Absent? {
        VisibleNext(s, i + 1, open);
      }
    }
  }

  /** Inside a raw-text element nothing is visible until its closing tag, which the search finds. */
  lemma {:induction false} RawSkipped(s: Bytes, i: nat, open: seq<Bytes>, name: Bytes)
    ensures Visible(s, i, open + [name])
            == match FindClosing(s, name, i)
               case At(tag) => Visible(s, tag.end, open)
               case _ => []
    decreases if i <= |s| then |s| - i else 0
  {
    hide NextTag, TagAt, Ascii, Visible;
    VisibleNext(s, i, open + [name]);
    var next := NextTag(s, i);
    if next.At? {
      var tag := next.tag;
      if tag.closing && tag.name == name {
        assert Opened(tag, open + [name]) == open;
      } else if RawText(tag) {
        RawSkipped(s, tag.end, open + [name], tag.name);
        var raw := FindClosing(s, tag.name, tag.end);
        if raw.At? {
          RawSkipped(s, raw.tag.end, open, name);
        }
      } else {
        RawSkipped(s, tag.end, open, name);
      }
    }
  }

  // ----- searches ------------------------------------------------------------

  predicate Opens(tag: Tag, name: Bytes) {
    !tag.closing && tag.name == name
  }

  predicate Closes(tag: Tag, name: Bytes) {
    tag.closing && tag.name == name
  }

  predicate Bounds(tag: Tag, boundary: Option<Bytes>) {
    boundary.Some? && Closes(tag, boundary.value)
  }

  /** The tag at `n` is the first in the list that opens the name, and no tag before it closes the
    * boundary. */
  predicate OpensFirst(tags: seq<Tag>, n: nat, name: Bytes, boundary: Option<Bytes>) {
    n < |tags| && Opens(tags[n], name) && forall k :: 0 <= k < n ==> !Opens(tags[k], name) && !Bounds(tags[k], boundary)
  }

  function First(tags: seq<Tag>, name: Bytes, boundary: Option<Bytes>): (n: Option<nat>)
    ensures n.Some? ==> n.value < |tags| && OpensFirst(tags, n.value, name, boundary)
    ensures n.None? ==> forall k: nat :: !OpensFirst(tags, k, name, boundary)
  {
    if tags == [] || Bounds(tags[0], boundary) then None
    else if Opens(tags[0], name) then Some(0)
    else
      var later := First(tags[1..], name, boundary);
      assert forall k: nat :: OpensFirst(tags, k, name, boundary) ==> k > 0 && OpensFirst(tags[1..], k - 1, name, boundary) by {
        FirstLater(tags, name, boundary);
      }
      if later.None? then None else Some(later.value + 1)
  }

  lemma FirstLater(tags: seq<Tag>, name: Bytes, boundary: Option<Bytes>)
    requires tags != [] && !Opens(tags[0], name)
    ensures forall k: nat :: OpensFirst(tags, k, name, boundary) ==> k > 0 && OpensFirst(tags[1..], k - 1, name, boundary)
  {
    hide Opens, Bounds;
    forall k: nat | OpensFirst(tags, k, name, boundary) ensures k > 0 && OpensFirst(tags[1..], k - 1, name, boundary) {
      forall j | 0 <= j < k - 1 ensures !Opens(tags[1..][j], name) && !Bounds(tags[1..][j], boundary) {
        assert tags[1..][j] == tags[j + 1];
      }
    }
  }

  predicate Plain(name: Bytes) {
    name != Ascii("script") && name != Ascii("style")
  }

  /** The search finds the first of the visible tags that opens the name, before any that closes the
    * boundary, and what is visible behind it is what is left of the list. */
  lemma {:induction false} FindOpeningVisible(s: Bytes, name: Bytes, boundary: Option<Bytes>, i: nat)
    requires Plain(name)
    ensures var tags := Visible(s, i, []);
            match FindOpening(s, name, boundary, i)
            case At(tag) =>
              var n := First(tags, name, boundary);
              n.Some? && tags[n.value] == tag && tags[n.value + 1..] == Visible(s, tag.end, [])
            case _ => First(tags, name, boundary) == None
    decreases if i <= |s| then |s| - i else 0
  {
    hide NextTag, TagAt, Ascii, Visible, FindClosing, First, OpensFirst, FindOpening;
    OpeningStep(s, name, boundary, i);
    var tags, next := Visible(s, i, []), NextTag(s, i);
    VisibleNext(s, i, []);
    if next.At? {
      var tag := next.tag;
      var rest := Visible(s, tag.end, Opened(tag, []));
      assert tags == [tag] + rest;
      FirstStep(tag, rest, name, boundary);
      if RawText(tag) {
        RawVisible(s, tag);
        var raw := FindClosing(s, tag.name, tag.end);
        if raw.At? {
          FindOpeningVisible(s, name, boundary, raw.tag.end);
        }
      } else if !Bounds(tag, boundary) && !Opens(tag, name) {
        FindOpeningVisible(s, name, boundary, tag.end);
      }
    } else {
      FirstOfNone(name, boundary);
    }
  }

  lemma OpeningStep(s: Bytes, name: Bytes, boundary: Option<Bytes>, i: nat)
    requires Plain(name)
    ensures var next := NextTag(s, i);
            FindOpening(s, name, boundary, i)
            == if !next.At? then next
               else if Bounds(next.tag, boundary) then Absent
               else if Opens(next.tag, name) then next
               else if RawText(next.tag) then
                 var raw := FindClosing(s, next.tag.name, next.tag.end);
                 if raw.At? then FindOpening(s, name, boundary, raw.tag.end) else Broken
               else FindOpening(s, name, boundary, next.tag.end)
  {
    hide NextTag, FindClosing, Ascii;
  }

  lemma FirstOfNone(name: Bytes, boundary: Option<Bytes>)
    ensures First([], name, boundary) == None
  {
  }

  lemma FirstStep(tag: Tag, rest: seq<Tag>, name: Bytes, boundary: Option<Bytes>)
    ensures var later := First(rest, name, boundary);
            First([tag] + rest, name, boundary)
            == if Bounds(tag, boundary) then None else if Opens(tag, name) then Some(0)
               else if later.None? then None else Some(later.value + 1)
    ensures First(rest, name, boundary).Some? ==> ([tag] + rest)[First(rest, name, boundary).value + 2..] == rest[First(rest, name, boundary).value + 1..]
    ensures ([tag] + rest)[1..] == rest
  {
    assert ([tag] + rest)[1..] == rest;
    hide OpensFirst;
  }

  lemma RawVisible(s: Bytes, tag: Tag)
    requires RawText(tag)
    ensures var raw := FindClosing(s, tag.name, tag.end);
            Visible(s, tag.end, Opened(tag, [])) == if raw.At? then Visible(s, raw.tag.end, []) else []
  {
    hide Visible, FindClosing;
    assert Opened(tag, []) == [] + [tag.name];
    RawSkipped(s, tag.end, [], tag.name);
  }

  predicate ClosesFirst(tags: seq<Tag>, n: nat, name: Bytes) {
    n < |tags| && Closes(tags[n], name) && forall k :: 0 <= k < n ==> !Closes(tags[k], name)
  }

  function FirstEnd(tags: seq<Tag>, name: Bytes): (n: Option<nat>)
    ensures n.Some? ==> ClosesFirst(tags, n.value, name)
    ensures n.None? ==> forall k: nat :: !ClosesFirst(tags, k, name)
  {
    if tags == [] then None
    else if Closes(tags[0], name) then Some(0)
    else
      var later := FirstEnd(tags[1..], name);
      assert forall k: nat :: ClosesFirst(tags, k, name) ==> k > 0 && ClosesFirst(tags[1..], k - 1, name) by {
        EndLater(tags, name);
      }
      if later.None? then None else Some(later.value + 1)
  }

  lemma EndLater(tags: seq<Tag>, name: Bytes)
    requires tags != [] && !Closes(tags[0], name)
    ensures forall k: nat :: ClosesFirst(tags, k, name) ==> k > 0 && ClosesFirst(tags[1..], k - 1, name)
  {
    hide Closes;
    forall k: nat | ClosesFirst(tags, k, name) ensures k > 0 && ClosesFirst(tags[1..], k - 1, name) {
      forall j | 0 <= j < k - 1 ensures !Closes(tags[1..][j], name) {
        assert tags[1..][j] == tags[j + 1];
      }
    }
  }

  /** The search finds the first of the visible tags that closes the name. */
  lemma {:induction false} FindClosingVisible(s: Bytes, name: Bytes, i: nat)
    ensures var tags := Visible(s, i, []);
            match FindClosing(s, name, i)
            case At(tag) => FirstEnd(tags, name).Some? && tags[FirstEnd(tags, name).value] == tag
            case _ => FirstEnd(tags, name) == None
    decreases if i <= |s| then |s| - i else 0
  {
    hide NextTag, TagAt, Ascii, Visible;
    var tags, next := Visible(s, i, []), NextTag(s, i);
    VisibleNext(s, i, []);
    if next.At? {
      var tag := next.tag;
      var rest := Visible(s, tag.end, Opened(tag, []));
      assert tags == [tag] + rest && tags[1..] == rest;
      if RawText(tag) {
        RawVisible(s, tag);
        var raw := FindClosing(s, tag.name, tag.end);
        if raw.At? {
          FindClosingVisible(s, name, raw.tag.end);
        }
      } else if !Closes(tag, name) {
        FindClosingVisible(s, name, tag.end);
      }
    }
  }

  // ----- the title of the head -----------------------------------------------

  function HeadName(): Bytes { Ascii("head") }
  function TitleName(): Bytes { Ascii("title") }

  /** The tag at `h` is the first that opens a head, and the one at `t` the first behind it that
    * opens a title, with no tag between them that closes a head. */
  predicate InHead(tags: seq<Tag>, h: nat, t: nat) {
    && h < t < |tags| && Opens(tags[h], HeadName()) && (forall k :: 0 <= k < h ==> !Opens(tags[k], HeadName()))
    && Opens(tags[t], TitleName())
    && forall k :: h < k < t ==> !Opens(tags[k], TitleName()) && !Closes(tags[k], HeadName())
  }

  // The indexes that the two searches find.
  function HeadTitle(tags: seq<Tag>): (r: Option<(nat, nat)>)
    ensures r.Some? ==> r.value.0 < r.value.1 < |tags|
  {
    var h := First(tags, HeadName(), None);
    if h.None? then None
    else
      var t := First(tags[h.value + 1..], TitleName(), Some(HeadName()));
      if t.Some? then Some((h.value, h.value + 1 + t.value)) else None
  }

  lemma HeadTitleFound(tags: seq<Tag>, h: nat, t: nat)
    requires HeadTitle(tags) == Some((h, t))
    ensures InHead(tags, h, t)
  {
    hide Opens, Closes, HeadName, TitleName;
    var rest := tags[h + 1..];
    assert forall k :: 0 <= k < |rest| ==> rest[k] == tags[h + 1 + k];
    assert OpensFirst(rest, t - h - 1, TitleName(), Some(HeadName()));
    forall k | h < k < t ensures !Opens(tags[k], TitleName()) && !Closes(tags[k], HeadName()) {
      assert tags[k] == rest[k - h - 1] && !Bounds(rest[k - h - 1], Some(HeadName()));
    }
    assert OpensFirst(tags, h, HeadName(), None);
  }

  lemma HeadTitleIsThere(tags: seq<Tag>, h: nat, t: nat)
    requires InHead(tags, h, t)
    ensures HeadTitle(tags) == Some((h, t))
  {
    hide Opens, Closes, HeadName, TitleName;
    assert OpensFirst(tags, h, HeadName(), None);
    var first := First(tags, HeadName(), None);
    SameHead(tags, first.value, h);
    TitleLater(tags, h, h, t);
    var title := First(tags[h + 1..], TitleName(), Some(HeadName()));
    HeadTitleFound(tags, h, h + 1 + title.value);
    OnlyOne(tags, h, t, h, h + 1 + title.value);
  }

  lemma TitleLater(tags: seq<Tag>, h: nat, k: nat, t: nat)
    requires OpensFirst(tags, h, HeadName(), None) && InHead(tags, k, t)
    ensures t > h && OpensFirst(tags[h + 1..], t - h - 1, TitleName(), Some(HeadName()))
  {
    hide Opens, Closes, Ascii;
    SameHead(tags, h, k);
    var rest := tags[h + 1..];
    forall j | 0 <= j < t - h - 1 ensures !Opens(rest[j], TitleName()) && !Bounds(rest[j], Some(HeadName())) {
      assert rest[j] == tags[h + 1 + j];
    }
  }

  lemma SameHead(tags: seq<Tag>, h: nat, k: nat)
    requires OpensFirst(tags, h, HeadName(), None) && k < |tags| && Opens(tags[k], HeadName())
    requires forall j :: 0 <= j < k ==> !Opens(tags[j], HeadName())
    ensures h == k
  {
  }

  lemma OnlyOne(tags: seq<Tag>, h: nat, t: nat, h': nat, t': nat)
    requires InHead(tags, h, t) && InHead(tags, h', t')
    ensures h == h' && t == t'
  {
    hide Opens, Closes, Ascii;
    assert h <= h' <= h;
    assert t <= t' <= t;
  }

  /** The title starts where the first visible tag ends that opens a title behind the first that
    * opens a head, if no tag between them closes a head. */
  lemma TitleStartVisible(s: Bytes, e: nat)
    ensures TitleStart(s) == Some(e)
            <==> exists h: nat, t: nat :: InHead(Visible(s, 0, []), h, t) && Visible(s, 0, [])[t].end == e
  {
    hide Visible, InHead, TitleStart, HeadTitle;
    var tags := Visible(s, 0, []);
    StartOfHeadTitle(s);
    forall h: nat, t: nat | InHead(tags, h, t) ensures HeadTitle(tags) == Some((h, t)) {
      HeadTitleIsThere(tags, h, t);
    }
    if HeadTitle(tags).Some? {
      HeadTitleFound(tags, HeadTitle(tags).value.0, HeadTitle(tags).value.1);
    }
  }

  lemma HeadTitleIs(tags: seq<Tag>)
    ensures var h := First(tags, HeadName(), None);
            if h.None? then HeadTitle(tags) == None
            else
              var t := First(tags[h.value + 1..], TitleName(), Some(HeadName()));
              HeadTitle(tags) == if t.Some? then Some((h.value, h.value + 1 + t.value)) else None
  {
    hide First, HeadName, TitleName;
  }

  lemma TitleStartIs(s: Bytes)
    ensures var head := FindOpening(s, HeadName(), None, 0);
            if !head.At? then TitleStart(s) == None
            else
              var title := FindOpening(s, TitleName(), Some(HeadName()), head.tag.end);
              TitleStart(s) == if title.At? then Some(title.tag.end) else None
  {
    hide FindOpening;
  }

  lemma StartOfHeadTitle(s: Bytes)
    ensures var tags := Visible(s, 0, []);
            match HeadTitle(tags)
            case Some(at) => at.1 < |tags| && TitleStart(s) == Some(tags[at.1].end)
                             && tags[at.1 + 1..] == Visible(s, tags[at.1].end, [])
            case None => TitleStart(s) == None
  {
    NamesPlain();
    hide Visible, FindOpening, InHead, First, HeadTitle, TitleStart, HeadName, TitleName, Plain, OpensFirst;
    var tags := Visible(s, 0, []);
    HeadTitleIs(tags);
    TitleStartIs(s);
    FindOpeningVisible(s, HeadName(), None, 0);
    var head := FindOpening(s, HeadName(), None, 0);
    if head.At? {
      FindOpeningVisible(s, TitleName(), Some(HeadName()), head.tag.end);
      var h := First(tags, HeadName(), None).value;
      var title := FindOpening(s, TitleName(), Some(HeadName()), head.tag.end);
      if title.At? {
        var t := First(tags[h + 1..], TitleName(), Some(HeadName())).value;
        DropDrop(tags, h + 1, t + 1);
      }
    }
  }

  lemma NamesPlain()
    ensures Plain(HeadName()) && Plain(TitleName())
  {
    assert |HeadName()| == 4 && |TitleName()| == 5 && |Ascii("script")| == 6 && |Ascii("style")| == 5;
    assert TitleName()[0] == 116 && Ascii("style")[0] == 115;
  }

  /** The tag at `c` is the first behind the one at `t` that closes a title. */
  predicate EndsTitle(tags: seq<Tag>, t: nat, c: nat) {
    t < c < |tags| && Closes(tags[c], TitleName()) && forall k :: t < k < c ==> !Closes(tags[k], TitleName())
  }

  /** Extraction, by the visible tags of the lower-cased page: what stands in the body between the
    * title tag in the head and the next tag that closes a title. */
  lemma ExtractsVisible(body: Bytes, spare: Bytes, lower: Bytes, title: Bytes)
    ensures Extract(body, spare, lower) == Extracted(title) <==>
              && InBounds(body) && Resolved(title)
              && exists h: nat, t: nat, c: nat :: Selects(Visible(lower, 0, []), h, t, c, body + spare, title)
  {
    hide Visible, FindClosing, InBounds, Resolved, TitleStart, Extract, TitleName, HeadTitle, FirstEnd, Selects;
    var tags := Visible(lower, 0, []);
    StartOfHeadTitle(lower);
    ExtractIs(body, spare, lower, title);
    var found := HeadTitle(tags);
    if found.None? {
      forall h: nat, t: nat, c: nat ensures !Selects(tags, h, t, c, body + spare, title) {
        NoneSelected(tags, h, t, c, body + spare, title);
      }
    } else {
      var (h, t) := found.value;
      FindClosingVisible(lower, TitleName(), tags[t].end);
      HeadTitleFound(tags, h, t);
      EndOfTitle(tags, t);
      TheSelection(tags, h, t, body + spare, title);
    }
  }

  lemma NoneSelected(tags: seq<Tag>, h: nat, t: nat, c: nat, memory: Bytes, title: Bytes)
    requires HeadTitle(tags) == None
    ensures !Selects(tags, h, t, c, memory, title)
  {
    hide InHead, EndsTitle, IsBetween, HeadTitle;
    if Selects(tags, h, t, c, memory, title) {
      HeadTitleIsThere(tags, h, t);
    }
  }

  // Whatever selects a title is the one head and title there are, with the end that the title has.
  lemma TheSelection(tags: seq<Tag>, h: nat, t: nat, memory: Bytes, title: Bytes)
    requires InHead(tags, h, t)
    ensures (exists h': nat, t': nat, c: nat :: Selects(tags, h', t', c, memory, title))
            <==> exists c: nat :: EndsTitle(tags, t, c) && IsBetween(memory, tags[t], tags[c], title)
  {
    forall h': nat, t': nat, c: nat | Selects(tags, h', t', c, memory, title) ensures t' == t && Selects(tags, h, t, c, memory, title) {
      OnlyOne(tags, h', t', h, t);
    }
    hide InHead, EndsTitle, IsBetween;
    forall c: nat | EndsTitle(tags, t, c) && IsBetween(memory, tags[t], tags[c], title)
      ensures Selects(tags, h, t, c, memory, title)
    {
    }
  }

  /** The tags at `h`, `t` and `c` are the head, the title in it and the end of the title, and the text
    * is what stands between the last two. */
  predicate Selects(tags: seq<Tag>, h: nat, t: nat, c: nat, memory: Bytes, title: Bytes) {
    InHead(tags, h, t) && EndsTitle(tags, t, c) && IsBetween(memory, tags[t], tags[c], title)
  }

  lemma ExtractIs(body: Bytes, spare: Bytes, lower: Bytes, title: Bytes)
    ensures Extract(body, spare, lower) == Extracted(title) <==>
              && InBounds(body) && Resolved(title) && TitleStart(lower).Some?
              && var start, close := TitleStart(lower).value, FindClosing(lower, TitleName(), TitleStart(lower).value);
              close.At? && start <= close.tag.start <= |body + spare| && title == (body + spare)[start..close.tag.start]
  {
    hide TitleStart, FindClosing, InBounds, Resolved;
  }

  // The title is what stands in the memory of the body between the two tags.
  predicate IsBetween(memory: Bytes, opening: Tag, closing: Tag, title: Bytes) {
    opening.end <= closing.start <= |memory| && title == memory[opening.end..closing.start]
  }

  lemma EndOfTitle(tags: seq<Tag>, t: nat)
    requires t < |tags|
    ensures var n := FirstEnd(tags[t + 1..], TitleName());
            if n.Some? then EndsTitle(tags, t, t + 1 + n.value) && forall c: nat :: EndsTitle(tags, t, c) ==> c == t + 1 + n.value
            else forall c: nat :: !EndsTitle(tags, t, c)
  {
    hide Closes, Ascii;
    var rest := tags[t + 1..];
    assert forall k :: 0 <= k < |rest| ==> rest[k] == tags[t + 1 + k];
    forall c: nat | EndsTitle(tags, t, c) ensures ClosesFirst(rest, c - t - 1, TitleName()) {
      forall j | 0 <= j < c - t - 1 ensures !Closes(rest[j], TitleName()) {
        assert rest[j] == tags[t + 1 + j];
      }
    }
  }

  // ----- single tags ---------------------------------------------------------

  /** The quote that is open in front of `k`, read from `from` on: 0 if none is. */
  function QuoteAt(s: Bytes, from: nat, k: nat): byte
    requires k <= |s|
  {
    if k <= from then 0
    else
      var quote, b := QuoteAt(s, from, k - 1), s[k - 1];
      if quote == 0 then if b == 34 || b == 39 then b else 0
      else if b == quote then 0 else quote
  }

  predicate BareEnd(s: Bytes, from: nat, k: nat) {
    k < |s| && s[k] == 62 && QuoteAt(s, from, k) == 0
  }

  lemma {:induction false} CloseFollows(s: Bytes, from: nat, i: nat)
    requires from <= i <= |s|
    ensures var close := TagClose(s, i, QuoteAt(s, from, i));
            && (close.Some? ==> i <= close.value && BareEnd(s, from, close.value)
                                && forall k :: i <= k < close.value ==> !BareEnd(s, from, k))
            && (close.None? ==> forall k :: i <= k ==> !BareEnd(s, from, k))
    decreases |s| - i
  {
    if i < |s| {
      CloseFollows(s, from, i + 1);
    }
  }

  /** The letters of lower-cased names, digits, and two marks. */
  predicate InName(b: int) {
    'a' as int <= b <= 'z' as int || '0' as int <= b <= '9' as int || b in {':' as int, '-' as int}
  }

  /** A tag is complete at a `<` exactly when a name stands behind it, or behind `</`, and a `>` outside
    * quotes behind the name; it ends with the first such `>`. */
  lemma TagExactly(s: Bytes, start: nat, tag: Tag)
    requires start < |s| && s[start] == LT
    ensures TagAt(s, start) == At(tag) <==>
              && tag.start == start && tag.closing == (start + 1 < |s| && s[start + 1] == 47)
              && var from := if tag.closing then start + 2 else start + 1;
              var n := from + |tag.name|;
              && from < n < tag.end <= |s| && tag.name == s[from..n]
              && (forall k :: from <= k < n ==> InName(s[k])) && !InName(s[n])
              && BareEnd(s, n, tag.end - 1) && forall k :: n <= k < tag.end - 1 ==> !BareEnd(s, n, k)
  {
    hide TagClose, BareEnd;
    var from := NameStart(s, start);
    var n := NameEnd(s, from);
    CloseFollows(s, n, n);
    assert QuoteAt(s, n, n) == 0;
  }
}
