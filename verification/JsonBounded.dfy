/** The bounded JSON profile (internal/jsonbounded/jsonbounded.go). */
module JsonBounded {
  // A recursive validator over the decoder's token stream, and the scan for lone surrogate
  // escapes. The lexer that turns bytes into tokens is a parameter.

  import opened Wrappers
  import opened ByteStrings

  // ----- documents and tokens ------------------------------------------------

  /** A decoder token; `Bad` stands for the error that ends a malformed stream, and says whether
    * the decoder would still report more elements in front of it. */
  datatype Tok =
    | ObjectStart | ObjectEnd | ArrayStart | ArrayEnd
    | StringTok(text: Bytes) | NumberTok(literal: Bytes) | BoolTok(truth: bool) | NullTok
    | Bad(more: bool)

  datatype Json =
    | Null | Bool(truth: bool) | Number(literal: Bytes) | Str(text: Bytes)
    | Array(items: seq<Json>) | Object(members: seq<Member>)

  datatype Member = Member(key: Bytes, value: Json)

  datatype Policy = Policy(
    maxBytes: int, maxDepth: int, maxScalarBytes: int, maxContainerEntries: int, maxTokens: int)

  predicate Positive(p: Policy) {
    p.maxBytes > 0 && p.maxDepth > 0 && p.maxScalarBytes > 0 && p.maxContainerEntries > 0 && p.maxTokens > 0
  }

  /** The tokens of a document, then `tail`. */
  function Tokens(doc: Json, tail: seq<Tok>): seq<Tok>
    decreases doc, 0
  {
    match doc
    case Null => [NullTok] + tail
    case Bool(b) => [BoolTok(b)] + tail
    case Number(n) => [NumberTok(n)] + tail
    case Str(t) => [StringTok(t)] + tail
    case Array(items) => [ArrayStart] + ItemTokens(items, tail)
    case Object(members) => [ObjectStart] + MemberTokens(members, tail)
  }

  function ItemTokens(items: seq<Json>, tail: seq<Tok>): seq<Tok>
    decreases items
  {
    if items == [] then [ArrayEnd] + tail else Tokens(items[0], ItemTokens(items[1..], tail))
  }

  function MemberTokens(members: seq<Member>, tail: seq<Tok>): seq<Tok>
    decreases members
  {
    if members == [] then [ObjectEnd] + tail
    else [StringTok(members[0].key)] + Tokens(members[0].value, MemberTokens(members[1..], tail))
  }

  /** A document inside `depth` containers is within policy: nesting, container sizes, scalar
    * sizes, and no repeated key, at every level. */
  predicate Within(p: Policy, doc: Json, depth: nat)
    decreases doc, 0
  {
    match doc
    case Null => true
    case Bool(_) => true
    case Number(n) => |n| <= p.maxScalarBytes
    case Str(t) => |t| <= p.maxScalarBytes
    case Array(items) => depth < p.maxDepth && |items| <= p.maxContainerEntries && ItemsWithin(p, items, depth + 1)
    case Object(members) =>
      depth < p.maxDepth && |members| <= p.maxContainerEntries && DistinctKeys(members)
      && MembersWithin(p, members, depth + 1)
  }

  predicate ItemsWithin(p: Policy, items: seq<Json>, depth: nat)
    decreases items
  {
    items == [] || (Within(p, items[0], depth) && ItemsWithin(p, items[1..], depth))
  }

  predicate MembersWithin(p: Policy, members: seq<Member>, depth: nat)
    decreases members
  {
    members == [] ||
    (|members[0].key| <= p.maxScalarBytes && Within(p, members[0].value, depth) && MembersWithin(p, members[1..], depth))
  }

  predicate DistinctKeys(members: seq<Member>) {
    forall i, j :: 0 <= i < j < |members| ==> members[i].key != members[j].key
  }

  // ----- the reading functions -----------------------------------------------

  datatype Reading<+T> = Stuck | Took(value: T, rest: seq<Tok>)

  /** `Decoder.More`: another element before the container ends. */
  predicate More(ts: seq<Tok>) {
    ts != [] && !ts[0].ObjectEnd? && !ts[0].ArrayEnd? && (ts[0].Bad? ==> ts[0].more)
  }

  function ReadValue(p: Policy, ts: seq<Tok>, depth: nat): (r: Reading<Json>)
    ensures r.Took? ==> |r.rest| < |ts|
    decreases |ts|, 0
  {
    if ts == [] then Stuck
    else
      match ts[0]
      case NullTok => Took(Null, ts[1..])
      case BoolTok(b) => Took(Bool(b), ts[1..])
      case NumberTok(n) => if |n| > p.maxScalarBytes then Stuck else Took(Number(n), ts[1..])
      case StringTok(t) => if |t| > p.maxScalarBytes then Stuck else Took(Str(t), ts[1..])
      case ArrayStart =>
        if depth >= p.maxDepth then Stuck
        else var r := ReadItems(p, ts[1..], depth + 1, 0);
             if r.Stuck? then Stuck else Took(Array(r.value), r.rest)
      case ObjectStart =>
        if depth >= p.maxDepth then Stuck
        else var r := ReadMembers(p, ts[1..], depth + 1, {}, 0);
             if r.Stuck? then Stuck else Took(Object(r.value), r.rest)
      case _ => Stuck
  }

  function ReadItems(p: Policy, ts: seq<Tok>, depth: nat, entries: nat): (r: Reading<seq<Json>>)
    ensures r.Took? ==> |r.rest| < |ts|
    decreases |ts|, 1
  {
    if !More(ts) then if ts != [] && ts[0].ArrayEnd? then Took([], ts[1..]) else Stuck
    else if entries + 1 > p.maxContainerEntries then Stuck
    else
      var v := ReadValue(p, ts, depth);
      if v.Stuck? then Stuck
      else var r := ReadItems(p, v.rest, depth, entries + 1);
           if r.Stuck? then Stuck else Took([v.value] + r.value, r.rest)
  }

  function ReadMembers(p: Policy, ts: seq<Tok>, depth: nat, seen: set<Bytes>, entries: nat): (r: Reading<seq<Member>>)
    ensures r.Took? ==> |r.rest| < |ts|
    decreases |ts|, 1
  {
    if !More(ts) then if ts != [] && ts[0].ObjectEnd? then Took([], ts[1..]) else Stuck
    else if !ts[0].StringTok? || |ts[0].text| > p.maxScalarBytes || ts[0].text in seen
            || entries + 1 > p.maxContainerEntries then Stuck
    else
      var v := ReadValue(p, ts[1..], depth);
      if v.Stuck? then Stuck
      else var r := ReadMembers(p, v.rest, depth, seen + {ts[0].text}, entries + 1);
           if r.Stuck? then Stuck else Took([Member(ts[0].text, v.value)] + r.value, r.rest)
  }

  // ----- what is read is what was written ------------------------------------

  predicate Unseen(members: seq<Member>, seen: set<Bytes>) {
    forall i :: 0 <= i < |members| ==> members[i].key !in seen
  }

  lemma {:induction false} ValueSound(p: Policy, ts: seq<Tok>, depth: nat)
    requires Positive(p)
    ensures var r := ReadValue(p, ts, depth);
            r.Took? ==> ts == Tokens(r.value, r.rest) && Within(p, r.value, depth)
    decreases |ts|, 0
  {
    if ts != [] {
      assert ts == [ts[0]] + ts[1..];
      if depth < p.maxDepth {
        if ts[0].ArrayStart? {
          ItemsSound(p, ts[1..], depth + 1, 0);
        } else if ts[0].ObjectStart? {
          MembersSound(p, ts[1..], depth + 1, {}, 0);
        }
      }
    }
  }

  lemma {:induction false} ItemsSound(p: Policy, ts: seq<Tok>, depth: nat, entries: nat)
    requires Positive(p) && entries <= p.maxContainerEntries
    ensures var r := ReadItems(p, ts, depth, entries);
            r.Took? ==> ts == ItemTokens(r.value, r.rest) && ItemsWithin(p, r.value, depth)
                        && entries + |r.value| <= p.maxContainerEntries
    decreases |ts|, 1
  {
    if !More(ts) {
      assert ts != [] ==> ts == [ts[0]] + ts[1..];
    } else if entries + 1 <= p.maxContainerEntries {
      ValueSound(p, ts, depth);
      var v := ReadValue(p, ts, depth);
      if v.Took? {
        ItemsSound(p, v.rest, depth, entries + 1);
        var r := ReadItems(p, v.rest, depth, entries + 1);
        assert r.Took? ==> ([v.value] + r.value)[1..] == r.value;
      }
    }
  }

  lemma {:induction false} MembersSound(p: Policy, ts: seq<Tok>, depth: nat, seen: set<Bytes>, entries: nat)
    requires Positive(p) && entries <= p.maxContainerEntries
    ensures var r := ReadMembers(p, ts, depth, seen, entries);
            r.Took? ==> ts == MemberTokens(r.value, r.rest) && MembersWithin(p, r.value, depth)
                        && entries + |r.value| <= p.maxContainerEntries
                        && DistinctKeys(r.value) && Unseen(r.value, seen)
    decreases |ts|, 1
  {
    var r := ReadMembers(p, ts, depth, seen, entries);
    if r.Took? {
      assert ts == [ts[0]] + ts[1..];
      if More(ts) {
        ValueSound(p, ts[1..], depth);
        var v := ReadValue(p, ts[1..], depth);
        MembersSound(p, v.rest, depth, seen + {ts[0].text}, entries + 1);
        var rest := ReadMembers(p, v.rest, depth, seen + {ts[0].text}, entries + 1);
        assert r.value[1..] == rest.value;
        assert forall i :: 0 < i < |r.value| ==> r.value[i] == rest.value[i - 1];
      }
    }
  }

  lemma {:induction false} ValueComplete(p: Policy, doc: Json, depth: nat, tail: seq<Tok>)
    requires Within(p, doc, depth)
    ensures ReadValue(p, Tokens(doc, tail), depth) == Took(doc, tail)
    ensures More(Tokens(doc, tail))
    decreases doc, 0
  {
    var ts := Tokens(doc, tail);
    match doc
    case Array(items) =>
      assert ts[1..] == ItemTokens(items, tail);
      ItemsComplete(p, items, depth + 1, tail, 0);
    case Object(members) =>
      assert ts[1..] == MemberTokens(members, tail);
      MembersComplete(p, members, depth + 1, tail, {}, 0);
    case _ =>
      assert ts[1..] == tail;
  }

  lemma {:induction false} ItemsComplete(p: Policy, items: seq<Json>, depth: nat, tail: seq<Tok>, entries: nat)
    requires ItemsWithin(p, items, depth) && entries + |items| <= p.maxContainerEntries
    ensures ReadItems(p, ItemTokens(items, tail), depth, entries) == Took(items, tail)
    decreases items
  {
    if items == [] {
      assert ItemTokens(items, tail)[1..] == tail;
    } else {
      ValueComplete(p, items[0], depth, ItemTokens(items[1..], tail));
      ItemsComplete(p, items[1..], depth, tail, entries + 1);
      assert [items[0]] + items[1..] == items;
    }
  }

  lemma {:induction false} MembersComplete(
    p: Policy, members: seq<Member>, depth: nat, tail: seq<Tok>, seen: set<Bytes>, entries: nat)
    requires MembersWithin(p, members, depth) && entries + |members| <= p.maxContainerEntries
    requires DistinctKeys(members) && Unseen(members, seen)
    ensures ReadMembers(p, MemberTokens(members, tail), depth, seen, entries) == Took(members, tail)
    decreases members
  {
    hide Within, Tokens;
    var ts := MemberTokens(members, tail);
    if members == [] {
      assert ts[1..] == tail;
    } else {
      var m := members[0];
      var later := MemberTokens(members[1..], tail);
      assert ts[1..] == Tokens(m.value, later);
      ValueComplete(p, m.value, depth, later);
      MembersComplete(p, members[1..], depth, tail, seen + {m.key}, entries + 1);
      assert [Member(m.key, m.value)] + members[1..] == members;
    }
  }

  /** A stream is one document within policy, of at most the admitted number of tokens. */
  ghost predicate Document(p: Policy, stream: seq<Tok>) {
    |stream| <= p.maxTokens && exists doc :: stream == Tokens(doc, []) && Within(p, doc, 0)
  }

  /** Reading a whole stream succeeds exactly on documents within policy, and no stream is two
    * different documents. */
  lemma ReadsExactlyDocuments(p: Policy, stream: seq<Tok>)
    requires Positive(p)
    ensures var r := ReadValue(p, stream, 0);
            && (r.Took? && r.rest == [] <==> exists doc :: stream == Tokens(doc, []) && Within(p, doc, 0))
            && forall doc :: stream == Tokens(doc, []) && Within(p, doc, 0) ==> r == Took(doc, [])
  {
    ValueSound(p, stream, 0);
    forall doc | stream == Tokens(doc, []) && Within(p, doc, 0) ensures ReadValue(p, stream, 0) == Took(doc, []) {
      ValueComplete(p, doc, 0, []);
    }
  }

  // ----- the validator -------------------------------------------------------

  /** Whether a reading succeeds with no more than `budget` tokens. */
  predicate Affordable<T>(r: Reading<T>, ts: seq<Tok>, budget: int) {
    r.Took? && |ts| - |r.rest| <= budget
  }

  class Validator {
    const stream: seq<Tok>
    const policy: Policy
    var off: nat
    var tokens: nat

    ghost predicate Valid()
      reads this
    {
      off <= |stream| && tokens <= policy.maxTokens
    }

    ghost function Rest(): seq<Tok>
      reads this
      requires Valid()
    {
      stream[off..]
    }

    // The tokens that may still be taken.
    ghost function Budget(): int
      reads this
    {
      policy.maxTokens - tokens
    }

    constructor (stream: seq<Tok>, policy: Policy)
      requires Positive(policy)
      ensures Valid() && this.stream == stream && this.policy == policy && Rest() == stream && tokens == 0
    {
      this.stream := stream;
      this.policy := policy;
      off, tokens := 0, 0;
    }

    // What a call that succeeds or fails has done with the tokens in front of it.
    twostate predicate Consumed<T>(ok: bool, r: Reading<T>)
      requires old(Valid())
      reads this
    {
      && ok == Affordable(r, old(Rest()), old(Budget()))
      && (ok ==> Valid() && Rest() == r.rest && tokens == old(tokens) + (|old(Rest())| - |r.rest|))
    }

    /** The next token, counted against the limit; None is the decoder's error or the limit. */
    method Token() returns (t: Option<Tok>)
      requires Valid()
      modifies this`off, this`tokens
      ensures t.Some? <==> old(Rest()) != [] && !old(Rest())[0].Bad? && old(Budget()) >= 1
      ensures t.Some? ==> Valid() && t.value == old(Rest())[0] && Rest() == old(Rest())[1..] && tokens == old(tokens) + 1
    {
      if off == |stream| || stream[off].Bad? {
        return None;
      }
      var token := stream[off];
      off := off + 1;
      tokens := tokens + 1;
      if tokens > policy.maxTokens {
        return None;
      }
      t := Some(token);
    }

    method Value(depth: nat) returns (ok: bool)
      requires Valid()
      modifies this`off, this`tokens
      ensures Consumed(ok, ReadValue(policy, old(Rest()), depth))
      decreases |stream| - off, 0
    {
      var token := Token();
      if token.None? {
        return false;
      }
      match token.value {
        case ObjectStart =>
          if depth >= policy.maxDepth {
            return false;
          }
          ok := ObjectBody(depth + 1);
        case ArrayStart =>
          if depth >= policy.maxDepth {
            return false;
          }
          ok := ArrayBody(depth + 1);
        case StringTok(text) =>
          ok := |text| <= policy.maxScalarBytes;
        case NumberTok(literal) =>
          ok := |literal| <= policy.maxScalarBytes;
        case BoolTok(_) =>
          ok := true;
        case NullTok =>
          ok := true;
        case _ =>
          ok := false;
      }
    }

    method ObjectBody(depth: nat) returns (ok: bool)
      requires Valid()
      modifies this`off, this`tokens
      ensures Consumed(ok, ReadMembers(policy, old(Rest()), depth, {}, 0))
      decreases |stream| - off, 1
    {
      hide ReadValue, ReadItems;
      var seen: set<Bytes> := {};
      var entries := 0;
      ghost var members: seq<Member> := [];
      PrependNothing(ReadMembers(policy, Rest(), depth, {}, 0));
      while More(stream[off..])
        invariant Valid() && off >= old(off) && tokens - old(tokens) == off - old(off)
        invariant ReadMembers(policy, old(Rest()), depth, {}, 0)
                  == Prepend(members, ReadMembers(policy, Rest(), depth, seen, entries))
        decreases |stream| - off
      {
        ghost var ts := Rest();
        var token := Token();
        if token.None? || !token.value.StringTok? {
          return false;
        }
        var key := token.value.text;
        if |key| > policy.maxScalarBytes || key in seen {
          return false;
        }
        seen := seen + {key};
        entries := entries + 1;
        if entries > policy.maxContainerEntries {
          return false;
        }
        ok := Value(depth);
        if !ok {
          return false;
        }
        MembersStep(policy, members, ts, depth, seen - {key}, entries - 1);
        members := members + [Member(key, ReadValue(policy, ts[1..], depth).value)];
      }
      ok := Close(ObjectEnd);
    }

    method ArrayBody(depth: nat) returns (ok: bool)
      requires Valid()
      modifies this`off, this`tokens
      ensures Consumed(ok, ReadItems(policy, old(Rest()), depth, 0))
      decreases |stream| - off, 1
    {
      var entries := 0;
      ghost var items: seq<Json> := [];
      PrependNothing(ReadItems(policy, Rest(), depth, 0));
      while More(stream[off..])
        invariant Valid() && off >= old(off) && tokens - old(tokens) == off - old(off)
        invariant ReadItems(policy, old(Rest()), depth, 0) == Prepend(items, ReadItems(policy, Rest(), depth, entries))
        decreases |stream| - off
      {
        ghost var ts := Rest();
        entries := entries + 1;
        if entries > policy.maxContainerEntries {
          return false;
        }
        ok := Value(depth);
        if !ok {
          return false;
        }
        ItemsStep(policy, items, ts, depth, entries - 1);
        items := items + [ReadValue(policy, ts, depth).value];
      }
      ok := Close(ArrayEnd);
    }

    method Close(expected: Tok) returns (ok: bool)
      requires Valid() && !expected.Bad?
      modifies this`off, this`tokens
      ensures ok <==> old(Rest()) != [] && old(Rest())[0] == expected && old(Budget()) >= 1
      ensures ok ==> Valid() && Rest() == old(Rest())[1..] && tokens == old(tokens) + 1
    {
      var token := Token();
      ok := token == Some(expected);
    }
  }

  function Prepend<T>(values: seq<T>, r: Reading<seq<T>>): Reading<seq<T>> {
    if r.Stuck? then r else Took(values + r.value, r.rest)
  }

  lemma PrependNothing<T>(r: Reading<seq<T>>)
    ensures Prepend([], r) == r
  {
    if r.Took? {
      assert [] + r.value == r.value;
    }
  }

  // One turn of the loop over members.
  lemma MembersStep(p: Policy, members: seq<Member>, ts: seq<Tok>, depth: nat, seen: set<Bytes>, entries: nat)
    requires More(ts) && ts[0].StringTok? && ReadValue(p, ts[1..], depth).Took?
    requires |ts[0].text| <= p.maxScalarBytes && ts[0].text !in seen && entries + 1 <= p.maxContainerEntries
    ensures var v := ReadValue(p, ts[1..], depth);
            Prepend(members, ReadMembers(p, ts, depth, seen, entries))
            == Prepend(members + [Member(ts[0].text, v.value)],
                       ReadMembers(p, v.rest, depth, seen + {ts[0].text}, entries + 1))
  {
    var v := ReadValue(p, ts[1..], depth);
    var r := ReadMembers(p, v.rest, depth, seen + {ts[0].text}, entries + 1);
    var m := Member(ts[0].text, v.value);
    if r.Took? {
      assert members + ([m] + r.value) == members + [m] + r.value;
    }
  }

  // One turn of the loop over items.
  lemma ItemsStep(p: Policy, items: seq<Json>, ts: seq<Tok>, depth: nat, entries: nat)
    requires More(ts) && ReadValue(p, ts, depth).Took? && entries + 1 <= p.maxContainerEntries
    ensures var v := ReadValue(p, ts, depth);
            Prepend(items, ReadItems(p, ts, depth, entries))
            == Prepend(items + [v.value], ReadItems(p, v.rest, depth, entries + 1))
  {
    var v := ReadValue(p, ts, depth);
    var r := ReadItems(p, v.rest, depth, entries + 1);
    if r.Took? {
      assert items + ([v.value] + r.value) == items + [v.value] + r.value;
    }
  }

  // ----- surrogate escapes ---------------------------------------------------

  const QUOTE: byte := 34
  const BACKSLASH: byte := 92
  const LETTER_U: byte := 117

  predicate IsHex(b: byte) {
    48 <= b <= 57 || 97 <= b <= 102 || 65 <= b <= 70
  }

  function HexValue(b: byte): (v: nat)
    requires IsHex(b)
    ensures v < 16
  {
    if b <= 57 then b - 48 else if b >= 97 then b - 87 else b - 55
  }

  /** The number that hexadecimal digits write. */
  function Hex(digits: Bytes): nat
    requires forall i :: 0 <= i < |digits| ==> IsHex(digits[i])
  {
    if digits == [] then 0 else 16 * Hex(digits[..|digits| - 1]) + HexValue(digits[|digits| - 1])
  }

  /** The code unit that four hexadecimal digits write. */
  function CodeUnit(d: Bytes): Option<nat> {
    if |d| < 4 || !(IsHex(d[0]) && IsHex(d[1]) && IsHex(d[2]) && IsHex(d[3])) then None else Some(Hex(d[..4]))
  }

  predicate High(unit: nat) {
    0xd800 <= unit <= 0xdbff
  }

  predicate Low(unit: nat) {
    0xdc00 <= unit <= 0xdfff
  }

  method ParseHexCodeUnit(data: Bytes, start: nat) returns (unit: Option<nat>)
    requires start <= |data|
    ensures unit == CodeUnit(data[start..])
  {
    if start + 4 > |data| {
      return None;
    }
    var value: nat := 0;
    ghost var d := data[start..];
    for i := 0 to 4
      invariant forall k :: 0 <= k < i ==> IsHex(d[k])
      invariant value == Hex(d[..i])
    {
      var symbol := data[start + i];
      assert d[i] == symbol && d[..i + 1][..i] == d[..i];
      value := value * 16;
      if 48 <= symbol <= 57 {
        value := value + (symbol - 48);
      } else if 97 <= symbol <= 102 {
        value := value + (symbol - 97) + 10;
      } else if 65 <= symbol <= 70 {
        value := value + (symbol - 65) + 10;
      } else {
        return None;
      }
    }
    unit := Some(value);
  }

  /** What the scan accepts in front of the bytes `d`, outside a string. */
  predicate ScanOutside(d: Bytes)
    decreases |d|
  {
    d == [] || if d[0] == QUOTE then ScanInside(d[1..]) else ScanOutside(d[1..])
  }

  /** The same inside a string. */
  predicate ScanInside(d: Bytes)
    decreases |d|
  {
    if d == [] then true
    else if d[0] == QUOTE then ScanOutside(d[1..])
    else if d[0] != BACKSLASH then ScanInside(d[1..])
    else if |d| < 2 then true
    else if d[1] != LETTER_U || CodeUnit(d[2..]).None? then ScanInside(d[2..])
    else
      var unit := CodeUnit(d[2..]).value;
      if Low(unit) then false
      else if High(unit) then LowFollows(d[6..]) && ScanInside(d[12..])
      else ScanInside(d[6..])
  }

  predicate LowFollows(d: Bytes): (b: bool)
    ensures b ==> |d| >= 6
  {
    |d| >= 6 && d[0] == BACKSLASH && d[1] == LETTER_U && CodeUnit(d[2..]).Some? && Low(CodeUnit(d[2..]).value)
  }

  /** The scan over any bytes at all, its index always in bounds. */
  method ValidateUnicodeEscapes(data: Bytes) returns (ok: bool)
    ensures ok == ScanOutside(data)
  {
    hide CodeUnit;
    var inString := false;
    var offset := 0;
    while offset < |data|
      invariant 0 <= offset <= |data|
      invariant ScanOutside(data) == if inString then ScanInside(data[offset..]) else ScanOutside(data[offset..])
    {
      ghost var d := data[offset..];
      var symbol := data[offset];
      assert d[1..] == data[offset + 1..];
      if !inString {
        if symbol == QUOTE {
          inString := true;
        }
        offset := offset + 1;
        continue;
      }
      if symbol == QUOTE {
        inString := false;
        offset := offset + 1;
        continue;
      }
      offset := offset + 1;
      if symbol != BACKSLASH {
        continue;
      }
      if offset >= |data| {
        return true;
      }
      assert d[2..] == data[offset + 1..];
      var unit := ParseHexCodeUnit(data, offset + 1);
      if data[offset] != LETTER_U || unit.None? {
        offset := offset + 1;
        continue;
      }
      UnitLength(data[offset + 1..]);
      offset := offset + 4;
      assert d[6..] == data[offset + 1..];
      if Low(unit.value) {
        return false;
      }
      if High(unit.value) {
        ghost var after := data[offset + 1..];
        if offset + 6 >= |data| || data[offset + 1] != BACKSLASH || data[offset + 2] != LETTER_U {
          return false;
        }
        assert after[2..] == data[offset + 3..];
        var low := ParseHexCodeUnit(data, offset + 3);
        if low.None? || !Low(low.value) {
          return false;
        }
        offset := offset + 6;
        assert d[12..] == data[offset + 1..];
      }
      offset := offset + 1;
    }
    ok := true;
  }

  lemma UnitLength(d: Bytes)
    ensures CodeUnit(d).Some? ==> |d| >= 4
  {
  }

  // ----- well-formed string content ------------------------------------------

  /** A piece of a JSON string (section 7 of RFC 8259): a byte that needs no escape, a two-byte
    * escape, or a `\u` escape with its four hexadecimal digits. */
  datatype Piece = Raw(b: byte) | Simple(b: byte) | Unit(digits: Bytes)

  predicate WellFormedPiece(x: Piece) {
    match x
    case Raw(b) => b != QUOTE && b != BACKSLASH
    case Simple(b) => b != LETTER_U
    case Unit(digits) => |digits| == 4 && forall i :: 0 <= i < 4 ==> IsHex(digits[i])
  }

  function PieceBytes(x: Piece): Bytes {
    match x
    case Raw(b) => [b]
    case Simple(b) => [BACKSLASH, b]
    case Unit(digits) => [BACKSLASH, LETTER_U] + digits
  }

  /** A stretch of a JSON text: a byte outside strings, or a whole string. */
  datatype Segment = Outside(b: byte) | Quoted(pieces: seq<Piece>)

  predicate WellFormedSegment(s: Segment) {
    match s
    case Outside(b) => b != QUOTE
    case Quoted(pieces) => forall x :: x in pieces ==> WellFormedPiece(x)
  }

  predicate WellFormed(segments: seq<Segment>) {
    forall s :: s in segments ==> WellFormedSegment(s)
  }

  function PiecesBytes(pieces: seq<Piece>, tail: Bytes): Bytes {
    if pieces == [] then tail else PieceBytes(pieces[0]) + PiecesBytes(pieces[1..], tail)
  }

  /** The bytes of a lexically well-formed text. */
  function TextBytes(segments: seq<Segment>): Bytes {
    if segments == [] then []
    else
      match segments[0]
      case Outside(b) => [b] + TextBytes(segments[1..])
      case Quoted(pieces) => [QUOTE] + PiecesBytes(pieces, [QUOTE] + TextBytes(segments[1..]))
  }

  predicate IsHigh(x: Piece) {
    x.Unit? && WellFormedPiece(x) && High(Hex(x.digits))
  }

  predicate IsLow(x: Piece) {
    x.Unit? && WellFormedPiece(x) && Low(Hex(x.digits))
  }

  predicate PairedAt(pieces: seq<Piece>, i: nat)
    requires i < |pieces|
  {
    && (IsHigh(pieces[i]) ==> i + 1 < |pieces| && IsLow(pieces[i + 1]))
    && (IsLow(pieces[i]) ==> i > 0 && IsHigh(pieces[i - 1]))
  }

  /** Every surrogate escape is half of a high-then-low pair: a low one stands right after a high
    * one, and a high one right before a low one. */
  predicate SurrogatesPaired(pieces: seq<Piece>) {
    forall i :: 0 <= i < |pieces| ==> PairedAt(pieces, i)
  }

  // A string all of whose quoted content is paired.
  predicate PairedSegment(s: Segment) {
    s.Quoted? ==> SurrogatesPaired(s.pieces)
  }

  lemma HighNotLow(x: Piece)
    ensures !(IsHigh(x) && IsLow(x))
  {
  }

  lemma UnitReads(digits: Bytes, tail: Bytes)
    requires WellFormedPiece(Unit(digits))
    ensures CodeUnit(digits + tail) == Some(Hex(digits))
  {
    assert (digits + tail)[..4] == digits;
  }

  // Behind a piece that is not high, pairing does not look back.
  lemma PairedDrop(pieces: seq<Piece>, skip: nat)
    requires 1 <= skip <= |pieces| && !IsHigh(pieces[skip - 1])
    ensures (forall i :: skip <= i < |pieces| ==> PairedAt(pieces, i)) <==> SurrogatesPaired(pieces[skip..])
  {
    hide IsHigh, IsLow;
    var rest := pieces[skip..];
    forall i | skip <= i < |pieces| ensures PairedAt(pieces, i) <==> PairedAt(rest, i - skip) {
      assert pieces[i] == rest[i - skip];
      if i + 1 < |pieces| { assert pieces[i + 1] == rest[i + 1 - skip]; }
      if i > skip { assert pieces[i - 1] == rest[i - 1 - skip]; }
      if IsLow(pieces[skip]) { assert !PairedAt(pieces, skip) && !PairedAt(rest, 0); }
    }
    if SurrogatesPaired(rest) {
      forall i | skip <= i < |pieces| ensures PairedAt(pieces, i) {
        assert PairedAt(rest, i - skip);
      }
    }
    if forall i :: skip <= i < |pieces| ==> PairedAt(pieces, i) {
      forall i | 0 <= i < |rest| ensures PairedAt(rest, i) {
        assert PairedAt(pieces, i + skip);
      }
    }
  }

  // Pairing, from the front: drop one piece, or a whole pair.
  lemma PairedTail(pieces: seq<Piece>)
    requires pieces != []
    ensures IsLow(pieces[0]) ==> !SurrogatesPaired(pieces)
    ensures IsHigh(pieces[0]) ==>
              (SurrogatesPaired(pieces) <==> |pieces| >= 2 && IsLow(pieces[1]) && SurrogatesPaired(pieces[2..]))
    ensures !IsLow(pieces[0]) && !IsHigh(pieces[0]) ==> (SurrogatesPaired(pieces) <==> SurrogatesPaired(pieces[1..]))
  {
    hide IsHigh, IsLow;
    forall x ensures !(IsHigh(x) && IsLow(x)) {
      HighNotLow(x);
    }
    if IsLow(pieces[0]) {
      assert !PairedAt(pieces, 0);
    } else if IsHigh(pieces[0]) {
      assert PairedAt(pieces, 0) <==> |pieces| >= 2 && IsLow(pieces[1]);
      if |pieces| >= 2 && IsLow(pieces[1]) {
        assert PairedAt(pieces, 1);
        PairedDrop(pieces, 2);
      }
    } else {
      assert PairedAt(pieces, 0);
      PairedDrop(pieces, 1);
    }
  }

  lemma {:induction false} InsideAccepts(pieces: seq<Piece>, tail: Bytes)
    requires forall x :: x in pieces ==> WellFormedPiece(x)
    ensures ScanInside(PiecesBytes(pieces, [QUOTE] + tail)) <==> SurrogatesPaired(pieces) && ScanOutside(tail)
    decreases |pieces|
  {
    hide CodeUnit, Hex, SurrogatesPaired, IsHigh, IsLow, ScanOutside, LowFollows;
    var end := [QUOTE] + tail;
    var d := PiecesBytes(pieces, end);
    if pieces == [] {
      assert d[1..] == tail;
      NothingPaired();
    } else {
      PairedTail(pieces);
      InsideAccepts(pieces[1..], tail);
      if |pieces| >= 2 {
        InsideAccepts(pieces[2..], tail);
      }
      PieceStep(pieces[0], PiecesBytes(pieces[1..], end));
      LowIsNext(pieces[1..], tail);
      assert |pieces| >= 2 ==> pieces[1..][1..] == pieces[2..] && pieces[1..][0] == pieces[1];
      hide PiecesBytes, ScanInside;
    }
  }

  // What the scan does with one piece.
  lemma PieceStep(x: Piece, after: Bytes)
    requires WellFormedPiece(x)
    ensures var d := PieceBytes(x) + after;
            ScanInside(d) <==> if IsLow(x) then false
                               else if IsHigh(x) then LowFollows(after) && ScanInside(after[6..])
                               else ScanInside(after)
  {
    hide CodeUnit, Hex, ScanOutside;
    var d := PieceBytes(x) + after;
    match x
    case Raw(b) =>
      assert d[1..] == after;
    case Simple(b) =>
      assert d[2..] == after;
    case Unit(digits) =>
      assert d[2..] == digits + after && d[6..] == after;
      assert |after| >= 6 ==> d[12..] == after[6..];
      UnitReads(digits, after);
  }

  lemma NothingPaired()
    ensures SurrogatesPaired([])
  {
  }

  // What follows a high surrogate reads as a low one exactly when the next piece is one.
  lemma LowIsNext(pieces: seq<Piece>, tail: Bytes)
    requires forall x :: x in pieces ==> WellFormedPiece(x)
    ensures var d := PiecesBytes(pieces, [QUOTE] + tail);
            && (LowFollows(d) <==> pieces != [] && IsLow(pieces[0]))
            && (LowFollows(d) ==> d[6..] == PiecesBytes(pieces[1..], [QUOTE] + tail))
  {
    hide Hex;
    var d := PiecesBytes(pieces, [QUOTE] + tail);
    if pieces != [] {
      var x := pieces[0];
      assert x in pieces;
      var after := PiecesBytes(pieces[1..], [QUOTE] + tail);
      if x.Unit? {
        assert d[2..] == x.digits + after && d[6..] == after;
        UnitReads(x.digits, after);
      }
    }
  }

  /** On a lexically well-formed text the scan accepts exactly when, inside every string, every
    * surrogate escape is half of a high-then-low pair. */
  lemma {:induction false} EscapesAccepted(segments: seq<Segment>)
    requires WellFormed(segments)
    ensures ScanOutside(TextBytes(segments)) <==> forall s :: s in segments ==> PairedSegment(s)
  {
    hide SurrogatesPaired, ScanInside;
    if segments != [] {
      var s, rest := segments[0], segments[1..];
      assert segments == [s] + rest;
      assert forall x :: x in rest ==> x in segments;
      EscapesAccepted(rest);
      assert WellFormedSegment(s);
      var d := TextBytes(segments);
      match s {
        case Outside(b) =>
          assert d[1..] == TextBytes(rest);
        case Quoted(pieces) =>
          assert d[1..] == PiecesBytes(pieces, [QUOTE] + TextBytes(rest));
          InsideAccepts(pieces, TextBytes(rest));
      }
      assert ScanOutside(d) <==> PairedSegment(s) && ScanOutside(TextBytes(rest));
    }
  }

  // ----- the whole check -----------------------------------------------------

  /** Everything that is checked before a document is decoded; `lex` is the decoder's lexer. */
  method Check(data: Bytes, p: Policy, lex: Bytes -> seq<Tok>) returns (ok: bool)
    ensures ok <==> Positive(p) && |data| <= p.maxBytes && ValidUtf8(data) && ScanOutside(data) && Document(p, lex(data))
  {
    hide ScanOutside, ValidUtf8, ReadValue;
    if !Positive(p) || |data| > p.maxBytes || !ValidUtf8(data) {
      return false;
    }
    ok := ValidateUnicodeEscapes(data);
    if !ok {
      return false;
    }
    var validator := new Validator(lex(data), p);
    ReadsExactlyDocuments(p, lex(data));
    ok := validator.Value(0);
    if ok {
      ok := validator.off == |validator.stream|;
    }
  }
}
