/** JSON Pointer resolution (sections 3 and 4 of RFC 6901) in the adapter (internal/adapter/adapter.go). */
module Pointers {
  // Documents, paths and the adapter's resolver, which validates a pointer before it looks at
  // the document. The engine's resolver is in `EnginePointers`.

  import opened Wrappers
  import opened ByteStrings
  import opened Lexical

  const MAX_POINTER_BYTES: nat := 4096
  const MAX_POINTER_TOKENS: nat := 128
  const MAX_INDEXES: nat := 0x8000_0000_0000_0000
  const TWO_64: nat := 0x1_0000_0000_0000_0000
  const CUTOFF: nat := 1844674407370955162
  const TILDE: byte := 126
  const SLASH: byte := 47

  datatype Json =
    | Null | Bool(truth: bool) | Number(literal: Bytes) | Str(text: Bytes)
    | Array(items: seq<Json>) | Object(members: map<Bytes, Json>)

  /** Found a value, found that there is none, or refused the pointer. */
  datatype Resolution = Found(value: Json) | Missing | Refused

  // ----- tokens --------------------------------------------------------------

  /** A reference token with its escapes decoded. */
  function DecodeToken(t: Bytes): Option<Bytes> {
    if t == [] then Some([])
    else if t[0] != TILDE then
      var rest := DecodeToken(t[1..]);
      if rest.None? then None else Some([t[0]] + rest.value)
    else if |t| < 2 || !(t[1] == 48 || t[1] == 49) then None
    else
      var rest := DecodeToken(t[2..]);
      if rest.None? then None else Some([if t[1] == 48 then TILDE else SLASH] + rest.value)
  }

  function Prepend(out: Bytes, rest: Option<Bytes>): Option<Bytes> {
    if rest.None? then None else Some(out + rest.value)
  }

  /** The loop over a token: the index moves by one byte or by one escape. */
  method DecodePointerToken(t: Bytes) returns (r: Option<Bytes>)
    ensures r == DecodeToken(t)
  {
    var out: Bytes := [];
    var i := 0;
    assert t[0..] == t;
    PrependNothing(DecodeToken(t));
    while i < |t|
      invariant 0 <= i <= |t|
      invariant DecodeToken(t) == Prepend(out, DecodeToken(t[i..]))
    {
      assert t[i..][1..] == t[i + 1..];
      if t[i] != TILDE {
        PrependMore(out, t[i], DecodeToken(t[i + 1..]));
        out := out + [t[i]];
        i := i + 1;
        continue;
      }
      if i + 1 >= |t| {
        return None;
      }
      i := i + 1;
      assert t[i - 1..][2..] == t[i + 1..];
      if t[i] == 48 {
        PrependMore(out, TILDE, DecodeToken(t[i + 1..]));
        out := out + [TILDE];
      } else if t[i] == 49 {
        PrependMore(out, SLASH, DecodeToken(t[i + 1..]));
        out := out + [SLASH];
      } else {
        return None;
      }
      i := i + 1;
    }
    PrependNothing(Some(out));
    assert out + [] == out;
    r := Some(out);
  }

  lemma PrependNothing(r: Option<Bytes>)
    ensures Prepend([], r) == r
  {
    if r.Some? {
      assert [] + r.value == r.value;
    }
  }

  lemma PrependMore(out: Bytes, b: byte, rest: Option<Bytes>)
    ensures Prepend(out, if rest.None? then None else Some([b] + rest.value)) == Prepend(out + [b], rest)
  {
    if rest.Some? {
      assert out + ([b] + rest.value) == out + [b] + rest.value;
    }
  }

  // ----- numbers -------------------------------------------------------------

  /** The number below `limit` that a run of digits writes. */
  function ParsedUint(s: Bytes, limit: nat): Option<nat> {
    if s != [] && AllDigits(s) && Decimal(s) < limit then Some(Decimal(s)) else None
  }

  lemma {:induction false} DecimalGrows(s: Bytes, i: nat)
    requires i <= |s| && AllDigits(s)
    ensures Decimal(s[..i]) <= Decimal(s)
    decreases |s| - i
  {
    if i == |s| {
      assert s[..i] == s;
    } else {
      assert s[..i + 1][..i] == s[..i];
      DecimalGrows(s, i + 1);
    }
  }

  /** `strconv.ParseUint` in base 10, on 64-bit words: it stops at the first digit that takes the
    * number past the limit. */
  method ParseUint(s: Bytes, limit: nat) returns (r: Option<nat>)
    requires 0 < limit <= TWO_64
    ensures r == ParsedUint(s, limit)
  {
    if s == [] {
      return None;
    }
    var n: nat := 0;
    for i := 0 to |s|
      invariant AllDigits(s[..i]) && n == Decimal(s[..i]) < limit
    {
      assert s[..i + 1][..i] == s[..i];
      if s[i] < 48 || s[i] > 57 {
        return None;
      }
      assert AllDigits(s) ==> Decimal(s[..i + 1]) <= Decimal(s) by {
        if AllDigits(s) {
          DecimalGrows(s, i + 1);
        }
      }
      if n >= CUTOFF {
        return None;
      }
      n := n * 10;
      var next := (n + (s[i] - 48)) % TWO_64;
      if next < n || next > limit - 1 {
        return None;
      }
      n := next;
    }
    assert s[..|s|] == s;
    r := Some(n);
  }

  /** The array index that a token writes: no sign, no leading zero, 63 bits. */
  function ArrayIndex(token: Bytes): Option<nat> {
    if CanonicalNatural(token) && Decimal(token) < MAX_INDEXES then Some(Decimal(token)) else None
  }

  method ParseArrayIndex(token: Bytes) returns (r: Option<nat>)
    ensures r == ArrayIndex(token)
  {
    if token == [] || (|token| > 1 && token[0] == 48) {
      return None;
    }
    for i := 0 to |token|
      invariant AllDigits(token[..i])
    {
      if token[i] < 48 || token[i] > 57 {
        return None;
      }
    }
    assert token[..|token|] == token;
    r := ParseUint(token, MAX_INDEXES);
  }

  // ----- resolution ----------------------------------------------------------

  function Walk(doc: Json, tokens: seq<Bytes>): Resolution
    decreases |tokens|
  {
    if tokens == [] then Found(doc)
    else
      var token := DecodeToken(tokens[0]);
      if token.None? then Refused
      else
        match doc
        case Object(members) =>
          if token.value in members then Walk(members[token.value], tokens[1..]) else Missing
        case Array(items) =>
          var index := ArrayIndex(token.value);
          if index.None? then Refused
          else if index.value >= |items| then Missing
          else Walk(items[index.value], tokens[1..])
        case _ => Missing
  }

  predicate Rooted(p: Bytes) {
    p != [] && p[0] == SLASH
  }

  function RawTokens(p: Bytes): seq<Bytes> {
    if p == [] then [] else Split(p[1..], SLASH)
  }

  /** What the adapter demands of a pointer before it looks at the document. */
  predicate ValidPointer(p: Bytes) {
    && |p| <= MAX_POINTER_BYTES && ValidUtf8(p) && 0 !in p
    && (p == [] || (Rooted(p) && |RawTokens(p)| <= MAX_POINTER_TOKENS))
    && forall t :: t in RawTokens(p) ==> DecodeToken(t).Some?
  }

  function AdapterResolve(doc: Json, p: Bytes): Resolution {
    if ValidPointer(p) then Walk(doc, RawTokens(p)) else Refused
  }

  /** The loop over the reference tokens. */
  method WalkTokens(doc: Json, tokens: seq<Bytes>) returns (r: Resolution)
    ensures r == Walk(doc, tokens)
  {
    hide ArrayIndex, DecodeToken;
    var current := doc;
    for i := 0 to |tokens|
      invariant Walk(doc, tokens) == Walk(current, tokens[i..])
    {
      assert tokens[i..][1..] == tokens[i + 1..];
      var token := DecodePointerToken(tokens[i]);
      if token.None? {
        return Refused;
      }
      match current {
        case Object(members) =>
          if token.value !in members {
            return Missing;
          }
          current := members[token.value];
        case Array(items) =>
          var index := ParseArrayIndex(token.value);
          if index.None? {
            return Refused;
          }
          if index.value >= |items| {
            return Missing;
          }
          current := items[index.value];
        case _ =>
          return Missing;
      }
    }
    r := Found(current);
  }

  method ValidateJSONPointer(p: Bytes) returns (ok: bool)
    ensures ok == ValidPointer(p)
  {
    hide DecodeToken, ValidUtf8;
    if |p| > MAX_POINTER_BYTES || !ValidUtf8(p) || 0 in p {
      return false;
    }
    if p == [] {
      return true;
    }
    if p[0] != SLASH {
      return false;
    }
    var tokens := Split(p[1..], SLASH);
    if |tokens| > MAX_POINTER_TOKENS {
      return false;
    }
    for i := 0 to |tokens|
      invariant forall k :: 0 <= k < i ==> DecodeToken(tokens[k]).Some?
    {
      var token := DecodePointerToken(tokens[i]);
      if token.None? {
        return false;
      }
    }
    ok := true;
  }

  method ResolveJSONPointer(doc: Json, p: Bytes) returns (r: Resolution)
    ensures r == AdapterResolve(doc, p)
  {
    hide Walk, ValidPointer;
    var ok := ValidateJSONPointer(p);
    if !ok {
      return Refused;
    }
    EmptyWalk(doc);
    if p == [] {
      return Found(doc);
    }
    r := WalkTokens(doc, Split(p[1..], SLASH));
  }

  lemma EmptyWalk(doc: Json)
    ensures Walk(doc, []) == Found(doc)
  {
  }

  // ----- paths and their pointers --------------------------------------------

  /** One step into a document. */
  datatype Step = Key(name: Bytes) | Item(index: nat)

  /** The sub-document at a path, if there is one. */
  function At(doc: Json, path: seq<Step>): Option<Json>
    decreases |path|
  {
    if path == [] then Some(doc)
    else
      match path[0]
      case Key(name) => if doc.Object? && name in doc.members then At(doc.members[name], path[1..]) else None
      case Item(index) => if doc.Array? && index < |doc.items| then At(doc.items[index], path[1..]) else None
  }

  /** `~` becomes `~0` and `/` becomes `~1`. */
  function EscapeByte(b: byte): Bytes {
    if b == TILDE then [TILDE, 48] else if b == SLASH then [TILDE, 49] else [b]
  }

  function Escape(t: Bytes): Bytes {
    if t == [] then [] else EscapeByte(t[0]) + Escape(t[1..])
  }

  function TokenOf(s: Step): Bytes {
    match s
    case Key(name) => Escape(name)
    case Item(index) => Numeral(index)
  }

  /** The escaped pointer of a path. */
  function PointerOf(path: seq<Step>): Bytes {
    if path == [] then [] else [SLASH] + TokenOf(path[0]) + PointerOf(path[1..])
  }

  function TokensOf(path: seq<Step>): seq<Bytes> {
    if path == [] then [] else [TokenOf(path[0])] + TokensOf(path[1..])
  }

  lemma {:induction false} EscapeRoundTrip(t: Bytes)
    ensures DecodeToken(Escape(t)) == Some(t)
    ensures SLASH !in Escape(t)
  {
    if t != [] {
      EscapeRoundTrip(t[1..]);
      var e := Escape(t);
      if t[0] == TILDE || t[0] == SLASH {
        assert e[2..] == Escape(t[1..]);
      } else {
        assert e[1..] == Escape(t[1..]);
      }
      assert [t[0]] + t[1..] == t;
    }
  }

  lemma {:induction false} DigitsDecode(t: Bytes)
    requires AllDigits(t)
    ensures DecodeToken(t) == Some(t)
  {
    if t != [] {
      DigitsDecode(t[1..]);
      assert [t[0]] + t[1..] == t;
    }
  }

  lemma TokenReads(s: Step)
    ensures SLASH !in TokenOf(s)
    ensures s.Key? ==> DecodeToken(TokenOf(s)) == Some(s.name)
    ensures s.Item? ==> DecodeToken(TokenOf(s)) == Some(Numeral(s.index))
    ensures s.Item? && s.index < MAX_INDEXES ==> ArrayIndex(Numeral(s.index)) == Some(s.index)
  {
    match s
    case Key(name) => EscapeRoundTrip(name);
    case Item(index) => DigitsDecode(Numeral(index));
  }

  // Splitting a token off the front of what follows it.
  lemma {:induction false} SplitToken(token: Bytes, rest: Bytes)
    requires SLASH !in token && (rest == [] || rest[0] == SLASH)
    ensures Split(token + rest, SLASH) == [token] + if rest == [] then [] else Split(rest[1..], SLASH)
  {
    if token == [] {
      assert token + rest == rest;
      if rest == [] {
        assert Split(rest, SLASH) == [[]];
      }
    } else {
      SplitToken(token[1..], rest);
      var s := token + rest;
      assert s[0] == token[0] && s[1..] == token[1..] + rest;
      SplitNext(s);
      hide Split;
      assert [token[0]] + token[1..] == token;
    }
  }

  lemma SplitNext(s: Bytes)
    requires s != [] && s[0] != SLASH
    ensures var tail := Split(s[1..], SLASH); Split(s, SLASH) == [[s[0]] + tail[0]] + tail[1..]
  {
  }

  lemma {:induction false} PointerSplits(path: seq<Step>)
    ensures RawTokens(PointerOf(path)) == TokensOf(path)
    ensures PointerOf(path) == [] || Rooted(PointerOf(path))
  {
    hide Split, TokenOf, DecodeToken, ArrayIndex;
    if path != [] {
      var token, rest, p := TokenOf(path[0]), PointerOf(path[1..]), PointerOf(path);
      PointerSplits(path[1..]);
      TokenReads(path[0]);
      SplitToken(token, rest);
      assert p == [SLASH] + (token + rest);
      assert p[0] == SLASH && p[1..] == token + rest;
    }
  }

  predicate IndexesBelow(path: seq<Step>, limit: nat) {
    forall s :: s in path && s.Item? ==> s.index < limit
  }

  lemma {:induction false} WalkFollowsPath(doc: Json, path: seq<Step>)
    requires At(doc, path).Some? && IndexesBelow(path, MAX_INDEXES)
    ensures Walk(doc, TokensOf(path)) == Found(At(doc, path).value)
    decreases |path|
  {
    hide DecodeToken, ArrayIndex, TokenOf, Numeral;
    if path != [] {
      TokenReads(path[0]);
      assert path[0] in path && TokensOf(path)[1..] == TokensOf(path[1..]);
      if path[0].Key? {
        WalkFollowsPath(doc.members[path[0].name], path[1..]);
      } else {
        assert ArrayIndex(Numeral(path[0].index)) == Some(path[0].index);
        WalkFollowsPath(doc.items[path[0].index], path[1..]);
      }
    }
  }

  // ----- the limits of the adapter -------------------------------------------

  predicate PlainStep(s: Step) {
    s.Key? ==> ValidUtf8(s.name) && 0 !in s.name
  }

  lemma {:induction false} EscapeJoins(a: Bytes, b: Bytes)
    ensures Escape(a + b) == Escape(a) + Escape(b)
  {
    hide EscapeByte;
    if a == [] {
      assert a + b == b && Escape(a) == [];
      assert Escape(a) + Escape(b) == Escape(b);
    } else {
      var first, rest := EscapeByte(a[0]), a[1..];
      EscapeJoins(rest, b);
      assert (a + b)[1..] == rest + b && (a + b)[0] == a[0];
      assert Escape(a + b) == first + Escape(rest + b) && Escape(a) == first + Escape(rest);
      hide Escape;
      assert first + (Escape(rest) + Escape(b)) == first + Escape(rest) + Escape(b);
    }
  }

  lemma {:induction false} HighEscapes(t: Bytes)
    requires forall i :: 0 <= i < |t| ==> t[i] >= 128
    ensures Escape(t) == t
  {
    if t != [] {
      HighEscapes(t[1..]);
      assert [t[0]] + t[1..] == t;
    }
  }

  lemma {:induction false} EscapePlain(t: Bytes)
    requires ValidUtf8(t) && 0 !in t
    ensures ValidUtf8(Escape(t)) && 0 !in Escape(t)
  {
    if t != [] {
      var n := RuneLength(t);
      var rune := t[..n];
      EscapePlain(t[n..]);
      assert t == rune + t[n..];
      EscapeJoins(rune, t[n..]);
      RunePlain(t, n);
      Utf8Joins(Escape(rune), Escape(t[n..]));
    }
  }

  lemma RunePlain(t: Bytes, n: nat)
    requires t != [] && n == RuneLength(t) > 0 && 0 !in t
    ensures ValidUtf8(Escape(t[..n])) && 0 !in Escape(t[..n])
  {
    var rune := t[..n];
    if n == 1 {
      assert rune[1..] == [] && Escape(rune[1..]) == [];
      AsciiIsUtf8(Escape(rune));
    } else {
      HighEscapes(rune);
      assert RuneLength(rune) == n && rune[n..] == [];
    }
  }

  lemma {:induction false} PointerPlain(path: seq<Step>)
    requires forall s :: s in path ==> PlainStep(s)
    ensures ValidUtf8(PointerOf(path)) && 0 !in PointerOf(path)
    ensures |TokensOf(path)| == |path| && forall t :: t in TokensOf(path) ==> DecodeToken(t).Some?
  {
    hide ValidUtf8, DecodeToken;
    if path == [] {
      EmptyUtf8();
    } else {
      PointerPlain(path[1..]);
      var s, rest := path[0], PointerOf(path[1..]);
      assert s in path && PlainStep(s);
      TokenReads(s);
      if s.Key? {
        EscapePlain(s.name);
      } else {
        AsciiIsUtf8(Numeral(s.index));
      }
      AsciiIsUtf8([SLASH]);
      Utf8Joins([SLASH], TokenOf(s));
      Utf8Joins([SLASH] + TokenOf(s), rest);
    }
  }

  lemma EmptyUtf8()
    ensures ValidUtf8([])
  {
  }

  // ----- the theorem ---------------------------------------------------------

  /** For every document and every path in it whose keys are UTF-8 without U+0000, the escaped
    * pointer of the path, within the length and token limits, resolves to the sub-document there. */
  lemma AdapterResolves(doc: Json, path: seq<Step>)
    requires At(doc, path).Some? && forall s :: s in path ==> PlainStep(s)
    requires |PointerOf(path)| <= MAX_POINTER_BYTES && |path| <= MAX_POINTER_TOKENS && IndexesBelow(path, MAX_INDEXES)
    ensures AdapterResolve(doc, PointerOf(path)) == Found(At(doc, path).value)
  {
    hide Walk, At, PointerOf, TokensOf, RawTokens, DecodeToken, ValidUtf8, IndexesBelow;
    PointerSplits(path);
    PointerPlain(path);
    WalkFollowsPath(doc, path);
  }
}
