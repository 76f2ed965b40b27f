/** JSON Pointer resolution in the query engine (internal/labengine/engine.go), and how it compares. */
module EnginePointers {
  // The engine resolves pointers by code of its own: it does not validate a pointer first, and
  // it leaves the digits of an index to a 31-bit number parser.

  import opened Wrappers
  import opened ByteStrings
  import opened Lexical
  import opened Pointers

  const ENGINE_INDEXES: nat := 0x8000_0000

  // ----- tokens --------------------------------------------------------------

  /** What the engine's loop makes of `raw` from `i` on, with `out` written so far. */
  function Decoding(raw: Bytes, i: nat, out: Bytes): Option<Bytes>
    decreases |raw| - i
  {
    if i >= |raw| then Some(out)
    else if raw[i] != TILDE then Decoding(raw, i + 1, out + [raw[i]])
    else if i + 1 >= |raw| then None
    else if raw[i + 1] == 48 then Decoding(raw, i + 2, out + [TILDE])
    else if raw[i + 1] == 49 then Decoding(raw, i + 2, out + [SLASH])
    else None
  }

  method DecodeRaw(raw: Bytes) returns (r: Option<Bytes>)
    ensures r == Decoding(raw, 0, [])
  {
    var out: Bytes := [];
    var i := 0;
    while i < |raw|
      invariant Decoding(raw, 0, []) == Decoding(raw, i, out)
    {
      if raw[i] != TILDE {
        out, i := out + [raw[i]], i + 1;
        continue;
      }
      if i + 1 >= |raw| {
        return None;
      }
      i := i + 1;
      match raw[i] {
        case 48 => out := out + [TILDE];
        case 49 => out := out + [SLASH];
        case _ => return None;
      }
      i := i + 1;
    }
    r := Some(out);
  }

  /** The engine decodes tokens as the adapter does. */
  lemma {:induction false} DecodingAgrees(raw: Bytes, i: nat, out: Bytes)
    requires i <= |raw|
    ensures Decoding(raw, i, out) == Prepend(out, DecodeToken(raw[i..]))
    decreases |raw| - i
  {
    if i == |raw| {
      assert out + [] == out;
    } else {
      assert raw[i..][1..] == raw[i + 1..];
      if raw[i] != TILDE {
        DecodingAgrees(raw, i + 1, out + [raw[i]]);
        PrependMore(out, raw[i], DecodeToken(raw[i + 1..]));
      } else if i + 1 < |raw| && raw[i + 1] in {48, 49} {
        var b := if raw[i + 1] == 48 then TILDE else SLASH;
        assert raw[i..][2..] == raw[i + 2..];
        DecodingAgrees(raw, i + 2, out + [b]);
        PrependMore(out, b, DecodeToken(raw[i + 2..]));
      }
    }
  }

  // ----- indexes -------------------------------------------------------------

  /** A test for a leading zero, and whatever the number parser takes. */
  function EngineIndex(token: Bytes): Option<nat> {
    if token == [] || (|token| > 1 && token[0] == 48) then None else ParsedUint(token, ENGINE_INDEXES)
  }

  /** An index is what the adapter takes it for, or is refused by the engine for its size alone. */
  lemma IndexAgrees(token: Bytes)
    ensures EngineIndex(token) ==
            if ArrayIndex(token).Some? && ArrayIndex(token).value < ENGINE_INDEXES then ArrayIndex(token) else None
  {
  }

  // ----- resolution ----------------------------------------------------------

  /** What the engine's loop makes of the tokens from `i` on, at `current`. */
  function Descend(current: Json, tokens: seq<Bytes>, i: nat): Resolution
    decreases |tokens| - i
  {
    if i >= |tokens| then Found(current)
    else
      var token := Decoding(tokens[i], 0, []);
      if token.None? then Refused
      else
        match current
        case Object(members) =>
          if token.value !in members then Missing else Descend(members[token.value], tokens, i + 1)
        case Array(items) =>
          var index := EngineIndex(token.value);
          if index.None? then Refused
          else if index.value >= |items| then Missing
          else Descend(items[index.value], tokens, i + 1)
        case _ => Missing
  }

  function EngineResolve(doc: Json, p: Bytes): Resolution {
    if p == [] then Found(doc)
    else if p[0] != SLASH then Refused
    else Descend(doc, Split(p[1..], SLASH), 0)
  }

  method ResolvePointer(doc: Json, p: Bytes) returns (r: Resolution)
    ensures r == EngineResolve(doc, p)
  {
    hide Decoding, Split;
    if p == [] {
      return Found(doc);
    }
    if p[0] != SLASH {
      return Refused;
    }
    var tokens := Split(p[1..], SLASH);
    var current := doc;
    for i := 0 to |tokens|
      invariant Descend(doc, tokens, 0) == Descend(current, tokens, i)
    {
      var token := DecodeRaw(tokens[i]);
      if token.None? {
        return Refused;
      }
      match current {
        case Object(members) =>
          if token.value !in members {
            return Missing;
          }
          current := members[token.value];
        case Array(items) =>
          if token.value == [] || (|token.value| > 1 && token.value[0] == 48) {
            return Refused;
          }
          var index := ParseUint(token.value, ENGINE_INDEXES);
          if index.None? || index.value >= |items| {
            if index.Some? {
              return Missing;
            }
            return Refused;
          }
          current := items[index.value];
        case _ =>
          return Missing;
      }
    }
    r := Found(current);
  }

  // ----- the two resolvers ---------------------------------------------------

  /** From any place on, the engine goes where the adapter goes, or refuses an index. */
  lemma {:induction false} DescentAgrees(doc: Json, tokens: seq<Bytes>, i: nat)
    requires i <= |tokens|
    ensures Descend(doc, tokens, i) == Walk(doc, tokens[i..]) || Descend(doc, tokens, i) == Refused
    decreases |tokens| - i
  {
    hide DecodeToken, Decoding, ArrayIndex, EngineIndex;
    if i < |tokens| {
      assert tokens[i..][1..] == tokens[i + 1..];
      TokenAgrees(tokens[i]);
      var token := DecodeToken(tokens[i]);
      if token.Some? {
        IndexAgrees(token.value);
        match doc
        case Object(members) =>
          if token.value in members {
            DescentAgrees(members[token.value], tokens, i + 1);
          }
        case Array(items) =>
          var index := EngineIndex(token.value);
          if index.Some? && index.value < |items| {
            DescentAgrees(items[index.value], tokens, i + 1);
          }
        case _ =>
      }
    }
  }

  lemma TokenAgrees(raw: Bytes)
    ensures Decoding(raw, 0, []) == DecodeToken(raw)
  {
    DecodingAgrees(raw, 0, []);
    assert raw[0..] == raw;
    PrependNothing(DecodeToken(raw));
  }

  /** Whenever neither implementation refuses a pointer they agree on it, on the value or on its
    * absence. */
  lemma ResolversAgree(doc: Json, p: Bytes)
    requires AdapterResolve(doc, p) != Refused && EngineResolve(doc, p) != Refused
    ensures AdapterResolve(doc, p) == EngineResolve(doc, p)
  {
    hide Walk, Descend, Split;
    EmptyWalk(doc);
    if p != [] {
      var tokens := Split(p[1..], SLASH);
      DescentAgrees(doc, tokens, 0);
      assert tokens[0..] == tokens;
    }
  }

  /** No array of the document, at any depth, is longer than the engine's indexes reach. */
  predicate SmallArrays(doc: Json) {
    match doc
    case Array(items) => |items| <= ENGINE_INDEXES && forall i :: 0 <= i < |items| ==> SmallArrays(items[i])
    case Object(members) => forall k :: k in members ==> SmallArrays(members[k])
    case _ => true
  }

  lemma {:induction false} SmallDescent(doc: Json, tokens: seq<Bytes>, i: nat)
    requires SmallArrays(doc) && i <= |tokens| && Walk(doc, tokens[i..]).Found?
    ensures Descend(doc, tokens, i) == Walk(doc, tokens[i..])
    decreases |tokens| - i
  {
    hide DecodeToken, Decoding, ArrayIndex, EngineIndex;
    if i < |tokens| {
      assert tokens[i..][1..] == tokens[i + 1..];
      TokenAgrees(tokens[i]);
      var token := DecodeToken(tokens[i]);
      IndexAgrees(token.value);
      match doc
      case Object(members) => SmallDescent(members[token.value], tokens, i + 1);
      case Array(items) => SmallDescent(items[ArrayIndex(token.value).value], tokens, i + 1);
    }
  }

  /** On documents without huge arrays the two implementations find exactly the same values,
    * apart from the pointers that the adapter does not admit. */
  lemma ResolversFindTheSame(doc: Json, p: Bytes, v: Json)
    requires SmallArrays(doc)
    ensures AdapterResolve(doc, p) == Found(v) <==> ValidPointer(p) && EngineResolve(doc, p) == Found(v)
  {
    hide Walk, Descend, Split, SmallArrays;
    EmptyWalk(doc);
    if p != [] {
      var tokens := Split(p[1..], SLASH);
      DescentAgrees(doc, tokens, 0);
      assert tokens[0..] == tokens;
      if Walk(doc, tokens).Found? {
        SmallDescent(doc, tokens, 0);
      }
    }
  }

  lemma {:induction false} DescentFollowsPath(doc: Json, path: seq<Step>, tokens: seq<Bytes>, i: nat)
    requires At(doc, path).Some? && IndexesBelow(path, ENGINE_INDEXES)
    requires i <= |tokens| && tokens[i..] == TokensOf(path)
    ensures Descend(doc, tokens, i) == Found(At(doc, path).value)
    decreases |path|
  {
    hide DecodeToken, Decoding, ArrayIndex, EngineIndex, TokenOf, Numeral;
    if path != [] {
      TokenReads(path[0]);
      TokenAgrees(tokens[i]);
      assert tokens[i] == tokens[i..][0] == TokenOf(path[0]);
      assert path[0] in path && tokens[i + 1..] == tokens[i..][1..] == TokensOf(path[1..]);
      if path[0].Key? {
        DescentFollowsPath(doc.members[path[0].name], path[1..], tokens, i + 1);
      } else {
        IndexAgrees(Numeral(path[0].index));
        DescentFollowsPath(doc.items[path[0].index], path[1..], tokens, i + 1);
      }
    }
  }

  /** For every document and every path in it, the escaped pointer of the path resolves to the
    * sub-document there: in the adapter within its length and token limits and for UTF-8 keys
    * without U+0000, in the engine for indexes below its limit. */
  lemma PointerResolves(doc: Json, path: seq<Step>)
    requires At(doc, path).Some?
    ensures (forall s :: s in path ==> PlainStep(s)) && |PointerOf(path)| <= MAX_POINTER_BYTES
            && |path| <= MAX_POINTER_TOKENS && IndexesBelow(path, MAX_INDEXES)
            ==> AdapterResolve(doc, PointerOf(path)) == Found(At(doc, path).value)
    ensures IndexesBelow(path, ENGINE_INDEXES) ==> EngineResolve(doc, PointerOf(path)) == Found(At(doc, path).value)
  {
    hide Descend, At, TokensOf, ValidUtf8, AdapterResolve, Split, PlainStep, TokenOf;
    if (forall s :: s in path ==> PlainStep(s)) && |PointerOf(path)| <= MAX_POINTER_BYTES
       && |path| <= MAX_POINTER_TOKENS && IndexesBelow(path, MAX_INDEXES) {
      AdapterResolves(doc, path);
    }
    if IndexesBelow(path, ENGINE_INDEXES) {
      PointerSplits(path);
      EmptyDescent(doc, path);
      if path != [] {
        var tokens := TokensOf(path);
        assert tokens[0..] == tokens;
        DescentFollowsPath(doc, path, tokens, 0);
      }
    }
  }

  lemma EmptyDescent(doc: Json, path: seq<Step>)
    ensures path == [] ==> At(doc, path) == Some(doc) && PointerOf(path) == []
    ensures path != [] ==> PointerOf(path) != []
  {
  }
}
