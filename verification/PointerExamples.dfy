/** JSON pointers in the notation of RFC 6901, and the examples of its section 5. */
module PointerExamples {
  import opened Wrappers
  import opened ByteStrings
  import opened Lexical
  import opened Pointers
  import opened EnginePointers

  /** Section 3: a tilde is written "~0", a slash "~1", and every other byte as itself. */
  lemma EscapedBytes(b: byte, rest: Bytes)
    ensures Escape([]) == []
    ensures Escape([b] + rest)
            == (if b == 126 then Ascii("~0") else if b == 47 then Ascii("~1") else [b]) + Escape(rest)
  {
    assert ([b] + rest)[1..] == rest;
    assert Ascii("~0") == [126, 48] && Ascii("~1") == [126, 49];
  }

  /** Section 3: a pointer is its tokens, each with a slash in front of it. */
  lemma PointerIsTokens(first: Step, rest: seq<Step>)
    ensures PointerOf([]) == []
    ensures PointerOf([first] + rest) == [47] + TokenOf(first) + PointerOf(rest)
    ensures first.Key? ==> TokenOf(first) == Escape(first.name)
    ensures first.Item? ==> TokenOf(first) == Numeral(first.index)
  {
    assert ([first] + rest)[1..] == rest;
  }

  /** Section 5, for one key: both implementations resolve the pointer there to the member of that
    * name. */
  lemma Member(members: map<Bytes, Json>, name: Bytes, pointer: Bytes)
    requires name in members && IsAscii(name) && 0 !in name && |name| <= 100 && pointer == [47] + Escape(name)
    ensures AdapterResolve(Object(members), pointer) == Found(members[name])
    ensures EngineResolve(Object(members), pointer) == Found(members[name])
  {
    hide Escape, At, AdapterResolve, EngineResolve, PointerOf, PlainStep, IndexesBelow, IsAscii;
    OneKey(members, name);
    EscapeSize(name);
    PointerResolves(Object(members), [Key(name)]);
  }

  lemma OneKey(members: map<Bytes, Json>, name: Bytes)
    requires name in members && IsAscii(name) && 0 !in name
    ensures var path := [Key(name)];
            && PointerOf(path) == [47] + Escape(name) && At(Object(members), path) == Some(members[name])
            && (forall s :: s in path ==> PlainStep(s)) && |path| <= MAX_POINTER_TOKENS
            && IndexesBelow(path, MAX_INDEXES) && IndexesBelow(path, ENGINE_INDEXES)
  {
    var path := [Key(name)];
    assert path[1..] == [];
    AsciiIsUtf8(name);
    hide Escape, ValidUtf8;
    assert [47] + Escape(name) + [] == [47] + Escape(name);
    assert At(members[name], []) == Some(members[name]);
  }

  lemma {:induction false} EscapeSize(t: Bytes)
    ensures |Escape(t)| <= 2 * |t|
  {
    if t != [] {
      EscapeSize(t[1..]);
    }
  }

  /** The pointers "/a~1b", "/m~0n", "/c%d" and "/ " of section 5. */
  lemma Section5(members: map<Bytes, Json>)
    requires {Ascii("a/b"), Ascii("m~n"), Ascii("c%d"), Ascii(" ")} <= members.Keys
    ensures AdapterResolve(Object(members), Ascii("/a~1b")) == EngineResolve(Object(members), Ascii("/a~1b"))
            == Found(members[Ascii("a/b")])
    ensures AdapterResolve(Object(members), Ascii("/m~0n")) == EngineResolve(Object(members), Ascii("/m~0n"))
            == Found(members[Ascii("m~n")])
    ensures AdapterResolve(Object(members), Ascii("/c%d")) == EngineResolve(Object(members), Ascii("/c%d"))
            == Found(members[Ascii("c%d")])
    ensures AdapterResolve(Object(members), Ascii("/ ")) == EngineResolve(Object(members), Ascii("/ "))
            == Found(members[Ascii(" ")])
  {
    hide AdapterResolve, EngineResolve;
    Names();
    hide Ascii, Escape;
    Member(members, Ascii("a/b"), Ascii("/a~1b"));
    Member(members, Ascii("m~n"), Ascii("/m~0n"));
    Member(members, Ascii("c%d"), Ascii("/c%d"));
    Member(members, Ascii(" "), Ascii("/ "));
  }

  lemma Names()
    ensures Ascii("/a~1b") == [47] + Escape(Ascii("a/b")) && Ascii("/m~0n") == [47] + Escape(Ascii("m~n"))
    ensures Ascii("/c%d") == [47] + Escape(Ascii("c%d")) && Ascii("/ ") == [47] + Escape(Ascii(" "))
    ensures 0 !in Ascii("a/b") && 0 !in Ascii("m~n") && 0 !in Ascii("c%d") && 0 !in Ascii(" ")
  {
    ThreeBytes(Ascii("a/b"));
    ThreeBytes(Ascii("m~n"));
    ThreeBytes(Ascii("c%d"));
    assert Ascii(" ")[1..] == [];
  }

  lemma ThreeBytes(t: Bytes)
    requires |t| == 3
    ensures Escape(t) == EscapeByte(t[0]) + EscapeByte(t[1]) + EscapeByte(t[2])
  {
    assert t[1..][1..] == t[2..] && t[2..][1..] == [];
    hide EscapeByte;
    assert Escape(t[2..]) == EscapeByte(t[2]) + Escape([]);
    assert Escape(t[1..]) == EscapeByte(t[1]) + Escape(t[2..]);
  }
}
