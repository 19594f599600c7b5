/**
 The decoder accepts exactly the texts that derive from the grammar, and gives each the
 value the grammar assigns to it.
 */
module JsonCorrect {
  import opened Octets
  import opened JsonLexis
  import opened JsonSyntax
  import opened JsonParser
  import opened JsonTokens

  // ----- Completeness: the text of a tree is parsed to its value -----

  lemma {:induction false} ValueRead(j: Json, ws: bytes, r: bytes, strict: bool)
    requires Wf(j, strict) && White(ws) && Closed(r)
    ensures ParseValue(ws + Text(j) + r, strict) == Parsed(Denote(j, strict), r)
    decreases j, 1
  {
    if IsLiteral(j) {
      LiteralValueRead(j, ws, r, strict);
    } else if j.EmptyArray? || j.Array? {
      ArrayRead(j, ws, r, strict);
    } else {
      ObjectRead(j, ws, r, strict);
    }
  }

  lemma LiteralValueRead(j: Json, ws: bytes, r: bytes, strict: bool)
    requires IsLiteral(j) && Wf(j, strict) && White(ws) && Closed(r)
    ensures ParseValue(ws + Text(j) + r, strict) == Parsed(Denote(j, strict), r)
  {
    LiteralLexed(ws, j, r, strict);
    TokenParsed(ws + Text(j) + r, j, r, strict);
  }

  lemma TokenParsed(s: bytes, j: Json, r: bytes, strict: bool)
    requires IsLiteral(j) && Wf(j, strict) && Terminated(s) && Terminated(r)
    requires Wf(j, false) && Lex(s, strict) == Lexed(TokenOf(j), r)
    ensures ParseValue(s, strict) == Parsed(Denote(j, strict), r)
  {
    match j {
      case NullLit => assert TokenOf(j) == Null;
      case BoolLit(b) => assert TokenOf(j) == Boolean(b);
      case NumLit(numeral) => assert TokenOf(j) == Number(NumberOf(numeral));
      case StrLit(items) => assert TokenOf(j) == Str(StrBytes(items));
    }
  }

  lemma {:induction false} ArrayRead(j: Json, ws: bytes, r: bytes, strict: bool)
    requires j.EmptyArray? || j.Array?
    requires Wf(j, strict) && White(ws) && Terminated(r)
    ensures ParseValue(ws + Text(j) + r, strict) == Parsed(Denote(j, strict), r)
    decreases j, 0
  {
    if j.Array? {
      OpeningLexed(ws, ArrBegin, ElementsText(j.elements), r, strict);
      ElementsRead(j.elements, 1, map[], r, strict);
      NotEmpty(ElementsText(j.elements) + r, strict);
    } else {
      OpeningLexed(ws, ArrBegin, j.ws + [RBRACKET], r, strict);
      Assoc([LBRACKET], j.ws, [RBRACKET]);
      PunctuationLexed(j.ws, ArrEnd, r, strict);
    }
  }

  lemma {:induction false} ObjectRead(j: Json, ws: bytes, r: bytes, strict: bool)
    requires j.EmptyObject? || j.Object?
    requires Wf(j, strict) && White(ws) && Terminated(r)
    ensures ParseValue(ws + Text(j) + r, strict) == Parsed(Denote(j, strict), r)
    decreases j, 0
  {
    if j.Object? {
      OpeningLexed(ws, ObjBegin, MembersText(j.members), r, strict);
      MembersRead(j.members, map[], r, strict);
      NotEmpty(MembersText(j.members) + r, strict);
    } else {
      OpeningLexed(ws, ObjBegin, j.ws + [RBRACE], r, strict);
      Assoc([LBRACE], j.ws, [RBRACE]);
      PunctuationLexed(j.ws, ObjEnd, r, strict);
    }
  }

  lemma OpeningLexed(ws: bytes, t: Token, body: bytes, r: bytes, strict: bool)
    requires White(ws) && Punctuation(t) != [] && Terminated(r)
    ensures Lex(ws + (Punctuation(t) + body) + r, strict) == Lexed(t, body + r)
  {
    PunctuationLexed(ws, t, body + r, strict);
    Assoc(ws, Punctuation(t), body);
    Assoc(ws + Punctuation(t), body, r);
  }

  lemma {:induction false} ElementsRead(e: Elements, i: int, t: map<Key, Value>, r: bytes, strict: bool)
    requires WfElements(e, strict) && Terminated(r)
    ensures ParseElements(ElementsText(e) + r, strict, i, t)
         == Parsed(TableValue(DenoteElements(e, strict, i, t)), r)
    decreases e
  {
    var tail := ElementsTailText(e.tail) + r;
    ElementsTailClosed(e.tail, r, strict);
    ValueRead(e.value, e.before, tail, strict);
    ElementsTailRead(e.tail, i + 1, t[IntKey(i) := Denote(e.value, strict)], r, strict);
    Assoc(e.before + Text(e.value), ElementsTailText(e.tail), r);
  }

  lemma ElementsTailClosed(e: ElementsTail, r: bytes, strict: bool)
    requires WfElementsTail(e, strict) && Terminated(r)
    ensures Closed(ElementsTailText(e) + r)
  {
    assert (ElementsTailText(e) + r)[0] == if e.ws != [] then e.ws[0] else if e.CloseArray? then RBRACKET else COMMA;
  }

  lemma {:induction false} ElementsTailRead(e: ElementsTail, i: int, t: map<Key, Value>, r: bytes, strict: bool)
    requires WfElementsTail(e, strict) && Terminated(r)
    ensures ParseElementsTail(ElementsTailText(e) + r, strict, i, t)
         == Parsed(TableValue(DenoteElementsTail(e, strict, i, t)), r)
    decreases e
  {
    if e.CloseArray? {
      PunctuationLexed(e.ws, ArrEnd, r, strict);
    } else {
      PunctuationLexed(e.ws, Comma, ElementsText(e.elements) + r, strict);
      ElementsRead(e.elements, i, t, r, strict);
      Assoc(e.ws + [COMMA], ElementsText(e.elements), r);
    }
  }

  lemma NotEmpty(s: bytes, strict: bool)
    requires Terminated(s)
    ensures ParseElements(s, strict, 1, map[]).Parsed? ==> ParseArray(s, strict) == ParseElements(s, strict, 1, map[])
    ensures ParseMembers(s, strict, map[]).Parsed? ==> ParseObject(s, strict) == ParseMembers(s, strict, map[])
  {
  }

  lemma {:induction false} MembersRead(m: Members, t: map<Key, Value>, r: bytes, strict: bool)
    requires WfMembers(m, strict) && Terminated(r)
    ensures ParseMembers(MembersText(m) + r, strict, t) == Parsed(TableValue(DenoteMembers(m, strict, t)), r)
    decreases m, 1
  {
    var value := m.pre + Text(m.value) + MembersTailText(m.tail);
    var colon := m.mid + [COLON] + value;
    Assoc(m.before + Quoted(m.key), colon, r);
    Assoc(m.mid + [COLON], value, r);
    assert Closed(colon + r) by {
      assert (colon + r)[0] == if m.mid != [] then m.mid[0] else COLON;
    }
    LiteralLexed(m.before, StrLit(m.key), colon + r, strict);
    ColonRead(StrBytes(m.key), m.mid, value + r, t, strict);
    MemberRead(m, t, r, strict);
  }

  lemma ColonRead(key: bytes, mid: bytes, r: bytes, t: map<Key, Value>, strict: bool)
    requires White(mid) && Terminated(r)
    ensures ParseColon(key, mid + [COLON] + r, strict, t) == ParseMember(key, r, strict, t)
  {
    PunctuationLexed(mid, Colon, r, strict);
  }

  lemma {:induction false} MemberRead(m: Members, t: map<Key, Value>, r: bytes, strict: bool)
    requires WfMembers(m, strict) && Terminated(r)
    ensures ParseMember(StrBytes(m.key), m.pre + Text(m.value) + MembersTailText(m.tail) + r, strict, t)
         == Parsed(TableValue(DenoteMembers(m, strict, t)), r)
    decreases m, 0
  {
    var tail := MembersTailText(m.tail) + r;
    MembersTailClosed(m.tail, r, strict);
    ValueRead(m.value, m.pre, tail, strict);
    MembersTailRead(m.tail, t[StrKey(StrBytes(m.key)) := Denote(m.value, strict)], r, strict);
    Assoc(m.pre + Text(m.value), MembersTailText(m.tail), r);
  }

  lemma MembersTailClosed(m: MembersTail, r: bytes, strict: bool)
    requires WfMembersTail(m, strict) && Terminated(r)
    ensures Closed(MembersTailText(m) + r)
  {
    assert (MembersTailText(m) + r)[0] == if m.ws != [] then m.ws[0] else if m.CloseObject? then RBRACE else COMMA;
  }

  lemma {:induction false} MembersTailRead(m: MembersTail, t: map<Key, Value>, r: bytes, strict: bool)
    requires WfMembersTail(m, strict) && Terminated(r)
    ensures ParseMembersTail(MembersTailText(m) + r, strict, t)
         == Parsed(TableValue(DenoteMembersTail(m, strict, t)), r)
    decreases m
  {
    if m.CloseObject? {
      PunctuationLexed(m.ws, ObjEnd, r, strict);
    } else {
      PunctuationLexed(m.ws, Comma, MembersText(m.members) + r, strict);
      MembersRead(m.members, t, r, strict);
      Assoc(m.ws + [COMMA], MembersText(m.members), r);
    }
  }

  // ----- Soundness: what is parsed is the text of a tree with that value -----

  lemma {:induction false} ValueFound(s: bytes, strict: bool) returns (ws: bytes, j: Json)
    requires Terminated(s) && ParseValue(s, strict).Parsed?
    ensures White(ws) && Wf(j, strict)
    ensures s == ws + Text(j) + ParseValue(s, strict).rest
    ensures ParseValue(s, strict).value == Denote(j, strict)
    decreases |s|, 0
  {
    var l := Lex(s, strict);
    if CarriesValue(l.token) {
      ws, j := LiteralFound(s, strict);
    } else {
      ws := PunctuationFound(s, strict);
      var body: bytes;
      if l.token.ArrBegin? {
        j, body := ArrayFound(l.rest, strict);
      } else {
        j, body := ObjectFound(l.rest, strict);
      }
      Assoc(ws, Punctuation(l.token), body);
      Assoc(ws + Punctuation(l.token), body, ParseValue(s, strict).rest);
    }
  }

  lemma {:induction false} ArrayFound(s: bytes, strict: bool) returns (j: Json, body: bytes)
    requires Terminated(s) && ParseArray(s, strict).Parsed?
    ensures Wf(j, strict) && Text(j) == [LBRACKET] + body
    ensures s == body + ParseArray(s, strict).rest
    ensures ParseArray(s, strict).value == Denote(j, strict)
    decreases |s|, 2
  {
    if Lex(s, strict).token.ArrEnd? {
      var ws := PunctuationFound(s, strict);
      j := EmptyArray(ws);
      body := ws + [RBRACKET];
      Assoc([LBRACKET], ws, [RBRACKET]);
    } else {
      var e := ElementsFound(s, strict, 1, map[]);
      j := Array(e);
      body := ElementsText(e);
    }
  }

  lemma {:induction false} ElementsFound(s: bytes, strict: bool, i: int, t: map<Key, Value>) returns (e: Elements)
    requires Terminated(s) && ParseElements(s, strict, i, t).Parsed?
    ensures WfElements(e, strict)
    ensures s == ElementsText(e) + ParseElements(s, strict, i, t).rest
    ensures ParseElements(s, strict, i, t).value == TableValue(DenoteElements(e, strict, i, t))
    decreases |s|, 1
  {
    var v := ParseValue(s, strict);
    var before, j := ValueFound(s, strict);
    var tail := ElementsTailFound(v.rest, strict, i + 1, t[IntKey(i) := v.value]);
    e := Elements(before, j, tail);
    Assoc(before + Text(j), ElementsTailText(tail), ParseElements(s, strict, i, t).rest);
  }

  lemma MoreElementsText(ws: bytes, elements: Elements, r: bytes)
    ensures ElementsTailText(MoreElements(ws, elements)) + r == ws + [COMMA] + (ElementsText(elements) + r)
  {
    Assoc(ws + [COMMA], ElementsText(elements), r);
  }

  lemma {:induction false} ElementsTailFound(s: bytes, strict: bool, i: int, t: map<Key, Value>) returns (e: ElementsTail)
    requires Terminated(s) && ParseElementsTail(s, strict, i, t).Parsed?
    ensures WfElementsTail(e, strict)
    ensures s == ElementsTailText(e) + ParseElementsTail(s, strict, i, t).rest
    ensures ParseElementsTail(s, strict, i, t).value == TableValue(DenoteElementsTail(e, strict, i, t))
    decreases |s|, 0
  {
    var l := Lex(s, strict);
    var ws := PunctuationFound(s, strict);
    if l.token.ArrEnd? {
      e := CloseArray(ws);
    } else {
      assert Punctuation(l.token) == [COMMA] && ParseElementsTail(s, strict, i, t) == ParseElements(l.rest, strict, i, t);
      var elements := ElementsFound(l.rest, strict, i, t);
      e := MoreElements(ws, elements);
      MoreElementsText(ws, elements, ParseElements(l.rest, strict, i, t).rest);
    }
  }

  lemma {:induction false} ObjectFound(s: bytes, strict: bool) returns (j: Json, body: bytes)
    requires Terminated(s) && ParseObject(s, strict).Parsed?
    ensures Wf(j, strict) && Text(j) == [LBRACE] + body
    ensures s == body + ParseObject(s, strict).rest
    ensures ParseObject(s, strict).value == Denote(j, strict)
    decreases |s|, 2
  {
    if Lex(s, strict).token.ObjEnd? {
      var ws := PunctuationFound(s, strict);
      j := EmptyObject(ws);
      body := ws + [RBRACE];
      Assoc([LBRACE], ws, [RBRACE]);
    } else {
      var m := MembersFound(s, strict, map[]);
      j := Object(m);
      body := MembersText(m);
    }
  }

  lemma {:induction false} MembersFound(s: bytes, strict: bool, t: map<Key, Value>) returns (m: Members)
    requires Terminated(s) && ParseMembers(s, strict, t).Parsed?
    ensures WfMembers(m, strict)
    ensures s == MembersText(m) + ParseMembers(s, strict, t).rest
    ensures ParseMembers(s, strict, t).value == TableValue(DenoteMembers(m, strict, t))
    decreases |s|, 1
  {
    var k := Lex(s, strict);
    var r := ParseMembers(s, strict, t).rest;
    var before, key := LiteralFound(s, strict);
    m := ColonFound(before, key.items, k.rest, strict, t);
    var colon := m.mid + [COLON] + (m.pre + Text(m.value) + MembersTailText(m.tail));
    Assoc(before + Text(key), colon, r);
  }

  lemma {:induction false} ColonFound(before: bytes, key: seq<StrItem>, s: bytes, strict: bool, t: map<Key, Value>)
    returns (m: Members)
    requires White(before) && WfString(key)
    requires Terminated(s) && ParseColon(StrBytes(key), s, strict, t).Parsed?
    ensures WfMembers(m, strict) && m.before == before && m.key == key
    ensures s == m.mid + [COLON] + (m.pre + Text(m.value) + MembersTailText(m.tail))
              + ParseColon(StrBytes(key), s, strict, t).rest
    ensures ParseColon(StrBytes(key), s, strict, t).value == TableValue(DenoteMembers(m, strict, t))
    decreases |s|, 1
  {
    var c := Lex(s, strict);
    var r := ParseColon(StrBytes(key), s, strict, t).rest;
    var mid := PunctuationFound(s, strict);
    m := MemberFound(before, key, mid, c.rest, strict, t);
    Assoc(mid + [COLON], m.pre + Text(m.value) + MembersTailText(m.tail), r);
  }

  lemma {:induction false} MemberFound(before: bytes, key: seq<StrItem>, mid: bytes, s: bytes, strict: bool, t: map<Key, Value>)
    returns (m: Members)
    requires White(before) && WfString(key) && White(mid)
    requires Terminated(s) && ParseMember(StrBytes(key), s, strict, t).Parsed?
    ensures WfMembers(m, strict) && m.before == before && m.key == key && m.mid == mid
    ensures s == m.pre + Text(m.value) + MembersTailText(m.tail) + ParseMember(StrBytes(key), s, strict, t).rest
    ensures ParseMember(StrBytes(key), s, strict, t).value == TableValue(DenoteMembers(m, strict, t))
    decreases |s|, 1
  {
    var v := ParseValue(s, strict);
    var pre, j := ValueFound(s, strict);
    var tail := MembersTailFound(v.rest, strict, t[StrKey(StrBytes(key)) := v.value]);
    m := Members(before, key, mid, pre, j, tail);
    Assoc(pre + Text(j), MembersTailText(tail), ParseMember(StrBytes(key), s, strict, t).rest);
  }

  lemma MoreMembersText(ws: bytes, members: Members, r: bytes)
    ensures MembersTailText(MoreMembers(ws, members)) + r == ws + [COMMA] + (MembersText(members) + r)
  {
    Assoc(ws + [COMMA], MembersText(members), r);
  }

  lemma {:induction false} MembersTailFound(s: bytes, strict: bool, t: map<Key, Value>) returns (m: MembersTail)
    requires Terminated(s) && ParseMembersTail(s, strict, t).Parsed?
    ensures WfMembersTail(m, strict)
    ensures s == MembersTailText(m) + ParseMembersTail(s, strict, t).rest
    ensures ParseMembersTail(s, strict, t).value == TableValue(DenoteMembersTail(m, strict, t))
    decreases |s|, 0
  {
    var l := Lex(s, strict);
    var ws := PunctuationFound(s, strict);
    if l.token.ObjEnd? {
      m := CloseObject(ws);
    } else {
      assert Punctuation(l.token) == [COMMA] && ParseMembersTail(s, strict, t) == ParseMembers(l.rest, strict, t);
      var members := MembersFound(l.rest, strict, t);
      m := MoreMembers(ws, members);
      MoreMembersText(ws, members, ParseMembers(l.rest, strict, t).rest);
    }
  }
}
