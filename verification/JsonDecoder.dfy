/**
 The JSON decoder of src/lua/lua-cjson/lua_cjson.c as it runs: an index that moves over
 the text and one temporary buffer that every string token is decoded into. Each method
 is proved against the functions of JsonLexis and JsonParser.
 */
module JsonDecoder {
  import opened Octets
  import opened JsonLexis
  import opened JsonSyntax
  import opened JsonParser
  import opened JsonTheorem
  import opened StringBuffer

  datatype Result = Ok(value: Value) | Throw(want: Want, found: Token) | NotUtf8

  function ResultOf(o: Outcome): Result {
    match o
    case Parsed(value, _) => Ok(value)
    case Failed(want, found) => Throw(want, found)
  }

  class Parser {
    const data: bytes
    const strict: bool
    const tmp: StrBuf
    var index: nat

    /**
     The text ends in its NUL, the index stays inside it, and the temporary buffer can
     hold as many bytes as the whole text, so that it is never reallocated.
     */
    ghost predicate Valid()
      reads this, tmp
    {
      Terminated(data) && index < |data| && tmp.Valid() && tmp.buf.Length >= |data|
    }

    ghost function Rest(): bytes
      reads this
      requires index <= |data|
    {
      data[index..]
    }

    constructor (text: bytes, strict: bool)
      ensures Valid() && fresh(tmp) && fresh(tmp.buf)
      ensures data == text + [NUL] && this.strict == strict && Rest() == data
    {
      data := text + [NUL];
      this.strict := strict;
      index := 0;
      tmp := new StrBuf(|text|);
    }

    /** decode_hex4: it stops at the first character that is no digit, so never past the NUL. */
    method DecodeHex4(at: nat) returns (code: int)
      requires Terminated(data) && at < |data|
      ensures code == if at + 4 <= |data| && IsHex4(data[at..at + 4]) then Hex4Value(data[at..at + 4]) else -1
    {
      var digit := new int[4];
      var i := 0;
      while i < 4
        invariant i <= 4 && at + i < |data|
        invariant forall k :: 0 <= k < i ==> digit[k] == HexDigitToInt(data[at + k]) && digit[k] >= 0
      {
        digit[i] := HexDigitToInt(data[at + i]);
        if digit[i] < 0 {
          assert at + 4 <= |data| ==> data[at..at + 4][i] == data[at + i];
          return -1;
        }
        assert data[at + i] != NUL;
        i := i + 1;
      }
      code := digit[0] * 0x1000 + digit[1] * 0x100 + digit[2] * 0x10 + digit[3];
    }

    /** The code point of the escape at the index and its width, or -1. */
    method ReadEscape() returns (codepoint: int, escapeLen: nat)
      requires Valid() && StartsWith(Rest(), [BACKSLASH, LOWER_U])
      ensures codepoint < 0 ==> UnicodeEscape(Rest()).Rejected?
      ensures codepoint >= 0 ==>
        escapeLen < |Rest()| && UnicodeEscape(Rest()) == Emit(CodepointToUtf8(codepoint), Rest()[escapeLen..])
      ensures (escapeLen == 6 && codepoint <= 0xFFFF) || escapeLen == 12
    {
      ghost var s := data[index..];
      assert s[2] == data[index + 2];
      codepoint := DecodeHex4(index + 2);
      assert |s| >= 6 ==> s[2..6] == data[index + 2..index + 6];
      escapeLen := 6;
      if codepoint < 0 || !IsSurrogate(codepoint) {
        return;
      }
      if HasLowBit(codepoint) {
        return -1, 6;
      }
      var low := ReadLow();
      if low < 0 {
        return -1, 6;
      }
      return PairValue(codepoint, low), 12;
    }

    /** The low surrogate that has to follow the escape at the index, or -1. */
    method ReadLow() returns (low: int)
      requires Valid() && |Rest()| >= 7
      ensures var s := Rest();
        if StartsWith(s[6..], [BACKSLASH, LOWER_U]) && |s| >= 13 && IsHex4(s[8..12]) && IsLowSurrogate(Hex4Value(s[8..12]))
        then low == Hex4Value(s[8..12]) else low == -1
    {
      ghost var s := data[index..];
      assert s[6] == data[index + 6];
      if data[index + 6] != BACKSLASH || data[index + 7] != LOWER_U {
        assert |s| >= 8 ==> s[6..][..2][0] == s[6] && s[6..][..2][1] == s[7];
        return -1;
      }
      low := DecodeHex4(index + 8);
      assert |s| >= 12 ==> s[8..12] == data[index + 8..index + 12];
      assert s[6..][..2] == [BACKSLASH, LOWER_U];
      if low < 0 || !IsLowSurrogate(low) {
        low := -1;
      }
    }

    /** json_append_unicode_escape: the bytes appended are fewer than the characters consumed. */
    method AppendUnicodeEscape() returns (ok: bool)
      requires Valid() && StartsWith(Rest(), [BACKSLASH, LOWER_U])
      requires tmp.length + |Rest()| < tmp.buf.Length
      modifies this`index, tmp`length, tmp.buf
      ensures Valid() && tmp.length + |Rest()| < tmp.buf.Length
      ensures ok ==> UnicodeEscape(old(Rest())).Decoded? && Rest() == UnicodeEscape(old(Rest())).rest
      ensures ok ==> tmp.Contents() == old(tmp.Contents()) + UnicodeEscape(old(Rest())).utf8
      ensures !ok ==> UnicodeEscape(old(Rest())).Rejected? && Rest() == old(Rest())
    {
      var codepoint, escapeLen := ReadEscape();
      if codepoint < 0 {
        return false;
      }
      var utf8 := CodepointToUtf8(codepoint);
      if utf8 == [] {
        return false;
      }
      tmp.AppendMemUnsafe(utf8);
      index := index + escapeLen;
      ok := true;
    }

    /** Stores the byte that the next `width` characters stand for. */
    method AppendSingle(c: byte, width: nat)
      requires Valid() && 1 <= width < |Rest()|
      requires tmp.length + |Rest()| < tmp.buf.Length
      modifies this`index, tmp`length, tmp.buf
      ensures Valid() && tmp.length + |Rest()| < tmp.buf.Length
      ensures Rest() == old(Rest())[width..] && tmp.Contents() == old(tmp.Contents()) + [c]
    {
      tmp.AppendCharUnsafe(c);
      index := index + width;
    }

    /** One round of the loop of json_next_string_token: an escape or a character. */
    method AppendItem() returns (ok: bool, fault: Fault, ghost v: bytes)
      requires Valid() && data[index] != QUOTE && data[index] != NUL
      requires tmp.length + |Rest()| < tmp.buf.Length
      modifies this`index, tmp`length, tmp.buf
      ensures Valid() && tmp.length + |Rest()| < tmp.buf.Length
      ensures ok ==> |Rest()| < old(|Rest()|) && tmp.Contents() == old(tmp.Contents()) + v
      ensures ok ==> ScanString(old(Rest())) == Prepend(v, ScanString(Rest()))
      ensures !ok ==> ScanString(old(Rest())) == Broken(fault, Rest())
    {
      ghost var s := Rest();
      ok, fault, v := true, InvalidEscape, [];
      if data[index] != BACKSLASH {
        v := [data[index]];
        AppendSingle(data[index], 1);
      } else {
        var ch := Unescape(data[index + 1]);
        if ch == LOWER_U {
          assert s[..2] == [BACKSLASH, LOWER_U];
          ok := AppendUnicodeEscape();
          fault := InvalidUnicode;
          v := if ok then UnicodeEscape(s).utf8 else [];
        } else if ch == NUL {
          ok := false;
        } else {
          v := [ch];
          AppendSingle(ch, 2);
        }
      }
    }

    /**
     json_next_string_token. The decoded text never needs a length check: it is always
     shorter than the characters read, and the buffer has the size of the whole text.
     */
    method NextStringToken() returns (t: Token)
      requires Valid() && data[index] == QUOTE
      modifies this`index, tmp`length, tmp.buf
      ensures Valid() && Lexed(t, Rest()) == LexString(old(Rest()))
    {
      index := index + 1;
      tmp.Reset();
      t := ScanToQuote();
      if t.Str? {
        tmp.EnsureNull();
      }
    }

    /** The loop of json_next_string_token. */
    method ScanToQuote() returns (t: Token)
      requires Valid() && index > 0 && tmp.length == 0
      modifies this`index, tmp`length, tmp.buf
      ensures Valid() && Outcome(t, ScanString(old(Rest())))
    {
      ghost var scan := ScanString(Rest());
      var ok := true;
      PrependNothing(scan);
      assert tmp.Contents() == [];
      while data[index] != QUOTE
        invariant Valid() && tmp.length + |Rest()| < tmp.buf.Length
        invariant scan == Prepend(tmp.Contents(), ScanString(Rest()))
        decreases |Rest()|
      {
        ok, t := ScanItem(scan);
        if !ok {
          return;
        }
      }
      ghost var rest := Rest();
      assert ScanString(rest) == Scanned([], rest[1..]) && tmp.Contents() + [] == tmp.Contents();
      index := index + 1;
      t := Str(tmp.buf[..tmp.length]);
    }

    /** The token and the place in the text are those of the scan. */
    ghost predicate Outcome(t: Token, scan: Scan)
      reads this
      requires index <= |data|
    {
      match scan
      case Scanned(text, rest) => t == Str(text) && Rest() == rest
      case Broken(fault, rest) => t == Error(fault) && Rest() == rest
    }

    /** One round, when what is left continues the scan. */
    method ScanItem(ghost scan: Scan) returns (ok: bool, t: Token)
      requires Valid() && data[index] != QUOTE && tmp.length + |Rest()| < tmp.buf.Length
      requires scan == Prepend(tmp.Contents(), ScanString(Rest()))
      modifies this`index, tmp`length, tmp.buf
      ensures Valid() && tmp.length + |Rest()| < tmp.buf.Length
      ensures ok ==> |Rest()| < old(|Rest()|) && scan == Prepend(tmp.Contents(), ScanString(Rest()))
      ensures !ok ==> Outcome(t, scan)
    {
      if data[index] == NUL {
        return false, Error(UnexpectedEnd);
      }
      ghost var u := tmp.Contents();
      ghost var v;
      var fault;
      ok, fault, v := AppendItem();
      t := Error(fault);
      if ok {
        PrependTwice(u, v, ScanString(Rest()));
      }
    }

    /** json_next_number_token, with strtod as the function LongestNumeral. */
    method NextNumberToken() returns (t: Token)
      requires Valid()
      modifies this`index
      ensures Valid() && Lexed(t, Rest()) == LexNumber(old(Rest()))
    {
      var start := data[index..];
      var n := LongestNumeral(start);
      assert |LexNumber(start).rest| > 0;
      if n == 0 {
        t := Error(InvalidNumber);
      } else {
        t := Number(NumberOf(start[..n]));
        index := index + n;
      }
    }

    method SkipBlanks()
      requires Valid()
      modifies this`index
      ensures Valid() && Lex(old(Rest()), strict) == LexAt(Rest(), strict)
    {
      while IsBlank(data[index])
        invariant Valid() && Lex(old(Rest()), strict) == Lex(Rest(), strict)
        decreases |Rest()|
      {
        index := index + 1;
      }
    }

    /** json_next_token */
    method NextToken() returns (t: Token)
      requires Valid()
      modifies this`index, tmp`length, tmp.buf
      ensures Valid() && Lexed(t, Rest()) == Lex(old(Rest()), strict)
    {
      SkipBlanks();
      var kind := Ch2Token(data[index]);
      match kind {
        case Invalid => t := Error(InvalidToken);
        case EndOfText => t := End;
        case Single(token) =>
          index := index + 1;
          t := token;
        case Unknown => t := NextUnknownToken();
      }
    }

    method NextUnknownToken() returns (t: Token)
      requires Valid()
      modifies this`index, tmp`length, tmp.buf
      ensures Valid() && Lexed(t, Rest()) == LexUnknown(old(Rest()), strict)
    {
      if data[index] == QUOTE {
        t := NextStringToken();
      } else {
        t := NextWordToken();
      }
    }

    method NextWordToken() returns (t: Token)
      requires Valid()
      modifies this`index
      ensures Valid() && Lexed(t, Rest()) == LexWord(old(Rest()), strict)
    {
      var ch := data[index];
      if ch == MINUS || IsDigit(ch) {
        if strict && IsInvalidNumber(data[index..]) {
          return Error(InvalidNumber);
        }
        t := NextNumberToken();
      } else if StartsWith(data[index..], TRUE) {
        index := index + 4;
        t := Boolean(true);
      } else if StartsWith(data[index..], FALSE) {
        index := index + 5;
        t := Boolean(false);
      } else if StartsWith(data[index..], NULL) {
        index := index + 4;
        t := Null;
      } else if !strict && IsInvalidNumber(data[index..]) {
        t := NextNumberToken();
      } else {
        t := Error(InvalidToken);
      }
    }

    // ----- The recursive descent -----

    /** What a method returns and leaves to be read is what the function computes. */
    ghost predicate Agrees(r: Result, o: Outcome)
      reads this
      requires index <= |data|
    {
      r == ResultOf(o) && (o.Parsed? ==> Rest() == o.rest)
    }

    /** json_process_value; s is the text from before its token. */
    method ProcessValue(token: Token, ghost s: bytes) returns (r: Result)
      requires Valid() && Terminated(s) && Lex(s, strict) == Lexed(token, Rest())
      modifies this`index, tmp`length, tmp.buf
      ensures Valid() && Agrees(r, ParseValue(s, strict))
      decreases |s|, 0
    {
      match token {
        case Str(text) => r := Ok(StrValue(text));
        case Number(num) => r := Ok(NumValue(num));
        case Boolean(b) => r := Ok(BoolValue(b));
        case ObjBegin => r := ParseObjectContext();
        case ArrBegin => r := ParseArrayContext();
        case Null => r := Ok(NullValue);
        case _ => r := Throw(AValue, token);
      }
    }

    /** The element i, whose first token has been read; s is the text from before that token. */
    method FetchElement(token: Token, ghost s: bytes, ghost i: int, ghost table: map<Key, Value>) returns (r: Result)
      requires Valid() && Terminated(s) && Lex(s, strict) == Lexed(token, Rest())
      modifies this`index, tmp`length, tmp.buf
      ensures Valid()
      ensures !r.Ok? ==> r == ResultOf(ParseElements(s, strict, i, table)) && ParseElements(s, strict, i, table).Failed?
      ensures r.Ok? ==> |Rest()| < |s|
      ensures r.Ok? ==>
        ParseElements(s, strict, i, table)
        == ParseElementsTail(Rest(), strict, i + 1, table[IntKey(i) := r.value])
      decreases |s|, 1
    {
      r := ProcessValue(token, s);
    }

    /** json_parse_array_context */
    method ParseArrayContext() returns (r: Result)
      requires Valid()
      modifies this`index, tmp`length, tmp.buf
      ensures Valid() && Agrees(r, ParseArray(old(Rest()), strict))
      decreases |Rest()|, 2
    {
      var table: map<Key, Value> := map[];
      ghost var s := Rest();
      var token := NextToken();
      if token.ArrEnd? {
        return Ok(TableValue(table));
      }
      var i := 1;
      while true
        invariant Valid() && Terminated(s) && |s| <= old(|Rest()|)
        invariant Lex(s, strict) == Lexed(token, Rest())
        invariant ParseArray(old(Rest()), strict) == ParseElements(s, strict, i, table)
        decreases |s|
      {
        var v := FetchElement(token, s, i, table);
        if !v.Ok? {
          return v;
        }
        table := table[IntKey(i) := v.value];
        token := NextToken();
        if token.ArrEnd? {
          return Ok(TableValue(table));
        }
        if !token.Comma? {
          return Throw(ACommaOrArrayEnd, token);
        }
        s := Rest();
        token := NextToken();
        i := i + 1;
      }
    }

    /** The colon and the value of a member whose name has been read. */
    method FetchMember(key: bytes, ghost table: map<Key, Value>) returns (r: Result)
      requires Valid()
      modifies this`index, tmp`length, tmp.buf
      ensures Valid()
      ensures !r.Ok? ==> r == ResultOf(ParseColon(key, old(Rest()), strict, table))
      ensures r.Ok? ==> |Rest()| < old(|Rest()|)
      ensures r.Ok? ==>
        ParseColon(key, old(Rest()), strict, table)
        == ParseMembersTail(Rest(), strict, table[StrKey(key) := r.value])
      decreases |Rest()|, 1
    {
      var token := NextToken();
      if !token.Colon? {
        return Throw(AColon, token);
      }
      ghost var value := Rest();
      token := NextToken();
      r := ProcessValue(token, value);
    }

    /** json_parse_object_context */
    method ParseObjectContext() returns (r: Result)
      requires Valid()
      modifies this`index, tmp`length, tmp.buf
      ensures Valid() && Agrees(r, ParseObject(old(Rest()), strict))
      decreases |Rest()|, 2
    {
      var table: map<Key, Value> := map[];
      ghost var s := Rest();
      var token := NextToken();
      if token.ObjEnd? {
        return Ok(TableValue(table));
      }
      while true
        invariant Valid() && Terminated(s) && |s| <= old(|Rest()|)
        invariant Lex(s, strict) == Lexed(token, Rest())
        invariant ParseObject(old(Rest()), strict) == ParseMembers(s, strict, table)
        decreases |s|
      {
        if !token.Str? {
          return Throw(AKey, token);
        }
        var v := FetchMember(token.text, table);
        if !v.Ok? {
          return v;
        }
        table := table[StrKey(token.text) := v.value];
        token := NextToken();
        if token.ObjEnd? {
          return Ok(TableValue(table));
        }
        if !token.Comma? {
          return Throw(ACommaOrObjectEnd, token);
        }
        s := Rest();
        token := NextToken();
      }
    }

    /** The value and, after it, the end of the text. */
    method ParseToEnd() returns (r: Result)
      requires Valid()
      modifies this`index, tmp`length, tmp.buf
      ensures r == ResultOf(ParseDocument(old(Rest()), strict))
    {
      ghost var s := Rest();
      var token := NextToken();
      r := ProcessValue(token, s);
      if r.Ok? {
        token := NextToken();
        if !token.End? {
          r := Throw(TheEnd, token);
        }
      }
    }
  }

  lemma PrependNothing(x: Scan)
    ensures Prepend([], x) == x
  {
    if x.Scanned? {
      assert [] + x.text == x.text;
    }
  }

  lemma PrependTwice(u: bytes, v: bytes, r: Scan)
    ensures Prepend(u, Prepend(v, r)) == Prepend(u + v, r)
  {
    if r.Scanned? {
      Assoc(u, v, r.text);
    }
  }

  /** lua_json_decode */
  method Decode(text: bytes, strict: bool) returns (r: Result)
    ensures r == ResultOf(ParseDocument(text + [NUL], strict))
  {
    var json := new Parser(text, strict);
    r := json.ParseToEnd();
  }

  /** json_decode */
  method JsonDecode(text: bytes, strict: bool) returns (r: Result)
    ensures r == NotUtf8 <==> |text| >= 2 && 0 in text[..2]
    ensures r != NotUtf8 ==> r == ResultOf(ParseDocument(text + [NUL], strict))
  {
    if |text| >= 2 && (text[0] == NUL || text[1] == NUL) {
      return NotUtf8;
    }
    r := Decode(text, strict);
  }
}
