/**
 The lexical level of the JSON decoder of src/lua/lua-cjson/lua_cjson.c: characters,
 numerals, the string escapes with their UTF-16 pairs, and the tokens.

 All functions here read a NUL-terminated text given as the bytes that are left,
 the terminator included; `rest` is what is left after them.
 */
module JsonLexis {
  import opened Octets

  const NUL: byte := 0
  const TAB: byte := 0x09
  const LF: byte := 0x0A
  const CR: byte := 0x0D
  const SPACE: byte := 0x20
  const QUOTE: byte := 0x22
  const LPAREN: byte := 0x28
  const RPAREN: byte := 0x29
  const PLUS: byte := 0x2B
  const COMMA: byte := 0x2C
  const MINUS: byte := 0x2D
  const DOT: byte := 0x2E
  const SLASH: byte := 0x2F
  const DIGIT_0: byte := 0x30
  const DIGIT_9: byte := 0x39
  const COLON: byte := 0x3A
  const LBRACKET: byte := 0x5B
  const BACKSLASH: byte := 0x5C
  const RBRACKET: byte := 0x5D
  const LBRACE: byte := 0x7B
  const RBRACE: byte := 0x7D
  const LOWER_F: byte := 0x66
  const LOWER_I: byte := 0x69
  const UPPER_I: byte := 0x49
  const LOWER_N: byte := 0x6E
  const UPPER_N: byte := 0x4E
  const LOWER_T: byte := 0x74
  const LOWER_U: byte := 0x75

  const TRUE: bytes := [0x74, 0x72, 0x75, 0x65]
  const FALSE: bytes := [0x66, 0x61, 0x6C, 0x73, 0x65]
  const NULL: bytes := [0x6E, 0x75, 0x6C, 0x6C]

  /** The text left to read ends in the terminator (an earlier NUL ends it too). */
  ghost predicate Terminated(s: bytes) {
    |s| > 0 && s[|s| - 1] == NUL
  }

  predicate StartsWith(s: bytes, p: bytes) {
    |p| <= |s| && s[..|p|] == p
  }

  predicate IsBlank(c: byte) {
    c == SPACE || c == TAB || c == LF || c == CR
  }

  predicate IsDigit(c: byte) {
    DIGIT_0 <= c <= DIGIT_9
  }

  // ----- Numerals: the subject sequences of strtod, section 7.20.1.3 of ISO C99 -----

  predicate AllDigits(u: bytes) {
    forall i :: 0 <= i < |u| ==> IsDigit(u[i])
  }

  predicate IsHexDigit(c: byte) {
    IsDigit(c) || 0x41 <= c <= 0x46 || 0x61 <= c <= 0x66
  }

  predicate AllHexDigits(u: bytes) {
    forall i :: 0 <= i < |u| ==> IsHexDigit(u[i])
  }

  /** ASCII letters, digits and the underscore, as in the argument of nan(...). */
  predicate IsWordChar(c: byte) {
    IsDigit(c) || 0x41 <= c <= 0x5A || 0x61 <= c <= 0x7A || c == 0x5F
  }

  function Lower(c: byte): byte {
    if 0x41 <= c <= 0x5A then c + 0x20 else c
  }

  predicate EqualIgnoringCase(u: bytes, w: bytes) {
    |u| == |w| && forall i :: 0 <= i < |u| ==> Lower(u[i]) == w[i]
  }

  const INF: bytes := [0x69, 0x6E, 0x66]
  const INFINITY: bytes := [0x69, 0x6E, 0x66, 0x69, 0x6E, 0x69, 0x74, 0x79]
  const NAN: bytes := [0x6E, 0x61, 0x6E]

  function Unsigned(u: bytes): bytes {
    if u != [] && (u[0] == PLUS || u[0] == MINUS) then u[1..] else u
  }

  /** Digits around an optional point, at least one digit in all. */
  predicate IsMantissa(u: bytes) {
    exists j | 0 <= j <= |u| ::
      && AllDigits(u[..j])
      && if j == |u| then j > 0 else u[j] == DOT && AllDigits(u[j + 1..]) && |u| > 1
  }

  predicate IsHexMantissa(u: bytes) {
    exists j | 0 <= j <= |u| ::
      && AllHexDigits(u[..j])
      && if j == |u| then j > 0 else u[j] == DOT && AllHexDigits(u[j + 1..]) && |u| > 1
  }

  predicate IsExponent(u: bytes, mark: byte) {
    u == [] || (Lower(u[0]) == mark && Unsigned(u[1..]) != [] && AllDigits(Unsigned(u[1..])))
  }

  predicate IsDecimal(u: bytes) {
    exists k | 0 <= k <= |u| :: IsMantissa(u[..k]) && IsExponent(u[k..], 0x65)
  }

  predicate IsHexFloat(u: bytes) {
    && |u| > 2 && u[0] == DIGIT_0 && Lower(u[1]) == 0x78
    && exists k | 2 <= k <= |u| :: IsHexMantissa(u[2..k]) && IsExponent(u[k..], 0x70)
  }

  predicate IsNaN(u: bytes) {
    && |u| >= 3 && EqualIgnoringCase(u[..3], NAN)
    && (|u| > 3 ==>
          && |u| >= 5 && u[3] == LPAREN && u[|u| - 1] == RPAREN
          && forall i :: 4 <= i < |u| - 1 ==> IsWordChar(u[i]))
  }

  predicate IsNumeral(x: bytes) {
    var u := Unsigned(x);
    IsDecimal(u) || IsHexFloat(u) || EqualIgnoringCase(u, INF) || EqualIgnoringCase(u, INFINITY) || IsNaN(u)
  }

  predicate IsNumeralChar(c: byte) {
    IsWordChar(c) || c == PLUS || c == MINUS || c == DOT || c == LPAREN || c == RPAREN
  }

  /** The length of the longest prefix, of length at most k, in a language; 0 when there is none. */
  function LongestPrefix(s: bytes, k: nat, language: bytes -> bool): (n: nat)
    requires k <= |s|
    ensures n <= k
  {
    if k == 0 || language(s[..k]) then k else LongestPrefix(s, k - 1, language)
  }

  /** The result is in the language, and no longer prefix is. */
  lemma {:induction false} LongestPrefixIsLongest(s: bytes, k: nat, language: bytes -> bool, j: nat)
    requires 0 < j <= k <= |s| && LongestPrefix(s, k, language) <= j
    ensures language(s[..j]) <==> j == LongestPrefix(s, k, language)
  {
    if j < k && !language(s[..k]) {
      LongestPrefixIsLongest(s, k - 1, language, j);
    }
  }

  /** strtod consumes the longest prefix that is a numeral; 0 stands for no conversion. */
  function LongestNumeral(s: bytes): (n: nat)
    ensures n <= |s|
  {
    LongestPrefix(s, |s|, IsNumeral)
  }

  lemma LongestNumeralIsLongest(s: bytes, j: nat)
    requires 0 < j <= |s| && LongestNumeral(s) <= j
    ensures IsNumeral(s[..j]) <==> j == LongestNumeral(s)
  {
    LongestPrefixIsLongest(s, |s|, IsNumeral, j);
  }

  lemma NumeralAlphabet(x: bytes)
    requires IsNumeral(x)
    ensures x != []
    ensures forall i :: 0 <= i < |x| ==> IsNumeralChar(x[i])
  {
    var u := Unsigned(x);
    UnsignedAlphabet(u);
    assert x == u || x == [x[0]] + u;
  }

  lemma UnsignedAlphabet(u: bytes)
    requires IsDecimal(u) || IsHexFloat(u) || EqualIgnoringCase(u, INF) || EqualIgnoringCase(u, INFINITY) || IsNaN(u)
    ensures u != []
    ensures forall i :: 0 <= i < |u| ==> IsNumeralChar(u[i])
  {
    if IsDecimal(u) {
      DecimalAlphabet(u);
    } else if IsHexFloat(u) {
      HexFloatAlphabet(u);
    } else if IsNaN(u) {
      var w := u[..3];
      assert forall i :: 0 <= i < 3 ==> IsNumeralChar(w[i]) && u[i] == w[i];
    }
  }

  lemma DecimalAlphabet(u: bytes)
    requires IsDecimal(u)
    ensures u != []
    ensures forall i :: 0 <= i < |u| ==> IsNumeralChar(u[i])
  {
    var k :| 0 <= k <= |u| && IsMantissa(u[..k]) && IsExponent(u[k..], 0x65);
    MantissaAlphabet(u[..k]);
    ExponentAlphabet(u[k..], 0x65);
    assert u == u[..k] + u[k..];
  }

  lemma HexFloatAlphabet(u: bytes)
    requires IsHexFloat(u)
    ensures u != []
    ensures forall i :: 0 <= i < |u| ==> IsNumeralChar(u[i])
  {
    var k :| 2 <= k <= |u| && IsHexMantissa(u[2..k]) && IsExponent(u[k..], 0x70);
    HexMantissaAlphabet(u[2..k]);
    ExponentAlphabet(u[k..], 0x70);
    HexFloatParts(u, k);
  }

  lemma HexFloatParts(u: bytes, k: nat)
    requires 2 <= k <= |u| && u[0] == DIGIT_0 && Lower(u[1]) == 0x78
    requires forall i :: 0 <= i < k - 2 ==> IsNumeralChar(u[2..k][i])
    requires forall i :: 0 <= i < |u| - k ==> IsNumeralChar(u[k..][i])
    ensures forall i :: 0 <= i < |u| ==> IsNumeralChar(u[i])
  {
    forall i | 0 <= i < |u| ensures IsNumeralChar(u[i]) {
      if 2 <= i < k {
        assert u[i] == u[2..k][i - 2];
      } else if k <= i {
        assert u[i] == u[k..][i - k];
      }
    }
  }

  lemma MantissaAlphabet(u: bytes)
    requires IsMantissa(u)
    ensures u != []
    ensures forall i :: 0 <= i < |u| ==> IsNumeralChar(u[i])
  {
    var j :| 0 <= j <= |u| && AllDigits(u[..j]) &&
    if j == |u| then j > 0 else u[j] == DOT && AllDigits(u[j + 1..]) && |u| > 1;
    assert u == u[..j] + (if j == |u| then [] else [u[j]] + u[j + 1..]);
  }

  lemma HexMantissaAlphabet(u: bytes)
    requires IsHexMantissa(u)
    ensures u != []
    ensures forall i :: 0 <= i < |u| ==> IsNumeralChar(u[i])
  {
    var j :| 0 <= j <= |u| && AllHexDigits(u[..j]) &&
    if j == |u| then j > 0 else u[j] == DOT && AllHexDigits(u[j + 1..]) && |u| > 1;
    assert u == u[..j] + (if j == |u| then [] else [u[j]] + u[j + 1..]);
  }

  lemma ExponentAlphabet(u: bytes, mark: byte)
    requires IsExponent(u, mark) && mark in {0x65, 0x70}
    ensures forall i :: 0 <= i < |u| ==> IsNumeralChar(u[i])
  {
    if u != [] {
      var t := u[1..];
      assert u == [u[0]] + t && (t == Unsigned(t) || t == [t[0]] + Unsigned(t));
    }
  }

  /** A numeral that is followed by something no numeral contains is read whole. */
  lemma NumeralStops(x: bytes, r: bytes)
    requires IsNumeral(x) && r != [] && !IsNumeralChar(r[0])
    ensures LongestNumeral(x + r) == |x|
  {
    var s := x + r;
    var n := LongestNumeral(s);
    NumeralAlphabet(x);
    assert s[..|x|] == x;
    if n < |x| {
      LongestNumeralIsLongest(s, |x|);
    } else if n > |x| {
      assert s[..n][|x|] == r[0];
      LongestNumeralIsLongest(s, n);
      NumeralAlphabet(s[..n]);
      assert false;
    }
  }

  // ----- The number a numeral stands for -----

  /**
   A Lua number read from a numeral: `Exact` for an integer numeral that a double holds
   exactly, and otherwise the double strtod rounds the numeral to, known by its text.
   */
  datatype Num = Exact(n: int) | Rounded(numeral: bytes)

  function DigitsValue(u: bytes): (n: nat)
    requires AllDigits(u)
  {
    if u == [] then 0
    else
      var last: int := u[|u| - 1];
      10 * DigitsValue(u[..|u| - 1]) + last - 0x30
  }

  function NumberOf(x: bytes): Num {
    var u := Unsigned(x);
    if u != [] && AllDigits(u) && DigitsValue(u) <= 0x20_0000_0000_0000 then
      var n: int := DigitsValue(u);
      Exact(if x[0] == MINUS then -n else n)
    else
      Rounded(x)
  }

  // ----- String escapes -----

  datatype Fault = InvalidToken | InvalidNumber | UnexpectedEnd | InvalidUnicode | InvalidEscape

  /** hex |= 0x20 */
  function SetBit5(c: byte): byte {
    if c / 32 % 2 == 0 then c + 32 else c
  }

  /** The value of a hexadecimal digit, -1 for any other character. */
  function HexDigitToInt(c: byte): int {
    var h := SetBit5(c);
    if IsDigit(c) then c - 0x30 else if 0x61 <= h <= 0x66 then 10 + h - 0x61 else -1
  }

  predicate IsHex4(h: bytes) {
    |h| == 4 && forall i :: 0 <= i < 4 ==> HexDigitToInt(h[i]) >= 0
  }

  function Hex4Value(h: bytes): (n: nat)
    requires IsHex4(h)
    ensures n < 0x1_0000
  {
    HexDigitToInt(h[0]) * 0x1000 + HexDigitToInt(h[1]) * 0x100 + HexDigitToInt(h[2]) * 0x10 + HexDigitToInt(h[3])
  }

  /** The table escape2char: 0 marks an invalid escape. */
  function Unescape(c: byte): byte {
    if c == QUOTE || c == BACKSLASH || c == SLASH || c == LOWER_U then c
    else if c == 0x62 then 0x08
    else if c == 0x74 then TAB
    else if c == 0x6E then LF
    else if c == 0x66 then 0x0C
    else if c == 0x72 then CR
    else NUL
  }

  function CodepointToUtf8(cp: nat): (u: bytes)
    ensures cp <= 0x1F_FFFF <==> u != []
    ensures |u| <= 4 && (cp <= 0xFFFF ==> |u| <= 3)
  {
    if cp <= 0x7F then [cp]
    else if cp <= 0x7FF then [cp / 0x40 + 0xC0, cp % 0x40 + 0x80]
    else if cp <= 0xFFFF then [cp / 0x1000 + 0xE0, cp / 0x40 % 0x40 + 0x80, cp % 0x40 + 0x80]
    else if cp <= 0x1F_FFFF then
      [cp / 0x4_0000 + 0xF0, cp / 0x1000 % 0x40 + 0x80, cp / 0x40 % 0x40 + 0x80, cp % 0x40 + 0x80]
    else []
  }

  /** (unit & 0xF800) == 0xD800 */
  predicate IsSurrogate(unit: nat) { unit / 0x800 == 0x1B }

  /** (unit & 0x400) != 0 */
  predicate HasLowBit(unit: nat) { unit / 0x400 % 2 == 1 }

  /** (unit & 0xFC00) == 0xDC00 */
  predicate IsLowSurrogate(unit: nat) { unit / 0x400 == 0x37 }

  function PairValue(hi: nat, lo: nat): nat {
    hi % 0x400 * 0x400 + lo % 0x400 + 0x1_0000
  }

  datatype Escape = Decoded(utf8: bytes, rest: bytes) | Rejected

  /** The escape \uXXXX, or the pair of them, that starts here. */
  function UnicodeEscape(s: bytes): (e: Escape)
    requires Terminated(s) && StartsWith(s, [BACKSLASH, LOWER_U])
    ensures e.Decoded? ==> Terminated(e.rest) && |e.utf8| + |e.rest| < |s|
  {
    if |s| < 7 || !IsHex4(s[2..6]) then Rejected
    else
      var unit := Hex4Value(s[2..6]);
      if IsSurrogate(unit) then
        if HasLowBit(unit) || !StartsWith(s[6..], [BACKSLASH, LOWER_U]) || |s| < 13 || !IsHex4(s[8..12]) then Rejected
        else
          var low := Hex4Value(s[8..12]);
          if !IsLowSurrogate(low) then Rejected
          else Emit(CodepointToUtf8(PairValue(unit, low)), s[12..])
      else Emit(CodepointToUtf8(unit), s[6..])
  }

  function Emit(utf8: bytes, rest: bytes): Escape {
    if utf8 == [] then Rejected else Decoded(utf8, rest)
  }

  datatype Scan = Scanned(text: bytes, rest: bytes) | Broken(fault: Fault, rest: bytes)

  function Prepend(u: bytes, r: Scan): Scan {
    if r.Scanned? then r.(text := u + r.text) else r
  }

  /**
   The string literal whose opening quote has been read. The decoded text, which the
   decoder stores without any check, is shorter than what is consumed.
   */
  function ScanString(s: bytes): (r: Scan)
    requires Terminated(s)
    ensures Terminated(r.rest) && |r.rest| <= |s|
    ensures r.Scanned? ==> |r.text| + |r.rest| < |s|
  {
    if s[0] == QUOTE then Scanned([], s[1..])
    else if s[0] == NUL then Broken(UnexpectedEnd, s)
    else if s[0] == BACKSLASH then
      var c := Unescape(s[1]);
      if c == LOWER_U then
        match UnicodeEscape(s)
        case Decoded(utf8, rest) => Prepend(utf8, ScanString(rest))
        case Rejected => Broken(InvalidUnicode, s)
      else if c == NUL then Broken(InvalidEscape, s)
      else Prepend([c], ScanString(s[2..]))
    else Prepend([s[0]], ScanString(s[1..]))
  }

  // ----- Tokens -----

  datatype Token =
    | ObjBegin | ObjEnd | ArrBegin | ArrEnd
    | Str(text: bytes) | Number(num: Num) | Boolean(b: bool) | Null
    | Colon | Comma | End
    | Error(fault: Fault)

  datatype Lexed = Lexed(token: Token, rest: bytes)

  /** The characters that start a string, a number or a word. */
  predicate NeedsProcessing(c: byte) {
    || IsDigit(c) || c == QUOTE || c == PLUS || c == MINUS
    || c == LOWER_F || c == LOWER_I || c == UPPER_I || c == LOWER_N || c == UPPER_N || c == LOWER_T
  }

  predicate StartsWithIgnoringCase(s: bytes, w: bytes) {
    |w| <= |s| && EqualIgnoringCase(s[..|w|], w)
  }

  /** json_is_invalid_number: numerals that strtod reads but JSON does not have. */
  predicate IsInvalidNumber(s: bytes)
    requires Terminated(s)
  {
    var t := if s[0] == MINUS then s[1..] else s;
    if s[0] == PLUS then true
    else if t[0] == DIGIT_0 then SetBit5(t[1]) == 0x78 || IsDigit(t[1])
    else t[0] > DIGIT_9 && (StartsWithIgnoringCase(t, INF) || StartsWithIgnoringCase(t, NAN))
  }

  function LexNumber(s: bytes): (l: Lexed)
    requires Terminated(s)
    ensures Terminated(l.rest) && |l.rest| <= |s|
    ensures !l.token.Error? ==> l.token.Number? && |l.rest| < |s|
  {
    var n := LongestNumeral(s);
    if n == 0 then Lexed(Error(InvalidNumber), s)
    else
      LongestNumeralIsLongest(s, n);
      NumeralAlphabet(s[..n]);
      assert IsNumeralChar(s[..n][n - 1]);
      Lexed(Number(NumberOf(s[..n])), s[n..])
  }

  function LexString(s: bytes): (l: Lexed)
    requires Terminated(s) && s[0] == QUOTE
    ensures Terminated(l.rest) && |l.rest| <= |s|
    ensures !l.token.Error? ==> l.token.Str? && |l.rest| < |s|
  {
    match ScanString(s[1..])
    case Scanned(text, rest) => Lexed(Str(text), rest)
    case Broken(fault, rest) => Lexed(Error(fault), rest)
  }

  predicate CarriesValue(t: Token) {
    t.Str? || t.Number? || t.Boolean? || t.Null?
  }

  /** Numbers and words; `strict` is the setting decode_refuse_badnum. */
  function LexWord(s: bytes, strict: bool): (l: Lexed)
    requires Terminated(s)
    ensures Terminated(l.rest) && |l.rest| <= |s|
    ensures !l.token.Error? ==> CarriesValue(l.token) && |l.rest| < |s|
  {
    if s[0] == MINUS || IsDigit(s[0]) then
      if strict && IsInvalidNumber(s) then Lexed(Error(InvalidNumber), s) else LexNumber(s)
    else if StartsWith(s, TRUE) then Lexed(Boolean(true), s[4..])
    else if StartsWith(s, FALSE) then Lexed(Boolean(false), s[5..])
    else if StartsWith(s, NULL) then Lexed(Null, s[4..])
    else if !strict && IsInvalidNumber(s) then LexNumber(s)
    else Lexed(Error(InvalidToken), s)
  }

  function LexUnknown(s: bytes, strict: bool): (l: Lexed)
    requires Terminated(s)
    ensures Terminated(l.rest) && |l.rest| <= |s|
    ensures !l.token.Error? ==> CarriesValue(l.token) && |l.rest| < |s|
  {
    if s[0] == QUOTE then LexString(s) else LexWord(s, strict)
  }

  function Punctuation(t: Token): bytes {
    match t
    case ObjBegin => [LBRACE]
    case ObjEnd => [RBRACE]
    case ArrBegin => [LBRACKET]
    case ArrEnd => [RBRACKET]
    case Comma => [COMMA]
    case Colon => [COLON]
    case _ => []
  }

  /** What the table ch2token says of a character that is not blank. */
  datatype CharClass = Single(token: Token) | EndOfText | Unknown | Invalid

  function Ch2Token(c: byte): (k: CharClass)
    ensures k.Single? ==> Punctuation(k.token) == [c]
  {
    if c == LBRACE then Single(ObjBegin)
    else if c == RBRACE then Single(ObjEnd)
    else if c == LBRACKET then Single(ArrBegin)
    else if c == RBRACKET then Single(ArrEnd)
    else if c == COMMA then Single(Comma)
    else if c == COLON then Single(Colon)
    else if c == NUL then EndOfText
    else if NeedsProcessing(c) then Unknown
    else Invalid
  }

  /** The token that starts at a character that is not blank. */
  function LexAt(t: bytes, strict: bool): (l: Lexed)
    requires Terminated(t)
    ensures Terminated(l.rest) && |l.rest| <= |t|
    ensures !l.token.Error? && !l.token.End? ==> |l.rest| < |t|
    ensures l.token.End? ==> l.rest == t && t[0] == NUL
  {
    match Ch2Token(t[0])
    case Single(token) => Lexed(token, t[1..])
    case EndOfText => Lexed(End, t)
    case Unknown => LexUnknown(t, strict)
    case Invalid => Lexed(Error(InvalidToken), t)
  }

  /** json_next_token */
  function Lex(s: bytes, strict: bool): (l: Lexed)
    requires Terminated(s)
    ensures Terminated(l.rest) && |l.rest| <= |s|
    ensures !l.token.Error? && !l.token.End? ==> |l.rest| < |s|
    ensures l.token.End? ==> l.rest[0] == NUL
  {
    if IsBlank(s[0]) then Lex(s[1..], strict) else LexAt(s, strict)
  }
}
