/** The lexical level of the grammar: each token is read whole, and only from its text. */
module JsonTokens {
  import opened Octets
  import opened JsonLexis
  import opened JsonSyntax

  // ----- Blanks -----

  lemma {:induction false} BlanksSkipped(ws: bytes, t: bytes, strict: bool)
    requires White(ws) && Terminated(t) && !IsBlank(t[0])
    ensures Lex(ws + t, strict) == LexAt(t, strict)
  {
    if ws == [] {
      assert ws + t == t;
    } else {
      assert (ws + t)[1..] == ws[1..] + t;
      BlanksSkipped(ws[1..], t, strict);
    }
  }

  /** A blank is skipped. */
  lemma BlankStep(s: bytes, strict: bool)
    requires Terminated(s) && IsBlank(s[0])
    ensures Terminated(s[1..]) && Lex(s, strict) == Lex(s[1..], strict) && s == [s[0]] + s[1..]
  {
  }

  lemma {:induction false} BlanksRead(s: bytes, strict: bool) returns (ws: bytes, t: bytes)
    requires Terminated(s)
    ensures White(ws) && s == ws + t
    ensures Terminated(t) && !IsBlank(t[0]) && Lex(s, strict) == LexAt(t, strict)
  {
    if IsBlank(s[0]) {
      BlankStep(s, strict);
      ws, t := BlanksRead(s[1..], strict);
      Assoc([s[0]], ws, t);
      ws := [s[0]] + ws;
    } else {
      ws, t := [], s;
    }
  }

  // ----- Strings -----

  /** The digits of the decoder are those of the grammar. */
  lemma HexAgrees(h: bytes)
    ensures IsHex4(h) <==> IsHexText(h)
    ensures IsHex4(h) ==> Hex4Value(h) == HexNumber(h)
  {
    if |h| == 4 {
      DigitAgrees(h[0]);
      DigitAgrees(h[1]);
      DigitAgrees(h[2]);
      DigitAgrees(h[3]);
    }
  }

  lemma DigitAgrees(c: byte)
    ensures HexDigitToInt(c) == HexDigitValue(c)
  {
  }

  /** The bit tests of the decoder are the ranges of surrogates. */
  lemma SurrogateAgrees(n: u16)
    ensures IsSurrogate(n) <==> IsHigh(n) || IsLow(n)
    ensures IsSurrogate(n) ==> (HasLowBit(n) <==> IsLow(n))
    ensures IsLowSurrogate(n) <==> IsLow(n)
    ensures IsHigh(n) ==> n % 0x400 == n - 0xD800
    ensures IsLow(n) ==> n % 0x400 == n - 0xDC00
  {
  }

  lemma PairAgrees(hi: u16, lo: u16)
    requires IsHigh(hi) && IsLow(lo)
    ensures PairValue(hi, lo) == PairNumber(hi, lo)
  {
    SurrogateAgrees(hi);
    SurrogateAgrees(lo);
  }

  lemma ShortAgrees(c: byte)
    ensures ShortValue(c) >= 0 <==> Unescape(c) != NUL && c != LOWER_U
    ensures ShortValue(c) >= 0 ==> Unescape(c) == ShortValue(c) && Unescape(c) != LOWER_U
    ensures Unescape(c) == LOWER_U <==> c == LOWER_U
  {
  }

  lemma EscapeRead(x: StrItem, r: bytes)
    requires WfItem(x) && (x.Unit? || x.Pair?) && Terminated(r)
    ensures UnicodeEscape(ItemText(x) + r) == Decoded(ItemBytes(x), r)
  {
    var s := ItemText(x) + r;
    if x.Unit? {
      assert s[2..6] == x.h && s[6..] == r;
      HexAgrees(x.h);
      SurrogateAgrees(HexNumber(x.h));
    } else {
      HexAgrees(x.hi);
      HexAgrees(x.lo);
      SurrogateAgrees(HexNumber(x.hi));
      SurrogateAgrees(HexNumber(x.lo));
      PairAgrees(HexNumber(x.hi), HexNumber(x.lo));
      assert s[2..6] == x.hi && s[8..12] == x.lo && s[12..] == r;
      assert s[6..][..2] == [BACKSLASH, LOWER_U];
    }
  }

  lemma EscapeWritten(s: bytes) returns (x: StrItem)
    requires Terminated(s) && StartsWith(s, [BACKSLASH, LOWER_U]) && UnicodeEscape(s).Decoded?
    ensures WfItem(x) && (x.Unit? || x.Pair?)
    ensures s == ItemText(x) + UnicodeEscape(s).rest && UnicodeEscape(s).utf8 == ItemBytes(x)
  {
    HexAgrees(s[2..6]);
    SurrogateAgrees(HexNumber(s[2..6]));
    if IsSurrogate(Hex4Value(s[2..6])) {
      x := Pair(s[2..6], s[8..12]);
      assert s[6..][..2] == s[6..8];
      HexAgrees(s[8..12]);
      SurrogateAgrees(HexNumber(s[8..12]));
      PairAgrees(HexNumber(s[2..6]), HexNumber(s[8..12]));
    } else {
      x := Unit(s[2..6]);
    }
  }

  lemma EscapeScanned(x: StrItem, t: bytes)
    requires WfItem(x) && (x.Unit? || x.Pair?) && Terminated(t)
    ensures ScanString(ItemText(x) + t) == Prepend(ItemBytes(x), ScanString(t))
  {
    var s := ItemText(x) + t;
    EscapeRead(x, t);
    assert s[0] == BACKSLASH && s[1] == LOWER_U;
  }

  lemma PlainScanned(c: byte, t: bytes)
    requires WfItem(Plain(c)) && Terminated(t)
    ensures ScanString([c] + t) == Prepend([c], ScanString(t))
  {
    assert ([c] + t)[1..] == t;
  }

  lemma ShortScanned(c: byte, t: bytes)
    requires WfItem(Short(c)) && Terminated(t)
    ensures ScanString([BACKSLASH, c] + t) == Prepend([ShortValue(c)], ScanString(t))
  {
    assert ([BACKSLASH, c] + t)[2..] == t;
    ShortAgrees(c);
  }

  /** An item is scanned to its bytes, whatever follows it. */
  lemma ItemScanned(x: StrItem, t: bytes)
    requires WfItem(x) && Terminated(t)
    ensures ScanString(ItemText(x) + t) == Prepend(ItemBytes(x), ScanString(t))
  {
    if x.Unit? || x.Pair? {
      EscapeScanned(x, t);
    } else if x.Plain? {
      PlainScanned(x.c, t);
    } else {
      ShortScanned(x.c, t);
    }
  }

  /** A string literal is read whole, with the bytes its items stand for. */
  lemma {:induction false} StringRead(items: seq<StrItem>, r: bytes)
    requires WfString(items) && Terminated(r)
    ensures ScanString(StrText(items) + [QUOTE] + r) == Scanned(StrBytes(items), r)
  {
    if items == [] {
      assert ([] + [QUOTE] + r)[1..] == r;
    } else {
      var x, others := items[0], StrText(items[1..]);
      StringRead(items[1..], r);
      ItemScanned(x, others + [QUOTE] + r);
      Assoc(ItemText(x), others, [QUOTE]);
      Assoc(ItemText(x), others + [QUOTE], r);
    }
  }

  lemma FirstItemWritten(s: bytes) returns (x: StrItem, t: bytes)
    requires Terminated(s) && ScanString(s).Scanned? && s[0] != QUOTE
    ensures WfItem(x) && s == ItemText(x) + t && Terminated(t) && |t| < |s|
    ensures ScanString(s) == Prepend(ItemBytes(x), ScanString(t))
  {
    if s[0] != BACKSLASH {
      x, t := Plain(s[0]), s[1..];
      assert s == [s[0]] + t;
    } else if Unescape(s[1]) != LOWER_U {
      x, t := ShortWritten(s);
    } else {
      ShortAgrees(s[1]);
      assert s[..2] == [BACKSLASH, LOWER_U];
      x := EscapeWritten(s);
      t := UnicodeEscape(s).rest;
    }
  }

  lemma ShortWritten(s: bytes) returns (x: StrItem, t: bytes)
    requires Terminated(s) && ScanString(s).Scanned? && s[0] == BACKSLASH && Unescape(s[1]) != LOWER_U
    ensures WfItem(x) && s == ItemText(x) + t && Terminated(t) && |t| < |s|
    ensures ScanString(s) == Prepend(ItemBytes(x), ScanString(t))
  {
    x, t := Short(s[1]), s[2..];
    assert Unescape(s[1]) != NUL;
    assert s[1] != LOWER_U by {
      ShortAgrees(s[1]);
    }
    ShortAgrees(s[1]);
    assert s == [BACKSLASH, s[1]] + t;
    ShortScanned(s[1], t);
  }

  lemma {:induction false} StringWritten(s: bytes) returns (items: seq<StrItem>)
    requires Terminated(s) && ScanString(s).Scanned?
    ensures WfString(items)
    ensures s == StrText(items) + [QUOTE] + ScanString(s).rest && ScanString(s).text == StrBytes(items)
    decreases |s|
  {
    if s[0] == QUOTE {
      items := [];
      assert s == [QUOTE] + s[1..];
    } else {
      var x, t := FirstItemWritten(s);
      var others := StringWritten(t);
      items := [x] + others;
      StringExtended(x, others, ScanString(s).rest);
    }
  }

  lemma StringExtended(x: StrItem, others: seq<StrItem>, r: bytes)
    requires WfItem(x) && WfString(others)
    ensures WfString([x] + others)
    ensures StrText([x] + others) + [QUOTE] + r == ItemText(x) + (StrText(others) + [QUOTE] + r)
    ensures StrBytes([x] + others) == ItemBytes(x) + StrBytes(others)
  {
    assert ([x] + others)[1..] == others;
  }

  // ----- Numbers -----

  /** Nothing that may follow a value continues a numeral. */
  ghost predicate Closed(r: bytes) {
    Terminated(r) && !IsNumeralChar(r[0])
  }

  lemma MantissaStart(m: bytes)
    requires IsMantissa(m) && m != []
    ensures IsDigit(m[0]) || m[0] == DOT
  {
    var j :| 0 <= j <= |m| && AllDigits(m[..j]) &&
    if j == |m| then j > 0 else m[j] == DOT && AllDigits(m[j + 1..]) && |m| > 1;
    if j > 0 {
      assert m[..j][0] == m[0];
    }
  }

  lemma UnsignedStart(u: bytes)
    requires IsDecimal(u) || IsHexFloat(u) || EqualIgnoringCase(u, INF) || EqualIgnoringCase(u, INFINITY) || IsNaN(u)
    ensures u != []
    ensures IsDigit(u[0]) || u[0] == DOT || StartsWithIgnoringCase(u, INF) || StartsWithIgnoringCase(u, NAN)
  {
    if IsDecimal(u) {
      var k :| 0 <= k <= |u| && IsMantissa(u[..k]) && IsExponent(u[k..], 0x65);
      MantissaAlphabet(u[..k]);
      MantissaStart(u[..k]);
      assert u[..k][0] == u[0];
    }
  }

  lemma NumeralStart(x: bytes)
    requires IsNumeral(x) && x[..1] != [DOT]
    ensures Unsigned(x) != [] && x != []
    ensures x[0] == PLUS || x[0] == MINUS || IsDigit(x[0]) || StartsWithIgnoringCase(x, INF) || StartsWithIgnoringCase(x, NAN)
  {
    NumeralAlphabet(x);
    UnsignedStart(Unsigned(x));
  }

  lemma PrefixIgnoringCase(u: bytes, r: bytes, w: bytes)
    requires StartsWithIgnoringCase(u, w)
    ensures StartsWithIgnoringCase(u + r, w)
  {
    assert (u + r)[..|w|] == u[..|w|];
  }

  /** What the test of strict mode looks at: the first two characters behind the minus sign. */
  lemma InvalidIs(x: bytes, u: bytes, r: bytes)
    requires (x == u || x == [MINUS] + u) && u != [] && Terminated(r)
    requires x[0] == MINUS || IsDigit(x[0])
    requires IsDigit(u[0]) || u[0] == DOT || StartsWithIgnoringCase(u, INF) || StartsWithIgnoringCase(u, NAN)
    ensures (u + r)[1] == if |u| > 1 then u[1] else r[0]
    ensures IsInvalidNumber(x + r)
       <==> u[0] > DIGIT_9 || (u[0] == DIGIT_0 && (SetBit5((u + r)[1]) == 0x78 || IsDigit((u + r)[1])))
  {
    var s := x + r;
    var t := if s[0] == MINUS then s[1..] else s;
    if x == u {
      assert u[0] != MINUS;
    }
    assert t == u + r && t[0] == u[0];
    if StartsWithIgnoringCase(u, INF) {
      PrefixIgnoringCase(u, r, INF);
    } else if StartsWithIgnoringCase(u, NAN) {
      PrefixIgnoringCase(u, r, NAN);
    }
  }

  /** Strict mode rejects exactly the numerals that the strict class leaves out. */
  lemma StrictnessRead(x: bytes, r: bytes)
    requires IsNumeral(x) && (x[0] == MINUS || IsDigit(x[0])) && Terminated(r)
    ensures !IsInvalidNumber(x + r) ==> WfNumeral(x, true)
    ensures Closed(r) && WfNumeral(x, true) ==> !IsInvalidNumber(x + r)
  {
    var u := Unsigned(x);
    UnsignedStart(u);
    InvalidIs(x, u, r);
  }

  // Section 2.4 of RFC 4627: [ minus ] int [ frac ] [ exp ]

  predicate IsInt(w: bytes) {
    w != [] && (forall i :: 0 <= i < |w| ==> 0x30 <= w[i] <= 0x39) && (w[0] == 0x30 ==> |w| == 1)
  }

  predicate IsFrac(f: bytes) {
    f == [] || (|f| >= 2 && f[0] == 0x2E && forall i :: 1 <= i < |f| ==> 0x30 <= f[i] <= 0x39)
  }

  predicate IsExp(e: bytes) {
    e == [] ||
    (|e| >= 2 && (e[0] == 0x65 || e[0] == 0x45)
     && var n := if e[1] == 0x2B || e[1] == 0x2D then 2 else 1;
        |e| > n && forall i :: n <= i < |e| ==> 0x30 <= e[i] <= 0x39)
  }

  lemma MantissaOf(w: bytes, f: bytes)
    requires IsInt(w) && IsFrac(f)
    ensures IsMantissa(w + f)
  {
    var m := w + f;
    assert m[..|w|] == w && (f != [] ==> m[|w|] == DOT && m[|w| + 1..] == f[1..]);
    assert AllDigits(m[..|w|]);
  }

  lemma ExponentOf(e: bytes)
    requires IsExp(e)
    ensures IsExponent(e, 0x65)
  {
    if e != [] {
      var t := e[1..];
      assert Unsigned(t) == if e[1] == 0x2B || e[1] == 0x2D then e[2..] else t;
    }
  }

  /** Every number of the grammar of RFC 4627 is a numeral, also in strict mode. */
  lemma RfcNumber(minus: bytes, w: bytes, f: bytes, e: bytes)
    requires (minus == [] || minus == [0x2D]) && IsInt(w) && IsFrac(f) && IsExp(e)
    ensures WfNumeral(minus + (w + f + e), true)
  {
    var u := w + f + e;
    MantissaOf(w, f);
    ExponentOf(e);
    assert u[..|w + f|] == w + f && u[|w + f|..] == e;
    assert IsDecimal(u);
    assert u[0] == w[0] && Unsigned(minus + u) == u;
    if |u| > 1 && w[0] == 0x30 {
      assert u[1] == if f != [] then f[0] else e[0];
    }
  }

  lemma {:induction false} OneMoreDigit(w: bytes, c: byte)
    requires (forall i :: 0 <= i < |w| ==> 0x30 <= w[i] <= 0x39) && 0x30 <= c <= 0x39
    ensures Decimal(w + [c]) == 10 * Decimal(w) + (c - 0x30)
  {
    if w == [] {
      assert [c][1..] == [] && Power10(0) == 1;
    } else {
      OneMoreDigit(w[1..], c);
      assert (w + [c])[1..] == w[1..] + [c] && Power10(|w|) == 10 * Power10(|w| - 1);
      var d: int, p: int := w[0] - 0x30, Power10(|w| - 1);
      assert d * (10 * p) == 10 * (d * p);
    }
  }

  lemma {:induction false} DigitsAreDecimal(w: bytes)
    requires forall i :: 0 <= i < |w| ==> 0x30 <= w[i] <= 0x39
    ensures AllDigits(w) && DigitsValue(w) == Decimal(w)
  {
    assert AllDigits(w);
    if w != [] {
      var front := w[..|w| - 1];
      DigitsAreDecimal(front);
      OneMoreDigit(front, w[|w| - 1]);
      assert w == front + [w[|w| - 1]];
    }
  }

  /** An integer of that grammar that a double holds is read as the number its digits stand for. */
  lemma RfcInteger(minus: bytes, w: bytes)
    requires (minus == [] || minus == [0x2D]) && IsInt(w) && Decimal(w) <= 0x20_0000_0000_0000
    ensures NumberOf(minus + w) == Exact((if minus == [] then 1 else -1) * Decimal(w))
  {
    DigitsAreDecimal(w);
    assert Unsigned(minus + w) == w;
  }

  lemma NumberRead(x: bytes, r: bytes)
    requires IsNumeral(x) && Closed(r)
    ensures LexNumber(x + r) == Lexed(Number(NumberOf(x)), r)
  {
    NumeralAlphabet(x);
    NumeralStops(x, r);
    assert (x + r)[..|x|] == x && (x + r)[|x|..] == r;
  }

  // ----- Words, numbers and strings -----

  predicate IsLiteral(j: Json) {
    j.NullLit? || j.BoolLit? || j.NumLit? || j.StrLit?
  }

  function TokenOf(j: Json): Token
    requires IsLiteral(j) && Wf(j, false)
  {
    match j
    case NullLit => Null
    case BoolLit(b) => Boolean(b)
    case NumLit(x) => Number(NumberOf(x))
    case StrLit(items) => Str(StrBytes(items))
  }

  lemma UnknownNumberRead(x: bytes, r: bytes, strict: bool)
    requires WfNumeral(x, strict) && Closed(r)
    ensures NeedsProcessing((x + r)[0])
    ensures (x + r)[0] != QUOTE && LexWord(x + r, strict) == LexNumber(x + r)
  {
    NumeralStart(x);
    if x[0] == MINUS || IsDigit(x[0]) {
      StrictnessRead(x, r);
    } else {
      assert !strict;
      LetterNumeralRead(x, r);
    }
  }

  lemma LetterNumeralRead(x: bytes, r: bytes)
    requires x != [] && Terminated(r)
    requires x[0] == PLUS || StartsWithIgnoringCase(x, INF) || StartsWithIgnoringCase(x, NAN)
    ensures NeedsProcessing((x + r)[0]) && IsInvalidNumber(x + r)
    ensures !StartsWith(x + r, TRUE) && !StartsWith(x + r, FALSE) && !StartsWith(x + r, NULL)
  {
    var s := x + r;
    if x[0] != PLUS {
      var w := if StartsWithIgnoringCase(x, INF) then INF else NAN;
      PrefixIgnoringCase(x, r, w);
      assert x[..3][0] == x[0] == s[0] && x[..3][1] == x[1] == s[1];
      assert s[0] != TRUE[0] && s[0] != FALSE[0] && s[1] != NULL[1];
    }
    assert forall w: bytes :: StartsWith(s, w) && |w| >= 2 ==> s[0] == s[..|w|][0] == w[0] && s[1] == s[..|w|][1] == w[1];
  }

  lemma WordRead(w: bytes, r: bytes)
    requires Terminated(r)
    ensures StartsWith(w + r, w) && (w + r)[|w|..] == r
  {
  }

  lemma WordLiteralRead(j: Json, r: bytes, strict: bool)
    requires (j.NullLit? || j.BoolLit?) && Terminated(r)
    ensures NeedsProcessing((Text(j) + r)[0]) && (Text(j) + r)[0] != QUOTE
    ensures LexWord(Text(j) + r, strict) == Lexed(TokenOf(j), r)
  {
    var s := Text(j) + r;
    WordRead(Text(j), r);
    assert s[0] == Text(j)[0];
    assert StartsWith(s, TRUE) ==> s[0] == s[..4][0] == TRUE[0];
    assert StartsWith(s, FALSE) ==> s[0] == s[..5][0] == FALSE[0];
  }

  lemma StringLiteralRead(items: seq<StrItem>, r: bytes)
    requires WfString(items) && Terminated(r)
    ensures LexString(Quoted(items) + r) == Lexed(Str(StrBytes(items)), r)
  {
    var body := StrText(items) + [QUOTE] + r;
    StringRead(items, r);
    Assoc([QUOTE], StrText(items), [QUOTE]);
    Assoc([QUOTE], StrText(items) + [QUOTE], r);
    assert Quoted(items) + r == [QUOTE] + body && ([QUOTE] + body)[1..] == body;
  }

  /** A literal is read whole, whatever closes it. */
  lemma LiteralRead(j: Json, r: bytes, strict: bool)
    requires IsLiteral(j) && Wf(j, strict) && Closed(r)
    ensures Wf(j, false) && NeedsProcessing((Text(j) + r)[0])
    ensures LexUnknown(Text(j) + r, strict) == Lexed(TokenOf(j), r)
  {
    if j.NumLit? {
      NumberRead(j.numeral, r);
      UnknownNumberRead(j.numeral, r, strict);
    } else if j.StrLit? {
      StringLiteralRead(j.items, r);
    } else {
      WordLiteralRead(j, r, strict);
    }
  }

  lemma NumberWritten(s: bytes, strict: bool) returns (x: bytes)
    requires Terminated(s) && LexNumber(s).token.Number?
    requires s[0] == MINUS || IsDigit(s[0]) || (!strict && IsInvalidNumber(s))
    requires strict ==> !IsInvalidNumber(s)
    ensures WfNumeral(x, strict)
    ensures s == x + LexNumber(s).rest && LexNumber(s).token == Number(NumberOf(x))
  {
    var n := LongestNumeral(s);
    x := s[..n];
    LongestNumeralIsLongest(s, n);
    assert s == x + s[n..];
    if strict {
      StrictnessRead(x, s[n..]);
    }
  }

  lemma WordWritten(s: bytes, strict: bool) returns (j: Json)
    requires Terminated(s) && !LexWord(s, strict).token.Error?
    ensures IsLiteral(j) && Wf(j, strict) && Wf(j, false)
    ensures s == Text(j) + LexWord(s, strict).rest && LexWord(s, strict).token == TokenOf(j)
  {
    if s[0] == MINUS || IsDigit(s[0]) {
      var x := NumberWritten(s, strict);
      j := NumLit(x);
    } else if StartsWith(s, TRUE) {
      j := BoolLit(true);
    } else if StartsWith(s, FALSE) {
      j := BoolLit(false);
    } else if StartsWith(s, NULL) {
      j := NullLit;
    } else {
      var x := NumberWritten(s, strict);
      j := NumLit(x);
    }
  }

  lemma LiteralWritten(s: bytes, strict: bool) returns (j: Json)
    requires Terminated(s) && !LexUnknown(s, strict).token.Error?
    ensures IsLiteral(j) && Wf(j, strict) && Wf(j, false)
    ensures s == Text(j) + LexUnknown(s, strict).rest && LexUnknown(s, strict).token == TokenOf(j)
  {
    if s[0] == QUOTE {
      var items := StringWritten(s[1..]);
      j := StrLit(items);
      Assoc([QUOTE], StrText(items) + [QUOTE], ScanString(s[1..]).rest);
      Assoc([QUOTE], StrText(items), [QUOTE]);
    } else {
      j := WordWritten(s, strict);
    }
  }

  // ----- Tokens behind blanks -----

  lemma PunctuationLexed(ws: bytes, t: Token, r: bytes, strict: bool)
    requires White(ws) && Punctuation(t) != [] && Terminated(r)
    ensures Lex(ws + Punctuation(t) + r, strict) == Lexed(t, r)
  {
    var s := Punctuation(t) + r;
    Assoc(ws, Punctuation(t), r);
    BlanksSkipped(ws, s, strict);
    assert Ch2Token(s[0]) == Single(t);
    assert s[1..] == r;
  }

  lemma EndLexed(ws: bytes, r: bytes, strict: bool)
    requires White(ws) && Terminated(r) && r[0] == NUL
    ensures Lex(ws + r, strict) == Lexed(End, r)
  {
    BlanksSkipped(ws, r, strict);
  }

  lemma LiteralLexed(ws: bytes, j: Json, r: bytes, strict: bool)
    requires White(ws) && IsLiteral(j) && Wf(j, strict) && Closed(r)
    ensures Wf(j, false) && Lex(ws + Text(j) + r, strict) == Lexed(TokenOf(j), r)
  {
    var s := Text(j) + r;
    LiteralRead(j, r, strict);
    BlanksSkipped(ws, s, strict);
    assert ws + s == ws + Text(j) + r;
  }

  lemma PunctuationFound(s: bytes, strict: bool) returns (ws: bytes)
    requires Terminated(s) && Punctuation(Lex(s, strict).token) != []
    ensures White(ws) && s == ws + Punctuation(Lex(s, strict).token) + Lex(s, strict).rest
  {
    var t;
    ws, t := BlanksRead(s, strict);
    PunctuationAt(t, strict);
    Assoc(ws, Punctuation(Lex(s, strict).token), Lex(s, strict).rest);
  }

  lemma PunctuationAt(t: bytes, strict: bool)
    requires Terminated(t) && Punctuation(LexAt(t, strict).token) != []
    ensures t == Punctuation(LexAt(t, strict).token) + LexAt(t, strict).rest
  {
    var k := Ch2Token(t[0]);
    if k.Single? {
      assert LexAt(t, strict) == Lexed(k.token, t[1..]);
      assert t == [t[0]] + t[1..];
    } else {
      UnknownCarries(t, strict);
    }
  }

  lemma UnknownCarries(t: bytes, strict: bool)
    requires Terminated(t) && !Ch2Token(t[0]).Single?
    ensures Punctuation(LexAt(t, strict).token) == []
  {
  }

  lemma EndFound(s: bytes, strict: bool) returns (ws: bytes)
    requires Terminated(s) && Lex(s, strict).token.End?
    ensures White(ws) && s == ws + Lex(s, strict).rest
  {
    var t;
    ws, t := BlanksRead(s, strict);
  }

  lemma LiteralAt(t: bytes, strict: bool)
    requires Terminated(t) && CarriesValue(LexAt(t, strict).token)
    ensures LexAt(t, strict) == LexUnknown(t, strict)
  {
  }

  lemma LiteralFound(s: bytes, strict: bool) returns (ws: bytes, j: Json)
    requires Terminated(s) && CarriesValue(Lex(s, strict).token)
    ensures White(ws) && IsLiteral(j) && Wf(j, strict) && Wf(j, false)
    ensures s == ws + Text(j) + Lex(s, strict).rest && Lex(s, strict).token == TokenOf(j)
  {
    var t;
    ws, t := BlanksRead(s, strict);
    LiteralAt(t, strict);
    j := LiteralWritten(t, strict);
    Assoc(ws, Text(j), Lex(s, strict).rest);
  }
}
