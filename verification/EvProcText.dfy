/** Command texts: the lexer finds exactly the tokens that a text spells. */
module EvProcText {
  import opened Octets
  import opened EvProc

  // ----- Command texts -----

  predicate IsBlankChar(c: byte) {
    c == 0x20 || c == 0x09
  }

  predicate IsLetter(c: byte) {
    0x61 <= c <= 0x7A || 0x41 <= c <= 0x5A || c == 0x5F
  }

  predicate IsDigitChar(c: byte) {
    0x30 <= c <= 0x39
  }

  predicate IsHexChar(c: byte) {
    IsDigitChar(c) || 0x41 <= c <= 0x46 || 0x61 <= c <= 0x66
  }

  /** What may stand between arguments: blanks, and any character that starts nothing. */
  predicate IsSeparator(c: byte) {
    c != 0 && c != 0x27 && !IsLetter(c) && !IsDigitChar(c)
  }

  predicate Separators(w: bytes) {
    forall i :: 0 <= i < |w| ==> IsSeparator(w[i])
  }

  function CharValue(c: byte): nat
    requires IsHexChar(c)
  {
    if c <= 0x39 then c - 0x30 else if c <= 0x46 then c - 0x41 + 10 else c - 0x61 + 10
  }

  /** The number that digits spell. */
  function Number(base: nat, u: bytes): nat
    requires forall i :: 0 <= i < |u| ==> IsHexChar(u[i])
  {
    if u == [] then 0 else Number(base, u[..|u| - 1]) * base + CharValue(u[|u| - 1])
  }

  predicate AllDigits(u: bytes) {
    forall i :: 0 <= i < |u| ==> IsDigitChar(u[i])
  }

  predicate AllHexChars(u: bytes) {
    forall i :: 0 <= i < |u| ==> IsHexChar(u[i])
  }

  /** An argument behind separators: decimal or hexadecimal digits, or a quoted string. */
  datatype Arg = Decimal(sep: bytes, u: bytes) | Hexadecimal(sep: bytes, u: bytes) | Quoted(sep: bytes, s: bytes)

  /** Only a quoted string may follow at once. */
  predicate WfArg(a: Arg) {
    && Separators(a.sep) && (a.sep != [] || a.Quoted?)
    && match a
       case Decimal(_, u) => u != [] && AllDigits(u) && Number(10, u) < 0x8000_0000
       case Hexadecimal(_, u) => AllHexChars(u) && Number(16, u) < 0x8000_0000
       case Quoted(_, s) => |s| < 128 && forall i :: 0 <= i < |s| ==> s[i] != 0x27 && s[i] != 0
  }

  function Spelled(a: Arg): bytes {
    match a
    case Decimal(_, u) => u
    case Hexadecimal(_, u) => [0x30, 0x78] + u
    case Quoted(_, s) => [0x27] + s + [0x27]
  }

  function ArgsText(args: seq<Arg>): bytes {
    if args == [] then [] else args[0].sep + (Spelled(args[0]) + ArgsText(args[1..]))
  }

  function TokenOf(a: Arg): Token
    requires WfArg(a)
  {
    match a
    case Decimal(_, u) => Int(Number(10, u))
    case Hexadecimal(_, u) => Int(Number(16, u))
    case Quoted(_, s) => Str(s)
  }

  function TokensOf(args: seq<Arg>): (ts: seq<Token>)
    requires WfArgs(args)
    ensures |ts| == |args| && forall i :: 0 <= i < |ts| ==> ts[i] == TokenOf(args[i])
  {
    if args == [] then [] else [TokenOf(args[0])] + TokensOf(args[1..])
  }

  predicate WfArgs(args: seq<Arg>) {
    forall i :: 0 <= i < |args| ==> WfArg(args[i])
  }

  predicate WfName(name: bytes) {
    0 < |name| < 128 && forall i :: 0 <= i < |name| ==> IsLetter(name[i])
  }

  // ----- Runs -----

  predicate AllIn(k: Class, u: bytes) {
    forall i :: 0 <= i < |u| ==> IsIn(k, u[i])
  }

  lemma {:induction false} ValueIsNumber(base: nat, u: bytes)
    requires AllHexChars(u)
    ensures Value(base, u) == Number(base, u)
  {
    if u != [] {
      ValueIsNumber(base, u[..|u| - 1]);
    }
  }

  /** A run ends where its class ends. */
  lemma {:induction false} RunOver(k: Class, u: bytes, r: bytes)
    requires AllIn(k, u) && Terminated(r) && !IsIn(k, r[0])
    ensures Run(k, u + r) == |u| && (u + r)[..|u|] == u && (u + r)[|u|..] == r
  {
    if u == [] {
      assert u + r == r;
    } else {
      RunOver(k, u[1..], r);
      assert (u + r)[1..] == u[1..] + r;
    }
  }

  lemma {:induction false} QuoteOver(s: bytes, r: bytes)
    requires forall i :: 0 <= i < |s| ==> s[i] != 0x27
    ensures ToQuote(s + [0x27] + r) == |s|
  {
    var t := s + [0x27] + r;
    if s != [] {
      QuoteOver(s[1..], r);
      assert t[1..] == s[1..] + [0x27] + r;
    }
  }

  /** What follows a token: the end, a separator or a quotation mark. */
  ghost predicate Closed(r: bytes) {
    Terminated(r) && !IsLetter(r[0]) && !IsDigitChar(r[0])
  }

  // ----- Separators -----

  /** A separator before anything but the end is skipped. */
  lemma SeparatorStep(s: bytes)
    requires Terminated(s) && |s| > 1 && IsSeparator(s[0]) && (IsBlankChar(s[0]) ==> s[1] != 0)
    ensures Lex(s) == Lex(s[1..])
  {
    if !IsBlankChar(s[0]) {
      assert Lex(s) == LexAt(s);
    }
  }

  lemma {:induction false} SeparatorsOver(w: bytes, r: bytes)
    requires Separators(w) && Terminated(r) && r[0] != 0
    ensures Terminated(w + r) && Lex(w + r) == Lex(r)
  {
    if w == [] {
      assert w + r == r;
    } else {
      assert (w + r)[1..] == w[1..] + r && (w + r)[1] == if |w| > 1 then w[1] else r[0];
      SeparatorStep(w + r);
      SeparatorsOver(w[1..], r);
    }
  }

  /** Behind separators at the end of the text the lexer steps over the end if the last is a blank. */
  lemma {:induction false} SeparatorsAtTheEnd(w: bytes)
    requires Separators(w)
    ensures Closed(w + [0])
    ensures Lex(w + [0]) == if w != [] && IsBlankChar(w[|w| - 1]) then Undefined else Tokens([])
  {
    if w == [] {
      assert w + [0] == [0];
    } else {
      var s := w + [0];
      assert s[1..] == w[1..] + [0] && s[1] == if |w| > 1 then w[1] else 0;
      if |w| > 1 || !IsBlankChar(w[0]) {
        SeparatorStep(s);
        SeparatorsAtTheEnd(w[1..]);
      } else {
        assert SkipBlanks(s) == s[1..];
      }
    }
  }

  // ----- Tokens -----

  lemma DecimalLexed(u: bytes, r: bytes)
    requires u != [] && AllDigits(u) && Number(10, u) < 0x8000_0000 && Closed(r)
    ensures LexAt(u + r) == Cons(Int(Number(10, u)), Lex(r))
  {
    var t := u + r;
    RunOver(Digit, u, r);
    ValueIsNumber(10, u);
    assert t[0] == u[0] && t[1] == if |u| > 1 then u[1] else r[0];
  }

  lemma HexLexed(u: bytes, r: bytes)
    requires AllHexChars(u) && Number(16, u) < 0x8000_0000 && Closed(r)
    ensures LexAt([0x30, 0x78] + u + r) == Cons(Int(Number(16, u)), Lex(r))
  {
    var t, n := [0x30, 0x78] + u + r, |u|;
    RunOver(Hex, u, r);
    ValueIsNumber(16, u);
    assert t[2..] == u + r;
    assert t[2..2 + n] == u && t[2 + n..] == r;
  }

  lemma QuotedParts(s: bytes, r: bytes)
    ensures var t, n := [0x27] + s + [0x27] + r, |s|;
      |t| == n + 2 + |r| && t[0] == 0x27 && t[1..] == s + [0x27] + r && t[1..1 + n] == s && t[n + 2..] == r
  {
  }

  lemma StringLexed(s: bytes, r: bytes)
    requires |s| < 128 && (forall i :: 0 <= i < |s| ==> s[i] != 0x27) && Closed(r)
    ensures LexAt([0x27] + s + [0x27] + r) == Cons(Str(s), Lex(r))
  {
    QuoteOver(s, r);
    QuotedParts(s, r);
  }

  lemma SpelledLexed(a: Arg, r: bytes)
    requires WfArg(a) && Closed(r)
    ensures LexAt(Spelled(a) + r) == Cons(TokenOf(a), Lex(r))
  {
    match a {
      case Decimal(_, u) => DecimalLexed(u, r);
      case Hexadecimal(_, u) => HexLexed(u, r);
      case Quoted(_, s) => StringLexed(s, r);
    }
  }

  lemma ArgLexed(a: Arg, r: bytes)
    requires WfArg(a) && Closed(r)
    ensures Closed(a.sep + (Spelled(a) + r)) && Lex(a.sep + (Spelled(a) + r)) == Cons(TokenOf(a), Lex(r))
  {
    var t := Spelled(a) + r;
    SpelledLexed(a, r);
    assert t[0] == Spelled(a)[0];
    assert Lex(t) == LexAt(t);
    SeparatorsOver(a.sep, t);
    if a.sep != [] {
      assert (a.sep + t)[0] == a.sep[0];
    } else {
      assert a.sep + t == t;
    }
  }

  lemma {:induction false} ArgsLexed(args: seq<Arg>, r: bytes)
    requires WfArgs(args) && Closed(r)
    ensures Closed(ArgsText(args) + r) && Lex(ArgsText(args) + r) == Prefixed(TokensOf(args), Lex(r))
  {
    if args == [] {
      assert ArgsText(args) + r == r && (Lex(r).Tokens? ==> [] + Lex(r).ts == Lex(r).ts);
    } else {
      var a, others := args[0], ArgsText(args[1..]);
      ArgsLexed(args[1..], r);
      ArgLexed(a, others + r);
      Assoc(Spelled(a), others, r);
      Assoc(a.sep, Spelled(a) + others, r);
      if Lex(r).Tokens? {
        Assoc([TokenOf(a)], TokensOf(args[1..]), Lex(r).ts);
      }
    }
  }

  lemma NameLexed(name: bytes, r: bytes)
    requires WfName(name) && Closed(r)
    ensures Lex(name + r) == Cons(Text(name), Lex(r))
  {
    RunOver(Alpha, name, r);
    assert (name + r)[0] == name[0];
    assert Lex(name + r) == LexAt(name + r);
  }

  /**
   A command text is lexed if and only if it does not end in a blank: behind one the lexer
   would step over the end of the text. Then it gives back the name and every argument,
   however the numbers are written and whatever separates them, up to ten tokens.
   */
  lemma CommandLexed(name: bytes, args: seq<Arg>, w: bytes)
    requires WfName(name) && WfArgs(args) && |args| < 10 && Separators(w)
    ensures LexCommand(name + (ArgsText(args) + w))
         == if w != [] && IsBlankChar(w[|w| - 1]) then Undefined else Tokens([Text(name)] + TokensOf(args))
  {
    var r := w + [0];
    SeparatorsAtTheEnd(w);
    ArgsLexed(args, r);
    NameLexed(name, ArgsText(args) + r);
    Assoc(ArgsText(args), w, [0]);
    Assoc(name, ArgsText(args) + w, [0]);
    assert TokensOf(args) + [] == TokensOf(args);
  }
}
