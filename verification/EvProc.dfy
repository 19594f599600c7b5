/**
 EvProc commands of Canon cameras: the lexer and the packer of src/canon_adv.c, and the
 decoder that src/dec/main.c has for the same bytes.
 */
module EvProc {
  import opened Octets

  const MAX_STR := 128
  const MAX_TOK := 10
  const TOK_INT: u32 := 2
  const TOK_STR: u32 := 4

  // ----- Lexing -----

  datatype Class = Alpha | Digit | Hex

  predicate IsIn(k: Class, c: byte) {
    match k
    case Alpha => 0x61 <= c <= 0x7A || 0x41 <= c <= 0x5A || c == 0x5F
    case Digit => 0x30 <= c <= 0x39
    case Hex => 0x30 <= c <= 0x39 || 0x41 <= c <= 0x46 || 0x61 <= c <= 0x66
  }

  predicate IsBlank(c: byte) {
    c == 0x20 || c == 0x09
  }

  const QUOTE: byte := 0x27
  const ZERO: byte := 0x30
  const LOWER_X: byte := 0x78

  /** The text that is left ends in its NUL. */
  ghost predicate Terminated(s: bytes) {
    s != [] && s[|s| - 1] == 0
  }

  /** How many characters of a class come first; the NUL is in none. */
  function Run(k: Class, s: bytes): (n: nat)
    requires Terminated(s)
    ensures n < |s|
  {
    if IsIn(k, s[0]) then 1 + Run(k, s[1..]) else 0
  }

  function SkipBlanks(s: bytes): (t: bytes)
    requires Terminated(s)
    ensures Terminated(t) && |t| <= |s| && !IsBlank(t[0])
    ensures !IsBlank(s[0]) ==> t == s
  {
    if IsBlank(s[0]) then SkipBlanks(s[1..]) else s
  }

  function DigitValue(c: byte): int {
    if 0x30 <= c <= 0x39 then c - 0x30
    else if 0x41 <= c <= 0x46 then c - 0x41 + 10
    else if 0x61 <= c <= 0x66 then c - 0x61 + 10
    else 0
  }

  function Value(base: nat, u: bytes): int {
    if u == [] then 0 else Value(base, u[..|u| - 1]) * base + DigitValue(u[|u| - 1])
  }

  /** The place of the closing quote, or |s|. */
  function ToQuote(s: bytes): (n: nat)
    ensures n <= |s| && (n < |s| ==> s[n] == QUOTE)
  {
    if s == [] || s[0] == QUOTE then 0 else 1 + ToQuote(s[1..])
  }

  datatype Token = Text(s: bytes) | Int(n: int) | Str(s: bytes)

  /** Undefined: the lexer leaves its arrays, its text or the range of an int. */
  datatype Lexed = Tokens(ts: seq<Token>) | Undefined

  function Cons(t: Token, l: Lexed): Lexed {
    if l.Tokens? then Tokens([t] + l.ts) else l
  }

  function IntToken(n: int, rest: Lexed): Lexed {
    if 0 <= n < 0x8000_0000 then Cons(Int(n), rest) else Undefined
  }

  /** The loop of lex_evproc_command. */
  function Lex(s: bytes): Lexed
    requires Terminated(s)
    decreases |s|, 1
  {
    if s[0] == 0 then Tokens([]) else LexAt(SkipBlanks(s))
  }

  /** From a character that is no blank. */
  function LexAt(t: bytes): Lexed
    requires Terminated(t)
    decreases |t|, 0
  {
    if t[0] == 0 then Undefined
    else if IsIn(Alpha, t[0]) then
      var n := Run(Alpha, t);
      if n >= MAX_STR then Undefined else Cons(Text(t[..n]), Lex(t[n..]))
    else if t[0] == ZERO && t[1] == LOWER_X then
      var n := Run(Hex, t[2..]);
      IntToken(Value(16, t[2..2 + n]), Lex(t[2 + n..]))
    else if IsIn(Digit, t[0]) then
      var n := Run(Digit, t);
      IntToken(Value(10, t[..n]), Lex(t[n..]))
    else if t[0] == QUOTE then
      var n := ToQuote(t[1..]);
      if n >= MAX_STR || n + 1 == |t| then Undefined else Cons(Str(t[1..1 + n]), Lex(t[n + 2..]))
    else Lex(t[1..])
  }

  predicate IsCString(text: bytes) {
    forall i :: 0 <= i < |text| ==> text[i] != 0
  }

  /** What the lexer makes of a command, within its token array. */
  function LexCommand(text: bytes): Lexed {
    var l := Lex(text + [0]);
    if l.Tokens? && |l.ts| > MAX_TOK then Undefined else l
  }

  // ----- The lexer as it runs -----

  function Prefixed(ts: seq<Token>, l: Lexed): Lexed {
    if l.Tokens? then Tokens(ts + l.ts) else l
  }

  /** How far a run of a class goes. */
  method ScanRun(s: bytes, at: nat, k: Class) returns (end: nat)
    requires Terminated(s) && at < |s|
    ensures at <= end < |s| && end - at == Run(k, s[at..])
  {
    end := at;
    while IsIn(k, s[end])
      invariant at <= end < |s| && end - at + Run(k, s[end..]) == Run(k, s[at..])
      decreases |s| - end
    {
      assert s[end..][1..] == s[end + 1..];
      end := end + 1;
    }
  }

  /** The digits of a number, added up on the way. */
  method ScanNumber(s: bytes, at: nat, k: Class, base: nat) returns (end: nat, integer: int)
    requires Terminated(s) && at < |s|
    ensures at <= end < |s| && end - at == Run(k, s[at..]) && integer == Value(base, s[at..end])
  {
    end, integer := at, 0;
    while IsIn(k, s[end])
      invariant at <= end < |s| && end - at + Run(k, s[end..]) == Run(k, s[at..])
      invariant integer == Value(base, s[at..end])
      decreases |s| - end
    {
      assert s[end..][1..] == s[end + 1..];
      assert s[at..end + 1][..end - at] == s[at..end];
      integer := integer * base + DigitValue(s[end]);
      end := end + 1;
    }
  }

  method ScanToQuote(s: bytes, at: nat) returns (end: nat)
    requires at <= |s| && at + ToQuote(s[at..]) < |s|
    ensures end == at + ToQuote(s[at..])
  {
    end := at;
    while s[end] != QUOTE
      invariant at <= end < |s| && end + ToQuote(s[end..]) == at + ToQuote(s[at..]) < |s|
      decreases |s| - end
    {
      assert s[end..][1..] == s[end + 1..];
      end := end + 1;
    }
  }

  method ScanBlanks(s: bytes, at: nat) returns (end: nat)
    requires Terminated(s) && at < |s|
    ensures at <= end < |s| && s[end..] == SkipBlanks(s[at..])
  {
    end := at;
    while IsBlank(s[end])
      invariant at <= end < |s| && SkipBlanks(s[end..]) == SkipBlanks(s[at..])
      decreases |s| - end
    {
      assert s[end..][1..] == s[end + 1..];
      end := end + 1;
    }
  }

  lemma Slices(s: bytes, at: nat, i: nat, j: nat)
    requires at <= i <= j <= |s|
    ensures s[at..][i - at..j - at] == s[i..j] && s[at..][j - at..] == s[j..]
  {
  }

  method NextWord(s: bytes, at: nat) returns (tok: Token, end: nat)
    requires Terminated(s) && at < |s| && IsIn(Alpha, s[at]) && LexAt(s[at..]).Tokens?
    ensures at < end < |s| && LexAt(s[at..]) == Cons(tok, Lex(s[end..]))
  {
    end := ScanRun(s, at, Alpha);
    tok := Text(s[at..end]);
    Slices(s, at, at, end);
    assert s[at..][..end - at] == s[at..end];
  }

  method NextHex(s: bytes, at: nat) returns (tok: Token, end: nat)
    requires Terminated(s) && at + 1 < |s| && s[at] == ZERO && s[at + 1] == LOWER_X && LexAt(s[at..]).Tokens?
    ensures at < end < |s| && LexAt(s[at..]) == Cons(tok, Lex(s[end..]))
  {
    var n;
    end, n := ScanNumber(s, at + 2, Hex, 16);
    tok := Int(n);
    Slices(s, at, at + 2, end);
    assert s[at..][2..] == s[at + 2..];
  }

  method NextDecimal(s: bytes, at: nat) returns (tok: Token, end: nat)
    requires Terminated(s) && at + 1 < |s| && IsIn(Digit, s[at]) && LexAt(s[at..]).Tokens?
    requires !(s[at] == ZERO && s[at + 1] == LOWER_X)
    ensures at < end < |s| && LexAt(s[at..]) == Cons(tok, Lex(s[end..]))
  {
    var n;
    end, n := ScanNumber(s, at, Digit, 10);
    tok := Int(n);
    Slices(s, at, at, end);
    assert s[at..][..end - at] == s[at..end];
  }

  method NextString(s: bytes, at: nat) returns (tok: Token, end: nat)
    requires Terminated(s) && at < |s| && s[at] == QUOTE && LexAt(s[at..]).Tokens?
    ensures at < end < |s| && LexAt(s[at..]) == Cons(tok, Lex(s[end..]))
  {
    assert s[at..][1..] == s[at + 1..];
    end := ScanToQuote(s, at + 1);
    tok := Str(s[at + 1..end]);
    Slices(s, at, at + 1, end);
    Slices(s, at, at, end + 1);
    end := end + 1;
  }

  /** One token, or none for a character that is skipped. */
  method NextToken(s: bytes, at: nat) returns (toks: seq<Token>, end: nat)
    requires Terminated(s) && at < |s| && LexAt(s[at..]).Tokens?
    ensures at < end < |s| && LexAt(s[at..]) == Prefixed(toks, Lex(s[end..]))
  {
    var tok;
    if IsIn(Alpha, s[at]) {
      tok, end := NextWord(s, at);
    } else if s[at] == ZERO && s[at + 1] == LOWER_X {
      tok, end := NextHex(s, at);
    } else if IsIn(Digit, s[at]) {
      tok, end := NextDecimal(s, at);
    } else if s[at] == QUOTE {
      tok, end := NextString(s, at);
    } else {
      toks, end := [], at + 1;
      assert s[at..][1..] == s[end..] && [] + Lex(s[end..]).ts == Lex(s[end..]).ts;
      return;
    }
    toks := [tok];
  }

  /** lex_evproc_command, for a text that it can lex. */
  method LexEvprocCommand(text: bytes) returns (toks: seq<Token>)
    requires LexCommand(text).Tokens?
    ensures LexCommand(text) == Tokens(toks)
  {
    var s := text + [0];
    var c := 0;
    toks := [];
    assert s[0..] == s && [] + Lex(s).ts == Lex(s).ts;
    while s[c] != 0
      invariant c < |s| && Lex(s) == Prefixed(toks, Lex(s[c..]))
      decreases |s| - c
    {
      ghost var before := toks;
      c := ScanBlanks(s, c);
      var more, end := NextToken(s, c);
      Assoc(toks, more, Lex(s[end..]).ts);
      toks := toks + more;
      c := end;
    }
  }
}
