/** Packing of EvProc tokens (src/canon_adv.c) and decoding of the packed bytes (src/dec/main.c). */
module EvProcPack {
  import opened Octets
  import opened Packets
  import opened EvProc
  import opened EvProcText

  // ----- What the packer writes -----

  function Words(a: u32, b: u32, c: u32, d: u32, e: u32): (w: bytes)
    ensures |w| == 20
  {
    WriteU32(a) + WriteU32(b) + WriteU32(c) + WriteU32(d) + WriteU32(e)
  }

  /** struct EvProcParam: type, number, two unused words, size; plain text has none. */
  function ParamBytes(t: Token): bytes {
    match t
    case Text(_) => []
    case Int(n) => Words(TOK_INT, n % 0x1_0000_0000, 0, 0, 0)
    case Str(s) => Words(TOK_STR, 0, 0, 0, (|s| + 1) % 0x1_0000_0000)
  }

  /** What the footer holds of a token. */
  function LongBytes(t: Token): bytes {
    if t.Str? then WriteU32(0) + (t.s + [0]) else []
  }

  function ParamsFrom(ts: seq<Token>, k: nat): bytes
    requires k <= |ts|
    decreases |ts| - k
  {
    if k == |ts| then [] else ParamBytes(ts[k]) + ParamsFrom(ts, k + 1)
  }

  function LongsFrom(ts: seq<Token>, k: nat): bytes
    requires k <= |ts|
    decreases |ts| - k
  {
    if k == |ts| then [] else LongBytes(ts[k]) + LongsFrom(ts, k + 1)
  }

  /** The parameters, and the strings among them, from the token k on. */
  function Count(ts: seq<Token>, k: nat): (n: nat)
    requires k <= |ts|
    ensures n <= |ts| - k
    decreases |ts| - k
  {
    if k == |ts| then 0 else Count(ts, k + 1) + if ts[k].Text? then 0 else 1
  }

  function Longs(ts: seq<Token>, k: nat): (n: nat)
    requires k <= |ts|
    ensures n <= |ts| - k
    decreases |ts| - k
  {
    if k == |ts| then 0 else Longs(ts, k + 1) + if ts[k].Str? then 1 else 0
  }

  predicate IsCommand(ts: seq<Token>) {
    0 < |ts| <= MAX_TOK && ts[0].Text? && forall i :: 0 <= i < |ts| ==> WfToken(ts[i])
  }

  predicate WfToken(t: Token) {
    match t
    case Text(s) => IsCString(s)
    case Int(n) => 0 <= n < 0x8000_0000
    case Str(s) => IsCString(s) && |s| < MAX_STR
  }

  function Packed(ts: seq<Token>): bytes
    requires IsCommand(ts)
  {
    ts[0].s + [0] + WriteU32(Count(ts, 1)) + ParamsFrom(ts, 1) + (WriteU32(Longs(ts, 1)) + LongsFrom(ts, 1))
  }

  // ----- The decoder -----

  datatype Param = IntParam(value: u32, p3: u32, p4: u32) | StrParam(s: bytes) | UnknownParam(kind: u32)

  datatype Params = Found(ps: seq<Param>) | Outside

  function AndThen(p: Param, rest: Params): Params {
    if rest.Found? then Found([p] + rest.ps) else Outside
  }

  /** The length of a NUL-terminated string that fits the decoder's 64 characters, or -1. */
  function StrEnd(b: bytes, k: nat): (n: int)
    requires k <= |b|
    ensures n <= 63
    ensures n >= 0 ==> k <= n < |b| && b[n] == 0 && forall i :: k <= i < n ==> b[i] != 0
    decreases |b| - k
  {
    if k == |b| || k > 63 then -1 else if b[k] == 0 then k else StrEnd(b, k + 1)
  }

  function DecodeParams(b: bytes, n: nat): Params {
    if n == 0 then Found([])
    else if |b| < 4 then Outside
    else if U32At(b, 0) == 2 then
      if |b| < 20 then Outside
      else AndThen(IntParam(U32At(b, 4), U32At(b, 8), U32At(b, 12)), DecodeParams(b[20..], n - 1))
    else if U32At(b, 0) == 4 then
      if |b| < 28 then Outside
      else
        var e := StrEnd(b[28..], 0);
        if e < 0 then Outside
        else AndThen(StrParam(b[28..][..e]), DecodeParams(b[28..][e + 1..], n - 1))
    else AndThen(UnknownParam(U32At(b, 0)), DecodeParams(b[4..], n - 1))
  }

  datatype Decoding = Decoding(name: bytes, count: u32, ps: seq<Param>) | Garbled

  function Decode(b: bytes): Decoding {
    var e := StrEnd(b, 0);
    if e < 0 || e + 5 > |b| then Garbled
    else
      match DecodeParams(b[e + 5..], U32At(b, e + 1))
      case Found(ps) => Decoding(b[..e], U32At(b, e + 1), ps)
      case Outside => Garbled
  }

  // ----- The round trip -----

  /** The decoder looks for a string right behind its parameter, so only the last one may be a string. */
  predicate Decodable(ts: seq<Token>)
    requires IsCommand(ts)
  {
    && |ts[0].s| <= 63
    && forall i :: 1 <= i < |ts| ==> ts[i].Int? || (i == |ts| - 1 && ts[i].Str? && |ts[i].s| <= 63)
  }

  function ParamOf(t: Token): Param {
    match t
    case Text(s) => UnknownParam(0)
    case Int(n) => IntParam(n % 0x1_0000_0000, 0, 0)
    case Str(s) => StrParam(s)
  }

  function ParamsOf(ts: seq<Token>, k: nat): seq<Param>
    requires k <= |ts|
    decreases |ts| - k
  {
    if k == |ts| then [] else [ParamOf(ts[k])] + ParamsOf(ts, k + 1)
  }

  lemma {:induction false} StrEndAt(s: bytes, r: bytes, k: nat)
    requires IsCString(s) && k <= |s| <= 63
    ensures StrEnd(s + [0] + r, k) == |s|
    decreases |s| - k
  {
    if k < |s| {
      StrEndAt(s, r, k + 1);
    }
  }

  lemma SecondHalf(a: u32, b: u32, c: u32, d: u32, e: u32)
    ensures Words(a, b, c, d, e) == WriteU32(a) + WriteU32(b) + (WriteU32(c) + WriteU32(d) + WriteU32(e))
  {
    var l := WriteU32(a) + WriteU32(b);
    Assoc(l, WriteU32(c), WriteU32(d));
    Assoc(l, WriteU32(c) + WriteU32(d), WriteU32(e));
  }

  lemma FirstWords(a: u32, b: u32, rest: bytes)
    ensures var w := WriteU32(a) + WriteU32(b) + rest; U32At(w, 0) == a && U32At(w, 4) == b
  {
    var w := WriteU32(a) + WriteU32(b) + rest;
    assert w == [] + WriteU32(a) + (WriteU32(b) + rest);
    U32AtIn([], a, WriteU32(b) + rest);
    U32AtIn(WriteU32(a), b, rest);
  }

  lemma WordsAt(a: u32, b: u32, c: u32, d: u32, e: u32, rest: bytes)
    ensures var w := Words(a, b, c, d, e) + rest;
      U32At(w, 0) == a && U32At(w, 4) == b && U32At(w, 8) == c && U32At(w, 12) == d && w[20..] == rest
  {
    var w := Words(a, b, c, d, e);
    var front, back := WriteU32(a) + WriteU32(b), WriteU32(c) + WriteU32(d) + WriteU32(e);
    SecondHalf(a, b, c, d, e);
    FirstWords(a, b, back);
    FirstWords(c, d, WriteU32(e));
    FieldsOfSuffix(front, back, 0);
    FieldsOfSuffix(front, back, 4);
    FieldsOfPrefix(w, rest, 0);
    FieldsOfPrefix(w, rest, 4);
    FieldsOfPrefix(w, rest, 8);
    FieldsOfPrefix(w, rest, 12);
  }

  lemma StrDecoded(s: bytes, longs: u32)
    ensures var b := ParamBytes(Str(s)) + (WriteU32(longs) + LongBytes(Str(s)));
      && |b| >= 28 && U32At(b, 0) == TOK_STR && b[28..] == s + [0] + []
  {
    var tail := WriteU32(longs) + LongBytes(Str(s));
    WordsAt(TOK_STR, 0, 0, 0, (|s| + 1) % 0x1_0000_0000, tail);
    var b := ParamBytes(Str(s)) + tail;
    assert b[28..] == b[20..][8..];
    assert tail == WriteU32(longs) + WriteU32(0) + (s + [0]);
    assert tail[8..] == s + [0] && s + [0] == s + [0] + [];
  }

  ghost predicate ParamsFound(ts: seq<Token>, k: nat)
    requires k <= |ts| <= MAX_TOK
  {
    && DecodeParams(ParamsFrom(ts, k) + (WriteU32(Longs(ts, k)) + LongsFrom(ts, k)), |ts| - k) == Found(ParamsOf(ts, k))
    && Count(ts, k) == |ts| - k
  }

  lemma {:induction false} ParamsDecoded(ts: seq<Token>, k: nat)
    requires IsCommand(ts) && Decodable(ts) && 1 <= k <= |ts|
    ensures ParamsFound(ts, k)
    decreases |ts| - k
  {
    if k < |ts| {
      ParamsDecoded(ts, k + 1);
      if ts[k].Int? {
        IntDecoded(ts, k);
      } else {
        LastDecoded(ts, k);
      }
    }
  }

  lemma IntStep(n: u32, params: bytes, footer: bytes, m: nat, ps: seq<Param>)
    requires DecodeParams(params + footer, m) == Found(ps)
    ensures DecodeParams(Words(TOK_INT, n, 0, 0, 0) + params + footer, m + 1) == Found([IntParam(n, 0, 0)] + ps)
  {
    Assoc(Words(TOK_INT, n, 0, 0, 0), params, footer);
    WordsAt(TOK_INT, n, 0, 0, 0, params + footer);
  }

  /** The decoder takes the words of a number in this order, and passes over the size. */
  lemma NumberDecoded(v: u32, p3: u32, p4: u32, size: u32, rest: bytes, n: nat)
    ensures DecodeParams(Words(2, v, p3, p4, size) + rest, n + 1) == AndThen(IntParam(v, p3, p4), DecodeParams(rest, n))
  {
    WordsAt(2, v, p3, p4, size, rest);
  }

  /** Of a parameter of unknown type it takes the type alone. */
  lemma UnknownDecoded(kind: u32, rest: bytes, n: nat)
    requires kind != 2 && kind != 4
    ensures DecodeParams(WriteU32(kind) + rest, n + 1) == AndThen(UnknownParam(kind), DecodeParams(rest, n))
  {
    assert [] + WriteU32(kind) + rest == WriteU32(kind) + rest;
    U32AtIn([], kind, rest);
    assert (WriteU32(kind) + rest)[4..] == rest;
  }

  lemma IntUnfolds(ts: seq<Token>, k: nat)
    requires IsCommand(ts) && Decodable(ts) && 1 <= k < |ts| && ts[k].Int?
    ensures ParamsFrom(ts, k) == Words(TOK_INT, ts[k].n % 0x1_0000_0000, 0, 0, 0) + ParamsFrom(ts, k + 1)
    ensures LongsFrom(ts, k) == LongsFrom(ts, k + 1) && Longs(ts, k) == Longs(ts, k + 1)
    ensures ParamsOf(ts, k) == [IntParam(ts[k].n % 0x1_0000_0000, 0, 0)] + ParamsOf(ts, k + 1)
    ensures Count(ts, k) == Count(ts, k + 1) + 1
  {
  }

  lemma IntDecoded(ts: seq<Token>, k: nat)
    requires IsCommand(ts) && Decodable(ts) && 1 <= k < |ts| && ts[k].Int? && ParamsFound(ts, k + 1)
    ensures ParamsFound(ts, k)
  {
    IntUnfolds(ts, k);
    IntStep(ts[k].n % 0x1_0000_0000, ParamsFrom(ts, k + 1), WriteU32(Longs(ts, k)) + LongsFrom(ts, k),
            |ts| - (k + 1), ParamsOf(ts, k + 1));
  }

  lemma LastUnfolds(ts: seq<Token>, k: nat)
    requires k + 1 == |ts| && ts[k].Str?
    ensures ParamsFrom(ts, k) == ParamBytes(ts[k]) && LongsFrom(ts, k) == LongBytes(ts[k])
    ensures ParamsOf(ts, k) == [StrParam(ts[k].s)] && Count(ts, k) == 1
  {
    assert ParamsFrom(ts, k + 1) == [] && LongsFrom(ts, k + 1) == [] && ParamsOf(ts, k + 1) == [] && Count(ts, k + 1) == 0;
  }

  lemma LastDecoded(ts: seq<Token>, k: nat)
    requires IsCommand(ts) && Decodable(ts) && 1 <= k == |ts| - 1 && ts[k].Str?
    ensures ParamsFound(ts, k)
  {
    assert WfToken(ts[k]);
    LastUnfolds(ts, k);
    LastStep(ts[k].s, Longs(ts, k));
  }

  lemma LastStep(s: bytes, longs: u32)
    requires IsCString(s) && |s| <= 63
    ensures DecodeParams(ParamBytes(Str(s)) + (WriteU32(longs) + LongBytes(Str(s))), 1) == Found([StrParam(s)])
  {
    var b := ParamBytes(Str(s)) + (WriteU32(longs) + LongBytes(Str(s)));
    StrDecoded(s, longs);
    StrEndAt(s, [], 0);
    assert (s + [0] + [])[..|s|] == s;
    assert DecodeParams(b[28..][|s| + 1..], 0) == Found([]);
  }

  lemma HeaderDecoded(name: bytes, count: u32, params: bytes)
    requires IsCString(name) && |name| <= 63
    ensures var b := name + [0] + WriteU32(count) + params;
      && StrEnd(b, 0) == |name| && |name| + 5 <= |b| && U32At(b, |name| + 1) == count
      && b[..|name|] == name && b[|name| + 5..] == params
  {
    var b := name + [0] + WriteU32(count) + params;
    Assoc(name + [0], WriteU32(count), params);
    StrEndAt(name, WriteU32(count) + params, 0);
    U32AtIn(name + [0], count, params);
  }

  /** The decoder gives back the name, the count and every parameter of a packed command. */
  lemma PackRoundTrip(ts: seq<Token>)
    requires IsCommand(ts) && Decodable(ts)
    ensures Decode(Packed(ts)) == Decoding(ts[0].s, |ts| - 1, ParamsOf(ts, 1))
  {
    var name, params, footer := ts[0].s, ParamsFrom(ts, 1), WriteU32(Longs(ts, 1)) + LongsFrom(ts, 1);
    assert WfToken(ts[0]);
    Assoc(name + [0] + WriteU32(Count(ts, 1)), params, footer);
    HeaderDecoded(name, Count(ts, 1), params + footer);
    ParamsDecoded(ts, 1);
  }

  lemma {:induction false} PackedSizes(ts: seq<Token>, k: nat)
    requires IsCommand(ts) && Decodable(ts) && 1 <= k <= |ts|
    ensures |ParamsFrom(ts, k)| <= 20 * (|ts| - k) && |LongsFrom(ts, k)| <= 68
    decreases |ts| - k
  {
    if k < |ts| {
      PackedSizes(ts, k + 1);
      if ts[k].Str? {
        assert LongsFrom(ts, k + 1) == [];
      }
    }
  }

  /** A command that the decoder understands fits the packer's buffers with room to spare. */
  lemma PackedFits(ts: seq<Token>)
    requires IsCommand(ts) && Decodable(ts)
    ensures |Packed(ts)| <= 320
  {
    PackedSizes(ts, 1);
  }

  // ----- The packed bytes -----

  /** The five words of a parameter: its type, a number, and for a string its size with the terminator. */
  function ParamWords(t: Token): seq<u32>
    requires WfToken(t) && !t.Text?
  {
    if t.Int? then [2, t.n, 0, 0, 0] else [4, 0, 0, 0, |t.s| + 1]
  }

  /** The five words that stand in b from `at` on, if it goes that far. */
  function WordsIn(b: bytes, at: nat): seq<u32> {
    if at + 20 > |b| then []
    else [U32At(b, at), U32At(b, at + 4), U32At(b, at + 8), U32At(b, at + 12), U32At(b, at + 16)]
  }

  lemma FifthWord(a: u32, b: u32, c: u32, d: u32, e: u32, rest: bytes)
    ensures U32At(Words(a, b, c, d, e) + rest, 16) == e
  {
    U32AtIn(WriteU32(a) + WriteU32(b) + WriteU32(c) + WriteU32(d), e, rest);
  }

  lemma WordsHere(w: bytes, kind: u32, n: u32, size: u32, rest: bytes)
    requires w == Words(kind, n, 0, 0, size)
    ensures WordsIn(w + rest, 0) == [kind, n, 0, 0, size]
  {
    WordsAt(kind, n, 0, 0, size, rest);
    FifthWord(kind, n, 0, 0, size, rest);
  }

  lemma IntHere(n: nat, rest: bytes)
    requires n < 0x8000_0000
    ensures WordsIn(ParamBytes(Int(n)) + rest, 0) == [2, n, 0, 0, 0]
  {
    WordsHere(ParamBytes(Int(n)), TOK_INT, n, 0, rest);
  }

  lemma StrHere(s: bytes, rest: bytes)
    requires |s| < 128
    ensures WordsIn(ParamBytes(Str(s)) + rest, 0) == [4, 0, 0, 0, |s| + 1]
  {
    WordsHere(ParamBytes(Str(s)), TOK_STR, 0, |s| + 1, rest);
  }

  lemma ParamHere(t: Token, rest: bytes)
    requires WfToken(t) && !t.Text?
    ensures WordsIn(ParamBytes(t) + rest, 0) == ParamWords(t)
  {
    if t.Int? {
      IntHere(t.n, rest);
    } else {
      StrHere(t.s, rest);
    }
  }

  predicate NoText(ts: seq<Token>) {
    forall i :: 1 <= i < |ts| ==> !ts[i].Text?
  }

  lemma WordsMoved(pre: bytes, b: bytes, at: nat)
    ensures WordsIn(pre + b, |pre| + at) == WordsIn(b, at)
  {
    FieldsOfSuffix(pre, b, at);
    FieldsOfSuffix(pre, b, at + 4);
    FieldsOfSuffix(pre, b, at + 8);
    FieldsOfSuffix(pre, b, at + 12);
    FieldsOfSuffix(pre, b, at + 16);
  }

  lemma {:induction false} ParamsLength(ts: seq<Token>, k: nat)
    requires NoText(ts) && 1 <= k <= |ts|
    ensures |ParamsFrom(ts, k)| == 20 * (|ts| - k)
    decreases |ts| - k
  {
    if k < |ts| {
      ParamsLength(ts, k + 1);
    }
  }

  lemma {:induction false} ParamsLie(ts: seq<Token>, k: nat, j: nat, rest: bytes)
    requires IsCommand(ts) && NoText(ts) && 1 <= k <= j < |ts| && WfToken(ts[j])
    ensures WordsIn(ParamsFrom(ts, k) + rest, 20 * (j - k)) == ParamWords(ts[j])
    decreases |ts| - k
  {
    var p, others := ParamBytes(ts[k]), ParamsFrom(ts, k + 1);
    Assoc(p, others, rest);
    if j > k {
      assert |p| == 20;
      ParamsLie(ts, k + 1, j, rest);
      WordsMoved(p, others + rest, 20 * (j - k - 1));
    } else {
      ParamHere(ts[k], others + rest);
    }
  }

  /** Where the packer puts what: the name with its terminator, and the number of parameters, ... */
  lemma PackedHead(ts: seq<Token>)
    requires IsCommand(ts) && NoText(ts)
    ensures var b, n := Packed(ts), |ts[0].s|;
      n + 5 <= |b| && b[..n] == ts[0].s && b[n] == 0 && U32At(b, n + 1) == |ts| - 1
  {
    var params, footer := ParamsFrom(ts, 1), WriteU32(Longs(ts, 1)) + LongsFrom(ts, 1);
    CountAll(ts, 1);
    Assoc(ts[0].s + [0] + WriteU32(|ts| - 1), params, footer);
    HeadLies(ts[0].s, |ts| - 1, params + footer);
  }

  lemma WordsBehind(head: bytes, params: bytes, footer: bytes, at: nat, n: nat)
    requires n == |head| + at
    ensures WordsIn(head + params + footer, n) == WordsIn(params + footer, at)
  {
    Assoc(head, params, footer);
    WordsMoved(head, params + footer, at);
  }

  /** ... and the parameters in order, 20 bytes each. */
  lemma PackedLayout(ts: seq<Token>, j: nat, at: nat)
    requires IsCommand(ts) && NoText(ts) && 1 <= j < |ts| && WfToken(ts[j])
    requires at == |ts[0].s| + 5 + 20 * (j - 1)
    ensures WordsIn(Packed(ts), at) == ParamWords(ts[j])
  {
    var head := ts[0].s + [0] + WriteU32(Count(ts, 1));
    var params, footer := ParamsFrom(ts, 1), WriteU32(Longs(ts, 1)) + LongsFrom(ts, 1);
    ParamsLie(ts, 1, j, footer);
    WordsBehind(head, params, footer, 20 * (j - 1), at);
  }

  lemma HeadLies(name: bytes, count: u32, rest: bytes)
    ensures var b, n := name + [0] + WriteU32(count) + rest, |name|;
      n + 5 <= |b| && b[..n] == name && b[n] == 0 && U32At(b, n + 1) == count
  {
    Assoc(name + [0], WriteU32(count), rest);
    U32AtIn(name + [0], count, rest);
  }

  lemma {:induction false} CountAll(ts: seq<Token>, k: nat)
    requires NoText(ts) && 1 <= k <= |ts|
    ensures Count(ts, k) == |ts| - k
    decreases |ts| - k
  {
    if k < |ts| {
      CountAll(ts, k + 1);
    }
  }

  lemma {:induction false} OnlyInts(ts: seq<Token>, k: nat)
    requires 1 <= k <= |ts| && forall i :: k <= i < |ts| ==> ts[i].Int?
    ensures Longs(ts, k) == 0 && LongsFrom(ts, k) == []
    decreases |ts| - k
  {
    if k < |ts| {
      OnlyInts(ts, k + 1);
    }
  }

  lemma LongOf(s: bytes)
    ensures LongBytes(Str(s)) == [0, 0, 0, 0] + s + [0]
  {
    assert WriteU32(0) == [0, 0, 0, 0];
    Assoc([0, 0, 0, 0], s, [0]);
  }

  lemma {:induction false} OneLong(ts: seq<Token>, k: nat)
    requires 1 <= k < |ts| && ts[|ts| - 1].Str? && forall i :: k <= i < |ts| - 1 ==> ts[i].Int?
    ensures Longs(ts, k) == 1 && LongsFrom(ts, k) == [0, 0, 0, 0] + ts[|ts| - 1].s + [0]
    decreases |ts| - k
  {
    if k + 1 < |ts| {
      OneLong(ts, k + 1);
      assert LongBytes(ts[k]) == [] && [] + LongsFrom(ts, k + 1) == LongsFrom(ts, k + 1);
    } else {
      assert LongsFrom(ts, k + 1) == [] && Longs(ts, k + 1) == 0;
      LongOf(ts[k].s);
      assert LongBytes(ts[k]) + [] == LongBytes(ts[k]);
    }
  }

  /** Behind the parameters: how many strings there are, and the string behind a zero word. */
  lemma PackedFooter(ts: seq<Token>)
    requires IsCommand(ts) && Decodable(ts) && |ts| >= 2
    ensures var b, at, last := Packed(ts), |ts[0].s| + 5 + 20 * (|ts| - 1), ts[|ts| - 1];
      && at + 4 <= |b| && U32At(b, at) == (if last.Str? then 1 else 0)
      && b[at + 4..] == if last.Str? then [0, 0, 0, 0] + last.s + [0] else []
  {
    ParamsLength(ts, 1);
    var head := ts[0].s + [0] + WriteU32(Count(ts, 1)) + ParamsFrom(ts, 1);
    var longs, rest := Longs(ts, 1), LongsFrom(ts, 1);
    if ts[|ts| - 1].Str? {
      OneLong(ts, 1);
    } else {
      OnlyInts(ts, 1);
    }
    Assoc(head, WriteU32(longs), rest);
    U32AtIn(head, longs, rest);
  }

  /** What an argument is to the decoder. */
  function Meant(a: Arg): Param
    requires WfArg(a)
  {
    match a
    case Decimal(_, u) => IntParam(Number(10, u), 0, 0)
    case Hexadecimal(_, u) => IntParam(Number(16, u), 0, 0)
    case Quoted(_, s) => StrParam(s)
  }

  predicate OnlyLastQuoted(args: seq<Arg>) {
    forall i :: 0 <= i < |args| && args[i].Quoted? ==> i == |args| - 1 && |args[i].s| <= 63
  }

  lemma {:induction false} ParamsMeant(ts: seq<Token>, args: seq<Arg>, k: nat)
    requires WfArgs(args) && |ts| == |args| + 1 && 1 <= k <= |ts| && forall i :: 0 <= i < |args| ==> ts[i + 1] == TokenOf(args[i])
    ensures |ParamsOf(ts, k)| == |ts| - k && forall j :: 0 <= j < |ts| - k ==> ParamsOf(ts, k)[j] == Meant(args[k - 1 + j])
    decreases |ts| - k
  {
    if k < |ts| {
      ParamsMeant(ts, args, k + 1);
      assert ts[k] == TokenOf(args[k - 1]);
    }
  }

  lemma TokenFits(a: Arg)
    requires WfArg(a)
    ensures WfToken(TokenOf(a)) && !TokenOf(a).Text?
  {
  }

  lemma TokensFit(name: bytes, args: seq<Arg>, ts: seq<Token>)
    requires WfName(name) && |name| <= 63 && WfArgs(args) && OnlyLastQuoted(args)
    requires ts == [Text(name)] + TokensOf(args) && |ts| <= 10
    ensures IsCommand(ts) && Decodable(ts)
  {
    forall i | 1 <= i < |ts|
      ensures WfToken(ts[i]) && (ts[i].Int? || (i == |ts| - 1 && ts[i].Str? && |ts[i].s| <= 63))
    {
      assert ts[i] == TokenOf(args[i - 1]) && WfArg(args[i - 1]);
      TokenFits(args[i - 1]);
    }
  }

  datatype Result = Ok(data: bytes) | Err

  /** The packed form of a command text, if it starts with a name. */
  function PackedText(text: bytes): Result
    requires IsCString(text) && LexCommand(text).Tokens?
  {
    var ts := LexCommand(text).ts;
    if IsCommand(ts) then Ok(Packed(ts)) else Err
  }

  lemma {:induction false} ArgsAreText(args: seq<Arg>)
    requires WfArgs(args)
    ensures IsCString(ArgsText(args))
  {
    if args != [] {
      assert WfArg(args[0]);
      SpelledIsText(args[0]);
      ArgsAreText(args[1..]);
    }
  }

  lemma SpelledIsText(a: Arg)
    requires WfArg(a)
    ensures IsCString(a.sep) && IsCString(Spelled(a))
  {
  }

  /** A decoding gives the name, the number of arguments, and each of them. */
  predicate Gives(d: Decoding, name: bytes, args: seq<Arg>)
    requires WfArgs(args)
  {
    && d.Decoding? && d.name == name && d.count == |args| == |d.ps|
    && forall i :: 0 <= i < |args| ==> d.ps[i] == Meant(args[i])
  }

  /**
   From the text of a command to the decoder and back: for a name, any numbers and at most
   one string, at the end, the packer succeeds and the decoder gives back the name, the
   number of arguments, and each of them.
   */
  lemma EvProcRoundTrip(name: bytes, args: seq<Arg>)
    requires WfName(name) && |name| <= 63 && WfArgs(args) && |args| < 10 && OnlyLastQuoted(args)
    ensures var text := name + (ArgsText(args) + []);
      && IsCString(text) && LexCommand(text).Tokens? && PackedText(text).Ok? && |PackedText(text).data| <= 320
      && Gives(Decode(PackedText(text).data), name, args)
  {
    var ts := [Text(name)] + TokensOf(args);
    CommandLexed(name, args, []);
    TokensFit(name, args, ts);
    assert WfToken(ts[0]);
    ArgsAreText(args);
    TokensRoundTrip(name, args, ts);
  }

  lemma TokensRoundTrip(name: bytes, args: seq<Arg>, ts: seq<Token>)
    requires WfArgs(args) && ts == [Text(name)] + TokensOf(args) && IsCommand(ts) && Decodable(ts)
    ensures |Packed(ts)| <= 320 && Gives(Decode(Packed(ts)), name, args)
  {
    PackRoundTrip(ts);
    PackedFits(ts);
    TokensGive(Decode(Packed(ts)), name, args, ts);
  }

  lemma TokensGive(d: Decoding, name: bytes, args: seq<Arg>, ts: seq<Token>)
    requires WfArgs(args) && ts == [Text(name)] + TokensOf(args) && IsCommand(ts)
    requires d == Decoding(ts[0].s, |ts| - 1, ParamsOf(ts, 1))
    ensures Gives(d, name, args)
  {
    ParamsMeant(ts, args, 1);
    forall i | 0 <= i < |args| ensures d.ps[i] == Meant(args[i]) {
      assert d.ps[i] == Meant(args[1 - 1 + i]);
    }
  }

  // ----- The packer as it runs -----

  /** Appends m and counts it, in the word at numAt behind u. */
  method Append(a: array<byte>, numAt: nat, ghost n: u32, length: nat, m: bytes, ghost u: bytes, ghost p: bytes)
    requires numAt == |u| && numAt + 4 <= length && length + |m| <= a.Length && n + 1 < 0x1_0000_0000
    requires a[..length] == u + WriteU32(n) + p
    modifies a
    ensures a[..length + |m|] == u + WriteU32(n + 1) + (p + m)
  {
    Store(a, length, m);
    assert a[..length + |m|] == a[..length] + a[length..length + |m|];
    Assoc(u + WriteU32(n), p, m);
    Recount(a, numAt, n, length + |m|, u, p + m);
  }

  method Recount(a: array<byte>, numAt: nat, ghost n: u32, length: nat, ghost u: bytes, ghost p: bytes)
    requires numAt == |u| && numAt + 4 <= length <= a.Length && n + 1 < 0x1_0000_0000
    requires a[..length] == u + WriteU32(n) + p
    modifies a
    ensures a[..length] == u + WriteU32(n + 1) + p
  {
    ghost var before := a[..length];
    assert before[..numAt] == u && before[numAt + 4..] == p;
    FieldsOfPrefix(u + WriteU32(n), p, numAt);
    assert u + WriteU32(n) == u + WriteU32(n) + [];
    U32AtIn(u, n, []);
    ghost var rest := a[length..];
    assert a[..] == before + rest;
    FieldsOfPrefix(before, rest, numAt);
    var count := U32At(a[..], numAt);
    PutU32(a, numAt, count + 1);
    assert a[..length] == a[..numAt] + a[numAt..numAt + 4] + a[numAt + 4..length];
    assert a[numAt + 4..length] == p && a[..numAt] == u;
  }

  lemma ParamsUnfold(ts: seq<Token>, k: nat, p: bytes, l: bytes)
    requires k < |ts|
    ensures p + ParamsFrom(ts, k) == p + ParamBytes(ts[k]) + ParamsFrom(ts, k + 1)
    ensures l + LongsFrom(ts, k) == l + LongBytes(ts[k]) + LongsFrom(ts, k + 1)
    ensures Count(ts, k) == Count(ts, k + 1) + (if ts[k].Text? then 0 else 1)
    ensures Longs(ts, k) == Longs(ts, k + 1) + (if ts[k].Str? then 1 else 0)
  {
    Assoc(p, ParamBytes(ts[k]), ParamsFrom(ts, k + 1));
    Assoc(l, LongBytes(ts[k]), LongsFrom(ts, k + 1));
  }

  lemma PackedLength(ts: seq<Token>)
    requires IsCommand(ts)
    ensures |Packed(ts)| == |ts[0].s| + 5 + |ParamsFrom(ts, 1)| + 4 + |LongsFrom(ts, 1)|
  {
  }

  /** The loop of canon_evproc_pack over the parameters, u being the name in data. */
  method PackParams(toks: seq<Token>, data: array<byte>, footer: array<byte>, numAt: nat, ghost u: bytes)
    returns (length: nat, footerLength: nat)
    requires IsCommand(toks) && data != footer && numAt == |u|
    requires numAt + 4 + |ParamsFrom(toks, 1)| <= data.Length && 4 + |LongsFrom(toks, 1)| <= footer.Length
    requires data[..numAt + 4] == u + WriteU32(0) && footer[..4] == WriteU32(0)
    modifies data, footer
    ensures length <= data.Length && data[..length] == u + WriteU32(Count(toks, 1)) + ParamsFrom(toks, 1)
    ensures footerLength <= footer.Length && footer[..footerLength] == WriteU32(Longs(toks, 1)) + LongsFrom(toks, 1)
  {
    length, footerLength := numAt + 4, 4;
    ghost var p: bytes, l: bytes, n: u32, m: u32 := [], [], 0, 0;
    assert u + WriteU32(0) + [] == u + WriteU32(0) && [] + WriteU32(0) + [] == WriteU32(0);
    for t := 1 to |toks|
      invariant Progress(toks, t, p, l, n, m)
      invariant length == numAt + 4 + |p| <= data.Length && data[..length] == u + WriteU32(n) + p
      invariant footerLength == 4 + |l| <= footer.Length && footer[..footerLength] == [] + WriteU32(m) + l
    {
      ParamsUnfold(toks, t, p, l);
      length, footerLength := PackParam(toks[t], data, footer, numAt, length, footerLength, u, p, l, n, m);
      p, l := p + ParamBytes(toks[t]), l + LongBytes(toks[t]);
      n, m := if toks[t].Text? then n else n + 1, if toks[t].Str? then m + 1 else m;
    }
    ProgressDone(toks, p, l, n, m);
  }

  /** p and l are what the tokens before t gave, n and m how many they were. */
  ghost predicate Progress(toks: seq<Token>, t: nat, p: bytes, l: bytes, n: u32, m: u32)
    requires 1 <= t <= |toks| <= MAX_TOK
  {
    && p + ParamsFrom(toks, t) == ParamsFrom(toks, 1) && l + LongsFrom(toks, t) == LongsFrom(toks, 1)
    && Count(toks, t) + n == Count(toks, 1) && Longs(toks, t) + m == Longs(toks, 1)
  }

  lemma ProgressDone(toks: seq<Token>, p: bytes, l: bytes, n: u32, m: u32)
    requires 1 <= |toks| <= MAX_TOK && Progress(toks, |toks|, p, l, n, m)
    ensures p == ParamsFrom(toks, 1) && l == LongsFrom(toks, 1) && n == Count(toks, 1) && m == Longs(toks, 1)
    ensures [] + WriteU32(m) == WriteU32(m)
  {
    assert p + [] == p && l + [] == l;
  }

  method PackParam(t: Token, data: array<byte>, footer: array<byte>, numAt: nat, length: nat, footerLength: nat,
                   ghost u: bytes, ghost p: bytes, ghost l: bytes, ghost n: u32, ghost m: u32)
    returns (length': nat, footerLength': nat)
    requires data != footer && numAt == |u| && n + 1 < 0x1_0000_0000 && m + 1 < 0x1_0000_0000
    requires length == numAt + 4 + |p| && length + |ParamBytes(t)| <= data.Length && data[..length] == u + WriteU32(n) + p
    requires footerLength == 4 + |l| && footerLength + |LongBytes(t)| <= footer.Length
    requires footer[..footerLength] == [] + WriteU32(m) + l
    modifies data, footer
    ensures length' == length + |ParamBytes(t)| && footerLength' == footerLength + |LongBytes(t)|
    ensures data[..length'] == u + WriteU32(if t.Text? then n else n + 1) + (p + ParamBytes(t))
    ensures footer[..footerLength'] == [] + WriteU32(if t.Str? then m + 1 else m) + (l + LongBytes(t))
  {
    length', footerLength' := length + |ParamBytes(t)|, footerLength + |LongBytes(t)|;
    assert t.Text? ==> p + ParamBytes(t) == p;
    assert !t.Str? ==> l + LongBytes(t) == l;
    if !t.Text? {
      Append(data, numAt, n, length, ParamBytes(t), u, p);
    }
    if t.Str? {
      Append(footer, 0, m, footerLength, LongBytes(t), [], l);
    }
  }

  /** A C string, with its terminator. */
  predicate IsText(s: bytes) {
    s != [] && s[|s| - 1] == 0 && forall i :: 0 <= i < |s| - 1 ==> s[i] != 0
  }

  lemma {:induction false} AlphaRun(k: Class, s: bytes)
    requires Terminated(s)
    ensures IsCString(s[..Run(k, s)])
  {
    if IsIn(k, s[0]) {
      AlphaRun(k, s[1..]);
      assert s[..Run(k, s)] == [s[0]] + s[1..][..Run(k, s[1..])];
    }
  }

  lemma {:induction false} BlanksOfText(s: bytes)
    requires IsText(s)
    ensures IsText(SkipBlanks(s))
  {
    if IsBlank(s[0]) {
      BlanksOfText(s[1..]);
    }
  }

  predicate AllWf(ts: seq<Token>) {
    forall i :: 0 <= i < |ts| ==> WfToken(ts[i])
  }

  /** What the lexer finds in a text are tokens that can be packed. */
  lemma {:induction false} LexedWell(s: bytes)
    requires IsText(s) && Lex(s).Tokens?
    ensures AllWf(Lex(s).ts)
    decreases |s|, 1
  {
    if s[0] != 0 {
      BlanksOfText(s);
      LexedWellAt(SkipBlanks(s));
    }
  }

  lemma {:induction false} LexedWellAt(t: bytes)
    requires IsText(t) && LexAt(t).Tokens?
    ensures AllWf(LexAt(t).ts)
    decreases |t|, 0
  {
    if IsIn(Alpha, t[0]) {
      AlphaRun(Alpha, t);
      LexedWell(t[Run(Alpha, t)..]);
    } else if t[0] == ZERO && t[1] == LOWER_X {
      LexedWell(t[2 + Run(Hex, t[2..])..]);
    } else if IsIn(Digit, t[0]) {
      LexedWell(t[Run(Digit, t)..]);
    } else if t[0] == QUOTE {
      LexedWell(t[ToQuote(t[1..]) + 2..]);
    } else {
      LexedWell(t[1..]);
    }
  }

  /** A text is packed exactly if it starts with a name. */
  lemma PackedIfNamed(text: bytes)
    requires IsCString(text) && LexCommand(text).Tokens?
    ensures PackedText(text).Ok? <==> LexCommand(text).ts != [] && LexCommand(text).ts[0].Text?
  {
    LexedWell(text + [0]);
  }

  /** The tokens from k on that are no plain words. */
  function NoWords(ts: seq<Token>, k: nat): seq<Token>
    requires k <= |ts|
    decreases |ts| - k
  {
    if k == |ts| then [] else (if ts[k].Text? then [] else [ts[k]]) + NoWords(ts, k + 1)
  }

  /** From j on, us packs like ts from k on. */
  ghost predicate PackAlike(us: seq<Token>, j: nat, ts: seq<Token>, k: nat)
    requires j <= |us| && k <= |ts|
  {
    && ParamsFrom(us, j) == ParamsFrom(ts, k) && LongsFrom(us, j) == LongsFrom(ts, k)
    && Count(us, j) == Count(ts, k) && Longs(us, j) == Longs(ts, k)
  }

  lemma AlikeStep(us: seq<Token>, j: nat, ts: seq<Token>, k: nat)
    requires j < |us| && k < |ts| && us[j] == ts[k] && PackAlike(us, j + 1, ts, k + 1)
    ensures PackAlike(us, j, ts, k)
  {
  }

  lemma AlikeOverWord(us: seq<Token>, j: nat, ts: seq<Token>, k: nat)
    requires j <= |us| && k < |ts| && ts[k].Text? && PackAlike(us, j, ts, k + 1)
    ensures PackAlike(us, j, ts, k)
  {
    assert ParamBytes(ts[k]) == [] && LongBytes(ts[k]) == [];
    assert [] + ParamsFrom(ts, k + 1) == ParamsFrom(ts, k + 1) && [] + LongsFrom(ts, k + 1) == LongsFrom(ts, k + 1);
  }

  lemma {:induction false} FrontDropped(t: Token, ts: seq<Token>, k: nat)
    requires k <= |ts|
    ensures PackAlike([t] + ts, k + 1, ts, k)
    decreases |ts| - k
  {
    if k < |ts| {
      FrontDropped(t, ts, k + 1);
      AlikeStep([t] + ts, k + 1, ts, k);
    }
  }

  lemma AlikeInFront(t: Token, others: seq<Token>, ts: seq<Token>, k: nat)
    requires k < |ts| && t == ts[k] && PackAlike(others, 0, ts, k + 1)
    ensures PackAlike([t] + others, 0, ts, k)
  {
    FrontDropped(t, others, 0);
    AlikeStep([t] + others, 0, ts, k);
  }

  lemma WordsStep(ts: seq<Token>, k: nat, others: seq<Token>)
    requires k < |ts| && others == NoWords(ts, k + 1) && PackAlike(others, 0, ts, k + 1)
    ensures PackAlike(NoWords(ts, k), 0, ts, k)
  {
    if ts[k].Text? {
      assert NoWords(ts, k) == others;
      AlikeOverWord(others, 0, ts, k);
    } else {
      assert NoWords(ts, k) == [ts[k]] + others;
      AlikeInFront(ts[k], others, ts, k);
    }
  }

  lemma {:induction false} WordsSkipped(ts: seq<Token>, k: nat)
    requires k <= |ts|
    ensures PackAlike(NoWords(ts, k), 0, ts, k)
    decreases |ts| - k
  {
    if k < |ts| {
      WordsSkipped(ts, k + 1);
      WordsStep(ts, k, NoWords(ts, k + 1));
    }
  }

  lemma {:induction false} NoWordsLeft(ts: seq<Token>, k: nat)
    requires k <= |ts|
    ensures |NoWords(ts, k)| <= |ts| - k
    ensures forall i :: 0 <= i < |NoWords(ts, k)| ==> NoWords(ts, k)[i] in ts && !NoWords(ts, k)[i].Text?
    decreases |ts| - k
  {
    if k < |ts| {
      NoWordsLeft(ts, k + 1);
    }
  }

  /** Plain words behind the name are left out: the packed form is that of the other tokens. */
  lemma WordsIgnored(ts: seq<Token>)
    requires IsCommand(ts)
    ensures IsCommand([ts[0]] + NoWords(ts, 1)) && NoText([ts[0]] + NoWords(ts, 1))
    ensures Packed(ts) == Packed([ts[0]] + NoWords(ts, 1))
  {
    WordsSkipped(ts, 1);
    NoWordsLeft(ts, 1);
    FrontDropped(ts[0], NoWords(ts, 1), 0);
  }

  /** canon_evproc_pack, for a text that can be lexed and whose packed form fits its two buffers of 500 bytes. */
  method CanonEvprocPack(text: bytes) returns (r: Result)
    requires IsCString(text) && LexCommand(text).Tokens?
    requires PackedText(text).Ok? ==> |PackedText(text).data| <= 500
    ensures r == PackedText(text)
  {
    LexedWell(text + [0]);
    var toks := LexEvprocCommand(text);
    r := PackTokens(toks);
  }

  /** The packer behind the lexer. */
  method PackTokens(toks: seq<Token>) returns (r: Result)
    requires |toks| <= MAX_TOK && (forall i :: 0 <= i < |toks| ==> WfToken(toks[i]))
    requires IsCommand(toks) ==> |Packed(toks)| <= 500
    ensures r == if IsCommand(toks) then Ok(Packed(toks)) else Err
  {
    if |toks| == 0 || !toks[0].Text? {
      return Err;
    }
    PackedLength(toks);
    var data, footer := new byte[500], new byte[500];
    PutU32(footer, 0, 0);
    var name := toks[0].s + [0];
    Store(data, 0, name);
    PutU32(data, |name|, 0);
    assert data[..|name|] == name && data[..|name| + 4] == data[..|name|] + data[|name|..|name| + 4];
    assert footer[..4] == footer[0..4];
    var length, footerLength := PackParams(toks, data, footer, |name|, name);
    Store(data, length, footer[..footerLength]);
    assert data[..length + footerLength] == data[..length] + data[length..length + footerLength];
    r := Ok(data[..length + footerLength]);
  }

  // ----- The decoder as it runs -----

  function Preceded(ps: seq<Param>, x: Params): Params {
    if x.Found? then Found(ps + x.ps) else Outside
  }

  /** ptp_read_utf8_string, up to its terminator. */
  method ReadUtf8String(d: bytes, buffer: array<byte>) returns (of: nat)
    requires buffer.Length == 64 && StrEnd(d, 0) >= 0
    modifies buffer
    ensures of == StrEnd(d, 0) + 1 && buffer[..of - 1] == d[..of - 1]
  {
    var x := 0;
    while d[x] != 0
      invariant x <= 63 && x < |d| && StrEnd(d, x) == StrEnd(d, 0)
      invariant buffer[..x] == d[..x]
      decreases |d| - x
    {
      buffer[x] := d[x];
      assert buffer[..x + 1] == d[..x + 1];
      x := x + 1;
    }
    buffer[x] := 0;
    of := x + 1;
  }

  /** One round of the loop of decode_eos_evproc. */
  method DecodeParam(data: bytes, of: nat, buffer: array<byte>, ghost n: nat) returns (p: Param, next: nat)
    requires buffer.Length == 64 && of <= |data| && n >= 1 && DecodeParams(data[of..], n).Found?
    modifies buffer
    ensures next <= |data| && DecodeParams(data[of..], n) == AndThen(p, DecodeParams(data[next..], n - 1))
  {
    var d := data[of..];
    var kind := U32At(d, 0);
    if kind == 2 {
      p, next := IntParam(U32At(d, 4), U32At(d, 8), U32At(d, 12)), of + 20;
      assert d[20..] == data[next..];
    } else if kind == 4 {
      var m := ReadUtf8String(d[28..], buffer);
      p, next := StrParam(buffer[..m - 1]), of + 28 + m;
      assert d[28..][m..] == data[next..];
    } else {
      p, next := UnknownParam(kind), of + 4;
      assert d[4..] == data[next..];
    }
  }

  /** The loop of decode_eos_evproc. */
  method DecodeAll(data: bytes, start: nat, len: nat, buffer: array<byte>) returns (ps: seq<Param>)
    requires buffer.Length == 64 && start <= |data| && DecodeParams(data[start..], len).Found?
    modifies buffer
    ensures DecodeParams(data[start..], len) == Found(ps)
  {
    var of := start;
    ps := [];
    ghost var all := DecodeParams(data[of..], len);
    assert [] + all.ps == all.ps;
    for i := 0 to len
      invariant of <= |data| && all == Preceded(ps, DecodeParams(data[of..], len - i))
    {
      var p;
      p, of := DecodeParam(data, of, buffer, len - i);
      Assoc(ps, [p], DecodeParams(data[of..], len - i - 1).ps);
      ps := ps + [p];
    }
    assert ps + [] == ps;
  }

  /** decode_eos_evproc, for bytes that it does not run out of; what it prints is returned. */
  method DecodeEosEvproc(data: bytes) returns (name: bytes, len: u32, ps: seq<Param>)
    requires Decode(data).Decoding?
    ensures Decode(data) == Decoding(name, len, ps)
  {
    var buffer := new byte[64];
    var of := ReadUtf8String(data, buffer);
    name := buffer[..of - 1];
    assert data == data[..of] + data[of..];
    FieldsOfSuffix(data[..of], data[of..], 0);
    len := U32At(data[of..], 0);
    ps := DecodeAll(data, of + 4, len, buffer);
  }
}
