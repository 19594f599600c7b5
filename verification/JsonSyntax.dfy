/**
 The grammar of section 2 of RFC 4627, relaxed as Lua CJSON relaxes it: any value may
 stand at the top, strings may hold raw control characters, and a number is one lexical
 class. A syntax tree records every blank and every escape, so that a text derives from
 the grammar exactly when it is the text of a well-formed tree. `Denote` gives the Lua
 value of a tree. The terminals are written out byte by byte, apart from those that the
 decoder is made of; only numerals, which are strtod's, are shared with it.
 */
module JsonSyntax {
  import opened Octets
  import opened JsonLexis

  // ----- Lua values as the decoder builds them -----

  /** FloatKey holds what is printed for a number that is no integer; the decoder makes none. */
  datatype Key = IntKey(i: int) | FloatKey(text: bytes) | InfiniteKey | StrKey(s: bytes) | OtherKey

  datatype Value =
    | NullValue
    | BoolValue(b: bool)
    | NumValue(num: Num)
    | StrValue(s: bytes)
    | TableValue(fields: map<Key, Value>)

  // ----- Syntax trees -----

  datatype StrItem = Plain(c: byte) | Short(c: byte) | Unit(h: bytes) | Pair(hi: bytes, lo: bytes)

  datatype Json =
    | NullLit
    | BoolLit(b: bool)
    | NumLit(numeral: bytes)
    | StrLit(items: seq<StrItem>)
    | EmptyArray(ws: bytes)
    | Array(elements: Elements)
    | EmptyObject(ws: bytes)
    | Object(members: Members)

  datatype Elements = Elements(before: bytes, value: Json, tail: ElementsTail)

  datatype ElementsTail = CloseArray(ws: bytes) | MoreElements(ws: bytes, elements: Elements)

  datatype Members = Members(before: bytes, key: seq<StrItem>, mid: bytes, pre: bytes, value: Json, tail: MembersTail)

  datatype MembersTail = CloseObject(ws: bytes) | MoreMembers(ws: bytes, members: Members)

  datatype Document = Document(before: bytes, value: Json, after: bytes)

  // ----- Terminals -----

  /** Section 2: space, horizontal tab, line feed and carriage return. */
  predicate IsWhite(c: byte) {
    c == 0x20 || c == 0x09 || c == 0x0A || c == 0x0D
  }

  predicate White(ws: bytes) {
    forall i :: 0 <= i < |ws| ==> IsWhite(ws[i])
  }

  /** Section 2.5: what the character behind a backslash stands for, -1 if there is no such escape. */
  function ShortValue(c: byte): int {
    if c == 0x22 then 0x22
    else if c == 0x5C then 0x5C
    else if c == 0x2F then 0x2F
    else if c == 0x62 then 0x08
    else if c == 0x66 then 0x0C
    else if c == 0x6E then 0x0A
    else if c == 0x72 then 0x0D
    else if c == 0x74 then 0x09
    else -1
  }

  function HexDigitValue(c: byte): int {
    if 0x30 <= c <= 0x39 then c - 0x30
    else if 0x41 <= c <= 0x46 then c - 0x41 + 10
    else if 0x61 <= c <= 0x66 then c - 0x61 + 10
    else -1
  }

  /** Four hexadecimal digits of either case, and their value. */
  predicate IsHexText(h: bytes) {
    |h| == 4 && forall i :: 0 <= i < 4 ==> HexDigitValue(h[i]) >= 0
  }

  function HexNumber(h: bytes): (n: nat)
    requires IsHexText(h)
    ensures n < 0x1_0000
  {
    ((HexDigitValue(h[0]) * 16 + HexDigitValue(h[1])) * 16 + HexDigitValue(h[2])) * 16 + HexDigitValue(h[3])
  }

  /** Section 2.1 of RFC 2781. */
  predicate IsHigh(n: int) {
    0xD800 <= n <= 0xDBFF
  }

  predicate IsLow(n: int) {
    0xDC00 <= n <= 0xDFFF
  }

  function PairNumber(hi: int, lo: int): (cp: nat)
    requires IsHigh(hi) && IsLow(lo)
    ensures 0x1_0000 <= cp <= 0x10_FFFF
  {
    (hi - 0xD800) * 0x400 + (lo - 0xDC00) + 0x1_0000
  }

  function Power10(k: nat): nat {
    if k == 0 then 1 else 10 * Power10(k - 1)
  }

  /** The number that decimal digits stand for, by their places. */
  function Decimal(w: bytes): nat
    requires forall i :: 0 <= i < |w| ==> 0x30 <= w[i] <= 0x39
  {
    if w == [] then 0 else (w[0] - 0x30) * Power10(|w| - 1) + Decimal(w[1..])
  }

  // ----- Their text -----

  function ItemText(x: StrItem): bytes {
    match x
    case Plain(c) => [c]
    case Short(c) => [0x5C, c]
    case Unit(h) => [0x5C, 0x75] + h
    case Pair(hi, lo) => [0x5C, 0x75] + hi + [0x5C, 0x75] + lo
  }

  function StrText(items: seq<StrItem>): bytes {
    if items == [] then [] else ItemText(items[0]) + StrText(items[1..])
  }

  function Quoted(items: seq<StrItem>): bytes {
    [0x22] + StrText(items) + [0x22]
  }

  function Text(j: Json): bytes {
    match j
    case NullLit => [0x6E, 0x75, 0x6C, 0x6C]
    case BoolLit(b) => if b then [0x74, 0x72, 0x75, 0x65] else [0x66, 0x61, 0x6C, 0x73, 0x65]
    case NumLit(numeral) => numeral
    case StrLit(items) => Quoted(items)
    case EmptyArray(ws) => [0x5B] + ws + [0x5D]
    case Array(elements) => [0x5B] + ElementsText(elements)
    case EmptyObject(ws) => [0x7B] + ws + [0x7D]
    case Object(members) => [0x7B] + MembersText(members)
  }

  function ElementsText(e: Elements): bytes {
    e.before + Text(e.value) + ElementsTailText(e.tail)
  }

  function ElementsTailText(e: ElementsTail): bytes {
    match e
    case CloseArray(ws) => ws + [0x5D]
    case MoreElements(ws, elements) => ws + [0x2C] + ElementsText(elements)
  }

  function MembersText(m: Members): bytes {
    m.before + Quoted(m.key) + (m.mid + [0x3A] + (m.pre + Text(m.value) + MembersTailText(m.tail)))
  }

  function MembersTailText(m: MembersTail): bytes {
    match m
    case CloseObject(ws) => ws + [0x7D]
    case MoreMembers(ws, members) => ws + [0x2C] + MembersText(members)
  }

  function DocumentText(d: Document): bytes {
    d.before + Text(d.value) + d.after
  }

  // ----- Well-formedness -----

  predicate WfItem(x: StrItem) {
    match x
    case Plain(c) => c != 0 && c != 0x22 && c != 0x5C
    case Short(c) => ShortValue(c) >= 0
    case Unit(h) => IsHexText(h) && !IsHigh(HexNumber(h)) && !IsLow(HexNumber(h))
    case Pair(hi, lo) => IsHexText(hi) && IsHigh(HexNumber(hi)) && IsHexText(lo) && IsLow(HexNumber(lo))
  }

  predicate WfString(items: seq<StrItem>) {
    forall i :: 0 <= i < |items| ==> WfItem(items[i])
  }

  /** The lexical class of numbers; `strict` leaves out +n, leading zeros, hexadecimal, inf and nan. */
  predicate WfNumeral(x: bytes, strict: bool) {
    && IsNumeral(x) && x[0] != DOT
    && (strict ==>
          var u := Unsigned(x);
          && x[0] != PLUS && u != [] && u[0] <= DIGIT_9
          && (u[0] == DIGIT_0 && |u| > 1 ==> !IsDigit(u[1]) && Lower(u[1]) != 0x78))
  }

  predicate Wf(j: Json, strict: bool) {
    match j
    case NullLit => true
    case BoolLit(_) => true
    case NumLit(numeral) => WfNumeral(numeral, strict)
    case StrLit(items) => WfString(items)
    case EmptyArray(ws) => White(ws)
    case Array(elements) => WfElements(elements, strict)
    case EmptyObject(ws) => White(ws)
    case Object(members) => WfMembers(members, strict)
  }

  predicate WfElements(e: Elements, strict: bool) {
    White(e.before) && Wf(e.value, strict) && WfElementsTail(e.tail, strict)
  }

  predicate WfElementsTail(e: ElementsTail, strict: bool) {
    White(e.ws) && (e.MoreElements? ==> WfElements(e.elements, strict))
  }

  predicate WfMembers(m: Members, strict: bool) {
    && White(m.before) && WfString(m.key) && White(m.mid)
    && White(m.pre) && Wf(m.value, strict) && WfMembersTail(m.tail, strict)
  }

  predicate WfMembersTail(m: MembersTail, strict: bool) {
    White(m.ws) && (m.MoreMembers? ==> WfMembers(m.members, strict))
  }

  predicate WfDocument(d: Document, strict: bool) {
    White(d.before) && Wf(d.value, strict) && White(d.after)
  }

  // ----- The value the grammar assigns -----

  function ItemBytes(x: StrItem): bytes
    requires WfItem(x)
  {
    match x
    case Plain(c) => [c]
    case Short(c) => [ShortValue(c)]
    case Unit(h) => CodepointToUtf8(HexNumber(h))
    case Pair(hi, lo) => CodepointToUtf8(PairNumber(HexNumber(hi), HexNumber(lo)))
  }

  function StrBytes(items: seq<StrItem>): bytes
    requires WfString(items)
  {
    if items == [] then [] else ItemBytes(items[0]) + StrBytes(items[1..])
  }

  function Denote(j: Json, strict: bool): Value
    requires Wf(j, strict)
  {
    match j
    case NullLit => NullValue
    case BoolLit(b) => BoolValue(b)
    case NumLit(numeral) => NumValue(NumberOf(numeral))
    case StrLit(items) => StrValue(StrBytes(items))
    case EmptyArray(_) => TableValue(map[])
    case Array(elements) => TableValue(DenoteElements(elements, strict, 1, map[]))
    case EmptyObject(_) => TableValue(map[])
    case Object(members) => TableValue(DenoteMembers(members, strict, map[]))
  }

  /** Elements take the keys i, i + 1, ... of the table t. */
  function DenoteElements(e: Elements, strict: bool, i: int, t: map<Key, Value>): map<Key, Value>
    requires WfElements(e, strict)
  {
    DenoteElementsTail(e.tail, strict, i + 1, t[IntKey(i) := Denote(e.value, strict)])
  }

  function DenoteElementsTail(e: ElementsTail, strict: bool, i: int, t: map<Key, Value>): map<Key, Value>
    requires WfElementsTail(e, strict)
  {
    if e.MoreElements? then DenoteElements(e.elements, strict, i, t) else t
  }

  /** Members are set in their order: of two equal keys the later wins. */
  function DenoteMembers(m: Members, strict: bool, t: map<Key, Value>): map<Key, Value>
    requires WfMembers(m, strict)
  {
    DenoteMembersTail(m.tail, strict, t[StrKey(StrBytes(m.key)) := Denote(m.value, strict)])
  }

  function DenoteMembersTail(m: MembersTail, strict: bool, t: map<Key, Value>): map<Key, Value>
    requires WfMembersTail(m, strict)
  {
    if m.MoreMembers? then DenoteMembers(m.members, strict, t) else t
  }
}
