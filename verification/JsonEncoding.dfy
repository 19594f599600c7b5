/**
 What the JSON encoder of src/lua/lua-cjson/lua_cjson.c produces for a Lua value, as a
 syntax tree without blanks, or why it refuses the value.
 */
module JsonEncoding {
  import opened Octets
  import opened JsonLexis
  import opened JsonSyntax

  // ----- Lua values as the encoder reads them -----

  /** The integers that "%.14g" prints in full. */
  type Printable = n: int | -100_000_000_000_000 < n < 100_000_000_000_000

  /** What "%.14g" prints for a finite number: a strict numeral of digits, signs, a point and an e. */
  predicate IsFloatText(u: bytes) {
    WfNumeral(u, true) && |u| < 32 && forall i :: 0 <= i < |u| ==> IsFloatChar(u[i])
  }

  predicate IsFloatChar(c: byte) {
    IsDigit(c) || c == MINUS || c == PLUS || c == DOT || c == 0x65
  }

  type FloatText = u: bytes | IsFloatText(u) witness OneHalf()

  function OneHalf(): (u: bytes)
    ensures IsFloatText(u)
  {
    var u: bytes := [DIGIT_0, DOT, 0x35];
    assert Unsigned(u) == u && u[..3] == u && u[3..] == [];
    assert u[..1] == [DIGIT_0] && u[2..] == [0x35] && IsMantissa(u[..3]);
    assert IsDecimal(u);
    u
  }

  /** A table is the list of its entries in the order in which lua_next finds them. */
  datatype Lua =
    | Nil
    | LuaNull
    | LuaBool(b: bool)
    | LuaInt(n: Printable)
    | LuaFloat(text: FloatText)
    | NotFinite
    | LuaStr(s: bytes)
    | LuaTable(entries: seq<Entry>)
    | Unsupported

  datatype Entry = Entry(key: Key, value: Lua)

  /** Keys of a table differ, and no value in it is nil. */
  ghost predicate WfLua(v: Lua) {
    v.LuaTable? ==>
      && (forall i, j :: 0 <= i < j < |v.entries| ==> v.entries[i].key != v.entries[j].key)
      && (forall i :: 0 <= i < |v.entries| ==> !v.entries[i].value.Nil? && WfLua(v.entries[i].value))
      && (forall i :: 0 <= i < |v.entries| && v.entries[i].key.IntKey? ==> IsPrintable(v.entries[i].key.i))
      && (forall i :: 0 <= i < |v.entries| && v.entries[i].key.FloatKey? ==> IsFloatText(v.entries[i].key.text))
  }

  predicate IsPrintable(n: int) {
    -100_000_000_000_000 < n < 100_000_000_000_000
  }

  datatype Config = Config(sparseConvert: bool, sparseRatio: nat, sparseSafe: nat, maxDepth: nat)

  datatype Refusal = ExcessiveNesting | SparseArray | BadKey | BadNumber | BadType

  datatype Encoding = Encoded(json: Json) | Refused(why: Refusal)

  // ----- Numbers -----

  function Digits(n: nat): (u: bytes)
    ensures u != [] && AllDigits(u)
  {
    if n < 10 then [n + 0x30] else Digits(n / 10) + [n % 10 + 0x30]
  }

  function PrintInt(n: int): bytes {
    if n < 0 then [MINUS] + Digits(-n) else Digits(n)
  }

  // ----- Strings -----

  function LowerHex(d: nat): byte
    requires d < 16
  {
    if d < 10 then d + 0x30 else d - 10 + 0x61
  }

  /** The table char2escape. */
  function EscapeItem(c: byte): StrItem {
    if c == 0x08 then Short(0x62)
    else if c == TAB then Short(0x74)
    else if c == LF then Short(0x6E)
    else if c == 0x0C then Short(0x66)
    else if c == CR then Short(0x72)
    else if c == QUOTE || c == SLASH || c == BACKSLASH then Short(c)
    else if c < 0x20 || c == 0x7F then Unit([DIGIT_0, DIGIT_0, LowerHex(c / 16), LowerHex(c % 16)])
    else Plain(c)
  }

  function ItemsOf(s: bytes): (items: seq<StrItem>)
    ensures |items| == |s|
  {
    if s == [] then [] else [EscapeItem(s[0])] + ItemsOf(s[1..])
  }

  // ----- Tables -----

  datatype Shape = ArrayOf(n: nat) | AnObject | TooSparse

  predicate IsIndex(k: Key) {
    k.IntKey? && k.i >= 1
  }

  predicate AllIndices(es: seq<Entry>) {
    forall i :: 0 <= i < |es| ==> IsIndex(es[i].key)
  }

  function MaxIndex(es: seq<Entry>): (n: nat)
    requires AllIndices(es)
  {
    if es == [] then 0
    else
      var n := MaxIndex(es[..|es| - 1]);
      assert IsIndex(es[|es| - 1].key);
      var last := es[|es| - 1].key.i;
      if last > n then last else n
  }

  /** lua_array_length: a table is an array when all its keys are positive integers. */
  function ShapeOf(es: seq<Entry>, cfg: Config): Shape {
    if !AllIndices(es) then AnObject
    else
      var max := MaxIndex(es);
      if cfg.sparseRatio > 0 && max > |es| * cfg.sparseRatio && max > cfg.sparseSafe then
        if cfg.sparseConvert then AnObject else TooSparse
      else ArrayOf(max)
  }

  /** The entry of an index, or -1: lua_rawgeti then gives nil. */
  function Find(es: seq<Entry>, i: int): (k: int)
    ensures -1 <= k < |es|
    ensures k >= 0 ==> es[k].key == IntKey(i)
    ensures k < 0 ==> forall j :: 0 <= j < |es| ==> es[j].key != IntKey(i)
  {
    if es == [] then -1
    else if es[|es| - 1].key == IntKey(i) then |es| - 1
    else Find(es[..|es| - 1], i)
  }

  datatype ElementsEncoding = SomeElements(elements: Elements) | NoElements(why: Refusal)
  datatype MembersEncoding = SomeMembers(members: Members) | NoMembers(why: Refusal)

  /** json_append_data at the nesting depth d. */
  function JsonOf(v: Lua, cfg: Config, d: nat): Encoding
    decreases v, 2, 0
  {
    match v
    case Nil => Encoded(NullLit)
    case LuaNull => Encoded(NullLit)
    case LuaBool(b) => Encoded(BoolLit(b))
    case LuaInt(n) => Encoded(NumLit(PrintInt(n)))
    case LuaFloat(text) => Encoded(NumLit(text))
    case NotFinite => Refused(BadNumber)
    case LuaStr(s) => Encoded(StrLit(ItemsOf(s)))
    case Unsupported => Refused(BadType)
    case LuaTable(es) =>
      match ShapeOf(es, cfg)
      case TooSparse => Refused(SparseArray)
      case ArrayOf(n) => if n > 0 then ArrayJson(v, n, cfg, d) else ObjectJson(v, cfg, d)
      case AnObject => ObjectJson(v, cfg, d)
  }

  /** json_append_array */
  function ArrayJson(v: Lua, n: nat, cfg: Config, d: nat): Encoding
    requires v.LuaTable? && n > 0
    decreases v, 1, n + 1
  {
    if d + 1 > cfg.maxDepth then Refused(ExcessiveNesting)
    else
      match ElementsOf(v, 1, n, cfg, d + 1)
      case SomeElements(elements) => Encoded(Array(elements))
      case NoElements(why) => Refused(why)
  }

  /** The entry i of an array, nil where it has a hole. */
  function ElementOf(v: Lua, i: int, cfg: Config, d: nat): Encoding
    requires v.LuaTable?
    decreases v, 0, 0
  {
    var k := Find(v.entries, i);
    if k < 0 then Encoded(NullLit) else JsonOf(v.entries[k].value, cfg, d)
  }

  function ElementsOf(v: Lua, i: nat, n: nat, cfg: Config, d: nat): ElementsEncoding
    requires v.LuaTable? && 1 <= i <= n
    decreases v, 1, n - i + 1
  {
    match ElementOf(v, i, cfg, d)
    case Refused(why) => NoElements(why)
    case Encoded(json) =>
      if i == n then SomeElements(Elements([], json, CloseArray([])))
      else
        match ElementsOf(v, i + 1, n, cfg, d)
        case NoElements(why) => NoElements(why)
        case SomeElements(others) => SomeElements(Elements([], json, MoreElements([], others)))
  }

  /** json_append_object */
  function ObjectJson(v: Lua, cfg: Config, d: nat): Encoding
    requires v.LuaTable?
    decreases v, 1, |v.entries| + 1
  {
    if d + 1 > cfg.maxDepth then Refused(ExcessiveNesting)
    else if v.entries == [] then Encoded(EmptyObject([]))
    else
      match MembersOf(v, 0, cfg, d + 1)
      case SomeMembers(members) => Encoded(Object(members))
      case NoMembers(why) => Refused(why)
  }

  predicate IsBadKey(k: Key) {
    k.OtherKey? || k.InfiniteKey?
  }

  function KeyRefusal(k: Key): Refusal {
    if k.InfiniteKey? then BadNumber else BadKey
  }

  /** A numeric key is written as a string. */
  function KeyItems(k: Key): seq<StrItem> {
    match k
    case IntKey(i) => ItemsOf(PrintInt(i))
    case StrKey(s) => ItemsOf(s)
    case FloatKey(text) => ItemsOf(text)
    case InfiniteKey => []
    case OtherKey => []
  }

  function MembersOf(v: Lua, k: nat, cfg: Config, d: nat): MembersEncoding
    requires v.LuaTable? && k < |v.entries|
    decreases v, 1, |v.entries| - k
  {
    var e := v.entries[k];
    if IsBadKey(e.key) then NoMembers(KeyRefusal(e.key))
    else
      match JsonOf(e.value, cfg, d)
      case Refused(why) => NoMembers(why)
      case Encoded(json) =>
        if k + 1 == |v.entries| then SomeMembers(Members([], KeyItems(e.key), [], [], json, CloseObject([])))
        else
          match MembersOf(v, k + 1, cfg, d)
          case NoMembers(why) => NoMembers(why)
          case SomeMembers(others) => SomeMembers(Members([], KeyItems(e.key), [], [], json, MoreMembers([], others)))
  }
}
