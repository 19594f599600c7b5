/**
 The JSON encoder of src/lua/lua-cjson/lua_cjson.c as it runs: it appends to one growing
 buffer and keeps the nesting depth in its configuration.
 */
module JsonEncoder {
  import opened Octets
  import opened JsonLexis
  import opened JsonSyntax
  import opened JsonEncoding
  import opened JsonRoundTrip
  import opened JsonCodec
  import opened StringBuffer

  datatype Verdict = Done | Throw(why: Refusal)

  // ----- The text still to be written -----

  datatype Output = Written(text: bytes) | Stopped(why: Refusal)

  /** The output when u has been written already. */
  function After(u: bytes, o: Output): Output {
    if o.Written? then Written(u + o.text) else o
  }

  lemma AfterTwice(u: bytes, w: bytes, o: Output)
    ensures After(u, After(w, o)) == After(u + w, o)
  {
    if o.Written? {
      Assoc(u, w, o.text);
    }
  }

  lemma OneMore(u: bytes, comma: bytes, text: bytes, o: Output)
    ensures After(u, After(comma + text, o)) == After(u + comma + text, o)
  {
    Assoc(u, comma, text);
    AfterTwice(u, comma + text, o);
  }

  function OutputOf(x: Encoding): Output {
    match x
    case Encoded(json) => Written(Text(json))
    case Refused(why) => Stopped(why)
  }

  function CommaIf(b: bool): bytes {
    if b then [COMMA] else []
  }

  /** The output of the array loop from its round i on. */
  function ArrayOutput(v: Lua, i: nat, n: nat, cfg: Config, d: nat): Output
    requires v.LuaTable? && 1 <= i <= n + 1
    decreases n + 1 - i
  {
    if i > n then Written([RBRACKET])
    else
      match ElementOf(v, i, cfg, d)
      case Refused(why) => Stopped(why)
      case Encoded(json) => After(CommaIf(i > 1) + Text(json), ArrayOutput(v, i + 1, n, cfg, d))
  }

  lemma {:induction false} ArrayOutputRight(v: Lua, i: nat, n: nat, cfg: Config, d: nat)
    requires v.LuaTable? && 1 <= i <= n
    ensures ArrayOutput(v, i, n, cfg, d)
         == match ElementsOf(v, i, n, cfg, d)
            case NoElements(why) => Stopped(why)
            case SomeElements(e) => Written(CommaIf(i > 1) + ElementsText(e))
    decreases n - i
  {
    if i < n {
      ArrayOutputRight(v, i + 1, n, cfg, d);
    } else {
      assert ArrayOutput(v, n + 1, n, cfg, d) == Written([RBRACKET]);
    }
    var x := ElementsOf(v, i, n, cfg, d);
    if x.SomeElements? {
      var e := x.elements;
      assert [] + Text(e.value) == Text(e.value) && [] + [COMMA] == [COMMA] && [] + [RBRACKET] == [RBRACKET];
      Assoc(CommaIf(i > 1), Text(e.value), ElementsTailText(e.tail));
    }
  }

  /** The output of the object loop from the entry k on. */
  function ObjectOutput(v: Lua, k: nat, cfg: Config, d: nat): Output
    requires v.LuaTable? && k <= |v.entries|
    decreases |v.entries| - k
  {
    if k == |v.entries| then Written([RBRACE])
    else if IsBadKey(v.entries[k].key) then Stopped(KeyRefusal(v.entries[k].key))
    else
      match JsonOf(v.entries[k].value, cfg, d)
      case Refused(why) => Stopped(why)
      case Encoded(json) => After(CommaIf(k > 0) + MemberText(v.entries[k].key, json), ObjectOutput(v, k + 1, cfg, d))
  }

  function MemberText(key: Key, json: Json): bytes {
    Quoted(KeyItems(key)) + [COLON] + Text(json)
  }

  lemma MembersTextIs(key: Key, json: Json, tail: MembersTail)
    ensures MembersText(Members([], KeyItems(key), [], [], json, tail)) == MemberText(key, json) + MembersTailText(tail)
  {
    var q, t, m := Quoted(KeyItems(key)), Text(json), MembersTailText(tail);
    assert [] + q == q && [] + [COLON] == [COLON] && [] + t == t;
    Assoc(q, [COLON], t + m);
    Assoc(q + [COLON], t, m);
  }

  lemma {:induction false} ObjectOutputRight(v: Lua, k: nat, cfg: Config, d: nat)
    requires v.LuaTable? && k < |v.entries|
    ensures ObjectOutput(v, k, cfg, d)
         == match MembersOf(v, k, cfg, d)
            case NoMembers(why) => Stopped(why)
            case SomeMembers(m) => Written(CommaIf(k > 0) + MembersText(m))
    decreases |v.entries| - k
  {
    if k + 1 < |v.entries| {
      ObjectOutputRight(v, k + 1, cfg, d);
    } else {
      assert ObjectOutput(v, k + 1, cfg, d) == Written([RBRACE]);
    }
    var x := MembersOf(v, k, cfg, d);
    if x.SomeMembers? {
      var m := x.members;
      MembersTextIs(v.entries[k].key, m.value, m.tail);
      assert [] + [COMMA] == [COMMA] && [] + [RBRACE] == [RBRACE];
      Assoc(CommaIf(k > 0), MemberText(v.entries[k].key, m.value), MembersTailText(m.tail));
    }
  }

  lemma ArrayWhole(v: Lua, n: nat, cfg: Config, d: nat)
    requires v.LuaTable? && n >= 1 && d + 1 <= cfg.maxDepth
    ensures OutputOf(ArrayJson(v, n, cfg, d)) == After([LBRACKET], ArrayOutput(v, 1, n, cfg, d + 1))
  {
    ArrayOutputRight(v, 1, n, cfg, d + 1);
    var all := ElementsOf(v, 1, n, cfg, d + 1);
    if all.SomeElements? {
      assert CommaIf(false) + ElementsText(all.elements) == ElementsText(all.elements);
    }
  }

  lemma ObjectWhole(v: Lua, cfg: Config, d: nat)
    requires v.LuaTable? && d + 1 <= cfg.maxDepth
    ensures OutputOf(ObjectJson(v, cfg, d)) == After([LBRACE], ObjectOutput(v, 0, cfg, d + 1))
  {
    if v.entries == [] {
      assert [LBRACE] + [] + [RBRACE] == [LBRACE] + [RBRACE];
    } else {
      ObjectOutputRight(v, 0, cfg, d + 1);
      var all := MembersOf(v, 0, cfg, d + 1);
      if all.SomeMembers? {
        assert CommaIf(false) + MembersText(all.members) == MembersText(all.members);
      }
    }
  }

  // ----- Numbers as keys -----

  lemma {:induction false} PlainText(s: bytes)
    requires forall i :: 0 <= i < |s| ==> EscapeItem(s[i]).Plain?
    ensures StrText(ItemsOf(s)) == s
  {
    if s != [] {
      PlainText(s[1..]);
      var items := ItemsOf(s);
      assert items[0] == EscapeItem(s[0]) && items[1..] == ItemsOf(s[1..]);
      assert s == [s[0]] + s[1..];
    }
  }

  lemma QuotedKey(u: bytes, t: bytes)
    ensures u + [QUOTE] + t + [QUOTE, COLON] == u + ([QUOTE] + t + [QUOTE] + [COLON])
  {
    Assoc([QUOTE] + t, [QUOTE], [COLON]);
    Assoc(u, [QUOTE] + t, [QUOTE, COLON]);
    Assoc(u, [QUOTE], t);
  }

  lemma PlainKey(u: bytes, i: int)
    ensures u + [QUOTE] + PrintInt(i) + [QUOTE, COLON] == u + (Quoted(KeyItems(IntKey(i))) + [COLON])
  {
    PlainText(PrintInt(i));
    QuotedKey(u, PrintInt(i));
  }

  lemma PlainFloatKey(u: bytes, text: FloatText)
    ensures u + [QUOTE] + text + [QUOTE, COLON] == u + (Quoted(KeyItems(FloatKey(text))) + [COLON])
  {
    assert forall c: byte :: IsFloatChar(c) ==> EscapeItem(c).Plain?;
    PlainText(text);
    QuotedKey(u, text);
  }

  // ----- Sizes -----

  lemma {:induction false} DigitsLength(n: nat, k: nat, bound: nat)
    requires bound == Power10(k) && n < bound && k >= 1
    ensures |Digits(n)| <= k
  {
    if n >= 10 {
      assert bound == 10 * Power10(k - 1);
      assert n / 10 < Power10(k - 1);
      DigitsLength(n / 10, k - 1, Power10(k - 1));
    }
  }

  /** An integer in the range of "%.14g" needs at most 15 characters, so 32 bytes hold it. */
  lemma PrintIntLength(n: Printable)
    ensures |PrintInt(n)| <= 15
  {
    assert Power10(7) == 10_000_000;
    assert Power10(14) == 100_000_000_000_000;
    DigitsLength(if n < 0 then -n else n, 14, Power10(14));
  }

  class Encoder {
    const cfg: Config
    const buf: StrBuf
    var depth: nat

    ghost predicate Valid()
      reads this, buf
    {
      buf.Valid() && buf.increment <= -2
    }

    constructor (cfg: Config)
      ensures Valid() && this.cfg == cfg && depth == 0
      ensures fresh(buf) && fresh(buf.buf) && buf.Contents() == []
    {
      this.cfg := cfg;
      depth := 0;
      buf := new StrBuf(0);
    }

    /**
     json_append_string. The reserve of 6 * len + 2 bytes covers every choice of escapes:
     the buffer grows at most once, before the first byte is written.
     */
    method AppendString(s: bytes)
      requires Valid()
      modifies buf, buf.buf
      ensures Valid() && buf.Contents() == old(buf.Contents()) + Quoted(ItemsOf(s))
      ensures buf.buf == old(buf.buf) || fresh(buf.buf)
      ensures buf.reallocs <= old(buf.reallocs) + 1
    {
      buf.EnsureEmptyLength(6 * |s| + 2);
      buf.AppendCharUnsafe(QUOTE);
      ghost var u, store := buf.Contents(), buf.buf;
      var i := 0;
      while i < |s|
        invariant i <= |s| && Valid() && buf.buf == store && buf.EmptyLength() >= 6 * (|s| - i) + 1
        invariant buf.reallocs <= old(buf.reallocs) + 1
        invariant buf.Contents() + StrText(ItemsOf(s[i..])) == u + StrText(ItemsOf(s))
      {
        NextItem(s, i, buf.Contents());
        AppendEscaped(s[i]);
        i := i + 1;
      }
      buf.AppendCharUnsafe(QUOTE);
      LastItem(s, old(buf.Contents()));
    }

    /** One character of a string: as it is, or its escape from the table char2escape. */
    method AppendEscaped(c: byte)
      requires Valid() && buf.EmptyLength() >= 6
      modifies buf, buf.buf
      ensures Valid() && buf.buf == old(buf.buf) && buf.reallocs == old(buf.reallocs)
      ensures buf.EmptyLength() >= old(buf.EmptyLength()) - 6
      ensures buf.Contents() == old(buf.Contents()) + ItemText(EscapeItem(c))
    {
      EscapeItemRight(c);
      var escape := EscapeItem(c);
      if escape.Plain? {
        buf.AppendCharUnsafe(c);
      } else {
        buf.AppendString(ItemText(escape));
      }
    }

    /** json_append_number for any other finite number, which sprintf prints as the text. */
    method AppendFloat(text: FloatText)
      requires Valid()
      modifies buf, buf.buf
      ensures Valid() && buf.Contents() == old(buf.Contents()) + text
      ensures buf.buf == old(buf.buf) || fresh(buf.buf)
    {
      buf.AppendFmt(32, text);
    }

    /** json_append_number for an integer. */
    method AppendNumber(n: Printable)
      requires Valid()
      modifies buf, buf.buf
      ensures Valid() && buf.Contents() == old(buf.Contents()) + PrintInt(n)
      ensures buf.buf == old(buf.buf) || fresh(buf.buf)
    {
      PrintIntLength(n);
      buf.AppendFmt(32, PrintInt(n));
    }

    /** lua_array_length: the entries are visited in the order of lua_next; -1 is an object. */
    method LuaArrayLength(es: seq<Entry>) returns (r: Verdict, len: int)
      ensures match ShapeOf(es, cfg)
              case TooSparse => r == Throw(SparseArray)
              case AnObject => r == Done && len == -1
              case ArrayOf(n) => r == Done && len == n
    {
      var max, items, k := 0, 0, 0;
      while k < |es|
        invariant k <= |es| && items == k
        invariant AllIndices(es[..k]) && max == MaxIndex(es[..k])
      {
        if !es[k].key.IntKey? || es[k].key.i < 1 {
          assert !IsIndex(es[k].key);
          return Done, -1;
        }
        assert es[..k + 1][..k] == es[..k];
        if es[k].key.i > max {
          max := es[k].key.i;
        }
        items := items + 1;
        k := k + 1;
      }
      assert es[..k] == es;
      if cfg.sparseRatio > 0 && max > items * cfg.sparseRatio && max > cfg.sparseSafe {
        if !cfg.sparseConvert {
          return Throw(SparseArray), -1;
        }
        return Done, -1;
      }
      return Done, max;
    }

    /** What was written, or why nothing more is, is what the specification says. */
    ghost predicate Agrees(r: Verdict, o: Output, before: bytes)
      reads this, buf, buf.buf
      requires Valid()
    {
      match o
      case Written(text) => r == Done && buf.Contents() == before + text
      case Stopped(why) => r == Throw(why)
    }

    /** json_encode_descend */
    method Descend() returns (r: Verdict)
      modifies this`depth
      ensures depth == old(depth) + 1
      ensures r == if depth > cfg.maxDepth then Throw(ExcessiveNesting) else Done
    {
      depth := depth + 1;
      r := if depth > cfg.maxDepth then Throw(ExcessiveNesting) else Done;
    }

    /** json_append_array */
    method AppendArray(v: Lua, n: nat) returns (r: Verdict)
      requires Valid() && v.LuaTable? && WfLua(v) && n > 0
      modifies this`depth, buf, buf.buf
      ensures Valid() && Agrees(r, OutputOf(ArrayJson(v, n, cfg, old(depth))), old(buf.Contents()))
      ensures buf.buf == old(buf.buf) || fresh(buf.buf)
      ensures r.Done? ==> depth == old(depth)
      decreases Nesting(v), 1
    {
      r := Descend();
      if r.Throw? {
        return;
      }
      ArrayWhole(v, n, cfg, depth - 1);
      AfterTwice(buf.Contents(), [LBRACKET], ArrayOutput(v, 1, n, cfg, depth));
      buf.AppendChar(LBRACKET);
      r := AppendElements(v, n);
      if r.Throw? {
        return;
      }
      depth := depth - 1;
    }

    /** The loop of json_append_array, and the closing bracket. */
    method AppendElements(v: Lua, n: nat) returns (r: Verdict)
      requires Valid() && v.LuaTable? && WfLua(v) && n > 0
      modifies this`depth, buf, buf.buf
      ensures Valid() && Agrees(r, ArrayOutput(v, 1, n, cfg, old(depth)), old(buf.Contents()))
      ensures buf.buf == old(buf.buf) || fresh(buf.buf)
      ensures r.Done? ==> depth == old(depth)
      decreases Nesting(v), 0
    {
      var comma, i := false, 1;
      while i <= n
        invariant 1 <= i <= n + 1 && comma == (i > 1)
        invariant Valid() && depth == old(depth) && (buf.buf == old(buf.buf) || fresh(buf.buf))
        invariant After(buf.Contents(), ArrayOutput(v, i, n, cfg, depth))
               == After(old(buf.Contents()), ArrayOutput(v, 1, n, cfg, depth))
      {
        ghost var x := ElementOf(v, i, cfg, depth);
        if x.Encoded? {
          OneMore(buf.Contents(), CommaIf(comma), Text(x.json), ArrayOutput(v, i + 1, n, cfg, depth));
        }
        AppendComma(comma);
        comma := true;
        r := AppendElement(v, i);
        if r.Throw? {
          return;
        }
        i := i + 1;
      }
      buf.AppendChar(RBRACKET);
      r := Done;
    }

    method AppendComma(comma: bool)
      requires Valid()
      modifies buf, buf.buf
      ensures Valid() && buf.Contents() == old(buf.Contents()) + CommaIf(comma)
      ensures buf.buf == old(buf.buf) || fresh(buf.buf)
    {
      if comma {
        buf.AppendChar(COMMA);
      }
    }

    /** lua_rawgeti and json_append_data: a hole is nil, and nil is written as null. */
    method AppendElement(v: Lua, i: nat) returns (r: Verdict)
      requires Valid() && v.LuaTable? && WfLua(v)
      modifies this`depth, buf, buf.buf
      ensures Valid() && Agrees(r, OutputOf(ElementOf(v, i, cfg, old(depth))), old(buf.Contents()))
      ensures buf.buf == old(buf.buf) || fresh(buf.buf)
      ensures r.Done? ==> depth == old(depth)
      decreases Nesting(v), -1
    {
      DeepestBounds(v, |v.entries|);
      var k := Find(v.entries, i);
      r := AppendData(if k < 0 then Nil else v.entries[k].value);
    }

    /** json_append_object */
    method AppendObject(v: Lua) returns (r: Verdict)
      requires Valid() && v.LuaTable? && WfLua(v)
      modifies this`depth, buf, buf.buf
      ensures Valid() && Agrees(r, OutputOf(ObjectJson(v, cfg, old(depth))), old(buf.Contents()))
      ensures buf.buf == old(buf.buf) || fresh(buf.buf)
      ensures r.Done? ==> depth == old(depth)
      decreases Nesting(v), 1
    {
      r := Descend();
      if r.Throw? {
        return;
      }
      ObjectWhole(v, cfg, depth - 1);
      AfterTwice(buf.Contents(), [LBRACE], ObjectOutput(v, 0, cfg, depth));
      buf.AppendChar(LBRACE);
      r := AppendMembers(v);
      if r.Throw? {
        return;
      }
      depth := depth - 1;
    }

    /** The loop of json_append_object, and the closing brace. */
    method AppendMembers(v: Lua) returns (r: Verdict)
      requires Valid() && v.LuaTable? && WfLua(v)
      modifies this`depth, buf, buf.buf
      ensures Valid() && Agrees(r, ObjectOutput(v, 0, cfg, old(depth)), old(buf.Contents()))
      ensures buf.buf == old(buf.buf) || fresh(buf.buf)
      ensures r.Done? ==> depth == old(depth)
      decreases Nesting(v), 0
    {
      var comma, k := false, 0;
      while k < |v.entries|
        invariant k <= |v.entries| && comma == (k > 0)
        invariant Valid() && depth == old(depth) && (buf.buf == old(buf.buf) || fresh(buf.buf))
        invariant After(buf.Contents(), ObjectOutput(v, k, cfg, depth))
               == After(old(buf.Contents()), ObjectOutput(v, 0, cfg, depth))
      {
        ghost var x := JsonOf(v.entries[k].value, cfg, depth);
        if x.Encoded? {
          OneMore(buf.Contents(), CommaIf(comma), MemberText(v.entries[k].key, x.json), ObjectOutput(v, k + 1, cfg, depth));
        }
        AppendComma(comma);
        comma := true;
        r := AppendMember(v, k);
        if r.Throw? {
          return;
        }
        k := k + 1;
      }
      buf.AppendChar(RBRACE);
      r := Done;
    }

    /** One round of the loop of json_append_object, from the key on. */
    method AppendMember(v: Lua, k: nat) returns (r: Verdict)
      requires Valid() && v.LuaTable? && WfLua(v) && k < |v.entries|
      modifies this`depth, buf, buf.buf
      ensures Valid()
      ensures var e := v.entries[k];
        Agrees(r, if IsBadKey(e.key) then Stopped(KeyRefusal(e.key))
                  else match JsonOf(e.value, cfg, old(depth))
                    case Refused(why) => Stopped(why)
                    case Encoded(json) => Written(MemberText(e.key, json)),
               old(buf.Contents()))
      ensures buf.buf == old(buf.buf) || fresh(buf.buf)
      ensures r.Done? ==> depth == old(depth)
      decreases Nesting(v), -1
    {
      ghost var u := buf.Contents();
      var key := v.entries[k].key;
      r := AppendKey(key);
      if r.Throw? {
        return;
      }
      ghost var name := Quoted(KeyItems(key)) + [COLON];
      DeepestBounds(v, |v.entries|);
      r := AppendData(v.entries[k].value);
      if r.Done? {
        Assoc(u, name, Text(JsonOf(v.entries[k].value, cfg, depth).json));
      }
    }

    /** A key in quotes and its colon. */
    method AppendKey(key: Key) returns (r: Verdict)
      requires Valid() && (key.IntKey? ==> IsPrintable(key.i)) && (key.FloatKey? ==> IsFloatText(key.text))
      modifies buf, buf.buf
      ensures Valid()
      ensures Agrees(r, if IsBadKey(key) then Stopped(KeyRefusal(key)) else Written(Quoted(KeyItems(key)) + [COLON]),
                     old(buf.Contents()))
      ensures buf.buf == old(buf.buf) || fresh(buf.buf)
    {
      ghost var u := buf.Contents();
      match key {
        case IntKey(i) =>
          buf.AppendChar(QUOTE);
          AppendNumber(i);
          buf.AppendMem([QUOTE, COLON]);
          PlainKey(u, i);
          r := Done;
        case StrKey(s) =>
          AppendString(s);
          buf.AppendChar(COLON);
          r := Done;
        case FloatKey(text) =>
          buf.AppendChar(QUOTE);
          AppendFloat(text);
          buf.AppendMem([QUOTE, COLON]);
          PlainFloatKey(u, text);
          r := Done;
        case InfiniteKey =>
          r := Throw(BadNumber);
        case OtherKey =>
          r := Throw(BadKey);
      }
    }

    /** json_append_data */
    method AppendData(v: Lua) returns (r: Verdict)
      requires Valid() && WfLua(v)
      modifies this`depth, buf, buf.buf
      ensures Valid() && Agrees(r, OutputOf(JsonOf(v, cfg, old(depth))), old(buf.Contents()))
      ensures buf.buf == old(buf.buf) || fresh(buf.buf)
      ensures r.Done? ==> depth == old(depth)
      decreases Nesting(v), 2
    {
      r := Done;
      match v {
        case LuaStr(s) => AppendString(s);
        case LuaInt(n) => AppendNumber(n);
        case LuaFloat(text) => AppendFloat(text);
        case NotFinite => r := Throw(BadNumber);
        case LuaBool(b) => buf.AppendMem(if b then TRUE else FALSE);
        case LuaTable(es) =>
          var len;
          r, len := LuaArrayLength(es);
          if r.Throw? {
            return;
          }
          if len > 0 {
            r := AppendArray(v, len);
          } else {
            r := AppendObject(v);
          }
        case Nil => buf.AppendMem(NULL);
        case LuaNull => buf.AppendMem(NULL);
        case Unsupported => r := Throw(BadType);
      }
    }

    /** json_encode: the depth and the buffer start afresh, whatever an earlier call left. */
    method Encode(v: Lua) returns (r: Verdict, text: bytes)
      requires Valid() && WfLua(v)
      modifies this`depth, buf, buf.buf
      ensures Valid() && (buf.buf == old(buf.buf) || fresh(buf.buf))
      ensures match JsonOf(v, cfg, 0)
              case Encoded(json) => r == Done && text == Text(json)
              case Refused(why) => r == Throw(why)
    {
      depth := 0;
      buf.Reset();
      r := AppendData(v);
      text := buf.buf[..buf.length];
    }
  }

  lemma NextItem(s: bytes, i: nat, u: bytes)
    requires i < |s|
    ensures u + StrText(ItemsOf(s[i..])) == u + ItemText(EscapeItem(s[i])) + StrText(ItemsOf(s[i + 1..]))
  {
    var items := ItemsOf(s[i..]);
    assert s[i..][1..] == s[i + 1..];
    assert items[0] == EscapeItem(s[i]) && items[1..] == ItemsOf(s[i + 1..]);
    Assoc(u, ItemText(EscapeItem(s[i])), StrText(ItemsOf(s[i + 1..])));
  }

  lemma LastItem(s: bytes, u: bytes)
    ensures StrText(ItemsOf(s[|s|..])) == []
    ensures u + Quoted(ItemsOf(s)) == u + [QUOTE] + StrText(ItemsOf(s)) + [QUOTE]
  {
    Assoc(u, [QUOTE], StrText(ItemsOf(s)));
    Assoc(u, [QUOTE] + StrText(ItemsOf(s)), [QUOTE]);
  }
}
