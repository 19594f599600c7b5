/** Decoding what the encoder wrote, and when the encoder writes at all. */
module JsonRoundTrip {
  import opened Octets
  import opened JsonLexis
  import opened JsonSyntax
  import opened JsonTokens
  import opened JsonEncoding
  import opened JsonTables

  // ----- Strings and numbers -----

  lemma EscapeItemRight(c: byte)
    ensures WfItem(EscapeItem(c)) && ItemBytes(EscapeItem(c)) == [c]
    ensures |ItemText(EscapeItem(c))| <= 6
  {
    var x := EscapeItem(c);
    if x.Unit? {
      assert HexDigitToInt(LowerHex(c / 16)) == c / 16 && HexDigitToInt(LowerHex(c % 16)) == c % 16;
      assert Hex4Value(x.h) == c;
    }
  }

  /**
   How a byte is written: as the escape of two characters that the grammar has for it, if it
   has one, as a numeric escape if it is another control character, and otherwise as it is.
   */
  lemma EscapeItemIs(c: byte)
    ensures match EscapeItem(c)
            case Short(e) => ShortValue(e) == c
            case Unit(h) => IsHexText(h) && HexNumber(h) == c && (c < 0x20 || c == 0x7F) && !HasShort(c)
            case Plain(p) => p == c && c >= 0x20 && c != 0x7F && !HasShort(c)
            case Pair(_, _) => false
  {
  }

  /** Section 2.5 of RFC 4627 has an escape of two characters for it. */
  predicate HasShort(c: byte) {
    exists e: byte :: ShortValue(e) == c
  }

  /** Escaping keeps every byte of a string, and needs at most six characters for each. */
  lemma {:induction false} ItemsRight(s: bytes)
    ensures WfString(ItemsOf(s)) && StrBytes(ItemsOf(s)) == s
    ensures |StrText(ItemsOf(s))| <= 6 * |s|
  {
    if s != [] {
      EscapeItemRight(s[0]);
      ItemsRight(s[1..]);
      var items := ItemsOf(s);
      assert items[0] == EscapeItem(s[0]) && items[1..] == ItemsOf(s[1..]);
      assert s == [s[0]] + s[1..];
    }
  }

  lemma {:induction false} DigitsRight(n: nat)
    ensures DigitsValue(Digits(n)) == n
  {
    var u := Digits(n);
    if n >= 10 {
      DigitsRight(n / 10);
      assert u[..|u| - 1] == Digits(n / 10);
    } else {
      assert u[..0] == [];
    }
  }

  lemma DigitsNumeral(u: bytes, x: bytes, strict: bool)
    requires u != [] && AllDigits(u) && (u[0] == DIGIT_0 ==> |u| == 1)
    requires x == u || x == [MINUS] + u
    ensures Unsigned(x) == u && WfNumeral(x, strict)
  {
    assert u[..|u|] == u && IsMantissa(u[..|u|]) && u[|u|..] == [];
    assert IsDecimal(u);
  }

  /** An integer is printed as a numeral, also for strict decoding, of that value. */
  lemma PrintIntRight(n: Printable, strict: bool)
    ensures WfNumeral(PrintInt(n), strict) && NumberOf(PrintInt(n)) == Exact(n)
  {
    var m: nat := if n < 0 then -n else n;
    DigitsRight(m);
    DigitsStart(m);
    DigitsNumeral(Digits(m), PrintInt(n), strict);
  }

  /** An integer is printed as RFC 4627 writes one: a minus sign only if it is negative, and no leading zeros. */
  lemma PrintIntIs(n: Printable)
    ensures var w := if n < 0 then PrintInt(n)[1..] else PrintInt(n);
      && IsInt(w) && PrintInt(n) == (if n < 0 then [0x2D] else []) + w
      && Decimal(w) == if n < 0 then -n else n
  {
    var m: nat := if n < 0 then -n else n;
    DigitsRight(m);
    DigitsStart(m);
    var w := Digits(m);
    assert forall i :: 0 <= i < |w| ==> IsDigit(w[i]);
    DigitsAreDecimal(w);
    assert PrintInt(n) == (if n < 0 then [0x2D] else []) + w;
    if n < 0 {
      assert PrintInt(n)[1..] == w;
    }
  }

  lemma {:induction false} DigitsStart(n: nat)
    ensures IsDigit(Digits(n)[0])
    ensures Digits(n)[0] == DIGIT_0 ==> n == 0 && |Digits(n)| == 1
  {
    if n >= 10 {
      DigitsStart(n / 10);
    }
  }

  // ----- The value that is expected back -----

  /** The table of the first k entries. */
  function TableOf(v: Lua, k: nat): map<Key, Value>
    requires v.LuaTable? && k <= |v.entries|
    decreases v, 0, k
  {
    if k == 0 then map[]
    else TableOf(v, k - 1)[v.entries[k - 1].key := Back(v.entries[k - 1].value)]
  }

  /** The decoder's form of a Lua value. */
  function Back(v: Lua): Value
    decreases v, 1, 0
  {
    match v
    case Nil => NullValue
    case LuaNull => NullValue
    case LuaBool(b) => BoolValue(b)
    case LuaInt(n) => NumValue(Exact(n))
    case LuaFloat(text) => NumValue(NumberOf(text))
    case NotFinite => NullValue
    case LuaStr(s) => StrValue(s)
    case LuaTable(es) => TableValue(TableOf(v, |es|))
    case Unsupported => NullValue
  }

  /**
   The tables that JSON can express: an array without holes, or an object all of whose
   keys are strings; and so on inside.
   */
  predicate Regular(v: Lua, cfg: Config) {
    v.LuaTable? ==>
      && (forall i :: 0 <= i < |v.entries| ==> Regular(v.entries[i].value, cfg))
      && if IsArray(v.entries, cfg)
         then forall i :: 1 <= i <= MaxIndex(v.entries) ==> Find(v.entries, i) >= 0
         else forall i :: 0 <= i < |v.entries| ==> v.entries[i].key.StrKey?
  }

  predicate IsArray(es: seq<Entry>, cfg: Config)
    ensures IsArray(es, cfg) ==> AllIndices(es) && ShapeOf(es, cfg) == ArrayOf(MaxIndex(es)) && MaxIndex(es) > 0
  {
    ShapeOf(es, cfg).ArrayOf? && ShapeOf(es, cfg).n > 0
  }

  lemma {:induction false} TableHas(v: Lua, k: nat)
    requires v.LuaTable? && k <= |v.entries| && DistinctKeys(v.entries)
    ensures forall i :: 0 <= i < k ==>
      v.entries[i].key in TableOf(v, k) && TableOf(v, k)[v.entries[i].key] == Back(v.entries[i].value)
    ensures forall key :: key in TableOf(v, k) ==> exists i :: 0 <= i < k && v.entries[i].key == key
  {
    if k > 0 {
      TableHas(v, k - 1);
    }
  }

  // ----- What the encoder's trees denote -----

  lemma {:induction false} JsonWf(v: Lua, cfg: Config, d: nat, strict: bool)
    ensures JsonOf(v, cfg, d).Encoded? ==> Wf(JsonOf(v, cfg, d).json, strict)
    decreases v, 2, 0
  {
    match v {
      case LuaInt(n) => PrintIntRight(n, strict);
      case LuaStr(s) => ItemsRight(s);
      case LuaTable(es) =>
        if IsArray(es, cfg) {
          ElementsWf(v, 1, MaxIndex(es), cfg, d + 1, strict);
        } else if es != [] {
          MembersWf(v, 0, cfg, d + 1, strict);
        }
      case _ =>
    }
  }

  lemma {:induction false} ElementWf(v: Lua, i: int, cfg: Config, d: nat, strict: bool)
    requires v.LuaTable?
    ensures ElementOf(v, i, cfg, d).Encoded? ==> Wf(ElementOf(v, i, cfg, d).json, strict)
    decreases v, 0, 0
  {
    var k := Find(v.entries, i);
    if k >= 0 {
      JsonWf(v.entries[k].value, cfg, d, strict);
    }
  }

  lemma {:induction false} ElementsWf(v: Lua, i: nat, n: nat, cfg: Config, d: nat, strict: bool)
    requires v.LuaTable? && 1 <= i <= n
    ensures ElementsOf(v, i, n, cfg, d).SomeElements? ==> WfElements(ElementsOf(v, i, n, cfg, d).elements, strict)
    decreases v, 1, n - i + 1
  {
    ElementWf(v, i, cfg, d, strict);
    if i < n {
      ElementsWf(v, i + 1, n, cfg, d, strict);
    }
  }

  lemma {:induction false} MembersWf(v: Lua, k: nat, cfg: Config, d: nat, strict: bool)
    requires v.LuaTable? && k < |v.entries|
    ensures MembersOf(v, k, cfg, d).SomeMembers? ==> WfMembers(MembersOf(v, k, cfg, d).members, strict)
    decreases v, 1, |v.entries| - k
  {
    var e := v.entries[k];
    match e.key {
      case IntKey(i) => ItemsRight(PrintInt(i));
      case StrKey(s) => ItemsRight(s);
      case FloatKey(text) => ItemsRight(text);
      case InfiniteKey =>
      case OtherKey =>
    }
    JsonWf(e.value, cfg, d, strict);
    if k + 1 < |v.entries| {
      MembersWf(v, k + 1, cfg, d, strict);
    }
  }

  /** What the decoder makes of an encoding. */
  ghost function Meaning(x: Encoding, strict: bool): Value {
    if x.Encoded? && Wf(x.json, strict) then Denote(x.json, strict) else NullValue
  }

  ghost predicate InRange(key: Key, i: int, n: int) {
    key.IntKey? && i <= key.i <= n
  }

  lemma {:induction false} ElementsEncoded(v: Lua, i: nat, n: nat, cfg: Config, d: nat, j: nat)
    requires v.LuaTable? && 1 <= i <= j <= n && ElementsOf(v, i, n, cfg, d).SomeElements?
    ensures ElementOf(v, j, cfg, d).Encoded?
    decreases j - i
  {
    if i < j {
      ElementsEncoded(v, i + 1, n, cfg, d, j);
    }
  }

  lemma {:induction false} ElementsDenote(v: Lua, i: nat, n: nat, cfg: Config, d: nat, t: map<Key, Value>, strict: bool)
    requires v.LuaTable? && 1 <= i <= n && ElementsOf(v, i, n, cfg, d).SomeElements?
    requires WfElements(ElementsOf(v, i, n, cfg, d).elements, strict)
    ensures var m := DenoteElements(ElementsOf(v, i, n, cfg, d).elements, strict, i, t);
      && (forall key :: key in m <==> key in t || InRange(key, i, n))
      && (forall key :: key in t && !InRange(key, i, n) ==> m[key] == t[key])
      && forall j :: i <= j <= n ==> m[IntKey(j)] == Meaning(ElementOf(v, j, cfg, d), strict)
    decreases n - i
  {
    if i < n {
      ElementsDenote(v, i + 1, n, cfg, d, t[IntKey(i) := Meaning(ElementOf(v, i, cfg, d), strict)], strict);
    }
  }

  ghost predicate AllStrKeys(es: seq<Entry>) {
    forall i :: 0 <= i < |es| ==> es[i].key.StrKey?
  }

  /** An object denotes string keys only. */
  lemma {:induction false} MembersDenoteStrKeys(m: Members, strict: bool, t: map<Key, Value>)
    requires WfMembers(m, strict) && forall key :: key in t ==> key.StrKey?
    ensures forall key :: key in DenoteMembers(m, strict, t) ==> key.StrKey?
    decreases m
  {
    if m.tail.MoreMembers? {
      MembersDenoteStrKeys(m.tail.members, strict, t[StrKey(StrBytes(m.key)) := Denote(m.value, strict)]);
    }
  }

  ghost predicate KeyFrom(key: Key, es: seq<Entry>, k: nat) {
    exists i :: k <= i < |es| && es[i].key == key
  }

  lemma {:induction false} MembersEncoded(v: Lua, k: nat, cfg: Config, d: nat, j: nat)
    requires v.LuaTable? && k <= j < |v.entries| && MembersOf(v, k, cfg, d).SomeMembers?
    ensures JsonOf(v.entries[j].value, cfg, d).Encoded?
    decreases j - k
  {
    if k < j {
      MembersEncoded(v, k + 1, cfg, d, j);
    }
  }

  /** m holds t and, over it, the keys of es from k on. */
  ghost predicate Extends(m: map<Key, Value>, t: map<Key, Value>, es: seq<Entry>, k: nat) {
    && (forall key :: key in m <==> key in t || KeyFrom(key, es, k))
    && (forall key :: key in t && !KeyFrom(key, es, k) ==> m[key] == t[key])
  }

  lemma ExtendsOne(m: map<Key, Value>, t: map<Key, Value>, es: seq<Entry>, k: nat, w: Value)
    requires k < |es| && DistinctKeys(es) && Extends(m, t[es[k].key := w], es, k + 1)
    ensures Extends(m, t, es, k) && es[k].key in m && m[es[k].key] == w
  {
    var key := es[k].key;
    assert !KeyFrom(key, es, k + 1);
    assert forall x :: KeyFrom(x, es, k) <==> x == key || KeyFrom(x, es, k + 1);
  }

  /** The first member of an object is set, and then the others. */
  lemma MembersStep(v: Lua, k: nat, cfg: Config, d: nat, t: map<Key, Value>, strict: bool)
    requires v.LuaTable? && k < |v.entries| && v.entries[k].key.StrKey? && MembersOf(v, k, cfg, d).SomeMembers?
    requires WfMembers(MembersOf(v, k, cfg, d).members, strict)
    ensures var t' := t[v.entries[k].key := Meaning(JsonOf(v.entries[k].value, cfg, d), strict)];
      if k + 1 == |v.entries| then DenoteMembers(MembersOf(v, k, cfg, d).members, strict, t) == t'
      else
        && MembersOf(v, k + 1, cfg, d).SomeMembers? && WfMembers(MembersOf(v, k + 1, cfg, d).members, strict)
        && DenoteMembers(MembersOf(v, k, cfg, d).members, strict, t)
           == DenoteMembers(MembersOf(v, k + 1, cfg, d).members, strict, t')
  {
    ItemsRight(v.entries[k].key.s);
  }

  lemma {:induction false} MembersDenote(v: Lua, k: nat, cfg: Config, d: nat, t: map<Key, Value>, strict: bool)
    requires v.LuaTable? && k < |v.entries| && MembersOf(v, k, cfg, d).SomeMembers?
    requires AllStrKeys(v.entries) && DistinctKeys(v.entries)
    requires WfMembers(MembersOf(v, k, cfg, d).members, strict)
    ensures Extends(DenoteMembers(MembersOf(v, k, cfg, d).members, strict, t), t, v.entries, k)
    decreases |v.entries| - k
  {
    var e := v.entries[k];
    var w := Meaning(JsonOf(e.value, cfg, d), strict);
    var m := DenoteMembers(MembersOf(v, k, cfg, d).members, strict, t);
    MembersStep(v, k, cfg, d, t, strict);
    if k + 1 < |v.entries| {
      MembersDenote(v, k + 1, cfg, d, t[e.key := w], strict);
    }
    ExtendsOne(m, t, v.entries, k, w);
  }

  lemma {:induction false} MemberDenotes(v: Lua, k: nat, cfg: Config, d: nat, t: map<Key, Value>, strict: bool, j: nat)
    requires v.LuaTable? && k <= j < |v.entries| && MembersOf(v, k, cfg, d).SomeMembers?
    requires AllStrKeys(v.entries) && DistinctKeys(v.entries)
    requires WfMembers(MembersOf(v, k, cfg, d).members, strict)
    ensures var m := DenoteMembers(MembersOf(v, k, cfg, d).members, strict, t);
      v.entries[j].key in m && m[v.entries[j].key] == Meaning(JsonOf(v.entries[j].value, cfg, d), strict)
    decreases j - k
  {
    var e := v.entries[k];
    var t' := t[e.key := Meaning(JsonOf(e.value, cfg, d), strict)];
    MembersStep(v, k, cfg, d, t, strict);
    if k < j {
      MemberDenotes(v, k + 1, cfg, d, t', strict, j);
    } else if k + 1 < |v.entries| {
      MembersDenote(v, k + 1, cfg, d, t', strict);
      assert !KeyFrom(e.key, v.entries, k + 1);
    }
  }

  // ----- The round trip -----

  lemma {:induction false} FindDistinct(es: seq<Entry>, i: nat)
    requires DistinctKeys(es) && i < |es| && es[i].key.IntKey?
    ensures Find(es, es[i].key.i) == i
  {
  }

  /** The round trip of every entry of a table. */
  ghost predicate EntriesRoundTrip(es: seq<Entry>, cfg: Config, d: nat, strict: bool) {
    forall i :: 0 <= i < |es| && JsonOf(es[i].value, cfg, d).Encoded? ==>
      (Meaning(JsonOf(es[i].value, cfg, d), strict) == Back(es[i].value) <==> Regular(es[i].value, cfg))
  }

  /** m holds the keys 1 to n, and t the keys of the entries of es. */
  lemma SameTable(es: seq<Entry>, n: nat, m: map<Key, Value>, t: map<Key, Value>)
    requires forall key :: key in m <==> InRange(key, 1, n)
    requires forall i :: 0 <= i < |es| ==> es[i].key in m && es[i].key in t
    requires forall key :: key in t ==> exists i :: 0 <= i < |es| && es[i].key == key
    requires forall i :: 0 <= i < |es| ==> m[es[i].key] == t[es[i].key]
    requires forall i :: 1 <= i <= n ==> Find(es, i) >= 0
    ensures m == t
  {
    forall key | key in m ensures key in t && m[key] == t[key] {
      assert es[Find(es, key.i)].key == key;
    }
    assert m.Keys == t.Keys;
  }

  lemma NoHoles(es: seq<Entry>, n: nat, m: map<Key, Value>)
    requires forall key :: key in m <==> InRange(key, 1, n)
    requires forall key :: key in m ==> exists i :: 0 <= i < |es| && es[i].key == key
    ensures forall i :: 1 <= i <= n ==> Find(es, i) >= 0
  {
    forall i | 1 <= i <= n ensures Find(es, i) >= 0 {
      assert InRange(IntKey(i), 1, n);
    }
  }

  lemma ArrayMeaning(v: Lua, n: nat, cfg: Config, d: nat, strict: bool, i: nat)
    requires v.LuaTable? && DistinctKeys(v.entries) && i < |v.entries|
    requires n >= 1 && ElementsOf(v, 1, n, cfg, d).SomeElements?
    requires InRange(v.entries[i].key, 1, n)
    ensures JsonOf(v.entries[i].value, cfg, d).Encoded?
    ensures ElementOf(v, v.entries[i].key.i, cfg, d) == JsonOf(v.entries[i].value, cfg, d)
  {
    FindDistinct(v.entries, i);
    ElementsEncoded(v, 1, n, cfg, d, v.entries[i].key.i);
  }

  /** Every entry of an array reappears in what its encoding denotes, with its own meaning. */
  lemma ArrayEntries(v: Lua, n: nat, cfg: Config, d: nat, strict: bool, m: map<Key, Value>)
    requires v.LuaTable? && DistinctKeys(v.entries)
    requires n >= 1 && ElementsOf(v, 1, n, cfg, d).SomeElements?
    requires forall i :: 0 <= i < |v.entries| ==> InRange(v.entries[i].key, 1, n)
    requires forall j :: 1 <= j <= n ==> IntKey(j) in m && m[IntKey(j)] == Meaning(ElementOf(v, j, cfg, d), strict)
    ensures forall i :: 0 <= i < |v.entries| ==>
      && JsonOf(v.entries[i].value, cfg, d).Encoded?
      && v.entries[i].key in m && m[v.entries[i].key] == Meaning(JsonOf(v.entries[i].value, cfg, d), strict)
  {
    forall i | 0 <= i < |v.entries|
      ensures JsonOf(v.entries[i].value, cfg, d).Encoded?
      ensures v.entries[i].key in m && m[v.entries[i].key] == Meaning(JsonOf(v.entries[i].value, cfg, d), strict)
    {
      ArrayMeaning(v, n, cfg, d, strict, i);
    }
  }

  /** m is the table that is read back for the array v. */
  lemma ArrayRegular(v: Lua, cfg: Config, d: nat, strict: bool, m: map<Key, Value>)
    requires v.LuaTable? && DistinctKeys(v.entries) && IsArray(v.entries, cfg)
    requires EntriesRoundTrip(v.entries, cfg, d, strict)
    requires forall key :: key in m <==> InRange(key, 1, MaxIndex(v.entries))
    requires forall i :: 0 <= i < |v.entries| ==>
      && JsonOf(v.entries[i].value, cfg, d).Encoded?
      && v.entries[i].key in m && m[v.entries[i].key] == Meaning(JsonOf(v.entries[i].value, cfg, d), strict)
    ensures m == TableOf(v, |v.entries|) <==> Regular(v, cfg)
  {
    var es, n := v.entries, MaxIndex(v.entries);
    TableHas(v, |es|);
    if m == TableOf(v, |es|) {
      NoHoles(es, n, m);
    } else if Regular(v, cfg) {
      SameTable(es, n, m, TableOf(v, |es|));
    }
  }

  lemma ArrayRoundTrip(v: Lua, cfg: Config, d: nat, strict: bool)
    requires v.LuaTable? && DistinctKeys(v.entries) && IsArray(v.entries, cfg)
    requires ElementsOf(v, 1, MaxIndex(v.entries), cfg, d).SomeElements?
    requires EntriesRoundTrip(v.entries, cfg, d, strict)
    requires WfElements(ElementsOf(v, 1, MaxIndex(v.entries), cfg, d).elements, strict)
    ensures (DenoteElements(ElementsOf(v, 1, MaxIndex(v.entries), cfg, d).elements, strict, 1, map[])
             == TableOf(v, |v.entries|)) <==> Regular(v, cfg)
  {
    var n := MaxIndex(v.entries);
    var m := DenoteElements(ElementsOf(v, 1, n, cfg, d).elements, strict, 1, map[]);
    ElementsDenote(v, 1, n, cfg, d, map[], strict);
    MaxIndexBounds(v.entries);
    ArrayEntries(v, n, cfg, d, strict, m);
    ArrayRegular(v, cfg, d, strict, m);
  }

  lemma ObjectEntries(v: Lua, cfg: Config, d: nat, strict: bool, m: map<Key, Value>)
    requires v.LuaTable? && v.entries != [] && MembersOf(v, 0, cfg, d).SomeMembers?
    requires AllStrKeys(v.entries) && DistinctKeys(v.entries)
    requires WfMembers(MembersOf(v, 0, cfg, d).members, strict)
    requires m == DenoteMembers(MembersOf(v, 0, cfg, d).members, strict, map[])
    ensures HoldsEntries(v, cfg, d, strict, m)
  {
    forall i | 0 <= i < |v.entries|
      ensures JsonOf(v.entries[i].value, cfg, d).Encoded?
      ensures v.entries[i].key in m && m[v.entries[i].key] == Meaning(JsonOf(v.entries[i].value, cfg, d), strict)
    {
      MembersEncoded(v, 0, cfg, d, i);
      MemberDenotes(v, 0, cfg, d, map[], strict, i);
    }
  }

  /** Every entry of es is in the table m, with what is read back of it. */
  ghost predicate HoldsEntries(v: Lua, cfg: Config, d: nat, strict: bool, m: map<Key, Value>)
    requires v.LuaTable?
  {
    forall i :: 0 <= i < |v.entries| ==>
      && JsonOf(v.entries[i].value, cfg, d).Encoded?
      && v.entries[i].key in m && m[v.entries[i].key] == Meaning(JsonOf(v.entries[i].value, cfg, d), strict)
  }

  /** m is the table that is read back for the object v. */
  lemma ObjectRegular(v: Lua, cfg: Config, d: nat, strict: bool, m: map<Key, Value>)
    requires v.LuaTable? && DistinctKeys(v.entries) && AllStrKeys(v.entries) && !IsArray(v.entries, cfg)
    requires EntriesRoundTrip(v.entries, cfg, d, strict)
    requires forall key :: key in m <==> KeyFrom(key, v.entries, 0)
    requires HoldsEntries(v, cfg, d, strict, m)
    ensures m == TableOf(v, |v.entries|) <==> Regular(v, cfg)
  {
    var t := TableOf(v, |v.entries|);
    TableHas(v, |v.entries|);
    if Regular(v, cfg) {
      forall key | key in m ensures key in t && m[key] == t[key] {
        var i :| 0 <= i < |v.entries| && v.entries[i].key == key;
        assert Regular(v.entries[i].value, cfg);
      }
      assert m.Keys == t.Keys;
    } else if m == t {
      forall i | 0 <= i < |v.entries| ensures Regular(v.entries[i].value, cfg) {
        assert m[v.entries[i].key] == Back(v.entries[i].value);
      }
    }
  }

  lemma ObjectRoundTrip(v: Lua, cfg: Config, d: nat, strict: bool)
    requires v.LuaTable? && DistinctKeys(v.entries) && !IsArray(v.entries, cfg) && v.entries != []
    requires MembersOf(v, 0, cfg, d).SomeMembers?
    requires EntriesRoundTrip(v.entries, cfg, d, strict)
    requires WfMembers(MembersOf(v, 0, cfg, d).members, strict)
    ensures (DenoteMembers(MembersOf(v, 0, cfg, d).members, strict, map[]) == TableOf(v, |v.entries|))
       <==> Regular(v, cfg)
  {
    var m := DenoteMembers(MembersOf(v, 0, cfg, d).members, strict, map[]);
    if AllStrKeys(v.entries) {
      MembersDenote(v, 0, cfg, d, map[], strict);
      ObjectEntries(v, cfg, d, strict, m);
      ObjectRegular(v, cfg, d, strict, m);
    } else {
      MembersDenoteStrKeys(MembersOf(v, 0, cfg, d).members, strict, map[]);
      TableHas(v, |v.entries|);
    }
  }

  lemma {:induction false} TreeRoundTrip(v: Lua, cfg: Config, d: nat, strict: bool)
    requires WfLua(v) && JsonOf(v, cfg, d).Encoded?
    ensures Wf(JsonOf(v, cfg, d).json, strict)
    ensures (Denote(JsonOf(v, cfg, d).json, strict) == Back(v)) <==> Regular(v, cfg)
    decreases v
  {
    JsonWf(v, cfg, d, strict);
    match v {
      case LuaInt(n) => PrintIntRight(n, strict);
      case LuaStr(s) => ItemsRight(s);
      case LuaTable(es) => TableRoundTrip(v, cfg, d, strict);
      case _ =>
    }
  }

  lemma {:induction false} EntriesAllRoundTrip(v: Lua, cfg: Config, d: nat, strict: bool)
    requires v.LuaTable? && WfLua(v)
    ensures EntriesRoundTrip(v.entries, cfg, d, strict)
    decreases v, 0
  {
    forall i | 0 <= i < |v.entries| && JsonOf(v.entries[i].value, cfg, d).Encoded?
      ensures Meaning(JsonOf(v.entries[i].value, cfg, d), strict) == Back(v.entries[i].value)
         <==> Regular(v.entries[i].value, cfg)
    {
      TreeRoundTrip(v.entries[i].value, cfg, d, strict);
    }
  }

  lemma {:induction false} TableRoundTrip(v: Lua, cfg: Config, d: nat, strict: bool)
    requires v.LuaTable? && WfLua(v) && JsonOf(v, cfg, d).Encoded? && Wf(JsonOf(v, cfg, d).json, strict)
    ensures (Denote(JsonOf(v, cfg, d).json, strict) == Back(v)) <==> Regular(v, cfg)
    decreases v, 1
  {
    EntriesAllRoundTrip(v, cfg, d + 1, strict);
    if IsArray(v.entries, cfg) {
      ArrayRoundTrip(v, cfg, d + 1, strict);
    } else if v.entries != [] {
      ObjectRoundTrip(v, cfg, d + 1, strict);
    }
  }
}
