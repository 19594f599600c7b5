/** What comes back of any value that the encoder accepts, and when it is the value itself. */
module JsonReturned {
  import opened Octets
  import opened JsonLexis
  import opened JsonSyntax
  import opened JsonEncoding
  import opened JsonTables
  import opened JsonRoundTrip

  /** The text of a key: a number as it is printed. */
  function KeyText(k: Key): bytes {
    match k
    case IntKey(i) => PrintInt(i)
    case FloatKey(text) => text
    case StrKey(s) => s
    case InfiniteKey => []
    case OtherKey => []
  }

  predicate WrittenAsArray(es: seq<Entry>, cfg: Config) {
    es != [] && PositiveKeys(es) && !IsSparse(es, cfg)
  }

  /**
   What is decoded from the text of a value. An array comes back with its holes filled by
   null, up to its largest index, and an object with the texts of its keys.
   */
  function Returned(v: Lua, cfg: Config): Value
    decreases v, 1, 0
  {
    match v
    case Nil => NullValue
    case LuaNull => NullValue
    case LuaBool(b) => BoolValue(b)
    case LuaInt(n) => NumValue(Exact(n))
    case LuaFloat(text) => NumValue(NumberOf(text))
    case LuaStr(s) => StrValue(s)
    case NotFinite => NullValue
    case Unsupported => NullValue
    case LuaTable(es) =>
      if WrittenAsArray(es, cfg) then
        ArrayAsIndices(es);
        TableValue(ReturnedElements(v, MaxIndex(es), cfg))
      else TableValue(ReturnedMembers(v, |es|, cfg))
  }

  lemma ArrayAsIndices(es: seq<Entry>)
    requires PositiveKeys(es)
    ensures AllIndices(es)
  {
    assert forall i :: 0 <= i < |es| ==> es[i].key.IntKey? && es[i].key.i >= 1;
  }

  function ReturnedElement(v: Lua, i: int, cfg: Config): Value
    requires v.LuaTable?
    decreases v, 0, 0
  {
    var k := Find(v.entries, i);
    if k < 0 then NullValue else Returned(v.entries[k].value, cfg)
  }

  /** The indices 1 to n. */
  function ReturnedElements(v: Lua, n: nat, cfg: Config): (m: map<Key, Value>)
    requires v.LuaTable?
    ensures forall key :: key in m <==> InRange(key, 1, n)
    ensures forall j :: 1 <= j <= n ==> IntKey(j) in m && m[IntKey(j)] == ReturnedElement(v, j, cfg)
    decreases v, 0, n + 1
  {
    if n == 0 then map[] else ReturnedElements(v, n - 1, cfg)[IntKey(n) := ReturnedElement(v, n, cfg)]
  }

  /** The first k entries; of equal texts the later wins. */
  function ReturnedMembers(v: Lua, k: nat, cfg: Config): map<Key, Value>
    requires v.LuaTable? && k <= |v.entries|
    decreases v, 0, k + 1
  {
    if k == 0 then map[]
    else ReturnedMembers(v, k - 1, cfg)[StrKey(KeyText(v.entries[k - 1].key)) := Returned(v.entries[k - 1].value, cfg)]
  }

  lemma KeyRead(k: Key)
    ensures WfString(KeyItems(k)) && StrBytes(KeyItems(k)) == KeyText(k)
  {
    ItemsRight(KeyText(k));
  }

  /** The tree that is written for a value denotes what Returned says. */
  lemma {:induction false} TreeReturned(v: Lua, cfg: Config, d: nat, strict: bool)
    requires JsonOf(v, cfg, d).Encoded?
    ensures Wf(JsonOf(v, cfg, d).json, strict) && Denote(JsonOf(v, cfg, d).json, strict) == Returned(v, cfg)
    decreases v, 2, 0
  {
    JsonWf(v, cfg, d, strict);
    match v {
      case LuaInt(n) => PrintIntRight(n, strict);
      case LuaStr(s) => ItemsRight(s);
      case LuaTable(es) =>
        ShapeIs(es, cfg);
        if WrittenAsArray(es, cfg) {
          ArrayReturned(v, cfg, d, strict);
        } else if es != [] {
          MembersReturned(v, 0, cfg, d + 1, strict);
        }
      case _ =>
    }
  }

  lemma {:induction false} ArrayReturned(v: Lua, cfg: Config, d: nat, strict: bool)
    requires v.LuaTable? && WrittenAsArray(v.entries, cfg) && JsonOf(v, cfg, d).Encoded?
    requires Wf(JsonOf(v, cfg, d).json, strict)
    ensures Denote(JsonOf(v, cfg, d).json, strict) == Returned(v, cfg)
    decreases v, 1, 0
  {
    ShapeIs(v.entries, cfg);
    ArrayAsIndices(v.entries);
    var n := MaxIndex(v.entries);
    var e := ElementsOf(v, 1, n, cfg, d + 1).elements;
    ElementsDenote(v, 1, n, cfg, d + 1, map[], strict);
    forall j | 1 <= j <= n ensures Meaning(ElementOf(v, j, cfg, d + 1), strict) == ReturnedElement(v, j, cfg) {
      ElementsEncoded(v, 1, n, cfg, d + 1, j);
      var k := Find(v.entries, j);
      if k >= 0 {
        TreeReturned(v.entries[k].value, cfg, d + 1, strict);
      }
    }
    SameElements(DenoteElements(e, strict, 1, map[]), ReturnedElements(v, n, cfg), n);
  }

  lemma SameElements(a: map<Key, Value>, b: map<Key, Value>, n: nat)
    requires forall key :: key in a <==> InRange(key, 1, n)
    requires forall key :: key in b <==> InRange(key, 1, n)
    requires forall j :: 1 <= j <= n ==> IntKey(j) in a && IntKey(j) in b && a[IntKey(j)] == b[IntKey(j)]
    ensures a == b
  {
    forall key | key in a ensures a[key] == b[key] {
      assert InRange(key, 1, n) && key == IntKey(key.i);
    }
  }

  lemma {:induction false} MembersReturned(v: Lua, k: nat, cfg: Config, d: nat, strict: bool)
    requires v.LuaTable? && k < |v.entries| && MembersOf(v, k, cfg, d).SomeMembers?
    requires WfMembers(MembersOf(v, k, cfg, d).members, strict)
    ensures DenoteMembers(MembersOf(v, k, cfg, d).members, strict, ReturnedMembers(v, k, cfg))
         == ReturnedMembers(v, |v.entries|, cfg)
    decreases v, 1, |v.entries| - k
  {
    KeyRead(v.entries[k].key);
    TreeReturned(v.entries[k].value, cfg, d, strict);
    assert ReturnedMembers(v, k + 1, cfg)
        == ReturnedMembers(v, k, cfg)[StrKey(KeyText(v.entries[k].key)) := Returned(v.entries[k].value, cfg)];
    if k + 1 < |v.entries| {
      MembersReturned(v, k + 1, cfg, d, strict);
    }
  }

  // ----- When the value itself comes back -----

  /**
   JSON can express the value: every table in it has the keys 1 to n, in any order, or has
   string keys only.
   */
  predicate Expressible(v: Lua) {
    v.LuaTable? ==>
      && (forall i :: 0 <= i < |v.entries| ==> Expressible(v.entries[i].value))
      && (IsDense(v.entries) || forall i :: 0 <= i < |v.entries| ==> v.entries[i].key.StrKey?)
  }

  lemma {:induction false} ExpressibleIsRegular(v: Lua, cfg: Config)
    requires WfLua(v)
    ensures Regular(v, cfg) <==> Expressible(v)
    decreases v
  {
    if v.LuaTable? {
      forall i | 0 <= i < |v.entries|
        ensures Regular(v.entries[i].value, cfg) <==> Expressible(v.entries[i].value)
      {
        ExpressibleIsRegular(v.entries[i].value, cfg);
      }
      RegularTable(v.entries, cfg);
    }
  }

  lemma RegularTable(es: seq<Entry>, cfg: Config)
    requires DistinctKeys(es)
    ensures (if IsArray(es, cfg) then Gapless(es, MaxIndex(es)) else forall i :: 0 <= i < |es| ==> es[i].key.StrKey?)
       <==> IsDense(es) || forall i :: 0 <= i < |es| ==> es[i].key.StrKey?
  {
    ShapeIs(es, cfg);
    if es != [] {
      assert es[0].key.StrKey? ==> !PositiveKeys(es) && !IsDense(es);
      if IsArray(es, cfg) {
        GaplessIsDense(es, cfg);
      } else if IsDense(es) {
        DenseIsArray(es, cfg);
      }
    }
  }
}
