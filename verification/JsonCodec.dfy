/** When the JSON encoder accepts a value, and what decoding its text gives back. */
module JsonCodec {
  import opened Octets
  import opened JsonLexis
  import opened JsonSyntax
  import opened JsonParser
  import opened JsonTheorem
  import opened JsonEncoding
  import opened JsonRoundTrip
  import opened JsonTables
  import opened JsonReturned

  // ----- When the encoder succeeds -----

  /** No value of a foreign type, no infinity or NaN, no foreign key in an object, and no table refused as too sparse. */
  predicate Encodable(v: Lua, cfg: Config) {
    !v.Unsupported? && !v.NotFinite? &&
    (v.LuaTable? ==>
       && (forall i :: 0 <= i < |v.entries| ==> Encodable(v.entries[i].value, cfg))
       && !RefusedAsSparse(v.entries, cfg)
       && (forall i :: 0 <= i < |v.entries| ==> !IsBadKey(v.entries[i].key)))
  }

  /** How deeply tables are nested. */
  function Nesting(v: Lua): nat
    decreases v, 1, 0
  {
    if v.LuaTable? then 1 + Deepest(v, |v.entries|) else 0
  }

  function Deepest(v: Lua, k: nat): nat
    requires v.LuaTable? && k <= |v.entries|
    decreases v, 0, k
  {
    if k == 0 then 0
    else
      var n, last := Deepest(v, k - 1), Nesting(v.entries[k - 1].value);
      if last > n then last else n
  }

  lemma {:induction false} DeepestBounds(v: Lua, k: nat)
    requires v.LuaTable? && k <= |v.entries|
    ensures forall i :: 0 <= i < k ==> Nesting(v.entries[i].value) <= Deepest(v, k)
    ensures Deepest(v, k) > 0 ==> exists i :: 0 <= i < k && Nesting(v.entries[i].value) == Deepest(v, k)
  {
    if k > 0 {
      DeepestBounds(v, k - 1);
    }
  }

  /** Tables in v, found at depth d, stay within the limit. */
  predicate Fits(v: Lua, d: nat, max: nat) {
    Nesting(v) == 0 || d + Nesting(v) <= max
  }

  lemma FitsInside(v: Lua, d: nat, max: nat)
    requires v.LuaTable?
    ensures Fits(v, d, max) <==>
            d + 1 <= max && forall i :: 0 <= i < |v.entries| ==> Fits(v.entries[i].value, d + 1, max)
  {
    DeepestBounds(v, |v.entries|);
    if d + 1 <= max && !Fits(v, d, max) {
      var i :| 0 <= i < |v.entries| && Nesting(v.entries[i].value) == Deepest(v, |v.entries|);
      assert !Fits(v.entries[i].value, d + 1, max);
    }
  }

  ghost predicate AllEncoded(es: seq<Entry>, cfg: Config, d: nat) {
    forall i :: 0 <= i < |es| ==> JsonOf(es[i].value, cfg, d).Encoded?
  }

  lemma {:induction false} ElementsSucceed(v: Lua, i: nat, n: nat, cfg: Config, d: nat)
    requires v.LuaTable? && 1 <= i <= n && AllEncoded(v.entries, cfg, d)
    ensures ElementsOf(v, i, n, cfg, d).SomeElements?
    decreases n - i
  {
    if i < n {
      ElementsSucceed(v, i + 1, n, cfg, d);
    }
  }

  lemma ArraySucceeds(v: Lua, n: nat, cfg: Config, d: nat)
    requires v.LuaTable? && WfLua(v) && n >= 1
    requires forall i :: 0 <= i < |v.entries| ==> InRange(v.entries[i].key, 1, n)
    ensures ElementsOf(v, 1, n, cfg, d).SomeElements? <==> AllEncoded(v.entries, cfg, d)
  {
    if AllEncoded(v.entries, cfg, d) {
      ElementsSucceed(v, 1, n, cfg, d);
    } else if ElementsOf(v, 1, n, cfg, d).SomeElements? {
      var i :| 0 <= i < |v.entries| && !JsonOf(v.entries[i].value, cfg, d).Encoded?;
      ArrayMeaning(v, n, cfg, d, true, i);
      assert false;
    }
  }

  ghost predicate MemberEncoded(e: Entry, cfg: Config, d: nat) {
    !IsBadKey(e.key) && JsonOf(e.value, cfg, d).Encoded?
  }

  lemma {:induction false} MembersSucceed(v: Lua, k: nat, cfg: Config, d: nat)
    requires v.LuaTable? && k < |v.entries|
    ensures MembersOf(v, k, cfg, d).SomeMembers?
       <==> forall i :: k <= i < |v.entries| ==> MemberEncoded(v.entries[i], cfg, d)
    decreases |v.entries| - k
  {
    if k + 1 < |v.entries| {
      MembersSucceed(v, k + 1, cfg, d);
    }
  }

  lemma TableSucceeds(v: Lua, cfg: Config, d: nat)
    requires v.LuaTable? && WfLua(v)
    ensures JsonOf(v, cfg, d).Encoded? <==>
            && !RefusedAsSparse(v.entries, cfg) && d + 1 <= cfg.maxDepth
            && (forall i :: 0 <= i < |v.entries| ==> !IsBadKey(v.entries[i].key))
            && AllEncoded(v.entries, cfg, d + 1)
  {
    ShapeIs(v.entries, cfg);
    if IsArray(v.entries, cfg) {
      MaxIndexBounds(v.entries);
      ArraySucceeds(v, MaxIndex(v.entries), cfg, d + 1);
    } else if v.entries != [] {
      MembersSucceed(v, 0, cfg, d + 1);
      assert forall i :: 0 <= i < |v.entries| ==>
        (MemberEncoded(v.entries[i], cfg, d + 1)
         <==> !IsBadKey(v.entries[i].key) && JsonOf(v.entries[i].value, cfg, d + 1).Encoded?);
    }
  }

  /** The encoder succeeds exactly on the encodable values that are not nested too deeply. */
  lemma {:induction false} EncodesExactly(v: Lua, cfg: Config, d: nat)
    requires WfLua(v)
    ensures JsonOf(v, cfg, d).Encoded? <==> Encodable(v, cfg) && Fits(v, d, cfg.maxDepth)
    decreases v
  {
    if v.LuaTable? {
      forall i | 0 <= i < |v.entries|
        ensures JsonOf(v.entries[i].value, cfg, d + 1).Encoded?
           <==> Encodable(v.entries[i].value, cfg) && Fits(v.entries[i].value, d + 1, cfg.maxDepth)
      {
        EncodesExactly(v.entries[i].value, cfg, d + 1);
      }
      TableSucceeds(v, cfg, d);
      FitsInside(v, d, cfg.maxDepth);
    }
  }

  // ----- The round trip of texts -----

  /**
   Decoding the text of an encoded value succeeds, in either mode, and reads it to its end.
   It gives what Returned says, which is the value itself exactly when every table in it is
   one that JSON can express.
   */
  lemma RoundTrip(v: Lua, cfg: Config, strict: bool)
    requires WfLua(v) && Encodable(v, cfg) && Fits(v, 0, cfg.maxDepth)
    ensures JsonOf(v, cfg, 0).Encoded? && !LooksWide(Text(JsonOf(v, cfg, 0).json))
    ensures var o := ParseDocument(Text(JsonOf(v, cfg, 0).json) + [NUL], strict);
      && o.Parsed? && o.value == Returned(v, cfg) && (o.value == Back(v) <==> Expressible(v))
  {
    EncodesExactly(v, cfg, 0);
    TreeRoundTrip(v, cfg, 0, strict);
    TreeReturned(v, cfg, 0, strict);
    ExpressibleIsRegular(v, cfg);
    TreeDecoded(JsonOf(v, cfg, 0).json, strict);
  }

  /** The text of a well-formed tree is decoded to what the tree denotes. */
  lemma TreeDecoded(j: Json, strict: bool)
    requires Wf(j, strict)
    ensures !LooksWide(Text(j))
    ensures ParseDocument(Text(j) + [NUL], strict).Parsed?
    ensures ParseDocument(Text(j) + [NUL], strict).value == Denote(j, strict)
  {
    TextNoNul(j, strict);
    VisibleIs(Text(j), Text(j), [NUL]);
    Complete(Text(j), strict, Document([], j, []));
  }

  /** The text [null,true]. */
  const FILLED := Array(Elements([], NullLit, MoreElements([], Elements([], BoolLit(true), CloseArray([])))))

  /** A table that is not regular: { [2] = true } comes back with an explicit null at 1. */
  lemma HolesComeBackFilled(cfg: Config, strict: bool)
    requires cfg.sparseRatio == 2 && cfg.sparseSafe == 10 && cfg.maxDepth >= 1
    ensures JsonOf(LuaTable([Entry(IntKey(2), LuaBool(true))]), cfg, 0) == Encoded(FILLED)
    ensures ParseDocument(Text(FILLED) + [NUL], strict).Parsed?
    ensures ParseDocument(Text(FILLED) + [NUL], strict).value
         == TableValue(map[IntKey(1) := NullValue, IntKey(2) := BoolValue(true)])
  {
    HolesEncoded(cfg);
    FilledDenotes(strict);
    TreeDecoded(FILLED, strict);
  }

  lemma FilledDenotes(strict: bool)
    ensures Wf(FILLED, strict)
    ensures Denote(FILLED, strict) == TableValue(map[IntKey(1) := NullValue, IntKey(2) := BoolValue(true)])
  {
    var t := map[IntKey(1) := NullValue];
    OneElement([], BoolLit(true), CloseArray([]), strict, 2, t);
    var last := Elements([], BoolLit(true), CloseArray([]));
    assert WfElementsTail(MoreElements([], last), strict);
    assert DenoteElementsTail(MoreElements([], last), strict, 2, t) == t[IntKey(2) := BoolValue(true)];
    OneElement([], NullLit, MoreElements([], last), strict, 1, map[]);
  }

  lemma OneElement(before: bytes, j: Json, tail: ElementsTail, strict: bool, i: int, t: map<Key, Value>)
    requires White(before) && Wf(j, strict) && WfElementsTail(tail, strict)
    ensures WfElements(Elements(before, j, tail), strict)
    ensures DenoteElements(Elements(before, j, tail), strict, i, t)
         == DenoteElementsTail(tail, strict, i + 1, t[IntKey(i) := Denote(j, strict)])
  {
  }

  lemma HolesEncoded(cfg: Config)
    requires cfg.sparseRatio == 2 && cfg.sparseSafe == 10 && cfg.maxDepth >= 1
    ensures JsonOf(LuaTable([Entry(IntKey(2), LuaBool(true))]), cfg, 0) == Encoded(FILLED)
  {
    var es := [Entry(IntKey(2), LuaBool(true))];
    assert es[..0] == [] && MaxIndex(es) == 2;
    assert Find(es, 1) == -1 && Find(es, 2) == 0;
    var v := LuaTable(es);
    assert ElementsOf(v, 2, 2, cfg, 1) == SomeElements(Elements([], BoolLit(true), CloseArray([])));
    assert ElementOf(v, 1, cfg, 1) == Encoded(NullLit);
  }

  /** The empty table is written as an object. */
  lemma EmptyTableIsObject(cfg: Config, d: nat)
    requires d + 1 <= cfg.maxDepth
    ensures JsonOf(LuaTable([]), cfg, d).Encoded? && Text(JsonOf(LuaTable([]), cfg, d).json) == [0x7B, 0x7D]
  {
    ShapeIs([], cfg);
    assert [0x7B] + [] + [0x7D] == [0x7B, 0x7D];
  }

  // ----- Why the encoder refuses -----

  /** What the reason names is in the value; nesting apart. */
  predicate Has(v: Lua, cfg: Config, why: Refusal) {
    || (why.BadType? && v.Unsupported?) || (why.BadNumber? && v.NotFinite?)
    || (v.LuaTable? &&
          (|| (why.SparseArray? && RefusedAsSparse(v.entries, cfg))
           || (why.BadKey? && exists i :: 0 <= i < |v.entries| && v.entries[i].key.OtherKey?)
           || (why.BadNumber? && exists i :: 0 <= i < |v.entries| && v.entries[i].key.InfiniteKey?)
           || exists i :: 0 <= i < |v.entries| && Has(v.entries[i].value, cfg, why)))
  }

  predicate Explains(v: Lua, cfg: Config, d: nat, why: Refusal) {
    if why.ExcessiveNesting? then !Fits(v, d, cfg.maxDepth) else Has(v, cfg, why)
  }

  /** The reason for which a value is refused is a true one. */
  lemma {:induction false} RefusedWithReason(v: Lua, cfg: Config, d: nat)
    requires JsonOf(v, cfg, d).Refused?
    ensures Explains(v, cfg, d, JsonOf(v, cfg, d).why)
    decreases v, 2, 0
  {
    if v.LuaTable? {
      ShapeIs(v.entries, cfg);
      if !ShapeOf(v.entries, cfg).TooSparse? {
        if d + 1 > cfg.maxDepth {
          assert Nesting(v) >= 1;
        } else if IsArray(v.entries, cfg) {
          ElementsRefused(v, 1, MaxIndex(v.entries), cfg, d + 1);
        } else {
          MembersRefused(v, 0, cfg, d + 1);
        }
      }
    }
  }

  /** A reason found in an entry is one for the table. */
  lemma ReasonInside(v: Lua, k: nat, cfg: Config, d: nat, why: Refusal)
    requires v.LuaTable? && k < |v.entries| && Explains(v.entries[k].value, cfg, d + 1, why)
    ensures Explains(v, cfg, d, why)
  {
    FitsInside(v, d, cfg.maxDepth);
  }

  lemma {:induction false} ElementsRefused(v: Lua, i: nat, n: nat, cfg: Config, d: nat)
    requires v.LuaTable? && 1 <= i <= n && d >= 1 && ElementsOf(v, i, n, cfg, d).NoElements?
    ensures Explains(v, cfg, d - 1, ElementsOf(v, i, n, cfg, d).why)
    decreases v, 1, n - i + 1
  {
    var k := Find(v.entries, i);
    if k >= 0 && JsonOf(v.entries[k].value, cfg, d).Refused? {
      RefusedWithReason(v.entries[k].value, cfg, d);
      ReasonInside(v, k, cfg, d - 1, JsonOf(v.entries[k].value, cfg, d).why);
    } else {
      ElementsRefused(v, i + 1, n, cfg, d);
    }
  }

  lemma {:induction false} MembersRefused(v: Lua, k: nat, cfg: Config, d: nat)
    requires v.LuaTable? && k < |v.entries| && d >= 1 && MembersOf(v, k, cfg, d).NoMembers?
    ensures Explains(v, cfg, d - 1, MembersOf(v, k, cfg, d).why)
    decreases v, 1, |v.entries| - k
  {
    var e := v.entries[k];
    if !IsBadKey(e.key) {
      if JsonOf(e.value, cfg, d).Refused? {
        RefusedWithReason(e.value, cfg, d);
        ReasonInside(v, k, cfg, d - 1, JsonOf(e.value, cfg, d).why);
      } else {
        MembersRefused(v, k + 1, cfg, d);
      }
    }
  }
}
