/** Soundness, completeness and unambiguity of the JSON decoder, for every text. */
module JsonTheorem {
  import opened Octets
  import opened JsonLexis
  import opened JsonSyntax
  import opened JsonParser
  import opened JsonTokens
  import opened JsonCorrect

  /** What the decoder sees of a Lua string: the bytes before its first NUL. */
  function Visible(text: bytes): bytes {
    if text == [] || text[0] == NUL then [] else [text[0]] + Visible(text[1..])
  }

  /** The test for UTF-16 and UTF-32 in json_decode: a NUL among the first two bytes. */
  predicate LooksWide(text: bytes) {
    |text| >= 2 && 0 in text[..2]
  }

  predicate NoNul(x: bytes) {
    forall i :: 0 <= i < |x| ==> x[i] != NUL
  }

  lemma {:induction false} VisibleEnds(text: bytes) returns (r: bytes)
    ensures text + [NUL] == Visible(text) + r && Terminated(r) && r[0] == NUL
  {
    if text == [] || text[0] == NUL {
      r := text + [NUL];
    } else {
      r := VisibleEnds(text[1..]);
      assert text + [NUL] == [text[0]] + (text[1..] + [NUL]);
    }
  }

  lemma {:induction false} VisibleIs(text: bytes, x: bytes, t: bytes)
    requires NoNul(x) && t != [] && t[0] == NUL && text + [NUL] == x + t
    ensures Visible(text) == x
  {
    if x == [] {
      assert (text + [NUL])[0] == NUL;
    } else {
      assert (text + [NUL])[0] == x[0];
      assert text != [] && text[0] == x[0];
      assert text[1..] + [NUL] == (text + [NUL])[1..] == (x + t)[1..] == x[1..] + t;
      VisibleIs(text[1..], x[1..], t);
    }
  }

  // ----- Well-formed texts hold no NUL -----

  lemma NoNulConcat(x: bytes, y: bytes)
    requires NoNul(x) && NoNul(y)
    ensures NoNul(x + y)
  {
  }

  lemma BlanksNoNul(ws: bytes)
    requires White(ws)
    ensures NoNul(ws)
  {
  }

  lemma {:induction false} StringNoNul(items: seq<StrItem>)
    requires WfString(items)
    ensures NoNul(StrText(items))
  {
    if items != [] {
      ItemNoNul(items[0]);
      StringNoNul(items[1..]);
    }
  }

  lemma ItemNoNul(x: StrItem)
    requires WfItem(x)
    ensures NoNul(ItemText(x))
  {
    assert HexDigitToInt(NUL) < 0;
  }

  lemma {:induction false} TextNoNul(j: Json, strict: bool)
    requires Wf(j, strict)
    ensures NoNul(Text(j))
    decreases j
  {
    match j {
      case NumLit(x) => NumeralAlphabet(x);
      case StrLit(items) => StringNoNul(items);
      case Array(e) => ElementsNoNul(e, strict);
      case Object(m) => MembersNoNul(m, strict);
      case _ =>
    }
  }

  lemma {:induction false} ElementsNoNul(e: Elements, strict: bool)
    requires WfElements(e, strict)
    ensures NoNul(ElementsText(e))
    decreases e
  {
    TextNoNul(e.value, strict);
    if e.tail.MoreElements? {
      ElementsNoNul(e.tail.elements, strict);
    }
    NoNulConcat(e.before + Text(e.value), ElementsTailText(e.tail));
  }

  lemma {:induction false} MembersNoNul(m: Members, strict: bool)
    requires WfMembers(m, strict)
    ensures NoNul(MembersText(m))
    decreases m
  {
    StringNoNul(m.key);
    TextNoNul(m.value, strict);
    if m.tail.MoreMembers? {
      MembersNoNul(m.tail.members, strict);
    }
    var tail := MembersTailText(m.tail);
    NoNulConcat(m.pre + Text(m.value), tail);
    NoNulConcat(m.mid + [COLON], m.pre + Text(m.value) + tail);
    NoNulConcat(m.before + Quoted(m.key), m.mid + [COLON] + (m.pre + Text(m.value) + tail));
  }

  // ----- The decoder and the grammar -----

  ghost predicate Derives(text: bytes, strict: bool, d: Document) {
    WfDocument(d, strict) && DocumentText(d) == Visible(text)
  }

  lemma Complete(text: bytes, strict: bool, d: Document)
    requires Derives(text, strict, d)
    ensures var o := ParseDocument(text + [NUL], strict);
            o.Parsed? && o.value == Denote(d.value, strict)
  {
    var r := VisibleEnds(text);
    Assoc(d.before + Text(d.value), d.after, r);
    ValueRead(d.value, d.before, d.after + r, strict);
    EndLexed(d.after, r, strict);
  }

  lemma Sound(text: bytes, strict: bool) returns (d: Document)
    requires ParseDocument(text + [NUL], strict).Parsed?
    ensures Derives(text, strict, d)
    ensures ParseDocument(text + [NUL], strict).value == Denote(d.value, strict)
  {
    var s := text + [NUL];
    var v := ParseValue(s, strict);
    var before, j := ValueFound(s, strict);
    var after := EndFound(v.rest, strict);
    var t := Lex(v.rest, strict).rest;
    d := Document(before, j, after);
    Assoc(before + Text(j), after, t);
    TextNoNul(j, strict);
    BlanksNoNul(before);
    BlanksNoNul(after);
    NoNulConcat(before, Text(j));
    NoNulConcat(before + Text(j), after);
    VisibleIs(text, DocumentText(d), t);
  }

  /**
   The decoder succeeds on a text exactly when what it sees of the text derives from the
   grammar, and then its result is the value the grammar assigns.
   */
  lemma DecoderMatchesGrammar(text: bytes, strict: bool, v: Value)
    ensures (ParseDocument(text + [NUL], strict).Parsed? && ParseDocument(text + [NUL], strict).value == v)
       <==> exists d :: Derives(text, strict, d) && Denote(d.value, strict) == v
  {
    if ParseDocument(text + [NUL], strict).Parsed? {
      var d := Sound(text, strict);
    }
    forall d | Derives(text, strict, d)
      ensures ParseDocument(text + [NUL], strict).Parsed?
      ensures ParseDocument(text + [NUL], strict).value == Denote(d.value, strict)
    {
      Complete(text, strict, d);
    }
  }

  /** No text has two derivations with different values. */
  lemma Unambiguous(d: Document, d': Document, strict: bool)
    requires WfDocument(d, strict) && WfDocument(d', strict) && DocumentText(d) == DocumentText(d')
    ensures Denote(d.value, strict) == Denote(d'.value, strict)
  {
    var text := DocumentText(d);
    TextNoNul(d.value, strict);
    VisibleIs(text, text, [NUL]);
    Complete(text, strict, d);
    Complete(text, strict, d');
  }
}
