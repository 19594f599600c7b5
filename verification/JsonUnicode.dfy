/**
 The \u escapes of a JSON string against the standards they implement: UTF-16 of section
 2 of RFC 2781 going in, and UTF-8 of sections 3 and 4 of RFC 3629 coming out.
 */
module JsonUnicode {
  import opened Octets
  import opened JsonLexis
  import opened JsonSyntax
  import opened JsonTokens

  predicate IsScalar(cp: nat) {
    cp <= 0x10_FFFF && !(0xD800 <= cp <= 0xDFFF)
  }

  predicate Scalars(cps: seq<nat>) {
    forall i :: 0 <= i < |cps| ==> IsScalar(cps[i])
  }

  datatype Text = Valid(cps: seq<nat>) | Malformed

  function Cons(cp: nat, t: Text): Text {
    if t.Valid? then Valid([cp] + t.cps) else t
  }

  // ----- UTF-16 -----

  /** Section 2.1 of RFC 2781: characters above 0xFFFF take a high and a low surrogate. */
  function Utf16(cps: seq<nat>): (units: seq<u16>)
    requires Scalars(cps)
  {
    if cps == [] then []
    else if cps[0] < 0x1_0000 then [cps[0]] + Utf16(cps[1..])
    else [0xD800 + (cps[0] - 0x1_0000) / 0x400, 0xDC00 + (cps[0] - 0x1_0000) % 0x400] + Utf16(cps[1..])
  }

  predicate IsPair(hi: int, lo: int) {
    0xD800 <= hi <= 0xDBFF && 0xDC00 <= lo <= 0xDFFF
  }

  function OfPair(hi: int, lo: int): (cp: nat)
    requires IsPair(hi, lo)
    ensures 0x1_0000 <= cp <= 0x10_FFFF
  {
    (hi - 0xD800) * 0x400 + (lo - 0xDC00) + 0x1_0000
  }

  /** Section 2.2 of RFC 2781: a surrogate that is no part of a pair makes the text malformed. */
  function Utf16Decode(units: seq<u16>): (t: Text) {
    if units == [] then Valid([])
    else if !(0xD800 <= units[0] <= 0xDFFF) then Cons(units[0], Utf16Decode(units[1..]))
    else if |units| >= 2 && IsPair(units[0], units[1]) then
      Cons(OfPair(units[0], units[1]), Utf16Decode(units[2..]))
    else Malformed
  }

  lemma {:induction false} Utf16RoundTrip(cps: seq<nat>)
    requires Scalars(cps)
    ensures Utf16Decode(Utf16(cps)) == Valid(cps)
  {
    if cps != [] {
      var cp, others := cps[0], Utf16(cps[1..]);
      Utf16RoundTrip(cps[1..]);
      assert cps == [cp] + cps[1..];
      if cp < 0x1_0000 {
        assert ([cp] + others)[1..] == others;
      } else {
        assert Utf16(cps)[2..] == others;
      }
    }
  }

  lemma {:induction false} Utf16DecodesToScalars(units: seq<u16>)
    requires Utf16Decode(units).Valid?
    ensures Scalars(Utf16Decode(units).cps) && Utf16(Utf16Decode(units).cps) == units
  {
    if units != [] {
      var n := if 0xD800 <= units[0] <= 0xDFFF then 2 else 1;
      Utf16DecodesToScalars(units[n..]);
      var cps := Utf16Decode(units).cps;
      assert cps[1..] == Utf16Decode(units[n..]).cps;
      assert units == units[..n] + units[n..];
    }
  }

  // ----- UTF-8 -----

  datatype Char = Char(cp: nat, length: nat) | NoChar

  predicate IsTail(c: byte) {
    0x80 <= c <= 0xBF
  }

  function TailBits(c: byte): int {
    c - 0x80
  }

  /** The first character by the grammar of section 4 of RFC 3629. */
  function FirstChar(b: bytes): (c: Char)
    ensures c.Char? ==> 1 <= c.length <= |b|
  {
    if b == [] then NoChar
    else
      var b0: int := b[0];
      if b0 <= 0x7F then Char(b0, 1)
      else if 0xC2 <= b0 <= 0xDF && |b| >= 2 && IsTail(b[1]) then
        Char((b0 - 0xC0) * 0x40 + TailBits(b[1]), 2)
      else if 0xE0 <= b0 <= 0xEF && |b| >= 3 && IsTail(b[1]) && IsTail(b[2])
              && (b0 == 0xE0 ==> b[1] >= 0xA0) && (b0 == 0xED ==> b[1] <= 0x9F) then
        Char((b0 - 0xE0) * 0x1000 + TailBits(b[1]) * 0x40 + TailBits(b[2]), 3)
      else if 0xF0 <= b0 <= 0xF4 && |b| >= 4 && IsTail(b[1]) && IsTail(b[2]) && IsTail(b[3])
              && (b0 == 0xF0 ==> b[1] >= 0x90) && (b0 == 0xF4 ==> b[1] <= 0x8F) then
        Char((b0 - 0xF0) * 0x4_0000 + TailBits(b[1]) * 0x1000 + TailBits(b[2]) * 0x40 + TailBits(b[3]), 4)
      else NoChar
  }

  function Utf8Decode(b: bytes): Text {
    if b == [] then Valid([])
    else
      match FirstChar(b)
      case NoChar => Malformed
      case Char(cp, n) => Cons(cp, Utf8Decode(b[n..]))
  }

  /** What codepoint_to_utf8 writes is read back by the grammar as that character. */
  lemma Utf8CharRead(cp: nat, r: bytes)
    requires IsScalar(cp)
    ensures FirstChar(CodepointToUtf8(cp) + r) == Char(cp, |CodepointToUtf8(cp)|)
  {
    var u := CodepointToUtf8(cp);
    var b := u + r;
    assert forall i :: 0 <= i < |u| ==> b[i] == u[i];
    if cp > 0xFFFF {
      FourBytes(cp);
    } else if cp > 0x7FF {
      assert cp / 0x40 / 0x40 == cp / 0x1000;
    }
  }

  lemma FourBytes(cp: nat)
    requires 0x1_0000 <= cp <= 0x10_FFFF
    ensures cp / 0x4_0000 <= 4 && (cp / 0x4_0000 == 4 ==> cp / 0x1000 % 0x40 < 0x10)
    ensures cp / 0x4_0000 == 0 ==> cp / 0x1000 % 0x40 >= 0x10
    ensures cp / 0x4_0000 * 0x4_0000 + cp / 0x1000 % 0x40 * 0x1000 + cp / 0x40 % 0x40 * 0x40 + cp % 0x40 == cp
  {
    assert cp / 0x40 / 0x40 == cp / 0x1000 && cp / 0x1000 / 0x40 == cp / 0x4_0000;
  }

  lemma TwoBytesUnique(b0: int, b1: int)
    requires 0xC2 <= b0 <= 0xDF && 0x80 <= b1 <= 0xBF
    ensures CodepointToUtf8((b0 - 0xC0) * 0x40 + (b1 - 0x80)) == [b0, b1]
  {
    assert ((b0 - 0xC0) * 0x40 + (b1 - 0x80)) / 0x40 == b0 - 0xC0;
  }

  lemma ThreeBytesUnique(b0: int, b1: int, b2: int, cp: nat)
    requires 0xE0 <= b0 <= 0xEF && 0x80 <= b1 <= 0xBF && 0x80 <= b2 <= 0xBF && (b0 == 0xE0 ==> b1 >= 0xA0)
    requires cp == (b0 - 0xE0) * 0x1000 + (b1 - 0x80) * 0x40 + (b2 - 0x80)
    ensures CodepointToUtf8(cp) == [b0, b1, b2]
  {
    assert cp / 0x40 == (b0 - 0xE0) * 0x40 + (b1 - 0x80);
    assert cp / 0x1000 == b0 - 0xE0;
  }

  lemma FourBytesUnique(b0: int, b1: int, b2: int, b3: int, cp: nat)
    requires 0xF0 <= b0 <= 0xF4 && 0x80 <= b1 <= 0xBF && 0x80 <= b2 <= 0xBF && 0x80 <= b3 <= 0xBF
    requires (b0 == 0xF0 ==> b1 >= 0x90) && (b0 == 0xF4 ==> b1 <= 0x8F)
    requires cp == (b0 - 0xF0) * 0x4_0000 + (b1 - 0x80) * 0x1000 + (b2 - 0x80) * 0x40 + (b3 - 0x80)
    ensures CodepointToUtf8(cp) == [b0, b1, b2, b3]
  {
    assert cp / 0x40 == (b0 - 0xF0) * 0x1000 + (b1 - 0x80) * 0x40 + (b2 - 0x80);
    assert cp / 0x1000 == (b0 - 0xF0) * 0x40 + (b1 - 0x80);
    assert cp / 0x4_0000 == b0 - 0xF0;
  }

  /** The grammar admits one spelling of each character only, the one that is written. */
  lemma Utf8CharUnique(b: bytes)
    requires FirstChar(b).Char?
    ensures IsScalar(FirstChar(b).cp) && b[..FirstChar(b).length] == CodepointToUtf8(FirstChar(b).cp)
  {
    var n := FirstChar(b).length;
    if n == 2 {
      TwoBytesUnique(b[0], b[1]);
    } else if n == 3 {
      ThreeBytesUnique(b[0], b[1], b[2], FirstChar(b).cp);
    } else if n == 4 {
      FourBytesUnique(b[0], b[1], b[2], b[3], FirstChar(b).cp);
    }
  }

  /** Of all byte strings exactly one is the UTF-8 encoding of given scalars. */
  lemma {:induction false} Utf8Unique(b: bytes, b': bytes)
    requires Utf8Decode(b).Valid? && Utf8Decode(b) == Utf8Decode(b')
    ensures b == b'
  {
    if b != [] && b' != [] {
      Utf8CharUnique(b);
      Utf8CharUnique(b');
      var n := FirstChar(b).length;
      var t, t' := Utf8Decode(b[n..]), Utf8Decode(b'[FirstChar(b').length..]);
      assert t.cps == Utf8Decode(b).cps[1..] == Utf8Decode(b').cps[1..] == t'.cps;
      assert FirstChar(b).cp == Utf8Decode(b).cps[0] == FirstChar(b').cp;
      assert FirstChar(b').length == n by {
        assert |b[..n]| == |b'[..FirstChar(b').length]|;
      }
      Utf8Unique(b[n..], b'[n..]);
      assert b == b[..n] + b[n..] && b' == b'[..n] + b'[n..];
    }
  }

  // ----- The escapes -----

  /** The text spells the units as \u escapes, with digits of either case. */
  predicate Spells(text: bytes, units: seq<u16>) {
    if units == [] then text == []
    else
      && |text| >= 6 && text[0] == BACKSLASH && text[1] == LOWER_U
      && IsHexText(text[2..6]) && HexNumber(text[2..6]) == units[0]
      && Spells(text[6..], units[1..])
  }

  lemma OneEscape(text: bytes)
    requires |text| >= 6 && text[0] == BACKSLASH && text[1] == LOWER_U
    ensures text == ItemText(Unit(text[2..6])) + text[6..]
  {
    var b: bytes := [BACKSLASH, LOWER_U];
    assert text[..2] == b;
    assert text == text[..2] + text[2..6] + text[6..];
  }

  lemma NextUnit(text: bytes, units: seq<u16>, r: bytes)
    requires Spells(text, units) && units != [] && !(0xD800 <= units[0] <= 0xDFFF) && Terminated(r)
    ensures ScanString(text + [QUOTE] + r) == Prepend(CodepointToUtf8(units[0]), ScanString(text[6..] + [QUOTE] + r))
  {
    OneEscape(text);
    ItemScanned(Unit(text[2..6]), text[6..] + [QUOTE] + r);
    Shifted(ItemText(Unit(text[2..6])), text[6..], [QUOTE], r);
  }

  lemma TwoUnits(text: bytes, units: seq<u16>)
    requires Spells(text, units) && |units| >= 2
    ensures |text| >= 12 && IsHexText(text[8..12]) && HexNumber(text[8..12]) == units[1]
    ensures text[6] == BACKSLASH && text[7] == LOWER_U && Spells(text[12..], units[2..])
  {
    var t := text[6..];
    assert Spells(t, units[1..]);
    assert t[2..6] == text[8..12] && t[6..] == text[12..] && units[1..][1..] == units[2..];
    assert t[0] == text[6] && t[1] == text[7];
  }

  lemma TwoEscapes(text: bytes)
    requires |text| >= 12 && text[0] == text[6] == BACKSLASH && text[1] == text[7] == LOWER_U
    ensures text == ItemText(Pair(text[2..6], text[8..12])) + text[12..]
  {
    var b: bytes := [BACKSLASH, LOWER_U];
    assert text[..2] == b && text[6..8] == b;
    assert text == text[..2] + text[2..6] + text[6..8] + text[8..12] + text[12..];
  }

  lemma PairMeans(hi: bytes, lo: bytes)
    requires IsHexText(hi) && IsHexText(lo) && IsPair(HexNumber(hi), HexNumber(lo))
    ensures WfItem(Pair(hi, lo)) && ItemBytes(Pair(hi, lo)) == CodepointToUtf8(OfPair(HexNumber(hi), HexNumber(lo)))
  {
  }

  lemma NextPair(text: bytes, units: seq<u16>, r: bytes)
    requires Spells(text, units) && |units| >= 2 && IsPair(units[0], units[1]) && Terminated(r)
    ensures |text| >= 12 && Spells(text[12..], units[2..])
    ensures ScanString(text + [QUOTE] + r)
         == Prepend(CodepointToUtf8(OfPair(units[0], units[1])), ScanString(text[12..] + [QUOTE] + r))
  {
    TwoUnits(text, units);
    TwoEscapes(text);
    PairMeans(text[2..6], text[8..12]);
    ItemScanned(Pair(text[2..6], text[8..12]), text[12..] + [QUOTE] + r);
    Shifted(ItemText(Pair(text[2..6], text[8..12])), text[12..], [QUOTE], r);
  }

  lemma Shifted(a: bytes, b: bytes, c: bytes, d: bytes)
    ensures a + b + c + d == a + (b + c + d)
  {
  }

  lemma LoneSurrogate(text: bytes, units: seq<u16>, r: bytes)
    requires Spells(text, units) && units != [] && Terminated(r)
    requires 0xD800 <= units[0] <= 0xDFFF
    requires |units| >= 2 ==> !IsPair(units[0], units[1])
    ensures ScanString(text + [QUOTE] + r) == Broken(InvalidUnicode, text + [QUOTE] + r)
  {
    var s := text + [QUOTE] + r;
    assert s[..2] == [BACKSLASH, LOWER_U] && s[2..6] == text[2..6];
    HexAgrees(s[2..6]);
    SurrogateAgrees(units[0]);
    if IsHigh(units[0]) {
      if |units| == 1 {
        assert s[6..][..2][0] == QUOTE;
      } else {
        assert Spells(text[6..], units[1..]);
        assert s[8..12] == text[6..][2..6];
        HexAgrees(s[8..12]);
        SurrogateAgrees(units[1]);
      }
    }
    assert UnicodeEscape(s).Rejected?;
  }

  /** The literal's bytes are the UTF-8 encoding of what its units encode, or it is rejected. */
  predicate Transcodes(units: seq<u16>, scan: Scan, r: bytes) {
    match Utf16Decode(units)
    case Valid(cps) => scan.Scanned? && scan.rest == r && Utf8Decode(scan.text) == Valid(cps)
    case Malformed => scan.Broken? && scan.fault == InvalidUnicode
  }

  lemma OneMoreChar(cp: nat, units: seq<u16>, others: seq<u16>, scan: Scan, r: bytes)
    requires IsScalar(cp) && Utf16Decode(units) == Cons(cp, Utf16Decode(others)) && Transcodes(others, scan, r)
    ensures Transcodes(units, Prepend(CodepointToUtf8(cp), scan), r)
  {
    Utf8Extended(cp, scan);
  }

  /**
   A string literal of \u escapes alone: it is accepted exactly when the escaped units are
   well-formed UTF-16, and then its token is the UTF-8 encoding of the characters they stand
   for. Lone and misordered surrogates are rejected.
   */
  lemma {:induction false} EscapesTranscode(text: bytes, units: seq<u16>, r: bytes)
    requires Spells(text, units) && Terminated(r)
    ensures Transcodes(units, ScanString(text + [QUOTE] + r), r)
    decreases |units|
  {
    if units == [] {
      assert (text + [QUOTE] + r)[1..] == r;
    } else if !(0xD800 <= units[0] <= 0xDFFF) {
      NextUnit(text, units, r);
      EscapesTranscode(text[6..], units[1..], r);
      OneMoreChar(units[0], units, units[1..], ScanString(text[6..] + [QUOTE] + r), r);
    } else if |units| >= 2 && IsPair(units[0], units[1]) {
      NextPair(text, units, r);
      EscapesTranscode(text[12..], units[2..], r);
      OneMoreChar(OfPair(units[0], units[1]), units, units[2..], ScanString(text[12..] + [QUOTE] + r), r);
    } else {
      LoneSurrogate(text, units, r);
    }
  }

  lemma Utf8Extended(cp: nat, scan: Scan)
    requires IsScalar(cp)
    ensures Prepend(CodepointToUtf8(cp), scan).Scanned? ==>
      Utf8Decode(Prepend(CodepointToUtf8(cp), scan).text) == Cons(cp, Utf8Decode(scan.text))
  {
    if scan.Scanned? {
      var u := CodepointToUtf8(cp);
      Utf8CharRead(cp, scan.text);
      assert (u + scan.text)[|u|..] == scan.text;
    }
  }

  /** Any scalars, escaped as RFC 4627 prescribes, are read as their UTF-8 encoding. */
  lemma ScalarsTranscode(text: bytes, cps: seq<nat>, r: bytes)
    requires Scalars(cps) && Spells(text, Utf16(cps)) && Terminated(r)
    ensures ScanString(text + [QUOTE] + r).Scanned? && ScanString(text + [QUOTE] + r).rest == r
    ensures Utf8Decode(ScanString(text + [QUOTE] + r).text) == Valid(cps)
  {
    Utf16RoundTrip(cps);
    EscapesTranscode(text, Utf16(cps), r);
  }
}
