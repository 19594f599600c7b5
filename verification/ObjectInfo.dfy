/** The ObjectInfo dataset and the PTP strings in it, src/data.c. */
module ObjectInfo {
  import opened Octets
  import opened Packets

  // ----- Strings -----

  /** A character of a fixed array: what ptp_read_string stores for a UTF-16 unit. */
  function Clean(unit: u16): byte {
    if unit > 128 then 0x3F else if unit != 0 && unit < 32 then 0x20 else unit
  }

  /** A C string in a fixed array, or an array without a terminator. */
  datatype Text = Terminated(s: bytes) | Unterminated

  function CString(chars: bytes): Text {
    if chars == [] then Unterminated
    else if chars[0] == 0 then Terminated([])
    else
      match CString(chars[1..])
      case Terminated(s) => Terminated([chars[0]] + s)
      case Unterminated => Unterminated
  }

  /** A text that a C string can hold. */
  predicate IsText(s: bytes) {
    forall i :: 0 <= i < |s| ==> s[i] != 0
  }

  function Units(s: bytes): (b: bytes)
    ensures |b| == 2 * |s|
  {
    if s == [] then [] else [s[0], 0] + Units(s[1..])
  }

  /** The length in units, in one byte. */
  function LengthByte(s: bytes): (n: byte)
    ensures |s| <= 254 ==> n == |s| + 1
  {
    (|s| + 1) % 256
  }

  /** ptp_write_string */
  function WriteString(s: bytes): (b: bytes)
    ensures |b| == if s == [] then 1 else 3 + 2 * |s|
  {
    if s == [] then [0] else [LengthByte(s)] + (Units(s) + [0, 0])
  }

  /** The first n units, as characters. */
  function Chars(b: bytes, n: nat): (c: bytes)
    requires 2 * n <= |b|
    ensures |c| == n && forall i :: 0 <= i < n ==> c[i] == Clean(U16At(b, 2 * i))
  {
    seq(n, i requires 0 <= i < n => Clean(U16At(b, 2 * i)))
  }

  /** How many units ptp_read_string takes for an array of `max` characters. */
  function Taken(b: bytes, max: nat): nat
    requires b != [] && max >= 2
  {
    Min(b[0], max - 1)
  }

  predicate Readable(b: bytes, max: nat) {
    b != [] && max >= 2 && 1 + 2 * Taken(b, max) <= |b|
  }

  /** What the array then holds. */
  function ReadText(b: bytes, max: nat): Text
    requires Readable(b, max)
  {
    if b[0] == 0 then Terminated([]) else CString(Chars(b[1..], Taken(b, max)))
  }

  lemma {:induction false} CStringOf(s: bytes, rest: bytes)
    requires IsText(s)
    ensures CString(s + [0] + rest) == Terminated(s) && CString(s) == Unterminated
  {
    if s == [] {
      assert (s + [0] + rest)[0] == 0;
    } else {
      CStringOf(s[1..], rest);
      assert (s + [0] + rest)[1..] == s[1..] + [0] + rest;
      assert s == [s[0]] + s[1..];
    }
  }

  lemma {:induction false} UnitAt(s: bytes, tail: bytes, i: nat)
    requires i < |s|
    ensures U16At(Units(s) + tail, 2 * i) == s[i]
  {
    var b := Units(s) + tail;
    assert b == [s[0], 0] + (Units(s[1..]) + tail);
    if i == 0 {
      assert b[0..2] == [s[0], 0];
    } else {
      UnitAt(s[1..], tail, i - 1);
      FieldsOfSuffix([s[0], 0], Units(s[1..]) + tail, 2 * (i - 1));
    }
  }

  /** Characters that come back as they are. */
  predicate Printable(s: bytes) {
    forall i :: 0 <= i < |s| ==> 32 <= s[i] <= 128
  }

  lemma WrittenChars(s: bytes, rest: bytes, n: nat)
    requires IsText(s) && n <= |s| + 1
    ensures var c := Chars(Units(s) + [0, 0] + rest, n);
      forall i :: 0 <= i < n ==> c[i] == if i < |s| then Clean(s[i]) else 0
  {
    assert Units(s) + [0, 0] + rest == Units(s) + ([0, 0] + rest);
    forall i | 0 <= i < n
      ensures U16At(Units(s) + [0, 0] + rest, 2 * i) == if i < |s| then s[i] else 0
    {
      if i < |s| {
        UnitAt(s, [0, 0] + rest, i);
      } else {
        FieldsOfSuffix(Units(s), [0, 0] + rest, 0);
        assert ([0, 0] + rest)[0..2] == [0, 0];
      }
    }
  }

  /** The bytes of a string: its length with the terminator, UTF-16 units, and a zero unit. */
  lemma StringBytes(s: bytes)
    requires 0 < |s| <= 254
    ensures var b := WriteString(s);
      && |b| == 3 + 2 * |s| && b[0] == |s| + 1 && U16At(b, 1 + 2 * |s|) == 0
      && forall i :: 0 <= i < |s| ==> U16At(b, 1 + 2 * i) == s[i]
  {
    var b, units := WriteString(s), Units(s) + [0, 0];
    assert b == [LengthByte(s)] + units;
    forall i | 0 <= i < |s| ensures U16At(b, 1 + 2 * i) == s[i] {
      UnitAt(s, [0, 0], i);
      FieldsOfSuffix([LengthByte(s)], units, 2 * i);
    }
    FieldsOfSuffix(Units(s), [0, 0], 0);
    FieldsOfSuffix([LengthByte(s)], units, 2 * |s|);
  }

  /** What the array holds for a unit: characters above 128 become ?, control characters blanks. */
  lemma CharacterRead(b: bytes, max: nat, i: nat)
    requires Readable(b, max) && b[0] != 0 && i < Taken(b, max)
    ensures 1 + 2 * i + 2 <= |b|
    ensures var unit, c := U16At(b, 1 + 2 * i), Chars(b[1..], Taken(b, max))[i];
      && (unit > 128 ==> c == 0x3F) && (0 < unit < 32 ==> c == 0x20)
      && (unit == 0 || 32 <= unit <= 128 ==> c == unit)
  {
    assert b == [b[0]] + b[1..];
    FieldsOfSuffix([b[0]], b[1..], 2 * i);
  }

  lemma AfterFirst(n: byte, t: bytes)
    ensures ([n] + t)[0] == n && ([n] + t)[1..] == t
  {
  }

  lemma WrittenBytes(s: bytes, rest: bytes)
    requires s != []
    ensures WriteString(s) + rest == [LengthByte(s)] + (Units(s) + [0, 0] + rest)
  {
    Assoc([LengthByte(s)], Units(s) + [0, 0], rest);
  }

  /** What is read for a written string that is not empty. */
  lemma WrittenString(s: bytes, rest: bytes, max: nat)
    requires IsText(s) && 0 < |s| <= 254 && max >= 2
    ensures var b := WriteString(s) + rest;
      && Readable(b, max) && Taken(b, max) == Min(|s| + 1, max - 1)
      && ReadText(b, max) == CString(Chars(Units(s) + [0, 0] + rest, Min(|s| + 1, max - 1)))
  {
    WrittenBytes(s, rest);
    AfterFirst(LengthByte(s), Units(s) + [0, 0] + rest);
  }

  /**
   A string comes back from an array of `max` characters, and the reader stands behind it, if
   and only if it is empty, or printable and at most max - 2 long.
   */
  lemma StringRoundTrip(s: bytes, rest: bytes, max: nat)
    requires IsText(s) && |s| <= 254 && max >= 2
    ensures Readable(WriteString(s) + rest, max)
    ensures ReadText(WriteString(s) + rest, max) == Terminated(s)
       <==> s == [] || (Printable(s) && |s| + 2 <= max)
    ensures ReadText(WriteString(s) + rest, max) == Terminated(s) ==>
      1 + 2 * Taken(WriteString(s) + rest, max) == |WriteString(s)|
  {
    if s == [] {
      assert (WriteString(s) + rest)[0] == 0;
    } else {
      var n := Min(|s| + 1, max - 1);
      WrittenString(s, rest, max);
      WrittenChars(s, rest, n);
      CharsBack(s, Chars(Units(s) + [0, 0] + rest, n), n);
    }
  }

  /** What the first n units of a written string are as a C string. */
  lemma CharsBack(s: bytes, c: bytes, n: nat)
    requires IsText(s) && |c| == n <= |s| + 1 && forall i :: 0 <= i < n ==> c[i] == if i < |s| then Clean(s[i]) else 0
    ensures CString(c) == Terminated(s) <==> Printable(s) && n == |s| + 1
  {
    if n == |s| + 1 {
      var cleaned := c[..|s|];
      assert c == cleaned + [0] + [];
      CStringOf(cleaned, []);
      CleanedSame(s, cleaned);
    } else {
      CStringOf(c, []);
    }
  }

  lemma CleanedSame(s: bytes, cleaned: bytes)
    requires IsText(s) && |cleaned| == |s| && forall i :: 0 <= i < |s| ==> cleaned[i] == Clean(s[i])
    ensures cleaned == s <==> Printable(s)
  {
    if cleaned == s {
      assert forall i :: 0 <= i < |s| ==> Clean(s[i]) == s[i];
    }
  }

  // ----- Datasets -----

  datatype Field = F16(half: u16) | F32(word: u32) | FText(t: Text)

  /** The layout of a dataset; a text has the size of its array. */
  datatype Kind = K16 | K32 | KText(max: nat)

  function WriteField(f: Field): bytes {
    match f
    case F16(x) => WriteU16(x)
    case F32(x) => WriteU32(x)
    case FText(t) => if t.Terminated? then WriteString(t.s) else []
  }

  function WriteFields(fs: seq<Field>): bytes {
    if fs == [] then [] else WriteFields(fs[..|fs| - 1]) + WriteField(fs[|fs| - 1])
  }

  datatype Reading = Reading(field: Field, length: nat) | TooShort

  function ReadField(k: Kind, b: bytes): (r: Reading)
    requires k.KText? ==> k.max >= 2
    ensures r.Reading? ==> r.length <= |b|
  {
    match k
    case K16 => if |b| < 2 then TooShort else Reading(F16(U16At(b, 0)), 2)
    case K32 => if |b| < 4 then TooShort else Reading(F32(U32At(b, 0)), 4)
    case KText(max) =>
      if !Readable(b, max) then TooShort else Reading(FText(ReadText(b, max)), 1 + 2 * Taken(b, max))
  }

  ghost predicate ValidLayout(ks: seq<Kind>) {
    forall i :: 0 <= i < |ks| && ks[i].KText? ==> ks[i].max >= 2
  }

  datatype Dataset = Dataset(fields: seq<Field>, length: nat) | Truncated

  /** The first n fields of the layout, read one behind the other. */
  function ReadFields(ks: seq<Kind>, n: nat, b: bytes): (d: Dataset)
    requires ValidLayout(ks) && n <= |ks|
    ensures d.Dataset? ==> |d.fields| == n && d.length <= |b|
  {
    if n == 0 then Dataset([], 0)
    else
      match ReadFields(ks, n - 1, b)
      case Truncated => Truncated
      case Dataset(fs, length) =>
        match ReadField(ks[n - 1], b[length..])
        case TooShort => Truncated
        case Reading(f, m) => Dataset(fs + [f], length + m)
  }

  /** A field that fits the layout; a text holds no NUL and its length fits a byte. */
  predicate Matches(f: Field, k: Kind) {
    match k
    case K16 => f.F16?
    case K32 => f.F32?
    case KText(max) => f.FText? && f.t.Terminated? && IsText(f.t.s) && |f.t.s| <= 254
  }

  /** A field that survives: a number, or a text as StringRoundTrip demands. */
  predicate Survives(f: Field, k: Kind) {
    f.FText? && f.t.Terminated? && k.KText? ==> f.t.s == [] || (Printable(f.t.s) && |f.t.s| + 2 <= k.max)
  }

  lemma FieldRoundTrip(f: Field, k: Kind, rest: bytes)
    requires Matches(f, k) && (k.KText? ==> k.max >= 2)
    ensures ReadField(k, WriteField(f) + rest).Reading?
    ensures ReadField(k, WriteField(f) + rest).field == f <==> Survives(f, k)
    ensures Survives(f, k) ==> ReadField(k, WriteField(f) + rest).length == |WriteField(f)|
  {
    match f {
      case F16(x) =>
        assert [] + WriteU16(x) + rest == WriteU16(x) + rest;
        U16AtIn([], x, rest);
      case F32(x) =>
        assert [] + WriteU32(x) + rest == WriteU32(x) + rest;
        U32AtIn([], x, rest);
      case FText(t) => StringRoundTrip(t.s, rest, k.max);
    }
  }

  ghost predicate AllMatch(fs: seq<Field>, ks: seq<Kind>, n: nat)
    requires n <= |fs| == |ks|
  {
    forall i :: 0 <= i < n ==> Matches(fs[i], ks[i])
  }

  ghost predicate AllSurvive(fs: seq<Field>, ks: seq<Kind>, n: nat)
    requires n <= |fs| == |ks|
  {
    forall i :: 0 <= i < n ==> Survives(fs[i], ks[i])
  }

  lemma {:induction false} FieldsSurvive(fs: seq<Field>, ks: seq<Kind>, n: nat, rest: bytes)
    requires n <= |fs| == |ks| && ValidLayout(ks) && AllMatch(fs, ks, n) && AllSurvive(fs, ks, n)
    ensures ReadFields(ks, n, WriteFields(fs[..n]) + rest) == Dataset(fs[..n], |WriteFields(fs[..n])|)
  {
    if n > 0 {
      var front, last := WriteFields(fs[..n - 1]), WriteField(fs[n - 1]);
      assert fs[..n][..n - 1] == fs[..n - 1] && fs[..n] == fs[..n - 1] + [fs[n - 1]];
      Assoc(front, last, rest);
      FieldsSurvive(fs, ks, n - 1, last + rest);
      FieldRoundTrip(fs[n - 1], ks[n - 1], rest);
      assert (front + (last + rest))[|front|..] == last + rest;
    }
  }

  lemma {:induction false} FirstLoss(fs: seq<Field>, ks: seq<Kind>, n: nat, b: bytes, k: nat)
    requires k < n <= |ks| && n <= |fs| && ValidLayout(ks)
    requires ReadFields(ks, k + 1, b).Dataset? ==> ReadFields(ks, k + 1, b).fields[k] != fs[k]
    ensures ReadFields(ks, n, b).Dataset? ==> ReadFields(ks, n, b).fields != fs[..n]
    decreases n
  {
    if k + 1 < n {
      FirstLoss(fs, ks, n - 1, b, k);
      var d := ReadFields(ks, n, b);
      if d.Dataset? {
        assert d.fields[..n - 1] == ReadFields(ks, n - 1, b).fields;
        assert fs[..n][..n - 1] == fs[..n - 1];
      }
    }
  }

  /**
   A written dataset is read back field by field if and only if each of its texts survives;
   and then the reader stands exactly behind it.
   */
  lemma DatasetRoundTrip(fs: seq<Field>, ks: seq<Kind>, rest: bytes)
    requires |fs| == |ks| && ValidLayout(ks) && AllMatch(fs, ks, |fs|)
    ensures var d := ReadFields(ks, |ks|, WriteFields(fs) + rest);
      && (d.Dataset? && d.fields == fs <==> AllSurvive(fs, ks, |fs|))
      && (AllSurvive(fs, ks, |fs|) ==> d.length == |WriteFields(fs)|)
  {
    assert fs[..|fs|] == fs;
    if AllSurvive(fs, ks, |fs|) {
      FieldsSurvive(fs, ks, |fs|, rest);
    } else {
      var k := FirstFailure(fs, ks, |fs|);
      var tail := WriteTail(fs, k, |fs|);
      Assoc(WriteFields(fs[..k]) + WriteField(fs[k]), tail, rest);
      Assoc(WriteFields(fs[..k]), WriteField(fs[k]), tail + rest);
      FieldsSurvive(fs, ks, k, WriteField(fs[k]) + (tail + rest));
      FieldRoundTrip(fs[k], ks[k], tail + rest);
      var b := WriteFields(fs) + rest;
      assert b[|WriteFields(fs[..k])|..] == WriteField(fs[k]) + (tail + rest);
      FirstLoss(fs, ks, |fs|, b, k);
    }
  }

  lemma {:induction false} FirstFailure(fs: seq<Field>, ks: seq<Kind>, n: nat) returns (k: nat)
    requires n <= |fs| == |ks| && !AllSurvive(fs, ks, n)
    ensures k < n && AllSurvive(fs, ks, k) && !Survives(fs[k], ks[k])
  {
    if AllSurvive(fs, ks, n - 1) {
      k := n - 1;
    } else {
      k := FirstFailure(fs, ks, n - 1);
    }
  }

  /** The text of the fields k + 1 to n - 1. */
  lemma {:induction false} WriteTail(fs: seq<Field>, k: nat, n: nat) returns (tail: bytes)
    requires k < n <= |fs|
    ensures WriteFields(fs[..n]) == WriteFields(fs[..k]) + WriteField(fs[k]) + tail
    decreases n
  {
    LastField(fs, n);
    if k + 1 == n {
      tail := [];
      NothingAdded(WriteFields(fs[..n]));
    } else {
      tail := WriteTail(fs, k, n - 1);
      Assoc(WriteFields(fs[..k]) + WriteField(fs[k]), tail, WriteField(fs[n - 1]));
      tail := tail + WriteField(fs[n - 1]);
    }
  }

  lemma NothingAdded(b: bytes)
    ensures b + [] == b
  {
  }

  lemma LastField(fs: seq<Field>, n: nat)
    requires 0 < n <= |fs|
    ensures WriteFields(fs[..n]) == WriteFields(fs[..n - 1]) + WriteField(fs[n - 1])
  {
    assert fs[..n][..n - 1] == fs[..n - 1];
  }
}
