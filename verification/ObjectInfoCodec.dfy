/** Packing and parsing of the ObjectInfo dataset as src/data.c does it, field after field. */
module ObjectInfoCodec {
  import opened Octets
  import opened Packets
  import opened ObjectInfo

  const FIELDS := 19

  function KindAt(i: nat): Kind {
    if i == 1 || i == 2 || i == 4 || i == 12 then K16
    else if i < 15 then K32
    else if i == 15 || i == 18 then KText(64)
    else KText(32)
  }

  /** The layout of struct PtpObjectInfo. */
  const LAYOUT: seq<Kind> :=
    [K32, K16, K16, K32, K16, K32, K32, K32, K32, K32, K32, K32, K16, K32, K32,
     KText(64), KText(32), KText(32), KText(64)]

  lemma LayoutIs()
    ensures |LAYOUT| == FIELDS && ValidLayout(LAYOUT) && forall i :: 0 <= i < FIELDS ==> LAYOUT[i] == KindAt(i)
  {
  }

  /**
   Every record with terminated texts fits the 1024 bytes that ptp_pack_object_info demands:
   440 would do.
   */
  lemma PackedFits(fs: seq<Field>)
    requires |fs| == FIELDS && AllMatch(fs, LAYOUT, FIELDS)
    requires forall i :: 15 <= i < FIELDS ==> |fs[i].t.s| < LAYOUT[i].max
    ensures |WriteFields(fs)| <= 440
  {
    assert fs[..FIELDS] == fs;
    PackedSize(fs, FIELDS);
  }

  function Bound(n: nat): nat {
    if n <= 15 then 4 * n - (if n > 1 then 2 else 0) - (if n > 2 then 2 else 0) - (if n > 4 then 2 else 0) - (if n > 12 then 2 else 0)
    else Bound(n - 1) + (if n == 16 || n == 19 then 129 else 65)
  }

  lemma {:induction false} PackedSize(fs: seq<Field>, n: nat)
    requires n <= |fs| == FIELDS && AllMatch(fs, LAYOUT, FIELDS)
    requires forall i :: 15 <= i < FIELDS ==> |fs[i].t.s| < LAYOUT[i].max
    ensures |WriteFields(fs[..n])| <= Bound(n)
  {
    LayoutIs();
    if n > 0 {
      PackedSize(fs, n - 1);
      assert fs[..n][..n - 1] == fs[..n - 1];
      assert Matches(fs[n - 1], LAYOUT[n - 1]);
    }
  }

  /** Writers of one field at the end of what has been packed. */
  method Put32(buf: array<byte>, of: nat, x: u32, ghost fs: seq<Field>) returns (next: nat, ghost fs': seq<Field>)
    requires of + 4 <= buf.Length && buf[..of] == WriteFields(fs)
    modifies buf
    ensures next == of + 4 && fs' == fs + [F32(x)] && buf[..next] == WriteFields(fs')
  {
    PutU32(buf, of, x);
    next := of + 4;
    fs' := fs + [F32(x)];
    OneMoreField(fs, F32(x));
    assert buf[..next] == buf[..of] + buf[of..next];
  }

  method Put16(buf: array<byte>, of: nat, x: u16, ghost fs: seq<Field>) returns (next: nat, ghost fs': seq<Field>)
    requires of + 2 <= buf.Length && buf[..of] == WriteFields(fs)
    modifies buf
    ensures next == of + 2 && fs' == fs + [F16(x)] && buf[..next] == WriteFields(fs')
  {
    PutU16(buf, of, x);
    next := of + 2;
    fs' := fs + [F16(x)];
    OneMoreField(fs, F16(x));
    assert buf[..next] == buf[..of] + buf[of..next];
  }

  lemma OneMoreField(fs: seq<Field>, f: Field)
    ensures WriteFields(fs + [f]) == WriteFields(fs) + WriteField(f)
  {
    assert (fs + [f])[..|fs|] == fs;
  }

  lemma Five(fs: seq<Field>, a: Field, b: Field, c: Field, d: Field, e: Field)
    ensures fs + [a] + [b] + [c] + [d] + [e] == fs + [a, b, c, d, e]
  {
  }

  lemma Four(fs: seq<Field>, a: Field, b: Field, c: Field, d: Field)
    ensures fs + [a] + [b] + [c] + [d] == fs + [a, b, c, d]
  {
  }

  /** strlen */
  method StrLen(str: array<byte>) returns (n: nat)
    requires CString(str[..]).Terminated?
    ensures n < str.Length && CString(str[..]) == Terminated(str[..n]) && IsText(str[..n])
    ensures str[n] == 0
  {
    n := 0;
    TextEnds(str[..]);
    while str[n] != 0
      invariant n < str.Length && IsText(str[..n])
      invariant exists k :: n <= k < str.Length && str[k] == 0
      decreases str.Length - n
    {
      n := n + 1;
    }
    assert str[..] == str[..n] + [0] + str[n + 1..];
    CStringOf(str[..n], str[n + 1..]);
  }

  lemma {:induction false} TextEnds(chars: bytes)
    requires CString(chars).Terminated?
    ensures exists k :: 0 <= k < |chars| && chars[k] == 0
  {
    if chars[0] != 0 {
      TextEnds(chars[1..]);
      var k :| 0 <= k < |chars[1..]| && chars[1..][k] == 0;
      assert chars[k + 1] == 0;
    }
  }

  /** The loop of ptp_write_string, behind u. */
  method PutUnits(buf: array<byte>, of: nat, str: array<byte>, length: nat, ghost u: bytes) returns (next: nat)
    requires buf != str && length <= str.Length && of + 2 * length <= buf.Length && buf[..of] == u
    modifies buf
    ensures next == of + 2 * length && buf[..next] == u + Units(str[..length])
  {
    ghost var s := str[..length];
    next := of;
    assert s[..0] == [] && u + [] == u;
    for i := 0 to length
      invariant next == of + 2 * i && str[..length] == s
      invariant buf[..next] == u + Units(s[..i])
    {
      buf[next], buf[next + 1] := str[i], 0;
      next := next + 2;
      UnitsExtended(s, i);
      assert buf[..next] == buf[..next - 2] + [s[i], 0];
      Assoc(u, Units(s[..i]), [s[i], 0]);
    }
    assert s[..length] == s;
  }

  lemma StringParts(u: bytes, s: bytes)
    requires s != []
    ensures u + [LengthByte(s)] + Units(s) + [0, 0] == u + WriteString(s)
  {
    Assoc(u + [LengthByte(s)], Units(s), [0, 0]);
    Assoc(u, [LengthByte(s)], Units(s) + [0, 0]);
  }

  /** A text that is not empty, behind u. */
  method PutText(buf: array<byte>, of: nat, str: array<byte>, length: nat, ghost u: bytes) returns (next: nat)
    requires buf != str && 0 < length <= 254 && length <= str.Length && of + 3 + 2 * length <= buf.Length && buf[..of] == u
    modifies buf
    ensures next == of + 3 + 2 * length && buf[..next] == u + WriteString(str[..length])
  {
    ghost var s := str[..length];
    StringParts(u, s);
    buf[of] := length + 1;
    assert buf[..of + 1] == u + [LengthByte(s)];
    next := PutUnits(buf, of + 1, str, length, u + [LengthByte(s)]);
    ghost var units := buf[..next];
    buf[next], buf[next + 1] := 0, 0;
    next := next + 2;
    assert buf[..next] == units + [0, 0];
  }

  /** ptp_write_string */
  method PutString(buf: array<byte>, of: nat, str: array<byte>, ghost fs: seq<Field>) returns (next: nat, ghost fs': seq<Field>)
    requires buf != str && CString(str[..]).Terminated? && str.Length <= 64
    requires of + 2 * str.Length + 1 <= buf.Length && buf[..of] == WriteFields(fs)
    modifies buf
    ensures of < next <= of + 2 * str.Length + 1 && next <= buf.Length
    ensures fs' == fs + [FText(CString(str[..]))] && buf[..next] == WriteFields(fs')
  {
    var length := StrLen(str);
    ghost var before := buf[..of];
    fs' := fs + [FText(Terminated(str[..length]))];
    OneMoreField(fs, FText(Terminated(str[..length])));
    if length == 0 {
      buf[of] := 0;
      next := of + 1;
      assert buf[..next] == before + [0];
    } else {
      next := PutText(buf, of, str, length, before);
    }
  }

  lemma {:induction false} UnitsExtended(s: bytes, i: nat)
    requires i < |s|
    ensures Units(s[..i + 1]) == Units(s[..i]) + [s[i], 0]
  {
    if i > 0 {
      UnitsExtended(s[1..], i - 1);
      assert s[1..][..i] == s[..i + 1][1..] && s[1..][..i - 1] == s[..i][1..];
    } else {
      assert s[..1] == [s[0]] && s[..1][1..] == [];
    }
  }

  // ----- Readers of one field -----

  /** The first k fields of the payload d have been read: these are they, up to `of`. */
  ghost predicate Read(d: bytes, k: nat, fs: seq<Field>, of: nat) {
    k <= FIELDS && ValidLayout(LAYOUT) && ReadFields(LAYOUT, k, d) == Dataset(fs, of)
  }

  /** The payload holds a whole dataset, as the parser expects without looking. */
  ghost predicate Whole(d: bytes) {
    ValidLayout(LAYOUT) && ReadFields(LAYOUT, FIELDS, d).Dataset?
  }

  lemma {:induction false} WholePrefix(d: bytes, k: nat, n: nat)
    requires k <= n <= FIELDS && ValidLayout(LAYOUT) && ReadFields(LAYOUT, n, d).Dataset?
    ensures ReadFields(LAYOUT, k, d).Dataset?
    decreases n - k
  {
    if k < n {
      WholePrefix(d, k + 1, n);
    }
  }

  lemma Step32(d: bytes, k: nat, fs: seq<Field>, of: nat)
    requires k < FIELDS && KindAt(k) == K32 && Read(d, k, fs, of) && ReadFields(LAYOUT, k + 1, d).Dataset?
    ensures of + 4 <= |d| && Read(d, k + 1, fs + [F32(U32At(d, of))], of + 4)
  {
    LayoutIs();
    assert d[of..][0..4] == d[of..of + 4];
  }

  lemma Step16(d: bytes, k: nat, fs: seq<Field>, of: nat)
    requires k < FIELDS && KindAt(k) == K16 && Read(d, k, fs, of) && ReadFields(LAYOUT, k + 1, d).Dataset?
    ensures of + 2 <= |d| && Read(d, k + 1, fs + [F16(U16At(d, of))], of + 2)
  {
    LayoutIs();
    assert d[of..][0..2] == d[of..of + 2];
  }

  /** Where the i-th number of the dataset stands; the texts begin behind the fifteenth. */
  function Place(i: nat): nat {
    if i == 0 then 0 else Place(i - 1) + if KindAt(i - 1) == K16 then 2 else 4
  }

  lemma PlacesAre()
    ensures Place(0) == 0 && Place(1) == 4 && Place(2) == 6 && Place(3) == 8 && Place(4) == 12 && Place(5) == 14
    ensures Place(6) == 18 && Place(7) == 22 && Place(8) == 26 && Place(9) == 30 && Place(10) == 34
    ensures Place(11) == 38 && Place(12) == 42 && Place(13) == 44 && Place(14) == 48 && Place(15) == 52
  {
    assert Place(4) == 12;
    assert Place(8) == 26;
    assert Place(12) == 42;
  }

  function NumberAt(d: bytes, i: nat): Field
    requires Place(i) + (if KindAt(i) == K16 then 2 else 4) <= |d|
  {
    if KindAt(i) == K16 then F16(U16At(d, Place(i))) else F32(U32At(d, Place(i)))
  }

  /** The numbers are read from their places. */
  lemma {:induction false} NumbersRead(d: bytes, k: nat)
    requires k <= 15 && ValidLayout(LAYOUT) && ReadFields(LAYOUT, k, d).Dataset?
    ensures ReadFields(LAYOUT, k, d).length == Place(k) <= |d|
  {
    if k > 0 {
      WholePrefix(d, k - 1, k);
      NumbersRead(d, k - 1);
      NumberRead(d, k - 1);
    }
  }

  lemma NumberRead(d: bytes, k: nat)
    requires k < 15 && ValidLayout(LAYOUT) && ReadFields(LAYOUT, k, d).Dataset? && ReadFields(LAYOUT, k + 1, d).Dataset?
    requires ReadFields(LAYOUT, k, d).length == Place(k)
    ensures Place(k) + (if KindAt(k) == K16 then 2 else 4) == Place(k + 1) <= |d|
    ensures ReadFields(LAYOUT, k + 1, d) == Dataset(ReadFields(LAYOUT, k, d).fields + [NumberAt(d, k)], Place(k + 1))
  {
    var fs := ReadFields(LAYOUT, k, d).fields;
    if KindAt(k) == K16 {
      Step16(d, k, fs, Place(k));
    } else {
      Step32(d, k, fs, Place(k));
    }
  }

  /** Each number keeps its place. */
  lemma {:induction false} NumberKept(d: bytes, i: nat, k: nat)
    requires i < k <= 15 && ValidLayout(LAYOUT) && ReadFields(LAYOUT, k, d).Dataset?
    ensures Place(i) + (if KindAt(i) == K16 then 2 else 4) <= |d|
    ensures ReadFields(LAYOUT, k, d).fields[i] == NumberAt(d, i)
    decreases k
  {
    WholePrefix(d, k - 1, k);
    NumbersRead(d, k - 1);
    NumberRead(d, k - 1);
    if i < k - 1 {
      NumberKept(d, i, k - 1);
    }
  }

  method Take32(d: bytes, of: nat, ghost k: nat, ghost fs: seq<Field>) returns (x: u32, next: nat, ghost fs': seq<Field>)
    requires Whole(d) && k < FIELDS && KindAt(k) == K32 && Read(d, k, fs, of)
    ensures fs' == fs + [F32(x)] && Read(d, k + 1, fs', next)
  {
    LayoutIs();
    WholePrefix(d, k + 1, FIELDS);
    x := U32At(d[of..], 0);
    next := of + 4;
    fs' := fs + [F32(x)];
  }

  method Take16(d: bytes, of: nat, ghost k: nat, ghost fs: seq<Field>) returns (x: u16, next: nat, ghost fs': seq<Field>)
    requires Whole(d) && k < FIELDS && KindAt(k) == K16 && Read(d, k, fs, of)
    ensures fs' == fs + [F16(x)] && Read(d, k + 1, fs', next)
  {
    LayoutIs();
    WholePrefix(d, k + 1, FIELDS);
    x := U16At(d[of..], 0);
    next := of + 2;
    fs' := fs + [F16(x)];
  }

  /** ptp_read_string; an unterminated text leaves the array as unterminated as it was behind it. */
  method ReadString(b: bytes, str: array<byte>) returns (of: nat)
    requires str.Length <= 64 && Readable(b, str.Length)
    modifies str
    ensures of == 1 + 2 * Taken(b, str.Length)
    ensures ReadText(b, str.Length).Terminated? ==> CString(str[..]) == ReadText(b, str.Length)
  {
    var length: int := b[0];
    of := 1;
    if length == 0 {
      str[0] := 0;
      CStringOf([], str[1..]);
      assert str[..] == [] + [0] + str[1..];
      return;
    }
    ghost var units := b[1..];
    ghost var n := Taken(b, str.Length);
    var i, wchr: byte := 0, 0;
    while i < length
      invariant 0 <= i <= n && of == 1 + 2 * i
      invariant forall j :: 0 <= j < i ==> str[j] == Clean(U16At(units, 2 * j))
      invariant i > 0 ==> wchr == str[i - 1]
      invariant i == n ==> i == length
      decreases length - i
    {
      assert b[of..][0..2] == units[2 * i..2 * i + 2];
      wchr := Clean(U16At(b[of..], 0));
      of := of + 2;
      str[i] := wchr;
      i := i + 1;
      if i >= str.Length - 1 {
        break;
      }
    }
    assert i == n;
    ghost var chars := str[..n];
    assert chars == Chars(units, n);
    if wchr == 0 {
      str[i] := 0;
    }
    assert str[..n] == chars;
    assert str[..] == chars + str[n..];
    TextKept(chars, str[n..]);
  }

  /** A terminated text does not depend on what follows its terminator. */
  lemma {:induction false} TextKept(chars: bytes, rest: bytes)
    ensures CString(chars).Terminated? ==> CString(chars + rest) == CString(chars)
  {
    if chars != [] && chars[0] != 0 {
      TextKept(chars[1..], rest);
      assert (chars + rest)[1..] == chars[1..] + rest;
    }
  }

  method TakeText(d: bytes, of: nat, str: array<byte>, ghost k: nat, ghost fs: seq<Field>)
    returns (next: nat, ghost t: Text, ghost fs': seq<Field>)
    requires str.Length <= 64 && Whole(d) && k < FIELDS && KindAt(k) == KText(str.Length) && Read(d, k, fs, of)
    modifies str
    ensures fs' == fs + [FText(t)] && Read(d, k + 1, fs', next)
    ensures t.Terminated? ==> CString(str[..]) == t
  {
    LayoutIs();
    WholePrefix(d, k + 1, FIELDS);
    var m := ReadString(d[of..], str);
    next := of + m;
    t := ReadText(d[of..], str.Length);
    fs' := fs + [FText(t)];
  }

  // ----- The record -----

  class PtpObjectInfo {
    var storageId: u32
    var objFormat: u16
    var protection: u16
    var compressedSize: u32
    var thumbFormat: u16
    var thumbCompressedSize: u32
    var thumbWidth: u32
    var thumbHeight: u32
    var imgWidth: u32
    var imgHeight: u32
    var imgBitDepth: u32
    var parentObj: u32
    var assocType: u16
    var assocDesc: u32
    var sequenceNum: u32
    const filename: array<byte>
    const dateCreated: array<byte>
    const dateModified: array<byte>
    const keywords: array<byte>

    ghost predicate Valid() {
      && filename.Length == 64 && dateCreated.Length == 32 && dateModified.Length == 32 && keywords.Length == 64
      && filename != keywords && dateCreated != dateModified
    }

    constructor ()
      ensures Valid() && fresh(filename) && fresh(dateCreated) && fresh(dateModified) && fresh(keywords)
    {
      filename, dateCreated, dateModified, keywords := new byte[64], new byte[32], new byte[32], new byte[64];
    }

    ghost function First(): seq<Field>
      reads `storageId, `objFormat, `protection, `compressedSize, `thumbFormat
    {
      [F32(storageId), F16(objFormat), F16(protection), F32(compressedSize), F16(thumbFormat)]
    }

    ghost function Second(): seq<Field>
      reads `thumbCompressedSize, `thumbWidth, `thumbHeight, `imgWidth, `imgHeight
    {
      [F32(thumbCompressedSize), F32(thumbWidth), F32(thumbHeight), F32(imgWidth), F32(imgHeight)]
    }

    ghost function Third(): seq<Field>
      reads `imgBitDepth, `parentObj, `assocType, `assocDesc, `sequenceNum
    {
      [F32(imgBitDepth), F32(parentObj), F16(assocType), F32(assocDesc), F32(sequenceNum)]
    }

    ghost function Texts(): seq<Field>
      reads filename, dateCreated, dateModified, keywords
    {
      [FText(CString(filename[..])), FText(CString(dateCreated[..])), FText(CString(dateModified[..])),
       FText(CString(keywords[..]))]
    }

    ghost predicate Terminated()
      reads filename, dateCreated, dateModified, keywords
    {
      && CString(filename[..]).Terminated? && CString(dateCreated[..]).Terminated?
      && CString(dateModified[..]).Terminated? && CString(keywords[..]).Terminated?
    }

    /** The numbers of the record, by their places in the dataset of ISO 15740. */
    ghost predicate NumbersAt(b: bytes)
      reads this
    {
      && |b| >= 52 && U32At(b, 0) == storageId && U16At(b, 4) == objFormat && U16At(b, 6) == protection
      && U32At(b, 8) == compressedSize && U16At(b, 12) == thumbFormat && U32At(b, 14) == thumbCompressedSize
      && U32At(b, 18) == thumbWidth && U32At(b, 22) == thumbHeight
      && U32At(b, 26) == imgWidth && U32At(b, 30) == imgHeight && U32At(b, 34) == imgBitDepth
      && U32At(b, 38) == parentObj && U16At(b, 42) == assocType && U32At(b, 44) == assocDesc && U32At(b, 48) == sequenceNum
    }

    lemma NumbersFound(d: bytes, of: nat)
      requires Read(d, 15, First() + Second() + Third(), of)
      ensures NumbersAt(d) && of == 52
    {
      NumbersRead(d, 15);
      PlacesAre();
      var fs := First() + Second() + Third();
      forall i: nat | i < 15
        ensures Place(i) + (if KindAt(i) == K16 then 2 else 4) <= |d| && fs[i] == NumberAt(d, i)
      {
        NumberKept(d, i, 15);
      }
      FirstFound(d, fs);
      SecondFound(d, fs);
      ThirdFound(d, fs);
    }

    lemma FirstFound(d: bytes, fs: seq<Field>)
      requires |d| >= 52 && fs == First() + Second() + Third()
      requires forall i: nat :: i < 15 ==>
        Place(i) + (if KindAt(i) == K16 then 2 else 4) <= |d| && fs[i] == NumberAt(d, i)
      ensures U32At(d, 0) == storageId && U16At(d, 4) == objFormat && U16At(d, 6) == protection
      ensures U32At(d, 8) == compressedSize && U16At(d, 12) == thumbFormat
    {
      PlacesAre();
      assert fs[..5] == First();
      assert fs[0] == NumberAt(d, 0) && fs[1] == NumberAt(d, 1) && fs[2] == NumberAt(d, 2);
      assert fs[3] == NumberAt(d, 3) && fs[4] == NumberAt(d, 4);
    }

    lemma SecondFound(d: bytes, fs: seq<Field>)
      requires |d| >= 52 && fs == First() + Second() + Third()
      requires forall i: nat :: i < 15 ==>
        Place(i) + (if KindAt(i) == K16 then 2 else 4) <= |d| && fs[i] == NumberAt(d, i)
      ensures U32At(d, 14) == thumbCompressedSize && U32At(d, 18) == thumbWidth && U32At(d, 22) == thumbHeight
      ensures U32At(d, 26) == imgWidth && U32At(d, 30) == imgHeight
    {
      PlacesAre();
      assert fs[5..10] == Second();
      assert fs[5] == NumberAt(d, 5) && fs[6] == NumberAt(d, 6) && fs[7] == NumberAt(d, 7);
      assert fs[8] == NumberAt(d, 8) && fs[9] == NumberAt(d, 9);
    }

    lemma ThirdFound(d: bytes, fs: seq<Field>)
      requires |d| >= 52 && fs == First() + Second() + Third()
      requires forall i: nat :: i < 15 ==>
        Place(i) + (if KindAt(i) == K16 then 2 else 4) <= |d| && fs[i] == NumberAt(d, i)
      ensures U32At(d, 34) == imgBitDepth && U32At(d, 38) == parentObj && U16At(d, 42) == assocType
      ensures U32At(d, 44) == assocDesc && U32At(d, 48) == sequenceNum
    {
      PlacesAre();
      assert fs[10..] == Third();
      assert fs[10] == NumberAt(d, 10) && fs[11] == NumberAt(d, 11) && fs[12] == NumberAt(d, 12);
      assert fs[13] == NumberAt(d, 13) && fs[14] == NumberAt(d, 14);
    }

    /** The four texts, one behind the other. */
    ghost function TextBytes(): bytes
      requires Terminated()
      reads filename, dateCreated, dateModified, keywords
    {
      WriteString(CString(filename[..]).s) + WriteString(CString(dateCreated[..]).s)
      + WriteString(CString(dateModified[..]).s) + WriteString(CString(keywords[..]).s)
    }

    /** The fields of ptp_pack_object_info in their order: five, five and five numbers. */
    method PackFirst(buf: array<byte>) returns (of: nat, ghost fs: seq<Field>)
      requires buf.Length >= 1024
      modifies buf
      ensures of == 14 && fs == First() && buf[..of] == WriteFields(fs)
    {
      of, fs := Put32(buf, 0, storageId, []);
      of, fs := Put16(buf, of, objFormat, fs);
      of, fs := Put16(buf, of, protection, fs);
      of, fs := Put32(buf, of, compressedSize, fs);
      of, fs := Put16(buf, of, thumbFormat, fs);
    }

    method PackSecond(buf: array<byte>, ghost fs0: seq<Field>) returns (of: nat, ghost fs: seq<Field>)
      requires buf.Length >= 1024 && buf[..14] == WriteFields(fs0)
      modifies buf
      ensures of == 34 && fs == fs0 + Second() && buf[..of] == WriteFields(fs)
    {
      of, fs := Put32(buf, 14, thumbCompressedSize, fs0);
      of, fs := Put32(buf, of, thumbWidth, fs);
      of, fs := Put32(buf, of, thumbHeight, fs);
      of, fs := Put32(buf, of, imgWidth, fs);
      of, fs := Put32(buf, of, imgHeight, fs);
      Five(fs0, F32(thumbCompressedSize), F32(thumbWidth), F32(thumbHeight), F32(imgWidth), F32(imgHeight));
    }

    method PackThird(buf: array<byte>, ghost fs0: seq<Field>) returns (of: nat, ghost fs: seq<Field>)
      requires buf.Length >= 1024 && buf[..34] == WriteFields(fs0)
      modifies buf
      ensures of == 52 && fs == fs0 + Third() && buf[..of] == WriteFields(fs)
    {
      of, fs := Put32(buf, 34, imgBitDepth, fs0);
      of, fs := Put32(buf, of, parentObj, fs);
      of, fs := Put16(buf, of, assocType, fs);
      of, fs := Put32(buf, of, assocDesc, fs);
      of, fs := Put32(buf, of, sequenceNum, fs);
      Five(fs0, F32(imgBitDepth), F32(parentObj), F16(assocType), F32(assocDesc), F32(sequenceNum));
    }

    method PackTexts(buf: array<byte>, start: nat, ghost fs0: seq<Field>) returns (of: nat, ghost fs: seq<Field>)
      requires Valid() && Terminated() && buf.Length >= 1024 && start == 52 && buf[..start] == WriteFields(fs0)
      requires buf !in {filename, dateCreated, dateModified, keywords}
      modifies buf
      ensures of <= buf.Length && fs == fs0 + Texts() && buf[..of] == WriteFields(fs)
    {
      of, fs := PutString(buf, start, filename, fs0);
      of, fs := PutString(buf, of, dateCreated, fs);
      of, fs := PutString(buf, of, dateModified, fs);
      of, fs := PutString(buf, of, keywords, fs);
      Four(fs0, Texts()[0], Texts()[1], Texts()[2], Texts()[3]);
    }

    /** ptp_pack_object_info: 0 when the caller's buffer is smaller than the guard asks for. */
    method Pack(buf: array<byte>, max: nat) returns (of: nat)
      requires Valid() && Terminated() && buf.Length == max
      requires buf !in {filename, dateCreated, dateModified, keywords}
      modifies buf
      ensures if max < 1024 then of == 0
              else of <= max && buf[..of] == WriteFields(First() + Second() + Third() + Texts())
      ensures max >= 1024 ==> NumbersAt(buf[..of]) && buf[52..of] == TextBytes()
    {
      if 1024 > max {
        return 0;
      }
      ghost var fs;
      of, fs := PackFirst(buf);
      of, fs := PackSecond(buf, fs);
      of, fs := PackThird(buf, fs);
      ghost var numbers := buf[..of];
      of, fs := PackTexts(buf, of, fs);
      NumbersPacked(numbers, buf[..of]);
    }

    /** What has been packed, by its places. */
    lemma NumbersPacked(numbers: bytes, b: bytes)
      requires Terminated() && |numbers| == 52 && numbers == WriteFields(First() + Second() + Third())
      requires b == WriteFields(First() + Second() + Third() + Texts())
      ensures NumbersAt(b) && b[52..] == TextBytes()
    {
      var fs := First() + Second() + Third();
      FourFields(fs, Texts()[0], Texts()[1], Texts()[2], Texts()[3]);
      assert fs + [Texts()[0], Texts()[1], Texts()[2], Texts()[3]] == fs + Texts();
      assert b == numbers + TextBytes();
      NumbersSurvive(fs, TextBytes());
      NumbersFound(b, 52);
    }

    method ParseFirst(d: bytes) returns (of: nat, ghost fs: seq<Field>)
      requires Whole(d)
      modifies `storageId, `objFormat, `protection, `compressedSize, `thumbFormat
      ensures fs == First() && Read(d, 5, fs, of)
    {
      storageId, of, fs := Take32(d, 0, 0, []);
      objFormat, of, fs := Take16(d, of, 1, fs);
      protection, of, fs := Take16(d, of, 2, fs);
      of, fs := ParseFourthAndFifth(d, of, fs);
    }

    method ParseFourthAndFifth(d: bytes, start: nat, ghost fs0: seq<Field>) returns (of: nat, ghost fs: seq<Field>)
      requires Whole(d) && Read(d, 3, fs0, start)
      modifies `compressedSize, `thumbFormat
      ensures fs == fs0 + [F32(compressedSize)] + [F16(thumbFormat)] && Read(d, 5, fs, of)
    {
      compressedSize, of, fs := Take32(d, start, 3, fs0);
      thumbFormat, of, fs := Take16(d, of, 4, fs);
    }

    method ParseSecond(d: bytes, start: nat, ghost fs0: seq<Field>) returns (of: nat, ghost fs: seq<Field>)
      requires Whole(d) && Read(d, 5, fs0, start)
      modifies `thumbCompressedSize, `thumbWidth, `thumbHeight, `imgWidth, `imgHeight
      ensures fs == fs0 + Second() && Read(d, 10, fs, of)
    {
      thumbCompressedSize, of, fs := Take32(d, start, 5, fs0);
      thumbWidth, of, fs := Take32(d, of, 6, fs);
      thumbHeight, of, fs := Take32(d, of, 7, fs);
      imgWidth, of, fs := Take32(d, of, 8, fs);
      imgHeight, of, fs := Take32(d, of, 9, fs);
      Five(fs0, F32(thumbCompressedSize), F32(thumbWidth), F32(thumbHeight), F32(imgWidth), F32(imgHeight));
    }

    method ParseThird(d: bytes, start: nat, ghost fs0: seq<Field>) returns (of: nat, ghost fs: seq<Field>)
      requires Whole(d) && Read(d, 10, fs0, start)
      modifies `imgBitDepth, `parentObj, `assocType, `assocDesc, `sequenceNum
      ensures fs == fs0 + Third() && Read(d, 15, fs, of)
    {
      imgBitDepth, of, fs := Take32(d, start, 10, fs0);
      parentObj, of, fs := Take32(d, of, 11, fs);
      assocType, of, fs := Take16(d, of, 12, fs);
      assocDesc, of, fs := Take32(d, of, 13, fs);
      sequenceNum, of, fs := Take32(d, of, 14, fs);
      Five(fs0, F32(imgBitDepth), F32(parentObj), F16(assocType), F32(assocDesc), F32(sequenceNum));
    }

    method ParseNumbers(d: bytes) returns (of: nat, ghost fs: seq<Field>)
      requires Whole(d)
      modifies this
      ensures fs == First() + Second() + Third() && Read(d, 15, fs, of)
    {
      of, fs := ParseFirst(d);
      of, fs := ParseSecond(d, of, fs);
      of, fs := ParseThird(d, of, fs);
    }

    method ParseTexts(d: bytes, start: nat, ghost fs0: seq<Field>) returns (ghost ts: seq<Field>)
      requires Valid() && Distinct() && Whole(d) && Read(d, 15, fs0, start)
      modifies filename, dateCreated, dateModified, keywords
      ensures ReadFields(LAYOUT, FIELDS, d).fields == fs0 + ts
      ensures AllTerminated(ts) ==> ts == Texts()
    {
      var of;
      ghost var t0, t1, t2, t3, fs;
      of, t0, fs := TakeText(d, start, filename, 15, fs0);
      of, t1, fs := TakeText(d, of, dateCreated, 16, fs);
      of, t2, fs := TakeText(d, of, dateModified, 17, fs);
      of, t3, fs := TakeText(d, of, keywords, 18, fs);
      ts := [FText(t0), FText(t1), FText(t2), FText(t3)];
      Four(fs0, FText(t0), FText(t1), FText(t2), FText(t3));
      assert AllTerminated(ts) ==> ts[0].t.Terminated? && ts[1].t.Terminated? && ts[2].t.Terminated? && ts[3].t.Terminated?;
    }

    ghost predicate Distinct() {
      && filename != keywords && filename != dateCreated && filename != dateModified
      && keywords != dateCreated && keywords != dateModified && dateCreated != dateModified
    }

    /**
     ptp_parse_object_info: the record holds what the payload encodes, provided that the
     texts in it end inside their arrays.
     */
    method Parse(d: bytes) returns (ghost ts: seq<Field>)
      requires Valid() && Distinct() && Whole(d)
      modifies this, filename, dateCreated, dateModified, keywords
      ensures ReadFields(LAYOUT, FIELDS, d).fields == First() + Second() + Third() + ts
      ensures AllTerminated(ts) ==> ts == Texts()
      ensures NumbersAt(d)
    {
      var of;
      ghost var fs;
      of, fs := ParseNumbers(d);
      NumbersFound(d, of);
      ts := ParseTexts(d, of, fs);
    }
  }

  lemma FourFields(fs: seq<Field>, a: Field, b: Field, c: Field, d: Field)
    ensures WriteFields(fs + [a, b, c, d])
         == WriteFields(fs) + (WriteField(a) + WriteField(b) + WriteField(c) + WriteField(d))
  {
    OneMoreField(fs, a);
    OneMoreField(fs + [a], b);
    OneMoreField(fs + [a] + [b], c);
    OneMoreField(fs + [a] + [b] + [c], d);
    Four(fs, a, b, c, d);
    var p := WriteFields(fs);
    Assoc(p, WriteField(a), WriteField(b));
    Assoc(p, WriteField(a) + WriteField(b), WriteField(c));
    Assoc(p, WriteField(a) + WriteField(b) + WriteField(c), WriteField(d));
  }

  /** Numbers alone always survive. */
  lemma NumbersSurvive(fs: seq<Field>, rest: bytes)
    requires |fs| == 15 && forall i :: 0 <= i < 15 ==> if KindAt(i) == K16 then fs[i].F16? else fs[i].F32?
    ensures Read(WriteFields(fs) + rest, 15, fs, |WriteFields(fs)|)
  {
    LayoutIs();
    var filled := fs + [FText(Terminated([])), FText(Terminated([])), FText(Terminated([])), FText(Terminated([]))];
    assert filled[..15] == fs;
    forall i | 0 <= i < 15 ensures Matches(filled[i], LAYOUT[i]) && Survives(filled[i], LAYOUT[i]) {
      assert LAYOUT[i] == KindAt(i) && filled[i] == fs[i];
    }
    FieldsSurvive(filled, LAYOUT, 15, rest);
  }

  ghost predicate AllTerminated(ts: seq<Field>) {
    forall i :: 0 <= i < |ts| ==> ts[i].FText? && ts[i].t.Terminated?
  }

  /**
   Parsing a packed record returns every field if and only if each of its texts is empty, or
   printable and at least two shorter than its array.
   */
  lemma RecordRoundTrip(fs: seq<Field>, rest: bytes)
    requires |fs| == FIELDS && AllMatch(fs, LAYOUT, FIELDS)
    ensures ValidLayout(LAYOUT)
    ensures (Whole(WriteFields(fs) + rest) && ReadFields(LAYOUT, FIELDS, WriteFields(fs) + rest).fields == fs)
       <==> forall i :: 15 <= i < FIELDS ==>
              fs[i].t.s == [] || (Printable(fs[i].t.s) && |fs[i].t.s| + 2 <= KindAt(i).max)
  {
    LayoutIs();
    DatasetRoundTrip(fs, LAYOUT, rest);
    assert forall i :: 0 <= i < FIELDS ==> Matches(fs[i], LAYOUT[i]) && LAYOUT[i] == KindAt(i);
    if AllSurvive(fs, LAYOUT, FIELDS) {
      assert forall i :: 15 <= i < FIELDS ==> Survives(fs[i], LAYOUT[i]);
    }
  }
}
