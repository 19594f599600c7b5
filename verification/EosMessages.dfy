/**
 What a Canon EOS camera has to say, written as an event payload of its own, and the proof
 that ptp_eos_events reads exactly that.
 */
module EosMessages {
  import opened Octets
  import opened Packets
  import opened EosEvents
  import PropAvail

  datatype Message =
    | Aperture(v: u32) | ShutterSpeed(v: u32) | IsoSpeed(v: u32) | Battery(v: u32)
    | ImageFormat(words: seq<u32>) | Mirror(v: u32) | ModeDial(v: u32) | FocusMode(v: u32)
    | WhiteBalance(v: u32) | Focused(v: u32) | OtherProperty(code: u32, v: u32)
    | Added(handle: u32) | Transfer(handle: u32, size: u32)
    | Values(code: u32, kind: u32, memberSize: nat, count: u32, data: bytes)
    | CheckComplete | FocusInfo | Other(kind: u32)

  /** A message in its record, which may be longer than the message needs. */
  datatype Record = Record(m: Message, extra: bytes)

  predicate IsProperty(m: Message) {
    || m.Aperture? || m.ShutterSpeed? || m.IsoSpeed? || m.Battery? || m.ImageFormat? || m.Mirror?
    || m.ModeDial? || m.FocusMode? || m.WhiteBalance? || m.Focused? || m.OtherProperty?
  }

  /** The values of an announcement are count times size bytes, and less than count bytes may follow. */
  predicate WfMessage(r: Record) {
    && |RecordWords(r.m)| <= 8 && Length(r) < 0x8000_0000
    && match r.m
       case ImageFormat(words) => |words| == 5
       case OtherProperty(code, _) =>
         code !in {0xD101, 0xD102, 0xD103, 0xD108, 0xD109, 0xD111, 0xD120, 0xD138, 0xD1B0, 0xD1D3}
       case Values(_, _, size, count, data) => |data| == size * count && (count > 0 ==> |r.extra| < count)
       case Other(kind) => kind !in {0, 0xC181, 0xC186, 0xC189, 0xC18A, 0xC1A4, 0xD1D3}
       case _ => true
  }

  // ----- Their bytes -----

  function KindOf(m: Message): u32 {
    match m
    case Added(_) => 0xC181
    case Transfer(_, _) => 0xC186
    case Values(_, _, _, _, _) => 0xC18A
    case CheckComplete => 0xC1A4
    case FocusInfo => 0xD1D3
    case Other(kind) => kind
    case _ => 0xC189
  }

  /** The words behind the type. */
  function RecordWords(m: Message): seq<u32> {
    match m
    case Aperture(v) => [0xD101, v]
    case ShutterSpeed(v) => [0xD102, v]
    case IsoSpeed(v) => [0xD103, v]
    case FocusMode(v) => [0xD108, v]
    case WhiteBalance(v) => [0xD109, v]
    case Battery(v) => [0xD111, v]
    case ImageFormat(words) => [0xD120] + words
    case ModeDial(v) => [0xD138, v]
    case Mirror(v) => [0xD1B0, v]
    case Focused(v) => [0xD1D3, v]
    case OtherProperty(code, v) => [code, v]
    case Added(handle) => [handle]
    case Transfer(handle, size) => [handle, size]
    case Values(code, kind, _, count, _) => [code, kind, count]
    case _ => []
  }

  function Rest(r: Record): bytes {
    if r.m.Values? then r.m.data + r.extra else r.extra
  }

  function Length(r: Record): nat {
    8 + 4 * |RecordWords(r.m)| + |Rest(r)|
  }

  function AllWords(r: Record): seq<u32>
    requires WfMessage(r)
  {
    [Length(r), KindOf(r.m)] + RecordWords(r.m)
  }

  function RecordBytes(r: Record): (b: bytes)
    requires WfMessage(r)
    ensures |b| == Length(r)
  {
    Params(AllWords(r)) + Rest(r)
  }

  predicate AllWfMessages(rs: seq<Record>) {
    forall i :: 0 <= i < |rs| ==> WfMessage(rs[i])
  }

  /** Nothing, or a record of type 0 and whatever follows it. */
  predicate IsEnd(end: bytes) {
    end == [] || (|end| >= 8 && end[4] == end[5] == end[6] == end[7] == 0)
  }

  function Payload(rs: seq<Record>, end: bytes): bytes
    requires AllWfMessages(rs)
  {
    if rs == [] then end else RecordBytes(rs[0]) + Payload(rs[1..], end)
  }

  // ----- What they mean -----

  function Told(code: u16, name: string, value: u32): Event {
    Event(code, Named(name), Signed(value), NoName)
  }

  function Expected(m: Message, tables: Tables): Event
    requires m.ImageFormat? ==> m.words != []
  {
    match m
    case Aperture(v) => Told(0xD101, "aperture", tables.aperture(v))
    case ShutterSpeed(v) => Told(0xD102, "shutter speed", tables.shutter(v))
    case IsoSpeed(v) => Told(0xD103, "iso", tables.iso(v))
    case WhiteBalance(v) => Told(0xD109, "white balance", tables.whiteBalance(v))
    case Battery(v) => Told(0xD111, "battery", if v == 2 then 4 else (v + 1) % 0x1_0000_0000)
    case ImageFormat(words) => Told(0xD120, "image format", if words[0] == 1 then tables.imageFormat(words) else 4)
    case ModeDial(v) => Told(0xD138, "mode dial", v)
    case Focused(v) => Told(0xD1D3, "focused", v)
    case FocusMode(v) => Told(0xD108, "focus mode", v).(text := Named(if v == 3 then "MF" else "AF"))
    case Mirror(v) => Told(0xD1B0, "mirror", v).(text := Named(if v == 0 then "finder" else "open"))
    case OtherProperty(code, v) => Event(code % 0x1_0000, tables.enumName(code), Signed(v), NoName)
    case Added(handle) => Told(0, "new object", handle)
    case Transfer(handle, size) => Told(handle % 0x1_0000, "request object transfer", size)
    case CheckComplete => Event(0, NamedAnyhow(tables.enumName(0xC1A4)), 0, NoName)
    case FocusInfo => Event(0, NamedAnyhow(tables.enumName(0xD1D3)), 0, NoName)
    case Values(_, _, _, _, _) => Event(0, NoName, 0, NoName)
    case Other(_) => Event(0, NoName, 0, NoName)
  }

  function NamedAnyhow(n: Name): Name {
    match n
    case NoName => Named("(null)")
    case Named(s) => Named(s)
  }

  function ExpectedAll(rs: seq<Record>, tables: Tables): (es: seq<Event>)
    requires AllWfMessages(rs)
    ensures |es| == |rs| && forall i :: 0 <= i < |rs| ==> es[i] == Expected(rs[i].m, tables)
  {
    if rs == [] then [] else [Expected(rs[0].m, tables)] + ExpectedAll(rs[1..], tables)
  }

  /** The announcement that reaches the list of values, unless it is empty. */
  function Announced(r: Record): seq<PropAvail.Announcement> {
    match r.m
    case Values(code, _, size, count, data) =>
      if count == 0 || data + r.extra == [] then [] else [PropAvail.Announcement(code, size, count, data)]
    case _ => []
  }

  function AnnouncedAll(rs: seq<Record>): seq<PropAvail.Announcement> {
    if rs == [] then [] else Announced(rs[0]) + AnnouncedAll(rs[1..])
  }

  // ----- Reading one record -----

  /** The record r lies in b from `at` on. */
  predicate LiesAt(b: bytes, at: nat, r: Record) {
    WfMessage(r) && at + Length(r) <= |b| && b[at..at + Length(r)] == RecordBytes(r)
  }

  lemma WordRead(b: bytes, at: nat, r: Record, i: nat)
    requires LiesAt(b, at, r) && i < |AllWords(r)|
    ensures at + 4 * i + 4 <= |b| && U32At(b, at + 4 * i) == AllWords(r)[i]
  {
    var words := Params(AllWords(r));
    ParamAt(AllWords(r), i);
    FieldsOfPrefix(words, Rest(r), 4 * i);
    FieldInside(b, at, RecordBytes(r), 4 * i);
  }

  lemma HeaderRead(b: bytes, at: nat, r: Record)
    requires LiesAt(b, at, r)
    ensures U32At(b, at) == Length(r) && U32At(b, at + 4) == KindOf(r.m)
    ensures forall i :: 0 <= i < |RecordWords(r.m)| ==>
      at + 12 + 4 * i <= |b| && U32At(b, at + 8 + 4 * i) == RecordWords(r.m)[i]
  {
    WordRead(b, at, r, 0);
    WordRead(b, at, r, 1);
    forall i | 0 <= i < |RecordWords(r.m)|
      ensures at + 12 + 4 * i <= |b| && U32At(b, at + 8 + 4 * i) == RecordWords(r.m)[i]
    {
      WordRead(b, at, r, i + 2);
    }
  }

  lemma RecordWellFormed(b: bytes, at: nat, r: Record)
    requires LiesAt(b, at, r)
    ensures WfRecord(b, at) && U32At(b, at) == Length(r) && U32At(b, at + 4) != 0
  {
    HeaderRead(b, at, r);
    if IsProperty(r.m) {
      assert U32At(b, at + 8 + 4 * 0) == RecordWords(r.m)[0];
    }
  }

  /** The words of a property record, as numbers. */
  lemma PropertyWords(b: bytes, at: nat, r: Record)
    requires LiesAt(b, at, r) && IsProperty(r.m)
    ensures |RecordWords(r.m)| >= 2 && at + 16 <= |b| && U32At(b, at + 4) == 0xC189
    ensures U32At(b, at + 8) == RecordWords(r.m)[0] && U32At(b, at + 12) == RecordWords(r.m)[1]
    ensures r.m.ImageFormat? ==> at + 32 <= |b| && FiveWords(b, at + 12) == r.m.words
  {
    HeaderRead(b, at, r);
    var words := RecordWords(r.m);
    assert U32At(b, at + 8 + 4 * 0) == words[0] && U32At(b, at + 8 + 4 * 1) == words[1];
    if r.m.ImageFormat? {
      assert U32At(b, at + 8 + 4 * 2) == words[2] && U32At(b, at + 8 + 4 * 3) == words[3];
      assert U32At(b, at + 8 + 4 * 4) == words[4] && U32At(b, at + 8 + 4 * 5) == words[5];
    }
  }

  lemma PropertyRead(b: bytes, at: nat, r: Record, tables: Tables)
    requires LiesAt(b, at, r) && IsProperty(r.m) && WfRecord(b, at)
    ensures EventOf(b, at, tables) == Expected(r.m, tables)
  {
    PropertyWords(b, at, r);
    PropertyMeans(b, at, r.m, U32At(b, at + 8), U32At(b, at + 12), tables);
  }

  lemma PropertyMeans(b: bytes, at: nat, m: Message, code: u32, v: u32, tables: Tables)
    requires IsProperty(m) && WfRecord(b, at) && at + 16 <= |b| && U32At(b, at + 4) == 0xC189
    requires U32At(b, at + 8) == code && U32At(b, at + 12) == v && |RecordWords(m)| >= 2
    requires RecordWords(m)[0] == code && RecordWords(m)[1] == v
    requires m.OtherProperty? ==>
      code !in {0xD101, 0xD102, 0xD103, 0xD108, 0xD109, 0xD111, 0xD120, 0xD138, 0xD1B0, 0xD1D3}
    requires m.ImageFormat? ==> |m.words| == 5 && at + 32 <= |b| && FiveWords(b, at + 12) == m.words
    ensures EventOf(b, at, tables) == Expected(m, tables)
  {
    var value := PropertyValue(b, at, tables);
    assert EventOf(b, at, tables) == Event(code % 0x1_0000, PropertyName(code, tables), Signed(value), PropertyText(code, v));
    match m {
      case Aperture(_) => assert code == 0xD101;
      case ShutterSpeed(_) => assert code == 0xD102;
      case IsoSpeed(_) => assert code == 0xD103;
      case FocusMode(_) => assert code == 0xD108;
      case WhiteBalance(_) => assert code == 0xD109;
      case Battery(_) => assert code == 0xD111;
      case ImageFormat(_) => assert code == 0xD120;
      case ModeDial(_) => assert code == 0xD138;
      case Mirror(_) => assert code == 0xD1B0;
      case Focused(_) => assert code == 0xD1D3;
      case OtherProperty(_, _) => assert value == v;
    }
  }

  lemma EventRead(b: bytes, at: nat, r: Record, tables: Tables)
    requires LiesAt(b, at, r) && WfRecord(b, at)
    ensures EventOf(b, at, tables) == Expected(r.m, tables)
  {
    if IsProperty(r.m) {
      PropertyRead(b, at, r, tables);
    } else {
      HeaderRead(b, at, r);
      var words := RecordWords(r.m);
      if words != [] {
        assert U32At(b, at + 8 + 4 * 0) == words[0];
      }
      if |words| > 1 {
        assert U32At(b, at + 8 + 4 * 1) == words[1];
      }
    }
  }

  lemma MemberSize(size: nat, count: nat, extra: nat)
    requires extra < count
    ensures (size * count + extra) / count == size
  {
    var q, n := (size * count + extra) / count, size * count + extra;
    assert n == q * count + n % count;
    Between(q, size, count);
    Between(size, q, count);
  }

  lemma Between(a: nat, b: nat, c: nat)
    ensures a < b ==> a * c + c <= b * c
  {
    if a < b {
      assert (a + 1) * c <= b * c;
    }
  }

  lemma AnnouncementRead(b: bytes, at: nat, r: Record)
    requires LiesAt(b, at, r) && WfRecord(b, at)
    ensures AnnouncedBy(b, at) == Announced(r)
  {
    HeaderRead(b, at, r);
    if r.m.Values? {
      var words := RecordWords(r.m);
      ValuesWords(r);
      assert U32At(b, at + 8 + 4 * 0) == words[0] && U32At(b, at + 8 + 4 * 2) == words[2];
      DataRead(b, at, r);
      ValuesMean(b, at, r);
    }
  }

  lemma ValuesMean(b: bytes, at: nat, r: Record)
    requires WfMessage(r) && r.m.Values? && WfRecord(b, at) && U32At(b, at + 4) == 0xC18A
    requires U32At(b, at) == 20 + |r.m.data| + |r.extra|
    requires U32At(b, at + 8) == r.m.code && U32At(b, at + 16) == r.m.count
    requires at + 20 + |r.m.data| <= |b| && b[at + 20..at + 20 + |r.m.data|] == r.m.data
    ensures AnnouncedBy(b, at) == Announced(r)
  {
    var left: nat := |r.m.data| + |r.extra|;
    assert |r.m.data + r.extra| == left;
    if r.m.count != 0 {
      MemberSize(r.m.memberSize, r.m.count, |r.extra|);
    }
  }

  lemma Middle(w: bytes, d: bytes, e: bytes)
    ensures (w + (d + e))[|w|..|w| + |d|] == d
  {
  }

  lemma SliceOfSlice(b: bytes, at: nat, n: nat, i: nat, j: nat)
    requires at + n <= |b| && i <= j <= n
    ensures b[at..at + n][i..j] == b[at + i..at + j]
  {
    var f := b[at..at + n];
    assert forall k :: 0 <= k < n ==> f[k] == b[at + k];
    assert forall k :: 0 <= k < j - i ==> f[i..j][k] == f[i + k] && b[at + i..at + j][k] == b[at + i + k];
  }

  lemma ValuesWords(r: Record)
    requires WfMessage(r) && r.m.Values?
    ensures |Params(AllWords(r))| == 20 && Length(r) == 20 + |r.m.data| + |r.extra|
  {
  }

  lemma DataRead(b: bytes, at: nat, r: Record)
    requires LiesAt(b, at, r) && r.m.Values?
    ensures at + 20 + |r.m.data| <= |b| && b[at + 20..at + 20 + |r.m.data|] == r.m.data
  {
    ValuesWords(r);
    Middle(Params(AllWords(r)), r.m.data, r.extra);
    SliceOfSlice(b, at, Length(r), 20, 20 + |r.m.data|);
  }

  // ----- Reading them all -----

  lemma FirstLies(b: bytes, at: nat, rs: seq<Record>, end: bytes)
    requires AllWfMessages(rs) && rs != [] && at <= |b| && b[at..] == Payload(rs, end)
    ensures LiesAt(b, at, rs[0]) && b[at + Length(rs[0])..] == Payload(rs[1..], end)
  {
    var f, n := b[at..], Length(rs[0]);
    assert f == RecordBytes(rs[0]) + Payload(rs[1..], end);
    assert f[..n] == RecordBytes(rs[0]) && f[n..] == Payload(rs[1..], end);
    assert b == b[..at] + f;
    assert b[at..at + n] == f[..n] && b[at + n..] == f[n..];
  }

  lemma EndLies(b: bytes, at: nat, end: bytes)
    requires at <= |b| && b[at..] == end && IsEnd(end)
    ensures at == |b| || IsTerminator(b, at)
  {
    if end != [] {
      assert b == b[..at] + end;
      FieldsOfSuffix(b[..at], end, 4);
      var k := end[4..8];
      assert k[0] == k[1] == k[2] == k[3] == 0;
    }
  }

  /** The records lie in b one behind the other, from `at` on to its end or a terminator. */
  predicate LieAt(b: bytes, at: nat, rs: seq<Record>)
    decreases |rs|
  {
    if rs == [] then at == |b| || IsTerminator(b, at)
    else LiesAt(b, at, rs[0]) && LieAt(b, at + Length(rs[0]), rs[1..])
  }

  lemma {:induction false} PayloadLies(b: bytes, at: nat, rs: seq<Record>, end: bytes)
    requires AllWfMessages(rs) && IsEnd(end) && at <= |b| && b[at..] == Payload(rs, end)
    ensures LieAt(b, at, rs)
    decreases |rs|
  {
    if rs == [] {
      EndLies(b, at, end);
    } else {
      FirstLies(b, at, rs, end);
      PayloadLies(b, at + Length(rs[0]), rs[1..], end);
    }
  }

  lemma {:induction false} EventsFront(b: bytes, at: nat, os: seq<nat>, tables: Tables)
    requires WfRecord(b, at) && forall i :: 0 <= i < |os| ==> WfRecord(b, os[i])
    ensures EventsAt(b, [at] + os, tables) == [EventOf(b, at, tables)] + EventsAt(b, os, tables)
    ensures AnnouncedAt(b, [at] + os) == AnnouncedBy(b, at) + AnnouncedAt(b, os)
    decreases |os|
  {
    var all := [at] + os;
    if os == [] {
      assert all[..0] == [] && EventsAt(b, [], tables) == [] && AnnouncedAt(b, []) == [];
      assert AnnouncedBy(b, at) + [] == AnnouncedBy(b, at);
    } else {
      var front := os[..|os| - 1];
      EventsFront(b, at, front, tables);
      assert all[..|all| - 1] == [at] + front && all[|all| - 1] == os[|os| - 1];
      Assoc(AnnouncedBy(b, at), AnnouncedAt(b, front), AnnouncedBy(b, os[|os| - 1]));
    }
  }

  lemma OffsetsStep(b: bytes, at: nat)
    requires WfRecord(b, at) && Tiled(b, at + U32At(b, at))
    ensures Tiled(b, at) && Offsets(b, at) == [at] + Offsets(b, at + U32At(b, at))
  {
  }

  lemma RecordRead(b: bytes, at: nat, r: Record, tables: Tables)
    requires LiesAt(b, at, r)
    ensures WfRecord(b, at) && U32At(b, at) == Length(r)
    ensures EventOf(b, at, tables) == Expected(r.m, tables) && AnnouncedBy(b, at) == Announced(r)
  {
    RecordWellFormed(b, at, r);
    EventRead(b, at, r, tables);
    AnnouncementRead(b, at, r);
  }

  lemma ListsStep(b: bytes, at: nat, os: seq<nat>, rs: seq<Record>, tables: Tables)
    requires AllWfMessages(rs) && rs != [] && WfRecord(b, at) && forall i :: 0 <= i < |os| ==> WfRecord(b, os[i])
    requires EventOf(b, at, tables) == Expected(rs[0].m, tables) && AnnouncedBy(b, at) == Announced(rs[0])
    requires EventsAt(b, os, tables) == ExpectedAll(rs[1..], tables) && AnnouncedAt(b, os) == AnnouncedAll(rs[1..])
    ensures EventsAt(b, [at] + os, tables) == ExpectedAll(rs, tables)
    ensures AnnouncedAt(b, [at] + os) == AnnouncedAll(rs)
  {
    EventsFront(b, at, os, tables);
  }

  lemma OneMore(b: bytes, at: nat, rs: seq<Record>, tables: Tables, os: seq<nat>)
    requires AllWfMessages(rs) && rs != [] && LiesAt(b, at, rs[0])
    requires Tiled(b, at + Length(rs[0])) && os == Offsets(b, at + Length(rs[0]))
    requires EventsAt(b, os, tables) == ExpectedAll(rs[1..], tables) && AnnouncedAt(b, os) == AnnouncedAll(rs[1..])
    ensures Tiled(b, at) && Offsets(b, at) == [at] + os
    ensures EventsAt(b, [at] + os, tables) == ExpectedAll(rs, tables)
    ensures AnnouncedAt(b, [at] + os) == AnnouncedAll(rs)
  {
    RecordRead(b, at, rs[0], tables);
    OffsetsStep(b, at);
    ListsStep(b, at, os, rs, tables);
  }

  lemma {:induction false} AllRead(b: bytes, at: nat, rs: seq<Record>, tables: Tables) returns (os: seq<nat>)
    requires AllWfMessages(rs) && LieAt(b, at, rs)
    ensures Tiled(b, at) && os == Offsets(b, at)
    ensures EventsAt(b, os, tables) == ExpectedAll(rs, tables) && AnnouncedAt(b, os) == AnnouncedAll(rs)
    decreases |rs|
  {
    os := [];
    if rs != [] {
      os := AllRead(b, at + Length(rs[0]), rs[1..], tables);
      OneMore(b, at, rs, tables, os);
      os := [at] + os;
    }
  }

  /** The written messages tile the payload, and are read as exactly what they mean. */
  lemma MessagesRead(rs: seq<Record>, end: bytes, tables: Tables)
    requires AllWfMessages(rs) && IsEnd(end)
    ensures Tiled(Payload(rs, end), 0)
    ensures EventsAt(Payload(rs, end), Offsets(Payload(rs, end), 0), tables) == ExpectedAll(rs, tables)
    ensures AnnouncedAt(Payload(rs, end), Offsets(Payload(rs, end), 0)) == AnnouncedAll(rs)
  {
    PayloadLies(Payload(rs, end), 0, rs, end);
    var os := AllRead(Payload(rs, end), 0, rs, tables);
  }

  /** From the messages of a camera to the events and the list of values. */
  method EventsOf(rs: seq<Record>, end: bytes, tables: Tables, list: PropAvail.AvailList) returns (events: seq<Event>)
    requires AllWfMessages(rs) && IsEnd(end) && list.Valid() && RoomForAll(list.view, AnnouncedAll(rs))
    modifies list, list.repr
    ensures list.Valid() && events == ExpectedAll(rs, tables)
    ensures list.view == PropAvail.AfterAll(old(list.view), AnnouncedAll(rs), |AnnouncedAll(rs)|)
  {
    MessagesRead(rs, end, tables);
    events := Events(Payload(rs, end), tables, list);
  }
}
