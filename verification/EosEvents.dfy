/**
 The event payload of Canon EOS cameras, walked twice by src/data.c: ptp_eos_events_length
 counts the records, and ptp_eos_events unpacks as many.
 */
module EosEvents {
  import opened Octets
  import opened Packets
  import PropAvail

  const EC_OBJECT_ADDED_EX: u32 := 0xC181
  const EC_REQUEST_OBJECT_TRANSFER: u32 := 0xC186
  const EC_PROP_VALUE_CHANGED: u32 := 0xC189
  const EC_AVAIL_LIST_CHANGED: u32 := 0xC18A
  const EC_INFO_CHECK_COMPLETE: u32 := 0xC1A4
  const DPC_APERTURE: u32 := 0xD101
  const DPC_SHUTTER_SPEED: u32 := 0xD102
  const DPC_ISO_SPEED: u32 := 0xD103
  const DPC_FOCUS_MODE: u32 := 0xD108
  const DPC_WHITE_BALANCE: u32 := 0xD109
  const DPC_BATTERY_POWER: u32 := 0xD111
  const DPC_IMAGE_FORMAT: u32 := 0xD120
  const DPC_AE_MODE_DIAL: u32 := 0xD138
  const DPC_VF_OUTPUT: u32 := 0xD1B0
  const DPC_FOCUS_INFO_EX: u32 := 0xD1D3
  const IMG_FORMAT_RAW_JPEG: u32 := 4

  // ----- Records -----

  /** How many bytes of a record the second pass looks at. */
  function Needed(b: bytes, at: nat): nat
    requires at + 8 <= |b|
  {
    var kind := U32At(b, at + 4);
    if kind == EC_PROP_VALUE_CHANGED then
      if at + 12 <= |b| && U32At(b, at + 8) == DPC_IMAGE_FORMAT then 32 else 16
    else if kind == EC_REQUEST_OBJECT_TRANSFER then 16
    else if kind == EC_OBJECT_ADDED_EX then 12
    else if kind == EC_AVAIL_LIST_CHANGED then 20
    else 8
  }

  /** A record that is long enough for its type and lies inside the payload. */
  predicate WfRecord(b: bytes, at: nat) {
    && at + 8 <= |b| && U32At(b, at + 4) != 0
    && 8 <= Needed(b, at) <= U32At(b, at) <= |b| - at
  }

  predicate IsTerminator(b: bytes, at: nat) {
    at + 8 <= |b| && U32At(b, at + 4) == 0
  }

  /** From `at` on the payload is tiled by records, up to its end or a record of type 0. */
  predicate Tiled(b: bytes, at: nat)
    decreases |b| - at
  {
    at == |b| || IsTerminator(b, at) || (WfRecord(b, at) && Tiled(b, at + U32At(b, at)))
  }

  /** Where the records start that come before the terminator. */
  function Offsets(b: bytes, at: nat): (os: seq<nat>)
    requires Tiled(b, at)
    ensures forall i :: 0 <= i < |os| ==> WfRecord(b, os[i])
    decreases |b| - at
  {
    if at == |b| || IsTerminator(b, at) then [] else [at] + Offsets(b, at + U32At(b, at))
  }

  /**
   The records are consecutive: each starts where the one before ends, the first at `at`,
   and they end at the end of the payload or at the terminator.
   */
  lemma {:induction false} OffsetsTile(b: bytes, at: nat, i: nat)
    requires Tiled(b, at) && i < |Offsets(b, at)|
    ensures Offsets(b, at)[0] == at
    ensures var next := Offsets(b, at)[i] + U32At(b, Offsets(b, at)[i]);
      && next <= |b|
      && if i + 1 < |Offsets(b, at)| then Offsets(b, at)[i + 1] == next else next == |b| || IsTerminator(b, next)
    decreases |b| - at
  {
    if i > 0 {
      OffsetsTile(b, at + U32At(b, at), i - 1);
    } else if |Offsets(b, at)| > 1 {
      OffsetsTile(b, at + U32At(b, at), 0);
    }
  }

  // ----- What a record says -----

  datatype Name = NoName | Named(s: string)

  /** struct PtpGenericEvent; `text` is its str_value. */
  datatype Event = Event(code: u16, name: Name, value: int, text: Name)

  /** What memset leaves of an event. */
  const BLANK := Event(0, NoName, 0, NoName)

  /** The fixed tables of src/conv.c and src/enums.c; NoName is enum_null. */
  datatype Tables = Tables(
    aperture: u32 -> u32, shutter: u32 -> u32, iso: u32 -> u32, whiteBalance: u32 -> u32,
    imageFormat: seq<u32> -> u32, enumName: u32 -> Name)

  function FiveWords(b: bytes, at: nat): seq<u32>
    requires at + 20 <= |b|
  {
    [U32At(b, at), U32At(b, at + 4), U32At(b, at + 8), U32At(b, at + 12), U32At(b, at + 16)]
  }

  /** The camera counts its battery bars 0, 1, 2; the wrap is that of a 32-bit word. */
  function BatteryBars(v: u32): u32 {
    var w := (v + 1) % 0x1_0000_0000;
    if w == 3 then 4 else w
  }

  function PropertyValue(b: bytes, at: nat, tables: Tables): u32
    requires at + 16 <= |b| && (U32At(b, at + 8) == DPC_IMAGE_FORMAT ==> at + 32 <= |b|)
  {
    var code, v := U32At(b, at + 8), U32At(b, at + 12);
    if code == DPC_APERTURE then tables.aperture(v)
    else if code == DPC_SHUTTER_SPEED then tables.shutter(v)
    else if code == DPC_ISO_SPEED then tables.iso(v)
    else if code == DPC_WHITE_BALANCE then tables.whiteBalance(v)
    else if code == DPC_BATTERY_POWER then BatteryBars(v)
    else if code == DPC_IMAGE_FORMAT then
      if v == 1 then tables.imageFormat(FiveWords(b, at + 12)) else IMG_FORMAT_RAW_JPEG
    else v
  }

  function PropertyName(code: u32, tables: Tables): Name {
    if code == DPC_APERTURE then Named("aperture")
    else if code == DPC_SHUTTER_SPEED then Named("shutter speed")
    else if code == DPC_ISO_SPEED then Named("iso")
    else if code == DPC_BATTERY_POWER then Named("battery")
    else if code == DPC_IMAGE_FORMAT then Named("image format")
    else if code == DPC_VF_OUTPUT then Named("mirror")
    else if code == DPC_AE_MODE_DIAL then Named("mode dial")
    else if code == DPC_FOCUS_MODE then Named("focus mode")
    else if code == DPC_WHITE_BALANCE then Named("white balance")
    else if code == DPC_FOCUS_INFO_EX then Named("focused")
    else tables.enumName(code)
  }

  function PropertyText(code: u32, v: u32): Name {
    if code == DPC_VF_OUTPUT then Named(if v == 0 then "finder" else "open")
    else if code == DPC_FOCUS_MODE then Named(if v == 3 then "MF" else "AF")
    else NoName
  }

  /** A name from the table alone: enum_null is then the text "(null)". */
  function Shown(n: Name): Name {
    if n.NoName? then Named("(null)") else n
  }

  /** Codes of events have 16 bits, and so have object handles that are kept there. */
  function Low16(x: u32): u16 {
    x % 0x1_0000
  }

  function EventOf(b: bytes, at: nat, tables: Tables): Event
    requires WfRecord(b, at)
  {
    var kind := U32At(b, at + 4);
    if kind == EC_PROP_VALUE_CHANGED then
      var code, v := U32At(b, at + 8), U32At(b, at + 12);
      Event(Low16(code), PropertyName(code, tables), Signed(PropertyValue(b, at, tables)), PropertyText(code, v))
    else if kind == EC_INFO_CHECK_COMPLETE || kind == DPC_FOCUS_INFO_EX then BLANK.(name := Shown(tables.enumName(kind)))
    else if kind == EC_REQUEST_OBJECT_TRANSFER then
      Event(Low16(U32At(b, at + 8)), Named("request object transfer"), Signed(U32At(b, at + 12)), NoName)
    else if kind == EC_OBJECT_ADDED_EX then BLANK.(name := Named("new object"), value := Signed(U32At(b, at + 8)))
    else BLANK
  }

  /** The values that a record announces, if it does. */
  function AnnouncedBy(b: bytes, at: nat): (h: seq<PropAvail.Announcement>)
    requires WfRecord(b, at)
    ensures |h| <= 1
  {
    if U32At(b, at + 4) != EC_AVAIL_LIST_CHANGED then []
    else
      var left, count := U32At(b, at) - 20, U32At(b, at + 16);
      if left == 0 || count == 0 then []
      else
        ValuesFit(left, count);
        [PropAvail.Announcement(U32At(b, at + 8), left / count, count, b[at + 20..at + 20 + left / count * count])]
  }

  /** The values that are copied never exceed what is left of the record. */
  lemma ValuesFit(left: nat, count: nat)
    requires count > 0
    ensures 0 <= left / count * count <= left
  {
    assert left == left / count * count + left % count;
  }

  function EventsAt(b: bytes, os: seq<nat>, tables: Tables): (es: seq<Event>)
    requires forall i :: 0 <= i < |os| ==> WfRecord(b, os[i])
    ensures |es| == |os|
  {
    if os == [] then [] else EventsAt(b, os[..|os| - 1], tables) + [EventOf(b, os[|os| - 1], tables)]
  }

  function AnnouncedAt(b: bytes, os: seq<nat>): seq<PropAvail.Announcement>
    requires forall i :: 0 <= i < |os| ==> WfRecord(b, os[i])
  {
    if os == [] then [] else AnnouncedAt(b, os[..|os| - 1]) + AnnouncedBy(b, os[|os| - 1])
  }

  lemma {:induction false} EventsAreRecords(b: bytes, os: seq<nat>, tables: Tables, i: nat)
    requires (forall i :: 0 <= i < |os| ==> WfRecord(b, os[i])) && i < |os|
    ensures EventsAt(b, os, tables)[i] == EventOf(b, os[i], tables)
  {
    if i + 1 < |os| {
      EventsAreRecords(b, os[..|os| - 1], tables, i);
    }
  }

  // ----- The two passes -----

  /** ptp_eos_events_length: it ends, and counts the records before the terminator. */
  method EventsLength(b: bytes) returns (length: nat)
    requires Tiled(b, 0)
    ensures length == |Offsets(b, 0)|
  {
    var dp: nat := 0;
    length := 0;
    while dp < |b|
      invariant dp <= |b| && Tiled(b, dp)
      invariant length + |Offsets(b, dp)| == |Offsets(b, 0)|
      decreases |b| - dp
    {
      var size: nat, kind := U32At(b, dp), U32At(b, dp + 4);
      if kind == 0 {
        break;
      }
      dp := dp + size;
      length := length + 1;
    }
  }

  /** Every announcement of the payload stays inside the memory of its entry. */
  ghost predicate RoomForAll(m: map<int, PropAvail.Entry>, h: seq<PropAvail.Announcement>) {
    forall k :: 0 <= k < |h| ==> PropAvail.HasRoom(PropAvail.AfterAll(m, h, k), h[k])
  }

  /** The part of ptp_eos_events for one record of the list kind. */
  method UpdateAvail(b: bytes, at: nat, list: PropAvail.AvailList)
    requires WfRecord(b, at) && list.Valid()
    requires forall i :: 0 <= i < |AnnouncedBy(b, at)| ==> PropAvail.HasRoom(list.view, AnnouncedBy(b, at)[i])
    modifies list, list.repr
    ensures list.Valid() && fresh(list.repr - old(list.repr))
    ensures list.view == PropAvail.AfterAll(old(list.view), AnnouncedBy(b, at), |AnnouncedBy(b, at)|)
  {
    if U32At(b, at + 4) == EC_AVAIL_LIST_CHANGED {
      var code, count := U32At(b, at + 8), U32At(b, at + 16);
      var payloadSize := U32At(b, at) - 20;
      if payloadSize != 0 && count != 0 {
        var membSize := payloadSize / count;
        ValuesFit(payloadSize, count);
        var a := PropAvail.Announcement(code, membSize, count, b[at + 20..at + 20 + membSize * count]);
        assert AnnouncedBy(b, at) == [a];
        list.Set(a);
        assert PropAvail.AfterAll(old(list.view), [a], 0) == old(list.view);
      }
    }
  }

  lemma {:induction false} AfterBoth(m: map<int, PropAvail.Entry>, h: seq<PropAvail.Announcement>,
                                     h': seq<PropAvail.Announcement>, k: nat)
    requires k <= |h'|
    ensures PropAvail.AfterAll(m, h + h', |h| + k) == PropAvail.AfterAll(PropAvail.AfterAll(m, h, |h|), h', k)
  {
    if k == 0 {
      AfterPrefix(m, h, h', |h|);
    } else {
      AfterBoth(m, h, h', k - 1);
      assert (h + h')[|h| + k - 1] == h'[k - 1];
    }
  }

  lemma {:induction false} AfterPrefix(m: map<int, PropAvail.Entry>, h: seq<PropAvail.Announcement>,
                                       h': seq<PropAvail.Announcement>, k: nat)
    requires k <= |h|
    ensures PropAvail.AfterAll(m, h + h', k) == PropAvail.AfterAll(m, h, k)
  {
    if k > 0 {
      AfterPrefix(m, h, h', k - 1);
      assert (h + h')[k - 1] == h[k - 1];
    }
  }

  lemma {:induction false} AnnouncedPrefix(b: bytes, os: seq<nat>, i: nat)
    requires (forall i :: 0 <= i < |os| ==> WfRecord(b, os[i])) && i < |os|
    ensures AnnouncedAt(b, os[..i + 1]) == AnnouncedAt(b, os[..i]) + AnnouncedBy(b, os[i])
    ensures AnnouncedAt(b, os[..i + 1]) <= AnnouncedAt(b, os)
    decreases |os|
  {
    var front := os[..|os| - 1];
    assert os[..i + 1][..i] == os[..i];
    if i + 1 < |os| {
      AnnouncedPrefix(b, front, i);
      assert front[..i + 1] == os[..i + 1];
    } else {
      assert os[..i + 1] == os;
    }
  }

  lemma SameTurn(m: map<int, PropAvail.Entry>, h: seq<PropAvail.Announcement>, a: PropAvail.Announcement,
                 all: seq<PropAvail.Announcement>)
    requires h + [a] <= all && RoomForAll(m, all)
    ensures PropAvail.HasRoom(PropAvail.AfterAll(m, h, |h|), a)
  {
    AfterPrefix(m, h, all[|h|..], |h|);
    assert all == h + all[|h|..] && all[|h|] == (h + [a])[|h|];
  }

  /** What the whole payload has room for, each record has room for when its turn comes. */
  lemma RoomInTurn(b: bytes, os: seq<nat>, i: nat, m: map<int, PropAvail.Entry>)
    requires (forall i :: 0 <= i < |os| ==> WfRecord(b, os[i])) && i < |os|
    requires RoomForAll(m, AnnouncedAt(b, os))
    ensures var h, h' := AnnouncedAt(b, os[..i]), AnnouncedBy(b, os[i]);
      forall j :: 0 <= j < |h'| ==> PropAvail.HasRoom(PropAvail.AfterAll(m, h, |h|), h'[j])
  {
    var h' := AnnouncedBy(b, os[i]);
    AnnouncedPrefix(b, os, i);
    if h' != [] {
      assert h' == [h'[0]];
      SameTurn(m, AnnouncedAt(b, os[..i]), h'[0], AnnouncedAt(b, os));
    }
  }

  lemma NextEvent(b: bytes, os: seq<nat>, tables: Tables, i: nat)
    requires (forall i :: 0 <= i < |os| ==> WfRecord(b, os[i])) && i < |os|
    ensures EventsAt(b, os[..i + 1], tables) == EventsAt(b, os[..i], tables) + [EventOf(b, os[i], tables)]
  {
    assert os[..i + 1][..i] == os[..i];
  }

  lemma NextAnnounced(b: bytes, os: seq<nat>, i: nat, m: map<int, PropAvail.Entry>)
    requires (forall i :: 0 <= i < |os| ==> WfRecord(b, os[i])) && i < |os|
    ensures var h, h', all := AnnouncedAt(b, os[..i]), AnnouncedBy(b, os[i]), AnnouncedAt(b, os[..i + 1]);
      PropAvail.AfterAll(m, all, |all|) == PropAvail.AfterAll(PropAvail.AfterAll(m, h, |h|), h', |h'|)
  {
    var h, h' := AnnouncedAt(b, os[..i]), AnnouncedBy(b, os[i]);
    AnnouncedPrefix(b, os, i);
    AfterBoth(m, h, h', |h'|);
  }

  /** ptp_eos_prop_next, for the record at `at`. */
  method PropNext(b: bytes, at: nat, tables: Tables) returns (e: Event)
    requires WfRecord(b, at) && U32At(b, at + 4) == EC_PROP_VALUE_CHANGED
    ensures e == EventOf(b, at, tables)
  {
    var code, value := U32At(b, at + 8), U32At(b, at + 12);
    var name, text := tables.enumName(code), NoName;
    if code == DPC_APERTURE {
      value := tables.aperture(value);
      name := Named("aperture");
    } else if code == DPC_SHUTTER_SPEED {
      value := tables.shutter(value);
      name := Named("shutter speed");
    } else if code == DPC_ISO_SPEED {
      value := tables.iso(value);
      name := Named("iso");
    } else if code == DPC_BATTERY_POWER {
      value := (value + 1) % 0x1_0000_0000;
      if value == 3 {
        value := 4;
      }
      name := Named("battery");
    } else if code == DPC_IMAGE_FORMAT {
      value := if value == 1 then tables.imageFormat(FiveWords(b, at + 12)) else IMG_FORMAT_RAW_JPEG;
      name := Named("image format");
    } else if code == DPC_VF_OUTPUT {
      name := Named("mirror");
      text := Named(if value == 0 then "finder" else "open");
    } else if code == DPC_AE_MODE_DIAL {
      name := Named("mode dial");
    } else if code == DPC_FOCUS_MODE {
      name := Named("focus mode");
      text := Named(if value == 3 then "MF" else "AF");
    } else if code == DPC_WHITE_BALANCE {
      name := Named("white balance");
      value := tables.whiteBalance(value);
    } else if code == DPC_FOCUS_INFO_EX {
      name := Named("focused");
    }
    e := Event(Low16(code), name, Signed(value), text);
  }

  /** The switch of ptp_eos_events, the list of values apart. */
  method Unpack(b: bytes, at: nat, tables: Tables) returns (e: Event)
    requires WfRecord(b, at)
    ensures e == EventOf(b, at, tables)
  {
    var kind := U32At(b, at + 4);
    e := BLANK;
    if kind == EC_PROP_VALUE_CHANGED {
      e := PropNext(b, at, tables);
    } else if kind == EC_INFO_CHECK_COMPLETE || kind == DPC_FOCUS_INFO_EX {
      e := e.(name := Shown(tables.enumName(kind)));
    } else if kind == EC_REQUEST_OBJECT_TRANSFER {
      e := Event(Low16(U32At(b, at + 8)), Named("request object transfer"), Signed(U32At(b, at + 12)), NoName);
    } else if kind == EC_OBJECT_ADDED_EX {
      e := e.(name := Named("new object"), value := Signed(U32At(b, at + 8)));
    }
  }

  /** The first i records of os have been unpacked. */
  ghost predicate Unpacked(b: bytes, os: seq<nat>, tables: Tables, i: nat, m: map<int, PropAvail.Entry>,
                           events: seq<Event>, view: map<int, PropAvail.Entry>)
    requires i <= |os| && forall i :: 0 <= i < |os| ==> WfRecord(b, os[i])
  {
    && events == EventsAt(b, os[..i], tables)
    && view == PropAvail.AfterAll(m, AnnouncedAt(b, os[..i]), |AnnouncedAt(b, os[..i])|)
  }

  /** One round of the second pass. */
  method UnpackNext(b: bytes, dp: nat, tables: Tables, list: PropAvail.AvailList, events: seq<Event>,
                    ghost os: seq<nat>, ghost i: nat, ghost m: map<int, PropAvail.Entry>)
    returns (next: nat, events': seq<Event>)
    requires Tiled(b, 0) && os == Offsets(b, 0) && i < |os| && os[i] == dp
    requires list.Valid() && RoomForAll(m, AnnouncedAt(b, os)) && Unpacked(b, os, tables, i, m, events, list.view)
    modifies list, list.repr
    ensures list.Valid() && fresh(list.repr - old(list.repr))
    ensures Unpacked(b, os, tables, i + 1, m, events', list.view)
    ensures i + 1 < |os| ==> os[i + 1] == next
  {
    OffsetsTile(b, 0, i);
    NextEvent(b, os, tables, i);
    NextAnnounced(b, os, i, m);
    RoomInTurn(b, os, i, m);
    next := U32At(b, dp);
    next := dp + next;
    if U32At(b, dp + 4) == 0 {
      return;
    }
    var e := Unpack(b, dp, tables);
    events' := events + [e];
    UpdateAvail(b, dp, list);
  }

  /** The loop of the second pass over the records os. */
  method SecondPass(b: bytes, length: nat, tables: Tables, list: PropAvail.AvailList, ghost os: seq<nat>)
    returns (events: seq<Event>)
    requires Tiled(b, 0) && os == Offsets(b, 0) && length == |os|
    requires list.Valid() && RoomForAll(list.view, AnnouncedAt(b, os))
    modifies list, list.repr
    ensures list.Valid() && Unpacked(b, os, tables, length, old(list.view), events, list.view)
  {
    ghost var m := list.view;
    events := [];
    var dp: nat := 0;
    if length > 0 {
      OffsetsTile(b, 0, 0);
    }
    for i := 0 to length
      invariant i < length ==> os[i] == dp
      invariant list.Valid() && fresh(list.repr - old(list.repr))
      invariant Unpacked(b, os, tables, i, m, events, list.view)
    {
      dp, events := UnpackNext(b, dp, tables, list, events, os, i, m);
    }
  }

  /**
   ptp_eos_events: the second pass visits exactly the records that the first has counted,
   and its own test for the terminator never fires.
   */
  method Events(b: bytes, tables: Tables, list: PropAvail.AvailList) returns (events: seq<Event>)
    requires Tiled(b, 0) && list.Valid() && RoomForAll(list.view, AnnouncedAt(b, Offsets(b, 0)))
    modifies list, list.repr
    ensures list.Valid() && events == EventsAt(b, Offsets(b, 0), tables)
    ensures list.view == PropAvail.AfterAll(old(list.view), AnnouncedAt(b, Offsets(b, 0)), |AnnouncedAt(b, Offsets(b, 0))|)
  {
    var length := EventsLength(b);
    ghost var os := Offsets(b, 0);
    assert os[..|os|] == os;
    events := SecondPass(b, length, tables, list, os);
  }
}
