/**
 The list of property values a camera announces: ptp_set_prop_avail_info of src/lib.c and
 ptp_validate_property_value of src/generic.c, against a map from codes to values.
 */
module PropAvail {
  import opened Octets
  import opened Packets

  /** What an entry says: `data` is its allocated memory. */
  datatype Entry = Entry(size: nat, cnt: nat, data: bytes)

  /** An announcement of cnt values of `size` bytes each. */
  datatype Announcement = Announcement(code: int, size: nat, cnt: nat, data: bytes)

  predicate WellSized(a: Announcement) {
    |a.data| == a.size * a.cnt
  }

  /**
   An entry that exists keeps its size and its count; its memory grows only when the new
   count is larger, and is overwritten from the start.
   */
  function Update(e: Entry, a: Announcement): Entry {
    e.(data := a.data + if a.cnt > e.cnt || |a.data| >= |e.data| then [] else e.data[|a.data|..])
  }

  /** What a new runtime has: one zeroed node, which the first unseen code takes over. */
  const EMPTY: map<int, Entry> := map[0 := Entry(0, 0, [])]

  function Announce(m: map<int, Entry>, a: Announcement): map<int, Entry> {
    if a.code in m then m[a.code := Update(m[a.code], a)]
    else (m - {0})[a.code := Entry(a.size, a.cnt, a.data)]
  }

  /** The copy stays inside the memory that the entry has. */
  predicate HasRoom(m: map<int, Entry>, a: Announcement) {
    a.code in m && a.cnt <= m[a.code].cnt ==> |a.data| <= |m[a.code].data|
  }

  // ----- Values -----

  predicate Supported(size: nat) {
    size == 1 || size == 2 || size == 4
  }

  predicate Readable(e: Entry) {
    e.cnt > 0 ==> Supported(e.size) && |e.data| >= e.size * e.cnt
  }

  lemma ValueInside(e: Entry, i: nat)
    requires Readable(e) && i < e.cnt
    ensures e.size * i + e.size <= |e.data|
  {
    assert e.size * (i + 1) <= e.size * e.cnt;
  }

  function ValueAt(e: Entry, i: nat): u32
    requires Readable(e) && i < e.cnt
  {
    ValueInside(e, i);
    if e.size == 4 then U32At(e.data, 4 * i)
    else if e.size == 2 then U16At(e.data, 2 * i)
    else e.data[i]
  }

  predicate Member(e: Entry, value: u32)
    requires Readable(e)
  {
    exists i :: 0 <= i < e.cnt && ValueAt(e, i) == value
  }

  /** The bytes of the i-th value of an announcement. */
  function Nth(a: Announcement, i: nat): bytes {
    var at := a.size * i;
    if 0 <= at && at + a.size <= |a.data| then a.data[at..at + a.size] else []
  }

  /** The announcement lists the value: some of its values is the little-endian number. */
  predicate Lists(a: Announcement, value: u32) {
    exists i :: 0 <= i < a.cnt && LittleEndian(Nth(a, i)) == value
  }

  lemma ValueIs(e: Entry, i: nat)
    requires Readable(e) && i < e.cnt
    ensures e.size * i + e.size <= |e.data|
    ensures ValueAt(e, i) == LittleEndian(e.data[e.size * i..e.size * i + e.size])
  {
    ValueInside(e, i);
    var at := e.size * i;
    var b := e.data[at..at + e.size];
    WordsAreLittleEndian(b);
    if e.size == 1 {
      assert b[1..] == [] && b[0] == e.data[i];
    }
  }

  lemma ListsMembers(a: Announcement, value: u32)
    requires WellSized(a) && Supported(a.size)
    ensures Readable(EntryOf(a)) && (Member(EntryOf(a), value) <==> Lists(a, value))
  {
    var e := EntryOf(a);
    forall i: nat | i < a.cnt ensures ValueAt(e, i) == LittleEndian(Nth(a, i)) {
      ValueIs(e, i);
    }
    if Member(e, value) {
      var i :| 0 <= i < e.cnt && ValueAt(e, i) == value;
      assert LittleEndian(Nth(a, i)) == value;
    }
    if Lists(a, value) {
      var i :| 0 <= i < a.cnt && LittleEndian(Nth(a, i)) == value;
      assert ValueAt(e, i) == value;
    }
  }

  // ----- Histories -----

  /** The map after the first k announcements. */
  function AfterAll(m: map<int, Entry>, h: seq<Announcement>, k: nat): map<int, Entry>
    requires k <= |h|
  {
    if k == 0 then m else Announce(AfterAll(m, h, k - 1), h[k - 1])
  }

  /** The latest of the first k announcements of a code, or -1. */
  function Latest(h: seq<Announcement>, k: nat, code: int): (i: int)
    requires k <= |h|
    ensures -1 <= i < k && (i >= 0 ==> h[i].code == code)
  {
    if k == 0 then -1 else if h[k - 1].code == code then k - 1 else Latest(h, k - 1, code)
  }

  /** Announcements of one code all have the same size and count. */
  ghost predicate Steady(h: seq<Announcement>) {
    && (forall i :: 0 <= i < |h| ==> WellSized(h[i]))
    && forall i, j :: 0 <= i < j < |h| && h[i].code == h[j].code ==> h[i].size == h[j].size && h[i].cnt == h[j].cnt
  }

  /**
   When re-announcements keep size and count the list holds exactly the latest announcement
   of each code, and nothing for codes that were never announced.
   */
  lemma {:induction false} LatestWins(h: seq<Announcement>, k: nat, code: int)
    requires Steady(h) && k <= |h| && code != 0
    ensures var m, i := AfterAll(EMPTY, h, k), Latest(h, k, code);
      && (code in m <==> i >= 0)
      && (i >= 0 ==> m[code] == Entry(h[i].size, h[i].cnt, h[i].data))
  {
    if k > 0 {
      LatestWins(h, k - 1, code);
    }
  }

  /** Such a history never writes past the memory of an entry. */
  lemma SteadyHasRoom(h: seq<Announcement>, k: nat)
    requires Steady(h) && k < |h| && h[k].code != 0
    ensures HasRoom(AfterAll(EMPTY, h, k), h[k])
  {
    LatestWins(h, k, h[k].code);
  }

  function EntryOf(a: Announcement): Entry {
    Entry(a.size, a.cnt, a.data)
  }

  /** 0 for a listed value, 2 for another one, 1 for an unknown code. */
  function Answer(m: map<int, Entry>, code: int, value: u32): int
    requires code in m ==> Readable(m[code])
  {
    if code !in m then 1 else if Member(m[code], value) then 0 else 2
  }

  /** Announcements of codes other than 0, of values that validation can read. */
  ghost predicate Sensible(h: seq<Announcement>) {
    Steady(h) && forall i :: 0 <= i < |h| ==> h[i].code != 0 && Supported(h[i].size)
  }

  /** What validation answers after a history: 1 for unseen codes, otherwise by the latest announcement. */
  function ByLatest(h: seq<Announcement>, code: int, value: u32): int
    requires Sensible(h)
  {
    var i := Latest(h, |h|, code);
    if i < 0 then 1 else if Lists(h[i], value) then 0 else 2
  }

  lemma HistoryAnswered(h: seq<Announcement>, code: int, value: u32)
    requires Sensible(h) && code != 0
    ensures var m := AfterAll(EMPTY, h, |h|);
      (code in m ==> Readable(m[code])) && Answer(m, code, value) == ByLatest(h, code, value)
  {
    LatestWins(h, |h|, code);
    var i := Latest(h, |h|, code);
    if i >= 0 {
      ListsMembers(h[i], value);
    }
  }

  /**
   When validation after a re-announcement of any size stays inside the memory of the entry:
   the old size and count are kept, while a larger count has shrunk or grown the memory.
   */
  lemma ValidationInBounds(e: Entry, a: Announcement)
    requires Readable(e) && WellSized(a) && (a.cnt <= e.cnt ==> |a.data| <= |e.data|)
    ensures Readable(Update(e, a)) <==> e.cnt == 0 || a.cnt <= e.cnt || a.size * a.cnt >= e.size * e.cnt
  {
  }

  /**
   In general, for a re-announcement with the same size: of fewer values, the surplus old
   ones stay valid; of more values, those behind the old count are never looked at.
   */
  lemma Reannounced(e: Entry, a: Announcement, i: nat)
    requires Readable(e) && a.size == e.size && WellSized(a) && i < e.cnt
    ensures Readable(Update(e, a)) && Readable(Entry(a.size, a.cnt, a.data))
    ensures ValueAt(Update(e, a), i) == if i < a.cnt then ValueAt(Entry(a.size, a.cnt, a.data), i) else ValueAt(e, i)
  {
    var n, e' := Entry(a.size, a.cnt, a.data), Update(e, a);
    UpdateSize(e, a);
    ValueInside(e, i);
    if i < a.cnt {
      ValueInside(n, i);
      FieldsOfPrefix(a.data, e'.data[|a.data|..], e.size * i);
      assert e'.data == a.data + e'.data[|a.data|..];
    } else {
      OldValue(e, a, i);
    }
  }

  lemma UpdateSize(e: Entry, a: Announcement)
    requires Readable(e) && a.size == e.size && WellSized(a)
    ensures |Update(e, a).data| >= e.size * e.cnt
  {
    if e.cnt == 0 {
      assert e.size * e.cnt == 0;
    } else if a.cnt > e.cnt {
      assert a.size * a.cnt >= e.size * e.cnt;
    }
  }

  lemma OldValue(e: Entry, a: Announcement, i: nat)
    requires Readable(e) && a.size == e.size && WellSized(a) && a.cnt <= i < e.cnt
    ensures Readable(Update(e, a)) && ValueAt(Update(e, a), i) == ValueAt(e, i)
  {
    var e' := Update(e, a);
    UpdateSize(e, a);
    ValueInside(e, i);
    assert |a.data| == e.size * a.cnt <= e.size * i;
    assert e'.data == a.data + e.data[|a.data|..];
    var at := e.size * i;
    assert e'.data[at..at + e.size] == e.data[at..at + e.size];
  }

  /** A value that is among the first k. */
  predicate Among(e: Entry, k: nat, value: u32)
    requires Readable(e) && k <= e.cnt
  {
    exists j :: 0 <= j < k && ValueAt(e, j) == value
  }

  /** The surplus old values are new ones too, and no new value is only behind the old count. */
  ghost predicate NothingStale(e: Entry, n: Entry)
    requires Readable(e) && Readable(n)
  {
    && (forall i :: n.cnt <= i < e.cnt ==> Member(n, ValueAt(e, i)))
    && (forall i :: e.cnt <= i < n.cnt ==> Among(n, e.cnt, ValueAt(n, i)))
  }

  ghost predicate SameMembers(e: Entry, n: Entry)
    requires Readable(e) && Readable(n)
  {
    forall v: u32 :: Member(e, v) <==> Member(n, v)
  }

  /** e' reads like n as far as both go, and like e behind n. */
  ghost predicate Overlaid(e: Entry, n: Entry, e': Entry)
    requires Readable(e) && Readable(n) && Readable(e')
  {
    && e'.cnt == e.cnt
    && forall i :: 0 <= i < e.cnt ==> ValueAt(e', i) == if i < n.cnt then ValueAt(n, i) else ValueAt(e, i)
  }

  lemma SameThenFresh(e: Entry, n: Entry, e': Entry)
    requires Readable(e) && Readable(n) && Readable(e') && Overlaid(e, n, e') && SameMembers(e', n)
    ensures NothingStale(e, n)
  {
    forall i | n.cnt <= i < e.cnt ensures Member(n, ValueAt(e, i)) {
      assert ValueAt(e', i) == ValueAt(e, i) && Member(e', ValueAt(e', i));
    }
    forall i | e.cnt <= i < n.cnt ensures Among(n, e.cnt, ValueAt(n, i)) {
      assert Member(n, ValueAt(n, i)) && Member(e', ValueAt(n, i));
      var j :| 0 <= j < e'.cnt && ValueAt(e', j) == ValueAt(n, i);
    }
  }

  lemma FreshThenSame(e: Entry, n: Entry, e': Entry, v: u32)
    requires Readable(e) && Readable(n) && Readable(e') && Overlaid(e, n, e') && NothingStale(e, n)
    ensures Member(e', v) <==> Member(n, v)
  {
    if Member(e', v) {
      var i :| 0 <= i < e'.cnt && ValueAt(e', i) == v;
      if i < n.cnt {
        assert ValueAt(n, i) == v;
      }
    }
    if Member(n, v) {
      var i :| 0 <= i < n.cnt && ValueAt(n, i) == v;
      if i < e.cnt {
        assert ValueAt(e', i) == v;
      } else {
        assert Among(n, e.cnt, ValueAt(n, i));
        var j :| 0 <= j < e.cnt && ValueAt(n, j) == v;
        assert ValueAt(e', j) == v;
      }
    }
  }

  /** Validation answers by the re-announcement exactly when nothing in the entry is stale. */
  lemma StaleExactly(e: Entry, a: Announcement)
    requires Readable(e) && a.size == e.size && Supported(a.size) && WellSized(a)
    ensures Readable(Update(e, a)) && Readable(Entry(a.size, a.cnt, a.data))
    ensures SameMembers(Update(e, a), Entry(a.size, a.cnt, a.data)) <==> NothingStale(e, Entry(a.size, a.cnt, a.data))
  {
    var n, e' := Entry(a.size, a.cnt, a.data), Update(e, a);
    UpdateSize(e, a);
    forall i | 0 <= i < e.cnt
      ensures ValueAt(e', i) == if i < n.cnt then ValueAt(n, i) else ValueAt(e, i)
    {
      Reannounced(e, a, i);
    }
    if SameMembers(e', n) {
      SameThenFresh(e, n, e');
    } else if NothingStale(e, n) {
      forall v: u32 ensures Member(e', v) <==> Member(n, v) {
        FreshThenSame(e, n, e', v);
      }
    }
  }

  /** After the values 1, 2 and 3 the announcement of 1 alone leaves 3 valid. */
  lemma StaleValue()
    ensures var m := Announce(EMPTY, Announcement(7, 1, 3, [1, 2, 3]));
      && Announce(m, Announcement(7, 1, 1, [1]))[7] == Entry(1, 3, [1, 2, 3])
      && Member(Announce(m, Announcement(7, 1, 1, [1]))[7], 3)
  {
    var e := Entry(1, 3, [1, 2, 3]);
    assert [1] + [1, 2, 3][1..] == [1, 2, 3];
    assert Update(e, Announcement(7, 1, 1, [1])) == e;
    assert ValueAt(e, 2) == 3;
  }

  // ----- The list -----

  class Node {
    const prev: Node?
    var code: int
    var entry: Entry

    constructor (code: int, entry: Entry, prev: Node?)
      ensures this.code == code && this.entry == entry && this.prev == prev
    {
      this.prev := prev;
      this.code, this.entry := code, entry;
    }
  }

  /** The nodes from n along prev. */
  ghost predicate Chain(n: Node?, nodes: seq<Node>) {
    if nodes == [] then n == null else n == nodes[0] && Chain(nodes[0].prev, nodes[1..])
  }

  class AvailList {
    /** The newest node; the first one has the code 0 until it is used. */
    var avail: Node
    ghost var nodes: seq<Node>
    ghost var repr: set<Node>
    ghost var view: map<int, Entry>

    ghost predicate Owned()
      reads this
    {
      forall i :: 0 <= i < |nodes| ==> nodes[i] in repr
    }

    ghost predicate DistinctCodes()
      requires Owned()
      reads this, repr
    {
      forall i, j :: 0 <= i < j < |nodes| ==> nodes[i].code != nodes[j].code
    }

    ghost predicate InView(n: Node)
      reads this, n
    {
      n.code in view && view[n.code] == n.entry
    }

    ghost predicate HasNode(code: int)
      requires Owned()
      reads this, repr
    {
      exists i :: 0 <= i < |nodes| && nodes[i].code == code
    }

    /** The nodes along prev, and the map they stand for: each code occurs once. */
    ghost predicate Valid()
      reads this, repr
    {
      && Owned() && nodes != [] && Chain(avail, nodes) && DistinctCodes()
      && (forall i :: 1 <= i < |nodes| ==> nodes[i].code != 0)
      && (forall i :: 0 <= i < |nodes| ==> InView(nodes[i]))
      && (forall c :: c in view ==> HasNode(c))
    }

    /** The list of a new runtime: one zeroed node. */
    constructor ()
      ensures Valid() && fresh(repr) && view == EMPTY
    {
      var first := new Node(0, Entry(0, 0, []), null);
      avail := first;
      nodes := [first];
      repr := {first};
      view := EMPTY;
    }

    /** Walks backwards from the newest node. */
    method Find(code: int) returns (n: Node?, ghost k: nat)
      requires Valid()
      ensures n == null <==> code !in view
      ensures n != null ==> k < |nodes| && nodes[k] == n && n.code == code && view[code] == n.entry
    {
      n := avail;
      k := 0;
      assert nodes[0..] == nodes;
      while n != null && n.code != code
        invariant k <= |nodes| && Chain(n, nodes[k..])
        invariant forall i :: 0 <= i < k ==> nodes[i].code != code
        decreases |nodes| - k
      {
        n := n.prev;
        assert nodes[k..][1..] == nodes[k + 1..];
        k := k + 1;
      }
      assert n != null ==> n == nodes[k] && InView(nodes[k]);
      assert code in view ==> HasNode(code);
    }

    /** The node n of the code is there already: only its memory changes. */
    method Refresh(n: Node, ghost k: nat, a: Announcement)
      requires Valid() && k < |nodes| && nodes[k] == n && n.code == a.code
      modifies n`entry, this`view
      ensures Valid() && a.code in old(view) && view == old(view)[a.code := Update(old(view)[a.code], a)]
    {
      assert InView(nodes[k]);
      var kept := if a.cnt > n.entry.cnt || |a.data| >= |n.entry.data| then [] else n.entry.data[|a.data|..];
      Overwrite(n, k, n.entry.(data := a.data + kept));
    }

    method Overwrite(n: Node, ghost k: nat, e: Entry)
      requires Valid() && k < |nodes| && nodes[k] == n
      modifies n`entry, this`view
      ensures Valid() && view == old(view)[n.code := e]
    {
      assert InView(nodes[k]);
      n.entry := e;
      view := view[n.code := e];
      forall i | 0 <= i < |nodes| ensures InView(nodes[i]) {
        assert i != k ==> nodes[i].code != n.code && old(InView(nodes[i]));
      }
      assert forall c :: c in view ==> old(HasNode(c));
    }

    /** The newest node has the code 0 and is taken over. */
    method Use(a: Announcement)
      requires Valid() && a.code !in view && avail.code == 0
      modifies this`view, avail
      ensures Valid() && 0 in old(view) && view == (old(view) - {0})[a.code := Entry(a.size, a.cnt, a.data)]
    {
      assert nodes[0] == avail && InView(nodes[0]);
      avail.code := a.code;
      avail.entry := Entry(a.size, a.cnt, a.data);
      view := (view - {0})[a.code := avail.entry];
      forall i | 0 <= i < |nodes| ensures InView(nodes[i]) {
        assert i > 0 ==> nodes[i].code != 0 && old(InView(nodes[i]));
      }
      forall c | c in view ensures HasNode(c) {
        if c == a.code {
          assert nodes[0].code == c;
        } else {
          assert old(HasNode(c));
        }
      }
    }

    /** A new newest node. */
    method Push(a: Announcement)
      requires Valid() && a.code !in view && avail.code != 0
      modifies this
      ensures Valid() && 0 !in old(view) && repr == old(repr) + {avail} && fresh(avail)
      ensures view == old(view)[a.code := Entry(a.size, a.cnt, a.data)]
    {
      InOrder();
      var fresher := new Node(a.code, Entry(a.size, a.cnt, a.data), avail);
      Append(fresher);
    }

    /** The node n becomes the newest. */
    method Append(n: Node)
      requires Valid() && n !in repr && n.prev == avail && n.code !in view && avail.code != 0
      modifies this
      ensures Valid() && avail == n && repr == old(repr) + {n} && view == old(view)[n.code := n.entry]
    {
      ghost var before, view0 := nodes, view;
      InOrder();
      nodes := [n] + nodes;
      repr := repr + {n};
      avail := n;
      view := view[n.code := n.entry];
      assert nodes[1..] == before;
      Pushed(before, view0);
    }

    /** What a list whose newest node is in use holds, node by node. */
    lemma InOrder()
      requires Valid() && avail.code != 0
      ensures 0 !in view && Chain(avail, nodes)
      ensures forall i :: 0 <= i < |nodes| ==>
        nodes[i] in repr && nodes[i].code in view && view[nodes[i].code] == nodes[i].entry && nodes[i].code != 0
      ensures forall i, j :: 0 <= i < j < |nodes| ==> nodes[i].code != nodes[j].code
      ensures forall c :: c in view ==> exists i :: 0 <= i < |nodes| && nodes[i].code == c
    {
      assert nodes[0] == avail && forall i :: 0 <= i < |nodes| ==> InView(nodes[i]);
      assert !HasNode(0) && forall c :: c in view ==> HasNode(c);
    }

    /** One more node in front, of a new code, keeps the list in order. */
    lemma Pushed(before: seq<Node>, view0: map<int, Entry>)
      requires Owned() && nodes != [] && nodes[0] == avail && nodes[1..] == before && Chain(avail.prev, before)
      requires forall i :: 0 <= i < |before| ==>
        before[i].code in view0 && view0[before[i].code] == before[i].entry && before[i].code != 0
      requires forall i, j :: 0 <= i < j < |before| ==> before[i].code != before[j].code
      requires avail.code !in view0 && view == view0[avail.code := avail.entry]
      requires forall c :: c in view0 ==> exists i :: 0 <= i < |before| && before[i].code == c
      ensures Valid()
    {
      assert forall i :: 1 <= i < |nodes| ==> nodes[i] == before[i - 1];
      assert forall i :: 0 <= i < |nodes| ==> InView(nodes[i]);
      forall i, j | 0 <= i < j < |nodes| ensures nodes[i].code != nodes[j].code {
        assert nodes[j] == before[j - 1];
      }
      forall c | c in view ensures HasNode(c) {
        if c != avail.code {
          var i :| 0 <= i < |before| && before[i].code == c;
          assert nodes[i + 1].code == c;
        } else {
          assert nodes[0].code == c;
        }
      }
    }

    /** ptp_set_prop_avail_info */
    method Set(a: Announcement)
      requires Valid() && WellSized(a) && HasRoom(view, a)
      modifies this, repr
      ensures Valid() && fresh(repr - old(repr))
      ensures view == Announce(old(view), a)
    {
      var n, k := Find(a.code);
      assert nodes[0] == avail;
      if n != null {
        Refresh(n, k, a);
      } else if avail.code == 0 {
        Use(a);
      } else {
        Push(a);
        assert old(view) - {0} == old(view);
      }
    }

    /** ptp_validate_property_value */
    method Validate(code: int, value: u32) returns (rc: int)
      requires Valid() && (code in view ==> Readable(view[code]))
      ensures rc == Answer(view, code, value)
    {
      var n, k := Find(code);
      if n == null {
        return 1;
      }
      var i := 0;
      while i < n.entry.cnt
        invariant i <= n.entry.cnt
        invariant forall j :: 0 <= j < i ==> ValueAt(n.entry, j) != value
      {
        if ValueAt(n.entry, i) == value {
          return 0;
        }
        i := i + 1;
      }
      return 2;
    }
  }

  /**
   Announcements, one after the other, and then a value to be set: validation says 1 for an
   unseen code, 0 for a member of the latest announcement and 2 for any other value.
   */
  method AnnounceThenValidate(h: seq<Announcement>, code: int, value: u32) returns (rc: int)
    requires Sensible(h) && code != 0
    ensures rc == ByLatest(h, code, value)
  {
    var list := new AvailList();
    for i := 0 to |h|
      invariant list.Valid() && fresh(list) && fresh(list.repr) && list.view == AfterAll(EMPTY, h, i)
    {
      SteadyHasRoom(h, i);
      list.Set(h[i]);
    }
    HistoryAnswered(h, code, value);
    rc := list.Validate(code, value);
  }
}
