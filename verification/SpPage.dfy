/** A slotted page as the bytes it is: a header of five integers, the slot directory after it,
    the records growing down from the end of the page (sptype.h, sp.c). */
module SpPage {
  import opened SpBytes
  import opened SpStore

  const SP_DELETED_LEN := -1

  datatype Slot = Slot(length: int, offset: int) {
    predicate Live() { length != SP_DELETED_LEN }
  }

  datatype Layout = Layout(count: int, free: int, total: int, slots: seq<Slot>)

  // ---- the layout in the bytes ----

  function SlotAt(p: seq<Byte>, i: nat): Slot { Slot(GetInt(p, Dir(i)), GetInt(p, Dir(i) + 4)) }

  ghost function NumSlots(p: seq<Byte>): nat { if GetInt(p, 0) < 0 then 0 else GetInt(p, 0) }

  ghost function Decode(p: seq<Byte>): Layout {
    Layout(GetInt(p, 4), GetInt(p, 8), GetInt(p, 12), seq(NumSlots(p), i requires i >= 0 => SlotAt(p, i)))
  }

  /** The bytes hold this layout. */
  ghost predicate Holds(p: seq<Byte>, l: Layout) {
    && |p| == PF_PAGE_SIZE && GetInt(p, 0) == |l.slots|
    && GetInt(p, 4) == l.count && GetInt(p, 8) == l.free && GetInt(p, 12) == l.total
    && forall i | 0 <= i < |l.slots| :: SlotAt(p, i) == l.slots[i]
  }

  lemma HoldsDecode(p: seq<Byte>, l: Layout)
    ensures Holds(p, l) ==> Decode(p) == l
    ensures |p| == PF_PAGE_SIZE && GetInt(p, 0) >= 0 ==> Holds(p, Decode(p))
  {
    if Holds(p, l) {
      assert Decode(p).slots == l.slots;
    }
  }

  // ---- what the layout keeps ----

  ghost function SlotSize(s: Slot): nat { if s.length < 0 then 0 else s.length }

  /** The bytes of the live records among the first k slots. */
  ghost function Bytes(slots: seq<Slot>, k: nat): nat
    requires k <= |slots|
  {
    if k == 0 then 0 else Bytes(slots, k - 1) + SlotSize(slots[k - 1])
  }

  ghost function LiveSlots(slots: seq<Slot>, k: nat): nat
    requires k <= |slots|
  {
    if k == 0 then 0 else LiveSlots(slots, k - 1) + (if slots[k - 1].Live() then 1 else 0)
  }

  ghost predicate SlotOk(s: Slot, free: int) {
    s.Live() ==> 0 <= s.length && free <= s.offset && s.offset + s.length <= PF_PAGE_SIZE
  }

  /** Records lie below those of earlier slots: no two overlap. */
  ghost predicate Stacked(slots: seq<Slot>) {
    forall i, j | 0 <= i < j < |slots| && slots[i].Live() && slots[j].Live() ::
      slots[j].offset + slots[j].length <= slots[i].offset
  }

  /** The slots say where the records are. */
  ghost predicate SlotsOk(l: Layout) {
    && Dir(|l.slots|) <= l.free <= PF_PAGE_SIZE && Stacked(l.slots)
    && forall i | 0 <= i < |l.slots| :: SlotOk(l.slots[i], l.free)
  }

  /** And the header counts them and the free bytes. */
  ghost predicate LayoutOk(l: Layout) {
    && SlotsOk(l)
    && l.count == LiveSlots(l.slots, |l.slots|)
    && l.total == PF_PAGE_SIZE - Dir(|l.slots|) - Bytes(l.slots, |l.slots|)
  }

  ghost predicate PageOk(p: seq<Byte>) {
    |p| == PF_PAGE_SIZE && GetInt(p, 0) >= 0 && LayoutOk(Decode(p)) && SpaceOk(View(p))
  }

  // ---- the records ----

  ghost function RecOf(p: seq<Byte>, s: Slot): Option<Rec> {
    if s.Live() && 0 <= s.length && 0 <= s.offset && s.offset + s.length <= |p|
    then Some(p[s.offset..s.offset + s.length]) else None
  }

  ghost function Records(p: seq<Byte>, slots: seq<Slot>): seq<Option<Rec>> {
    seq(|slots|, i requires 0 <= i < |slots| => RecOf(p, slots[i]))
  }

  /** The page as the store sees it. */
  ghost function View(p: seq<Byte>): Pg { Pg(Records(p, Decode(p).slots), Decode(p).free) }

  lemma {:induction false} UsedBytes(p: seq<Byte>, slots: seq<Slot>, free: int, k: nat)
    requires k <= |slots| && |p| == PF_PAGE_SIZE && free >= 0
    requires forall i | 0 <= i < |slots| :: SlotOk(slots[i], free)
    ensures Used(Records(p, slots)[..k]) == Bytes(slots, k)
  {
    if k > 0 {
      UsedBytes(p, slots, free, k - 1);
      var recs := Records(p, slots)[..k];
      assert recs[..k - 1] == Records(p, slots)[..k - 1];
      assert SizeOf(recs[k - 1]) == SlotSize(slots[k - 1]);
    }
  }

  lemma SlotsFirst(l: Layout)
    requires LayoutOk(l)
    ensures SlotsOk(l) && l.count == LiveSlots(l.slots, |l.slots|)
  {
  }

  lemma UsedAll(p: seq<Byte>, l: Layout)
    requires Holds(p, l) && SlotsOk(l)
    ensures Used(View(p).recs) == Bytes(l.slots, |l.slots|) && View(p) == Pg(Records(p, l.slots), l.free)
    ensures LayoutOk(l) ==> Total(View(p)) == l.total
    ensures Gap(View(p)) == l.free - Dir(|l.slots|)
  {
    HoldsDecode(p, l);
    UsedBytes(p, l.slots, l.free, |l.slots|);
    assert Records(p, l.slots)[..|l.slots|] == Records(p, l.slots);
  }

  // ---- writing the directory and the header ----

  method SetSlot(buf: array<Byte>, i: nat, s: Slot)
    requires buf.Length == PF_PAGE_SIZE && Dir(i + 1) <= PF_PAGE_SIZE && IsInt(s.length) && IsInt(s.offset)
    modifies buf
    ensures SlotAt(buf[..], i) == s
    ensures forall j: nat | j != i :: SlotAt(buf[..], j) == SlotAt(old(buf[..]), j)
    ensures forall o: nat | o < SP_HEADER - 3 :: GetInt(buf[..], o) == GetInt(old(buf[..]), o)
    ensures forall k | Dir(i + 1) <= k < PF_PAGE_SIZE :: buf[k] == old(buf[k])
  {
    PutInt(buf, Dir(i), s.length);
    PutInt(buf, Dir(i) + 4, s.offset);
  }

  method PutRecord(buf: array<Byte>, off: nat, r: Rec)
    requires off + |r| <= buf.Length
    modifies buf
    ensures buf[off..off + |r|] == r
    ensures forall k | 0 <= k < buf.Length && !(off <= k < off + |r|) :: buf[k] == old(buf[k])
    ensures forall i: nat | i + 4 <= off :: GetInt(buf[..], i) == GetInt(old(buf[..]), i)
  {
    forall k | 0 <= k < |r| { buf[off + k] := r[k]; }
  }

  method SetHeader(buf: array<Byte>, n: int, count: int, free: int, total: int)
    requires buf.Length == PF_PAGE_SIZE && IsInt(n) && IsInt(count) && IsInt(free) && IsInt(total)
    modifies buf
    ensures GetInt(buf[..], 0) == n && GetInt(buf[..], 4) == count && GetInt(buf[..], 8) == free
    ensures GetInt(buf[..], 12) == total
    ensures forall j: nat :: SlotAt(buf[..], j) == SlotAt(old(buf[..]), j)
    ensures forall k | SP_HEADER <= k < PF_PAGE_SIZE :: buf[k] == old(buf[k])
  {
    PutInt(buf, 8, free);
    PutInt(buf, 0, n);
    PutInt(buf, 4, count);
    PutInt(buf, 12, total);
  }

  /** SP_InitNewPage */
  method InitNewPage(buf: array<Byte>)
    requires buf.Length == PF_PAGE_SIZE
    modifies buf
    ensures PageOk(buf[..]) && View(buf[..]) == NEW_PAGE
  {
    SetHeader(buf, 0, 0, PF_PAGE_SIZE, PF_PAGE_SIZE - SP_HEADER);
    PutInt(buf, 16, 0);
    HoldsDecode(buf[..], Layout(0, PF_PAGE_SIZE, PF_PAGE_SIZE - SP_HEADER, []));
  }

  // ---- adding a record ----

  ghost function Grown(l: Layout, len: nat): Layout {
    Layout(l.count + 1, l.free - len, l.total - len - SP_SLOT, l.slots + [Slot(len, l.free - len)])
  }

  lemma {:induction false} BytesPrefix(slots: seq<Slot>, more: seq<Slot>, k: nat)
    requires k <= |slots| && k <= |more| && forall i | 0 <= i < k :: slots[i].length == more[i].length
    ensures Bytes(slots, k) == Bytes(more, k) && LiveSlots(slots, k) == LiveSlots(more, k)
  {
    if k > 0 { BytesPrefix(slots, more, k - 1); }
  }

  lemma GrownOk(l: Layout, len: nat)
    requires LayoutOk(l) && l.free - Dir(|l.slots|) >= len + SP_SLOT
    ensures LayoutOk(Grown(l, len))
  {
    var more := Grown(l, len).slots;
    BytesPrefix(l.slots, more, |l.slots|);
    forall i | 0 <= i < |more| ensures SlotOk(more[i], l.free - len) {
      assert i < |l.slots| ==> more[i] == l.slots[i];
    }
  }

  lemma RecordsGrown(p: seq<Byte>, q: seq<Byte>, l: Layout, r: Rec)
    requires |p| == |q| == PF_PAGE_SIZE && LayoutOk(l) && Dir(|l.slots|) + |r| <= l.free && q[l.free - |r|..l.free] == r
    requires forall k | l.free <= k < PF_PAGE_SIZE :: q[k] == p[k]
    ensures Records(q, Grown(l, |r|).slots) == Records(p, l.slots) + [Some(r)]
  {
    hide Stacked, LiveSlots, Bytes, RecOf;
    var l1 := Grown(l, |r|);
    forall i | 0 <= i < |l.slots| ensures RecOf(q, l1.slots[i]) == RecOf(p, l.slots[i]) {
      SameRec(p, q, l.slots[i], l.free);
    }
    NewRec(q, l.free - |r|, r);
  }

  lemma NewRec(q: seq<Byte>, off: nat, r: Rec)
    requires off + |r| <= |q| && q[off..off + |r|] == r
    ensures RecOf(q, Slot(|r|, off)) == Some(r)
  {
  }

  lemma RecordAdded(p: seq<Byte>, q: seq<Byte>, l: Layout, r: Rec)
    requires Holds(p, l) && LayoutOk(l) && SpaceOk(View(p)) && HasRoom(View(p), r)
    requires Holds(q, Grown(l, |r|)) && Dir(|l.slots|) + |r| <= l.free && q[l.free - |r|..l.free] == r
    requires forall k | l.free <= k < PF_PAGE_SIZE :: q[k] == p[k]
    ensures PageOk(q) && View(q) == Added(View(p), r)
  {
    hide LayoutOk, SlotsOk, Records, View, Used, Bytes, SpaceOk;
    var l1 := Grown(l, |r|);
    SlotsFirst(l);
    UsedAll(p, l);
    GrownOk(l, |r|);
    SlotsFirst(l1);
    UsedAll(q, l1);
    RecordsGrown(p, q, l, r);
    AddedDead(View(p), r);
    PageIs(q, l1);
  }

  lemma PageIs(p: seq<Byte>, l: Layout)
    requires Holds(p, l) && LayoutOk(l) && SpaceOk(View(p))
    ensures PageOk(p)
  {
    HoldsDecode(p, l);
  }

  /** What the integers of a page can be. */
  lemma PageHas(p: seq<Byte>)
    requires PageOk(p)
    ensures var l := Decode(p);
            && Holds(p, l) && LayoutOk(l) && SpaceOk(View(p))
            && |l.slots| == GetInt(p, 0) == |View(p).recs| && View(p).free == l.free
            && 0 <= l.count <= |l.slots| && Dir(|l.slots|) <= l.free <= PF_PAGE_SIZE
            && 0 <= l.free - Dir(|l.slots|) <= l.total <= PF_PAGE_SIZE + PF_PAGE_SIZE / 2 && l.total == Total(View(p))
  {
    var l := Decode(p);
    HoldsDecode(p, l);
    UsedAll(p, l);
    LiveBound(l.slots, |l.slots|);
  }

  /** The bytes of a live record are its own: not the directory's, and no other live record's. */
  lemma NoOverlap(p: seq<Byte>, i: nat, j: nat, k: int)
    requires PageOk(p) && i < GetInt(p, 0) && SlotAt(p, i).Live() && j < GetInt(p, 0) && SlotAt(p, j).Live() && i != j
    requires SlotAt(p, i).offset <= k < SlotAt(p, i).offset + SlotAt(p, i).length
    ensures Dir(GetInt(p, 0)) <= GetInt(p, 8) <= k < PF_PAGE_SIZE
    ensures !(SlotAt(p, j).offset <= k < SlotAt(p, j).offset + SlotAt(p, j).length)
  {
    PageHas(p);
    var slots := Decode(p).slots;
    assert SlotOk(slots[i], Decode(p).free) && slots[i] == SlotAt(p, i) && slots[j] == SlotAt(p, j);
  }

  lemma {:induction false} LiveBound(slots: seq<Slot>, k: nat)
    requires k <= |slots|
    ensures LiveSlots(slots, k) <= k
    ensures forall i | 0 <= i < k && slots[i].Live() :: LiveSlots(slots, k) > 0
  {
    if k > 0 { LiveBound(slots, k - 1); }
  }

  lemma SameRec(p: seq<Byte>, q: seq<Byte>, s: Slot, free: int)
    requires |p| == |q| == PF_PAGE_SIZE && SlotOk(s, free) && free >= 0
    requires forall k | free <= k < PF_PAGE_SIZE :: q[k] == p[k]
    ensures RecOf(q, s) == RecOf(p, s)
  {
    if s.Live() { assert p[s.offset..s.offset + s.length] == q[s.offset..s.offset + s.length]; }
  }

  /** The third phase of SP_InsertRec, on the fixed page. */
  method AddRecord(buf: array<Byte>, r: Rec) returns (slot: nat)
    requires buf.Length == PF_PAGE_SIZE && PageOk(buf[..]) && HasRoom(View(buf[..]), r)
    modifies buf
    ensures slot == |old(View(buf[..])).recs|
    ensures PageOk(buf[..]) && View(buf[..]) == Added(old(View(buf[..])), r)
  {
    hide View, LayoutOk, PageOk, SpaceOk, Added, GetInt;
    ghost var p, l := buf[..], Decode(buf[..]);
    PageHas(p);
    var n, count, free, total := GetInt(buf[..], 0), GetInt(buf[..], 4), GetInt(buf[..], 8), GetInt(buf[..], 12);
    var off := free - |r|;
    PutRecord(buf, off, r);
    SetSlot(buf, n, Slot(|r|, off));
    SetHeader(buf, n + 1, count + 1, off, total - (|r| + SP_SLOT));
    RecordAdded(p, buf[..], l, r);
    slot := n;
  }

  // ---- compaction ----

  /** The records packed against the end of the page, in slot order. */
  ghost function NewOffset(slots: seq<Slot>, j: nat): int
    requires j < |slots|
  {
    PF_PAGE_SIZE - Bytes(slots, j + 1)
  }

  ghost function Packed(slots: seq<Slot>): seq<Slot> {
    seq(|slots|, j requires 0 <= j < |slots| =>
      if slots[j].Live() then Slot(slots[j].length, NewOffset(slots, j)) else slots[j])
  }

  ghost function PackedLayout(l: Layout): Layout {
    var free := PF_PAGE_SIZE - Bytes(l.slots, |l.slots|);
    Layout(l.count, free, free - Dir(|l.slots|), Packed(l.slots))
  }

  lemma {:induction false} BytesMono(slots: seq<Slot>, j: nat, k: nat)
    requires j <= k <= |slots|
    ensures Bytes(slots, j) <= Bytes(slots, k)
  {
    if j < k { BytesMono(slots, j, k - 1); }
  }

  /** Records that are stacked take no more than the bytes from the lowest of them up. */
  lemma {:induction false} BytesFit(slots: seq<Slot>, k: nat, b: int)
    requires k <= |slots| && Stacked(slots) && b <= PF_PAGE_SIZE
    requires forall i | 0 <= i < k :: SlotOk(slots[i], b)
    ensures Bytes(slots, k) <= PF_PAGE_SIZE - b
  {
    if k > 0 {
      if slots[k - 1].Live() {
        var s := slots[k - 1];
        forall i | 0 <= i < k - 1 ensures SlotOk(slots[i], s.offset + s.length) { }
        BytesFit(slots, k - 1, s.offset + s.length);
      } else {
        BytesFit(slots, k - 1, b);
      }
    }
  }

  /** Compaction keeps the slots in order, and mends every header field but the count. */
  lemma PackedOk(l: Layout)
    requires SlotsOk(l)
    ensures SlotsOk(PackedLayout(l)) && l.free <= PackedLayout(l).free <= PF_PAGE_SIZE
    ensures LayoutOk(PackedLayout(l)) <==> l.count == LiveSlots(l.slots, |l.slots|)
  {
    var n, packed, free := |l.slots|, Packed(l.slots), PF_PAGE_SIZE - Bytes(l.slots, |l.slots|);
    BytesFit(l.slots, n, l.free);
    PackedStacked(l);
    PackedLive(l.slots, n);
    forall i | 0 <= i < n ensures SlotOk(packed[i], free) { BytesMono(l.slots, i + 1, n); }
  }

  lemma PackedStacked(l: Layout)
    requires SlotsOk(l)
    ensures Stacked(Packed(l.slots))
  {
    var packed := Packed(l.slots);
    forall i, j | 0 <= i < j < |packed| && packed[i].Live() && packed[j].Live()
      ensures packed[j].offset + packed[j].length <= packed[i].offset
    {
      BytesMono(l.slots, i + 1, j);
    }
  }

  lemma {:induction false} PackedLive(slots: seq<Slot>, k: nat)
    requires k <= |slots|
    ensures LiveSlots(Packed(slots), k) == LiveSlots(slots, k) && Bytes(Packed(slots), k) == Bytes(slots, k)
  {
    if k > 0 { PackedLive(slots, k - 1); }
  }

  /** The records of the first k slots have reached their new places. */
  ghost predicate Moved(t: seq<Byte>, p: seq<Byte>, slots: seq<Slot>, k: nat)
    requires k <= |slots|
  {
    forall j | 0 <= j < k && slots[j].Live() :: MovedRec(t, p, slots, j)
  }

  ghost predicate MovedRec(t: seq<Byte>, p: seq<Byte>, slots: seq<Slot>, j: nat)
    requires j < |slots|
  {
    RecOf(t, Slot(slots[j].length, NewOffset(slots, j))) == RecOf(p, slots[j])
  }

  lemma PackedAbove(l: Layout, j: nat, i: nat)
    requires SlotsOk(l) && j < i <= |l.slots|
    ensures l.free <= PF_PAGE_SIZE - Bytes(l.slots, i)
    ensures SlotOk(Slot(l.slots[j].length, NewOffset(l.slots, j)), PF_PAGE_SIZE - Bytes(l.slots, i))
  {
    BytesFit(l.slots, |l.slots|, l.free);
    BytesMono(l.slots, i, |l.slots|);
    BytesMono(l.slots, j + 1, i);
    assert SlotOk(l.slots[j], l.free);
  }

  lemma MovedMore(t: seq<Byte>, t1: seq<Byte>, p: seq<Byte>, l: Layout, i: nat)
    requires |t| == |t1| == |p| == PF_PAGE_SIZE && SlotsOk(l) && i < |l.slots| && Moved(t, p, l.slots, i)
    requires forall k | PF_PAGE_SIZE - Bytes(l.slots, i) <= k < PF_PAGE_SIZE && k >= 0 :: t1[k] == t[k]
    requires l.slots[i].Live() ==> MovedRec(t1, p, l.slots, i)
    ensures Moved(t1, p, l.slots, i + 1)
  {
    hide SlotsOk, RecOf, Bytes, SlotOk;
    forall j | 0 <= j < i && l.slots[j].Live() ensures MovedRec(t1, p, l.slots, j) {
      assert MovedRec(t, p, l.slots, j);
      PackedAbove(l, j, i);
      FreeBound(l);
      SameRec(t, t1, Slot(l.slots[j].length, NewOffset(l.slots, j)), PF_PAGE_SIZE - Bytes(l.slots, i));
    }
  }

  lemma FreeBound(l: Layout)
    requires SlotsOk(l)
    ensures 0 < Dir(|l.slots|) <= l.free <= PF_PAGE_SIZE
  {
  }

  lemma SameMoved(t: seq<Byte>, t1: seq<Byte>, p: seq<Byte>, l: Layout)
    requires |t| == |t1| == |p| == PF_PAGE_SIZE && SlotsOk(l) && Moved(t, p, l.slots, |l.slots|)
    requires forall k | l.free <= k < PF_PAGE_SIZE :: t1[k] == t[k]
    ensures Records(t1, Packed(l.slots)) == Records(p, l.slots)
  {
    var slots := l.slots;
    PackedOk(l);
    forall j | 0 <= j < |slots| ensures RecOf(t1, Packed(slots)[j]) == RecOf(p, slots[j]) {
      if slots[j].Live() {
        assert MovedRec(t, p, slots, j);
        assert SlotOk(Packed(slots)[j], PackedLayout(l).free);
        SameRec(t, t1, Packed(slots)[j], l.free);
      }
    }
  }

  /** One live record goes to its new place in the temporary page, and its slot in the page follows. */
  method MoveRecord(buf: array<Byte>, temp: array<Byte>, i: nat, s: Slot, free: int, ghost p: seq<Byte>,
          ghost l: Layout)
    requires buf != temp && buf.Length == temp.Length == |p| == PF_PAGE_SIZE && Holds(p, l) && SlotsOk(l)
    requires i < |l.slots|
    requires s == l.slots[i] && s.Live() && free == PF_PAGE_SIZE - Bytes(l.slots, i + 1)
    requires forall k | l.free <= k < PF_PAGE_SIZE :: buf[k] == p[k]
    requires Moved(temp[..], p, l.slots, i)
    modifies buf, temp
    ensures Moved(temp[..], p, l.slots, i + 1)
    ensures SlotAt(buf[..], i) == Slot(s.length, free)
    ensures forall j: nat | j != i :: SlotAt(buf[..], j) == SlotAt(old(buf[..]), j)
    ensures forall o: nat | o < SP_HEADER - 3 :: GetInt(buf[..], o) == GetInt(old(buf[..]), o)
    ensures forall k | l.free <= k < PF_PAGE_SIZE :: buf[k] == p[k]
  {
    hide GetInt, Moved, Stacked, SlotAt, LiveSlots;
    assert SlotOk(s, l.free);
    PackedAbove(l, i, i + 1);
    PutRecord(temp, free, buf[s.offset..s.offset + s.length]);
    SetSlot(buf, i, Slot(s.length, free));
    NewRec(temp[..], free, p[s.offset..s.offset + s.length]);
    MovedMore(old(temp[..]), temp[..], p, l, i);
  }

  /** The loop of SP_CompactPage over the slots. */
  method MoveRecords(buf: array<Byte>, temp: array<Byte>, n: int, ghost p: seq<Byte>, ghost l: Layout)
          returns (newFree: int)
    requires buf != temp && buf.Length == temp.Length == PF_PAGE_SIZE && buf[..] == p
    requires Holds(p, l) && SlotsOk(l) && n == |l.slots|
    modifies buf, temp
    ensures newFree == PF_PAGE_SIZE - Bytes(l.slots, n) && Moved(temp[..], p, l.slots, n)
    ensures forall j | 0 <= j < n :: SlotAt(buf[..], j) == Packed(l.slots)[j]
    ensures forall o: nat | o < SP_HEADER - 3 :: GetInt(buf[..], o) == GetInt(p, o)
  {
    hide GetInt, SlotsOk, Stacked, LiveSlots, MovedRec;
    newFree := PF_PAGE_SIZE;
    var i := 0;
    while i < n
      invariant 0 <= i <= n && newFree == PF_PAGE_SIZE - Bytes(l.slots, i)
      invariant Moved(temp[..], p, l.slots, i)
      invariant forall j | 0 <= j < n :: SlotAt(buf[..], j) == if j < i then Packed(l.slots)[j] else l.slots[j]
      invariant forall o: nat | o < SP_HEADER - 3 :: GetInt(buf[..], o) == GetInt(p, o)
      invariant forall k | l.free <= k < PF_PAGE_SIZE && k >= 0 :: buf[k] == p[k]
    {
      var s := SlotAt(buf[..], i);
      if s.Live() {
        LiveLength(l, i);
        newFree := newFree - s.length;
        MoveRecord(buf, temp, i, s, newFree, p, l);
      } else {
        DeadLength(l, i);
        MovedMore(temp[..], temp[..], p, l, i);
      }
      i := i + 1;
    }
  }

  lemma LiveLength(l: Layout, i: nat)
    requires SlotsOk(l) && i < |l.slots| && l.slots[i].Live()
    ensures l.slots[i].length >= 0 && 0 <= l.free <= l.slots[i].offset
    ensures l.slots[i].offset + l.slots[i].length <= PF_PAGE_SIZE
  {
    assert SlotOk(l.slots[i], l.free);
  }

  lemma DeadLength(l: Layout, i: nat)
    requires SlotsOk(l) && i < |l.slots| && !l.slots[i].Live()
    ensures SlotSize(l.slots[i]) == 0 && l.free >= 0
  {
  }

  /** The directory goes to the temporary page, and the temporary page over the page. */
  method CopyBack(buf: array<Byte>, temp: array<Byte>, n: nat)
    requires buf != temp && buf.Length == temp.Length == PF_PAGE_SIZE && Dir(n) <= PF_PAGE_SIZE
    modifies buf, temp
    ensures forall k | Dir(n) <= k < PF_PAGE_SIZE :: buf[k] == old(temp[k])
    ensures forall j | 0 <= j < n :: SlotAt(buf[..], j) == SlotAt(old(buf[..]), j)
    ensures forall o: nat | o < SP_HEADER - 3 :: GetInt(buf[..], o) == GetInt(old(buf[..]), o)
  {
    forall k | 0 <= k < Dir(n) { temp[k] := buf[k]; }
    forall k | 0 <= k < PF_PAGE_SIZE { buf[k] := temp[k]; }
  }

  lemma PageSize(p: seq<Byte>, l: Layout)
    requires Holds(p, l)
    ensures |p| == PF_PAGE_SIZE
  {
  }

  lemma PackedView(p: seq<Byte>, q: seq<Byte>, t: seq<Byte>, l: Layout)
    requires Holds(p, l) && SlotsOk(l) && Holds(q, PackedLayout(l)) && |t| == PF_PAGE_SIZE
    requires Moved(t, p, l.slots, |l.slots|)
    requires forall k | l.free <= k < PF_PAGE_SIZE && k >= 0 :: q[k] == t[k]
    ensures View(q) == Compacted(View(p))
  {
    hide SlotsOk, LayoutOk, Records, Used, Bytes, Moved, View, Packed, Holds;
    PackedOk(l);
    FreeBound(l);
    UsedAll(p, l);
    UsedAll(q, PackedLayout(l));
    PageSize(p, l);
    PageSize(q, PackedLayout(l));
    SameMoved(t, q, p, l);
  }

  /** SP_CompactPage: the same records, and no dead bytes. */
  method CompactPage(buf: array<Byte>)
    requires buf.Length == PF_PAGE_SIZE && GetInt(buf[..], 0) >= 0 && SlotsOk(Decode(buf[..]))
    modifies buf
    ensures Holds(buf[..], PackedLayout(old(Decode(buf[..]))))
    ensures View(buf[..]) == Compacted(old(View(buf[..])))
  {
    hide GetInt, SlotsOk, Moved, View;
    ghost var p, l := buf[..], Decode(buf[..]);
    HoldsDecode(p, l);
    FreeBound(l);
    PackedOk(l);
    FreeBound(PackedLayout(l));
    var temp := new Byte[PF_PAGE_SIZE];
    var n := GetInt(buf[..], 0);
    var newFree := MoveRecords(buf, temp, n, p, l);
    ghost var t := temp[..];
    CopyBack(buf, temp, n);
    PutInt(buf, 8, newFree);
    PutInt(buf, 12, newFree - Dir(n));
    PackedView(p, buf[..], t, l);
  }

  // ---- deleting a record ----

  ghost function Shrunk(l: Layout, i: nat): Layout
    requires i < |l.slots|
  {
    var s := l.slots[i];
    Layout(l.count - 1, l.free, l.total + s.length, l.slots[i := Slot(SP_DELETED_LEN, s.offset)])
  }

  lemma {:induction false} ShrunkSums(l: Layout, i: nat, k: nat)
    requires i < |l.slots| && l.slots[i].length >= 0 && k <= |l.slots|
    ensures Bytes(Shrunk(l, i).slots, k) == Bytes(l.slots, k) - if i < k then l.slots[i].length else 0
    ensures LiveSlots(Shrunk(l, i).slots, k) == LiveSlots(l.slots, k) - if i < k then 1 else 0
  {
    if k > 0 { ShrunkSums(l, i, k - 1); }
  }

  lemma ShrunkOk(l: Layout, i: nat)
    requires LayoutOk(l) && i < |l.slots| && l.slots[i].Live()
    ensures LayoutOk(Shrunk(l, i))
  {
    assert SlotOk(l.slots[i], l.free);
    ShrunkSums(l, i, |l.slots|);
  }

  lemma RecordsShrunk(p: seq<Byte>, q: seq<Byte>, l: Layout, i: nat)
    requires |p| == |q| == PF_PAGE_SIZE && LayoutOk(l) && i < |l.slots|
    requires forall k | l.free <= k < PF_PAGE_SIZE && k >= 0 :: q[k] == p[k]
    ensures Records(q, Shrunk(l, i).slots) == Records(p, l.slots)[i := None]
  {
    hide Stacked, LiveSlots, Bytes, RecOf;
    forall j | 0 <= j < |l.slots| && j != i ensures RecOf(q, l.slots[j]) == RecOf(p, l.slots[j]) {
      SameRec(p, q, l.slots[j], l.free);
    }
    DeadRec(q, Slot(SP_DELETED_LEN, l.slots[i].offset));
  }

  lemma DeadRec(p: seq<Byte>, s: Slot)
    requires !s.Live()
    ensures RecOf(p, s) == None
  {
  }

  lemma LiveRec(p: seq<Byte>, l: Layout, i: nat)
    requires Holds(p, l) && LayoutOk(l) && i < |l.slots|
    ensures |View(p).recs| == |l.slots|
    ensures var s := l.slots[i];
            View(p).recs[i] == if s.Live() then Some(p[s.offset..s.offset + s.length]) else None
  {
    HoldsDecode(p, l);
    assert SlotOk(l.slots[i], l.free);
  }

  lemma RecordDropped(p: seq<Byte>, q: seq<Byte>, l: Layout, i: nat)
    requires Holds(p, l) && LayoutOk(l) && SpaceOk(View(p)) && i < |l.slots| && l.slots[i].Live()
    requires Holds(q, Shrunk(l, i)) && forall k | l.free <= k < PF_PAGE_SIZE && k >= 0 :: q[k] == p[k]
    ensures LayoutOk(Shrunk(l, i)) && i < |View(p).recs| && View(p).recs[i].Some?
    ensures View(q) == Pg(View(p).recs[i := None], View(p).free) && Total(View(q)) == Shrunk(l, i).total
    ensures Gap(View(q)) == Gap(View(p))
  {
    hide LayoutOk, SlotsOk, Records, Used, Bytes, View, Holds;
    PageSize(p, l);
    PageSize(q, Shrunk(l, i));
    SlotsFirst(l);
    UsedAll(p, l);
    LiveRec(p, l, i);
    ShrunkOk(l, i);
    SlotsFirst(Shrunk(l, i));
    UsedAll(q, Shrunk(l, i));
    RecordsShrunk(p, q, l, i);
  }

  /** The bytes q are p with slot i marked as deleted and the header adjusted. */
  ghost predicate Marked(p: seq<Byte>, q: seq<Byte>, i: nat) {
    && |p| == |q| == PF_PAGE_SIZE
    && GetInt(q, 0) == GetInt(p, 0) && GetInt(q, 4) == GetInt(p, 4) - 1 && GetInt(q, 8) == GetInt(p, 8)
    && GetInt(q, 12) == GetInt(p, 12) + SlotAt(p, i).length
    && SlotAt(q, i) == Slot(SP_DELETED_LEN, SlotAt(p, i).offset)
    && (forall j: nat | j != i :: SlotAt(q, j) == SlotAt(p, j))
    && forall k | SP_HEADER <= k < PF_PAGE_SIZE && !(Dir(i) <= k < Dir(i) + 4) :: q[k] == p[k]
  }

  /** The part of SP_DeleteRec before the compaction, for any slot number whose slot lies in the page:
      over says whether the page is then to be compacted. */
  method MarkDeleted(buf: array<Byte>, i: nat) returns (over: bool)
    requires buf.Length == PF_PAGE_SIZE && Dir(i + 1) <= PF_PAGE_SIZE
    requires var p := buf[..];
             SlotAt(p, i).Live() ==> IsInt(GetInt(p, 4) - 1) && IsInt(GetInt(p, 12) + SlotAt(p, i).length)
    modifies buf
    ensures var p := old(buf[..]);
            if SlotAt(p, i).Live()
            then Marked(p, buf[..], i) && (over <==> GetInt(p, 12) + SlotAt(p, i).length > PF_PAGE_SIZE / 2)
            else buf[..] == p && !over
  {
    hide GetInt;
    var count, total, length := GetInt(buf[..], 4), GetInt(buf[..], 12), GetInt(buf[..], Dir(i));
    over := false;
    if length != SP_DELETED_LEN {
      PutInt(buf, Dir(i), SP_DELETED_LEN);
      PutInt(buf, 4, count - 1);
      PutInt(buf, 12, total + length);
      over := total + length > PF_PAGE_SIZE / 2;
    }
  }

  lemma MarkedHolds(p: seq<Byte>, q: seq<Byte>, i: nat)
    requires Holds(p, Decode(p)) && i < |Decode(p).slots| && Marked(p, q, i)
    ensures Holds(q, Shrunk(Decode(p), i)) && Decode(q) == Shrunk(Decode(p), i)
  {
    hide GetInt;
    HoldsDecode(q, Shrunk(Decode(p), i));
  }

  lemma MarkedAbove(p: seq<Byte>, q: seq<Byte>, i: nat, free: int)
    requires Marked(p, q, i) && Dir(i + 1) <= free
    ensures forall k | free <= k < PF_PAGE_SIZE && k >= 0 :: q[k] == p[k]
  {
  }

  /** A slot that the page has handed out: what is left is the page to keep or to compact. */
  lemma MarkedIssued(p: seq<Byte>, q: seq<Byte>, i: nat)
    requires PageOk(p) && i < |View(p).recs| && SlotAt(p, i).Live() && Marked(p, q, i)
    ensures GetInt(q, 0) >= 0 && LayoutOk(Decode(q)) && SpaceOk(Removed(View(p), i))
    ensures if GetInt(p, 12) + SlotAt(p, i).length > PF_PAGE_SIZE / 2 then Removed(View(p), i) == Compacted(View(q))
            else PageOk(q) && View(q) == Removed(View(p), i)
  {
    hide View, LayoutOk, SlotsOk, SpaceOk, Used, GetInt, PageOk, Marked, Records;
    var l := Decode(p);
    PageHas(p);
    MarkedHolds(p, q, i);
    MarkedAbove(p, q, i, l.free);
    RecordDropped(p, q, l, i);
    RemovedDead(View(p), i);
    if l.total + l.slots[i].length <= PF_PAGE_SIZE / 2 {
      PageIs(q, Shrunk(l, i));
    }
  }

  /** A slot that the page has not handed out: the slots stay, but the count is one short, and
      compaction does not mend it. */
  lemma MarkedBeyond(p: seq<Byte>, q: seq<Byte>, i: nat)
    requires PageOk(p) && |View(p).recs| <= i && Marked(p, q, i)
    ensures !PageOk(q) && GetInt(q, 0) >= 0 && SlotsOk(Decode(q)) && !LayoutOk(PackedLayout(Decode(q)))
  {
    hide GetInt, SpaceOk, View, SlotsOk, LayoutOk;
    PageHas(p);
    var l, m := Decode(p), Decode(q);
    assert m == Layout(l.count - 1, l.free, m.total, l.slots);
    SlotsFirst(l);
    SlotsSame(l, m);
    PackedOk(m);
    NotPage(q);
  }

  lemma SlotsSame(l: Layout, m: Layout)
    requires SlotsOk(l) && m.free == l.free && m.slots == l.slots
    ensures SlotsOk(m)
  {
  }

  /** A page whose count is wrong is not in order. */
  lemma NotPage(p: seq<Byte>)
    requires Decode(p).count != LiveSlots(Decode(p).slots, |Decode(p).slots|)
    ensures !PageOk(p)
  {
  }

  lemma NotPacked(p: seq<Byte>, l: Layout)
    requires Holds(p, l) && !LayoutOk(l)
    ensures !PageOk(p)
  {
    HoldsDecode(p, l);
  }

  /** SP_DeleteRec on the fixed page. For a slot that the page has not handed out it does nothing if
      the bytes there read as deleted, and otherwise the page is no longer in order. */
  method RemoveRecord(buf: array<Byte>, i: nat)
    requires buf.Length == PF_PAGE_SIZE && PageOk(buf[..]) && Dir(i + 1) <= PF_PAGE_SIZE
    requires var p := buf[..]; SlotAt(p, i).Live() ==> IsInt(GetInt(p, 12) + SlotAt(p, i).length)
    modifies buf
    ensures i < |old(View(buf[..])).recs| ==> PageOk(buf[..]) && View(buf[..]) == Removed(old(View(buf[..])), i)
    ensures i >= |old(View(buf[..])).recs| ==> (PageOk(buf[..]) <==> !SlotAt(old(buf[..]), i).Live())
    ensures !SlotAt(old(buf[..]), i).Live() ==> buf[..] == old(buf[..])
    ensures var p := old(buf[..]);
            SlotAt(p, i).Live() && GetInt(p, 12) + SlotAt(p, i).length <= PF_PAGE_SIZE / 2 ==> Marked(p, buf[..], i)
  {
    hide View, LayoutOk, SlotsOk, SpaceOk, Used, GetInt, PageOk, Marked, Holds, SlotAt, Compacted, Decode;
    ghost var p := buf[..];
    PageInts(p, i);
    var over := MarkDeleted(buf, i);
    ghost var q := buf[..];
    if i >= |View(p).recs| && SlotAt(p, i).Live() {
      MarkedBeyond(p, q, i);
    } else if SlotAt(p, i).Live() {
      MarkedIssued(p, q, i);
      SlotsFirst(Decode(q));
    }
    if over {
      CompactPage(buf);
      if i >= |View(p).recs| {
        NotPacked(buf[..], PackedLayout(Decode(q)));
      } else {
        SlotsFirst(Decode(q));
        PackedOk(Decode(q));
        PageIs(buf[..], PackedLayout(Decode(q)));
      }
    }
  }

  lemma PageInts(p: seq<Byte>, i: nat)
    requires PageOk(p)
    ensures IsInt(GetInt(p, 4) - 1)
    ensures i < |View(p).recs| && !SlotAt(p, i).Live() ==> Removed(View(p), i) == View(p)
  {
    hide View, LayoutOk, SpaceOk, GetInt;
    PageHas(p);
    if i < |View(p).recs| { LiveRec(p, Decode(p), i); }
  }

  function Zeros(n: nat): (z: seq<Byte>)
    ensures |z| == n && forall i | 0 <= i < n :: z[i] == 0
  {
    seq(n, i => 0)
  }

  lemma OneRecord(p: seq<Byte>)
    requires PageOk(p) && View(p) == Added(NEW_PAGE, Zeros(3004))
    ensures |p| == PF_PAGE_SIZE && SlotAt(p, 0) == Slot(3004, 1092) && p[1092..] == Zeros(3004)
    ensures SlotAt(p, 134).length == 0 && GetInt(p, 12) == 1064
  {
    hide View, Used, GetInt, SpaceOk;
    var l := Decode(p);
    PageHas(p);
    LiveRec(p, l, 0);
    LiveLength(l, 0);
    assert p[l.slots[0].offset..l.slots[0].offset + l.slots[0].length] == Zeros(3004);
    ZeroInt(p, 1092);
    assert Bytes(l.slots, 1) == SlotSize(l.slots[0]) + Bytes(l.slots, 0);
  }

  lemma ZeroInt(p: seq<Byte>, o: nat)
    requires o + 4 <= |p|
    ensures p[o..] == Zeros(|p| - o) ==> GetInt(p, o) == 0
  {
    var z := p[o..];
    assert z[0] == p[o] && z[1] == p[o + 1] && z[2] == p[o + 2] && z[3] == p[o + 3];
  }

  lemma MarkedFirst(p: seq<Byte>, q: seq<Byte>)
    requires Marked(p, q, 134)
    ensures SlotAt(q, 0) == SlotAt(p, 0) && q[1092..] != Zeros(3004)
  {
    ZeroInt(q, 1092);
  }

  /** With one record of 3004 zero bytes on the page, slot 134 would lie in the record's first bytes.
      They read as a record of length 0, and deleting it writes into the record. */
  method OverwriteRecord() returns (buf: array<Byte>, ghost p: seq<Byte>)
    ensures PageOk(p) && View(p).recs == [Some(Zeros(3004))]
    ensures !PageOk(buf[..]) && Marked(p, buf[..], 134) && buf.Length == PF_PAGE_SIZE
    ensures SlotAt(buf[..], 0) == SlotAt(p, 0) == Slot(3004, 1092) && buf[1092..] != Zeros(3004) == p[1092..]
  {
    hide PageOk, View, GetInt, Marked, SlotAt, Removed;
    buf := new Byte[PF_PAGE_SIZE];
    InitNewPage(buf);
    var slot := AddRecord(buf, Zeros(3004));
    p := buf[..];
    OneRecord(p);
    RemoveRecord(buf, 134);
    MarkedFirst(p, buf[..]);
  }
}
